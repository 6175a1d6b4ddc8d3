/**
 * The two callbacks of the LoopNet spider, over pages given as data.
 *
 * `parse` walks the `.listing-address` entries of a search page and follows
 * the one link of every entry whose postal code is the target zip.
 * `parse_detail` reads a listing's header, drops the listing when its zip is
 * not the target, and otherwise yields one record of six fields.
 */
module Spider {
  import opened Wrappers
  import opened Chars
  import opened Price
  import opened Blurb
  import opened CityStateZip

  // ---------------------------------------------------------------------
  // The search page
  // ---------------------------------------------------------------------

  /**
   * One `.listing-address` element: the text of its postal-code span (None
   * when it has none) and the targets of its `a` elements.
   */
  datatype Entry = Entry(postalCode: Option<string>, links: seq<string>)

  /** What `parse` logs when it skips an entry. */
  datatype Warning = ErroneousZip(found: Option<string>) | UnexpectedLinkCount(count: nat)

  /** An entry `parse` follows: its postal code is exactly the target, and it has exactly one link. */
  predicate Accepted(e: Entry, zip: string) {
    e.postalCode == Some(zip) && |e.links| == 1
  }

  /**
   * The links `parse` follows for the entries, in entry order: at most one
   * per entry, each the one link of an accepted entry.
   */
  function Follows(entries: seq<Entry>, zip: string): (r: seq<string>)
    ensures |r| <= |entries|
    ensures forall x :: x in r ==> exists e :: e in entries && Accepted(e, zip) && x == e.links[0]
  {
    if entries == [] then []
    else
      var last := entries[|entries| - 1];
      Follows(entries[..|entries| - 1], zip) + (if Accepted(last, zip) then [last.links[0]] else [])
  }

  /**
   * The warnings `parse` logs for the entries, in entry order: at most one
   * per entry, each a postal code other than the target or a link count
   * other than one.
   */
  ghost function Warnings(entries: seq<Entry>, zip: string): (r: seq<Warning>)
    ensures |r| <= |entries|
    ensures forall w :: w in r ==>
      (w.ErroneousZip? && w.found != Some(zip)) || (w.UnexpectedLinkCount? && w.count != 1)
  {
    if entries == [] then []
    else
      var last := entries[|entries| - 1];
      Warnings(entries[..|entries| - 1], zip) +
        (if last.postalCode != Some(zip) then [ErroneousZip(last.postalCode)]
         else if |last.links| != 1 then [UnexpectedLinkCount(|last.links|)]
         else [])
  }

  /**
   * `parse`: the links followed, one per accepted entry in entry order, and
   * (as a ghost) the warnings logged for the entries skipped.
   */
  method Parse(entries: seq<Entry>, zip: string) returns (follows: seq<string>, ghost warnings: seq<Warning>)
    ensures follows == Follows(entries, zip)
    ensures warnings == Warnings(entries, zip)
  {
    follows := [];
    warnings := [];
    for i := 0 to |entries|
      invariant follows == Follows(entries[..i], zip)
      invariant warnings == Warnings(entries[..i], zip)
    {
      assert entries[..i + 1][..i] == entries[..i];
      var address := entries[i];
      var found := address.postalCode;
      if found != Some(zip) {
        warnings := warnings + [ErroneousZip(found)];
        continue;
      }
      var links := address.links;
      if |links| != 1 {
        warnings := warnings + [UnexpectedLinkCount(|links|)];
        continue;
      }
      follows := follows + [links[0]];
    }
    assert entries[..|entries|] == entries;
  }

  /** The follows of a page are those of its first part, then those of the rest. */
  lemma {:induction false} FollowsAppend(a: seq<Entry>, b: seq<Entry>, zip: string)
    ensures Follows(a + b, zip) == Follows(a, zip) + Follows(b, zip)
    decreases |b|
  {
    if b == [] {
      assert a + b == a;
    } else {
      var front := b[..|b| - 1];
      assert (a + b)[..|a + b| - 1] == a + front;
      FollowsAppend(a, front, zip);
    }
  }

  /**
   * idx lists, in increasing order, exactly the indices of the accepted
   * entries, and the k-th of the follows is the one link of entry idx[k].
   */
  ghost predicate Picks(entries: seq<Entry>, zip: string, idx: seq<nat>, follows: seq<string>) {
    |idx| == |follows| &&
    (forall k :: 0 <= k < |idx| ==>
      idx[k] < |entries| && Accepted(entries[idx[k]], zip) && follows[k] == entries[idx[k]].links[0]) &&
    (forall k, l :: 0 <= k < l < |idx| ==> idx[k] < idx[l]) &&
    (forall x :: 0 <= x < |entries| && Accepted(entries[x], zip) ==> x in idx)
  }

  /** One more entry: its index joins the picked ones when it is accepted, and its link joins the follows. */
  lemma PicksSnoc(front: seq<Entry>, e: Entry, zip: string, idx0: seq<nat>, follows0: seq<string>)
    returns (idx: seq<nat>)
    requires Picks(front, zip, idx0, follows0)
    ensures Picks(front + [e], zip, idx, follows0 + (if Accepted(e, zip) then [e.links[0]] else []))
  {
    var es := front + [e];
    var n := |front|;
    assert es[n] == e;
    assert forall x :: 0 <= x < n ==> es[x] == front[x];
    if Accepted(e, zip) {
      idx := idx0 + [n];
      var follows := follows0 + [e.links[0]];
      forall k | 0 <= k < |idx|
        ensures idx[k] < |es| && Accepted(es[idx[k]], zip) && follows[k] == es[idx[k]].links[0]
      {
        if k < |idx0| {
          assert idx[k] == idx0[k] && follows[k] == follows0[k];
        }
      }
      forall x | 0 <= x < |es| && Accepted(es[x], zip) ensures x in idx {
        if x < n {
          assert x in idx0;
        }
      }
    } else {
      idx := idx0;
      assert follows0 + [] == follows0;
    }
  }

  /**
   * What `parse` follows, entry by entry: the increasing indices of exactly
   * the accepted entries, whose single links are the follows in that order.
   */
  lemma {:induction false} FollowsAreAccepted(entries: seq<Entry>, zip: string) returns (idx: seq<nat>)
    ensures Picks(entries, zip, idx, Follows(entries, zip))
  {
    if entries == [] {
      idx := [];
    } else {
      var n := |entries| - 1;
      var front := entries[..n];
      var idx0 := FollowsAreAccepted(front, zip);
      idx := PicksSnoc(front, entries[n], zip, idx0, Follows(front, zip));
      assert entries == front + [entries[n]];
    }
  }

  /** Each entry gives either one follow or one warning, never both. */
  lemma {:induction false} FollowsOrWarnings(entries: seq<Entry>, zip: string)
    ensures |Follows(entries, zip)| + |Warnings(entries, zip)| == |entries|
  {
    if entries != [] {
      FollowsOrWarnings(entries[..|entries| - 1], zip);
    }
  }

  /** An entry without the target postal code, a missing one included, adds no follow. */
  lemma SkipsOtherZip(entries: seq<Entry>, e: Entry, zip: string)
    requires e.postalCode != Some(zip)
    ensures Follows(entries + [e], zip) == Follows(entries, zip)
    ensures Warnings(entries + [e], zip) == Warnings(entries, zip) + [ErroneousZip(e.postalCode)]
  {
    assert (entries + [e])[..|entries|] == entries;
  }

  /** An entry with the target postal code but no link or several adds no follow. */
  lemma SkipsLinkCount(entries: seq<Entry>, e: Entry, zip: string)
    requires e.postalCode == Some(zip) && |e.links| != 1
    ensures Follows(entries + [e], zip) == Follows(entries, zip)
    ensures Warnings(entries + [e], zip) == Warnings(entries, zip) + [UnexpectedLinkCount(|e.links|)]
  {
    assert (entries + [e])[..|entries|] == entries;
  }

  // ---------------------------------------------------------------------
  // The detail page
  // ---------------------------------------------------------------------

  /**
   * The `.property-info` header of a listing, as the first text of each
   * selector `parse_detail` reads (None where the selector finds nothing).
   */
  datatype Header = Header(
    cityState: Option<string>,  // `.city-state::text`
    blurb: Option<string>,      // `h2:not(.property-price)::text`
    price: Option<string>,      // `.property-price::text`
    address: Option<string>)    // `h1::text`

  /** A field of the record: a text, a number, or `None`. */
  datatype Value = Text(text: string) | Number(number: nat) | Null

  /** Why `parse_detail` raises, in the order it meets them. */
  datatype Failure =
    | CityStateMissing   // `re.search` on None: TypeError
    | CityStateNoMatch   // `.groups()` on no match: AttributeError
    | BlurbMissing       // `re.sub` on None: TypeError
    | PriceMissing       // the price cleanup on None: TypeError
    | PriceUnparsable    // `float` of the cleaned price: ValueError

  /** The end of one `parse_detail` call: a record, a bare `return`, or an exception. */
  datatype DetailOutcome = Emitted(item: map<string, Value>) | Returned | Raised(failure: Failure)

  /** The six keys of a record. */
  const RecordKeys: set<string> := {"address", "city", "state", "zip", "blurb", "price"}

  /** A text field that may be `None`. */
  function TextOrNull(o: Option<string>): (v: Value)
    ensures v.Text? || v.Null?
  {
    if o.Some? then Text(o.value) else Null
  }

  /** The record `item.update` builds. */
  function Record(address: Option<string>, g: Groups, blurb: string, price: nat): (item: map<string, Value>)
    ensures item.Keys == RecordKeys
    ensures item["address"] == TextOrNull(address)
    ensures item["city"] == Text(g.city) && item["state"] == Text(g.state) && item["zip"] == Text(g.zip)
    ensures item["blurb"] == Text(blurb) && item["price"] == Number(price)
  {
    map["address" := TextOrNull(address), "city" := Text(g.city), "state" := Text(g.state),
        "zip" := Text(g.zip), "blurb" := Text(blurb), "price" := Number(price)]
  }

  /** What `parse_detail` does with a header, for the target zip. */
  function Detail(h: Header, zip: string): (out: DetailOutcome)
    ensures out.Emitted? ==> out.item.Keys == RecordKeys && out.item["zip"] == Text(zip)
    ensures out == Returned <==>
      h.cityState.Some? && Search(h.cityState.value).Some? && Search(h.cityState.value).value.groups.zip != zip
    ensures out.Emitted? <==>
      h.cityState.Some? && Search(h.cityState.value).Some? && Search(h.cityState.value).value.groups.zip == zip &&
      h.blurb.Some? && h.price.Some? && IsFloatText(Clean(h.price.value))
  {
    if h.cityState.None? then Raised(CityStateMissing)
    else
      match Search(h.cityState.value)
      case None => Raised(CityStateNoMatch)
      case Some(found) =>
        if found.groups.zip != zip then Returned
        else if h.blurb.None? then Raised(BlurbMissing)
        else if h.price.None? then Raised(PriceMissing)
        else
          match ParseInt(h.price.value)
          case None => Raised(PriceUnparsable)
          case Some(price) => Emitted(Record(h.address, found.groups, Normalize(h.blurb.value), price))
  }

  /** `parse_detail`: fills `item` field by field and yields it, unless it returns or raises first. */
  method ParseDetail(h: Header, zip: string) returns (out: DetailOutcome)
    ensures out == Detail(h, zip)
  {
    var item: map<string, Value> := map[];
    if h.cityState.None? {
      return Raised(CityStateMissing);
    }
    var found := Search(h.cityState.value);
    if found.None? {
      return Raised(CityStateNoMatch);
    }
    var city, state, foundZip := found.value.groups.city, found.value.groups.state, found.value.groups.zip;
    if foundZip != zip {
      return Returned;
    }
    if h.blurb.None? {
      return Raised(BlurbMissing);
    }
    var blurb := Normalize(h.blurb.value);
    if h.price.None? {
      return Raised(PriceMissing);
    }
    var price := ParseInt(h.price.value);
    if price.None? {
      return Raised(PriceUnparsable);
    }
    item := item["address" := TextOrNull(h.address)];
    item := item["city" := Text(city)];
    item := item["state" := Text(state)];
    item := item["zip" := Text(foundZip)];
    item := item["blurb" := Text(blurb)];
    item := item["price" := Number(price.value)];
    out := Emitted(item);
  }

  /**
   * The fields of an emitted record: city, state and zip are the groups of
   * the leftmost match of the header's city-state text; the blurb is the
   * normalised header blurb, which is its words joined by single spaces;
   * the price is the cleaned price rounded
   * half to even; the address is the `h1` text, or None.
   */
  lemma DetailFields(h: Header, zip: string)
    requires Detail(h, zip).Emitted?
    ensures h.cityState.Some? && Search(h.cityState.value).Some?
    ensures var g := Search(h.cityState.value).value.groups; var item := Detail(h, zip).item;
      WellFormed(g) && g.zip == zip &&
      item["city"] == Text(g.city) && item["state"] == Text(g.state) && item["zip"] == Text(g.zip)
    ensures h.blurb.Some? && Detail(h, zip).item["blurb"] == Text(Normalize(h.blurb.value))
    ensures var b := Normalize(h.blurb.value);
      b == Join(Words(h.blurb.value)) && IsNormal(b) && NonSpace(b) == NonSpace(h.blurb.value)
    ensures h.price.Some? && Detail(h, zip).item["price"].Number? &&
      var d := ParseFloat(Clean(h.price.value)).value;
      IsRoundHalfEven(d.mantissa, Pow10(d.scale), Detail(h, zip).item["price"].number)
    ensures Detail(h, zip).item["address"] == TextOrNull(h.address)
  {
    NormalizeIsJoinWords(h.blurb.value);
  }

  /**
   * A city-state text the pattern fits nowhere in makes `parse_detail` raise;
   * one it fits somewhere in never does so at that step.
   */
  lemma DetailNoMatch(h: Header, zip: string)
    requires h.cityState.Some?
    ensures Detail(h, zip) == Raised(CityStateNoMatch) <==>
      forall i: nat, c :: !Fits(h.cityState.value, i, c)
  {
    assert Detail(h, zip) == Raised(CityStateNoMatch) <==> Search(h.cityState.value).None?;
    SearchLeftmost(h.cityState.value);
  }

  // ---------------------------------------------------------------------
  // Samples
  // ---------------------------------------------------------------------

  /**
   * A search page of five entries: the first and last are followed; a
   * missing postal code, two links and another zip are skipped.
   */
  lemma FollowsSample(zip: string, other: string, a: string, b: string, c: string, d: string, f: string)
    requires other != zip
    ensures Follows([Entry(Some(zip), [a]), Entry(None, [b]), Entry(Some(zip), [c, d]),
                     Entry(Some(other), [b]), Entry(Some(zip), [f])], zip) == [a, f]
  {
    var e1, e2, e3 := Entry(Some(zip), [a]), Entry(None, [b]), Entry(Some(zip), [c, d]);
    var e4, e5 := Entry(Some(other), [b]), Entry(Some(zip), [f]);
    assert Follows([e1], zip) == [a] by {
      assert [e1][..0] == [];
    }
    assert Follows([e1, e2], zip) == [a] by {
      assert [e1, e2] == [e1] + [e2];
      SkipsOtherZip([e1], e2, zip);
    }
    assert Follows([e1, e2, e3], zip) == [a] by {
      assert [e1, e2, e3] == [e1, e2] + [e3];
      SkipsLinkCount([e1, e2], e3, zip);
    }
    assert Follows([e1, e2, e3, e4], zip) == [a] by {
      assert [e1, e2, e3, e4] == [e1, e2, e3] + [e4];
      SkipsOtherZip([e1, e2, e3], e4, zip);
    }
    assert [e1, e2, e3, e4, e5][..4] == [e1, e2, e3, e4];
  }

  /** The header of a San Francisco office listing. */
  function SampleHeader(price: string): Header {
    Header(Some(Sample), Some("Office building"), Some(price), None)
  }

  lemma SampleBlurb()
    ensures Normalize("Office building") == "Office building"
  {
    assert IsNormal("Office building");
    NormalizeFixesNormal("Office building");
  }

  /** For its own zip the header gives the whole record. */
  lemma DetailSample()
    ensures Detail(SampleHeader("$1,250,000"), "94107") ==
      Emitted(Record(None, Groups("San Francisco", "CA", "94107"), "Office building", 1250000))
  {
    SearchExample();
    SampleBlurb();
    ParseIntWholeDollars();
  }

  /** For another zip it gives nothing. */
  lemma DetailOtherZip()
    ensures Detail(SampleHeader("$1,250,000"), "94108") == Returned
  {
    SearchExample();
  }

  /** A price with no digits makes it raise. */
  lemma DetailNoPrice()
    ensures Detail(SampleHeader("N/A"), "94107") == Raised(PriceUnparsable)
  {
    SearchExample();
    ParseIntNoDigits();
  }
}
