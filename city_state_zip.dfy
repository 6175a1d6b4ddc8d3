/**
 * The header's city/state/zip splitter: `CSZ_REGEX.search(text).groups()` with
 * `CSZ_REGEX = (\w[^,]*),\s+(\w+)\s+(\d+)`.
 *
 * `re.search` tries the pattern at every start position from the left and
 * returns the first match. At a fixed start the match of this pattern is
 * determined: `[^,]*` must stop at the first comma, each `\s+` and `\w+`
 * must take the whole run (a shorter one leaves a character the next item
 * cannot take), and the greedy `\d+` takes the whole digit run. `MatchAt`
 * computes that match; `Fits` is the pattern as a language, against which
 * it is proved sound and complete.
 */
module CityStateZip {
  import opened Wrappers
  import opened Chars

  /** The three groups of a match: city, state, zip. */
  datatype Groups = Groups(city: string, state: string, zip: string)

  /** A successful `re.search`: where the match starts, and its groups. */
  datatype Match = Match(start: nat, groups: Groups)

  /** The character classes the pattern repeats. */
  datatype CharClass = Space | Word | Digit | NotComma

  predicate InClass(c: char, k: CharClass) {
    match k
    case Space => IsSpace(c)
    case Word => IsWord(c)
    case Digit => IsDigit(c)
    case NotComma => c != ','
  }

  /** How far a greedy repetition of class k reaches from position i. */
  function Span(s: string, i: nat, k: CharClass): (j: nat)
    requires i <= |s|
    ensures i <= j <= |s|
    decreases |s| - i
  {
    if i < |s| && InClass(s[i], k) then Span(s, i + 1, k) else i
  }

  /** Span takes only characters of class k, and stops at the end or at one outside it. */
  lemma {:induction false} SpanSound(s: string, i: nat, k: CharClass)
    requires i <= |s|
    ensures forall x :: i <= x < Span(s, i, k) ==> InClass(s[x], k)
    ensures Span(s, i, k) == |s| || !InClass(s[Span(s, i, k)], k)
    decreases |s| - i
  {
    if i < |s| && InClass(s[i], k) {
      SpanSound(s, i + 1, k);
    }
  }

  /** A run of class k from i that ends at j, on a character outside k or at the end, is exactly what Span finds. */
  lemma {:induction false} SpanIs(s: string, i: nat, j: nat, k: CharClass)
    requires i <= j <= |s|
    requires forall x :: i <= x < j ==> InClass(s[x], k)
    requires j == |s| || !InClass(s[j], k)
    ensures Span(s, i, k) == j
    decreases j - i
  {
    if i < j {
      SpanIs(s, i + 1, j, k);
    }
  }

  /** A run of class k from i to j lies inside what Span finds. */
  lemma {:induction false} SpanCovers(s: string, i: nat, j: nat, k: CharClass)
    requires i <= j <= |s|
    requires forall x :: i <= x < j ==> InClass(s[x], k)
    ensures Span(s, i, k) >= j
    decreases j - i
  {
    if i < j {
      SpanCovers(s, i + 1, j, k);
    }
  }

  /** Every character of t is in class k. */
  predicate AllIn(t: string, k: CharClass) {
    forall x :: 0 <= x < |t| ==> InClass(t[x], k)
  }

  /** What the pattern's groups always look like. */
  predicate WellFormed(g: Groups) {
    |g.city| > 0 && IsWord(g.city[0]) && AllIn(g.city, NotComma) &&
    |g.state| > 0 && AllIn(g.state, Word) &&
    |g.zip| > 0 && AllIn(g.zip, Digit)
  }

  /**
   * Where a match starting at i puts its pieces: the comma at j, the state
   * at k..m, the zip at p..e.
   */
  datatype Cut = Cut(j: nat, k: nat, m: nat, p: nat, e: nat)

  /**
   * s[i..c.e] is in the language of the pattern, with the city at s[i..c.j],
   * the comma at s[c.j], whitespace at s[c.j+1..c.k], the state at
   * s[c.k..c.m], whitespace at s[c.m..c.p] and the zip at s[c.p..c.e].
   */
  ghost predicate Fits(s: string, i: nat, c: Cut) {
    i < c.j && c.j + 1 < c.k && c.k < c.m && c.m < c.p && c.p < c.e <= |s| &&
    IsWord(s[i]) &&
    (forall x :: i < x < c.j ==> s[x] != ',') &&
    s[c.j] == ',' &&
    (forall x :: c.j < x < c.k ==> IsSpace(s[x])) &&
    (forall x :: c.k <= x < c.m ==> IsWord(s[x])) &&
    (forall x :: c.m <= x < c.p ==> IsSpace(s[x])) &&
    (forall x :: c.p <= x < c.e ==> IsDigit(s[x]))
  }

  /** The pieces of the match of the pattern anchored at position i, if there is one. */
  function CutAt(s: string, i: nat): (r: Option<Cut>)
    requires i <= |s|
    ensures r.Some? ==> var c := r.value;
      i < c.j && c.j + 1 < c.k && c.k < c.m && c.m < c.p && c.p < c.e <= |s|
    ensures r.Some? ==> IsWord(s[i])
  {
    if i == |s| || !IsWord(s[i]) then None
    else
      var j := Span(s, i + 1, NotComma);
      if j == |s| then None
      else
        var k := Span(s, j + 1, Space);
        if k == j + 1 then None
        else
          var m := Span(s, k, Word);
          if m == k then None
          else
            var p := Span(s, m, Space);
            if p == m then None
            else
              var e := Span(s, p, Digit);
              if e == p then None
              else Some(Cut(j, k, m, p, e))
  }

  /**
   * Soundness: what CutAt finds is a fit of the pattern whose zip is the
   * whole digit run (the greedy `\d+`).
   */
  lemma CutAtSound(s: string, i: nat)
    requires i <= |s| && CutAt(s, i).Some?
    ensures Fits(s, i, CutAt(s, i).value)
    ensures var e := CutAt(s, i).value.e; e == |s| || !IsDigit(s[e])
  {
    var c := CutAt(s, i).value;
    SpanSound(s, i + 1, NotComma);
    SpanSound(s, c.j + 1, Space);
    SpanSound(s, c.k, Word);
    SpanSound(s, c.m, Space);
    SpanSound(s, c.p, Digit);
  }

  /**
   * Completeness: wherever the pattern fits at i, CutAt finds a match there
   * with the same city and state; its zip extends the fitted one to the end
   * of the digit run.
   */
  lemma CutAtComplete(s: string, i: nat, c: Cut)
    requires Fits(s, i, c)
    ensures CutAt(s, i).Some?
    ensures var d := CutAt(s, i).value; d.j == c.j && d.k == c.k && d.m == c.m && d.p == c.p && c.e <= d.e
  {
    SpanIs(s, i + 1, c.j, NotComma);
    SpanIs(s, c.j + 1, c.k, Space);
    SpanIs(s, c.k, c.m, Word);
    SpanIs(s, c.m, c.p, Space);
    SpanCovers(s, c.p, c.e, Digit);
  }

  /** The three groups of a fit. */
  function GroupsOf(s: string, i: nat, c: Cut): (g: Groups)
    requires Fits(s, i, c)
    ensures WellFormed(g)
  {
    var g := Groups(s[i..c.j], s[c.k..c.m], s[c.p..c.e]);
    assert AllIn(g.city, NotComma) by {
      forall x | 0 <= x < |g.city| ensures g.city[x] != ',' {
        assert g.city[x] == s[i + x];
      }
    }
    assert AllIn(g.state, Word) by {
      forall x | 0 <= x < |g.state| ensures IsWord(g.state[x]) {
        assert g.state[x] == s[c.k + x];
      }
    }
    assert AllIn(g.zip, Digit) by {
      forall x | 0 <= x < |g.zip| ensures IsDigit(g.zip[x]) {
        assert g.zip[x] == s[c.p + x];
      }
    }
    g
  }

  /** A fit whose zip is the whole digit run is exactly what CutAt finds. */
  lemma CutAtExact(s: string, i: nat, c: Cut)
    requires Fits(s, i, c) && (c.e == |s| || !IsDigit(s[c.e]))
    ensures CutAt(s, i) == Some(c)
  {
    CutAtComplete(s, i, c);
    SpanIs(s, c.p, c.e, Digit);
  }

  /** `CSZ_REGEX.match(s, i)`: the groups of the pattern anchored at position i, if it matches there. */
  function MatchAt(s: string, i: nat): (r: Option<Groups>)
    requires i <= |s|
    ensures r.Some? <==> CutAt(s, i).Some?
    ensures r.Some? ==> WellFormed(r.value)
  {
    match CutAt(s, i)
    case None => None
    case Some(c) => CutAtSound(s, i); Some(GroupsOf(s, i, c))
  }

  /** `CSZ_REGEX.search(s, pos=i)`: the leftmost match at position i or later. */
  function SearchFrom(s: string, i: nat): (r: Option<Match>)
    requires i <= |s|
    ensures r.Some? ==> i <= r.value.start <= |s| && MatchAt(s, r.value.start) == Some(r.value.groups)
    ensures r.Some? ==> forall x :: i <= x < r.value.start ==> CutAt(s, x).None?
    ensures r.None? ==> forall x :: i <= x <= |s| ==> CutAt(s, x).None?
    decreases |s| - i
  {
    var c := CutAt(s, i);
    if c.Some? then CutAtSound(s, i); Some(Match(i, GroupsOf(s, i, c.value)))
    else if i == |s| then None
    else SearchFrom(s, i + 1)
  }

  /** `CSZ_REGEX.search(s)`. */
  function Search(s: string): (r: Option<Match>)
    ensures r.Some? ==> WellFormed(r.value.groups)
  {
    SearchFrom(s, 0)
  }

  /**
   * The search succeeds exactly when the pattern fits somewhere in s, and
   * then it reports the leftmost place it fits, with the groups of a fit
   * there whose zip is the whole digit run.
   */
  lemma SearchLeftmost(s: string)
    ensures Search(s).Some? ==>
      var mt := Search(s).value;
      (exists c :: Fits(s, mt.start, c) && (c.e == |s| || !IsDigit(s[c.e])) &&
        mt.groups == Groups(s[mt.start..c.j], s[c.k..c.m], s[c.p..c.e])) &&
      (forall i: nat, c :: i < mt.start ==> !Fits(s, i, c))
    ensures Search(s).None? <==> forall i: nat, c :: !Fits(s, i, c)
  {
    var r := Search(s);
    if r.Some? {
      CutAtSound(s, r.value.start);
      var c := CutAt(s, r.value.start).value;
      assert r.value.groups == Groups(s[r.value.start..c.j], s[c.k..c.m], s[c.p..c.e]);
    }
    forall i: nat, c | Fits(s, i, c) && (r.None? || i < r.value.start)
      ensures false
    {
      CutAtComplete(s, i, c);
    }
  }

  /** A text the pattern matches at its very start is split there. */
  lemma SearchAtStart(s: string, c: Cut, g: Groups)
    requires CutAt(s, 0) == Some(c)
    requires s[0..c.j] == g.city && s[c.k..c.m] == g.state && s[c.p..c.e] == g.zip
    ensures Search(s) == Some(Match(0, g))
  {
    CutAtSound(s, 0);
  }

  const Sample := "San Francisco, CA 94107"

  lemma SampleCut()
    ensures CutAt(Sample, 0) == Some(Cut(13, 15, 17, 18, 23))
  {
    SampleFits();
    CutAtExact(Sample, 0, Cut(13, 15, 17, 18, 23));
  }

  lemma SampleFits()
    ensures Fits(Sample, 0, Cut(13, 15, 17, 18, 23))
    ensures |Sample| == 23
  {
  }

  lemma SampleGroups()
    ensures Sample[0..13] == "San Francisco" && Sample[15..17] == "CA" && Sample[18..23] == "94107"
  {
  }

  /** The header of a San Francisco listing splits into its three parts. */
  lemma SearchExample()
    ensures Search(Sample) == Some(Match(0, Groups("San Francisco", "CA", "94107")))
  {
    SampleCut();
    SampleGroups();
    SearchAtStart(Sample, Cut(13, 15, 17, 18, 23), Groups("San Francisco", "CA", "94107"));
  }
}
