/**
 * The blurb normaliser of `parse_detail`: `re.sub(r'\s+', ' ', blurb).strip()`.
 * Every run of whitespace becomes one space, then the whitespace at both
 * ends is removed.
 */
module Blurb {
  import opened Chars

  /** Every character of w is whitespace. */
  predicate AllSpace(w: string) {
    forall i :: 0 <= i < |w| ==> IsSpace(w[i])
  }

  /** A word of `str.split()`: non-empty, with no whitespace in it. */
  predicate IsWordText(w: string) {
    w != [] && forall i :: 0 <= i < |w| ==> !IsSpace(w[i])
  }

  /** `str.lstrip()`: s without its leading whitespace. */
  function StripLeft(s: string): (r: string)
    ensures |r| <= |s| && r == s[|s| - |r|..]
    ensures r == [] || !IsSpace(r[0])
    ensures AllSpace(s[..|s| - |r|])
  {
    if s != [] && IsSpace(s[0]) then
      var r := StripLeft(s[1..]);
      assert s[..|s| - |r|] == [s[0]] + s[1..][..|s| - 1 - |r|];
      r
    else s
  }

  /** `str.rstrip()`: s without its trailing whitespace. */
  function StripRight(s: string): (r: string)
    ensures |r| <= |s| && r == s[..|r|]
    ensures r == [] || !IsSpace(r[|r| - 1])
    ensures AllSpace(s[|r|..])
  {
    if s != [] && IsSpace(s[|s| - 1]) then
      var r := StripRight(s[..|s| - 1]);
      assert s[|r|..] == s[..|s| - 1][|r|..] + [s[|s| - 1]];
      r
    else s
  }

  /**
   * `str.strip()`: s without whitespace at either end. The result is a slice
   * of s with no whitespace at its ends, and what lies outside it is
   * whitespace.
   */
  function Strip(s: string): (r: string)
    ensures r == [] || (!IsSpace(r[0]) && !IsSpace(r[|r| - 1]))
    ensures exists a: nat :: (a <= |s| - |r| && r == s[a..][..|r|] &&
      AllSpace(s[..a]) && AllSpace(s[a + |r|..]))
  {
    StripParts(s);
    StripRight(StripLeft(s))
  }

  /** Where the stripped text lies in s. */
  lemma StripParts(s: string)
    ensures var l := StripLeft(s); var r := StripRight(l); var a := |s| - |l|;
      r == s[a..][..|r|] && s[a + |r|..] == l[|r|..] && (r != [] ==> r[0] == l[0])
  {
  }

  /** The characters of s that are not whitespace, in order. */
  function NonSpace(s: string): (r: string)
    ensures |r| <= |s|
  {
    if s == [] then []
    else if IsSpace(s[0]) then NonSpace(s[1..])
    else [s[0]] + NonSpace(s[1..])
  }

  /** Its only whitespace characters are spaces, and no two whitespace characters are adjacent. */
  predicate Collapsed(r: string) {
    (forall i :: 0 <= i < |r| && IsSpace(r[i]) ==> r[i] == ' ') &&
    (forall i :: 0 <= i < |r| - 1 ==> !IsSpace(r[i]) || !IsSpace(r[i + 1]))
  }

  /** The shape of a normalised blurb: collapsed, and no whitespace at either end. */
  predicate IsNormal(r: string) {
    Collapsed(r) && (r == [] || (!IsSpace(r[0]) && !IsSpace(r[|r| - 1])))
  }

  lemma {:induction false} NonSpaceAppend(a: string, b: string)
    ensures NonSpace(a + b) == NonSpace(a) + NonSpace(b)
  {
    if a == [] {
      assert a + b == b;
    } else {
      assert (a + b)[1..] == a[1..] + b;
      NonSpaceAppend(a[1..], b);
    }
  }

  /** A text of whitespace alone has no other characters. */
  lemma {:induction false} NonSpaceOfSpaces(s: string)
    requires AllSpace(s)
    ensures NonSpace(s) == []
  {
    if s != [] {
      NonSpaceOfSpaces(s[1..]);
    }
  }

  /** Removing leading whitespace removes whitespace only. */
  lemma StripLeftNonSpace(s: string)
    ensures NonSpace(StripLeft(s)) == NonSpace(s)
  {
    var l := StripLeft(s);
    var front := s[..|s| - |l|];
    assert s == front + l;
    NonSpaceAppend(front, l);
    NonSpaceOfSpaces(front);
  }

  /** Removing trailing whitespace removes whitespace only. */
  lemma StripRightNonSpace(s: string)
    ensures NonSpace(StripRight(s)) == NonSpace(s)
  {
    var r := StripRight(s);
    var back := s[|r|..];
    assert s == r + back;
    NonSpaceAppend(r, back);
    NonSpaceOfSpaces(back);
  }

  /** Putting x in front of a collapsed text keeps it collapsed when x is a space followed by a non-space, or not whitespace at all. */
  lemma CollapsedCons(x: char, c: string)
    requires Collapsed(c)
    requires IsSpace(x) ==> x == ' ' && (c == [] || !IsSpace(c[0]))
    ensures Collapsed([x] + c)
  {
    var r := [x] + c;
    forall i | 0 <= i < |r| - 1 ensures !IsSpace(r[i]) || !IsSpace(r[i + 1]) {
      if i > 0 {
        assert r[i] == c[i - 1] && r[i + 1] == c[i];
      }
    }
    forall i | 0 <= i < |r| && IsSpace(r[i]) ensures r[i] == ' ' {
      if i > 0 {
        assert r[i] == c[i - 1];
      }
    }
  }

  /** Any slice of a collapsed text is collapsed. */
  lemma CollapsedSlice(t: string, a: nat, b: nat)
    requires Collapsed(t) && a <= b <= |t|
    ensures Collapsed(t[a..b])
  {
    var r := t[a..b];
    assert forall i :: 0 <= i < |r| ==> r[i] == t[a + i];
  }

  /** `re.sub(r'\s+', ' ', s)`: each maximal run of whitespace in s replaced by one space. */
  function Collapse(s: string): (r: string)
    ensures |r| <= |s|
    ensures r == [] <==> s == []
    decreases |s|
  {
    if s == [] then []
    else if IsSpace(s[0]) then [' '] + Collapse(StripLeft(s[1..]))
    else [s[0]] + Collapse(s[1..])
  }

  /**
   * The collapsed text has no two adjacent whitespace characters and no
   * whitespace other than spaces; it is empty only when s is, and it starts
   * and ends with whitespace exactly when s does.
   */
  lemma {:induction false} CollapseShape(s: string)
    ensures Collapsed(Collapse(s))
    ensures Collapse(s) == [] <==> s == []
    ensures s != [] ==> (IsSpace(Collapse(s)[0]) <==> IsSpace(s[0]))
    ensures s != [] ==> (IsSpace(Collapse(s)[|Collapse(s)| - 1]) <==> IsSpace(s[|s| - 1]))
    decreases |s|
  {
    if s != [] {
      var rest := s[1..];
      if IsSpace(s[0]) {
        var t := StripLeft(rest);
        CollapseShape(t);
        CollapsedCons(' ', Collapse(t));
      } else {
        CollapseShape(rest);
        CollapsedCons(s[0], Collapse(rest));
      }
    }
  }

  /** Collapsing changes whitespace only: the other characters stay, in order. */
  lemma {:induction false} CollapseNonSpace(s: string)
    ensures NonSpace(Collapse(s)) == NonSpace(s)
    decreases |s|
  {
    if s != [] {
      if IsSpace(s[0]) {
        var t := StripLeft(s[1..]);
        CollapseNonSpace(t);
        StripLeftNonSpace(s[1..]);
        assert NonSpace([' '] + Collapse(t)) == NonSpace(Collapse(t));
      } else {
        CollapseNonSpace(s[1..]);
        assert ([s[0]] + Collapse(s[1..]))[1..] == Collapse(s[1..]);
      }
    }
  }

  /** Removing leading whitespace keeps a text collapsed. */
  lemma StripLeftCollapsed(c: string)
    requires Collapsed(c)
    ensures Collapsed(StripLeft(c))
  {
    CollapsedSlice(c, |c| - |StripLeft(c)|, |c|);
  }

  /** Removing trailing whitespace keeps a text collapsed. */
  lemma StripRightCollapsed(l: string)
    requires Collapsed(l)
    ensures Collapsed(StripRight(l))
  {
    CollapsedSlice(l, 0, |StripRight(l)|);
  }

  /** Right-stripping a text with no leading whitespace leaves none at either end. */
  lemma StripRightEnds(l: string)
    requires l == [] || !IsSpace(l[0])
    ensures var r := StripRight(l); r == [] || (!IsSpace(r[0]) && !IsSpace(r[|r| - 1]))
  {
    var r := StripRight(l);
    if r != [] {
      assert r[0] == l[0];
    }
  }

  /** Stripping a collapsed text gives the normal shape. */
  lemma StripCollapsed(c: string)
    requires Collapsed(c)
    ensures IsNormal(Strip(c))
  {
    StripLeftCollapsed(c);
    StripRightCollapsed(StripLeft(c));
    StripRightEnds(StripLeft(c));
  }

  /**
   * The normalised blurb: `re.sub(r'\s+', ' ', blurb).strip()`. It has the
   * normal shape, and its non-whitespace characters are those of the input,
   * in order.
   */
  function Normalize(s: string): (r: string)
    ensures IsNormal(r)
    ensures NonSpace(r) == NonSpace(s)
  {
    var c := Collapse(s);
    CollapseShape(s);
    StripCollapsed(c);
    CollapseNonSpace(s);
    StripLeftNonSpace(c);
    StripRightNonSpace(StripLeft(c));
    Strip(c)
  }

  /** A collapsed text that starts with a space has no whitespace right after it. */
  lemma CollapsedAfterSpace(t: string)
    requires Collapsed(t) && t != [] && IsSpace(t[0])
    ensures StripLeft(t[1..]) == t[1..]
  {
    if |t| > 1 {
      assert t[1..][0] == t[1];
    }
  }

  /** Collapsing a text that is already collapsed changes nothing. */
  lemma {:induction false} CollapseFixesCollapsed(t: string)
    requires Collapsed(t)
    ensures Collapse(t) == t
  {
    if t != [] {
      var rest := t[1..];
      CollapsedSlice(t, 1, |t|);
      CollapseFixesCollapsed(rest);
      if IsSpace(t[0]) {
        CollapsedAfterSpace(t);
        assert Collapse(t) == [' '] + Collapse(rest);
      } else {
        assert Collapse(t) == [t[0]] + Collapse(rest);
      }
      assert t == [t[0]] + rest;
    }
  }

  /** A blurb of the normal shape comes out of the normaliser unchanged. */
  lemma NormalizeFixesNormal(t: string)
    requires IsNormal(t)
    ensures Normalize(t) == t
  {
    CollapseFixesCollapsed(t);
  }

  /** Normalising twice gives what normalising once gives. */
  lemma NormalizeIdempotent(s: string)
    ensures Normalize(Normalize(s)) == Normalize(s)
  {
    NormalizeFixesNormal(Normalize(s));
  }

  /** Left-stripping x + y strips y too when x is all whitespace, and leaves y whole otherwise. */
  lemma {:induction false} StripLeftAppend(x: string, y: string)
    ensures AllSpace(x) ==> StripLeft(x + y) == StripLeft(y)
    ensures !AllSpace(x) ==> StripLeft(x + y) == StripLeft(x) + y
  {
    if x == [] {
      assert x + y == y;
    } else if IsSpace(x[0]) {
      assert StripLeft(x + y) == StripLeft(x[1..] + y) by {
        assert (x + y)[1..] == x[1..] + y;
      }
      AllSpaceTail(x);
      StripLeftAppend(x[1..], y);
    } else {
      assert !AllSpace(x);
      assert (x + y)[0] == x[0];
    }
  }

  /** Right-stripping x + y strips x too when y is all whitespace, and leaves x whole otherwise. */
  lemma {:induction false} StripRightAppend(x: string, y: string)
    ensures AllSpace(y) ==> StripRight(x + y) == StripRight(x)
    ensures !AllSpace(y) ==> StripRight(x + y) == x + StripRight(y)
    decreases |y|
  {
    if y == [] {
      assert x + y == x;
    } else {
      var front := y[..|y| - 1];
      assert (x + y)[..|x + y| - 1] == x + front;
      if IsSpace(y[|y| - 1]) {
        StripRightAppend(x, front);
        assert AllSpace(y) <==> AllSpace(front) by {
          assert forall i :: 0 <= i < |front| ==> front[i] == y[i];
        }
      }
    }
  }

  /** Concatenation is associative. */
  lemma SeqAssoc(x: string, y: string, z: string)
    ensures x + (y + z) == x + y + z
  {
  }

  /** A text is its first n characters followed by the rest. */
  lemma SplitAt(t: string, n: nat)
    requires n <= |t|
    ensures t == t[..n] + t[n..]
  {
  }

  /** A text of whitespace alone strips to nothing. */
  lemma StripLeftOfSpaces(w: string)
    requires AllSpace(w)
    ensures StripLeft(w) == []
  {
    StripLeftAppend(w, []);
    assert w + [] == w;
  }

  /** One step of collapsing a + b, by the first character of a. */
  lemma CollapseHead(a: string, b: string)
    requires a != []
    ensures !IsSpace(a[0]) ==> Collapse(a + b) == [a[0]] + Collapse(a[1..] + b)
    ensures IsSpace(a[0]) ==> Collapse(a + b) == [' '] + Collapse(StripLeft(a[1..] + b))
  {
    assert (a + b)[0] == a[0];
    assert (a + b)[1..] == a[1..] + b;
  }

  /**
   * Collapsing distributes over a concatenation that does not glue two
   * whitespace characters together.
   */
  lemma {:induction false} CollapseAppend(a: string, b: string)
    requires a == [] || b == [] || !IsSpace(a[|a| - 1]) || !IsSpace(b[0])
    ensures Collapse(a + b) == Collapse(a) + Collapse(b)
    decreases |a|, 1
  {
    if a == [] {
      assert a + b == b;
    } else if IsSpace(a[0]) {
      CollapseAppendSpace(a, b);
    } else {
      var rest := a[1..];
      CollapseHead(a, b);
      assert rest != [] ==> rest[|rest| - 1] == a[|a| - 1];
      CollapseAppend(rest, b);
      SeqAssoc([a[0]], Collapse(rest), Collapse(b));
    }
  }

  /** CollapseAppend when a starts with whitespace. */
  lemma {:induction false} CollapseAppendSpace(a: string, b: string)
    requires a != [] && IsSpace(a[0])
    requires b == [] || !IsSpace(a[|a| - 1]) || !IsSpace(b[0])
    ensures Collapse(a + b) == Collapse(a) + Collapse(b)
    decreases |a|, 0
  {
    var rest := a[1..];
    if AllSpace(rest) {
      AllSpaceTail(a);
      CollapseSpaces(a);
      CollapseLeadingSpaces(a, b);
    } else {
      CollapseHead(a, b);
      StripLeftAppend(rest, b);
      var t := StripLeft(rest);
      assert t != [];
      assert t[|t| - 1] == a[|a| - 1];
      CollapseAppend(t, b);
      SeqAssoc([' '], Collapse(t), Collapse(b));
    }
  }

  /** A leading run of whitespace before a text that does not start with it collapses to one space. */
  lemma CollapseLeadingSpaces(w: string, b: string)
    requires w != [] && AllSpace(w)
    requires b == [] || !IsSpace(b[0])
    ensures Collapse(w + b) == " " + Collapse(b)
  {
    AllSpaceTail(w);
    CollapseHead(w, b);
    StripLeftAppend(w[1..], b);
    assert StripLeft(b) == b;
  }

  /** A text is all whitespace exactly when its first character and the rest are. */
  lemma AllSpaceTail(w: string)
    requires w != []
    ensures AllSpace(w) <==> IsSpace(w[0]) && AllSpace(w[1..])
  {
    assert forall i :: 0 <= i < |w[1..]| ==> w[1..][i] == w[i + 1];
  }

  /** A non-empty run of whitespace collapses to one space. */
  lemma CollapseSpaces(w: string)
    requires w != [] && AllSpace(w)
    ensures Collapse(w) == " "
  {
    StripLeftOfSpaces(w[1..]);
  }

  /**
   * A whitespace run w between a text that does not end in whitespace and
   * one that does not start with it collapses to exactly one space.
   */
  lemma CollapseRun(a: string, w: string, b: string)
    requires a == [] || !IsSpace(a[|a| - 1])
    requires w != [] && AllSpace(w)
    requires b == [] || !IsSpace(b[0])
    ensures Collapse(a + w + b) == Collapse(a) + " " + Collapse(b)
  {
    assert a + w + b == a + (w + b);
    CollapseAppend(w, b);
    CollapseSpaces(w);
    CollapseAppend(a, w + b);
    SeqAssoc(Collapse(a), " ", Collapse(b));
  }

  /** Leading whitespace does not change the normalised text. */
  lemma NormalizeStripLeft(s: string)
    ensures Normalize(s) == Normalize(StripLeft(s))
  {
    CollapseStripLeft(s);
  }

  /** Leading whitespace collapses to at most one space, which left-stripping removes. */
  lemma CollapseStripLeft(s: string)
    ensures StripLeft(Collapse(s)) == StripLeft(Collapse(StripLeft(s)))
  {
    if s != [] && IsSpace(s[0]) {
      var t := StripLeft(s);
      assert t == StripLeft(s[1..]);
      var c := Collapse(t);
      assert Collapse(s) == [' '] + c;
      assert ([' '] + c)[1..] == c;
    }
  }

  /** A word followed by whitespace alone normalises to the word. */
  lemma NormalizeWordThenSpaces(w: string, r: string)
    requires IsWordText(w)
    requires AllSpace(r)
    ensures Normalize(w + r) == w
  {
    CollapseAppend(w, r);
    CollapseFixesCollapsed(w);
    var cr := Collapse(r);
    assert AllSpace(cr) by {
      if r != [] {
        CollapseSpaces(r);
      }
    }
    StripRightAppend(w, cr);
  }

  /** Stripping around a single space between two texts that do not face it with whitespace strips each side. */
  lemma StripRun(x: string, y: string)
    requires x != [] && !IsSpace(x[|x| - 1])
    requires y != [] && !IsSpace(y[0])
    ensures Strip(x + " " + y) == Strip(x) + " " + Strip(y)
  {
    assert !AllSpace(x);
    assert !AllSpace(y);
    SeqAssoc(x, " ", y);
    StripLeftAppend(x, " " + y);
    var l := StripLeft(x);
    assert l[|l| - 1] == x[|x| - 1];
    assert StripRight(l) == l;
    SeqAssoc(l, " ", y);
    StripRightAppend(l + " ", y);
  }

  /**
   * Normalising a + w + b, where the whitespace run w separates a text that
   * does not end in whitespace from one that does not start with it, puts
   * exactly one space between the two normalised sides.
   */
  lemma NormalizeRun(a: string, w: string, b: string)
    requires a != [] && !IsSpace(a[|a| - 1])
    requires w != [] && AllSpace(w)
    requires b != [] && !IsSpace(b[0])
    ensures Normalize(a + w + b) == Normalize(a) + " " + Normalize(b)
  {
    CollapseRun(a, w, b);
    CollapseShape(a);
    CollapseShape(b);
    StripRun(Collapse(a), Collapse(b));
  }

  /** The longest prefix of t without whitespace. */
  function Word(t: string): (w: string)
    ensures |w| <= |t| && w == t[..|w|]
    ensures forall i :: 0 <= i < |w| ==> !IsSpace(w[i])
    ensures |w| == |t| || IsSpace(t[|w|])
  {
    if t != [] && !IsSpace(t[0]) then [t[0]] + Word(t[1..]) else []
  }

  /** `s.split()`: the maximal runs of non-whitespace characters of s, in order. */
  function Words(s: string): seq<string>
    decreases |s|
  {
    var t := StripLeft(s);
    if t == [] then []
    else
      var w := Word(t);
      assert w != [] by {
        assert t[0] == t[..|w|][0] || |w| == 0;
      }
      [w] + Words(t[|w|..])
  }

  /** Every word is non-empty and has no whitespace in it. */
  lemma {:induction false} WordsShape(s: string)
    ensures forall k :: 0 <= k < |Words(s)| ==> IsWordText(Words(s)[k])
    decreases |s|
  {
    var t := StripLeft(s);
    if t != [] {
      var w := Word(t);
      var tail := Words(t[|w|..]);
      WordsShape(t[|w|..]);
      var ws := Words(s);
      assert ws == [w] + tail;
      forall k | 0 <= k < |ws| ensures IsWordText(ws[k]) {
        if k > 0 {
          assert ws[k] == tail[k - 1];
        }
      }
    }
  }

  /** `' '.join(ws)`: the words with one space between neighbours. */
  function Join(ws: seq<string>): string {
    if |ws| == 0 then []
    else if |ws| == 1 then ws[0]
    else ws[0] + " " + Join(ws[1..])
  }

  /** Leading whitespace does not change the words. */
  lemma WordsStripLeft(s: string)
    ensures Words(s) == Words(StripLeft(s))
  {
    var t := StripLeft(s);
    assert t == [] || !IsSpace(t[0]);
    assert StripLeft(t) == t;
  }

  /** A text that starts with a non-whitespace character starts with its first word. */
  lemma WordsCons(t: string)
    requires t != [] && !IsSpace(t[0])
    ensures Word(t) != [] && Words(t) == [Word(t)] + Words(t[|Word(t)|..])
  {
    assert StripLeft(t) == t;
  }

  /** Joining a word in front of more words puts one space after it. */
  lemma JoinCons(w: string, ws: seq<string>)
    ensures ws == [] ==> Join([w] + ws) == w
    ensures ws != [] ==> Join([w] + ws) == w + " " + Join(ws)
  {
    assert ([w] + ws)[1..] == ws;
  }

  /** What follows a word: a run of whitespace, then the rest, which starts with the next word if there is one. */
  lemma GapSplit(rest: string)
    requires rest != [] ==> IsSpace(rest[0])
    ensures var r2 := StripLeft(rest); var gap := rest[..|rest| - |r2|];
      rest == gap + r2 && AllSpace(gap) && (r2 != [] ==> gap != [])
  {
    var r2 := StripLeft(rest);
    assert r2 != [] ==> |r2| < |rest|;
    SplitAt(rest, |rest| - |r2|);
  }

  /** A text without whitespace is its own normal form. */
  lemma NormalizeWord(w: string)
    requires IsWordText(w)
    ensures Normalize(w) == w
  {
    NormalizeFixesNormal(w);
  }

  /**
   * Normalising a text that starts with a word gives that word, then, if
   * more words follow, one space and the normalised rest.
   */
  lemma NormalizeSplitWord(t: string)
    requires t != [] && !IsSpace(t[0])
    ensures var w := Word(t); var r2 := StripLeft(t[|w|..]);
      (r2 == [] ==> Normalize(t) == w) &&
      (r2 != [] ==> !IsSpace(r2[0]) && |r2| < |t| && Normalize(t) == w + " " + Normalize(r2))
  {
    WordsCons(t);
    var w := Word(t);
    var rest := t[|w|..];
    SplitAt(t, |w|);
    GapSplit(rest);
    var r2 := StripLeft(rest);
    var gap := rest[..|rest| - |r2|];
    if r2 == [] {
      NormalizeWordThenSpaces(w, rest);
    } else {
      SeqAssoc(w, gap, r2);
      NormalizeRun(w, gap, r2);
      NormalizeWord(w);
    }
  }

  /** The words of a text that starts with a word: that word, then the words of what follows it. */
  lemma WordsSplitWord(t: string)
    requires t != [] && !IsSpace(t[0])
    ensures var w := Word(t); var r2 := StripLeft(t[|w|..]);
      (r2 == [] ==> Words(t) == [w]) &&
      (r2 != [] ==> Words(r2) != [] && Words(t) == [w] + Words(r2))
  {
    WordsCons(t);
    var w := Word(t);
    var rest := t[|w|..];
    WordsStripLeft(rest);
    var r2 := StripLeft(rest);
    if r2 != [] {
      WordsCons(r2);
    }
  }

  /**
   * The normaliser is `' '.join(s.split())`: the blurb's words, in order,
   * with exactly one space between neighbours and none at the ends.
   */
  lemma NormalizeIsJoinWords(s: string)
    ensures Normalize(s) == Join(Words(s))
  {
    var t := StripLeft(s);
    NormalizeStripLeft(s);
    WordsStripLeft(s);
    if t != [] {
      NormalizeIsJoinWordsFrom(t);
    }
  }

  /** NormalizeIsJoinWords for a text that starts with a word, by induction on its length. */
  lemma {:induction false} NormalizeIsJoinWordsFrom(t: string)
    requires t != [] && !IsSpace(t[0])
    ensures Normalize(t) == Join(Words(t))
    decreases |t|
  {
    NormalizeSplitWord(t);
    WordsSplitWord(t);
    var w := Word(t);
    var r2 := StripLeft(t[|w|..]);
    if r2 == [] {
      JoinCons(w, []);
    } else {
      NormalizeIsJoinWordsFrom(r2);
      JoinCons(w, Words(r2));
    }
  }
}
