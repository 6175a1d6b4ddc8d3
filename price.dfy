/**
 * The price cleanup `_parse_int` of the spider: delete every character that
 * `PARSE_INT_REGEX` (`[^.\d]`) matches, read the rest as Python's `float`
 * does, and round it with Python 3's `round`.
 *
 * The number is kept exact: a cleaned text reads as a `Decimal`, mantissa
 * over a power of ten, rather than as a binary floating-point value.
 */
module Price {
  import opened Wrappers
  import opened Chars

  /** The characters `[^.\d]` does not match: the ones the cleanup keeps. */
  predicate Kept(c: char) {
    IsDigit(c) || c == '.'
  }

  predicate AllKept(t: string) {
    forall i :: 0 <= i < |t| ==> Kept(t[i])
  }

  predicate AllDigits(t: string) {
    forall i :: 0 <= i < |t| ==> IsDigit(t[i])
  }

  /** `PARSE_INT_REGEX.sub('', s)`: every character other than a digit or '.' deleted. */
  function Clean(s: string): (r: string)
    ensures AllKept(r)
    ensures |r| <= |s|
  {
    CleanFrom(s, 0)
  }

  /** The cleanup of s[i..], scanning left to right from position i. */
  function CleanFrom(s: string, i: nat): (r: string)
    requires i <= |s|
    ensures AllKept(r)
    ensures |r| <= |s| - i
    decreases |s| - i
  {
    if i == |s| then []
    else if Kept(s[i]) then [s[i]] + CleanFrom(s, i + 1)
    else CleanFrom(s, i + 1)
  }

  /** Cleaning a + b from a position inside a is cleaning the rest of a and then all of b. */
  lemma {:induction false} CleanFromAppend(a: string, b: string, i: nat)
    requires i <= |a|
    ensures CleanFrom(a + b, i) == CleanFrom(a, i) + CleanFrom(b, 0)
    decreases |a| - i
  {
    if i == |a| {
      CleanFromShift(a, b, 0);
    } else {
      assert (a + b)[i] == a[i];
      CleanFromAppend(a, b, i + 1);
    }
  }

  /** Cleaning a + b from a position inside b is cleaning b from that position. */
  lemma {:induction false} CleanFromShift(a: string, b: string, j: nat)
    requires j <= |b|
    ensures CleanFrom(a + b, |a| + j) == CleanFrom(b, j)
    decreases |b| - j
  {
    if j < |b| {
      assert (a + b)[|a| + j] == b[j];
      CleanFromShift(a, b, j + 1);
    }
  }

  /** The cleanup works character by character: it commutes with concatenation. */
  lemma CleanAppend(a: string, b: string)
    ensures Clean(a + b) == Clean(a) + Clean(b)
  {
    CleanFromAppend(a, b, 0);
  }

  /** On a text made only of digits and dots, the cleanup from i keeps all of t[i..]. */
  lemma {:induction false} CleanFromKeepsKept(t: string, i: nat)
    requires AllKept(t) && i <= |t|
    ensures CleanFrom(t, i) == t[i..]
    decreases |t| - i
  {
    if i < |t| {
      CleanFromKeepsKept(t, i + 1);
      assert t[i..] == [t[i]] + t[i + 1..];
    }
  }

  /** A text made only of digits and dots comes out of the cleanup unchanged. */
  lemma CleanKeepsKept(t: string)
    requires AllKept(t)
    ensures Clean(t) == t
  {
    CleanFromKeepsKept(t, 0);
  }

  /** Cleaning twice gives what cleaning once gives. */
  lemma CleanIdempotent(s: string)
    ensures Clean(Clean(s)) == Clean(s)
  {
    CleanKeepsKept(Clean(s));
  }

  /** The cleanup from i keeps every digit and dot of s[i..], as many times as they occur, and nothing else. */
  lemma {:induction false} CleanFromCounts(s: string, i: nat, c: char)
    requires i <= |s|
    ensures multiset(CleanFrom(s, i))[c] == if Kept(c) then multiset(s[i..])[c] else 0
    decreases |s| - i
  {
    if i < |s| {
      CleanFromCounts(s, i + 1, c);
      assert s[i..] == [s[i]] + s[i + 1..];
      assert multiset(s[i..]) == multiset([s[i]]) + multiset(s[i + 1..]);
      if Kept(s[i]) {
        assert multiset(CleanFrom(s, i)) == multiset([s[i]]) + multiset(CleanFrom(s, i + 1));
      }
    }
  }

  /** The cleanup keeps every digit and every dot, as many times as they occur, and nothing else. */
  lemma CleanCounts(s: string, c: char)
    ensures multiset(Clean(s))[c] == if Kept(c) then multiset(s)[c] else 0
  {
    CleanFromCounts(s, 0, c);
    assert s[0..] == s;
  }

  /** Inserting a character the cleanup drops (a '$', a ',', a letter) does not change the price read. */
  lemma CleanIgnoresDropped(a: string, c: char, b: string)
    requires !Kept(c)
    ensures Clean(a + [c] + b) == Clean(a + b)
  {
    CleanAppend(a + [c], b);
    CleanAppend(a, [c]);
    CleanAppend(a, b);
  }

  /** 10 to the power k. */
  function Pow10(k: nat): (r: nat)
    ensures r >= 1
  {
    if k == 0 then 1 else 10 * Pow10(k - 1)
  }

  /** The number a run of decimal digits denotes ("" denotes 0); it has at most |t| digits. */
  function DigitsValue(t: string): (v: nat)
    requires AllDigits(t)
    ensures v < Pow10(|t|)
  {
    DigitsPrefix(t, |t|)
  }

  /** The number the first n digits of t denote; it is below 10^n. */
  function DigitsPrefix(t: string, n: nat): (v: nat)
    requires AllDigits(t) && n <= |t|
    ensures v < Pow10(n)
  {
    if n == 0 then 0 else DigitsPrefix(t, n - 1) * 10 + (t[n - 1] as int - '0' as int)
  }

  lemma AllDigitsAppend(a: string, b: string)
    requires AllDigits(a) && AllDigits(b)
    ensures AllDigits(a + b)
  {
    forall i | 0 <= i < |a + b| ensures IsDigit((a + b)[i]) {
      if i < |a| { assert (a + b)[i] == a[i]; } else { assert (a + b)[i] == b[i - |a|]; }
    }
  }

  /** Two texts that agree on their first n digits read the same there. */
  lemma {:induction false} DigitsPrefixAgree(t: string, u: string, n: nat)
    requires AllDigits(t) && AllDigits(u) && n <= |t| && n <= |u|
    requires forall x :: 0 <= x < n ==> t[x] == u[x]
    ensures DigitsPrefix(t, n) == DigitsPrefix(u, n)
  {
    if n > 0 {
      DigitsPrefixAgree(t, u, n - 1);
    }
  }

  /** Reading a + b up to k digits into b is reading a, shifting it by k places, and adding those k digits of b. */
  lemma {:induction false} DigitsPrefixAppend(a: string, b: string, k: nat)
    requires AllDigits(a) && AllDigits(b) && AllDigits(a + b) && k <= |b|
    ensures DigitsPrefix(a + b, |a| + k) == DigitsValue(a) * Pow10(k) + DigitsPrefix(b, k)
  {
    if k == 0 {
      DigitsPrefixAgree(a + b, a, |a|);
    } else {
      DigitsPrefixAppend(a, b, k - 1);
      assert (a + b)[|a| + k - 1] == b[k - 1];
      ShiftDigit(DigitsValue(a), DigitsPrefix(b, k - 1), Pow10(k - 1), b[k - 1] as int - '0' as int);
    }
  }

  /** Reading the digits of a + b is reading a, shifting it by |b| places, and adding b. */
  lemma DigitsValueAppend(a: string, b: string)
    requires AllDigits(a) && AllDigits(b)
    ensures AllDigits(a + b)
    ensures DigitsValue(a + b) == DigitsValue(a) * Pow10(|b|) + DigitsValue(b)
  {
    AllDigitsAppend(a, b);
    DigitsPrefixAppend(a, b, |b|);
  }

  /** Appending digit d to x * p + y is appending it to y, with x shifted one place further. */
  lemma ShiftDigit(x: int, y: int, p: int, d: int)
    ensures (x * p + y) * 10 + d == x * (10 * p) + (y * 10 + d)
  {
  }

  /** An exact non-negative decimal number: mantissa / 10^scale. */
  datatype Decimal = Decimal(mantissa: nat, scale: nat)

  /** The first position of c in t. */
  function IndexOf(t: string, c: char): (i: nat)
    requires c in t
    ensures i < |t| && t[i] == c && c !in t[..i]
  {
    assert t[0..] == t;
    IndexFrom(t, c, 0)
  }

  /** The first position of c in t at or after i, where c does not occur before i. */
  function IndexFrom(t: string, c: char, i: nat): (r: nat)
    requires i <= |t| && c in t[i..] && c !in t[..i]
    ensures i <= r < |t| && t[r] == c && c !in t[..r]
    decreases |t| - i
  {
    if t[i] == c then i
    else
      assert t[..i + 1] == t[..i] + [t[i]];
      assert t[i..] == [t[i]] + t[i + 1..];
      IndexFrom(t, c, i + 1)
  }

  /** No two dots in t. */
  predicate AtMostOneDot(t: string) {
    forall i, j :: 0 <= i < j < |t| && t[i] == '.' ==> t[j] != '.'
  }

  predicate HasDigit(t: string) {
    exists i :: 0 <= i < |t| && IsDigit(t[i])
  }

  /**
   * The texts of digits and dots that Python's `float` accepts: at most one dot
   * and at least one digit ("7", "7.", ".5", "1250.75", but not "", "." or "1.2.3").
   */
  predicate IsFloatText(t: string) {
    AtMostOneDot(t) && HasDigit(t)
  }

  /** A cleaned text with no dot is all digits, and `float` accepts it unless it is empty. */
  lemma NoDotText(t: string)
    requires AllKept(t) && '.' !in t
    ensures AllDigits(t)
    ensures IsFloatText(t) <==> t != []
  {
    forall i | 0 <= i < |t| ensures IsDigit(t[i]) {
      assert t[i] in t;
    }
    if t != [] {
      assert IsDigit(t[0]);
    }
  }

  /**
   * A cleaned text cut at its first dot, at position i: the part before is
   * all digits, and `float` accepts the whole when the part after has no
   * further dot and the two parts are not both empty.
   */
  lemma FirstDotText(t: string, i: nat)
    requires AllKept(t) && i < |t| && t[i] == '.' && '.' !in t[..i]
    ensures AllDigits(t[..i])
    ensures '.' !in t[i + 1..] ==> AllDigits(t[i + 1..])
    ensures IsFloatText(t) <==> '.' !in t[i + 1..] && (i > 0 || i + 1 < |t|)
  {
    var whole, frac := t[..i], t[i + 1..];
    forall x | 0 <= x < i ensures IsDigit(whole[x]) {
      assert whole[x] == t[x];
      assert t[x] in whole;
    }
    if '.' in frac {
      var x :| 0 <= x < |frac| && frac[x] == '.';
      assert t[i + 1 + x] == '.';
      assert !AtMostOneDot(t);
    } else {
      forall x | 0 <= x < |frac| ensures IsDigit(frac[x]) {
        assert frac[x] == t[i + 1 + x];
        assert frac[x] in frac;
      }
      assert AtMostOneDot(t) by {
        assert forall x :: 0 <= x < i ==> t[x] != '.' by {
          forall x | 0 <= x < i ensures t[x] != '.' { assert t[x] == whole[x]; }
        }
        assert forall x :: i < x < |t| ==> t[x] != '.' by {
          forall x | i < x < |t| ensures t[x] != '.' { assert t[x] == frac[x - i - 1]; }
        }
      }
      if i > 0 {
        assert IsDigit(t[0]) by { assert t[0] == whole[0]; }
      } else if i + 1 < |t| {
        assert IsDigit(t[i + 1]) by { assert t[i + 1] == frac[0]; }
      } else {
        assert t == ['.'];
      }
    }
  }

  /**
   * Python's `float(t)` on a cleaned text t: None where `float` raises
   * `ValueError`, otherwise the exact value t denotes.
   */
  function ParseFloat(t: string): (r: Option<Decimal>)
    requires AllKept(t)
    ensures r.Some? <==> IsFloatText(t)
  {
    if '.' !in t then
      NoDotText(t);
      if t == [] then None else Some(Decimal(DigitsValue(t), 0))
    else
      var i := IndexOf(t, '.');
      FirstDotText(t, i);
      var whole, frac := t[..i], t[i + 1..];
      if '.' in frac || (whole == [] && frac == []) then None
      else Some(Decimal(DigitsValue(whole) * Pow10(|frac|) + DigitsValue(frac), |frac|))
  }

  /** A text of digits alone reads as the whole number it spells. */
  lemma ParseFloatDigits(t: string)
    requires AllDigits(t) && t != []
    ensures AllKept(t)
    ensures ParseFloat(t) == Some(Decimal(DigitsValue(t), 0))
  {
    assert forall x :: 0 <= x < |t| ==> t[x] != '.';
  }

  /** The mantissa of `whole.frac` is the digits read without the dot, and its scale the number of fraction digits. */
  lemma ParseFloatFraction(whole: string, frac: string)
    requires AllDigits(whole) && AllDigits(frac) && whole + frac != []
    ensures AllKept(whole + ['.'] + frac) && AllDigits(whole + frac)
    ensures ParseFloat(whole + ['.'] + frac) == Some(Decimal(DigitsValue(whole + frac), |frac|))
  {
    var t := whole + ['.'] + frac;
    assert AllKept(t) by {
      forall x | 0 <= x < |t| ensures Kept(t[x]) {
        if x < |whole| { assert t[x] == whole[x]; }
        else if x > |whole| { assert t[x] == frac[x - |whole| - 1]; }
      }
    }
    AllDigitsAppend(whole, frac);
    assert t[..|whole|] == whole && t[|whole| + 1..] == frac;
    assert '.' !in whole by {
      assert forall x :: 0 <= x < |whole| ==> whole[x] != '.';
    }
    IndexOfFirst(t, '.', |whole|);
    DigitsValueAppend(whole, frac);
  }

  /** The position where c first occurs is the one with no c before it. */
  lemma IndexOfFirst(t: string, c: char, k: nat)
    requires k < |t| && t[k] == c && c !in t[..k]
    ensures IndexOf(t, c) == k
  {
    var i := IndexOf(t, c);
    assert forall x :: 0 <= x < k ==> t[x] != c by {
      forall x | 0 <= x < k ensures t[x] != c { assert t[x] == t[..k][x]; }
    }
    assert forall x :: 0 <= x < i ==> t[x] != c by {
      forall x | 0 <= x < i ensures t[x] != c { assert t[x] == t[..i][x]; }
    }
  }

  /** The distance between two integers. */
  function Dist(a: int, b: int): nat {
    if a < b then b - a else a - b
  }

  /**
   * n is the integer nearest num / den, an exact half going to the even
   * neighbour: the promise of Python 3's `round` with no digits argument.
   */
  predicate IsRoundHalfEven(num: nat, den: nat, n: int) {
    2 * Dist(num, n * den) <= den && (2 * Dist(num, n * den) == den ==> n % 2 == 0)
  }

  /** Python 3's `round(num / den)`. */
  function RoundHalfEven(num: nat, den: nat): (n: nat)
    requires den > 0
    ensures IsRoundHalfEven(num, den, n)
  {
    var q, rem := num / den, num % den;
    assert num == q * den + rem;
    assert (q + 1) * den == q * den + den;
    if 2 * rem < den || (2 * rem == den && q % 2 == 0) then q else q + 1
  }

  /** k copies of den, for k >= 1, amount to at least den, and for k >= 2 to at least twice den. */
  lemma {:induction false} MulAtLeast(k: int, den: nat)
    requires k >= 1
    ensures k * den >= den
    ensures k >= 2 ==> k * den >= 2 * den
    decreases k
  {
    if k > 1 {
      MulAtLeast(k - 1, den);
      assert k * den == (k - 1) * den + den;
    }
  }

  /** Two different multiples of den lie at least den apart, and exactly den apart only when neighbours. */
  lemma MultiplesApart(z: int, n: int, den: nat)
    requires den > 0 && z != n
    ensures Dist(z * den, n * den) >= den
    ensures Dist(z * den, n * den) == den ==> (z == n + 1 || z == n - 1)
  {
    if z > n {
      assert z * den - n * den == (z - n) * den;
      MulAtLeast(z - n, den);
    } else {
      assert n * den - z * den == (n - z) * den;
      MulAtLeast(n - z, den);
    }
  }

  /** Only one integer is the half-even rounding of num / den: it is RoundHalfEven(num, den). */
  lemma RoundHalfEvenUnique(num: nat, den: nat, z: int)
    requires den > 0
    requires IsRoundHalfEven(num, den, z)
    ensures z == RoundHalfEven(num, den)
  {
    var n := RoundHalfEven(num, den);
    if z != n {
      MultiplesApart(z, n, den);
      assert false;
    }
  }

  /**
   * `_parse_int(s)`: None where Python raises `ValueError` (nothing left after
   * the cleanup, or a text `float` rejects); otherwise the cleaned number,
   * rounded half to even.
   */
  function ParseInt(s: string): (r: Option<nat>)
    ensures r.Some? <==> IsFloatText(Clean(s))
    ensures r.Some? ==>
      var d := ParseFloat(Clean(s)).value;
      IsRoundHalfEven(d.mantissa, Pow10(d.scale), r.value)
  {
    match ParseFloat(Clean(s))
    case None => None
    case Some(d) => Some(RoundHalfEven(d.mantissa, Pow10(d.scale)))
  }

  /** The decimal digits of n, most significant first, with no leading zeros ("0" for zero). */
  function Render(n: nat): (t: string)
    ensures AllDigits(t) && t != []
    ensures DigitsValue(t) == n
    ensures n == 0 || t[0] != '0'
  {
    var last := [('0' as int + n % 10) as char];
    assert DigitsValue(last) == n % 10 by {
      assert DigitsPrefix(last, 1) == DigitsPrefix(last, 0) * 10 + n % 10;
    }
    if n < 10 then last
    else
      var front := Render(n / 10);
      DigitsValueAppend(front, last);
      assert Pow10(1) == 10;
      assert (front + last)[0] == front[0];
      front + last
  }

  /** Rendering a price and reading it back gives the same number, whatever decorates it. */
  lemma {:induction false} ParseIntRender(n: nat, prefix: string)
    requires forall i :: 0 <= i < |prefix| ==> !Kept(prefix[i])
    ensures ParseInt(prefix + Render(n)) == Some(n)
  {
    var t := Render(n);
    assert Clean(prefix) == [] by {
      DroppedOnly(prefix);
    }
    CleanAppend(prefix, t);
    CleanKeepsKept(t) by {
      forall i | 0 <= i < |t| ensures Kept(t[i]) { assert IsDigit(t[i]); }
    }
    assert Clean(prefix + t) == t;
    ParseFloatDigits(t);
    assert ParseFloat(Clean(prefix + t)) == Some(Decimal(n, 0));
    RoundWhole(n);
  }

  /** A whole number rounds to itself. */
  lemma RoundWhole(n: nat)
    ensures RoundHalfEven(n, Pow10(0)) == n
  {
    assert Pow10(0) == 1;
    assert n / 1 == n && n % 1 == 0;
  }

  /** A text whose every character is dropped cleans to nothing. */
  lemma DroppedOnly(s: string)
    requires forall i :: 0 <= i < |s| ==> !Kept(s[i])
    ensures Clean(s) == []
  {
    DroppedOnlyFrom(s, 0);
  }

  lemma {:induction false} DroppedOnlyFrom(s: string, i: nat)
    requires forall i :: 0 <= i < |s| ==> !Kept(s[i])
    requires i <= |s|
    ensures CleanFrom(s, i) == []
    decreases |s| - i
  {
    if i < |s| {
      DroppedOnlyFrom(s, i + 1);
    }
  }

  /** The cleanup on a whole-dollar price: the sign and the separators go. */
  lemma CleanWholeDollars()
    ensures Clean("$1,250,000") == "1250000"
  {
  }

  /** The cleanup on a price with cents: the dot stays. */
  lemma CleanCents()
    ensures Clean("$1,250.75") == "1250" + "." + "75"
  {
  }

  lemma DigitsWholeDollars()
    ensures DigitsValue("1250000") == 1250000
  {
    assert |"1250000"| == 7;
    assert DigitsPrefix("1250000", 7) == 1250000;
  }

  lemma DigitsCents()
    ensures DigitsValue("1250" + "75") == 125075
  {
    assert "1250" + "75" == "125075";
    assert |"125075"| == 6;
    assert DigitsPrefix("125075", 6) == 125075;
  }

  /** A text that cleans to digits alone reads as the whole number they spell. */
  lemma ParseIntOfDigits(s: string, digits: string)
    requires AllDigits(digits) && digits != [] && Clean(s) == digits
    ensures ParseInt(s) == Some(DigitsValue(digits))
  {
    ParseFloatDigits(digits);
    RoundWhole(DigitsValue(digits));
  }

  /** A text that cleans to `whole.frac` reads as their digits over 10^|frac|, rounded half to even. */
  lemma ParseIntOfFraction(s: string, whole: string, frac: string)
    requires AllDigits(whole) && AllDigits(frac) && whole + frac != []
    requires Clean(s) == whole + ['.'] + frac
    ensures AllDigits(whole + frac)
    ensures ParseInt(s) == Some(RoundHalfEven(DigitsValue(whole + frac), Pow10(|frac|)))
  {
    ParseFloatFraction(whole, frac);
  }

  /** A whole-dollar price with thousands separators reads as its digits. */
  lemma ParseIntWholeDollars()
    ensures ParseInt("$1,250,000") == Some(1250000)
  {
    CleanWholeDollars();
    ParseIntOfDigits("$1,250,000", "1250000");
    DigitsWholeDollars();
  }

  /** A price with cents rounds to the nearest dollar. */
  lemma ParseIntCents()
    ensures ParseInt("$1,250.75") == Some(1251)
  {
    CleanCents();
    ParseIntOfFraction("$1,250.75", "1250", "75");
    DigitsCents();
    assert Pow10(|"75"|) == 100;
    assert RoundHalfEven(125075, 100) == 1251;
  }

  /** A text of one digit, a dot and one digit reads as tenths, rounded half to even. */
  lemma ParseIntTenths(a: char, b: char)
    requires IsDigit(a) && IsDigit(b)
    ensures ParseInt([a, '.', b]) == Some(RoundHalfEven(10 * (a as int - '0' as int) + (b as int - '0' as int), 10))
  {
    var s := [a, '.', b];
    assert Clean(s) == [a] + ['.'] + [b] by {
      CleanKeepsKept(s);
    }
    ParseIntOfFraction(s, [a], [b]);
    assert DigitsValue([a] + [b]) == 10 * (a as int - '0' as int) + (b as int - '0' as int) by {
      assert [a] + [b] == [a, b];
      assert DigitsPrefix([a, b], 1) == a as int - '0' as int;
    }
  }

  /** An exact half goes to the even neighbour below: 2.5 rounds to 2. */
  lemma ParseIntHalfDown()
    ensures ParseInt("2.5") == Some(2)
  {
    ParseIntTenths('2', '5');
    assert RoundHalfEven(25, 10) == 2;
  }

  /** An exact half goes to the even neighbour above: 3.5 rounds to 4. */
  lemma ParseIntHalfUp()
    ensures ParseInt("3.5") == Some(4)
  {
    ParseIntTenths('3', '5');
    assert RoundHalfEven(35, 10) == 4;
  }

  /** No digit left after the cleanup: `float` raises, and so does `_parse_int`. */
  lemma ParseIntNoDigits()
    ensures ParseInt("N/A") == None
    ensures ParseInt("") == None
  {
    assert Clean("N/A") == "";
  }

  /** Two dots: `float` raises, and so does `_parse_int`. */
  lemma ParseIntTwoDots()
    ensures ParseInt("1.2.3") == None
  {
    CleanKeepsKept("1.2.3");
    assert "1.2.3"[1] == '.' && "1.2.3"[3] == '.';
  }
}
