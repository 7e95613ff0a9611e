/** Value types and string helpers shared by every part of the model. */
module Common {

  datatype Option<T> = None | Some(value: T)

  // ---------------------------------------------------------------------
  // Characters and whitespace
  // ---------------------------------------------------------------------

  /**
   * Python's str.isspace on one character: the characters whose bidirectional
   * class is WS, B or S or whose category is Zs. These are the ASCII controls
   * \t to \r and \x1c to \x1f, the space, U+0085, U+00A0, U+1680, U+2000 to
   * U+200A, U+2028, U+2029, U+202F, U+205F and the ideographic space U+3000.
   */
  predicate IsSpace(c: char) {
    || ('\t' <= c <= '\r')
    || ('\U{1C}' <= c <= '\U{1F}')
    || c == ' '
    || c == '\U{85}' || c == '\U{A0}' || c == '\U{1680}'
    || ('\U{2000}' <= c <= '\U{200A}')
    || c == '\U{2028}' || c == '\U{2029}' || c == '\U{202F}' || c == '\U{205F}'
    || c == '\U{3000}'
  }

  predicate IsDigit(c: char) {
    '0' <= c <= '9'
  }

  predicate AllDigits(s: string) {
    forall k | 0 <= k < |s| :: IsDigit(s[k])
  }

  /** `part` occurs in `text` starting at position `i`. */
  predicate OccursAt(text: string, part: string, i: int) {
    0 <= i <= |text| - |part| && text[i..i + |part|] == part
  }

  /** Python's `part in text` on strings: `part` occurs as a contiguous slice. */
  predicate Contains(text: string, part: string) {
    exists i | 0 <= i <= |text| - |part| :: OccursAt(text, part, i)
  }

  // ---------------------------------------------------------------------
  // str.strip
  // ---------------------------------------------------------------------

  function StripLeft(s: string): (r: string)
    ensures |r| <= |s| && r == s[|s| - |r|..]
    ensures forall k | 0 <= k < |s| - |r| :: IsSpace(s[k])
    ensures r != [] ==> !IsSpace(r[0])
  {
    if s != [] && IsSpace(s[0]) then StripLeft(s[1..]) else s
  }

  function StripRight(s: string): (r: string)
    ensures |r| <= |s| && r == s[..|r|]
    ensures forall k | |r| <= k < |s| :: IsSpace(s[k])
    ensures r != [] ==> !IsSpace(r[|r| - 1])
  {
    if s != [] && IsSpace(s[|s| - 1]) then StripRight(s[..|s| - 1]) else s
  }

  /** Python's str.strip(): `s` without its leading and trailing whitespace. */
  function Strip(s: string): (r: string)
    ensures r == [] || (!IsSpace(r[0]) && !IsSpace(r[|r| - 1]))
    ensures TrimmedAt(s, r, |s| - |StripLeft(s)|)
  {
    var l := StripLeft(s);
    var r := StripRight(l);
    StripTrimmed(s);
    r
  }

  lemma StripTrimmed(s: string)
    ensures TrimmedAt(s, StripRight(StripLeft(s)), |s| - |StripLeft(s)|)
  {
    var l := StripLeft(s);
    var r := StripRight(l);
    var i := |s| - |l|;
    assert s[i..i + |r|] == r;
    forall k | i + |r| <= k < |s|
      ensures IsSpace(s[k])
    {
      assert s[k] == l[k - i];
    }
  }

  /** `r` is the slice of `s` at `i`, and everything of `s` around it is whitespace. */
  predicate TrimmedAt(s: string, r: string, i: int) {
    && OccursAt(s, r, i)
    && (forall k | 0 <= k < i :: IsSpace(s[k]))
    && (forall k | i + |r| <= k < |s| :: IsSpace(s[k]))
  }

  // ---------------------------------------------------------------------
  // str.split("\n")
  // ---------------------------------------------------------------------

  function IndexOf(s: string, c: char): (i: nat)
    requires c in s
    ensures i < |s| && s[i] == c && c !in s[..i]
  {
    if s[0] == c then 0 else 1 + IndexOf(s[1..], c)
  }

  /** Joins lines with "\n" between them; the inverse of SplitLines. */
  function JoinLines(parts: seq<string>): string
    requires |parts| >= 1
  {
    if |parts| == 1 then parts[0] else parts[0] + "\n" + JoinLines(parts[1..])
  }

  /** Python's s.split("\n"): at least one piece, none holds a newline, and joining restores `s`. */
  function SplitLines(s: string): (r: seq<string>)
    ensures |r| >= 1
    ensures forall k | 0 <= k < |r| :: '\n' !in r[k]
    ensures JoinLines(r) == s
    decreases |s|
  {
    if '\n' !in s then [s]
    else
      var i := IndexOf(s, '\n');
      var rest := SplitLines(s[i + 1..]);
      assert s == s[..i] + "\n" + s[i + 1..];
      [s[..i]] + rest
  }

  // ---------------------------------------------------------------------
  // Decimal numerals
  // ---------------------------------------------------------------------

  function DigitValue(c: char): nat
    requires IsDigit(c)
  {
    c as int - '0' as int
  }

  function DigitChar(d: nat): char
    requires d < 10
  {
    (d + '0' as int) as char
  }

  /** The value of a string of decimal digits (0 for the empty string). */
  function DigitsValue(s: string): nat
    requires AllDigits(s)
  {
    if s == [] then 0 else DigitsValue(s[..|s| - 1]) * 10 + DigitValue(s[|s| - 1])
  }

  /** Python's str(n) for a natural number. */
  function NatToString(n: nat): (r: string)
    ensures |r| >= 1 && AllDigits(r)
    ensures DigitsValue(r) == n
    ensures r[0] == '0' ==> n == 0
    ensures n == 0 ==> r == "0"
  {
    if n < 10 then [DigitChar(n)]
    else
      var front := NatToString(n / 10);
      var r := front + [DigitChar(n % 10)];
      assert r[..|r| - 1] == front;
      r
  }

  function Pow10(k: nat): (r: nat)
    ensures r >= 1
  {
    if k == 0 then 1 else 10 * Pow10(k - 1)
  }

  /** A string of `k` digits denotes a number below 10^k. */
  lemma {:induction false} FractionBelowOne(s: string)
    requires AllDigits(s)
    ensures DigitsValue(s) < Pow10(|s|)
  {
    if s != [] {
      FractionBelowOne(s[..|s| - 1]);
    }
  }

  lemma QuotientBelowOne(b: nat, p: nat)
    requires b < p
    ensures 0.0 <= b as real / p as real < 1.0
  {
    var q := b as real / p as real;
    assert q * p as real == b as real;
  }

  /** The value of the numeral `whole.frac`. */
  function DecimalValue(whole: string, frac: string): (r: real)
    requires AllDigits(whole) && AllDigits(frac)
    ensures DigitsValue(whole) as real <= r < DigitsValue(whole) as real + 1.0
  {
    FractionBelowOne(frac);
    QuotientBelowOne(DigitsValue(frac), Pow10(|frac|));
    DigitsValue(whole) as real + DigitsValue(frac) as real / Pow10(|frac|) as real
  }

  /**
   * Python's float() on the unsigned decimal forms: digits, optionally followed
   * by a point and more digits, with at least one digit in all.
   */
  function ParseUnsigned(s: string): (r: Option<real>)
    ensures r.Some? ==> r.value >= 0.0
  {
    if '.' in s then
      var i := IndexOf(s, '.');
      var whole, frac := s[..i], s[i + 1..];
      if AllDigits(whole) && AllDigits(frac) && |whole| + |frac| > 0 then
        Some(DecimalValue(whole, frac))
      else None
    else if s != [] && AllDigits(s) then Some(DigitsValue(s) as real)
    else None
  }

  /**
   * Python's float() on decimal numerals with an optional sign. A numeral made of
   * digits only denotes its integer value; the empty string and any string holding
   * a character other than a digit, a point or a leading sign are refused.
   */
  function ParseNumber(s: string): (r: Option<real>)
    ensures s != [] && AllDigits(s) ==> r == Some(DigitsValue(s) as real)
    ensures r.Some? ==> s != [] && forall k | 0 <= k < |s| ::
              IsDigit(s[k]) || s[k] == '.' || (k == 0 && (s[k] == '-' || s[k] == '+'))
  {
    if s != [] && (s[0] == '-' || s[0] == '+') then
      match ParseUnsigned(s[1..])
      case None => None
      case Some(v) => Some(if s[0] == '-' then -v else v)
    else ParseUnsigned(s)
  }

  /** The first occurrence of `c` is at `i` when `s[i]` is `c` and nothing before it is. */
  lemma {:induction false} IndexOfAt(s: string, c: char, i: nat)
    requires i < |s| && s[i] == c && c !in s[..i]
    ensures IndexOf(s, c) == i
  {
    if s[0] != c {
      assert s[1..][i - 1] == c;
      assert s[1..][..i - 1] == s[..i][1..];
      IndexOfAt(s[1..], c, i - 1);
    }
  }

  /** The unsigned parse of `w.f`: the point is the first one, so the digits either side give the value. */
  lemma UnsignedFraction(w: string, f: string)
    requires AllDigits(w) && AllDigits(f) && |w| + |f| > 0
    ensures ParseUnsigned(w + "." + f) == Some(DecimalValue(w, f))
  {
    var s := w + "." + f;
    assert s[..|w|] == w && s[|w| + 1..] == f;
    assert '.' !in w by {
      forall k | 0 <= k < |w| ensures w[k] != '.' {
        assert IsDigit(w[k]);
      }
    }
    assert s[|w|] == '.';
    IndexOfAt(s, '.', |w|);
    var i := IndexOf(s, '.');
    assert s[..i] == w && s[i + 1..] == f;
  }

  /** float() accepts a numeral with a point and returns its decimal value: ".5", "1." and "2.25" included. */
  lemma ParseFraction(w: string, f: string)
    requires AllDigits(w) && AllDigits(f) && |w| + |f| > 0
    ensures ParseNumber(w + "." + f) == Some(DecimalValue(w, f))
  {
    var s := w + "." + f;
    UnsignedFraction(w, f);
    assert s[0] == '.' || IsDigit(s[0]);
  }

  /** float() accepts a leading "-" on any unsigned numeral and negates its value. */
  lemma ParseNegative(u: string)
    ensures ParseNumber("-" + u) == if ParseUnsigned(u).Some? then Some(-ParseUnsigned(u).value) else None
  {
    var s := "-" + u;
    assert s[0] == '-' && s[1..] == u;
  }

  /** float() accepts a leading "+" on any unsigned numeral and keeps its value. */
  lemma ParsePositive(u: string)
    ensures ParseNumber("+" + u) == ParseUnsigned(u)
  {
    var s := "+" + u;
    assert s[0] == '+' && s[1..] == u;
  }

  /** A negative numeral with a point: "-2.5" is minus the decimal value. */
  lemma ParseNegativeFraction(w: string, f: string)
    requires AllDigits(w) && AllDigits(f) && |w| + |f| > 0
    ensures ParseNumber("-" + (w + "." + f)) == Some(-DecimalValue(w, f))
  {
    UnsignedFraction(w, f);
    ParseNegative(w + "." + f);
  }

  /** A positive-signed numeral with a point: "+2.5" is the decimal value. */
  lemma ParsePositiveFraction(w: string, f: string)
    requires AllDigits(w) && AllDigits(f) && |w| + |f| > 0
    ensures ParseNumber("+" + (w + "." + f)) == Some(DecimalValue(w, f))
  {
    UnsignedFraction(w, f);
    ParsePositive(w + "." + f);
  }

  /** A signed integer numeral: "-12" is -12.0 and "+12" is 12.0. */
  lemma ParseSignedInteger(w: string)
    requires w != [] && AllDigits(w)
    ensures ParseNumber("-" + w) == Some(-(DigitsValue(w) as real))
    ensures ParseNumber("+" + w) == Some(DigitsValue(w) as real)
  {
    assert '.' !in w by {
      forall k | 0 <= k < |w| ensures w[k] != '.' {
        assert IsDigit(w[k]);
      }
    }
    assert ParseUnsigned(w) == Some(DigitsValue(w) as real);
    ParseNegative(w);
    ParsePositive(w);
  }

  // ---------------------------------------------------------------------
  // Filtering sequences (SQL WHERE, DELETE and list comprehensions)
  // ---------------------------------------------------------------------

  /** The elements of `s` that satisfy `p`, in their original order. */
  function Filter<T>(s: seq<T>, p: T -> bool): (r: seq<T>)
    ensures |r| <= |s|
    ensures forall x | x in r :: x in s && p(x)
    ensures forall x | x in s && p(x) :: x in r
    decreases |s|
  {
    if s == [] then []
    else
      var front := s[..|s| - 1];
      assert s == front + [s[|s| - 1]];
      Filter(front, p) + (if p(s[|s| - 1]) then [s[|s| - 1]] else [])
  }

  /** The first element of `s` that satisfies `p`, if any (a lookup by key). */
  function First<T>(s: seq<T>, p: T -> bool): (r: Option<T>)
    ensures r.Some? ==> r.value in s && p(r.value)
    ensures r.None? <==> forall x | x in s :: !p(x)
  {
    if s == [] then None else if p(s[0]) then Some(s[0]) else First(s[1..], p)
  }

  /** Filtering keeps every relation that held between earlier and later elements. */
  lemma {:induction false} FilterPairwise<T>(s: seq<T>, p: T -> bool, rel: (T, T) -> bool)
    requires forall i, j | 0 <= i < j < |s| :: rel(s[i], s[j])
    ensures forall i, j | 0 <= i < j < |Filter(s, p)| :: rel(Filter(s, p)[i], Filter(s, p)[j])
    decreases |s|
  {
    if s != [] {
      var front := s[..|s| - 1];
      var last := s[|s| - 1];
      FilterPairwise(front, p, rel);
      var f := Filter(front, p);
      if p(last) {
        var r := Filter(s, p);
        assert r == f + [last];
        forall i, j | 0 <= i < j < |r| ensures rel(r[i], r[j]) {
          if j < |f| {
            assert r[i] == f[i] && r[j] == f[j];
          } else {
            assert r[i] in front;
            var a :| 0 <= a < |front| && front[a] == r[i];
            assert s[a] == r[i] && s[|s| - 1] == r[j];
          }
        }
      }
    }
  }

  /** Filtering a sequence with one more element at its end. */
  lemma FilterSnoc<T>(s: seq<T>, x: T, p: T -> bool)
    ensures Filter(s + [x], p) == Filter(s, p) + (if p(x) then [x] else [])
  {
    assert (s + [x])[..|s|] == s;
  }

  /** Filtering one element longer a prefix of `s`. */
  lemma FilterPrefixStep<T>(s: seq<T>, i: nat, p: T -> bool)
    requires i < |s|
    ensures Filter(s[..i + 1], p) == Filter(s[..i], p) + (if p(s[i]) then [s[i]] else [])
  {
    assert s[..i + 1] == s[..i] + [s[i]];
    FilterSnoc(s[..i], s[i], p);
  }

  /** Appending to a sequence does not change what a lookup already finds. */
  lemma {:induction false} FirstAppend<T>(s: seq<T>, x: T, p: T -> bool)
    requires First(s, p).Some?
    ensures First(s + [x], p) == First(s, p)
  {
    if !p(s[0]) {
      assert (s + [x])[1..] == s[1..] + [x];
      FirstAppend(s[1..], x, p);
    }
  }
}
