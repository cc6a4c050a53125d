/**
 The pieces of JavaScript's number and string semantics that the page
 scripts lean on, written out so that the rest of the model can use them:
 the truncating remainder operator, the `\s` character class shared by
 regular expressions and `String.prototype.trim`, `substring(0, n)`,
 `toLowerCase` on ASCII letters, decimal rendering of whole numbers and
 `Array.prototype.join`.

 A JavaScript string is a sequence of UTF-16 code units; here it is a
 `string`, a sequence of Unicode scalar values, so a character outside the
 Basic Multilingual Plane is one element here and two code units there.
 */
module Js {

  datatype Option<T> = None | Some(value: T)

  /* ---------------------------------------------------------------- */
  /* Numbers                                                          */
  /* ---------------------------------------------------------------- */

  /** JavaScript `a % n` for integers and a positive divisor: the quotient is
      truncated toward zero, so the remainder carries the sign of `a`
      (unlike Dafny's Euclidean `%`). */
  function Rem(a: int, n: int): (r: int)
    requires n > 0
    ensures a >= 0 ==> 0 <= r < n
    ensures a < 0 ==> -n < r <= 0
    ensures (a - r) % n == 0
  {
    if a >= 0 then
      ModOfDecomposition(a - a % n, n, a / n, 0);
      a % n
    else
      var r := -((-a) % n);
      ModOfDecomposition(a - r, n, -((-a) / n), 0);
      r
  }

  lemma MulAtLeast(d: int, n: int)
    requires d >= 1 && n > 0
    ensures d * n >= n
  {
  }

  /** Euclidean remainder is determined by any decomposition `x == k*n + m`
      with `0 <= m < n`. */
  lemma ModOfDecomposition(x: int, n: int, k: int, m: int)
    requires n > 0 && 0 <= m < n && x == k * n + m
    ensures x % n == m
  {
    var q := x / n;
    var d := q - k;
    assert d * n == q * n - k * n;
    assert d * n == m - x % n;
    if d > 0 {
      MulAtLeast(d, n);
    } else if d < 0 {
      MulAtLeast(-d, n);
    }
  }

  /* ---------------------------------------------------------------- */
  /* Characters                                                       */
  /* ---------------------------------------------------------------- */

  /** The ECMAScript `\s` class, which `trim` also uses: the white-space
      code points (tab, vertical tab, form feed, zero-width no-break space
      and every Unicode space separator, U+2000 to U+200A among them) and
      the line terminators. */
  function IsSpace(c: char): (b: bool)
    ensures b ==> !IsDigit(c) && c != '@' && c != '+' && c != '.'
  {
    || c == '\t' || c == '\n' || c == '\U{000B}' || c == '\U{000C}' || c == '\r'
    || c == ' ' || c == '\U{00A0}' || c == '\U{1680}'
    || ('\U{2000}' <= c <= '\U{200A}')
    || c == '\U{2028}' || c == '\U{2029}' || c == '\U{202F}' || c == '\U{205F}'
    || c == '\U{3000}' || c == '\U{FEFF}'
  }

  /** The `\d` class: ASCII digits only. */
  predicate IsDigit(c: char) {
    '0' <= c <= '9'
  }

  predicate AllDigits(s: string) {
    forall i :: 0 <= i < |s| ==> IsDigit(s[i])
  }

  /** `toLowerCase` restricted to ASCII upper-case letters. */
  function LowerChar(c: char): (r: char)
    ensures 'A' <= c <= 'Z' ==> 'a' <= r <= 'z'
    ensures !('A' <= c <= 'Z') ==> r == c
  {
    if 'A' <= c <= 'Z' then (c as int - 'A' as int + 'a' as int) as char else c
  }

  function ToLower(s: string): (r: string)
    ensures |r| == |s|
    ensures forall i :: 0 <= i < |s| ==> r[i] == LowerChar(s[i])
  {
    seq(|s|, i requires 0 <= i < |s| => LowerChar(s[i]))
  }

  /* ---------------------------------------------------------------- */
  /* Trimming and cutting                                             */
  /* ---------------------------------------------------------------- */

  /** The end of the run of white space that starts at `i`. */
  function SpaceRunEnd(s: string, i: nat): (n: nat)
    requires i <= |s|
    ensures i <= n <= |s|
    ensures forall k :: i <= k < n ==> IsSpace(s[k])
    ensures n == |s| || !IsSpace(s[n])
    decreases |s| - i
  {
    if i < |s| && IsSpace(s[i]) then SpaceRunEnd(s, i + 1) else i
  }

  /** The start of the run of white space that ends at `j`, looking no
      further back than `lo`. */
  function SpaceRunStart(s: string, lo: nat, j: nat): (m: nat)
    requires lo <= j <= |s|
    ensures lo <= m <= j
    ensures forall k :: m <= k < j ==> IsSpace(s[k])
    ensures m == lo || !IsSpace(s[m - 1])
    decreases j
  {
    if j > lo && IsSpace(s[j - 1]) then SpaceRunStart(s, lo, j - 1) else j
  }

  /** `r` is the slice of `s` starting at `lo`, and only white space lies
      outside it. */
  predicate SpaceFramed(s: string, r: string, lo: int) {
    && 0 <= lo <= |s| - |r|
    && r == s[lo..lo + |r|]
    && (forall i :: 0 <= i < lo ==> IsSpace(s[i]))
    && (forall i :: lo + |r| <= i < |s| ==> IsSpace(s[i]))
  }

  /** `String.prototype.trim`: the result is a contiguous slice of `s`, only
      white space lies outside it, and it neither starts nor ends with
      white space. */
  function Trim(s: string): (r: string)
    ensures r == [] || (!IsSpace(r[0]) && !IsSpace(r[|r| - 1]))
    ensures exists lo :: SpaceFramed(s, r, lo)
  {
    var lo := SpaceRunEnd(s, 0);
    var hi := SpaceRunStart(s, lo, |s|);
    assert SpaceFramed(s, s[lo..hi], lo);
    s[lo..hi]
  }

  /** A string without white space trims to itself. */
  lemma TrimOfUnspaced(s: string)
    requires forall k :: 0 <= k < |s| ==> !IsSpace(s[k])
    ensures Trim(s) == s
  {
    assert SpaceRunEnd(s, 0) == 0;
    assert SpaceRunStart(s, 0, |s|) == |s|;
    assert s[0..|s|] == s;
  }

  /** `s.substring(0, n)` for a non-negative `n`: the longest prefix of `s`
      that has at most `n` elements. */
  function Take(s: string, n: nat): (r: string)
    ensures r <= s
    ensures |r| <= n
    ensures |s| <= n ==> r == s
    ensures |s| > n ==> |r| == n
  {
    if |s| <= n then s else s[..n]
  }

  /** `t` is what `substring(0, n)` leaves of `s`: its prefix of `n`
      characters, or all of `s` when that is shorter. */
  predicate CutFrom(t: string, s: string, n: nat) {
    t <= s && |t| == if |s| <= n then |s| else n
  }

  /* ---------------------------------------------------------------- */
  /* Decimal numerals                                                 */
  /* ---------------------------------------------------------------- */

  function DigitChar(d: nat): (c: char)
    requires d < 10
    ensures IsDigit(c)
  {
    "0123456789"[d]
  }

  function DigitValue(c: char): (d: nat)
    requires IsDigit(c)
    ensures d < 10
  {
    c as int - '0' as int
  }

  /** The value of a string of decimal digits (0 for the empty string). */
  function DigitsValue(s: string): nat
    requires AllDigits(s)
  {
    if s == [] then 0 else 10 * DigitsValue(s[..|s| - 1]) + DigitValue(s[|s| - 1])
  }

  /** `String(n)` for a whole number: its shortest decimal numeral, which is
      non-empty, made of digits and free of leading zeros. */
  function Decimal(n: nat): (r: string)
    ensures r != [] && AllDigits(r)
    ensures |r| > 1 ==> r[0] != '0'
  {
    if n < 10 then [DigitChar(n)] else Decimal(n / 10) + [DigitChar(n % 10)]
  }

  /** A numeral as `String(n)` prints one: digits, at least one, and no
      leading zero unless the numeral is `0` itself. */
  predicate IsNumeral(s: string) {
    s != [] && AllDigits(s) && (|s| > 1 ==> s[0] != '0')
  }

  lemma DigitCharOfValue(c: char)
    requires IsDigit(c)
    ensures DigitChar(DigitValue(c)) == c
  {
  }

  /** A numeral whose first digit is not `0` has a positive value. */
  lemma {:induction false} LeadingDigitPositive(s: string)
    requires s != [] && AllDigits(s) && s[0] != '0'
    ensures DigitsValue(s) >= 1
    decreases |s|
  {
    if |s| > 1 {
      LeadingDigitPositive(s[..|s| - 1]);
    }
  }

  /** Every numeral is the one `String(n)` prints for its value, so a
      numeral is fixed by the number it reads as. */
  lemma {:induction false} NumeralIsDecimal(s: string)
    requires IsNumeral(s)
    ensures Decimal(DigitsValue(s)) == s
    decreases |s|
  {
    var last := s[|s| - 1];
    DigitCharOfValue(last);
    if |s| > 1 {
      var p := s[..|s| - 1];
      LeadingDigitPositive(p);
      NumeralIsDecimal(p);
      var n := DigitsValue(s);
      assert n == 10 * DigitsValue(p) + DigitValue(last);
      assert n / 10 == DigitsValue(p) && n % 10 == DigitValue(last);
      assert s == p + [last];
    } else {
      assert s == [last];
    }
  }

  /** Reading the numeral back gives the number: decimal rendering is
      injective, so two different counts or sizes never print alike. */
  lemma {:induction false} DecimalRoundTrip(n: nat)
    ensures DigitsValue(Decimal(n)) == n
  {
    if n >= 10 {
      DecimalRoundTrip(n / 10);
      var s := Decimal(n);
      assert s[..|s| - 1] == Decimal(n / 10);
    }
  }

  /* ---------------------------------------------------------------- */
  /* Joining                                                          */
  /* ---------------------------------------------------------------- */

  /** `parts.join(sep)`. */
  function Join(parts: seq<string>, sep: string): (r: string)
    ensures parts == [] ==> r == []
    ensures parts != [] ==> parts[0] <= r
    ensures |parts| >= 2 ==> parts[0] + sep <= r
  {
    if parts == [] then []
    else if |parts| == 1 then parts[0]
    else parts[0] + sep + Join(parts[1..], sep)
  }

  /** Appending a part appends the separator and that part: the parts
      follow one another in order, each pair separated by `sep`, with
      nothing else in between. */
  lemma {:induction false} JoinSnoc(parts: seq<string>, sep: string, p: string)
    requires parts != []
    ensures Join(parts + [p], sep) == Join(parts, sep) + sep + p
    decreases |parts|
  {
    var ps := parts + [p];
    assert |ps| >= 2 && ps[0] == parts[0] && ps[1..] == parts[1..] + [p];
    assert Join(ps, sep) == parts[0] + sep + Join(parts[1..] + [p], sep);
    if |parts| == 1 {
      assert parts[1..] + [p] == [p];
      assert Join(parts, sep) == parts[0];
    } else {
      JoinSnoc(parts[1..], sep, p);
      assert Join(parts, sep) == parts[0] + sep + Join(parts[1..], sep);
    }
  }

  /** `part` occurs in `s` starting at position `p`. */
  predicate OccursAt(s: string, part: string, p: int) {
    0 <= p <= |s| - |part| && s[p..p + |part|] == part
  }

  /** A slice that lies inside a prefix is that slice of the prefix. */
  lemma PrefixSlice(s: string, x: string, a: nat, b: nat)
    requires x <= s && a <= b <= |x|
    ensures s[a..b] == x[a..b]
  {
  }

  /** An occurrence stays one when text is put in front, shifted by the
      length of that text. */
  lemma OccursAfter(front: string, s: string, part: string, p: int)
    requires OccursAt(s, part, p)
    ensures OccursAt(front + s, part, |front| + p)
  {
    assert (front + s)[|front| + p..|front| + p + |part|] == s[p..p + |part|];
  }

  /** An occurrence stays one when text is put after it. */
  lemma OccursBefore(s: string, back: string, part: string, p: int)
    requires OccursAt(s, part, p)
    ensures OccursAt(s + back, part, p)
  {
    assert (s + back)[p..p + |part|] == s[p..p + |part|];
  }

  /** Every part occurs, in full, inside the joined string. */
  lemma {:induction false} JoinContainsPart(parts: seq<string>, sep: string, i: nat)
    requires i < |parts|
    ensures exists p :: OccursAt(Join(parts, sep), parts[i], p)
  {
    var j := Join(parts, sep);
    if i == 0 {
      assert OccursAt(j, parts[0], 0);
    } else {
      JoinContainsPart(parts[1..], sep, i - 1);
      var rest := Join(parts[1..], sep);
      var p :| OccursAt(rest, parts[1..][i - 1], p);
      var off := |parts[0]| + |sep|;
      assert j == parts[0] + sep + rest;
      assert j[off + p..off + p + |parts[i]|] == rest[p..p + |parts[i]|];
      assert OccursAt(j, parts[i], off + p);
    }
  }

  /** A part of a joined list still occurs once the list is framed as
      `outer + (front + joined + back)`. */
  lemma JoinFramedContainsPart(
    outer: string, front: string, parts: seq<string>, sep: string, back: string, i: nat)
    requires i < |parts|
    ensures exists p :: OccursAt(outer + (front + Join(parts, sep) + back), parts[i], p)
  {
    var joined := Join(parts, sep);
    JoinContainsPart(parts, sep, i);
    var p :| OccursAt(joined, parts[i], p);
    OccursAfter(front, joined, parts[i], p);
    OccursBefore(front + joined, back, parts[i], |front| + p);
    OccursAfter(outer, front + joined + back, parts[i], |front| + p);
  }
}
