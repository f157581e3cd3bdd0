/**
 * Python 2.7's `int(s, 16)` on a byte string, which `__in_bytes` applies to
 * both halves of an xlog location. Besides plain hexadecimal digits it
 * accepts leading and trailing whitespace, a `+` or `-` sign (with
 * whitespace allowed after the sign too), and a `0x`/`0X` prefix when a
 * digit follows it; everything else raises `ValueError`, modelled as `None`.
 * The scan works on positions in `s`, as the C routines behind `int` do.
 */
module PyInt {
  import opened Wrappers
  import opened Hex
  import opened PyText

  /** The end of the run of whitespace that starts at `from`. */
  function SkipSpace(s: string, from: nat): (end: nat)
    requires from <= |s|
    ensures from <= end <= |s|
    ensures forall k :: from <= k < end ==> IsSpace(s[k])
    ensures end == |s| || !IsSpace(s[end])
    decreases |s| - from
  {
    if from < |s| && IsSpace(s[from]) then SkipSpace(s, from + 1) else from
  }

  /** The end of the run of hexadecimal digits that starts at `from`. */
  function SkipHexDigits(s: string, from: nat): (end: nat)
    requires from <= |s|
    ensures from <= end <= |s|
    ensures forall k :: from <= k < end ==> IsHexDigit(s[k])
    ensures end == |s| || !IsHexDigit(s[end])
    decreases |s| - from
  {
    if from < |s| && IsHexDigit(s[from]) then SkipHexDigits(s, from + 1) else from
  }

  /** A whitespace run is skipped up to its first non-whitespace character. */
  lemma {:induction false} SkipSpaceTo(s: string, from: nat, end: nat)
    requires from <= end <= |s|
    requires forall k :: from <= k < end ==> IsSpace(s[k])
    requires end == |s| || !IsSpace(s[end])
    ensures SkipSpace(s, from) == end
    decreases end - from
  {
    if from < end {
      SkipSpaceTo(s, from + 1, end);
    }
  }

  /** A digit run is skipped up to its first non-digit character. */
  lemma {:induction false} SkipHexDigitsTo(s: string, from: nat, end: nat)
    requires from <= end <= |s|
    requires forall k :: from <= k < end ==> IsHexDigit(s[k])
    requires end == |s| || !IsHexDigit(s[end])
    ensures SkipHexDigits(s, from) == end
    decreases end - from
  {
    if from < end {
      SkipHexDigitsTo(s, from + 1, end);
    }
  }

  /** `0x` or `0X` at position `at`, followed by a digit: the prefix that base 16 skips. */
  predicate HasHexPrefix(s: string, at: nat) {
    at + 2 < |s| && s[at] == '0' && (s[at + 1] == 'x' || s[at + 1] == 'X') && IsHexDigit(s[at + 2])
  }

  /** What the scan of an accepted string finds: the sign, and where the digits start and end. */
  datatype Scan = Scan(negative: bool, start: nat, end: nat)

  /**
   * The syntax check of `int(s, 16)`: whitespace, an optional sign,
   * whitespace, then what `ScanDigits` accepts.
   */
  function ScanHexInt(s: string): (r: Option<Scan>)
    ensures r.Some? ==> r.value.start < r.value.end <= |s|
    ensures r.Some? ==> forall k :: r.value.start <= k < r.value.end ==> IsHexDigit(s[k])
  {
    var i := SkipSpace(s, 0);
    var signed := i < |s| && (s[i] == '+' || s[i] == '-');
    ScanDigits(s, signed && s[i] == '-', SkipSpace(s, if signed then i + 1 else i))
  }

  /**
   * The rest of the syntax check, from position `j` on: an optional
   * `0x`/`0X` before a digit, at least one digit, and nothing but
   * whitespace after the digits.
   */
  function ScanDigits(s: string, negative: bool, j: nat): (r: Option<Scan>)
    requires j <= |s|
    ensures r.Some? ==> j <= r.value.start < r.value.end <= |s| && r.value.negative == negative
    ensures r.Some? ==> forall k :: r.value.start <= k < r.value.end ==> IsHexDigit(s[k])
  {
    var d := if HasHexPrefix(s, j) then j + 2 else j;
    var e := SkipHexDigits(s, d);
    if e == d || SkipSpace(s, e) != |s| then None else Some(Scan(negative, d, e))
  }

  /** `int(s, 16)`: `Some(value)`, or `None` where Python raises `ValueError`. */
  function ParseHexInt(s: string): Option<int> {
    match ScanHexInt(s)
    case None => None
    case Some(scan) =>
      var digits := s[scan.start..scan.end];
      assert forall k :: 0 <= k < |digits| ==> digits[k] == s[scan.start + k];
      var magnitude: int := HexValue(digits);
      Some(if scan.negative then -magnitude else magnitude)
  }

  datatype Sign = Unsigned | Plus | Minus

  function SignText(sign: Sign): string {
    match sign
    case Unsigned => ""
    case Plus => "+"
    case Minus => "-"
  }

  /** Nothing, or the `0x`/`0X` that may stand in front of base-16 digits. */
  predicate IsRadixPrefix(p: string) {
    |p| == 0 || (|p| == 2 && p[0] == '0' && (p[1] == 'x' || p[1] == 'X'))
  }

  /**
   * The grammar of strings that `int(s, 16)` accepts, as its parts:
   * whitespace, an optional sign, whitespace, an optional `0x`/`0X`,
   * one or more digits, whitespace.
   */
  datatype HexLiteral = HexLiteral(lead: string, sign: Sign, gap: string, prefix: string, digits: string, trail: string)
  {
    predicate Valid() {
      AllSpace(lead) && AllSpace(gap) && AllSpace(trail) && IsRadixPrefix(prefix) && IsHex(digits)
    }

    function Text(): string {
      lead + SignText(sign) + gap + prefix + digits + trail
    }

    function Value(): int
      requires Valid()
    {
      var v: int := HexValue(digits);
      if sign == Minus then -v else v
    }
  }

  /** Characters that can occur in a string `int(s, 16)` accepts. */
  predicate IsLiteralChar(c: char) {
    IsHexDigit(c) || IsSpace(c) || c == '+' || c == '-' || c == 'x' || c == 'X'
  }

  /**
   * `s` laid out as the grammar says, given as positions: whitespace before
   * `a`, a sign from `a` to `b` (or none, when `a == b`), whitespace up to
   * `c`, a `0x`/`0X` up to `d` (or none), digits up to `e`, whitespace to
   * the end.
   */
  predicate LaidOut(s: string, a: nat, b: nat, c: nat, d: nat, e: nat) {
    && a <= b <= c <= d < e <= |s|
    && (forall k :: 0 <= k < a ==> IsSpace(s[k]))
    && (b == a || (b == a + 1 && (s[a] == '+' || s[a] == '-')))
    && (forall k :: b <= k < c ==> IsSpace(s[k]))
    && (d == c || (d == c + 2 && s[c] == '0' && (s[c + 1] == 'x' || s[c + 1] == 'X')))
    && (forall k :: d <= k < e ==> IsHexDigit(s[k]))
    && (forall k :: e <= k < |s| ==> IsSpace(s[k]))
  }

  /** The scan finds the sign and the digits of any string laid out as the grammar says. */
  lemma ScanLaidOut(s: string, a: nat, b: nat, c: nat, d: nat, e: nat)
    requires LaidOut(s, a, b, c, d, e)
    ensures ScanHexInt(s) == Some(Scan(b == a + 1 && s[a] == '-', d, e))
  {
    SignLaidOut(s, a, b, c, d, e);
    DigitsLaidOut(s, a, b, c, d, e, b == a + 1 && s[a] == '-');
  }

  /** In a laid-out string the scan from `c` on finds the digits between `d` and `e`. */
  lemma DigitsLaidOut(s: string, a: nat, b: nat, c: nat, d: nat, e: nat, negative: bool)
    requires LaidOut(s, a, b, c, d, e)
    ensures ScanDigits(s, negative, c) == Some(Scan(negative, d, e))
  {
    PrefixLaidOut(s, a, b, c, d, e);
    SkipHexDigitsTo(s, d, e);
    SkipSpaceTo(s, e, |s|);
  }

  /** In a laid-out string the scan skips whitespace, the sign and whitespace up to `c`. */
  lemma SignLaidOut(s: string, a: nat, b: nat, c: nat, d: nat, e: nat)
    requires LaidOut(s, a, b, c, d, e)
    ensures var i := SkipSpace(s, 0);
      var signed := i < |s| && (s[i] == '+' || s[i] == '-');
      && signed == (b == a + 1)
      && (signed ==> i == a)
      && SkipSpace(s, if signed then i + 1 else i) == c
  {
    assert !IsSpace(s[c]) && s[c] != '+' && s[c] != '-' by {
      assert d == c ==> IsHexDigit(s[d]);
    }
    if b == a {
      SkipSpaceTo(s, 0, c);
      SkipSpaceTo(s, c, c);
    } else {
      SkipSpaceTo(s, 0, a);
      SkipSpaceTo(s, a + 1, c);
    }
  }

  /** In a laid-out string the scan sees a `0x`/`0X` at `c` exactly when the layout has one. */
  lemma PrefixLaidOut(s: string, a: nat, b: nat, c: nat, d: nat, e: nat)
    requires LaidOut(s, a, b, c, d, e)
    ensures HasHexPrefix(s, c) <==> d == c + 2
  {
    if d == c {
      assert c + 1 < e ==> IsHexDigit(s[c + 1]);
      assert e <= c + 1 < |s| ==> IsSpace(s[c + 1]);
    } else {
      assert IsHexDigit(s[c + 2]);
    }
  }

  /** Every string the scan accepts is laid out as the grammar says. */
  lemma ScanShape(s: string) returns (a: nat, b: nat, c: nat)
    requires ScanHexInt(s).Some?
    ensures var scan := ScanHexInt(s).value;
      && LaidOut(s, a, b, c, scan.start, scan.end)
      && scan.negative == (b == a + 1 && s[a] == '-')
  {
    a := SkipSpace(s, 0);
    b := if a < |s| && (s[a] == '+' || s[a] == '-') then a + 1 else a;
    c := SkipSpace(s, b);
  }

  /** The positions of the parts of a literal in its text. */
  lemma Layout(lit: HexLiteral)
    requires lit.Valid()
    ensures var s, a := lit.Text(), |lit.lead|;
      var b := a + |SignText(lit.sign)|;
      var c := b + |lit.gap|;
      var d := c + |lit.prefix|;
      var e := d + |lit.digits|;
      && LaidOut(s, a, b, c, d, e)
      && (lit.sign == Minus <==> (b == a + 1 && s[a] == '-'))
      && s[d..e] == lit.digits
  {
    var s, a := lit.Text(), |lit.lead|;
    var b := a + |SignText(lit.sign)|;
    var c := b + |lit.gap|;
    var d := c + |lit.prefix|;
    var e := d + |lit.digits|;
    assert s[..a] == lit.lead;
    assert s[a..b] == SignText(lit.sign);
    assert s[b..c] == lit.gap;
    assert s[c..d] == lit.prefix;
    assert s[d..e] == lit.digits;
    assert s[e..] == lit.trail;
    SlicesLaidOut(s, a, b, c, d, e);
  }

  /** The layout of a string follows from the shape of its slices. */
  lemma SlicesLaidOut(s: string, a: nat, b: nat, c: nat, d: nat, e: nat)
    requires a <= b <= c <= d < e <= |s|
    requires AllSpace(s[..a]) && AllSpace(s[b..c]) && AllSpace(s[e..])
    requires b == a || s[a..b] == "+" || s[a..b] == "-"
    requires IsRadixPrefix(s[c..d]) && IsHex(s[d..e])
    ensures LaidOut(s, a, b, c, d, e)
  {
    assert s[..a] == s[0..a];
    SpaceSlice(s, 0, a);
    SpaceSlice(s, b, c);
    assert s[e..] == s[e..|s|];
    SpaceSlice(s, e, |s|);
    DigitSlice(s, d, e);
    assert b > a ==> s[a] == s[a..b][0];
    assert d > c ==> s[c] == s[c..d][0] && s[c + 1] == s[c..d][1];
  }

  /** A slice of whitespace covers whitespace positions. */
  lemma SpaceSlice(s: string, i: nat, j: nat)
    requires i <= j <= |s| && AllSpace(s[i..j])
    ensures forall k :: i <= k < j ==> IsSpace(s[k])
  {
    forall k | i <= k < j
      ensures IsSpace(s[k])
    {
      assert s[k] == s[i..j][k - i];
    }
  }

  /** A slice of digits covers digit positions. */
  lemma DigitSlice(s: string, i: nat, j: nat)
    requires i <= j <= |s| && AllHexDigits(s[i..j])
    ensures forall k :: i <= k < j ==> IsHexDigit(s[k])
  {
    forall k | i <= k < j
      ensures IsHexDigit(s[k])
    {
      assert s[k] == s[i..j][k - i];
    }
  }

  /** Every string of the grammar is accepted, with the literal's value. */
  lemma ParseHexIntAccepts(lit: HexLiteral)
    requires lit.Valid()
    ensures ParseHexInt(lit.Text()) == Some(lit.Value())
  {
    Layout(lit);
    var a := |lit.lead|;
    var b := a + |SignText(lit.sign)|;
    var c := b + |lit.gap|;
    var d := c + |lit.prefix|;
    ParseLaidOut(lit.Text(), lit, a, b, c, d, d + |lit.digits|);
  }

  /** A string laid out with the sign and the digits of `lit` is read as the value of `lit`. */
  lemma ParseLaidOut(s: string, lit: HexLiteral, a: nat, b: nat, c: nat, d: nat, e: nat)
    requires lit.Valid() && LaidOut(s, a, b, c, d, e)
    requires lit.sign == Minus <==> (b == a + 1 && s[a] == '-')
    requires s[d..e] == lit.digits
    ensures ParseHexInt(s) == Some(lit.Value())
  {
    ScanLaidOut(s, a, b, c, d, e);
  }

  /** Six adjacent slices make up the whole string. */
  lemma JoinSlices(s: string, a: nat, b: nat, c: nat, d: nat, e: nat)
    requires a <= b <= c <= d <= e <= |s|
    ensures s[..a] + s[a..b] + s[b..c] + s[c..d] + s[d..e] + s[e..] == s
  {
    assert s[..a] + s[a..b] == s[..b];
    assert s[..b] + s[b..c] == s[..c];
    assert s[..c] + s[c..d] == s[..d];
    assert s[..d] + s[d..e] == s[..e];
    assert s[..e] + s[e..] == s;
  }

  /** Only strings of the grammar are accepted, and the result is the literal's value. */
  lemma ParseHexIntOnlyLiterals(s: string) returns (lit: HexLiteral)
    requires ParseHexInt(s).Some?
    ensures lit.Valid() && lit.Text() == s && lit.Value() == ParseHexInt(s).value
  {
    var a, b, c := ScanShape(s);
    var d, e := ScanHexInt(s).value.start, ScanHexInt(s).value.end;
    var sign := if b == a then Unsigned else if s[a] == '+' then Plus else Minus;
    assert SignText(sign) == s[a..b];
    lit := HexLiteral(s[..a], sign, s[b..c], s[c..d], s[d..e], s[e..]);
    LaidOutSlices(s, a, b, c, d, e);
    JoinSlices(s, a, b, c, d, e);
  }

  /** The slices of a laid-out string have the shapes the grammar gives its parts. */
  lemma LaidOutSlices(s: string, a: nat, b: nat, c: nat, d: nat, e: nat)
    requires LaidOut(s, a, b, c, d, e)
    ensures AllSpace(s[..a]) && AllSpace(s[b..c]) && AllSpace(s[e..])
    ensures IsRadixPrefix(s[c..d]) && IsHex(s[d..e])
  {
  }

  /** A plain digit string is read as its hexadecimal value. */
  lemma ParseHexIntPlain(s: string)
    requires IsHex(s)
    ensures ParseHexInt(s) == Some(HexValue(s))
  {
    var lit := HexLiteral("", Unsigned, "", "", s, "");
    assert lit.Text() == s;
    ParseHexIntAccepts(lit);
  }

  /** An accepted string holds a digit; so the empty string and whitespace alone are rejected. */
  lemma ParseHexIntNeedsDigit(s: string)
    requires ParseHexInt(s).Some?
    ensures exists k :: 0 <= k < |s| && IsHexDigit(s[k])
  {
    var a, b, c := ScanShape(s);
    assert IsHexDigit(s[ScanHexInt(s).value.start]);
  }

  /** A character outside digits, whitespace, signs and `x`/`X` makes `int(s, 16)` raise. */
  lemma ParseHexIntRejectsForeignChar(s: string, k: nat)
    requires k < |s| && !IsLiteralChar(s[k])
    ensures ParseHexInt(s) == None
  {
    if ParseHexInt(s).Some? {
      var a, b, c := ScanShape(s);
      LaidOutChars(s, a, b, c, ScanHexInt(s).value.start, ScanHexInt(s).value.end);
    }
  }

  /** Every character of a laid-out string belongs to the grammar's alphabet. */
  lemma LaidOutChars(s: string, a: nat, b: nat, c: nat, d: nat, e: nat)
    requires LaidOut(s, a, b, c, d, e)
    ensures forall k :: 0 <= k < |s| ==> IsLiteralChar(s[k])
  {
  }

  /** Without a minus sign the value is never negative. */
  lemma ParseHexIntUnsignedNonNegative(s: string)
    requires ParseHexInt(s).Some? && '-' !in s
    ensures ParseHexInt(s).value >= 0
  {
    var a, b, c := ScanShape(s);
  }
}
