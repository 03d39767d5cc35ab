/** Python's `int(field)` applied to a `bytes` field in base 10, which is how
    every numeric field of an ar member header is read.

    The accepted text is: optional ASCII whitespace, an optional `+` or `-`,
    one or more decimal digits with single underscores allowed between two
    digits, optional ASCII whitespace. Anything else raises `ValueError`,
    modelled as `None`. Leading zeros are allowed in base 10. */
module PyInt {
  import opened Base

  const Plus: byte := 43
  const Minus: byte := 45
  const Underscore: byte := 95
  const Zero: byte := 48

  /** The bytes CPython strips around a number: `\t \n \v \f \r` and space. */
  predicate IsSpace(b: byte) { b == 32 || 9 <= b <= 13 }

  predicate IsDigit(b: byte) { 48 <= b <= 57 }

  function DigitValue(b: byte): nat
    requires IsDigit(b)
  {
    (b - Zero) as nat
  }

  function TrimStart(s: seq<byte>): seq<byte>
  {
    if |s| > 0 && IsSpace(s[0]) then TrimStart(s[1..]) else s
  }

  function TrimEnd(s: seq<byte>): seq<byte>
  {
    if |s| > 0 && IsSpace(s[|s| - 1]) then TrimEnd(s[..|s| - 1]) else s
  }

  /** `TrimStart` drops a run of leading whitespace and nothing else. */
  lemma {:induction false} TrimStartDrops(s: seq<byte>)
    ensures var t := TrimStart(s);
            && |t| <= |s| && t == s[|s| - |t|..]
            && (|t| > 0 ==> !IsSpace(t[0]))
            && forall i :: 0 <= i < |s| - |t| ==> IsSpace(s[i])
  {
    if |s| > 0 && IsSpace(s[0]) {
      TrimStartDrops(s[1..]);
    }
  }

  /** `TrimEnd` drops a run of trailing whitespace and nothing else. */
  lemma {:induction false} TrimEndDrops(s: seq<byte>)
    ensures var t := TrimEnd(s);
            && |t| <= |s| && t == s[..|t|]
            && (|t| > 0 ==> !IsSpace(t[|t| - 1]))
            && forall i :: |t| <= i < |s| ==> IsSpace(s[i])
  {
    if |s| > 0 && IsSpace(s[|s| - 1]) {
      TrimEndDrops(s[..|s| - 1]);
    }
  }

  /** The field without its surrounding whitespace. */
  function Trim(s: seq<byte>): seq<byte>
  {
    TrimEnd(TrimStart(s))
  }

  /** Digits, with an underscore allowed only between two digits. */
  predicate WellFormedDigits(s: seq<byte>)
  {
    && |s| > 0
    && IsDigit(s[0])
    && IsDigit(s[|s| - 1])
    && forall i :: 0 <= i < |s| ==> DigitOrJoiner(s, i)
  }

  /** `s[i]` is a digit, or an underscore with a digit on either side. */
  predicate DigitOrJoiner(s: seq<byte>, i: nat)
    requires i < |s|
  {
    IsDigit(s[i]) || (s[i] == Underscore && 0 < i < |s| - 1 && IsDigit(s[i - 1]) && IsDigit(s[i + 1]))
  }

  /** The decimal value of the digits of `s`, underscores skipped. */
  function DigitsValue(s: seq<byte>): nat
  {
    if s == [] then 0
    else if IsDigit(s[|s| - 1]) then DigitsValue(s[..|s| - 1]) * 10 + DigitValue(s[|s| - 1])
    else DigitsValue(s[..|s| - 1])
  }

  /** `int(field)`: the value, or `None` where Python raises `ValueError`. */
  function ParseInt(field: seq<byte>): Option<int>
  {
    ParseTrimmed(Trim(field))
  }

  /** The number after the whitespace is gone: a sign and digits. */
  function ParseTrimmed(t: seq<byte>): Option<int>
  {
    if |t| > 0 && (t[0] == Plus || t[0] == Minus) then
      if WellFormedDigits(t[1..]) then
        Some(if t[0] == Minus then -(DigitsValue(t[1..]) as int) else DigitsValue(t[1..]))
      else None
    else if WellFormedDigits(t) then Some(DigitsValue(t))
    else None
  }

  /** The canonical decimal text of `n`, as an ar writer puts it in a header. */
  function Decimal(n: nat): (s: seq<byte>)
    ensures 0 < |s| && forall i :: 0 <= i < |s| ==> IsDigit(s[i])
  {
    if n < 10 then [Zero + n as byte] else Decimal(n / 10) + [Zero + (n % 10) as byte]
  }

  function Pow10(k: nat): (p: nat)
    ensures p >= 1
  {
    if k == 0 then 1 else 10 * Pow10(k - 1)
  }

  /** `n` fits a field of `width` decimal digits. */
  predicate FitsWidth(n: nat, width: nat) { 0 < width && n < Pow10(width) }

  /** An ar header number: decimal text left-justified and space-padded to `width`. */
  function EncodeField(n: nat, width: nat): (s: seq<byte>)
    requires FitsWidth(n, width)
    ensures |s| == width
  {
    DecimalLength(n, width);
    Decimal(n) + Spaces(width - |Decimal(n)|)
  }

  lemma {:induction false} DecimalLength(n: nat, width: nat)
    requires FitsWidth(n, width)
    ensures |Decimal(n)| <= width
  {
    if n >= 10 {
      assert width > 1;
      assert n / 10 < Pow10(width - 1);
      DecimalLength(n / 10, width - 1);
    }
  }

  lemma {:induction false} DigitsValueOfDecimal(n: nat)
    ensures DigitsValue(Decimal(n)) == n
  {
    var s := Decimal(n);
    if n < 10 {
      assert s[..0] == [];
    } else {
      assert s[..|s| - 1] == Decimal(n / 10);
      DigitsValueOfDecimal(n / 10);
    }
  }

  lemma {:induction false} TrimEndOfPadded(d: seq<byte>, k: nat)
    requires |d| > 0 && !IsSpace(d[|d| - 1])
    ensures TrimEnd(d + Spaces(k)) == d
  {
    if k > 0 {
      assert (d + Spaces(k))[..|d| + k - 1] == d + Spaces(k - 1);
      TrimEndOfPadded(d, k - 1);
    } else {
      assert d + Spaces(0) == d;
    }
  }

  /** Reading back a written field gives the number that was written: the
      field is read in base 10 (a file mode `100644` is 100644, not octal),
      and the space padding is ignored. */
  lemma ParseEncodedField(n: nat, width: nat)
    requires FitsWidth(n, width)
    ensures ParseInt(EncodeField(n, width)) == Some(n)
  {
    var d := Decimal(n);
    DecimalLength(n, width);
    var f := d + Spaces(width - |d|);
    assert f[0] == d[0];
    assert TrimStart(f) == f;
    TrimEndOfPadded(d, width - |d|);
    assert Trim(f) == d;
    assert !(d[0] == Plus || d[0] == Minus);
    AllDigitsWellFormed(d);
    assert ParseTrimmed(d) == Some(DigitsValue(d));
    DigitsValueOfDecimal(n);
  }

  lemma AllDigitsWellFormed(d: seq<byte>)
    requires |d| > 0 && forall i :: 0 <= i < |d| ==> IsDigit(d[i])
    ensures WellFormedDigits(d)
  {
    assert forall i :: 0 <= i < |d| ==> DigitOrJoiner(d, i);
  }

  /** A blank field is not a number: `int(b'      ')` raises, so a header with
      an empty uid, gid, mode, size or mtime cannot be decoded. */
  lemma BlankFieldFails(width: nat)
    ensures ParseInt(Spaces(width)) == None
  {
    TrimStartDrops(Spaces(width));
    assert TrimStart(Spaces(width)) == [];
  }

  /** A field holding a byte that is neither whitespace, sign, digit nor
      underscore is rejected, wherever that byte is. */
  lemma {:induction false} StrayByteFails(field: seq<byte>, i: nat)
    requires i < |field|
    requires !IsSpace(field[i]) && !IsDigit(field[i])
    requires field[i] != Plus && field[i] != Minus && field[i] != Underscore
    ensures ParseInt(field) == None
  {
    var s := TrimStart(field);
    var t := TrimEnd(s);
    TrimStartDrops(field);
    TrimEndDrops(s);
    assert t == Trim(field);
    var j := i - (|field| - |s|);
    assert s[j] == field[i];
    assert t[j] == field[i];
    if |t| > 0 && (t[0] == Plus || t[0] == Minus) {
      NotDigitsAt(t[1..], j - 1);
    } else {
      NotDigitsAt(t, j);
    }
  }

  lemma NotDigitsAt(u: seq<byte>, j: nat)
    requires j < |u| && !IsDigit(u[j]) && u[j] != Underscore
    ensures !WellFormedDigits(u)
  {
    assert !DigitOrJoiner(u, j);
  }
}
