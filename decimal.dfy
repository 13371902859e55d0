/** Go's `strconv.ParseUint(s, 10, 64)` and `strconv.FormatUint(x, 10)`.
    Parsing works on the bytes of the string: with base 10 given
    explicitly there is no sign, no prefix and no underscore, only ASCII
    digits, and a value above 2^64 - 1 is a range error. */
module Decimal {
  import opened Base

  const MAX_UINT64: nat := 0xFFFF_FFFF_FFFF_FFFF
  /** Go's `maxUint64/10 + 1`: any value at least this overflows when
      multiplied by ten. */
  const CUTOFF: nat := MAX_UINT64 / 10 + 1

  /** The two ways `ParseUint` fails (`strconv.ErrSyntax`, `strconv.ErrRange`). */
  datatype NumError = ErrSyntax | ErrRange

  predicate IsDigit(b: Byte)
  {
    0x30 <= b <= 0x39
  }

  predicate AllDigits(s: Bytes)
  {
    forall i :: 0 <= i < |s| ==> IsDigit(s[i])
  }

  /** The number that the digits `s` denote when read after the digits
      of `acc`, most significant digit first. */
  function Horner(acc: nat, s: Bytes): nat
    requires AllDigits(s)
    decreases |s|
  {
    if |s| == 0 then acc else Horner(acc * 10 + (s[0] - 0x30) as int, s[1..])
  }

  lemma {:induction false} HornerAtLeast(acc: nat, s: Bytes)
    requires AllDigits(s)
    ensures Horner(acc, s) >= acc
    decreases |s|
  {
    if |s| > 0 {
      HornerAtLeast(acc * 10 + (s[0] - 0x30) as int, s[1..]);
    }
  }

  /** Appending one digit multiplies by ten and adds it. */
  lemma {:induction false} HornerSnoc(acc: nat, s: Bytes, d: Byte)
    requires AllDigits(s) && IsDigit(d)
    ensures AllDigits(s + [d])
    ensures Horner(acc, s + [d]) == Horner(acc, s) * 10 + (d - 0x30) as int
    decreases |s|
  {
    assert AllDigits(s + [d]) by {
      assert forall i :: 0 <= i < |s| ==> (s + [d])[i] == s[i];
    }
    if |s| == 0 {
      assert s + [d] == [d];
    } else {
      assert (s + [d])[1..] == s[1..] + [d];
      HornerSnoc(acc * 10 + (s[0] - 0x30) as int, s[1..], d);
    }
  }

  /** The digit loop of `ParseUint` from accumulated value `n`: a
      non-digit is a syntax error; a value that would pass 2^64 - 1 is a
      range error, detected before the next digit is looked at. */
  function ParseDigits(s: Bytes, n: nat): (r: Result<nat, NumError>)
    requires n <= MAX_UINT64
    ensures r.Success? <==> AllDigits(s) && Horner(n, s) <= MAX_UINT64
    ensures r.Success? ==> r.value == Horner(n, s)
    ensures AllDigits(s) && Horner(n, s) > MAX_UINT64 ==> r == Failure(ErrRange)
    decreases |s|
  {
    if |s| == 0 then Success(n)
    else if !IsDigit(s[0]) then Failure(ErrSyntax)
    else
      var n1 := n * 10 + (s[0] - 0x30) as int;
      assert AllDigits(s) ==> AllDigits(s[1..]) && Horner(n, s) == Horner(n1, s[1..]);
      if n >= CUTOFF then
        (if AllDigits(s) then HornerAtLeast(n1, s[1..]); Failure(ErrRange) else Failure(ErrRange))
      else if n1 > MAX_UINT64 then
        (if AllDigits(s) then HornerAtLeast(n1, s[1..]); Failure(ErrRange) else Failure(ErrRange))
      else
        assert AllDigits(s[1..]) ==> AllDigits(s) by {
          if AllDigits(s[1..]) {
            forall i | 0 <= i < |s| ensures IsDigit(s[i]) {
              if i > 0 { assert s[i] == s[1..][i - 1]; }
            }
          }
        }
        ParseDigits(s[1..], n1)
  }

  /** `strconv.ParseUint(s, 10, 64)`: the value of a non-empty string of
      ASCII digits that fits in 64 bits, and an error for anything else. */
  function ParseUint(s: Bytes): (r: Result<nat, NumError>)
    ensures r.Success? <==> |s| > 0 && AllDigits(s) && Horner(0, s) <= MAX_UINT64
    ensures r.Success? ==> r.value == Horner(0, s) && r.value <= MAX_UINT64
    ensures |s| == 0 ==> r == Failure(ErrSyntax)
    ensures |s| > 0 && AllDigits(s) && Horner(0, s) > MAX_UINT64 ==> r == Failure(ErrRange)
  {
    if |s| == 0 then Failure(ErrSyntax) else ParseDigits(s, 0)
  }

  function DigitChar(d: nat): (c: char)
    requires d < 10
    ensures '0' <= c <= '9'
  {
    (0x30 + d) as char
  }

  /** `strconv.FormatUint(n, 10)`: decimal digits, most significant first,
      without leading zeros. */
  function FormatUint(n: nat): (s: string)
    ensures |s| > 0 && forall i :: 0 <= i < |s| ==> '0' <= s[i] <= '9'
    ensures |s| > 1 ==> s[0] != '0'
  {
    if n < 10 then [DigitChar(n)]
    else
      var s := FormatUint(n / 10) + [DigitChar(n % 10)];
      assert s[0] == FormatUint(n / 10)[0];
      assert |FormatUint(n / 10)| == 1 ==> n / 10 != 0;
      s
  }

  /** The bytes of a string of decimal digits are ASCII digits with the
      same positions. */
  lemma DigitBytes(s: string)
    requires forall i :: 0 <= i < |s| ==> '0' <= s[i] <= '9'
    ensures |Utf8(s)| == |s|
    ensures AllDigits(Utf8(s))
    ensures forall i :: 0 <= i < |s| ==> Utf8(s)[i] as int == s[i] as int
  {
    Utf8Ascii(s);
  }

  /** Parsing the decimal text of a 64-bit value gives the value back. */
  lemma {:induction false} ParseFormat(n: nat)
    requires n <= MAX_UINT64
    ensures ParseUint(Utf8(FormatUint(n))) == Success(n)
  {
    HornerFormat(n);
  }

  lemma {:induction false} HornerFormat(n: nat)
    ensures AllDigits(Utf8(FormatUint(n)))
    ensures Horner(0, Utf8(FormatUint(n))) == n
    decreases n
  {
    var s := FormatUint(n);
    DigitBytes(s);
    if n < 10 {
      assert Utf8(s) == [(0x30 + n) as Byte];
    } else {
      var p := FormatUint(n / 10);
      var c := DigitChar(n % 10);
      Utf8Append(p, [c]);
      assert Utf8([c]) == [(0x30 + n % 10) as Byte];
      HornerFormat(n / 10);
      HornerSnoc(0, Utf8(p), (0x30 + n % 10) as Byte);
    }
  }

  /** Distinct 64-bit values have distinct decimal texts. */
  lemma FormatInjective(m: nat, n: nat)
    requires m <= MAX_UINT64 && n <= MAX_UINT64
    requires FormatUint(m) == FormatUint(n)
    ensures m == n
  {
    ParseFormat(m);
    ParseFormat(n);
  }
}
