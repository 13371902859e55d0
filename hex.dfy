/** Go's `encoding/hex`: decoding a digest written as hexadecimal text.
    Decoding accepts digits and letters of either case and fails on an odd
    length or on any other byte. */
module Hex {
  import opened Base

  /** The value of one hexadecimal digit, if `c` is one. */
  function DigitValue(c: Byte): (r: Option<nat>)
    ensures r.Some? ==> r.value < 16
  {
    var n := c as int;
    if 0x30 <= n <= 0x39 then Some(n - 0x30)       // '0' .. '9'
    else if 0x61 <= n <= 0x66 then Some(n - 0x57)  // 'a' .. 'f'
    else if 0x41 <= n <= 0x46 then Some(n - 0x37)  // 'A' .. 'F'
    else None
  }

  predicate IsHexDigit(c: Byte)
  {
    DigitValue(c).Some?
  }

  /** Text that `hex.DecodeString` accepts. */
  predicate WellFormed(s: Bytes)
  {
    |s| % 2 == 0 && forall i :: 0 <= i < |s| ==> IsHexDigit(s[i])
  }

  lemma WellFormedCons(s: Bytes)
    requires |s| >= 2
    ensures WellFormed(s) <==> IsHexDigit(s[0]) && IsHexDigit(s[1]) && WellFormed(s[2..])
  {
    assert forall i :: 2 <= i < |s| ==> s[i] == s[2..][i - 2];
  }

  /** The value of a digit, zero for any other byte. */
  function Nibble(c: Byte): (v: nat)
    ensures v < 16
    ensures IsHexDigit(c) ==> DigitValue(c) == Some(v)
  {
    match DigitValue(c)
    case Some(v) => v
    case None => 0
  }

  /** `r` holds one byte per digit pair of `s`, high digit first. */
  predicate Pairs(s: Bytes, r: Bytes)
    decreases |r|
  {
    if |r| == 0 then |s| == 0
    else |s| >= 2 && r[0] as int == Nibble(s[0]) * 16 + Nibble(s[1]) && Pairs(s[2..], r[1..])
  }

  /** `Pairs` byte by byte. */
  lemma {:induction false} PairsIndex(s: Bytes, r: Bytes)
    requires Pairs(s, r)
    ensures 2 * |r| == |s|
    ensures forall j :: 0 <= j < |r| ==> r[j] as int == Nibble(s[2 * j]) * 16 + Nibble(s[2 * j + 1])
    decreases |r|
  {
    if |r| > 0 {
      PairsIndex(s[2..], r[1..]);
      forall j | 1 <= j < |r|
        ensures r[j] as int == Nibble(s[2 * j]) * 16 + Nibble(s[2 * j + 1])
      {
        assert r[j] == r[1..][j - 1];
        assert s[2 * j] == s[2..][2 * (j - 1)] && s[2 * j + 1] == s[2..][2 * (j - 1) + 1];
      }
    }
  }

  /** `hex.DecodeString`: succeeds exactly on even-length text made of
      hexadecimal digits, producing one byte per pair, high digit first. */
  function Decode(s: Bytes): (r: Option<Bytes>)
    ensures r.Some? <==> WellFormed(s)
    ensures r.Some? ==> Pairs(s, r.value)
  {
    if |s| == 0 then Some([])
    else if |s| == 1 then None
    else
      WellFormedCons(s);
      if !IsHexDigit(s[0]) || !IsHexDigit(s[1]) then None
      else
        match Decode(s[2..])
        case None => None
        case Some(rest) =>
          var r := [(Nibble(s[0]) * 16 + Nibble(s[1])) as Byte] + rest;
          assert r[1..] == rest;
          Some(r)
  }

  /** What `Decode` yields on text it accepts: one byte per pair, the high
      digit times 16 plus the low digit. */
  lemma DecodeBytes(s: Bytes)
    requires WellFormed(s)
    ensures Decode(s).Some? && 2 * |Decode(s).value| == |s|
    ensures forall j :: 0 <= j < |Decode(s).value| ==>
              Decode(s).value[j] as int == Nibble(s[2 * j]) * 16 + Nibble(s[2 * j + 1])
  {
    PairsIndex(s, Decode(s).value);
  }

  /** Decoding text that starts with two digits. */
  lemma DecodeHead(s: Bytes)
    requires |s| >= 2 && IsHexDigit(s[0]) && IsHexDigit(s[1]) && Decode(s[2..]).Some?
    ensures Decode(s) == Some([(Nibble(s[0]) * 16 + Nibble(s[1])) as Byte] + Decode(s[2..]).value)
  {
    WellFormedCons(s);
  }

  /** The hexadecimal digit for a value below 16, from `alphabet`. */
  function Digit(v: nat, alphabet: Bytes): Byte
    requires v < 16 && |alphabet| == 16
  {
    alphabet[v]
  }

  /** `0123456789abcdef` and `0123456789ABCDEF` as bytes. */
  const LOWER: Bytes := [0x30, 0x31, 0x32, 0x33, 0x34, 0x35, 0x36, 0x37, 0x38, 0x39,
                         0x61, 0x62, 0x63, 0x64, 0x65, 0x66]
  const UPPER: Bytes := [0x30, 0x31, 0x32, 0x33, 0x34, 0x35, 0x36, 0x37, 0x38, 0x39,
                         0x41, 0x42, 0x43, 0x44, 0x45, 0x46]

  /** Hexadecimal text of `b` in the given alphabet, two digits per byte,
      high nibble first. */
  function Encode(b: Bytes, alphabet: Bytes): (s: Bytes)
    requires alphabet == LOWER || alphabet == UPPER
    ensures |s| == 2 * |b|
  {
    if |b| == 0 then []
    else [Digit(b[0] as int / 16, alphabet), Digit(b[0] as int % 16, alphabet)] + Encode(b[1..], alphabet)
  }

  /** Every digit of either alphabet decodes to its own position. */
  lemma DigitRoundTrip(v: nat, alphabet: Bytes)
    requires v < 16
    requires alphabet == LOWER || alphabet == UPPER
    ensures DigitValue(Digit(v, alphabet)) == Some(v)
  {
  }

  /** The two digits written for a byte give the byte back. */
  lemma NibblesOfByte(b: Byte, alphabet: Bytes)
    requires alphabet == LOWER || alphabet == UPPER
    ensures Nibble(Digit(b as int / 16, alphabet)) * 16 + Nibble(Digit(b as int % 16, alphabet)) == b as int
  {
    DigitRoundTrip(b as int / 16, alphabet);
    DigitRoundTrip(b as int % 16, alphabet);
  }

  lemma EncodeHead(b: Bytes, alphabet: Bytes)
    requires alphabet == LOWER || alphabet == UPPER
    requires |b| > 0
    ensures Encode(b, alphabet)[0] == Digit(b[0] as int / 16, alphabet)
    ensures Encode(b, alphabet)[1] == Digit(b[0] as int % 16, alphabet)
    ensures Encode(b, alphabet)[2..] == Encode(b[1..], alphabet)
  {
  }

  /** Decoding two digits that make `b[0]`, then the rest. */
  lemma DecodeCons(s: Bytes, b: Bytes)
    requires |b| > 0 && |s| >= 2 && IsHexDigit(s[0]) && IsHexDigit(s[1])
    requires Nibble(s[0]) * 16 + Nibble(s[1]) == b[0] as int
    requires Decode(s[2..]) == Some(b[1..])
    ensures Decode(s) == Some(b)
  {
    DecodeHead(s);
    assert [b[0]] + b[1..] == b;
  }

  /** Decoding undoes encoding, in lower case and in upper case alike. */
  lemma {:induction false} DecodeEncode(b: Bytes, alphabet: Bytes)
    requires alphabet == LOWER || alphabet == UPPER
    ensures Decode(Encode(b, alphabet)) == Some(b)
  {
    if |b| > 0 {
      var s := Encode(b, alphabet);
      EncodeHead(b, alphabet);
      DigitRoundTrip(b[0] as int / 16, alphabet);
      DigitRoundTrip(b[0] as int % 16, alphabet);
      NibblesOfByte(b[0], alphabet);
      DecodeEncode(b[1..], alphabet);
      DecodeCons(s, b);
    }
  }
}
