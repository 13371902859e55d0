/** Shared vocabulary: optional values, results, bytes, and the UTF-8
    encoding that Go applies when a string becomes a byte slice. */
module Base {

  datatype Option<+T> = None | Some(value: T)

  datatype Result<+T, +E> = Success(value: T) | Failure(error: E)

  /** An octet, as Go's `byte`. */
  newtype Byte = x: int | 0 <= x < 0x100
  type Bytes = seq<Byte>

  /** The UTF-8 encoding of one Unicode scalar value, as Go's `[]byte(s)`
      produces it for a valid string. */
  function EncodeRune(c: char): (r: Bytes)
    ensures 1 <= |r| <= 4
    ensures |r| == 1 <==> (c as int) < 0x80
    ensures |r| == 1 ==> r[0] as int == c as int
    ensures |r| > 1 ==> forall i :: 0 <= i < |r| ==> r[i] >= 0x80
  {
    var n := c as int;
    if n < 0x80 then
      [n as Byte]
    else if n < 0x800 then
      [(0xC0 + n / 0x40) as Byte, Cont(n)]
    else if n < 0x10000 then
      [(0xE0 + n / 0x1000) as Byte, Cont(n / 0x40), Cont(n)]
    else
      [(0xF0 + n / 0x40000) as Byte, Cont(n / 0x1000), Cont(n / 0x40), Cont(n)]
  }

  /** A UTF-8 continuation byte carrying the low six bits of `n`. */
  function Cont(n: nat): (b: Byte)
    ensures b >= 0x80
  {
    (0x80 + n % 0x40) as Byte
  }

  /** Go's conversion `[]byte(s)` of a string to its bytes. */
  function Utf8(s: string): (r: Bytes)
    ensures |r| >= |s|
  {
    if |s| == 0 then [] else EncodeRune(s[0]) + Utf8(s[1..])
  }

  predicate IsAscii(s: string)
  {
    forall i :: 0 <= i < |s| ==> (s[i] as int) < 0x80
  }

  /** One byte per character, the character's code modulo 256: the bytes
      of `s` when `s` is ASCII. */
  function AsciiBytes(s: string): (r: Bytes)
    ensures |r| == |s|
  {
    seq(|s|, i requires 0 <= i < |s| => ((s[i] as int) % 0x100) as Byte)
  }

  /** An ASCII string encodes byte for byte. */
  lemma {:induction false} Utf8Ascii(s: string)
    requires IsAscii(s)
    ensures |Utf8(s)| == |s|
    ensures forall i :: 0 <= i < |s| ==> Utf8(s)[i] as int == s[i] as int
  {
    if |s| > 0 {
      assert IsAscii(s[1..]) by {
        forall i | 0 <= i < |s[1..]| ensures (s[1..][i] as int) < 0x80 {
          assert s[1..][i] == s[i + 1];
        }
      }
      Utf8Ascii(s[1..]);
    }
  }

  /** The encoding of a concatenation is the concatenation of the encodings,
      which is why several `Write` calls on a hash see one stream. */
  lemma {:induction false} Utf8Append(a: string, b: string)
    ensures Utf8(a + b) == Utf8(a) + Utf8(b)
  {
    if |a| == 0 {
      assert a + b == b;
    } else {
      assert (a + b)[1..] == a[1..] + b;
      Utf8Append(a[1..], b);
    }
  }

  /** For ASCII text `[]byte(s)` is `AsciiBytes(s)`. */
  lemma AsciiBytesUtf8(s: string)
    requires IsAscii(s)
    ensures Utf8(s) == AsciiBytes(s)
  {
    Utf8Ascii(s);
  }
}
