/** The IEEE CRC-32 checksum of Go's `crc32.NewIEEE()`: the reflected
    polynomial 0xEDB88320, register preset to all ones, result inverted
    (the CRC-32 of IEEE 802.3 and ISO-HDLC). */
module Crc32 {
  import opened Base

  const POLY: bv32 := 0xEDB8_8320

  /** One bit of the reflected shift register. */
  function Step(crc: bv32): bv32
  {
    if crc & 1 == 1 then (crc >> 1) ^ POLY else crc >> 1
  }

  /** `k` bits of the shift register. */
  function Steps(crc: bv32, k: nat): bv32
    decreases k
  {
    if k == 0 then crc else Steps(Step(crc), k - 1)
  }

  /** Feeding one byte, least significant bit first. */
  function UpdateByte(crc: bv32, b: Byte): bv32
  {
    Steps(crc ^ (b as int as bv32), 8)
  }

  /** The register after feeding `data` to a register holding `crc`, as
      `hash.Hash32.Write` does. */
  function Update(crc: bv32, data: Bytes): bv32
    decreases |data|
  {
    if |data| == 0 then crc else Update(UpdateByte(crc, data[0]), data[1..])
  }

  /** `crc32.ChecksumIEEE(data)`, the value `Sum32` reports. */
  function Checksum(data: Bytes): (c: bv32)
    ensures forall k :: 0 <= k <= |data| ==> c == Update(Update(0xFFFF_FFFF, data[..k]), data[k..]) ^ 0xFFFF_FFFF
  {
    forall k | 0 <= k <= |data|
      ensures Update(0xFFFF_FFFF, data) == Update(Update(0xFFFF_FFFF, data[..k]), data[k..])
    {
      assert data == data[..k] + data[k..];
      UpdateAppend(0xFFFF_FFFF, data[..k], data[k..]);
    }
    Update(0xFFFF_FFFF, data) ^ 0xFFFF_FFFF
  }

  /** Writing `a` then `b` to the hash gives the register of writing
      `a + b` at once, so the checksum does not depend on how the input is
      split into writes. */
  lemma {:induction false} UpdateAppend(crc: bv32, a: Bytes, b: Bytes)
    ensures Update(crc, a + b) == Update(Update(crc, a), b)
    decreases |a|
  {
    if |a| == 0 {
      assert a + b == b;
    } else {
      assert (a + b)[1..] == a[1..] + b;
      UpdateAppend(UpdateByte(crc, a[0]), a[1..], b);
    }
  }

  /** Feeding the suffix from `k` is feeding `s[k]`, then the suffix after it. */
  lemma UpdateStep(crc: bv32, s: Bytes, k: nat, next: bv32)
    requires k < |s| && UpdateByte(crc, s[k]) == next
    ensures Update(crc, s[k..]) == Update(next, s[k + 1..])
  {
    assert s[k..][1..] == s[k + 1..];
  }

  /** The register through `123`, `456` and `789` of the check input. */
  lemma Check123(s: Bytes)
    requires |s| == 9 && s[0] == 0x31 && s[1] == 0x32 && s[2] == 0x33
    ensures Update(0xFFFF_FFFF, s) == Update(0x77B7_9C2D, s[3..])
  {
    assert UpdateByte(0xFFFF_FFFF, 0x31) == 0x7C23_1048;
    assert UpdateByte(0x7C23_1048, 0x32) == 0xB0AC_BB32;
    assert UpdateByte(0xB0AC_BB32, 0x33) == 0x77B7_9C2D;
    UpdateStep(0xFFFF_FFFF, s, 0, 0x7C23_1048);
    UpdateStep(0x7C23_1048, s, 1, 0xB0AC_BB32);
    UpdateStep(0xB0AC_BB32, s, 2, 0x77B7_9C2D);
    assert s[0..] == s;
  }

  lemma Check456(s: Bytes)
    requires |s| == 9 && s[3] == 0x34 && s[4] == 0x35 && s[5] == 0x36
    ensures Update(0x77B7_9C2D, s[3..]) == Update(0xF68D_2C9E, s[6..])
  {
    assert UpdateByte(0x77B7_9C2D, 0x34) == 0x641C_1F5C;
    assert UpdateByte(0x641C_1F5C, 0x35) == 0x340A_C5E3;
    assert UpdateByte(0x340A_C5E3, 0x36) == 0xF68D_2C9E;
    UpdateStep(0x77B7_9C2D, s, 3, 0x641C_1F5C);
    UpdateStep(0x641C_1F5C, s, 4, 0x340A_C5E3);
    UpdateStep(0x340A_C5E3, s, 5, 0xF68D_2C9E);
  }

  lemma Check789(s: Bytes)
    requires |s| == 9 && s[6] == 0x37 && s[7] == 0x38 && s[8] == 0x39
    ensures Update(0xF68D_2C9E, s[6..]) == 0x340B_C6D9
  {
    assert UpdateByte(0xF68D_2C9E, 0x37) == 0xAFFC_9660;
    assert UpdateByte(0xAFFC_9660, 0x38) == 0x651F_2550;
    assert UpdateByte(0x651F_2550, 0x39) == 0x340B_C6D9;
    UpdateStep(0xF68D_2C9E, s, 6, 0xAFFC_9660);
    UpdateStep(0xAFFC_9660, s, 7, 0x651F_2550);
    UpdateStep(0x651F_2550, s, 8, 0x340B_C6D9);
    assert |s[9..]| == 0;
  }

  /** The standard check value of this CRC: the nine ASCII digits
      `123456789` give 0xCBF43926. */
  lemma CheckValue(s: Bytes)
    requires |s| == 9 && forall i :: 0 <= i < 9 ==> s[i] as int == 0x31 + i
    ensures Checksum(s) == 0xCBF4_3926
  {
    assert s[0] == 0x31 && s[1] == 0x32 && s[2] == 0x33;
    Check123(s);
    assert s[3] == 0x34 && s[4] == 0x35 && s[5] == 0x36;
    Check456(s);
    assert s[6] == 0x37 && s[7] == 0x38 && s[8] == 0x39;
    Check789(s);
  }
}
