/**
 * CRC-16/XMODEM as computed by xmodem_calc_crc: polynomial 0x1021
 * (x^16 + x^12 + x^5 + 1), initial value 0, most significant bit first, no
 * reflection, no final XOR. `Crc16` is the specification, `CalcCrc` the
 * loop of the firmware, and the lemmas state what the checksum guarantees:
 * each step is linear over XOR, and a frame whose payload differs from the
 * one the sender checksummed in a single byte never passes the comparison.
 */
module XmodemCrc {
  import opened Hal

  const POLY: bv16 := 0x1021

  /** One round of the inner loop: shift left, and XOR the polynomial in
      when bit 15 was set before the shift (the shift drops it). The dropped
      bit reappears as bit 0, so a round loses no information, and only 0
      maps to 0. */
  function Shift(c: bv16): (r: bv16)
    ensures r & 1 == 1 <==> c & 0x8000 != 0
    ensures r == 0 <==> c == 0
  {
    if c & 0x8000 != 0 then (c << 1) ^ POLY else c << 1
  }

  /** `n` rounds of `Shift`. */
  function Shifts(c: bv16, n: nat): bv16 {
    if n == 0 then c else Shift(Shifts(c, n - 1))
  }

  /** The byte XORed into the high half of the register. */
  function Mix(crc: bv16, b: byte): bv16 {
    crc ^ ((b as bv16) << 8)
  }

  /** The per-byte step: the byte goes into the high half, then eight rounds.
      The register comes out 0 exactly when the byte cancelled the high half
      of a register whose low half was clear. */
  function CrcStep(crc: bv16, b: byte): (r: bv16)
    ensures r == 0 <==> crc == (b as bv16) << 8
  {
    ShiftsZero(Mix(crc, b), 8);
    Shifts(Mix(crc, b), 8)
  }

  /** The CRC of a byte string, folded from the left starting at 0 with no
      final XOR, so a string of zero bytes has CRC 0. */
  function Crc16(s: seq<byte>): (r: bv16)
    ensures (forall i :: 0 <= i < |s| ==> s[i] == 0) ==> r == 0
  {
    if s == [] then 0 else CrcStep(Crc16(s[..|s| - 1]), s[|s| - 1])
  }

  /** The CRC of `a ++ [b]` is the step applied to the CRC of `a`. */
  lemma CrcAppend(a: seq<byte>, b: byte)
    ensures Crc16(a + [b]) == CrcStep(Crc16(a), b)
  {
    assert (a + [b])[..|a|] == a;
  }

  /** xmodem_calc_crc over `length` bytes of `data` starting at `start`. */
  method CalcCrc(data: array<byte>, start: nat, length: nat) returns (crc: bv16)
    requires start + length <= data.Length
    ensures crc == Crc16(data[start..start + length])
  {
    crc := 0;
    var p := start;
    var remaining := length;
    while remaining > 0
      invariant start <= p && p + remaining == start + length
      invariant crc == Crc16(data[start..p])
    {
      remaining := remaining - 1;
      crc := CrcByte(crc, data[p]);
      CrcAppend(data[start..p], data[p]);
      assert data[start..p + 1] == data[start..p] + [data[p]];
      p := p + 1;
    }
  }

  /** One pass of the outer loop, lines 135-147: the byte is XORed into the
      high half of the register, then eight rounds follow. */
  method CrcByte(crc: bv16, b: byte) returns (r: bv16)
    ensures r == CrcStep(crc, b)
  {
    r := crc ^ ((b as bv16) << 8);
    r := ShiftByte(r);
  }

  /** One round of the inner loop, lines 139-146, as the firmware branches. */
  method Round(c: bv16) returns (r: bv16)
    ensures r == Shift(c)
  {
    if c & 0x8000 != 0 {
      r := (c << 1) ^ 0x1021;
    } else {
      r := c << 1;
    }
  }

  /** The inner loop of lines 137-147: eight rounds of `Shift`. */
  method ShiftByte(mixed: bv16) returns (crc: bv16)
    ensures crc == Shifts(mixed, 8)
  {
    crc := mixed;
    var i := 0;
    while i < 8
      invariant 0 <= i <= 8
      invariant crc == Shifts(mixed, i)
    {
      crc := Round(crc);
      i := i + 1;
    }
  }

  // ---------------------------------------------------------------------
  // Linearity of one step

  /** `Shift` without the branch: the polynomial is masked in by bit 15. */
  function Masked(c: bv16): bv16 {
    (c << 1) ^ (POLY & (0 - (c >> 15)))
  }

  lemma MaskedLinear(x: bv16, y: bv16)
    ensures Masked(x ^ y) == Masked(x) ^ Masked(y)
  {
  }

  lemma ShiftIsMasked(c: bv16)
    ensures Shift(c) == Masked(c)
  {
    if c & 0x8000 != 0 {
      assert c >> 15 == 1;
    } else {
      assert c >> 15 == 0;
    }
  }

  lemma ShiftLinear(x: bv16, y: bv16)
    ensures Shift(x ^ y) == Shift(x) ^ Shift(y)
  {
    ShiftIsMasked(x);
    ShiftIsMasked(y);
    ShiftIsMasked(x ^ y);
    MaskedLinear(x, y);
  }

  lemma {:induction false} ShiftsLinear(x: bv16, y: bv16, n: nat)
    ensures Shifts(x ^ y, n) == Shifts(x, n) ^ Shifts(y, n)
  {
    if n > 0 {
      ShiftsLinear(x, y, n - 1);
      ShiftLinear(Shifts(x, n - 1), Shifts(y, n - 1));
    }
  }

  lemma MixLinear(c: bv16, d: bv16, a: byte, b: byte)
    ensures Mix(c ^ d, a ^ b) == Mix(c, a) ^ Mix(d, b)
  {
  }

  lemma CrcStepLinear(c: bv16, d: bv16, a: byte, b: byte)
    ensures CrcStep(c ^ d, a ^ b) == CrcStep(c, a) ^ CrcStep(d, b)
  {
    MixLinear(c, d, a, b);
    ShiftsLinear(Mix(c, a), Mix(d, b), 8);
  }

  // ---------------------------------------------------------------------
  // Error detection

  lemma {:induction false} ShiftsZero(x: bv16, n: nat)
    ensures Shifts(x, n) == 0 <==> x == 0
  {
    if n > 0 {
      ShiftsZero(x, n - 1);
    }
  }

  /** From the same register, two different bytes lead to different registers. */
  lemma StepDistinctBytes(c: bv16, x: byte, y: byte)
    requires x != y
    ensures CrcStep(c, x) != CrcStep(c, y)
  {
    CrcStepLinear(c, c, x, y);
    ShiftsZero(Mix(0, x ^ y), 8);
    assert c ^ c == 0;
    assert Mix(0, x ^ y) != 0;
  }

  /** The same byte applied to two different registers keeps them different. */
  lemma StepKeepsDistinct(c: bv16, d: bv16, b: byte)
    requires c != d
    ensures CrcStep(c, b) != CrcStep(d, b)
  {
    CrcStepLinear(c, d, b, b);
    ShiftsZero(Mix(c ^ d, 0), 8);
    assert b ^ b == 0;
  }

  /** Two strings that differ only at index `k` have different CRCs over
      every prefix that reaches past `k`. */
  lemma {:induction false} PrefixesDiffer(p: seq<byte>, q: seq<byte>, k: nat, n: nat)
    requires |p| == |q| && k < n <= |p|
    requires p[k] != q[k]
    requires forall i :: 0 <= i < |p| && i != k ==> p[i] == q[i]
    ensures Crc16(p[..n]) != Crc16(q[..n])
  {
    var m := n - 1;
    assert p[..n][..m] == p[..m] && q[..n][..m] == q[..m];
    if m == k {
      assert p[..k] == q[..k];
      StepDistinctBytes(Crc16(p[..k]), p[k], q[k]);
    } else {
      PrefixesDiffer(p, q, k, m);
      StepKeepsDistinct(Crc16(p[..m]), Crc16(q[..m]), p[m]);
    }
  }

  /** Two strings of equal length that differ in exactly one byte have
      different CRCs, wherever that byte is. */
  lemma CrcDetectsSingleByteError(p: seq<byte>, q: seq<byte>, k: nat)
    requires |p| == |q| && k < |p|
    requires p[k] != q[k]
    requires forall i :: 0 <= i < |p| && i != k ==> p[i] == q[i]
    ensures Crc16(p) != Crc16(q)
  {
    PrefixesDiffer(p, q, k, |p|);
    assert p[..|p|] == p && q[..|q|] == q;
  }

  /** The standard check value of CRC-16/XMODEM: the CRC of the ASCII
      string "123456789" is 0x31C3. */
  lemma CrcCheckValue()
    ensures Crc16([0x31, 0x32, 0x33, 0x34, 0x35, 0x36, 0x37, 0x38, 0x39]) == 0x31C3
  {
    var head: seq<byte> := [0x31, 0x32, 0x33, 0x34, 0x35];
    CrcCheckHead();
    CrcCheckTail(head);
    assert head + [0x36, 0x37, 0x38, 0x39] == [0x31, 0x32, 0x33, 0x34, 0x35, 0x36, 0x37, 0x38, 0x39];
  }

  /** The first five bytes of the check string leave the register at 0x546C. */
  lemma CrcCheckHead()
    ensures Crc16([0x31, 0x32, 0x33, 0x34, 0x35]) == 0x546C
  {
    assert Mix(0x0000, 0x31) == 0x3100 && Shifts(0x3100, 8) == 0x2672;
    assert Mix(0x2672, 0x32) == 0x1472 && Shifts(0x1472, 8) == 0x20B5;
    assert Mix(0x20B5, 0x33) == 0x13B5 && Shifts(0x13B5, 8) == 0x9752;
    assert Mix(0x9752, 0x34) == 0xA352 && Shifts(0xA352, 8) == 0xD789;
    assert Mix(0xD789, 0x35) == 0xE289 && Shifts(0xE289, 8) == 0x546C;
    var e: seq<byte> := [];
    CrcAppend(e, 0x31);
    CrcAppend(e + [0x31], 0x32);
    CrcAppend(e + [0x31] + [0x32], 0x33);
    CrcAppend(e + [0x31] + [0x32] + [0x33], 0x34);
    CrcAppend(e + [0x31] + [0x32] + [0x33] + [0x34], 0x35);
    assert e + [0x31] + [0x32] + [0x33] + [0x34] + [0x35] == [0x31, 0x32, 0x33, 0x34, 0x35];
  }

  /** From a register at 0x546C, the last four bytes of the check string
      leave it at 0x31C3. */
  lemma CrcCheckTail(s: seq<byte>)
    requires Crc16(s) == 0x546C
    ensures Crc16(s + [0x36, 0x37, 0x38, 0x39]) == 0x31C3
  {
    assert Mix(0x546C, 0x36) == 0x626C && Shifts(0x626C, 8) == 0x20E4;
    assert Mix(0x20E4, 0x37) == 0x17E4 && Shifts(0x17E4, 8) == 0x86D6;
    assert Mix(0x86D6, 0x38) == 0xBED6 && Shifts(0xBED6, 8) == 0x9015;
    assert Mix(0x9015, 0x39) == 0xA915 && Shifts(0xA915, 8) == 0x31C3;
    CrcAppend(s, 0x36);
    CrcAppend(s + [0x36], 0x37);
    CrcAppend(s + [0x36] + [0x37], 0x38);
    CrcAppend(s + [0x36] + [0x37] + [0x38], 0x39);
    assert s + [0x36] + [0x37] + [0x38] + [0x39] == s + [0x36, 0x37, 0x38, 0x39];
  }
}
