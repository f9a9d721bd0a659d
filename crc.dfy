/**
 * CRC-16 routines of the firmware stack: a byte bit-reversal, the reflected
 * CRC-16 with polynomial 0xA001, initial value 0x0000 and no final XOR (the
 * CRC-16/ARC parameter set, also called CRC-16/IBM), and the triple CRC that
 * checksums the whole buffer, its even-position bytes and its odd-position
 * bytes separately.
 *
 * Every routine of the source is a loop updating a local or by-reference
 * state; each is modelled as a method with that loop, proved equal to a pure
 * fold function, and the properties are lemmas about the fold functions.
 */
module Crc {

  const CRC16_IBM_INIT: bv16 := 0x0000
  const CRC16_IBM_POLY: bv16 := 0xA001

  /** Bit `i` of a byte (bit 0 is the least significant one). */
  predicate Bit8(x: bv8, i: nat)
    requires i < 8
  {
    (x >> i) & 1 == 1
  }

  // ---------------------------------------------------------------------
  // Byte bit reversal
  // ---------------------------------------------------------------------

  /** `rounds` more iterations of the `reverse` loop body from (out, data). */
  function ReverseRounds(out: bv8, data: bv8, rounds: nat): bv8
    requires rounds <= 8
    decreases rounds
  {
    if rounds == 0 then out
    else ReverseRounds((out << 1) | (data & 1), data >> 1, rounds - 1)
  }

  /** What `reverse` computes: eight rounds from out = 0. */
  function BitReversal(x: bv8): bv8
  {
    ReverseRounds(0, x, 8)
  }

  lemma ShiftInBit(out: bv8, data: bv8, j: nat)
    requires j < 8
    ensures j == 0 ==> (Bit8((out << 1) | (data & 1), j) <==> Bit8(data, 0))
    ensures j > 0 ==> (Bit8((out << 1) | (data & 1), j) <==> Bit8(out, j - 1))
    ensures j < 7 ==> (Bit8(data >> 1, j) <==> Bit8(data, j + 1))
  {
  }

  /**
   * After `n` rounds the low `n` bits of the result are the first `n` bits
   * of `data` in reverse order and the higher bits are those of `out`
   * shifted up by `n`.
   */
  lemma {:induction false} ReverseRoundsBit(out: bv8, data: bv8, n: nat, j: nat)
    requires n <= 8 && j < 8
    ensures j < n ==> (Bit8(ReverseRounds(out, data, n), j) <==> Bit8(data, n - 1 - j))
    ensures j >= n ==> (Bit8(ReverseRounds(out, data, n), j) <==> Bit8(out, j - n))
    decreases n
  {
    if n > 0 {
      var out', data' := (out << 1) | (data & 1), data >> 1;
      ReverseRoundsBit(out', data', n - 1, j);
      if j >= n - 1 {
        ShiftInBit(out, data, j - n + 1);
      } else {
        ShiftInBit(out, data, n - 2 - j);
      }
    }
  }

  /** `reverse` maps bit i to bit 7 - i. */
  lemma BitReversalBit(x: bv8, i: nat)
    requires i < 8
    ensures Bit8(BitReversal(x), i) <==> Bit8(x, 7 - i)
  {
    ReverseRoundsBit(0, x, 8, i);
  }

  /** Two bytes with the same eight bits are equal. */
  lemma BitsDetermineByte(a: bv8, b: bv8)
    requires forall i: nat :: i < 8 ==> (Bit8(a, i) <==> Bit8(b, i))
    ensures a == b
  {
    assert Bit8(a, 0) <==> Bit8(b, 0);
    assert Bit8(a, 1) <==> Bit8(b, 1);
    assert Bit8(a, 2) <==> Bit8(b, 2);
    assert Bit8(a, 3) <==> Bit8(b, 3);
    assert Bit8(a, 4) <==> Bit8(b, 4);
    assert Bit8(a, 5) <==> Bit8(b, 5);
    assert Bit8(a, 6) <==> Bit8(b, 6);
    assert Bit8(a, 7) <==> Bit8(b, 7);
  }

  /** Reversing twice gives the byte back. */
  lemma BitReversalInvolution(x: bv8)
    ensures BitReversal(BitReversal(x)) == x
  {
    forall i: nat | i < 8
      ensures Bit8(BitReversal(BitReversal(x)), i) <==> Bit8(x, i)
    {
      BitReversalBit(BitReversal(x), i);
      BitReversalBit(x, 7 - i);
    }
    BitsDetermineByte(BitReversal(BitReversal(x)), x);
  }

  /** The `reverse` loop. */
  method Reverse(x: bv8) returns (out: bv8)
    ensures out == BitReversal(x)
    ensures forall i: nat :: i < 8 ==> (Bit8(out, i) <==> Bit8(x, 7 - i))
  {
    out := 0;
    var data := x;
    for i := 0 to 8
      invariant ReverseRounds(out, data, 8 - i) == BitReversal(x)
    {
      out := (out << 1) | (data & 1);
      data := data >> 1;
    }
    forall i: nat | i < 8
      ensures Bit8(out, i) <==> Bit8(x, 7 - i)
    {
      BitReversalBit(x, i);
    }
  }

  // ---------------------------------------------------------------------
  // CRC-16/IBM
  // ---------------------------------------------------------------------

  /** One iteration of the inner loop of `crc_16_ibm_add`. */
  function ShiftRound(state: bv16): bv16
  {
    if state & 1 == 1 then (state >> 1) ^ CRC16_IBM_POLY else state >> 1
  }

  function ShiftRounds(state: bv16, n: nat): bv16
    decreases n
  {
    if n == 0 then state else ShiftRounds(ShiftRound(state), n - 1)
  }

  /** The state after feeding one byte: XOR the byte in, then eight rounds. */
  function AddByte(state: bv16, data: bv8): bv16
  {
    ShiftRounds(state ^ (data as bv16), 8)
  }

  /** Left fold of AddByte over `data`, from `state`. */
  function CrcFrom(state: bv16, data: seq<bv8>): bv16
    decreases |data|
  {
    if data == [] then state else CrcFrom(AddByte(state, data[0]), data[1..])
  }

  /** `crc_16_ibm_finish`: the identity, since there is no final XOR. */
  function Finish(state: bv16): bv16
  {
    state
  }

  /** The CRC-16/IBM of a whole buffer. */
  function Crc16(data: seq<bv8>): bv16
  {
    Finish(CrcFrom(CRC16_IBM_INIT, data))
  }

  /** Feeding `a ++ b` is the same as feeding `a`, then `b` from that state. */
  lemma {:induction false} CrcFromAppend(state: bv16, a: seq<bv8>, b: seq<bv8>)
    ensures CrcFrom(state, a + b) == CrcFrom(CrcFrom(state, a), b)
    decreases |a|
  {
    if a == [] {
      assert a + b == b;
    } else {
      assert (a + b)[0] == a[0];
      assert (a + b)[1..] == a[1..] + b;
      CrcFromAppend(AddByte(state, a[0]), a[1..], b);
    }
  }

  /** The empty buffer has CRC 0, and a buffer's CRC continues from its prefix's. */
  lemma Crc16Continues(a: seq<bv8>, b: seq<bv8>)
    ensures Crc16([]) == 0x0000
    ensures Crc16(a + b) == CrcFrom(Crc16(a), b)
  {
    CrcFromAppend(CRC16_IBM_INIT, a, b);
  }

  lemma CrcFromSnoc(state: bv16, a: seq<bv8>, x: bv8)
    ensures CrcFrom(state, a + [x]) == AddByte(CrcFrom(state, a), x)
  {
    CrcFromAppend(state, a, [x]);
  }

  /** The published check value of CRC-16/ARC: the CRC of ASCII "123456789" is 0xBB3D. */
  lemma Crc16CheckValue()
    ensures Crc16([0x31, 0x32, 0x33, 0x34, 0x35, 0x36, 0x37, 0x38, 0x39]) == 0xBB3D
  {
    assert AddByte(0x3C9D, 0x39) == 0xBB3D;
    assert CrcFrom(0x3C9D, [0x39]) == 0xBB3D;
    assert AddByte(0x9D68, 0x38) == 0x3C9D;
    assert CrcFrom(0x9D68, [0x38, 0x39]) == 0xBB3D;
    assert AddByte(0x29E4, 0x37) == 0x9D68;
    assert CrcFrom(0x29E4, [0x37, 0x38, 0x39]) == 0xBB3D;
    assert AddByte(0xA455, 0x36) == 0x29E4;
    assert CrcFrom(0xA455, [0x36, 0x37, 0x38, 0x39]) == 0xBB3D;
    assert AddByte(0x14BA, 0x35) == 0xA455;
    assert CrcFrom(0x14BA, [0x35, 0x36, 0x37, 0x38, 0x39]) == 0xBB3D;
    assert AddByte(0xBA04, 0x34) == 0x14BA;
    assert CrcFrom(0xBA04, [0x34, 0x35, 0x36, 0x37, 0x38, 0x39]) == 0xBB3D;
    assert AddByte(0x4594, 0x33) == 0xBA04;
    assert CrcFrom(0x4594, [0x33, 0x34, 0x35, 0x36, 0x37, 0x38, 0x39]) == 0xBB3D;
    assert AddByte(0xD4C1, 0x32) == 0x4594;
    assert CrcFrom(0xD4C1, [0x32, 0x33, 0x34, 0x35, 0x36, 0x37, 0x38, 0x39]) == 0xBB3D;
    assert AddByte(0x0000, 0x31) == 0xD4C1;
    assert CrcFrom(0x0000, [0x31, 0x32, 0x33, 0x34, 0x35, 0x36, 0x37, 0x38, 0x39]) == 0xBB3D;
  }

  /** `crc_16_ibm_add`: XOR the byte into the state, then eight shift rounds. */
  method Crc16IbmAdd(state: bv16, data: bv8) returns (s: bv16)
    ensures s == AddByte(state, data)
  {
    s := state ^ (data as bv16);
    for i := 0 to 8
      invariant ShiftRounds(s, 8 - i) == AddByte(state, data)
    {
      if s & 1 == 1 {
        s := (s >> 1) ^ CRC16_IBM_POLY;
      } else {
        s := s >> 1;
      }
    }
  }

  /** `crc_16_ibm`: the CRC of the whole buffer. */
  method Crc16Ibm(payload: seq<bv8>) returns (crc: bv16)
    ensures crc == Crc16(payload)
  {
    var state := CRC16_IBM_INIT;
    for i := 0 to |payload|
      invariant state == CrcFrom(CRC16_IBM_INIT, payload[..i])
    {
      state := Crc16IbmAdd(state, payload[i]);
      CrcFromSnoc(CRC16_IBM_INIT, payload[..i], payload[i]);
      assert payload[..i + 1] == payload[..i] + [payload[i]];
    }
    assert payload[..|payload|] == payload;
    crc := Finish(state);
  }

  // ---------------------------------------------------------------------
  // Triple CRC
  // ---------------------------------------------------------------------

  /** The bytes at 0-based even positions. */
  function EvenPositions(s: seq<bv8>): (r: seq<bv8>)
    ensures |r| == (|s| + 1) / 2
  {
    seq((|s| + 1) / 2, k requires 0 <= k < (|s| + 1) / 2 => s[2 * k])
  }

  /** The bytes at 0-based odd positions. */
  function OddPositions(s: seq<bv8>): (r: seq<bv8>)
    ensures |r| == |s| / 2
  {
    seq(|s| / 2, k requires 0 <= k < |s| / 2 => s[2 * k + 1])
  }

  lemma PositionsSnoc(s: seq<bv8>, x: bv8)
    ensures |s| % 2 == 0 ==> EvenPositions(s + [x]) == EvenPositions(s) + [x]
    ensures |s| % 2 == 0 ==> OddPositions(s + [x]) == OddPositions(s)
    ensures |s| % 2 == 1 ==> EvenPositions(s + [x]) == EvenPositions(s)
    ensures |s| % 2 == 1 ==> OddPositions(s + [x]) == OddPositions(s) + [x]
  {
  }

  /**
   * The loop of `crc3_crc16_ibm`: three CRC states fed side by side, the
   * first with every byte, the second with the bytes at 0-based even
   * positions (the source's 1-based odd `i`), the third with the others.
   */
  method Crc3States(payload: seq<bv8>) returns (state1: bv16, state2: bv16, state3: bv16)
    ensures state1 == CrcFrom(CRC16_IBM_INIT, payload)
    ensures state2 == CrcFrom(CRC16_IBM_INIT, EvenPositions(payload))
    ensures state3 == CrcFrom(CRC16_IBM_INIT, OddPositions(payload))
  {
    state1, state2, state3 := CRC16_IBM_INIT, CRC16_IBM_INIT, CRC16_IBM_INIT;
    for i := 1 to |payload| + 1
      invariant state1 == CrcFrom(CRC16_IBM_INIT, payload[..i - 1])
      invariant state2 == CrcFrom(CRC16_IBM_INIT, EvenPositions(payload[..i - 1]))
      invariant state3 == CrcFrom(CRC16_IBM_INIT, OddPositions(payload[..i - 1]))
    {
      var prefix, x := payload[..i - 1], payload[i - 1];
      assert payload[..i] == prefix + [x];
      PositionsSnoc(prefix, x);
      CrcFromSnoc(CRC16_IBM_INIT, prefix, x);
      state1 := Crc16IbmAdd(state1, x);
      if i % 2 == 1 {
        CrcFromSnoc(CRC16_IBM_INIT, EvenPositions(prefix), x);
        state2 := Crc16IbmAdd(state2, x);
      } else {
        CrcFromSnoc(CRC16_IBM_INIT, OddPositions(prefix), x);
        state3 := Crc16IbmAdd(state3, x);
      }
    }
    assert payload[..|payload|] == payload;
  }

  /**
   * `crc3_crc16_ibm`: checksum[0] is the CRC of the whole buffer, checksum[1]
   * that of the bytes at 0-based even positions, checksum[2] that of the
   * bytes at 0-based odd positions.
   */
  method Crc3Crc16Ibm(payload: seq<bv8>, checksum: array<bv16>)
    requires checksum.Length >= 3
    modifies checksum
    ensures checksum[0] == Crc16(payload)
    ensures checksum[1] == Crc16(EvenPositions(payload))
    ensures checksum[2] == Crc16(OddPositions(payload))
    ensures forall k :: 3 <= k < checksum.Length ==> checksum[k] == old(checksum[k])
  {
    var state1, state2, state3 := Crc3States(payload);
    checksum[0] := Finish(state1);
    checksum[1] := Finish(state2);
    checksum[2] := Finish(state3);
  }

  /** For an empty buffer all three checksums are zero. */
  lemma Crc3OfEmpty()
    ensures Crc16([]) == 0 && Crc16(EvenPositions([])) == 0 && Crc16(OddPositions([])) == 0
  {
    assert EvenPositions([]) == [] && OddPositions([]) == [];
  }
}
