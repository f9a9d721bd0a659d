/**
 * A bit-range event producer/consumer: a block of `size` bits stored in
 * 32-bit words, where bit b is reported on by event `base + 2b` and off by
 * event `base + 2b + 1`. It answers event reports by updating the stored
 * bit, identify queries by saying whether the queried state is the stored
 * one, and a global identify by announcing a masked event range covering
 * its block (the Producer/Consumer Range Identified messages of the
 * OpenLCB Event Transport Standard, S-9.7.3.1).
 *
 * Event ids are the source's `uint64_t` and bit numbers its `unsigned`:
 * both are modelled as naturals below 2^64 and 2^32, and their arithmetic
 * wraps explicitly. Messages the source writes are returned as `Reply`
 * values.
 */
module BitRangeEvents {
  import opened Wrappers
  import opened MachineInt

  const U64_MODULUS: int := 0x1_0000_0000_0000_0000

  function U64(x: int): (r: nat)
    ensures r < U64_MODULUS
    ensures 0 <= x < U64_MODULUS ==> r == x
  {
    x % U64_MODULUS
  }

  /** What a handler sends: an event report, an identify reply, a range identify, or only the completion. */
  datatype Reply =
    | DoneOnly
    | EventReport(event: nat)
    | Identified(mti: int, event: nat)
    | ProducerRangeIdentified(range: nat)
    | ConsumerRangeIdentified(range: nat)

  /** Bit s of a word, least significant first. */
  predicate WordBit(w: bv32, s: bv5)
  {
    (w >> s) & 1 == 1
  }

  /** The position of bit `bit` within its word, `bit & 31`. */
  function Pos(bit: nat): bv5
  {
    (bit % 32) as bv5
  }

  /** Bit b of a word array: bit `Pos(b)` of word b / 32. */
  predicate Bit(words: seq<bv32>, b: nat)
    requires b / 32 < |words|
  {
    WordBit(words[b / 32], Pos(b))
  }

  /** The mask `1 << (bit & 31)`. */
  function Mask(bit: nat): bv32
  {
    (1 as bv32) << Pos(bit)
  }

  /** Testing a word against the mask of position s reads bit s of the word. */
  lemma MaskTest(w: bv32, s: bv5)
    ensures (w & ((1 as bv32) << s) != 0) == WordBit(w, s)
  {
  }

  /** Or-ing in the mask of position s sets bit s and keeps the others. */
  lemma OrBits(w: bv32, s: bv5, t: bv5)
    ensures WordBit(w | ((1 as bv32) << s), t) == (s == t || WordBit(w, t))
  {
  }

  /** And-ing with the complement of the mask of position s clears bit s and keeps the others. */
  lemma AndNotBits(w: bv32, s: bv5, t: bv5)
    ensures WordBit(w & !((1 as bv32) << s), t) == (s != t && WordBit(w, t))
  {
  }

  /** The mask of position s has bit s set and no other. */
  lemma MaskBits(s: bv5, t: bv5)
    ensures WordBit((1 as bv32) << s, t) == (s == t)
  {
  }

  lemma PosRoundTrip(x: int)
    requires 0 <= x < 32
    ensures (x as bv5) as int == x
  {
  }

  /** Distinct bits of the same word have distinct positions. */
  lemma PosInjective(a: nat, b: nat)
    requires a / 32 == b / 32 && a != b
    ensures Pos(a) != Pos(b)
  {
    assert a % 32 != b % 32;
    PosRoundTrip(a % 32);
    PosRoundTrip(b % 32);
  }

  /** `w |= mask` when v holds, `w &= ~mask` when not. */
  function Update(w: bv32, mask: bv32, v: bool): bv32
  {
    if v then w | mask else w & !mask
  }

  /** Updating a word with the mask of position s stores v there and keeps every other position. */
  lemma UpdateBits(w: bv32, s: bv5, v: bool, t: bv5)
    ensures WordBit(Update(w, (1 as bv32) << s, v), t) == if t == s then v else WordBit(w, t)
  {
    OrBits(w, s, t);
    AndNotBits(w, s, t);
  }

  lemma SetOne(words: seq<bv32>, b: nat, v: bool)
    requires b / 32 < |words|
    ensures Bit(words[b / 32 := Update(words[b / 32], Mask(b), v)], b) == v
  {
    UpdateBits(words[b / 32], Pos(b), v, Pos(b));
  }

  lemma SetOther(words: seq<bv32>, b: nat, v: bool, j: nat)
    requires b / 32 < |words| && j / 32 < |words| && j != b
    ensures Bit(words[b / 32 := Update(words[b / 32], Mask(b), v)], j) == Bit(words, j)
  {
    if j / 32 == b / 32 {
      PosInjective(j, b);
      UpdateBits(words[b / 32], Pos(b), v, Pos(j));
    }
  }

  /** The word array with bit b set to v and every other bit kept. */
  function SetBit(words: seq<bv32>, b: nat, v: bool): (r: seq<bv32>)
    requires b / 32 < |words|
    ensures |r| == |words|
    ensures Bit(r, b) == v
    ensures forall j: nat :: j / 32 < |words| && j != b ==> Bit(r, j) == Bit(words, j)
    ensures forall k :: 0 <= k < |words| && k != b / 32 ==> r[k] == words[k]
  {
    var r := words[b / 32 := Update(words[b / 32], Mask(b), v)];
    SetOne(words, b, v);
    forall j: nat | j / 32 < |words| && j != b
      ensures Bit(r, j) == Bit(words, j)
    {
      SetOther(words, b, v, j);
    }
    r
  }

  /** Testing word b / 32 against the mask of b reads bit b. */
  lemma TestBit(words: seq<bv32>, b: nat)
    requires b / 32 < |words|
    ensures (words[b / 32] & Mask(b) != 0) == Bit(words, b)
  {
    MaskTest(words[b / 32], Pos(b));
  }

  /** Storing the masked word b / 32 in place is `SetBit`. */
  lemma StoreBit(words: seq<bv32>, b: nat, v: bool, stored: bv32)
    requires b / 32 < |words|
    requires stored == Update(words[b / 32], Mask(b), v)
    ensures words[b / 32 := stored] == SetBit(words, b, v)
  {
  }

  /** A bit below the block size lies in a word of a store of (size + 31) / 32 words. */
  lemma WordInStore(bit: nat, size: nat, words: nat)
    requires bit < size && (size + 31) / 32 <= words
    ensures bit / 32 < words
  {
  }

  /**
   * The bit and value an event addresses in the block at `base` of `size`
   * bits: an event below the base, or past the block, addresses nothing.
   */
  function Decode(base: nat, size: nat, event: nat): (r: Option<(nat, bool)>)
    ensures r.Some? <==> base <= event && (event - base) / 2 < size
    ensures r.Some? ==> r.value.0 < size && event == base + 2 * r.value.0 + (if r.value.1 then 0 else 1)
  {
    if event < base then None
    else
      var d := event - base;
      if d / 2 >= size then None else Some((d / 2, d % 2 == 0))
  }

  class BitRangeEventPC {
    /** The event reporting bit 0 on. */
    const eventBase: nat
    /** The backing store. */
    const data: array<bv32>
    /** The number of bits in the block. */
    const size: nat

    predicate Valid()
    {
      eventBase < U64_MODULUS && size < U32_MODULUS && (size + 31) / 32 <= data.Length
    }

    constructor (eventBase: nat, data: array<bv32>, size: nat)
      requires eventBase < U64_MODULUS && size < U32_MODULUS && (size + 31) / 32 <= data.Length
      ensures Valid() && this.eventBase == eventBase && this.data == data && this.size == size
    {
      this.eventBase := eventBase;
      this.data := data;
      this.size := size;
    }

    /** `GetBitAndMask`: no word for a bit outside the block, else the bit's word and its mask. */
    function GetBitAndMask(bit: nat): (r: Option<(nat, bv32)>)
      requires Valid()
      ensures r.None? <==> bit >= size
      ensures r.Some? ==> r.value == (bit / 32, Mask(bit)) && bit / 32 < data.Length
    {
      if bit >= size then None
      else
        WordInStore(bit, size, data.Length);
        Some((bit / 32, Mask(bit)))
    }

    /** `Get`: the stored bit. */
    function Get(bit: nat): (r: bool)
      requires Valid() && bit < size
      reads data
      ensures bit / 32 < data.Length && (r <==> Bit(data[..], bit))
    {
      var (word, mask) := GetBitAndMask(bit).value;
      TestBit(data[..], bit);
      data[word] & mask != 0
    }

    /** The event that reports bit `bit` on (v) or off (not v). */
    function EventFor(bit: nat, v: bool): nat
    {
      U64(U64(eventBase + U32(bit * 2)) + (if v then 0 else 1))
    }

    /**
     * `Set`: changes nothing in the store. When the new value differs from
     * the stored one it reports the event for the new value; otherwise it
     * only completes.
     */
    function Set(bit: nat, newValue: bool): (r: Reply)
      requires Valid() && bit < size
      reads data
      ensures r == DoneOnly <==> Get(bit) == newValue
      ensures r != DoneOnly ==> r == EventReport(EventFor(bit, newValue))
    {
      var (word, mask) := GetBitAndMask(bit).value;
      var oldValue := data[word] & mask != 0;
      if oldValue != newValue then EventReport(EventFor(bit, newValue)) else DoneOnly
    }

    /** The store after `HandleEventReport(event)`. */
    function AfterEvent(event: nat): (r: seq<bv32>)
      requires Valid()
      reads data
      ensures |r| == data.Length
      ensures Decode(eventBase, size, event).None? ==> r == data[..]
    {
      match Decode(eventBase, size, event)
      case None => data[..]
      case Some((b, v)) =>
        WordInStore(b, size, data.Length);
        SetBit(data[..], b, v)
    }

    /**
     * An event of the block stores the value it reports in the bit it
     * addresses and keeps every other bit.
     */
    lemma AfterEventBits(event: nat)
      requires Valid() && Decode(eventBase, size, event).Some?
      ensures var (b, v) := Decode(eventBase, size, event).value;
        && b / 32 < data.Length
        && Bit(AfterEvent(event), b) == v
        && forall j: nat :: j / 32 < data.Length && j != b ==> Bit(AfterEvent(event), j) == Bit(data[..], j)
    {
      var (b, v) := Decode(eventBase, size, event).value;
      WordInStore(b, size, data.Length);
    }

    /**
     * `HandleEventReport`: an event for bit b (b below size) sets the bit
     * when it is the on event and clears it when it is the off event; any
     * other event leaves the store as it is.
     */
    method HandleEventReport(event: nat)
      requires Valid() && event < U64_MODULUS
      modifies data
      ensures data[..] == old(AfterEvent(event))
      ensures Decode(eventBase, size, event).Some? ==>
                var (b, v) := Decode(eventBase, size, event).value;
                b / 32 < data.Length && Bit(data[..], b) == v
    {
      if event < eventBase {
        return;
      }
      var d := event - eventBase;
      var newValue := d % 2 == 0;
      d := d / 2;
      if d >= size {
        return;
      }
      assert Decode(eventBase, size, event) == Some((d, newValue));
      AfterEventBits(event);
      var (word, mask) := GetBitAndMask(d).value;
      ghost var before := data[..];
      WriteWord(word, mask, newValue);
      StoreBit(before, d, newValue, data[word]);
    }

    /** `*ofs |= mask` for an on event, `*ofs &= ~mask` for an off event. */
    method WriteWord(word: nat, mask: bv32, v: bool)
      requires word < data.Length
      modifies data
      ensures data[..] == old(data[..])[word := Update(old(data[word]), mask, v)]
    {
      if v {
        data[word] := data[word] | mask;
      } else {
        data[word] := data[word] & !mask;
      }
    }

    /**
     * `HandleIdentifyBase`: for an event of the block, the valid reply
     * `mtiValid` when the queried state is the stored one and the invalid
     * reply `mtiValid + 1` when not, for the queried event; for any other
     * event only the completion.
     */
    function HandleIdentifyBase(mtiValid: int, event: nat): (r: Reply)
      requires Valid()
      reads data
      ensures Decode(eventBase, size, event).None? <==> r == DoneOnly
      ensures Decode(eventBase, size, event).Some? ==>
                var (b, v) := Decode(eventBase, size, event).value;
                r == Identified(if Get(b) == v then mtiValid else mtiValid + 1, event)
    {
      if event < eventBase then DoneOnly
      else
        var d := event - eventBase;
        var newValue := d % 2 == 0;
        if d / 2 >= size then DoneOnly
        else
          var (word, mask) := GetBitAndMask(d / 2).value;
          var oldValue := data[word] & mask != 0;
          Identified(if oldValue != newValue then mtiValid + 1 else mtiValid, event)
    }

    /** `HandleIdentifyGlobal`: the producer and the consumer range identify for the block's range. */
    method HandleIdentifyGlobal() returns (r: seq<Reply>)
      requires Valid()
      ensures r == [ProducerRangeIdentified(EncodeRangeSpec(eventBase, size)),
                    ConsumerRangeIdentified(EncodeRangeSpec(eventBase, size))]
    {
      var range := EncodeRange(eventBase, size);
      r := [ProducerRangeIdentified(range), ConsumerRangeIdentified(range)];
    }
  }

  /**
   * The event `Set` emits, fed back into the handler, stores the value
   * `Set` was asked for; when `Set` emits nothing the bit already holds it.
   * This holds while the event ids of the block do not wrap at 2^64.
   */
  lemma SetThenReport(pc: BitRangeEventPC, bit: nat, v: bool)
    requires pc.Valid() && bit < pc.size
    requires pc.eventBase + 2 * bit + 1 < U64_MODULUS && 2 * bit < U32_MODULUS
    ensures bit / 32 < pc.data.Length
    ensures pc.Set(bit, v) == DoneOnly ==> Bit(pc.data[..], bit) == v
    ensures pc.Set(bit, v).EventReport? ==>
              Decode(pc.eventBase, pc.size, pc.Set(bit, v).event) == Some((bit, v)) &&
              Bit(pc.AfterEvent(pc.Set(bit, v).event), bit) == v
  {
    var e := pc.EventFor(bit, v);
    assert e == pc.eventBase + 2 * bit + (if v then 0 else 1);
    assert (e - pc.eventBase) / 2 == bit;
  }

  /**
   * Once the store holds the state an event of the block reports, as it
   * does after `HandleEventReport` of that event, an identify query for
   * the event is answered as valid, and a query for the opposite state of
   * the same bit as invalid.
   */
  lemma ReportThenIdentify(pc: BitRangeEventPC, mtiValid: int, event: nat, other: nat)
    requires pc.Valid() && Decode(pc.eventBase, pc.size, event).Some?
    requires var (b, v) := Decode(pc.eventBase, pc.size, event).value;
      b / 32 < pc.data.Length && Bit(pc.data[..], b) == v
    requires Decode(pc.eventBase, pc.size, other).Some?
    requires Decode(pc.eventBase, pc.size, other).value.0 == Decode(pc.eventBase, pc.size, event).value.0
    requires other != event
    ensures pc.HandleIdentifyBase(mtiValid, event) == Identified(mtiValid, event)
    ensures pc.HandleIdentifyBase(mtiValid, other) == Identified(mtiValid + 1, other)
  {
  }

  // ---------------------------------------------------------------------
  // EncodeRange
  // ---------------------------------------------------------------------

  function Pow2(k: nat): (r: nat)
    ensures r > 0
  {
    if k == 0 then 1 else 2 * Pow2(k - 1)
  }

  /** Euclidean division is determined by quotient and remainder. */
  lemma DivModUnique(x: int, m: int, q: int, s: int)
    requires m > 0 && 0 <= s < m && x == q * m + s
    ensures x / m == q && x % m == s
  {
    var d := x / m;
    assert x == d * m + x % m;
    assert (q - d) * m == x % m - s;
    if q - d >= 1 {
      MulAtLeast(q - d, m);
    } else if d - q >= 1 {
      MulAtLeast(d - q, m);
    }
  }

  lemma DivDiv(x: nat, a: nat, b: nat)
    requires a > 0 && b > 0
    ensures x / (a * b) == (x / a) / b
  {
    var q := x / a;
    var r := x % a;
    var q2 := q / b;
    var r2 := q % b;
    assert x == q * a + r;
    assert q == q2 * b + r2;
    Regroup(q2, b, r2, a);
    RemainderBelow(r2, b, a, r);
    DivModUnique(x, a * b, q2, r2 * a + r);
  }

  lemma Regroup(q: int, b: int, r: int, a: int)
    ensures (q * b + r) * a == q * (a * b) + r * a
  {
  }

  /** A digit below b in the place a, plus a remainder below a, stays below a b. */
  lemma RemainderBelow(r2: nat, b: nat, a: nat, r: nat)
    requires r2 < b && r < a
    ensures r2 * a + r < a * b
  {
    MulMono(r2, b - 1, a);
    assert (b - 1) * a == a * b - a;
  }

  lemma {:induction false} Pow2Add(a: nat, b: nat)
    ensures Pow2(a + b) == Pow2(a) * Pow2(b)
    decreases a
  {
    if a > 0 {
      Pow2Add(a - 1, b);
      assert Pow2(a + b) == 2 * (Pow2(a - 1) * Pow2(b));
    }
  }

  lemma {:induction false} Pow2Mono(i: nat, j: nat)
    requires i <= j
    ensures Pow2(i) <= Pow2(j)
    decreases j
  {
    if i < j {
      Pow2Mono(i, j - 1);
    }
  }

  lemma Pow2Of8()
    ensures Pow2(8) == 256
  {
    assert Pow2(4) == 16;
    Pow2Add(4, 4);
  }

  lemma Pow2Of64()
    ensures Pow2(64) == U64_MODULUS
  {
    Pow2Of8();
    Pow2Add(8, 8);
    assert Pow2(16) == 0x1_0000;
    Pow2Add(16, 16);
    assert Pow2(32) == 0x1_0000_0000;
    Pow2Add(32, 32);
  }

  lemma Pow2Below64(k: nat)
    requires k <= 64
    ensures k < 64 <==> Pow2(k) < U64_MODULUS
  {
    Pow2Of64();
    if k < 64 {
      Pow2Mono(k, 63);
    }
  }

  /** (x / m) m is the multiple of m at or below x, less than m below it. */
  lemma DivMulBounds(x: nat, m: nat)
    requires m > 0
    ensures 0 <= (x / m) * m <= x < (x / m) * m + m
  {
    assert x == (x / m) * m + x % m;
  }

  lemma QuotientNat(x: nat, m: nat)
    requires m > 0
    ensures x / m >= 0
  {
  }

  /** x with its low k bits cleared. */
  function Cleared(x: nat, k: nat): (r: nat)
    ensures r <= x < r + Pow2(k)
  {
    DivMulBounds(x, Pow2(k));
    (x / Pow2(k)) * Pow2(k)
  }

  /** `x &= ~shift` for a shift that is a power of two: x without the shift's bit. */
  function ClearBit(x: nat, shift: nat): nat
  {
    if shift == 0 then x
    else if (x / shift) % 2 == 1 then x - shift else x
  }

  lemma ClearedStep(x: nat, k: nat)
    ensures Cleared(x, k + 1) == ClearBit(Cleared(x, k), Pow2(k))
  {
    var m := Pow2(k);
    var q := x / m;
    DivModUnique(q * m, m, q, 0);
    assert Pow2(k + 1) == m * 2;
    DivDiv(x, m, 2);
    assert q == (q / 2) * 2 + q % 2;
    assert Cleared(x, k + 1) == (q / 2) * (m * 2);
    assert (q / 2) * (m * 2) == ((q / 2) * 2) * m;
    assert ((q / 2) * 2) * m == (q - q % 2) * m == q * m - (q % 2) * m;
  }

  lemma ClearedBounds(x: nat, k: nat)
    ensures Cleared(x, k) <= x < Cleared(x, k) + Pow2(k)
    ensures x < U64_MODULUS && k == 64 ==> Cleared(x, k) == 0
  {
    var m := Pow2(k);
    assert x == (x / m) * m + x % m;
    if x < U64_MODULUS && k == 64 {
      Pow2Of64();
      DivModUnique(x, m, 0, x);
    }
  }

  /**
   * Where the loop of `EncodeRange` stops, from `shift == 2^k` on: at the
   * least j >= k whose aligned block of 2^j events around `begin` reaches
   * past `end`, or at 64 when the shift passes bit 63.
   */
  function Width(begin: nat, end: nat, k: nat): (r: nat)
    requires k <= 64
    ensures k <= r <= 64
    ensures r == 64 || Cleared(begin, r) + Pow2(r) > end
    decreases 64 - k
  {
    if k == 64 || Cleared(begin, k) + Pow2(k) > end then k else Width(begin, end, k + 1)
  }

  /** The block end `begin + size * 2`, in the source's unsigned and 64-bit arithmetic. */
  function RangeEnd(begin: nat, size: nat): nat
  {
    U64(begin + U32(size * 2))
  }

  /**
   * The range identifier for the aligned block of 2^k events starting at b:
   * the low k bits all equal to each other and unequal to bit k.
   */
  function RangeId(b: nat, k: nat): nat
  {
    if (b / Pow2(k)) % 2 == 1 then b else b + Pow2(k) - 1
  }

  /** The identifier `EncodeRange(begin, size)` returns. */
  function EncodeRangeSpec(begin: nat, size: nat): nat
  {
    var k := Width(begin, RangeEnd(begin, size), 0);
    RangeId(Cleared(begin, k), k)
  }

  /**
   * The state of the loop of `EncodeRange` from shift 2^k on: `begin`
   * with its low k bits cleared, and the width it stops at still ahead.
   */
  predicate EncodeLoop(begin: nat, end: nat, k: nat, b: nat, shift: nat)
  {
    && k <= 64 && shift == Pow2(k) && b == Cleared(begin, k)
    && (k < 64 <==> shift < U64_MODULUS)
    && Width(begin, end, k) == Width(begin, end, 0)
  }

  lemma EncodeStart(begin: nat, end: nat)
    ensures EncodeLoop(begin, end, 0, begin, 1)
  {
    assert Cleared(begin, 0) == begin;
  }

  /** One turn of the loop, taken while the shift is below 2^64 and the block of 2^k events is not past the end. */
  lemma EncodeStep(begin: nat, end: nat, k: nat, b: nat, shift: nat)
    requires EncodeLoop(begin, end, k, b, shift) && shift < U64_MODULUS && b + shift <= end
    ensures EncodeLoop(begin, end, k + 1, ClearBit(b, shift), shift * 2)
  {
    ClearedStep(begin, k);
    Pow2Below64(k + 1);
  }

  /** Where the loop stops, the width is reached: the identifier is the range id of the block of that width. */
  lemma EncodeStop(begin: nat, size: nat, k: nat, b: nat, shift: nat)
    requires EncodeLoop(begin, RangeEnd(begin, size), k, b, shift)
    requires !(shift < U64_MODULUS && b + shift <= RangeEnd(begin, size))
    ensures EncodeRangeSpec(begin, size) == if (b / shift) % 2 == 1 then b else b + shift - 1
  {
  }

  /**
   * `EncodeRange`, with its loop guard computed without wrap-around: the
   * guard compares `begin + shift` with the end as unbounded integers and
   * the loop stops once the shift has passed bit 63 (the 64-bit `shift`
   * wrapping to 0). `begin |= shift - 1` is an addition here, since the low
   * bits of `begin` are clear by then.
   */
  method EncodeRange(begin: nat, size: nat) returns (r: nat)
    requires begin < U64_MODULUS && size < U32_MODULUS
    ensures r == EncodeRangeSpec(begin, size)
  {
    var end := RangeEnd(begin, size);
    var b: nat := begin;
    var shift: nat := 1;
    ghost var k := 0;
    EncodeStart(begin, end);
    while shift < U64_MODULUS && b + shift <= end
      invariant EncodeLoop(begin, end, k, b, shift)
      decreases 64 - k
    {
      EncodeStep(begin, end, k, b, shift);
      b := ClearBit(b, shift);
      shift := shift * 2;
      k := k + 1;
    }
    EncodeStop(begin, size, k, b, shift);
    if (b / shift) % 2 == 1 {
      // The last cleared bit is followed by a one: the low bits stay zero.
      r := b;
    } else {
      // Set all the low bits.
      r := b + shift - 1;
    }
  }

  lemma MulMono(a: int, b: int, m: nat)
    requires a <= b
    ensures a * m <= b * m
  {
    assert b * m - a * m == (b - a) * m;
  }

  /** The quotient and remainder of q m + s by m, for s below m. */
  lemma BlockParts(q: nat, m: nat, s: nat)
    requires 0 <= s < m
    ensures (q * m + s) / m == q && (q * m + s) % m == s
  {
    DivModUnique(q * m + s, m, q, s);
  }

  /** The last event of block q of size m lies below h m when the block's start does. */
  lemma BlockBelow(q: nat, m: nat, h: nat)
    requires m > 0 && q * m < h * m
    ensures q * m + m <= h * m
  {
    if q >= h {
      MulMono(h, q, m);
    }
    MulMono(q + 1, h, m);
    assert (q + 1) * m == q * m + m;
  }

  /** 2^64 is a multiple of every 2^k up to it. */
  lemma Pow2Divides64(k: nat)
    requires k <= 64
    ensures Pow2(64 - k) * Pow2(k) == U64_MODULUS
  {
    Pow2Add(64 - k, k);
    Pow2Of64();
  }

  /** The range identifier of block q of size m, as a quotient and remainder by m. */
  lemma BlockId(q: nat, m: nat, r: nat)
    requires m > 0
    requires r == if q % 2 == 1 then q * m else q * m + m - 1
    ensures r / m == q && ((r % m == 0 && q % 2 == 1) || (r % m == m - 1 && q % 2 == 0))
  {
    BlockParts(q, m, 0);
    BlockParts(q, m, m - 1);
  }

  /**
   * The range identifier of the aligned block q 2^k: its bits from k on
   * read q, its low k bits are all zero when q is odd and all one when q is
   * even, and it is a 64-bit value when the block starts below 2^64.
   */
  lemma BlockRangeId(q: nat, k: nat, b: nat)
    requires k <= 64 && b == q * Pow2(k) && b < U64_MODULUS
    ensures var m := Pow2(k); var r := RangeId(b, k);
      && r < U64_MODULUS && r / m == q
      && ((r % m == 0 && q % 2 == 1) || (r % m == m - 1 && q % 2 == 0))
  {
    var m := Pow2(k);
    BlockParts(q, m, 0);
    assert q * m + 0 == q * m;
    var r := RangeId(b, k);
    assert r == if q % 2 == 1 then q * m else q * m + m - 1;
    BlockId(q, m, r);
    Pow2Divides64(k);
    BlockBelow(q, m, Pow2(64 - k));
  }

  /**
   * The identifier's format: for the width k the loop stops at, the low k
   * bits are all zero or all one, bit k is their complement (when k < 64),
   * and the bits from k on are those of `begin`; the identifier is a 64-bit
   * value.
   */
  lemma EncodeRangeFormat(begin: nat, size: nat)
    requires begin < U64_MODULUS
    ensures var k := Width(begin, RangeEnd(begin, size), 0); var r := EncodeRangeSpec(begin, size);
      && r < U64_MODULUS
      && r / Pow2(k) == begin / Pow2(k)
      && ((r % Pow2(k) == 0 && (r / Pow2(k)) % 2 == 1) || (r % Pow2(k) == Pow2(k) - 1 && (r / Pow2(k)) % 2 == 0))
  {
    var k := Width(begin, RangeEnd(begin, size), 0);
    var b := Cleared(begin, k);
    var m := Pow2(k);
    QuotientNat(begin, m);
    var q: nat := begin / m;
    assert b == q * m;
    BlockRangeId(q, k, b);
    assert EncodeRangeSpec(begin, size) == RangeId(b, k);
  }

  /**
   * The aligned block of 2^k events the identifier denotes begins at or
   * below `begin` and reaches past the last event of the bit block,
   * `begin + 2 size - 1`, as long as that end does not wrap.
   */
  lemma EncodeRangeCovers(begin: nat, size: nat)
    requires begin < U64_MODULUS && begin + 2 * size < U64_MODULUS && 2 * size < U32_MODULUS
    ensures var k := Width(begin, RangeEnd(begin, size), 0); var r := EncodeRangeSpec(begin, size);
      && Cleared(r, k) <= begin
      && begin + 2 * size <= Cleared(r, k) + Pow2(k)
  {
    var k := Width(begin, RangeEnd(begin, size), 0);
    var m := Pow2(k);
    var q := begin / m;
    var r := EncodeRangeSpec(begin, size);
    EncodeRangeFormat(begin, size);
    assert Cleared(r, k) == Cleared(begin, k);
    ClearedBounds(begin, k);
    if k == 64 {
      Pow2Of64();
    }
  }

  // ---------------------------------------------------------------------
  // EncodeRange as written
  // ---------------------------------------------------------------------

  /** The loop guard as written: `begin + shift` wraps at 2^64. */
  predicate AsWrittenGuard(b: nat, shift: nat, end: nat)
  {
    U64(b + shift) <= end
  }

  /**
   * The result of `EncodeRange` as written, from `begin == b` and
   * `shift == shift`, if the loop exits within `fuel` iterations; None if
   * it is still running then. The shift is a power of two, or 0 once the
   * 64-bit shift has passed bit 63. For a zero shift `begin & shift` is 0
   * and `shift - 1` has every bit set, so the result is all ones. Otherwise
   * `begin |= shift - 1` is an addition, since on every run from shift 1
   * the bits of `begin` below the shift are clear by then.
   */
  function AsWrittenResult(b: nat, shift: nat, end: nat, fuel: nat): Option<nat>
    decreases fuel
  {
    if !AsWrittenGuard(b, shift, end) then
      Some(if shift == 0 then U64_MODULUS - 1 else if (b / shift) % 2 == 1 then b else b + shift - 1)
    else if fuel == 0 then None
    else AsWrittenResult(ClearBit(b, shift), U64(shift * 2), end, fuel - 1)
  }

  /** Clearing the bit m of t - m, for t an even multiple h m of m, leaves t - 2 m. */
  lemma ClearBelowMultiple(t: nat, m: nat, h: nat)
    requires m > 0 && h >= 2 && h % 2 == 0 && t == h * m
    ensures t >= 2 * m
    ensures ClearBit(t - m, m) == t - 2 * m
  {
    var g := h - 1;
    assert t - m == g * m by { assert h * m - m == (h - 1) * m; }
    assert g * m >= m by { MulAtLeast(g, m); }
    assert (t - m) / m == g by { BlockParts(g, m, 0); assert g * m + 0 == g * m; }
  }

  /** Clearing bit k of 2^64 - 2^k leaves 2^64 - 2^(k+1). */
  lemma ClearTopRun(k: nat)
    requires k < 64
    ensures Pow2(k + 1) <= U64_MODULUS
    ensures ClearBit(U64_MODULUS - Pow2(k), Pow2(k)) == U64_MODULUS - Pow2(k + 1)
  {
    var m := Pow2(k);
    var h := Pow2(64 - k);
    assert h * m == U64_MODULUS by { Pow2Divides64(k); }
    assert h >= 2 && h % 2 == 0 by { assert h == 2 * Pow2(63 - k); }
    ClearBelowMultiple(U64_MODULUS, m, h);
    assert Pow2(k + 1) == 2 * m;
  }

  lemma AsWrittenFixedPoint(end: nat, fuel: nat)
    ensures AsWrittenResult(0, 0, end, fuel) == None
  {
    if fuel > 0 {
      AsWrittenFixedPoint(end, fuel - 1);
    }
  }

  /** From 2^64 - 2^k, with shift 2^k, every guard sum wraps to 0 and the loop goes on. */
  lemma {:induction false} AsWrittenTopRun(k: nat, end: nat, fuel: nat)
    requires 1 <= k < 64
    ensures Pow2(k) < U64_MODULUS
    ensures AsWrittenResult(U64_MODULUS - Pow2(k), Pow2(k), end, fuel) == None
    decreases fuel
  {
    Pow2Below64(k);
    assert U64(U64_MODULUS - Pow2(k) + Pow2(k)) == 0;
    if fuel > 0 {
      ClearTopRun(k);
      if k + 1 < 64 {
        Pow2Below64(k + 1);
        AsWrittenTopRun(k + 1, end, fuel - 1);
      } else {
        Pow2Of64();
        assert U64(Pow2(k) * 2) == 0;
        AsWrittenFixedPoint(end, fuel - 1);
      }
    }
  }

  /**
   * For `EncodeRange(0xFFFF_FFFF_FFFF_FFFC, 1)` the loop as written never
   * exits, although the block's end `begin + 2` does not overflow: from
   * shift 4 on, `begin + shift` wraps to 0, which is below the end, until
   * `begin` and `shift` are both 0 and the guard holds for ever.
   */
  lemma AsWrittenEncodeRangeLoops(fuel: nat)
    ensures RangeEnd(0xFFFF_FFFF_FFFF_FFFC, 1) == 0xFFFF_FFFF_FFFF_FFFE
    ensures AsWrittenResult(0xFFFF_FFFF_FFFF_FFFC, 1, RangeEnd(0xFFFF_FFFF_FFFF_FFFC, 1), fuel) == None
  {
    var end := RangeEnd(0xFFFF_FFFF_FFFF_FFFC, 1);
    assert end == 0xFFFF_FFFF_FFFF_FFFE;
    assert Pow2(2) == 4;
    if fuel >= 2 {
      assert ClearBit(0xFFFF_FFFF_FFFF_FFFC, 1) == 0xFFFF_FFFF_FFFF_FFFC;
      assert ClearBit(0xFFFF_FFFF_FFFF_FFFC, 2) == 0xFFFF_FFFF_FFFF_FFFC;
      AsWrittenTopRun(2, end, fuel - 2);
    }
  }


  /** The corrected loop stops at width 2 on the same block, with the identifier ending in two zero bits. */
  lemma EncodeRangeNearTop()
    ensures Width(0xFFFF_FFFF_FFFF_FFFC, RangeEnd(0xFFFF_FFFF_FFFF_FFFC, 1), 0) == 2
    ensures EncodeRangeSpec(0xFFFF_FFFF_FFFF_FFFC, 1) == 0xFFFF_FFFF_FFFF_FFFC
  {
    assert Pow2(2) == 4;
    var end := RangeEnd(0xFFFF_FFFF_FFFF_FFFC, 1);
    assert end == 0xFFFF_FFFF_FFFF_FFFE;
    assert Cleared(0xFFFF_FFFF_FFFF_FFFC, 0) == 0xFFFF_FFFF_FFFF_FFFC;
    assert Cleared(0xFFFF_FFFF_FFFF_FFFC, 1) == 0xFFFF_FFFF_FFFF_FFFC;
    assert Cleared(0xFFFF_FFFF_FFFF_FFFC, 2) == 0xFFFF_FFFF_FFFF_FFFC;
  }
}
