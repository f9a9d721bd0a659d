/**
 * Where `EncodeRange` as written (`EventHandlerTemplates.cxx`) and the
 * corrected loop agree: on every range whose aligned block ends below 2^64
 * the two take the same turns and return the same identifier.
 */
module EncodeRangeAgreement {
  import opened Wrappers
  import opened BitRangeEvents

  /**
   * From any state of the corrected loop on, the loop as written takes the
   * same turns and returns the same identifier, provided the block of the
   * width where the corrected loop stops ends below 2^64: then no guard sum
   * `begin + shift` wraps.
   */
  lemma {:induction false} AsWrittenFrom(begin: nat, end: nat, w: nat, id: nat, k: nat, b: nat, shift: nat, fuel: nat)
    requires end < U64_MODULUS && EncodeLoop(begin, end, k, b, shift)
    requires w == Width(begin, end, 0) && Cleared(begin, w) + Pow2(w) < U64_MODULUS && k + fuel >= w
    requires id == RangeId(Cleared(begin, w), w)
    ensures AsWrittenResult(b, shift, end, fuel) == Some(id)
    decreases fuel, 1
  {
    if k == w {
      AsWrittenStop(begin, end, w, b, shift, fuel);
    } else {
      AsWrittenOnward(begin, end, w, id, k, b, shift, fuel);
    }
  }

  /** Below the width, one turn of both loops, then the rest by `AsWrittenFrom`. */
  lemma {:induction false} AsWrittenOnward(begin: nat, end: nat, w: nat, id: nat, k: nat, b: nat, shift: nat, fuel: nat)
    requires end < U64_MODULUS && EncodeLoop(begin, end, k, b, shift)
    requires w == Width(begin, end, 0) && Cleared(begin, w) + Pow2(w) < U64_MODULUS && k < w <= k + fuel
    requires id == RangeId(Cleared(begin, w), w)
    ensures AsWrittenResult(b, shift, end, fuel) == Some(id)
    decreases fuel, 0
  {
    var b', shift' := AsWrittenTurn(begin, end, w, k, b, shift, fuel);
    var fuel' := fuel - 1;
    AsWrittenFrom(begin, end, w, id, k + 1, b', shift', fuel');
    AsWrittenUnfold(b, shift, end, fuel, b', shift', fuel', id);
  }

  /** At the width the corrected loop stops at, the loop as written stops too, with the same identifier. */
  lemma AsWrittenStop(begin: nat, end: nat, w: nat, b: nat, shift: nat, fuel: nat)
    requires EncodeLoop(begin, end, w, b, shift) && w == Width(begin, end, 0)
    requires Cleared(begin, w) + Pow2(w) < U64_MODULUS
    ensures AsWrittenResult(b, shift, end, fuel) == Some(RangeId(Cleared(begin, w), w))
  {
    Pow2Below64(w);
    AsWrittenExit(b, shift, end, fuel, w);
  }

  /** Where `begin + shift` reaches past the end without wrapping, the loop as written returns the range id of width k. */
  lemma AsWrittenExit(b: nat, shift: nat, end: nat, fuel: nat, k: nat)
    requires shift == Pow2(k) && end < b + shift < U64_MODULUS
    ensures AsWrittenResult(b, shift, end, fuel) == Some(RangeId(b, k))
  {
    assert U64(b + shift) == b + shift;
  }

  /** Below that width the loop as written takes the same turn as the corrected one, with no wrap-around. */
  lemma AsWrittenTurn(begin: nat, end: nat, w: nat, k: nat, b: nat, shift: nat, fuel: nat) returns (b': nat, shift': nat)
    requires end < U64_MODULUS && EncodeLoop(begin, end, k, b, shift)
    requires w == Width(begin, end, 0) && Cleared(begin, w) + Pow2(w) < U64_MODULUS && k < w <= k + fuel
    ensures b' == ClearBit(b, shift) && shift' == U64(shift * 2) == shift * 2
    ensures fuel > 0 && AsWrittenGuard(b, shift, end)
    ensures EncodeLoop(begin, end, k + 1, b', shift')
  {
    b', shift' := ClearBit(b, shift), shift * 2;
    Pow2Below64(w);
    assert b + shift <= end;
    EncodeStep(begin, end, k, b, shift);
    Pow2Below64(k + 1);
  }

  /** One turn of the loop as written, unfolded: where the guard holds, the result is that of the next state. */
  lemma AsWrittenUnfold(b: nat, shift: nat, end: nat, fuel: nat, b': nat, shift': nat, fuel': nat, id: nat)
    requires AsWrittenGuard(b, shift, end) && fuel == fuel' + 1
    requires b' == ClearBit(b, shift) && shift' == U64(shift * 2)
    requires AsWrittenResult(b', shift', end, fuel') == Some(id)
    ensures AsWrittenResult(b, shift, end, fuel) == Some(id)
  {
  }

  /**
   * `EncodeRange` as written returns the corrected identifier whenever the
   * aligned block the identifier names ends below 2^64; the two differ only
   * on blocks that reach the top of the event space.
   */
  lemma AsWrittenAgrees(begin: nat, size: nat, fuel: nat)
    requires begin < U64_MODULUS
    requires var k := Width(begin, RangeEnd(begin, size), 0); Cleared(begin, k) + Pow2(k) < U64_MODULUS && fuel >= k
    ensures AsWrittenResult(begin, 1, RangeEnd(begin, size), fuel) == Some(EncodeRangeSpec(begin, size))
  {
    EncodeStart(begin, RangeEnd(begin, size));
    var end, w := RangeEnd(begin, size), Width(begin, RangeEnd(begin, size), 0);
    AsWrittenFrom(begin, end, w, RangeId(Cleared(begin, w), w), 0, begin, 1, fuel);
  }}
