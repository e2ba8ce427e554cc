/**
 Decoding of an outer action id into a base action and an index into the
 repeat schedule. With `m` schedule entries the outer ids are laid out as
 `[a0 with r0, a0 with r1, ..., a1 with r0, a1 with r1, ...]`, so an id is
 `base * m + index`.
 */
module Decoding {

  /** A base action of the wrapped environment and a position in the schedule. */
  datatype DecodedAction = DecodedAction(base: int, repeatIndex: nat)

  /** Python's `action // m` and `action % m` for a positive `m`. Python rounds
      the quotient towards negative infinity; for a positive divisor that
      coincides with Dafny's Euclidean division, and the contract states it:
      the remainder lies in `[0, m)` and quotient and remainder rebuild the id. */
  function Decode(action: int, m: int): (d: DecodedAction)
    requires m > 0
    ensures d.repeatIndex < m
    ensures d.base * m + d.repeatIndex == action
  {
    DecodedAction(action / m, action % m)
  }

  /** The outer action id that selects `base` with schedule entry `repeatIndex`. */
  function Encode(base: int, repeatIndex: nat, m: int): int
  {
    base * m + repeatIndex
  }

  /** Multiplying by a positive `m` preserves order. */
  lemma MulMonotone(a: int, b: int, m: int)
    requires m > 0
    requires a <= b
    ensures a * m <= b * m
  {
  }

  /** A multiple of a positive `m` strictly between `-m` and `m` is zero. */
  lemma SmallMultipleIsZero(q: int, m: int)
    requires m > 0
    requires -m < q * m < m
    ensures q == 0
  {
  }

  /** Quotient and remainder are unique: any split of `action` with a
      remainder in `[0, m)` is the one `Decode` returns. */
  lemma DecodeUnique(action: int, m: int, base: int, repeatIndex: nat)
    requires m > 0
    requires repeatIndex < m
    requires base * m + repeatIndex == action
    ensures Decode(action, m) == DecodedAction(base, repeatIndex)
  {
    var d := Decode(action, m);
    assert (d.base - base) * m == repeatIndex - d.repeatIndex;
    SmallMultipleIsZero(d.base - base, m);
  }

  /** Decoding inverts encoding on every base action and schedule position.
      (The converse, that encoding inverts decoding, is `Decode`'s second
      postcondition.) */
  lemma DecodeEncode(base: int, repeatIndex: nat, m: int)
    requires m > 0
    requires repeatIndex < m
    ensures Decode(Encode(base, repeatIndex, m), m) == DecodedAction(base, repeatIndex)
  {
    DecodeUnique(Encode(base, repeatIndex, m), m, base, repeatIndex);
  }

  /** An outer id lies in `[0, n * m)` exactly when its base action lies in `[0, n)`. */
  lemma DecodeInRange(action: int, m: int, n: int)
    requires m > 0
    ensures 0 <= action < n * m <==> 0 <= Decode(action, m).base < n
  {
    var d := Decode(action, m);
    if d.base < 0 {
      MulMonotone(d.base, -1, m);
    } else if d.base >= n {
      MulMonotone(n, d.base, m);
    } else {
      MulMonotone(0, d.base, m);
      MulMonotone(d.base + 1, n, m);
      assert (d.base + 1) * m == d.base * m + m;
    }
  }

  /** The outer ids of `n` base actions and `m` schedule positions form the
      product space: an id lies in `[0, n * m)` exactly when its decoded base
      action lies in `[0, n)`, and every pair of a base action in `[0, n)` and a
      position in `[0, m)` is encoded by an id in that range that decodes back
      to it. */
  lemma ActionSpaceProduct(n: int, m: int)
    requires m > 0
    ensures forall action :: 0 <= action < n * m <==> 0 <= Decode(action, m).base < n
    ensures forall base, i: nat | 0 <= base < n && i < m ::
      && 0 <= Encode(base, i, m) < n * m
      && Decode(Encode(base, i, m), m) == DecodedAction(base, i)
  {
    forall action
      ensures 0 <= action < n * m <==> 0 <= Decode(action, m).base < n
    {
      DecodeInRange(action, m, n);
    }
    forall base, i: nat | 0 <= base < n && i < m
      ensures 0 <= Encode(base, i, m) < n * m
      ensures Decode(Encode(base, i, m), m) == DecodedAction(base, i)
    {
      DecodeEncode(base, i, m);
      DecodeInRange(Encode(base, i, m), m, n);
    }
  }
}
