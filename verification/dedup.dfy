/**
 * The two-generation duplicate-suppression window. `current` decides
 * whether a hash is a duplicate; `preparing` collects the hashes first seen
 * in this generation. A rotation makes `preparing` the new `current` and
 * starts an empty `preparing`, so a hash stays a duplicate for one to two
 * rotation periods and memory stays bounded.
 *
 * The processor and the sniffer each own one window; they never share
 * hashes. `Generations` is the value-level specification, `Window` the
 * pair of maps that the owning task updates in place.
 */
module Dedup {
  import opened Args

  /** A 64-bit content hash (`u64`), as produced by a keyed hasher. */
  newtype Hash = x: int | 0 <= x < 0x1_0000_0000_0000_0000

  datatype Generations = Generations(current: map<Hash, Source>, preparing: map<Hash, Source>)
  {
    /** The window invariant: `preparing` is a sub-map of `current`. */
    ghost predicate Valid()
    {
      forall h :: h in preparing ==> h in current && current[h] == preparing[h]
    }

    predicate IsDuplicate(h: Hash)
    {
      h in current
    }

    /**
     * The contains-then-insert step: a hash absent from `current` is recorded
     * in both generations with its source; a present one changes nothing.
     */
    function Observe(h: Hash, s: Source): (g: Generations)
      requires Valid()
      ensures g.Valid()
      ensures g.IsDuplicate(h)
      ensures g.current[h] == if IsDuplicate(h) then current[h] else s
      ensures h in g.preparing <==> h in preparing || !IsDuplicate(h)
      ensures IsDuplicate(h) ==> g == this
      ensures forall k :: k != h ==> (k in g.current <==> k in current) && (k in g.preparing <==> k in preparing)
      ensures forall k :: k != h && k in current ==> g.current[k] == current[k]
      ensures forall k :: k != h && k in preparing ==> g.preparing[k] == preparing[k]
    {
      if h in current then this else Generations(current[h := s], preparing[h := s])
    }

    /** Swap the generations and clear the new `preparing`. */
    function Rotate(): (g: Generations)
      requires Valid()
      ensures g.Valid()
      ensures forall h :: g.IsDuplicate(h) ==> IsDuplicate(h)
      ensures g.preparing == map[]
    {
      Generations(preparing, map[])
    }
  }

  const Empty := Generations(map[], map[])

  /** What the owning task does to its window: observe a hash, or rotate. */
  datatype WindowOp = Obs(hash: Hash, source: Source) | Rot

  function Apply(g: Generations, op: WindowOp): (r: Generations)
    requires g.Valid()
    ensures r.Valid()
  {
    match op
    case Obs(h, s) => g.Observe(h, s)
    case Rot => g.Rotate()
  }

  function ApplyAll(g: Generations, ops: seq<WindowOp>): (r: Generations)
    requires g.Valid()
    ensures r.Valid()
    decreases |ops|
  {
    if ops == [] then g else ApplyAll(Apply(g, ops[0]), ops[1..])
  }

  function Rotations(ops: seq<WindowOp>): nat
    decreases |ops|
  {
    if ops == [] then 0 else (if ops[0].Rot? then 1 else 0) + Rotations(ops[1..])
  }

  lemma {:induction false} ApplyAllAppend(g: Generations, a: seq<WindowOp>, b: seq<WindowOp>)
    requires g.Valid()
    ensures ApplyAll(g, a + b) == ApplyAll(ApplyAll(g, a), b)
    decreases |a|
  {
    if a != [] {
      assert (a + b)[0] == a[0] && (a + b)[1..] == a[1..] + b;
      ApplyAllAppend(Apply(g, a[0]), a[1..], b);
    } else {
      assert a + b == b;
    }
  }

  lemma {:induction false} RotationsAppend(a: seq<WindowOp>, b: seq<WindowOp>)
    ensures Rotations(a + b) == Rotations(a) + Rotations(b)
    decreases |a|
  {
    if a != [] {
      assert (a + b)[0] == a[0] && (a + b)[1..] == a[1..] + b;
      RotationsAppend(a[1..], b);
    } else {
      assert a + b == b;
    }
  }

  /**
   * Between rotations a duplicate stays a duplicate, and observing it again
   * does not put it back into `preparing`: duplicate hits do not refresh it.
   */
  lemma {:induction false} ObservesKeepDuplicate(g: Generations, ops: seq<WindowOp>, h: Hash)
    requires g.Valid() && g.IsDuplicate(h)
    requires Rotations(ops) == 0
    ensures ApplyAll(g, ops).IsDuplicate(h)
    ensures h in ApplyAll(g, ops).preparing <==> h in g.preparing
    decreases |ops|
  {
    if ops != [] {
      ObservesKeepDuplicate(Apply(g, ops[0]), ops[1..], h);
    }
  }

  /**
   * A hash recorded fresh in this generation is still a duplicate after
   * any number of observations and at most one rotation.
   */
  lemma {:induction false} FreshSurvivesOneRotation(g: Generations, ops: seq<WindowOp>, h: Hash)
    requires g.Valid() && h in g.current && h in g.preparing
    requires Rotations(ops) <= 1
    ensures ApplyAll(g, ops).IsDuplicate(h)
    decreases |ops|
  {
    if ops != [] {
      match ops[0]
      case Obs(k, s) =>
        FreshSurvivesOneRotation(g.Observe(k, s), ops[1..], h);
      case Rot =>
        ObservesKeepDuplicate(g.Rotate(), ops[1..], h);
    }
  }

  /**
   * The ageing rule. A hash observed fresh is a duplicate throughout the
   * generation after the next rotation (`a + [Rot] + b`), whatever is
   * observed meanwhile, and is novel again after the second rotation.
   */
  lemma DuplicateForOneRotationOnly(g: Generations, h: Hash, s: Source, a: seq<WindowOp>, b: seq<WindowOp>)
    requires g.Valid() && !g.IsDuplicate(h)
    requires Rotations(a) == 0 && Rotations(b) == 0
    ensures ApplyAll(g.Observe(h, s), a + [Rot] + b).IsDuplicate(h)
    ensures !ApplyAll(g.Observe(h, s), a + [Rot] + b + [Rot]).IsDuplicate(h)
  {
    var g1 := g.Observe(h, s);
    ObservesKeepDuplicate(g1, a, h);
    var g2 := ApplyAll(g1, a);
    var g3 := g2.Rotate();
    assert h in g3.current && h !in g3.preparing;
    ObservesKeepDuplicate(g3, b, h);
    ApplyAllAppend(g1, a, [Rot]);
    assert ApplyAll(g2, [Rot]) == g3;
    ApplyAllAppend(g1, a + [Rot], b);
    ApplyAllAppend(g1, a + [Rot] + b, [Rot]);
    assert ApplyAll(ApplyAll(g3, b), [Rot]) == ApplyAll(g3, b).Rotate();
  }

  /**
   * The window as the owning task holds it: two hash maps updated in place
   * by `insert`, `mem::swap` and `clear`.
   */
  class Window {
    var current: map<Hash, Source>
    var preparing: map<Hash, Source>

    function Model(): Generations
      reads this
    {
      Generations(current, preparing)
    }

    ghost predicate Valid()
      reads this
    {
      Model().Valid()
    }

    constructor ()
      ensures Model() == Empty && Valid()
    {
      current, preparing := map[], map[];
    }

    /** `current.contains_key(&hash)`. */
    method Contains(h: Hash) returns (b: bool)
      ensures b <==> Model().IsDuplicate(h)
    {
      b := h in current;
    }

    /** `current.insert(hash, s); preparing.insert(hash, s)`. */
    method Insert(h: Hash, s: Source)
      requires Valid()
      modifies this
      ensures Valid()
      ensures current == old(current)[h := s] && preparing == old(preparing)[h := s]
    {
      current := current[h := s];
      preparing := preparing[h := s];
    }

    /** `mem::swap(&mut current, &mut preparing); preparing.clear()`. */
    method Rotate()
      requires Valid()
      modifies this
      ensures Valid()
      ensures Model() == old(Model()).Rotate()
    {
      current, preparing := preparing, current;
      preparing := map[];
    }
  }
}
