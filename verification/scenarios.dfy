/**
 * Client-side consequences of the pool's contracts: borrowing, releasing and
 * sweeping in sequence, as a user of `tao::pool` would.
 */
module PoolScenarios {

  import opened Wrappers
  import opened RestingList
  import opened ObjectPool

  /** A hook under which every instance is stale. */
  function RejectAll(x: Instance): bool
  {
    false
  }

  /**
   * Reuse identity: releasing a valid instance and borrowing again with
   * nothing in between hands back the same instance, and the resting list is
   * as it was before the release.
   */
  method ReuseIdentity(p: Pool, h: Handle, isValid: Instance -> bool) returns (r: Handle)
    requires p.Valid() && p.alive && h.binding == Some(p) && isValid(h.item)
    modifies p, p.items
    ensures p.Valid() && p.alive
    ensures r.item == h.item && r.binding == Some(p)
    ensures p.items == old(p.items)
  {
    h.Release(isValid);
    LastValidIs(p.items, Keeps(isValid), |old(p.items)|);
    r := p.Get(isValid);
  }

  /**
   * Borrow twice from an empty pool, release both, borrow twice more: the
   * second round returns the two instances of the first, most recently
   * released first, and leaves the pool empty.
   */
  method BorrowReleaseBorrow() returns (i1: Instance, i2: Instance, r3: Instance, r4: Instance)
    ensures i1 != i2
    ensures r3 == i2 && r4 == i1
  {
    var p := new Pool();
    var b1 := p.Get(DefaultIsValid);
    var b2 := p.Get(DefaultIsValid);
    i1, i2 := b1.item, b2.item;
    b1.Release(DefaultIsValid);
    b2.Release(DefaultIsValid);
    assert |p.items| == 2 && p.items[0].item == i1 && p.items[1].item == i2;
    LastValidIs(p.items, Keeps(DefaultIsValid), 1);
    var b3 := p.Get(DefaultIsValid);
    r3 := b3.item;
    LastValidIs(p.items, Keeps(DefaultIsValid), 0);
    var b4 := p.Get(DefaultIsValid);
    r4 := b4.item;
  }

  /**
   * Under a hook that rejects everything, a release leaves the resting list
   * unchanged and the next borrow discards whatever rests there and
   * constructs a new instance.
   */
  method AllInvalidRegime(p: Pool, h: Handle) returns (r: Handle)
    requires p.Valid() && p.alive && h.binding == Some(p)
    modifies p, p.items
    ensures p.Valid() && p.alive && p.items == []
    ensures fresh(r.item) && r.binding == Some(p)
  {
    h.Release(RejectAll);
    assert p.Instances() == old(p.Instances());
    LastValidOfHandles(p.items, RejectAll);
    r := p.Get(RejectAll);
  }

  /**
   * The pool is destroyed while handles bound to it are still out; releasing
   * each of them afterwards frees its instance and touches no pool.
   */
  method ReleaseAfterDestroy(p: Pool, hs: seq<Handle>, isValid: Instance -> bool)
    requires p.Valid() && p.alive
    requires forall i :: 0 <= i < |hs| ==> hs[i].binding == Some(p)
    modifies p
    ensures !p.alive && p.items == []
  {
    p.Destroy();
    for i := 0 to |hs|
      invariant !p.alive && p.items == []
    {
      hs[i].Release(isValid);
    }
  }

  /** Sweeping a second time right after a sweep changes nothing. */
  method SweepTwice(p: Pool, isValid: Instance -> bool)
    requires p.Valid()
    modifies p
    ensures p.Valid()
    ensures p.items == Filter(old(p.items), Keeps(isValid))
  {
    p.EraseInvalid(isValid);
    p.EraseInvalid(isValid);
    FilterIdempotent(old(p.items), Keeps(isValid));
  }
}
