/**
 * `tao::pool<T>`: a pool of reusable instances, with handles that return
 * their instance to the pool when they are released.
 *
 * The model is sequential: every operation is atomic (the mutex only makes
 * the source's operations atomic). A shared pointer's control block is a
 * `Handle` object, its deleter's weak pool reference is the handle's
 * `binding`, and whether that weak reference still resolves is the bound
 * pool's `alive` flag.
 */
module ObjectPool {

  import opened Wrappers
  import opened RestingList

  /** An instance of the pooled type `T`. Its identity is the object's
    * identity; allocating one stands for `v_create`. */
  class Instance {
    constructor ()
    {
    }
  }

  /** The default validity hook: every instance is valid. */
  function DefaultIsValid(x: Instance): bool
  {
    true
  }

  /** With the default hook a sweep keeps everything, and `get` reuses the most
    * recently returned instance whenever one rests in the pool. */
  lemma {:induction false} DefaultNeverDiscards(s: seq<Instance>)
    ensures Filter(s, DefaultIsValid) == s
    ensures s != [] ==> LastValid(s, DefaultIsValid) == Some(|s| - 1)
  {
    FilterKeepsAllValid(s, DefaultIsValid);
  }

  /** The instances a list of handles refers to, in the same order. */
  function InstancesOf(hs: seq<Handle>): (r: seq<Instance>)
    ensures |r| == |hs|
    ensures forall i :: 0 <= i < |hs| ==> r[i] == hs[i].item
  {
    if hs == [] then [] else [hs[0].item] + InstancesOf(hs[1..])
  }

  /** Cutting the handle list back cuts the instance list back the same way. */
  lemma InstancesOfPrefix(hs: seq<Handle>, n: nat)
    requires n <= |hs|
    ensures InstancesOf(hs[..n]) == InstancesOf(hs)[..n]
  {
  }

  /** The validity hook lifted to handles: a handle is kept when its instance is valid. */
  function Keeps(isValid: Instance -> bool): Handle -> bool
  {
    (h: Handle) => isValid(h.item)
  }

  /** Searching the handles from the tail finds the same position as searching
    * their instances. */
  lemma {:induction false} LastValidOfHandles(hs: seq<Handle>, isValid: Instance -> bool)
    ensures LastValid(hs, Keeps(isValid)) == LastValid(InstancesOf(hs), isValid)
  {
    if hs != [] {
      var n := |hs| - 1;
      assert InstancesOf(hs)[..n] == InstancesOf(hs[..n]);
      LastValidOfHandles(hs[..n], isValid);
    }
  }

  /** Sweeping handles and then looking at their instances is sweeping the instances. */
  lemma {:induction false} InstancesOfFilter(hs: seq<Handle>, isValid: Instance -> bool)
    ensures InstancesOf(Filter(hs, Keeps(isValid))) == Filter(InstancesOf(hs), isValid)
  {
    if hs != [] {
      InstancesOfFilter(hs[1..], isValid);
      assert InstancesOf(hs)[1..] == InstancesOf(hs[1..]);
      if isValid(hs[0].item) {
        assert InstancesOf([hs[0]] + Filter(hs[1..], Keeps(isValid)))
            == [hs[0].item] + InstancesOf(Filter(hs[1..], Keeps(isValid)));
      }
    }
  }

  /**
   * A shared pointer to an instance, with its deleter. `binding` is the
   * deleter's `pool_`: None for a default (unattached) deleter, Some(p) for
   * a deleter holding a weak reference to pool p.
   */
  class Handle {
    const item: Instance
    var binding: Option<Pool>

    constructor (item: Instance, binding: Option<Pool>)
      ensures this.item == item && this.binding == binding
    {
      this.item := item;
      this.binding := binding;
    }

    /**
     * The deleter, run when the last copy of the handle is released: the
     * instance goes back to the bound pool through `push` if that pool is
     * still alive; otherwise it is freed and no pool is touched.
     */
    method Release(isValid: Instance -> bool)
      requires binding.Some? && binding.value.alive ==> binding.value.Valid()
      modifies if binding.Some? && binding.value.alive then {binding.value} else {}
      ensures binding.Some? ==> binding.value.alive == old(binding.value.alive)
      ensures binding.Some? && binding.value.alive ==>
        var p := binding.value;
        p.Valid() &&
        |p.items| == |old(p.items)| + (if isValid(item) then 1 else 0) &&
        p.items[..|old(p.items)|] == old(p.items) &&
        (isValid(item) ==> fresh(p.items[|old(p.items)|]) && p.items[|old(p.items)|].item == item)
      ensures binding.Some? && binding.value.alive ==>
        binding.value.Instances() == old(binding.value.Instances()) + (if isValid(item) then [item] else [])
    {
      if binding.Some? && binding.value.alive {
        binding.value.Push(item, isValid);
      }
    }
  }

  class Pool {
    /** `items_`: the resting handles, most recently returned last. */
    var items: seq<Handle>
    /** Whether weak references to this pool still resolve. */
    var alive: bool

    /** Every resting handle carries an unattached deleter, and no handle rests twice. */
    ghost predicate Valid()
      reads this, items
    {
      (forall i :: 0 <= i < |items| ==> items[i].binding.None?) &&
      Distinct(items)
    }

    /** The resting instances, in list order. */
    ghost function Instances(): seq<Instance>
      reads this
    {
      InstancesOf(items)
    }

    /** A pool is created empty and alive. */
    constructor ()
      ensures Valid() && alive && items == []
    {
      items := [];
      alive := true;
    }

    /** The pool is destroyed: weak references to it stop resolving and the
      * resting list is freed. Its handles are unattached, so freeing them
      * pushes nothing anywhere. */
    method Destroy()
      requires Valid() && alive
      modifies this
      ensures Valid() && !alive && items == []
    {
      alive := false;
      items := [];
    }

    /** `push`: a valid instance is appended under a fresh, unattached handle;
      * an invalid one is dropped and the list is left as it was. */
    method Push(x: Instance, isValid: Instance -> bool)
      requires Valid()
      modifies this`items
      ensures Valid()
      ensures isValid(x) ==>
        |items| == |old(items)| + 1 && items[..|old(items)|] == old(items) &&
        fresh(items[|old(items)|]) && items[|old(items)|].item == x &&
        items[|old(items)|].binding.None?
      ensures !isValid(x) ==> items == old(items)
      ensures Instances() == old(Instances()) + (if isValid(x) then [x] else [])
    {
      if isValid(x) {
        var sp := new Handle(x, None);
        items := items + [sp];
        assert InstancesOf(items) == InstancesOf(old(items)) + [x];
      }
    }

    /** `pull`: pop the most recently returned handle, or return nothing
      * (an empty pointer) when the list is empty. */
    method Pull() returns (sp: Handle?)
      requires Valid()
      modifies this`items
      ensures Valid()
      ensures old(items) == [] ==> sp == null && items == old(items)
      ensures old(items) != [] ==>
        sp == old(items)[|old(items)| - 1] && items == old(items)[..|old(items)| - 1] &&
        sp !in items && sp.binding.None?
    {
      sp := null;
      if items != [] {
        sp := items[|items| - 1];
        items := items[..|items| - 1];
      }
    }

    /** `attach`: point the handle's deleter at pool p. */
    static method Attach(sp: Handle, p: Pool)
      modifies sp
      ensures sp.binding == Some(p)
    {
      sp.binding := Some(p);
    }

    /** `detach`: reset the handle's deleter, so its release frees the instance. */
    static method Detach(sp: Handle)
      modifies sp
      ensures sp.binding == None
    {
      sp.binding := None;
    }

    /** `create`: a new instance under a handle bound to this pool; the
      * resting list is neither read nor changed. */
    method Create() returns (sp: Handle)
      requires alive
      ensures fresh(sp) && fresh(sp.item) && sp.binding == Some(this)
      ensures sp.item !in Instances()
    {
      var x := new Instance();
      sp := new Handle(x, Some(this));
    }

    /**
     * `get`: pop candidates from the tail, discarding invalid ones, and return
     * the first valid one, attached to this pool; when the list runs out,
     * `create` a new instance. The result is the instance at
     * LastValid(old list), and the list is cut back to just before it.
     */
    method Get(isValid: Instance -> bool) returns (sp: Handle)
      requires Valid() && alive
      modifies this`items, items
      ensures Valid()
      ensures sp.binding == Some(this) && sp !in items
      ensures match LastValid(old(items), Keeps(isValid))
        case Some(k) => sp == old(items)[k] && items == old(items)[..k]
        case None => fresh(sp) && fresh(sp.item) && items == []
    {
      ghost var olds := items;
      var candidate := Pull();
      while candidate != null && !isValid(candidate.item)
        invariant Valid()
        invariant items <= olds
        invariant candidate != null ==> |items| < |olds| && candidate == olds[|items|]
        invariant candidate != null ==> candidate !in items && candidate.binding.None?
        invariant candidate != null ==> forall k :: |items| < k < |olds| ==> !isValid(olds[k].item)
        invariant candidate == null ==> items == []
        invariant candidate == null ==> forall k :: 0 <= k < |olds| ==> !isValid(olds[k].item)
        decreases |items| + (if candidate != null then 1 else 0)
      {
        candidate := Pull();
      }
      if candidate == null {
        assert LastValid(olds, Keeps(isValid)) == None;
        sp := Create();
      } else {
        LastValidIs(olds, Keeps(isValid), |items|);
        Attach(candidate, this);
        sp := candidate;
      }
    }

    /**
     * `erase_invalid`: walk the list, erasing each invalid handle and keeping
     * the others in their order.
     */
    method EraseInvalid(isValid: Instance -> bool)
      requires Valid()
      modifies this`items
      ensures Valid()
      ensures items == Filter(old(items), Keeps(isValid))
      ensures Instances() == Filter(old(Instances()), isValid)
    {
      var i := 0;
      ghost var j := 0;
      while i < |items|
        invariant 0 <= i <= |items| && 0 <= j <= |old(items)|
        invariant items[..i] == Filter(old(items)[..j], Keeps(isValid))
        invariant items[i..] == old(items)[j..]
        decreases |items| - i
      {
        FilterAppend(old(items)[..j], [old(items)[j]], Keeps(isValid));
        assert old(items)[..j + 1] == old(items)[..j] + [old(items)[j]];
        if !isValid(items[i].item) {
          items := items[..i] + items[i + 1..];
        } else {
          i := i + 1;
        }
        j := j + 1;
      }
      assert items == items[..i];
      assert old(items)[..j] == old(items);
      forall k | 0 <= k < |items| ensures items[k].binding.None? {
        FilterMembership(old(items), Keeps(isValid), items[k]);
      }
      FilterDistinct(old(items), Keeps(isValid));
      InstancesOfFilter(old(items), isValid);
    }
  }
}
