/** The open resources of a process. `nextRi` is a hint where to look for a free slot; it is good as
    long as every slot below it is occupied. */
module Resources {
  import opened Wrappers

  datatype Resource = Null | File(descriptor: nat) | DirIter(position: nat)

  datatype Manager = Manager(resources: seq<Resource>, nextRi: nat)

  /** Every slot below the hint is occupied. */
  predicate Inv(m: Manager) {
    m.nextRi <= |m.resources| && forall i :: 0 <= i < m.nextRi ==> m.resources[i] != Null
  }

  /** The first free slot from `from` on; the place behind the last when all are taken. */
  function Scan(resources: seq<Resource>, from: nat): (k: nat)
    requires from <= |resources|
    ensures from <= k <= |resources| && (k < |resources| ==> resources[k] == Null)
    ensures forall i :: from <= i < k ==> resources[i] != Null
    decreases |resources| - from
  {
    if from == |resources| || resources[from] == Null then from else Scan(resources, from + 1)
  }

  /** The least free index, by a naive scan. */
  function LeastFree(resources: seq<Resource>): nat { Scan(resources, 0) }

  function Placed(resources: seq<Resource>, k: nat, r: Resource): seq<Resource>
    requires k <= |resources|
  {
    if k == |resources| then resources + [r] else resources[k := r]
  }

  /** `add_resource`: the manager afterwards and the index; nothing when the slice panics. */
  function Add(m: Manager, r: Resource): Option<(Manager, nat)> {
    if m.nextRi > |m.resources| then None
    else
      var k := Scan(m.resources, m.nextRi);
      Some((Manager(Placed(m.resources, k, r), k), k))
  }

  function Remove(m: Manager, ri: nat): Result<Manager, ()> {
    if ri >= |m.resources| then Err(())
    else Ok(Manager(m.resources[ri := Null], if ri < m.nextRi then ri else m.nextRi))
  }

  /** `clean` closes files and leaves their slots taken; other slots become free. */
  function Clean(m: Manager): Manager {
    var n := |m.resources|;
    Manager(seq(n, i requires 0 <= i < n => if m.resources[i].File? then m.resources[i] else Null), 0)
  }

  function Overwrite(m: Manager, resources: seq<Resource>): Manager { m.(resources := resources) }

  function New(): Manager { Manager([], 0) }

  /** The hint finds the least free slot exactly when the slots below it are occupied. */
  lemma AddLeastIff(m: Manager, r: Resource)
    ensures Add(m, r).Some? && Add(m, r).value.1 == LeastFree(m.resources) <==> Inv(m)
  {
    if m.nextRi <= |m.resources| {
      var k, least := Scan(m.resources, m.nextRi), LeastFree(m.resources);
      if Inv(m) {
        assert least >= m.nextRi;
        assert !(least < k) && !(k < least);
      } else {
        var i :| 0 <= i < m.nextRi && m.resources[i] == Null;
        assert least <= i;
      }
    }
  }

  /** Adding takes the least free slot and no other, and the hint stays good. */
  lemma AddRefines(m: Manager, r: Resource)
    requires Inv(m)
    ensures Add(m, r).Some?
    ensures var (m', k) := Add(m, r).value;
      k == LeastFree(m.resources) && m'.resources == Placed(m.resources, k, r) && m'.nextRi == k && Inv(m')
  {
    AddLeastIff(m, r);
  }

  // ----- the open resources as a map -----

  /** The open resources by index. */
  function Opened(m: Manager): map<nat, Resource> {
    map i: nat | i < |m.resources| && m.resources[i] != Null :: m.resources[i]
  }

  /** The least index that is not in the map. */
  predicate LeastOutside(k: nat, held: map<nat, Resource>) {
    k !in held && forall i: nat :: i < k ==> i in held
  }

  /** A resource that is added is opened at the least index that was not open, and nothing else changes. */
  lemma AddOpens(m: Manager, r: Resource)
    requires Inv(m) && r != Null
    ensures Add(m, r).Some?
    ensures var (m', k) := Add(m, r).value; LeastOutside(k, Opened(m)) && Opened(m') == Opened(m)[k := r]
  {
    AddRefines(m, r);
  }

  /** Removing closes exactly the resource of that index; only an index behind the table is an error. */
  lemma RemoveCloses(m: Manager, ri: nat)
    ensures Remove(m, ri).Ok? <==> ri < |m.resources|
    ensures Remove(m, ri).Ok? ==> Opened(Remove(m, ri).value) == Opened(m) - {ri}
    ensures ri in Opened(m) ==> Remove(m, ri).Ok?
  {}

  /** After a removal the next resource goes to the index that was removed or to a lesser one that was
      free. */
  lemma RemovedIsTaken(m: Manager, ri: nat, r: Resource)
    requires Inv(m) && ri < |m.resources|
    ensures var m' := Remove(m, ri).value;
      Add(m', r).Some? &&
      Add(m', r).value.1 == if ri < LeastFree(m.resources) then ri else LeastFree(m.resources)
  {
    var m' := Remove(m, ri).value;
    StepInv(m, OpRemove(ri));
    AddRefines(m', r);
    var k, least := LeastFree(m'.resources), LeastFree(m.resources);
    assert m'.resources[ri] == Null;
    assert forall i :: 0 <= i < |m.resources| && i != ri ==> m'.resources[i] == m.resources[i];
  }

  /** Cleaning leaves the files open, at their indices, and closes everything else. */
  lemma CleanCloses(m: Manager)
    ensures Inv(Clean(m))
    ensures Opened(Clean(m)) == map i: nat | i in Opened(m) && Opened(m)[i].File? :: Opened(m)[i]
  {}

  /** A manager that was given other resources takes their least free slot exactly when its hint is not
      behind that slot, and panics exactly when the hint is behind all of them. A fresh one never
      fails. */
  lemma OverwriteAddsLeastIff(m: Manager, resources: seq<Resource>, r: Resource)
    ensures var added := Add(Overwrite(m, resources), r);
      (added.Some? && added.value.1 == LeastFree(resources) <==> m.nextRi <= LeastFree(resources)) &&
      (added.None? <==> m.nextRi > |resources|)
    ensures Inv(Overwrite(m, resources)) <==> m.nextRi <= LeastFree(resources)
  {
    AddLeastIff(Overwrite(m, resources), r);
    var least := LeastFree(resources);
    if least < m.nextRi <= |resources| { assert resources[least] == Null; }
  }

  /** A manager in use that is overwritten by fewer resources panics, or skips a free slot. */
  lemma OverwriteExample()
    ensures var m := Add(Add(New(), File(0)).value.0, File(1)).value.0;
      Inv(m) && Add(Overwrite(m, []), File(2)) == None &&
      Add(Overwrite(m, [Null, File(3)]), File(2)).value.1 == 2
  {
    var m1 := Add(New(), File(0)).value.0;
    assert m1 == Manager([File(0)], 0);
    var m2 := Add(m1, File(1)).value.0;
    assert m2 == Manager([File(0), File(1)], 1);
  }

  // ----- runs -----

  datatype Op = OpAdd(r: Resource) | OpRemove(ri: nat) | OpClean

  function Apply(m: Manager, op: Op): Manager {
    match op
    case OpAdd(r) => (match Add(m, r) case Some((m', _)) => m' case None => m)
    case OpRemove(ri) => (match Remove(m, ri) case Ok(m') => m' case Err(_) => m)
    case OpClean => Clean(m)
  }

  lemma StepInv(m: Manager, op: Op)
    requires Inv(m)
    ensures Inv(Apply(m, op))
  {
    if op.OpAdd? { AddRefines(m, op.r); }
  }

  function Run(m: Manager, ops: seq<Op>): Manager
    decreases |ops|
  {
    if ops == [] then m else Run(Apply(m, ops[0]), ops[1..])
  }

  /** Over any run from a fresh manager that was given any resources, adding takes the least free slot
      and leaves every other slot as it was. */
  lemma {:induction false} RunAddsLeast(m: Manager, ops: seq<Op>, r: Resource)
    requires Inv(m)
    ensures Inv(Run(m, ops)) && Add(Run(m, ops), r).Some?
    ensures var now := Run(m, ops).resources; var (next, k) := Add(Run(m, ops), r).value;
      k == LeastFree(now) && next.resources == Placed(now, k, r)
    decreases |ops|
  {
    if ops == [] {
      AddRefines(m, r);
    } else {
      StepInv(m, ops[0]);
      RunAddsLeast(Apply(m, ops[0]), ops[1..], r);
    }
  }

  /** The operation closes the resource at this index. */
  predicate Closes(op: Op, i: nat, r: Resource) { op == OpRemove(i) || (op.OpClean? && !r.File?) }

  /** A resource stays open at its index until it is removed or, unless it is a file, until the manager is
      cleaned. */
  lemma {:induction false} RunHolds(m: Manager, ops: seq<Op>, i: nat)
    requires Inv(m) && i in Opened(m) && forall k :: 0 <= k < |ops| ==> !Closes(ops[k], i, Opened(m)[i])
    ensures i in Opened(Run(m, ops)) && Opened(Run(m, ops))[i] == Opened(m)[i]
    decreases |ops|
  {
    if ops != [] {
      StepInv(m, ops[0]);
      StepHolds(m, ops[0], i);
      RunHolds(Apply(m, ops[0]), ops[1..], i);
    }
  }

  lemma StepHolds(m: Manager, op: Op, i: nat)
    requires Inv(m) && i in Opened(m)
    ensures i in Opened(Apply(m, op)) <==> !Closes(op, i, Opened(m)[i])
    ensures !Closes(op, i, Opened(m)[i]) ==> Opened(Apply(m, op))[i] == Opened(m)[i]
  {
    if op.OpAdd? { AddRefines(m, op.r); }
  }

  /** The manager that `spawn` gives a child: a fresh one with the parent's resources. */
  lemma {:induction false} ClonedRunAddsLeast(parent: Manager, ops: seq<Op>, r: Resource)
    ensures var m := Run(Overwrite(New(), parent.resources), ops);
      Inv(m) && Add(m, r).Some? && Add(m, r).value.1 == LeastFree(m.resources)
  {
    RunAddsLeast(Overwrite(New(), parent.resources), ops, r);
  }

  // ----- the object -----

  class ResourceManager {
    var resources: seq<Resource>
    var nextRi: nat

    function Value(): Manager
      reads this
    {
      Manager(resources, nextRi)
    }

    constructor ()
      ensures Value() == New()
    {
      resources, nextRi := [], 0;
    }

    method AddResource(resource: Resource) returns (ri: nat)
      requires Inv(Value())
      modifies this
      ensures Some((Value(), ri)) == Add(old(Value()), resource)
      ensures ri == LeastFree(old(resources)) && resources == Placed(old(resources), ri, resource) && Inv(Value())
    {
      AddRefines(Value(), resource);
      ri := nextRi;
      while ri < |resources|
        invariant nextRi <= ri <= |resources| && Scan(resources, ri) == Scan(resources, nextRi)
        invariant resources == old(resources) && nextRi == old(nextRi)
      {
        if resources[ri] == Null {
          nextRi := ri;
          resources := resources[ri := resource];
          return;
        }
        ri := ri + 1;
      }
      resources := resources + [resource];
      ri := |resources| - 1;
      nextRi := ri;
    }

    method RemoveResource(ri: nat) returns (r: Result<(), ()>)
      requires Inv(Value())
      modifies this
      ensures match Remove(old(Value()), ri)
        case Ok(m) => r == Ok(()) && Value() == m
        case Err(_) => r == Err(()) && Value() == old(Value())
      ensures Inv(Value())
    {
      if ri >= |resources| { return Err(()); }
      resources := resources[ri := Null];
      if ri < nextRi { nextRi := ri; }
      return Ok(());
    }

    /** Returns the hint from before. */
    method CleanUp() returns (prev: nat)
      modifies this
      ensures Value() == Clean(old(Value())) && prev == old(nextRi) && Inv(Value())
    {
      for i := 0 to |resources|
        invariant |resources| == |old(resources)| && nextRi == old(nextRi)
        invariant forall k :: 0 <= k < i ==> resources[k] == if old(resources)[k].File? then old(resources)[k] else Null
        invariant forall k :: i <= k < |resources| ==> resources[k] == old(resources)[k]
      {
        if !resources[i].File? { resources := resources[i := Null]; }
      }
      prev := nextRi;
      nextRi := 0;
    }

    method OverwriteResources(resources: seq<Resource>)
      modifies this
      ensures Value() == Overwrite(old(Value()), resources)
      ensures Inv(Value()) <==> old(nextRi) <= LeastFree(resources)
    {
      OverwriteAddsLeastIff(Value(), resources, Null);
      this.resources := resources;
    }
  }
}
