/**
 Back-references: a reference to an object also sits in the object's list, once, for as long as
 it points there.
 */
module Dependencies {
  import opened Options

  // ---- lists of references as values

  predicate Distinct<R(==)>(list: seq<R>) {
    forall i, j | 0 <= i < j < |list| :: list[i] != list[j]
  }

  /** The list without a node (`erase` of the node's own position). */
  function Without<R(==)>(list: seq<R>, r: R): seq<R> {
    if list == [] then [] else if list[0] == r then list[1..] else [list[0]] + Without(list[1..], r)
  }

  lemma {:induction false} WithoutMembers<R>(list: seq<R>, r: R, x: R)
    requires Distinct(list)
    ensures x in Without(list, r) <==> x in list && x != r
  {
    if list != [] {
      assert x in list <==> x == list[0] || x in list[1..];
      WithoutMembers(list[1..], r, x);
    }
  }

  lemma {:induction false} WithoutNode<R>(list: seq<R>, r: R)
    requires Distinct(list)
    ensures Distinct(Without(list, r))
    ensures r !in list ==> Without(list, r) == list
    ensures |Without(list, r)| == if r in list then |list| - 1 else |list|
  {
    if list != [] {
      var rest := Without(list[1..], r);
      WithoutNode(list[1..], r);
      assert list == [list[0]] + list[1..];
      forall i | 0 <= i < |rest| ensures rest[i] != list[0] { WithoutMembers(list[1..], r, rest[i]); }
    }
  }

  // ---- any sequence of operations

  /** Constructing or resetting to an object; clearing, resetting to nothing or destroying; list clear. */
  datatype Op<+R, +O> = Point(r: R, o: O) | Unpoint(r: R) | Empty(o: O)

  /** What one operation does to the list of `o`. */
  function ListAfter<R(==), O(==)>(list: seq<R>, op: Op<R, O>, o: O): seq<R> {
    match op
    case Point(r, o') => if o == o' then Without(list, r) + [r] else Without(list, r)
    case Unpoint(r) => Without(list, r)
    case Empty(o') => if o == o' then [] else list
  }

  /** What one operation does to where `r` points. */
  function TargetAfter<R(==), O(==)>(target: Option<O>, op: Op<R, O>, r: R): Option<O> {
    match op
    case Point(r', o) => if r == r' then Some(o) else target
    case Unpoint(r') => if r == r' then None else target
    case Empty(o) => if target == Some(o) then None else target
  }

  /** An object's list after the operations, by what each does to it. */
  function ListOf<R(==), O(==)>(ops: seq<Op<R, O>>, o: O): seq<R> {
    if ops == [] then [] else ListAfter(ListOf(ops[..|ops| - 1], o), ops[|ops| - 1], o)
  }

  /** Where a reference points after the operations. */
  function Target<R(==), O(==)>(ops: seq<Op<R, O>>, r: R): Option<O> {
    if ops == [] then None else TargetAfter(Target(ops[..|ops| - 1], r), ops[|ops| - 1], r)
  }

  // ---- objects and references

  class Object {
    /** The nodes of the intrusive list, in order. */
    var list: seq<Ref>

    constructor ()
      ensures list == []
    {
      list := [];
    }

    method Add(node: Ref)
      modifies this
      ensures list == old(list) + [node]
    {
      list := list + [node];
    }

    /** The node must be linked in this list, as `iterator_to` assumes. */
    method Remove(node: Ref)
      requires node in list
      modifies this
      ensures list == Without(old(list), node)
      ensures Distinct(old(list)) ==> Distinct(list) && forall x: Ref :: x in list <==> x in old(list) && x != node
    {
      if Distinct(list) {
        WithoutNode(list, node);
        forall x: Ref ensures x in Without(list, node) <==> x in list && x != node { WithoutMembers(list, node, x); }
      }
      list := Without(list, node);
    }
  }

  /** A reference points to an object exactly when it is in that object's list, and then once. */
  ghost predicate Linked(refs: set<Ref>, objs: set<Object>)
    reads refs, objs
  {
    && (forall o | o in objs :: Distinct(o.list))
    && (forall o, r | o in objs && r in o.list :: r in refs)
    && (forall r | r in refs && r.ptr != null :: r.ptr in objs)
    && (forall r, o | r in refs && o in objs :: r.ptr == o <==> r in o.list)
  }

  /** Pointing to an object or nowhere. */
  ghost function PointOp(r: Ref, ptr: Object?): Op<Ref, Object> {
    if ptr == null then Unpoint(r) else Point(r, ptr)
  }

  /** From the old heap to this one every list and every reference goes as the operation says. */
  twostate predicate Stepped(refs: set<Ref>, objs: set<Object>, new op: Op<Ref, Object>)
    reads refs, objs
  {
    && (forall o | o in objs :: o.list == ListAfter(old(o.list), op, o))
    && (forall r | r in refs :: r.Points() == TargetAfter(old(r.Points()), op, r))
  }

  lemma Elsewhere(objs: set<Object>, r: Ref)
    requires forall o | o in objs :: Distinct(o.list)
    ensures forall o | o in objs && r !in o.list :: Without(o.list, r) == o.list
  {
    forall o | o in objs && r !in o.list ensures Without(o.list, r) == o.list { WithoutNode(o.list, r); }
  }

  class Ref {
    var ptr: Object?

    ghost function Points(): Option<Object>
      reads this
    {
      if ptr == null then None else Some(ptr)
    }

    /** A reference that starts out pointing to `ptr`, or nowhere. */
    constructor (ptr: Object?, ghost refs: set<Ref>, ghost objs: set<Object>)
      requires Linked(refs, objs) && (ptr != null ==> ptr in objs)
      modifies ptr
      ensures this.ptr == ptr && Linked(refs + {this}, objs)
      ensures Stepped(refs, objs, PointOp(this, ptr))
    {
      this.ptr := ptr;
      new;
      Elsewhere(objs, this);
      if ptr != null {
        assert this !in ptr.list;
        ptr.Add(this);
      }
    }

    /** Points the reference elsewhere, or nowhere; a reference that stays moves to the end. */
    method Reset(ptr: Object?, ghost refs: set<Ref>, ghost objs: set<Object>)
      requires Linked(refs, objs) && this in refs && (ptr != null ==> ptr in objs)
      modifies this, this.ptr, ptr
      ensures this.ptr == ptr && Linked(refs, objs)
      ensures Stepped(refs, objs, PointOp(this, ptr))
    {
      Clear(refs, objs);
      Link(ptr, refs, objs);
    }

    /** The second half of a reset, once the reference is in no list. */
    method Link(ptr: Object?, ghost refs: set<Ref>, ghost objs: set<Object>)
      requires Linked(refs, objs) && this in refs && this.ptr == null && (ptr != null ==> ptr in objs)
      modifies this, ptr
      ensures this.ptr == ptr && Linked(refs, objs)
      ensures forall o | o in objs :: o.list == if o == ptr then old(o.list) + [this] else old(o.list)
      ensures forall r | r in refs && r != this :: r.ptr == old(r.ptr)
    {
      this.ptr := ptr;
      if this.ptr != null { this.ptr.Add(this); }
    }

    method Clear(ghost refs: set<Ref>, ghost objs: set<Object>)
      requires Linked(refs, objs) && this in refs
      modifies this, ptr
      ensures ptr == null && Linked(refs, objs)
      ensures Stepped(refs, objs, Unpoint(this))
    {
      Elsewhere(objs, this);
      if ptr != null { ptr.Remove(this); }
      ptr := null;
    }

    /** The destructor: afterwards the reference is in no list. */
    method Destroy(ghost refs: set<Ref>, ghost objs: set<Object>)
      requires Linked(refs, objs) && this in refs
      modifies ptr
      ensures Linked(refs - {this}, objs) && forall o | o in objs :: this !in o.list
      ensures Stepped(refs - {this}, objs, Unpoint(this))
    {
      Elsewhere(objs, this);
      if ptr != null { ptr.Remove(this); }
    }
  }

  /** `DependencyList::clear`: clears the first node until none is left. */
  method ClearList(o: Object, ghost refs: set<Ref>, ghost objs: set<Object>)
    requires Linked(refs, objs) && o in objs
    modifies o, o.list
    ensures Linked(refs, objs) && o.list == []
    ensures forall r | r in old(o.list) :: r.ptr == null
    ensures Stepped(refs, objs, Empty(o))
  {
    ghost var held := o.list;
    while o.list != []
      invariant Linked(refs, objs)
      invariant forall r | r in o.list :: r in held
      invariant forall r | r in held :: r in o.list || r.ptr == null
      invariant forall r | r in refs && r !in held :: r.ptr == old(r.ptr)
      invariant forall x | x in objs && x != o :: x.list == old(x.list)
      decreases |o.list|
    {
      var node := o.list[0];
      ghost var others := objs - {o};
      WithoutNode(o.list, node);
      Elsewhere(others, node);
      node.Clear(refs, objs);
    }
  }

  /** The heap is as the operations so far say: every list, and where every reference points. */
  ghost predicate Recorded(refs: set<Ref>, objs: set<Object>, ops: seq<Op<Ref, Object>>)
    reads refs, objs
  {
    && (forall o | o in objs :: o.list == ListOf(ops, o))
    && (forall r | r in refs :: r.Points() == Target(ops, r))
  }

  /** Every step adds its operation to the record. */
  twostate lemma RecordedStep(refs: set<Ref>, objs: set<Object>, ops: seq<Op<Ref, Object>>, new op: Op<Ref, Object>)
    requires old(Recorded(refs, objs, ops)) && Stepped(refs, objs, op)
    ensures Recorded(refs, objs, ops + [op])
  {
    assert (ops + [op])[..|ops|] == ops;
  }

  /** A new reference belongs to the record that its construction is added to. */
  lemma RecordedNew(refs: set<Ref>, objs: set<Object>, ops: seq<Op<Ref, Object>>, r: Ref)
    requires Recorded(refs, objs, ops + [PointOp(r, r.ptr)])
    ensures Recorded(refs + {r}, objs, ops + [PointOp(r, r.ptr)])
  {
  }

  // ---- the order of a list

  /** The number of operations up to the last one that pointed the reference somewhere. */
  function Since<R(==), O>(ops: seq<Op<R, O>>, r: R): nat {
    if ops == [] then 0
    else if ops[|ops| - 1].Point? && ops[|ops| - 1].r == r then |ops|
    else Since(ops[..|ops| - 1], r)
  }

  lemma {:induction false} SinceBound<R, O>(ops: seq<Op<R, O>>, r: R)
    ensures Since(ops, r) <= |ops|
  {
    if ops != [] { SinceBound(ops[..|ops| - 1], r); }
  }

  /** The order of a list: earlier nodes were pointed here earlier. */
  ghost predicate InOrder<R, O>(ops: seq<Op<R, O>>, list: seq<R>) {
    forall i, j | 0 <= i < j < |list| :: Since(ops, list[i]) < Since(ops, list[j])
  }

  lemma {:induction false} WithoutOrder<R>(list: seq<R>, r: R, i: nat, j: nat) returns (i': nat, j': nat)
    requires i < j < |Without(list, r)|
    ensures i' < j' < |list| && list[i'] == Without(list, r)[i] && list[j'] == Without(list, r)[j]
  {
    if list[0] == r {
      i', j' := i + 1, j + 1;
    } else if i == 0 {
      i' := 0;
      j' := WithoutIndex(list[1..], r, j - 1);
      j' := j' + 1;
    } else {
      i', j' := WithoutOrder(list[1..], r, i - 1, j - 1);
      i', j' := i' + 1, j' + 1;
    }
  }

  lemma {:induction false} WithoutIndex<R>(list: seq<R>, r: R, j: nat) returns (j': nat)
    requires j < |Without(list, r)|
    ensures j' < |list| && list[j'] == Without(list, r)[j]
  {
    if list[0] == r {
      j' := j + 1;
    } else if j == 0 {
      j' := 0;
    } else {
      j' := WithoutIndex(list[1..], r, j - 1);
      j' := j' + 1;
    }
  }

  /**
   After any sequence of operations an object's list holds exactly the references that point to
   it, each once, in the order in which they came to point there.
   */
  lemma {:induction false} ListIsHistory<R, O>(ops: seq<Op<R, O>>, o: O, r: R)
    ensures Distinct(ListOf(ops, o)) && InOrder(ops, ListOf(ops, o))
    ensures r in ListOf(ops, o) <==> Target(ops, r) == Some(o)
    decreases |ops|
  {
    if ops != [] {
      var before, op := ops[..|ops| - 1], ops[|ops| - 1];
      var list := ListOf(before, o);
      ListIsHistory(before, o, r);
      if !op.Empty? {
        WithoutNode(list, op.r);
        WithoutMembers(list, op.r, r);
        WithoutMembers(list, op.r, op.r);
        var rest := Without(list, op.r);
        forall i, j | 0 <= i < j < |rest| ensures Since(ops, rest[i]) < Since(ops, rest[j]) {
          var i', j' := WithoutOrder(list, op.r, i, j);
          WithoutMembers(list, op.r, rest[i]); WithoutMembers(list, op.r, rest[j]);
        }
        forall i | 0 <= i < |rest| ensures Since(ops, rest[i]) < |ops| {
          WithoutMembers(list, op.r, rest[i]);
          SinceBound(before, rest[i]);
        }
      }
    }
  }
}
