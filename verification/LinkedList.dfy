/** The doubly linked list with a cursor that the scheduler keeps its processes in.

    `nodes` is the list as a sequence; `Contents` and `Cursor` are what its users see. The cursor is
    lost when the first node is removed while the cursor stands on it.
 */
module LinkedList {
  import opened Wrappers

  class Node<T> {
    var inner: T
    var next: Node?<T>
    var prev: Node?<T>

    constructor (value: T)
      ensures inner == value && next == null && prev == null
    {
      inner, next, prev := value, null, null;
    }
  }

  function Without<T>(s: seq<T>, i: nat): seq<T>
    requires i < |s|
  {
    s[..i] + s[i + 1..]
  }

  /** Where the cursor stands after node `i` was removed. */
  function CursorWithout(cursor: Option<nat>, i: nat): Option<nat> {
    match cursor
    case None => None
    case Some(c) => if c < i then Some(c) else if c > 0 then Some(c - 1) else None
  }

  ghost function Inners<T>(ns: seq<Node<T>>): (s: seq<T>)
    reads ns
    ensures |s| == |ns| && forall i :: 0 <= i < |s| ==> s[i] == ns[i].inner
  {
    seq(|ns|, i requires 0 <= i < |ns| reads ns => ns[i].inner)
  }

  lemma InnersWithout<T>(ns: seq<Node<T>>, i: nat)
    requires i < |ns|
    ensures Inners(Without(ns, i)) == Without(Inners(ns), i)
  {
    hide Inners;
  }

  /** `ns` are distinct nodes, each linked to the one before and the one behind it. */
  ghost predicate Linked<T>(ns: seq<Node<T>>)
    reads ns
  {
    (forall i, j :: 0 <= i < j < |ns| ==> ns[i] != ns[j]) &&
    (forall i {:trigger ns[i].next} :: 0 <= i < |ns| ==> ns[i].next == if i + 1 < |ns| then ns[i + 1] else null) &&
    (forall i {:trigger ns[i].prev} :: 0 <= i < |ns| ==> ns[i].prev == if i > 0 then ns[i - 1] else null)
  }

  class List<T> {
    var head: Node?<T>
    var tail: Node?<T>
    var current: Node?<T>
    var len: nat
    ghost var nodes: seq<Node<T>>

    /** Forward and backward links are each other's inverse, and `len` is exact. */
    ghost predicate Valid()
      reads this, nodes
    {
      len == |nodes| && Linked(nodes) &&
      head == (if nodes == [] then null else nodes[0]) &&
      tail == (if nodes == [] then null else nodes[|nodes| - 1]) &&
      (current != null ==> current in nodes)
    }

    ghost function Contents(): (s: seq<T>)
      reads this, nodes
      ensures |s| == |nodes| && forall i :: 0 <= i < |s| ==> s[i] == nodes[i].inner
    {
      Inners(nodes)
    }

    ghost function IndexOf(n: Node<T>): (i: nat)
      requires n in nodes
      reads this
      ensures i < |nodes| && nodes[i] == n
    {
      var i :| 0 <= i < |nodes| && nodes[i] == n; i
    }

    ghost function Cursor(): (c: Option<nat>)
      requires Valid()
      reads this, nodes
      ensures c.Some? ==> c.value < |nodes| && current == nodes[c.value]
      ensures c.None? <==> current == null
    {
      if current == null then None else Some(IndexOf(current))
    }

    constructor ()
      ensures Valid() && nodes == [] && Contents() == [] && Cursor() == None
    {
      head, tail, current, len, nodes := null, null, null, 0, [];
    }

    method Push(value: T)
      requires Valid()
      modifies this, nodes
      ensures Valid() && fresh(set n | n in nodes && n !in old(nodes)) && old(nodes) <= nodes
      ensures Contents() == old(Contents()) + [value]
      ensures Cursor() == if old(nodes) == [] then Some(0) else old(Cursor())
    {
      var node := new Node(value);
      PushNode(node);
    }

    method PushNode(node: Node<T>)
      requires Valid() && node !in nodes && node.next == null && node.prev == null
      modifies this, nodes, node
      ensures Valid() && nodes == old(nodes) + [node]
      ensures Contents() == old(Contents()) + [old(node.inner)]
      ensures Cursor() == if old(nodes) == [] then Some(0) else old(Cursor())
    {
      if tail != null {
        tail.next := node;
        node.prev := tail;
        tail := node;
      } else {
        head, tail, current := node, node, node;
      }
      len := len + 1;
      nodes := nodes + [node];
    }

    /** Unlinks node `i`; a cursor that stands on it steps back, and is lost at the front. */
    method RemoveNode(node: Node<T>, ghost i: nat) returns (value: T)
      requires Valid() && i < |nodes| && nodes[i] == node
      modifies this, nodes
      ensures Valid() && nodes == Without(old(nodes), i)
      ensures value == old(Contents())[i] && Contents() == Without(old(Contents()), i)
      ensures Cursor() == CursorWithout(old(Cursor()), i)
    {
      hide Linked, Inners, Without;
      ghost var ns, c := nodes, Cursor();
      value := node.inner;
      var next, prev := node.next, node.prev;
      NodeLinks(ns, i);
      UniqueIndex(ns);
      ghost var inners := Inners(ns);
      Unlink(node, i);
      InnersWithout(ns, i);
      assert Inners(Without(ns, i)) == Without(inners, i);
      Forget(node, next, prev, i, c);
      assert Inners(nodes) == Without(inners, i);
    }

    /** The fields of the list after node `i` was bypassed. */
    method Forget(node: Node<T>, next: Node?<T>, prev: Node?<T>, ghost i: nat, ghost c: Option<nat>)
      requires i < |nodes| && nodes[i] == node && len == |nodes| && Linked(Without(nodes, i))
      requires head == nodes[0] && tail == nodes[|nodes| - 1]
      requires next == (if i + 1 < |nodes| then nodes[i + 1] else null) && prev == if i > 0 then nodes[i - 1] else null
      requires forall i, j :: 0 <= i < j < |nodes| ==> nodes[i] != nodes[j]
      requires match c case None => current == null case Some(k) => k < |nodes| && current == nodes[k]
      modifies this
      ensures Valid() && nodes == Without(old(nodes), i) && Cursor() == CursorWithout(c, i)
    {
      hide Linked, Without, CursorWithout;
      EndsWithout(nodes, i, next, prev);
      CursorWithoutNode(nodes, i, c, current, prev);
      head, tail, current, len, nodes :=
        if head == node then next else head,
        if tail == node then prev else tail,
        if current == node then prev else current,
        len - 1,
        Without(nodes, i);
      CursorIs(CursorWithout(c, i));
    }

    lemma CursorIs(c: Option<nat>)
      requires Valid()
      requires match c case None => current == null case Some(k) => k < |nodes| && current == nodes[k]
      ensures Cursor() == c
    {}

    /** Bypasses node `i`. */
    method Unlink(node: Node<T>, ghost i: nat)
      requires Linked(nodes) && i < |nodes| && nodes[i] == node
      modifies nodes
      ensures Linked(Without(nodes, i))
      ensures Inners(nodes) == old(Inners(nodes))
    {
      if node.next != null { node.next.prev := node.prev; }
      if node.prev != null { node.prev.next := node.next; }
      ghost var ns := Without(nodes, i);
      assert forall j :: 0 <= j < |ns| ==> ns[j] == nodes[if j < i then j else j + 1];
      forall j | 0 <= j < |ns|
        ensures ns[j].next == (if j + 1 < |ns| then ns[j + 1] else null) &&
            ns[j].prev == if j > 0 then ns[j - 1] else null
      {
        ghost var k := if j < i then j else j + 1;
        assert ns[j] == nodes[k];
        assert k != i - 1 ==> nodes[k].next == old(nodes[k].next);
        assert k != i + 1 ==> nodes[k].prev == old(nodes[k].prev);
      }
    }

    /** Removes the first element that satisfies `condition`. */
    method RemoveWhere(condition: T -> bool) returns (r: Option<T>)
      requires Valid()
      modifies this, nodes
      ensures Valid()
      ensures match FirstWhere(old(Contents()), condition, 0)
        case None => r == None && Contents() == old(Contents()) && Cursor() == old(Cursor()) && nodes == old(nodes)
        case Some(i) => r == Some(old(Contents())[i]) && Contents() == Without(old(Contents()), i) &&
                        Cursor() == CursorWithout(old(Cursor()), i) && nodes == Without(old(nodes), i)
    {
      var at := head;
      ghost var i := 0;
      while at != null
        invariant i <= |nodes| && at == if i < |nodes| then nodes[i] else null
        invariant FirstWhere(Contents(), condition, i) == FirstWhere(Contents(), condition, 0)
        decreases |nodes| - i
      {
        if condition(at.inner) {
          var value := RemoveNode(at, i);
          return Some(value);
        }
        at := at.next;
        i := i + 1;
      }
      return None;
    }

    /** Moves the cursor on, from the last element to the first, and returns the element it left. */
    method NextWrap() returns (r: Option<T>)
      requires Valid()
      modifies this`current
      ensures Valid() && nodes == old(nodes) && Contents() == old(Contents())
      ensures match old(Cursor())
        case None => r == None && Cursor() == None
        case Some(c) => r == Some(Contents()[c]) && Cursor() == Some(if c + 1 < |nodes| then c + 1 else 0)
    {
      if current == null { return None; }
      r := Some(current.inner);
      if current.next != null { current := current.next; } else { current := head; }
    }

    /** `next` of the continuing iterator: moves the cursor on and returns the element it reaches. */
    method ContinueNext() returns (r: Option<T>)
      requires Valid()
      modifies this`current
      ensures Valid() && nodes == old(nodes) && Contents() == old(Contents())
      ensures match old(Cursor())
        case None => r == None && Cursor() == None
        case Some(c) =>
          var n := if c + 1 < |nodes| then c + 1 else 0;
          Cursor() == Some(n) && r == Some(Contents()[n])
    {
      var _ := NextWrap();
      if current == null { return None; }
      return Some(current.inner);
    }

    /** `next` of the clone iterators, which stand on `at` and leave the cursor of the list alone. */
    method CloneNext(at: Node?<T>, ghost i: nat) returns (item: Option<T>, next: Node?<T>)
      requires Valid() && i <= |nodes| && at == if i < |nodes| then nodes[i] else null
      ensures item == if i < |nodes| then Some(Contents()[i]) else None
      ensures next == if i + 1 < |nodes| then nodes[i + 1] else null
    {
      if at == null { return None, null; }
      return Some(at.inner), at.next;
    }

    /** What a clone iterator yields from the head on until it ends: every element, once, in order. */
    method CloneIter() returns (items: seq<T>)
      requires Valid()
      ensures items == Contents()
    {
      items := [];
      var at := head;
      var item: Option<T>;
      for i := 0 to len
        invariant at == if i < |nodes| then nodes[i] else null
        invariant items == Contents()[..i]
      {
        item, at := CloneNext(at, i);
        items := items + [item.value];
      }
    }

    method SetInner(node: Node<T>, ghost i: nat, value: T)
      requires Valid() && i < |nodes| && nodes[i] == node
      modifies node`inner
      ensures Valid() && Contents() == old(Contents())[i := value] && Cursor() == old(Cursor())
    {
      node.inner := value;
    }
  }

  /** The ends of the list and the cursor after node `i` was taken out. */
  lemma EndsWithout<T>(ns: seq<Node<T>>, i: nat, next: Node?<T>, prev: Node?<T>)
    requires forall i, j :: 0 <= i < j < |ns| ==> ns[i] != ns[j]
    requires i < |ns|
    requires next == (if i + 1 < |ns| then ns[i + 1] else null) && prev == if i > 0 then ns[i - 1] else null
    ensures var ns' := Without(ns, i);
      |ns'| == |ns| - 1 &&
      (if ns[0] == ns[i] then next else ns[0]) == (if ns' == [] then null else ns'[0]) &&
      (if ns[|ns| - 1] == ns[i] then prev else ns[|ns| - 1]) == (if ns' == [] then null else ns'[|ns'| - 1])
  {}

  lemma CursorWithoutNode<T>(ns: seq<Node<T>>, i: nat, c: Option<nat>, current: Node?<T>, prev: Node?<T>)
    requires forall i, j :: 0 <= i < j < |ns| ==> ns[i] != ns[j]
    requires i < |ns| && prev == if i > 0 then ns[i - 1] else null
    requires match c case None => current == null case Some(k) => k < |ns| && current == ns[k]
    ensures var ns', k := Without(ns, i), if current == ns[i] then prev else current;
      (k != null ==> k in ns') &&
      match CursorWithout(c, i) case None => k == null case Some(j) => j < |ns'| && k == ns'[j]
  {
    var ns' := Without(ns, i);
    assert forall j :: 0 <= j < |ns'| ==> ns'[j] == ns[if j < i then j else j + 1];
  }

  lemma NodeLinks<T>(ns: seq<Node<T>>, i: nat)
    requires Linked(ns) && i < |ns|
    ensures ns[i].next == (if i + 1 < |ns| then ns[i + 1] else null)
    ensures ns[i].prev == if i > 0 then ns[i - 1] else null
  {}

  lemma UniqueIndex<T>(ns: seq<Node<T>>)
    requires Linked(ns)
    ensures forall i, j :: 0 <= i < j < |ns| ==> ns[i] != ns[j]
  {}

  /** The first index from `k` on whose element satisfies `condition`. */
  function FirstWhere<T>(s: seq<T>, condition: T -> bool, k: nat): (r: Option<nat>)
    requires k <= |s|
    ensures r.Some? ==> k <= r.value < |s| && condition(s[r.value]) && forall j :: k <= j < r.value ==> !condition(s[j])
    ensures r.None? ==> forall j :: k <= j < |s| ==> !condition(s[j])
    decreases |s| - k
  {
    if k == |s| then None else if condition(s[k]) then Some(k) else FirstWhere(s, condition, k + 1)
  }
}
