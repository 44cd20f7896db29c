/** The doubly linked list of `lru.c`, node by node, over a heap that knows which nodes are freed. */
module LruList {
  import opened Lists
  import opened Lru

  class Node {
    var pre: Node?
    var nxt: Node?
    const index: nat

    constructor (index: nat, nxt: Node?)
      ensures this.index == index && this.nxt == nxt && pre == null
    {
      this.index := index;
      this.nxt := nxt;
      pre := null;
    }
  }

  /** The frames of the nodes from position `i` on. */
  ghost function OrderFrom(nodes: seq<Node>, i: nat): List
    requires i <= |nodes|
    decreases |nodes| - i
  {
    if i == |nodes| then Nil else Cons(nodes[i].index, OrderFrom(nodes, i + 1))
  }

  lemma {:induction false} OrderOfSuffix(a: seq<Node>, i: nat, b: seq<Node>, j: nat)
    requires i <= |a| && j <= |b| && a[i..] == b[j..]
    ensures OrderFrom(a, i) == OrderFrom(b, j)
    decreases |a| - i
  {
    assert |a[i..]| == |b[j..]|;
    if i < |a| {
      assert a[i] == a[i..][0] == b[j..][0] == b[j];
      assert a[i + 1..] == a[i..][1..] == b[j..][1..] == b[j + 1..];
      OrderOfSuffix(a, i + 1, b, j + 1);
    }
  }

  ghost function Unlinked(nodes: seq<Node>, k: nat): seq<Node>
    requires k < |nodes|
  {
    nodes[..k] + nodes[k + 1..]
  }

  lemma {:induction false} OrderUnlinked(nodes: seq<Node>, k: nat, i: nat)
    requires i <= k < |nodes| && forall j | i <= j < k :: nodes[j].index != nodes[k].index
    ensures OrderFrom(Unlinked(nodes, k), i) == Without(OrderFrom(nodes, i), nodes[k].index)
    decreases k - i
  {
    if i < k {
      OrderUnlinked(nodes, k, i + 1);
    } else {
      OrderOfSuffix(Unlinked(nodes, k), k, nodes, k + 1);
    }
  }

  lemma {:induction false} OrderHas(nodes: seq<Node>, i: nat, f: nat)
    requires i <= |nodes|
    ensures Has(OrderFrom(nodes, i), f) <==> exists j | i <= j < |nodes| :: nodes[j].index == f
    decreases |nodes| - i
  {
    if i < |nodes| { OrderHas(nodes, i + 1, f); }
  }

  lemma {:induction false} OrderLast(nodes: seq<Node>, i: nat)
    requires i < |nodes| && NoDuplicates(OrderFrom(nodes, i))
    ensures Last(OrderFrom(nodes, i)) == nodes[|nodes| - 1].index
    ensures forall j | i <= j < |nodes| - 1 :: nodes[j].index != nodes[|nodes| - 1].index
    decreases |nodes| - i
  {
    if i < |nodes| - 1 {
      OrderLast(nodes, i + 1);
      OrderHas(nodes, i + 1, nodes[i].index);
    }
  }

  /** `coremap->head` and the nodes behind it. */
  class FrameList {
    var head: Node?
    var live: set<Node>      // handed out by malloc and not yet freed
    var crashed: bool        // a freed node has been dereferenced
    ghost var nodes: seq<Node>

    /** The links among `nodes` are consistent, and all of them are live. */
    ghost predicate Linked()
      reads this, nodes
    {
      (forall i, j | 0 <= i < j < |nodes| :: nodes[i] != nodes[j])
      && (forall i | 0 <= i < |nodes| :: nodes[i] in live)
      && (forall i {:trigger nodes[i].pre} | 0 <= i < |nodes| :: nodes[i].pre == if i == 0 then null else nodes[i - 1])
      && (forall i {:trigger nodes[i].nxt} | 0 <= i < |nodes| ::
            nodes[i].nxt == if i == |nodes| - 1 then null else nodes[i + 1])
    }

    ghost predicate Represents(l: CodeList)
      reads this, nodes
    {
      match l
      case Sound(order) =>
        !crashed && Linked() && OrderFrom(nodes, 0) == order && NoDuplicates(order)
        && head == if nodes == [] then null else nodes[0]
      case Dangling => !crashed && nodes == [] && head != null && head !in live
      case Crashed => crashed
    }

    constructor ()
      ensures Represents(Sound(Nil)) && nodes == []
    {
      head, live, crashed, nodes := null, {}, false, [];
    }

    method Evict(ghost l: CodeList) returns (evict: nat)
      requires Represents(l) && l != Sound(Nil) && !l.Crashed?
      modifies this, nodes
      ensures Represents(EvictCode(l)) && live <= old(live) && forall i | 0 <= i < |nodes| :: nodes[i] in old(nodes)
      ensures l.Sound? ==> evict == Last(l.order)
    {
      evict := 0;
      var last := head;
      if last !in live {
        crashed := true;
        return;
      }
      ghost var i := 0;
      while last.nxt != null
        invariant 0 <= i < |nodes| && last == nodes[i]
        decreases |nodes| - i
      {
        last := last.nxt;
        i := i + 1;
      }
      evict := last.index;
      OrderLast(nodes, 0);
      OrderUnlinked(nodes, i, 0);
      WithoutKeeps(l.order, evict, evict);
      var secondLast := last.pre;
      live := live - {last};
      if secondLast != null {
        secondLast.nxt := null;
      }
      assert Unlinked(nodes, i) == nodes[..i];
      nodes := nodes[..i];
    }

    /** The three statements of `lru_ref` that take a node out and free it. */
    method Unlink(cur: Node, ghost k: nat)
      requires Linked() && k < |nodes| && nodes[k] == cur
      modifies this`live, this`nodes, nodes
      ensures Linked() && nodes == Unlinked(old(nodes), k) && live == old(live) - {cur}
    {
      ghost var was := nodes;
      if cur.pre != null {
        cur.pre.nxt := cur.nxt;
      }
      if cur.nxt != null {
        cur.nxt.pre := cur.pre;
      }
      live := live - {cur};
      nodes := Unlinked(nodes, k);
      assert k > 0 ==> was[k - 1].nxt == if k + 1 < |was| then was[k + 1] else null;
      assert k + 1 < |was| ==> was[k + 1].pre == if k > 0 then was[k - 1] else null;
      forall i | 0 <= i < |nodes|
        ensures nodes[i].pre == if i == 0 then null else nodes[i - 1]
        ensures nodes[i].nxt == if i == |nodes| - 1 then null else nodes[i + 1]
      {
        var o := if i < k then i else i + 1;
        assert nodes[i] == was[o];
        assert o != k - 1 ==> was[o].nxt == if o == |was| - 1 then null else was[o + 1];
        assert o != k + 1 ==> was[o].pre == if o == 0 then null else was[o - 1];
      }
    }

    /** The statements of `lru_ref` that put a new node in front of `head`. */
    method Push(frame: nat)
      requires Linked() && !crashed
      requires head == null || head !in live || (nodes != [] && head == nodes[0])
      requires head == null ==> nodes == []
      modifies this, nodes
      ensures crashed <==> old(head) != null && old(head) !in old(live)
      ensures forall i | 0 <= i < |nodes| :: nodes[i] in old(nodes) || fresh(nodes[i])
      ensures !crashed ==>
                Linked() && |nodes| > 0 && head == nodes[0] && nodes[1..] == old(nodes) && nodes[0].index == frame
    {
      var n := new Node(frame, head);
      live := live + {n};
      if head != null {
        if head !in live {
          crashed := true;
          return;
        }
        head.pre := n;
      }
      head := n;
      nodes := [n] + nodes;
    }

    method Ref(frame: nat, ghost l: CodeList)
      requires Represents(l) && !l.Crashed?
      modifies this, nodes
      ensures Represents(RefCode(l, frame)) && forall i | 0 <= i < |nodes| :: nodes[i] in old(nodes) || fresh(nodes[i])
    {
      var cur, done := head, false;
      ghost var i := 0;
      while !done && cur != null
        invariant i <= |old(nodes)| && head == old(head) && !crashed
        invariant forall j | 0 <= j < i :: old(nodes)[j].index != frame
        invariant !done ==> Represents(l) && nodes == old(nodes) && live == old(live)
        invariant !done ==> if l.Sound? then cur == (if i < |nodes| then nodes[i] else null) else cur == head
        invariant done ==> l.Sound? && i < |old(nodes)| && old(nodes)[i].index == frame
        invariant done ==> Linked() && nodes == Unlinked(old(nodes), i) && live == old(live) - {old(nodes)[i]}
        decreases !done, |old(nodes)| - i
      {
        if cur !in live {
          crashed := true;
          return;
        }
        if cur.index == frame {
          Unlink(cur, i);
          done := true;
        }
        if !done {
          cur := cur.nxt;
          i := i + 1;
        }
      }
      RefOrder(old(nodes), i, frame);
      Push(frame);
      if !crashed {
        OrderOfSuffix(nodes, 1, nodes[1..], 0);
      }
    }
  }

  /** Taking out the first node of frame `f`, if there is one at `i`, is `Without` on the order. */
  lemma RefOrder(nodes: seq<Node>, i: nat, f: nat)
    requires i <= |nodes| && forall j | 0 <= j < i :: nodes[j].index != f
    requires i < |nodes| ==> nodes[i].index == f
    ensures Without(OrderFrom(nodes, 0), f) == OrderFrom(if i < |nodes| then Unlinked(nodes, i) else nodes, 0)
    ensures NoDuplicates(OrderFrom(nodes, 0)) ==> NoDuplicates(MoveToFront(OrderFrom(nodes, 0), f))
  {
    if i < |nodes| {
      OrderUnlinked(nodes, i, 0);
    } else {
      OrderHas(nodes, 0, f);
      WithoutAbsent(OrderFrom(nodes, 0), f);
    }
    if NoDuplicates(OrderFrom(nodes, 0)) {
      WithoutKeeps(OrderFrom(nodes, 0), f, f);
    }
  }
}
