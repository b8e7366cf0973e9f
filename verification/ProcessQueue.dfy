/**
 The process queues of src/system/processQueue.c: singly linked nodes that are
 recycled through one free list shared by all queues.
 */
module ProcessQueue {
  import opened Options

  class Node {
    var next: Node?
    var process: int
    var acumPriority: int

    constructor ()
    {
      next, process, acumPriority := null, 0, 0;
    }
  }

  ghost function At(nodes: seq<Node>, i: int): Node? {
    if 0 <= i < |nodes| then nodes[i] else null
  }

  ghost predicate LinkedAt(nodes: seq<Node>, i: int)
    requires 0 <= i < |nodes|
    reads nodes`next
  {
    nodes[i].next == At(nodes, i + 1)
  }

  /** The nodes are all different and each leads to the next. */
  ghost predicate Chain(nodes: seq<Node>)
    reads nodes`next
  {
    && (forall i, j :: 0 <= i < j < |nodes| ==> nodes[i] != nodes[j])
    && (forall i {:trigger LinkedAt(nodes, i)} :: 0 <= i < |nodes| ==> LinkedAt(nodes, i))
  }

  ghost predicate Disjoint(a: seq<Node>, b: seq<Node>) {
    forall i, j :: 0 <= i < |a| && 0 <= j < |b| ==> a[i] != b[j]
  }

  /** The recycled nodes. */
  class Pool {
    var freeNodes: Node?
    ghost var free: seq<Node>

    ghost predicate Valid()
      reads this, free`next
    {
      freeNodes == At(free, 0) && Chain(free)
    }

    constructor ()
      ensures Valid() && free == []
    {
      freeNodes, free := null, [];
    }

    /** free_node */
    method FreeNode(node: Node)
      requires Valid() && node !in free
      modifies this, node`next
      ensures Valid() && free == [node] + old(free)
    {
      node.next := freeNodes;
      freeNodes := node;
      free := [node] + free;
      forall i | 0 <= i < |free| ensures LinkedAt(free, i) {
        assert i > 0 ==> old(LinkedAt(free, i - 1));
      }
    }

    /** alloc_node: a recycled node if there is one, a new one otherwise. */
    method AllocNode() returns (node: Node)
      requires Valid()
      modifies this
      ensures Valid() && node !in free
      ensures old(free) == [] ==> free == [] && fresh(node)
      ensures old(free) != [] ==> node == old(free)[0] && free == old(free)[1..]
    {
      if freeNodes == null {
        node := new Node();
      } else {
        assert LinkedAt(free, 0);
        node := freeNodes;
        freeNodes := node.next;
        free := free[1..];
        forall i | 0 <= i < |free| ensures LinkedAt(free, i) {
          assert old(LinkedAt(free, i + 1));
        }
      }
    }
  }

  /** The processes of a queue without the first entry of one, if it has any. */
  function Removed(s: seq<int>, pid: int): seq<int> {
    if s == [] then [] else if s[0] == pid then s[1..] else [s[0]] + Removed(s[1..], pid)
  }

  lemma {:induction false} RemovedAt(s: seq<int>, pid: int, k: nat)
    requires k < |s| && s[k] == pid && forall i :: 0 <= i < k ==> s[i] != pid
    ensures Removed(s, pid) == s[..k] + s[k + 1..]
  {
    if k > 0 {
      RemovedAt(s[1..], pid, k - 1);
      assert s[..k] == [s[0]] + s[1..][..k - 1];
    }
  }

  lemma {:induction false} RemovedAbsent(s: seq<int>, pid: int)
    requires pid !in s
    ensures Removed(s, pid) == s
  {
    if s != [] {
      RemovedAbsent(s[1..], pid);
    }
  }

  class Queue {
    var first: Node?
    var last: Node?
    ghost var nodes: seq<Node>
    ghost var processes: seq<int>

    ghost predicate Valid()
      reads this, nodes`next, nodes`process
    {
      && Linked()
      && |processes| == |nodes| && forall i :: 0 <= i < |nodes| ==> nodes[i].process == processes[i]
    }

    constructor ()
      ensures Valid() && nodes == [] && processes == []
    {
      first, last, nodes, processes := null, null, [], [];
    }

    /** process_queue_push: the process is last, in a recycled node or a new one. */
    method Push(pool: Pool, process: int)
      requires Valid() && pool.Valid() && Disjoint(nodes, pool.free)
      modifies this, pool, nodes`next, pool.free
      ensures Valid() && pool.Valid() && Disjoint(nodes, pool.free)
      ensures processes == old(processes) + [process]
      ensures |nodes| == |old(nodes)| + 1 && nodes[..|old(nodes)|] == old(nodes)
      ensures nodes[|old(nodes)|].acumPriority == 1
      ensures if old(pool.free) == [] then pool.free == [] && fresh(nodes[|old(nodes)|])
              else nodes[|old(nodes)|] == old(pool.free)[0] && pool.free == old(pool.free)[1..]
    {
      hide Chain, LinkedAt;
      var node := pool.AllocNode();
      node.process := process;
      node.acumPriority := 1;
      Append(node);
      processes := processes + [process];
    }

    ghost predicate Linked()
      reads `first, `last, `nodes, nodes`next
    {
      first == At(nodes, 0) && last == At(nodes, |nodes| - 1) && Chain(nodes)
    }

    /** A node that left the queue goes to the free list, which stays apart from the queue. */
    method Recycle(pool: Pool, node: Node)
      requires Linked() && pool.Valid() && Disjoint(nodes, pool.free)
      requires (forall i :: 0 <= i < |nodes| ==> nodes[i] != node) &&
          (forall i :: 0 <= i < |pool.free| ==> pool.free[i] != node)
      modifies pool, node`next
      ensures Linked() && pool.Valid() && Disjoint(nodes, pool.free) && pool.free == [node] + old(pool.free)
    {
      pool.FreeNode(node);
    }

    /** The linking part of process_queue_push. */
    method Append(node: Node)
      requires Linked() && node !in nodes
      modifies `first, `last, `nodes, nodes`next, node`next
      ensures Linked()
      ensures nodes == old(nodes) + [node]
    {
      ghost var k := |nodes|;
      if first == null {
        first, last := node, node;
      } else {
        last.next := node;
        last := node;
      }
      node.next := null;
      nodes := nodes + [node];
      forall i | 0 <= i < |nodes| ensures LinkedAt(nodes, i) {
        assert i < k ==> old(LinkedAt(nodes, i));
      }
    }

    /** The unlinking part of process_queue_pop. */
    method UnlinkFirst() returns (aux: Node)
      requires Linked() && nodes != []
      modifies `first, `last, `nodes
      ensures Linked() && aux == old(nodes)[0] && nodes == old(nodes)[1..]
    {
      assert LinkedAt(nodes, 0);
      aux := first;
      if first == last {
        first, last := null, null;
      } else {
        first := first.next;
      }
      nodes := nodes[1..];
      forall i | 0 <= i < |nodes| ensures LinkedAt(nodes, i) {
        assert old(LinkedAt(nodes, i + 1));
      }
    }

    /** process_queue_pop: the process that has waited longest; None is NULL. */
    method Pop(pool: Pool) returns (process: Option<int>)
      requires Valid() && pool.Valid() && Disjoint(nodes, pool.free)
      modifies this, pool, nodes`next
      ensures Valid() && pool.Valid() && Disjoint(nodes, pool.free)
      ensures old(processes) == [] ==> process == None && processes == [] && pool.free == old(pool.free)
      ensures old(processes) != [] ==>
        && process == Some(old(processes)[0]) && processes == old(processes)[1..]
        && nodes == old(nodes)[1..] && pool.free == [old(nodes)[0]] + old(pool.free)
    {
      if first == null {
        return None;
      }
      Different(nodes, 0);
      process := Some(first.process);
      hide Linked;
      var aux := UnlinkFirst();
      processes := processes[1..];
      Recycle(pool, aux);
    }

    /** The unlinking part of process_queue_remove. */
    method Unlink(prev: Node?, node: Node, ghost k: nat)
      requires Linked()
      requires k < |nodes| && node == nodes[k] && prev == At(nodes, k - 1)
      modifies `first, `last, `nodes, nodes`next
      ensures Linked()
      ensures nodes == old(nodes)[..k] + old(nodes)[k + 1..]
    {
      assert LinkedAt(nodes, k);
      if last == node {
        last := prev;
      }
      if prev != null {
        prev.next := node.next;
      } else {
        first := node.next;
      }
      nodes := nodes[..k] + nodes[k + 1..];
      forall i | 0 <= i < |nodes| ensures LinkedAt(nodes, i) {
        assert old(LinkedAt(nodes, if i < k then i else i + 1));
      }
    }

    /** The loop of process_queue_remove. */
    method FindProcess(pid: int) returns (prev: Node?, node: Node?, ghost k: nat)
      requires Valid()
      ensures k <= |nodes| && node == At(nodes, k) && prev == At(nodes, k - 1)
      ensures forall i :: 0 <= i < k ==> processes[i] != pid
      ensures node != null ==> processes[k] == pid
    {
      prev, node, k := null, first, 0;
      while node != null
        invariant 0 <= k <= |nodes| && node == At(nodes, k) && prev == At(nodes, k - 1)
        invariant forall i :: 0 <= i < k ==> processes[i] != pid
        decreases |nodes| - k
      {
        if node.process == pid {
          return;
        }
        assert LinkedAt(nodes, k);
        prev := node;
        node := node.next;
        k := k + 1;
      }
    }

    /** The end of process_queue_remove: node k moves to the free list. */
    method TakeOut(pool: Pool, prev: Node?, node: Node, ghost k: nat)
      requires Linked() && pool.Valid() && Disjoint(nodes, pool.free)
      requires k < |nodes| && node == nodes[k] && prev == At(nodes, k - 1)
      modifies pool, `first, `last, `nodes, nodes`next
      ensures Linked() && pool.Valid() && Disjoint(nodes, pool.free)
      ensures Recycled(old(nodes), old(pool.free), nodes, pool.free, k)
    {
      Different(nodes, k);
      hide Linked, Chain;
      Unlink(prev, node, k);
      forall i | 0 <= i < |nodes| ensures nodes[i] != node && nodes[i] == old(nodes)[if i < k then i else i + 1] { }
      Recycle(pool, node);
    }

    /** process_queue_remove: the first entry of the process goes, the others keep their order. */
    method Remove(pool: Pool, pid: int)
      requires Valid() && pool.Valid() && Disjoint(nodes, pool.free)
      modifies this, pool, nodes`next
      ensures Valid() && pool.Valid() && Disjoint(nodes, pool.free)
      ensures processes == Removed(old(processes), pid)
      ensures pid !in old(processes) ==> nodes == old(nodes) && pool.free == old(pool.free)
      ensures pid in old(processes) ==> exists k: nat ::
        k < |old(nodes)| && Recycled(old(nodes), old(pool.free), nodes, pool.free, k)
    {
      hide Linked, Removed, Recycled, Disjoint;
      var prev, node, k := FindProcess(pid);
      if node == null {
        RemovedAbsent(processes, pid);
        return;
      }
      RemovedAt(processes, pid, k);
      TakeOut(pool, prev, node, k);
      Kept(old(nodes), old(pool.free), nodes, pool.free, k);
      processes := processes[..k] + processes[k + 1..];
    }
  }

  /**
   Popping from one queue and pushing onto another: the node of the one becomes the node of the
   other, and neither loses its order.
   */
  method Transfer(a: Queue, b: Queue, pool: Pool)
    requires a != b && a.Valid() && b.Valid() && pool.Valid() && a.processes != []
    requires Disjoint(a.nodes, pool.free) && Disjoint(b.nodes, pool.free) && Disjoint(a.nodes, b.nodes)
    modifies a, b, pool, a.nodes, b.nodes`next, pool.free
    ensures a.Valid() && b.Valid() && pool.Valid() && pool.free == old(pool.free)
    ensures Disjoint(a.nodes, pool.free) && Disjoint(b.nodes, pool.free) && Disjoint(a.nodes, b.nodes)
    ensures a.processes == old(a.processes)[1..] && b.processes == old(b.processes) + [old(a.processes)[0]]
    ensures a.nodes == old(a.nodes)[1..] && b.nodes == old(b.nodes) + [old(a.nodes)[0]]
  {
    var process := a.Pop(pool);
    b.Push(pool, process.value);
  }

  /** Node k moved from the queue to the head of the free list. */
  ghost predicate Recycled(nodes: seq<Node>, free: seq<Node>, nodes': seq<Node>, free': seq<Node>, k: nat) {
    k < |nodes| && nodes' == nodes[..k] + nodes[k + 1..] && free' == [nodes[k]] + free
  }

  lemma Kept(nodes: seq<Node>, free: seq<Node>, nodes': seq<Node>, free': seq<Node>, k: nat)
    requires Recycled(nodes, free, nodes', free', k)
    ensures |nodes'| == |nodes| - 1
    ensures forall i :: 0 <= i < |nodes'| ==> nodes'[i] == nodes[if i < k then i else i + 1]
  {
  }

  lemma Different(nodes: seq<Node>, k: nat)
    requires Chain(nodes) && k < |nodes|
    ensures forall i :: 0 <= i < |nodes| && i != k ==> nodes[i] != nodes[k]
  {
  }
}
