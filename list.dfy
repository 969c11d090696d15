/**
 * The singly linked list of (address, byte) nodes that the emulator's hash
 * table uses as a bucket chain (src/list.c).  The list holds pointers to its
 * first node, its last node and a cursor node, and a size counter.  The
 * ghost sequence `nodes` is the chain from `start` to `end`, and the ghost
 * index `cursor` is the position of `current` in it.
 */
module LinkedList {
  import opened Bits

  /** What a node holds: an address and the byte stored there. */
  datatype Entry = Entry(addr: Word, data: Byte)

  /** A node.  list.c never changes a node's address or byte once it is made. */
  class Node {
    const addr: Word
    const data: Byte
    var next: Node?

    /** calloc then the two field writes: `next` starts out NULL. */
    constructor (addr: Word, data: Byte)
      ensures this.addr == addr && this.data == data && next == null
    {
      this.addr := addr;
      this.data := data;
      next := null;
    }
  }

  /**
   * The position of the first entry with address `addr`, or -1 when no
   * entry has it.
   */
  function Find(s: seq<Entry>, addr: Word): (k: int)
    ensures -1 <= k < |s|
    ensures k >= 0 ==> s[k].addr == addr && forall j :: 0 <= j < k ==> s[j].addr != addr
    ensures k == -1 ==> forall j :: 0 <= j < |s| ==> s[j].addr != addr
  {
    if s == [] then -1
    else if s[0].addr == addr then 0
    else
      var k := Find(s[1..], addr);
      if k == -1 then -1 else k + 1
  }

  /** Searching after a front insert finds the new entry if its address matches, and otherwise what it found before, one place further on. */
  lemma FindPrepend(e: Entry, s: seq<Entry>, addr: Word)
    ensures Find([e] + s, addr) ==
      if e.addr == addr then 0 else if Find(s, addr) == -1 then -1 else Find(s, addr) + 1
  {
    assert ([e] + s)[1..] == s;
  }

  /** Searching after a rear insert finds what it found before, and the new entry only when nothing earlier matches. */
  lemma {:induction false} FindAppend(s: seq<Entry>, e: Entry, addr: Word)
    ensures Find(s + [e], addr) ==
      if Find(s, addr) != -1 then Find(s, addr) else if e.addr == addr then |s| else -1
  {
    if s != [] {
      assert (s + [e])[1..] == s[1..] + [e];
      FindAppend(s[1..], e, addr);
    }
  }

  /** The sequence with its k-th element taken out. */
  function Without<T>(s: seq<T>, k: nat): (r: seq<T>)
    requires k < |s|
    ensures |r| == |s| - 1
  {
    s[..k] + s[k + 1..]
  }

  lemma WithoutAt<T>(s: seq<T>, k: nat, m: nat)
    requires k < |s| && m < |s| - 1
    ensures Without(s, k)[m] == if m < k then s[m] else s[m + 1]
  {
  }

  /** No node appears twice in the chain. */
  predicate Distinct(ns: seq<Node>)
  {
    forall i, j :: 0 <= i < j < |ns| ==> ns[i] != ns[j]
  }

  /** Each node's `next` is the node after it, and the last node's is NULL. */
  ghost predicate Linked(ns: seq<Node>)
    reads ns
  {
    (forall i {:trigger ns[i].next} :: 0 <= i < |ns| - 1 ==> ns[i].next == ns[i + 1]) &&
    (ns != [] ==> ns[|ns| - 1].next == null)
  }

  /** Two positions of a NULL-terminated chain hold different nodes: their walks reach NULL after different numbers of steps. */
  lemma {:induction false} LinkedNoRepeat(ns: seq<Node>, i: nat, j: nat)
    requires Linked(ns) && i < j < |ns|
    ensures ns[i] != ns[j]
    decreases |ns| - j
  {
    if j == |ns| - 1 {
      assert ns[i].next == ns[i + 1] && ns[j].next == null;
    } else {
      LinkedNoRepeat(ns, i + 1, j + 1);
      assert ns[i].next == ns[i + 1] && ns[j].next == ns[j + 1];
    }
  }

  /** In a NULL-terminated chain the node at `i` is at no other position. */
  lemma LinkedOnlyAt(ns: seq<Node>, i: nat)
    requires Linked(ns) && i < |ns|
    ensures forall m :: 0 <= m < |ns| && m != i ==> ns[m] != ns[i]
  {
    forall m | 0 <= m < |ns| && m != i
      ensures ns[m] != ns[i]
    {
      if m < i {
        LinkedNoRepeat(ns, m, i);
      } else {
        LinkedNoRepeat(ns, i, m);
      }
    }
  }

  /** A NULL-terminated chain has no cycle: no node appears twice in it. */
  lemma LinkedDistinct(ns: seq<Node>)
    requires Linked(ns)
    ensures Distinct(ns)
  {
    forall i, j | 0 <= i < j < |ns|
      ensures ns[i] != ns[j]
    {
      LinkedNoRepeat(ns, i, j);
    }
  }

  /** The entries the nodes hold, in order. */
  function EntriesOf(ns: seq<Node>): (s: seq<Entry>)
    ensures |s| == |ns|
  {
    seq(|ns|, i requires 0 <= i < |ns| => Entry(ns[i].addr, ns[i].data))
  }

  /**
   * Unlinking: once the node at `i` points past its successor, the chain
   * without that successor is linked, and holds the same entries less the
   * one removed.
   */
  lemma Unlinked(ns: seq<Node>, i: nat)
    requires i + 1 < |ns|
    requires forall m {:trigger ns[m].next} :: 0 <= m < |ns| - 1 && m != i ==> ns[m].next == ns[m + 1]
    requires ns[|ns| - 1].next == null
    requires ns[i].next == if i + 2 < |ns| then ns[i + 2] else null
    ensures Linked(Without(ns, i + 1))
    ensures EntriesOf(Without(ns, i + 1)) == Without(EntriesOf(ns), i + 1)
  {
    var rest := Without(ns, i + 1);
    forall m | 0 <= m < |rest| - 1
      ensures rest[m].next == rest[m + 1]
    {
      if m > i {
        assert rest[m] == ns[m + 1] && rest[m + 1] == ns[m + 2];
      }
    }
  }

  /**
   * Appending: a fresh node with a NULL `next`, hung from the old last
   * node, extends the chain and its entries by one.
   */
  lemma Appended(ns: seq<Node>, n: Node)
    requires n.next == null
    requires forall m {:trigger ns[m].next} :: 0 <= m < |ns| - 1 ==> ns[m].next == ns[m + 1]
    requires ns != [] ==> ns[|ns| - 1].next == n
    ensures Linked(ns + [n])
    ensures EntriesOf(ns + [n]) == EntriesOf(ns) + [Entry(n.addr, n.data)]
  {
  }

  class List {
    var size: int
    var start: Node?
    var end: Node?
    var current: Node?
    ghost var nodes: seq<Node>
    ghost var cursor: nat

    /**
     * The chain: each node's `next` the one after it and the last one's
     * NULL (so no node repeats, by LinkedDistinct); `start` and `end` the first and last node (NULL
     * when empty), `current` the node at `cursor`, and `size` the length.
     */
    ghost predicate Valid()
      reads this, nodes
    {
      size == |nodes| && Linked(nodes) &&
      (if nodes == [] then
         start == null && end == null && current == null && cursor == 0
       else
         start == nodes[0] && end == nodes[|nodes| - 1] && cursor < |nodes| && current == nodes[cursor])
    }

    /** The entries from `start` to `end`, in chain order. */
    ghost function Contents(): (s: seq<Entry>)
      reads this
      ensures |s| == |nodes|
    {
      EntriesOf(nodes)
    }

    /** list_create: an empty list with all three pointers NULL. */
    constructor ()
      ensures Valid() && nodes == [] && size == 0
      ensures start == null && end == null && current == null
    {
      size := 0;
      start := null;
      end := null;
      current := null;
      nodes := [];
      cursor := 0;
    }

    /** list_is_empty: 1 when the list has no node, 0 otherwise. */
    method IsEmpty() returns (r: int)
      requires Valid()
      ensures r == (if |nodes| == 0 then 1 else 0)
      ensures r == 1 <==> start == null
    {
      r := if start == null then 1 else 0;
    }

    /** list_reset: the cursor goes back to the first node. */
    method Reset()
      requires Valid()
      modifies this`current, this`cursor
      ensures Valid() && cursor == 0 && current == start
    {
      current := start;
      cursor := 0;
    }

    /**
     * list_add_node: a new node goes in front.  On an empty list it is also
     * the end and the cursor; otherwise the cursor stays on its node.
     */
    method AddNode(addr: Word, data: Byte)
      requires Valid()
      modifies this
      ensures Valid()
      ensures nodes == [start] + old(nodes) && fresh(start)
      ensures Contents() == [Entry(addr, data)] + old(Contents())
      ensures cursor == if old(nodes) == [] then 0 else old(cursor) + 1
    {
      var n := new Node(addr, data);
      var empty := IsEmpty();
      if empty == 1 {
        current := n;
        end := n;
        cursor := 0;
      } else {
        n.next := start;
        cursor := cursor + 1;
      }
      start := n;
      size := size + 1;
      nodes := [n] + nodes;
    }

    /**
     * list_add_node_rear: a new node goes at the end.  On an empty list it
     * is also the start and the cursor; otherwise the cursor stays put.
     */
    method AddNodeRear(addr: Word, data: Byte)
      requires Valid()
      modifies this, nodes
      ensures Valid()
      ensures nodes == old(nodes) + [end] && fresh(end)
      ensures Contents() == old(Contents()) + [Entry(addr, data)]
      ensures cursor == old(cursor)
    {
      LinkedDistinct(nodes);
      var n := new Node(addr, data);
      ghost var chain := nodes;
      var empty := IsEmpty();
      if empty == 1 {
        start := n;
        current := n;
      } else {
        end.next := n;
      }
      Appended(chain, n);
      end := n;
      size := size + 1;
      nodes := nodes + [n];
    }

    /**
     * list_advance: -1 with the cursor unmoved when it is on the end (or
     * the list is empty), otherwise 0 with the cursor on the next node.
     */
    method Advance() returns (r: int)
      requires Valid()
      modifies this`current, this`cursor
      ensures Valid()
      ensures r == (if |nodes| == 0 || old(cursor) == |nodes| - 1 then -1 else 0)
      ensures cursor == (if r == -1 then old(cursor) else old(cursor) + 1)
    {
      LinkedDistinct(nodes);
      if current == end {
        return -1;
      }
      current := current.next;
      cursor := cursor + 1;
      return 0;
    }

    /**
     * list_retreat: -1 with the cursor unmoved when it is on the start (or
     * the list is empty), otherwise 0 with the cursor on the node before,
     * found by walking from the start.
     */
    method Retreat() returns (r: int)
      requires Valid()
      modifies this`current, this`cursor
      ensures Valid()
      ensures r == (if old(cursor) == 0 then -1 else 0)
      ensures cursor == (if r == -1 then old(cursor) else old(cursor) - 1)
    {
      LinkedDistinct(nodes);
      if current == start {
        return -1;
      }
      var n := start;
      ghost var i := 0;
      while n.next != current && n != end
        invariant 0 <= i < cursor && n == nodes[i]
        decreases |nodes| - i
      {
        n := n.next;
        i := i + 1;
      }
      if n.next != current {
        return -1;
      }
      assert nodes[i + 1] == nodes[cursor];
      current := n;
      cursor := i;
      return 0;
    }

    /**
     * list_search: the first node from the start whose address is `addr`,
     * or null.  The walk leaves the cursor on the node found, or on the end
     * when nothing matches.
     */
    method Search(addr: Word) returns (found: Node?)
      requires Valid()
      modifies this`current, this`cursor
      ensures Valid()
      ensures Find(Contents(), addr) == -1 ==> found == null && cursor == (if |nodes| == 0 then 0 else |nodes| - 1)
      ensures Find(Contents(), addr) != -1 ==> found == nodes[Find(Contents(), addr)] && cursor == Find(Contents(), addr)
    {
      Reset();
      if current == null {
        return null;
      }
      while true
        invariant Valid() && nodes != []
        invariant forall j :: 0 <= j < cursor ==> nodes[j].addr != addr
        decreases |nodes| - cursor
      {
        if current.addr == addr {
          assert Contents()[cursor].addr == addr;
          return current;
        }
        var r := Advance();
        if r == -1 {
          return null;
        }
      }
    }

    /**
     * list_remove_node: walks from the start to the node whose `next` is
     * `n`.  When there is none -- `n` is not in the list, or it is the first
     * node, which has no predecessor -- the answer is -1 and nothing changes.
     * Otherwise `n` is unlinked (see Unlink) and the answer is 0.
     */
    method RemoveNode(n: Node) returns (r: int, ghost at: nat)
      requires Valid() && nodes != []
      modifies this, nodes
      ensures Valid()
      ensures r == (if n in old(nodes)[1..] then 0 else -1)
      ensures r == -1 ==> nodes == old(nodes) && Contents() == old(Contents()) && cursor == old(cursor)
      ensures r == 0 ==> 1 <= at < |old(nodes)| && old(nodes)[at] == n
      ensures r == 0 ==> nodes == Without(old(nodes), at) && Contents() == Without(old(Contents()), at)
      ensures r == 0 ==> cursor == if old(cursor) < at then old(cursor) else old(cursor) - 1
    {
      var k := start;
      ghost var i := 0;
      LinkedOnlyAt(nodes, |nodes| - 1);
      while k.next != n && k != end
        invariant 0 <= i < |nodes| && k == nodes[i]
        invariant k == end ==> i == |nodes| - 1
        invariant forall m :: 1 <= m <= i ==> nodes[m] != n
        decreases |nodes| - i
      {
        k := k.next;
        i := i + 1;
      }
      if k.next != n {
        assert n !in nodes[1..];
        return -1, 0;
      }
      Unlink(k, n, i);
      return 0, i + 1;
    }

    /**
     * The second half of list_remove_node, once the predecessor `k` of `n`
     * is found: `k` skips over `n`, `end` and `current` move back to `k` if
     * they were on `n`, and the size goes down by one.
     */
    method Unlink(k: Node, n: Node, ghost i: nat)
      requires Valid() && i + 1 < |nodes| && nodes[i] == k && nodes[i + 1] == n
      modifies this, k
      ensures Valid()
      ensures nodes == Without(old(nodes), i + 1) && Contents() == Without(old(Contents()), i + 1)
      ensures cursor == if old(cursor) <= i then old(cursor) else old(cursor) - 1
    {
      LinkedOnlyAt(nodes, i);
      LinkedOnlyAt(nodes, i + 1);
      ghost var chain := nodes;
      k.next := n.next;
      // The source also moves `start` back when it was `n`; `n` has a
      // predecessor here, so it is never the first node.
      if current == n {
        current := k;
      }
      if end == n {
        end := k;
      }
      size := size - 1;
      nodes := Without(nodes, i + 1);
      cursor := if cursor <= i then cursor else cursor - 1;
      Unlinked(chain, i);
      WithoutAt(chain, i + 1, 0);
      WithoutAt(chain, i + 1, |nodes| - 1);
      WithoutAt(chain, i + 1, cursor);
      assert Contents() == Without(EntriesOf(chain), i + 1);
    }
  }
}
