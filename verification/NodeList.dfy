/** libcnary's list of nodes. The list header has the layout of a node's first fields, and an empty list's header is
    its own end; so header and nodes are one class here, and a header's `next` and `prev` are its begin and end. */
module NodeLists {

  /** A `void *` the library never looks behind. */
  type Pointer = nat

  class Node {
    var next: Node?
    var prev: Node?
    var count: nat
    var isRoot: bool
    var isLeaf: bool
    var data: Pointer
    var depth: nat
    var parent: Node?
    var children: Node?

    /** Zeroed memory. */
    constructor ()
      ensures next == null && prev == null && count == 0 && !isRoot && !isLeaf && data == 0 && depth == 0
      ensures parent == null && children == null
    {
      next, prev, count, isRoot, isLeaf, data, depth, parent, children := null, null, 0, false, false, 0, 0, null, null;
    }
  }

  ghost predicate Injective(s: seq<Node>) {
    forall i, j | 0 <= i < |s| && 0 <= j < |s| && i != j :: s[i] != s[j]
  }

  /** The list with header h holds exactly the nodes s: forward from `begin`, backward from `end`, and by count. The
      first node's `prev` is the header or nothing. */
  ghost predicate Linked(h: Node, s: seq<Node>)
    reads h`next, h`prev, h`count, s`next, s`prev
  {
    && Injective(s) && h !in s
    && h.count == |s|
    && (s == [] ==> h.next == null && h.prev == h)
    && (s != [] ==>
      && h.next == s[0] && h.prev == s[|s| - 1]
      && (s[0].prev == h || s[0].prev == null)
      && s[|s| - 1].next == null)
    && (forall i | 0 <= i < |s| - 1 :: s[i].next == s[i + 1])
    && (forall i | 0 < i < |s| :: s[i].prev == s[i - 1])
  }

  /** The first node does not know the header: it was put in front of another one, or moved up to the front when
      such a node was removed. */
  ghost predicate HeadUnaware(s: seq<Node>)
    reads s`prev
  {
    s != [] && s[0].prev == null
  }

  /** A possibly missing argument, for frames. */
  ghost function Given(n: Node?): set<Node> {
    if n == null then {} else {n}
  }

  /** `node_list_create`, with `list_init` */
  method CreateList() returns (list: Node)
    ensures fresh(list) && Linked(list, []) && list.children == null
  {
    list := new Node();
    list.next := null;
    list.prev := list;
    list.count := 0;
  }

  /** `node_list_add`: appends. */
  method Add(list: Node?, node: Node?, ghost s: seq<Node>) returns (r: int)
    requires list != null ==> Linked(list, s) && node != list && node !in s
    modifies Given(list)`next, Given(list)`prev, Given(list)`count, Given(node)`next, Given(node)`prev, s`next
    ensures r == (if list == null || node == null then -1 else 0)
    ensures r == 0 ==> Linked(list, s + [node]) && HeadUnaware(s + [node]) == old(HeadUnaware(s))
    ensures r == -1 ==> (list != null ==> Linked(list, s)) && HeadUnaware(s) == old(HeadUnaware(s))
  {
    if list == null || node == null {
      return -1;
    }
    var last := list.prev;
    node.next := null;
    node.prev := last;
    if last != null {
      last.next := node;
    }
    list.prev := node;
    list.count := list.count + 1;
    r := 0;
  }

  /** Where insertion at `index` ends up: beyond the end means at the end. */
  function InsertAt<T>(s: seq<T>, index: nat, x: T): seq<T> {
    if index >= |s| then s + [x] else s[..index] + [x] + s[index..]
  }

  /** `node_list_insert` */
  method Insert(list: Node?, index: nat, node: Node?, ghost s: seq<Node>) returns (r: int)
    requires list != null ==> Linked(list, s) && node != list && node !in s
    modifies Given(list)`next, Given(list)`prev, Given(list)`count, Given(node)`next, Given(node)`prev, s`next, s`prev
    ensures r == (if list == null || node == null then -1 else 0)
    ensures r == 0 ==>
      && Linked(list, InsertAt<Node>(s, index, node))
      && HeadUnaware(InsertAt<Node>(s, index, node)) == (old(HeadUnaware(s)) || (index == 0 && s != []))
    ensures r == -1 ==> (list != null ==> Linked(list, s)) && HeadUnaware(s) == old(HeadUnaware(s))
  {
    if list == null || node == null {
      return -1;
    }
    if index >= list.count {
      r := Add(list, node, s);
      return;
    }
    var cur := list.next;
    var pos := 0;
    var before: Node? := null;
    while pos < index
      invariant 0 <= pos <= index
      invariant cur == s[pos]
      invariant before == if pos == 0 then null else s[pos - 1]
    {
      before := cur;
      cur := cur.next;
      pos := pos + 1;
    }
    if before != null {
      InsertBehind(list, before, index, node, s);
    } else {
      InsertFirst(list, node, s);
    }
    r := 0;
  }

  method InsertBehind(list: Node, before: Node, index: nat, node: Node, ghost s: seq<Node>)
    requires Linked(list, s) && node != list && node !in s
    requires 0 < index < |s| && before == s[index - 1]
    modifies list`count, node`next, node`prev, s`next, s`prev
    ensures Linked(list, InsertAt(s, index, node))
    ensures HeadUnaware(InsertAt(s, index, node)) == old(HeadUnaware(s))
  {
    ghost var t := InsertAt(s, index, node);
    InsertAtIndex(s, index, node);
    node.prev := before;
    node.next := before.next;
    assert node.next == s[index] == t[index + 1];
    before.next := node;
    // index is below count, so there is a next node
    node.next.prev := node;
    list.count := list.count + 1;
  }

  method InsertFirst(list: Node, node: Node, ghost s: seq<Node>)
    requires Linked(list, s) && node != list && node !in s && s != []
    modifies list`next, list`count, node`next, node`prev, s`prev
    ensures Linked(list, InsertAt(s, 0, node)) && HeadUnaware(InsertAt(s, 0, node))
  {
    ghost var t := InsertAt(s, 0, node);
    InsertAtIndex(s, 0, node);
    node.prev := null;
    node.next := list.next;
    list.next := node;
    assert node.next == s[0] == t[1];
    node.next.prev := node;
    list.count := list.count + 1;
  }

  lemma InsertAtIndex<T>(s: seq<T>, index: nat, x: T)
    requires index <= |s|
    ensures var t := InsertAt(s, index, x);
      && |t| == |s| + 1 && t[index] == x
      && (forall i | 0 <= i < index :: t[i] == s[i])
      && (forall i | index < i < |t| :: t[i] == s[i - 1])
  {
  }

  lemma WithoutIndex<T>(s: seq<T>, k: nat)
    requires k < |s|
    ensures var t := Without(s, k);
      && |t| == |s| - 1
      && (forall i | 0 <= i < k :: t[i] == s[i])
      && (forall i | k <= i < |t| :: t[i] == s[i + 1])
  {
  }

  function Without<T>(s: seq<T>, k: nat): seq<T>
    requires k < |s|
  {
    s[..k] + s[k + 1..]
  }

  /** Taking out the only node when it does not know the header: the header's end is then not reset. */
  ghost predicate LosesEnd(s: seq<Node>, node: Node?)
    reads s
  {
    |s| == 1 && s[0] == node && s[0].prev == null
  }

  /** `node_list_remove`: takes a node out of the list, if it is there (k is where). What is left is a proper list
      exactly when it was not the only node and unaware of the header. */
  method Remove(list: Node?, node: Node?, ghost s: seq<Node>) returns (r: int, ghost k: nat)
    requires list != null ==> Linked(list, s)
    modifies Given(list)`next, Given(list)`prev, Given(list)`count, s`next, s`prev
    ensures r == if list != null && node != null && node in s then 0 else -1
    ensures r == -1 ==> (list != null ==> Linked(list, s)) && HeadUnaware(s) == old(HeadUnaware(s))
    ensures r == 0 ==>
      && k < |s| && s[k] == node
      && (Linked(list, Without(s, k)) <==> !old(LosesEnd(s, node)))
      && list.count == |s| - 1
      && list.next == (if |s| == 1 then null else Without(s, k)[0])
      && (|s| > 1 ==> HeadUnaware(Without(s, k)) == old(HeadUnaware(s)))
  {
    k := 0;
    if list == null || node == null {
      return -1, k;
    }
    if list.count == 0 {
      return -1, k;
    }
    var n := list.next;
    while n != null && n != node
      invariant 0 <= k <= |s|
      invariant n == if k < |s| then s[k] else null
      invariant node !in s[..k]
      decreases |s| - k
    {
      n := n.next;
      k := k + 1;
    }
    if n == null {
      return -1, k;
    }
    assert k > 0 ==> node.prev == s[k - 1];
    if node.prev == null {
      UnlinkFirst(list, node, s);
    } else {
      Unlink(list, node, s, k);
    }
    r := 0;
  }

  /** The branch of `node_list_remove` for a node that something comes before, if only the header. */
  method Unlink(list: Node, node: Node, ghost s: seq<Node>, ghost k: nat)
    requires Linked(list, s) && k < |s| && s[k] == node && node.prev != null
    modifies list`next, list`prev, list`count, s`next, s`prev
    ensures Linked(list, Without(s, k))
    ensures |s| > 1 ==> HeadUnaware(Without(s, k)) == old(HeadUnaware(s))
  {
    ghost var t := Without(s, k);
    WithoutIndex(s, k);
    assert node.prev == if k == 0 then list else s[k - 1];
    assert k + 1 < |s| ==> node.next == s[k + 1] == t[k];
    var newnode := node.next;
    node.prev.next := newnode;
    if newnode != null {
      newnode.prev := node.prev;
    } else {
      list.prev := node.prev;
    }
    list.count := list.count - 1;
  }

  /** The branch of `node_list_remove` for a first node that is unaware of the header. */
  method UnlinkFirst(list: Node, node: Node, ghost s: seq<Node>)
    requires Linked(list, s) && s != [] && s[0] == node && node.prev == null
    modifies list`next, list`count, s`prev
    ensures |s| > 1 ==> Linked(list, Without(s, 0)) && HeadUnaware(Without(s, 0))
    ensures |s| == 1 ==> list.next == null && list.count == 0 && list.prev == node
  {
    WithoutIndex(s, 0);
    assert |s| > 1 ==> node.next == s[1];
    var newnode := node.next;
    if newnode != null {
      newnode.prev := null;
    }
    list.next := newnode;
    list.count := list.count - 1;
  }

  // ----- histories

  datatype ListOp = Append(node: Node) | InsertOp(index: nat, node: Node) | Take(node: Node)

  /** A list as a sequence, and whether its first node is unaware of the header. */
  datatype Shape = Shape(nodes: seq<Node>, unaware: bool)

  function IndexOf<T(==)>(s: seq<T>, x: T): (k: nat)
    requires x in s
    ensures k < |s| && s[k] == x
  {
    if s[0] == x then 0 else 1 + IndexOf(s[1..], x)
  }

  function AfterOp(sh: Shape, op: ListOp): Shape {
    match op
    case Append(n) => Shape(sh.nodes + [n], sh.unaware)
    case InsertOp(i, n) => Shape(InsertAt(sh.nodes, i, n), sh.unaware || (i == 0 && sh.nodes != []))
    case Take(n) =>
      if n in sh.nodes then Shape(Without(sh.nodes, IndexOf(sh.nodes, n)), sh.unaware && |sh.nodes| > 1) else sh
  }

  /** A node goes into one list once, and the only node is not taken out while it is unaware of the header. */
  predicate Allowed(sh: Shape, list: Node, op: ListOp) {
    match op
    case Append(n) => n != list && n !in sh.nodes
    case InsertOp(_, n) => n != list && n !in sh.nodes
    case Take(n) => !(sh.nodes == [n] && sh.unaware)
  }

  function Final(sh: Shape, ops: seq<ListOp>): Shape
    decreases |ops|
  {
    if ops == [] then sh else Final(AfterOp(sh, ops[0]), ops[1..])
  }

  predicate AllAllowed(sh: Shape, list: Node, ops: seq<ListOp>)
    decreases |ops|
  {
    ops == [] || (Allowed(sh, list, ops[0]) && AllAllowed(AfterOp(sh, ops[0]), list, ops[1..]))
  }

  /** One call of a history. */
  method Once(list: Node, op: ListOp, ghost sh: Shape)
    requires Linked(list, sh.nodes) && HeadUnaware(sh.nodes) == sh.unaware && Allowed(sh, list, op)
    modifies list, sh.nodes, op.node
    ensures var next := AfterOp(sh, op); Linked(list, next.nodes) && HeadUnaware(next.nodes) == next.unaware
  {
    match op {
      case Append(n) =>
        var _ := Add(list, n, sh.nodes);
      case InsertOp(i, n) =>
        var _ := Insert(list, i, n, sh.nodes);
      case Take(n) =>
        var r, k := Remove(list, n, sh.nodes);
        if r == 0 {
          assert k == IndexOf(sh.nodes, n);
          if |sh.nodes| == 1 {
            assert sh.nodes == [n];
          }
        }
    }
  }

  lemma NextNodes(sh: Shape, op: ListOp)
    ensures forall n | n in AfterOp(sh, op).nodes :: n in sh.nodes || n == op.node
  {
  }

  /** Calls after which the only node must not be taken out: it was put in front of another one, which is gone. */
  lemma EndCanBeLost(list: Node, a: Node, b: Node) returns (ops: seq<ListOp>)
    requires a != b && a != list && b != list
    ensures AllAllowed(Shape([], false), list, ops) && Final(Shape([], false), ops) == Shape([b], true)
    ensures !Allowed(Final(Shape([], false), ops), list, Take(b))
  {
    ops := [Append(a), InsertOp(0, b), Take(a)];
    var one, two := Shape([a], false), Shape([b, a], true);
    assert AfterOp(Shape([], false), ops[0]) == one;
    assert AfterOp(one, ops[1]) == two;
    assert IndexOf([b, a], a) == 1 && AfterOp(two, ops[2]) == Shape([b], true);
    assert ops[1..] == [InsertOp(0, b), Take(a)] && ops[1..][1..] == [Take(a)] && ops[1..][1..][1..] == [];
    assert Final(two, [Take(a)]) == Shape([b], true) && AllAllowed(two, list, [Take(a)]);
  }

  ghost function NodesOf(ops: seq<ListOp>): set<Node> {
    set op <- ops :: op.node
  }

  /** Over every history of calls the list stays the sequence the calls describe. */
  method Replay(list: Node, ops: seq<ListOp>, ghost sh: Shape)
    requires Linked(list, sh.nodes) && HeadUnaware(sh.nodes) == sh.unaware
    requires AllAllowed(sh, list, ops)
    modifies list, sh.nodes, NodesOf(ops)
    ensures var end := Final(sh, ops); Linked(list, end.nodes) && HeadUnaware(end.nodes) == end.unaware
    decreases |ops|
  {
    if ops != [] {
      hide Linked, HeadUnaware, AfterOp, Allowed;
      assert ops[0].node in NodesOf(ops);
      assert NodesOf(ops[1..]) <= NodesOf(ops);
      NextNodes(sh, ops[0]);
      Once(list, ops[0], sh);
      Replay(list, ops[1..], AfterOp(sh, ops[0]));
    }
  }
}
