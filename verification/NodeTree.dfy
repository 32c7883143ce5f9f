/** libcnary's trees: every node has a list of children. */
module NodeTrees {
  import opened Bytes
  import opened NodeLists

  /** A tree on the heap: its root, the header of the root's child list, and the children's trees. */
  datatype Tree = Tree(node: Node, list: Node, kids: seq<Tree>)

  ghost function Objs(t: Tree): set<Node>
    decreases t, 1
  {
    {t.node} + Inner(t)
  }

  /** Everything but the root, whose place among its siblings is not the tree's business. */
  ghost function Inner(t: Tree): set<Node>
    decreases t, 0
  {
    {t.list} + AllObjs(t.kids)
  }

  ghost function AllObjs(ts: seq<Tree>): set<Node> {
    if ts == [] then {} else Objs(ts[0]) + AllObjs(ts[1..])
  }

  ghost function AllInner(ts: seq<Tree>): set<Node> {
    if ts == [] then {} else Inner(ts[0]) + AllInner(ts[1..])
  }

  ghost function Roots(ts: seq<Tree>): (s: seq<Node>)
    ensures |s| == |ts|
  {
    seq(|ts|, i requires 0 <= i < |ts| => ts[i].node)
  }

  /** The heap holds t: child lists are proper, counts are those of the lists, children know their parent, and no
      node or header is in two places. */
  ghost predicate Holds(t: Tree)
    reads Inner(t), t.node`children, t.node`count
  {
    RootsInside(t.kids);
    && t.node !in Inner(t) && t.list !in AllObjs(t.kids)
    && t.node.children == t.list
    && t.node.count == |t.kids|
    && Linked(t.list, Roots(t.kids))
    && (forall i | 0 <= i < |t.kids| :: t.kids[i].node.parent == t.node)
    && HoldAll(t.kids)
  }

  ghost predicate HoldAll(ts: seq<Tree>)
    reads AllInner(ts), Roots(ts)`children, Roots(ts)`count
  {
    ts == [] ||
      (RestInside(ts);
       && Holds(ts[0]) && Objs(ts[0]) !! AllObjs(ts[1..]) && HoldAll(ts[1..]))
  }

  lemma {:induction false} RootsInside(ts: seq<Tree>)
    ensures forall i | 0 <= i < |ts| :: ts[i].node in AllObjs(ts)
    ensures forall n | n in Roots(ts) :: n in AllObjs(ts)
    ensures AllInner(ts) <= AllObjs(ts)
  {
    if ts != [] {
      RootsInside(ts[1..]);
      assert forall i | 0 < i < |ts| :: ts[i] == ts[1..][i - 1];
    }
  }

  lemma RestInside(ts: seq<Tree>)
    requires ts != []
    ensures Roots(ts)[0] == ts[0].node && Roots(ts)[1..] == Roots(ts[1..])
    ensures forall n | n in Roots(ts[1..]) :: n in Roots(ts)
  {
  }

  /** A tree as a value. */
  datatype Value = Value(data: Pointer, kids: seq<Value>)

  ghost function ValueOf(t: Tree): Value
    reads Objs(t)`data
    decreases t
  {
    assert AllObjs(t.kids) <= Objs(t);
    Value(t.node.data, ValuesOf(t.kids))
  }

  ghost function ValuesOf(ts: seq<Tree>): (r: seq<Value>)
    reads AllObjs(ts)`data
    ensures |r| == |ts|
    decreases ts
  {
    if ts == [] then [] else [ValueOf(ts[0])] + ValuesOf(ts[1..])
  }

  /** The shape with every node's data copied; without a copy function the copies have none. */
  ghost function Copied(s: Value, copyFunc: Option<Pointer -> Pointer>): Value {
    Value(if copyFunc.Some? then copyFunc.value(s.data) else 0, CopiedAll(s.kids, copyFunc))
  }

  ghost function CopiedAll(ss: seq<Value>, copyFunc: Option<Pointer -> Pointer>): (r: seq<Value>)
    ensures |r| == |ss|
  {
    if ss == [] then [] else [Copied(ss[0], copyFunc)] + CopiedAll(ss[1..], copyFunc)
  }

  /** Roots are not inside anything. */
  lemma {:induction false} RootsOutside(ts: seq<Tree>)
    requires HoldAll(ts)
    ensures forall n | n in Roots(ts) :: n !in AllInner(ts)
  {
    if ts != [] {
      RootsOutside(ts[1..]);
      RootsInside(ts[1..]);
      RestInside(ts);
      forall n | n in Roots(ts)
        ensures n !in AllInner(ts)
      {
        assert n == ts[0].node || n in Roots(ts[1..]);
      }
    }
  }

  // ----- forests put together

  lemma {:induction false} ObjsJoin(a: seq<Tree>, b: seq<Tree>)
    ensures AllObjs(a + b) == AllObjs(a) + AllObjs(b)
    ensures Roots(a + b) == Roots(a) + Roots(b)
  {
    if a == [] {
      assert a + b == b;
    } else {
      assert (a + b)[1..] == a[1..] + b;
      ObjsJoin(a[1..], b);
    }
  }

  lemma {:induction false} HoldAllJoin(a: seq<Tree>, b: seq<Tree>)
    ensures HoldAll(a + b) <==> HoldAll(a) && HoldAll(b) && AllObjs(a) !! AllObjs(b)
  {
    if a == [] {
      assert a + b == b;
    } else {
      assert (a + b)[1..] == a[1..] + b;
      HoldAllJoin(a[1..], b);
      ObjsJoin(a[1..], b);
      hide Holds;
    }
  }

  lemma {:induction false} ValuesJoin(a: seq<Tree>, b: seq<Tree>)
    ensures ValuesOf(a + b) == ValuesOf(a) + ValuesOf(b)
  {
    if a == [] {
      assert a + b == b;
    } else {
      assert (a + b)[1..] == a[1..] + b;
      ValuesJoin(a[1..], b);
    }
  }

  lemma {:induction false} CopiedJoin(a: seq<Value>, b: seq<Value>, copyFunc: Option<Pointer -> Pointer>)
    ensures CopiedAll(a + b, copyFunc) == CopiedAll(a, copyFunc) + CopiedAll(b, copyFunc)
  {
    if a == [] {
      assert a + b == b;
    } else {
      assert (a + b)[1..] == a[1..] + b;
      CopiedJoin(a[1..], b, copyFunc);
    }
  }

  lemma Alone(t: Tree)
    ensures AllObjs([t]) == Objs(t) && Roots([t]) == [t.node] && (HoldAll([t]) <==> Holds(t))
  {
    assert [t][1..] == [];
  }

  /** A forest with one tree put in at k. */
  lemma Inserted(ts: seq<Tree>, k: nat, c: Tree)
    requires HoldAll(ts) && Holds(c) && AllObjs(ts) !! Objs(c)
    ensures var us := InsertAt(ts, k, c);
      && HoldAll(us) && AllObjs(us) == AllObjs(ts) + Objs(c) && Roots(us) == InsertAt(Roots(ts), k, c.node)
  {
    hide Holds, HoldAll, Objs, AllObjs, InsertAt, Roots;
    var at := if k >= |ts| then |ts| else k;
    var a, b := ts[..at], ts[at..];
    Between(ts, k, c);
    Alone(c);
    HoldAllJoin(a, b);
    ObjsJoin(a, b);
    HoldAllJoin(a, [c]);
    ObjsJoin(a, [c]);
    HoldAllJoin(a + [c], b);
    ObjsJoin(a + [c], b);
    RootsInserted(ts, k, c);
  }

  lemma Between<T>(s: seq<T>, k: nat, x: T)
    ensures var at := if k >= |s| then |s| else k;
      s == s[..at] + s[at..] && InsertAt(s, k, x) == s[..at] + [x] + s[at..]
  {
  }

  lemma RootsInserted(ts: seq<Tree>, k: nat, c: Tree)
    ensures Roots(InsertAt(ts, k, c)) == InsertAt(Roots(ts), k, c.node)
  {
  }

  lemma Pieces<T>(s: seq<T>, k: nat)
    requires k < |s|
    ensures s == s[..k] + ([s[k]] + s[k + 1..])
  {
  }

  /** A forest with the tree at k taken out. */
  lemma TakenOut(ts: seq<Tree>, k: nat)
    requires HoldAll(ts) && k < |ts|
    ensures var us := Without(ts, k);
      && HoldAll(us) && Holds(ts[k]) && AllObjs(us) !! Objs(ts[k]) && AllObjs(ts) == AllObjs(us) + Objs(ts[k])
      && Roots(us) == Without(Roots(ts), k)
  {
    var a, b, c := ts[..k], ts[k + 1..], ts[k];
    Pieces(ts, k);
    var us := Without(ts, k);
    assert us == a + b;
    hide Holds, HoldAll, Objs, AllObjs, Without;
    Alone(c);
    ObjsJoin([c], b);
    HoldAllJoin([c], b);
    ObjsJoin(a, [c] + b);
    HoldAllJoin(a, [c] + b);
    HoldAllJoin(a, b);
    ObjsJoin(a, b);
    assert Roots(us) == Without(Roots(ts), k) by {
      RootsWithout(ts, k);
    }
  }

  lemma RootsWithout(ts: seq<Tree>, k: nat)
    requires k < |ts|
    ensures Roots(Without(ts, k)) == Without(Roots(ts), k)
  {
  }

  /** What a tree's parts are not. */
  lemma Apart(t: Tree)
    requires Holds(t)
    ensures Objs(t) == {t.node, t.list} + AllObjs(t.kids) && Inner(t) == Objs(t) - {t.node}
    ensures AllInner(t.kids) <= AllObjs(t.kids)
    ensures HoldAll(t.kids) && Linked(t.list, Roots(t.kids)) && t.node.children == t.list && t.node.count == |t.kids|
    ensures t.node !in AllInner(t.kids) && t.list !in AllInner(t.kids) && t.node != t.list
    ensures t.node !in Roots(t.kids) && t.list !in Roots(t.kids)
    ensures t.node !in AllObjs(t.kids) && t.list !in AllObjs(t.kids)
    ensures forall n | n in Roots(t.kids) :: n !in AllInner(t.kids) && n in AllObjs(t.kids)
    ensures forall i | 0 <= i < |t.kids| :: t.kids[i].node.parent == t.node
    ensures forall n | n in Objs(t) :: allocated(n)
  {
    RootsInside(t.kids);
    RootsOutside(t.kids);
    Alive(t);
  }

  lemma {:induction false} Alive(t: Tree)
    ensures forall n | n in Objs(t) :: allocated(n)
  {
    AllAlive(t.kids);
    assert allocated(t.node) && allocated(t.list);
    assert Objs(t) == {t.node, t.list} + AllObjs(t.kids);
  }

  lemma {:induction false} AllAlive(ts: seq<Tree>)
    ensures forall n | n in AllObjs(ts) :: allocated(n)
  {
    if ts != [] {
      Alive(ts[0]);
      AllAlive(ts[1..]);
    }
  }

  /** Parent and child before an attachment: two separate trees. */
  ghost predicate Separate(p: Tree, c: Tree)
    reads Objs(p), Objs(c)
  {
    Holds(p) && Holds(c) && Objs(p) !! Objs(c)
  }

  lemma Assembled(t: Tree)
    requires t.node !in AllObjs(t.kids) + {t.list} && t.list !in AllObjs(t.kids)
    requires t.node.children == t.list && t.node.count == |t.kids| && Linked(t.list, Roots(t.kids)) && HoldAll(t.kids)
    requires forall i | 0 <= i < |t.kids| :: t.kids[i].node.parent == t.node
    ensures Holds(t)
  {
  }

  lemma InsertMembers(s: seq<Node>, k: nat, x: Node)
    ensures forall n | n in InsertAt(s, k, x) :: n in s || n == x
  {
  }

  /** The child is in the parent's list, but the parent's count is still n. */
  ghost predicate Half(p: Tree, k: nat, c: Tree, n: nat)
    reads Objs(p), Objs(c)
  {
    RootsInside(p.kids);
    assert AllObjs(p.kids) <= Objs(p);
    InsertMembers(Roots(p.kids), k, c.node);
    assert c.node in Objs(c) && p.list in Objs(p) && p.node in Objs(p);
    && p.node !in Objs(c) + AllObjs(p.kids) + {p.list} && p.list !in AllObjs(p.kids) + Objs(c)
    && AllObjs(p.kids) !! Objs(c) && HoldAll(p.kids) && Holds(c) && c.node.parent == p.node
    && (forall i | 0 <= i < |p.kids| :: p.kids[i].node.parent == p.node)
    && p.node.children == p.list && p.node.count == n
    && Linked(p.list, InsertAt(Roots(p.kids), k, c.node))
  }

  lemma JoinedHolds(p: Tree, k: nat, c: Tree)
    requires Half(p, k, c, |p.kids| + 1)
    ensures Holds(p.(kids := InsertAt(p.kids, k, c)))
  {
    hide Holds, HoldAll, Linked, Objs, AllObjs;
    Inserted(p.kids, k, c);
    Assembled(p.(kids := InsertAt(p.kids, k, c)));
  }

  // ----- creating and attaching

  /** `node_create` for a root */
  method CreateRoot(data: Pointer) returns (node: Node, ghost t: Tree)
    ensures t.node == node && t.kids == [] && fresh(Objs(t)) && Holds(t)
    ensures node.data == data && node.isRoot && node.isLeaf && node.depth == 0
  {
    node := new Node();
    node.data, node.depth, node.next, node.prev, node.count := data, 0, null, null, 0;
    node.isLeaf, node.isRoot, node.parent := true, true, null;
    var list := CreateList();
    node.children := list;
    t := Tree(node, list, []);
    assert AllObjs([]) == {};
  }

  /** What `node_attach` and `node_insert` write into the two nodes before they change the list. */
  method Adopt(parent: Node, child: Node)
    requires parent != child
    modifies parent`isLeaf, child`isLeaf, child`isRoot, child`parent, child`depth
    ensures child.isLeaf && !child.isRoot && child.parent == parent && child.depth == parent.depth + 1 && !parent.isLeaf
  {
    child.isLeaf := true;
    child.isRoot := false;
    child.parent := parent;
    child.depth := parent.depth + 1;
    if parent.isLeaf {
      parent.isLeaf := false;
    }
  }

  /** Those flags are not what makes two separate trees. */
  method AdoptApart(parent: Node, child: Node, ghost p: Tree, ghost c: Tree)
    requires p.node == parent && c.node == child && Separate(p, c)
    modifies parent`isLeaf, child`isLeaf, child`isRoot, child`parent, child`depth
    ensures Separate(p, c)
    ensures child.isLeaf && !child.isRoot && child.parent == parent && child.depth == parent.depth + 1 && !parent.isLeaf
  {
    hide Holds, HoldAll, Linked, Objs, Inner, AllObjs, AllInner;
    Apart(p);
    Apart(c);
    Adopt(parent, child);
    assert Linked(p.list, Roots(p.kids)) && HoldAll(p.kids);
    Assembled(p);
    assert Holds(c);
  }

  /** `node_attach`: the child's tree becomes the last subtree. */
  method Attach(parent: Node?, child: Node?, ghost p: Tree, ghost c: Tree) returns (r: int)
    requires parent != null && child != null ==> p.node == parent && c.node == child && Separate(p, c)
    modifies Given(parent)`isLeaf, Given(parent)`count
    modifies Given(child)`isLeaf, Given(child)`isRoot, Given(child)`parent, Given(child)`depth
    modifies Given(child)`next, Given(child)`prev
    modifies p.list`next, p.list`prev, p.list`count, Roots(p.kids)`next
    ensures r == if parent == null || child == null then -1 else 0
    ensures r == 0 ==>
      && Holds(p.(kids := p.kids + [c]))
      && child.isLeaf && !child.isRoot && child.depth == parent.depth + 1 && !parent.isLeaf
  {
    if parent == null || child == null {
      return -1;
    }
    r := AttachGiven(parent, child, p, c);
  }

  method AttachGiven(parent: Node, child: Node, ghost p: Tree, ghost c: Tree) returns (r: int)
    requires p.node == parent && c.node == child && Separate(p, c)
    modifies parent`isLeaf, parent`count
    modifies child`isLeaf, child`isRoot, child`parent, child`depth, child`next, child`prev
    modifies p.list`next, p.list`prev, p.list`count, Roots(p.kids)`next
    ensures r == 0
    ensures Holds(p.(kids := p.kids + [c]))
    ensures child.isLeaf && !child.isRoot && child.depth == parent.depth + 1 && !parent.isLeaf
  {
    AdoptApart(parent, child, p, c);
    r := AddApart(parent, child, p, c);
  }

  method AddApart(parent: Node, child: Node, ghost p: Tree, ghost c: Tree) returns (r: int)
    requires p.node == parent && c.node == child && Separate(p, c) && child.parent == parent
    modifies parent`count, child`next, child`prev
    modifies p.list`next, p.list`prev, p.list`count, Roots(p.kids)`next
    ensures r == 0
    ensures Holds(p.(kids := p.kids + [c]))
  {
    hide Holds, HoldAll, Linked, Objs, Inner, AllObjs, AllInner, HeadUnaware;
    Apart(p);
    Apart(c);
    assert InsertAt(Roots(p.kids), |p.kids|, child) == Roots(p.kids) + [child];
    assert InsertAt(p.kids, |p.kids|, c) == p.kids + [c];
    hide InsertAt;
    r := Add(parent.children, child, Roots(p.kids));
    assert HoldAll(p.kids);
    assert Holds(c);
    assert forall i | 0 <= i < |p.kids| :: p.kids[i].node.parent == p.node;
    assert Half(p, |p.kids|, c, |p.kids|) by {
      hide Roots, Given;
    }
    Grow(parent, p, |p.kids|, c);
  }

  method Grow(parent: Node, ghost p: Tree, ghost k: nat, ghost c: Tree)
    requires parent == p.node && Half(p, k, c, |p.kids|)
    modifies parent`count
    ensures Holds(p.(kids := InsertAt(p.kids, k, c)))
  {
    RootsInside(p.kids);
    InsertMembers(Roots(p.kids), k, c.node);
    assert parent !in Objs(c) && c.node in Objs(c) && p.list in Objs(p) && Inner(c) <= Objs(c);
    hide Holds, HoldAll, Linked, Objs, AllObjs, InsertAt;
    parent.count := parent.count + 1;
    JoinedHolds(p, k, c);
  }

  /** `node_insert`: the child's tree becomes the subtree at the index, or the last one. */
  method InsertChild(parent: Node?, index: nat, child: Node?, ghost p: Tree, ghost c: Tree) returns (r: int)
    requires parent != null && child != null ==> p.node == parent && c.node == child && Separate(p, c)
    modifies Given(parent)`isLeaf, Given(parent)`count
    modifies Given(child)`isLeaf, Given(child)`isRoot, Given(child)`parent, Given(child)`depth
    modifies Given(child)`next, Given(child)`prev
    modifies p.list`next, p.list`prev, p.list`count, Roots(p.kids)`next, Roots(p.kids)`prev
    ensures r == if parent == null || child == null then -1 else 0
    ensures r == 0 ==>
      && Holds(p.(kids := InsertAt(p.kids, index, c)))
      && child.isLeaf && !child.isRoot && child.depth == parent.depth + 1 && !parent.isLeaf
  {
    if parent == null || child == null {
      return -1;
    }
    AdoptApart(parent, child, p, c);
    r := InsertApart(parent, index, child, p, c);
  }

  method InsertApart(parent: Node, index: nat, child: Node, ghost p: Tree, ghost c: Tree) returns (r: int)
    requires p.node == parent && c.node == child && Separate(p, c) && child.parent == parent
    modifies parent`count, child`next, child`prev
    modifies p.list`next, p.list`prev, p.list`count, Roots(p.kids)`next, Roots(p.kids)`prev
    ensures r == 0
    ensures Holds(p.(kids := InsertAt(p.kids, index, c)))
  {
    hide Holds, HoldAll, Linked, Objs, Inner, AllObjs, AllInner, HeadUnaware, InsertAt;
    Apart(p);
    Apart(c);
    r := Insert(parent.children, index, child, Roots(p.kids));
    assert HoldAll(p.kids);
    assert Holds(c);
    assert forall i | 0 <= i < |p.kids| :: p.kids[i].node.parent == p.node;
    assert Half(p, index, c, |p.kids|);
    Grow(parent, p, index, c);
  }

  /** `node_detach`: the subtree at k is a tree of its own again, and the parent's tree has lost it; except that the
      list is not what it should be when its only node was unaware of the header. */
  method Detach(parent: Node?, child: Node?, ghost p: Tree) returns (r: int, ghost k: nat)
    requires parent != null ==> p.node == parent && Holds(p)
    modifies Given(parent)`count
    modifies p.list`next, p.list`prev, p.list`count, Roots(p.kids)`next, Roots(p.kids)`prev
    ensures r == 0
    ensures parent != null && (child == null || child !in Roots(p.kids)) ==> Holds(p)
    ensures parent != null && child in Roots(p.kids) ==>
      && k < |p.kids| && p.kids[k].node == child
      && Holds(p.kids[k]) && child !in Objs(p.(kids := Without(p.kids, k)))
      && parent.count == |p.kids| - 1
      && (Holds(p.(kids := Without(p.kids, k))) <==> !old(LosesEnd(Roots(p.kids), child)))
  {
    k := 0;
    if parent == null || child == null {
      return 0, k;
    }
    k := DetachGiven(parent, child, p);
    r := 0;
  }

  method DetachGiven(parent: Node, child: Node, ghost p: Tree) returns (ghost k: nat)
    requires p.node == parent && Holds(p)
    modifies parent`count
    modifies p.list`next, p.list`prev, p.list`count, Roots(p.kids)`next, Roots(p.kids)`prev
    ensures child !in Roots(p.kids) ==> Holds(p)
    ensures child in Roots(p.kids) ==>
      && k < |p.kids| && p.kids[k].node == child
      && Holds(p.kids[k]) && child !in Objs(p.(kids := Without(p.kids, k)))
      && parent.count == |p.kids| - 1
      && (Holds(p.(kids := Without(p.kids, k))) <==> !old(LosesEnd(Roots(p.kids), child)))
  {
    hide Holds, HoldAll, Linked, Objs, Inner, AllObjs, AllInner, HeadUnaware;
    Apart(p);
    assert forall i | 0 <= i < |p.kids| :: parent !in Without(Roots(p.kids), i);
    hide Without;
    var r;
    r, k := Remove(parent.children, child, Roots(p.kids));
    assert HoldAll(p.kids);
    assert forall i | 0 <= i < |p.kids| :: p.kids[i].node.parent == p.node;
    if r == 0 {
      parent.count := parent.count - 1;
      assert HoldAll(p.kids);
      LeftHolds(p, k);
    } else {
      Assembled(p);
    }
  }

  lemma LeftHolds(p: Tree, k: nat)
    requires k < |p.kids| && HoldAll(p.kids)
    requires p.node !in AllObjs(p.kids) + {p.list} && p.list !in AllObjs(p.kids)
    requires forall i | 0 <= i < |p.kids| :: p.kids[i].node.parent == p.node
    requires p.node.children == p.list && p.node.count == |p.kids| - 1
    ensures Holds(p.kids[k])
    ensures p.kids[k].node !in Objs(p.(kids := Without(p.kids, k)))
    ensures Holds(p.(kids := Without(p.kids, k))) <==> Linked(p.list, Without(Roots(p.kids), k))
  {
    hide Holds, HoldAll, Linked, AllObjs;
    TakenOut(p.kids, k);
    var q := p.(kids := Without(p.kids, k));
    RootsInside(p.kids);
    assert p.kids[k].node in Objs(p.kids[k]);
    if Linked(p.list, Without(Roots(p.kids), k)) {
      Assembled(q);
    }
    if Holds(q) {
      Apart(q);
    }
  }

  /** `node_nth_child` */
  method NthChild(node: Node?, n: nat, ghost t: Tree) returns (child: Node?)
    requires node != null ==> t.node == node && Holds(t)
    ensures child == if node != null && n < |t.kids| then t.kids[n].node else null
  {
    if node == null || node.children == null || node.children.next == null {
      return null;
    }
    var index := 0;
    var ch := node.children.next;
    while ch != null && index != n
      invariant index <= |t.kids| && index <= n
      invariant ch == if index < |t.kids| then t.kids[index].node else null
      decreases |t.kids| - index
    {
      assert Roots(t.kids)[index].next == if index + 1 < |t.kids| then Roots(t.kids)[index + 1] else null;
      ch := ch.next;
      index := index + 1;
    }
    child := ch;
  }

  /** `node_child_position` */
  method ChildPosition(parent: Node?, child: Node?, ghost p: Tree) returns (r: int)
    requires parent != null ==> p.node == parent && Holds(p)
    ensures r == -1 <==> parent == null || child == null || child !in Roots(p.kids)
    ensures r != -1 ==> 0 <= r < |p.kids| && p.kids[r].node == child
  {
    if parent == null || parent.children == null || parent.children.next == null || child == null {
      return -1;
    }
    r := 0;
    var ch := parent.children.next;
    while ch != null && ch != child
      invariant 0 <= r <= |p.kids|
      invariant ch == if r < |p.kids| then Roots(p.kids)[r] else null
      invariant child !in Roots(p.kids)[..r]
      decreases |p.kids| - r
    {
      assert Roots(p.kids)[r].next == if r + 1 < |p.kids| then Roots(p.kids)[r + 1] else null;
      ch := ch.next;
      r := r + 1;
    }
    if ch == null {
      r := -1;
    }
  }

  // ----- copies

  /** How copies come out below their root: attaching writes the same depth and leaf flag into all of them. */
  ghost predicate Flat(ts: seq<Tree>)
    reads AllObjs(ts)`depth, AllObjs(ts)`isLeaf, AllObjs(ts)`isRoot
  {
    ts == [] ||
      (AllObjs(ts[0].kids) <= AllObjs(ts) && ts[0].node in AllObjs(ts) && AllObjs(ts[1..]) <= AllObjs(ts)
       && ts[0].node.depth == 1 && ts[0].node.isLeaf && !ts[0].node.isRoot && Flat(ts[0].kids) && Flat(ts[1..]))
  }

  lemma {:induction false} FlatJoin(a: seq<Tree>, b: seq<Tree>)
    ensures Flat(a + b) <==> Flat(a) && Flat(b)
  {
    if a == [] {
      assert a + b == b;
    } else {
      assert (a + b)[1..] == a[1..] + b;
      FlatJoin(a[1..], b);
      ObjsJoin(a[1..], b);
      assert AllObjs(a[0].kids) <= Objs(a[0]);
    }
  }

  /** The tree u is a deep copy of a tree with value val. */
  ghost predicate CopyOf(u: Tree, val: Value, copyFunc: Option<Pointer -> Pointer>)
    reads Objs(u)
  {
    assert AllObjs(u.kids) <= Objs(u);
    && Holds(u) && ValueOf(u) == Copied(val, copyFunc) && Flat(u.kids)
    && u.node.isRoot && u.node.depth == 0 && u.node.isLeaf == (u.kids == [])
  }

  /** The copy while only the first i children are copied. */
  ghost predicate Partial(u: Tree, val: Value, i: nat, copyFunc: Option<Pointer -> Pointer>)
    requires i <= |val.kids|
    reads Objs(u)
  {
    assert AllObjs(u.kids) <= Objs(u);
    && Holds(u) && Flat(u.kids) && ValuesOf(u.kids) == CopiedAll(val.kids[..i], copyFunc)
    && u.node.isRoot && u.node.depth == 0 && u.node.isLeaf == (i == 0)
    && u.node.data == if copyFunc.Some? then copyFunc.value(val.data) else 0
  }

  lemma Walk(t: Tree, i: nat)
    requires Holds(t)
    ensures t.list.next == if t.kids == [] then null else t.kids[0].node
    ensures t.node.children == t.list && |ValueOf(t).kids| == |t.kids| && ValueOf(t).data == t.node.data
    ensures i < |t.kids| ==> t.kids[i].node.next == if i + 1 < |t.kids| then t.kids[i + 1].node else null
  {
    var s := Roots(t.kids);
    assert Linked(t.list, s);
    assert i < |s| ==> s[i].next == if i + 1 < |s| then s[i + 1] else null;
  }

  lemma NothingYet(u: Tree, val: Value, copyFunc: Option<Pointer -> Pointer>)
    requires Holds(u) && u.kids == [] && u.node.isRoot && u.node.isLeaf && u.node.depth == 0
    requires u.node.data == if copyFunc.Some? then copyFunc.value(val.data) else 0
    ensures Partial(u, val, 0, copyFunc)
  {
  }

  lemma AllCopied(u: Tree, val: Value, copyFunc: Option<Pointer -> Pointer>)
    requires Partial(u, val, |val.kids|, copyFunc)
    ensures CopyOf(u, val, copyFunc)
  {
    assert val.kids[..|val.kids|] == val.kids;
  }

  /** One more child copied: v. */
  lemma OneMore(u: Tree, v: Tree, val: Value, i: nat, copyFunc: Option<Pointer -> Pointer>)
    requires i < |val.kids| && Holds(u.(kids := u.kids + [v]))
    requires ValuesOf(u.kids) == CopiedAll(val.kids[..i], copyFunc) && ValueOf(v) == Copied(val.kids[i], copyFunc)
    requires Flat(u.kids) && Flat(v.kids) && v.node.depth == 1 && v.node.isLeaf && !v.node.isRoot
    requires u.node.isRoot && u.node.depth == 0 && !u.node.isLeaf
    requires u.node.data == if copyFunc.Some? then copyFunc.value(val.data) else 0
    ensures Partial(u.(kids := u.kids + [v]), val, i + 1, copyFunc)
  {
    assert val.kids[..i + 1] == val.kids[..i] + [val.kids[i]];
    hide Holds, ValueOf, Copied;
    ValuesJoin(u.kids, [v]);
    assert ValuesOf([v]) == [ValueOf(v)];
    CopiedJoin(val.kids[..i], [val.kids[i]], copyFunc);
    assert CopiedAll([val.kids[i]], copyFunc) == [Copied(val.kids[i], copyFunc)];
    assert Flat([v]) by {
      Alone(v);
      assert [v][1..] == [];
    }
    FlatJoin(u.kids, [v]);
  }

  lemma PartialMeans(u: Tree, val: Value, i: nat, copyFunc: Option<Pointer -> Pointer>)
    requires i <= |val.kids| && Partial(u, val, i, copyFunc)
    ensures Holds(u) && Flat(u.kids) && ValuesOf(u.kids) == CopiedAll(val.kids[..i], copyFunc)
    ensures u.node.isRoot && u.node.depth == 0
    ensures u.node.data == if copyFunc.Some? then copyFunc.value(val.data) else 0
  {
  }

  lemma CopyMeans(v: Tree, val: Value, copyFunc: Option<Pointer -> Pointer>)
    requires CopyOf(v, val, copyFunc)
    ensures Holds(v) && Flat(v.kids) && ValueOf(v) == Copied(val, copyFunc)
  {
  }

  lemma ObjsOfJoined(u: Tree, v: Tree)
    ensures Objs(u.(kids := u.kids + [v])) == Objs(u) + Objs(v)
  {
    ObjsJoin(u.kids, [v]);
    Alone(v);
  }

  /** Attaching the copied child. */
  method AttachCopy(c: Node, cc: Node, copyFunc: Option<Pointer -> Pointer>, ghost val: Value, ghost i: nat,
                    ghost u: Tree, ghost v: Tree)
    returns (ghost w: Tree)
    requires i < |val.kids| && u.node == c && v.node == cc && Objs(u) !! Objs(v)
    requires Partial(u, val, i, copyFunc) && CopyOf(v, val.kids[i], copyFunc)
    modifies c`isLeaf, c`count, u.list`next, u.list`prev, u.list`count, Roots(u.kids)`next
    modifies cc`isLeaf, cc`isRoot, cc`parent, cc`depth, cc`next, cc`prev
    ensures w == u.(kids := u.kids + [v]) && Partial(w, val, i + 1, copyFunc)
  {
    hide Objs, AllObjs, Holds, HoldAll, Linked, ValueOf, ValuesOf, Copied, CopiedAll, Flat, CopyOf, Partial;
    PartialMeans(u, val, i, copyFunc);
    CopyMeans(v, val.kids[i], copyFunc);
    Apart(u);
    Apart(v);
    assert Separate(u, v);
    var _ := AttachGiven(c, cc, u, v);
    assert Flat(u.kids);
    assert Flat(v.kids);
    OneMore(u, v, val, i, copyFunc);
    w := u.(kids := u.kids + [v]);
  }

  /** One round of the loop of `node_copy_deep` */
  method CopyChild(c: Node, ch: Node, copyFunc: Option<Pointer -> Pointer>, ghost t: Tree, ghost val: Value,
                   ghost i: nat, ghost u: Tree)
    returns (ghost w: Tree)
    requires i < |val.kids| && Holds(t) && ch == t.node && ValueOf(t) == val.kids[i]
    requires u.node == c && Partial(u, val, i, copyFunc)
    modifies Objs(u)
    ensures w.node == c && w.list == u.list && |w.kids| == |u.kids| + 1
    ensures forall n | n in Objs(w) :: n in Objs(u) || fresh(n)
    ensures Partial(w, val, i + 1, copyFunc)
    decreases t, 2
  {
    hide Objs, Inner, AllObjs, Holds, HoldAll, Linked, ValueOf, ValuesOf, Copied, CopiedAll, Flat, CopyOf, Partial;
    Alive(u);
    RootsAndList(u);
    var cc, v := CopyDeep(ch, copyFunc, t);
    assert Objs(u) !! Objs(v);
    RootInside(v);
    w := AttachCopy(c, cc, copyFunc, val, i, u, v);
    ObjsOfJoined(u, v);
  }

  lemma RootInside(t: Tree)
    ensures t.node in Objs(t) && Inner(t) <= Objs(t)
  {
  }

  /** `node_copy_deep` */
  method CopyDeep(node: Node?, copyFunc: Option<Pointer -> Pointer>, ghost t: Tree) returns (copy: Node?, ghost u: Tree)
    requires node != null ==> t.node == node && Holds(t)
    ensures copy == null <==> node == null
    ensures copy != null ==> u.node == copy && fresh(Objs(u)) && CopyOf(u, old(ValueOf(t)), copyFunc)
    decreases t, 1
  {
    hide Objs, Inner, AllObjs, Holds, HoldAll, Linked, ValueOf, ValuesOf, Copied, CopiedAll, Flat, CopyOf, Partial;
    if node == null {
      return null, t;
    }
    Alive(t);
    RootInside(t);
    Walk(t, 0);
    ghost var val := ValueOf(t);
    var data := 0;
    if copyFunc.Some? {
      data := copyFunc.value(node.data);
    }
    var c;
    c, u := CreateRoot(data);
    NothingYet(u, val, copyFunc);
    var ch := node.children.next;
    ghost var i := 0;
    while ch != null
      invariant i <= |t.kids| == |val.kids| && Holds(t) && ValueOf(t) == val
      invariant ch == if i < |t.kids| then t.kids[i].node else null
      invariant u.node == c && |u.kids| == i && (forall n | n in Objs(u) :: fresh(n)) && Partial(u, val, i, copyFunc)
      decreases |t.kids| - i
    {
      Within(t, i);
      Walk(t, i);
      RootsAndList(u);
      u := CopyChild(c, ch, copyFunc, t.kids[i], val, i, u);
      ch := ch.next;
      i := i + 1;
    }
    AllCopied(u, val, copyFunc);
    copy := c;
  }

  lemma Within(t: Tree, i: nat)
    requires Holds(t) && i < |t.kids|
    ensures Holds(t.kids[i]) && |ValueOf(t).kids| == |t.kids| && ValueOf(t.kids[i]) == ValueOf(t).kids[i]
  {
    TakenOut(t.kids, i);
    ValuesAt(t.kids, i);
  }

  lemma {:induction false} ValuesAt(ts: seq<Tree>, i: nat)
    requires i < |ts|
    ensures ValuesOf(ts)[i] == ValueOf(ts[i])
  {
    if i > 0 {
      ValuesAt(ts[1..], i - 1);
    }
  }

  lemma RootsAndList(u: Tree)
    ensures u.node in Objs(u) && u.list in Objs(u) && forall n | n in Roots(u.kids) :: n in Objs(u)
  {
    RootsInside(u.kids);
  }

  // ----- destruction

  ghost function Members(s: seq<Node>): set<Node> {
    set n | n in s
  }

  /** What has been freed: these objects, each once. */
  ghost predicate FreedOnce(freed: seq<Node>, all: set<Node>) {
    Injective(freed) && Members(freed) == all
  }

  lemma FreedTogether(a: seq<Node>, x: set<Node>, b: seq<Node>, y: set<Node>)
    requires FreedOnce(a, x) && FreedOnce(b, y) && x !! y
    ensures FreedOnce(a + b, x + y)
  {
    assert forall n | n in a :: n in Members(a);
    assert forall n | n in b :: n in Members(b);
    assert forall n | n in a + b :: n in a || n in b;
    assert forall i | 0 <= i < |a| :: a[i] in a;
    assert forall i | 0 <= i < |b| :: b[i] in b;
  }

  lemma FreedOne(n: Node)
    ensures FreedOnce([n], {n})
  {
  }

  /** What is left of a list whose first nodes were taken out is proper, or empty. */
  ghost predicate Remains(list: Node, ts: seq<Tree>)
    reads list, Roots(ts), AllInner(ts)
  {
    && HoldAll(ts) && list !in AllObjs(ts)
    && list.next == (if ts == [] then null else ts[0].node)
    && (ts != [] ==> Linked(list, Roots(ts)))
  }

  lemma FirstApart(list: Node, ts: seq<Tree>)
    requires Remains(list, ts) && ts != []
    ensures Linked(list, Roots(ts)) && Holds(ts[0]) && HoldAll(ts[1..]) && list.next == ts[0].node
    ensures AllObjs(ts) == Objs(ts[0]) + AllObjs(ts[1..]) && Objs(ts[0]) !! AllObjs(ts[1..]) && list !in AllObjs(ts)
    ensures AllInner(ts[1..]) <= AllObjs(ts[1..]) && Inner(ts[0]) <= Objs(ts[0])
    ensures Without(Roots(ts), 0) == Roots(ts[1..]) && Roots(ts)[0] == ts[0].node
    ensures ts[0].node !in Inner(ts[0]) && ts[0].node in Objs(ts[0])
    ensures forall n | n in Roots(ts) :: n !in AllInner(ts[1..]) && n !in Inner(ts[0])
    ensures forall n | n in Roots(ts[1..]) :: n in AllObjs(ts[1..])
    ensures forall n | n in AllObjs(ts) :: allocated(n)
    ensures forall n | n in Roots(ts) :: n in AllObjs(ts)
    ensures forall k | 0 <= k < |ts| && Roots(ts)[k] == ts[0].node :: k == 0
    ensures |Roots(ts)| == 1 <==> ts[1..] == []
  {
    RestInside(ts);
    RootsOutside(ts);
    RootsInside(ts[1..]);
    RootsInside(ts);
    AllAlive(ts);
    hide HoldAll, Linked, Holds;
    assert AllInner(ts) == Inner(ts[0]) + AllInner(ts[1..]);
    assert Objs(ts[0]) == {ts[0].node} + Inner(ts[0]);
  }

  /** One round of the loop of `node_destroy` */
  method DestroyFirst(list: Node, ch: Node, ghost ts: seq<Tree>) returns (ghost freed: seq<Node>)
    requires ts != [] && Remains(list, ts) && ch == ts[0].node
    modifies list, Objs(ts[0]), Roots(ts)
    ensures Remains(list, ts[1..]) && list.next == if ts[1..] == [] then null else ts[1].node
    ensures FreedOnce(freed, Objs(ts[0]))
    decreases ts[0], 2
  {
    hide Objs, Inner, AllObjs, AllInner, Holds, HoldAll, Linked, Injective, Members, FreedOnce, Remains, Without;
    FirstApart(list, ts);
    var r, k := Remove(list, ch, Roots(ts));
    assert Holds(ts[0]);
    assert forall n | n in AllInner(ts[1..]) :: n in AllObjs(ts) && n != list && n !in Roots(ts);
    assert forall n | n in Roots(ts[1..]) :: n in AllObjs(ts) && n != list;
    assert HoldAll(ts[1..]);
    freed := Destroy(ch, ts[0]);
    assert HoldAll(ts[1..]);
    assert ts[1..] != [] ==> ts[1..][0] == ts[1];
    assert list.next == if ts[1..] == [] then null else ts[1].node;
    Remaining(list, ts[1..]);
  }

  lemma Remaining(list: Node, ts: seq<Tree>)
    requires HoldAll(ts) && list !in AllObjs(ts) && list.next == (if ts == [] then null else ts[0].node)
    requires ts != [] ==> Linked(list, Roots(ts))
    ensures Remains(list, ts)
  {
  }

  /** The loop of `node_destroy` */
  method DestroyChildren(list: Node, ghost t: Tree) returns (ghost freed: seq<Node>)
    requires Remains(list, t.kids)
    modifies list, AllObjs(t.kids)
    ensures FreedOnce(freed, AllObjs(t.kids))
    decreases t, 0
  {
    hide Objs, Inner, AllObjs, AllInner, Holds, HoldAll, Linked, Injective, Members, FreedOnce, Remains;
    Cuts(list, t.kids);
    freed := [];
    ghost var i := 0;
    var ch := list.next;
    while ch != null
      invariant i <= |t.kids| && Remains(list, t.kids[i..])
      invariant ch == if i < |t.kids| then t.kids[i].node else null
      invariant FreedOnce(freed, AllObjs(t.kids[..i]))
      decreases |t.kids| - i
    {
      ghost var more;
      more := DestroyFirst(list, ch, t.kids[i..]);
      FreedTogether(freed, AllObjs(t.kids[..i]), more, Objs(t.kids[i]));
      freed := freed + more;
      i := i + 1;
      ch := list.next;
    }
    assert t.kids[..i] == t.kids;
  }

  lemma Cuts(list: Node, ts: seq<Tree>)
    requires Remains(list, ts)
    ensures FreedOnce([], AllObjs(ts[..0])) && Remains(list, ts[0..])
    ensures list.next == if ts == [] then null else ts[0].node
    ensures forall i | 0 <= i < |ts| ::
      && ts[i..] != [] && ts[i..][0] == ts[i] && ts[i..][1..] == ts[i + 1..]
      && AllObjs(ts[..i + 1]) == AllObjs(ts[..i]) + Objs(ts[i]) && AllObjs(ts[..i]) !! Objs(ts[i])
      && Objs(ts[i]) <= AllObjs(ts) && (forall n | n in Roots(ts[i..]) :: n in AllObjs(ts))
  {
    assert ts[0..] == ts;
    forall i | 0 <= i < |ts|
      ensures
        && ts[i..] != [] && ts[i..][0] == ts[i] && ts[i..][1..] == ts[i + 1..]
        && AllObjs(ts[..i + 1]) == AllObjs(ts[..i]) + Objs(ts[i]) && AllObjs(ts[..i]) !! Objs(ts[i])
        && Objs(ts[i]) <= AllObjs(ts) && (forall n | n in Roots(ts[i..]) :: n in AllObjs(ts))
    {
      CutAt(ts, i);
    }
  }

  lemma CutAt(ts: seq<Tree>, i: nat)
    requires HoldAll(ts) && i < |ts|
    ensures ts[i..] != [] && ts[i..][0] == ts[i] && ts[i..][1..] == ts[i + 1..]
    ensures AllObjs(ts[..i + 1]) == AllObjs(ts[..i]) + Objs(ts[i]) && AllObjs(ts[..i]) !! Objs(ts[i])
    ensures Objs(ts[i]) <= AllObjs(ts) && (forall n | n in Roots(ts[i..]) :: n in AllObjs(ts))
  {
    hide HoldAll, Holds, AllObjs, Objs;
    assert ts[..i + 1] == ts[..i] + [ts[i]];
    assert ts == ts[..i + 1] + ts[i + 1..];
    assert ts == ts[..i] + ts[i..];
    Alone(ts[i]);
    ObjsJoin(ts[..i], [ts[i]]);
    HoldAllJoin(ts[..i + 1], ts[i + 1..]);
    HoldAllJoin(ts[..i], [ts[i]]);
    ObjsJoin(ts[..i + 1], ts[i + 1..]);
    ObjsJoin(ts[..i], ts[i..]);
    RootsInside(ts[i..]);
  }

  /** `node_destroy`: what is freed, in order, is every node and header of the tree, each once. */
  method Destroy(node: Node?, ghost t: Tree) returns (ghost freed: seq<Node>)
    requires node != null ==> t.node == node && Holds(t)
    modifies if node == null then {} else Objs(t)
    ensures node == null ==> freed == []
    ensures node != null ==> FreedOnce(freed, Objs(t))
    decreases t, 1
  {
    hide Objs, Inner, AllObjs, AllInner, Holds, HoldAll, Linked, Injective, Members, FreedOnce, Remains;
    if node == null {
      return [];
    }
    Apart(t);
    AllRemains(t);
    freed := [];
    if node.children != null && node.children.count > 0 {
      freed := DestroyChildren(node.children, t);
    }
    // node_list_destroy frees the header
    FreedOne(t.list);
    FreedTogether(freed, AllObjs(t.kids), [t.list], {t.list});
    freed := freed + [t.list];
    node.children := null;
    FreedOne(node);
    FreedTogether(freed, AllObjs(t.kids) + {t.list}, [t.node], {t.node});
    freed := freed + [t.node];
    assert Objs(t) == AllObjs(t.kids) + {t.list} + {t.node};
  }

  lemma AllRemains(t: Tree)
    requires Holds(t)
    ensures Remains(t.list, t.kids)
    ensures t.kids == [] ==> FreedOnce([], AllObjs(t.kids))
  {
  }
}
