/** Calls at any node of a tree: what they make of its subtree, they make of the whole tree. */
module TreePaths {
  import opened NodeLists
  import opened NodeTrees

  /** A path of child indices that stays inside t. */
  predicate Leads(t: Tree, path: seq<nat>)
    decreases |path|
  {
    path == [] || (path[0] < |t.kids| && Leads(t.kids[path[0]], path[1..]))
  }

  function At(t: Tree, path: seq<nat>): Tree
    requires Leads(t, path)
    decreases |path|
  {
    if path == [] then t else At(t.kids[path[0]], path[1..])
  }

  /** The tree with another subtree at the end of the path. */
  function Replaced(t: Tree, path: seq<nat>, s: Tree): Tree
    requires Leads(t, path)
    decreases |path|
  {
    if path == [] then s else t.(kids := t.kids[path[0] := Replaced(t.kids[path[0]], path[1..], s)])
  }

  /** No node or header is in two places of t, along the path. */
  ghost predicate Tidy(t: Tree, path: seq<nat>)
    requires Leads(t, path)
    decreases |path|
  {
    path == [] ||
    (var k := path[0];
     && t.node !in AllObjs(t.kids) && t.list !in AllObjs(t.kids) && t.node != t.list
     && AllObjs(t.kids[..k]) !! Objs(t.kids[k]) && AllObjs(t.kids[..k]) !! AllObjs(t.kids[k + 1..])
     && Objs(t.kids[k]) !! AllObjs(t.kids[k + 1..])
     && Tidy(t.kids[k], path[1..]))
  }

  /** The objects of t that are not in the subtree at the end of the path. */
  ghost function Around(t: Tree, path: seq<nat>): set<Node>
    requires Leads(t, path)
  {
    Objs(t) - Objs(At(t, path))
  }

  lemma Parts(ts: seq<Tree>, k: nat)
    requires k < |ts|
    ensures ts == ts[..k] + ([ts[k]] + ts[k + 1..])
    ensures AllObjs(ts) == AllObjs(ts[..k]) + Objs(ts[k]) + AllObjs(ts[k + 1..])
    ensures HoldAll(ts) <==>
      && HoldAll(ts[..k]) && Holds(ts[k]) && HoldAll(ts[k + 1..])
      && AllObjs(ts[..k]) !! Objs(ts[k]) && AllObjs(ts[..k]) !! AllObjs(ts[k + 1..])
      && Objs(ts[k]) !! AllObjs(ts[k + 1..])
  {
    hide Holds, HoldAll, Objs, AllObjs;
    var a, b := ts[..k], ts[k + 1..];
    Pieces(ts, k);
    Alone(ts[k]);
    ObjsJoin([ts[k]], b);
    ObjsJoin(a, [ts[k]] + b);
    HoldAllJoin([ts[k]], b);
    HoldAllJoin(a, [ts[k]] + b);
  }

  lemma {:induction false} AtInside(t: Tree, path: seq<nat>)
    requires Leads(t, path)
    ensures Objs(At(t, path)) <= Objs(t)
    ensures path != [] ==> Objs(At(t, path)) <= Objs(t.kids[path[0]]) <= AllObjs(t.kids)
    decreases |path|
  {
    if path != [] {
      hide AllObjs;
      AtInside(t.kids[path[0]], path[1..]);
      Parts(t.kids, path[0]);
    }
  }

  /** In a tree that holds, the subtree at the end of any path holds. */
  lemma {:induction false} Focus(t: Tree, path: seq<nat>)
    requires Leads(t, path) && Holds(t)
    ensures Holds(At(t, path)) && Tidy(t, path)
    decreases |path|
  {
    if path != [] {
      hide Holds, HoldAll, Objs, AllObjs;
      Apart(t);
      Parts(t.kids, path[0]);
      Focus(t.kids[path[0]], path[1..]);
    }
  }

  /** A replacement brings its own objects and takes those of the old subtree away. */
  lemma {:induction false} ReplacedObjs(t: Tree, path: seq<nat>, s: Tree)
    requires Leads(t, path) && Tidy(t, path) && s.node == At(t, path).node
    ensures Objs(Replaced(t, path, s)) == Around(t, path) + Objs(s)
    ensures Replaced(t, path, s).node == t.node
    decreases |path|
  {
    if path != [] {
      var k, rest := path[0], path[1..];
      var kid := Replaced(t.kids[k], rest, s);
      var us := t.kids[k := kid];
      ReplacedObjs(t.kids[k], rest, s);
      AtInside(t, path);
      assert us[..k] == t.kids[..k] && us[k + 1..] == t.kids[k + 1..];
      hide AllObjs, Tidy;
      Parts(t.kids, k);
      Parts(us, k);
    }
  }

  /** Where the parts of t lie, seen from the subtree at the end of a path that is not empty. */
  lemma Outside(t: Tree, path: seq<nat>)
    requires Leads(t, path) && path != [] && Tidy(t, path)
    ensures var k := path[0];
      && t.node in Around(t, path) && t.list in Around(t, path)
      && AllObjs(t.kids[..k]) <= Around(t, path) && AllObjs(t.kids[k + 1..]) <= Around(t, path)
      && Around(t.kids[k], path[1..]) <= Around(t, path)
      && At(t, path) == At(t.kids[k], path[1..])
      && AllInner(t.kids[..k]) <= Around(t, path) && AllInner(t.kids[k + 1..]) <= Around(t, path)
      && (forall n | n in Roots(t.kids[..k]) :: n in Around(t, path))
      && (forall n | n in Roots(t.kids[k + 1..]) :: n in Around(t, path))
      && (forall n | n in Roots(t.kids) :: n in Around(t, path) || n == At(t, path).node)
  {
    var k := path[0];
    AtInside(t, path);
    AtInside(t.kids[k], path[1..]);
    Parts(t.kids, k);
    RootsInside(t.kids[..k]);
    RootsInside(t.kids[k + 1..]);
    RootPlace(t.kids[k], path[1..]);
    hide AllObjs, AllInner;
    forall n | n in Roots(t.kids)
      ensures n in Around(t, path) || n == At(t, path).node
    {
      var i :| 0 <= i < |t.kids| && t.kids[i].node == n;
      assert i < k ==> Roots(t.kids[..k])[i] == n;
      assert i > k ==> Roots(t.kids[k + 1..])[i - k - 1] == n;
    }
  }

  lemma RootPlace(t: Tree, path: seq<nat>)
    requires Leads(t, path) && Tidy(t, path)
    ensures t.node in Around(t, path) || (path == [] && t.node == At(t, path).node)
  {
    if path != [] {
      AtInside(t, path);
    }
  }

  /** Everything about t holds but what is inside the subtree at the end of the path. */
  ghost predicate Context(t: Tree, path: seq<nat>)
    requires Leads(t, path)
    reads Around(t, path), At(t, path).node`next, At(t, path).node`prev, At(t, path).node`parent
    decreases |path|
  {
    path == [] ||
    (Tidy(t, path) &&
     (Outside(t, path);
      && t.node.children == t.list && t.node.count == |t.kids| && Linked(t.list, Roots(t.kids))
      && (forall n | n in Roots(t.kids) :: n.parent == t.node)
      && HoldAll(t.kids[..path[0]]) && HoldAll(t.kids[path[0] + 1..])
      && Context(t.kids[path[0]], path[1..])))
  }

  lemma {:induction false} HasContext(t: Tree, path: seq<nat>)
    requires Leads(t, path) && Holds(t)
    ensures Context(t, path)
    decreases |path|
  {
    if path != [] {
      Focus(t, path);
      hide Holds, HoldAll, Objs, AllObjs, Linked, Tidy;
      Apart(t);
      Parts(t.kids, path[0]);
      HasContext(t.kids[path[0]], path[1..]);
    }
  }

  lemma ContextMeans(t: Tree, path: seq<nat>)
    requires Leads(t, path) && path != [] && Context(t, path)
    ensures Tidy(t, path) && Tidy(t.kids[path[0]], path[1..]) && Context(t.kids[path[0]], path[1..])
    ensures t.node.children == t.list && t.node.count == |t.kids| && Linked(t.list, Roots(t.kids))
    ensures forall n | n in Roots(t.kids) :: n.parent == t.node
    ensures HoldAll(t.kids[..path[0]]) && HoldAll(t.kids[path[0] + 1..])
  {
  }

  /** The replacement shares nothing with the rest, and has its root where the old one had. */
  lemma ReplacedApart(t: Tree, path: seq<nat>, s: Tree)
    requires Leads(t, path) && path != [] && Tidy(t, path) && s.node == At(t, path).node && Objs(s) !! Around(t, path)
    ensures var k := path[0];
      var kid := Replaced(t.kids[k], path[1..], s);
      var us := t.kids[k := kid];
      && kid.node == t.kids[k].node && us[..k] == t.kids[..k] && us[k + 1..] == t.kids[k + 1..]
      && AllObjs(us[..k]) !! Objs(kid) && AllObjs(us[..k]) !! AllObjs(us[k + 1..]) && Objs(kid) !! AllObjs(us[k + 1..])
      && t.node !in AllObjs(us) + {t.list} && t.list !in AllObjs(us)
      && Objs(s) !! Around(t.kids[k], path[1..])
  {
    var k := path[0];
    var kid := Replaced(t.kids[k], path[1..], s);
    var us := t.kids[k := kid];
    Outside(t, path);
    ReplacedObjs(t.kids[k], path[1..], s);
    Parts(t.kids, k);
    hide AllObjs, Objs;
    assert us[..k] == t.kids[..k] && us[k + 1..] == t.kids[k + 1..];
    Parts(us, k);
  }

  /** A tree with one child's tree exchanged for another with the same root. */
  lemma KidChanged(t: Tree, k: nat, kid: Tree)
    requires k < |t.kids| && kid.node == t.kids[k].node && Holds(kid)
    requires HoldAll(t.kids[..k]) && HoldAll(t.kids[k + 1..])
    requires AllObjs(t.kids[..k]) !! Objs(kid) && AllObjs(t.kids[..k]) !! AllObjs(t.kids[k + 1..])
    requires Objs(kid) !! AllObjs(t.kids[k + 1..])
    requires var us := t.kids[k := kid]; t.node !in AllObjs(us) + {t.list} && t.list !in AllObjs(us)
    requires t.node.children == t.list && t.node.count == |t.kids| && Linked(t.list, Roots(t.kids))
    requires forall n | n in Roots(t.kids) :: n.parent == t.node
    ensures Holds(t.(kids := t.kids[k := kid]))
  {
    hide Holds, HoldAll, AllObjs, Linked, Objs, Roots;
    var us := t.kids[k := kid];
    assert us[..k] == t.kids[..k] && us[k + 1..] == t.kids[k + 1..] && us[k] == kid;
    Parts(us, k);
    RootsAre(us);
    RootsAre(t.kids);
    assert Roots(us) == Roots(t.kids);
    Assembled(t.(kids := us));
  }

  /** Whatever tree the subtree has become, with it the whole is a tree again. */
  lemma {:induction false} Refit(t: Tree, path: seq<nat>, s: Tree)
    requires Leads(t, path) && Context(t, path) && Tidy(t, path)
    requires s.node == At(t, path).node && Holds(s) && Objs(s) !! Around(t, path)
    ensures Holds(Replaced(t, path, s))
    decreases |path|
  {
    if path != [] {
      hide Holds, HoldAll, AllObjs, Linked, Context, Objs, Tidy, Around, Roots;
      var k, rest := path[0], path[1..];
      ContextMeans(t, path);
      ReplacedApart(t, path, s);
      assert At(t, path) == At(t.kids[k], rest);
      Refit(t.kids[k], rest, s);
      KidChanged(t, k, Replaced(t.kids[k], rest, s));
    }
  }

  lemma RootsAre(ts: seq<Tree>)
    ensures |Roots(ts)| == |ts| && forall i | 0 <= i < |ts| :: Roots(ts)[i] == ts[i].node
  {
  }

  // ----- calls at any node

  /** What is needed of the heap around a subtree while it is written to. */
  lemma Ready(p: Tree, path: seq<nat>)
    requires Holds(p) && Leads(p, path)
    ensures var q := At(p, path);
      && Holds(q) && Context(p, path) && Tidy(p, path) && Objs(q) <= Objs(p)
      && q.node != q.list && q.node in Objs(q) && q.list in Objs(q)
      && (forall n | n in Roots(q.kids) :: n in Objs(q) && n != q.node)
      && (forall n | n in Around(p, path) :: allocated(n) && n !in Objs(q) && n in Objs(p))
      && allocated(q.node)
  {
    Focus(p, path);
    HasContext(p, path);
    AtInside(p, path);
    Alive(p);
    var q := At(p, path);
    Apart(q);
  }

  /** `node_attach` at any node: the whole stays a tree. */
  method AttachAt(parent: Node, child: Node, ghost p: Tree, ghost path: seq<nat>, ghost c: Tree) returns (r: int)
    requires Holds(p) && Leads(p, path) && At(p, path).node == parent
    requires c.node == child && Holds(c) && Objs(p) !! Objs(c)
    modifies parent`isLeaf, parent`count
    modifies child`isLeaf, child`isRoot, child`parent, child`depth, child`next, child`prev
    modifies At(p, path).list`next, At(p, path).list`prev, At(p, path).list`count, Roots(At(p, path).kids)`next
    ensures r == 0
    ensures Holds(Replaced(p, path, At(p, path).(kids := At(p, path).kids + [c])))
  {
    hide Holds, HoldAll, AllObjs, Linked, Context, Objs, Tidy, Roots, Around;
    ghost var q := At(p, path);
    Ready(p, path);
    RootInside(c);
    r := AttachGiven(parent, child, q, c);
    assert Context(p, path);
    ObjsOfJoined(q, c);
    Refit(p, path, q.(kids := q.kids + [c]));
  }

  /** `node_insert` at any node */
  method InsertAtNode(parent: Node, index: nat, child: Node, ghost p: Tree, ghost path: seq<nat>, ghost c: Tree)
    returns (r: int)
    requires Holds(p) && Leads(p, path) && At(p, path).node == parent
    requires c.node == child && Holds(c) && Objs(p) !! Objs(c)
    modifies parent`isLeaf, parent`count
    modifies child`isLeaf, child`isRoot, child`parent, child`depth, child`next, child`prev
    modifies At(p, path).list`next, At(p, path).list`prev, At(p, path).list`count
    modifies Roots(At(p, path).kids)`next, Roots(At(p, path).kids)`prev
    ensures r == 0
    ensures Holds(Replaced(p, path, At(p, path).(kids := InsertAt(At(p, path).kids, index, c))))
  {
    hide Holds, HoldAll, AllObjs, Linked, Context, Objs, Tidy, Roots, InsertAt;
    ghost var q := At(p, path);
    Ready(p, path);
    RootInside(c);
    InsertedObjs(q, index, c);
    assert Separate(q, c);
    r := InsertChild(parent, index, child, q, c);
    assert Context(p, path);
    Refit(p, path, q.(kids := InsertAt(q.kids, index, c)));
  }

  lemma InsertedObjs(q: Tree, index: nat, c: Tree)
    requires Holds(q) && Holds(c) && Objs(q) !! Objs(c)
    ensures Objs(q.(kids := InsertAt(q.kids, index, c))) == Objs(q) + Objs(c)
  {
    hide HoldAll, Linked;
    Apart(q);
    Inserted(q.kids, index, c);
  }

  /** `node_detach` at any node, when the list does not lose its end */
  method DetachAt(parent: Node, child: Node, ghost p: Tree, ghost path: seq<nat>) returns (ghost k: nat)
    requires Holds(p) && Leads(p, path) && At(p, path).node == parent && child in Roots(At(p, path).kids)
    requires !LosesEnd(Roots(At(p, path).kids), child)
    modifies parent`count
    modifies At(p, path).list`next, At(p, path).list`prev, At(p, path).list`count
    modifies Roots(At(p, path).kids)`next, Roots(At(p, path).kids)`prev
    ensures k < |At(p, path).kids| && At(p, path).kids[k].node == child && Holds(At(p, path).kids[k])
    ensures Holds(Replaced(p, path, At(p, path).(kids := Without(At(p, path).kids, k))))
  {
    hide Holds, HoldAll, AllObjs, Linked, Context, Objs, Tidy, Roots, Without;
    ghost var q := At(p, path);
    Ready(p, path);
    WithoutObjs(q);
    k := DetachGiven(parent, child, q);
    assert Context(p, path);
    Refit(p, path, q.(kids := Without(q.kids, k)));
  }

  lemma WithoutObjs(q: Tree)
    requires Holds(q)
    ensures forall k | 0 <= k < |q.kids| :: Objs(q.(kids := Without(q.kids, k))) <= Objs(q)
  {
    Apart(q);
    hide Holds, HoldAll, Linked;
    forall k | 0 <= k < |q.kids|
      ensures Objs(q.(kids := Without(q.kids, k))) <= Objs(q)
    {
      TakenOut(q.kids, k);
    }
  }
}
