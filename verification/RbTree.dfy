/** rb_tree.py RbTreeWalker: a walk that remembers which child addresses it has followed. */
module RbTree {
  import opened Options

  /** The two links of a node in the dump; None if the word is unreadable. */
  datatype Links = Links(left: Option<nat>, right: Option<nat>)

  /** Nodes with a readable word. */
  type Memory = map<nat, Links>

  function LinksOf(m: Memory, node: nat): Links {
    if node in m then m[node] else Links(None, None)
  }

  /** Every address a link of the dump can give. */
  ghost function Targets(m: Memory): set<nat> {
    (set a | a in m && m[a].left.Some? :: m[a].left.value) + (set a | a in m && m[a].right.Some? :: m[a].right.value)
  }

  /** The nodes passed to `func`, the addresses seen, and whether the walk stopped with an error at an unreadable
      link. */
  datatype Trace = Trace(visited: seq<nat>, seen: set<nat>, failed: bool)

  /** rb_tree.py _walk. It ends on every dump, well-formed or not. */
  function Walk(m: Memory, node: nat, seen: set<nat>): (r: Trace)
    ensures seen <= r.seen
    decreases |Targets(m) - seen|
  {
    if node == 0 then Trace([], seen, false)
    else
      var l := Follow(m, LinksOf(m, node).left, seen);
      if l.failed then l
      else
        NoMoreLeft(m, seen, l.seen);
        var r := Follow(m, LinksOf(m, node).right, l.seen);
        Trace(l.visited + [node] + r.visited, r.seen, r.failed)
  }

  /** A link is followed only if its address has not been seen. */
  function Follow(m: Memory, child: Option<nat>, seen: set<nat>): (r: Trace)
    requires child.Some? ==> child.value in Targets(m)
    ensures seen <= r.seen
    decreases |Targets(m) - seen|, 0
  {
    if child.None? then Trace([], seen, true)
    else if child.value in seen then Trace([], seen, false)
    else
      FewerLeft(m, child.value, seen);
      Walk(m, child.value, seen + {child.value})
  }

  lemma {:induction false} FewerLeft(m: Memory, child: nat, seen: set<nat>)
    requires child in Targets(m) && child !in seen
    ensures |Targets(m) - (seen + {child})| < |Targets(m) - seen|
  {
    assert Targets(m) - (seen + {child}) == (Targets(m) - seen) - {child};
  }

  lemma {:induction false} NoMoreLeft(m: Memory, seen: set<nat>, seen': set<nat>)
    requires seen <= seen'
    ensures |Targets(m) - seen'| <= |Targets(m) - seen|
  {
    Smaller(Targets(m) - seen', Targets(m) - seen);
  }

  lemma {:induction false} Smaller(a: set<nat>, b: set<nat>)
    requires a <= b
    ensures |a| <= |b|
  {
    assert b == a + (b - a);
  }

  // ----- any dump -----

  ghost function Once(b: bool): nat { if b then 1 else 0 }

  /** Apart from the node it starts at, a walk visits only addresses it adds to `seen`, each once; and all of them,
      unless it fails. */
  lemma {:induction false} VisitCount(m: Memory, node: nat, seen: set<nat>, x: nat)
    ensures var r := Walk(m, node, seen);
            var most := Once(x == node && x != 0) + Once(x in r.seen && x !in seen && x != 0);
            multiset(r.visited)[x] <= most && (!r.failed ==> multiset(r.visited)[x] == most)
    decreases |Targets(m) - seen|
  {
    if node != 0 {
      var l := Follow(m, LinksOf(m, node).left, seen);
      FollowCount(m, LinksOf(m, node).left, seen, x);
      if !l.failed {
        NoMoreLeft(m, seen, l.seen);
        FollowCount(m, LinksOf(m, node).right, l.seen, x);
        var r := Follow(m, LinksOf(m, node).right, l.seen);
        assert multiset(l.visited + [node] + r.visited) == multiset(l.visited) + multiset{node} + multiset(r.visited);
      }
    }
  }

  lemma {:induction false} FollowCount(m: Memory, child: Option<nat>, seen: set<nat>, x: nat)
    requires child.Some? ==> child.value in Targets(m)
    ensures var r := Follow(m, child, seen);
            var most := Once(x in r.seen && x !in seen && x != 0);
            multiset(r.visited)[x] <= most && (!r.failed ==> multiset(r.visited)[x] == most)
    decreases |Targets(m) - seen|, 0
  {
    if child.Some? && child.value !in seen {
      FewerLeft(m, child.value, seen);
      VisitCount(m, child.value, seen + {child.value}, x);
    }
  }

  /** On any dump, however corrupted, every node is visited at most once and the root at most twice, even if the walk
      fails on the way. */
  lemma {:induction false} VisitedOnce(m: Memory, root: nat, x: nat)
    ensures multiset(Walk(m, root, {}).visited)[x] <= if x == root then 2 else 1
  {
    VisitCount(m, root, {}, x);
  }

  // ----- what is visited -----

  /** A readable link leads from node `a` to `b`. */
  ghost predicate Linked(m: Memory, a: nat, b: nat) {
    a in m && (m[a].left == Some(b) || m[a].right == Some(b))
  }

  /** A chain of nodes, each linked to the next, none of them 0. */
  ghost predicate Path(m: Memory, path: seq<nat>) {
    && path != []
    && (forall i :: 0 <= i < |path| ==> path[i] != 0)
    && (forall i :: 0 < i < |path| ==> Linked(m, path[i - 1], path[i]))
  }

  /** Node `b` can be reached from `a`. */
  ghost predicate Reaches(m: Memory, a: nat, b: nat) {
    exists path :: Path(m, path) && path[0] == a && path[|path| - 1] == b
  }

  lemma {:induction false} ReachesOn(m: Memory, a: nat, b: nat, c: nat)
    requires Reaches(m, a, b) && Linked(m, b, c) && c != 0
    ensures Reaches(m, a, c)
  {
    var path :| Path(m, path) && path[0] == a && path[|path| - 1] == b;
    assert Path(m, path + [c]) && (path + [c])[0] == a;
  }

  /** One of the visited nodes links to `y`. */
  ghost predicate LinkedFrom(m: Memory, visited: seq<nat>, y: nat) {
    exists x :: x in visited && Linked(m, x, y)
  }

  /** What a walk adds to `seen` is what the visited nodes link to, apart from the address `own` that it was entered by;
      and all visited nodes can be reached from `root`. */
  ghost predicate Explained(m: Memory, root: nat, r: Trace, seen: set<nat>, own: Option<nat>) {
    && (forall x :: x in r.visited ==> Reaches(m, root, x))
    && (!r.failed ==> forall x, y :: x in r.visited && Linked(m, x, y) ==> y in r.seen)
    && (!r.failed ==> forall y :: y in r.seen && y !in seen && own != Some(y) ==> LinkedFrom(m, r.visited, y))
  }

  lemma {:induction false} WalkExplained(m: Memory, root: nat, node: nat, seen: set<nat>)
    requires node != 0 ==> Reaches(m, root, node)
    ensures Explained(m, root, Walk(m, node, seen), seen, None)
    decreases |Targets(m) - seen|
  {
    hide Reaches;
    if node != 0 {
      var links := LinksOf(m, node);
      var l := Follow(m, links.left, seen);
      FollowExplained(m, root, node, links.left, seen);
      if !l.failed {
        NoMoreLeft(m, seen, l.seen);
        FollowExplained(m, root, node, links.right, l.seen);
        Combine(m, root, node, seen);
      }
    }
  }

  /** As for a walk, except that the link's own target is linked to by `node`. */
  lemma {:induction false} FollowExplained(m: Memory, root: nat, node: nat, child: Option<nat>, seen: set<nat>)
    requires node != 0 && Reaches(m, root, node) && (child == LinksOf(m, node).left || child == LinksOf(m, node).right)
    ensures child.Some? ==> Linked(m, node, child.value) && child.value in Targets(m)
    ensures var r := Follow(m, child, seen);
            && (!r.failed ==> child.Some? && child.value in r.seen)
            && Explained(m, root, r, seen, child)
    decreases |Targets(m) - seen|, 0
  {
    hide Reaches;
    if child.Some? {
      LinkTarget(m, node, child.value);
      if child.value !in seen {
        FewerLeft(m, child.value, seen);
        if child.value != 0 {
          ReachesOn(m, root, node, child.value);
        }
        WalkExplained(m, root, child.value, seen + {child.value});
      }
    }
  }

  lemma {:induction false} LinkTarget(m: Memory, a: nat, b: nat)
    requires Linked(m, a, b)
    ensures b in Targets(m)
  {
  }

  lemma {:induction false} Combine(m: Memory, root: nat, node: nat, seen: set<nat>)
    requires node != 0 && Reaches(m, root, node) && !Follow(m, LinksOf(m, node).left, seen).failed
    requires var links := LinksOf(m, node);
             var l := Follow(m, links.left, seen);
             var r := Follow(m, links.right, l.seen);
             && links.left.Some? && links.left.value in l.seen && Explained(m, root, l, seen, links.left)
             && (!r.failed ==> links.right.Some? && links.right.value in r.seen)
             && Explained(m, root, r, l.seen, links.right)
    ensures Explained(m, root, Walk(m, node, seen), seen, None)
  {
    hide Reaches, LinkedFrom, Follow;
    var links := LinksOf(m, node);
    var l := Follow(m, links.left, seen);
    var r, w := Follow(m, links.right, l.seen), Walk(m, node, seen);
    assert forall x :: x in w.visited <==> x in l.visited || x == node || x in r.visited;
    if !w.failed {
      forall y | y in w.seen && y !in seen
        ensures LinkedFrom(m, w.visited, y)
      {
        if links.left == Some(y) || links.right == Some(y) {
          Witness(m, w.visited, node, y);
        } else if y in l.seen {
          Widen(m, l.visited, w.visited, y);
        } else {
          Widen(m, r.visited, w.visited, y);
        }
      }
    }
  }

  lemma {:induction false} Witness(m: Memory, visited: seq<nat>, x: nat, y: nat)
    requires x in visited && Linked(m, x, y)
    ensures LinkedFrom(m, visited, y)
  {
  }

  lemma {:induction false} Widen(m: Memory, some: seq<nat>, all: seq<nat>, y: nat)
    requires LinkedFrom(m, some, y) && forall x :: x in some ==> x in all
    ensures LinkedFrom(m, all, y)
  {
  }

  /** When the walk does not fail, it visits exactly the nodes that can be reached from the root, the root twice if and
      only if one of them links back to it, every other node once. */
  lemma {:induction false} VisitsReachable(m: Memory, root: nat)
    requires root != 0 && !Walk(m, root, {}).failed
    ensures forall x :: x in Walk(m, root, {}).visited <==> Reaches(m, root, x)
    ensures forall x :: Reaches(m, root, x) && x != root ==> multiset(Walk(m, root, {}).visited)[x] == 1
    ensures multiset(Walk(m, root, {}).visited)[root] ==
            if exists x :: Reaches(m, root, x) && Linked(m, x, root) then 2 else 1
  {
    var w := Walk(m, root, {});
    assert Path(m, [root]) && [root][0] == root;
    WalkExplained(m, root, root, {});
    VisitCount(m, root, {}, root);
    forall x | Reaches(m, root, x)
      ensures x in w.visited
    {
      var path :| Path(m, path) && path[0] == root && path[|path| - 1] == x;
      PathVisited(m, root, path, |path| - 1);
    }
    hide Reaches;
    forall x | Reaches(m, root, x) && x != root
      ensures multiset(w.visited)[x] == 1
    {
      VisitCount(m, root, {}, x);
      assert x in multiset(w.visited);
    }
  }

  lemma {:induction false} PathVisited(m: Memory, root: nat, path: seq<nat>, k: nat)
    requires root != 0 && !Walk(m, root, {}).failed && Path(m, path) && path[0] == root && k < |path|
    requires Explained(m, root, Walk(m, root, {}), {}, None)
    ensures path[k] in Walk(m, root, {}).visited
    decreases k
  {
    hide Walk, Reaches;
    var w := Walk(m, root, {});
    VisitCount(m, root, {}, path[k]);
    if k > 0 {
      PathVisited(m, root, path, k - 1);
      assert Linked(m, path[k - 1], path[k]);
    }
    assert path[k] in multiset(w.visited);
  }

  /** Both links of a node can be read. */
  ghost predicate Readable(m: Memory, node: nat) {
    LinksOf(m, node).left.Some? && LinksOf(m, node).right.Some?
  }

  /** The walk finishes if and only if every node that can be reached is readable. */
  lemma {:induction false} FinishesExactly(m: Memory, root: nat)
    requires root != 0
    ensures !Walk(m, root, {}).failed <==> forall x :: Reaches(m, root, x) ==> Readable(m, x)
  {
    assert Path(m, [root]) && [root][0] == root;
    assert Reaches(m, root, root);
    hide Reaches, Walk, Readable;
    if forall x :: Reaches(m, root, x) ==> Readable(m, x) {
      ReadableFinishes(m, root, root, {});
    }
    if !Walk(m, root, {}).failed {
      VisitsReachable(m, root);
      VisitedReadable(m, root, {});
    }
  }

  lemma {:induction false} VisitedReadable(m: Memory, node: nat, seen: set<nat>)
    requires !Walk(m, node, seen).failed
    ensures forall x :: x in Walk(m, node, seen).visited ==> Readable(m, x)
    decreases |Targets(m) - seen|
  {
    if node != 0 {
      var links := LinksOf(m, node);
      FollowedReadable(m, links.left, seen);
      var l := Follow(m, links.left, seen);
      NoMoreLeft(m, seen, l.seen);
      FollowedReadable(m, links.right, l.seen);
    }
  }

  lemma {:induction false} FollowedReadable(m: Memory, child: Option<nat>, seen: set<nat>)
    requires child.Some? ==> child.value in Targets(m)
    requires !Follow(m, child, seen).failed
    ensures child.Some? && forall x :: x in Follow(m, child, seen).visited ==> Readable(m, x)
    decreases |Targets(m) - seen|, 0
  {
    if child.value !in seen {
      FewerLeft(m, child.value, seen);
      VisitedReadable(m, child.value, seen + {child.value});
    }
  }

  /** With all reachable nodes readable no step fails. */
  lemma {:induction false} ReadableFinishes(m: Memory, root: nat, node: nat, seen: set<nat>)
    requires node != 0 ==> Reaches(m, root, node)
    requires forall x :: Reaches(m, root, x) ==> Readable(m, x)
    ensures !Walk(m, node, seen).failed
    decreases |Targets(m) - seen|
  {
    hide Reaches;
    if node != 0 {
      FollowFinishes(m, root, node, LinksOf(m, node).left, seen);
      var l := Follow(m, LinksOf(m, node).left, seen);
      NoMoreLeft(m, seen, l.seen);
      FollowFinishes(m, root, node, LinksOf(m, node).right, l.seen);
    }
  }

  lemma {:induction false} FollowFinishes(m: Memory, root: nat, node: nat, child: Option<nat>, seen: set<nat>)
    requires node != 0 && Reaches(m, root, node) && (child == LinksOf(m, node).left || child == LinksOf(m, node).right)
    requires forall x :: Reaches(m, root, x) ==> Readable(m, x)
    ensures child.Some? && child.value in Targets(m) && !Follow(m, child, seen).failed
    decreases |Targets(m) - seen|, 0
  {
    hide Reaches;
    LinkTarget(m, node, child.value);
    if child.value !in seen {
      FewerLeft(m, child.value, seen);
      if child.value != 0 {
        ReachesOn(m, root, node, child.value);
      }
      ReadableFinishes(m, root, child.value, seen + {child.value});
    }
  }

  /** For instance a root that is its own left child. */
  lemma {:induction false} RootVisitedTwice()
    ensures var m := map[8 := Links(Some(8), Some(0))];
            !Walk(m, 8, {}).failed && multiset(Walk(m, 8, {}).visited)[8] == 2
  {
    var m := map[8 := Links(Some(8), Some(0))];
    assert Path(m, [8]) && [8][0] == 8;
    assert Reaches(m, 8, 8);
    forall x | Reaches(m, 8, x)
      ensures x == 8
    {
      var path :| Path(m, path) && path[0] == 8 && path[|path| - 1] == x;
      if |path| > 1 {
        assert Linked(m, path[|path| - 2], path[|path| - 1]);
      }
    }
    ReadableFinishes(m, 8, 8, {});
    VisitsReachable(m, 8);
    assert Linked(m, 8, 8);
  }

  // ----- well-formed trees -----

  datatype Tree = Nil | Node(address: nat, left: Tree, right: Tree)

  ghost function Address(t: Tree): nat {
    if t.Nil? then 0 else t.address
  }

  ghost function Addresses(t: Tree): set<nat> {
    match t
    case Nil => {}
    case Node(a, l, r) => {a} + Addresses(l) + Addresses(r)
  }

  ghost function InOrder(t: Tree): seq<nat> {
    match t
    case Nil => []
    case Node(a, l, r) => InOrder(l) + [a] + InOrder(r)
  }

  /** The dump holds the tree, at distinct addresses. */
  ghost predicate Represents(m: Memory, t: Tree) {
    match t
    case Nil => true
    case Node(a, l, r) =>
      && a != 0 && a in m && m[a] == Links(Some(Address(l)), Some(Address(r)))
      && Represents(m, l) && Represents(m, r)
      && a !in Addresses(l) && a !in Addresses(r) && Addresses(l) !! Addresses(r)
  }

  lemma {:induction false} NoZero(m: Memory, t: Tree)
    requires Represents(m, t)
    ensures 0 !in Addresses(t)
    decreases t
  {
    if t.Node? {
      NoZero(m, t.left);
      NoZero(m, t.right);
    }
  }

  /** Walking a subtree whose inner addresses are unseen gives its nodes in order. */
  lemma {:induction false} WalkTree(m: Memory, t: Tree, seen: set<nat>)
    requires Represents(m, t) && seen !! (Addresses(t) - {Address(t)})
    ensures var w := Walk(m, Address(t), seen);
            !w.failed && w.visited == InOrder(t) && w.seen <= seen + Addresses(t) + {0}
    decreases t, 0
  {
    if t.Node? {
      NoZero(m, t);
      FollowTree(m, t, t.left, seen);
      FollowTree(m, t, t.right, Follow(m, Some(Address(t.left)), seen).seen);
    }
  }

  lemma {:induction false} FollowTree(m: Memory, t: Tree, c: Tree, seen: set<nat>)
    requires t.Node? && (c == t.left || c == t.right) && Represents(m, t) && 0 !in Addresses(t)
    requires seen !! Addresses(c)
    ensures Address(c) in Targets(m)
    ensures var w := Follow(m, Some(Address(c)), seen);
            !w.failed && w.visited == InOrder(c) && w.seen <= seen + Addresses(c) + {0}
    decreases c, 1
  {
    LinkTarget(m, t.address, Address(c));
    if Address(c) !in seen {
      WalkTree(m, c, seen + {Address(c)});
    }
  }

  /** walk visits a well-formed tree in order. */
  lemma {:induction false} WalkInOrder(m: Memory, t: Tree)
    requires Represents(m, t)
    ensures !Walk(m, Address(t), {}).failed && Walk(m, Address(t), {}).visited == InOrder(t)
  {
    WalkTree(m, t, {});
  }
}
