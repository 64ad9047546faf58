/**
 Nodes of the shared zone and the binary tree over them, ordered by hash and
 key bytes. Balancing is left free: only the in-order sequence is fixed.
 */
module IdentityTree {
  import opened Keys

  class Node {
    const hash: nat
    const key: string
    const events: array<int>
    var blockedUntil: int
    var lastSeen: int
    var eventHead: nat
    var eventCount: nat
    var csGeneration: nat
    var csAction: nat
    var redisPulled: bool

    /** A zeroed node with an event ring of `threshold` slots, last seen now. */
    constructor (hash: nat, key: string, threshold: nat, now: int)
      ensures this.hash == hash && this.key == key && lastSeen == now
      ensures blockedUntil == 0 && eventHead == 0 && eventCount == 0
      ensures csGeneration == 0 && csAction == 0 && !redisPulled
      ensures fresh(events) && events.Length == threshold
    {
      this.hash, this.key, lastSeen := hash, key, now;
      events := new int[threshold];
      blockedUntil, eventHead, eventCount, csGeneration, csAction, redisPulled := 0, 0, 0, 0, 0, false;
    }
  }

  datatype Tree = Leaf | Branch(left: Tree, node: Node, right: Tree)

  predicate Less(a: Node, b: Node) {
    Before(a.hash, a.key, b.hash, b.key)
  }

  function InOrder(t: Tree): seq<Node> {
    match t
    case Leaf => []
    case Branch(l, n, r) => InOrder(l) + [n] + InOrder(r)
  }

  predicate Holds(t: Tree, n: Node) {
    n in InOrder(t)
  }

  predicate Ordered(s: seq<Node>) {
    forall i, j :: 0 <= i < j < |s| ==> Less(s[i], s[j])
  }

  /** A search tree is a smaller, an equal and a larger part. */
  lemma OrderedParts(a: seq<Node>, n: Node, b: seq<Node>)
    ensures Ordered(a + [n] + b) <==>
      && Ordered(a) && Ordered(b)
      && (forall x :: x in a ==> Less(x, n)) && (forall x :: x in b ==> Less(n, x))
  {
    var s := a + [n] + b;
    if Ordered(s) {
      assert forall i :: 0 <= i < |a| ==> s[i] == a[i];
      assert s[|a|] == n;
      assert forall i :: 0 <= i < |b| ==> s[|a| + 1 + i] == b[i];
    } else if Ordered(a) && Ordered(b)
              && (forall x :: x in a ==> Less(x, n)) && (forall x :: x in b ==> Less(n, x)) {
      forall i, j | 0 <= i < j < |s| ensures Less(s[i], s[j]) {
        if i < |a| && |a| < j {
          assert s[i] in a && s[j] in b;
          BeforeIsTransitive(s[i].hash, s[i].key, n.hash, n.key, s[j].hash, s[j].key);
        }
      }
    }
  }

  lemma OrderedBranch(l: Tree, n: Node, r: Tree)
    ensures Ordered(InOrder(Branch(l, n, r))) <==>
      && Ordered(InOrder(l)) && Ordered(InOrder(r))
      && (forall x :: Holds(l, x) ==> Less(x, n)) && (forall x :: Holds(r, x) ==> Less(n, x))
    ensures forall x :: Holds(Branch(l, n, r), x) <==> Holds(l, x) || x == n || Holds(r, x)
  {
    var a, b := InOrder(l), InOrder(r);
    OrderedParts(a, n, b);
    assert InOrder(Branch(l, n, r)) == a + [n] + b;
    assert forall x :: Holds(Branch(l, n, r), x) <==> x in a || x == n || x in b;
    if (forall x :: Holds(l, x) ==> Less(x, n)) && (forall x :: Holds(r, x) ==> Less(n, x)) {
      forall x | x in a ensures Less(x, n) { assert Holds(l, x); }
      forall x | x in b ensures Less(n, x) { assert Holds(r, x); }
    }
    if Ordered(a + [n] + b) {
      forall x | Holds(l, x) ensures Less(x, n) { assert x in a; }
      forall x | Holds(r, x) ensures Less(n, x) { assert x in b; }
    }
  }

  // ---- Search ----

  /** Descends by hash, then by key bytes; null when the key is not in the tree. */
  method Search(root: Tree, hash: nat, key: string) returns (found: Node?)
    requires Ordered(InOrder(root))
    ensures found != null ==> found in InOrder(root) && found.hash == hash && found.key == key
    ensures found == null ==> forall n :: n in InOrder(root) ==> n.hash != hash || n.key != key
  {
    var t := root;
    while t.Branch?
      invariant Ordered(InOrder(t)) && forall n :: n in InOrder(t) ==> n in InOrder(root)
      invariant forall n :: n in InOrder(root) && n.hash == hash && n.key == key ==> n in InOrder(t)
      decreases t
    {
      var m := t.node;
      OrderedParts(InOrder(t.left), m, InOrder(t.right));
      CompareAntisymmetric(key, m.key);
      forall n | n in InOrder(t) && n.hash == hash && n.key == key
        ensures n == m || (Before(hash, key, m.hash, m.key) && n in InOrder(t.left))
                       || (Before(m.hash, m.key, hash, key) && n in InOrder(t.right))
      {
      }
      BeforeIsTotal(hash, key, m.hash, m.key);
      if hash < m.hash {
        t := t.left;
      } else if m.hash < hash {
        t := t.right;
      } else {
        var rc := Compare(key, m.key);
        if rc == 0 {
          return m;
        }
        t := if rc < 0 then t.left else t.right;
      }
    }
    return null;
  }

  // ---- Insertion ----

  function Inserted(t: Tree, n: Node): Tree {
    match t
    case Leaf => Branch(Leaf, n, Leaf)
    case Branch(l, m, r) =>
      if Less(n, m) then Branch(Inserted(l, n), m, r) else Branch(l, m, Inserted(r, n))
  }

  lemma {:induction false} InsertedKeepsOrder(t: Tree, n: Node)
    requires Ordered(InOrder(t))
    requires forall x :: Holds(t, x) ==> x.hash != n.hash || x.key != n.key
    ensures Ordered(InOrder(Inserted(t, n)))
    ensures forall x :: Holds(Inserted(t, n), x) <==> x == n || Holds(t, x)
  {
    match t
    case Leaf =>
    case Branch(l, m, r) =>
      OrderedBranch(l, m, r);
      assert Holds(t, m);
      BeforeIsTotal(n.hash, n.key, m.hash, m.key);
      if Less(n, m) {
        InsertedKeepsOrder(l, n);
        OrderedBranch(Inserted(l, n), m, r);
      } else {
        InsertedKeepsOrder(r, n);
        OrderedBranch(l, m, Inserted(r, n));
      }
  }

  // ---- Deletion ----

  /** The tree without its least node, and that node. */
  function Least(t: Tree): (Node, Tree)
    requires t.Branch?
  {
    if t.left.Leaf? then (t.node, t.right)
    else
      var (n, l) := Least(t.left);
      (n, Branch(l, t.node, t.right))
  }

  lemma {:induction false} LeastIsFirst(t: Tree)
    requires t.Branch?
    ensures InOrder(t) == [Least(t).0] + InOrder(Least(t).1)
  {
    if t.left.Branch? {
      LeastIsFirst(t.left);
    }
  }

  /** The two subtrees of a deleted node, the least of the right one on top. */
  function Joined(l: Tree, r: Tree): Tree {
    if l.Leaf? then r else if r.Leaf? then l
    else
      var (n, rest) := Least(r);
      Branch(l, n, rest)
  }

  function Removed(t: Tree, n: Node): Tree {
    match t
    case Leaf => Leaf
    case Branch(l, m, r) =>
      if m == n then Joined(l, r)
      else if Less(n, m) then Branch(Removed(l, n), m, r)
      else Branch(l, m, Removed(r, n))
  }

  lemma OrderedGap(a: seq<Node>, n: Node, b: seq<Node>)
    requires Ordered(a + [n] + b)
    ensures Ordered(a + b)
  {
    var w := a + [n] + b;
    assert forall i :: 0 <= i < |a + b| ==> (a + b)[i] == w[if i < |a| then i else i + 1];
  }

  lemma JoinedKeepsOrder(l: Tree, n: Node, r: Tree)
    requires Ordered(InOrder(Branch(l, n, r)))
    ensures Ordered(InOrder(Joined(l, r)))
    ensures forall x :: Holds(Joined(l, r), x) <==> Holds(l, x) || Holds(r, x)
  {
    if r.Branch? { LeastIsFirst(r); }
    var a, b := InOrder(l), InOrder(r);
    assert InOrder(Joined(l, r)) == a + b;
    OrderedGap(a, n, b);
    assert forall x :: Holds(l, x) <==> x in a;
    assert forall x :: Holds(r, x) <==> x in b;
    assert forall x :: Holds(Joined(l, r), x) <==> x in a + b;
  }

  lemma {:induction false} RemovedKeepsOrder(t: Tree, n: Node)
    requires Ordered(InOrder(t))
    ensures Ordered(InOrder(Removed(t, n)))
    ensures forall x :: Holds(Removed(t, n), x) <==> x != n && Holds(t, x)
  {
    match t
    case Leaf =>
    case Branch(l, m, r) =>
      OrderedBranch(l, m, r);
      BeforeIsTotal(n.hash, n.key, n.hash, n.key);
      BeforeIsTotal(n.hash, n.key, m.hash, m.key);
      if m == n {
        JoinedKeepsOrder(l, m, r);
      } else if Less(n, m) {
        RemovedKeepsOrder(l, n);
        OrderedBranch(Removed(l, n), m, r);
      } else {
        RemovedKeepsOrder(r, n);
        OrderedBranch(l, m, Removed(r, n));
      }
  }

  /** The two updates, said of the in-order sequences. */
  lemma InsertedNodes(t: Tree, n: Node)
    requires Ordered(InOrder(t))
    requires forall x :: x in InOrder(t) ==> x.hash != n.hash || x.key != n.key
    ensures Ordered(InOrder(Inserted(t, n)))
    ensures forall x :: x in InOrder(Inserted(t, n)) <==> x == n || x in InOrder(t)
  {
    assert forall x :: Holds(t, x) <==> x in InOrder(t);
    InsertedKeepsOrder(t, n);
    assert forall x :: Holds(Inserted(t, n), x) <==> x in InOrder(Inserted(t, n));
  }

  lemma RemovedNodes(t: Tree, n: Node)
    requires Ordered(InOrder(t))
    ensures Ordered(InOrder(Removed(t, n)))
    ensures forall x :: x in InOrder(Removed(t, n)) <==> x != n && x in InOrder(t)
  {
    RemovedKeepsOrder(t, n);
    assert forall x :: Holds(t, x) <==> x in InOrder(t);
    assert forall x :: Holds(Removed(t, n), x) <==> x in InOrder(Removed(t, n));
  }

  // ---- Balancing ----

  /** Any rotations anywhere; callers learn only that the order is kept. */
  method Rebalance(t: Tree) returns (r: Tree)
    ensures InOrder(r) == InOrder(t)
    decreases t
  {
    match t
    case Leaf => r := Leaf;
    case Branch(l, n, right) =>
      var a := Rebalance(l);
      var b := Rebalance(right);
      r := Branch(a, n, b);
      if {
        case a.Branch? => r := Branch(a.left, a.node, Branch(a.right, n, b));
        case b.Branch? => r := Branch(Branch(a, n, b.left), b.node, b.right);
        case true =>
      }
      assert InOrder(r) == InOrder(a) + [n] + InOrder(b);
  }
}
