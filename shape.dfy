/** The ghost shape of a red-black tree's node graph.

    The tree lives in an arena: node `i` is slot `i` of a handful of
    sequences, and slot 0 is the shared BLACK sentinel that stands for every
    leaf and for the root's parent.  A `Tree` value records which slots are
    reachable from the root and how they hang together; `Linked` says that the
    arena's left/right/parent links agree with it.  A `Ctx` is a one-hole
    context (a path from a subtree up to the root), used to follow a cursor
    that walks down or up the tree. */
module RbShape {

  /** Node colours (rbtree.go's RED and BLACK). */
  datatype Color = Red | Black

  /** Nil stands for the sentinel; every Node carries the arena index of the node. */
  datatype Tree = Nil | Node(left: Tree, id: nat, right: Tree)

  /** The path from a hole up to the root: the hole is the left (InLeft) or
      right (InRight) child of node `pid`, whose other child is `sibling`. */
  datatype Ctx =
    | Top
    | InLeft(up: Ctx, pid: nat, sibling: Tree)
    | InRight(sibling: Tree, pid: nat, up: Ctx)

  /** The arena index of a subtree's root; the sentinel's index for Nil. */
  function RootId(t: Tree): nat {
    if t.Nil? then 0 else t.id
  }

  ghost function Ids(t: Tree): set<nat> {
    match t
    case Nil => {}
    case Node(l, i, r) => Ids(l) + {i} + Ids(r)
  }

  /** No arena slot occurs twice in the shape. */
  ghost predicate Unique(t: Tree) {
    match t
    case Nil => true
    case Node(l, i, r) =>
      Unique(l) && Unique(r) && i !in Ids(l) && i !in Ids(r) && Ids(l) !! Ids(r)
  }

  /** Left-node-right order of the slots. */
  ghost function Inorder(t: Tree): seq<nat> {
    match t
    case Nil => []
    case Node(l, i, r) => Inorder(l) + [i] + Inorder(r)
  }

  ghost function Size(t: Tree): nat {
    match t
    case Nil => 0
    case Node(l, _, r) => Size(l) + 1 + Size(r)
  }

  /** The slot that the descent to the left from `t` ends on (the sentinel for Nil). */
  ghost function LeftmostId(t: Tree): nat {
    match t
    case Nil => 0
    case Node(l, i, _) => if l.Nil? then i else LeftmostId(l)
  }

  ghost function RightmostId(t: Tree): nat {
    match t
    case Nil => 0
    case Node(_, i, r) => if r.Nil? then i else RightmostId(r)
  }

  /** Put `t` into the hole of `c`. */
  ghost function Plug(c: Ctx, t: Tree): Tree {
    match c
    case Top => t
    case InLeft(up, p, r) => Plug(up, Node(t, p, r))
    case InRight(l, p, up) => Plug(up, Node(l, p, t))
  }

  /** Put `t` into the bottom level of `c` only. */
  ghost function Lift(c: Ctx, t: Tree): Tree
    requires !c.Top?
  {
    if c.InLeft? then Node(t, c.pid, c.sibling) else Node(c.sibling, c.pid, t)
  }

  /** One level of a context, for the uniqueness of slots. */
  lemma {:induction false} LiftUnique(c: Ctx, t: Tree)
    requires !c.Top?
    ensures Unique(Lift(c, t)) <==>
            Unique(t) && Unique(c.sibling) && c.pid !in Ids(t) && c.pid !in Ids(c.sibling) && Ids(t) !! Ids(c.sibling)
    ensures Ids(Lift(c, t)) == Ids(t) + {c.pid} + Ids(c.sibling)
    ensures Plug(c, t) == Plug(c.up, Lift(c, t))
  {
  }

  /** The slot whose child is the hole, or the sentinel at the top. */
  function CtxParent(c: Ctx): nat {
    if c.Top? then 0 else c.pid
  }

  /** The node at the top of a non-empty context. */
  function TopId(c: Ctx): nat
    requires !c.Top?
  {
    if c.up.Top? then c.pid else TopId(c.up)
  }

  ghost function CtxIds(c: Ctx): set<nat> {
    match c
    case Top => {}
    case InLeft(up, p, r) => CtxIds(up) + {p} + Ids(r)
    case InRight(l, p, up) => CtxIds(up) + {p} + Ids(l)
  }

  ghost predicate CtxUnique(c: Ctx) {
    match c
    case Top => true
    case InLeft(up, p, s) =>
      CtxUnique(up) && Unique(s) && p !in Ids(s) && p !in CtxIds(up) && Ids(s) !! CtxIds(up)
    case InRight(s, p, up) =>
      CtxUnique(up) && Unique(s) && p !in Ids(s) && p !in CtxIds(up) && Ids(s) !! CtxIds(up)
  }

  ghost function Depth(c: Ctx): nat {
    match c
    case Top => 0
    case InLeft(up, _, _) => Depth(up) + 1
    case InRight(_, _, up) => Depth(up) + 1
  }

  /** The slots that come before, and after, the hole in left-node-right order. */
  ghost function Before(c: Ctx): seq<nat> {
    match c
    case Top => []
    case InLeft(up, _, _) => Before(up)
    case InRight(l, p, up) => Before(up) + Inorder(l) + [p]
  }

  ghost function After(c: Ctx): seq<nat> {
    match c
    case Top => []
    case InLeft(up, p, r) => [p] + Inorder(r) + After(up)
    case InRight(_, _, up) => After(up)
  }

  /** The arena links L (left), R (right) and P (parent) agree with `t`, whose
      root's parent is slot `p`.  Every node's slot is a real one (not 0). */
  ghost predicate Linked(t: Tree, p: nat, L: seq<nat>, R: seq<nat>, P: seq<nat>) {
    match t
    case Nil => true
    case Node(l, i, r) =>
      0 < i < |L| && i < |R| && i < |P| &&
      L[i] == RootId(l) && R[i] == RootId(r) && P[i] == p &&
      Linked(l, i, L, R, P) && Linked(r, i, L, R, P)
  }

  /** The links of the context agree with it when its hole holds slot `h`. */
  ghost predicate CtxLinked(c: Ctx, h: nat, L: seq<nat>, R: seq<nat>, P: seq<nat>) {
    match c
    case Top => true
    case InLeft(up, p, s) =>
      0 < p < |L| && p < |R| && p < |P| &&
      L[p] == h && R[p] == RootId(s) && P[p] == CtxParent(up) &&
      Linked(s, p, L, R, P) && CtxLinked(up, p, L, R, P)
    case InRight(s, p, up) =>
      0 < p < |L| && p < |R| && p < |P| &&
      L[p] == RootId(s) && R[p] == h && P[p] == CtxParent(up) &&
      Linked(s, p, L, R, P) && CtxLinked(up, p, L, R, P)
  }

  /** Two sequences agree on the slots in S. */
  ghost predicate Agree<T>(S: set<nat>, A: seq<T>, B: seq<T>) {
    |A| == |B| && forall i :: i in S && i < |A| ==> A[i] == B[i]
  }

  // ---------------------------------------------------------------------
  // Plugging a subtree into a context

  lemma {:induction false} PlugIds(c: Ctx, t: Tree)
    ensures Ids(Plug(c, t)) == CtxIds(c) + Ids(t)
  {
    match c
    case Top =>
    case InLeft(up, p, r) => PlugIds(up, Node(t, p, r));
    case InRight(l, p, up) => PlugIds(up, Node(l, p, t));
  }

  lemma {:induction false} PlugUnique(c: Ctx, t: Tree)
    ensures Unique(Plug(c, t)) <==> CtxUnique(c) && Unique(t) && CtxIds(c) !! Ids(t)
  {
    match c
    case Top =>
    case InLeft(up, p, r) => PlugUnique(up, Node(t, p, r));
    case InRight(l, p, up) => PlugUnique(up, Node(l, p, t));
  }

  lemma {:induction false} PlugLinked(c: Ctx, t: Tree, L: seq<nat>, R: seq<nat>, P: seq<nat>)
    ensures Linked(Plug(c, t), 0, L, R, P) <==>
            CtxLinked(c, RootId(t), L, R, P) && Linked(t, CtxParent(c), L, R, P)
  {
    match c
    case Top =>
    case InLeft(up, p, r) => PlugLinked(up, Node(t, p, r), L, R, P);
    case InRight(l, p, up) => PlugLinked(up, Node(l, p, t), L, R, P);
  }

  lemma {:induction false} PlugInorder(c: Ctx, t: Tree)
    ensures Inorder(Plug(c, t)) == Before(c) + Inorder(t) + After(c)
  {
    match c
    case Top =>
    case InLeft(up, p, r) => PlugInorder(up, Node(t, p, r));
    case InRight(l, p, up) => PlugInorder(up, Node(l, p, t));
  }

  /** The root of a plugged shape is the context's top node, or the plugged
      subtree's root when the context is empty. */
  lemma {:induction false} PlugRoot(c: Ctx, t: Tree)
    ensures RootId(Plug(c, t)) == if c.Top? then RootId(t) else TopId(c)
    ensures !c.Top? ==> Plug(c, t).Node?
  {
    match c
    case Top =>
    case InLeft(up, p, r) => PlugRoot(up, Node(t, p, r));
    case InRight(l, p, up) => PlugRoot(up, Node(l, p, t));
  }

  /** Replacing the subtree in the hole by one with the same slots keeps the shape unique. */
  lemma {:induction false} PlugReplace(c: Ctx, t: Tree, t': Tree)
    requires Unique(Plug(c, t)) && Unique(t') && Ids(t') <= Ids(t)
    ensures Unique(Plug(c, t')) && Ids(Plug(c, t')) == Ids(Plug(c, t)) - (Ids(t) - Ids(t'))
  {
    PlugUnique(c, t); PlugUnique(c, t'); PlugIds(c, t); PlugIds(c, t');
  }

  /** Find slot `x` in `t`, where `t` sits in the hole of `acc`. */
  lemma {:induction false} Locate(t: Tree, x: nat, acc: Ctx) returns (c: Ctx, s: Tree)
    requires x in Ids(t)
    ensures Plug(c, s) == Plug(acc, t) && s.Node? && s.id == x
    ensures Depth(c) >= Depth(acc)
  {
    match t
    case Node(l, i, r) =>
      if x == i {
        c, s := acc, t;
      } else if x in Ids(l) {
        c, s := Locate(l, x, InLeft(acc, i, r));
      } else {
        c, s := Locate(r, x, InRight(l, i, acc));
      }
  }

  // ---------------------------------------------------------------------
  // Frames

  lemma {:induction false} LinkedFrame(t: Tree, p: nat, L: seq<nat>, R: seq<nat>, P: seq<nat>,
                                       L': seq<nat>, R': seq<nat>, P': seq<nat>)
    requires Linked(t, p, L, R, P)
    requires Agree(Ids(t), L, L') && Agree(Ids(t), R, R') && Agree(Ids(t), P, P')
    ensures Linked(t, p, L', R', P')
  {
    match t
    case Nil =>
    case Node(l, i, r) =>
      LinkedFrame(l, i, L, R, P, L', R', P');
      LinkedFrame(r, i, L, R, P, L', R', P');
  }

  lemma {:induction false} CtxLinkedFrame(c: Ctx, h: nat, L: seq<nat>, R: seq<nat>, P: seq<nat>,
                                          L': seq<nat>, R': seq<nat>, P': seq<nat>)
    requires CtxLinked(c, h, L, R, P)
    requires Agree(CtxIds(c), L, L') && Agree(CtxIds(c), R, R') && Agree(CtxIds(c), P, P')
    ensures CtxLinked(c, h, L', R', P')
  {
    match c
    case Top =>
    case InLeft(up, p, s) =>
      LinkedFrame(s, p, L, R, P, L', R', P');
      CtxLinkedFrame(up, p, L, R, P, L', R', P');
    case InRight(s, p, up) =>
      LinkedFrame(s, p, L, R, P, L', R', P');
      CtxLinkedFrame(up, p, L, R, P, L', R', P');
  }

  /** Swapping the subtree in the hole changes the size by the difference of the two subtrees. */
  lemma {:induction false} PlugSize(c: Ctx, a: Tree, b: Tree)
    ensures Size(Plug(c, b)) == Size(Plug(c, a)) - Size(a) + Size(b)
  {
    match c
    case Top =>
    case InLeft(up, p, r) => PlugSize(up, Node(a, p, r), Node(b, p, r));
    case InRight(l, p, up) => PlugSize(up, Node(l, p, a), Node(l, p, b));
  }

  /** Relinking the hole of a context: when only the hole's parent's child
      pointer changed (to `h'`), the context stays linked. */
  lemma {:induction false} CtxRelink(c: Ctx, h: nat, h': nat, L: seq<nat>, R: seq<nat>, P: seq<nat>,
                  L': seq<nat>, R': seq<nat>, P': seq<nat>)
    requires CtxLinked(c, h, L, R, P) && CtxUnique(c)
    requires Agree(CtxIds(c) - {CtxParent(c)}, L, L') && Agree(CtxIds(c) - {CtxParent(c)}, R, R')
    requires Agree(CtxIds(c), P, P')
    requires c.InLeft? ==> L'[c.pid] == h' && R'[c.pid] == R[c.pid]
    requires c.InRight? ==> R'[c.pid] == h' && L'[c.pid] == L[c.pid]
    ensures CtxLinked(c, h', L', R', P')
  {
    match c
    case Top =>
    case InLeft(up, p, s) =>
      LinkedFrame(s, p, L, R, P, L', R', P');
      CtxLinkedFrame(up, p, L, R, P, L', R', P');
    case InRight(s, p, up) =>
      LinkedFrame(s, p, L, R, P, L', R', P');
      CtxLinkedFrame(up, p, L, R, P, L', R', P');
  }

  /** Giving a linked subtree's root a new parent pointer (and nothing else
      inside the subtree) keeps it linked under the new parent. */
  lemma {:induction false} Reparent(t: Tree, q: nat, q': nat, L: seq<nat>, R: seq<nat>, P: seq<nat>,
                 L': seq<nat>, R': seq<nat>, P': seq<nat>)
    requires Linked(t, q, L, R, P) && Unique(t)
    requires Agree(Ids(t), L, L') && Agree(Ids(t), R, R') && Agree(Ids(t) - {RootId(t)}, P, P')
    requires t.Node? ==> P'[t.id] == q'
    ensures Linked(t, q', L', R', P')
  {
    match t
    case Nil =>
    case Node(l, i, r) =>
      LinkedFrame(l, i, L, R, P, L', R', P');
      LinkedFrame(r, i, L, R, P, L', R', P');
  }

  /** `B` is `A` except possibly at the slots in `S`. */
  ghost predicate SameOutside<T>(S: set<nat>, A: seq<T>, B: seq<T>) {
    |A| == |B| && forall i :: 0 <= i < |A| && i !in S ==> A[i] == B[i]
  }

  /** Writes outside a subtree's slots leave it linked. */
  lemma {:induction false} LinkedOutside(t: Tree, p: nat, S: set<nat>, L: seq<nat>, R: seq<nat>, P: seq<nat>,
                      L': seq<nat>, R': seq<nat>, P': seq<nat>)
    requires Linked(t, p, L, R, P) && Ids(t) !! S
    requires SameOutside(S, L, L') && SameOutside(S, R, R') && SameOutside(S, P, P')
    ensures Linked(t, p, L', R', P')
  {
    LinkedFrame(t, p, L, R, P, L', R', P');
  }

  /** Writes outside a subtree's slots, except to its root's parent pointer,
      leave it linked under the root's new parent. */
  lemma {:induction false} ReparentOutside(t: Tree, q: nat, q': nat, S: set<nat>, L: seq<nat>, R: seq<nat>, P: seq<nat>,
                        L': seq<nat>, R': seq<nat>, P': seq<nat>)
    requires Linked(t, q, L, R, P) && Unique(t) && Ids(t) !! (S - {RootId(t)})
    requires SameOutside(S, L, L') && SameOutside(S, R, R') && SameOutside(S, P, P')
    requires t.Node? ==> L'[t.id] == L[t.id] && R'[t.id] == R[t.id] && P'[t.id] == q'
    ensures Linked(t, q', L', R', P')
  {
    if t.Node? {
      LinkedIds(t, q, L, R, P);
      Reparent(t, q, q', L, R, P, L', R', P');
    }
  }

  /** Writes outside a context's slots, except to the hole's parent's link to
      the hole, leave the context linked around the new hole `h'`. */
  lemma {:induction false} CtxRelinkOutside(c: Ctx, h: nat, h': nat, S: set<nat>, L: seq<nat>, R: seq<nat>, P: seq<nat>,
                         L': seq<nat>, R': seq<nat>, P': seq<nat>)
    requires CtxLinked(c, h, L, R, P) && CtxUnique(c)
    requires CtxIds(c) !! (S - {CtxParent(c)})
    requires SameOutside(S, L, L') && SameOutside(S, R, R') && SameOutside(S, P, P')
    requires c.InLeft? ==> L'[c.pid] == h' && R'[c.pid] == R[c.pid] && P'[c.pid] == P[c.pid]
    requires c.InRight? ==> R'[c.pid] == h' && L'[c.pid] == L[c.pid] && P'[c.pid] == P[c.pid]
    ensures CtxLinked(c, h', L', R', P')
  {
    CtxLinkedIds(c, h, L, R, P);
    CtxRelink(c, h, h', L, R, P, L', R', P');
  }

  /** A node is linked when its own three links and both subtrees are. */
  lemma {:induction false} LinkedNode(l: Tree, i: nat, r: Tree, p: nat, L: seq<nat>, R: seq<nat>, P: seq<nat>)
    requires 0 < i < |L| && i < |R| && i < |P|
    requires L[i] == RootId(l) && R[i] == RootId(r) && P[i] == p
    requires Linked(l, i, L, R, P) && Linked(r, i, L, R, P)
    ensures Linked(Node(l, i, r), p, L, R, P)
  {
  }

  /** Every node of a linked shape is a real, in-range slot. */
  lemma {:induction false} LinkedIds(t: Tree, p: nat, L: seq<nat>, R: seq<nat>, P: seq<nat>)
    requires Linked(t, p, L, R, P)
    ensures forall i :: i in Ids(t) ==> 0 < i < |L| && i < |R| && i < |P|
  {
    match t
    case Nil =>
    case Node(l, i, r) =>
      LinkedIds(l, i, L, R, P);
      LinkedIds(r, i, L, R, P);
  }

  lemma {:induction false} CtxLinkedIds(c: Ctx, h: nat, L: seq<nat>, R: seq<nat>, P: seq<nat>)
    requires CtxLinked(c, h, L, R, P)
    ensures forall i :: i in CtxIds(c) ==> 0 < i < |L| && i < |R| && i < |P|
  {
    match c
    case Top =>
    case InLeft(up, p, s) =>
      LinkedIds(s, p, L, R, P);
      CtxLinkedIds(up, p, L, R, P);
    case InRight(s, p, up) =>
      LinkedIds(s, p, L, R, P);
      CtxLinkedIds(up, p, L, R, P);
  }

  // ---------------------------------------------------------------------
  // In-order sequence

  lemma {:induction false} InorderIds(t: Tree)
    ensures forall i :: i in Inorder(t) <==> i in Ids(t)
    ensures |Inorder(t)| == Size(t)
  {
    match t
    case Nil =>
    case Node(l, i, r) => InorderIds(l); InorderIds(r);
  }

  lemma {:induction false} LeftmostFirst(t: Tree)
    requires t.Node?
    ensures Inorder(t)[0] == LeftmostId(t)
  {
    match t
    case Node(l, i, r) => if l.Node? { LeftmostFirst(l); }
  }

  lemma {:induction false} RightmostLast(t: Tree)
    requires t.Node?
    ensures Inorder(t)[|Inorder(t)| - 1] == RightmostId(t)
  {
    match t
    case Node(l, i, r) => if r.Node? { RightmostLast(r); }
  }

  /** The slot after `x` in `xs` (the sentinel 0 when `x` is last or absent). */
  ghost function NextAfter(xs: seq<nat>, x: nat): nat {
    if xs == [] then 0
    else if xs[0] == x then (if |xs| > 1 then xs[1] else 0)
    else NextAfter(xs[1..], x)
  }

  /** The first ancestor of the hole that has the hole in its left subtree:
      the in-order successor of the hole's rightmost node. */
  function FirstAfter(c: Ctx): nat {
    match c
    case Top => 0
    case InLeft(_, p, _) => p
    case InRight(_, _, up) => FirstAfter(up)
  }

  lemma {:induction false} NextAfterSplit(a: seq<nat>, x: nat, b: seq<nat>)
    requires x !in a
    ensures NextAfter(a + [x] + b, x) == if b == [] then 0 else b[0]
  {
    if a == [] {
      assert a + [x] + b == [x] + b;
    } else {
      assert (a + [x] + b)[1..] == a[1..] + [x] + b;
      assert a[0] in a;
      NextAfterSplit(a[1..], x, b);
    }
  }

  lemma {:induction false} FirstAfterIsAfter(c: Ctx)
    ensures FirstAfter(c) == if After(c) == [] then 0 else After(c)[0]
  {
    match c
    case Top =>
    case InLeft(up, p, r) =>
    case InRight(l, p, up) => FirstAfterIsAfter(up);
  }

  lemma {:induction false} BeforeIds(c: Ctx)
    ensures forall i :: i in Before(c) ==> i in CtxIds(c)
  {
    match c
    case Top =>
    case InLeft(up, p, r) => BeforeIds(up);
    case InRight(l, p, up) => BeforeIds(up); InorderIds(l);
  }

  lemma {:induction false} AfterIds(c: Ctx)
    ensures forall i :: i in After(c) ==> i in CtxIds(c)
  {
    match c
    case Top =>
    case InLeft(up, p, r) => AfterIds(up); InorderIds(r);
    case InRight(l, p, up) => AfterIds(up);
  }

  /** The leftmost node of a non-empty shape, with its context: it has no left child. */
  lemma {:induction false} LocateLeftmost(t: Tree, acc: Ctx) returns (c: Ctx, s: Tree)
    requires t.Node?
    ensures Plug(c, s) == Plug(acc, t) && s.Node? && s.id == LeftmostId(t) && s.left.Nil?
  {
    if t.left.Nil? {
      c, s := acc, t;
    } else {
      c, s := LocateLeftmost(t.left, InLeft(acc, t.id, t.right));
    }
  }

  /** The leftmost slot of a shape comes first in its in-order sequence and
      nowhere else. */
  lemma {:induction false} LeftmostSplit(t: Tree) returns (rest: seq<nat>)
    requires Unique(t) && t.Node?
    ensures Inorder(t) == [LeftmostId(t)] + rest && LeftmostId(t) !in rest && LeftmostId(t) in Ids(t)
  {
    InorderIds(t.right);
    if t.left.Nil? {
      rest := Inorder(t.right);
      assert Inorder(t) == [t.id] + rest;
      assert t.id !in rest;
    } else {
      var y := LeftmostId(t.left);
      var r0 := LeftmostSplit(t.left);
      assert LeftmostId(t) == y && y in Ids(t.left);
      assert y != t.id && y !in Inorder(t.right);
      rest := r0 + [t.id] + Inorder(t.right);
      assert Inorder(t) == [y] + rest;
      assert y !in rest;
    }
  }

  /** For a node with a right child, the next slot in left-node-right order
      is the leftmost node of that right subtree: the in-order sequence reads
      `a + [x, y] + b` with `y` that leftmost node, each slot once. */
  lemma {:induction false} SuccessorDown(c: Ctx, s: Tree) returns (a: seq<nat>, b: seq<nat>)
    requires Unique(Plug(c, s)) && s.Node? && s.right.Node?
    ensures Inorder(Plug(c, s)) == a + [s.id, LeftmostId(s.right)] + b
    ensures s.id !in a && s.id !in b && s.id != LeftmostId(s.right)
    ensures LeftmostId(s.right) !in a && LeftmostId(s.right) !in b
    ensures NextAfter(Inorder(Plug(c, s)), s.id) == LeftmostId(s.right)
  {
    PlugInorder(c, s);
    PlugUnique(c, s);
    BeforeIds(c);
    AfterIds(c);
    InorderIds(s.left);
    InorderIds(s.right);
    var y := LeftmostId(s.right);
    var rest := LeftmostSplit(s.right);
    a := Before(c) + Inorder(s.left);
    b := rest + After(c);
    assert Inorder(s) == Inorder(s.left) + [s.id] + ([y] + rest);
    Regroup(Before(c), Inorder(s.left), s.id, y, rest, After(c));
    NextAfterSplit(a, s.id, [y] + b);
  }

  /** Re-bracketing the pieces of an in-order sequence around two adjacent slots. */
  lemma {:induction false} Regroup(p: seq<nat>, l: seq<nat>, x: nat, y: nat, r: seq<nat>, q: seq<nat>)
    ensures p + (l + [x] + ([y] + r)) + q == (p + l) + [x, y] + (r + q)
    ensures (p + l) + [x, y] + (r + q) == (p + l) + [x] + ([y] + (r + q))
  {
  }

  /** min and successor as written, on slot 2 over slots 1 and 3: the
      leftmost node of the subtree rooted at slot 3 is 3 itself and the slot
      after 2 is 3, but the leftmost node of the whole shape, which
      `min(3)` and `successor(2)` answer, is 1. */
  lemma {:induction false} WholeTreeMin()
    ensures var t := Node(Node(Nil, 1, Nil), 2, Node(Nil, 3, Nil));
            LeftmostId(t.right) == 3 && NextAfter(Inorder(t), 2) == 3 && LeftmostId(t) == 1
  {
    var t := Node(Node(Nil, 1, Nil), 2, Node(Nil, 3, Nil));
    assert Inorder(t) == [1, 2, 3];
    assert Inorder(t)[1..] == [2, 3];
  }

  /** For a node without a right child, the next slot in left-node-right
      order is the first ancestor that holds it in its left subtree. */
  lemma {:induction false} SuccessorInorder(c: Ctx, l: Tree, x: nat)
    requires Unique(Plug(c, Node(l, x, Nil)))
    ensures NextAfter(Inorder(Plug(c, Node(l, x, Nil))), x) == FirstAfter(c)
  {
    var t := Node(l, x, Nil);
    PlugInorder(c, t);
    PlugUnique(c, t);
    BeforeIds(c);
    InorderIds(l);
    assert Inorder(t) == Inorder(l) + [x];
    assert Inorder(Plug(c, t)) == (Before(c) + Inorder(l)) + [x] + After(c);
    NextAfterSplit(Before(c) + Inorder(l), x, After(c));
    FirstAfterIsAfter(c);
  }

  // ---------------------------------------------------------------------
  // Growing the arena by one slot

  lemma {:induction false} LinkedGrow(t: Tree, p: nat, L: seq<nat>, R: seq<nat>, P: seq<nat>, a: nat, b: nat, q: nat)
    requires Linked(t, p, L, R, P)
    ensures Linked(t, p, L + [a], R + [b], P + [q])
  {
    match t
    case Nil =>
    case Node(l, i, r) =>
      LinkedGrow(l, i, L, R, P, a, b, q);
      LinkedGrow(r, i, L, R, P, a, b, q);
  }

  lemma {:induction false} CtxLinkedGrow(c: Ctx, h: nat, L: seq<nat>, R: seq<nat>, P: seq<nat>, a: nat, b: nat, q: nat)
    requires CtxLinked(c, h, L, R, P)
    ensures CtxLinked(c, h, L + [a], R + [b], P + [q])
  {
    match c
    case Top =>
    case InLeft(up, p, s) =>
      LinkedGrow(s, p, L, R, P, a, b, q);
      CtxLinkedGrow(up, p, L, R, P, a, b, q);
    case InRight(s, p, up) =>
      LinkedGrow(s, p, L, R, P, a, b, q);
      CtxLinkedGrow(up, p, L, R, P, a, b, q);
  }

  /** The links around one node of a linked shape. */
  lemma {:induction false} PlugLinks(c: Ctx, l: Tree, i: nat, r: Tree, L: seq<nat>, R: seq<nat>, P: seq<nat>)
    requires Linked(Plug(c, Node(l, i, r)), 0, L, R, P)
    ensures 0 < i < |L| && i < |R| && i < |P|
    ensures L[i] == RootId(l) && R[i] == RootId(r) && P[i] == CtxParent(c)
    ensures CtxLinked(c, i, L, R, P) && Linked(l, i, L, R, P) && Linked(r, i, L, R, P)
  {
    PlugLinked(c, Node(l, i, r), L, R, P);
  }

  lemma {:induction false} TopIdIn(c: Ctx)
    requires !c.Top?
    ensures TopId(c) in CtxIds(c)
  {
    if !c.up.Top? {
      TopIdIn(c.up);
    }
  }
}
