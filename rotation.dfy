/** What a rotation does to the ghost shape (rbtree.go:63-135).

        left rotation at X               right rotation at X
            X              Y                 X              Y
           / \            / \               / \            / \
          A   Y    ->    X   C             Y   C    ->    A   X
             / \        / \               / \                / \
            B   C      A   B             A   B              B   C

    A rotation with the required child missing (right child for the left
    rotation, left child for the right one) leaves the shape as it is. */
module RbRotation {
  import opened RbShape

  ghost function RotateLeftAt(t: Tree, x: nat): Tree {
    match t
    case Nil => Nil
    case Node(a, i, r) =>
      if i == x then
        (if r.Node? then Node(Node(a, i, r.left), r.id, r.right) else t)
      else Node(RotateLeftAt(a, x), i, RotateLeftAt(r, x))
  }

  ghost function RotateRightAt(t: Tree, x: nat): Tree {
    match t
    case Nil => Nil
    case Node(l, i, c) =>
      if i == x then
        (if l.Node? then Node(l.left, l.id, Node(l.right, i, c)) else t)
      else Node(RotateRightAt(l, x), i, RotateRightAt(c, x))
  }

  /** A rotation keeps the in-order sequence and the set of slots. */
  lemma {:induction false} RotateLeftInorder(t: Tree, x: nat)
    ensures Inorder(RotateLeftAt(t, x)) == Inorder(t)
    ensures Ids(RotateLeftAt(t, x)) == Ids(t)
    ensures Size(RotateLeftAt(t, x)) == Size(t)
  {
    match t
    case Nil =>
    case Node(a, i, r) =>
      if i != x {
        RotateLeftInorder(a, x);
        RotateLeftInorder(r, x);
      }
  }

  lemma {:induction false} RotateRightInorder(t: Tree, x: nat)
    ensures Inorder(RotateRightAt(t, x)) == Inorder(t)
    ensures Ids(RotateRightAt(t, x)) == Ids(t)
    ensures Size(RotateRightAt(t, x)) == Size(t)
  {
    match t
    case Nil =>
    case Node(l, i, c) =>
      if i != x {
        RotateRightInorder(l, x);
        RotateRightInorder(c, x);
      }
  }

  lemma {:induction false} RotateLeftAbsent(t: Tree, x: nat)
    requires x !in Ids(t)
    ensures RotateLeftAt(t, x) == t
  {
    match t
    case Nil =>
    case Node(a, i, r) => RotateLeftAbsent(a, x); RotateLeftAbsent(r, x);
  }

  lemma {:induction false} RotateRightAbsent(t: Tree, x: nat)
    requires x !in Ids(t)
    ensures RotateRightAt(t, x) == t
  {
    match t
    case Nil =>
    case Node(l, i, c) => RotateRightAbsent(l, x); RotateRightAbsent(c, x);
  }

  /** Rotating at a slot below the hole's context only touches the hole's subtree. */
  lemma {:induction false} RotateLeftPlug(c: Ctx, t: Tree, x: nat)
    requires x !in CtxIds(c)
    ensures RotateLeftAt(Plug(c, t), x) == Plug(c, RotateLeftAt(t, x))
  {
    match c
    case Top =>
    case InLeft(up, p, s) =>
      RotateLeftAbsent(s, x);
      RotateLeftPlug(up, Node(t, p, s), x);
    case InRight(s, p, up) =>
      RotateLeftAbsent(s, x);
      RotateLeftPlug(up, Node(s, p, t), x);
  }

  lemma {:induction false} RotateRightPlug(c: Ctx, t: Tree, x: nat)
    requires x !in CtxIds(c)
    ensures RotateRightAt(Plug(c, t), x) == Plug(c, RotateRightAt(t, x))
  {
    match c
    case Top =>
    case InLeft(up, p, s) =>
      RotateRightAbsent(s, x);
      RotateRightPlug(up, Node(t, p, s), x);
    case InRight(s, p, up) =>
      RotateRightAbsent(s, x);
      RotateRightPlug(up, Node(s, p, t), x);
  }

  /** A rotation of a unique shape at one of its slots, seen through the
      slot's context: only the pivot and its child change places. */
  lemma {:induction false} LeftAtContext(c: Ctx, a: Tree, x: nat, r: Tree)
    requires Unique(Plug(c, Node(a, x, r)))
    ensures RotateLeftAt(Plug(c, Node(a, x, r)), x) ==
            Plug(c, if r.Node? then Node(Node(a, x, r.left), r.id, r.right) else Node(a, x, r))
  {
    PlugUnique(c, Node(a, x, r));
    RotateLeftPlug(c, Node(a, x, r), x);
  }

  lemma {:induction false} RightAtContext(c: Ctx, l: Tree, x: nat, r: Tree)
    requires Unique(Plug(c, Node(l, x, r)))
    ensures RotateRightAt(Plug(c, Node(l, x, r)), x) ==
            Plug(c, if l.Node? then Node(l.left, l.id, Node(l.right, x, r)) else Node(l, x, r))
  {
    PlugUnique(c, Node(l, x, r));
    RotateRightPlug(c, Node(l, x, r), x);
  }

  // ---------------------------------------------------------------------
  // The links a rotation writes describe the rotated shape.

  /** The slots a rotation at `x` with pivot child `y` and moved subtree `b`
      can write: the two nodes, the moved subtree's root and x's parent. */
  ghost function Touched(c: Ctx, x: nat, y: nat, b: Tree): set<nat> {
    {x, y, RootId(b), CtxParent(c)}
  }

  /** What the shape's uniqueness says about the slots a rotation touches. */
  lemma {:induction false} RotationSlots(c: Ctx, a: Tree, x: nat, b: Tree, y: nat, cc: Tree,
                      L: seq<nat>, R: seq<nat>, P: seq<nat>)
    requires CtxUnique(c) && Unique(Node(a, x, Node(b, y, cc))) && CtxIds(c) !! Ids(Node(a, x, Node(b, y, cc)))
    requires CtxLinked(c, x, L, R, P) && Linked(Node(a, x, Node(b, y, cc)), CtxParent(c), L, R, P)
    requires |L| == |R| == |P|
    ensures Unique(a) && Unique(b) && Unique(cc)
    ensures Ids(a) !! Touched(c, x, y, b) && Ids(cc) !! Touched(c, x, y, b)
    ensures Ids(b) !! (Touched(c, x, y, b) - {RootId(b)})
    ensures CtxIds(c) !! (Touched(c, x, y, b) - {CtxParent(c)})
    ensures x != y && CtxParent(c) != x && CtxParent(c) != y && RootId(b) != x && RootId(b) != y
    ensures CtxParent(c) != RootId(b) || RootId(b) == 0
    ensures c.InLeft? ==> R[c.pid] != x
    ensures c.InRight? ==> L[c.pid] != x
    ensures Linked(a, x, L, R, P) && Linked(b, y, L, R, P) && Linked(cc, y, L, R, P)
    ensures |L| == |R| == |P| && 0 < x < |L| && 0 < y < |L|
    ensures (!c.Top? ==> 0 < c.pid < |L|) && (b.Node? ==> 0 < b.id < |L|)
    ensures L[x] == RootId(a) && R[x] == y && P[x] == CtxParent(c)
    ensures L[y] == RootId(b) && R[y] == RootId(cc) && P[y] == x
    ensures c.InLeft? ==> L[c.pid] == x
    ensures c.InRight? ==> R[c.pid] == x
  {
    var s := Node(a, x, Node(b, y, cc));
    LinkedIds(s, CtxParent(c), L, R, P);
    CtxLinkedIds(c, x, L, R, P);
    assert CtxParent(c) == 0 || CtxParent(c) in CtxIds(c);
    assert RootId(b) == 0 || RootId(b) in Ids(b);
  }

  /** The writes of a left rotation at `x` touch only the slots of `Touched`. */
  lemma {:induction false} LeftRotateWrites(c: Ctx, x: nat, y: nat, b: Tree,
                         L: seq<nat>, R: seq<nat>, P: seq<nat>,
                         L': seq<nat>, R': seq<nat>, P': seq<nat>)
    requires |L| == |R| == |P| && x < |L| && y < |L|
    requires (!c.Top? ==> c.pid < |L|) && (b.Node? ==> 0 < b.id < |L|)
    requires x != y && CtxParent(c) != x && CtxParent(c) != y && RootId(b) != x && RootId(b) != y
    requires CtxParent(c) != RootId(b) || RootId(b) == 0
    requires L' == (if c.InLeft? then L[c.pid := y] else L)[y := x]
    requires R' == (if c.InRight? then R[x := RootId(b)][c.pid := y] else R[x := RootId(b)])
    requires P' == (if b.Node? then P[b.id := x] else P)[y := CtxParent(c)][x := y]
    ensures SameOutside(Touched(c, x, y, b), L, L') && SameOutside(Touched(c, x, y, b), R, R')
    ensures SameOutside(Touched(c, x, y, b), P, P')
    ensures L'[y] == x && R'[y] == R[y] && P'[y] == CtxParent(c)
    ensures L'[x] == L[x] && R'[x] == RootId(b) && P'[x] == y
    ensures c.InLeft? ==> L'[c.pid] == y && R'[c.pid] == R[c.pid] && P'[c.pid] == P[c.pid]
    ensures c.InRight? ==> R'[c.pid] == y && L'[c.pid] == L[c.pid] && P'[c.pid] == P[c.pid]
    ensures b.Node? ==> L'[b.id] == L[b.id] && R'[b.id] == R[b.id] && P'[b.id] == x
  {
    if b.Node? {
      assert b.id == RootId(b) && b.id != CtxParent(c);
      assert !c.Top? ==> b.id != c.pid;
    }
  }

  /** The links after a left rotation, from the pieces of the shape before it. */
  lemma {:induction false} LeftRotatePieces(c: Ctx, a: Tree, x: nat, b: Tree, y: nat, cc: Tree,
                         L: seq<nat>, R: seq<nat>, P: seq<nat>,
                         L': seq<nat>, R': seq<nat>, P': seq<nat>)
    requires CtxUnique(c) && Unique(b)
    requires Ids(a) !! Touched(c, x, y, b) && Ids(cc) !! Touched(c, x, y, b)
    requires Ids(b) !! (Touched(c, x, y, b) - {RootId(b)})
    requires CtxIds(c) !! (Touched(c, x, y, b) - {CtxParent(c)})
    requires CtxLinked(c, x, L, R, P)
    requires Linked(a, x, L, R, P) && Linked(b, y, L, R, P) && Linked(cc, y, L, R, P)
    requires |L| == |R| == |P| && 0 < x < |L| && 0 < y < |L|
    requires L[x] == RootId(a) && R[y] == RootId(cc)
    requires SameOutside(Touched(c, x, y, b), L, L') && SameOutside(Touched(c, x, y, b), R, R')
    requires SameOutside(Touched(c, x, y, b), P, P')
    requires L'[y] == x && R'[y] == R[y] && P'[y] == CtxParent(c)
    requires L'[x] == L[x] && R'[x] == RootId(b) && P'[x] == y
    requires c.InLeft? ==> L'[c.pid] == y && R'[c.pid] == R[c.pid] && P'[c.pid] == P[c.pid]
    requires c.InRight? ==> R'[c.pid] == y && L'[c.pid] == L[c.pid] && P'[c.pid] == P[c.pid]
    requires b.Node? ==> L'[b.id] == L[b.id] && R'[b.id] == R[b.id] && P'[b.id] == x
    ensures CtxLinked(c, y, L', R', P') && Linked(Node(Node(a, x, b), y, cc), CtxParent(c), L', R', P')
  {
    var S := Touched(c, x, y, b);
    LinkedOutside(a, x, S, L, R, P, L', R', P');
    LinkedOutside(cc, y, S, L, R, P, L', R', P');
    ReparentOutside(b, y, x, S, L, R, P, L', R', P');
    CtxRelinkOutside(c, x, y, S, L, R, P, L', R', P');
    LinkedNode(a, x, b, y, L', R', P');
    LinkedNode(Node(a, x, b), y, cc, CtxParent(c), L', R', P');
  }

  /** A left rotation of a unique, linked shape at the node in the hole of `c`:
      the writes of rbtree.go:81-97 link the rotated shape. */
  lemma {:induction false} LeftRotateShape(c: Ctx, a: Tree, x: nat, b: Tree, y: nat, cc: Tree,
                                           L: seq<nat>, R: seq<nat>, P: seq<nat>,
                                           L': seq<nat>, R': seq<nat>, P': seq<nat>)
    requires Unique(Plug(c, Node(a, x, Node(b, y, cc))))
    requires Linked(Plug(c, Node(a, x, Node(b, y, cc))), 0, L, R, P)
    requires |L| == |R| == |P| && x < |L| && y < |L|
    requires (!c.Top? ==> c.pid < |L|) && (b.Node? ==> b.id < |L|)
    requires L' == (if c.InLeft? then L[c.pid := y] else L)[y := x]
    requires R' == (if c.InRight? then R[x := RootId(b)][c.pid := y] else R[x := RootId(b)])
    requires P' == (if b.Node? then P[b.id := x] else P)[y := CtxParent(c)][x := y]
    ensures Unique(Plug(c, Node(Node(a, x, b), y, cc)))
    ensures Ids(Plug(c, Node(Node(a, x, b), y, cc))) == Ids(Plug(c, Node(a, x, Node(b, y, cc))))
    ensures Size(Plug(c, Node(Node(a, x, b), y, cc))) == Size(Plug(c, Node(a, x, Node(b, y, cc))))
    ensures RootId(Plug(c, Node(Node(a, x, b), y, cc))) ==
            if c.Top? then y else RootId(Plug(c, Node(a, x, Node(b, y, cc))))
    ensures RotateLeftAt(Plug(c, Node(a, x, Node(b, y, cc))), x) == Plug(c, Node(Node(a, x, b), y, cc))
    ensures Linked(Plug(c, Node(Node(a, x, b), y, cc)), 0, L', R', P')
  {
    LeftAtContext(c, a, x, Node(b, y, cc));
    RotateLeftInorder(Plug(c, Node(a, x, Node(b, y, cc))), x);
    PlugRoot(c, Node(a, x, Node(b, y, cc)));
    PlugRoot(c, Node(Node(a, x, b), y, cc));
    var s, s' := Node(a, x, Node(b, y, cc)), Node(Node(a, x, b), y, cc);
    PlugUnique(c, s);
    PlugLinked(c, s, L, R, P);
    RotationSlots(c, a, x, b, y, cc, L, R, P);
    LeftRotateWrites(c, x, y, b, L, R, P, L', R', P');
    LeftRotatePieces(c, a, x, b, y, cc, L, R, P, L', R', P');
    PlugLinked(c, s', L', R', P');
    PlugReplace(c, s, s');
  }

  /** The writes of a right rotation at `x` touch only the slots of `Touched`. */
  lemma {:induction false} RightRotateWrites(c: Ctx, x: nat, y: nat, b: Tree,
                                             L: seq<nat>, R: seq<nat>, P: seq<nat>,
                                             L': seq<nat>, R': seq<nat>, P': seq<nat>)
    requires |L| == |R| == |P| && x < |L| && y < |L|
    requires (!c.Top? ==> c.pid < |L|) && (b.Node? ==> 0 < b.id < |L|)
    requires x != y && CtxParent(c) != x && CtxParent(c) != y && RootId(b) != x && RootId(b) != y
    requires CtxParent(c) != RootId(b) || RootId(b) == 0
    requires L' == (if c.InLeft? then L[x := RootId(b)][c.pid := y] else L[x := RootId(b)])
    requires R' == (if c.InRight? then R[c.pid := y] else R)[y := x]
    requires P' == (if b.Node? then P[b.id := x] else P)[y := CtxParent(c)][x := y]
    ensures SameOutside(Touched(c, x, y, b), L, L') && SameOutside(Touched(c, x, y, b), R, R')
    ensures SameOutside(Touched(c, x, y, b), P, P')
    ensures R'[y] == x && L'[y] == L[y] && P'[y] == CtxParent(c)
    ensures R'[x] == R[x] && L'[x] == RootId(b) && P'[x] == y
    ensures c.InLeft? ==> L'[c.pid] == y && R'[c.pid] == R[c.pid] && P'[c.pid] == P[c.pid]
    ensures c.InRight? ==> R'[c.pid] == y && L'[c.pid] == L[c.pid] && P'[c.pid] == P[c.pid]
    ensures b.Node? ==> L'[b.id] == L[b.id] && R'[b.id] == R[b.id] && P'[b.id] == x
  {
    if b.Node? {
      assert b.id == RootId(b) && b.id != CtxParent(c);
      assert !c.Top? ==> b.id != c.pid;
    }
  }

  lemma {:induction false} RightRotationSlots(c: Ctx, a: Tree, y: nat, b: Tree, x: nat, cc: Tree,
                                              L: seq<nat>, R: seq<nat>, P: seq<nat>)
    requires CtxUnique(c) && Unique(Node(Node(a, y, b), x, cc)) && CtxIds(c) !! Ids(Node(Node(a, y, b), x, cc))
    requires CtxLinked(c, x, L, R, P) && Linked(Node(Node(a, y, b), x, cc), CtxParent(c), L, R, P)
    requires |L| == |R| == |P|
    ensures Unique(a) && Unique(b) && Unique(cc)
    ensures Ids(a) !! Touched(c, x, y, b) && Ids(cc) !! Touched(c, x, y, b)
    ensures Ids(b) !! (Touched(c, x, y, b) - {RootId(b)})
    ensures CtxIds(c) !! (Touched(c, x, y, b) - {CtxParent(c)})
    ensures x != y && CtxParent(c) != x && CtxParent(c) != y && RootId(b) != x && RootId(b) != y
    ensures CtxParent(c) != RootId(b) || RootId(b) == 0
    ensures c.InLeft? ==> R[c.pid] != x
    ensures c.InRight? ==> L[c.pid] != x
    ensures Linked(a, y, L, R, P) && Linked(b, y, L, R, P) && Linked(cc, x, L, R, P)
    ensures 0 < x < |L| && 0 < y < |L|
    ensures (!c.Top? ==> 0 < c.pid < |L|) && (b.Node? ==> 0 < b.id < |L|)
    ensures L[x] == y && R[x] == RootId(cc) && P[x] == CtxParent(c)
    ensures L[y] == RootId(a) && R[y] == RootId(b) && P[y] == x
    ensures c.InLeft? ==> L[c.pid] == x
    ensures c.InRight? ==> R[c.pid] == x
  {
    var s := Node(Node(a, y, b), x, cc);
    LinkedIds(s, CtxParent(c), L, R, P);
    CtxLinkedIds(c, x, L, R, P);
    assert CtxParent(c) == 0 || CtxParent(c) in CtxIds(c);
    assert RootId(b) == 0 || RootId(b) in Ids(b);
  }

  lemma {:induction false} RightRotatePieces(c: Ctx, a: Tree, y: nat, b: Tree, x: nat, cc: Tree,
                                             L: seq<nat>, R: seq<nat>, P: seq<nat>,
                                             L': seq<nat>, R': seq<nat>, P': seq<nat>)
    requires CtxUnique(c) && Unique(b)
    requires Ids(a) !! Touched(c, x, y, b) && Ids(cc) !! Touched(c, x, y, b)
    requires Ids(b) !! (Touched(c, x, y, b) - {RootId(b)})
    requires CtxIds(c) !! (Touched(c, x, y, b) - {CtxParent(c)})
    requires CtxLinked(c, x, L, R, P)
    requires Linked(a, y, L, R, P) && Linked(b, y, L, R, P) && Linked(cc, x, L, R, P)
    requires |L| == |R| == |P| && 0 < x < |L| && 0 < y < |L|
    requires R[x] == RootId(cc) && L[y] == RootId(a)
    requires SameOutside(Touched(c, x, y, b), L, L') && SameOutside(Touched(c, x, y, b), R, R')
    requires SameOutside(Touched(c, x, y, b), P, P')
    requires R'[y] == x && L'[y] == L[y] && P'[y] == CtxParent(c)
    requires R'[x] == R[x] && L'[x] == RootId(b) && P'[x] == y
    requires c.InLeft? ==> L'[c.pid] == y && R'[c.pid] == R[c.pid] && P'[c.pid] == P[c.pid]
    requires c.InRight? ==> R'[c.pid] == y && L'[c.pid] == L[c.pid] && P'[c.pid] == P[c.pid]
    requires b.Node? ==> L'[b.id] == L[b.id] && R'[b.id] == R[b.id] && P'[b.id] == x
    ensures CtxLinked(c, y, L', R', P') && Linked(Node(a, y, Node(b, x, cc)), CtxParent(c), L', R', P')
  {
    var S := Touched(c, x, y, b);
    LinkedOutside(a, y, S, L, R, P, L', R', P');
    LinkedOutside(cc, x, S, L, R, P, L', R', P');
    ReparentOutside(b, y, x, S, L, R, P, L', R', P');
    CtxRelinkOutside(c, x, y, S, L, R, P, L', R', P');
    LinkedNode(b, x, cc, y, L', R', P');
    LinkedNode(a, y, Node(b, x, cc), CtxParent(c), L', R', P');
  }

  /** A right rotation of a unique, linked shape at the node in the hole of
      `c`: the writes of rbtree.go:118-134 link the rotated shape. */
  lemma {:induction false} RightRotateShape(c: Ctx, a: Tree, y: nat, b: Tree, x: nat, cc: Tree,
                                            L: seq<nat>, R: seq<nat>, P: seq<nat>,
                                            L': seq<nat>, R': seq<nat>, P': seq<nat>)
    requires Unique(Plug(c, Node(Node(a, y, b), x, cc)))
    requires Linked(Plug(c, Node(Node(a, y, b), x, cc)), 0, L, R, P)
    requires |L| == |R| == |P| && x < |L| && y < |L|
    requires (!c.Top? ==> c.pid < |L|) && (b.Node? ==> b.id < |L|)
    requires L' == (if c.InLeft? then L[x := RootId(b)][c.pid := y] else L[x := RootId(b)])
    requires R' == (if c.InRight? then R[c.pid := y] else R)[y := x]
    requires P' == (if b.Node? then P[b.id := x] else P)[y := CtxParent(c)][x := y]
    ensures Unique(Plug(c, Node(a, y, Node(b, x, cc))))
    ensures Ids(Plug(c, Node(a, y, Node(b, x, cc)))) == Ids(Plug(c, Node(Node(a, y, b), x, cc)))
    ensures Size(Plug(c, Node(a, y, Node(b, x, cc)))) == Size(Plug(c, Node(Node(a, y, b), x, cc)))
    ensures RootId(Plug(c, Node(a, y, Node(b, x, cc)))) ==
            if c.Top? then y else RootId(Plug(c, Node(Node(a, y, b), x, cc)))
    ensures RotateRightAt(Plug(c, Node(Node(a, y, b), x, cc)), x) == Plug(c, Node(a, y, Node(b, x, cc)))
    ensures Linked(Plug(c, Node(a, y, Node(b, x, cc))), 0, L', R', P')
  {
    RightAtContext(c, Node(a, y, b), x, cc);
    RotateRightInorder(Plug(c, Node(Node(a, y, b), x, cc)), x);
    PlugRoot(c, Node(Node(a, y, b), x, cc));
    PlugRoot(c, Node(a, y, Node(b, x, cc)));
    var s, s' := Node(Node(a, y, b), x, cc), Node(a, y, Node(b, x, cc));
    PlugUnique(c, s);
    PlugLinked(c, s, L, R, P);
    RightRotationSlots(c, a, y, b, x, cc, L, R, P);
    RightRotateWrites(c, x, y, b, L, R, P, L', R', P');
    RightRotatePieces(c, a, y, b, x, cc, L, R, P, L', R', P');
    PlugLinked(c, s', L', R', P');
    PlugReplace(c, s, s');
  }

  /** Where a left rotation at `x` finds its nodes, read off the links. */
  lemma {:induction false} LeftRotateFacts(t: Tree, x: nat, L: seq<nat>, R: seq<nat>, P: seq<nat>)
    returns (c: Ctx, a: Tree, b: Tree, y: nat, cc: Tree)
    requires Unique(t) && Linked(t, 0, L, R, P) && |L| == |R| == |P| && x in Ids(t)
    requires x < |R| && R[x] != 0
    ensures t == Plug(c, Node(a, x, Node(b, y, cc)))
    ensures 0 < x < |L| && 0 < y < |L| && y == R[x] && L[y] == RootId(b) && P[x] == CtxParent(c)
    ensures (!c.Top? ==> 0 < c.pid < |L|) && (b.Node? ==> 0 < b.id < |L|)
    ensures c.Top? <==> CtxParent(c) == 0
    ensures c.InLeft? ==> L[c.pid] == x
    ensures c.InRight? ==> L[c.pid] != x && R[c.pid] == x
    ensures x != y && CtxParent(c) != x && CtxParent(c) != y && RootId(b) != x && RootId(b) != y
    ensures CtxParent(c) != RootId(b) || RootId(b) == 0
  {
    var s;
    c, s := Locate(t, x, Top);
    PlugLinked(c, s, L, R, P);
    PlugUnique(c, s);
    a := s.left;
    y, b, cc := s.right.id, s.right.left, s.right.right;
    RotationSlots(c, a, x, b, y, cc, L, R, P);
  }

  /** Where a right rotation at `x` finds its nodes, read off the links. */
  lemma {:induction false} RightRotateFacts(t: Tree, x: nat, L: seq<nat>, R: seq<nat>, P: seq<nat>)
    returns (c: Ctx, a: Tree, y: nat, b: Tree, cc: Tree)
    requires Unique(t) && Linked(t, 0, L, R, P) && |L| == |R| == |P| && x in Ids(t)
    requires x < |L| && L[x] != 0
    ensures t == Plug(c, Node(Node(a, y, b), x, cc))
    ensures 0 < x < |L| && 0 < y < |L| && y == L[x] && R[y] == RootId(b) && P[x] == CtxParent(c)
    ensures (!c.Top? ==> 0 < c.pid < |L|) && (b.Node? ==> 0 < b.id < |L|)
    ensures c.Top? <==> CtxParent(c) == 0
    ensures c.InLeft? ==> L[c.pid] == x
    ensures c.InRight? ==> L[c.pid] != x && R[c.pid] == x
    ensures x != y && CtxParent(c) != x && CtxParent(c) != y && RootId(b) != x && RootId(b) != y
    ensures CtxParent(c) != RootId(b) || RootId(b) == 0
  {
    var s;
    c, s := Locate(t, x, Top);
    PlugLinked(c, s, L, R, P);
    PlugUnique(c, s);
    cc := s.right;
    y, a, b := s.left.id, s.left.left, s.left.right;
    RightRotationSlots(c, a, y, b, x, cc, L, R, P);
  }

  /** Without the child a rotation needs, the shape stays as it is. */
  lemma {:induction false} RotateNoop(t: Tree, x: nat, L: seq<nat>, R: seq<nat>, P: seq<nat>)
    requires Unique(t) && Linked(t, 0, L, R, P) && (x == 0 || x in Ids(t))
    ensures x < |R| && R[x] == 0 ==> RotateLeftAt(t, x) == t
    ensures x < |L| && L[x] == 0 ==> RotateRightAt(t, x) == t
  {
    if x == 0 {
      LinkedIds(t, 0, L, R, P);
      RotateLeftAbsent(t, 0);
      RotateRightAbsent(t, 0);
    } else {
      var c, s := Locate(t, x, Top);
      PlugLinked(c, s, L, R, P);
      LeftAtContext(c, s.left, x, s.right);
      RightAtContext(c, s.left, x, s.right);
    }
  }

  /** What rbTreeLeftRotate reads before it writes, for a node `x` with a right child. */
  lemma {:induction false} LeftRotateReads(t: Tree, x: nat, L: seq<nat>, R: seq<nat>, P: seq<nat>)
    requires Unique(t) && Linked(t, 0, L, R, P) && |L| == |R| == |P| && x in Ids(t)
    requires x < |R| && R[x] != 0
    ensures 0 < x < |L| && 0 < R[x] < |L| && L[R[x]] < |L| && P[x] < |L|
    ensures x != R[x] && P[x] != x && P[x] != R[x] && L[R[x]] != x && L[R[x]] != R[x]
    ensures P[x] != L[R[x]] || L[R[x]] == 0
    ensures P[x] != 0 ==> L[P[x]] == x || R[P[x]] == x
  {
    var c, a, b, y, cc := LeftRotateFacts(t, x, L, R, P);
  }

  /** The links rbTreeLeftRotate leaves behind describe the rotated shape. */
  lemma {:induction false} LeftRotateResult(t: Tree, x: nat, L: seq<nat>, R: seq<nat>, P: seq<nat>,
                                            L': seq<nat>, R': seq<nat>, P': seq<nat>)
    returns (t': Tree)
    requires Unique(t) && Linked(t, 0, L, R, P) && |L| == |R| == |P| && x in Ids(t)
    requires x < |R| && 0 < R[x] < |L| && L[R[x]] < |L| && P[x] < |L|
    requires L' == (if P[x] != 0 && L[P[x]] == x then L[P[x] := R[x]] else L)[R[x] := x]
    requires R' == (if P[x] != 0 && L[P[x]] != x then R[x := L[R[x]]][P[x] := R[x]] else R[x := L[R[x]]])
    requires P' == (if L[R[x]] != 0 then P[L[R[x]] := x] else P)[R[x] := P[x]][x := R[x]]
    ensures t' == RotateLeftAt(t, x) && Unique(t') && Linked(t', 0, L', R', P')
    ensures Ids(t') == Ids(t) && Size(t') == Size(t) && Inorder(t') == Inorder(t)
    ensures RootId(t') == if P[x] == 0 then R[x] else RootId(t)
  {
    var c, a, b, y, cc := LeftRotateFacts(t, x, L, R, P);
    LeftRotateShape(c, a, x, b, y, cc, L, R, P, L', R', P');
    t' := Plug(c, Node(Node(a, x, b), y, cc));
    RotateLeftInorder(t, x);
  }

  /** What rbTreeRightRotate reads before it writes, for a node `x` with a left child. */
  lemma {:induction false} RightRotateReads(t: Tree, x: nat, L: seq<nat>, R: seq<nat>, P: seq<nat>)
    requires Unique(t) && Linked(t, 0, L, R, P) && |L| == |R| == |P| && x in Ids(t)
    requires x < |L| && L[x] != 0
    ensures 0 < x < |L| && 0 < L[x] < |L| && R[L[x]] < |L| && P[x] < |L|
    ensures x != L[x] && P[x] != x && P[x] != L[x] && R[L[x]] != x && R[L[x]] != L[x]
    ensures P[x] != R[L[x]] || R[L[x]] == 0
    ensures P[x] != 0 ==> L[P[x]] == x || R[P[x]] == x
  {
    var c, a, y, b, cc := RightRotateFacts(t, x, L, R, P);
  }

  /** The links rbTreeRightRotate leaves behind describe the rotated shape. */
  lemma {:induction false} RightRotateResult(t: Tree, x: nat, L: seq<nat>, R: seq<nat>, P: seq<nat>,
                                             L': seq<nat>, R': seq<nat>, P': seq<nat>)
    returns (t': Tree)
    requires Unique(t) && Linked(t, 0, L, R, P) && |L| == |R| == |P| && x in Ids(t)
    requires x < |L| && 0 < L[x] < |L| && R[L[x]] < |L| && P[x] < |L|
    requires L' == (if P[x] != 0 && L[P[x]] == x then L[x := R[L[x]]][P[x] := L[x]] else L[x := R[L[x]]])
    requires R' == (if P[x] != 0 && L[P[x]] != x then R[P[x] := L[x]] else R)[L[x] := x]
    requires P' == (if R[L[x]] != 0 then P[R[L[x]] := x] else P)[L[x] := P[x]][x := L[x]]
    ensures t' == RotateRightAt(t, x) && Unique(t') && Linked(t', 0, L', R', P')
    ensures Ids(t') == Ids(t) && Size(t') == Size(t) && Inorder(t') == Inorder(t)
    ensures RootId(t') == if P[x] == 0 then L[x] else RootId(t)
  {
    var c, a, y, b, cc := RightRotateFacts(t, x, L, R, P);
    RightRotateShape(c, a, y, b, x, cc, L, R, P, L', R', P');
    t' := Plug(c, Node(a, y, Node(b, x, cc)));
    RotateRightInorder(t, x);
  }
}
