/** The colour repair after an insertion (insertFixUp, rbtree.go:188-232).

    The cursor `cur` sits at the root of subtree `s` in context `c`.  While
    the loop runs, `Fixing(c, s, C)` holds: the cursor is RED and every rule
    holds except, possibly, that its parent is RED as well.  Each lemma below
    is one branch of the loop body: the recolouring that moves the cursor up
    two levels, the inner rotation that turns a zig-zag into a straight line,
    and the outer rotation that ends the repair. */
module RbInsertFix {
  import opened RbShape
  import opened RbColors
  import opened RbRotation
  import opened RbArena

  /** The loop invariant of insertFixUp, for the cursor subtree `s` in context `c`. */
  ghost predicate Fixing(c: Ctx, s: Tree, C: seq<Color>) {
    s.Node? && ColorAt(C, s.id) == Red &&
    Balanced(s, C) && CtxBalanced(c, C, BH(s, C)) &&
    RedOk(s, C) && CtxRedOk(c, C, Black) &&
    (c.Top? || ColorAt(C, TopId(c)) == Black)
  }

  /** Recolouring three distinct slots outside `S` leaves `S`'s colours alone. */
  lemma {:induction false} Recolor3(S: set<nat>, C: seq<Color>, C': seq<Color>,
                                    a: nat, ca: Color, b: nat, cb: Color, d: nat, cd: Color)
    requires a < |C| && b < |C| && d < |C| && a != b && a != d && b != d
    requires C' == C[a := ca][b := cb][d := cd]
    requires a !in S && b !in S && d !in S
    ensures ColorsAgree(S, C, C')
    ensures ColorAt(C', a) == ca && ColorAt(C', b) == cb && ColorAt(C', d) == cd
  {
  }

  /** Recolouring two distinct slots outside `S` leaves `S`'s colours alone. */
  lemma {:induction false} Recolor2(S: set<nat>, C: seq<Color>, C': seq<Color>, a: nat, ca: Color, b: nat, cb: Color)
    requires a < |C| && b < |C| && a != b && C' == C[a := ca][b := cb]
    requires a !in S && b !in S
    ensures ColorsAgree(S, C, C')
    ensures ColorAt(C', a) == ca && ColorAt(C', b) == cb
  {
  }

  /** The slots of a cursor's parent `p`, grandparent `g` and uncle `u`
      occur nowhere else in the shape. */
  lemma {:induction false} FamilySlots(c: Ctx, s: Tree)
    requires Unique(Plug(c, s)) && !c.Top? && !c.up.Top?
    ensures var p, g, u, c2 := c.pid, c.up.pid, c.up.sibling, c.up.up;
      p != g && {p, g} !! Ids(s) && {p, g} !! Ids(c.sibling) && {p, g} !! Ids(u) && {p, g} !! CtxIds(c2) &&
      Unique(u) && Ids(u) !! Ids(s) && Ids(u) !! Ids(c.sibling) && Ids(u) !! CtxIds(c2)
    ensures Plug(c, s) == Plug(c.up.up, Lift(c.up, Lift(c, s)))
  {
    var pt := Lift(c, s);
    var gt := Lift(c.up, pt);
    LiftUnique(c, s);
    LiftUnique(c.up, pt);
    PlugUnique(c.up.up, gt);
  }

  /** The uncle's own slot and its children's slots, apart from the rest. */
  lemma {:induction false} UncleSlots(u: Tree, S: set<nat>)
    requires u.Node? && Unique(u) && Ids(u) !! S
    ensures u.id !in S && u.id !in Ids(u.left) && u.id !in Ids(u.right)
    ensures Ids(u.left) !! S && Ids(u.right) !! S
  {
  }

  /** A freshly hung RED leaf in a red-black tree starts the repair. */
  lemma {:induction false} FixingStart(c: Ctx, n: nat, C: seq<Color>, C': seq<Color>)
    requires RedBlack(Plug(c, Nil), C)
    requires n == |C| && C' == C + [Red]
    requires forall i :: i in Ids(Plug(c, Nil)) ==> i < |C|
    ensures Fixing(c, Node(Nil, n, Nil), C')
  {
    PlugIds(c, Nil);
    PlugRedOk(c, Nil, C);
    PlugBalanced(c, Nil, C);
    PlugRoot(c, Nil);
    assert ColorsAgree(CtxIds(c), C, C') by {
      forall i | i in CtxIds(c) ensures ColorAt(C, i) == ColorAt(C', i) {
        assert C'[i] == C[i];
      }
    }
    CtxColorFrame(c, C, C');
    if !c.Top? {
      TopIdIn(c);
    }
  }

  /** When the cursor's parent is BLACK (or there is none) the rules hold everywhere but at the root. */
  lemma {:induction false} FixingDone(c: Ctx, s: Tree, C: seq<Color>)
    requires Fixing(c, s, C) && (c.Top? || ColorAt(C, c.pid) == Black)
    ensures RedOk(Plug(c, s), C) && Balanced(Plug(c, s), C)
  {
    CtxRedOkAny(c, C, ColorOf(s, C));
    PlugRedOk(c, s, C);
    PlugBalanced(c, s, C);
  }

  /** The cursor's parent is RED, so neither it nor the grandparent is the top. */
  lemma {:induction false} FixingParent(c: Ctx, s: Tree, C: seq<Color>)
    requires Fixing(c, s, C) && !c.Top? && ColorAt(C, c.pid) == Red
    ensures !c.up.Top? && ColorAt(C, c.up.pid) == Black
    ensures ColorOf(c.sibling, C) == Black && RedOk(c.sibling, C)
    ensures TopId(c) == TopId(c.up)
  {
    CtxUp(c, C, BH(s, C), Black);
    if !c.up.Top? {
      CtxUp(c.up, C, BH(s, C), Red);
    }
  }

  /** The subtree of Case 1 after its recolouring: the grandparent is RED
      over two BLACK children and the black height grew by one. */
  lemma {:induction false} RecolorTree(c: Ctx, s: Tree, C: seq<Color>, C': seq<Color>)
    requires !c.Top? && !c.up.Top? && c.up.sibling.Node?
    requires Balanced(s, C) && RedOk(s, C)
    requires Balanced(c.sibling, C) && RedOk(c.sibling, C) && BH(c.sibling, C) == BH(s, C)
    requires Balanced(c.up.sibling, C) && RedOk(c.up.sibling, C) && BH(c.up.sibling, C) == BH(s, C)
    requires ColorOf(c.up.sibling, C) == Red
    requires ColorsAgree(Ids(s), C, C') && ColorsAgree(Ids(c.sibling), C, C')
    requires ColorsAgree(Ids(c.up.sibling.left), C, C') && ColorsAgree(Ids(c.up.sibling.right), C, C')
    requires ColorAt(C', c.pid) == Black && ColorAt(C', c.up.sibling.id) == Black && ColorAt(C', c.up.pid) == Red
    ensures Balanced(Lift(c.up, Lift(c, s)), C') && RedOk(Lift(c.up, Lift(c, s)), C')
    ensures BH(Lift(c.up, Lift(c, s)), C') == BH(s, C) + 1
  {
    var u := c.up.sibling;
    ColorFrame(s, C, C');
    ColorFrame(c.sibling, C, C');
    ColorFrame(u.left, C, C');
    ColorFrame(u.right, C, C');
    BalancedRight(u, C);
    LiftColors(c, s, C');
    LiftColors(c.up, Lift(c, s), C');
  }

  /** What Case 1 reads off the invariant before it recolours. */
  lemma {:induction false} RecolorBefore(c: Ctx, s: Tree, C: seq<Color>)
    requires Fixing(c, s, C)
    requires !c.Top? && ColorAt(C, c.pid) == Red && !c.up.Top? && ColorOf(c.up.sibling, C) == Red
    ensures Balanced(s, C) && RedOk(s, C)
    ensures Balanced(c.sibling, C) && RedOk(c.sibling, C) && BH(c.sibling, C) == BH(s, C)
    ensures Balanced(c.up.sibling, C) && RedOk(c.up.sibling, C) && BH(c.up.sibling, C) == BH(s, C)
    ensures CtxBalanced(c.up.up, C, BH(s, C) + 1) && CtxRedOk(c.up.up, C, Black)
    ensures c.up.up.Top? || ColorAt(C, TopId(c.up.up)) == Black
  {
    var h := BH(s, C);
    FixingParent(c, s, C);
    CtxUp(c, C, h, Black);
    assert Weight(C, c.pid) == 0;
    CtxUp(c.up, C, h, Red);
  }

  /** Case 1 recolours the parent, the uncle and the grandparent, and no other slot. */
  lemma {:induction false} RecolorFrame(c: Ctx, s: Tree, C: seq<Color>, C': seq<Color>)
    requires Unique(Plug(c, s)) && !c.Top? && !c.up.Top? && c.up.sibling.Node?
    requires c.pid < |C| && c.up.pid < |C| && c.up.sibling.id < |C|
    requires C' == C[c.pid := Black][c.up.sibling.id := Black][c.up.pid := Red]
    ensures ColorsAgree(Ids(s), C, C') && ColorsAgree(Ids(c.sibling), C, C')
    ensures ColorsAgree(Ids(c.up.sibling.left), C, C') && ColorsAgree(Ids(c.up.sibling.right), C, C')
    ensures ColorsAgree(CtxIds(c.up.up), C, C')
    ensures ColorAt(C', c.pid) == Black && ColorAt(C', c.up.sibling.id) == Black && ColorAt(C', c.up.pid) == Red
    ensures Plug(c, s) == Plug(c.up.up, Lift(c.up, Lift(c, s)))
  {
    var p, g, u, c2 := c.pid, c.up.pid, c.up.sibling, c.up.up;
    FamilySlots(c, s);
    UncleSlots(u, Ids(s) + Ids(c.sibling) + CtxIds(c2) + {p, g});
    Recolor3(Ids(s), C, C', p, Black, u.id, Black, g, Red);
    Recolor3(Ids(c.sibling), C, C', p, Black, u.id, Black, g, Red);
    Recolor3(Ids(u.left), C, C', p, Black, u.id, Black, g, Red);
    Recolor3(Ids(u.right), C, C', p, Black, u.id, Black, g, Red);
    Recolor3(CtxIds(c2), C, C', p, Black, u.id, Black, g, Red);
  }

  /** Case 1 (RED uncle): parent and uncle turn BLACK, the grandparent RED,
      and the cursor moves up to the grandparent. */
  lemma {:induction false} FixingRecolor(c: Ctx, s: Tree, C: seq<Color>, C': seq<Color>)
    requires Fixing(c, s, C) && Unique(Plug(c, s))
    requires !c.Top? && ColorAt(C, c.pid) == Red && !c.up.Top? && ColorOf(c.up.sibling, C) == Red
    requires c.pid < |C| && c.up.pid < |C| && RootId(c.up.sibling) < |C|
    requires C' == C[c.pid := Black][RootId(c.up.sibling) := Black][c.up.pid := Red]
    ensures Fixing(c.up.up, Lift(c.up, Lift(c, s)), C')
    ensures Plug(c.up.up, Lift(c.up, Lift(c, s))) == Plug(c, s)
  {
    var c2 := c.up.up;
    RecolorBefore(c, s, C);
    RecolorFrame(c, s, C, C');
    RecolorTree(c, s, C, C');
    CtxColorFrame(c2, C, C');
    if !c2.Top? {
      TopIdIn(c2);
    }
  }

  /** Case 2 (BLACK uncle, cursor on the inner side, here the right child of a
      left parent): rotating left at the parent makes the parent the cursor,
      now the left child of the old cursor. */
  lemma {:induction false} FixingInnerLeft(c: Ctx, s: Tree, C: seq<Color>)
    requires Fixing(c, s, C) && Unique(Plug(c, s))
    requires c.InRight? && ColorAt(C, c.pid) == Red
    ensures Fixing(InLeft(c.up, s.id, s.right), Node(c.sibling, c.pid, s.left), C)
    ensures RotateLeftAt(Plug(c, s), c.pid) == Plug(InLeft(c.up, s.id, s.right), Node(c.sibling, c.pid, s.left))
  {
    FixingParent(c, s, C);
    CtxUp(c, C, BH(s, C), Black);
    LeftAtContext(c.up, c.sibling, c.pid, s);
  }

  /** The mirror image of FixingInnerLeft: the cursor is the left child of a
      right parent, and the rotation at the parent goes right. */
  lemma {:induction false} FixingInnerRight(c: Ctx, s: Tree, C: seq<Color>)
    requires Fixing(c, s, C) && Unique(Plug(c, s))
    requires c.InLeft? && ColorAt(C, c.pid) == Red
    ensures Fixing(InRight(s.left, s.id, c.up), Node(s.right, c.pid, c.sibling), C)
    ensures RotateRightAt(Plug(c, s), c.pid) == Plug(InRight(s.left, s.id, c.up), Node(s.right, c.pid, c.sibling))
  {
    FixingParent(c, s, C);
    CtxUp(c, C, BH(s, C), Black);
    RightAtContext(c.up, s, c.pid, c.sibling);
  }

  /** The subtree of Case 3 after the rotation, left-left form: the parent
      is BLACK over the cursor and the RED grandparent. */
  lemma {:induction false} OuterTreeLeft(s: Tree, p: nat, sib: Tree, g: nat, u: Tree, C: seq<Color>, C': seq<Color>)
    requires Balanced(s, C) && RedOk(s, C)
    requires Balanced(sib, C) && RedOk(sib, C) && BH(sib, C) == BH(s, C) && ColorOf(sib, C) == Black
    requires Balanced(u, C) && RedOk(u, C) && BH(u, C) == BH(s, C) && ColorOf(u, C) == Black
    requires ColorsAgree(Ids(s), C, C') && ColorsAgree(Ids(sib), C, C') && ColorsAgree(Ids(u), C, C')
    requires ColorAt(C', p) == Black && ColorAt(C', g) == Red
    ensures Balanced(Node(s, p, Node(sib, g, u)), C') && RedOk(Node(s, p, Node(sib, g, u)), C')
    ensures BH(Node(s, p, Node(sib, g, u)), C') == BH(s, C) + 1
  {
    ColorFrame(s, C, C');
    ColorFrame(sib, C, C');
    ColorFrame(u, C, C');
  }

  /** The mirror image of OuterTreeLeft. */
  lemma {:induction false} OuterTreeRight(s: Tree, p: nat, sib: Tree, g: nat, u: Tree, C: seq<Color>, C': seq<Color>)
    requires Balanced(s, C) && RedOk(s, C)
    requires Balanced(sib, C) && RedOk(sib, C) && BH(sib, C) == BH(s, C) && ColorOf(sib, C) == Black
    requires Balanced(u, C) && RedOk(u, C) && BH(u, C) == BH(s, C) && ColorOf(u, C) == Black
    requires ColorsAgree(Ids(s), C, C') && ColorsAgree(Ids(sib), C, C') && ColorsAgree(Ids(u), C, C')
    requires ColorAt(C', p) == Black && ColorAt(C', g) == Red
    ensures Balanced(Node(Node(u, g, sib), p, s), C') && RedOk(Node(Node(u, g, sib), p, s), C')
    ensures BH(Node(Node(u, g, sib), p, s), C') == BH(s, C) + 1
  {
    ColorFrame(s, C, C');
    ColorFrame(sib, C, C');
    ColorFrame(u, C, C');
  }

  /** Case 3 (BLACK uncle, cursor the left child of a left parent): the parent
      turns BLACK, the grandparent RED, and the rotation right at the
      grandparent leaves a tree that keeps every rule but, perhaps, the root's colour. */
  lemma {:induction false} FixingOuterLeft(c: Ctx, s: Tree, C: seq<Color>, C': seq<Color>)
    requires Fixing(c, s, C) && Unique(Plug(c, s))
    requires c.InLeft? && ColorAt(C, c.pid) == Red && !c.up.Top? && c.up.InLeft?
    requires ColorOf(c.up.sibling, C) == Black
    requires c.pid < |C| && c.up.pid < |C| && C' == C[c.pid := Black][c.up.pid := Red]
    ensures RedOk(RotateRightAt(Plug(c, s), c.up.pid), C') && Balanced(RotateRightAt(Plug(c, s), c.up.pid), C')
    ensures RotateRightAt(Plug(c, s), c.up.pid) ==
            Plug(InLeft(c.up.up, c.pid, Node(c.sibling, c.up.pid, c.up.sibling)), s)
    ensures ColorAt(C', c.pid) == Black
  {
    var p, g, u, sib, c2 := c.pid, c.up.pid, c.up.sibling, c.sibling, c.up.up;
    var h := BH(s, C);
    FixingParent(c, s, C);
    CtxUp(c, C, h, Black);
    CtxUp(c.up, C, h, Red);
    FamilySlots(c, s);
    PlugUnique(c, s);
    Recolor2(Ids(s), C, C', p, Black, g, Red);
    Recolor2(Ids(sib), C, C', p, Black, g, Red);
    Recolor2(Ids(u), C, C', p, Black, g, Red);
    Recolor2(CtxIds(c2), C, C', p, Black, g, Red);
    OuterTreeLeft(s, p, sib, g, u, C, C');
    CtxColorFrame(c2, C, C');
    RightAtContext(c2, Node(s, p, sib), g, u);
    PlugRedOk(c2, Node(s, p, Node(sib, g, u)), C');
    PlugBalanced(c2, Node(s, p, Node(sib, g, u)), C');
  }

  /** The mirror image of FixingOuterLeft. */
  lemma {:induction false} FixingOuterRight(c: Ctx, s: Tree, C: seq<Color>, C': seq<Color>)
    requires Fixing(c, s, C) && Unique(Plug(c, s))
    requires c.InRight? && ColorAt(C, c.pid) == Red && !c.up.Top? && c.up.InRight?
    requires ColorOf(c.up.sibling, C) == Black
    requires c.pid < |C| && c.up.pid < |C| && C' == C[c.pid := Black][c.up.pid := Red]
    ensures RedOk(RotateLeftAt(Plug(c, s), c.up.pid), C') && Balanced(RotateLeftAt(Plug(c, s), c.up.pid), C')
    ensures RotateLeftAt(Plug(c, s), c.up.pid) ==
            Plug(InRight(Node(c.up.sibling, c.up.pid, c.sibling), c.pid, c.up.up), s)
    ensures ColorAt(C', c.pid) == Black
  {
    var p, g, u, sib, c2 := c.pid, c.up.pid, c.up.sibling, c.sibling, c.up.up;
    var h := BH(s, C);
    FixingParent(c, s, C);
    CtxUp(c, C, h, Black);
    CtxUp(c.up, C, h, Red);
    FamilySlots(c, s);
    PlugUnique(c, s);
    Recolor2(Ids(s), C, C', p, Black, g, Red);
    Recolor2(Ids(sib), C, C', p, Black, g, Red);
    Recolor2(Ids(u), C, C', p, Black, g, Red);
    Recolor2(CtxIds(c2), C, C', p, Black, g, Red);
    OuterTreeRight(s, p, sib, g, u, C, C');
    CtxColorFrame(c2, C, C');
    LeftAtContext(c2, u, g, Node(sib, p, s));
    PlugRedOk(c2, Node(Node(u, g, sib), p, s), C');
    PlugBalanced(c2, Node(Node(u, g, sib), p, s), C');
  }

  /** What the loop of insertFixUp reads through the links: the cursor's
      parent, and, below a RED parent, the grandparent, which side of it the
      parent hangs on and where the uncle is. */
  lemma {:induction false} FixingLinks<V>(K: seq<int>, Vs: seq<V>, C: seq<Color>, L: seq<nat>, R: seq<nat>,
                                          P: seq<nat>, top: nat, n: int, t: Tree, c: Ctx, s: Tree)
    requires Arena(K, Vs, C, L, R, P, top, n, t) && t == Plug(c, s) && s.Node? && Fixing(c, s, C)
    ensures s.id in Ids(t) && 0 < s.id < |P| && P[s.id] == CtxParent(c) && P[s.id] < |C|
    ensures C[P[s.id]] == Red ==>
              !c.Top? && !c.up.Top? && c.pid in Ids(t) && c.up.pid in Ids(t) &&
              c.pid < |P| && P[c.pid] == c.up.pid && c.up.pid < |L| && c.up.pid < |R| &&
              (R[c.pid] == s.id <==> c.InRight?) && (L[c.pid] == s.id <==> c.InLeft?) &&
              (L[c.up.pid] == c.pid <==> c.up.InLeft?) &&
              (c.up.InLeft? ==> R[c.up.pid] == RootId(c.up.sibling)) &&
              (c.up.InRight? ==> L[c.up.pid] == RootId(c.up.sibling)) &&
              RootId(c.up.sibling) < |C| && C[RootId(c.up.sibling)] == ColorOf(c.up.sibling, C)
  {
    CursorLinks(K, Vs, C, L, R, P, top, n, t, c, s);
    if C[P[s.id]] == Red {
      assert !c.Top?;
      FixingParent(c, s, C);
      LiftUnique(c, s);
      CursorLinks(K, Vs, C, L, R, P, top, n, t, c.up, Lift(c, s));
    }
  }
}
