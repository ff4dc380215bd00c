/** The colour repair after a deletion (deleteFixUp, rbtree.go:330-384).

    Unlinking a BLACK node leaves the subtree that took its place one BLACK
    node short.  The cursor `x` sits at the root of that subtree `s` in
    context `c`, and while the loop runs `Short(c, s, C)` holds: every rule
    holds except that `s` has one BLACK node too few on each of its paths
    and that `s`'s root may be RED under a RED parent.  Each lemma below is
    one case of the loop body, for the cursor as a left child (the `Left`
    lemmas) or as a right child (their mirror images): a RED sibling, a BLACK
    sibling with two BLACK children, a BLACK sibling whose near child is RED
    and whose far child is BLACK, and a BLACK sibling whose far child is RED. */
module RbDeleteFix {
  import opened RbShape
  import opened RbColors
  import opened RbRotation
  import opened RbInsertFix

  /** The loop invariant of deleteFixUp, for the cursor subtree `s` in context `c`. */
  ghost predicate Short(c: Ctx, s: Tree, C: seq<Color>) {
    Balanced(s, C) && CtxBalanced(c, C, BH(s, C) + 1) &&
    RedOkBelow(s, C) && CtxRedOk(c, C, Black) &&
    (c.Top? || ColorAt(C, TopId(c)) == Black)
  }

  /** Unlinking node `s` (at most one child) from a red-black tree: a BLACK
      node leaves its child one BLACK short, a RED one leaves a red-black tree. */
  lemma {:induction false} ShortStart(c: Ctx, s: Tree, C: seq<Color>)
    requires RedBlack(Plug(c, s), C) && s.Node? && (s.left.Nil? || s.right.Nil?)
    ensures var ch := if s.left.Node? then s.left else s.right;
      (ColorAt(C, s.id) == Black ==> Short(c, ch, C)) &&
      (ColorAt(C, s.id) == Red ==> RedBlack(Plug(c, ch), C))
  {
    var ch := if s.left.Node? then s.left else s.right;
    PlugRedOk(c, s, C);
    PlugBalanced(c, s, C);
    PlugRedOk(c, ch, C);
    PlugBalanced(c, ch, C);
    PlugRoot(c, s);
    PlugRoot(c, ch);
    assert BH(ch, C) == 0 && ColorOf(s, C) == ColorAt(C, s.id);
    if ColorAt(C, s.id) == Red {
      CtxRedOkBlack(c, C, Red);
    }
  }

  /** Blackening the cursor ends the repair when the cursor is RED or is the root. */
  lemma {:induction false} ShortDone(c: Ctx, s: Tree, C: seq<Color>, C': seq<Color>)
    requires Short(c, s, C) && Unique(Plug(c, s)) && (c.Top? || ColorOf(s, C) == Red)
    requires RootId(s) < |C| && C' == C[RootId(s) := Black]
    ensures RedBlack(Plug(c, s), C')
  {
    if s.Node? {
      PlugUnique(c, s);
      RecolorAgree(CtxIds(c), C, s.id, Black);
      RecolorAgree(Ids(s.left), C, s.id, Black);
      RecolorAgree(Ids(s.right), C, s.id, Black);
      ColorFrame(s.left, C, C');
      ColorFrame(s.right, C, C');
      CtxColorFrame(c, C, C');
      PlugRedOk(c, s, C');
      PlugBalanced(c, s, C');
      PlugRoot(c, s);
      if !c.Top? {
        TopIdIn(c);
      }
    }
  }

  /** A red-black tree satisfies the invariant with the cursor at its root. */
  lemma {:induction false} ShortTop(t: Tree, C: seq<Color>)
    requires RedBlack(t, C)
    ensures Short(Top, t, C)
  {
  }

  /** What the invariant says about a BLACK cursor's sibling and parent. */
  lemma {:induction false} ShortSibling(c: Ctx, s: Tree, C: seq<Color>)
    requires Short(c, s, C) && !c.Top? && ColorOf(s, C) == Black
    ensures RedOk(s, C) && Balanced(s, C)
    ensures c.sibling.Node? && Balanced(c.sibling, C) && RedOk(c.sibling, C)
    ensures BH(c.sibling, C) == BH(s, C) + 1
    ensures BH(c.sibling.left, C) == BH(c.sibling.right, C) == BH(s, C) + 1 - Weight(C, c.sibling.id)
    ensures Balanced(c.sibling.left, C) && Balanced(c.sibling.right, C)
    ensures RedOk(c.sibling.left, C) && RedOk(c.sibling.right, C)
    ensures CtxBalanced(c.up, C, BH(s, C) + 1 + Weight(C, c.pid)) && CtxRedOk(c.up, C, ColorAt(C, c.pid))
    ensures ColorAt(C, c.pid) == Red ==> ColorOf(c.sibling, C) == Black
    ensures ColorOf(c.sibling, C) == Red ==>
              ColorAt(C, c.pid) == Black && c.sibling.left.Node? && c.sibling.right.Node? &&
              ColorOf(c.sibling.left, C) == Black && ColorOf(c.sibling.right, C) == Black
    ensures c.up.Top? ==> ColorAt(C, c.pid) == Black
    ensures !c.up.Top? ==> ColorAt(C, TopId(c.up)) == Black
  {
    CtxUp(c, C, BH(s, C) + 1, Black);
    BalancedRight(c.sibling, C);
  }

  /** The slots of the cursor's parent and sibling occur nowhere else. */
  lemma {:induction false} SiblingSlots(c: Ctx, s: Tree)
    requires Unique(Plug(c, s)) && !c.Top? && c.sibling.Node?
    ensures var p, w := c.pid, c.sibling;
      p != w.id && Unique(s) && Unique(w) && CtxUnique(c.up) &&
      p !in Ids(s) && p !in Ids(w) && p !in CtxIds(c.up) &&
      Ids(w) !! Ids(s) && Ids(w) !! CtxIds(c.up) && Ids(s) !! CtxIds(c.up) &&
      w.id !in Ids(w.left) && w.id !in Ids(w.right) && Ids(w.left) !! Ids(w.right) &&
      Unique(w.left) && Unique(w.right)
    ensures Plug(c, s) == Plug(c.up, Lift(c, s))
  {
    LiftUnique(c, s);
    PlugUnique(c.up, Lift(c, s));
  }

  /** The top of a context, when it is not the context's own bottom node. */
  lemma {:induction false} TopAbove(c: Ctx)
    requires !c.Top?
    ensures !c.up.Top? ==> TopId(c) == TopId(c.up) && TopId(c.up) in CtxIds(c.up)
    ensures c.up.Top? ==> TopId(c) == c.pid
  {
    if !c.up.Top? {
      TopIdIn(c.up);
    }
  }

  /** The converse of ShortSibling: the invariant, read one level up. */
  lemma {:induction false} ShortUp(c: Ctx, s: Tree, C: seq<Color>)
    requires !c.Top? && Balanced(s, C) && RedOk(s, C)
    requires Balanced(c.sibling, C) && RedOk(c.sibling, C) && BH(c.sibling, C) == BH(s, C) + 1
    requires ColorAt(C, c.pid) == Red ==> ColorOf(c.sibling, C) == Black
    requires CtxBalanced(c.up, C, BH(s, C) + 1 + Weight(C, c.pid)) && CtxRedOk(c.up, C, ColorAt(C, c.pid))
    requires c.up.Top? ==> ColorAt(C, c.pid) == Black
    requires !c.up.Top? ==> ColorAt(C, TopId(c.up)) == Black
    ensures Short(c, s, C)
  {
    CtxUp(c, C, BH(s, C) + 1, Black);
  }

  // ---------------------------------------------------------------------
  // A BLACK sibling with two BLACK children (rbtree.go:340-342 and 365-367)

  /** The sibling turns RED and the cursor moves up to the parent, whose
      subtree is now the one that is short; the cursor's new colour is the
      parent's. */
  lemma {:induction false} BlackNephews(c: Ctx, s: Tree, C: seq<Color>, C': seq<Color>)
    requires Short(c, s, C) && Unique(Plug(c, s)) && !c.Top? && ColorOf(s, C) == Black
    requires c.sibling.Node? && ColorAt(C, c.sibling.id) == Black
    requires ColorOf(c.sibling.left, C) == Black && ColorOf(c.sibling.right, C) == Black
    requires c.sibling.id < |C| && C' == C[c.sibling.id := Red]
    ensures Short(c.up, Lift(c, s), C') && Plug(c.up, Lift(c, s)) == Plug(c, s)
    ensures ColorOf(Lift(c, s), C') == ColorAt(C, c.pid)
  {
    var w, up := c.sibling, c.up;
    ShortSibling(c, s, C);
    var h := BH(s, C) + 1 + Weight(C, c.pid);
    assert CtxBalanced(up, C, h) && CtxRedOk(up, C, ColorAt(C, c.pid));
    SiblingSlots(c, s);
    RecolorAgree(Ids(s), C, w.id, Red);
    RecolorAgree(Ids(w.left), C, w.id, Red);
    RecolorAgree(Ids(w.right), C, w.id, Red);
    RecolorAgree(CtxIds(up), C, w.id, Red);
    RecolorAgree({c.pid}, C, w.id, Red);
    ColorFrame(s, C, C');
    ColorFrame(w.left, C, C');
    ColorFrame(w.right, C, C');
    CtxColorFrame(up, C, C');
    CtxRedOkBlack(up, C, ColorAt(C, c.pid));
    assert Balanced(w, C') && RedOk(w, C') && BH(w, C') == BH(s, C');
    LiftColors(c, s, C');
    TopAbove(c);
    assert ColorAt(C', c.pid) == ColorAt(C, c.pid) && BH(Lift(c, s), C') + 1 == h;
    assert CtxBalanced(up, C', h) && CtxRedOk(up, C', Black);
  }

  // ---------------------------------------------------------------------
  // A RED sibling (rbtree.go:334-339 and 359-364)

  /** The colours a RED-sibling step leaves on the pieces it does not recolour. */
  lemma {:induction false} RedSiblingFrame(c: Ctx, s: Tree, C: seq<Color>, C': seq<Color>)
    requires Unique(Plug(c, s)) && !c.Top? && c.sibling.Node?
    requires c.pid < |C| && c.sibling.id < |C| && C' == C[c.sibling.id := Black][c.pid := Red]
    requires Short(c, s, C) && ColorOf(s, C) == Black && ColorAt(C, c.sibling.id) == Red
    ensures var w := c.sibling; var h := BH(s, C);
      ColorOf(w.left, C') == Black && ColorOf(w.right, C') == Black &&
      Balanced(s, C') && RedOk(s, C') && BH(s, C') == h && ColorOf(s, C') == Black &&
      Balanced(w.left, C') && RedOk(w.left, C') && BH(w.left, C') == h + 1 &&
      Balanced(w.right, C') && RedOk(w.right, C') && BH(w.right, C') == h + 1 &&
      CtxBalanced(c.up, C', h + 1 + Weight(C, c.pid)) && CtxRedOk(c.up, C', ColorAt(C, c.pid)) &&
      ColorAt(C', c.pid) == Red && ColorAt(C', w.id) == Black &&
      (!c.up.Top? ==> ColorAt(C', TopId(c.up)) == ColorAt(C, TopId(c.up)))
  {
    var p, w, up := c.pid, c.sibling, c.up;
    ShortSibling(c, s, C);
    SiblingSlots(c, s);
    Recolor2(Ids(s), C, C', w.id, Black, p, Red);
    Recolor2(Ids(w.left), C, C', w.id, Black, p, Red);
    Recolor2(Ids(w.right), C, C', w.id, Black, p, Red);
    Recolor2(CtxIds(up), C, C', w.id, Black, p, Red);
    ColorFrame(s, C, C');
    ColorFrame(w.left, C, C');
    ColorFrame(w.right, C, C');
    CtxColorFrame(up, C, C');
    TopAbove(c);
  }

  /** Cursor on the left: the sibling turns BLACK, the parent RED, and the
      rotation left at the parent gives the cursor a BLACK sibling, the old
      sibling's left child. */
  lemma {:induction false} RedSiblingLeft(c: Ctx, s: Tree, C: seq<Color>, C': seq<Color>)
    requires Short(c, s, C) && Unique(Plug(c, s)) && c.InLeft? && ColorOf(s, C) == Black
    requires c.sibling.Node? && ColorAt(C, c.sibling.id) == Red
    requires c.pid < |C| && c.sibling.id < |C| && C' == C[c.sibling.id := Black][c.pid := Red]
    ensures var w := c.sibling; var c' := InLeft(InLeft(c.up, w.id, w.right), c.pid, w.left);
      Short(c', s, C') && c'.sibling.Node? && ColorAt(C', c'.sibling.id) == Black &&
      ColorAt(C', c.pid) == Red && ColorOf(s, C') == Black &&
      RotateLeftAt(Plug(c, s), c.pid) == Plug(c', s)
  {
    var p, w, up := c.pid, c.sibling, c.up;
    var c1 := InLeft(up, w.id, w.right);
    ShortSibling(c, s, C);
    RedSiblingFrame(c, s, C, C');
    CtxUp(c1, C', BH(s, C) + 1, Red);
    ShortUp(InLeft(c1, p, w.left), s, C');
    LeftAtContext(up, s, p, w);
  }

  /** The mirror image of RedSiblingLeft. */
  lemma {:induction false} RedSiblingRight(c: Ctx, s: Tree, C: seq<Color>, C': seq<Color>)
    requires Short(c, s, C) && Unique(Plug(c, s)) && c.InRight? && ColorOf(s, C) == Black
    requires c.sibling.Node? && ColorAt(C, c.sibling.id) == Red
    requires c.pid < |C| && c.sibling.id < |C| && C' == C[c.sibling.id := Black][c.pid := Red]
    ensures var w := c.sibling; var c' := InRight(w.right, c.pid, InRight(w.left, w.id, c.up));
      Short(c', s, C') && c'.sibling.Node? && ColorAt(C', c'.sibling.id) == Black &&
      ColorAt(C', c.pid) == Red && ColorOf(s, C') == Black &&
      RotateRightAt(Plug(c, s), c.pid) == Plug(c', s)
  {
    var p, w, up := c.pid, c.sibling, c.up;
    var c1 := InRight(w.left, w.id, up);
    ShortSibling(c, s, C);
    RedSiblingFrame(c, s, C, C');
    CtxUp(c1, C', BH(s, C) + 1, Red);
    ShortUp(InRight(w.right, p, c1), s, C');
    RightAtContext(up, w, p, s);
  }

  // ---------------------------------------------------------------------
  // A BLACK sibling whose near child is RED and far child BLACK
  // (rbtree.go:344-349 and 369-374)

  /** The sibling subtree after the near-child step, cursor on the left:
      the near child `wl`, now BLACK, over its left subtree and the old
      sibling `wi`, now RED. */
  lemma {:induction false} InnerTreeLeft(wl: Tree, wi: nat, wr: Tree, h: nat, C: seq<Color>, C': seq<Color>)
    requires wl.Node? && ColorOf(wl, C) == Red && ColorOf(wr, C) == Black
    requires Balanced(wl, C) && RedOk(wl, C) && BH(wl, C) == h
    requires Balanced(wr, C) && RedOk(wr, C) && BH(wr, C) == h
    requires ColorsAgree(Ids(wl.left), C, C') && ColorsAgree(Ids(wl.right), C, C') && ColorsAgree(Ids(wr), C, C')
    requires ColorAt(C', wl.id) == Black && ColorAt(C', wi) == Red
    ensures var w' := Node(wl.left, wl.id, Node(wl.right, wi, wr));
      Balanced(w', C') && RedOk(w', C') && BH(w', C') == h + 1 && ColorOf(w'.right, C') == Red
  {
    ColorFrame(wl.left, C, C');
    ColorFrame(wl.right, C, C');
    ColorFrame(wr, C, C');
    BalancedRight(wl, C);
  }

  /** The mirror image of InnerTreeLeft. */
  lemma {:induction false} InnerTreeRight(wr: Tree, wi: nat, wl: Tree, h: nat, C: seq<Color>, C': seq<Color>)
    requires wr.Node? && ColorOf(wr, C) == Red && ColorOf(wl, C) == Black
    requires Balanced(wr, C) && RedOk(wr, C) && BH(wr, C) == h
    requires Balanced(wl, C) && RedOk(wl, C) && BH(wl, C) == h
    requires ColorsAgree(Ids(wr.left), C, C') && ColorsAgree(Ids(wr.right), C, C') && ColorsAgree(Ids(wl), C, C')
    requires ColorAt(C', wr.id) == Black && ColorAt(C', wi) == Red
    ensures var w' := Node(Node(wl, wi, wr.left), wr.id, wr.right);
      Balanced(w', C') && RedOk(w', C') && BH(w', C') == h + 1 && ColorOf(w'.left, C') == Red
  {
    ColorFrame(wr.left, C, C');
    ColorFrame(wr.right, C, C');
    ColorFrame(wl, C, C');
    BalancedRight(wr, C);
  }

  /** The colours after the near-child step, piece by piece, cursor on the left. */
  lemma {:induction false} InnerFrameLeft(c: Ctx, s: Tree, C: seq<Color>, C': seq<Color>)
    requires Short(c, s, C) && Unique(Plug(c, s)) && c.InLeft? && ColorOf(s, C) == Black
    requires c.sibling.Node? && ColorAt(C, c.sibling.id) == Black
    requires ColorOf(c.sibling.left, C) == Red && ColorOf(c.sibling.right, C) == Black
    requires c.sibling.id < |C| && RootId(c.sibling.left) < |C|
    requires C' == C[RootId(c.sibling.left) := Black][c.sibling.id := Red]
    ensures c.sibling.left.Node?
    ensures var w, h := c.sibling, BH(s, C); var w' := Node(w.left.left, w.left.id, Node(w.left.right, w.id, w.right));
      Balanced(s, C') && RedOk(s, C') && BH(s, C') == h && ColorOf(s, C') == Black &&
      Balanced(w', C') && RedOk(w', C') && BH(w', C') == h + 1 &&
      ColorAt(C', w'.id) == Black && ColorOf(w'.right, C') == Red &&
      CtxBalanced(c.up, C', h + 1 + Weight(C', c.pid)) && CtxRedOk(c.up, C', ColorAt(C', c.pid)) &&
      (c.up.Top? ==> ColorAt(C', c.pid) == Black) && (!c.up.Top? ==> ColorAt(C', TopId(c.up)) == Black)
  {
    var p, w, up := c.pid, c.sibling, c.up;
    var wl := w.left;
    ShortSibling(c, s, C);
    var h := BH(s, C) + 1 + Weight(C, p);
    assert CtxBalanced(up, C, h) && CtxRedOk(up, C, ColorAt(C, p));
    SiblingSlots(c, s);
    Recolor2(Ids(s), C, C', wl.id, Black, w.id, Red);
    Recolor2(Ids(wl.left), C, C', wl.id, Black, w.id, Red);
    Recolor2(Ids(wl.right), C, C', wl.id, Black, w.id, Red);
    Recolor2(Ids(w.right), C, C', wl.id, Black, w.id, Red);
    Recolor2(CtxIds(up) + {p}, C, C', wl.id, Black, w.id, Red);
    ColorFrame(s, C, C');
    CtxColorFrame(up, C, C');
    InnerTreeLeft(wl, w.id, w.right, BH(s, C), C, C');
    TopAbove(c);
    assert ColorAt(C', p) == ColorAt(C, p);
    assert CtxBalanced(up, C', h) && CtxRedOk(up, C', ColorAt(C, p));
  }

  /** The colours and the loop invariant after the near-child step, cursor on the left. */
  lemma {:induction false} InnerRecolorLeft(c: Ctx, s: Tree, C: seq<Color>, C': seq<Color>)
    requires Short(c, s, C) && Unique(Plug(c, s)) && c.InLeft? && ColorOf(s, C) == Black
    requires c.sibling.Node? && ColorAt(C, c.sibling.id) == Black
    requires ColorOf(c.sibling.left, C) == Red && ColorOf(c.sibling.right, C) == Black
    requires c.sibling.id < |C| && RootId(c.sibling.left) < |C|
    requires C' == C[RootId(c.sibling.left) := Black][c.sibling.id := Red]
    ensures c.sibling.left.Node?
    ensures var w := c.sibling; var w' := Node(w.left.left, w.left.id, Node(w.left.right, w.id, w.right));
      Short(InLeft(c.up, c.pid, w'), s, C') && ColorAt(C', w'.id) == Black && ColorOf(w'.right, C') == Red &&
      ColorOf(s, C') == Black
  {
    var w := c.sibling;
    InnerFrameLeft(c, s, C, C');
    ShortUp(InLeft(c.up, c.pid, Node(w.left.left, w.left.id, Node(w.left.right, w.id, w.right))), s, C');
  }

  /** Cursor on the left: the near (left) child turns BLACK, the sibling RED,
      and the rotation right at the sibling makes the near child the new
      sibling, with the old sibling, now RED, as its far child. */
  lemma {:induction false} InnerNephewLeft(c: Ctx, s: Tree, C: seq<Color>, C': seq<Color>)
    requires Short(c, s, C) && Unique(Plug(c, s)) && c.InLeft? && ColorOf(s, C) == Black
    requires c.sibling.Node? && ColorAt(C, c.sibling.id) == Black
    requires ColorOf(c.sibling.left, C) == Red && ColorOf(c.sibling.right, C) == Black
    requires c.sibling.id < |C| && RootId(c.sibling.left) < |C|
    requires C' == C[RootId(c.sibling.left) := Black][c.sibling.id := Red]
    ensures c.sibling.left.Node?
    ensures var w := c.sibling; var w' := Node(w.left.left, w.left.id, Node(w.left.right, w.id, w.right));
      Short(InLeft(c.up, c.pid, w'), s, C') && ColorAt(C', w'.id) == Black && ColorOf(w'.right, C') == Red &&
      ColorOf(s, C') == Black &&
      RotateRightAt(Plug(c, s), w.id) == Plug(InLeft(c.up, c.pid, w'), s)
  {
    InnerRecolorLeft(c, s, C, C');
    RightAtContext(InRight(s, c.pid, c.up), c.sibling.left, c.sibling.id, c.sibling.right);
  }

  /** The colours after the near-child step, piece by piece, cursor on the right. */
  lemma {:induction false} InnerFrameRight(c: Ctx, s: Tree, C: seq<Color>, C': seq<Color>)
    requires Short(c, s, C) && Unique(Plug(c, s)) && c.InRight? && ColorOf(s, C) == Black
    requires c.sibling.Node? && ColorAt(C, c.sibling.id) == Black
    requires ColorOf(c.sibling.right, C) == Red && ColorOf(c.sibling.left, C) == Black
    requires c.sibling.id < |C| && RootId(c.sibling.right) < |C|
    requires C' == C[RootId(c.sibling.right) := Black][c.sibling.id := Red]
    ensures c.sibling.right.Node?
    ensures var w, h := c.sibling, BH(s, C); var w' := Node(Node(w.left, w.id, w.right.left), w.right.id, w.right.right);
      Balanced(s, C') && RedOk(s, C') && BH(s, C') == h && ColorOf(s, C') == Black &&
      Balanced(w', C') && RedOk(w', C') && BH(w', C') == h + 1 &&
      ColorAt(C', w'.id) == Black && ColorOf(w'.left, C') == Red &&
      CtxBalanced(c.up, C', h + 1 + Weight(C', c.pid)) && CtxRedOk(c.up, C', ColorAt(C', c.pid)) &&
      (c.up.Top? ==> ColorAt(C', c.pid) == Black) && (!c.up.Top? ==> ColorAt(C', TopId(c.up)) == Black)
  {
    var p, w, up := c.pid, c.sibling, c.up;
    var wr := w.right;
    ShortSibling(c, s, C);
    var h := BH(s, C) + 1 + Weight(C, p);
    assert CtxBalanced(up, C, h) && CtxRedOk(up, C, ColorAt(C, p));
    SiblingSlots(c, s);
    Recolor2(Ids(s), C, C', wr.id, Black, w.id, Red);
    Recolor2(Ids(wr.left), C, C', wr.id, Black, w.id, Red);
    Recolor2(Ids(wr.right), C, C', wr.id, Black, w.id, Red);
    Recolor2(Ids(w.left), C, C', wr.id, Black, w.id, Red);
    Recolor2(CtxIds(up) + {p}, C, C', wr.id, Black, w.id, Red);
    ColorFrame(s, C, C');
    CtxColorFrame(up, C, C');
    InnerTreeRight(wr, w.id, w.left, BH(s, C), C, C');
    TopAbove(c);
    assert ColorAt(C', p) == ColorAt(C, p);
    assert CtxBalanced(up, C', h) && CtxRedOk(up, C', ColorAt(C, p));
  }

  /** The colours and the loop invariant after the near-child step, cursor on the right. */
  lemma {:induction false} InnerRecolorRight(c: Ctx, s: Tree, C: seq<Color>, C': seq<Color>)
    requires Short(c, s, C) && Unique(Plug(c, s)) && c.InRight? && ColorOf(s, C) == Black
    requires c.sibling.Node? && ColorAt(C, c.sibling.id) == Black
    requires ColorOf(c.sibling.right, C) == Red && ColorOf(c.sibling.left, C) == Black
    requires c.sibling.id < |C| && RootId(c.sibling.right) < |C|
    requires C' == C[RootId(c.sibling.right) := Black][c.sibling.id := Red]
    ensures c.sibling.right.Node?
    ensures var w := c.sibling; var w' := Node(Node(w.left, w.id, w.right.left), w.right.id, w.right.right);
      Short(InRight(w', c.pid, c.up), s, C') && ColorAt(C', w'.id) == Black && ColorOf(w'.left, C') == Red &&
      ColorOf(s, C') == Black
  {
    var w := c.sibling;
    InnerFrameRight(c, s, C, C');
    ShortUp(InRight(Node(Node(w.left, w.id, w.right.left), w.right.id, w.right.right), c.pid, c.up), s, C');
  }

  /** The mirror image of InnerNephewLeft. */
  lemma {:induction false} InnerNephewRight(c: Ctx, s: Tree, C: seq<Color>, C': seq<Color>)
    requires Short(c, s, C) && Unique(Plug(c, s)) && c.InRight? && ColorOf(s, C) == Black
    requires c.sibling.Node? && ColorAt(C, c.sibling.id) == Black
    requires ColorOf(c.sibling.right, C) == Red && ColorOf(c.sibling.left, C) == Black
    requires c.sibling.id < |C| && RootId(c.sibling.right) < |C|
    requires C' == C[RootId(c.sibling.right) := Black][c.sibling.id := Red]
    ensures c.sibling.right.Node?
    ensures var w := c.sibling; var w' := Node(Node(w.left, w.id, w.right.left), w.right.id, w.right.right);
      Short(InRight(w', c.pid, c.up), s, C') && ColorAt(C', w'.id) == Black && ColorOf(w'.left, C') == Red &&
      ColorOf(s, C') == Black &&
      RotateLeftAt(Plug(c, s), w.id) == Plug(InRight(w', c.pid, c.up), s)
  {
    InnerRecolorRight(c, s, C, C');
    LeftAtContext(InLeft(c.up, c.pid, s), c.sibling.left, c.sibling.id, c.sibling.right);
  }

  // ---------------------------------------------------------------------
  // A BLACK sibling whose far child is RED (rbtree.go:350-355 and 375-379)

  /** The subtree of the last case after its rotation, cursor on the left:
      the old sibling `wi` takes the parent's colour over the BLACK parent
      and the far child, now BLACK. */
  lemma {:induction false} OuterTreeDelLeft(s: Tree, p: nat, wl: Tree, wi: nat, wr: Tree, C: seq<Color>, C': seq<Color>)
    requires Balanced(s, C) && RedOk(s, C) && wr.Node?
    requires Balanced(wl, C) && RedOk(wl, C) && BH(wl, C) == BH(s, C)
    requires Balanced(wr, C) && RedOk(wr, C) && BH(wr, C) == BH(s, C) && ColorOf(wr, C) == Red
    requires ColorsAgree(Ids(s), C, C') && ColorsAgree(Ids(wl), C, C')
    requires ColorsAgree(Ids(wr.left), C, C') && ColorsAgree(Ids(wr.right), C, C')
    requires ColorAt(C', p) == Black && ColorAt(C', wr.id) == Black
    ensures var t := Node(Node(s, p, wl), wi, wr);
      Balanced(t, C') && RedOk(t, C') && BH(t, C') == BH(s, C) + 1 + Weight(C', wi)
  {
    ColorFrame(s, C, C');
    ColorFrame(wl, C, C');
    ColorFrame(wr.left, C, C');
    ColorFrame(wr.right, C, C');
    BalancedRight(wr, C);
  }

  /** The mirror image of OuterTreeDelLeft. */
  lemma {:induction false} OuterTreeDelRight(s: Tree, p: nat, wr: Tree, wi: nat, wl: Tree, C: seq<Color>, C': seq<Color>)
    requires Balanced(s, C) && RedOk(s, C) && wl.Node?
    requires Balanced(wr, C) && RedOk(wr, C) && BH(wr, C) == BH(s, C)
    requires Balanced(wl, C) && RedOk(wl, C) && BH(wl, C) == BH(s, C) && ColorOf(wl, C) == Red
    requires ColorsAgree(Ids(s), C, C') && ColorsAgree(Ids(wr), C, C')
    requires ColorsAgree(Ids(wl.left), C, C') && ColorsAgree(Ids(wl.right), C, C')
    requires ColorAt(C', p) == Black && ColorAt(C', wl.id) == Black
    ensures var t := Node(wl, wi, Node(wr, p, s));
      Balanced(t, C') && RedOk(t, C') && BH(t, C') == BH(s, C) + 1 + Weight(C', wi)
  {
    ColorFrame(s, C, C');
    ColorFrame(wr, C, C');
    ColorFrame(wl.left, C, C');
    ColorFrame(wl.right, C, C');
    BalancedRight(wl, C);
    BalancedRight(Node(wr, p, s), C');
  }

  /** A red-black subtree hung back into a context whose colours it keeps,
      with the black height the context expects, makes a red-black tree. */
  lemma {:induction false} PlugRedBlack(c: Ctx, t: Tree, C: seq<Color>, C': seq<Color>)
    requires RedOk(t, C') && Balanced(t, C') && ColorsAgree(CtxIds(c), C, C')
    requires CtxRedOk(c, C, ColorOf(t, C')) && CtxBalanced(c, C, BH(t, C'))
    requires c.Top? ==> ColorOf(t, C') == Black
    requires !c.Top? ==> ColorAt(C, TopId(c)) == Black
    ensures RedBlack(Plug(c, t), C')
  {
    CtxColorFrame(c, C, C');
    PlugRedOk(c, t, C');
    PlugBalanced(c, t, C');
    PlugRoot(c, t);
    if !c.Top? {
      TopIdIn(c);
    }
  }

  /** The colours the far-child step leaves on the pieces it does not recolour, cursor on the left. */
  lemma {:induction false} OuterFrameLeft(c: Ctx, s: Tree, C: seq<Color>, C': seq<Color>)
    requires Unique(Plug(c, s)) && !c.Top? && c.sibling.Node? && c.sibling.right.Node?
    requires c.pid < |C| && c.sibling.id < |C| && c.sibling.right.id < |C|
    requires C' == C[c.sibling.id := ColorAt(C, c.pid)][c.pid := Black][c.sibling.right.id := Black]
    ensures var w := c.sibling;
      ColorsAgree(Ids(s), C, C') && ColorsAgree(Ids(w.left), C, C') &&
      ColorsAgree(Ids(w.right.left), C, C') && ColorsAgree(Ids(w.right.right), C, C') &&
      ColorsAgree(CtxIds(c.up), C, C') &&
      ColorAt(C', c.pid) == Black && ColorAt(C', w.right.id) == Black && ColorAt(C', w.id) == ColorAt(C, c.pid)
  {
    var p, w, up := c.pid, c.sibling, c.up;
    var wr := w.right;
    SiblingSlots(c, s);
    Recolor3(Ids(s), C, C', w.id, ColorAt(C, p), p, Black, wr.id, Black);
    Recolor3(Ids(w.left), C, C', w.id, ColorAt(C, p), p, Black, wr.id, Black);
    Recolor3(Ids(wr.left), C, C', w.id, ColorAt(C, p), p, Black, wr.id, Black);
    Recolor3(Ids(wr.right), C, C', w.id, ColorAt(C, p), p, Black, wr.id, Black);
    Recolor3(CtxIds(up), C, C', w.id, ColorAt(C, p), p, Black, wr.id, Black);
  }

  /** Cursor on the left: the sibling takes the parent's colour, the parent
      and the far child turn BLACK, and the rotation left at the parent
      leaves a red-black tree. */
  lemma {:induction false} OuterNephewLeft(c: Ctx, s: Tree, C: seq<Color>, C': seq<Color>)
    requires Short(c, s, C) && Unique(Plug(c, s)) && c.InLeft? && ColorOf(s, C) == Black
    requires c.sibling.Node? && ColorAt(C, c.sibling.id) == Black && ColorOf(c.sibling.right, C) == Red
    requires c.pid < |C| && c.sibling.id < |C| && RootId(c.sibling.right) < |C|
    requires C' == C[c.sibling.id := ColorAt(C, c.pid)][c.pid := Black][RootId(c.sibling.right) := Black]
    ensures RedBlack(RotateLeftAt(Plug(c, s), c.pid), C')
    ensures RotateLeftAt(Plug(c, s), c.pid) == Plug(c.up, Node(Node(s, c.pid, c.sibling.left), c.sibling.id, c.sibling.right))
  {
    var p, w, up := c.pid, c.sibling, c.up;
    var wr := w.right;
    var t := Node(Node(s, p, w.left), w.id, wr);
    ShortSibling(c, s, C);
    OuterFrameLeft(c, s, C, C');
    OuterTreeDelLeft(s, p, w.left, w.id, wr, C, C');
    SiblingSlots(c, s);
    LeftAtContext(up, s, p, w);
    assert ColorOf(t, C') == ColorAt(C, p) && BH(t, C') == BH(s, C) + 1 + Weight(C, p);
    PlugRedBlack(up, t, C, C');
  }


  /** The colours the far-child step leaves on the pieces it does not recolour, cursor on the right. */
  lemma {:induction false} OuterFrameRight(c: Ctx, s: Tree, C: seq<Color>, C': seq<Color>)
    requires Unique(Plug(c, s)) && !c.Top? && c.sibling.Node? && c.sibling.left.Node?
    requires c.pid < |C| && c.sibling.id < |C| && c.sibling.left.id < |C|
    requires C' == C[c.sibling.id := ColorAt(C, c.pid)][c.pid := Black][c.sibling.left.id := Black]
    ensures var w := c.sibling;
      ColorsAgree(Ids(s), C, C') && ColorsAgree(Ids(w.right), C, C') &&
      ColorsAgree(Ids(w.left.left), C, C') && ColorsAgree(Ids(w.left.right), C, C') &&
      ColorsAgree(CtxIds(c.up), C, C') &&
      ColorAt(C', c.pid) == Black && ColorAt(C', w.left.id) == Black && ColorAt(C', w.id) == ColorAt(C, c.pid)
  {
    var p, w, up := c.pid, c.sibling, c.up;
    var wl := w.left;
    SiblingSlots(c, s);
    Recolor3(Ids(s), C, C', w.id, ColorAt(C, p), p, Black, wl.id, Black);
    Recolor3(Ids(w.right), C, C', w.id, ColorAt(C, p), p, Black, wl.id, Black);
    Recolor3(Ids(wl.left), C, C', w.id, ColorAt(C, p), p, Black, wl.id, Black);
    Recolor3(Ids(wl.right), C, C', w.id, ColorAt(C, p), p, Black, wl.id, Black);
    Recolor3(CtxIds(up), C, C', w.id, ColorAt(C, p), p, Black, wl.id, Black);
  }

  /** The mirror image of OuterNephewLeft. */
  lemma {:induction false} OuterNephewRight(c: Ctx, s: Tree, C: seq<Color>, C': seq<Color>)
    requires Short(c, s, C) && Unique(Plug(c, s)) && c.InRight? && ColorOf(s, C) == Black
    requires c.sibling.Node? && ColorAt(C, c.sibling.id) == Black && ColorOf(c.sibling.left, C) == Red
    requires c.pid < |C| && c.sibling.id < |C| && RootId(c.sibling.left) < |C|
    requires C' == C[c.sibling.id := ColorAt(C, c.pid)][c.pid := Black][RootId(c.sibling.left) := Black]
    ensures RedBlack(RotateRightAt(Plug(c, s), c.pid), C')
    ensures RotateRightAt(Plug(c, s), c.pid) == Plug(c.up, Node(c.sibling.left, c.sibling.id, Node(c.sibling.right, c.pid, s)))
  {
    var p, w, up := c.pid, c.sibling, c.up;
    var wl := w.left;
    var t := Node(wl, w.id, Node(w.right, p, s));
    ShortSibling(c, s, C);
    OuterFrameRight(c, s, C, C');
    OuterTreeDelRight(s, p, w.right, w.id, wl, C, C');
    SiblingSlots(c, s);
    RightAtContext(up, w, p, s);
    assert ColorOf(t, C') == ColorAt(C, p) && BH(t, C') == BH(s, C) + 1 + Weight(C, p);
    PlugRedBlack(up, t, C, C');
  }

}
