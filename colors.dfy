/** The red-black colour rules over the ghost shape.

    Colours live in the arena's colour sequence `C`, indexed by slot; the
    sentinel (Nil) is read as BLACK.  The rules of rbtree.go's header comment
    become: the root is BLACK (checked by the tree), every leaf is the BLACK
    sentinel (Nil), `RedOk` (a RED node has no RED child) and `Balanced`
    (every path from a node down to the sentinel meets the same number of
    BLACK nodes, `BH`). */
module RbColors {
  import opened RbShape

  ghost function ColorAt(C: seq<Color>, i: nat): Color {
    if i < |C| then C[i] else Black
  }

  /** The colour of a subtree's root; the sentinel is BLACK. */
  ghost function ColorOf(t: Tree, C: seq<Color>): Color {
    if t.Nil? then Black else ColorAt(C, t.id)
  }

  ghost function Weight(C: seq<Color>, i: nat): nat {
    if ColorAt(C, i) == Black then 1 else 0
  }

  /** Black height along the leftmost path (the sentinel not counted). */
  ghost function BH(t: Tree, C: seq<Color>): nat {
    match t
    case Nil => 0
    case Node(l, i, _) => BH(l, C) + Weight(C, i)
  }

  /** Every node's two subtrees have the same black height. */
  ghost predicate Balanced(t: Tree, C: seq<Color>) {
    match t
    case Nil => true
    case Node(l, _, r) => Balanced(l, C) && Balanced(r, C) && BH(l, C) == BH(r, C)
  }

  /** No RED node has a RED child. */
  ghost predicate RedOk(t: Tree, C: seq<Color>) {
    match t
    case Nil => true
    case Node(l, i, r) =>
      RedOk(l, C) && RedOk(r, C) &&
      (ColorAt(C, i) == Red ==> ColorOf(l, C) == Black && ColorOf(r, C) == Black)
  }

  /** RedOk below the root: the root's own colour is not constrained. */
  ghost predicate RedOkBelow(t: Tree, C: seq<Color>) {
    t.Nil? || (RedOk(t.left, C) && RedOk(t.right, C))
  }

  /** The colour rule holds on the context when the hole's root has colour `hc`. */
  ghost predicate CtxRedOk(c: Ctx, C: seq<Color>, hc: Color) {
    match c
    case Top => true
    case InLeft(up, p, s) =>
      (ColorAt(C, p) == Red ==> hc == Black && ColorOf(s, C) == Black) &&
      RedOk(s, C) && CtxRedOk(up, C, ColorAt(C, p))
    case InRight(s, p, up) =>
      (ColorAt(C, p) == Red ==> hc == Black && ColorOf(s, C) == Black) &&
      RedOk(s, C) && CtxRedOk(up, C, ColorAt(C, p))
  }

  /** The context is balanced when the hole's subtree has black height `h`. */
  ghost predicate CtxBalanced(c: Ctx, C: seq<Color>, h: nat) {
    match c
    case Top => true
    case InLeft(up, p, s) => Balanced(s, C) && BH(s, C) == h && CtxBalanced(up, C, h + Weight(C, p))
    case InRight(s, p, up) => Balanced(s, C) && BH(s, C) == h && CtxBalanced(up, C, h + Weight(C, p))
  }

  /** All five rules, for a whole tree. */
  ghost predicate RedBlack(t: Tree, C: seq<Color>) {
    ColorOf(t, C) == Black && RedOk(t, C) && Balanced(t, C)
  }

  // ---------------------------------------------------------------------

  lemma {:induction false} PlugRedOk(c: Ctx, t: Tree, C: seq<Color>)
    ensures RedOk(Plug(c, t), C) <==> RedOk(t, C) && CtxRedOk(c, C, ColorOf(t, C))
  {
    match c
    case Top =>
    case InLeft(up, p, s) => PlugRedOk(up, Node(t, p, s), C);
    case InRight(s, p, up) => PlugRedOk(up, Node(s, p, t), C);
  }

  lemma {:induction false} PlugBalanced(c: Ctx, t: Tree, C: seq<Color>)
    ensures Balanced(Plug(c, t), C) <==> Balanced(t, C) && CtxBalanced(c, C, BH(t, C))
  {
    match c
    case Top =>
    case InLeft(up, p, s) => PlugBalanced(up, Node(t, p, s), C);
    case InRight(s, p, up) => PlugBalanced(up, Node(s, p, t), C);
  }

  /** In a balanced tree every path down has the same black height. */
  lemma {:induction false} BalancedRight(t: Tree, C: seq<Color>)
    requires Balanced(t, C) && t.Node?
    ensures BH(t, C) == BH(t.right, C) + Weight(C, t.id)
  {
  }

  // ---------------------------------------------------------------------
  // Frames: the rules only read the colours of the slots they mention.

  /** `C` and `C'` give the slots in `S` the same colour. */
  ghost predicate ColorsAgree(S: set<nat>, C: seq<Color>, C': seq<Color>) {
    forall i :: i in S ==> ColorAt(C, i) == ColorAt(C', i)
  }

  lemma {:induction false} ColorFrame(t: Tree, C: seq<Color>, C': seq<Color>)
    requires ColorsAgree(Ids(t), C, C')
    ensures BH(t, C') == BH(t, C) && ColorOf(t, C') == ColorOf(t, C)
    ensures Balanced(t, C') == Balanced(t, C) && RedOk(t, C') == RedOk(t, C)
  {
    match t
    case Nil =>
    case Node(l, i, r) => ColorFrame(l, C, C'); ColorFrame(r, C, C');
  }

  lemma {:induction false} CtxColorFrame(c: Ctx, C: seq<Color>, C': seq<Color>)
    requires ColorsAgree(CtxIds(c), C, C')
    ensures forall h :: CtxRedOk(c, C', h) == CtxRedOk(c, C, h)
    ensures forall n :: CtxBalanced(c, C', n) == CtxBalanced(c, C, n)
  {
    match c
    case Top =>
    case InLeft(up, p, s) => ColorFrame(s, C, C'); CtxColorFrame(up, C, C');
    case InRight(s, p, up) => ColorFrame(s, C, C'); CtxColorFrame(up, C, C');
  }

  /** Recolouring a point outside `S` keeps the colours of `S`. */
  lemma {:induction false} RecolorAgree(S: set<nat>, C: seq<Color>, j: nat, col: Color)
    requires j < |C| && j !in S
    ensures ColorsAgree(S, C, C[j := col])
  {
  }

  // ---------------------------------------------------------------------
  // One level of a context

  /** The rules at the bottom level of a context, whichever side the hole is on. */
  lemma {:induction false} LiftColors(c: Ctx, t: Tree, C: seq<Color>)
    requires !c.Top?
    ensures Balanced(Lift(c, t), C) <==>
            Balanced(t, C) && Balanced(c.sibling, C) && BH(t, C) == BH(c.sibling, C)
    ensures Balanced(Lift(c, t), C) ==> BH(Lift(c, t), C) == BH(t, C) + Weight(C, c.pid)
    ensures RedOk(Lift(c, t), C) <==>
            RedOk(t, C) && RedOk(c.sibling, C) &&
            (ColorAt(C, c.pid) == Red ==> ColorOf(t, C) == Black && ColorOf(c.sibling, C) == Black)
    ensures ColorOf(Lift(c, t), C) == ColorAt(C, c.pid)
    ensures Ids(Lift(c, t)) == Ids(t) + {c.pid} + Ids(c.sibling)
    ensures Plug(c, t) == Plug(c.up, Lift(c, t))
  {
    if c.InRight? {
      if Balanced(Lift(c, t), C) {
        BalancedRight(Lift(c, t), C);
      }
    }
  }

  /** The context rules, one level up. */
  lemma {:induction false} CtxUp(c: Ctx, C: seq<Color>, h: nat, hc: Color)
    requires !c.Top?
    ensures CtxBalanced(c, C, h) <==>
            Balanced(c.sibling, C) && BH(c.sibling, C) == h && CtxBalanced(c.up, C, h + Weight(C, c.pid))
    ensures CtxRedOk(c, C, hc) <==>
            (ColorAt(C, c.pid) == Red ==> hc == Black && ColorOf(c.sibling, C) == Black) &&
            RedOk(c.sibling, C) && CtxRedOk(c.up, C, ColorAt(C, c.pid))
    ensures CtxIds(c) == CtxIds(c.up) + {c.pid} + Ids(c.sibling)
    ensures CtxUnique(c) <==>
            CtxUnique(c.up) && Unique(c.sibling) && c.pid !in Ids(c.sibling) &&
            c.pid !in CtxIds(c.up) && Ids(c.sibling) !! CtxIds(c.up)
    ensures CtxParent(c) == c.pid && Depth(c.up) < Depth(c)
  {
  }

  /** The colour of the hole only matters below a RED parent. */
  lemma {:induction false} CtxRedOkBlack(c: Ctx, C: seq<Color>, hc: Color)
    requires CtxRedOk(c, C, hc)
    ensures CtxRedOk(c, C, Black)
  {
  }

  lemma {:induction false} CtxRedOkAny(c: Ctx, C: seq<Color>, hc: Color)
    requires CtxRedOk(c, C, Black) && (c.Top? || ColorAt(C, c.pid) == Black)
    ensures CtxRedOk(c, C, hc)
  {
  }

  /** Blackening the root of a tree that keeps the other rules makes it red-black. */
  lemma {:induction false} BlackenRoot(t: Tree, C: seq<Color>, C': seq<Color>)
    requires RedOk(t, C) && Balanced(t, C) && Unique(t)
    requires ColorsAgree(Ids(t) - {RootId(t)}, C, C')
    requires t.Node? ==> ColorAt(C', t.id) == Black
    ensures RedBlack(t, C')
  {
    if t.Node? {
      ColorFrame(t.left, C, C');
      ColorFrame(t.right, C, C');
    }
  }
}
