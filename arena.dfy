/** The arena behind rbtree.go's pointer nodes, as plain values.

    Slot `i` of `K`, `Vs`, `C`, `L`, `R` and `P` holds the key, value,
    colour and left/right/parent links of one node; slot 0 is the sentinel
    `t.null`.  `Arena` says when such sequences, a root slot, a node count
    and a ghost shape fit together; the lemmas here show that the link
    surgery of rbtree.go keeps them fitting. */
module RbArena {
  import opened RbShape
  import opened RbRotation

  /** An arena is consistent: the links agree with `t`, the sentinel is
      BLACK and has no children, and `n` is the number of nodes. */
  ghost predicate Arena<V>(K: seq<int>, Vs: seq<V>, C: seq<Color>, L: seq<nat>, R: seq<nat>, P: seq<nat>,
                           top: nat, n: int, t: Tree)
  {
    |K| > 0 && |Vs| == |K| && |C| == |K| && |L| == |K| && |R| == |K| && |P| == |K| &&
    C[0] == Black && L[0] == 0 && R[0] == 0 &&
    Unique(t) && Linked(t, 0, L, R, P) && top == RootId(t) && n == Size(t) &&
    forall i :: i in Ids(t) ==> 0 < i < |K|
  }

  /** rbTreeLeftRotate's writes keep the arena consistent and rotate the shape. */
  lemma {:induction false} LeftRotateArena<V>(K: seq<int>, Vs: seq<V>, C: seq<Color>, L: seq<nat>, R: seq<nat>,
                                              P: seq<nat>, top: nat, n: int, t: Tree, x: nat,
                                              L': seq<nat>, R': seq<nat>, P': seq<nat>, top': nat)
    returns (t': Tree)
    requires Arena(K, Vs, C, L, R, P, top, n, t) && x in Ids(t)
    requires x < |R| && 0 < R[x] < |L| && L[R[x]] < |L| && P[x] < |L|
    requires L' == (if P[x] != 0 && L[P[x]] == x then L[P[x] := R[x]] else L)[R[x] := x]
    requires R' == (if P[x] != 0 && L[P[x]] != x then R[x := L[R[x]]][P[x] := R[x]] else R[x := L[R[x]]])
    requires P' == (if L[R[x]] != 0 then P[L[R[x]] := x] else P)[R[x] := P[x]][x := R[x]]
    requires top' == if P[x] == 0 then R[x] else top
    ensures Arena(K, Vs, C, L', R', P', top', n, t') && t' == RotateLeftAt(t, x) && P'[0] == P[0]
  {
    LeftRotateReads(t, x, L, R, P);
    t' := LeftRotateResult(t, x, L, R, P, L', R', P');
  }

  /** rbTreeRightRotate's writes keep the arena consistent and rotate the shape. */
  lemma {:induction false} RightRotateArena<V>(K: seq<int>, Vs: seq<V>, C: seq<Color>, L: seq<nat>, R: seq<nat>,
                                               P: seq<nat>, top: nat, n: int, t: Tree, x: nat,
                                               L': seq<nat>, R': seq<nat>, P': seq<nat>, top': nat)
    returns (t': Tree)
    requires Arena(K, Vs, C, L, R, P, top, n, t) && x in Ids(t)
    requires x < |L| && 0 < L[x] < |L| && R[L[x]] < |L| && P[x] < |L|
    requires L' == (if P[x] != 0 && L[P[x]] == x then L[x := R[L[x]]][P[x] := L[x]] else L[x := R[L[x]]])
    requires R' == (if P[x] != 0 && L[P[x]] != x then R[P[x] := L[x]] else R)[L[x] := x]
    requires P' == (if R[L[x]] != 0 then P[R[L[x]] := x] else P)[L[x] := P[x]][x := L[x]]
    requires top' == if P[x] == 0 then L[x] else top
    ensures Arena(K, Vs, C, L', R', P', top', n, t') && t' == RotateRightAt(t, x) && P'[0] == P[0]
  {
    RightRotateReads(t, x, L, R, P);
    t' := RightRotateResult(t, x, L, R, P, L', R', P');
  }

  /** The links around a cursor node `s` of the shape and its parent, read
      off the arena: which side of the parent the cursor hangs on, and where
      the parent's other child (the cursor's sibling) is. */
  lemma {:induction false} CursorLinks<V>(K: seq<int>, Vs: seq<V>, C: seq<Color>, L: seq<nat>, R: seq<nat>,
                                          P: seq<nat>, top: nat, n: int, t: Tree, c: Ctx, s: Tree)
    requires Arena(K, Vs, C, L, R, P, top, n, t) && t == Plug(c, s) && s.Node?
    ensures s.id in Ids(t) && 0 < s.id < |K| && P[s.id] == CtxParent(c)
    ensures L[s.id] == RootId(s.left) && R[s.id] == RootId(s.right)
    ensures RootId(s.left) < |K| && RootId(s.right) < |K|
    ensures !c.Top? ==>
              c.pid in Ids(t) && 0 < c.pid < |K| && P[c.pid] == CtxParent(c.up) && RootId(c.sibling) < |K| &&
              (L[c.pid] == s.id <==> c.InLeft?) && (R[c.pid] == s.id <==> c.InRight?) &&
              (c.InLeft? ==> R[c.pid] == RootId(c.sibling)) && (c.InRight? ==> L[c.pid] == RootId(c.sibling))
  {
    PlugLinks(c, s.left, s.id, s.right, L, R, P);
    PlugIds(c, s);
    PlugUnique(c, s);
    LinkedIds(s, CtxParent(c), L, R, P);
    if !c.Top? {
      if c.sibling.Node? {
        assert c.sibling.id in CtxIds(c);
      }
    }
  }

  /** The cursor subtree is empty exactly when its root is the sentinel. */
  lemma {:induction false} CursorNil<V>(K: seq<int>, Vs: seq<V>, C: seq<Color>, L: seq<nat>, R: seq<nat>,
                                        P: seq<nat>, top: nat, n: int, t: Tree, c: Ctx, s: Tree)
    requires Arena(K, Vs, C, L, R, P, top, n, t) && t == Plug(c, s)
    ensures s.Nil? <==> RootId(s) == 0
    ensures c.Top? <==> CtxParent(c) == 0
    ensures CtxParent(c) < |K|
  {
    PlugIds(c, s);
    if !c.Top? {
      assert c.pid in CtxIds(c);
    }
  }

  /** The links of Insert's new node `x`, appended with parent `prev` and
      hung into the empty place `c`. */
  lemma {:induction false} AttachLinked(c: Ctx, L: seq<nat>, R: seq<nat>, P: seq<nat>, prev: nat,
                                        L': seq<nat>, R': seq<nat>, P': seq<nat>)
    requires Linked(Plug(c, Nil), 0, L, R, P) && Unique(Plug(c, Nil)) && prev == CtxParent(c) && prev < |L|
    requires |L| == |R| == |P|
    requires L' == if c.InLeft? then (L + [0])[prev := |L|] else L + [0]
    requires R' == if c.InRight? then (R + [0])[prev := |L|] else R + [0]
    requires P' == P + [prev]
    ensures Linked(Plug(c, Node(Nil, |L|, Nil)), 0, L', R', P')
  {
    var x := |L|;
    PlugUnique(c, Nil);
    PlugLinked(c, Nil, L, R, P);
    PlugLinked(c, Node(Nil, x, Nil), L', R', P');
    CtxLinkedGrow(c, 0, L, R, P, 0, 0, prev);
    CtxRelink(c, 0, x, L + [0], R + [0], P', L', R', P');
  }

  /** The shape after Insert hangs a new slot `x` into the empty place `c`. */
  lemma {:induction false} AttachShape(c: Ctx, x: nat)
    requires Unique(Plug(c, Nil)) && x !in Ids(Plug(c, Nil))
    ensures Unique(Plug(c, Node(Nil, x, Nil)))
    ensures Ids(Plug(c, Node(Nil, x, Nil))) == Ids(Plug(c, Nil)) + {x}
    ensures Size(Plug(c, Node(Nil, x, Nil))) == Size(Plug(c, Nil)) + 1
    ensures RootId(Plug(c, Node(Nil, x, Nil))) == if c.Top? then x else RootId(Plug(c, Nil))
  {
    PlugIds(c, Nil);
    PlugIds(c, Node(Nil, x, Nil));
    PlugUnique(c, Nil);
    PlugUnique(c, Node(Nil, x, Nil));
    PlugRoot(c, Nil);
    PlugRoot(c, Node(Nil, x, Nil));
    PlugSize(c, Nil, Node(Nil, x, Nil));
  }

  /** Insert's new node: slot |K| is appended (RED, no children, parent
      `prev`) and hung into the empty place `c` that the descent ended on;
      the arena stays consistent with one more node. */
  lemma {:induction false} AttachArena<V>(K: seq<int>, Vs: seq<V>, C: seq<Color>, L: seq<nat>, R: seq<nat>,
                                          P: seq<nat>, top: nat, n: int, t: Tree, c: Ctx, key: int, val: V,
                                          prev: nat, L': seq<nat>, R': seq<nat>, top': nat)
    returns (t': Tree)
    requires Arena(K, Vs, C, L, R, P, top, n, t) && t == Plug(c, Nil) && prev == CtxParent(c) && prev < |K|
    requires L' == if c.InLeft? then (L + [0])[prev := |K|] else L + [0]
    requires R' == if c.InRight? then (R + [0])[prev := |K|] else R + [0]
    requires top' == if c.Top? then |K| else top
    ensures t' == Plug(c, Node(Nil, |K|, Nil)) && |K| !in CtxIds(c)
    ensures Arena(K + [key], Vs + [val], C + [Red], L', R', P + [prev], top', n + 1, t')
  {
    var x := |K|;
    t' := Plug(c, Node(Nil, x, Nil));
    AttachLinked(c, L, R, P, prev, L', R', P + [prev]);
    AttachShape(c, x);
    PlugIds(c, Nil);
  }

  /** The cursor is the root exactly when its context is empty. */
  lemma {:induction false} CursorRoot<V>(K: seq<int>, Vs: seq<V>, C: seq<Color>, L: seq<nat>, R: seq<nat>,
                                         P: seq<nat>, top: nat, n: int, t: Tree, c: Ctx, s: Tree)
    requires Arena(K, Vs, C, L, R, P, top, n, t) && t == Plug(c, s)
    ensures RootId(s) == top <==> c.Top?
  {
    PlugRoot(c, s);
    PlugIds(c, s);
    PlugUnique(c, s);
    if !c.Top? {
      TopIdIn(c);
      if s.Node? {
        assert s.id in Ids(s);
      }
    }
  }

  /** The links around the parent of a cursor subtree `s` (which may be
      empty), and around its sibling: what deleteFixUp reads. */
  lemma {:induction false} ParentLinks<V>(K: seq<int>, Vs: seq<V>, C: seq<Color>, L: seq<nat>, R: seq<nat>,
                                          P: seq<nat>, top: nat, n: int, t: Tree, c: Ctx, s: Tree)
    requires Arena(K, Vs, C, L, R, P, top, n, t) && t == Plug(c, s) && !c.Top?
    ensures c.pid in Ids(t) && 0 < c.pid < |K| && P[c.pid] == CtxParent(c.up)
    ensures RootId(s) < |K| && RootId(c.sibling) < |K|
    ensures L[c.pid] == (if c.InLeft? then RootId(s) else RootId(c.sibling))
    ensures R[c.pid] == (if c.InRight? then RootId(s) else RootId(c.sibling))
    ensures c.sibling.Node? ==>
              c.sibling.id in Ids(t) && c.sibling.id != RootId(s) && P[c.sibling.id] == c.pid &&
              L[c.sibling.id] == RootId(c.sibling.left) && R[c.sibling.id] == RootId(c.sibling.right) &&
              RootId(c.sibling.left) < |K| && RootId(c.sibling.right) < |K| &&
              (c.sibling.left.Node? ==> c.sibling.left.id in Ids(t)) &&
              (c.sibling.right.Node? ==> c.sibling.right.id in Ids(t))
  {
    LiftUnique(c, s);
    CursorLinks(K, Vs, C, L, R, P, top, n, t, c.up, Lift(c, s));
    if c.sibling.Node? {
      var w := c.sibling;
      var cw := if c.InLeft? then InRight(s, c.pid, c.up) else InLeft(c.up, c.pid, s);
      assert Plug(cw, w) == t;
      CursorLinks(K, Vs, C, L, R, P, top, n, t, cw, w);
      PlugIds(cw, w);
      PlugUnique(c.up, Lift(c, s));
      if s.Node? {
        assert s.id in Ids(s);
      }
    }
  }

  /** The links after Delete unlinks node `s`: its child `ch` hangs where `s` was. */
  lemma {:induction false} SpliceLinked(c: Ctx, s: Tree, L: seq<nat>, R: seq<nat>, P: seq<nat>,
                                        L': seq<nat>, R': seq<nat>, P': seq<nat>)
    requires Linked(Plug(c, s), 0, L, R, P) && Unique(Plug(c, s)) && s.Node? && (s.left.Nil? || s.right.Nil?)
    requires |L| == |R| == |P|
    requires RootId(s.left) < |P| && RootId(s.right) < |P| && CtxParent(c) < |L|
    requires var x := if s.left.Node? then s.left.id else RootId(s.right);
      P' == P[x := CtxParent(c)] &&
      L' == (if c.InLeft? then L[c.pid := x] else L) &&
      R' == (if c.InRight? then R[c.pid := x] else R)
    ensures Linked(Plug(c, if s.left.Node? then s.left else s.right), 0, L', R', P')
  {
    var ch := if s.left.Node? then s.left else s.right;
    var x := RootId(ch);
    var S := {CtxParent(c), x};
    PlugUnique(c, s);
    PlugLinks(c, s.left, s.id, s.right, L, R, P);
    LinkedIds(s, CtxParent(c), L, R, P);
    assert Ids(ch) <= Ids(s);
    CtxLinkedIds(c, s.id, L, R, P);
    if ch.Node? {
      assert ch.id in Ids(ch);
    }
    assert x !in CtxIds(c);
    if !c.Top? {
      assert c.pid in CtxIds(c);
    }
    CtxRelinkOutside(c, s.id, x, S, L, R, P, L', R', P');
    ReparentOutside(ch, s.id, CtxParent(c), S, L, R, P, L', R', P');
    PlugLinked(c, ch, L', R', P');
  }

  /** The shape after Delete unlinks node `s`: one slot fewer. */
  lemma {:induction false} SpliceShape(c: Ctx, s: Tree)
    requires Unique(Plug(c, s)) && s.Node? && (s.left.Nil? || s.right.Nil?)
    ensures var ch := if s.left.Node? then s.left else s.right;
      Unique(Plug(c, ch)) && Ids(Plug(c, ch)) == Ids(Plug(c, s)) - {s.id} &&
      Size(Plug(c, ch)) == Size(Plug(c, s)) - 1 &&
      RootId(Plug(c, ch)) == if c.Top? then RootId(ch) else RootId(Plug(c, s))
  {
    var ch := if s.left.Node? then s.left else s.right;
    PlugUnique(c, s);
    PlugReplace(c, s, ch);
    PlugRoot(c, s);
    PlugRoot(c, ch);
    PlugSize(c, s, ch);
  }

  /** Delete's unlinking of node `s`, which has at most one child: the
      child `ch` (possibly the sentinel) takes `s`'s place under `s`'s
      parent, and the arena stays consistent with one node fewer. */
  lemma {:induction false} SpliceArena<V>(K: seq<int>, Vs: seq<V>, C: seq<Color>, L: seq<nat>, R: seq<nat>,
                                          P: seq<nat>, top: nat, n: int, t: Tree, c: Ctx, s: Tree,
                                          L': seq<nat>, R': seq<nat>, P': seq<nat>, top': nat)
    returns (t': Tree)
    requires Arena(K, Vs, C, L, R, P, top, n, t) && t == Plug(c, s) && s.Node? && (s.left.Nil? || s.right.Nil?)
    requires RootId(s.left) < |P| && RootId(s.right) < |P| && CtxParent(c) < |L|
    requires var x := if s.left.Node? then s.left.id else RootId(s.right);
      P' == P[x := CtxParent(c)] &&
      L' == (if c.InLeft? then L[c.pid := x] else L) &&
      R' == (if c.InRight? then R[c.pid := x] else R) &&
      top' == (if c.Top? then x else top)
    ensures t' == Plug(c, if s.left.Node? then s.left else s.right)
    ensures Arena(K, Vs, C, L', R', P', top', n - 1, t')
    ensures Ids(t') == Ids(t) - {s.id}
  {
    t' := Plug(c, if s.left.Node? then s.left else s.right);
    SpliceLinked(c, s, L, R, P, L', R', P');
    SpliceShape(c, s);
    if !c.Top? {
      PlugIds(c, s);
      assert c.pid in CtxIds(c);
    }
  }

  /** The same unlinking as the pointer updates perform it: the child `x`
      takes the parent of `s`, and the parent's link to `s` (or the root,
      when `s` is the root) is redirected to `x`. */
  lemma {:induction false} SpliceRelink<V>(K: seq<int>, Vs: seq<V>, C: seq<Color>, L: seq<nat>, R: seq<nat>,
                                           P: seq<nat>, top: nat, n: int, t: Tree, c: Ctx, s: Tree)
    returns (t': Tree)
    requires Arena(K, Vs, C, L, R, P, top, n, t) && t == Plug(c, s) && s.Node? && (s.left.Nil? || s.right.Nil?)
    ensures s.id < |L| && s.id < |P| && P[s.id] < |L|
    ensures var y, ch := s.id, if s.left.Node? then s.left else s.right;
      var x, q := if L[y] != 0 then L[y] else R[y], P[y];
      x < |P| && x != y && x == RootId(ch) && q == CtxParent(c) &&
      t' == Plug(c, ch) && Ids(t') == Ids(t) - {y} &&
      Arena(K, Vs, C, if q != 0 && y == L[q] then L[q := x] else L,
            if q != 0 && y != L[q] then R[q := x] else R,
            P[x := q], if q == 0 then x else top, n - 1, t')
  {
    CursorLinks(K, Vs, C, L, R, P, top, n, t, c, s);
    CursorNil(K, Vs, C, L, R, P, top, n, t, c, s);
    PlugUnique(c, s);
    var y := s.id;
    var x := if L[y] != 0 then L[y] else R[y];
    assert x != y;
    var L', R', P', top' := L, R, P[x := CtxParent(c)], top;
    if c.InLeft? {
      L' := L[c.pid := x];
    } else if c.InRight? {
      R' := R[c.pid := x];
    } else {
      top' := x;
    }
    t' := SpliceArena(K, Vs, C, L, R, P, top, n, t, c, s, L', R', P', top');
  }
}
