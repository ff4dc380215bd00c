/** The red-black tree of rbtree/rbtree.go as an arena.

    Each `RbTreeNode` of the Go code is a slot `i` of the sequences `keys`,
    `vals`, `colors`, `lefts`, `rights` and `parents`; a pointer is a slot
    number and slot 0 is the shared sentinel `t.null` (BLACK, its key and
    value meaningless).  `root` and `count` are the tree's own fields.  The
    ghost field `shape` says which slots hang together as the tree. */
module RbTrees {
  import opened RbShape
  import opened RbColors
  import opened RbRotation
  import opened RbArena
  import opened RbInsertFix
  import opened RbKeys
  import opened RbDeleteFix

  datatype Option<T> = None | Some(value: T)

  /** What Delete hands back: a copy of the removed entry's key, value and colour. */
  datatype Entry<V> = Entry(key: int, value: V, color: Color)

  /** Every slot of `ids` is below `n`. */
  ghost predicate Below(ids: seq<nat>, n: nat) {
    forall j :: 0 <= j < |ids| ==> ids[j] < n
  }

  lemma {:induction false} BelowOf(ids: seq<nat>, n: nat)
    requires forall i :: i in ids ==> i < n
    ensures Below(ids, n)
  {
    forall j | 0 <= j < |ids| ensures ids[j] < n {
      assert ids[j] in ids;
    }
  }

  /** The (key, value) pairs of a sequence of slots, in that order: what the
      callback of Range is handed, call by call. */
  ghost function Pairs<V>(ids: seq<nat>, K: seq<int>, Vs: seq<V>): seq<(int, V)>
    requires Below(ids, |K|) && Below(ids, |Vs|)
  {
    if ids == [] then [] else [(K[ids[0]], Vs[ids[0]])] + Pairs(ids[1..], K, Vs)
  }

  /** The keys of a sequence of pairs. */
  function Firsts<V>(ps: seq<(int, V)>): seq<int> {
    seq(|ps|, j requires 0 <= j < |ps| => ps[j].0)
  }

  lemma {:induction false} PairsAppend<V>(a: seq<nat>, b: seq<nat>, K: seq<int>, Vs: seq<V>)
    requires Below(a, |K|) && Below(a, |Vs|) && Below(b, |K|) && Below(b, |Vs|)
    ensures Below(a + b, |K|) && Below(a + b, |Vs|)
    ensures Pairs(a + b, K, Vs) == Pairs(a, K, Vs) + Pairs(b, K, Vs)
  {
    if a != [] {
      assert (a + b)[1..] == a[1..] + b;
      PairsAppend(a[1..], b, K, Vs);
    } else {
      assert a + b == b;
    }
  }

  /** The keys handed to Range's callback are the keys of the slots, in order. */
  lemma {:induction false} PairsKeys<V>(ids: seq<nat>, K: seq<int>, Vs: seq<V>)
    requires Below(ids, |K|) && Below(ids, |Vs|)
    ensures |Pairs(ids, K, Vs)| == |ids|
    ensures Firsts(Pairs(ids, K, Vs)) == KeySeq(ids, K)
  {
    if ids != [] {
      PairsKeys(ids[1..], K, Vs);
      assert KeySeq(ids, K) == [KeyAt(K, ids[0])] + KeySeq(ids[1..], K);
    }
  }

  /** Pairs only reads the slots it lists. */
  lemma {:induction false} PairsFrame<V>(ids: seq<nat>, K: seq<int>, Vs: seq<V>, K': seq<int>, Vs': seq<V>)
    requires Below(ids, |K|) && Below(ids, |Vs|) && Below(ids, |K'|) && Below(ids, |Vs'|)
    requires forall j :: 0 <= j < |ids| ==> K'[ids[j]] == K[ids[j]] && Vs'[ids[j]] == Vs[ids[j]]
    ensures Pairs(ids, K', Vs') == Pairs(ids, K, Vs)
  {
    if ids != [] {
      PairsFrame(ids[1..], K, Vs, K', Vs');
    }
  }

  /** Moving the next slot's key and value into slot `z` and unlinking that
      next slot `y` leaves the pairs that unlinking `z` itself would leave. */
  lemma {:induction false} CopyPairs<V>(a: seq<nat>, z: nat, y: nat, b: seq<nat>, K: seq<int>, Vs: seq<V>)
    requires z !in a && z !in b && y !in a && y !in b && z != y
    requires Below(a, |K|) && Below(b, |K|) && z < |K| && y < |K| && |Vs| == |K|
    ensures Remove(a + [z, y] + b, y) == a + [z] + b && Remove(a + [z, y] + b, z) == a + [y] + b
    ensures Below(a + [z] + b, |K|) && Below(a + [z] + b, |Vs|) && Below(a + [y] + b, |K|) && Below(a + [y] + b, |Vs|)
    ensures Pairs(a + [z] + b, K[z := K[y]], Vs[z := Vs[y]]) == Pairs(a + [y] + b, K, Vs)
  {
    RemoveAdjacent(a, z, y, b);
    CopyPairsFrame(a, z, y, b, K, Vs);
  }

  /** Removing either of two adjacent slots that occur once. */
  lemma {:induction false} RemoveAdjacent(a: seq<nat>, z: nat, y: nat, b: seq<nat>)
    requires z !in a && z !in b && y !in a && y !in b && z != y
    ensures Remove(a + [z, y] + b, y) == a + [z] + b && Remove(a + [z, y] + b, z) == a + [y] + b
  {
    assert a + [z, y] + b == (a + [z]) + [y] + b;
    RemoveOnce(a + [z], y, b);
    assert a + [z, y] + b == a + [z] + ([y] + b);
    RemoveOnce(a, z, [y] + b);
  }

  /** The pairs half of CopyPairs: only slot `z` changes, and it now reads as slot `y`. */
  lemma {:induction false} CopyPairsFrame<V>(a: seq<nat>, z: nat, y: nat, b: seq<nat>, K: seq<int>, Vs: seq<V>)
    requires z !in a && z !in b && z != y
    requires Below(a, |K|) && Below(b, |K|) && z < |K| && y < |K| && |Vs| == |K|
    ensures Below(a + [z] + b, |K|) && Below(a + [z] + b, |Vs|) && Below(a + [y] + b, |K|) && Below(a + [y] + b, |Vs|)
    ensures Pairs(a + [z] + b, K[z := K[y]], Vs[z := Vs[y]]) == Pairs(a + [y] + b, K, Vs)
  {
    var K', Vs' := K[z := K[y]], Vs[z := Vs[y]];
    forall j | 0 <= j < |a| ensures K'[a[j]] == K[a[j]] && Vs'[a[j]] == Vs[a[j]] {
      assert a[j] in a;
    }
    forall j | 0 <= j < |b| ensures K'[b[j]] == K[b[j]] && Vs'[b[j]] == Vs[b[j]] {
      assert b[j] in b;
    }
    PairsFrame(a, K, Vs, K', Vs');
    PairsFrame(b, K, Vs, K', Vs');
    assert [z][1..] == [] && [y][1..] == [] && K'[z] == K[y] && Vs'[z] == Vs[y];
    assert Pairs([z], K', Vs') == [(K[y], Vs[y])] == Pairs([y], K, Vs);
    PairsAppend(a, [z], K', Vs');
    PairsAppend(a + [z], b, K', Vs');
    PairsAppend(a, [y], K, Vs);
    PairsAppend(a + [y], b, K, Vs);
  }

  /** CopyPairs at a node `s` with a right child, whose next slot is the
      leftmost node of that right subtree. */
  lemma {:induction false} SuccessorPairs<V>(c: Ctx, s: Tree, K: seq<int>, Vs: seq<V>)
    requires Unique(Plug(c, s)) && s.Node? && s.right.Node? && |Vs| == |K|
    requires forall i :: i in Ids(Plug(c, s)) ==> i < |K|
    ensures var ids, z, y := Inorder(Plug(c, s)), s.id, LeftmostId(s.right);
            z < |K| && y < |K| && Below(Remove(ids, y), |K|) && Below(Remove(ids, z), |K|) &&
            Pairs(Remove(ids, y), K[z := K[y]], Vs[z := Vs[y]]) == Pairs(Remove(ids, z), K, Vs)
  {
    var ids, z, y := Inorder(Plug(c, s)), s.id, LeftmostId(s.right);
    var a, b := SuccessorDown(c, s);
    InorderIds(Plug(c, s));
    forall i | i in a ensures i < |K| {
      assert i in ids;
    }
    forall i | i in b ensures i < |K| {
      assert i in ids;
    }
    assert z in ids && y in ids;
    BelowOf(a, |K|);
    BelowOf(b, |K|);
    CopyPairs(a, z, y, b, K, Vs);
  }

  /** When the pairs left behind are those of the old slots without `z`,
      the keys are the old keys without z's key, still ascending. */
  lemma {:induction false} PairsRemoveKeys<V>(ids: seq<nat>, z: nat, K: seq<int>, Vs: seq<V>,
                                              ids': seq<nat>, K': seq<int>, Vs': seq<V>)
    requires Below(ids', |K'|) && Below(ids', |Vs'|) && Below(Remove(ids, z), |K|) && Below(Remove(ids, z), |Vs|)
    requires Pairs(ids', K', Vs') == Pairs(Remove(ids, z), K, Vs)
    requires Sorted(KeySeq(ids, K)) && z in ids
    ensures KeySeq(ids', K') == Remove(KeySeq(ids, K), KeyAt(K, z)) && Sorted(KeySeq(ids', K'))
  {
    PairsKeys(ids', K', Vs');
    PairsKeys(Remove(ids, z), K, Vs);
    RemoveKeys(ids, K, z);
  }

  class RbTree<V(0)> {
    var keys: seq<int>
    var vals: seq<V>
    var colors: seq<Color>
    var lefts: seq<nat>
    var rights: seq<nat>
    var parents: seq<nat>
    var root: nat
    var count: int
    ghost var shape: Tree

    /** The arena is consistent (see `Arena`). */
    ghost predicate Wf()
      reads this
    {
      Arena(keys, vals, colors, lefts, rights, parents, root, count, shape)
    }

    /** The rule set of rbtree.go's header comment holds as well. */
    ghost predicate Valid()
      reads this
    {
      Wf() && RedBlack(shape, colors)
    }

    /** NewRbTree (rbtree.go:54-61): only the sentinel, which is also the root. */
    constructor ()
      ensures Valid() && shape == Nil && count == 0
    {
      var d: V := *;
      keys, vals, colors := [0], [d], [Black];
      lefts, rights, parents := [0], [0], [0];
      root, count := 0, 0;
      shape := Nil;
    }

    /** newRbTreeNode (rbtree.go:35-44): a fresh slot at the end of the
        arena holding `key` and `val`, RED, with the sentinel as both
        children and `parent` as its parent.  It is not yet hung into the tree. */
    method NewNode(key: int, val: V, parent: nat) returns (n: nat)
      modifies this
      ensures n == |old(keys)|
      ensures keys == old(keys) + [key] && vals == old(vals) + [val] && colors == old(colors) + [Red]
      ensures lefts == old(lefts) + [0] && rights == old(rights) + [0] && parents == old(parents) + [parent]
      ensures root == old(root) && count == old(count) && shape == old(shape)
    {
      n := |keys|;
      keys, vals, colors := keys + [key], vals + [val], colors + [Red];
      lefts, rights, parents := lefts + [0], rights + [0], parents + [parent];
    }

    /** rbTreeLeftRotate (rbtree.go:64-98): X's right child Y takes X's place
        and X becomes Y's left child; colours are not touched.  Without a
        right child (in particular for the sentinel) nothing changes. */
    method LeftRotate(x: nat)
      requires Wf() && x in Ids(shape)
      modifies this
      ensures Wf()
      ensures shape == RotateLeftAt(old(shape), x)
      ensures keys == old(keys) && vals == old(vals) && colors == old(colors) && count == old(count)
      ensures parents[0] == old(parents[0])
      ensures old(rights[x]) == 0 ==> unchanged(this)
      ensures old(root) == x && old(rights[x]) != 0 ==> root == old(rights[x])
    {
      if rights[x] == 0 {
        RotateNoop(shape, x, lefts, rights, parents);
        return;
      }
      LeftRotateReads(shape, x, lefts, rights, parents);
      var L, R, P, top := lefts, rights, parents, root;
      var y := R[x];
      R := R[x := L[y]];
      if L[y] != 0 {
        P := P[L[y] := x];
      }
      P := P[y := P[x]];
      if P[y] == 0 {
        top := y;
      } else if L[P[y]] == x {
        L := L[P[y] := y];
      } else if R[P[y]] == x {
        R := R[P[y] := y];
      }
      L := L[y := x];
      P := P[x := y];
      ghost var t := LeftRotateArena(keys, vals, colors, lefts, rights, parents, root, count, shape, x, L, R, P, top);
      lefts, rights, parents, root, shape := L, R, P, top, t;
    }

    /** rbTreeRightRotate (rbtree.go:101-135), the mirror image of LeftRotate. */
    method RightRotate(x: nat)
      requires Wf() && x in Ids(shape)
      modifies this
      ensures Wf()
      ensures shape == RotateRightAt(old(shape), x)
      ensures keys == old(keys) && vals == old(vals) && colors == old(colors) && count == old(count)
      ensures parents[0] == old(parents[0])
      ensures old(lefts[x]) == 0 ==> unchanged(this)
      ensures old(root) == x && old(lefts[x]) != 0 ==> root == old(lefts[x])
    {
      if lefts[x] == 0 {
        RotateNoop(shape, x, lefts, rights, parents);
        return;
      }
      RightRotateReads(shape, x, lefts, rights, parents);
      var L, R, P, top := lefts, rights, parents, root;
      var y := L[x];
      L := L[x := R[y]];
      if L[x] != 0 {
        P := P[L[x] := x];
      }
      P := P[y := P[x]];
      if P[y] == 0 {
        top := y;
      } else if L[P[y]] == x {
        L := L[P[y] := y];
      } else if R[P[y]] == x {
        R := R[P[y] := y];
      }
      R := R[y := x];
      P := P[x := y];
      ghost var t := RightRotateArena(keys, vals, colors, lefts, rights, parents, root, count, shape, x, L, R, P, top);
      lefts, rights, parents, root, shape := L, R, P, top, t;
    }

    /** Case 1 of insertFixUp (rbtree.go:195-200 and 214-218): under a RED
        parent `p` and a RED uncle, the parent and the uncle turn BLACK, the
        grandparent `g` turns RED and becomes the cursor. */
    method InsertRecolor(p: nat, g: nat, uncle: nat, ghost c: Ctx, ghost s: Tree) returns (ghost c': Ctx, ghost s': Tree)
      requires Wf() && shape == Plug(c, s) && s.Node? && Fixing(c, s, colors)
      requires !c.Top? && ColorAt(colors, c.pid) == Red && !c.up.Top? && ColorOf(c.up.sibling, colors) == Red
      requires p == c.pid && g == c.up.pid && uncle == RootId(c.up.sibling)
      requires p < |colors| && g < |colors| && uncle < |colors|
      modifies this
      ensures Wf() && shape == old(shape) && root == old(root)
      ensures keys == old(keys) && vals == old(vals) && count == old(count)
      ensures lefts == old(lefts) && rights == old(rights) && parents == old(parents)
      ensures colors == old(colors)[p := Black][uncle := Black][g := Red]
      ensures shape == Plug(c', s') && s'.Node? && s'.id == g && Fixing(c', s', colors) && Depth(c') < Depth(c)
    {
      FixingLinks(keys, vals, colors, lefts, rights, parents, root, count, shape, c, s);
      ghost var C := colors;
      colors := colors[p := Black];
      colors := colors[uncle := Black];
      colors := colors[g := Red];
      FixingRecolor(c, s, C, colors);
      c', s' := c.up.up, Lift(c.up, Lift(c, s));
    }

    /** Cases 2 and 3 of insertFixUp with the parent on the left
        (rbtree.go:201-211): a cursor that is a right child first rotates
        left at its parent, which becomes the cursor; then the parent turns
        BLACK, the grandparent RED, and the tree rotates right at the
        grandparent.  Every rule but the root's colour then holds, and the
        cursor's parent is BLACK, which ends the loop. */
    method InsertRotateLeftSide(cur: nat, ghost c: Ctx, ghost s: Tree) returns (cur': nat)
      requires Wf() && shape == Plug(c, s) && s.Node? && s.id == cur && Fixing(c, s, colors)
      requires c.InLeft? || c.InRight?
      requires ColorAt(colors, c.pid) == Red && !c.up.Top? && c.up.InLeft? && ColorOf(c.up.sibling, colors) == Black
      modifies this
      ensures Wf() && RedOk(shape, colors) && Balanced(shape, colors)
      ensures cur' < |parents| && parents[cur'] < |colors| && colors[parents[cur']] == Black
      ensures keys == old(keys) && vals == old(vals) && count == old(count)
      ensures Inorder(shape) == Inorder(old(shape))
    {
      ghost var c1, s1 := c, s;
      cur' := cur;
      CursorLinks(keys, vals, colors, lefts, rights, parents, root, count, shape, c, s);
      if cur' == rights[parents[cur']] {
        FixingInnerLeft(c, s, colors);
        RotateLeftInorder(shape, c.pid);
        cur' := parents[cur'];
        LeftRotate(cur');
        c1, s1 := InLeft(c.up, s.id, s.right), Node(c.sibling, c.pid, s.left);
      }
      FixingLinks(keys, vals, colors, lefts, rights, parents, root, count, shape, c1, s1);
      ghost var C := colors;
      colors := colors[parents[cur'] := Black];
      colors := colors[parents[parents[cur']] := Red];
      FixingOuterLeft(c1, s1, C, colors);
      RotateRightInorder(shape, c1.up.pid);
      RightRotate(parents[parents[cur']]);
      CursorLinks(keys, vals, colors, lefts, rights, parents, root, count, shape,
                  InLeft(c1.up.up, c1.pid, Node(c1.sibling, c1.up.pid, c1.up.sibling)), s1);
    }

    /** Cases 2 and 3 of insertFixUp with the parent on the right
        (rbtree.go:219-227), the mirror image of InsertRotateLeftSide. */
    method InsertRotateRightSide(cur: nat, ghost c: Ctx, ghost s: Tree) returns (cur': nat)
      requires Wf() && shape == Plug(c, s) && s.Node? && s.id == cur && Fixing(c, s, colors)
      requires c.InLeft? || c.InRight?
      requires ColorAt(colors, c.pid) == Red && !c.up.Top? && c.up.InRight? && ColorOf(c.up.sibling, colors) == Black
      modifies this
      ensures Wf() && RedOk(shape, colors) && Balanced(shape, colors)
      ensures cur' < |parents| && parents[cur'] < |colors| && colors[parents[cur']] == Black
      ensures keys == old(keys) && vals == old(vals) && count == old(count)
      ensures Inorder(shape) == Inorder(old(shape))
    {
      ghost var c1, s1 := c, s;
      cur' := cur;
      CursorLinks(keys, vals, colors, lefts, rights, parents, root, count, shape, c, s);
      if cur' == lefts[parents[cur']] {
        FixingInnerRight(c, s, colors);
        RotateRightInorder(shape, c.pid);
        cur' := parents[cur'];
        RightRotate(cur');
        c1, s1 := InRight(s.left, s.id, c.up), Node(s.right, c.pid, c.sibling);
      }
      FixingLinks(keys, vals, colors, lefts, rights, parents, root, count, shape, c1, s1);
      ghost var C := colors;
      colors := colors[parents[cur'] := Black];
      colors := colors[parents[parents[cur']] := Red];
      FixingOuterRight(c1, s1, C, colors);
      RotateLeftInorder(shape, c1.up.pid);
      LeftRotate(parents[parents[cur']]);
      CursorLinks(keys, vals, colors, lefts, rights, parents, root, count, shape,
                  InRight(Node(c1.up.sibling, c1.up.pid, c1.sibling), c1.pid, c1.up.up), s1);
    }

    /** One pass of insertFixUp's loop body (rbtree.go:193-228), below a RED
        parent: either Case 1 moves the cursor two levels up with the
        invariant kept, or Cases 2 and 3 finish the repair. */
    method InsertFixStep(cur: nat, ghost c: Ctx, ghost s: Tree) returns (cur': nat, ghost c': Ctx, ghost s': Tree, ghost done: bool)
      requires Wf() && shape == Plug(c, s) && s.Node? && s.id == cur && Fixing(c, s, colors)
      requires cur < |parents| && parents[cur] < |colors| && colors[parents[cur]] == Red
      modifies this
      ensures Wf() && keys == old(keys) && vals == old(vals) && count == old(count)
      ensures Inorder(shape) == Inorder(old(shape))
      ensures cur' < |parents| && parents[cur'] < |colors|
      ensures !done ==> shape == Plug(c', s') && s'.Node? && s'.id == cur' && Fixing(c', s', colors) && Depth(c') < Depth(c)
      ensures done ==> RedOk(shape, colors) && Balanced(shape, colors) && colors[parents[cur']] == Black
    {
      FixingLinks(keys, vals, colors, lefts, rights, parents, root, count, shape, c, s);
      c', s', done := c, s, false;
      var p := parents[cur];
      if p == lefts[parents[p]] {
        var uncle := rights[parents[p]];
        if colors[uncle] == Red {
          c', s' := InsertRecolor(p, parents[p], uncle, c, s);
          cur' := parents[p];
        } else {
          cur' := InsertRotateLeftSide(cur, c, s);
          done := true;
        }
      } else {
        var uncle := lefts[parents[p]];
        if colors[uncle] == Red {
          c', s' := InsertRecolor(p, parents[p], uncle, c, s);
          cur' := parents[p];
        } else {
          cur' := InsertRotateRightSide(cur, c, s);
          done := true;
        }
      }
      if !done {
        FixingLinks(keys, vals, colors, lefts, rights, parents, root, count, shape, c', s');
      }
    }

    /** insertFixUp (rbtree.go:188-232): starting from a RED cursor whose
        only possible fault is a RED parent, the loop recolours or rotates
        until the cursor's parent is BLACK; then the root turns BLACK and
        every red-black rule holds again.  Only colours and links change:
        the slots, their keys and values and their left-to-right order stay. */
    method InsertFixUp(n: nat, ghost c0: Ctx, ghost s0: Tree)
      requires Wf() && shape == Plug(c0, s0) && s0.Node? && s0.id == n && Fixing(c0, s0, colors)
      modifies this
      ensures Valid()
      ensures keys == old(keys) && vals == old(vals) && count == old(count)
      ensures Inorder(shape) == Inorder(old(shape))
    {
      var cur: nat := n;
      ghost var c, s := c0, s0;
      ghost var done := false;
      FixingLinks(keys, vals, colors, lefts, rights, parents, root, count, shape, c, s);
      while colors[parents[cur]] == Red
        invariant cur < |parents| && parents[cur] < |colors|
        invariant Wf() && keys == old(keys) && vals == old(vals) && count == old(count)
        invariant Inorder(shape) == Inorder(old(shape))
        invariant !done ==> shape == Plug(c, s) && s.Node? && s.id == cur && Fixing(c, s, colors)
        invariant done ==> RedOk(shape, colors) && Balanced(shape, colors) && colors[parents[cur]] == Black
        decreases if done then 0 else 1, Depth(c)
      {
        cur, c, s, done := InsertFixStep(cur, c, s);
      }
      if !done {
        FixingLinks(keys, vals, colors, lefts, rights, parents, root, count, shape, c, s);
        FixingDone(c, s, colors);
      }
      ghost var C := colors;
      assert root in Ids(shape) by {
        PlugRoot(c0, s0);
        PlugIds(c0, s0);
        if !c0.Top? {
          TopIdIn(c0);
        }
      }
      colors := colors[root := Black];
      RecolorAgree(Ids(shape) - {root}, C, root, Black);
      BlackenRoot(shape, C, colors);
    }

    /** Insert (rbtree.go:154-184): the descent of the search tree either
        meets `key` and changes nothing, or hangs a new RED node where it ran
        off the tree and repairs the colours.  The new node goes exactly
        where `InsertAt` puts it, so the left-to-right order of the other
        nodes is kept; on a search-ordered tree the keys stay ascending with
        `key` in its sorted place, and the tree is red-black again. */
    method Insert(key: int, val: V) returns (r: bool)
      requires Valid()
      modifies this
      ensures Valid()
      ensures r <==> Find(old(shape), old(keys), key) == 0
      ensures !r ==> unchanged(this)
      ensures r ==> keys == old(keys) + [key] && vals == old(vals) + [val] && count == old(count) + 1
      ensures Inorder(shape) == Inorder(InsertAt(old(shape), old(keys), key, |old(keys)|))
      ensures r && Sorted(KeysOf(old(shape), old(keys))) ==>
                Sorted(KeysOf(shape, keys)) && KeysOf(shape, keys) == InsertSorted(KeysOf(old(shape), old(keys)), key)
    {
      var prev: nat := 0;
      var curr: nat := root;
      ghost var c: Ctx := Top;
      ghost var s: Tree := shape;
      while curr != 0
        invariant unchanged(this)
        invariant shape == Plug(c, s) && RootId(s) == curr && prev == CtxParent(c)
        invariant Find(shape, keys, key) == Find(s, keys, key)
        invariant InsertAt(shape, keys, key, |keys|) == Plug(c, InsertAt(s, keys, key, |keys|))
        invariant c.InRight? ==> KeyAt(keys, c.pid) < key
        invariant c.InLeft? ==> !(KeyAt(keys, c.pid) < key)
        decreases s
      {
        CursorNil(keys, vals, colors, lefts, rights, parents, root, count, shape, c, s);
        CursorLinks(keys, vals, colors, lefts, rights, parents, root, count, shape, c, s);
        prev := curr;
        if keys[curr] < key {
          curr := rights[curr];
          c, s := InRight(s.left, s.id, c), s.right;
        } else if keys[curr] == key {
          return false;
        } else {
          curr := lefts[curr];
          c, s := InLeft(c, s.id, s.right), s.left;
        }
      }
      CursorNil(keys, vals, colors, lefts, rights, parents, root, count, shape, c, s);
      ghost var K, Vs, C, L, R, P := keys, vals, colors, lefts, rights, parents;
      var n := NewNode(key, val, prev);
      if prev == 0 {
        root := n;
      } else if keys[prev] < keys[n] {
        rights := rights[prev := n];
      } else {
        lefts := lefts[prev := n];
      }
      count := count + 1;
      shape := AttachArena(K, Vs, C, L, R, P, old(root), old(count), old(shape), c, key, val, prev, lefts, rights, root);
      FixingStart(c, n, C, colors);
      InsertFixUp(n, c, Node(Nil, n, Nil));
      r := true;
      if Sorted(KeysOf(old(shape), old(keys))) {
        InsertKeepsOrder(old(shape), shape, old(keys), key);
      }
    }

    /** Update (rbtree.go:138-151): the descent of the search tree; at the
        slot holding `key` the value is replaced and the answer is true,
        and when the descent runs off the tree nothing changes. */
    method Update(key: int, val: V) returns (r: bool)
      requires Valid()
      modifies this
      ensures Valid()
      ensures r <==> Find(shape, keys, key) != 0
      ensures r ==> Find(shape, keys, key) < |old(vals)| && vals == old(vals)[Find(shape, keys, key) := val]
      ensures !r ==> vals == old(vals)
      ensures keys == old(keys) && colors == old(colors) && shape == old(shape) && count == old(count)
      ensures lefts == old(lefts) && rights == old(rights) && parents == old(parents) && root == old(root)
    {
      var curr: nat := root;
      ghost var c: Ctx := Top;
      ghost var s: Tree := shape;
      while curr != 0
        invariant unchanged(this)
        invariant shape == Plug(c, s) && RootId(s) == curr
        invariant Find(shape, keys, key) == Find(s, keys, key)
        decreases s
      {
        CursorNil(keys, vals, colors, lefts, rights, parents, root, count, shape, c, s);
        CursorLinks(keys, vals, colors, lefts, rights, parents, root, count, shape, c, s);
        if keys[curr] < key {
          curr := rights[curr];
          c, s := InRight(s.left, s.id, c), s.right;
        } else if keys[curr] == key {
          vals := vals[curr := val];
          return true;
        } else {
          curr := lefts[curr];
          c, s := InLeft(c, s.id, s.right), s.left;
        }
      }
      CursorNil(keys, vals, colors, lefts, rights, parents, root, count, shape, c, s);
      return false;
    }

    /** Get (rbtree.go:235-247), as written: its descent turns LEFT when the
        node's key is less than `key` (the other descents turn right), so it
        reports what `FindGet` reaches, which may miss a key that is present
        (see `FindGetMisses`). */
    method Get(key: int) returns (r: Option<V>)
      requires Wf()
      ensures r.Some? <==> FindGet(shape, keys, key) != 0
      ensures r.Some? ==> FindGet(shape, keys, key) < |vals| && r.value == vals[FindGet(shape, keys, key)]
    {
      var curr: nat := root;
      ghost var c: Ctx := Top;
      ghost var s: Tree := shape;
      while curr != 0
        invariant shape == Plug(c, s) && RootId(s) == curr
        invariant FindGet(shape, keys, key) == FindGet(s, keys, key)
        decreases s
      {
        CursorNil(keys, vals, colors, lefts, rights, parents, root, count, shape, c, s);
        CursorLinks(keys, vals, colors, lefts, rights, parents, root, count, shape, c, s);
        if keys[curr] < key {
          curr := lefts[curr];
          c, s := InLeft(c, s.id, s.right), s.left;
        } else if keys[curr] == key {
          return Some(vals[curr]);
        } else {
          curr := rights[curr];
          c, s := InRight(s.left, s.id, c), s.right;
        }
      }
      CursorNil(keys, vals, colors, lefts, rights, parents, root, count, shape, c, s);
      return None;
    }

    /** min (rbtree.go:407-417), as written: for any node other than the
        sentinel it restarts from the ROOT, so the answer is the leftmost
        node of the whole tree, whatever `cur` was. */
    method MinOf(cur: nat) returns (r: nat)
      requires Wf() && (cur == 0 || cur in Ids(shape))
      ensures r == if cur == 0 then 0 else LeftmostId(shape)
    {
      if cur == 0 {
        return 0;
      }
      r := root;
      ghost var s := shape;
      ghost var p: nat := 0;
      while lefts[r] != 0
        invariant Linked(s, p, lefts, rights, parents) && RootId(s) == r && r < |lefts|
        invariant LeftmostId(s) == LeftmostId(shape)
        decreases s
      {
        p := r;
        r := lefts[r];
        s := s.left;
      }
    }

    /** Min (rbtree.go:402-404): the leftmost node, the sentinel for an empty tree. */
    method Min() returns (r: nat)
      requires Wf()
      ensures r == LeftmostId(shape)
    {
      r := MinOf(root);
    }

    /** max (rbtree.go:425-435), as written: like min it restarts from the
        root and answers the rightmost node of the whole tree. */
    method MaxOf(cur: nat) returns (r: nat)
      requires Wf() && (cur == 0 || cur in Ids(shape))
      ensures r == if cur == 0 then 0 else RightmostId(shape)
    {
      if cur == 0 {
        return 0;
      }
      r := root;
      ghost var s := shape;
      ghost var p: nat := 0;
      while rights[r] != 0
        invariant Linked(s, p, lefts, rights, parents) && RootId(s) == r && r < |rights|
        invariant RightmostId(s) == RightmostId(shape)
        decreases s
      {
        p := r;
        r := rights[r];
        s := s.right;
      }
    }

    /** Max (rbtree.go:420-422): the rightmost node, the sentinel for an empty tree. */
    method Max() returns (r: nat)
      requires Wf()
      ensures r == RightmostId(shape)
    {
      r := MaxOf(root);
    }

    /** successor (rbtree.go:249-264), as written: without a right child the
        answer is the next node in left-to-right order (the sentinel after
        the last one); with a right child it is min(x.right), which is the
        leftmost node of the whole tree. */
    method Successor(x: nat) returns (r: nat)
      requires Wf() && (x == 0 || x in Ids(shape))
      ensures r == if x == 0 then 0 else if rights[x] != 0 then LeftmostId(shape) else NextAfter(Inorder(shape), x)
    {
      if x == 0 {
        return 0;
      }
      if rights[x] != 0 {
        ghost var c0, s0 := Locate(shape, x, Top);
        CursorLinks(keys, vals, colors, lefts, rights, parents, root, count, shape, c0, s0);
        PlugIds(c0, s0);
        assert rights[x] in Ids(s0.right);
        r := MinOf(rights[x]);
        return;
      }
      ghost var c, s := Locate(shape, x, Top);
      CursorLinks(keys, vals, colors, lefts, rights, parents, root, count, shape, c, s);
      CursorNil(keys, vals, colors, lefts, rights, parents, root, count, shape, InRight(s.left, x, c), s.right);
      SuccessorInorder(c, s.left, x);
      var cur := x;
      var y := parents[cur];
      ghost var cc, ss := c, s;
      while y != 0 && cur == rights[y]
        invariant shape == Plug(cc, ss) && ss.Node? && ss.id == cur && y == CtxParent(cc) && y < |rights|
        invariant FirstAfter(cc) == FirstAfter(c)
        decreases Depth(cc)
      {
        CursorLinks(keys, vals, colors, lefts, rights, parents, root, count, shape, cc, ss);
        LiftUnique(cc, ss);
        cur := y;
        y := parents[y];
        cc, ss := cc.up, Lift(cc, ss);
        CursorNil(keys, vals, colors, lefts, rights, parents, root, count, shape, cc, ss);
      }
      CursorLinks(keys, vals, colors, lefts, rights, parents, root, count, shape, cc, ss);
      r := y;
    }

    /** The loop state of deleteFixUp: the cursor `x` (possibly the
        sentinel, whose parent field then says where it hangs) is the root
        of `s` at context `c`, and `s` is one BLACK level short. */
    ghost predicate Cursor(x: nat, c: Ctx, s: Tree)
      reads this
    {
      Wf() && shape == Plug(c, s) && RootId(s) == x && x < |parents| && parents[x] == CtxParent(c) &&
      Short(c, s, colors)
    }

    /** The cursor invariant from its parts: the parent link of a missing
        cursor subtree is the sentinel's own parent field. */
    lemma {:induction false} CursorOf(x: nat, c: Ctx, s: Tree)
      requires Wf() && shape == Plug(c, s) && RootId(s) == x && Short(c, s, colors)
      requires s.Nil? ==> parents[0] == CtxParent(c)
      ensures Cursor(x, c, s)
    {
      CursorNil(keys, vals, colors, lefts, rights, parents, root, count, shape, c, s);
      if s.Node? {
        CursorLinks(keys, vals, colors, lefts, rights, parents, root, count, shape, c, s);
      }
    }

    /** Case 1 of deleteFixUp with the cursor on the left (rbtree.go:334-339):
        a RED sibling turns BLACK, the parent `p` RED, and the tree rotates
        left at `p`; the cursor gets a BLACK sibling and stays one level short. */
    method DeleteRedSiblingLeft(x: nat, p: nat, ghost c: Ctx, ghost s: Tree) returns (ghost c': Ctx)
      requires Cursor(x, c, s) && c.InLeft? && c.pid == p && ColorOf(s, colors) == Black
      requires c.sibling.Node? && ColorAt(colors, c.sibling.id) == Red
      modifies this
      ensures Cursor(x, c', s) && c'.InLeft? && c'.pid == p && Depth(c') == Depth(c) + 1
      ensures c'.sibling.Node? && ColorAt(colors, c'.sibling.id) == Black && ColorAt(colors, p) == Red
      ensures ColorOf(s, colors) == Black
      ensures keys == old(keys) && vals == old(vals) && count == old(count)
      ensures Inorder(shape) == Inorder(old(shape))
    {
      ParentLinks(keys, vals, colors, lefts, rights, parents, root, count, shape, c, s);
      SiblingSlots(c, s);
      ghost var C := colors;
      var w := rights[p];
      colors := colors[w := Black];
      colors := colors[p := Red];
      RedSiblingLeft(c, s, C, colors);
      RotateLeftInorder(shape, p);
      LeftRotate(p);
      c' := InLeft(InLeft(c.up, c.sibling.id, c.sibling.right), p, c.sibling.left);
      CursorOf(x, c', s);
    }

    /** Case 1 with the cursor on the right (rbtree.go:359-364), the mirror image. */
    method DeleteRedSiblingRight(x: nat, p: nat, ghost c: Ctx, ghost s: Tree) returns (ghost c': Ctx)
      requires Cursor(x, c, s) && c.InRight? && c.pid == p && ColorOf(s, colors) == Black
      requires c.sibling.Node? && ColorAt(colors, c.sibling.id) == Red
      modifies this
      ensures Cursor(x, c', s) && c'.InRight? && c'.pid == p && Depth(c') == Depth(c) + 1
      ensures c'.sibling.Node? && ColorAt(colors, c'.sibling.id) == Black && ColorAt(colors, p) == Red
      ensures ColorOf(s, colors) == Black
      ensures keys == old(keys) && vals == old(vals) && count == old(count)
      ensures Inorder(shape) == Inorder(old(shape))
    {
      ParentLinks(keys, vals, colors, lefts, rights, parents, root, count, shape, c, s);
      SiblingSlots(c, s);
      ghost var C := colors;
      var w := lefts[p];
      colors := colors[w := Black];
      colors := colors[p := Red];
      RedSiblingRight(c, s, C, colors);
      RotateRightInorder(shape, p);
      RightRotate(p);
      c' := InRight(c.sibling.right, p, InRight(c.sibling.left, c.sibling.id, c.up));
      CursorOf(x, c', s);
    }

    /** Case 2 of deleteFixUp (rbtree.go:340-342 and 365-367): a BLACK
        sibling `w` with two BLACK children turns RED, and the parent becomes
        the cursor, with the whole of its subtree one level short. */
    method DeleteBlackNephews(x: nat, p: nat, w: nat, ghost c: Ctx, ghost s: Tree) returns (x': nat, ghost c': Ctx, ghost s': Tree)
      requires Cursor(x, c, s) && !c.Top? && c.pid == p && ColorOf(s, colors) == Black
      requires c.sibling.Node? && c.sibling.id == w && ColorAt(colors, w) == Black
      requires ColorOf(c.sibling.left, colors) == Black && ColorOf(c.sibling.right, colors) == Black
      modifies this
      ensures Cursor(x', c', s') && x' == p && c' == c.up && Weight(colors, x') == Weight(old(colors), p)
      ensures keys == old(keys) && vals == old(vals) && count == old(count) && shape == old(shape)
    {
      ParentLinks(keys, vals, colors, lefts, rights, parents, root, count, shape, c, s);
      ghost var C := colors;
      colors := colors[w := Red];
      BlackNephews(c, s, C, colors);
      x', c', s' := p, c.up, Lift(c, s);
    }

    /** Case 3 of deleteFixUp with the cursor on the left (rbtree.go:344-349):
        the sibling's near child turns BLACK, the sibling RED, and the tree
        rotates right at the sibling; the new sibling is BLACK with a RED far child. */
    method DeleteInnerNephewLeft(x: nat, p: nat, w: nat, ghost c: Ctx, ghost s: Tree) returns (w': nat, ghost c': Ctx)
      requires Cursor(x, c, s) && c.InLeft? && c.pid == p && ColorOf(s, colors) == Black
      requires c.sibling.Node? && c.sibling.id == w && ColorAt(colors, w) == Black
      requires ColorOf(c.sibling.left, colors) == Red && ColorOf(c.sibling.right, colors) == Black
      modifies this
      ensures Cursor(x, c', s) && c'.InLeft? && c'.pid == p && c'.up == c.up
      ensures c'.sibling.Node? && c'.sibling.id == w' && ColorAt(colors, w') == Black
      ensures ColorOf(c'.sibling.right, colors) == Red
      ensures ColorOf(s, colors) == Black
      ensures keys == old(keys) && vals == old(vals) && count == old(count)
      ensures Inorder(shape) == Inorder(old(shape))
    {
      ParentLinks(keys, vals, colors, lefts, rights, parents, root, count, shape, c, s);
      SiblingSlots(c, s);
      ghost var C := colors;
      colors := colors[lefts[w] := Black];
      colors := colors[w := Red];
      InnerNephewLeft(c, s, C, colors);
      ghost var sib := c.sibling;
      RotateRightInorder(shape, w);
      RightRotate(w);
      c' := InLeft(c.up, p, Node(sib.left.left, sib.left.id, Node(sib.left.right, w, sib.right)));
      ParentLinks(keys, vals, colors, lefts, rights, parents, root, count, shape, c', s);
      w' := rights[p];
      CursorOf(x, c', s);
    }

    /** Case 3 with the cursor on the right (rbtree.go:369-374), the mirror image. */
    method DeleteInnerNephewRight(x: nat, p: nat, w: nat, ghost c: Ctx, ghost s: Tree) returns (w': nat, ghost c': Ctx)
      requires Cursor(x, c, s) && c.InRight? && c.pid == p && ColorOf(s, colors) == Black
      requires c.sibling.Node? && c.sibling.id == w && ColorAt(colors, w) == Black
      requires ColorOf(c.sibling.right, colors) == Red && ColorOf(c.sibling.left, colors) == Black
      modifies this
      ensures Cursor(x, c', s) && c'.InRight? && c'.pid == p && c'.up == c.up
      ensures c'.sibling.Node? && c'.sibling.id == w' && ColorAt(colors, w') == Black
      ensures ColorOf(c'.sibling.left, colors) == Red
      ensures ColorOf(s, colors) == Black
      ensures keys == old(keys) && vals == old(vals) && count == old(count)
      ensures Inorder(shape) == Inorder(old(shape))
    {
      ParentLinks(keys, vals, colors, lefts, rights, parents, root, count, shape, c, s);
      SiblingSlots(c, s);
      ghost var C := colors;
      colors := colors[rights[w] := Black];
      colors := colors[w := Red];
      InnerNephewRight(c, s, C, colors);
      ghost var sib := c.sibling;
      RotateLeftInorder(shape, w);
      LeftRotate(w);
      c' := InRight(Node(Node(sib.left, w, sib.right.left), sib.right.id, sib.right.right), p, c.up);
      ParentLinks(keys, vals, colors, lefts, rights, parents, root, count, shape, c', s);
      w' := lefts[p];
      CursorOf(x, c', s);
    }

    /** Case 4 of deleteFixUp with the cursor on the left (rbtree.go:350-355):
        the sibling takes the parent's colour, the parent and the far child
        turn BLACK, and the tree rotates left at the parent; every red-black
        rule but the root's colour holds again, and the loop ends at the root. */
    method DeleteOuterNephewLeft(x: nat, p: nat, w: nat, ghost c: Ctx, ghost s: Tree)
      requires Cursor(x, c, s) && c.InLeft? && c.pid == p && ColorOf(s, colors) == Black
      requires c.sibling.Node? && c.sibling.id == w && ColorAt(colors, w) == Black
      requires ColorOf(c.sibling.right, colors) == Red
      modifies this
      ensures Cursor(root, Top, shape) && RedBlack(shape, colors)
      ensures keys == old(keys) && vals == old(vals) && count == old(count)
      ensures Inorder(shape) == Inorder(old(shape))
    {
      ParentLinks(keys, vals, colors, lefts, rights, parents, root, count, shape, c, s);
      ghost var C := colors;
      colors := colors[w := colors[p]];
      colors := colors[p := Black];
      colors := colors[rights[w] := Black];
      OuterNephewLeft(c, s, C, colors);
      ghost var sib := c.sibling;
      RotateLeftInorder(shape, p);
      LeftRotate(p);
      PlugRoot(c.up, Node(Node(s, p, sib.left), w, sib.right));
      CursorLinks(keys, vals, colors, lefts, rights, parents, root, count, shape, Top, shape);
      CursorRoot(keys, vals, colors, lefts, rights, parents, root, count, shape, Top, shape);
      ShortTop(shape, colors);
    }

    /** Case 4 with the cursor on the right (rbtree.go:375-379), the mirror image. */
    method DeleteOuterNephewRight(x: nat, p: nat, w: nat, ghost c: Ctx, ghost s: Tree)
      requires Cursor(x, c, s) && c.InRight? && c.pid == p && ColorOf(s, colors) == Black
      requires c.sibling.Node? && c.sibling.id == w && ColorAt(colors, w) == Black
      requires ColorOf(c.sibling.left, colors) == Red
      modifies this
      ensures Cursor(root, Top, shape) && RedBlack(shape, colors)
      ensures keys == old(keys) && vals == old(vals) && count == old(count)
      ensures Inorder(shape) == Inorder(old(shape))
    {
      ParentLinks(keys, vals, colors, lefts, rights, parents, root, count, shape, c, s);
      ghost var C := colors;
      colors := colors[w := colors[p]];
      colors := colors[p := Black];
      colors := colors[lefts[w] := Black];
      OuterNephewRight(c, s, C, colors);
      ghost var sib := c.sibling;
      RotateRightInorder(shape, p);
      RightRotate(p);
      PlugRoot(c.up, Node(sib.left, w, Node(sib.right, p, s)));
      CursorLinks(keys, vals, colors, lefts, rights, parents, root, count, shape, Top, shape);
      CursorRoot(keys, vals, colors, lefts, rights, parents, root, count, shape, Top, shape);
      ShortTop(shape, colors);
    }

    /** Cases 2 to 4 of deleteFixUp with the cursor on the left and a BLACK
        sibling `w` (rbtree.go:340-356): either Case 2 moves the cursor up to
        its parent, or Cases 3 and 4 finish the repair with the cursor at the root. */
    method DeleteBlackSiblingLeft(x: nat, p: nat, w: nat, ghost c: Ctx, ghost s: Tree) returns (x': nat, ghost c': Ctx, ghost s': Tree)
      requires Cursor(x, c, s) && c.InLeft? && c.pid == p && ColorOf(s, colors) == Black
      requires c.sibling.Node? && c.sibling.id == w && ColorAt(colors, w) == Black
      modifies this
      ensures Cursor(x', c', s')
      ensures c'.Top? || (c' == c.up && Weight(colors, x') == Weight(old(colors), p))
      ensures keys == old(keys) && vals == old(vals) && count == old(count)
      ensures Inorder(shape) == Inorder(old(shape))
    {
      ParentLinks(keys, vals, colors, lefts, rights, parents, root, count, shape, c, s);
      if colors[lefts[w]] == Black && colors[rights[w]] == Black {
        x', c', s' := DeleteBlackNephews(x, p, w, c, s);
      } else {
        var w' := w;
        ghost var cc := c;
        if colors[rights[w]] == Black {
          w', cc := DeleteInnerNephewLeft(x, p, w, c, s);
        }
        DeleteOuterNephewLeft(x, p, w', cc, s);
        x', c', s' := root, Top, shape;
      }
    }

    /** One pass of deleteFixUp's loop body with the cursor on the left
        (rbtree.go:332-356).  Either Case 2 moves the cursor to its parent,
        or Cases 3 and 4 finish the repair and the cursor becomes the root;
        Case 1 first turns a RED sibling into a BLACK one one level down.
        The measure `2 * Depth + Weight` of the cursor never grows. */
    method DeleteFixLeft(x: nat, p: nat, ghost c: Ctx, ghost s: Tree) returns (x': nat, ghost c': Ctx, ghost s': Tree)
      requires Cursor(x, c, s) && c.InLeft? && c.pid == p && ColorOf(s, colors) == Black
      modifies this
      ensures Cursor(x', c', s') && 2 * Depth(c') + Weight(colors, x') <= 2 * Depth(c)
      ensures keys == old(keys) && vals == old(vals) && count == old(count)
      ensures Inorder(shape) == Inorder(old(shape))
    {
      ShortSibling(c, s, colors);
      ParentLinks(keys, vals, colors, lefts, rights, parents, root, count, shape, c, s);
      var w := rights[p];
      ghost var cc := c;
      if colors[w] == Red {
        cc := DeleteRedSiblingLeft(x, p, c, s);
        ParentLinks(keys, vals, colors, lefts, rights, parents, root, count, shape, cc, s);
        w := rights[p];
      }
      x', c', s' := DeleteBlackSiblingLeft(x, p, w, cc, s);
    }

    /** The mirror image of DeleteBlackSiblingLeft (rbtree.go:365-380). */
    method DeleteBlackSiblingRight(x: nat, p: nat, w: nat, ghost c: Ctx, ghost s: Tree) returns (x': nat, ghost c': Ctx, ghost s': Tree)
      requires Cursor(x, c, s) && c.InRight? && c.pid == p && ColorOf(s, colors) == Black
      requires c.sibling.Node? && c.sibling.id == w && ColorAt(colors, w) == Black
      modifies this
      ensures Cursor(x', c', s')
      ensures c'.Top? || (c' == c.up && Weight(colors, x') == Weight(old(colors), p))
      ensures keys == old(keys) && vals == old(vals) && count == old(count)
      ensures Inorder(shape) == Inorder(old(shape))
    {
      ParentLinks(keys, vals, colors, lefts, rights, parents, root, count, shape, c, s);
      if colors[rights[w]] == Black && colors[lefts[w]] == Black {
        x', c', s' := DeleteBlackNephews(x, p, w, c, s);
      } else {
        var w' := w;
        ghost var cc := c;
        if colors[lefts[w]] == Black {
          w', cc := DeleteInnerNephewRight(x, p, w, c, s);
        }
        DeleteOuterNephewRight(x, p, w', cc, s);
        x', c', s' := root, Top, shape;
      }
    }

    /** The mirror image of DeleteFixLeft (rbtree.go:357-381). */
    method DeleteFixRight(x: nat, p: nat, ghost c: Ctx, ghost s: Tree) returns (x': nat, ghost c': Ctx, ghost s': Tree)
      requires Cursor(x, c, s) && c.InRight? && c.pid == p && ColorOf(s, colors) == Black
      modifies this
      ensures Cursor(x', c', s') && 2 * Depth(c') + Weight(colors, x') <= 2 * Depth(c)
      ensures keys == old(keys) && vals == old(vals) && count == old(count)
      ensures Inorder(shape) == Inorder(old(shape))
    {
      ShortSibling(c, s, colors);
      ParentLinks(keys, vals, colors, lefts, rights, parents, root, count, shape, c, s);
      var w := lefts[p];
      ghost var cc := c;
      if colors[w] == Red {
        cc := DeleteRedSiblingRight(x, p, c, s);
        ParentLinks(keys, vals, colors, lefts, rights, parents, root, count, shape, cc, s);
        w := lefts[p];
      }
      x', c', s' := DeleteBlackSiblingRight(x, p, w, cc, s);
    }

    /** deleteFixUp (rbtree.go:330-384): starting from a cursor `x` whose
        subtree is one BLACK level short of its siblings (the child that
        took a removed BLACK node's place, possibly the sentinel), the loop
        moves the deficit up or removes it by rotations; then the cursor `last`
        turns BLACK and every red-black rule holds again.  Only colours and
        links change: the slots, their keys and values and their order stay. */
    method DeleteFixUp(x: nat, ghost c: Ctx, ghost s: Tree) returns (ghost last: nat)
      requires Cursor(x, c, s)
      modifies this
      ensures Valid() && last < |colors| && colors[last] == Black
      ensures keys == old(keys) && vals == old(vals) && count == old(count)
      ensures Inorder(shape) == Inorder(old(shape))
    {
      var cur: nat := x;
      ghost var cc, ss := c, s;
      while cur != root && colors[cur] == Black
        invariant Cursor(cur, cc, ss)
        invariant keys == old(keys) && vals == old(vals) && count == old(count)
        invariant Inorder(shape) == Inorder(old(shape))
        decreases 2 * Depth(cc) + Weight(colors, cur)
      {
        CursorRoot(keys, vals, colors, lefts, rights, parents, root, count, shape, cc, ss);
        ShortSibling(cc, ss, colors);
        ParentLinks(keys, vals, colors, lefts, rights, parents, root, count, shape, cc, ss);
        var p := parents[cur];
        if cur == lefts[p] {
          cur, cc, ss := DeleteFixLeft(cur, p, cc, ss);
        } else {
          cur, cc, ss := DeleteFixRight(cur, p, cc, ss);
        }
      }
      CursorRoot(keys, vals, colors, lefts, rights, parents, root, count, shape, cc, ss);
      PlugUnique(cc, ss);
      ghost var C := colors;
      colors := colors[cur := Black];
      ShortDone(cc, ss, C, colors);
      last := cur;
    }

    /** The unlinking step of Delete (rbtree.go:299-315): slot `y`, which has
        at most one child, is replaced by that child `x` (the sentinel when it
        has none, whose parent field then records where it hangs).  The node
        count goes down here rather than at the end of Delete, so that the
        arena stays consistent for deleteFixUp; nothing reads it in between. */
    method Splice(y: nat, ghost c: Ctx, ghost s: Tree) returns (x: nat, ghost ch: Tree)
      requires Wf() && shape == Plug(c, s) && s.Node? && s.id == y && (s.left.Nil? || s.right.Nil?)
      modifies this
      ensures Wf() && ch == (if s.left.Node? then s.left else s.right)
      ensures shape == Plug(c, ch) && RootId(ch) == x && x < |parents| && parents[x] == CtxParent(c)
      ensures Ids(shape) == Ids(old(shape)) - {y} && count == old(count) - 1
      ensures keys == old(keys) && vals == old(vals) && colors == old(colors)
    {
      ghost var t := SpliceRelink(keys, vals, colors, lefts, rights, parents, root, count, shape, c, s);
      ch := if s.left.Node? then s.left else s.right;
      if lefts[y] != 0 {
        x := lefts[y];
      } else {
        x := rights[y];
      }
      var L, R, P, top := lefts, rights, parents, root;
      P := P[x := P[y]];
      if P[y] == 0 {
        top := x;
      } else if y == L[P[y]] {
        L := L[P[y] := x];
      } else {
        R := R[P[y] := x];
      }
      lefts, rights, parents, root, shape, count := L, R, P, top, t, count - 1;
    }

    /** The end of Delete (rbtree.go:299-323): slot `y`, which has at most
        one child, is unlinked (see Splice), its key is copied into slot `z`
        when they differ, and deleteFixUp repairs the colours when `y` was
        BLACK.  The slots in left-to-right order lose exactly `y`. */
    method UnlinkAt(z: nat, y: nat, ghost c: Ctx, ghost s: Tree)
      requires Valid() && shape == Plug(c, s) && s.Node? && s.id == y && (s.left.Nil? || s.right.Nil?)
      requires z < |keys|
      modifies this
      ensures Valid() && Inorder(shape) == Remove(Inorder(old(shape)), y) && y < |old(keys)|
      ensures keys == old(keys)[z := old(keys)[y]] && vals == old(vals) && count == old(count) - 1
    {
      CursorLinks(keys, vals, colors, lefts, rights, parents, root, count, shape, c, s);
      ShortStart(c, s, colors);
      SpliceInorder(c, s);
      var x: nat;
      ghost var ch: Tree;
      x, ch := Splice(y, c, s);
      if y != z {
        keys := keys[z := keys[y]];
      }
      if colors[y] == Black {
        ghost var last := DeleteFixUp(x, c, ch);
      }
    }

    /** The removal part of Delete (rbtree.go:283-326), once the descent
        has found slot `z`: the answer carries z's key, value and colour; the
        slot `y` that is unlinked is z itself when z has at most one child,
        and otherwise what `successor(z)` returns, which is the leftmost node
        of the WHOLE tree (see `Successor`); only y's key is copied into z,
        and deleteFixUp runs when y was BLACK. */
    method DeleteAt(z: nat, ghost c: Ctx, ghost s: Tree) returns (r: Entry<V>, ghost y: nat)
      requires Valid() && shape == Plug(c, s) && s.Node? && s.id == z
      modifies this
      ensures Valid()
      ensures z < |old(keys)| && |old(keys)| == |old(vals)| == |old(colors)| == |old(lefts)| == |old(rights)|
      ensures r == Entry(old(keys)[z], old(vals)[z], old(colors)[z])
      ensures y == (if old(lefts)[z] == 0 || old(rights)[z] == 0 then z else LeftmostId(old(shape)))
      ensures y in Ids(old(shape)) && y < |old(keys)| && Inorder(shape) == Remove(Inorder(old(shape)), y)
      ensures keys == old(keys)[z := old(keys)[y]] && vals == old(vals) && count == old(count) - 1
    {
      CursorLinks(keys, vals, colors, lefts, rights, parents, root, count, shape, c, s);
      CursorNil(keys, vals, colors, lefts, rights, parents, root, count, shape, InLeft(c, s.id, s.right), s.left);
      CursorNil(keys, vals, colors, lefts, rights, parents, root, count, shape, InRight(s.left, s.id, c), s.right);
      r := Entry(keys[z], vals[z], colors[z]);
      var y': nat;
      ghost var cy, sy := c, s;
      if lefts[z] == 0 || rights[z] == 0 {
        y' := z;
      } else {
        y' := Successor(z);
        cy, sy := LocateLeftmost(shape, Top);
      }
      y := y';
      assert y in Ids(shape) by {
        CursorLinks(keys, vals, colors, lefts, rights, parents, root, count, shape, cy, sy);
      }
      UnlinkAt(z, y', cy, sy);
    }

    /** Delete (rbtree.go:267-327), as written.  The descent finds the slot
        `z` holding `key`; when there is none nothing changes, otherwise
        DeleteAt removes it.  The red-black rules hold again afterwards on
        every path; the left-to-right order of the slots loses exactly the
        unlinked slot, so when z had at most one child the keys are the old
        keys without `key`, still ascending. */
    method Delete(key: int) returns (r: Option<Entry<V>>, ghost z: nat, ghost removed: nat)
      requires Valid()
      modifies this
      ensures Valid()
      ensures z == Find(old(shape), old(keys), key)
      ensures r.None? <==> z == 0
      ensures r.None? ==> unchanged(this)
      ensures r.Some? ==> z in Ids(old(shape)) && z < |old(keys)| && |old(keys)| == |old(vals)| == |old(colors)| == |old(lefts)| == |old(rights)|
      ensures r.Some? ==> r.value == Entry(old(keys)[z], old(vals)[z], old(colors)[z])
      ensures r.Some? ==> removed == (if old(lefts)[z] == 0 || old(rights)[z] == 0 then z else LeftmostId(old(shape)))
      ensures r.Some? ==> removed in Ids(old(shape)) && removed < |old(keys)| && Inorder(shape) == Remove(Inorder(old(shape)), removed)
      ensures r.Some? ==> keys == old(keys)[z := old(keys)[removed]] && vals == old(vals) && count == old(count) - 1
      ensures r.Some? && removed == z && Sorted(KeysOf(old(shape), old(keys))) ==>
                Sorted(KeysOf(shape, keys)) && KeysOf(shape, keys) == Remove(KeysOf(old(shape), old(keys)), key)
    {
      var curr: nat := root;
      ghost var c: Ctx := Top;
      ghost var s: Tree := shape;
      while curr != 0
        invariant unchanged(this)
        invariant shape == Plug(c, s) && RootId(s) == curr
        invariant Find(shape, keys, key) == Find(s, keys, key)
        decreases s
      {
        CursorNil(keys, vals, colors, lefts, rights, parents, root, count, shape, c, s);
        CursorLinks(keys, vals, colors, lefts, rights, parents, root, count, shape, c, s);
        if keys[curr] < key {
          curr := rights[curr];
          c, s := InRight(s.left, s.id, c), s.right;
        } else if keys[curr] == key {
          break;
        } else {
          curr := lefts[curr];
          c, s := InLeft(c, s.id, s.right), s.left;
        }
      }
      CursorNil(keys, vals, colors, lefts, rights, parents, root, count, shape, c, s);
      z := curr;
      if curr == 0 {
        return None, z, 0;
      }
      ghost var ids, K := Inorder(shape), keys;
      InorderIds(shape);
      FindSound(shape, keys, key);
      var e;
      e, removed := DeleteAt(curr, c, s);
      r := Some(e);
      if removed == z {
        assert keys == K;
        if Sorted(KeySeq(ids, K)) {
          RemoveKeys(ids, K, z);
        }
      }
    }

    /** Get as evidently intended: the descent of Update, Insert and Delete,
        turning right below a smaller key.  It reports the slot Find
        reaches, and on a search-ordered tree that is every key present. */
    method Lookup(key: int) returns (r: Option<V>)
      requires Wf()
      ensures r.Some? <==> Find(shape, keys, key) != 0
      ensures r.Some? ==> Find(shape, keys, key) < |vals| && r.value == vals[Find(shape, keys, key)]
      ensures Sorted(KeysOf(shape, keys)) ==> (r.Some? <==> key in KeysOf(shape, keys))
    {
      assert 0 !in Ids(shape);
      FindInKeys(shape, keys, key);
      if Sorted(KeysOf(shape, keys)) {
        FindAbsent(shape, keys, key);
      }
      var curr: nat := root;
      ghost var c: Ctx := Top;
      ghost var s: Tree := shape;
      while curr != 0
        invariant shape == Plug(c, s) && RootId(s) == curr
        invariant Find(shape, keys, key) == Find(s, keys, key)
        decreases s
      {
        CursorNil(keys, vals, colors, lefts, rights, parents, root, count, shape, c, s);
        CursorLinks(keys, vals, colors, lefts, rights, parents, root, count, shape, c, s);
        if keys[curr] < key {
          curr := rights[curr];
          c, s := InRight(s.left, s.id, c), s.right;
        } else if keys[curr] == key {
          return Some(vals[curr]);
        } else {
          curr := lefts[curr];
          c, s := InLeft(c, s.id, s.right), s.left;
        }
      }
      CursorNil(keys, vals, colors, lefts, rights, parents, root, count, shape, c, s);
      return None;
    }

    /** min as evidently intended: the leftmost node of the subtree rooted
        at `cur`, following left links from `cur` itself. */
    method SubtreeMin(cur: nat, ghost t: Tree, ghost p: nat) returns (r: nat)
      requires Wf() && Linked(t, p, lefts, rights, parents) && RootId(t) == cur && cur < |lefts|
      ensures r == LeftmostId(t)
    {
      if cur == 0 {
        return 0;
      }
      r := cur;
      ghost var s, q := t, p;
      while lefts[r] != 0
        invariant Linked(s, q, lefts, rights, parents) && RootId(s) == r && r < |lefts|
        invariant s.Node? && LeftmostId(s) == LeftmostId(t)
        decreases s
      {
        q := r;
        r := lefts[r];
        s := s.left;
      }
    }

    /** max as evidently intended: the rightmost node of the subtree rooted at `cur`. */
    method SubtreeMax(cur: nat, ghost t: Tree, ghost p: nat) returns (r: nat)
      requires Wf() && Linked(t, p, lefts, rights, parents) && RootId(t) == cur && cur < |rights|
      ensures r == RightmostId(t)
    {
      if cur == 0 {
        return 0;
      }
      r := cur;
      ghost var s, q := t, p;
      while rights[r] != 0
        invariant Linked(s, q, lefts, rights, parents) && RootId(s) == r && r < |rights|
        invariant s.Node? && RightmostId(s) == RightmostId(t)
        decreases s
      {
        q := r;
        r := rights[r];
        s := s.right;
      }
    }

    /** successor as evidently intended: with a right child the answer is
        the leftmost node of that right subtree, otherwise the ancestor walk
        of Successor; either way it is the next slot in left-to-right order. */
    method NextNode(x: nat) returns (r: nat)
      requires Wf() && (x == 0 || x in Ids(shape))
      ensures r == if x == 0 then 0 else NextAfter(Inorder(shape), x)
    {
      if x != 0 && rights[x] != 0 {
        ghost var c, s := Locate(shape, x, Top);
        CursorLinks(keys, vals, colors, lefts, rights, parents, root, count, shape, c, s);
        CursorNil(keys, vals, colors, lefts, rights, parents, root, count, shape, InRight(s.left, x, c), s.right);
        PlugLinked(InRight(s.left, x, c), s.right, lefts, rights, parents);
        r := SubtreeMin(rights[x], s.right, x);
        ghost var a, b := SuccessorDown(c, s);
      } else {
        r := Successor(x);
      }
    }

    /** The value copy that Delete leaves out: slot `z` takes slot `y`'s value. */
    method CopyValue(z: nat, y: nat)
      requires Valid() && z < |vals| && y < |vals|
      modifies this
      ensures Valid() && vals == old(vals)[z := old(vals)[y]]
      ensures keys == old(keys) && colors == old(colors) && shape == old(shape) && count == old(count)
      ensures lefts == old(lefts) && rights == old(rights) && parents == old(parents) && root == old(root)
    {
      vals := vals[z := vals[y]];
    }

    /** The removal part of Delete as evidently intended: the slot unlinked
        for a node with two children is its true successor, and both its key
        and its value move into `z`.  The pairs left are exactly the old
        pairs without z's. */
    method DeleteOrderedAt(z: nat, ghost c: Ctx, ghost s: Tree) returns (r: Entry<V>)
      requires Valid() && shape == Plug(c, s) && s.Node? && s.id == z
      modifies this
      ensures Valid() && count == old(count) - 1
      ensures z < |old(keys)| && |old(keys)| == |old(vals)| == |old(colors)|
      ensures r == Entry(old(keys)[z], old(vals)[z], old(colors)[z])
      ensures z in Inorder(old(shape)) && Below(Inorder(shape), |keys|) && Below(Inorder(shape), |vals|)
      ensures Below(Remove(Inorder(old(shape)), z), |old(keys)|) && Below(Remove(Inorder(old(shape)), z), |old(vals)|)
      ensures Pairs(Inorder(shape), keys, vals) == Pairs(Remove(Inorder(old(shape)), z), old(keys), old(vals))
    {
      CursorLinks(keys, vals, colors, lefts, rights, parents, root, count, shape, c, s);
      CursorNil(keys, vals, colors, lefts, rights, parents, root, count, shape, InLeft(c, s.id, s.right), s.left);
      CursorNil(keys, vals, colors, lefts, rights, parents, root, count, shape, InRight(s.left, s.id, c), s.right);
      r := Entry(keys[z], vals[z], colors[z]);
      ghost var ids, K, Vs := Inorder(shape), keys, vals;
      InorderIds(shape);
      RemoveSubset(ids, z);
      BelowOf(Remove(ids, z), |K|);
      var y: nat;
      ghost var cy, sy, K', Vs' := c, s, K, Vs;
      if lefts[z] == 0 || rights[z] == 0 {
        y := z;
      } else {
        y := NextNode(z);
        ghost var a, b := SuccessorDown(c, s);
        cy, sy := LocateLeftmost(s.right, InRight(s.left, z, c));
        SuccessorPairs(c, s, K, Vs);
        K', Vs' := K[z := K[y]], Vs[z := Vs[y]];
      }
      assert Pairs(Remove(ids, y), K', Vs') == Pairs(Remove(ids, z), K, Vs);
      UnlinkAt(z, y, cy, sy);
      if y != z {
        CopyValue(z, y);
      }
      assert Inorder(shape) == Remove(ids, y);
      assert keys == K';
      assert vals == Vs';
    }

    /** Delete as evidently intended: the descent of Delete, then
        DeleteOrderedAt.  On a search-ordered tree the keys left are the old
        keys without `key`, still ascending, and each keeps its value. */
    method DeleteOrdered(key: int) returns (r: Option<Entry<V>>, ghost z: nat)
      requires Valid()
      modifies this
      ensures Valid()
      ensures z == Find(old(shape), old(keys), key)
      ensures r.None? <==> z == 0
      ensures r.None? ==> unchanged(this)
      ensures r.Some? ==> z < |old(keys)| && |old(keys)| == |old(vals)| == |old(colors)|
      ensures r.Some? ==> r.value == Entry(old(keys)[z], old(vals)[z], old(colors)[z]) && r.value.key == key
      ensures r.Some? ==> count == old(count) - 1 && Below(Inorder(shape), |keys|) && Below(Inorder(shape), |vals|)
      ensures r.Some? ==> Below(Remove(Inorder(old(shape)), z), |old(keys)|) && Below(Remove(Inorder(old(shape)), z), |old(vals)|)
      ensures r.Some? ==> Pairs(Inorder(shape), keys, vals) == Pairs(Remove(Inorder(old(shape)), z), old(keys), old(vals))
      ensures r.Some? && Sorted(KeysOf(old(shape), old(keys))) ==>
                Sorted(KeysOf(shape, keys)) && KeysOf(shape, keys) == Remove(KeysOf(old(shape), old(keys)), key)
    {
      var curr: nat := root;
      ghost var c: Ctx := Top;
      ghost var s: Tree := shape;
      while curr != 0
        invariant unchanged(this)
        invariant shape == Plug(c, s) && RootId(s) == curr
        invariant Find(shape, keys, key) == Find(s, keys, key)
        decreases s
      {
        CursorNil(keys, vals, colors, lefts, rights, parents, root, count, shape, c, s);
        CursorLinks(keys, vals, colors, lefts, rights, parents, root, count, shape, c, s);
        if keys[curr] < key {
          curr := rights[curr];
          c, s := InRight(s.left, s.id, c), s.right;
        } else if keys[curr] == key {
          break;
        } else {
          curr := lefts[curr];
          c, s := InLeft(c, s.id, s.right), s.left;
        }
      }
      CursorNil(keys, vals, colors, lefts, rights, parents, root, count, shape, c, s);
      z := curr;
      if curr == 0 {
        return None, z;
      }
      ghost var ids, K, Vs := Inorder(shape), keys, vals;
      InorderIds(shape);
      FindSound(shape, keys, key);
      var e := DeleteOrderedAt(curr, c, s);
      r := Some(e);
      if Sorted(KeySeq(ids, K)) {
        PairsRemoveKeys(ids, z, K, Vs, Inorder(shape), keys, vals);
      }
    }

    /** The dfs closure of Range (rbtree.go:388-396): the pairs of the subtree
        rooted at `cur`, left subtree first, then the node, then the right subtree. */
    method Walk(cur: nat, ghost t: Tree, ghost p: nat) returns (out: seq<(int, V)>)
      requires Wf() && Linked(t, p, lefts, rights, parents) && RootId(t) == cur
      ensures Below(Inorder(t), |keys|) && Below(Inorder(t), |vals|) && out == Pairs(Inorder(t), keys, vals)
      decreases t
    {
      LinkedIds(t, p, lefts, rights, parents);
      InorderIds(t);
      BelowOf(Inorder(t), |keys|);
      if cur == 0 {
        return [];
      }
      var l := Walk(lefts[cur], t.left, cur);
      var r := Walk(rights[cur], t.right, cur);
      PairsAppend(Inorder(t.left), [cur], keys, vals);
      PairsAppend(Inorder(t.left) + [cur], Inorder(t.right), keys, vals);
      out := l + [(keys[cur], vals[cur])] + r;
    }

    /** Range (rbtree.go:387-399): the callback is called once per node, in
        ascending key order on a search-ordered tree; the model returns the
        sequence of pairs it is handed. */
    method Range() returns (out: seq<(int, V)>)
      requires Wf()
      ensures Below(Inorder(shape), |keys|) && Below(Inorder(shape), |vals|) && out == Pairs(Inorder(shape), keys, vals)
      ensures |out| == count
      ensures Firsts(out) == KeysOf(shape, keys)
    {
      out := Walk(root, shape, 0);
      InorderIds(shape);
      PairsKeys(Inorder(shape), keys, vals);
    }

    /** Size (rbtree.go:437-439): the node count, which is the number of nodes in the shape. */
    method Size() returns (r: int)
      requires Wf()
      ensures r == |Inorder(shape)|
    {
      InorderIds(shape);
      r := count;
    }
  }
}
