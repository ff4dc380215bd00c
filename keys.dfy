/** Keys and the two descents of rbtree.go.

    Keys are integers ordered by `<` (the only `RbTreeKey` in the repository
    compares an `int` field, rbtree/rbtree_test.go:12-18).  `K[i]` is the key
    of slot `i`.  `Find` is the descent of Update, Insert and Delete (right
    when the node's key is less than the query); `FindGet` is the descent of
    Get, which goes the other way.  `InsertAt` is where Insert hangs a new
    node, and `InsertSorted` the key sequence that results. */
module RbKeys {
  import opened RbShape

  /** The key of slot `i` (0 outside the arena). */
  ghost function KeyAt(K: seq<int>, i: nat): int {
    if i < |K| then K[i] else 0
  }

  /** The keys of a sequence of slots. */
  ghost function KeySeq(ids: seq<nat>, K: seq<int>): seq<int> {
    seq(|ids|, j requires 0 <= j < |ids| => KeyAt(K, ids[j]))
  }

  /** The keys of a shape in left-node-right order. */
  ghost function KeysOf(t: Tree, K: seq<int>): seq<int> {
    KeySeq(Inorder(t), K)
  }

  /** Strictly ascending: the search-tree order with distinct keys. */
  ghost predicate Sorted(xs: seq<int>) {
    forall i, j :: 0 <= i < j < |xs| ==> xs[i] < xs[j]
  }

  /** `xs` with `k` put before the first element that is not less than `k`. */
  function InsertSorted(xs: seq<int>, k: int): seq<int> {
    if xs == [] then [k]
    else if xs[0] < k then [xs[0]] + InsertSorted(xs[1..], k)
    else [k] + xs
  }

  /** `xs` without any occurrence of `x`. */
  function Remove<T(==)>(xs: seq<T>, x: T): seq<T> {
    if xs == [] then []
    else if xs[0] == x then Remove(xs[1..], x)
    else [xs[0]] + Remove(xs[1..], x)
  }

  /** The descent of Update, Insert and Delete: the slot whose key equals
      `key`, or the sentinel 0 when the descent runs off the tree. */
  ghost function Find(t: Tree, K: seq<int>, key: int): nat {
    match t
    case Nil => 0
    case Node(l, i, r) =>
      if KeyAt(K, i) < key then Find(r, K, key)
      else if KeyAt(K, i) == key then i
      else Find(l, K, key)
  }

  /** The descent of Get, which turns left where Find turns right. */
  ghost function FindGet(t: Tree, K: seq<int>, key: int): nat {
    match t
    case Nil => 0
    case Node(l, i, r) =>
      if KeyAt(K, i) < key then FindGet(l, K, key)
      else if KeyAt(K, i) == key then i
      else FindGet(r, K, key)
  }

  /** The shape after Insert hangs the new slot `n` where its descent ran
      off the tree; unchanged when the descent met an equal key. */
  ghost function InsertAt(t: Tree, K: seq<int>, key: int, n: nat): Tree {
    match t
    case Nil => Node(Nil, n, Nil)
    case Node(l, i, r) =>
      if KeyAt(K, i) < key then Node(l, i, InsertAt(r, K, key, n))
      else if KeyAt(K, i) == key then t
      else Node(InsertAt(l, K, key, n), i, r)
  }

  // ---------------------------------------------------------------------
  // Sequences of keys

  lemma {:induction false} KeySeqAppend(a: seq<nat>, b: seq<nat>, K: seq<int>)
    ensures KeySeq(a + b, K) == KeySeq(a, K) + KeySeq(b, K)
  {
  }

  lemma {:induction false} KeysOfNode(l: Tree, i: nat, r: Tree, K: seq<int>)
    ensures KeysOf(Node(l, i, r), K) == KeysOf(l, K) + [KeyAt(K, i)] + KeysOf(r, K)
  {
    KeySeqAppend(Inorder(l) + [i], Inorder(r), K);
    KeySeqAppend(Inorder(l), [i], K);
  }

  /** Keys read through slots that two key arrays agree on are the same. */
  lemma {:induction false} KeysFrame(t: Tree, K: seq<int>, K': seq<int>)
    requires forall i :: i in Ids(t) ==> KeyAt(K, i) == KeyAt(K', i)
    ensures KeysOf(t, K) == KeysOf(t, K')
  {
    InorderIds(t);
  }

  /** In a sorted sequence everything before an element is smaller and
      everything after it larger. */
  lemma {:induction false} SortedSplit(a: seq<int>, k: int, b: seq<int>)
    requires Sorted(a + [k] + b)
    ensures Sorted(a) && Sorted(b)
    ensures forall x :: x in a ==> x < k
    ensures forall x :: x in b ==> k < x
  {
    var s := a + [k] + b;
    assert forall i :: 0 <= i < |a| ==> a[i] == s[i];
    assert forall i :: 0 <= i < |b| ==> b[i] == s[|a| + 1 + i];
    assert s[|a|] == k;
  }

  // ---------------------------------------------------------------------
  // The descents

  /** Find only ever reports a slot of the shape that holds the key. */
  lemma {:induction false} FindSound(t: Tree, K: seq<int>, key: int)
    ensures Find(t, K, key) == 0 || (Find(t, K, key) in Ids(t) && KeyAt(K, Find(t, K, key)) == key)
  {
    match t
    case Nil =>
    case Node(l, i, r) => FindSound(l, K, key); FindSound(r, K, key);
  }

  /** On a search-ordered shape Find reaches every key that is present. */
  lemma {:induction false} FindComplete(t: Tree, K: seq<int>, key: int)
    requires Sorted(KeysOf(t, K)) && key in KeysOf(t, K)
    ensures Find(t, K, key) in Ids(t) && KeyAt(K, Find(t, K, key)) == key
  {
    match t
    case Node(l, i, r) =>
      KeysOfNode(l, i, r, K);
      SortedSplit(KeysOf(l, K), KeyAt(K, i), KeysOf(r, K));
      if KeyAt(K, i) < key {
        FindComplete(r, K, key);
      } else if KeyAt(K, i) > key {
        FindComplete(l, K, key);
      }
  }

  /** A key that Find reports is one of the shape's keys. */
  lemma {:induction false} FindInKeys(t: Tree, K: seq<int>, key: int)
    ensures Find(t, K, key) != 0 ==> key in KeysOf(t, K)
  {
    FindSound(t, K, key);
    InorderIds(t);
    if Find(t, K, key) != 0 {
      var j :| 0 <= j < |Inorder(t)| && Inorder(t)[j] == Find(t, K, key);
      assert KeysOf(t, K)[j] == key;
    }
  }

  /** On a search-ordered shape Find reports the sentinel exactly when the key is absent. */
  lemma {:induction false} FindAbsent(t: Tree, K: seq<int>, key: int)
    requires Sorted(KeysOf(t, K)) && 0 !in Ids(t)
    ensures Find(t, K, key) == 0 <==> key !in KeysOf(t, K)
  {
    FindSound(t, K, key);
    InorderIds(t);
    FindInKeys(t, K, key);
    if key in KeysOf(t, K) {
      FindComplete(t, K, key);
    }
  }

  /** Get only ever reports a slot of the shape that holds the key. */
  lemma {:induction false} FindGetSound(t: Tree, K: seq<int>, key: int)
    ensures FindGet(t, K, key) == 0 || (FindGet(t, K, key) in Ids(t) && KeyAt(K, FindGet(t, K, key)) == key)
  {
    match t
    case Nil =>
    case Node(l, i, r) => FindGetSound(l, K, key); FindGetSound(r, K, key);
  }

  /** Get's descent misses keys that are in the tree: slot 1 (key 5) with
      left child slot 2 (key 3) is search-ordered, holds 3, and Get(3)
      turns right at the root and runs off the tree. */
  lemma {:induction false} FindGetMisses()
    ensures var t := Node(Node(Nil, 2, Nil), 1, Nil);
            var K := [0, 5, 3];
            Sorted(KeysOf(t, K)) && 3 in KeysOf(t, K) &&
            FindGet(t, K, 3) == 0 && Find(t, K, 3) == 2
  {
    var t := Node(Node(Nil, 2, Nil), 1, Nil);
    var K := [0, 5, 3];
    assert Inorder(t) == [2, 1];
    assert KeysOf(t, K) == [3, 5];
  }

  // ---------------------------------------------------------------------
  // Insertion

  lemma {:induction false} InsertSortedSkip(a: seq<int>, b: seq<int>, k: int)
    requires forall x :: x in a ==> x < k
    ensures InsertSorted(a + b, k) == a + InsertSorted(b, k)
  {
    if a == [] {
      assert a + b == b;
    } else {
      assert (a + b)[1..] == a[1..] + b;
      assert a[0] in a && (a + b)[0] == a[0];
      assert forall x :: x in a[1..] ==> x in a;
      InsertSortedSkip(a[1..], b, k);
      calc {
        InsertSorted(a + b, k);
        [a[0]] + InsertSorted(a[1..] + b, k);
        [a[0]] + (a[1..] + InsertSorted(b, k));
        ([a[0]] + a[1..]) + InsertSorted(b, k);
        { assert a == [a[0]] + a[1..]; }
        a + InsertSorted(b, k);
      }
    }
  }

  lemma {:induction false} InsertSortedBefore(a: seq<int>, b: seq<int>, k: int)
    requires b != [] && k < b[0]
    ensures InsertSorted(a + b, k) == InsertSorted(a, k) + b
  {
    if a != [] {
      assert (a + b)[1..] == a[1..] + b;
      InsertSortedBefore(a[1..], b, k);
    }
  }

  /** A sorted sequence stays sorted when something smaller than all of it goes in front. */
  lemma {:induction false} SortedCons(a: int, r: seq<int>)
    requires Sorted(r) && forall x :: x in r ==> a < x
    ensures Sorted([a] + r)
  {
    var s := [a] + r;
    forall i, j | 0 <= i < j < |s| ensures s[i] < s[j] {
      assert s[j] == r[j - 1] && r[j - 1] in r;
      if i > 0 {
        assert s[i] == r[i - 1];
      }
    }
  }

  /** Insertion adds exactly the one key. */
  lemma {:induction false} InsertSortedMultiset(xs: seq<int>, k: int)
    ensures multiset(InsertSorted(xs, k)) == multiset(xs) + multiset{k}
  {
    if xs != [] && xs[0] < k {
      InsertSortedMultiset(xs[1..], k);
      assert xs == [xs[0]] + xs[1..];
    }
  }

  /** Inserting an absent key into a sorted sequence keeps it sorted and adds
      exactly that key. */
  lemma {:induction false} InsertSortedSorted(xs: seq<int>, k: int)
    requires Sorted(xs) && k !in xs
    ensures Sorted(InsertSorted(xs, k))
    ensures multiset(InsertSorted(xs, k)) == multiset(xs) + multiset{k}
  {
    InsertSortedMultiset(xs, k);
    if xs != [] {
      var a, tl := xs[0], xs[1..];
      assert xs == [] + [a] + tl;
      SortedSplit([], a, tl);
      if a < k {
        InsertSortedSorted(tl, k);
        InsertSortedAfter(a, tl, k);
      } else {
        SortedCons(k, xs);
      }
    }
  }

  lemma {:induction false} InsertSortedAfter(a: int, tl: seq<int>, k: int)
    requires a < k && Sorted(InsertSorted(tl, k)) && forall x :: x in tl ==> a < x
    requires multiset(InsertSorted(tl, k)) == multiset(tl) + multiset{k}
    ensures Sorted([a] + InsertSorted(tl, k))
  {
    var r := InsertSorted(tl, k);
    forall x | x in r ensures a < x {
      assert x in multiset(r);
      if x != k {
        assert x in multiset(tl);
        assert x in tl;
      }
    }
    SortedCons(a, r);
  }

  /** Appending a slot leaves the keys of the existing slots alone. */
  lemma {:induction false} KeysGrow(t: Tree, K: seq<int>, key: int)
    requires forall i :: i in Ids(t) ==> i < |K|
    ensures KeysOf(t, K + [key]) == KeysOf(t, K)
  {
    forall j | j in Ids(t) ensures KeyAt(K, j) == KeyAt(K + [key], j) {
      assert (K + [key])[j] == K[j];
    }
    KeysFrame(t, K, K + [key]);
  }

  /** Insert hangs the new key where the sorted key sequence wants it. */
  lemma {:induction false} InsertAtKeys(t: Tree, K: seq<int>, key: int)
    requires Sorted(KeysOf(t, K)) && key !in KeysOf(t, K)
    requires forall i :: i in Ids(t) ==> i < |K|
    ensures KeysOf(InsertAt(t, K, key, |K|), K + [key]) == InsertSorted(KeysOf(t, K), key)
  {
    match t
    case Nil =>
      assert Inorder(Node(Nil, |K|, Nil)) == [|K|];
    case Node(l, i, r) =>
      var kl, ki, kr := KeysOf(l, K), KeyAt(K, i), KeysOf(r, K);
      KeysOfNode(l, i, r, K);
      SortedSplit(kl, ki, kr);
      assert forall j :: j in Ids(l) || j in Ids(r) ==> j in Ids(t);
      if ki < key {
        InsertAtKeys(r, K, key);
        InsertAtRightKeys(l, i, r, K, key);
      } else {
        InsertAtKeys(l, K, key);
        InsertAtLeftKeys(l, i, r, K, key);
      }
  }

  /** A successful Insert on a search-ordered tree: the keys in order are
      the old ones with `key` in its sorted place, still ascending. */
  lemma {:induction false} InsertKeepsOrder(t: Tree, t': Tree, K: seq<int>, key: int)
    requires Sorted(KeysOf(t, K)) && Find(t, K, key) == 0
    requires forall i :: i in Ids(t) ==> 0 < i < |K|
    requires Inorder(t') == Inorder(InsertAt(t, K, key, |K|))
    ensures KeysOf(t', K + [key]) == InsertSorted(KeysOf(t, K), key)
    ensures Sorted(KeysOf(t', K + [key]))
  {
    assert 0 !in Ids(t);
    FindAbsent(t, K, key);
    InsertAtKeys(t, K, key);
    InsertSortedSorted(KeysOf(t, K), key);
  }

  /** The step of InsertAtKeys where the new key goes right of slot `i`. */
  lemma {:induction false} InsertAtRightKeys(l: Tree, i: nat, r: Tree, K: seq<int>, key: int)
    requires Sorted(KeysOf(Node(l, i, r), K)) && KeyAt(K, i) < key
    requires forall j :: j in Ids(Node(l, i, r)) ==> j < |K|
    requires KeysOf(InsertAt(r, K, key, |K|), K + [key]) == InsertSorted(KeysOf(r, K), key)
    ensures KeysOf(InsertAt(Node(l, i, r), K, key, |K|), K + [key]) == InsertSorted(KeysOf(Node(l, i, r), K), key)
  {
    var K', r' := K + [key], InsertAt(r, K, key, |K|);
    var kl, ki, kr := KeysOf(l, K), KeyAt(K, i), KeysOf(r, K);
    KeysOfNode(l, i, r, K);
    SortedSplit(kl, ki, kr);
    assert i in Ids(Node(l, i, r)) && forall j :: j in Ids(l) ==> j in Ids(Node(l, i, r));
    assert ki == KeyAt(K', i);
    KeysGrow(l, K, key);
    KeysOfNode(l, i, r', K');
    InsertSortedSkip(kl + [ki], kr, key);
  }

  /** The step of InsertAtKeys where the new key goes left of slot `i`. */
  lemma {:induction false} InsertAtLeftKeys(l: Tree, i: nat, r: Tree, K: seq<int>, key: int)
    requires Sorted(KeysOf(Node(l, i, r), K)) && key < KeyAt(K, i)
    requires forall j :: j in Ids(Node(l, i, r)) ==> j < |K|
    requires KeysOf(InsertAt(l, K, key, |K|), K + [key]) == InsertSorted(KeysOf(l, K), key)
    ensures KeysOf(InsertAt(Node(l, i, r), K, key, |K|), K + [key]) == InsertSorted(KeysOf(Node(l, i, r), K), key)
  {
    var K', l' := K + [key], InsertAt(l, K, key, |K|);
    var kl, ki, kr := KeysOf(l, K), KeyAt(K, i), KeysOf(r, K);
    KeysOfNode(l, i, r, K);
    assert i in Ids(Node(l, i, r)) && forall j :: j in Ids(r) ==> j in Ids(Node(l, i, r));
    assert ki == KeyAt(K', i);
    KeysGrow(r, K, key);
    assert InsertAt(Node(l, i, r), K, key, |K|) == Node(l', i, r);
    KeysOfNode(l', i, r, K');
    InsertSortedBefore(kl, [ki] + kr, key);
    Assoc(kl, [ki], kr);
    Assoc(InsertSorted(kl, key), [ki], kr);
  }

  lemma {:induction false} Assoc(a: seq<int>, b: seq<int>, c: seq<int>)
    ensures a + b + c == a + (b + c)
  {
  }

  // ---------------------------------------------------------------------
  // Deletion

  lemma {:induction false} RemoveAbsent<T>(xs: seq<T>, x: T)
    requires x !in xs
    ensures Remove(xs, x) == xs
  {
    if xs != [] {
      assert xs == [xs[0]] + xs[1..];
      RemoveAbsent(xs[1..], x);
    }
  }

  /** Removing the one occurrence of `x` drops exactly that position. */
  lemma {:induction false} RemoveOnce<T>(a: seq<T>, x: T, b: seq<T>)
    requires x !in a && x !in b
    ensures Remove(a + [x] + b, x) == a + b
  {
    if a == [] {
      assert (a + [x] + b)[1..] == b;
      RemoveAbsent(b, x);
    } else {
      assert (a + [x] + b)[1..] == a[1..] + [x] + b;
      RemoveOnce(a[1..], x, b);
      assert a == [a[0]] + a[1..];
    }
  }

  /** Unlinking a node with at most one child removes just its slot from the in-order sequence. */
  lemma {:induction false} SpliceInorder(c: Ctx, s: Tree)
    requires Unique(Plug(c, s)) && s.Node? && (s.left.Nil? || s.right.Nil?)
    ensures Inorder(Plug(c, if s.left.Node? then s.left else s.right)) == Remove(Inorder(Plug(c, s)), s.id)
  {
    var y := s.id;
    var ch := if s.left.Node? then s.left else s.right;
    PlugInorder(c, s);
    PlugInorder(c, ch);
    PlugUnique(c, s);
    BeforeIds(c);
    AfterIds(c);
    InorderIds(ch);
    assert Inorder(s) == Inorder(s.left) + [y] + Inorder(s.right);
    assert Inorder(ch) == Inorder(s.left) + Inorder(s.right) by {
      if s.left.Nil? {
        assert Inorder(s.left) == [];
      } else {
        assert Inorder(s.right) == [];
      }
    }
    SpliceSeq(Before(c), Inorder(s.left), y, Inorder(s.right), After(c));
  }

  /** The sequence fact behind SpliceInorder. */
  lemma {:induction false} SpliceSeq(a: seq<nat>, l: seq<nat>, y: nat, r: seq<nat>, b: seq<nat>)
    requires y !in a && y !in l && y !in r && y !in b && (l == [] || r == [])
    ensures Remove(a + (l + [y] + r) + b, y) == a + (l + r) + b
  {
    if l == [] {
      assert a + (l + [y] + r) + b == a + [y] + (r + b);
      assert a + (l + r) + b == a + (r + b);
      RemoveOnce(a, y, r + b);
    } else {
      assert a + (l + [y] + r) + b == (a + l) + [y] + b;
      assert a + (l + r) + b == (a + l) + b;
      RemoveOnce(a + l, y, b);
    }
  }

  /** Removing a slot from a search-ordered sequence of slots removes its key
      from the key sequence, which stays sorted. */
  lemma {:induction false} RemoveKeys(ids: seq<nat>, K: seq<int>, y: nat)
    requires Sorted(KeySeq(ids, K)) && y in ids
    ensures KeySeq(Remove(ids, y), K) == Remove(KeySeq(ids, K), KeyAt(K, y))
    ensures Sorted(KeySeq(Remove(ids, y), K))
    ensures KeyAt(K, y) !in KeySeq(Remove(ids, y), K)
  {
    var ks := KeySeq(ids, K);
    var a, tl := ids[0], ids[1..];
    var kt := KeySeq(tl, K);
    var ky := KeyAt(K, y);
    assert ids == [a] + tl;
    KeySeqAppend([a], tl, K);
    assert ks == [] + [ks[0]] + kt;
    SortedSplit([], ks[0], kt);
    if a == y {
      forall j | 0 <= j < |tl| ensures tl[j] != y {
        assert kt[j] in kt;
      }
      RemoveAbsent(tl, y);
      RemoveAbsent(kt, ky);
      assert Remove(ids, y) == tl;
      assert ks[0] == ky && ks[1..] == kt;
      assert Remove(ks, ky) == kt;
    } else {
      assert y in tl;
      var j :| 0 <= j < |tl| && tl[j] == y;
      assert kt[j] == ky && kt[j] in kt;
      RemoveKeys(tl, K, y);
      var rest := KeySeq(Remove(tl, y), K);
      KeySeqAppend([a], Remove(tl, y), K);
      assert Remove(ids, y) == [a] + Remove(tl, y);
      assert KeySeq(Remove(ids, y), K) == [ks[0]] + rest;
      assert ks[0] != ky;
      assert Remove(ks, ky) == [ks[0]] + Remove(kt, ky);
      RemoveSubset(kt, ky);
      SortedCons(ks[0], rest);
    }
  }

  /** Delete as written on a node with two children: slot 3 (key 30) at
      the root over slots 2 and 4, slot 1 under slot 2, keys 10, 20, 30, 40
      ascending.  Deleting 30 unlinks the leftmost slot 1 and copies its key
      10 into slot 3, and the keys left read 20, 10, 40. */
  lemma {:induction false} TwoChildDeleteUnsorts()
    ensures var t := Node(Node(Node(Nil, 1, Nil), 2, Nil), 3, Node(Nil, 4, Nil));
            var K := [0, 10, 20, 30, 40];
            Sorted(KeysOf(t, K)) && Find(t, K, 30) == 3 && LeftmostId(t) == 1 &&
            KeySeq(Remove(Inorder(t), 1), K[3 := K[1]]) == [20, 10, 40] &&
            !Sorted(KeySeq(Remove(Inorder(t), 1), K[3 := K[1]]))
  {
    var t := Node(Node(Node(Nil, 1, Nil), 2, Nil), 3, Node(Nil, 4, Nil));
    var K := [0, 10, 20, 30, 40];
    assert Inorder(t) == [1, 2, 3, 4];
    KeySeqOfFour(K, 1, 2, 3, 4);
    assert KeysOf(t, K) == [10, 20, 30, 40];
    RemoveAbsent([2, 3, 4], 1);
    assert Remove(Inorder(t), 1) == [2, 3, 4];
    var K' := K[3 := K[1]];
    assert K' == [0, 10, 20, 10, 40];
    KeySeqOfThree(K', 2, 3, 4);
    var ks := KeySeq([2, 3, 4], K');
    assert ks == [20, 10, 40];
    assert !Sorted(ks) by {
      assert ks[0] == 20 && ks[1] == 10;
    }
    assert Sorted([10, 20, 30, 40]) by {
      var xs := [10, 20, 30, 40];
      forall i, j | 0 <= i < j < 4 ensures xs[i] < xs[j] {
        assert xs[i] == 10 * (i + 1) && xs[j] == 10 * (j + 1);
      }
    }
  }

  lemma {:induction false} KeySeqOfThree(K: seq<int>, a: nat, b: nat, c: nat)
    ensures KeySeq([a, b, c], K) == [KeyAt(K, a), KeyAt(K, b), KeyAt(K, c)]
  {
  }

  lemma {:induction false} KeySeqOfFour(K: seq<int>, a: nat, b: nat, c: nat, d: nat)
    ensures KeySeq([a, b, c, d], K) == [KeyAt(K, a), KeyAt(K, b), KeyAt(K, c), KeyAt(K, d)]
  {
  }

  lemma {:induction false} RemoveSubset<T>(xs: seq<T>, x: T)
    ensures forall z :: z in Remove(xs, x) ==> z in xs
  {
    if xs != [] {
      RemoveSubset(xs[1..], x);
    }
  }

  /** The leftmost slot of a search-ordered shape holds its smallest key. */
  lemma {:induction false} LeftmostMin(t: Tree, K: seq<int>)
    requires Sorted(KeysOf(t, K)) && t.Node?
    ensures forall i :: i in Ids(t) ==> KeyAt(K, LeftmostId(t)) <= KeyAt(K, i)
  {
    LeftmostFirst(t);
    InorderIds(t);
    forall i | i in Ids(t) ensures KeyAt(K, LeftmostId(t)) <= KeyAt(K, i) {
      var j :| 0 <= j < |Inorder(t)| && Inorder(t)[j] == i;
      assert KeysOf(t, K)[j] == KeyAt(K, i);
      assert KeysOf(t, K)[0] == KeyAt(K, LeftmostId(t));
    }
  }

  /** The rightmost slot of a search-ordered shape holds its largest key. */
  lemma {:induction false} RightmostMax(t: Tree, K: seq<int>)
    requires Sorted(KeysOf(t, K)) && t.Node?
    ensures forall i :: i in Ids(t) ==> KeyAt(K, i) <= KeyAt(K, RightmostId(t))
  {
    RightmostLast(t);
    InorderIds(t);
    var n := |Inorder(t)|;
    forall i | i in Ids(t) ensures KeyAt(K, i) <= KeyAt(K, RightmostId(t)) {
      var j :| 0 <= j < n && Inorder(t)[j] == i;
      assert KeysOf(t, K)[j] == KeyAt(K, i);
      assert KeysOf(t, K)[n - 1] == KeyAt(K, RightmostId(t));
    }
  }
}
