/** Structural edits of the outline tree, as value-level functions over paths: insertion of a
    sub-tree at a child position, removal of a sub-tree, replacement of an item, the copy the
    driver makes when it moves a sub-tree, and the pruning of marked items. */
module OutlineEdit {
  import opened Wrappers
  import opened OutlineTree

  /** The container itself, seen as an item whose children are its top-level items. */
  function Container(items: seq<Node>): Node
  {
    Node(Branch, Expanded, false, [], 0, items)
  }

  /** Total number of items of a sibling list. */
  function Total(kids: seq<Node>): nat
  {
    SizeFirst(kids, |kids|)
  }

  /** Only branches have children. */
  predicate WellShaped(t: Node)
    decreases t
  {
    (t.kind == Leaf ==> t.children == []) &&
    forall i :: 0 <= i < |t.children| ==> WellShaped(t.children[i])
  }

  /** `a` and `b` have the same items in the same places with the same kind, title and user data;
      marks may differ, and outline states may differ unless `keepState`. */
  predicate SameFrame(a: Node, b: Node, keepState: bool)
    decreases a
  {
    a.kind == b.kind && a.title == b.title && a.userdata == b.userdata &&
    (keepState ==> a.state == b.state) &&
    |a.children| == |b.children| &&
    forall i :: 0 <= i < |a.children| ==> SameFrame(a.children[i], b.children[i], keepState)
  }

  predicate CanInsert(t: Node, q: Path, pos: nat)
  {
    SubAt(t, q).Some? && pos <= |SubAt(t, q).value.children|
  }

  /** `t` with `n` inserted as child number `pos` of the item at `q`. */
  function InsertIn(t: Node, q: Path, pos: nat, n: Node): Node
    requires CanInsert(t, q, pos)
    decreases |q|
  {
    if q == [] then t.(children := t.children[..pos] + [n] + t.children[pos..])
    else t.(children := t.children[q[0] := InsertIn(t.children[q[0]], q[1..], pos, n)])
  }

  /** `t` without the sub-tree at `q` (which is not `t` itself). */
  function RemoveIn(t: Node, q: Path): Node
    requires |q| >= 1 && SubAt(t, q).Some?
    decreases |q|
  {
    if |q| == 1 then t.(children := t.children[..q[0]] + t.children[q[0] + 1..])
    else t.(children := t.children[q[0] := RemoveIn(t.children[q[0]], q[1..])])
  }

  /** `t` with the sub-tree at `q` replaced by `n`. */
  function ReplaceIn(t: Node, q: Path, n: Node): Node
    requires SubAt(t, q).Some?
    decreases |q|
  {
    if q == [] then n
    else t.(children := t.children[q[0] := ReplaceIn(t.children[q[0]], q[1..], n)])
  }

  /** Where an item at `x` ends up once a sibling is inserted as child `pos` of the item at `q`. */
  function Shift(x: Path, q: Path, pos: nat): Path
  {
    if |x| > |q| && x[..|q|] == q && x[|q|] >= pos then x[|q| := x[|q|] + 1] else x
  }

  /** Where an item at `y` ends up once the sub-tree at `r` is removed: a later sibling of `r`,
      or anything below one, moves one place forward. */
  function Unshift(y: Path, r: Path): Path
    requires |r| >= 1
  {
    var k := |r| - 1;
    if |y| > k && y[..k] == r[..k] && y[k] > r[k] then y[k := y[k] - 1] else y
  }

  /** The copy of a sub-tree made when it is moved: every field is copied except the mark, which a
      freshly created item does not carry. */
  function Unmarked(t: Node): Node
    decreases t
  {
    t.(marked := false, children := UnmarkedFirst(t.children, |t.children|))
  }

  /** The copies of the first `i` siblings, in their order. */
  function UnmarkedFirst(kids: seq<Node>, i: nat): (r: seq<Node>)
    requires i <= |kids|
    ensures |r| == i
    ensures forall k :: 0 <= k < i ==> r[k] == Unmarked(kids[k])
    decreases kids, i
  {
    if i == 0 then [] else UnmarkedFirst(kids, i - 1) + [Unmarked(kids[i - 1])]
  }

  /** A sub-tree without every marked descendant (and the descendants of those). */
  function Prune(t: Node): Node
    decreases t
  {
    t.(children := PruneFirst(t.children, |t.children|))
  }

  function PruneFirst(kids: seq<Node>, i: nat): seq<Node>
    requires i <= |kids|
    decreases kids, i
  {
    if i == 0 then []
    else PruneFirst(kids, i - 1) + (if kids[i - 1].marked then [] else [Prune(kids[i - 1])])
  }

  /** No descendant of `t` (`t` itself aside) is marked. */
  predicate NoMarkBelow(t: Node)
    decreases t
  {
    forall i :: 0 <= i < |t.children| ==> !t.children[i].marked && NoMarkBelow(t.children[i])
  }

  // ---------------------------------------------------------------------------------------
  // Sizes

  lemma {:induction false} SizeFirstTake(s: seq<Node>, i: nat)
    requires i <= |s|
    ensures SizeFirst(s, i) == Total(s[..i])
    decreases i
  {
    if i > 0 {
      SizeFirstTake(s, i - 1);
      SizeFirstTake(s[..i], i - 1);
      assert s[..i][..i - 1] == s[..i - 1];
    }
  }

  lemma {:induction false} TotalConcat(a: seq<Node>, b: seq<Node>)
    ensures Total(a + b) == Total(a) + Total(b)
    decreases |b|
  {
    if |b| > 0 {
      var b' := b[..|b| - 1];
      TotalConcat(a, b');
      SizeFirstTake(a + b, |a + b| - 1);
      assert (a + b)[..|a + b| - 1] == a + b';
      SizeFirstTake(b, |b| - 1);
    } else {
      assert a + b == a;
    }
  }

  lemma TotalSingle(n: Node)
    ensures Total([n]) == Size(n)
  {
    assert SizeFirst([n], 1) == SizeFirst([n], 0) + Size([n][0]);
  }

  /** Replacing one sibling changes the total by the difference of the two sizes. */
  lemma TotalUpdate(kids: seq<Node>, c: nat, n: Node)
    requires c < |kids|
    ensures Total(kids[c := n]) == Total(kids) - Size(kids[c]) + Size(n)
  {
    assert kids == kids[..c] + [kids[c]] + kids[c + 1..];
    assert kids[c := n] == kids[..c] + [n] + kids[c + 1..];
    TotalConcat(kids[..c] + [kids[c]], kids[c + 1..]);
    TotalConcat(kids[..c], [kids[c]]);
    TotalConcat(kids[..c] + [n], kids[c + 1..]);
    TotalConcat(kids[..c], [n]);
    TotalSingle(kids[c]);
    TotalSingle(n);
  }

  /** Inserting `n` anywhere adds exactly its items. */
  lemma {:induction false} InsertSize(t: Node, q: Path, pos: nat, n: Node)
    requires CanInsert(t, q, pos)
    ensures Size(InsertIn(t, q, pos, n)) == Size(t) + Size(n)
    decreases |q|
  {
    if q == [] {
      var k := t.children;
      assert k == k[..pos] + k[pos..];
      TotalConcat(k[..pos], k[pos..]);
      TotalConcat(k[..pos] + [n], k[pos..]);
      TotalConcat(k[..pos], [n]);
      TotalSingle(n);
    } else {
      InsertSize(t.children[q[0]], q[1..], pos, n);
      TotalUpdate(t.children, q[0], InsertIn(t.children[q[0]], q[1..], pos, n));
    }
  }

  /** Removing a sub-tree takes away exactly its items. */
  lemma {:induction false} RemoveSize(t: Node, q: Path)
    requires |q| >= 1 && SubAt(t, q).Some?
    ensures Size(RemoveIn(t, q)) == Size(t) - Size(SubAt(t, q).value)
    decreases |q|
  {
    var k := t.children;
    var c := q[0];
    if |q| == 1 {
      assert q[1..] == [];
      assert k == k[..c] + [k[c]] + k[c + 1..];
      TotalConcat(k[..c] + [k[c]], k[c + 1..]);
      TotalConcat(k[..c], [k[c]]);
      TotalConcat(k[..c], k[c + 1..]);
      TotalSingle(k[c]);
    } else {
      RemoveSize(k[c], q[1..]);
      TotalUpdate(k, c, RemoveIn(k[c], q[1..]));
    }
  }

  /** Replacing a sub-tree changes the size by the difference of the two sub-trees. */
  lemma {:induction false} ReplaceSize(t: Node, q: Path, n: Node)
    requires SubAt(t, q).Some?
    ensures Size(ReplaceIn(t, q, n)) == Size(t) - Size(SubAt(t, q).value) + Size(n)
    decreases |q|
  {
    if q != [] {
      ReplaceSize(t.children[q[0]], q[1..], n);
      TotalUpdate(t.children, q[0], ReplaceIn(t.children[q[0]], q[1..], n));
    }
  }

  // ---------------------------------------------------------------------------------------
  // Where things are after an edit

  /** The inserted sub-tree sits at child `pos` of the item at `q`. */
  lemma {:induction false} InsertPlaces(t: Node, q: Path, pos: nat, n: Node)
    requires CanInsert(t, q, pos)
    ensures SubAt(InsertIn(t, q, pos, n), q + [pos]) == Some(n)
    decreases |q|
  {
    if q == [] {
      assert ([] + [pos])[1..] == [];
    } else {
      InsertPlaces(t.children[q[0]], q[1..], pos, n);
      assert (q + [pos])[1..] == q[1..] + [pos];
    }
  }

  /** After an insertion, the item at `q` holds its former children with `n` put in at `pos`. */
  lemma {:induction false} InsertChildren(t: Node, q: Path, pos: nat, n: Node)
    requires CanInsert(t, q, pos)
    ensures SubAt(InsertIn(t, q, pos, n), q).Some?
    ensures var kids := SubAt(t, q).value.children;
            SubAt(InsertIn(t, q, pos, n), q).value.children == kids[..pos] + [n] + kids[pos..]
    decreases |q|
  {
    if q != [] {
      InsertChildren(t.children[q[0]], q[1..], pos, n);
    }
  }

  /** Inserting `n` just after the item at `q + [i]` and then removing that item leaves `n` in
      its place. */
  lemma {:induction false} InsertAfterThenRemove(t: Node, q: Path, i: nat, n: Node)
    requires SubAt(t, q).Some? && i < |SubAt(t, q).value.children|
    ensures CanInsert(t, q, i + 1) && SubAt(t, q + [i]).Some?
    ensures SubAt(InsertIn(t, q, i + 1, n), q + [i]).Some?
    ensures RemoveIn(InsertIn(t, q, i + 1, n), q + [i]) == ReplaceIn(t, q + [i], n)
    decreases |q|
  {
    if q == [] {
      var k := t.children;
      var k1 := k[..i + 1] + [n] + k[i + 1..];
      assert q + [i] == [i] && [i][1..] == [];
      assert k1[..i] + k1[i + 1..] == k[i := n];
    } else {
      InsertAfterThenRemove(t.children[q[0]], q[1..], i, n);
      assert (q + [i])[0] == q[0] && (q + [i])[1..] == q[1..] + [i];
    }
  }

  /** A common first index can be dropped from both paths of a prefix test. */
  lemma PrefixCons(q: Path, x: Path)
    requires |q| > 0 && |x| > 0 && q[0] == x[0]
    ensures HasPrefix(q[1..], x[1..]) ==> HasPrefix(q, x)
  {
    if HasPrefix(q[1..], x[1..]) {
      assert q[..|x|] == [q[0]] + q[1..][..|x| - 1];
      assert x == [x[0]] + x[1..];
    }
  }

  /** Shifting a path that starts at the insertion path's first index shifts its tail. */
  lemma ShiftCons(x: Path, q: Path, pos: nat)
    requires |q| > 0 && |x| > 0 && q[0] == x[0]
    ensures Shift(x, q, pos) == [x[0]] + Shift(x[1..], q[1..], pos)
  {
    var x', q' := x[1..], q[1..];
    assert q == [q[0]] + q';
    if |x| > |q| {
      assert x[..|q|] == [x[0]] + x'[..|q'|];
      assert x[|q|] == x'[|q'|];
      if x[..|q|] == q && x[|q|] >= pos {
        assert x'[..|q'|] == q';
        assert x[|q| := x[|q|] + 1] == [x[0]] + x'[|q'| := x'[|q'|] + 1];
      } else {
        assert !(x'[..|q'|] == q' && x'[|q'|] >= pos);
        assert x == [x[0]] + x';
      }
    } else {
      assert x == [x[0]] + x';
    }
  }

  /** Any item that is not the insertion parent or one of its ancestors keeps its sub-tree,
      at its shifted path. */
  lemma {:induction false} InsertKeeps(t: Node, q: Path, pos: nat, n: Node, x: Path)
    requires CanInsert(t, q, pos)
    requires SubAt(t, x).Some? && !HasPrefix(q, x)
    ensures SubAt(InsertIn(t, q, pos, n), Shift(x, q, pos)) == SubAt(t, x)
    decreases |q|
  {
    var t' := InsertIn(t, q, pos, n);
    if q == [] {
      var y := Shift(x, q, pos);
      assert y[1..] == x[1..];
      assert t'.children[y[0]] == t.children[x[0]];
    } else if x[0] != q[0] {
      assert Shift(x, q, pos) == x;
    } else {
      var c := q[0];
      PrefixCons(q, x);
      InsertKeeps(t.children[c], q[1..], pos, n, x[1..]);
      ShiftCons(x, q, pos);
      var y := Shift(x, q, pos);
      assert y[0] == c && y[1..] == Shift(x[1..], q[1..], pos);
    }
  }

  /** A shifted path lies inside another shifted path only when the paths did so before the
      shift: an insertion does not nest items that were apart. */
  lemma ShiftReflectsPrefix(a: Path, b: Path, q: Path, pos: nat)
    ensures HasPrefix(Shift(a, q, pos), Shift(b, q, pos)) ==> HasPrefix(a, b)
  {
    var a', b' := Shift(a, q, pos), Shift(b, q, pos);
    if HasPrefix(a', b') {
      assert |a'| == |a| && |b'| == |b|;
      forall k | 0 <= k < |b| ensures a[k] == b[k] {
        assert a'[k] == b'[k];
        if k == |q| && |b| > |q| {
          assert a[..|q|] == a'[..|q|] == b'[..|q|] == b[..|q|];
        }
      }
    }
  }

  /** A one-index path is a prefix of every path that starts with its index. */
  lemma HeadPrefix(r: Path, y: Path)
    requires |r| >= 1 && |y| >= 1 && r[0] == y[0]
    ensures |y| == 1 ==> HasPrefix(r, y)
  {
    assert r[..1] == [r[0]];
    assert y[..1] == [y[0]];
  }

  /** Unshifting a path that starts at the removed path's first index unshifts its tail. */
  lemma UnshiftCons(y: Path, r: Path)
    requires |r| > 1 && |y| > 0 && r[0] == y[0]
    ensures Unshift(y, r) == [y[0]] + Unshift(y[1..], r[1..])
  {
    var y', r' := y[1..], r[1..];
    var k := |r| - 1;
    assert r == [r[0]] + r';
    assert y == [y[0]] + y';
    if |y| > k {
      assert y[..k] == [y[0]] + y'[..k - 1];
      assert r[..k] == [r[0]] + r'[..k - 1];
      assert y[k] == y'[k - 1];
      if y[..k] == r[..k] && y[k] > r[k] {
        assert y'[..k - 1] == r'[..k - 1];
        assert y[k := y[k] - 1] == [y[0]] + y'[k - 1 := y'[k - 1] - 1];
      } else {
        assert !(y'[..k - 1] == r'[..k - 1] && y'[k - 1] > r'[k - 1]);
      }
    }
  }

  /** Any item that is neither inside the removed sub-tree nor one of its ancestors keeps its
      sub-tree, at its unshifted path. */
  lemma {:induction false} RemoveKeeps(t: Node, r: Path, y: Path)
    requires |r| >= 1 && SubAt(t, r).Some? && SubAt(t, y).Some?
    requires |y| >= 1 && !HasPrefix(y, r) && !HasPrefix(r, y)
    ensures SubAt(RemoveIn(t, r), Unshift(y, r)) == SubAt(t, y)
    decreases |r|
  {
    var t' := RemoveIn(t, r);
    var z := Unshift(y, r);
    if |r| == 1 {
      assert y[0] != r[0] by {
        assert y[..1] == [y[0]] && r == [r[0]];
      }
      assert z[1..] == y[1..];
      if y[0] > r[0] {
        assert z[0] == y[0] - 1;
        assert t'.children[z[0]] == t.children[y[0]];
      } else {
        assert z == y;
        assert t'.children[y[0]] == t.children[y[0]];
      }
    } else if y[0] != r[0] {
      assert z == y by {
        var k := |r| - 1;
        assert |y| > k ==> y[..k][0] != r[..k][0];
      }
    } else {
      HeadPrefix(r, y);
      PrefixCons(y, r);
      PrefixCons(r, y);
      RemoveKeeps(t.children[r[0]], r[1..], y[1..]);
      UnshiftCons(y, r);
      assert z[0] == r[0] && z[1..] == Unshift(y[1..], r[1..]);
    }
  }

  /** After a replacement, the item at `q` is the new one. */
  lemma {:induction false} ReplacePlaces(t: Node, q: Path, n: Node)
    requires SubAt(t, q).Some?
    ensures SubAt(ReplaceIn(t, q, n), q) == Some(n)
    decreases |q|
  {
    if q != [] {
      ReplacePlaces(t.children[q[0]], q[1..], n);
    }
  }

  /** The parent of a non-top item exists and holds it at its last index. */
  lemma {:induction false} ParentOf(t: Node, x: Path)
    requires |x| >= 1 && SubAt(t, x).Some?
    ensures var p := x[..|x| - 1];
            SubAt(t, p).Some? && x[|x| - 1] < |SubAt(t, p).value.children| &&
            SubAt(t, p).value.children[x[|x| - 1]] == SubAt(t, x).value
    decreases |x|
  {
    if |x| > 1 {
      ParentOf(t.children[x[0]], x[1..]);
      assert x[1..][..|x| - 2] == x[..|x| - 1][1..];
    }
  }

  // ---------------------------------------------------------------------------------------
  // Shape

  lemma {:induction false} WellShapedSub(t: Node, q: Path)
    requires WellShaped(t) && SubAt(t, q).Some?
    ensures WellShaped(SubAt(t, q).value)
    decreases |q|
  {
    if q != [] {
      WellShapedSub(t.children[q[0]], q[1..]);
    }
  }

  /** Inserting a well-shaped sub-tree under a branch keeps the tree well shaped. */
  lemma {:induction false} InsertShaped(t: Node, q: Path, pos: nat, n: Node)
    requires CanInsert(t, q, pos) && WellShaped(t) && WellShaped(n)
    requires SubAt(t, q).value.kind == Branch
    ensures WellShaped(InsertIn(t, q, pos, n))
    decreases |q|
  {
    var t' := InsertIn(t, q, pos, n);
    if q == [] {
      forall i | 0 <= i < |t'.children| ensures WellShaped(t'.children[i]) {
        if i < pos { assert t'.children[i] == t.children[i]; }
        else if i > pos { assert t'.children[i] == t.children[i - 1]; }
      }
    } else {
      InsertShaped(t.children[q[0]], q[1..], pos, n);
    }
  }

  lemma {:induction false} RemoveShaped(t: Node, q: Path)
    requires |q| >= 1 && SubAt(t, q).Some? && WellShaped(t)
    ensures WellShaped(RemoveIn(t, q))
    decreases |q|
  {
    var t' := RemoveIn(t, q);
    var c := q[0];
    if |q| == 1 {
      forall i | 0 <= i < |t'.children| ensures WellShaped(t'.children[i]) {
        if i < c { assert t'.children[i] == t.children[i]; }
        else { assert t'.children[i] == t.children[i + 1]; }
      }
    } else {
      RemoveShaped(t.children[c], q[1..]);
    }
  }

  /** Replacing an item by a well-shaped one keeps the tree well shaped. */
  lemma {:induction false} ReplaceShaped(t: Node, q: Path, n: Node)
    requires SubAt(t, q).Some? && WellShaped(t) && WellShaped(n)
    ensures WellShaped(ReplaceIn(t, q, n))
    decreases |q|
  {
    if q != [] {
      ReplaceShaped(t.children[q[0]], q[1..], n);
    }
  }

  /** Items with the same frame have the same size, the same id walk and the same shape;
      with equal outline states they also have the same visible walk. */
  lemma {:induction false} SameFrameWalk(a: Node, b: Node, keepState: bool, p: Path, v: bool)
    requires SameFrame(a, b, keepState) && (keepState || !v)
    ensures Walk(a, p, v) == Walk(b, p, v) && Size(a) == Size(b)
    ensures WellShaped(a) <==> WellShaped(b)
    decreases a
  {
    SameFrameFirst(a.children, b.children, keepState, p, |a.children|, v);
    if WellShaped(a) != WellShaped(b) {
      var i :| 0 <= i < |a.children| && WellShaped(a.children[i]) != WellShaped(b.children[i]);
      SameFrameWalk(a.children[i], b.children[i], keepState, p + [i], v);
    }
  }

  lemma {:induction false} SameFrameFirst(ka: seq<Node>, kb: seq<Node>, keepState: bool, base: Path, i: nat, v: bool)
    requires i <= |ka| == |kb| && (keepState || !v)
    requires forall k :: 0 <= k < |ka| ==> SameFrame(ka[k], kb[k], keepState)
    ensures WalkFirst(ka, base, i, v) == WalkFirst(kb, base, i, v)
    ensures SizeFirst(ka, i) == SizeFirst(kb, i)
    decreases ka, i
  {
    if i > 0 {
      SameFrameFirst(ka, kb, keepState, base, i - 1, v);
      SameFrameWalk(ka[i - 1], kb[i - 1], keepState, base + [i - 1], v);
    }
  }

  /** The moved copy keeps the whole sub-tree (structure, kinds, states, titles, user data and
      child order) and carries no mark. */
  lemma {:induction false} UnmarkedCopies(t: Node)
    ensures SameFrame(Unmarked(t), t, true)
    ensures !Unmarked(t).marked && NoMarkBelow(Unmarked(t))
    decreases t
  {
    var u := Unmarked(t);
    forall i | 0 <= i < |t.children|
      ensures SameFrame(u.children[i], t.children[i], true)
      ensures !u.children[i].marked && NoMarkBelow(u.children[i])
    {
      UnmarkedCopies(t.children[i]);
    }
  }

  /** After pruning, no descendant is marked. */
  lemma {:induction false} PruneClears(t: Node)
    ensures NoMarkBelow(Prune(t))
    decreases t
  {
    PruneFirstClears(t.children, |t.children|);
  }

  lemma {:induction false} PruneFirstClears(kids: seq<Node>, i: nat)
    requires i <= |kids|
    ensures forall k :: 0 <= k < |PruneFirst(kids, i)| ==>
              !PruneFirst(kids, i)[k].marked && NoMarkBelow(PruneFirst(kids, i)[k])
    decreases kids, i
  {
    if i > 0 {
      PruneFirstClears(kids, i - 1);
      if !kids[i - 1].marked {
        PruneClears(kids[i - 1]);
      }
    }
  }

  /** Pruning a sub-tree without marked descendants changes nothing. */
  lemma {:induction false} PruneUnmarked(t: Node)
    requires NoMarkBelow(t)
    ensures Prune(t) == t
    decreases t
  {
    PruneFirstUnmarked(t.children, |t.children|);
    assert t.children[..|t.children|] == t.children;
  }

  lemma {:induction false} PruneFirstUnmarked(kids: seq<Node>, i: nat)
    requires i <= |kids|
    requires forall k :: 0 <= k < |kids| ==> !kids[k].marked && NoMarkBelow(kids[k])
    ensures PruneFirst(kids, i) == kids[..i]
    decreases kids, i
  {
    if i > 0 {
      PruneFirstUnmarked(kids, i - 1);
      PruneUnmarked(kids[i - 1]);
      assert kids[..i] == kids[..i - 1] + [kids[i - 1]];
    }
  }

  /** How many of the first `j` siblings are unmarked. */
  function UnmarkedCount(kids: seq<Node>, j: nat): (n: nat)
    requires j <= |kids|
    ensures n <= j
  {
    if j == 0 then 0 else UnmarkedCount(kids, j - 1) + (if kids[j - 1].marked then 0 else 1)
  }

  /** Pruning a sibling list keeps as many siblings as are unmarked. */
  lemma {:induction false} PruneFirstLength(kids: seq<Node>, i: nat)
    requires i <= |kids|
    ensures |PruneFirst(kids, i)| == UnmarkedCount(kids, i)
    decreases i
  {
    if i > 0 {
      PruneFirstLength(kids, i - 1);
    }
  }

  /** The unmarked sibling `j`, pruned, stands after the unmarked siblings before it. */
  lemma {:induction false} PruneFirstAt(kids: seq<Node>, i: nat, j: nat)
    requires j < i <= |kids| && !kids[j].marked
    ensures UnmarkedCount(kids, j) < |PruneFirst(kids, i)|
    ensures PruneFirst(kids, i)[UnmarkedCount(kids, j)] == Prune(kids[j])
    decreases i
  {
    var a := PruneFirst(kids, i - 1);
    PruneFirstLength(kids, i - 1);
    if j < i - 1 {
      PruneFirstAt(kids, i - 1, j);
      var tail := if kids[i - 1].marked then [] else [Prune(kids[i - 1])];
      assert PruneFirst(kids, i) == a + tail;
    } else {
      assert PruneFirst(kids, i) == a + [Prune(kids[j])];
    }
  }

  /** Pruning a sibling list keeps exactly its unmarked siblings, each pruned in turn, in their
      order: the unmarked sibling `j` stands after the unmarked siblings before it. */
  lemma PruneFirstKeeps(kids: seq<Node>, i: nat)
    requires i <= |kids|
    ensures |PruneFirst(kids, i)| == UnmarkedCount(kids, i)
    ensures forall j :: 0 <= j < i && !kids[j].marked ==>
              UnmarkedCount(kids, j) < UnmarkedCount(kids, i) &&
              PruneFirst(kids, i)[UnmarkedCount(kids, j)] == Prune(kids[j])
  {
    PruneFirstLength(kids, i);
    forall j | 0 <= j < i && !kids[j].marked
      ensures UnmarkedCount(kids, j) < UnmarkedCount(kids, i)
      ensures PruneFirst(kids, i)[UnmarkedCount(kids, j)] == Prune(kids[j])
    {
      PruneFirstAt(kids, i, j);
    }
  }

  /** Pruning an item keeps the item and, of its children, exactly the unmarked ones, each pruned
      in turn and in their order. */
  lemma PruneKeeps(t: Node)
    ensures Prune(t).kind == t.kind && Prune(t).state == t.state && Prune(t).marked == t.marked &&
            Prune(t).title == t.title && Prune(t).userdata == t.userdata
    ensures |Prune(t).children| == UnmarkedCount(t.children, |t.children|)
    ensures forall j :: 0 <= j < |t.children| && !t.children[j].marked ==>
              UnmarkedCount(t.children, j) < |Prune(t).children| &&
              Prune(t).children[UnmarkedCount(t.children, j)] == Prune(t.children[j])
  {
    PruneFirstKeeps(t.children, |t.children|);
  }

  /** Pruning keeps the tree well shaped. */
  lemma {:induction false} PruneShaped(t: Node)
    requires WellShaped(t)
    ensures WellShaped(Prune(t)) && Prune(t).kind == t.kind && Size(Prune(t)) <= Size(t)
    decreases t
  {
    PruneFirstShaped(t.children, |t.children|);
  }

  lemma {:induction false} PruneFirstShaped(kids: seq<Node>, i: nat)
    requires i <= |kids|
    requires forall k :: 0 <= k < |kids| ==> WellShaped(kids[k])
    ensures |PruneFirst(kids, i)| <= i
    ensures forall k :: 0 <= k < |PruneFirst(kids, i)| ==> WellShaped(PruneFirst(kids, i)[k])
    ensures Total(PruneFirst(kids, i)) <= SizeFirst(kids, i)
    decreases kids, i
  {
    if i > 0 {
      PruneFirstShaped(kids, i - 1);
      var a := PruneFirst(kids, i - 1);
      if kids[i - 1].marked {
        assert PruneFirst(kids, i) == a + [];
        assert a + [] == a;
      } else {
        PruneShaped(kids[i - 1]);
        assert PruneFirst(kids, i) == a + [Prune(kids[i - 1])];
        TotalConcat(a, [Prune(kids[i - 1])]);
        TotalSingle(Prune(kids[i - 1]));
      }
    }
  }

  // ---------------------------------------------------------------------------------------
  // Frames and the container

  lemma {:induction false} SameFrameRefl(t: Node, keepState: bool)
    ensures SameFrame(t, t, keepState)
    decreases t
  {
    forall i | 0 <= i < |t.children| ensures SameFrame(t.children[i], t.children[i], keepState) {
      SameFrameRefl(t.children[i], keepState);
    }
  }

  lemma {:induction false} SameFrameSym(a: Node, b: Node, keepState: bool)
    requires SameFrame(a, b, keepState)
    ensures SameFrame(b, a, keepState)
    decreases a
  {
    forall i | 0 <= i < |b.children| ensures SameFrame(b.children[i], a.children[i], keepState) {
      SameFrameSym(a.children[i], b.children[i], keepState);
    }
  }

  /** Items with the same frame have items at the same paths, again with the same frame. */
  lemma {:induction false} SameFrameSubAt(a: Node, b: Node, keepState: bool, x: Path)
    requires SameFrame(a, b, keepState) && SubAt(a, x).Some?
    ensures SubAt(b, x).Some? && SameFrame(SubAt(a, x).value, SubAt(b, x).value, keepState)
    decreases |x|
  {
    if x != [] {
      SameFrameSubAt(a.children[x[0]], b.children[x[0]], keepState, x[1..]);
    }
  }

  /** Setting the outline state of one item keeps the frame of the whole container. */
  lemma SetStateFrame(items: seq<Node>, k: nat, s: Outline)
    requires k < |items|
    ensures SameFrame(Container(items[k := items[k].(state := s)]), Container(items), false)
  {
    forall i | 0 <= i < |items|
      ensures SameFrame(items[k := items[k].(state := s)][i], items[i], false)
    {
      SameFrameRefl(items[i], false);
    }
  }

  /** In a well-shaped tree an item with children is a branch. */
  lemma ParentIsBranch(t: Node, q: Path)
    requires WellShaped(t) && SubAt(t, q).Some? && |SubAt(t, q).value.children| > 0
    ensures SubAt(t, q).value.kind == Branch
  {
    WellShapedSub(t, q);
  }

  /** An entry of the walk of top-level item `k` is an item of the container whose path starts
      with `k`. */
  lemma WalkInContainer(items: seq<Node>, k: nat, v: bool, x: Path)
    requires k < |items| && x in Walk(items[k], [k], v)
    ensures |x| >= 1 && x[0] == k && SubAt(Container(items), x).Some?
    ensures SubAt(Container(items), x) == SubAt(items[k], x[1..])
  {
    WalkNamesItems(items[k], [k], v, x);
  }

  /** A container that still has more items than itself has a top-level item. */
  lemma NonEmptyBySize(items: seq<Node>)
    requires Size(Container(items)) >= 2
    ensures |items| >= 1
  {
  }

  /** Replacing an item by a copy with another mark leaves the mark of every other item as it was. */
  lemma {:induction false} ReplaceMarkOthers(t: Node, x: Path, b: bool, y: Path)
    requires SubAt(t, x).Some? && SubAt(t, y).Some? && y != x
    ensures var t' := ReplaceIn(t, x, SubAt(t, x).value.(marked := b));
            SubAt(t', y).Some? && SubAt(t', y).value.marked == SubAt(t, y).value.marked
    decreases |x|
  {
    var n := SubAt(t, x).value.(marked := b);
    if x == [] {
      assert SubAt(n, y) == SubAt(t, y);
    } else if y != [] && y[0] == x[0] {
      assert x[1..] != y[1..] by {
        assert x == [x[0]] + x[1..] && y == [y[0]] + y[1..];
      }
      ReplaceMarkOthers(t.children[x[0]], x[1..], b, y[1..]);
    }
  }
}
