/** The abstract outline tree behind the Motif tree control: items, their pre-order and
    visible-order walks, node counts and sub-tree lookup. Identity of an item (a Widget in the
    driver) is its path of child indices from the container. */
module OutlineTree {
  import opened Wrappers

  datatype Kind = Branch | Leaf
  datatype Outline = Expanded | Collapsed

  /** One container item: kind, outline state, selection mark (the item's visual emphasis),
      title, user data and its ordered children. */
  datatype Node = Node(kind: Kind, state: Outline, marked: bool, title: string, userdata: int,
                       children: seq<Node>)

  /** Child indices leading from the container to an item. */
  type Path = seq<nat>

  /** Whether a walk descends into the children of `t`: always for the id walk, only through
      expanded items for the visible walk. */
  predicate Opens(t: Node, visibleOnly: bool)
  {
    !visibleOnly || t.state == Expanded
  }

  /** The items of the sub-tree `t`, found at path `p`, in the order the driver's recursive
      searches meet them: `p` first, then the walk of each child in turn. */
  function Walk(t: Node, p: Path, visibleOnly: bool): seq<Path>
    decreases t
  {
    [p] + (if Opens(t, visibleOnly) then WalkFirst(t.children, p, |t.children|, visibleOnly) else [])
  }

  /** The walks of the first `i` items of the sibling list `kids`, whose parent is at `base`. */
  function WalkFirst(kids: seq<Node>, base: Path, i: nat, visibleOnly: bool): seq<Path>
    requires i <= |kids|
    decreases kids, i
  {
    if i == 0 then []
    else WalkFirst(kids, base, i - 1, visibleOnly) + Walk(kids[i - 1], base + [i - 1], visibleOnly)
  }

  /** The part of the walk of `t` below `t` itself. */
  function WalkBelow(t: Node, p: Path, visibleOnly: bool): seq<Path>
  {
    if Opens(t, visibleOnly) then WalkFirst(t.children, p, |t.children|, visibleOnly) else []
  }

  /** The walk of a sibling list seen from child `i`: the walks of the children before it, then
      `i` itself, then the walk below `i`, then the rest. */
  lemma WalkFirstSplit(kids: seq<Node>, base: Path, i: nat, v: bool) returns (tail: seq<Path>)
    requires i < |kids|
    ensures WalkFirst(kids, base, i + 1, v)
         == WalkFirst(kids, base, i, v) + ([base + [i]] + WalkBelow(kids[i], base + [i], v))
    ensures WalkFirst(kids, base, |kids|, v)
         == WalkFirst(kids, base, i, v) + ([base + [i]] + (WalkBelow(kids[i], base + [i], v) + tail))
  {
    var before := WalkFirst(kids, base, i, v);
    var below := WalkBelow(kids[i], base + [i], v);
    var upto := WalkFirst(kids, base, i + 1, v);
    assert Walk(kids[i], base + [i], v) == [base + [i]] + below;
    assert upto == before + ([base + [i]] + below);
    WalkFirstPrefix(kids, base, i + 1, |kids|, v);
    var all := WalkFirst(kids, base, |kids|, v);
    tail := all[|upto|..];
    assert all == upto + tail;
    assert upto + tail == before + ([base + [i]] + (below + tail));
  }

  /** Number of items in a sub-tree: the item itself and all its descendants. */
  function Size(t: Node): nat
    decreases t
  {
    1 + SizeFirst(t.children, |t.children|)
  }

  function SizeFirst(kids: seq<Node>, i: nat): nat
    requires i <= |kids|
    decreases kids, i
  {
    if i == 0 then 0 else SizeFirst(kids, i - 1) + Size(kids[i - 1])
  }

  /** The item reached from `t` by following the child indices `q`, if there is one. */
  function SubAt(t: Node, q: Path): Option<Node>
    decreases |q|
  {
    if q == [] then Some(t)
    else if q[0] < |t.children| then SubAt(t.children[q[0]], q[1..])
    else None
  }

  predicate HasPrefix(x: Path, p: Path)
  {
    |p| <= |x| && x[..|p|] == p
  }

  predicate Distinct(s: seq<Path>)
  {
    forall i, j :: 0 <= i < j < |s| ==> s[i] != s[j]
  }

  /** Every item with children is expanded. */
  predicate AllOpen(t: Node)
    decreases t
  {
    (|t.children| > 0 ==> t.state == Expanded) &&
    forall i :: 0 <= i < |t.children| ==> AllOpen(t.children[i])
  }

  /** The last visible item of a sub-tree, found the way the driver does: while an item is
      expanded and has children, descend into its last child. Its contract states that this
      is the last entry of the visible walk. */
  function LastVisible(t: Node, p: Path): (r: Path)
    ensures r == Walk(t, p, true)[|Walk(t, p, true)| - 1]
    decreases t
  {
    if t.state == Expanded && |t.children| > 0 then
      var n := |t.children|;
      var r := LastVisible(t.children[n - 1], p + [n - 1]);
      assert WalkFirst(t.children, p, n, true)
          == WalkFirst(t.children, p, n - 1, true) + Walk(t.children[n - 1], p + [n - 1], true);
      r
    else
      p
  }

  // ---------------------------------------------------------------------------------------
  // Lemmas about the walks

  /** The id walk visits exactly `Size(t)` items. */
  lemma {:induction false} PreLength(t: Node, p: Path)
    ensures |Walk(t, p, false)| == Size(t)
    decreases t
  {
    PreFirstLength(t.children, p, |t.children|);
  }

  lemma {:induction false} PreFirstLength(kids: seq<Node>, base: Path, i: nat)
    requires i <= |kids|
    ensures |WalkFirst(kids, base, i, false)| == SizeFirst(kids, i)
    decreases kids, i
  {
    if i > 0 {
      PreFirstLength(kids, base, i - 1);
      PreLength(kids[i - 1], base + [i - 1]);
    }
  }

  /** The walk of the first `j` siblings is a prefix of the walk of the first `i`. */
  lemma {:induction false} WalkFirstPrefix(kids: seq<Node>, base: Path, j: nat, i: nat, v: bool)
    requires j <= i <= |kids|
    ensures |WalkFirst(kids, base, j, v)| <= |WalkFirst(kids, base, i, v)|
    ensures WalkFirst(kids, base, i, v)[..|WalkFirst(kids, base, j, v)|] == WalkFirst(kids, base, j, v)
    decreases i
  {
    if j < i {
      WalkFirstPrefix(kids, base, j, i - 1, v);
    }
  }

  /** Every item met by a walk lies inside the walked sub-tree. */
  lemma {:induction false} WalkInside(t: Node, p: Path, v: bool)
    ensures forall x :: x in Walk(t, p, v) ==> HasPrefix(x, p)
    decreases t
  {
    WalkFirstInside(t.children, p, |t.children|, v);
  }

  lemma {:induction false} WalkFirstInside(kids: seq<Node>, base: Path, i: nat, v: bool)
    requires i <= |kids|
    ensures forall x :: x in WalkFirst(kids, base, i, v) ==>
              |x| > |base| && x[..|base|] == base && x[|base|] < i
    decreases kids, i
  {
    if i > 0 {
      WalkFirstInside(kids, base, i - 1, v);
      WalkInside(kids[i - 1], base + [i - 1], v);
      forall x | x in Walk(kids[i - 1], base + [i - 1], v)
        ensures |x| > |base| && x[..|base|] == base && x[|base|] == i - 1
      {
        assert x[..|base| + 1] == base + [i - 1];
        assert x[..|base|] == x[..|base| + 1][..|base|];
      }
    }
  }

  lemma DistinctConcat(a: seq<Path>, b: seq<Path>)
    requires Distinct(a) && Distinct(b)
    requires forall x :: x in a ==> x !in b
    ensures Distinct(a + b)
  {
    forall i, j | 0 <= i < j < |a + b| ensures (a + b)[i] != (a + b)[j] {
      if j >= |a| && i < |a| {
        assert (a + b)[i] in a && (a + b)[j] == b[j - |a|];
      }
    }
  }

  /** No item is met twice by a walk, so an item has one id and one visible position. */
  lemma {:induction false} WalkDistinct(t: Node, p: Path, v: bool)
    ensures Distinct(Walk(t, p, v))
    decreases t
  {
    WalkFirstDistinct(t.children, p, |t.children|, v);
    WalkFirstInside(t.children, p, |t.children|, v);
    var rest := if Opens(t, v) then WalkFirst(t.children, p, |t.children|, v) else [];
    DistinctConcat([p], rest);
  }

  lemma {:induction false} WalkFirstDistinct(kids: seq<Node>, base: Path, i: nat, v: bool)
    requires i <= |kids|
    ensures Distinct(WalkFirst(kids, base, i, v))
    decreases kids, i
  {
    if i > 0 {
      WalkFirstDistinct(kids, base, i - 1, v);
      WalkDistinct(kids[i - 1], base + [i - 1], v);
      WalkFirstInside(kids, base, i - 1, v);
      WalkFirstInside(kids, base, i, v);
      var a := WalkFirst(kids, base, i - 1, v);
      var b := Walk(kids[i - 1], base + [i - 1], v);
      forall x | x in b ensures |x| > |base| && x[|base|] == i - 1 {
        WalkInside(kids[i - 1], base + [i - 1], v);
        assert x[..|base| + 1] == base + [i - 1];
      }
      DistinctConcat(a, b);
    }
  }

  /** Every entry of a walk names an item of the sub-tree. */
  lemma {:induction false} WalkNamesItems(t: Node, p: Path, v: bool, x: Path)
    requires x in Walk(t, p, v)
    ensures HasPrefix(x, p) && SubAt(t, x[|p|..]).Some?
    decreases t
  {
    WalkInside(t, p, v);
    if x != p {
      var kids := t.children;
      WalkFirstNamesItems(kids, p, |kids|, v, x);
      var c := x[|p|];
      assert x[|p|..][0] == c && x[|p|..][1..] == x[|p| + 1..];
    } else {
      assert x[|p|..] == [];
    }
  }

  lemma {:induction false} WalkFirstNamesItems(kids: seq<Node>, base: Path, i: nat, v: bool, x: Path)
    requires i <= |kids|
    requires x in WalkFirst(kids, base, i, v)
    ensures |x| > |base| && x[..|base|] == base && x[|base|] < i
    ensures SubAt(kids[x[|base|]], x[|base| + 1..]).Some?
    decreases kids, i
  {
    WalkFirstInside(kids, base, i, v);
    var a := WalkFirst(kids, base, i - 1, v);
    var q := base + [i - 1];
    var b := Walk(kids[i - 1], q, v);
    assert WalkFirst(kids, base, i, v) == a + b;
    if x in a {
      WalkFirstNamesItems(kids, base, i - 1, v, x);
    } else {
      assert x in b;
      WalkNamesItems(kids[i - 1], q, v, x);
      assert x[..|base| + 1] == q;
      assert x[|base|] == i - 1;
      assert x[|q|..] == x[|base| + 1..];
    }
  }

  /** Every item of the sub-tree has an entry in the id walk. */
  lemma {:induction false} ItemsHaveIds(t: Node, p: Path, q: Path)
    requires SubAt(t, q).Some?
    ensures p + q in Walk(t, p, false)
    decreases |q|
  {
    if q == [] {
      assert p + q == p;
    } else {
      var c := q[0];
      var kids := t.children;
      ItemsHaveIds(kids[c], p + [c], q[1..]);
      assert p + [c] + q[1..] == p + q;
      WalkFirstPrefix(kids, p, c + 1, |kids|, false);
      var w := WalkFirst(kids, p, c + 1, false);
      assert p + q in w;
      assert w == WalkFirst(kids, p, |kids|, false)[..|w|];
    }
  }

  /** When every item with children is expanded, every item is visible: the visible walk and
      the id walk coincide. */
  lemma {:induction false} AllOpenAllVisible(t: Node, p: Path)
    requires AllOpen(t)
    ensures Walk(t, p, true) == Walk(t, p, false)
    decreases t
  {
    AllOpenFirst(t.children, p, |t.children|);
  }

  lemma {:induction false} AllOpenFirst(kids: seq<Node>, base: Path, i: nat)
    requires i <= |kids|
    requires forall k :: 0 <= k < |kids| ==> AllOpen(kids[k])
    ensures WalkFirst(kids, base, i, true) == WalkFirst(kids, base, i, false)
    decreases kids, i
  {
    if i > 0 {
      AllOpenFirst(kids, base, i - 1);
      AllOpenAllVisible(kids[i - 1], base + [i - 1]);
    }
  }

  // ---------------------------------------------------------------------------------------
  // Ids and positions

  /** Position of the first occurrence of `x` in `s`. */
  function IndexOf(s: seq<Path>, x: Path): (i: nat)
    requires x in s
    ensures i < |s| && s[i] == x && x !in s[..i]
  {
    if s[0] == x then 0
    else
      var j := IndexOf(s[1..], x);
      assert s[..j + 1] == [s[0]] + s[1..][..j];
      1 + j
  }

  /** The value the driver's id counter holds after searching `s` for `x`: the index of `x`, or
      `|s| - 1` when the search runs off the end. */
  function PosOf(s: seq<Path>, x: Path): int
  {
    if x in s then IndexOf(s, x) else |s| - 1
  }

  /** The position of the first occurrence is the one with no earlier copy. */
  lemma IndexOfAt(s: seq<Path>, x: Path, k: nat)
    requires k < |s| && s[k] == x && x !in s[..k]
    ensures IndexOf(s, x) == k
  {
    var j := IndexOf(s, x);
    assert forall m :: 0 <= m < k ==> s[..k][m] == s[m];
    assert forall m :: 0 <= m < j ==> s[..j][m] == s[m];
  }

  /** Searching a concatenation: a hit in the first part is found there, otherwise the search
      goes on into the second part. */
  lemma IndexOfSplit(a: seq<Path>, b: seq<Path>, x: Path)
    ensures x in a ==> IndexOf(a + b, x) == IndexOf(a, x)
    ensures x !in a && x in b ==> IndexOf(a + b, x) == |a| + IndexOf(b, x)
  {
    if x in a {
      var i := IndexOf(a, x);
      assert (a + b)[..i] == a[..i];
      IndexOfAt(a + b, x, i);
    } else if x in b {
      var j := IndexOf(b, x);
      assert (a + b)[..|a| + j] == a + b[..j];
      IndexOfAt(a + b, x, |a| + j);
    }
  }

  /** In a walk without repetitions, the id of the `i`-th entry is `i`. */
  lemma IndexOfDistinct(s: seq<Path>, i: nat)
    requires Distinct(s) && i < |s|
    ensures IndexOf(s, s[i]) == i
  {
    var j := IndexOf(s, s[i]);
    assert forall k :: 0 <= k < j ==> s[..j][k] == s[k];
  }

  function Clamp(k: int, n: nat): int
    requires n > 0
  {
    if k < 0 then 0 else if k >= n then n - 1 else k
  }

  /** The entry `delta` steps away from `x` in the walk `s`, stopping at either end. */
  function NavStep(s: seq<Path>, x: Path, delta: int): Path
    requires |s| > 0
  {
    s[Clamp(PosOf(s, x) + delta, |s|)]
  }

  /** Stepping away and back returns to the starting entry when the first step does not run
      into an end. */
  lemma NavStepBack(s: seq<Path>, x: Path, delta: int)
    requires Distinct(s) && x in s
    requires 0 <= PosOf(s, x) + delta < |s|
    ensures NavStep(s, NavStep(s, x, delta), -delta) == x
  {
    var k := IndexOf(s, x);
    IndexOfDistinct(s, k + delta);
  }

  /** The item the driver finds for id `id` in the walk `s`: a negative id gives the first
      entry, an id past the end gives none. */
  function IdLookup(s: seq<Path>, id: int): Option<Path>
  {
    if |s| == 0 || id >= |s| then None else Some(s[if id < 0 then 0 else id])
  }

  /** Looking up the id of an entry gives back that entry. */
  lemma IdRoundTrip(s: seq<Path>, x: Path)
    requires Distinct(s) && x in s
    ensures IdLookup(s, PosOf(s, x)) == Some(x)
  {
  }

  /** Every id from 0 to |s| - 1 names an entry whose id it is; no larger id names one. */
  lemma IdLookupInverse(s: seq<Path>, id: int)
    requires Distinct(s)
    ensures IdLookup(s, id).Some? <==> |s| > 0 && id < |s|
    ensures 0 <= id < |s| ==> PosOf(s, IdLookup(s, id).value) == id
  {
    if 0 <= id < |s| {
      IndexOfDistinct(s, id);
    }
  }
}
