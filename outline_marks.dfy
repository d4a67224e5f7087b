/** The item visitors of the Motif tree driver and the bulk passes over the outline: selecting,
    unselecting or toggling every item, range selection between two items of the pre-order walk,
    and setting the outline state of every item that has children. */
module OutlineMarks {
  import opened OutlineTree
  import opened OutlineEdit

  /** The two visitors the driver hands to its item walk: `SelectItems` sets (1), clears (0) or
      toggles (-1) the mark of every item; `SelectRange` marks the items between `item1` and
      `item2` and, when `clear` is set, unmarks the others. */
  datatype Visitor = SelectItems(select: int) | SelectRange(item1: Path, item2: Path, clear: bool)

  /** One call of the visitor on the item at `p`, whose mark is `m`, with the range's `inside`
      flag (0 before the range, 1 inside it, -1 after it); yields the new flag and mark. */
  function Step(v: Visitor, inside: int, p: Path, m: bool): (int, bool)
  {
    match v
    case SelectItems(select) => (inside, if select == -1 then !m else select != 0)
    case SelectRange(i1, i2, clear) =>
      var hit := p == i1 || p == i2;
      var in1 := if inside == 0 && hit then 1 else inside;
      var endRange := inside == 1 && hit;
      var m' := if in1 == 1 then true else if clear then false else m;
      (if endRange || (in1 != 0 && i1 == i2) then -1 else in1, m')
  }

  /** The walk over a sub-tree: the visitor is applied to the item, then to each child sub-tree
      in turn; the result is the sub-tree with its new marks and the final `inside` flag. */
  function VisitTree(v: Visitor, inside: int, t: Node, p: Path): (Node, int)
    decreases t
  {
    var (in1, m) := Step(v, inside, p, t.marked);
    var (kids, in2) := VisitFirst(v, in1, t.children, p, |t.children|);
    (t.(marked := m, children := kids), in2)
  }

  function VisitFirst(v: Visitor, inside: int, kids: seq<Node>, base: Path, i: nat): (seq<Node>, int)
    requires i <= |kids|
    decreases kids, i
  {
    if i == 0 then ([], inside)
    else
      var (a, in1) := VisitFirst(v, inside, kids, base, i - 1);
      var (n, in2) := VisitTree(v, in1, kids[i - 1], base + [i - 1]);
      (a + [n], in2)
  }

  /** The marks of a sub-tree in pre-order. */
  function PreMarks(t: Node): seq<bool>
    decreases t
  {
    [t.marked] + MarksFirst(t.children, |t.children|)
  }

  function MarksFirst(kids: seq<Node>, i: nat): seq<bool>
    requires i <= |kids|
    decreases kids, i
  {
    if i == 0 then [] else MarksFirst(kids, i - 1) + PreMarks(kids[i - 1])
  }

  /** The same visitor applied along a flat list of items `ps` with marks `ms`. */
  function StepAll(v: Visitor, inside: int, ps: seq<Path>, ms: seq<bool>): (seq<bool>, int)
    requires |ps| == |ms|
    decreases |ps|
  {
    if |ps| == 0 then ([], inside)
    else
      var (in1, m) := Step(v, inside, ps[0], ms[0]);
      var (rest, in2) := StepAll(v, in1, ps[1..], ms[1..]);
      ([m] + rest, in2)
  }

  /** Every item that has children gets outline state `s`; the others keep theirs. */
  function Outlined(t: Node, s: Outline): Node
    decreases t
  {
    t.(state := if |t.children| > 0 then s else t.state,
       children := OutlinedFirst(t.children, |t.children|, s))
  }

  function OutlinedFirst(kids: seq<Node>, i: nat, s: Outline): (r: seq<Node>)
    requires i <= |kids|
    ensures |r| == i
    decreases kids, i
  {
    if i == 0 then [] else OutlinedFirst(kids, i - 1, s) + [Outlined(kids[i - 1], s)]
  }

  // ---------------------------------------------------------------------------------------
  // The tree walk is the flat walk over the pre-order

  lemma {:induction false} StepAllConcat(v: Visitor, inside: int, ps1: seq<Path>, ms1: seq<bool>,
                                         ps2: seq<Path>, ms2: seq<bool>)
    requires |ps1| == |ms1| && |ps2| == |ms2|
    ensures var (r1, in1) := StepAll(v, inside, ps1, ms1);
            var (r2, in2) := StepAll(v, in1, ps2, ms2);
            StepAll(v, inside, ps1 + ps2, ms1 + ms2) == (r1 + r2, in2)
    decreases |ps1|
  {
    if |ps1| > 0 {
      var (in1, m) := Step(v, inside, ps1[0], ms1[0]);
      StepAllConcat(v, in1, ps1[1..], ms1[1..], ps2, ms2);
      assert (ps1 + ps2)[0] == ps1[0] && (ms1 + ms2)[0] == ms1[0];
      assert (ps1 + ps2)[1..] == ps1[1..] + ps2;
      assert (ms1 + ms2)[1..] == ms1[1..] + ms2;
      var (r1, mid) := StepAll(v, in1, ps1[1..], ms1[1..]);
      var (r2, out) := StepAll(v, mid, ps2, ms2);
      assert StepAll(v, inside, ps1, ms1) == ([m] + r1, mid);
      assert [m] + r1 + r2 == [m] + (r1 + r2);
    } else {
      assert ps1 + ps2 == ps2 && ms1 + ms2 == ms2;
      var r2 := StepAll(v, inside, ps2, ms2).0;
      assert [] + r2 == r2;
    }
  }

  lemma {:induction false} MarksFirstPrefix(a: seq<Node>, b: seq<Node>, i: nat)
    requires i <= |a| && i <= |b| && a[..i] == b[..i]
    ensures MarksFirst(a, i) == MarksFirst(b, i)
    decreases i
  {
    if i > 0 {
      assert a[i - 1] == a[..i][i - 1] == b[..i][i - 1] == b[i - 1];
      assert a[..i - 1] == a[..i][..i - 1];
      assert b[..i - 1] == b[..i][..i - 1];
      MarksFirstPrefix(a, b, i - 1);
    }
  }

  /** The visitor walk over a sub-tree keeps every item in place and changes the marks exactly
      as the flat walk does over the pre-order sequence of the sub-tree. */
  lemma {:induction false} VisitIsStepAll(v: Visitor, inside: int, t: Node, p: Path)
    ensures |PreMarks(t)| == |Walk(t, p, false)|
    ensures SameFrame(VisitTree(v, inside, t, p).0, t, true)
    ensures (PreMarks(VisitTree(v, inside, t, p).0), VisitTree(v, inside, t, p).1)
         == StepAll(v, inside, Walk(t, p, false), PreMarks(t))
    decreases t
  {
    var (in1, m) := Step(v, inside, p, t.marked);
    var n := |t.children|;
    VisitFirstIsStepAll(v, in1, t.children, p, n);
    var (kids, in2) := VisitFirst(v, in1, t.children, p, n);
    var ps := WalkFirst(t.children, p, n, false);
    var ms := MarksFirst(t.children, n);
    assert ([p] + ps)[1..] == ps;
    assert ([t.marked] + ms)[1..] == ms;
  }

  lemma {:induction false} VisitFirstIsStepAll(v: Visitor, inside: int, kids: seq<Node>, base: Path, i: nat)
    requires i <= |kids|
    ensures |MarksFirst(kids, i)| == |WalkFirst(kids, base, i, false)|
    ensures |VisitFirst(v, inside, kids, base, i).0| == i
    ensures forall k :: 0 <= k < i ==> SameFrame(VisitFirst(v, inside, kids, base, i).0[k], kids[k], true)
    ensures (MarksFirst(VisitFirst(v, inside, kids, base, i).0, i), VisitFirst(v, inside, kids, base, i).1)
         == StepAll(v, inside, WalkFirst(kids, base, i, false), MarksFirst(kids, i))
    decreases kids, i
  {
    if i > 0 {
      VisitFirstIsStepAll(v, inside, kids, base, i - 1);
      var (a, in1) := VisitFirst(v, inside, kids, base, i - 1);
      VisitIsStepAll(v, in1, kids[i - 1], base + [i - 1]);
      var (n, in2) := VisitTree(v, in1, kids[i - 1], base + [i - 1]);
      assert (a + [n])[..i - 1] == a[..i - 1];
      MarksFirstPrefix(a + [n], a, i - 1);
      assert (a + [n])[i - 1] == n;
      StepAllConcat(v, inside, WalkFirst(kids, base, i - 1, false), MarksFirst(kids, i - 1),
                    Walk(kids[i - 1], base + [i - 1], false), PreMarks(kids[i - 1]));
    }
  }

  // ---------------------------------------------------------------------------------------
  // Select, unselect, toggle

  /** Toggling every item (INVERTALL) negates every mark and keeps the `inside` flag. */
  lemma {:induction false} ToggleAll(inside: int, ps: seq<Path>, ms: seq<bool>)
    requires |ps| == |ms|
    ensures |StepAll(SelectItems(-1), inside, ps, ms).0| == |ms|
    ensures forall j :: 0 <= j < |ms| ==> StepAll(SelectItems(-1), inside, ps, ms).0[j] == !ms[j]
    decreases |ps|
  {
    if |ps| > 0 {
      ToggleAll(inside, ps[1..], ms[1..]);
    }
  }

  /** Setting (1) or clearing (0) every item gives every item that mark. */
  lemma {:induction false} SetAll(select: int, inside: int, ps: seq<Path>, ms: seq<bool>)
    requires |ps| == |ms| && select != -1
    ensures |StepAll(SelectItems(select), inside, ps, ms).0| == |ms|
    ensures forall j :: 0 <= j < |ms| ==> StepAll(SelectItems(select), inside, ps, ms).0[j] == (select != 0)
    decreases |ps|
  {
    if |ps| > 0 {
      SetAll(select, inside, ps[1..], ms[1..]);
    }
  }

  lemma {:induction false} SameFrameTrans(a: Node, b: Node, c: Node, keepState: bool)
    requires SameFrame(a, b, keepState) && SameFrame(b, c, keepState)
    ensures SameFrame(a, c, keepState)
    decreases a
  {
    forall i | 0 <= i < |a.children| ensures SameFrame(a.children[i], c.children[i], keepState) {
      SameFrameTrans(a.children[i], b.children[i], c.children[i], keepState);
    }
  }

  lemma {:induction false} MarksLength(t: Node)
    ensures |PreMarks(t)| == Size(t)
    decreases t
  {
    MarksFirstLength(t.children, |t.children|);
  }

  lemma {:induction false} MarksFirstLength(kids: seq<Node>, i: nat)
    requires i <= |kids|
    ensures |MarksFirst(kids, i)| == SizeFirst(kids, i)
    decreases kids, i
  {
    if i > 0 {
      MarksFirstLength(kids, i - 1);
      MarksLength(kids[i - 1]);
    }
  }

  /** Two trees with the same frame and the same outline states are equal once their
      pre-order marks agree. */
  lemma {:induction false} MarksDetermine(a: Node, b: Node)
    requires SameFrame(a, b, true) && PreMarks(a) == PreMarks(b)
    ensures a == b
    decreases a
  {
    assert PreMarks(a)[1..] == MarksFirst(a.children, |a.children|);
    assert PreMarks(b)[1..] == MarksFirst(b.children, |b.children|);
    MarksFirstDetermine(a.children, b.children, |a.children|);
    assert a.children == a.children[..|a.children|];
    assert b.children == b.children[..|b.children|];
  }

  lemma {:induction false} MarksFirstDetermine(ka: seq<Node>, kb: seq<Node>, i: nat)
    requires i <= |ka| == |kb|
    requires forall k :: 0 <= k < |ka| ==> SameFrame(ka[k], kb[k], true)
    requires MarksFirst(ka, i) == MarksFirst(kb, i)
    ensures ka[..i] == kb[..i]
    decreases ka, i
  {
    if i > 0 {
      var x, y := MarksFirst(ka, i - 1), MarksFirst(kb, i - 1);
      MarksFirstLength(ka, i - 1);
      MarksFirstLength(kb, i - 1);
      SameFrameFirst(ka, kb, true, [], i - 1, false);
      assert |x| == |y|;
      assert x == MarksFirst(ka, i)[..|x|];
      assert y == MarksFirst(kb, i)[..|y|];
      assert PreMarks(ka[i - 1]) == MarksFirst(ka, i)[|x|..];
      assert PreMarks(kb[i - 1]) == MarksFirst(kb, i)[|y|..];
      MarksFirstDetermine(ka, kb, i - 1);
      MarksDetermine(ka[i - 1], kb[i - 1]);
      assert ka[..i] == ka[..i - 1] + [ka[i - 1]];
      assert kb[..i] == kb[..i - 1] + [kb[i - 1]];
    }
  }

  /** INVERTALL twice gives back the original sub-tree. */
  lemma ToggleTwice(t: Node, p: Path)
    ensures var t1 := VisitTree(SelectItems(-1), 0, t, p).0;
            VisitTree(SelectItems(-1), 0, t1, p).0 == t
  {
    var v := SelectItems(-1);
    var t1 := VisitTree(v, 0, t, p).0;
    var t2 := VisitTree(v, 0, t1, p).0;
    VisitIsStepAll(v, 0, t, p);
    VisitIsStepAll(v, 0, t1, p);
    SameFrameWalk(t1, t, true, p, false);
    SameFrameTrans(t2, t1, t, true);
    ToggleAll(0, Walk(t, p, false), PreMarks(t));
    ToggleAll(0, Walk(t1, p, false), PreMarks(t1));
    MarksDetermine(t2, t);
  }

  // ---------------------------------------------------------------------------------------
  // Range selection

  /** How many of the two endpoints occur in `s` (an endpoint named twice counts once). */
  function Seen(i1: Path, i2: Path, s: seq<Path>): nat
  {
    (if i1 in s then 1 else 0) + (if i2 != i1 && i2 in s then 1 else 0)
  }

  /** The range's `inside` flag once the items `s` have been visited. */
  function Phase(i1: Path, i2: Path, s: seq<Path>): int
  {
    var n := Seen(i1, i2, s);
    if n == 0 then 0 else if n == 1 && i1 != i2 then 1 else -1
  }

  /** The new mark of item `p` (old mark `m`) when the items `s` come before it. */
  function RangeRule(i1: Path, i2: Path, clear: bool, s: seq<Path>, p: Path, m: bool): bool
  {
    p == i1 || p == i2 || Phase(i1, i2, s) == 1 || (!clear && m)
  }

  /** One visit, read in terms of the items visited before: the flag follows `Phase` and the
      mark follows `RangeRule`, provided the item was not visited before. */
  lemma RangeStep(i1: Path, i2: Path, clear: bool, s: seq<Path>, p: Path, m: bool)
    requires p !in s
    ensures Step(SelectRange(i1, i2, clear), Phase(i1, i2, s), p, m)
         == (Phase(i1, i2, s + [p]), RangeRule(i1, i2, clear, s, p, m))
  {
    assert i1 in s + [p] <==> i1 in s || i1 == p;
    assert i2 in s + [p] <==> i2 in s || i2 == p;
  }

  lemma {:induction false} RangeFrom(i1: Path, i2: Path, clear: bool, all: seq<Path>, ms: seq<bool>, n: nat)
    requires Distinct(all) && |all| == |ms| && n <= |all|
    ensures var (r, out) := StepAll(SelectRange(i1, i2, clear), Phase(i1, i2, all[..n]), all[n..], ms[n..]);
            |r| == |all| - n && out == Phase(i1, i2, all) &&
            forall j :: n <= j < |all| ==> r[j - n] == RangeRule(i1, i2, clear, all[..j], all[j], ms[j])
    decreases |all| - n
  {
    var v := SelectRange(i1, i2, clear);
    if n == |all| {
      assert all[..n] == all;
    } else {
      var s := all[..n];
      var p := all[n];
      assert all[..n + 1] == s + [p];
      assert p !in s by {
        assert forall k :: 0 <= k < n ==> s[k] == all[k];
      }
      RangeStep(i1, i2, clear, s, p, ms[n]);
      var in1, m := Phase(i1, i2, s + [p]), RangeRule(i1, i2, clear, s, p, ms[n]);
      RangeFrom(i1, i2, clear, all, ms, n + 1);
      var (rest, out) := StepAll(v, in1, all[n + 1..], ms[n + 1..]);
      assert all[n..][1..] == all[n + 1..];
      assert ms[n..][1..] == ms[n + 1..];
      assert StepAll(v, Phase(i1, i2, s), all[n..], ms[n..]) == ([m] + rest, out);
      forall j | n <= j < |all|
        ensures ([m] + rest)[j - n] == RangeRule(i1, i2, clear, all[..j], all[j], ms[j])
      {
        if j > n {
          assert ([m] + rest)[j - n] == rest[j - (n + 1)];
        }
      }
    }
  }

  /** Range selection, in general: an item ends up marked iff it is an endpoint, or exactly one
      of two different endpoints comes before it, or (without `clear`) it was marked. */
  lemma RangeMarks(i1: Path, i2: Path, clear: bool, ps: seq<Path>, ms: seq<bool>)
    requires Distinct(ps) && |ps| == |ms|
    ensures var r := StepAll(SelectRange(i1, i2, clear), 0, ps, ms).0;
            |r| == |ps| &&
            forall j :: 0 <= j < |ps| ==> r[j] == RangeRule(i1, i2, clear, ps[..j], ps[j], ms[j])
  {
    RangeFrom(i1, i2, clear, ps, ms, 0);
    assert ps[0..] == ps && ms[0..] == ms;
  }

  /** Range selection between two items of the walk: exactly the items from the earlier endpoint
      to the later one, both included, are marked; the others are unmarked when `clear` is set
      and keep their mark otherwise. Equal endpoints mark that one item. */
  lemma RangeBetween(i1: Path, i2: Path, clear: bool, ps: seq<Path>, ms: seq<bool>)
    requires Distinct(ps) && |ps| == |ms| && i1 in ps && i2 in ps
    ensures var lo, hi := Min(IndexOf(ps, i1), IndexOf(ps, i2)), Max(IndexOf(ps, i1), IndexOf(ps, i2));
            var r := StepAll(SelectRange(i1, i2, clear), 0, ps, ms).0;
            |r| == |ps| &&
            forall j :: 0 <= j < |ps| ==> r[j] == ((lo <= j <= hi) || (!clear && ms[j]))
  {
    RangeMarks(i1, i2, clear, ps, ms);
    var a, b := IndexOf(ps, i1), IndexOf(ps, i2);
    forall j | 0 <= j < |ps|
      ensures (ps[j] == i1 <==> j == a) && (ps[j] == i2 <==> j == b)
      ensures (i1 in ps[..j] <==> a < j) && (i2 in ps[..j] <==> b < j)
    {
      IndexOfDistinct(ps, j);
      InPrefix(ps, i1, j);
      InPrefix(ps, i2, j);
    }
  }

  lemma InPrefix(ps: seq<Path>, x: Path, j: nat)
    requires Distinct(ps) && x in ps && j <= |ps|
    ensures x in ps[..j] <==> IndexOf(ps, x) < j
  {
    var k := IndexOf(ps, x);
    if x in ps[..j] {
      var i :| 0 <= i < j && ps[..j][i] == x;
      IndexOfDistinct(ps, i);
    }
    assert k < j ==> ps[..j][k] == x;
  }

  function Min(a: int, b: int): int { if a <= b then a else b }
  function Max(a: int, b: int): int { if a <= b then b else a }

  // ---------------------------------------------------------------------------------------
  // Expand all, collapse all

  lemma {:induction false} OutlinedFirstAt(kids: seq<Node>, i: nat, s: Outline, k: nat)
    requires k < i <= |kids|
    ensures OutlinedFirst(kids, i, s)[k] == Outlined(kids[k], s)
    decreases i
  {
    if k < i - 1 {
      OutlinedFirstAt(kids, i - 1, s, k);
    }
  }

  /** Setting outline states moves no item and touches no mark. */
  lemma {:induction false} OutlinedFrame(t: Node, s: Outline)
    ensures SameFrame(Outlined(t, s), t, false)
    ensures PreMarks(Outlined(t, s)) == PreMarks(t)
    ensures s == Expanded ==> AllOpen(Outlined(t, s))
    ensures s == Collapsed ==> (|t.children| > 0 ==> Outlined(t, s).state == Collapsed)
    decreases t
  {
    var u := Outlined(t, s);
    forall i | 0 <= i < |t.children|
      ensures u.children[i] == Outlined(t.children[i], s)
      ensures SameFrame(u.children[i], t.children[i], false)
      ensures s == Expanded ==> AllOpen(u.children[i])
    {
      OutlinedFirstAt(t.children, |t.children|, s, i);
      OutlinedFrame(t.children[i], s);
    }
    OutlinedMarks(t.children, |t.children|, s);
  }

  lemma {:induction false} OutlinedMarks(kids: seq<Node>, i: nat, s: Outline)
    requires i <= |kids|
    ensures MarksFirst(OutlinedFirst(kids, i, s), i) == MarksFirst(kids, i)
    decreases kids, i
  {
    if i > 0 {
      var a := OutlinedFirst(kids, i - 1, s);
      OutlinedMarks(kids, i - 1, s);
      OutlinedFrame(kids[i - 1], s);
      assert (a + [Outlined(kids[i - 1], s)])[..i - 1] == a[..i - 1];
      MarksFirstPrefix(a + [Outlined(kids[i - 1], s)], a, i - 1);
    }
  }

  /** EXPANDALL=yes: every item becomes visible, so the visible walk is the id walk. */
  lemma ExpandAllShowsAll(t: Node, p: Path)
    ensures Walk(Outlined(t, Expanded), p, true) == Walk(t, p, false)
  {
    OutlinedFrame(t, Expanded);
    AllOpenAllVisible(Outlined(t, Expanded), p);
    SameFrameWalk(Outlined(t, Expanded), t, false, p, false);
  }

  /** An item that is collapsed (or has no children) shows only itself. */
  lemma ClosedShowsSelf(t: Node, p: Path)
    requires |t.children| > 0 ==> t.state == Collapsed
    ensures Walk(t, p, true) == [p]
  {
    if |t.children| == 0 {
      assert WalkFirst(t.children, p, 0, true) == [];
    }
  }

  /** EXPANDALL=no, followed by re-expanding the root: exactly the root and its direct children
      stay visible, in child order. */
  lemma CollapseAllShowsTop(t: Node, p: Path)
    ensures var u := Outlined(t, Collapsed).(state := Expanded);
            Walk(u, p, true) == [p] + seq(|t.children|, i requires 0 <= i < |t.children| => p + [i])
  {
    var u := Outlined(t, Collapsed).(state := Expanded);
    forall i | 0 <= i < |t.children|
      ensures u.children[i] == Outlined(t.children[i], Collapsed)
      ensures Walk(u.children[i], p + [i], true) == [p + [i]]
    {
      OutlinedFirstAt(t.children, |t.children|, Collapsed, i);
      OutlinedFrame(t.children[i], Collapsed);
      ClosedShowsSelf(u.children[i], p + [i]);
    }
    TopOnly(u.children, p, |u.children|);
  }

  lemma {:induction false} TopOnly(kids: seq<Node>, base: Path, i: nat)
    requires i <= |kids|
    requires forall k :: 0 <= k < |kids| ==> Walk(kids[k], base + [k], true) == [base + [k]]
    ensures WalkFirst(kids, base, i, true) == seq(i, k requires 0 <= k < i => base + [k])
    decreases i
  {
    if i > 0 {
      TopOnly(kids, base, i - 1);
    }
  }
}
