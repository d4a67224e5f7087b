/** What the attribute handlers of the Motif tree driver compute, as functions of the
    container's items: which item a node reference names, where VALUE moves the focus, what a
    MARK command, an insertion, a move or a delete leaves. The driver's methods in `MotTree` are
    proved against these functions; the lemmas here state what the functions promise. */
module MotTreeSpec {
  import opened Wrappers
  import opened OutlineTree
  import opened OutlineEdit
  import opened OutlineMarks

  datatype MarkMode = MarkSingle | MarkMultiple

  /** A node reference as the attribute string reads: empty (the focus item), a number, or
      text that is not a number, in which case the search starts from whatever value the id
      counter still holds. */
  datatype NodeRef = FocusRef | IdRef(id: int) | Unparsed

  /** The value of MARK (also tried first for VALUE), as the driver classifies it. */
  datatype MarkCmd = ClearAll | MarkAll | InvertAll | Invert(node: NodeRef) | Block
                   | RangeOf(first: NodeRef, last: NodeRef) | NotMark

  /** The value of VALUE when it is not a mark command. */
  datatype NavCmd = Root | Last | PgUp | PgDn | Next | Previous | NodeAt(node: NodeRef)

  // ---------------------------------------------------------------------------------------
  // Items, ids and references

  predicate IsItemOf(items: seq<Node>, x: Path)
  {
    |x| >= 1 && SubAt(Container(items), x).Some?
  }

  function ItemAt(items: seq<Node>, x: Path): Node
    requires IsItemOf(items, x)
  {
    SubAt(Container(items), x).value
  }

  /** The items of the root sub-tree in id order. */
  function IdWalk(items: seq<Node>): seq<Path>
    requires |items| >= 1
  {
    Walk(items[0], [0], false)
  }

  /** The visible items of the root sub-tree, in order. */
  function ShownWalk(items: seq<Node>): seq<Path>
    requires |items| >= 1
  {
    Walk(items[0], [0], true)
  }

  /** Containers with the same frame have the same ids and the same visible items. */
  lemma FrameKeepsIds(a: seq<Node>, b: seq<Node>)
    requires |b| >= 1 && SameFrame(Container(a), Container(b), true)
    ensures |a| == |b| && IdWalk(a) == IdWalk(b) && ShownWalk(a) == ShownWalk(b)
  {
    SameFrameWalk(a[0], b[0], true, [0], false);
    SameFrameWalk(a[0], b[0], true, [0], true);
  }

  /** The focus item, when the recorded one is still an item. */
  function FocusOf(items: seq<Node>, focus: Option<Path>): Option<Path>
  {
    if focus.Some? && IsItemOf(items, focus.value) then focus else None
  }

  /** The value the id counter holds when a search by id starts. */
  function RefId(ref: NodeRef, counter: int): int
  {
    if ref.IdRef? then ref.id else counter
  }

  /** The id counter after a search by id `id` in the walk `s`: -1 when an id from 0 on was
      found, one less than `id` when a negative id found the first entry, and what is left of
      `id` when the walk ran out. */
  function LookupCounter(s: seq<Path>, id: int): int
  {
    if |s| > 0 && id < |s| then (if id < 0 then id - 1 else -1) else id - |s|
  }

  /** A search by id over `a + b` that gets past `a` continues in `b` with the counter reduced
      by `|a|`. */
  lemma LookupPast(a: seq<Path>, b: seq<Path>, c: int)
    requires c >= |a| || |a| == 0
    ensures IdLookup(a + b, c) == IdLookup(b, c - |a|)
    ensures LookupCounter(a + b, c) == LookupCounter(b, c - |a|)
  {
    if |a| == 0 {
      assert a + b == b;
    } else if c < |a + b| {
      assert (a + b)[c] == b[c - |a|];
    }
  }

  /** A search by id that stops inside `a` finds the same entry in `a + b`. */
  lemma LookupWithin(a: seq<Path>, b: seq<Path>, c: int)
    requires 0 <= c < |a|
    ensures IdLookup(a + b, c) == IdLookup(a, c) && LookupCounter(a + b, c) == LookupCounter(a, c)
  {
    assert (a + b)[c] == a[c];
  }

  /** A counter at zero or below stops at the first entry. */
  lemma LookupHead(x: Path, m: seq<Path>, c: int)
    requires c <= 0
    ensures IdLookup([x] + m, c) == Some(x) && LookupCounter([x] + m, c) == c - 1
  {
  }

  /** The item a node reference names. */
  function Resolve(items: seq<Node>, focus: Option<Path>, counter: int, ref: NodeRef): Option<Path>
    requires |items| >= 1
  {
    if ref.FocusRef? then FocusOf(items, focus) else IdLookup(IdWalk(items), RefId(ref, counter))
  }

  /** The id counter once a node reference has been resolved. */
  function CounterAfter(items: seq<Node>, counter: int, ref: NodeRef): int
    requires |items| >= 1
  {
    if ref.FocusRef? then counter else LookupCounter(IdWalk(items), RefId(ref, counter))
  }

  /** A reference names an item; one given by id names an item of the root sub-tree. */
  lemma ResolveIsItem(items: seq<Node>, focus: Option<Path>, counter: int, ref: NodeRef)
    requires |items| >= 1
    ensures var r := Resolve(items, focus, counter, ref);
            r.Some? ==> IsItemOf(items, r.value) && (ref.FocusRef? || r.value in IdWalk(items))
  {
    var r := Resolve(items, focus, counter, ref);
    if r.Some? && !ref.FocusRef? {
      WalkInContainer(items, 0, false, r.value);
    }
  }

  /** An item of the root sub-tree, referred to by its id, is found again. */
  lemma ResolveRoundTrip(items: seq<Node>, focus: Option<Path>, counter: int, x: Path)
    requires |items| >= 1 && x in IdWalk(items)
    ensures Resolve(items, focus, counter, IdRef(PosOf(IdWalk(items), x))) == Some(x)
  {
    WalkDistinct(items[0], [0], false);
    IdRoundTrip(IdWalk(items), x);
  }

  /** The ids run from 0 to the number of items of the root sub-tree minus one: each names the
      item whose id it is, and a larger id names nothing. */
  lemma ResolveIds(items: seq<Node>, focus: Option<Path>, counter: int, id: int)
    requires |items| >= 1
    ensures Resolve(items, focus, counter, IdRef(id)).Some? <==> id < Size(items[0])
    ensures 0 <= id < Size(items[0]) ==>
              PosOf(IdWalk(items), Resolve(items, focus, counter, IdRef(id)).value) == id
  {
    WalkDistinct(items[0], [0], false);
    PreLength(items[0], [0]);
    IdLookupInverse(IdWalk(items), id);
  }

  // ---------------------------------------------------------------------------------------
  // Marks

  /** The items once a visitor has walked the root sub-tree. */
  function Revisited(items: seq<Node>, v: Visitor): seq<Node>
    requires |items| >= 1
  {
    items[0 := VisitTree(v, 0, items[0], [0]).0]
  }

  /** A visitor changes marks only: the new marks of the root sub-tree are those of the flat
      walk over its id order, and every item keeps its place. */
  lemma RevisitedFrame(items: seq<Node>, v: Visitor)
    requires |items| >= 1
    ensures var r := Revisited(items, v);
            |r| == |items| && r[1..] == items[1..] &&
            SameFrame(Container(r), Container(items), true) &&
            (WellShaped(Container(r)) <==> WellShaped(Container(items))) &&
            |PreMarks(items[0])| == |IdWalk(items)| &&
            PreMarks(r[0]) == StepAll(v, 0, IdWalk(items), PreMarks(items[0])).0
  {
    var r := Revisited(items, v);
    VisitIsStepAll(v, 0, items[0], [0]);
    forall k | 0 <= k < |items| ensures SameFrame(r[k], items[k], true) {
      if k != 0 {
        SameFrameRefl(items[k], true);
      }
    }
    SameFrameWalk(Container(r), Container(items), true, [], false);
  }

  /** INVERTALL toggles every mark of the root sub-tree and leaves every other item alone. */
  lemma InvertAllToggles(items: seq<Node>)
    requires |items| >= 1
    ensures var r := Revisited(items, SelectItems(-1));
            r[1..] == items[1..] && |PreMarks(r[0])| == |PreMarks(items[0])| &&
            forall j :: 0 <= j < |PreMarks(r[0])| ==> PreMarks(r[0])[j] == !PreMarks(items[0])[j]
  {
    RevisitedFrame(items, SelectItems(-1));
    ToggleAll(0, IdWalk(items), PreMarks(items[0]));
  }

  /** Range marking between two items of the root sub-tree marks, in id order, exactly the
      items from the earlier one to the later one; the others keep their marks unless `clear`. */
  lemma RangeMarksBetween(items: seq<Node>, x1: Path, x2: Path, clear: bool)
    requires |items| >= 1 && x1 in IdWalk(items) && x2 in IdWalk(items)
    ensures var ps := IdWalk(items);
            var lo, hi := Min(IndexOf(ps, x1), IndexOf(ps, x2)), Max(IndexOf(ps, x1), IndexOf(ps, x2));
            var r := Revisited(items, SelectRange(x1, x2, clear));
            var ms, ms' := PreMarks(items[0]), PreMarks(r[0]);
            |ms'| == |ms| == |ps| &&
            forall j :: 0 <= j < |ps| ==> ms'[j] == ((lo <= j <= hi) || (!clear && ms[j]))
  {
    RevisitedFrame(items, SelectRange(x1, x2, clear));
    WalkDistinct(items[0], [0], false);
    RangeBetween(x1, x2, clear, IdWalk(items), PreMarks(items[0]));
  }

  /** Every item of the container with mark `b`. */
  function MarkEvery(items: seq<Node>, b: bool): seq<Node>
  {
    seq(|items|, k requires 0 <= k < |items| => VisitTree(SelectItems(if b then 1 else 0), 0, items[k], [k]).0)
  }

  lemma {:induction false} SelectKeepsInside(s: int, inside: int, t: Node, p: Path)
    ensures VisitTree(SelectItems(s), inside, t, p).1 == inside
    decreases t
  {
    SelectFirstKeepsInside(s, inside, t.children, p, |t.children|);
  }

  lemma {:induction false} SelectFirstKeepsInside(s: int, inside: int, kids: seq<Node>, base: Path, i: nat)
    requires i <= |kids|
    ensures VisitFirst(SelectItems(s), inside, kids, base, i).1 == inside
    ensures |VisitFirst(SelectItems(s), inside, kids, base, i).0| == i
    ensures forall k :: 0 <= k < i ==>
              VisitFirst(SelectItems(s), inside, kids, base, i).0[k] == VisitTree(SelectItems(s), inside, kids[k], base + [k]).0
    decreases kids, i
  {
    if i > 0 {
      SelectFirstKeepsInside(s, inside, kids, base, i - 1);
      SelectKeepsInside(s, inside, kids[i - 1], base + [i - 1]);
    }
  }

  /** Setting (1) or clearing (0) all marks gives every item of the sub-tree that mark. */
  lemma {:induction false} SelectSetsEach(s: int, inside: int, t: Node, p: Path, q: Path)
    requires s != -1 && SubAt(t, q).Some?
    ensures SubAt(VisitTree(SelectItems(s), inside, t, p).0, q).Some?
    ensures SubAt(VisitTree(SelectItems(s), inside, t, p).0, q).value.marked == (s != 0)
    decreases |q|
  {
    SelectFirstKeepsInside(s, inside, t.children, p, |t.children|);
    if q != [] {
      SelectSetsEach(s, inside, t.children[q[0]], p + [q[0]], q[1..]);
    }
  }

  /** CLEARALL and MARKALL keep every item in place and give every item the mark `b`. */
  lemma MarkEveryMarks(items: seq<Node>, b: bool)
    ensures SameFrame(Container(MarkEvery(items, b)), Container(items), true)
    ensures WellShaped(Container(MarkEvery(items, b))) <==> WellShaped(Container(items))
    ensures forall y :: IsItemOf(items, y) ==>
              IsItemOf(MarkEvery(items, b), y) && ItemAt(MarkEvery(items, b), y).marked == b
  {
    var r := MarkEvery(items, b);
    forall k | 0 <= k < |items| ensures SameFrame(r[k], items[k], true) {
      VisitIsStepAll(SelectItems(if b then 1 else 0), 0, items[k], [k]);
    }
    SameFrameWalk(Container(r), Container(items), true, [], false);
    forall y | IsItemOf(items, y) ensures IsItemOf(r, y) && ItemAt(r, y).marked == b {
      SelectSetsEach(if b then 1 else 0, 0, items[y[0]], [y[0]], y[1..]);
    }
  }

  /** The items with the mark of item `x` set to `b`. */
  function WithMark(items: seq<Node>, x: Path, b: bool): seq<Node>
  {
    if IsItemOf(items, x) then ReplaceIn(Container(items), x, ItemAt(items, x).(marked := b)).children
    else items
  }

  /** Replacing an item by one with the same frame keeps the frame of the whole tree. */
  lemma {:induction false} ReplaceFrame(c: Node, x: Path, n: Node)
    requires SubAt(c, x).Some? && SameFrame(n, SubAt(c, x).value, true)
    ensures SameFrame(ReplaceIn(c, x, n), c, true)
    decreases |x|
  {
    if x != [] {
      ReplaceFrame(c.children[x[0]], x[1..], n);
      forall i | 0 <= i < |c.children| ensures SameFrame(ReplaceIn(c, x, n).children[i], c.children[i], true) {
        if i != x[0] {
          SameFrameRefl(c.children[i], true);
        }
      }
    }
  }

  /** WithMark sets the mark of `x` and of no other item. */
  lemma WithMarkSets(items: seq<Node>, x: Path, b: bool)
    requires IsItemOf(items, x)
    ensures var r := WithMark(items, x, b);
            SameFrame(Container(r), Container(items), true) &&
            (WellShaped(Container(r)) <==> WellShaped(Container(items))) &&
            IsItemOf(r, x) && ItemAt(r, x).marked == b &&
            forall y :: IsItemOf(items, y) && y != x ==> IsItemOf(r, y) && ItemAt(r, y).marked == ItemAt(items, y).marked
  {
    var c := Container(items);
    var n := ItemAt(items, x).(marked := b);
    SameFrameRefl(ItemAt(items, x), true);
    ReplaceFrame(c, x, n);
    ReplacePlaces(c, x, n);
    var c' := ReplaceIn(c, x, n);
    assert c' == Container(c'.children);
    SameFrameWalk(c', c, true, [], false);
    forall y | IsItemOf(items, y) && y != x
      ensures IsItemOf(WithMark(items, x, b), y)
      ensures ItemAt(WithMark(items, x, b), y).marked == ItemAt(items, y).marked
    {
      ReplaceMarkOthers(c, x, b, y);
    }
  }

  /** The items with every mark cleared and then item `x` marked. */
  function MarkOnly(items: seq<Node>, x: Path): seq<Node>
  {
    WithMark(MarkEvery(items, false), x, true)
  }

  /** After MarkOnly, `x` is the one marked item. */
  lemma MarkOnlyMarks(items: seq<Node>, x: Path)
    requires IsItemOf(items, x)
    ensures var r := MarkOnly(items, x);
            SameFrame(Container(r), Container(items), true) &&
            (WellShaped(Container(r)) <==> WellShaped(Container(items))) &&
            forall y :: IsItemOf(items, y) ==> IsItemOf(r, y) && (ItemAt(r, y).marked <==> y == x)
  {
    var cleared := MarkEvery(items, false);
    MarkEveryMarks(items, false);
    WithMarkSets(cleared, x, true);
    SameFrameTrans(Container(MarkOnly(items, x)), Container(cleared), Container(items), true);
  }

  /** What a MARK value does in the given mark mode: whether it applied, the items it leaves and
      the id counter it leaves. */
  function MarkOutcome(items: seq<Node>, focus: Option<Path>, markStart: Option<Path>, counter: int,
                       mode: MarkMode, cmd: MarkCmd): (bool, seq<Node>, int)
    requires |items| >= 1
  {
    if mode == MarkSingle then (false, items, counter)
    else
      match cmd
      case ClearAll => (true, MarkEvery(items, false), counter)
      case MarkAll => (true, MarkEvery(items, true), counter)
      case InvertAll => (true, Revisited(items, SelectItems(-1)), counter)
      case Invert(node) =>
        var x := Resolve(items, focus, counter, node);
        var c := CounterAfter(items, counter, node);
        if x.None? then (false, items, c)
        else
          ResolveIsItem(items, focus, counter, node);
          (true, WithMark(items, x.value, !ItemAt(items, x.value).marked), c)
      case Block =>
        var f := FocusOf(items, focus);
        if f.None? || markStart.None? then (false, items, counter)
        else (true, Revisited(items, SelectRange(f.value, markStart.value, false)), counter)
      case RangeOf(first, last) =>
        var x1 := Resolve(items, focus, counter, first);
        var c1 := CounterAfter(items, counter, first);
        if x1.None? then (false, items, c1)
        else
          var x2 := Resolve(items, focus, c1, last);
          var c2 := CounterAfter(items, c1, last);
          if x2.None? then (false, items, c2)
          else (true, Revisited(items, SelectRange(x1.value, x2.value, false)), c2)
      case NotMark => (false, items, counter)
  }

  /** A MARK value changes marks only, never the items, their places, their ids or which of
      them are visible; a value that does not apply changes nothing. */
  lemma MarkOutcomeFrame(items: seq<Node>, focus: Option<Path>, markStart: Option<Path>, counter: int,
                         mode: MarkMode, cmd: MarkCmd)
    requires |items| >= 1
    ensures var r := MarkOutcome(items, focus, markStart, counter, mode, cmd);
            |r.1| == |items| && SameFrame(Container(r.1), Container(items), true) &&
            (WellShaped(Container(r.1)) <==> WellShaped(Container(items))) &&
            IdWalk(r.1) == IdWalk(items) && ShownWalk(r.1) == ShownWalk(items) &&
            (!r.0 ==> r.1 == items)
  {
    var r := MarkOutcome(items, focus, markStart, counter, mode, cmd);
    if !r.0 {
      SameFrameRefl(Container(items), true);
    } else {
      match cmd
      case ClearAll => MarkEveryMarks(items, false);
      case MarkAll => MarkEveryMarks(items, true);
      case InvertAll => RevisitedFrame(items, SelectItems(-1));
      case Invert(node) =>
        var x := Resolve(items, focus, counter, node);
        ResolveIsItem(items, focus, counter, node);
        WithMarkSets(items, x.value, !ItemAt(items, x.value).marked);
      case Block =>
        var f := FocusOf(items, focus);
        RevisitedFrame(items, SelectRange(f.value, markStart.value, false));
      case RangeOf(first, last) =>
        var x1 := Resolve(items, focus, counter, first);
        var x2 := Resolve(items, focus, CounterAfter(items, counter, first), last);
        RevisitedFrame(items, SelectRange(x1.value, x2.value, false));
      case NotMark =>
    }
    FrameKeepsIds(r.1, items);
  }

  /** INVERT toggles the mark of the item it names and of no other. */
  lemma InvertToggles(items: seq<Node>, focus: Option<Path>, markStart: Option<Path>, counter: int, node: NodeRef)
    requires |items| >= 1
    ensures var x := Resolve(items, focus, counter, node);
            var r := MarkOutcome(items, focus, markStart, counter, MarkMultiple, Invert(node));
            (r.0 <==> x.Some?) &&
            (r.0 ==> IsItemOf(r.1, x.value) && ItemAt(r.1, x.value).marked == !ItemAt(items, x.value).marked &&
                     forall y :: IsItemOf(items, y) && y != x.value ==>
                                   IsItemOf(r.1, y) && ItemAt(r.1, y).marked == ItemAt(items, y).marked)
  {
    var x := Resolve(items, focus, counter, node);
    ResolveIsItem(items, focus, counter, node);
    if x.Some? {
      WithMarkSets(items, x.value, !ItemAt(items, x.value).marked);
    }
  }

  // ---------------------------------------------------------------------------------------
  // Navigation

  /** The item VALUE moves the focus to; `None` when there is no focus to move from or the
      reference names nothing. */
  function NavTarget(items: seq<Node>, focus: Option<Path>, counter: int, nav: NavCmd): Option<Path>
    requires |items| >= 1
  {
    var f := FocusOf(items, focus);
    var shown := ShownWalk(items);
    match nav
    case Root => Some([0])
    case Last => Some(LastVisible(items[0], [0]))
    case PgUp => if f.None? then None else Some(NavStep(shown, f.value, -10))
    case PgDn => if f.None? then None else Some(NavStep(shown, f.value, 10))
    case Next => if f.None? then None else Some(NavStep(shown, f.value, 1))
    case Previous => if f.None? then None else Some(NavStep(shown, f.value, -1))
    case NodeAt(ref) => Resolve(items, focus, counter, ref)
  }

  /** Every navigation lands on an item; all the keyword moves land on a visible one, and all but
      a reference to the focus land in the root sub-tree. */
  lemma NavTargetIsItem(items: seq<Node>, focus: Option<Path>, counter: int, nav: NavCmd)
    requires |items| >= 1
    ensures var t := NavTarget(items, focus, counter, nav);
            t.Some? ==> IsItemOf(items, t.value) &&
                        (nav.NodeAt? || t.value in ShownWalk(items)) &&
                        (nav == NodeAt(FocusRef) || t.value in IdWalk(items))
  {
    var t := NavTarget(items, focus, counter, nav);
    if nav.NodeAt? {
      ResolveIsItem(items, focus, counter, nav.node);
    } else if t.Some? {
      assert t.value in ShownWalk(items) by {
        assert ShownWalk(items)[0] == [0];
      }
      WalkInContainer(items, 0, true, t.value);
      WalkNamesItems(items[0], [0], true, t.value);
      ItemsHaveIds(items[0], [0], t.value[1..]);
      assert t.value == [0] + t.value[1..];
    }
  }

  /** NEXT and PREVIOUS undo each other away from the ends of the visible items, and so do PGDN
      and PGUP. */
  lemma NavBackAndForth(items: seq<Node>, x: Path, delta: int)
    requires |items| >= 1 && x in ShownWalk(items)
    requires 0 <= PosOf(ShownWalk(items), x) + delta < |ShownWalk(items)|
    ensures NavStep(ShownWalk(items), NavStep(ShownWalk(items), x, delta), -delta) == x
  {
    WalkDistinct(items[0], [0], true);
    NavStepBack(ShownWalk(items), x, delta);
  }

  /** The state VALUE leaves once it moves the focus: the items, the focus, the id counter and
      the id recorded as the old value (`None`: left as it was). */
  function FocusMove(items: seq<Node>, focus: Option<Path>, counter: int, mode: MarkMode, nav: NavCmd)
    : (seq<Node>, Option<Path>, int, Option<int>)
    requires |items| >= 1
  {
    var t := NavTarget(items, focus, counter, nav);
    if t.None? then
      (items, focus, if nav.NodeAt? then CounterAfter(items, counter, nav.node) else counter, None)
    else
      var id := PosOf(IdWalk(items), t.value);
      (if mode == MarkSingle then MarkOnly(items, t.value) else items, t, id, Some(id))
  }

  /** Moving the focus changes no item's place or id; the new focus is an item, the old value
      is its id, and in single-selection mode it is the one marked item. */
  lemma FocusMoveMarks(items: seq<Node>, focus: Option<Path>, counter: int, mode: MarkMode, nav: NavCmd)
    requires |items| >= 1 && WellShaped(Container(items))
    ensures var r := FocusMove(items, focus, counter, mode, nav);
            |r.0| >= 1 && WellShaped(Container(r.0)) && SameFrame(Container(r.0), Container(items), true) &&
            IdWalk(r.0) == IdWalk(items) &&
            (r.3.None? ==> r.0 == items && r.1 == focus) &&
            (r.3.Some? ==> r.1.Some? && IsItemOf(r.0, r.1.value) && r.3.value == PosOf(IdWalk(r.0), r.1.value) &&
                           (mode == MarkSingle ==> forall y :: IsItemOf(r.0, y) ==> (ItemAt(r.0, y).marked <==> y == r.1.value)))
  {
    var r := FocusMove(items, focus, counter, mode, nav);
    var t := NavTarget(items, focus, counter, nav);
    NavTargetIsItem(items, focus, counter, nav);
    if t.None? || mode == MarkMultiple {
      SameFrameRefl(Container(items), true);
    } else {
      MarkOnlyMarks(items, t.value);
      forall y | IsItemOf(r.0, y) ensures IsItemOf(items, y) {
        SameFrameSubAt(Container(r.0), Container(items), true, y);
      }
    }
    FrameKeepsIds(r.0, items);
  }

  // ---------------------------------------------------------------------------------------
  // Outline state

  /** The root sub-tree after EXPANDALL: every item with children expanded, or every one
      collapsed and the root expanded again. */
  function AllOutlined(t: Node, expand: bool): Node
  {
    if expand then Outlined(t, Expanded) else Outlined(t, Collapsed).(state := Expanded)
  }

  /** EXPANDALL changes outline states only; expanding shows every item of the root sub-tree and
      collapsing shows the root and its children only. */
  lemma AllOutlinedShows(t: Node, expand: bool)
    ensures SameFrame(AllOutlined(t, expand), t, false)
    ensures PreMarks(AllOutlined(t, expand)) == PreMarks(t)
    ensures expand ==> Walk(AllOutlined(t, expand), [0], true) == Walk(t, [0], false)
    ensures !expand ==> Walk(AllOutlined(t, expand), [0], true)
                        == [[0]] + seq(|t.children|, i requires 0 <= i < |t.children| => [0] + [i])
    ensures AllOutlined(t, expand).state == Expanded || |t.children| == 0
  {
    OutlinedFrame(t, if expand then Expanded else Collapsed);
    if expand {
      ExpandAllShowsAll(t, [0]);
    } else {
      var u := Outlined(t, Collapsed);
      SameFrameRefl(u, false);
      SameFrameTrans(u.(state := Expanded), u, t, false);
      CollapseAllShowsTop(t, [0]);
    }
  }

  // ---------------------------------------------------------------------------------------
  // Adding items

  /** The items once the root is set expanded, as the driver does after every insertion. */
  function ExpandRoot(items: seq<Node>): seq<Node>
    requires |items| >= 1
  {
    items[0 := items[0].(state := Expanded)]
  }

  /** Setting the root expanded changes nothing but the root's state. */
  lemma ExpandRootKeeps(items: seq<Node>)
    requires |items| >= 1
    ensures SameFrame(Container(ExpandRoot(items)), Container(items), false)
    ensures Size(Container(ExpandRoot(items))) == Size(Container(items))
    ensures WellShaped(Container(ExpandRoot(items))) <==> WellShaped(Container(items))
    ensures forall x :: IsItemOf(items, x) && x != [0] ==> SubAt(Container(ExpandRoot(items)), x) == SubAt(Container(items), x)
  {
    SetStateFrame(items, 0, Expanded);
    SameFrameWalk(Container(ExpandRoot(items)), Container(items), false, [], false);
    forall x | IsItemOf(items, x) && x != [0]
      ensures SubAt(Container(ExpandRoot(items)), x) == SubAt(Container(items), x)
    {
      if x[0] == 0 {
        assert |x| != 1 by {
          HeadPrefix(x, [0]);
        }
      }
    }
  }

  /** A new item: a branch is expanded when new branches are added expanded, any other item is
      collapsed; it is unmarked and has no user data. */
  function NewItem(kind: Kind, title: string, expandNew: bool): Node
  {
    Node(kind, if kind == Branch && expandNew then Expanded else Collapsed, false, title, 0, [])
  }

  /** Where a new item goes, next to the reference item `prev`: first child of a branch when
      `add` is set, otherwise right after `prev` among its siblings. */
  function AddPoint(items: seq<Node>, prev: Path, add: bool): (Path, nat)
    requires IsItemOf(items, prev)
  {
    if ItemAt(items, prev).kind == Branch && add then (prev, 0)
    else (prev[..|prev| - 1], prev[|prev| - 1] + 1)
  }

  /** The insertion point is a child slot of a branch (or of the container itself). */
  lemma AddPointValid(items: seq<Node>, prev: Path, add: bool)
    requires WellShaped(Container(items)) && IsItemOf(items, prev)
    ensures var (q, pos) := AddPoint(items, prev, add);
            CanInsert(Container(items), q, pos) && SubAt(Container(items), q).value.kind == Branch &&
            q + [pos] != [0]
  {
    var c := Container(items);
    ParentOf(c, prev);
    var (q, pos) := AddPoint(items, prev, add);
    if |q| != |prev| {
      ParentIsBranch(c, q);
      assert (q + [pos])[|q|] == pos;
    }
  }

  /** The items after `n` is added next to `prev`. */
  function Added(items: seq<Node>, prev: Path, n: Node, add: bool): seq<Node>
  {
    if WellShaped(Container(items)) && IsItemOf(items, prev) then
      AddPointValid(items, prev, add);
      var (q, pos) := AddPoint(items, prev, add);
      InsertSize(Container(items), q, pos, n);
      NonEmptyBySize(InsertIn(Container(items), q, pos, n).children);
      ExpandRoot(InsertIn(Container(items), q, pos, n).children)
    else items
  }

  /** Shifting never turns another path into the root's. */
  lemma ShiftNotRoot(x: Path, q: Path, pos: nat)
    requires |x| >= 1 && x != [0]
    ensures |Shift(x, q, pos)| == |x| && Shift(x, q, pos) != [0]
  {
    var y := Shift(x, q, pos);
    if |x| == 1 {
      assert x == [x[0]] && y == [y[0]];
    }
  }

  /** Adding puts the new item at the insertion point, keeps every other item (at its shifted
      path, and the root apart from its outline state), adds the new item to the count and leaves
      the root expanded. */
  lemma AddedPlaces(items: seq<Node>, prev: Path, n: Node, add: bool)
    requires WellShaped(Container(items)) && IsItemOf(items, prev) && WellShaped(n)
    ensures var r := Added(items, prev, n, add);
            var (q, pos) := AddPoint(items, prev, add);
            |r| >= 1 && WellShaped(Container(r)) && r[0].state == Expanded &&
            Size(Container(r)) == Size(Container(items)) + Size(n) &&
            IsItemOf(r, q + [pos]) && ItemAt(r, q + [pos]) == n &&
            forall x :: IsItemOf(items, x) && x != [0] && !HasPrefix(q, x) ==>
              SubAt(Container(r), Shift(x, q, pos)) == SubAt(Container(items), x)
  {
    var c := Container(items);
    AddPointValid(items, prev, add);
    var (q, pos) := AddPoint(items, prev, add);
    InsertShaped(c, q, pos, n);
    InsertSize(c, q, pos, n);
    InsertPlaces(c, q, pos, n);
    var c' := InsertIn(c, q, pos, n);
    assert c' == Container(c'.children);
    NonEmptyBySize(c'.children);
    ExpandRootKeeps(c'.children);
    forall x | IsItemOf(items, x) && x != [0] && !HasPrefix(q, x)
      ensures SubAt(Container(Added(items, prev, n, add)), Shift(x, q, pos)) == SubAt(c, x)
    {
      InsertKeeps(c, q, pos, n, x);
      ShiftNotRoot(x, q, pos);
    }
  }

  /** INSERT* next to a top-level item: the new item is a top-level item right after it. */
  lemma AddedBesideTop(items: seq<Node>, k: nat, n: Node)
    requires WellShaped(Container(items)) && k < |items|
    ensures var r := Added(items, [k], n, false);
            |r| == |items| + 1 && r[k + 1] == n
  {
    assert IsItemOf(items, [k]);
    var r := Added(items, [k], n, false);
    var (q, pos) := AddPoint(items, [k], false);
    assert q == [] && pos == k + 1;
    if k + 1 != 0 {
      assert r[k + 1] == (items[..k + 1] + [n] + items[k + 1..])[k + 1];
    }
  }

  // ---------------------------------------------------------------------------------------
  // Moving a sub-tree

  /** The MOVENODE guard as the driver writes it: it walks up from the destination and refuses
      when it meets the source, so it refuses exactly when the source is a proper ancestor of the
      destination. */
  predicate MoveBlockedAsWritten(src: Path, dst: Path)
  {
    1 <= |src| < |dst| && dst[..|src|] == src
  }

  /** The guard the drag-and-drop path uses: it refuses when the source is the destination or
      one of its ancestors. */
  predicate MoveBlocked(src: Path, dst: Path)
  {
    HasPrefix(dst, src)
  }

  /** The corrected guard blocks the self-move as well, and otherwise agrees with the written one. */
  lemma GuardsDiffer(src: Path, dst: Path)
    requires |src| >= 1
    ensures MoveBlocked(src, dst) <==> src == dst || MoveBlockedAsWritten(src, dst)
  {
    if src == dst {
      assert dst[..|src|] == dst;
    }
  }

  /** Where the copy goes when `dst` is the destination: first child of an expanded branch,
      otherwise right after `dst` among its siblings. */
  function CopyPoint(items: seq<Node>, dst: Path): (Path, nat)
    requires IsItemOf(items, dst)
  {
    var d := ItemAt(items, dst);
    if d.kind == Branch && d.state == Expanded then (dst, 0)
    else (dst[..|dst| - 1], dst[|dst| - 1] + 1)
  }

  lemma CopyPointValid(items: seq<Node>, dst: Path)
    requires WellShaped(Container(items)) && IsItemOf(items, dst)
    ensures var (q, pos) := CopyPoint(items, dst);
            CanInsert(Container(items), q, pos) && SubAt(Container(items), q).value.kind == Branch &&
            (q == dst || q == dst[..|dst| - 1]) && q + [pos] != [0]
  {
    ParentOf(Container(items), dst);
    var (q, pos) := CopyPoint(items, dst);
    if |q| != |dst| {
      ParentIsBranch(Container(items), q);
      assert (q + [pos])[|q|] == pos;
    }
  }

  /** The guard as written lets a move of an expanded branch onto itself through, and the copy
      then goes in as the first child of the very item whose children are being copied: the
      copy loop, which lists that item's children once the copy is in, meets the copy again at
      every level. This holds for every expanded branch `x`, the root included
      (MOVENODE0="0"). */
  lemma SelfMoveCopiesIntoItself(items: seq<Node>, x: Path)
    requires IsItemOf(items, x) && ItemAt(items, x).kind == Branch && ItemAt(items, x).state == Expanded
    ensures var (q, pos) := CopyPoint(items, x);
            var c1 := InsertIn(Container(items), q, pos, Unmarked(ItemAt(items, x)));
            !MoveBlockedAsWritten(x, x) && (q, pos) == (x, 0) &&
            SubAt(c1, x).Some? &&
            SubAt(c1, x).value.children == [Unmarked(ItemAt(items, x))] + ItemAt(items, x).children
  {
    var n := Unmarked(ItemAt(items, x));
    InsertChildren(Container(items), x, 0, n);
    assert ItemAt(items, x).children[..0] == [];
    assert ItemAt(items, x).children[0..] == ItemAt(items, x).children;
  }

  /** The self-move the written guard lets through and that ends: for an item other than the root
      that is a leaf or a collapsed branch, the copy goes in just after the item and the original
      is then removed, so the item stays where it was with every mark of its sub-tree cleared
      (the copy also sets the root expanded, as every copy does). The corrected guard refuses
      this move and leaves the marks alone. */
  lemma SelfMoveAsWrittenUnmarks(items: seq<Node>, x: Path)
    requires WellShaped(Container(items)) && IsItemOf(items, x) && x != [0]
    requires !(ItemAt(items, x).kind == Branch && ItemAt(items, x).state == Expanded)
    ensures var (q, pos) := CopyPoint(items, x);
            var n := Unmarked(ItemAt(items, x));
            !MoveBlockedAsWritten(x, x) && MoveBlocked(x, x) &&
            CanInsert(Container(items), q, pos) && pos >= 1 && x == q + [pos - 1] &&
            SubAt(InsertIn(Container(items), q, pos, n), x).Some? &&
            RemoveIn(InsertIn(Container(items), q, pos, n), x) == ReplaceIn(Container(items), x, n)
  {
    var (q, pos) := CopyPoint(items, x);
    assert x == q + [pos - 1];
    ParentOf(Container(items), x);
    InsertAfterThenRemove(Container(items), q, pos - 1, Unmarked(ItemAt(items, x)));
    assert x[..|x|] == x;
  }

  /** A path that lies inside the parent of `dst` lies inside `dst`'s parent chain too. */
  lemma PrefixOfParent(dst: Path, src: Path)
    requires |dst| >= 1
    ensures HasPrefix(dst[..|dst| - 1], src) ==> HasPrefix(dst, src)
  {
    var q := dst[..|dst| - 1];
    if |src| <= |q| {
      assert q[..|src|] == dst[..|src|];
    }
  }

  /** With the corrected guard the copy point is never inside the moved sub-tree, so the
      sub-tree is still there, intact and shifted, once the copy is in. */
  lemma MoveCopiesOutside(items: seq<Node>, src: Path, dst: Path)
    requires WellShaped(Container(items)) && IsItemOf(items, src) && IsItemOf(items, dst)
    requires !MoveBlocked(src, dst)
    ensures var (q, pos) := CopyPoint(items, dst);
            CanInsert(Container(items), q, pos) && !HasPrefix(q, src) &&
            SubAt(InsertIn(Container(items), q, pos, Unmarked(ItemAt(items, src))), Shift(src, q, pos))
              == SubAt(Container(items), src)
  {
    CopyPointValid(items, dst);
    var (q, pos) := CopyPoint(items, dst);
    PrefixOfParent(dst, src);
    InsertKeeps(Container(items), q, pos, Unmarked(ItemAt(items, src)), src);
  }

  /** The items once the copy is in and the root is set expanded. */
  function CopiedIn(items: seq<Node>, src: Path, dst: Path): seq<Node>
    requires WellShaped(Container(items)) && IsItemOf(items, src) && IsItemOf(items, dst)
  {
    CopyPointValid(items, dst);
    var (q, pos) := CopyPoint(items, dst);
    var n := Unmarked(ItemAt(items, src));
    InsertSize(Container(items), q, pos, n);
    NonEmptyBySize(InsertIn(Container(items), q, pos, n).children);
    ExpandRoot(InsertIn(Container(items), q, pos, n).children)
  }

  lemma ShiftLength(x: Path, q: Path, pos: nat)
    ensures |Shift(x, q, pos)| == |x|
  {
  }

  /** The slot a sibling is inserted into and an item shifted by that insertion lie outside one
      another, provided the item is not an ancestor of (or the same as) the insertion parent. */
  lemma CopyApart(x: Path, q: Path, pos: nat)
    requires !HasPrefix(q, x)
    ensures !HasPrefix(q + [pos], Shift(x, q, pos)) && !HasPrefix(Shift(x, q, pos), q + [pos])
  {
    var y := Shift(x, q, pos);
    var slot := q + [pos];
    assert slot[..|q|] == q;
    if |x| <= |q| {
      assert y == x;
      assert slot[..|x|] == q[..|x|];
    } else if x[..|q|] != q {
      assert y == x;
      assert slot[..|q|] != y[..|q|];
      assert |y| <= |slot| ==> slot[..|y|] == slot;
    } else {
      assert y[..|q|] == q;
      assert y[|q|] != pos;
      assert |y| <= |slot| ==> y == y[..|slot|];
      assert (y[..|slot|])[|q|] == y[|q|];
    }
  }

  /** The copy stands at the copy point: the moved sub-tree without marks; the original is still
      an item, at its shifted path, with the same frame; neither lies inside the other. */
  lemma CopiedInPlaces(items: seq<Node>, src: Path, dst: Path)
    requires WellShaped(Container(items)) && IsItemOf(items, src) && IsItemOf(items, dst)
    requires !MoveBlocked(src, dst)
    ensures var r := CopiedIn(items, src, dst);
            var (q, pos) := CopyPoint(items, dst);
            var s' := Shift(src, q, pos);
            |r| >= 1 && WellShaped(Container(r)) &&
            Size(Container(r)) == Size(Container(items)) + Size(ItemAt(items, src)) &&
            IsItemOf(r, q + [pos]) && ItemAt(r, q + [pos]) == Unmarked(ItemAt(items, src)) &&
            IsItemOf(r, s') && SameFrame(ItemAt(r, s'), ItemAt(items, src), false) &&
            !HasPrefix(q + [pos], s') && !HasPrefix(s', q + [pos])
  {
    var c := Container(items);
    var n := Unmarked(ItemAt(items, src));
    CopyPointValid(items, dst);
    MoveCopiesOutside(items, src, dst);
    var (q, pos) := CopyPoint(items, dst);
    UnmarkedCopies(ItemAt(items, src));
    SameFrameWalk(n, ItemAt(items, src), true, [], false);
    WellShapedSub(c, src);
    InsertShaped(c, q, pos, n);
    InsertSize(c, q, pos, n);
    InsertPlaces(c, q, pos, n);
    var c1 := InsertIn(c, q, pos, n);
    assert c1 == Container(c1.children);
    NonEmptyBySize(c1.children);
    ExpandRootKeeps(c1.children);
    var r := CopiedIn(items, src, dst);
    var s' := Shift(src, q, pos);
    ShiftLength(src, q, pos);
    CopyApart(src, q, pos);
    SameFrameSubAt(Container(r), c1, false, s');
  }

  /** The items once MOVENODE has copied `src` to the copy point of `dst` and removed the
      original. */
  function Moved(items: seq<Node>, src: Path, dst: Path): seq<Node>
  {
    if WellShaped(Container(items)) && IsItemOf(items, src) && IsItemOf(items, dst) && !MoveBlocked(src, dst) then
      CopiedInPlaces(items, src, dst);
      var (q, pos) := CopyPoint(items, dst);
      RemoveIn(Container(CopiedIn(items, src, dst)), Shift(src, q, pos)).children
    else items
  }

  lemma UnshiftLength(y: Path, r: Path)
    requires |r| >= 1
    ensures |Unshift(y, r)| == |y|
  {
  }

  /** An item that is neither inside the moved sub-tree, nor one of its ancestors, nor the
      insertion parent or one of its ancestors, nor the root, keeps its sub-tree through a move:
      at its path shifted by the copy, then unshifted by the removal of the original. */
  lemma MovedKeepsItem(items: seq<Node>, src: Path, dst: Path, y: Path)
    requires WellShaped(Container(items)) && IsItemOf(items, src) && IsItemOf(items, dst)
    requires !MoveBlocked(src, dst)
    requires IsItemOf(items, y) && y != [0] && !HasPrefix(y, src) && !HasPrefix(src, y)
    requires !HasPrefix(CopyPoint(items, dst).0, y)
    ensures var (q, pos) := CopyPoint(items, dst);
            SubAt(Container(Moved(items, src, dst)), Unshift(Shift(y, q, pos), Shift(src, q, pos)))
              == SubAt(Container(items), y)
  {
    CopiedInPlaces(items, src, dst);
    CopyPointValid(items, dst);
    var (q, pos) := CopyPoint(items, dst);
    var c := Container(items);
    var n := Unmarked(ItemAt(items, src));
    var c1 := InsertIn(c, q, pos, n);
    var y' := Shift(y, q, pos);
    var s' := Shift(src, q, pos);
    InsertKeeps(c, q, pos, n, y);
    ShiftNotRoot(y, q, pos);
    InsertSize(c, q, pos, n);
    NonEmptyBySize(c1.children);
    assert c1 == Container(c1.children);
    ExpandRootKeeps(c1.children);
    var cm := Container(CopiedIn(items, src, dst));
    assert SubAt(cm, y') == SubAt(c, y);
    ShiftReflectsPrefix(y, src, q, pos);
    ShiftReflectsPrefix(src, y, q, pos);
    RemoveKeeps(cm, s', y');
    var r := RemoveIn(cm, s');
    assert r == Container(r.children);
  }

  /** A move keeps the number of items and the shape; the moved sub-tree is found, unmarked and
      otherwise intact with its child order, at the copy point (moved up one place when the
      original stood before it among its siblings). */
  lemma MovedPlaces(items: seq<Node>, src: Path, dst: Path)
    requires WellShaped(Container(items)) && IsItemOf(items, src) && IsItemOf(items, dst)
    requires !MoveBlocked(src, dst)
    ensures var r := Moved(items, src, dst);
            var (q, pos) := CopyPoint(items, dst);
            var at := Unshift(q + [pos], Shift(src, q, pos));
            |r| >= 1 && WellShaped(Container(r)) && Size(Container(r)) == Size(Container(items)) &&
            IsItemOf(r, at) && ItemAt(r, at) == Unmarked(ItemAt(items, src))
  {
    CopiedInPlaces(items, src, dst);
    var (q, pos) := CopyPoint(items, dst);
    var mid := CopiedIn(items, src, dst);
    var s' := Shift(src, q, pos);
    var cm := Container(mid);
    RemoveShaped(cm, s');
    RemoveSize(cm, s');
    SameFrameWalk(ItemAt(mid, s'), ItemAt(items, src), false, [], false);
    var r := RemoveIn(cm, s');
    assert r == Container(r.children);
    RemoveKeeps(cm, s', q + [pos]);
    UnshiftLength(q + [pos], s');
    var at := Unshift(q + [pos], s');
    assert SubAt(r, at).Some?;
    assert at[0] < |r.children|;
  }

  /** What a move leaves alone: every item off the two changed ancestor chains keeps its sub-tree
      at its shifted-then-unshifted path. With `MovedPlaces` (the count unchanged and the copy at
      its new place) nothing of the original sub-tree is left besides the copy. */
  lemma MovedKeeps(items: seq<Node>, src: Path, dst: Path)
    requires WellShaped(Container(items)) && IsItemOf(items, src) && IsItemOf(items, dst)
    requires !MoveBlocked(src, dst)
    ensures var (q, pos) := CopyPoint(items, dst);
            forall y :: IsItemOf(items, y) && y != [0] && !HasPrefix(y, src) && !HasPrefix(src, y) && !HasPrefix(q, y) ==>
              SubAt(Container(Moved(items, src, dst)), Unshift(Shift(y, q, pos), Shift(src, q, pos)))
                == SubAt(Container(items), y)
  {
    forall y | IsItemOf(items, y) && y != [0] && !HasPrefix(y, src) && !HasPrefix(src, y) &&
               !HasPrefix(CopyPoint(items, dst).0, y)
      ensures SubAt(Container(Moved(items, src, dst)), Unshift(Shift(y, CopyPoint(items, dst).0, CopyPoint(items, dst).1), Shift(src, CopyPoint(items, dst).0, CopyPoint(items, dst).1)))
                == SubAt(Container(items), y)
    {
      MovedKeepsItem(items, src, dst, y);
    }
  }

  // ---------------------------------------------------------------------------------------
  // Deleting

  /** The items without the sub-tree at `x`. */
  function Removed(items: seq<Node>, x: Path): seq<Node>
  {
    if IsItemOf(items, x) then RemoveIn(Container(items), x).children else items
  }

  /** The items with every item below `x` removed. */
  function Emptied(items: seq<Node>, x: Path): seq<Node>
  {
    if IsItemOf(items, x) then ReplaceIn(Container(items), x, ItemAt(items, x).(children := [])).children
    else items
  }

  /** Removing a sub-tree other than the root's takes away exactly its items, keeps the root at
      its place with its kind and title, and keeps every item outside the sub-tree (at its
      unshifted path). */
  lemma RemovedKeeps(items: seq<Node>, x: Path)
    requires WellShaped(Container(items)) && IsItemOf(items, x) && x != [0]
    ensures var r := Removed(items, x);
            |r| >= 1 && WellShaped(Container(r)) &&
            Size(Container(r)) == Size(Container(items)) - Size(ItemAt(items, x)) &&
            r[0].kind == items[0].kind && r[0].title == items[0].title &&
            forall y :: IsItemOf(items, y) && !HasPrefix(y, x) && !HasPrefix(x, y) ==>
              SubAt(Container(r), Unshift(y, x)) == SubAt(Container(items), y)
  {
    var c := Container(items);
    RemoveShaped(c, x);
    RemoveSize(c, x);
    var c' := RemoveIn(c, x);
    assert c' == Container(c'.children);
    assert |x| == 1 ==> x == [x[0]];
    forall y | IsItemOf(items, y) && !HasPrefix(y, x) && !HasPrefix(x, y)
      ensures SubAt(Container(Removed(items, x)), Unshift(y, x)) == SubAt(c, y)
    {
      RemoveKeeps(c, x, y);
    }
  }

  /** Removing the children of `x` leaves `x` childless and otherwise as it was, keeps the
      root's kind and title, and takes away exactly the items below `x`. */
  lemma EmptiedKeeps(items: seq<Node>, x: Path)
    requires WellShaped(Container(items)) && IsItemOf(items, x)
    ensures var r := Emptied(items, x);
            |r| == |items| && WellShaped(Container(r)) &&
            IsItemOf(r, x) && ItemAt(r, x) == ItemAt(items, x).(children := []) &&
            Size(Container(r)) == Size(Container(items)) - Size(ItemAt(items, x)) + 1 &&
            r[0].kind == items[0].kind && r[0].title == items[0].title
  {
    var c := Container(items);
    var n := ItemAt(items, x).(children := []);
    WellShapedSub(c, x);
    ReplaceShaped(c, x, n);
    ReplaceSize(c, x, n);
    ReplacePlaces(c, x, n);
    var c' := ReplaceIn(c, x, n);
    assert c' == Container(c'.children);
    if x == [0] {
      assert c'.children[0] == n;
    }
  }

  /** DELNODE=MARKED: every marked item is removed with its sub-tree, except the root, whose
      marked descendants are removed. */
  function DeleteMarked(items: seq<Node>): seq<Node>
    requires |items| >= 1
  {
    [Prune(items[0])] + PruneFirst(items[1..], |items| - 1)
  }

  /** After DELNODE=MARKED no item but the root is marked, the root keeps its kind, title and
      mark, the tree keeps its shape and loses items only, and a tree without marks below the
      root is left as it was. */
  lemma DeleteMarkedClears(items: seq<Node>)
    requires |items| >= 1 && WellShaped(Container(items))
    ensures var r := DeleteMarked(items);
            |r| >= 1 && r[0].marked == items[0].marked && r[0].kind == items[0].kind &&
            r[0].title == items[0].title && NoMarkBelow(r[0]) &&
            (forall k :: 1 <= k < |r| ==> !r[k].marked && NoMarkBelow(r[k])) &&
            WellShaped(Container(r)) && Size(Container(r)) <= Size(Container(items))
    ensures (NoMarkBelow(items[0]) && forall k :: 1 <= k < |items| ==> !items[k].marked && NoMarkBelow(items[k]))
            ==> DeleteMarked(items) == items
  {
    var rest := items[1..];
    PruneClears(items[0]);
    PruneFirstClears(rest, |rest|);
    PruneShaped(items[0]);
    PruneFirstShaped(rest, |rest|);
    var r := DeleteMarked(items);
    forall k | 1 <= k < |r| ensures !r[k].marked && NoMarkBelow(r[k]) && WellShaped(r[k]) {
      assert r[k] == PruneFirst(rest, |rest|)[k - 1];
    }
    SizeFirstTake(rest, |rest|);
    assert rest[..|rest|] == rest;
    TotalConcat([Prune(items[0])], PruneFirst(rest, |rest|));
    TotalConcat([items[0]], rest);
    TotalSingle(Prune(items[0]));
    TotalSingle(items[0]);
    assert items == [items[0]] + rest;
    if NoMarkBelow(items[0]) && forall k :: 1 <= k < |items| ==> !items[k].marked && NoMarkBelow(items[k]) {
      PruneUnmarked(items[0]);
      PruneFirstUnmarked(rest, |rest|);
    }
  }

  /** DELNODE=MARKED removes marked items only: the root stays, pruned, and of the top-level
      items after it exactly the unmarked ones stay, each pruned, in their order. With
      `PruneKeeps` this fixes every level: an item stays iff neither it nor an ancestor below the
      root is marked. */
  lemma DeleteMarkedKeeps(items: seq<Node>)
    requires |items| >= 1
    ensures var r := DeleteMarked(items);
            var rest := items[1..];
            |r| == 1 + UnmarkedCount(rest, |rest|) && r[0] == Prune(items[0]) &&
            forall j :: 1 <= j < |items| && !items[j].marked ==>
              UnmarkedCount(rest, j - 1) < UnmarkedCount(rest, |rest|) &&
              r[1 + UnmarkedCount(rest, j - 1)] == Prune(items[j])
  {
    var rest := items[1..];
    var kept := PruneFirst(rest, |rest|);
    PruneFirstLength(rest, |rest|);
    assert DeleteMarked(items) == [Prune(items[0])] + kept;
    forall j | 1 <= j < |items| && !items[j].marked
      ensures UnmarkedCount(rest, j - 1) < UnmarkedCount(rest, |rest|)
      ensures DeleteMarked(items)[1 + UnmarkedCount(rest, j - 1)] == Prune(items[j])
    {
      assert rest[j - 1] == items[j];
      PruneFirstAt(rest, |rest|, j - 1);
      assert ([Prune(items[0])] + kept)[1 + UnmarkedCount(rest, j - 1)] == kept[UnmarkedCount(rest, j - 1)];
    }
  }

  // ---------------------------------------------------------------------------------------
  // Renaming

  /** 1-based caret position of RENAMECARET, made 0-based (positions below 1 count as 1);
      `None` when the value is not a number. */
  function RenameCaretPos(parsed: Option<int>): (r: Option<int>)
    ensures r.Some? <==> parsed.Some?
    ensures r.Some? ==> r.value >= 0 && (parsed.value >= 1 ==> r.value == parsed.value - 1)
    ensures r.Some? && parsed.value < 1 ==> r.value == 0
  {
    match parsed
    case None => None
    case Some(pos) => Some((if pos < 1 then 1 else pos) - 1)
  }

  /** 1-based "start:end" of RENAMESELECTION, made 0-based; `None` unless both numbers were read
      and both are at least 1. */
  function RenameSelectionPos(parsed: Option<(int, int)>): (r: Option<(int, int)>)
    ensures r.Some? <==> parsed.Some? && parsed.value.0 >= 1 && parsed.value.1 >= 1
    ensures r.Some? ==> r.value == (parsed.value.0 - 1, parsed.value.1 - 1)
  {
    match parsed
    case None => None
    case Some((start, end)) => if start < 1 || end < 1 then None else Some((start - 1, end - 1))
  }
}
