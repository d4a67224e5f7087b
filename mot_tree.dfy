/** The Motif tree driver: the container's items, the id counter its recursive searches share,
    the focus and mark-start items, and the attribute handlers that look items up, move among
    the visible items, mark, add, move and delete items. Each handler is proved against the
    function of `MotTreeSpec` that states what it computes. */
module MotTree {
  import opened Wrappers
  import opened OutlineTree
  import opened OutlineEdit
  import opened OutlineMarks
  import opened MotTreeSpec

  /** The value of DELNODE. */
  datatype DelMode = DelSelected | DelChildren | DelMarked | DelOther

  /** A visitor together with the range's `inside` flag, which the walk updates as it goes. */
  class Visit {
    const visitor: Visitor
    var inside: int

    constructor(v: Visitor)
      ensures visitor == v && inside == 0
    {
      visitor := v;
      inside := 0;
    }
  }

  /** One visitor call on the item at `p`, whose mark is `m`: the select visitor sets, clears or
      toggles the mark; the range visitor enters the range at the first end it meets, marks
      while inside, unmarks outside when clearing, and leaves the range at the second end (or at
      once when both ends are the same item). */
  method VisitItem(v: Visit, p: Path, m: bool) returns (m': bool)
    modifies v
    ensures (v.inside, m') == Step(v.visitor, old(v.inside), p, m)
  {
    match v.visitor
    case SelectItems(select) =>
      var doSelect := select;
      if doSelect == -1 {
        doSelect := if m then 0 else 1;
      }
      m' := doSelect != 0;
    case SelectRange(item1, item2, clear) =>
      var endRange := false;
      if v.inside == 0 {
        if item1 == p {
          v.inside := 1;
        } else if item2 == p {
          v.inside := 1;
        }
      } else if v.inside == 1 {
        if item1 == p {
          endRange := true;
        } else if item2 == p {
          endRange := true;
        }
      }
      if v.inside == 1 {
        m' := true;
      } else if clear {
        m' := false;
      } else {
        m' := m;
      }
      if endRange || (v.inside != 0 && item1 == item2) {
        v.inside := -1;
      }
  }

  /** Applies the visitor to `t` (found at `p`) and then, child by child, to every sub-tree below
      it; returns the sub-tree with its new marks. */
  method ForEach(v: Visit, t: Node, p: Path) returns (r: Node)
    modifies v
    ensures (r, v.inside) == VisitTree(v.visitor, old(v.inside), t, p)
    decreases t
  {
    var m := VisitItem(v, p, t.marked);
    ghost var in1 := v.inside;
    var kids: seq<Node> := [];
    for i := 0 to |t.children|
      invariant (kids, v.inside) == VisitFirst(v.visitor, in1, t.children, p, i)
    {
      var c := ForEach(v, t.children[i], p + [i]);
      kids := kids + [c];
    }
    r := t.(marked := m, children := kids);
  }

  /** Number of items of a sub-tree, the item itself included. */
  method Count(t: Node) returns (count: int)
    ensures count == Size(t)
    decreases t
  {
    count := 0;
    count := count + 1;
    for i := 0 to |t.children|
      invariant count == 1 + SizeFirst(t.children, i)
    {
      var c := Count(t.children[i]);
      count := count + c;
    }
  }

  /** The parent item of `x`; a top-level item has none. */
  function Parent(x: Path): (r: Option<Path>)
    requires |x| >= 1
    ensures r.None? <==> |x| == 1
    ensures r.Some? ==> |r.value| == |x| - 1 && HasPrefix(x, r.value)
  {
    if |x| == 1 then None else Some(x[..|x| - 1])
  }

  /** Number of parent steps from `x` up to the root; an item outside the root's sub-tree is
      followed up to its top-level item and one step beyond. */
  method Depth(x: Path) returns (dep: int)
    requires |x| >= 1
    ensures dep == if x[0] == 0 then |x| - 1 else |x|
  {
    var w: Option<Path> := Some(x);
    dep := 0;
    while w.Some? && w.value != [0]
      invariant 0 <= dep <= |x|
      invariant w.Some? ==> |x| - dep >= 1 && w.value == x[..|x| - dep]
      invariant w.None? ==> dep == |x| && x[0] != 0
      invariant x[0] == 0 ==> dep <= |x| - 1
      decreases |x| - dep + (if w.Some? then 1 else 0)
    {
      w := Parent(w.value);
      dep := dep + 1;
    }
  }

  /** The MOVENODE guard as the driver writes it: walk up from `dst` and refuse when a parent
      met on the way is `src`. */
  method AncestorCheckAsWritten(src: Path, dst: Path) returns (blocked: bool)
    requires |dst| >= 1
    ensures blocked <==> MoveBlockedAsWritten(src, dst)
  {
    var w: Option<Path> := Some(dst);
    while w.Some?
      invariant w.Some? ==> 1 <= |w.value| <= |dst| && w.value == dst[..|w.value|]
      invariant forall m :: (if w.Some? then |w.value| else 1) <= m < |dst| ==> dst[..m] != src
      decreases if w.Some? then |w.value| else 0
    {
      w := Parent(w.value);
      if w == Some(src) {
        return true;
      }
    }
    return false;
  }

  /** The guard with the self check the drag-and-drop path makes: refuse when `src` is `dst` or
      one of its ancestors. */
  method AncestorCheck(src: Path, dst: Path) returns (blocked: bool)
    requires |src| >= 1 && |dst| >= 1
    ensures blocked <==> MoveBlocked(src, dst)
  {
    GuardsDiffer(src, dst);
    if src == dst {
      return true;
    }
    blocked := AncestorCheckAsWritten(src, dst);
  }

  /** The copies CopyChildren makes of a sibling list: each item without its mark and,
      recursively, its children, in the order they are listed. */
  method CopyChildren(kids: seq<Node>) returns (r: seq<Node>)
    ensures r == UnmarkedFirst(kids, |kids|)
    decreases kids
  {
    r := [];
    var i := 0;
    while i != |kids|
      invariant 0 <= i <= |kids|
      invariant r == UnmarkedFirst(kids, i)
    {
      var c := CopyChildren(kids[i].children);
      r := r + [kids[i].(marked := false, children := c)];
      i := i + 1;
    }
  }

  /** Sets outline state `s` on every item of the sibling list `kids`, and below, that has
      children. */
  method ExpandCollapseAllNodes(kids: seq<Node>, s: Outline) returns (r: seq<Node>)
    ensures r == OutlinedFirst(kids, |kids|, s)
    decreases kids
  {
    r := [];
    var i := 0;
    while i != |kids|
      invariant 0 <= i <= |kids|
      invariant r == OutlinedFirst(kids, i, s)
    {
      var k := kids[i];
      if |k.children| > 0 {
        var sub := ExpandCollapseAllNodes(k.children, s);
        k := k.(state := s, children := sub);
      } else {
        assert OutlinedFirst(k.children, 0, s) == k.children;
      }
      r := r + [k];
      i := i + 1;
    }
  }

  /** The walk from the root, handed to the searches as a one-item list. */
  lemma RootWalk(t: Node, v: bool)
    ensures WalkFirst([t], [], 1, v) == Walk(t, [0], v)
  {
    assert [] + [0] == [0];
  }

  /** A search that meets `x` after `before`, which does not hold it, finds it at `|before|`. */
  lemma FoundHere(before: seq<Path>, x: Path, rest: seq<Path>)
    requires x !in before
    ensures x in before + ([x] + rest) && IndexOf(before + ([x] + rest), x) == |before|
  {
    IndexOfSplit(before, [x] + rest, x);
  }

  /** A search that finds `t` below `x` counts `before`, `x` and the part of `below` up to `t`. */
  lemma FoundBelow(before: seq<Path>, x: Path, below: seq<Path>, tail: seq<Path>, t: Path)
    requires t !in before && t != x && t in below
    ensures t in before + ([x] + (below + tail))
    ensures IndexOf(before + ([x] + (below + tail)), t) == |before| + 1 + IndexOf(below, t)
  {
    IndexOfSplit(before, [x] + (below + tail), t);
    IndexOfSplit([x], below + tail, t);
    IndexOfSplit(below, tail, t);
  }

  /** A root with the same frame, outline states aside, keeps the container well shaped. */
  lemma RootFrame(items: seq<Node>, newRoot: Node)
    requires |items| >= 1 && SameFrame(newRoot, items[0], false)
    ensures WellShaped(Container(items[0 := newRoot])) <==> WellShaped(Container(items))
  {
    forall k | 0 <= k < |items| ensures SameFrame(items[0 := newRoot][k], items[k], false) {
      if k != 0 {
        SameFrameRefl(items[k], false);
      }
    }
    SameFrameWalk(Container(items[0 := newRoot]), Container(items), false, [], false);
  }

  class Tree {
    /** The container's top-level items; the first is the root the driver creates. */
    var items: seq<Node>
    /** The counter the recursive searches advance and read back. */
    var idControl: int
    /** The item with the keyboard focus, or the last one that had it. */
    var focus: Option<Path>
    /** The item BLOCK marking starts from. */
    var markStart: Option<Path>
    var markMode: MarkMode
    /** Whether new branches are added expanded. */
    var addExpanded: bool
    /** The id VALUE last moved the focus to. */
    var oldValue: int

    predicate Valid()
      reads this
    {
      |items| >= 1 && WellShaped(Container(items))
    }

    /** The state once the driver has added its root: one expanded, marked branch, which is also
        where BLOCK marking starts. */
    constructor(mode: MarkMode, expandNew: bool)
      ensures Valid() && items == [Node(Branch, Expanded, true, [], 0, [])]
      ensures markStart == Some([0]) && focus == None && markMode == mode && addExpanded == expandNew
      ensures idControl == 0 && oldValue == 0
    {
      items := [Node(Branch, Expanded, true, [], 0, [])];
      idControl := 0;
      focus := None;
      markStart := Some([0]);
      markMode := mode;
      addExpanded := expandNew;
      oldValue := 0;
    }

    /** Searches the sibling list `kids`, whose parent is at `base`, for `target`, advancing the
        counter once per item met (only through expanded items when `visibleOnly`). */
    method FindNodeId(kids: seq<Node>, base: Path, target: Path, visibleOnly: bool) returns (found: bool)
      modifies this`idControl
      ensures var ps := WalkFirst(kids, base, |kids|, visibleOnly);
              found == (target in ps) &&
              idControl == old(idControl) + (if found then IndexOf(ps, target) + 1 else |ps|)
      decreases kids
    {
      var i := 0;
      while i != |kids|
        invariant 0 <= i <= |kids|
        invariant idControl == old(idControl) + |WalkFirst(kids, base, i, visibleOnly)|
        invariant target !in WalkFirst(kids, base, i, visibleOnly)
      {
        ghost var before := WalkFirst(kids, base, i, visibleOnly);
        ghost var below := WalkBelow(kids[i], base + [i], visibleOnly);
        ghost var tail := WalkFirstSplit(kids, base, i, visibleOnly);
        idControl := idControl + 1;
        if base + [i] == target {
          FoundHere(before, target, below + tail);
          return true;
        }
        if |kids[i].children| > 0 && Opens(kids[i], visibleOnly) {
          var f := FindNodeId(kids[i].children, base + [i], target, visibleOnly);
          if f {
            FoundBelow(before, base + [i], below, tail, target);
            return true;
          }
        } else {
          assert below == [];
        }
        i := i + 1;
      }
      return false;
    }

    /** Counts the counter down once per item met in the sibling list `kids`; the item met when
        it drops below zero is the answer. */
    method FindNodeFromId(kids: seq<Node>, base: Path, visibleOnly: bool) returns (r: Option<Path>)
      modifies this`idControl
      ensures var ps := WalkFirst(kids, base, |kids|, visibleOnly);
              r == IdLookup(ps, old(idControl)) && idControl == LookupCounter(ps, old(idControl))
      decreases kids
    {
      ghost var c0 := idControl;
      var i := 0;
      while i != |kids|
        invariant 0 <= i <= |kids|
        invariant idControl == c0 - |WalkFirst(kids, base, i, visibleOnly)|
        invariant i > 0 ==> idControl >= 0
      {
        ghost var before := WalkFirst(kids, base, i, visibleOnly);
        ghost var below := WalkBelow(kids[i], base + [i], visibleOnly);
        ghost var tail := WalkFirstSplit(kids, base, i, visibleOnly);
        idControl := idControl - 1;
        if idControl < 0 {
          LookupPast(before, [base + [i]] + (below + tail), c0);
          LookupHead(base + [i], below + tail, c0 - |before|);
          return Some(base + [i]);
        }
        if |kids[i].children| > 0 && Opens(kids[i], visibleOnly) {
          r := FindNodeFromId(kids[i].children, base + [i], visibleOnly);
          if idControl < 0 {
            LookupPast(before, [base + [i]] + (below + tail), c0);
            LookupPast([base + [i]], below + tail, c0 - |before|);
            LookupWithin(below, tail, c0 - |before| - 1);
            return r;
          }
        } else {
          assert below == [];
        }
        i := i + 1;
      }
      return None;
    }

    /** The id of item `x`: its position in id order (the number of items of the root sub-tree
        minus one when it is not among them). */
    method GetNodeId(x: Path) returns (id: int)
      requires |items| >= 1
      modifies this`idControl
      ensures id == PosOf(IdWalk(items), x) && idControl == id
    {
      idControl := -1;
      RootWalk(items[0], false);
      var found := FindNodeId([items[0]], [], x, false);
      id := idControl;
    }

    /** The item whose id the counter holds. */
    method NodeFromCounter() returns (r: Option<Path>)
      requires |items| >= 1
      modifies this`idControl
      ensures r == IdLookup(IdWalk(items), old(idControl))
      ensures idControl == LookupCounter(IdWalk(items), old(idControl))
    {
      RootWalk(items[0], false);
      r := FindNodeFromId([items[0]], [], false);
    }

    /** The item a node reference names: the focus item for the empty string, otherwise the
        item whose id the string holds (the counter as it stands when it is not a number). */
    method FindNodeFromString(ref: NodeRef) returns (r: Option<Path>)
      requires |items| >= 1
      modifies this`idControl
      ensures r == Resolve(items, focus, old(idControl), ref)
      ensures idControl == CounterAfter(items, old(idControl), ref)
    {
      match ref
      case FocusRef =>
        r := FocusOf(items, focus);
      case IdRef(n) =>
        idControl := n;
        r := NodeFromCounter();
      case Unparsed =>
        r := NodeFromCounter();
    }

    /** NEXT (`delta` 1) and PGDN (`delta` 10): the visible item `delta` places after `x`, or
        the last visible item when there are fewer. */
    method VisibleAfter(x: Path, delta: nat) returns (r: Path)
      requires |items| >= 1
      modifies this`idControl
      ensures r == NavStep(ShownWalk(items), x, delta)
      ensures idControl == LookupCounter(ShownWalk(items), PosOf(ShownWalk(items), x) + delta)
    {
      idControl := -1;
      RootWalk(items[0], true);
      var found := FindNodeId([items[0]], [], x, true);
      idControl := idControl + delta;
      var next := FindNodeFromId([items[0]], [], true);
      if idControl >= 0 {
        r := LastVisible(items[0], [0]);
      } else {
        r := next.value;
      }
    }

    /** PREVIOUS (`delta` 1) and PGUP (`delta` 10): the visible item `delta` places before `x`,
        or the root when there are fewer. */
    method VisibleBefore(x: Path, delta: nat) returns (r: Path)
      requires |items| >= 1
      modifies this`idControl
      ensures r == NavStep(ShownWalk(items), x, -(delta as int))
      ensures idControl == -1
    {
      idControl := -1;
      RootWalk(items[0], true);
      var found := FindNodeId([items[0]], [], x, true);
      idControl := idControl - delta;
      if idControl < 0 {
        idControl := 0;
      }
      var prev := FindNodeFromId([items[0]], [], true);
      r := prev.value;
    }

    /** Runs a visitor over the root sub-tree. */
    method ForEachRoot(vis: Visitor)
      requires |items| >= 1
      modifies this`items
      ensures items == Revisited(old(items), vis)
    {
      var v := new Visit(vis);
      var r := ForEach(v, items[0], [0]);
      items := items[0 := r];
    }

    /** MARK: the mark commands of multiple-selection mode; returns whether the value was one
        that applied. */
    method SetMark(cmd: MarkCmd) returns (handled: bool)
      requires Valid()
      modifies this`items, this`idControl
      ensures Valid()
      ensures (handled, items, idControl) == MarkOutcome(old(items), focus, markStart, old(idControl), markMode, cmd)
    {
      MarkOutcomeFrame(items, focus, markStart, idControl, markMode, cmd);
      if markMode == MarkSingle {
        return false;
      }
      match cmd
      case ClearAll =>
        items := MarkEvery(items, false);
        return true;
      case MarkAll =>
        items := MarkEvery(items, true);
        return true;
      case InvertAll =>
        ForEachRoot(SelectItems(-1));
        return true;
      case Invert(node) =>
        ResolveIsItem(items, focus, idControl, node);
        var x := FindNodeFromString(node);
        if x.None? {
          return false;
        }
        var m := ItemAt(items, x.value).marked;
        items := WithMark(items, x.value, !m);
        return true;
      case Block =>
        var start := markStart;
        var f := FocusOf(items, focus);
        if f.None? || start.None? {
          return false;
        }
        ForEachRoot(SelectRange(f.value, start.value, false));
        return true;
      case RangeOf(first, last) =>
        var x1 := FindNodeFromString(first);
        if x1.None? {
          return false;
        }
        var x2 := FindNodeFromString(last);
        if x2.None? {
          return false;
        }
        ForEachRoot(SelectRange(x1.value, x2.value, false));
        return true;
      case NotMark =>
        return false;
    }

    /** The item the non-mark part of VALUE names: ROOT, LAST, the keyword moves from the focus
        among the visible items, or an item reference. */
    method NavItem(nav: NavCmd) returns (item: Option<Path>)
      requires |items| >= 1
      modifies this`idControl
      ensures item == NavTarget(items, focus, old(idControl), nav)
      ensures item.None? ==> idControl == (if nav.NodeAt? then CounterAfter(items, old(idControl), nav.node) else old(idControl))
    {
      var f := FocusOf(items, focus);
      match nav {
        case Root =>
          item := Some([0]);
        case Last =>
          item := Some(LastVisible(items[0], [0]));
        case PgUp =>
          if f.None? {
            return None;
          }
          var r := VisibleBefore(f.value, 10);
          item := Some(r);
        case PgDn =>
          if f.None? {
            return None;
          }
          var r := VisibleAfter(f.value, 10);
          item := Some(r);
        case Next =>
          if f.None? {
            return None;
          }
          var r := VisibleAfter(f.value, 1);
          item := Some(r);
        case Previous =>
          if f.None? {
            return None;
          }
          var r := VisibleBefore(f.value, 1);
          item := Some(r);
        case NodeAt(node) =>
          item := FindNodeFromString(node);
      }
    }

    /** The non-mark part of VALUE: moves the focus to the item the value names, marks it alone
        in single-selection mode, and records its id as the old value. */
    method MoveFocus(nav: NavCmd)
      requires Valid()
      modifies this`items, this`idControl, this`focus, this`oldValue
      ensures Valid()
      ensures var r := FocusMove(old(items), old(focus), old(idControl), markMode, nav);
              items == r.0 && focus == r.1 && idControl == r.2 &&
              oldValue == (if r.3.Some? then r.3.value else old(oldValue))
    {
      FocusMoveMarks(items, focus, idControl, markMode, nav);
      NavTargetIsItem(items, focus, idControl, nav);
      var item := NavItem(nav);
      if item.None? {
        return;
      }
      if markMode == MarkSingle {
        items := MarkOnly(items, item.value);
      }
      focus := item;
      oldValue := GetNodeId(item.value);
    }

    /** VALUE: a mark command first; when the value is not one that applies, a move of the
        focus. The value string is given read both ways. */
    method SetValue(mark: MarkCmd, nav: NavCmd)
      requires Valid()
      modifies this`items, this`idControl, this`focus, this`oldValue
      ensures Valid()
      ensures var m := MarkOutcome(old(items), old(focus), markStart, old(idControl), markMode, mark);
              if m.0 then items == m.1 && idControl == m.2 && focus == old(focus) && oldValue == old(oldValue)
              else
                var r := FocusMove(m.1, old(focus), m.2, markMode, nav);
                items == r.0 && focus == r.1 && idControl == r.2 &&
                oldValue == (if r.3.Some? then r.3.value else old(oldValue))
    {
      var handled := SetMark(mark);
      if handled {
        return;
      }
      MoveFocus(nav);
    }

    /** VALUE read back: the id of the focus item. */
    method GetValue() returns (r: Option<int>)
      requires |items| >= 1
      modifies this`idControl
      ensures var f := FocusOf(items, focus);
              r == (if f.Some? then Some(PosOf(IdWalk(items), f.value)) else None) &&
              (f.Some? ==> idControl == r.value) && (f.None? ==> idControl == old(idControl))
      ensures r.Some? && FocusOf(items, focus).value in IdWalk(items) ==>
                IdLookup(IdWalk(items), r.value) == FocusOf(items, focus)
    {
      var f := FocusOf(items, focus);
      if f.None? {
        return None;
      }
      var id := GetNodeId(f.value);
      r := Some(id);
      if f.value in IdWalk(items) {
        WalkDistinct(items[0], [0], false);
        IdRoundTrip(IdWalk(items), f.value);
      }
    }

    /** MARKSTART: records the item BLOCK marking starts from. */
    method SetMarkStart(ref: NodeRef) returns (ok: bool)
      requires |items| >= 1
      modifies this`idControl, this`markStart
      ensures var x := Resolve(items, focus, old(idControl), ref);
              ok == x.Some? && markStart == (if x.Some? then x else old(markStart)) &&
              idControl == CounterAfter(items, old(idControl), ref)
    {
      var x := FindNodeFromString(ref);
      if x.None? {
        return false;
      }
      markStart := x;
      return true;
    }

    /** EXPANDALL: sets the outline state of every item of the root sub-tree that has children;
        after collapsing, the root is expanded again. */
    method SetExpandAll(expand: bool)
      requires Valid()
      modifies this`items
      ensures Valid() && items == old(items)[0 := AllOutlined(old(items)[0], expand)]
    {
      var root := items[0];
      var s := if expand then Expanded else Collapsed;
      var r := ExpandCollapseAllNodes([root], s);
      assert r == OutlinedFirst([root], 0, s) + [Outlined(root, s)];
      var newRoot := r[0];
      if !expand {
        newRoot := newRoot.(state := Expanded);
      }
      AllOutlinedShows(root, expand);
      RootFrame(items, newRoot);
      items := items[0 := newRoot];
    }

    /** Adds an item of kind `kind` titled `title` next to the item `ref` names: as its first
        child when it is a branch and `add` is set, otherwise right after it among its
        siblings; nothing happens when `ref` names no item. */
    method AddNode(ref: NodeRef, kind: Kind, title: string, add: bool)
      requires Valid()
      modifies this`items, this`idControl
      ensures Valid()
      ensures var x := Resolve(old(items), focus, old(idControl), ref);
              idControl == CounterAfter(old(items), old(idControl), ref) &&
              items == (if x.Some? then Added(old(items), x.value, NewItem(kind, title, addExpanded), add) else old(items))
    {
      ResolveIsItem(items, focus, idControl, ref);
      var prev := FindNodeFromString(ref);
      if prev.None? {
        return;
      }
      var n := NewItem(kind, title, addExpanded);
      AddedPlaces(items, prev.value, n, add);
      AddPointValid(items, prev.value, add);
      var p := prev.value;
      var q: Path, pos: nat;
      if ItemAt(items, p).kind == Branch && add {
        q, pos := p, 0;
      } else {
        q, pos := p[..|p| - 1], p[|p| - 1] + 1;
      }
      InsertSize(Container(items), q, pos, n);
      NonEmptyBySize(InsertIn(Container(items), q, pos, n).children);
      items := InsertIn(Container(items), q, pos, n).children;
      items := items[0 := items[0].(state := Expanded)];
    }

    /** Copies the sub-tree at `src` to the copy point of `dst` and removes the original. */
    method MoveSubtree(src: Path, dst: Path)
      requires Valid() && IsItemOf(items, src) && IsItemOf(items, dst) && !MoveBlocked(src, dst)
      modifies this`items
      ensures Valid() && items == Moved(old(items), src, dst)
    {
      MovedPlaces(items, src, dst);
      CopiedInPlaces(items, src, dst);
      CopyPointValid(items, dst);
      var d := ItemAt(items, dst);
      var q: Path, pos: nat;
      if d.kind == Branch && d.state == Expanded {
        q, pos := dst, 0;
      } else {
        q, pos := dst[..|dst| - 1], dst[|dst| - 1] + 1;
      }
      var s := ItemAt(items, src);
      var kids := CopyChildren(s.children);
      var copy := s.(marked := false, children := kids);
      InsertSize(Container(items), q, pos, copy);
      NonEmptyBySize(InsertIn(Container(items), q, pos, copy).children);
      items := InsertIn(Container(items), q, pos, copy).children;
      items := items[0 := items[0].(state := Expanded)];
      items := RemoveIn(Container(items), Shift(src, q, pos)).children;
    }

    /** MOVENODE: moves the sub-tree `srcRef` names next to (or into) the item `dstRef` names,
        unless the destination lies inside the source. */
    method SetMoveNode(srcRef: NodeRef, dstRef: NodeRef)
      requires Valid()
      modifies this`items, this`idControl
      ensures Valid()
      ensures var s := Resolve(old(items), focus, old(idControl), srcRef);
              var c1 := CounterAfter(old(items), old(idControl), srcRef);
              var d := Resolve(old(items), focus, c1, dstRef);
              idControl == (if s.None? then c1 else CounterAfter(old(items), c1, dstRef)) &&
              items == (if s.Some? && d.Some? then Moved(old(items), s.value, d.value) else old(items))
    {
      ResolveIsItem(items, focus, idControl, srcRef);
      var src := FindNodeFromString(srcRef);
      if src.None? {
        return;
      }
      ResolveIsItem(items, focus, idControl, dstRef);
      var dst := FindNodeFromString(dstRef);
      if dst.None? {
        return;
      }
      var blocked := AncestorCheck(src.value, dst.value);
      if blocked {
        return;
      }
      MoveSubtree(src.value, dst.value);
    }

    /** DELNODE: SELECTED removes the named item with its sub-tree, CHILDREN only the items below
        it, both refusing the root; MARKED removes every marked item but the root. */
    method SetDelNode(ref: NodeRef, mode: DelMode)
      requires Valid()
      modifies this`items, this`idControl
      ensures Valid()
      ensures mode == DelMarked ==> items == DeleteMarked(old(items)) && idControl == old(idControl)
      ensures mode == DelOther ==> items == old(items) && idControl == old(idControl)
      ensures mode == DelSelected || mode == DelChildren ==>
                var x := Resolve(old(items), focus, old(idControl), ref);
                idControl == CounterAfter(old(items), old(idControl), ref) &&
                items == (if x.None? || x.value == [0] then old(items)
                          else if mode == DelSelected then Removed(old(items), x.value)
                          else Emptied(old(items), x.value))
    {
      match mode
      case DelSelected =>
        ResolveIsItem(items, focus, idControl, ref);
        var x := FindNodeFromString(ref);
        if x.None? || x.value == [0] {
          return;
        }
        RemovedKeeps(items, x.value);
        items := RemoveIn(Container(items), x.value).children;
      case DelChildren =>
        ResolveIsItem(items, focus, idControl, ref);
        var x := FindNodeFromString(ref);
        if x.None? || x.value == [0] {
          return;
        }
        EmptiedKeeps(items, x.value);
        var n := ItemAt(items, x.value);
        items := ReplaceIn(Container(items), x.value, n.(children := [])).children;
      case DelMarked =>
        DeleteMarkedClears(items);
        items := DeleteMarked(items);
      case DelOther =>
    }

    /** DEPTH of the item `ref` names: the root is at depth 0, each child one deeper. */
    method GetDepth(ref: NodeRef) returns (r: Option<int>)
      requires |items| >= 1
      modifies this`idControl
      ensures var x := Resolve(items, focus, old(idControl), ref);
              idControl == CounterAfter(items, old(idControl), ref) &&
              (r.Some? <==> x.Some?) &&
              (r.Some? ==> IsItemOf(items, x.value) &&
                           r.value == if x.value[0] == 0 then |x.value| - 1 else |x.value|)
    {
      ResolveIsItem(items, focus, idControl, ref);
      var x := FindNodeFromString(ref);
      if x.None? {
        return None;
      }
      var d := Depth(x.value);
      r := Some(d);
    }

    /** CHILDCOUNT of the item `ref` names: its number of direct children. */
    method GetChildCount(ref: NodeRef) returns (r: Option<int>)
      requires |items| >= 1
      modifies this`idControl
      ensures var x := Resolve(items, focus, old(idControl), ref);
              idControl == CounterAfter(items, old(idControl), ref) &&
              (r.Some? <==> x.Some?) &&
              (r.Some? ==> IsItemOf(items, x.value) && r.value == |ItemAt(items, x.value).children|)
    {
      ResolveIsItem(items, focus, idControl, ref);
      var x := FindNodeFromString(ref);
      if x.None? {
        return None;
      }
      r := Some(|ItemAt(items, x.value).children|);
    }

    /** COUNT: the number of items of the root sub-tree, which is the number of ids. */
    method GetCount() returns (n: int)
      requires |items| >= 1
      ensures n == Size(items[0]) && n == |IdWalk(items)|
    {
      PreLength(items[0], [0]);
      n := Count(items[0]);
    }
  }
}
