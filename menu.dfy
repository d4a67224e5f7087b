/** The menu helpers of IUP and its four menu classes: the walk up to the top menu, the child-id
    counter kept on the top menu, the element name built from it, the menu-bar test, the popup
    position sentinels, the mnemonic inserted into a title for the KEY attribute, and the Create
    methods and class descriptors of separator, item, submenu and menu. */
module Menu {
  import opened Wrappers

  newtype byte = b: int | 0 <= b < 256

  // ---------------------------------------------------------------------------------------
  // Constants of include/iup.h

  const IupNoError := 0
  /** Popup position sentinels. */
  const IupCenter := 0xFFFF
  const IupLeft := 0xFFFE
  const IupRight := 0xFFFD
  const IupMousePos := 0xFFFC
  const IupCurrent := 0xFFFB
  const IupCenterParent := 0xFFFA
  const IupTop := IupLeft
  const IupBottom := IupRight

  /** The byte '&' that marks a mnemonic. */
  const Amp: byte := 38

  // ---------------------------------------------------------------------------------------
  // Classes and handles

  /** The native types the menu code tells apart. */
  datatype NativeType = TypeDialog | TypeMenu | TypeOther

  /** How many children a class accepts. */
  datatype ChildType = ChildNone | ChildOne | ChildMany

  /** A class descriptor: name, parameter format of its Create method, native type, child policy
      and whether it takes part in user interaction. */
  datatype ClassDesc = ClassDesc(name: string, format: Option<string>, nativeType: NativeType,
                                 childType: ChildType, interactive: bool)

  function SeparatorClass(): ClassDesc { ClassDesc("separator", None, TypeMenu, ChildNone, false) }
  function ItemClass(): ClassDesc { ClassDesc("item", Some("SS"), TypeMenu, ChildNone, true) }
  function SubmenuClass(): ClassDesc { ClassDesc("submenu", Some("SH"), TypeMenu, ChildOne, true) }
  function MenuClass(): ClassDesc { ClassDesc("menu", Some("g"), TypeMenu, ChildMany, true) }

  /** Whether a class with policy `c` may hold `n` children. */
  predicate PolicyAllows(c: ChildType, n: nat)
  {
    match c
    case ChildNone => n == 0
    case ChildOne => n <= 1
    case ChildMany => true
  }

  /** The four menu classes are all of native type menu; only the separator is not interactive,
      and the child policies run from none (separator, item) through one (submenu) to many
      (menu). */
  lemma MenuClasses()
    ensures forall c :: c in [SeparatorClass(), ItemClass(), SubmenuClass(), MenuClass()] ==> c.nativeType == TypeMenu
    ensures !SeparatorClass().interactive && ItemClass().interactive && SubmenuClass().interactive && MenuClass().interactive
    ensures forall n: nat :: PolicyAllows(SeparatorClass().childType, n) <==> n == 0
    ensures forall n: nat :: PolicyAllows(ItemClass().childType, n) <==> n == 0
    ensures forall n: nat :: PolicyAllows(SubmenuClass().childType, n) <==> n <= 1
    ensures forall n: nat :: PolicyAllows(MenuClass().childType, n)
  {
  }

  /** An element: its class, its place in the hierarchy, the child-id counter of the menu data
      and its stored attributes. */
  class Handle {
    const cls: ClassDesc
    var parent: Handle?
    var children: seq<Handle>
    var childId: int
    var attribs: map<string, string>

    constructor(c: ClassDesc)
      ensures cls == c && parent == null && children == [] && childId == 0 && attribs == map[]
    {
      cls := c;
      parent := null;
      children := [];
      childId := 0;
      attribs := map[];
    }
  }

  /** `chain` lists `h` and its ancestors, each the parent of the one before, up to one without
      a parent: the parent links from `h` end. */
  predicate IsChain(h: Handle, chain: seq<Handle>)
    reads set x | x in chain
  {
    |chain| >= 1 && chain[0] == h &&
    (forall i :: 0 <= i < |chain| - 1 ==> chain[i].parent == chain[i + 1]) &&
    chain[|chain| - 1].parent == null
  }

  /** There is only one such list for a handle. */
  lemma {:induction false} ChainUnique(h: Handle, c1: seq<Handle>, c2: seq<Handle>)
    requires IsChain(h, c1) && IsChain(h, c2)
    ensures c1 == c2
    decreases |c1|
  {
    ChainNext(h, c1);
    ChainNext(h, c2);
    if |c1| > 1 {
      assert IsChain(c1[1], c1[1..]);
      assert IsChain(c1[1], c2[1..]);
      ChainUnique(c1[1], c1[1..], c2[1..]);
      assert c1 == [h] + c1[1..] && c2 == [h] + c2[1..];
    }
  }

  /** The second element of a chain, when there is one, is the parent. */
  lemma ChainNext(h: Handle, chain: seq<Handle>)
    requires IsChain(h, chain)
    ensures |chain| > 1 <==> h.parent != null
    ensures |chain| > 1 ==> h.parent == chain[1]
  {
  }

  /** The top menu of `h`: follow parent links until an element without a parent. */
  function TopMenu(h: Handle, ghost chain: seq<Handle>): (r: Handle)
    reads set x | x in chain
    requires IsChain(h, chain)
    ensures r in chain && r.parent == null && r == chain[|chain| - 1]
    decreases |chain|
  {
    ChainNext(h, chain);
    if h.parent == null then h
    else
      assert IsChain(h.parent, chain[1..]);
      TopMenu(h.parent, chain[1..])
  }

  /** A handle is a menu bar when its parent is a dialog. */
  predicate IsMenuBar(h: Handle)
    reads h
  {
    h.parent != null && h.parent.cls.nativeType == TypeDialog
  }

  /** A menu bar is not its own top menu: the dialog above it is (or lies below) the top. */
  lemma MenuBarBelowDialog(h: Handle, chain: seq<Handle>)
    requires IsChain(h, chain)
    ensures IsMenuBar(h) <==> |chain| >= 2 && chain[1].cls.nativeType == TypeDialog
    ensures IsMenuBar(h) ==> TopMenu(h, chain) != h
  {
  }

  // ---------------------------------------------------------------------------------------
  // Child ids

  /** One call of the counter: the id handed out and the counter left behind. A counter still at
      zero starts at 100. */
  function ChildIdStep(counter: int): (int, int)
  {
    var id := if counter == 0 then 100 else counter;
    (id, id + 1)
  }

  /** The ids `n` successive calls hand out. */
  function IdsFrom(counter: int, n: nat): seq<int>
    decreases n
  {
    if n == 0 then [] else [ChildIdStep(counter).0] + IdsFrom(ChildIdStep(counter).1, n - 1)
  }

  /** From a positive counter, successive calls count up by one. */
  lemma {:induction false} IdsCountUp(counter: int, n: nat)
    requires counter > 0
    ensures IdsFrom(counter, n) == seq(n, i requires 0 <= i < n => counter + i)
    decreases n
  {
    if n > 0 {
      IdsCountUp(counter + 1, n - 1);
    }
  }

  /** A new top menu hands out 100, 101, 102, ... */
  lemma FreshMenuIds(n: nat)
    ensures IdsFrom(0, n) == seq(n, i requires 0 <= i < n => 100 + i)
  {
    if n > 0 {
      IdsCountUp(101, n - 1);
    }
  }

  /** The next child id for an element of the menu `h`: handed out by the dialog when there is
      one (`inDialog`; the dialog's counter is not part of this model, so `None`), otherwise by
      the counter of the top menu `top`, which it advances. */
  method GetChildId(h: Handle, ghost chain: seq<Handle>, ghost top: Handle, inDialog: bool) returns (id: Option<int>)
    requires IsChain(h, chain) && top == chain[|chain| - 1]
    modifies top`childId
    ensures if inDialog then id.None? && top.childId == old(top.childId)
            else id == Some(ChildIdStep(old(top.childId)).0) && top.childId == ChildIdStep(old(top.childId)).1
  {
    if inDialog {
      return None;
    }
    var t := TopMenu(h, chain);
    var n := t.childId;
    if n == 0 {
      n := 100;
    }
    t.childId := n + 1;
    return Some(n);
  }

  function DigitChar(d: nat): (c: char)
    requires d < 10
    ensures '0' <= c <= '9' && c as int - '0' as int == d
  {
    ['0', '1', '2', '3', '4', '5', '6', '7', '8', '9'][d]
  }

  predicate AllDigits(s: string)
  {
    forall i :: 0 <= i < |s| ==> '0' <= s[i] <= '9'
  }

  /** The decimal digits of `n`, most significant first, without leading zeros. */
  function Digits(n: nat): (r: string)
    ensures |r| >= 1 && AllDigits(r) && (|r| > 1 ==> r[0] != '0')
    decreases n
  {
    if n < 10 then [DigitChar(n)] else Digits(n / 10) + [DigitChar(n % 10)]
  }

  /** The number a string of decimal digits spells. */
  function DigitsValue(s: string): nat
    requires AllDigits(s)
    decreases |s|
  {
    if |s| == 0 then 0 else DigitsValue(s[..|s| - 1]) * 10 + (s[|s| - 1] as int - '0' as int)
  }

  lemma {:induction false} DigitsRoundTrip(n: nat)
    ensures DigitsValue(Digits(n)) == n
    decreases n
  {
    if n >= 10 {
      DigitsRoundTrip(n / 10);
      var s := Digits(n);
      assert s[..|s| - 1] == Digits(n / 10);
    }
  }

  /** `%d` formatting of an int. */
  function Decimal(n: int): string
  {
    if n < 0 then "-" + Digits(-n) else Digits(n)
  }

  /** Reading back a `%d` string. */
  function ParseDecimal(s: string): int
  {
    if |s| > 0 && s[0] == '-' && AllDigits(s[1..]) then 0 - (DigitsValue(s[1..]) as int)
    else if AllDigits(s) then DigitsValue(s)
    else 0
  }

  /** A formatted number reads back as itself. */
  lemma DecimalRoundTrip(n: int)
    ensures ParseDecimal(Decimal(n)) == n
  {
    if n < 0 {
      DigitsRoundTrip(-n);
      assert Decimal(n)[1..] == Digits(-n);
    } else {
      DigitsRoundTrip(n);
    }
  }

  /** The name the menu element `h` gets from the current counter: "iup-<class>-<id>"; the counter
      is read, not advanced. */
  method GetChildIdStr(h: Handle, ghost chain: seq<Handle>, inDialog: bool) returns (s: Option<string>)
    requires IsChain(h, chain)
    ensures inDialog ==> s.None?
    ensures !inDialog ==> s == Some("iup-" + h.cls.name + "-" + Decimal(chain[|chain| - 1].childId))
  {
    if inDialog {
      return None;
    }
    var top := TopMenu(h, chain);
    return Some("iup-" + h.cls.name + "-" + Decimal(top.childId));
  }

  /** The id in a name built by GetChildIdStr reads back from the part after the class name. */
  lemma ChildIdStrRoundTrip(name: string, id: int)
    ensures var s := "iup-" + name + "-" + Decimal(id);
            s[..|name| + 5] == "iup-" + name + "-" && ParseDecimal(s[|name| + 5..]) == id
  {
    var s := "iup-" + name + "-" + Decimal(id);
    assert s[|name| + 5..] == Decimal(id);
    DecimalRoundTrip(id);
  }

  // ---------------------------------------------------------------------------------------
  // Popup position

  /** `w / 2` as C computes it, truncating toward zero. */
  function Half(w: int): (r: int)
    ensures w >= 0 ==> 0 <= r && 0 <= w - 2 * r <= 1
    ensures w < 0 ==> r <= 0 && 0 <= 2 * r - w <= 1
  {
    if w >= 0 then w / 2 else -((-w) / 2)
  }

  /** One popup coordinate once its sentinel is resolved against the screen size and the cursor
      position along the same axis. */
  function AdjustCoord(v: int, screen: int, cursor: int): int
  {
    if v == IupCenter then Half(screen)
    else if v == IupLeft then 0
    else if v == IupRight then screen
    else if v == IupMousePos then cursor
    else v
  }

  /** CENTER gives half the screen, LEFT/TOP the origin, RIGHT/BOTTOM the screen size, MOUSEPOS
      the cursor; every other value, CURRENT and CENTERPARENT among them, is kept. */
  lemma AdjustSentinels(v: int, screen: int, cursor: int)
    ensures AdjustCoord(IupCenter, screen, cursor) == Half(screen)
    ensures AdjustCoord(IupLeft, screen, cursor) == 0 && AdjustCoord(IupTop, screen, cursor) == 0
    ensures AdjustCoord(IupRight, screen, cursor) == screen && AdjustCoord(IupBottom, screen, cursor) == screen
    ensures AdjustCoord(IupMousePos, screen, cursor) == cursor
    ensures AdjustCoord(IupCurrent, screen, cursor) == IupCurrent
    ensures AdjustCoord(IupCenterParent, screen, cursor) == IupCenterParent
    ensures v !in [IupCenter, IupLeft, IupRight, IupMousePos] ==> AdjustCoord(v, screen, cursor) == v
  {
  }

  /** With an ordinary screen size and cursor position, a resolved coordinate is no longer a
      sentinel, so resolving twice is resolving once. */
  lemma AdjustIdempotent(v: int, screen: int, cursor: int)
    requires 0 <= screen < IupCenterParent && 0 <= cursor < IupCenterParent
    ensures AdjustCoord(AdjustCoord(v, screen, cursor), screen, cursor) == AdjustCoord(v, screen, cursor)
  {
  }

  /** Resolves both coordinates in place; the screen size and the cursor position are passed in
      and are only read when a coordinate needs them. */
  method AdjustPos(x: int, y: int, screenWidth: int, screenHeight: int, cursorX: int, cursorY: int)
    returns (x': int, y': int)
    ensures x' == AdjustCoord(x, screenWidth, cursorX) && y' == AdjustCoord(y, screenHeight, cursorY)
  {
    var cx, cy := 0, 0;
    var sw, sh := 0, 0;
    if x == IupCenter || y == IupCenter || x == IupRight || y == IupRight ||
       x == IupCenterParent || y == IupCenterParent {
      sw, sh := screenWidth, screenHeight;
    }
    if x == IupMousePos || y == IupMousePos {
      cx, cy := cursorX, cursorY;
    }
    x', y' := x, y;
    if x' == IupCenter {
      x' := Half(sw);
    } else if x' == IupLeft {
      x' := 0;
    } else if x' == IupRight {
      x' := sw;
    } else if x' == IupMousePos {
      x' := cx;
    }
    if y' == IupCenter {
      y' := Half(sh);
    } else if y' == IupLeft {
      y' := 0;
    } else if y' == IupRight {
      y' := sh;
    } else if y' == IupMousePos {
      y' := cy;
    }
  }

  // ---------------------------------------------------------------------------------------
  // Mnemonic in a title

  /** The byte a key code stands for when compared with the bytes of a C string. */
  function KeyByte(keychar: int): byte
  {
    (keychar % 256) as byte
  }

  /** Position of the first `b` in `s`, as `strchr` finds it. */
  function FirstIndexOf(s: seq<byte>, b: byte): (r: Option<nat>)
    ensures r.Some? <==> b in s
    ensures r.Some? ==> r.value < |s| && s[r.value] == b && b !in s[..r.value]
    decreases |s|
  {
    if |s| == 0 then None
    else if s[0] == b then Some(0)
    else
      var k := FirstIndexOf(s[1..], b);
      if k.None? then None
      else
        assert s[..k.value + 1] == [s[0]] + s[1..][..k.value];
        Some(k.value + 1)
  }

  /** The title shown for a menu element whose KEY attribute gives `key` (`None`: unset; the key
      name is already turned into its code): `&` goes before the first occurrence of the key's
      byte in the title. A C string ends with a zero byte, which the search also meets, so a key
      whose low byte is zero puts `&` at the end. */
  function MnemonicTitle(title: seq<byte>, key: Option<int>): seq<byte>
  {
    if key.None? || key.value == 0 then title
    else
      match FirstIndexOf(title + [0], KeyByte(key.value))
      case None => title
      case Some(pos) => title[..pos] + [Amp] + title[pos..]
  }

  /** The title is returned as it is when KEY is unset, has code 0 or its byte does not occur. */
  lemma MnemonicUnchanged(title: seq<byte>, key: Option<int>)
    requires key.None? || key.value == 0 || (KeyByte(key.value) != 0 && KeyByte(key.value) !in title)
    ensures MnemonicTitle(title, key) == title
  {
    if key.Some? && key.value != 0 {
      assert KeyByte(key.value) !in title + [0];
    }
  }

  /** An occurrence with none before it is the one FirstIndexOf finds. */
  lemma {:induction false} FirstIndexAt(s: seq<byte>, b: byte, i: nat)
    requires i < |s| && s[i] == b && b !in s[..i]
    ensures FirstIndexOf(s, b) == Some(i)
    decreases i
  {
    if i > 0 {
      assert s[..i][0] == s[0];
      assert s[1..][..i - 1] == s[1..i];
      assert s[..i] == [s[0]] + s[1..i];
      FirstIndexAt(s[1..], b, i - 1);
    }
  }

  /** Otherwise the result is one byte longer: `&` right before the first occurrence of the key's
      byte, the bytes before and after it as they were; taking the `&` out gives the title back. */
  lemma MnemonicInserted(title: seq<byte>, k: int)
    requires 0 !in title && k != 0 && (KeyByte(k) in title || KeyByte(k) == 0)
    ensures var r := MnemonicTitle(title, Some(k));
            var pos := if KeyByte(k) == 0 then |title| else FirstIndexOf(title, KeyByte(k)).value;
            |r| == |title| + 1 && r[pos] == Amp && r[..pos] == title[..pos] && r[pos + 1..] == title[pos..] &&
            KeyByte(k) !in title[..pos] && (pos < |title| ==> title[pos] == KeyByte(k)) &&
            r[..pos] + r[pos + 1..] == title
  {
    var b := KeyByte(k);
    var pos := if b == 0 then |title| else FirstIndexOf(title, b).value;
    MnemonicFound(title, b, pos);
    InsertedAt(title, pos);
  }

  /** The search through the title and its terminator stops at `pos`. */
  lemma MnemonicFound(title: seq<byte>, b: byte, pos: nat)
    requires 0 !in title && (b in title || b == 0)
    requires pos == if b == 0 then |title| else FirstIndexOf(title, b).value
    ensures FirstIndexOf(title + [0], b) == Some(pos)
    ensures b !in title[..pos] && (pos < |title| ==> title[pos] == b)
  {
    var s := title + [0];
    assert s[..|title|] == title;
    if b != 0 {
      assert s[..pos] == title[..pos];
    }
    FirstIndexAt(s, b, pos);
  }

  /** One byte inserted at `pos`: the bytes around it stay, and taking it out restores the
      original. */
  lemma InsertedAt(title: seq<byte>, pos: nat)
    requires pos <= |title|
    ensures var r := title[..pos] + [Amp] + title[pos..];
            |r| == |title| + 1 && r[pos] == Amp && r[..pos] == title[..pos] && r[pos + 1..] == title[pos..] &&
            r[..pos] + r[pos + 1..] == title
  {
    var r := title[..pos] + [Amp] + title[pos..];
    assert r[..pos] == title[..pos];
    assert r[pos + 1..] == title[pos..];
  }

  /** `strchr`: the index of the first `b` in the C string `title`, its terminating zero
      included, or -1. */
  method Strchr(title: seq<byte>, b: byte) returns (pos: int)
    ensures pos == (match FirstIndexOf(title + [0], b) case None => -1 case Some(i) => i as int)
  {
    var s := title + [0];
    var i := 0;
    while i < |s|
      invariant 0 <= i <= |s|
      invariant b !in s[..i]
    {
      if s[i] == b {
        FirstIndexAt(s, b, i);
        return i;
      }
      assert s[..i + 1] == s[..i] + [s[i]];
      i := i + 1;
    }
    assert s[..i] == s;
    return -1;
  }

  /** The title with its mnemonic, built in a new buffer the way the driver copies it. The title
      is a C string, so it holds no zero byte. */
  method GetTitle(title: seq<byte>, key: Option<int>) returns (r: seq<byte>)
    requires 0 !in title
    ensures r == MnemonicTitle(title, key)
  {
    if key.None? {
      return title;
    }
    var keychar := key.value;
    if keychar == 0 {
      return title;
    }
    var pos := Strchr(title, KeyByte(keychar));
    if pos < 0 {
      return title;
    }
    var len := |title|;
    var buf := new byte[len + 2];
    forall i | 0 <= i < pos {
      buf[i] := title[i];
    }
    buf[pos] := Amp;
    var src := title + [0];
    forall i | pos <= i < len + 1 {
      buf[i + 1] := src[i];
    }
    r := buf[..len + 1];
    assert r == title[..pos] + [Amp] + title[pos..] by {
      forall i | 0 <= i < |r|
        ensures r[i] == (title[..pos] + [Amp] + title[pos..])[i]
      {
        if i > pos {
          assert src[i - 1] == title[i - 1];
        }
      }
    }
  }

  // ---------------------------------------------------------------------------------------
  // Create methods

  /** The attributes once `value`, when given, is stored under `name`. */
  function Stored(a: map<string, string>, name: string, value: Option<string>): map<string, string>
  {
    if value.Some? then a[name := value.value] else a
  }

  /** The menu handles of a parameter list, in order. */
  function MenuTyped(hs: seq<Handle>): seq<Handle>
  {
    if |hs| == 0 then []
    else MenuTyped(hs[..|hs| - 1]) + (if hs[|hs| - 1].cls.nativeType == TypeMenu then [hs[|hs| - 1]] else [])
  }

  /** MenuTyped keeps exactly the menu handles, no more than there were. */
  lemma {:induction false} MenuTypedKeeps(hs: seq<Handle>)
    ensures |MenuTyped(hs)| <= |hs|
    ensures forall c :: c in MenuTyped(hs) <==> c in hs && c.cls.nativeType == TypeMenu
    decreases |hs|
  {
    if |hs| > 0 {
      var init := hs[..|hs| - 1];
      MenuTypedKeeps(init);
      assert hs == init + [hs[|hs| - 1]];
    }
  }

  /** IupAppend, reduced to linking `child` as the last child of `ih`. */
  method Append(ih: Handle, child: Handle)
    modifies ih`children, child`parent
    ensures ih.children == old(ih.children) + [child] && child.parent == ih
  {
    child.parent := ih;
    ih.children := ih.children + [child];
  }

  /** Item Create: TITLE and ACTION are stored only when given. */
  method ItemCreate(ih: Handle, params: Option<(Option<string>, Option<string>)>) returns (result: int)
    modifies ih`attribs
    ensures result == IupNoError
    ensures ih.attribs == if params.Some? then Stored(Stored(old(ih.attribs), "TITLE", params.value.0), "ACTION", params.value.1)
                          else old(ih.attribs)
  {
    if params.Some? {
      if params.value.0.Some? {
        ih.attribs := ih.attribs["TITLE" := params.value.0.value];
      }
      if params.value.1.Some? {
        ih.attribs := ih.attribs["ACTION" := params.value.1.value];
      }
    }
    return IupNoError;
  }

  /** Submenu Create: stores TITLE when given and appends the child when it is given and is a
      menu element; a new submenu so ends with at most the one child its policy allows. */
  method SubmenuCreate(ih: Handle, params: Option<(Option<string>, Option<Handle>)>) returns (result: int)
    modifies ih`attribs, ih`children
    modifies (if params.Some? && params.value.1.Some? then {params.value.1.value} else {})`parent
    ensures result == IupNoError
    ensures ih.attribs == if params.Some? then Stored(old(ih.attribs), "TITLE", params.value.0) else old(ih.attribs)
    ensures var appended := params.Some? && params.value.1.Some? && params.value.1.value.cls.nativeType == TypeMenu;
            ih.children == old(ih.children) + (if appended then [params.value.1.value] else []) &&
            (appended ==> params.value.1.value.parent == ih) &&
            (params.Some? && params.value.1.Some? && !appended ==>
               params.value.1.value.parent == old(params.value.1.value.parent))
    ensures old(ih.children) == [] ==> PolicyAllows(SubmenuClass().childType, |ih.children|)
  {
    if params.Some? {
      if params.value.0.Some? {
        ih.attribs := ih.attribs["TITLE" := params.value.0.value];
      }
      if params.value.1.Some? {
        var child := params.value.1.value;
        if child.cls.nativeType == TypeMenu {
          Append(ih, child);
        }
      }
    }
    return IupNoError;
  }

  /** Menu Create: zeroes the menu data (its child-id counter) and appends, in order, every
      parameter that is a menu element. */
  method MenuCreate(ih: Handle, params: Option<seq<Handle>>) returns (result: int)
    modifies ih`childId, ih`children
    modifies (if params.Some? then set c | c in params.value else {})`parent
    ensures result == IupNoError && ih.childId == 0
    ensures ih.children == old(ih.children) + (if params.Some? then MenuTyped(params.value) else [])
    ensures params.Some? ==> forall j :: 0 <= j < |params.value| ==>
              if params.value[j].cls.nativeType == TypeMenu then params.value[j].parent == ih
              else params.value[j].parent == old(params.value[j].parent)
  {
    ih.childId := 0;
    if params.None? {
      return IupNoError;
    }
    var kids := params.value;
    var i := 0;
    while i != |kids|
      invariant 0 <= i <= |kids|
      invariant ih.childId == 0
      invariant ih.children == old(ih.children) + MenuTyped(kids[..i])
      invariant forall j :: 0 <= j < i && kids[j].cls.nativeType == TypeMenu ==> kids[j].parent == ih
      invariant forall j :: 0 <= j < |kids| && kids[j].cls.nativeType != TypeMenu ==> kids[j].parent == old(kids[j].parent)
    {
      var child := kids[i];
      assert kids[..i + 1][..i] == kids[..i];
      if child.cls.nativeType == TypeMenu {
        Append(ih, child);
      }
      i := i + 1;
    }
    assert kids[..i] == kids;
    return IupNoError;
  }
}
