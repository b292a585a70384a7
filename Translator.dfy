/**
 * Translation of a window's element tree: every visited element whose name
 * has a non-blank text in the current pack gets that text.  Element kinds
 * are a closed set: controls (which may host a context menu, and may be a
 * tool strip with items), context menus, plain items, and menu items with
 * drop-down items.
 */
module Translator {
  import opened Wrappers
  import opened Text
  import opened LanguageStore

  /** A tool-strip item: a plain item, or a menu item with its drop-down items. */
  datatype Item =
    | PlainItem(name: string, text: string)
    | MenuItem(name: string, text: string, dropDownItems: seq<Item>)

  /** A context menu: only its items carry translatable text. */
  datatype ContextMenu = ContextMenu(items: seq<Item>)

  /**
   * A control: its child controls, the context menu attached to it (None
   * for null), and, when the control is a tool strip, the strip's items.
   */
  datatype Control = Control(
    name: string,
    text: string,
    controls: seq<Control>,
    contextMenu: Option<ContextMenu>,
    toolStripItems: Option<seq<Item>>)

  /** The element's text is what translation gives it: the pack's text for its name, unless that is blank. */
  predicate HasTranslatedText(pack: Language, name: string, text: string)
  {
    var data := Lookup(pack, name);
    IsNullOrWhiteSpace(data) || text == data
  }

  /** The text an element gets: the pack's text for its name when that is not blank, else the old text. */
  function NewText(pack: Language, name: string, text: string): (r: string)
    ensures HasTranslatedText(pack, name, r)
    ensures IsNullOrWhiteSpace(Lookup(pack, name)) ==> r == text
  {
    var data := Lookup(pack, name);
    if IsNullOrWhiteSpace(data) then text else data
  }

  // -------------------------------------------------------------- the walk

  /** Translate(ToolStripItem): the item's own text, then its drop-down items when it is a menu item. */
  function TranslateItem(pack: Language, t: Item): (r: Item)
    ensures r.name == t.name && r.MenuItem? == t.MenuItem?
    ensures HasTranslatedText(pack, r.name, r.text)
    ensures IsNullOrWhiteSpace(Lookup(pack, t.name)) ==> r.text == t.text
    ensures t.MenuItem? ==> |r.dropDownItems| == |t.dropDownItems|
    decreases t
  {
    match t
    case PlainItem(name, text) => PlainItem(name, NewText(pack, name, text))
    case MenuItem(name, text, items) => MenuItem(name, NewText(pack, name, text), TranslateItems(pack, items))
  }

  /** Each item of a strip, context menu or drop-down, in order. */
  function TranslateItems(pack: Language, items: seq<Item>): (r: seq<Item>)
    ensures |r| == |items|
    ensures forall i :: 0 <= i < |items| ==> r[i].name == items[i].name
    decreases items
  {
    seq(|items|, i requires 0 <= i < |items| => TranslateItem(pack, items[i]))
  }

  /** Translate(ContextMenuStrip): nothing for a null menu, otherwise each of its items. */
  function TranslateContextMenu(pack: Language, menu: Option<ContextMenu>): (r: Option<ContextMenu>)
    ensures menu.None? ==> r.None?
    ensures menu.Some? ==> r.Some? && |r.value.items| == |menu.value.items|
  {
    match menu
    case None => None
    case Some(m) => Some(ContextMenu(TranslateItems(pack, m.items)))
  }

  /**
   * Translate(Control): the control's own text; each child control, and
   * that child's context menu; and the items when the control is a tool
   * strip.  The control's own context menu is not visited.
   */
  function TranslateControl(pack: Language, c: Control): (r: Control)
    ensures r.name == c.name && |r.controls| == |c.controls|
    ensures HasTranslatedText(pack, r.name, r.text)
    ensures IsNullOrWhiteSpace(Lookup(pack, c.name)) ==> r.text == c.text
    ensures r.contextMenu == c.contextMenu
    ensures r.toolStripItems.Some? == c.toolStripItems.Some?
  {
    Control(
      c.name,
      NewText(pack, c.name, c.text),
      seq(|c.controls|, i requires 0 <= i < |c.controls| =>
        TranslateControl(pack, c.controls[i]).(contextMenu := TranslateContextMenu(pack, c.controls[i].contextMenu))),
      c.contextMenu,
      match c.toolStripItems
      case None => None
      case Some(items) => Some(TranslateItems(pack, items)))
  }

  /** Translate(ControlCollection): each control of the collection (their context menus are not visited). */
  function TranslateCollection(pack: Language, controls: seq<Control>): (r: seq<Control>)
    ensures |r| == |controls|
    ensures forall i :: 0 <= i < |controls| ==> r[i].contextMenu == controls[i].contextMenu
  {
    seq(|controls|, i requires 0 <= i < |controls| => TranslateControl(pack, controls[i]))
  }

  // ------------------------------------------------ what "translated" means

  predicate ItemTranslated(pack: Language, t: Item)
  {
    && HasTranslatedText(pack, t.name, t.text)
    && (t.MenuItem? ==> forall i :: 0 <= i < |t.dropDownItems| ==> ItemTranslated(pack, t.dropDownItems[i]))
  }

  predicate ItemsTranslated(pack: Language, items: seq<Item>)
  {
    forall i :: 0 <= i < |items| ==> ItemTranslated(pack, items[i])
  }

  predicate MenuTranslated(pack: Language, menu: Option<ContextMenu>)
  {
    menu.Some? ==> ItemsTranslated(pack, menu.value.items)
  }

  /**
   * Every element the walk reaches from `c` shows its translated text:
   * `c` itself, every descendant control, the context menu of every
   * descendant, and every item of a tool strip, context menu or drop-down
   * below them.
   */
  predicate ControlTranslated(pack: Language, c: Control)
  {
    && HasTranslatedText(pack, c.name, c.text)
    && (forall i :: 0 <= i < |c.controls| ==>
          ControlTranslated(pack, c.controls[i]) && MenuTranslated(pack, c.controls[i].contextMenu))
    && (c.toolStripItems.Some? ==> ItemsTranslated(pack, c.toolStripItems.value))
  }

  // ------------------------------------- what the walk makes of each element

  /**
   * `r` is item `t` after the walk: same name and kind, the text rule
   * applied to its own text, and each drop-down item in turn.
   */
  predicate ItemTranslatedFrom(pack: Language, t: Item, r: Item)
  {
    && r.name == t.name
    && r.MenuItem? == t.MenuItem?
    && r.text == NewText(pack, t.name, t.text)
    && (t.MenuItem? ==>
          && |r.dropDownItems| == |t.dropDownItems|
          && forall i :: 0 <= i < |t.dropDownItems| ==> ItemTranslatedFrom(pack, t.dropDownItems[i], r.dropDownItems[i]))
  }

  predicate ItemsTranslatedFrom(pack: Language, items: seq<Item>, r: seq<Item>)
  {
    && |r| == |items|
    && forall i :: 0 <= i < |items| ==> ItemTranslatedFrom(pack, items[i], r[i])
  }

  predicate MenuTranslatedFrom(pack: Language, menu: Option<ContextMenu>, r: Option<ContextMenu>)
  {
    && r.Some? == menu.Some?
    && (menu.Some? ==> ItemsTranslatedFrom(pack, menu.value.items, r.value.items))
  }

  /**
   * `r` is control `c` after Translate(Control): the text rule on `c`'s own
   * text; each child in turn, with the child's context menu translated as
   * well; the strip's items when `c` is a tool strip.  `c`'s own context
   * menu is not reached and stays exactly as it was.
   */
  predicate ControlTranslatedFrom(pack: Language, c: Control, r: Control)
  {
    && r.name == c.name
    && r.text == NewText(pack, c.name, c.text)
    && |r.controls| == |c.controls|
    && (forall i :: 0 <= i < |c.controls| ==>
          && ControlTranslatedFrom(pack, c.controls[i], r.controls[i].(contextMenu := c.controls[i].contextMenu))
          && MenuTranslatedFrom(pack, c.controls[i].contextMenu, r.controls[i].contextMenu))
    && r.contextMenu == c.contextMenu
    && r.toolStripItems.Some? == c.toolStripItems.Some?
    && (c.toolStripItems.Some? ==> ItemsTranslatedFrom(pack, c.toolStripItems.value, r.toolStripItems.value))
  }

  // ---------------------------------------------------- shape of the tree

  /** The tree with every text blanked: names, kinds and structure only. */
  function EraseItem(t: Item): Item
  {
    match t
    case PlainItem(name, _) => PlainItem(name, "")
    case MenuItem(name, _, items) =>
      MenuItem(name, "", seq(|items|, i requires 0 <= i < |items| => EraseItem(items[i])))
  }

  function EraseItems(items: seq<Item>): seq<Item>
  {
    seq(|items|, i requires 0 <= i < |items| => EraseItem(items[i]))
  }

  function EraseMenu(menu: Option<ContextMenu>): Option<ContextMenu>
  {
    match menu
    case None => None
    case Some(m) => Some(ContextMenu(EraseItems(m.items)))
  }

  function EraseControl(c: Control): Control
  {
    Control(
      c.name,
      "",
      seq(|c.controls|, i requires 0 <= i < |c.controls| => EraseControl(c.controls[i])),
      EraseMenu(c.contextMenu),
      match c.toolStripItems
      case None => None
      case Some(items) => Some(EraseItems(items)))
  }

  // --------------------------------------------------------------- lemmas

  /** The walk reaches every item below a menu item. */
  lemma {:induction false} TranslateItemCovers(pack: Language, t: Item)
    ensures ItemTranslated(pack, TranslateItem(pack, t))
    decreases t
  {
    if t.MenuItem? {
      forall i | 0 <= i < |t.dropDownItems|
        ensures ItemTranslated(pack, TranslateItem(pack, t).dropDownItems[i])
      {
        TranslateItemCovers(pack, t.dropDownItems[i]);
      }
    }
  }

  lemma TranslateItemsCover(pack: Language, items: seq<Item>)
    ensures ItemsTranslated(pack, TranslateItems(pack, items))
  {
    forall i | 0 <= i < |items|
      ensures ItemTranslated(pack, TranslateItems(pack, items)[i])
    {
      TranslateItemCovers(pack, items[i]);
    }
  }

  /** Coverage: after Translate(Control), every element the walk is meant to reach is translated. */
  lemma {:induction false} TranslateControlCovers(pack: Language, c: Control)
    ensures ControlTranslated(pack, TranslateControl(pack, c))
    decreases c
  {
    var r := TranslateControl(pack, c);
    forall i | 0 <= i < |c.controls|
      ensures ControlTranslated(pack, r.controls[i]) && MenuTranslated(pack, r.controls[i].contextMenu)
    {
      TranslateControlCovers(pack, c.controls[i]);
      var m := c.controls[i].contextMenu;
      if m.Some? {
        TranslateItemsCover(pack, m.value.items);
      }
    }
    if c.toolStripItems.Some? {
      TranslateItemsCover(pack, c.toolStripItems.value);
    }
  }

  /** An item already translated is left exactly as it is. */
  lemma {:induction false} TranslatedItemIsFixed(pack: Language, t: Item)
    requires ItemTranslated(pack, t)
    ensures TranslateItem(pack, t) == t
    decreases t
  {
    if t.MenuItem? {
      var r := TranslateItem(pack, t);
      forall i | 0 <= i < |t.dropDownItems|
        ensures r.dropDownItems[i] == t.dropDownItems[i]
      {
        assert r.dropDownItems == TranslateItems(pack, t.dropDownItems);
        assert r.dropDownItems[i] == TranslateItem(pack, t.dropDownItems[i]);
        TranslatedItemIsFixed(pack, t.dropDownItems[i]);
      }
      assert r.dropDownItems == t.dropDownItems;
    }
  }

  lemma TranslatedItemsAreFixed(pack: Language, items: seq<Item>)
    requires ItemsTranslated(pack, items)
    ensures TranslateItems(pack, items) == items
  {
    forall i | 0 <= i < |items|
      ensures TranslateItems(pack, items)[i] == items[i]
    {
      TranslatedItemIsFixed(pack, items[i]);
    }
  }

  /** A tree already translated is left exactly as it is. */
  lemma {:induction false} TranslatedControlIsFixed(pack: Language, c: Control)
    requires ControlTranslated(pack, c)
    ensures TranslateControl(pack, c) == c
    decreases c
  {
    var r := TranslateControl(pack, c);
    forall i | 0 <= i < |c.controls|
      ensures r.controls[i] == c.controls[i]
    {
      TranslatedControlIsFixed(pack, c.controls[i]);
      var m := c.controls[i].contextMenu;
      if m.Some? {
        TranslatedItemsAreFixed(pack, m.value.items);
      }
    }
    assert r.controls == c.controls;
    if c.toolStripItems.Some? {
      TranslatedItemsAreFixed(pack, c.toolStripItems.value);
    }
  }

  /** Translating twice gives the same tree as translating once. */
  lemma TranslateIdempotent(pack: Language, c: Control)
    ensures TranslateControl(pack, TranslateControl(pack, c)) == TranslateControl(pack, c)
  {
    TranslateControlCovers(pack, c);
    TranslatedControlIsFixed(pack, TranslateControl(pack, c));
  }

  lemma {:induction false} TranslateItemKeepsShape(pack: Language, t: Item)
    ensures EraseItem(TranslateItem(pack, t)) == EraseItem(t)
    decreases t
  {
    if t.MenuItem? {
      forall i | 0 <= i < |t.dropDownItems|
        ensures EraseItem(TranslateItem(pack, t.dropDownItems[i])) == EraseItem(t.dropDownItems[i])
      {
        TranslateItemKeepsShape(pack, t.dropDownItems[i]);
      }
      assert EraseItem(TranslateItem(pack, t)).dropDownItems == EraseItem(t).dropDownItems;
    }
  }

  lemma TranslateItemsKeepShape(pack: Language, items: seq<Item>)
    ensures EraseItems(TranslateItems(pack, items)) == EraseItems(items)
  {
    forall i | 0 <= i < |items|
      ensures EraseItems(TranslateItems(pack, items))[i] == EraseItems(items)[i]
    {
      TranslateItemKeepsShape(pack, items[i]);
    }
  }

  /** Translation changes texts only: names, kinds and the shape of the tree stay as they were. */
  lemma {:induction false} TranslateControlKeepsShape(pack: Language, c: Control)
    ensures EraseControl(TranslateControl(pack, c)) == EraseControl(c)
    decreases c
  {
    var r := TranslateControl(pack, c);
    forall i | 0 <= i < |c.controls|
      ensures EraseControl(r.controls[i]) == EraseControl(c.controls[i])
    {
      TranslateControlKeepsShape(pack, c.controls[i]);
      var m := c.controls[i].contextMenu;
      if m.Some? {
        TranslateItemsKeepShape(pack, m.value.items);
      }
    }
    assert EraseControl(r).controls == EraseControl(c).controls;
    if c.toolStripItems.Some? {
      TranslateItemsKeepShape(pack, c.toolStripItems.value);
    }
  }

  /** Every control of a translated collection is walked as Translate(Control) walks it, is translated and keeps its shape. */
  lemma TranslateCollectionCovers(pack: Language, controls: seq<Control>)
    ensures forall i :: 0 <= i < |controls| ==>
      && ControlTranslatedFrom(pack, controls[i], TranslateCollection(pack, controls)[i])
      && ControlTranslated(pack, TranslateCollection(pack, controls)[i])
      && EraseControl(TranslateCollection(pack, controls)[i]) == EraseControl(controls[i])
  {
    forall i | 0 <= i < |controls|
      ensures ControlTranslatedFrom(pack, controls[i], TranslateCollection(pack, controls)[i])
      ensures ControlTranslated(pack, TranslateCollection(pack, controls)[i])
      ensures EraseControl(TranslateCollection(pack, controls)[i]) == EraseControl(controls[i])
    {
      TranslateControlIsTranslatedFrom(pack, controls[i]);
      TranslateControlCovers(pack, controls[i]);
      TranslateControlKeepsShape(pack, controls[i]);
    }
  }

  /** The walk applies the text rule to the item and to every drop-down item below it. */
  lemma {:induction false} TranslateItemIsTranslatedFrom(pack: Language, t: Item)
    ensures ItemTranslatedFrom(pack, t, TranslateItem(pack, t))
    decreases t
  {
    if t.MenuItem? {
      var r := TranslateItem(pack, t);
      forall i | 0 <= i < |t.dropDownItems|
        ensures ItemTranslatedFrom(pack, t.dropDownItems[i], r.dropDownItems[i])
      {
        assert r.dropDownItems == TranslateItems(pack, t.dropDownItems);
        assert r.dropDownItems[i] == TranslateItem(pack, t.dropDownItems[i]);
        TranslateItemIsTranslatedFrom(pack, t.dropDownItems[i]);
      }
    }
  }

  lemma TranslateItemsAreTranslatedFrom(pack: Language, items: seq<Item>)
    ensures ItemsTranslatedFrom(pack, items, TranslateItems(pack, items))
  {
    forall i | 0 <= i < |items|
      ensures ItemTranslatedFrom(pack, items[i], TranslateItems(pack, items)[i])
    {
      TranslateItemIsTranslatedFrom(pack, items[i]);
    }
  }

  lemma TranslateContextMenuIsTranslatedFrom(pack: Language, menu: Option<ContextMenu>)
    ensures MenuTranslatedFrom(pack, menu, TranslateContextMenu(pack, menu))
  {
    if menu.Some? {
      TranslateItemsAreTranslatedFrom(pack, menu.value.items);
    }
  }

  /** Translate(Control) is exactly the walk described by ControlTranslatedFrom. */
  lemma {:induction false} TranslateControlIsTranslatedFrom(pack: Language, c: Control)
    ensures ControlTranslatedFrom(pack, c, TranslateControl(pack, c))
    decreases c
  {
    var r := TranslateControl(pack, c);
    forall i | 0 <= i < |c.controls|
      ensures ControlTranslatedFrom(pack, c.controls[i], r.controls[i].(contextMenu := c.controls[i].contextMenu))
      ensures MenuTranslatedFrom(pack, c.controls[i].contextMenu, r.controls[i].contextMenu)
    {
      var child := c.controls[i];
      assert r.controls[i].(contextMenu := child.contextMenu) == TranslateControl(pack, child);
      TranslateControlIsTranslatedFrom(pack, child);
      TranslateContextMenuIsTranslatedFrom(pack, child.contextMenu);
    }
    if c.toolStripItems.Some? {
      TranslateItemsAreTranslatedFrom(pack, c.toolStripItems.value);
    }
  }

  /** Only the walk's own result is related to an item by ItemTranslatedFrom. */
  lemma {:induction false} ItemTranslatedFromIsUnique(pack: Language, t: Item, r: Item)
    requires ItemTranslatedFrom(pack, t, r)
    ensures r == TranslateItem(pack, t)
    decreases t
  {
    if t.MenuItem? {
      var w := TranslateItem(pack, t);
      forall i | 0 <= i < |t.dropDownItems|
        ensures r.dropDownItems[i] == w.dropDownItems[i]
      {
        assert w.dropDownItems == TranslateItems(pack, t.dropDownItems);
        ItemTranslatedFromIsUnique(pack, t.dropDownItems[i], r.dropDownItems[i]);
      }
      assert r.dropDownItems == w.dropDownItems;
    }
  }

  lemma ItemsTranslatedFromIsUnique(pack: Language, items: seq<Item>, r: seq<Item>)
    requires ItemsTranslatedFrom(pack, items, r)
    ensures r == TranslateItems(pack, items)
  {
    forall i | 0 <= i < |items|
      ensures r[i] == TranslateItems(pack, items)[i]
    {
      ItemTranslatedFromIsUnique(pack, items[i], r[i]);
    }
  }

  /**
   * Only the walk's own result is related to a control by
   * ControlTranslatedFrom: with TranslateControlIsTranslatedFrom, the
   * relation holds exactly for r == TranslateControl(pack, c).
   */
  lemma {:induction false} ControlTranslatedFromIsUnique(pack: Language, c: Control, r: Control)
    requires ControlTranslatedFrom(pack, c, r)
    ensures r == TranslateControl(pack, c)
    decreases c
  {
    var w := TranslateControl(pack, c);
    forall i | 0 <= i < |c.controls|
      ensures r.controls[i] == w.controls[i]
    {
      var child := c.controls[i];
      ControlTranslatedFromIsUnique(pack, child, r.controls[i].(contextMenu := child.contextMenu));
      if child.contextMenu.Some? {
        ItemsTranslatedFromIsUnique(pack, child.contextMenu.value.items, r.controls[i].contextMenu.value.items);
      }
    }
    assert r.controls == w.controls;
    if c.toolStripItems.Some? {
      ItemsTranslatedFromIsUnique(pack, c.toolStripItems.value, r.toolStripItems.value);
    }
  }

  // ----------------------------------------------- entry points on the state

  /**
   * Translate(Control) against the manager's state: a null control is left
   * alone without a lookup; otherwise the first lookup fails, before any
   * text is written, when the current culture has no pack.
   */
  function Translate(m: LanguageManager, c: Option<Control>): (r: Result<Option<Control>, DataError>)
    reads m
    ensures c.None? ==> r == Success(None)
    ensures c.Some? ==> (r.Success? <==> m.CurrentPack().Success?)
    ensures r.Success? && c.Some? ==>
      && r.value.Some?
      && ControlTranslatedFrom(m.CurrentPack().value, c.value, r.value.value)
      && ControlTranslated(m.CurrentPack().value, r.value.value)
      && EraseControl(r.value.value) == EraseControl(c.value)
  {
    match c
    case None => Success(None)
    case Some(control) =>
      match m.CurrentPack()
      case Failure(e) => Failure(e)
      case Success(pack) =>
        TranslateControlIsTranslatedFrom(pack, control);
        TranslateControlCovers(pack, control);
        TranslateControlKeepsShape(pack, control);
        Success(Some(TranslateControl(pack, control)))
  }

  /**
   * Translate(ControlCollection) against the manager's state: an empty
   * collection needs no lookup; otherwise every control is translated, or
   * the first lookup fails when the current culture has no pack.
   */
  function TranslateAll(m: LanguageManager, controls: seq<Control>): (r: Result<seq<Control>, DataError>)
    reads m
    ensures controls == [] ==> r == Success([])
    ensures controls != [] ==> (r.Success? <==> m.CurrentPack().Success?)
    ensures r.Success? && controls != [] ==>
      && |r.value| == |controls|
      && (forall i :: 0 <= i < |controls| ==>
            && ControlTranslatedFrom(m.CurrentPack().value, controls[i], r.value[i])
            && ControlTranslated(m.CurrentPack().value, r.value[i])
            && EraseControl(r.value[i]) == EraseControl(controls[i])
            && r.value[i].contextMenu == controls[i].contextMenu)
  {
    if controls == [] then Success([])
    else
      match m.CurrentPack()
      case Failure(e) => Failure(e)
      case Success(pack) =>
        TranslateCollectionCovers(pack, controls);
        Success(TranslateCollection(pack, controls))
  }

  // ------------------------------------------------------------- an example

  /**
   * A pack for "en" with texts for "welcometitle" and "cancelbutton": the
   * element named "welcomeTitle" and the menu item named "cancelButton" get
   * them, and the element named "unknownKey" keeps its text.
   */
  lemma WelcomeExample()
    ensures var pack := Language("en", "English", map["welcometitle" := "Welcome", "cancelbutton" := "Cancel"]);
      var root := Control("mainWindow", "Main", [
          Control("welcomeTitle", "title", [], None, None),
          Control("unknownKey", "original", [], None, None),
          Control("menu", "", [], None, Some([MenuItem("fileMenu", "File", [PlainItem("cancelButton", "x")])]))
        ], None, None);
      var r := TranslateControl(pack, root);
      && r.controls[0].text == "Welcome"
      && r.controls[1].text == "original"
      && r.controls[2].toolStripItems.value[0].dropDownItems[0].text == "Cancel"
  {
    var pack := Language("en", "English", map["welcometitle" := "Welcome", "cancelbutton" := "Cancel"]);
    var title := Control("welcomeTitle", "title", [], None, None);
    var unknown := Control("unknownKey", "original", [], None, None);
    var cancel := PlainItem("cancelButton", "x");
    var file := MenuItem("fileMenu", "File", [cancel]);
    var menu := Control("menu", "", [], None, Some([file]));
    var root := Control("mainWindow", "Main", [title, unknown, menu], None, None);
    var r := TranslateControl(pack, root);
    assert Lookup(pack, "welcomeTitle") == "Welcome" by {
      assert ToLower("welcomeTitle") == "welcometitle";
    }
    assert Lookup(pack, "unknownKey") == "" by {
      assert ToLower("unknownKey") == "unknownkey";
    }
    assert Lookup(pack, "cancelButton") == "Cancel" by {
      assert ToLower("cancelButton") == "cancelbutton";
    }
    assert !IsNullOrWhiteSpace("Welcome") by { assert !IsWhiteSpace("Welcome"[0]); }
    assert !IsNullOrWhiteSpace("Cancel") by { assert !IsWhiteSpace("Cancel"[0]); }
    assert r.controls[0].text == TranslateControl(pack, title).text == "Welcome";
    assert r.controls[1].text == TranslateControl(pack, unknown).text == "original";
    assert r.controls[2].toolStripItems.value[0] == TranslateItem(pack, file);
    assert TranslateItem(pack, file).dropDownItems[0] == TranslateItem(pack, cancel);
  }
}
