/** The editor component itself: the document, the selection and the pending
    marks the library keeps on the editor object, together with the popup
    state the component keeps (`target`, `index`, `searchType`, `search`).
    Every handler updates these fields in place and is proved to leave them
    as the corresponding function of the models in `Commands`, `Normalize`
    and `Keyboard` prescribes. */
module EditorComponent {
  import opened Document
  import opened SlateOps
  import opened Commands
  import opened Normalize
  import opened Mentions
  import opened Keyboard

  class RichTextEditor {
    var children: seq<Node>
    var selection: Option<Range>
    var marks: Option<set<Mark>>
    var target: Option<Range>
    var index: nat
    var searchType: MentionType
    var search: string

    function Doc(): Commands.Doc
      reads this
    {
      Commands.Doc(children, selection, marks)
    }

    function Popup(): Mentions.Popup
      reads this
    {
      Mentions.Popup(target, index, searchType, search)
    }

    function Session(): Keyboard.Session
      reads this
    {
      Keyboard.Session(Doc(), Popup())
    }

    /** A fresh editor shows `initialValue` with no selection and no popup. */
    constructor (initialValue: seq<Node>)
      ensures children == initialValue && selection.None? && marks.None?
      ensures target.None? && index == 0 && searchType == User && search == ""
    {
      children := initialValue;
      selection := None;
      marks := None;
      target := None;
      index := 0;
      searchType := User;
      search := "";
    }

    /** The default initial value: one empty paragraph. */
    static function DefaultValue(): (r: seq<Node>)
      ensures |r| == 1 && IsBlock(r[0]) && r[0].kind == Paragraph && IsEmpty(r[0])
    {
      [Element(Paragraph, None, [Text("", {})])]
    }

    method Load(d: Commands.Doc)
      modifies this
      ensures Doc() == d && Popup() == old(Popup())
    {
      children, selection, marks := d.children, d.selection, d.marks;
    }

    method ToggleMark(m: Mark)
      modifies this
      ensures Doc() == Commands.ToggleMark(old(Doc()), m) && Popup() == old(Popup())
      ensures ValidDoc(old(Doc())) ==> ValidDoc(Doc())
    {
      if ValidDoc(Doc()) {
        ToggleMarkValid(Doc(), m);
      }
      Load(Commands.ToggleMark(Doc(), m));
    }

    method ToggleBlock(k: Kind)
      modifies this
      ensures Doc() == Commands.ToggleBlock(old(Doc()), k) && Popup() == old(Popup())
      ensures ValidDoc(old(Doc())) ==> ValidDoc(Doc())
    {
      if ToggleTarget(Doc()).Some? {
        ToggleBlockResult(Doc(), k);
      }
      Load(Commands.ToggleBlock(Doc(), k));
    }

    /** `normalizeNode` on the entry at `p`: the autoformat shortcut, then the
        children of a list retyped one at a time, then the merge with an
        equal list before it. */
    method NormalizeNode(p: Path)
      requires HasNode(children, p)
      modifies this
      ensures Doc() == Normalize.NormalizeNode(old(Doc()), p) && Popup() == old(Popup())
      ensures ValidDoc(old(Doc())) ==> ValidDoc(Doc())
    {
      if ValidDoc(Doc()) {
        NormalizeNodeValid(Doc(), p);
      }
      var node := NodeAt(children, p).value;
      if !IsBlock(node) {
        return;
      }
      var af := Autoformat(StringOf(node));
      if node.kind == Paragraph && |node.children| > 0 && af.Some? {
        ToggleBlock(af.value.0);
        Load(DeleteFromStart(Doc(), p, af.value.1));
        return;
      }
      if IsListKind(node.kind) {
        CoerceChildren(p);
      }
      CoerceItemsShape(old(Doc()), p);
      Load(MergeWithPrevious(Doc(), p, node.kind));
    }

    /** `Transforms.setNodes(editor, { type: k }, { at })`. */
    method SetNodeType(at: Path, k: Kind)
      requires HasElement(children, at)
      modifies this`children
      ensures children == SetKind(old(children), at, k)
    {
      children := SetKind(children, at, k);
    }

    /** The `forEach` over a list's children: every child block that is not a
        list item becomes one, the others stay as they are. */
    method CoerceChildren(p: Path)
      requires HasElement(children, p)
      modifies this
      ensures Doc() == CoerceItems(old(Doc()), p) && Popup() == old(Popup())
    {
      var cs := children;
      var node := NodeAt(cs, p).value;
      var kids := node.children;
      CoerceBounds(cs, p);
      var i := 0;
      while i < |kids|
        invariant 0 <= i <= |kids|
        invariant children == Retyped(cs, p, i)
        modifies this`children
      {
        if IsBlock(kids[i]) && kids[i].kind != ListItem {
          RetypeStep(cs, p, i);
          SetNodeType(p + [i], ListItem);
        } else {
          KeepStep(cs, p, i);
        }
        i := i + 1;
      }
    }

    /** `onChange`: the recognizer's verdict replaces the popup state. */
    method OnChange()
      modifies this
      ensures Session() == Keyboard.OnChange(old(Session()))
    {
      if selection.None? || !IsCollapsed(selection.value) || !ValidPoint(children, selection.value.anchor) {
        target := None;
        return;
      }
      var a := selection.value.anchor;
      var tr := Recognize(NodeAt(children, a.path).value.text, a.offset);
      if tr.None? {
        target := None;
      } else {
        target := Some(Range(Point(a.path, tr.value.start), a));
        searchType := tr.value.searchType;
        search := tr.value.search;
        index := 0;
      }
    }

    /** `onKeyDown`: returns whether the browser's own action was prevented. */
    method OnKeyDown(key: string, ctrl: bool) returns (prevented: bool)
      modifies this
      ensures var o := KeyDown(old(Session()), key, ctrl);
        Session() == o.session && prevented == o.prevented
    {
      var pp := ParentPath(Doc());
      if pp.None? {
        return false;
      }
      if ctrl {
        var c := Hotkey(key);
        if c.None? {
          return false;
        }
        match c.value {
          case ToggleMarkCommand(m) => ToggleMark(m);
          case ToggleBlockCommand(k) => ToggleBlock(k);
        }
        return true;
      }
      if key == "Enter" && EndsBlock(Doc(), pp.value) {
        ToggleBlock(Paragraph);
        return true;
      }
      var o: Outcome;
      if key == "Enter" || key == "Tab" {
        o := Complete(Session());
      } else if key == "ArrowDown" || key == "ArrowUp" {
        if target.None? {
          return false;
        }
        var n := |Shown(Popup())|;
        index := if key == "ArrowDown" then NextIndex(index, n) else PrevIndex(index, n);
        return true;
      } else if key == "Escape" {
        target := None;
        return true;
      } else if key == "Backspace" {
        o := Backspace(Session(), pp.value);
      } else if key == "Delete" {
        o := DeleteKey(Session(), pp.value);
      } else {
        return false;
      }
      Load(o.session.doc);
      target, index, searchType, search := o.session.popup.target, o.session.popup.index, o.session.popup.searchType, o.session.popup.search;
      prevented := o.prevented;
    }

    /** A key press: the key handler, then `onChange` when the document, the
        selection or the pending marks changed. The session invariant holds
        across it. */
    method KeyPress(key: string, ctrl: bool) returns (prevented: bool)
      requires SessionOk(Session())
      modifies this
      ensures var o := Keyboard.KeyPress(old(Session()), key, ctrl);
        Session() == o.session && prevented == o.prevented
      ensures SessionOk(Session())
    {
      KeyPressOk(Session(), key, ctrl);
      var before := Doc();
      prevented := OnKeyDown(key, ctrl);
      if Doc() != before {
        OnChange();
      }
    }
  }

  /** The document once the `forEach` has visited the first `i` children
      of the list at `p`. */
  function Retyped(cs: seq<Node>, p: Path, i: nat): seq<Node>
    requires HasElement(cs, p) && i <= |NodeAt(cs, p).value.children|
  {
    var node := NodeAt(cs, p).value;
    SetNode(cs, p, node.(children := Coerced(node.children[..i]) + node.children[i..]))
  }

  /** Before the `forEach` nothing is retyped; after it, every child is. */
  lemma {:induction false} CoerceBounds(cs: seq<Node>, p: Path)
    requires HasElement(cs, p)
    ensures Retyped(cs, p, 0) == cs
    ensures Retyped(cs, p, |NodeAt(cs, p).value.children|) == CoerceItems(Commands.Doc(cs, None, None), p).children
  {
    var node := NodeAt(cs, p).value;
    var kids := node.children;
    assert kids[..0] == [] && kids[0..] == kids;
    assert Coerced(kids[..0]) + kids[0..] == kids;
    assert node.(children := kids) == node;
    assert kids[..|kids|] == kids && kids[|kids|..] == [];
    assert Coerced(kids[..|kids|]) + kids[|kids|..] == Coerced(kids);
    SetNodeSame(cs, p);
  }

  /** Visiting a child block that is not a list item retypes it. */
  lemma {:induction false} RetypeStep(cs: seq<Node>, p: Path, i: nat)
    requires HasElement(cs, p) && i < |NodeAt(cs, p).value.children|
    requires var k := NodeAt(cs, p).value.children[i]; IsBlock(k) && k.kind != ListItem
    ensures HasElement(Retyped(cs, p, i), p + [i])
    ensures SetKind(Retyped(cs, p, i), p + [i], ListItem) == Retyped(cs, p, i + 1)
  {
    CoerceStep(cs, p, NodeAt(cs, p).value, i);
  }

  /** Visiting any other child leaves it alone. */
  lemma {:induction false} KeepStep(cs: seq<Node>, p: Path, i: nat)
    requires HasElement(cs, p) && i < |NodeAt(cs, p).value.children|
    requires var k := NodeAt(cs, p).value.children[i]; !(IsBlock(k) && k.kind != ListItem)
    ensures Retyped(cs, p, i) == Retyped(cs, p, i + 1)
  {
    CoerceStep(cs, p, NodeAt(cs, p).value, i);
  }

  /** One step of the `forEach`: retyping child `i` of a list whose first `i`
      children are already retyped leaves the first `i + 1` retyped. */
  lemma {:induction false} CoerceStep(cs: seq<Node>, p: Path, node: Node, i: nat)
    requires HasNode(cs, p) && node.Element? && i < |node.children|
    ensures var kids := node.children;
      var done := SetNode(cs, p, node.(children := Coerced(kids[..i]) + kids[i..]));
      var next := SetNode(cs, p, node.(children := Coerced(kids[..i + 1]) + kids[i + 1..]));
      if IsBlock(kids[i]) && kids[i].kind != ListItem then
        HasElement(done, p + [i]) && SetKind(done, p + [i], ListItem) == next
      else done == next
  {
    var kids := node.children;
    var step := Coerced(kids[..i]) + kids[i..];
    assert step[i] == kids[i];
    assert kids[..i + 1][..i] == kids[..i];
    if IsBlock(kids[i]) && kids[i].kind != ListItem {
      SetKindInside(cs, p, node.(children := step), i, ListItem);
      assert step[i := kids[i].(kind := ListItem)] == Coerced(kids[..i + 1]) + kids[i + 1..];
    } else {
      assert step == Coerced(kids[..i + 1]) + kids[i + 1..];
    }
  }
}
