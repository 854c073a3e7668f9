/** `onKeyDown` and `onChange`: the key dispatcher and the mention recognizer,
    over the document and the autocomplete state kept beside it. */
module Keyboard {
  import opened Document
  import opened SlateOps
  import opened Commands
  import opened Normalize
  import opened Mentions

  /** Everything the handlers read and change. */
  datatype Session = Session(doc: Doc, popup: Popup)

  /** The new state, and whether the key's default action was prevented. */
  datatype Outcome = Outcome(session: Session, prevented: bool)

  // ---------------------------------------------------------------------------
  // Where the selection is

  /** `Editor.parent(editor, editor.selection)`: the parent of the deepest
      common ancestor of the selection's ends (`[]` is the editor itself).
      `None` where Slate throws: no selection, or ends in different
      top-level nodes. */
  function ParentPath(d: Doc): (r: Option<Path>)
    ensures r.Some? ==> d.selection.Some? && (r.value == [] || HasNode(d.children, r.value))
  {
    if d.selection.None? then None
    else
      var a, f := d.selection.value.anchor.path, d.selection.value.focus.path;
      var n := CommonLen(a, f);
      if n == 0 then None
      else if n == 1 then Some([])
      else if NodeAt(d.children, a[..n - 1]).Some? then Some(a[..n - 1])
      else None
  }

  /** The parent is a block (the editor itself is not one). */
  predicate ParentIsBlock(d: Doc, pp: Path) {
    pp != [] && HasNode(d.children, pp) && IsBlock(NodeAt(d.children, pp).value)
  }

  lemma {:induction false} ParentAtCaret(d: Doc)
    requires ValidDoc(d) && d.selection.Some? && IsCollapsed(d.selection.value)
    requires |d.selection.value.anchor.path| >= 2
    ensures ParentPath(d) == Some(Parent(d.selection.value.anchor.path))
  {
    var a := d.selection.value.anchor.path;
    assert a[..|a|] == a;
    NodeAtPrefix(d.children, a, |a| - 1);
  }

  /** `Editor.isStart(editor, point, pp)`; `None` where `Editor.start` throws. */
  function IsStartOf(cs: seq<Node>, pt: Point, pp: Path): Option<bool> {
    var sp := StartPath(cs, pp);
    if pt.offset != 0 then Some(false)
    else if sp.None? then None
    else Some(pt.path == sp.value)
  }

  /** `Node.last` below a node: follows last children down to a text run. */
  function LastLeafOf(n: Node): (r: Option<Path>)
    ensures r.Some? ==> NodeIn(n, r.value).Some? && NodeIn(n, r.value).value.Text?
  {
    match n
    case Text(_, _) => Some([])
    case Element(_, _, kids) =>
      if kids == [] then None
      else
        var inner := LastLeafOf(kids[|kids| - 1]);
        if inner.Some? then NodeAtCons(kids, |kids| - 1, inner.value); Some([|kids| - 1] + inner.value) else None
  }

  /** The children of the parent of the node at `p`. */
  function Siblings(cs: seq<Node>, p: Path): (kids: seq<Node>)
    requires HasNode(cs, p)
    ensures ChildrenAt(cs, Parent(p)) == Some(kids) && Last(p) < |kids| && kids[Last(p)] == NodeAt(cs, p).value
  {
    NodeAtParent(cs, p);
    ChildrenAt(cs, Parent(p)).value
  }

  /** The sibling before the node at `p` (`Editor.previous` at a path). */
  function PrevSibling(cs: seq<Node>, p: Path): Option<Node>
    requires HasNode(cs, p)
  {
    NodeAtParent(cs, p);
    if Last(p) > 0 then Some(ChildrenAt(cs, Parent(p)).value[Last(p) - 1]) else None
  }

  /** The sibling after the node at `p` (`Editor.next` at a path). */
  function NextSibling(cs: seq<Node>, p: Path): Option<Node>
    requires HasNode(cs, p)
  {
    NodeAtParent(cs, p);
    var kids := ChildrenAt(cs, Parent(p)).value;
    if Last(p) + 1 < |kids| then Some(kids[Last(p) + 1]) else None
  }

  /** `Transforms.select`: a new selection clears the pending marks. */
  function Select(d: Doc, r: Range): Doc {
    d.(selection := Some(r), marks := if d.selection == Some(r) then d.marks else None)
  }

  // ---------------------------------------------------------------------------
  // Enter and Tab

  /** The case where Enter ends a list item or a code block: the parent is an
      empty block of one of those kinds. */
  predicate EndsBlock(d: Doc, pp: Path) {
    ParentIsBlock(d, pp) && NodeAt(d.children, pp).value.kind in {ListItem, Code} &&
    IsEmpty(NodeAt(d.children, pp).value)
  }

  /** The target lies inside one text run, as the recognizer leaves it. */
  predicate TargetInRun(cs: seq<Node>, r: Range) {
    r.anchor.path == r.focus.path && IsTextAt(cs, r.anchor.path) &&
    r.anchor.offset <= |NodeAt(cs, r.anchor.path).value.text| &&
    r.focus.offset <= |NodeAt(cs, r.focus.path).value.text|
  }

  function MentionNode(ty: MentionType, id: int): Node {
    Element(Mention, Some(MentionRef(ty, id)), [Text("", {})])
  }

  /** The runs before the mention: the text up to the caret, or an empty run
      when the mention would otherwise start the children or follow an inline. */
  function RunsBefore(rest: string, ms: set<Mark>, s: nat, prevText: bool): seq<Node>
    requires s <= |rest|
  {
    if s > 0 || s == |rest| then [Text(rest[..s], ms)] else if prevText then [] else [Text("", {})]
  }

  /** The runs after the mention: the rest of the text, or an empty run when
      nothing textual follows. */
  function RunsAfter(rest: string, ms: set<Mark>, s: nat, nextText: bool): seq<Node>
    requires s <= |rest|
  {
    if s < |rest| then [Text(rest[s..], ms)] else if nextText then [] else [Text("", {})]
  }

  /** Whether the sibling before / after the node at `p` is a text run. */
  predicate PrevIsText(cs: seq<Node>, p: Path)
    requires HasNode(cs, p)
  {
    PrevSibling(cs, p).Some? && PrevSibling(cs, p).value.Text?
  }

  predicate NextIsText(cs: seq<Node>, p: Path)
    requires HasNode(cs, p)
  {
    NextSibling(cs, p).Some? && NextSibling(cs, p).value.Text?
  }

  /** Tab (and Enter that falls through): with a target, select it, replace
      it by a mention of the highlighted candidate (`Transforms.insertNodes`,
      which splits the run, and the library's rule that an inline sits
      between text runs), move the caret past the mention and drop the target.
      A highlighted index outside the candidates throws after the selection
      moved. */
  function Complete(s: Session): Outcome {
    if s.popup.target.None? then Outcome(s, false)
    else
      var r := s.popup.target.value;
      var d := Select(s.doc, r);
      var shown := Shown(s.popup);
      if s.popup.index >= |shown| || !TargetInRun(s.doc.children, r) then Outcome(s.(doc := d), true)
      else
        var cs := s.doc.children;
        var p := r.anchor.path;
        var t := NodeAt(cs, p).value;
        var lo := if r.anchor.offset <= r.focus.offset then r.anchor.offset else r.focus.offset;
        var hi := if r.anchor.offset <= r.focus.offset then r.focus.offset else r.anchor.offset;
        var rest := t.text[..lo] + t.text[hi..];
        var before := RunsBefore(rest, t.marks, lo, PrevIsText(cs, p));
        var after := RunsAfter(rest, t.marks, lo, NextIsText(cs, p));
        var mention := MentionNode(s.popup.searchType, shown[s.popup.index].id);
        var caret := Point(Parent(p) + [Last(p) + |before| + 1], 0);
        Outcome(Session(Doc(SplitText(cs, p, before + [mention] + after), Some(Range(caret, caret)), None),
                        s.popup.(target := None)), true)
  }

  // ---------------------------------------------------------------------------
  // Backspace and Delete

  /** Backspace with a caret. */
  function Backspace(s: Session, pp: Path): Outcome
    requires pp == [] || HasNode(s.doc.children, pp)
  {
    var d := s.doc;
    var cs := d.children;
    if d.selection.None? || !IsCollapsed(d.selection.value) then Outcome(s, false)
    else if |cs| == 1 && IsBlock(cs[0]) && cs[0].kind == Paragraph then Outcome(s, false)
    else if !ParentIsBlock(d, pp) then Outcome(s, false)
    else
      var parent := NodeAt(cs, pp).value;
      var prev := PrevSibling(cs, pp);
      var atStart := IsStartOf(cs, d.selection.value.anchor, pp);
      if parent.kind in {ListItem, Code} && atStart.None? then Outcome(s, false)
      else if parent.kind in {ListItem, Code} && atStart.value then
        Outcome(s.(doc := ToggleBlock(d, Paragraph)), true)
      else if !IsEmpty(parent) then Outcome(s, false)
      else RemoveEmptyBlock(s, pp)
  }

  /** Backspace in an empty block removes it, puts the caret at the end of the
      previous block and merges the blocks that became neighbours when they
      are of the same kind. */
  function RemoveEmptyBlock(s: Session, pp: Path): Outcome
    requires HasNode(s.doc.children, pp)
  {
    var d := s.doc;
    var cs := d.children;
    var prev := PrevSibling(cs, pp);
    var d1 := d.(children := Remove(cs, pp), selection := RemoveSel(cs, pp, d.selection));
    if prev.None? || !IsBlock(prev.value) then Outcome(s.(doc := d1), true)
    else
      var end := LastLeafOf(prev.value);
      if end.None? then Outcome(s.(doc := d1), true)
      else
        var prevPath := PrevPath(pp);
        var endPt := Point(prevPath + end.value, |NodeIn(prev.value, end.value).value.text|);
        var d2 := Select(d1, Range(endPt, endPt));
        RemoveNeighbours(cs, pp);
        var next := if HasNode(d2.children, pp) then NodeAt(d2.children, pp) else None;
        if next.Some? && IsBlock(next.value) && next.value.kind == prev.value.kind then
          Outcome(s.(doc := d2.(children := Merge(d2.children, pp), selection := MergeSel(d2.children, pp, d2.selection))), true)
        else Outcome(s.(doc := d2), true)
  }

  /** After removing the node at `p`, its previous sibling is where it was and
      its next sibling has moved into `p`. */
  lemma {:induction false} RemoveNeighbours(cs: seq<Node>, p: Path)
    requires HasNode(cs, p)
    ensures Last(p) > 0 && PrevSibling(cs, p).Some? ==> NodeAt(Remove(cs, p), PrevPath(p)) == PrevSibling(cs, p)
    ensures NextSibling(cs, p).Some? ==> NodeAt(Remove(cs, p), p) == NextSibling(cs, p)
    ensures NextSibling(cs, p).None? ==> NodeAt(Remove(cs, p), p).None?
  {
    if Last(p) > 0 {
      RemoveKeepsPrevious(cs, p);
    }
    RemoveShiftsNext(cs, p);
  }

  /** `Remove` as a replacement of the parent's children. */
  lemma {:induction false} RemoveAsReplace(cs: seq<Node>, p: Path)
    requires HasNode(cs, p)
    ensures ChildrenAt(cs, Parent(p)).Some? && Last(p) < |ChildrenAt(cs, Parent(p)).value|
    ensures var kids := ChildrenAt(cs, Parent(p)).value;
            Remove(cs, p) == ReplaceChildren(cs, Parent(p), kids[..Last(p)] + kids[Last(p) + 1..])
    ensures p == Parent(p) + [Last(p)] + [] == Parent(p) + [Last(p)]
  {
    NodeAtParent(cs, p);
    var kids := ChildrenAt(cs, Parent(p)).value;
    var i := Last(p);
    assert kids[..i] + [] + kids[i + 1..] == kids[..i] + kids[i + 1..];
  }

  lemma {:induction false} RemoveKeepsPrevious(cs: seq<Node>, p: Path)
    requires HasNode(cs, p) && Last(p) > 0
    ensures NodeAt(Remove(cs, p), PrevPath(p)) == PrevSibling(cs, p)
  {
    RemoveAsReplace(cs, p);
    var kids := ChildrenAt(cs, Parent(p)).value;
    var i := Last(p);
    var nk := kids[..i] + kids[i + 1..];
    assert nk[i - 1] == kids[i - 1];
    NodeAtReplacedBelow(cs, Parent(p), nk, i - 1, []);
    assert PrevPath(p) == Parent(p) + [i - 1] + [];
  }

  lemma {:induction false} RemoveShiftsNext(cs: seq<Node>, p: Path)
    requires HasNode(cs, p)
    ensures NextSibling(cs, p).Some? ==> NodeAt(Remove(cs, p), p) == NextSibling(cs, p)
    ensures NextSibling(cs, p).None? ==> NodeAt(Remove(cs, p), p).None?
  {
    RemoveAsReplace(cs, p);
    var kids := ChildrenAt(cs, Parent(p)).value;
    var i := Last(p);
    var nk := kids[..i] + kids[i + 1..];
    if i + 1 < |kids| {
      assert nk[i] == kids[i + 1];
      NodeAtReplacedBelow(cs, Parent(p), nk, i, []);
    } else {
      ChildrenAtReplaced(cs, Parent(p), nk);
      NodeAtAppend(Remove(cs, p), Parent(p), [i]);
    }
  }


  /** Delete with a selection: an empty block is removed unless it is the only
      top-level node. */
  function DeleteKey(s: Session, pp: Path): Outcome
    requires pp == [] || HasNode(s.doc.children, pp)
  {
    var d := s.doc;
    if |d.children| == 1 || !ParentIsBlock(d, pp) || !IsEmpty(NodeAt(d.children, pp).value) then Outcome(s, false)
    else Outcome(s.(doc := d.(children := Remove(d.children, pp), selection := RemoveSel(d.children, pp, d.selection))), true)
  }

  // ---------------------------------------------------------------------------
  // The dispatcher

  /** `onKeyDown`. The keys it does not handle keep their default action,
      which is not part of the model. */
  function KeyDown(s: Session, key: string, ctrl: bool): Outcome {
    var pp := ParentPath(s.doc);
    if pp.None? then Outcome(s, false)
    else if ctrl then
      var c := Hotkey(key);
      if c.Some? then Outcome(s.(doc := RunCommand(s.doc, c.value)), true) else Outcome(s, false)
    else if key == "Enter" && EndsBlock(s.doc, pp.value) then
      Outcome(s.(doc := ToggleBlock(s.doc, Paragraph)), true)
    else if key == "Enter" || key == "Tab" then Complete(s)
    else if key == "ArrowDown" || key == "ArrowUp" then
      if s.popup.target.None? then Outcome(s, false)
      else
        var n := |Shown(s.popup)|;
        var i := if key == "ArrowDown" then NextIndex(s.popup.index, n) else PrevIndex(s.popup.index, n);
        Outcome(s.(popup := s.popup.(index := i)), true)
    else if key == "Escape" then Outcome(s.(popup := s.popup.(target := None)), true)
    else if key == "Backspace" then Backspace(s, pp.value)
    else if key == "Delete" then DeleteKey(s, pp.value)
    else Outcome(s, false)
  }

  // ---------------------------------------------------------------------------
  // The recognizer

  /** `onChange`: with a caret, look for a trigger before it in its text run;
      a trigger becomes the target with its search type and word, and the
      highlighted index goes back to the first candidate. Otherwise the
      target is dropped. */
  function OnChange(s: Session): Session {
    var d := s.doc;
    if d.selection.None? || !IsCollapsed(d.selection.value) || !ValidPoint(d.children, d.selection.value.anchor) then
      s.(popup := s.popup.(target := None))
    else
      var a := d.selection.value.anchor;
      var tr := Recognize(NodeAt(d.children, a.path).value.text, a.offset);
      if tr.None? then s.(popup := s.popup.(target := None))
      else
        s.(popup := Popup(Some(Range(Point(a.path, tr.value.start), a)), 0, tr.value.searchType, tr.value.search))
  }

  // ---------------------------------------------------------------------------
  // What the dispatcher promises

  /** With Ctrl held, the hot keys run their command and every other key does
      nothing at all; the popup is never touched. */
  lemma {:induction false} CtrlKeys(s: Session, key: string)
    requires ParentPath(s.doc).Some?
    ensures var o := KeyDown(s, key, true);
      o.session.popup == s.popup &&
      (key !in {"b", "i", "u", "/"} ==> o == Outcome(s, false)) &&
      (key in {"b", "i", "u", "/"} ==> o.prevented) &&
      (key == "b" ==> o.session.doc == ToggleMark(s.doc, Bold)) &&
      (key == "i" ==> o.session.doc == ToggleMark(s.doc, Italic)) &&
      (key == "u" ==> o.session.doc == ToggleMark(s.doc, Underline)) &&
      (key == "/" ==> o.session.doc == ToggleBlock(s.doc, Code))
  {
  }

  /** Without a selection inside one top-level node the handler throws before
      looking at the key: nothing changes, whatever the key. */
  lemma {:induction false} NoParentNoEffect(s: Session, key: string, ctrl: bool)
    requires s.doc.selection.None? ||
      CommonLen(s.doc.selection.value.anchor.path, s.doc.selection.value.focus.path) == 0
    ensures KeyDown(s, key, ctrl) == Outcome(s, false)
  {
  }

  /** Enter outside an empty list item or code block does what Tab does. */
  lemma {:induction false} EnterFallsThrough(s: Session)
    requires ParentPath(s.doc).Some? && !EndsBlock(s.doc, ParentPath(s.doc).value)
    ensures KeyDown(s, "Enter", false) == KeyDown(s, "Tab", false)
  {
  }

  /** Tab or Enter without a target changes nothing and keeps the default action. */
  lemma {:induction false} CompleteNeedsTarget(s: Session, key: string)
    requires key in {"Enter", "Tab"} && s.popup.target.None?
    requires ParentPath(s.doc).Some? && !EndsBlock(s.doc, ParentPath(s.doc).value)
    ensures KeyDown(s, key, false) == Outcome(s, false)
  {
  }

  /** The deepest block above a caret whose parent is a block is that parent. */
  lemma {:induction false} LowestBlockIsParent(d: Doc)
    requires ValidDoc(d) && d.selection.Some? && IsCollapsed(d.selection.value)
    requires var a := d.selection.value.anchor.path; |a| >= 2 && ParentIsBlock(d, Parent(a))
    requires !IsListKind(NodeAt(d.children, Parent(d.selection.value.anchor.path)).value.kind)
    ensures ToggleTarget(d) == Some(Parent(d.selection.value.anchor.path))
  {
    var a := d.selection.value.anchor.path;
    var pp := Parent(a);
    assert BlockIn(d.children, a[..|a| - 1], AllKinds);
    var b := LowestUpTo(d.children, a, AllKinds, |a| - 1);
    assert b == Some(pp);
    assert LowestAbove(d.children, a, AllKinds) == b;
  }

  /** Enter in an empty list item or code block turns it into a paragraph
      (lifted out of its list) instead of starting a new line. */
  lemma {:induction false} EnterEndsItem(s: Session)
    requires ValidDoc(s.doc) && s.doc.selection.Some? && IsCollapsed(s.doc.selection.value)
    requires var a := s.doc.selection.value.anchor.path; |a| >= 2 && EndsBlock(s.doc, Parent(a))
    ensures var o := KeyDown(s, "Enter", false);
      var pp := Parent(s.doc.selection.value.anchor.path);
      o.prevented && o.session.popup == s.popup &&
      NodeAt(o.session.doc.children, ToggledPath(s.doc)) ==
        Some(NodeAt(s.doc.children, pp).value.(kind := Paragraph)) &&
      ValidDoc(o.session.doc)
  {
    ParentAtCaret(s.doc);
    LowestBlockIsParent(s.doc);
    ToggleBlockResult(s.doc, Paragraph);
  }

  /** Backspace at the very start of a list item or code block turns that
      block back into a paragraph and prevents the default. */
  lemma {:induction false} BackspaceEndsItem(s: Session)
    requires ValidDoc(s.doc) && s.doc.selection.Some? && IsCollapsed(s.doc.selection.value)
    requires var a := s.doc.selection.value.anchor;
      |a.path| >= 2 && ParentIsBlock(s.doc, Parent(a.path)) &&
      NodeAt(s.doc.children, Parent(a.path)).value.kind in {ListItem, Code} &&
      IsStartOf(s.doc.children, a, Parent(a.path)) == Some(true)
    requires !(|s.doc.children| == 1 && IsBlock(s.doc.children[0]) && s.doc.children[0].kind == Paragraph)
    ensures var o := KeyDown(s, "Backspace", false);
      var pp := Parent(s.doc.selection.value.anchor.path);
      o.prevented && o.session.popup == s.popup &&
      NodeAt(o.session.doc.children, ToggledPath(s.doc)) ==
        Some(NodeAt(s.doc.children, pp).value.(kind := Paragraph)) &&
      ValidDoc(o.session.doc)
  {
    BackspaceToggles(s);
    LowestBlockIsParent(s.doc);
    ToggleBlockResult(s.doc, Paragraph);
  }

  /** The dispatch of `BackspaceEndsItem`: the key runs `toggleBlock(paragraph)`. */
  lemma {:induction false} BackspaceToggles(s: Session)
    requires ValidDoc(s.doc) && s.doc.selection.Some? && IsCollapsed(s.doc.selection.value)
    requires var a := s.doc.selection.value.anchor;
      |a.path| >= 2 && ParentIsBlock(s.doc, Parent(a.path)) &&
      NodeAt(s.doc.children, Parent(a.path)).value.kind in {ListItem, Code} &&
      IsStartOf(s.doc.children, a, Parent(a.path)) == Some(true)
    requires !(|s.doc.children| == 1 && IsBlock(s.doc.children[0]) && s.doc.children[0].kind == Paragraph)
    ensures KeyDown(s, "Backspace", false) == Outcome(s.(doc := ToggleBlock(s.doc, Paragraph)), true)
  {
    var pp := Parent(s.doc.selection.value.anchor.path);
    ParentAtCaret(s.doc);
    BackspaceAtStart(s, pp);
    BackspaceKey(s, "Backspace");
  }

  /** The Backspace key goes to the Backspace branch of the dispatcher. */
  lemma {:induction false} BackspaceKey(s: Session, key: string)
    requires key == "Backspace" && ParentPath(s.doc).Some?
    ensures KeyDown(s, key, false) == Backspace(s, ParentPath(s.doc).value)
  {
    assert key[0] == 'B';
    assert key != "Enter" && key != "Tab" && key != "ArrowDown" && key != "ArrowUp" && key != "Escape";
  }

  lemma {:induction false} BackspaceAtStart(s: Session, pp: Path)
    requires s.doc.selection.Some? && IsCollapsed(s.doc.selection.value)
    requires ParentIsBlock(s.doc, pp) && NodeAt(s.doc.children, pp).value.kind in {ListItem, Code}
    requires IsStartOf(s.doc.children, s.doc.selection.value.anchor, pp) == Some(true)
    requires !(|s.doc.children| == 1 && IsBlock(s.doc.children[0]) && s.doc.children[0].kind == Paragraph)
    ensures Backspace(s, pp) == Outcome(s.(doc := ToggleBlock(s.doc, Paragraph)), true)
  {
  }

  /** The arrows move the highlight only while there is a target; Up undoes
      Down. */
  lemma {:induction false} ArrowRoundTrip(s: Session)
    requires ParentPath(s.doc).Some? && s.popup.target.Some? && IndexOk(s.popup)
    ensures var o := KeyDown(s, "ArrowDown", false);
      o.prevented && o.session.doc == s.doc &&
      o.session.popup.index == NextIndex(s.popup.index, |Shown(s.popup)|) &&
      KeyDown(o.session, "ArrowUp", false) == Outcome(s, true)
  {
    IndexInverse(s.popup.index, |Shown(s.popup)|);
  }

  lemma {:induction false} ArrowsNeedTarget(s: Session, key: string)
    requires key in {"ArrowDown", "ArrowUp"} && s.popup.target.None?
    ensures KeyDown(s, key, false) == Outcome(s, false)
  {
  }

  /** Escape hides the popup and leaves the document alone. */
  lemma {:induction false} EscapeHides(s: Session)
    requires ParentPath(s.doc).Some?
    ensures var o := KeyDown(s, "Escape", false);
      o.prevented && o.session.doc == s.doc && !PopupVisible(o.session.popup) &&
      o.session.popup == s.popup.(target := None)
  {
  }

  /** The highlighted entry stays within the candidates. */
  lemma {:induction false} KeyDownIndexOk(s: Session, key: string, ctrl: bool)
    requires IndexOk(s.popup)
    ensures IndexOk(KeyDown(s, key, ctrl).session.popup)
  {
  }

  lemma {:induction false} OnChangeIndexOk(s: Session)
    requires IndexOk(s.popup)
    ensures IndexOk(OnChange(s).popup)
  {
  }

  /** Backspace does nothing when the document is one paragraph. */
  lemma {:induction false} BackspaceFloor(s: Session)
    requires |s.doc.children| == 1 && IsBlock(s.doc.children[0]) && s.doc.children[0].kind == Paragraph
    ensures KeyDown(s, "Backspace", false) == Outcome(s, false)
  {
  }

  /** Delete never removes the only top-level node. */
  lemma {:induction false} DeleteFloor(s: Session)
    requires |s.doc.children| == 1
    ensures KeyDown(s, "Delete", false) == Outcome(s, false)
  {
  }

  /** The runs around a mention spell the text without the trigger. */
  lemma {:induction false} RunsText(rest: string, ms: set<Mark>, lo: nat, prevText: bool, nextText: bool, mention: Node)
    requires lo <= |rest| && mention.Element? && mention.kind == Mention
    ensures StringOfAll(RunsBefore(rest, ms, lo, prevText) + [mention] + RunsAfter(rest, ms, lo, nextText)) == rest
  {
    var before, after := RunsBefore(rest, ms, lo, prevText), RunsAfter(rest, ms, lo, nextText);
    StringOfAllAppend(before + [mention], after);
    StringOfAllAppend(before, [mention]);
    assert StringOfAll([mention]) == "";
    assert StringOfAll(before) == rest[..lo];
    assert StringOfAll(after) == rest[lo..];
    assert rest[..lo] + rest[lo..] == rest;
  }

  /** The children of the run's parent after a split: the runs in place of the run. */
  lemma {:induction false} SplitTextText(cs: seq<Node>, p: Path, runs: seq<Node>)
    requires HasNode(cs, p)
    ensures var kids := Siblings(cs, p);
      ChildrenAt(SplitText(cs, p, runs), Parent(p)) == Some(kids[..Last(p)] + runs + kids[Last(p) + 1..]) &&
      StringOfAll(kids[..Last(p)] + runs + kids[Last(p) + 1..]) ==
        StringOfAll(kids[..Last(p)]) + StringOfAll(runs) + StringOfAll(kids[Last(p) + 1..])
  {
    NodeAtParent(cs, p);
    var kids := ChildrenAt(cs, Parent(p)).value;
    ChildrenAtReplaced(cs, Parent(p), kids[..Last(p)] + runs + kids[Last(p) + 1..]);
    StringOfAllAppend(kids[..Last(p)] + runs, kids[Last(p) + 1..]);
    StringOfAllAppend(kids[..Last(p)], runs);
  }

  /** After the split, the mention sits after the runs before it and a text run follows it. */
  lemma {:induction false} CaretAfterMention(cs: seq<Node>, p: Path, before: seq<Node>, mention: Node, after: seq<Node>)
    requires IsTextAt(cs, p)
    requires (after != [] && after[0].Text?) || (after == [] && NextIsText(cs, p))
    ensures var cs' := SplitText(cs, p, before + [mention] + after);
      NodeAt(cs', Parent(p) + [Last(p) + |before|]) == Some(mention) &&
      IsTextAt(cs', Parent(p) + [Last(p) + |before| + 1])
  {
    var runs := before + [mention] + after;
    var k := |before|;
    assert runs[k] == mention;
    SplitTextRun(cs, p, runs, k);
    if after != [] {
      assert runs[k + 1] == after[0];
      SplitTextRun(cs, p, runs, k + 1);
    } else {
      NodeAtParent(cs, p);
      var q := Parent(p) + [Last(p) + 1];
      NodeAtBelow(cs, Parent(p), Last(p) + 1, []);
      assert q + [] == q;
      assert p == Parent(p) + [Last(p)];
      SplitTextKeeps(cs, p, runs, q);
      assert ShiftPath(q, Parent(p), Last(p), 1, |runs|) == Parent(p) + [Last(p) + k + 1];
    }
  }

  /** What completing a target inside a run does. */
  lemma {:induction false} CompleteResult(s: Session)
    requires s.popup.target.Some? && TargetInRun(s.doc.children, s.popup.target.value)
    requires s.popup.target.value.anchor.offset <= s.popup.target.value.focus.offset
    requires s.popup.index < |Shown(s.popup)|
    ensures var cs := s.doc.children;
      var r := s.popup.target.value;
      var p := r.anchor.path;
      var t := NodeAt(cs, p).value;
      var rest := t.text[..r.anchor.offset] + t.text[r.focus.offset..];
      var k := |RunsBefore(rest, t.marks, r.anchor.offset, PrevIsText(cs, p))|;
      var o := Complete(s);
      var cs' := o.session.doc.children;
      var caret := Point(Parent(p) + [Last(p) + k + 1], 0);
      var kids := Siblings(cs, p);
      o.prevented && o.session.popup == s.popup.(target := None) &&
      NodeAt(cs', Parent(p) + [Last(p) + k]) == Some(MentionNode(s.popup.searchType, Shown(s.popup)[s.popup.index].id)) &&
      o.session.doc.selection == Some(Range(caret, caret)) && ValidPoint(cs', caret) && o.session.doc.marks.None? &&
      ChildrenAt(cs', Parent(p)).Some? &&
      StringOfAll(ChildrenAt(cs', Parent(p)).value) == StringOfAll(kids[..Last(p)]) + rest + StringOfAll(kids[Last(p) + 1..])
  {
    var cs := s.doc.children;
    var r := s.popup.target.value;
    var p := r.anchor.path;
    var t := NodeAt(cs, p).value;
    var lo, hi := r.anchor.offset, r.focus.offset;
    var rest := t.text[..lo] + t.text[hi..];
    var before := RunsBefore(rest, t.marks, lo, PrevIsText(cs, p));
    var after := RunsAfter(rest, t.marks, lo, NextIsText(cs, p));
    var mention := MentionNode(s.popup.searchType, Shown(s.popup)[s.popup.index].id);
    CaretAfterMention(cs, p, before, mention, after);
    SplitTextText(cs, p, before + [mention] + after);
    RunsText(rest, t.marks, lo, PrevIsText(cs, p), NextIsText(cs, p), mention);
  }

  /** Tab, and Enter outside an empty list item or code block, complete the
      target: with a target inside a run and a highlighted candidate the key
      is swallowed and the popup closes, the insertion being the one
      `CompleteResult` describes. */
  lemma {:induction false} MentionInserted(s: Session, key: string)
    requires key in {"Enter", "Tab"}
    requires ParentPath(s.doc).Some? && !(key == "Enter" && EndsBlock(s.doc, ParentPath(s.doc).value))
    requires s.popup.target.Some? && TargetInRun(s.doc.children, s.popup.target.value)
    requires s.popup.target.value.anchor.offset <= s.popup.target.value.focus.offset
    requires s.popup.index < |Shown(s.popup)|
    ensures KeyDown(s, key, false) == Complete(s)
    ensures KeyDown(s, key, false).prevented && KeyDown(s, key, false).session.popup == s.popup.(target := None)
    ensures var d := KeyDown(s, key, false).session.doc;
      d.selection.Some? && IsCollapsed(d.selection.value) && d.marks.None?
  {
    CompleteResult(s);
  }

  /** With a target but no candidate at the highlighted index (an empty
      list), Tab and Enter throw: the key is swallowed and the trigger is left
      selected, with nothing inserted. */
  lemma {:induction false} CompleteWithoutCandidate(s: Session, key: string)
    requires key in {"Enter", "Tab"}
    requires ParentPath(s.doc).Some? && !(key == "Enter" && EndsBlock(s.doc, ParentPath(s.doc).value))
    requires s.popup.target.Some? && |Shown(s.popup)| == 0
    ensures var o := KeyDown(s, key, false);
      o.prevented && o.session.popup == s.popup && o.session.doc.children == s.doc.children &&
      o.session.doc.selection == s.popup.target
  {
  }

  // ---------------------------------------------------------------------------
  // The recognizer's promises, and the invariant of a session

  /** A recognized target covers the trigger character and the search word
      right before the caret, in the caret's run; the index restarts at the
      first candidate. Otherwise only the target is dropped. The document is
      never changed. */
  lemma {:induction false} OnChangeSound(s: Session)
    ensures OnChange(s).doc == s.doc
    ensures OnChange(s).popup.target.None? ==> OnChange(s).popup == s.popup.(target := None)
    ensures var s' := OnChange(s);
      s'.popup.target.Some? ==>
        var r := s'.popup.target.value;
        var a := s.doc.selection.value.anchor;
        var t := NodeAt(s.doc.children, a.path).value.text;
        s.doc.selection.Some? && IsCollapsed(s.doc.selection.value) &&
        r.focus == a && TargetInRun(s.doc.children, r) && r.anchor.offset < r.focus.offset &&
        t[r.anchor.offset..r.focus.offset] == [if s'.popup.searchType == User then '@' else '#'] + s'.popup.search &&
        s'.popup.index == 0 && (a.offset == |t| || IsJsSpace(t[a.offset]))
  {
    var s' := OnChange(s);
    if s'.popup.target.Some? {
      var a := s.doc.selection.value.anchor;
      var t := NodeAt(s.doc.children, a.path).value.text;
      var tr := Recognize(t, a.offset).value;
      assert t[tr.start..a.offset] == [t[tr.start]] + t[tr.start + 1..a.offset];
    }
  }

  /** A caret right after `@` or `#` and a word of letters and digits, with a
      space or the end of the run after it, always gets a target. */
  lemma {:induction false} OnChangeComplete(s: Session, start: nat)
    requires s.doc.selection.Some? && IsCollapsed(s.doc.selection.value)
    requires ValidPoint(s.doc.children, s.doc.selection.value.anchor)
    requires var a := s.doc.selection.value.anchor;
      var t := NodeAt(s.doc.children, a.path).value.text;
      start + 1 < a.offset && t[start] in {'@', '#'} &&
      (forall i | start < i < a.offset :: IsAlnum(t[i])) &&
      (a.offset == |t| || IsJsSpace(t[a.offset]))
    ensures var a := s.doc.selection.value.anchor;
      var t := NodeAt(s.doc.children, a.path).value.text;
      OnChange(s).popup ==
        Popup(Some(Range(Point(a.path, start), a)), 0, if t[start] == '@' then User else Machine, t[start + 1..a.offset])
  {
    var a := s.doc.selection.value.anchor;
    RecognizeComplete(NodeAt(s.doc.children, a.path).value.text, start, a.offset);
  }

  /** A target always lies inside one run, anchored before its focus. */
  predicate TargetOk(s: Session) {
    s.popup.target.Some? ==>
      TargetInRun(s.doc.children, s.popup.target.value) &&
      s.popup.target.value.anchor.offset <= s.popup.target.value.focus.offset
  }

  /** The invariant of a session: the selection and the target sit on text
      runs, and the highlighted index names a candidate whenever there is one. */
  predicate SessionOk(s: Session) {
    ValidDoc(s.doc) && TargetOk(s) && IndexOk(s.popup)
  }

  lemma {:induction false} OnChangeOk(s: Session)
    requires SessionOk(s)
    ensures SessionOk(OnChange(s))
  {
    OnChangeSound(s);
  }

  lemma {:induction false} RemoveEmptyBlockValid(s: Session, pp: Path)
    requires HasNode(s.doc.children, pp)
    requires ValidDoc(s.doc)
    ensures ValidDoc(RemoveEmptyBlock(s, pp).session.doc)
  {
    RemoveSelValid(s.doc.children, pp, s.doc.selection);
    var prev := PrevSibling(s.doc.children, pp);
    if prev.Some? && IsBlock(prev.value) && LastLeafOf(prev.value).Some? {
      RemoveEmptyJoinValid(s, pp);
    }
  }

  // The branch of `RemoveEmptyBlockValid` that moves the caret to the end
  // of the previous block and may merge it with the next one.
  lemma {:induction false} RemoveEmptyJoinValid(s: Session, pp: Path)
    requires HasNode(s.doc.children, pp)
    requires PrevSibling(s.doc.children, pp).Some? && IsBlock(PrevSibling(s.doc.children, pp).value)
    requires LastLeafOf(PrevSibling(s.doc.children, pp).value).Some?
    ensures ValidDoc(RemoveEmptyBlock(s, pp).session.doc)
  {
    var cs := s.doc.children;
    var prev := PrevSibling(cs, pp).value;
    var end := LastLeafOf(prev).value;
    EndOfPreviousValid(cs, pp);
    RemoveNeighbours(cs, pp);
    var cs1 := Remove(cs, pp);
    var endPt := Point(PrevPath(pp) + end, |NodeIn(prev, end).value.text|);
    if HasNode(cs1, pp) && CanMerge(cs1, pp) {
      MergeSelValid(cs1, pp, Some(Range(endPt, endPt)));
    }
  }

  /** Once the node at `pp` is removed, the end of the last text run of its
      previous sibling is a valid point. */
  lemma {:induction false} EndOfPreviousValid(cs: seq<Node>, pp: Path)
    requires HasNode(cs, pp)
    requires PrevSibling(cs, pp).Some? && LastLeafOf(PrevSibling(cs, pp).value).Some?
    ensures Last(pp) > 0
    ensures var prev := PrevSibling(cs, pp).value;
            var end := LastLeafOf(prev).value;
            ValidPoint(Remove(cs, pp), Point(PrevPath(pp) + end, |NodeIn(prev, end).value.text|))
  {
    RemoveNeighbours(cs, pp);
    var prev := PrevSibling(cs, pp).value;
    var end := LastLeafOf(prev).value;
    NodeAtUnder(Remove(cs, pp), PrevPath(pp), end);
  }



  lemma {:induction false} BackspaceValid(s: Session, pp: Path)
    requires pp == [] || HasNode(s.doc.children, pp)
    requires ValidDoc(s.doc)
    ensures ValidDoc(Backspace(s, pp).session.doc)
  {
    var d := s.doc;
    var cs := d.children;
    if d.selection.Some? && IsCollapsed(d.selection.value) && !(|cs| == 1 && IsBlock(cs[0]) && cs[0].kind == Paragraph) &&
       ParentIsBlock(d, pp) {
      var parent := NodeAt(cs, pp).value;
      var atStart := IsStartOf(cs, d.selection.value.anchor, pp);
      var itemOrCode := parent.kind in {ListItem, Code};
      if itemOrCode && atStart.Some? && atStart.value {
        assert Backspace(s, pp).session.doc == ToggleBlock(d, Paragraph);
        if ToggleTarget(d).Some? {
          ToggleBlockResult(d, Paragraph);
        }
      } else if IsEmpty(parent) && !(itemOrCode && atStart.None?) {
        assert Backspace(s, pp) == RemoveEmptyBlock(s, pp);
        RemoveEmptyBlockValid(s, pp);
      }
    }
  }

  lemma {:induction false} DeleteKeyValid(s: Session, pp: Path)
    requires pp == [] || HasNode(s.doc.children, pp)
    requires ValidDoc(s.doc)
    ensures ValidDoc(DeleteKey(s, pp).session.doc)
  {
    if ParentIsBlock(s.doc, pp) {
      RemoveSelValid(s.doc.children, pp, s.doc.selection);
    }
  }

  /** Every key keeps the selection on text runs. */
  lemma {:induction false} KeyDownValid(s: Session, key: string, ctrl: bool)
    requires SessionOk(s)
    ensures ValidDoc(KeyDown(s, key, ctrl).session.doc)
  {
    var pp := ParentPath(s.doc);
    if pp.Some? {
      if ctrl {
        if Hotkey(key).Some? {
          RunCommandValid(s.doc, Hotkey(key).value);
        }
      } else if key == "Enter" && EndsBlock(s.doc, pp.value) {
        if ToggleTarget(s.doc).Some? {
          ToggleBlockResult(s.doc, Paragraph);
        }
      } else if key == "Enter" || key == "Tab" {
        if s.popup.target.Some? && s.popup.index < |Shown(s.popup)| {
          CompleteResult(s);
        }
      } else if key == "Backspace" {
        BackspaceValid(s, pp.value);
      } else if key == "Delete" {
        DeleteKeyValid(s, pp.value);
      }
    }
  }

  /** A key press: `onKeyDown`, then `onChange` when the document, the
      selection or the pending marks changed. */
  function KeyPress(s: Session, key: string, ctrl: bool): Outcome {
    var o := KeyDown(s, key, ctrl);
    if o.session.doc != s.doc then Outcome(OnChange(o.session), o.prevented) else o
  }

  /** Key presses keep the session invariant. */
  lemma {:induction false} KeyPressOk(s: Session, key: string, ctrl: bool)
    requires SessionOk(s)
    ensures SessionOk(KeyPress(s, key, ctrl).session)
  {
    var o := KeyDown(s, key, ctrl);
    KeyDownValid(s, key, ctrl);
    KeyDownIndexOk(s, key, ctrl);
    KeyDownTarget(s, key, ctrl);
    if o.session.doc != s.doc {
      OnChangeSound(o.session);
    }
  }

  /** A key never sets a new target: it keeps the one there is or drops it. */
  lemma {:induction false} KeyDownTarget(s: Session, key: string, ctrl: bool)
    ensures KeyDown(s, key, ctrl).session.popup.target in {s.popup.target, None}
  {
  }

  // ---------------------------------------------------------------------------
  // Removing an empty top-level block

  lemma {:induction false} TopRemove(cs: seq<Node>, i: nat)
    requires i < |cs|
    ensures HasNode(cs, [i]) && Remove(cs, [i]) == cs[..i] + cs[i + 1..]
  {
    assert cs[..i] + [] + cs[i + 1..] == cs[..i] + cs[i + 1..];
  }

  /** Backspace in an empty top-level block after a block with text: the
      block goes, the caret lands at the end of the previous block, and the
      previous block absorbs the next one when both are of the same kind. */
  lemma {:induction false} RemoveEmptyTopBlock(s: Session, i: nat)
    requires 0 < i < |s.doc.children|
    requires IsBlock(s.doc.children[i - 1]) && LastLeafOf(s.doc.children[i - 1]).Some?
    ensures var cs := s.doc.children;
      var prev := cs[i - 1];
      var end := LastLeafOf(prev).value;
      var caret := Point([i - 1] + end, |NodeIn(prev, end).value.text|);
      var merge := i + 1 < |cs| && IsBlock(cs[i + 1]) && cs[i + 1].kind == prev.kind;
      var o := RemoveEmptyBlock(s, [i]);
      o.prevented && o.session.popup == s.popup &&
      (!merge ==> o.session.doc.children == cs[..i] + cs[i + 1..] && o.session.doc.selection == Some(Range(caret, caret))) &&
      (merge && !IsEmpty(prev) ==>
        o.session.doc.children == cs[..i - 1] + [prev.(children := prev.children + cs[i + 1].children)] + cs[i + 2..] &&
        o.session.doc.selection == Some(Range(caret, caret))) &&
      (merge && IsEmpty(prev) ==> o.session.doc.children == cs[..i - 1] + cs[i + 1..])
  {
    var cs := s.doc.children;
    var prev := cs[i - 1];
    TopRemove(cs, i);
    var cs1 := cs[..i] + cs[i + 1..];
    assert PrevSibling(cs, [i]) == Some(prev);
    assert PrevPath([i]) == [i - 1];
    var merge := i + 1 < |cs| && IsBlock(cs[i + 1]) && cs[i + 1].kind == prev.kind;
    if i + 1 < |cs| {
      assert cs1[i] == cs[i + 1];
      assert cs1[i - 1] == prev;
      if merge {
        var end := LastLeafOf(prev).value;
        TopMerge(cs1, i, end, NodeIn(prev, end).value.text);
        if IsEmpty(prev) {
          assert cs1[..i - 1] + cs1[i..] == cs[..i - 1] + cs[i + 1..];
        } else {
          assert cs1[..i - 1] + [prev.(children := prev.children + cs[i + 1].children)] + cs1[i + 1..]
              == cs[..i - 1] + [prev.(children := prev.children + cs[i + 1].children)] + cs[i + 2..];
        }
      }
    } else {
      assert !HasNode(cs1, [i]);
    }
  }

  /** Merging the top-level element `i` into element `i - 1`; a caret inside
      element `i - 1` stays where it is. */
  lemma {:induction false} TopMerge(cs: seq<Node>, i: nat, end: Path, t: string)
    requires 0 < i < |cs| && cs[i - 1].Element? && cs[i].Element?
    ensures CanMerge(cs, [i])
    ensures IsEmpty(cs[i - 1]) ==> Merge(cs, [i]) == cs[..i - 1] + cs[i..]
    ensures !IsEmpty(cs[i - 1]) ==>
      Merge(cs, [i]) == cs[..i - 1] + [cs[i - 1].(children := cs[i - 1].children + cs[i].children)] + cs[i + 1..] &&
      MergeSel(cs, [i], Some(Range(Point([i - 1] + end, |t|), Point([i - 1] + end, |t|)))) ==
        Some(Range(Point([i - 1] + end, |t|), Point([i - 1] + end, |t|)))
  {
    assert PrevPath([i]) == [i - 1];
    NodeAtCons(cs, i, []);
    NodeAtCons(cs, i - 1, []);
    assert CanMerge(cs, [i]);
    if IsEmpty(cs[i - 1]) {
      TopRemove(cs, i - 1);
    } else {
      MergeShape(cs, [i]);
      var caret := Point([i - 1] + end, |t|);
      assert IsPrefix(PrevPath([i]), caret.path);
      assert MergePoint(cs, [i], caret) == Some(caret);
    }
  }

  /** Delete in an empty top-level block, when there is more than one, removes it. */
  lemma {:induction false} DeleteEmptyTopBlock(s: Session, i: nat)
    requires 1 < |s.doc.children| && i < |s.doc.children|
    requires IsBlock(s.doc.children[i]) && IsEmpty(s.doc.children[i])
    ensures var o := DeleteKey(s, [i]);
      o.prevented && o.session.doc.children == s.doc.children[..i] + s.doc.children[i + 1..]
  {
    TopRemove(s.doc.children, i);
  }
}
