/** `CustomEditor`: the mark and block commands the toolbar buttons and the
    hot keys run against the selection, and the hot-key table itself. */
module Commands {
  import opened Document
  import opened SlateOps

  /** The part of the editor the commands read and change: the document, the
      selection and the pending marks (`editor.marks`) the next typed text
      takes. */
  datatype Doc = Doc(children: seq<Node>, selection: Option<Range>, marks: Option<set<Mark>>)

  predicate ValidDoc(d: Doc) {
    ValidSelection(d.children, d.selection)
  }

  // ---------------------------------------------------------------------------
  // Document order

  /** `Path.compare`: 0 when one path is an ancestor of (or equal to) the other. */
  function Compare(a: Path, b: Path): (c: int)
    ensures -1 <= c <= 1
    ensures a == b ==> c == 0
  {
    if a == [] || b == [] then 0
    else if a[0] < b[0] then -1
    else if a[0] > b[0] then 1
    else Compare(a[1..], b[1..])
  }

  lemma {:induction false} CompareZero(a: Path, b: Path)
    ensures Compare(a, b) == 0 <==> IsPrefix(a, b) || IsPrefix(b, a)
    decreases |a|
  {
    if a != [] && b != [] {
      if a[0] == b[0] {
        CompareZero(a[1..], b[1..]);
        PrefixCons(a, b);
        PrefixCons(b, a);
      } else {
        assert |a| <= |b| ==> b[..|a|][0] != a[0];
        assert |b| <= |a| ==> a[..|b|][0] != b[0];
      }
    }
  }

  /** `Path.compare` is antisymmetric. */
  lemma {:induction false} CompareFlip(a: Path, b: Path)
    ensures Compare(a, b) == -Compare(b, a)
    decreases |a|
  {
    if a != [] && b != [] && a[0] == b[0] {
      CompareFlip(a[1..], b[1..]);
    }
  }

  /** `Point.isBefore`. */
  predicate PointBefore(a: Point, b: Point) {
    Compare(a.path, b.path) == -1 || (Compare(a.path, b.path) == 0 && a.offset < b.offset)
  }

  /** `Range.edges`: the earlier and the later end of a range. */
  function Start(r: Range): Point {
    if PointBefore(r.focus, r.anchor) then r.focus else r.anchor
  }

  function End(r: Range): Point {
    if PointBefore(r.focus, r.anchor) then r.anchor else r.focus
  }

  /** The start of a range never lies after its end. */
  lemma {:induction false} StartNotAfterEnd(r: Range)
    ensures Compare(Start(r).path, End(r).path) <= 0
  {
    CompareFlip(r.anchor.path, r.focus.path);
  }

  // ---------------------------------------------------------------------------
  // Ancestors

  const AllKinds: set<Kind> := {Paragraph, Code, UnorderedList, OrderedList, ListItem, Mention}
  const ListKinds: set<Kind> := {UnorderedList, OrderedList}

  /** A block element whose kind is in `ks` sits at `q`. */
  predicate BlockIn(cs: seq<Node>, q: Path, ks: set<Kind>) {
    NodeAt(cs, q).Some? && IsBlock(NodeAt(cs, q).value) && NodeAt(cs, q).value.kind in ks
  }

  /** The deepest of `p[..1]`, ..., `p[..n]` that is a block of a kind in `ks`. */
  function LowestUpTo(cs: seq<Node>, p: Path, ks: set<Kind>, n: nat): (r: Option<Path>)
    requires n <= |p|
    ensures r.Some? ==> 0 < |r.value| <= n && r.value == p[..|r.value|] && BlockIn(cs, r.value, ks)
    ensures forall m | (if r.Some? then |r.value| else 0) < m <= n :: !BlockIn(cs, p[..m], ks)
    decreases n
  {
    if n == 0 then None
    else if BlockIn(cs, p[..n], ks) then Some(p[..n])
    else LowestUpTo(cs, p, ks, n - 1)
  }

  /** `Editor.above(at: p, match: block of a kind in ks)`: the deepest proper ancestor. */
  function LowestAbove(cs: seq<Node>, p: Path, ks: set<Kind>): Option<Path> {
    if |p| == 0 then None else LowestUpTo(cs, p, ks, |p| - 1)
  }

  // ---------------------------------------------------------------------------
  // Marks

  function TextMarks(cs: seq<Node>, p: Path): set<Mark> {
    if IsTextAt(cs, p) then NodeAt(cs, p).value.marks else {}
  }

  /** `Editor.marks`: none without a selection; the pending marks when set.
      On a range, those of the first text run from its start up to its end,
      where the walk does not enter voids (no marks when it finds none). At a
      caret, those of the caret's run, except that a caret at the very start of
      a run reads the previous text run of its block, again skipping voids. */
  function Marks(d: Doc): (r: Option<set<Mark>>)
    ensures r.Some? <==> d.selection.Some?
  {
    if d.selection.None? then None
    else if d.marks.Some? then d.marks
    else
      var sel := d.selection.value;
      if !IsCollapsed(sel) then
        var first := TextAtOrAfter(d.children, Start(sel).path, false);
        Some(if first.Some? && Compare(first.value, End(sel).path) <= 0
             then TextMarks(d.children, first.value) else {})
      else
        var a := sel.anchor;
        var prev := TextBefore(d.children, a.path, false);
        var block := LowestAbove(d.children, a.path, AllKinds);
        if a.offset == 0 && prev.Some? && block.Some? && IsPrefix(block.value, prev.value)
        then Some(TextMarks(d.children, prev.value))
        else Some(TextMarks(d.children, a.path))
  }

  /** `CustomEditor.isMarkActive`. */
  predicate IsMarkActive(d: Doc, m: Mark) {
    Marks(d).Some? && m in Marks(d).value
  }

  /** The runs a text run is split into when a mark changes on `[s, e)`: the
      part before keeps `ms`, the middle part gets `ms'`, the part after keeps `ms`. */
  function MarkRuns(t: string, ms: set<Mark>, ms': set<Mark>, s: nat, e: nat): seq<Node>
    requires s <= e <= |t|
  {
    (if s > 0 then [Text(t[..s], ms)] else []) + [Text(t[s..e], ms')] + (if e < |t| then [Text(t[e..], ms)] else [])
  }

  /** An expanded selection inside one text run that is not inside a void:
      the case of mark toggling on a range the model covers. */
  predicate SingleRun(d: Doc) {
    d.selection.Some? && !IsCollapsed(d.selection.value) &&
    d.selection.value.anchor.path == d.selection.value.focus.path &&
    ValidSelection(d.children, d.selection) &&
    !InVoid(d.children, d.selection.value.anchor.path)
  }

  /** Where the middle run lands. */
  function MarkedPath(p: Path, s: nat): Path
    requires |p| > 0
  {
    Parent(p) + [Last(p) + (if s > 0 then 1 else 0)]
  }

  /** `CustomEditor.toggleMark`: `Editor.removeMark` when the mark is active,
      `Editor.addMark` otherwise. A caret changes the pending marks; a range
      inside one text run splits the run and changes the middle part, which
      then becomes the selection. Text inside a void takes no marks. */
  function ToggleMark(d: Doc, m: Mark): Doc {
    if d.selection.None? then d
    else
      var sel := d.selection.value;
      var active := IsMarkActive(d, m);
      if IsCollapsed(sel) then
        var ms := Marks(d).value;
        d.(marks := Some(if active then ms - {m} else ms + {m}))
      else if SingleRun(d) then
        var p := sel.anchor.path;
        var t := NodeAt(d.children, p).value;
        var s, e := Start(sel).offset, End(sel).offset;
        var mid := MarkedPath(p, s);
        var runs := MarkRuns(t.text, t.marks, if active then t.marks - {m} else t.marks + {m}, s, e);
        var sel' :=
          if PointBefore(sel.focus, sel.anchor) then Range(Point(mid, e - s), Point(mid, 0))
          else Range(Point(mid, 0), Point(mid, e - s));
        Doc(SplitText(d.children, p, runs), Some(sel'), if sel' == sel then d.marks else None)
      else d
  }

  /** On a caret, toggling a mark flips whether it is active and leaves every other mark as it was. */
  lemma {:induction false} ToggleMarkCaret(d: Doc, m: Mark)
    requires d.selection.Some? && IsCollapsed(d.selection.value)
    ensures IsMarkActive(ToggleMark(d, m), m) == !IsMarkActive(d, m)
    ensures forall m' | m' != m :: IsMarkActive(ToggleMark(d, m), m') == IsMarkActive(d, m')
    ensures ToggleMark(d, m).children == d.children && ToggleMark(d, m).selection == d.selection
  {
  }

  /** Toggling the same mark twice at a caret gives back the marks the next character would take. */
  lemma {:induction false} ToggleMarkTwice(d: Doc, m: Mark)
    requires d.selection.Some? && IsCollapsed(d.selection.value)
    ensures Marks(ToggleMark(ToggleMark(d, m), m)) == Marks(d)
  {
    var ms := Marks(d).value;
    if m in ms {
      assert ms - {m} + {m} == ms;
    } else {
      assert ms + {m} - {m} == ms;
    }
  }

  /** A range inside one run: the run's characters are kept, the selected part
      alone carries the flipped mark, and the selection covers exactly that part. */
  lemma {:induction false} ToggleMarkRange(d: Doc, m: Mark)
    requires SingleRun(d) && d.marks.None?
    ensures var r := ToggleMark(d, m);
      var sel := d.selection.value;
      var p := sel.anchor.path;
      var t := NodeAt(d.children, p).value;
      var mid := MarkedPath(p, Start(sel).offset);
      r.selection.Some? && !IsCollapsed(r.selection.value) &&
      NodeAt(r.children, mid) == Some(Text(t.text[Start(sel).offset..End(sel).offset],
        if m in t.marks then t.marks - {m} else t.marks + {m})) &&
      IsMarkActive(r, m) == !IsMarkActive(d, m)
  {
    var sel := d.selection.value;
    var p := sel.anchor.path;
    var t := NodeAt(d.children, p).value;
    var s, e := Start(sel).offset, End(sel).offset;
    MarksOfRange(d);
    var ms' := if m in t.marks then t.marks - {m} else t.marks + {m};
    var runs := MarkRuns(t.text, t.marks, ms', s, e);
    var k := if s > 0 then 1 else 0;
    assert runs[k] == Text(t.text[s..e], ms');
    var mid := MarkedPath(p, s);
    assert mid == Parent(p) + [Last(p) + k];
    SplitTextRun(d.children, p, runs, k);
    SplitRunFirst(d.children, p, runs, k);
    var r := ToggleMark(d, m);
    assert r.children == SplitText(d.children, p, runs);
    assert r.marks.None? && r.selection.Some?;
    assert Start(r.selection.value).path == mid && End(r.selection.value).path == mid;
    MarksOfRange(r);
  }

  /** A run that a split puts in place of a run outside voids is a text run
      outside voids too. */
  lemma {:induction false} SplitRunFirst(cs: seq<Node>, p: Path, runs: seq<Node>, k: nat)
    requires IsTextAt(cs, p) && !InVoid(cs, p) && k < |runs| && runs[k].Text?
    ensures IsTextAt(SplitText(cs, p, runs), Parent(p) + [Last(p) + k])
    ensures !InVoid(SplitText(cs, p, runs), Parent(p) + [Last(p) + k])
  {
    SplitTextRun(cs, p, runs, k);
    NodeAtParent(cs, p);
    var kids := ChildrenAt(cs, Parent(p)).value;
    assert Parent(p) + [Last(p)] == p;
    ReplaceInVoid(cs, Parent(p), kids[..Last(p)] + runs + kids[Last(p) + 1..], Last(p) + k, Last(p));
  }

  /** A caret at the start of the run that follows a mention reads the run
      before the mention, whose marks the toggle then flips: the search for the
      previous text does not stop at the mention's own empty text. */
  lemma {:induction false} MarksAfterMention(d: Doc, i: nat, j: nat, m: Mark)
    requires d.marks.None? && i < |d.children| && IsBlock(d.children[i])
    requires var kids := d.children[i].children;
      2 <= j < |kids| && kids[j - 2].Text? && IsVoid(kids[j - 1]) && kids[j].Text?
    requires d.selection == Some(Range(Point([i, j], 0), Point([i, j], 0)))
    ensures var ms := d.children[i].children[j - 2].marks;
      Marks(d) == Some(ms) &&
      ToggleMark(d, m).marks == Some(if m in ms then ms - {m} else ms + {m})
  {
    var cs := d.children;
    var kids := cs[i].children;
    assert LastTextIn(kids, j - 1, false) == Some([j - 2]);
    assert LastTextIn(kids, j, false) == Some([j - 2]);
    assert [i, j][1..] == [j];
    assert TextBefore(kids, [j], false) == Some([j - 2]);
    assert TextBefore(cs, [i, j], false) == Some([i, j - 2]) by {
      assert [i] + [j - 2] == [i, j - 2];
    }
    assert [i, j][..1] == [i];
    assert LowestAbove(cs, [i, j], AllKinds) == Some([i]);
    assert [i, j - 2][..1] == [i];
    NodeAtCons(cs, i, [j - 2]);
    assert TextMarks(cs, [i, j - 2]) == kids[j - 2].marks;
  }

  /** On a range that starts on a run outside any void, the marks are that run's. */
  lemma {:induction false} MarksOfRange(d: Doc)
    requires d.marks.None? && d.selection.Some? && !IsCollapsed(d.selection.value)
    requires IsTextAt(d.children, Start(d.selection.value).path)
    requires !InVoid(d.children, Start(d.selection.value).path)
    ensures Marks(d) == Some(NodeAt(d.children, Start(d.selection.value).path).value.marks)
  {
    StartNotAfterEnd(d.selection.value);
    TextAtOrAfterSelf(d.children, Start(d.selection.value).path, false);
  }

  /** Text inside a void takes no marks: a range inside such a run leaves the document as it was. */
  lemma {:induction false} ToggleMarkInVoid(d: Doc, m: Mark)
    requires d.selection.Some? && !IsCollapsed(d.selection.value)
    requires InVoid(d.children, d.selection.value.anchor.path)
    ensures ToggleMark(d, m) == d
  {
  }

  /** Toggling a mark keeps the selection on text runs. */
  lemma {:induction false} ToggleMarkValid(d: Doc, m: Mark)
    requires ValidDoc(d)
    ensures ValidDoc(ToggleMark(d, m))
  {
    if d.selection.Some? && !IsCollapsed(d.selection.value) && SingleRun(d) {
      var sel := d.selection.value;
      var p := sel.anchor.path;
      var t := NodeAt(d.children, p).value;
      var s, e := Start(sel).offset, End(sel).offset;
      var ms' := if IsMarkActive(d, m) then t.marks - {m} else t.marks + {m};
      var runs := MarkRuns(t.text, t.marks, ms', s, e);
      var k := if s > 0 then 1 else 0;
      assert runs[k] == Text(t.text[s..e], ms');
      SplitTextRun(d.children, p, runs, k);
      var mid := MarkedPath(p, s);
      assert mid == Parent(p) + [Last(p) + k];
      var cs' := SplitText(d.children, p, runs);
      assert ValidPoint(cs', Point(mid, 0)) && ValidPoint(cs', Point(mid, e - s));
    }
  }

  /** The split keeps the characters of the run, in order. */
  lemma {:induction false} MarkRunsKeepText(t: string, ms: set<Mark>, ms': set<Mark>, s: nat, e: nat)
    requires s <= e <= |t|
    ensures StringOfAll(MarkRuns(t, ms, ms', s, e)) == t
  {
    var pre := if s > 0 then [Text(t[..s], ms)] else [];
    var mid := [Text(t[s..e], ms')];
    var post := if e < |t| then [Text(t[e..], ms)] else [];
    StringOfAllAppend(pre + mid, post);
    StringOfAllAppend(pre, mid);
    TextRunString(t[s..e], ms');
    if s > 0 {
      TextRunString(t[..s], ms);
    }
    if e < |t| {
      TextRunString(t[e..], ms);
    }
    assert t[..s] + t[s..e] + t[e..] == t;
  }

  lemma {:induction false} TextRunString(t: string, ms: set<Mark>)
    ensures StringOfAll([Text(t, ms)]) == t
  {
    assert [Text(t, ms)][1..] == [];
  }

  lemma {:induction false} StringOfAllAppend(a: seq<Node>, b: seq<Node>)
    ensures StringOfAll(a + b) == StringOfAll(a) + StringOfAll(b)
    decreases |a|
  {
    if a != [] {
      assert (a + b)[1..] == a[1..] + b;
      StringOfAllAppend(a[1..], b);
    } else {
      assert a + b == b;
    }
  }

  // ---------------------------------------------------------------------------
  // Blocks

  /** A block of kind `k` sits at `q`. */
  predicate KindAt(cs: seq<Node>, q: Path, k: Kind) {
    NodeAt(cs, q).Some? && IsBlock(NodeAt(cs, q).value) && NodeAt(cs, q).value.kind == k
  }

  predicate InSpan(p: Path, s: Path, e: Path) {
    Compare(p, s) >= 0 && Compare(p, e) <= 0
  }

  /** The walk of `Editor.nodes` over the children `cs` of the node at `base`:
      some block of kind `k` lies between the start path `s` and the end path
      `e` (ancestors of either count as between). */
  predicate ActiveBelow(cs: seq<Node>, base: Path, k: Kind, s: Path, e: Path)
    decreases cs
  {
    exists i | 0 <= i < |cs| ::
      (IsBlock(cs[i]) && cs[i].kind == k && InSpan(base + [i], s, e)) ||
      (cs[i].Element? && ActiveBelow(cs[i].children, base + [i], k, s, e))
  }

  /** `CustomEditor.isBlockActive`. */
  predicate IsBlockActive(d: Doc, k: Kind) {
    d.selection.Some? &&
    ActiveBelow(d.children, [], k, Start(d.selection.value).path, End(d.selection.value).path)
  }

  lemma {:induction false} ActiveBelowSound(cs: seq<Node>, base: Path, k: Kind, s: Path, e: Path)
    requires ActiveBelow(cs, base, k, s, e)
    ensures exists q :: KindAt(cs, q, k) && InSpan(base + q, s, e)
    decreases cs
  {
    var i :| 0 <= i < |cs| &&
      ((IsBlock(cs[i]) && cs[i].kind == k && InSpan(base + [i], s, e)) ||
       (cs[i].Element? && ActiveBelow(cs[i].children, base + [i], k, s, e)));
    if IsBlock(cs[i]) && cs[i].kind == k && InSpan(base + [i], s, e) {
      assert KindAt(cs, [i], k);
    } else {
      var kids := cs[i].children;
      ActiveBelowSound(kids, base + [i], k, s, e);
      var q' :| KindAt(kids, q', k) && InSpan(base + [i] + q', s, e);
      NodeAtCons(cs, i, q');
      ConsPath(base, i, q');
      assert KindAt(cs, [i] + q', k) && InSpan(base + ([i] + q'), s, e);
    }
  }

  lemma {:induction false} ActiveBelowComplete(cs: seq<Node>, base: Path, k: Kind, s: Path, e: Path, q: Path)
    requires KindAt(cs, q, k) && InSpan(base + q, s, e)
    ensures ActiveBelow(cs, base, k, s, e)
    decreases cs
  {
    var i := q[0];
    if |q| == 1 {
      assert q == [i];
      assert IsBlock(cs[i]) && cs[i].kind == k && InSpan(base + [i], s, e);
    } else {
      var q' := q[1..];
      assert q == [i] + q';
      NodeAtCons(cs, i, q');
      assert KindAt(cs[i].children, q', k);
      assert base + [i] + q' == base + q;
      ActiveBelowComplete(cs[i].children, base + [i], k, s, e, q');
    }
  }

  /** The walk finds a block exactly when one of kind `k` lies in the span. */
  lemma {:induction false} ActiveBelowMeans(cs: seq<Node>, base: Path, k: Kind, s: Path, e: Path)
    ensures ActiveBelow(cs, base, k, s, e) <==> exists q :: KindAt(cs, q, k) && InSpan(base + q, s, e)
  {
    if ActiveBelow(cs, base, k, s, e) {
      ActiveBelowSound(cs, base, k, s, e);
    }
    if exists q :: KindAt(cs, q, k) && InSpan(base + q, s, e) {
      var q :| KindAt(cs, q, k) && InSpan(base + q, s, e);
      ActiveBelowComplete(cs, base, k, s, e, q);
    }
  }

  /** At a caret, a block format is active exactly when one of the caret's
      block ancestors has that kind. */
  lemma {:induction false} ActiveAtCaret(d: Doc, k: Kind)
    requires ValidDoc(d) && d.selection.Some? && IsCollapsed(d.selection.value)
    ensures var a := d.selection.value.anchor.path;
      IsBlockActive(d, k) <==> exists n :: 0 < n < |a| && KindAt(d.children, a[..n], k)
  {
    var a := d.selection.value.anchor.path;
    ActiveBelowMeans(d.children, [], k, a, a);
    if IsBlockActive(d, k) {
      var q :| KindAt(d.children, q, k) && InSpan([] + q, a, a);
      assert [] + q == q;
      CompareZero(q, a);
      TextLeaf(d.children, a, q);
      assert q != a;
      assert a[..|q|] == q;
    }
    if exists n :: 0 < n < |a| && KindAt(d.children, a[..n], k) {
      var n :| 0 < n < |a| && KindAt(d.children, a[..n], k);
      var q := a[..n];
      CompareZero(q, a);
      assert [] + q == q;
      assert KindAt(d.children, q, k) && InSpan([] + q, a, a);
    }
  }

  /** The case of `toggleBlock` the model covers: both ends of the selection
      lie in the same lowest block, and that block is not itself a list. */
  function ToggleTarget(d: Doc): (b: Option<Path>)
    ensures b.Some? ==> (
      d.selection.Some? && ValidDoc(d) &&
      HasElement(d.children, b.value) && IsBlock(NodeAt(d.children, b.value).value) &&
      !IsListKind(NodeAt(d.children, b.value).value.kind) &&
      IsPrefix(b.value, d.selection.value.anchor.path) && |b.value| < |d.selection.value.anchor.path| &&
      IsPrefix(b.value, d.selection.value.focus.path) && |b.value| < |d.selection.value.focus.path|)
  {
    if d.selection.None? || !ValidDoc(d) then None
    else
      var b := LowestAbove(d.children, d.selection.value.anchor.path, AllKinds);
      if b.Some? && LowestAbove(d.children, d.selection.value.focus.path, AllKinds) == b &&
         !IsListKind(NodeAt(d.children, b.value).value.kind)
      then b else None
  }

  /** `Transforms.unwrapNodes(match: block list, split: true)` for a selection
      inside the block at `bp`: the child of the lowest list above `bp` that
      holds `bp` is lifted out of that list, which is split around it. Also
      returns where the block went. */
  function UnwrapList(d: Doc, bp: Path): (r: (Doc, Path))
    requires HasElement(d.children, bp) && ValidDoc(d)
    ensures NodeAt(r.0.children, r.1) == NodeAt(d.children, bp)
    ensures ValidDoc(r.0)
    ensures r.0.marks == d.marks
    ensures LowestAbove(d.children, bp, ListKinds).None? ==> r == (d, bp)
    ensures LowestAbove(d.children, bp, ListKinds).Some? ==> |r.1| == |bp| - 1
  {
    var lp := LowestAbove(d.children, bp, ListKinds);
    if lp.None? then (d, bp)
    else
      var cs := d.children;
      var cp := bp[..|lp.value| + 1];
      NodeAtPrefix(cs, bp, |lp.value| + 1);
      assert bp == cp + bp[|cp|..];
      LiftBelow(cs, cp, bp[|cp|..]);
      LiftSelValid(cs, cp, d.selection);
      LiftPathBelow(cs, cp, bp[|cp|..]);
      (d.(children := Lift(cs, cp), selection := LiftSel(cs, cp, d.selection)), LiftPath(cs, cp, bp))
  }

  /** The kind `toggleBlock` gives the block: paragraph when the format was
      active, list item for a list format, the format itself otherwise. */
  function NewKind(active: bool, k: Kind): Kind {
    if active then Paragraph else if IsListKind(k) then ListItem else k
  }

  /** `CustomEditor.toggleBlock`. */
  function ToggleBlock(d: Doc, k: Kind): Doc {
    var bp := ToggleTarget(d);
    if bp.None? then d
    else
      var active := IsBlockActive(d, k);
      var (d1, bp1) := UnwrapList(d, bp.value);
      var d2 := d1.(children := SetKind(d1.children, bp1, NewKind(active, k)));
      SetKindResult(d1.children, bp1, NewKind(active, k));
      if !active && IsListKind(k) then
        d2.(children := Wrap(d2.children, bp1, k), selection := WrapSel(bp1, d2.selection))
      else d2
  }

  /** Where the toggled block (or the list wrapped around it) ends up. */
  function ToggledPath(d: Doc): Path
    requires ToggleTarget(d).Some?
  {
    UnwrapList(d, ToggleTarget(d).value).1
  }

  /** `toggleBlock`, in full: the block leaves its lowest list (rising one
      level) and becomes a paragraph when the format was active, a list item
      wrapped in a new list of that format for a list format, or takes the
      format otherwise; its children, the pending marks and the validity of
      the selection are kept. */
  lemma {:induction false} ToggleBlockResult(d: Doc, k: Kind)
    requires ToggleTarget(d).Some?
    ensures var bp := ToggleTarget(d).value;
      var b := NodeAt(d.children, bp).value;
      var r := ToggleBlock(d, k);
      var np := ToggledPath(d);
      NodeAt(r.children, np) ==
        Some(if IsBlockActive(d, k) then b.(kind := Paragraph)
             else if IsListKind(k) then Element(k, None, [b.(kind := ListItem)])
             else b.(kind := k)) &&
      (if LowestAbove(d.children, bp, ListKinds).Some? then |np| == |bp| - 1 else np == bp) &&
      ValidDoc(r) && r.marks == d.marks
  {
    var bp := ToggleTarget(d).value;
    var active := IsBlockActive(d, k);
    var (d1, bp1) := UnwrapList(d, bp);
    var b := NodeAt(d.children, bp).value;
    SetKindResult(d1.children, bp1, NewKind(active, k));
    SetKindSelValid(d1.children, bp1, NewKind(active, k), d1.selection);
    var cs2 := SetKind(d1.children, bp1, NewKind(active, k));
    if !active && IsListKind(k) {
      WrapResult(cs2, bp1, k);
      WrapSelValid(cs2, bp1, k, d1.selection);
    }
  }

  // ---------------------------------------------------------------------------
  // Top-level blocks: the shapes the toolbar and the keyboard produce

  /** A caret in the text run `j` of the top-level block `i`. */
  predicate CaretInTopBlock(d: Doc, i: nat, j: nat) {
    i < |d.children| && IsBlock(d.children[i]) && j < |d.children[i].children| &&
    d.children[i].children[j].Text? &&
    d.selection.Some? && IsCollapsed(d.selection.value) &&
    d.selection.value.anchor.path == [i, j] &&
    d.selection.value.anchor.offset <= |d.children[i].children[j].text|
  }

  lemma {:induction false} ReplaceAtRoot(cs: seq<Node>, i: nat, del: nat, ins: seq<Node>)
    requires i + del <= |cs|
    ensures Splice(cs, [], i, del, ins) == cs[..i] + ins + cs[i + del..]
  {
  }

  lemma {:induction false} SetNodeTop(cs: seq<Node>, i: nat, n: Node)
    requires i < |cs|
    ensures SetNode(cs, [i], n) == cs[i := n]
  {
    assert Parent([i]) == [] && Last([i]) == i;
    ReplaceAtRoot(cs, i, 1, [n]);
    assert cs[..i] + [n] + cs[i + 1..] == cs[i := n];
  }

  lemma {:induction false} CaretTarget(d: Doc, i: nat, j: nat)
    requires CaretInTopBlock(d, i, j) && !IsListKind(d.children[i].kind)
    ensures ToggleTarget(d) == Some([i])
    ensures LowestAbove(d.children, [i], ListKinds).None?
  {
    var a := [i, j];
    assert a[..1] == [i];
    assert BlockIn(d.children, [i], AllKinds);
    NodeAtCons(d.children, i, [j]);
  }

  lemma {:induction false} CaretActive(d: Doc, i: nat, j: nat, k: Kind)
    requires CaretInTopBlock(d, i, j)
    ensures IsBlockActive(d, k) <==> d.children[i].kind == k
  {
    NodeAtCons(d.children, i, [j]);
    ActiveAtCaret(d, k);
    var a := [i, j];
    assert a[..1] == [i];
    assert KindAt(d.children, [i], k) <==> d.children[i].kind == k;
  }

  /** A list format on a top-level paragraph (or code block) at the caret: the
      block becomes a list item inside a new list of that format, and the
      caret stays in the same text. */
  lemma {:induction false} ToggleListOn(d: Doc, i: nat, j: nat, k: Kind)
    requires CaretInTopBlock(d, i, j) && IsListKind(k) && !IsListKind(d.children[i].kind)
    ensures var b := d.children[i];
      var pt := d.selection.value.anchor;
      ToggleBlock(d, k) ==
        d.(children := d.children[i := Element(k, None, [b.(kind := ListItem)])],
           selection := Some(Range(Point([i, 0, j], pt.offset), Point([i, 0, j], pt.offset))))
  {
    var cs := d.children;
    CaretTarget(d, i, j);
    CaretActive(d, i, j, k);
    var b := cs[i];
    SetNodeTop(cs, i, b.(kind := ListItem));
    var cs2 := cs[i := b.(kind := ListItem)];
    assert NodeAt(cs2, [i]) == Some(b.(kind := ListItem));
    SetNodeTop(cs2, i, Element(k, None, [b.(kind := ListItem)]));
    assert cs2[i := Element(k, None, [b.(kind := ListItem)])] == cs[i := Element(k, None, [b.(kind := ListItem)])];
    var a := [i, j];
    assert IsPrefix([i], a) && [i] + [0] + a[1..] == [i, 0, j];
  }

  lemma {:induction false} ListItemTarget(d: Doc, i: nat, j: nat)
    requires i < |d.children| && IsBlock(d.children[i]) && IsListKind(d.children[i].kind)
    requires var items := d.children[i].children;
      j < |items| && IsBlock(items[j]) && !IsListKind(items[j].kind)
    requires d.selection.Some? && IsCollapsed(d.selection.value) && ValidDoc(d)
    requires var a := d.selection.value.anchor.path; |a| == 3 && a[0] == i && a[1] == j
    ensures ToggleTarget(d) == Some([i, j])
    ensures LowestAbove(d.children, [i, j], ListKinds) == Some([i])
  {
    var cs := d.children;
    var a := d.selection.value.anchor.path;
    assert a[..2] == [i, j];
    assert a[..1] == [i];
    NodeAtCons(cs, i, [j]);
    assert BlockIn(cs, [i, j], AllKinds);
    var ij := [i, j];
    assert ij[..1] == [i];
    assert BlockIn(cs, [i], ListKinds);
  }

  /** Lifting child `j` out of the top-level element `i`. */
  lemma {:induction false} LiftTop(cs: seq<Node>, i: nat, j: nat, r: Path)
    requires i < |cs| && cs[i].Element? && j < |cs[i].children|
    ensures CanLift(cs, [i, j])
    ensures Lift(cs, [i, j]) == cs[..i] + LiftPieces(cs[i], j) + cs[i + 1..]
    ensures LiftPath(cs, [i, j], [i, j] + r) == [i + (if j > 0 then 1 else 0)] + r
  {
    var cp := [i, j];
    NodeAtCons(cs, i, [j]);
    LiftSetup(cs, cp);
    assert Parent(cp) == [i] && Last(cp) == j && Parent([i]) == [] && Last([i]) == i;
    ReplaceAtRoot(cs, i, 1, LiftPieces(cs[i], j));
    LiftPathBelow(cs, cp, r);
  }

  lemma {:induction false} ListItemUnwrap(d: Doc, i: nat, j: nat)
    requires i < |d.children| && IsBlock(d.children[i]) && IsListKind(d.children[i].kind)
    requires var items := d.children[i].children;
      j < |items| && IsBlock(items[j]) && items[j].kind == ListItem
    requires d.selection.Some? && IsCollapsed(d.selection.value) && ValidDoc(d)
    requires var a := d.selection.value.anchor.path; |a| == 3 && a[0] == i && a[1] == j
    ensures ToggleTarget(d) == Some([i, j]) && IsBlockActive(d, d.children[i].kind)
    ensures var pt := d.selection.value.anchor;
      var off := if j > 0 then 1 else 0;
      UnwrapList(d, [i, j]) ==
        (d.(children := d.children[..i] + LiftPieces(d.children[i], j) + d.children[i + 1..],
            selection := Some(Range(Point([i + off, pt.path[2]], pt.offset), Point([i + off, pt.path[2]], pt.offset)))),
         [i + off])
  {
    var cs := d.children;
    var l := cs[i];
    var pt := d.selection.value.anchor;
    var a := pt.path;
    ListItemTarget(d, i, j);
    assert IsBlockActive(d, l.kind) by {
      ActiveAtCaret(d, l.kind);
      assert a[..1] == [i];
      assert KindAt(cs, a[..1], l.kind);
    }
    ListItemLift(d, i, j);
  }

  lemma {:induction false} ListItemLift(d: Doc, i: nat, j: nat)
    requires i < |d.children| && IsBlock(d.children[i]) && IsListKind(d.children[i].kind)
    requires j < |d.children[i].children| && IsBlock(d.children[i].children[j])
    requires d.selection.Some? && IsCollapsed(d.selection.value) && ValidDoc(d)
    requires var a := d.selection.value.anchor.path; |a| == 3 && a[0] == i && a[1] == j
    requires LowestAbove(d.children, [i, j], ListKinds) == Some([i])
    ensures var pt := d.selection.value.anchor;
      var off := if j > 0 then 1 else 0;
      UnwrapList(d, [i, j]) ==
        (d.(children := d.children[..i] + LiftPieces(d.children[i], j) + d.children[i + 1..],
            selection := Some(Range(Point([i + off, pt.path[2]], pt.offset), Point([i + off, pt.path[2]], pt.offset)))),
         [i + off])
  {
    var cs := d.children;
    var pt := d.selection.value.anchor;
    var a := pt.path;
    var off := if j > 0 then 1 else 0;
    NodeAtCons(cs, i, [j]);
    var cp := [i, j];
    assert [i, j][..|[i]| + 1] == cp;
    LiftTop(cs, i, j, []);
    LiftTop(cs, i, j, [a[2]]);
    assert cp + [] == cp && cp + [a[2]] == a;
    assert [i + off] + [] == [i + off];
    assert [i + off] + [a[2]] == [i + off, a[2]];
    assert d.selection.value.focus == pt;
  }

  /** With the format active, `toggleBlock` unwraps and makes a paragraph. */
  lemma {:induction false} ToggleBlockActive(d: Doc, k: Kind)
    requires ToggleTarget(d).Some? && IsBlockActive(d, k)
    ensures var u := UnwrapList(d, ToggleTarget(d).value);
      HasElement(u.0.children, u.1) &&
      ToggleBlock(d, k) == u.0.(children := SetKind(u.0.children, u.1, Paragraph))
  {
  }

  /** Replacing the lifted item among the pieces of its split list. */
  lemma {:induction false} PiecesReplaced(cs: seq<Node>, i: nat, l: Node, j: nat, n: Node)
    requires i < |cs| && l.Element? && j < |l.children|
    ensures var off := if j > 0 then 1 else 0;
      var cs1 := cs[..i] + LiftPieces(l, j) + cs[i + 1..];
      i + off < |cs1| && cs1[i + off] == l.children[j] &&
      cs1[i + off := n] ==
        cs[..i] + (if j > 0 then [l.(children := l.children[..j])] else []) + [n] +
        (if j + 1 < |l.children| then [l.(children := l.children[j + 1..])] else []) + cs[i + 1..]
  {
  }

  /** The same list format on the item the caret is in: the item leaves the
      list as a paragraph, and the list is split around it (a list with one
      item disappears). */
  lemma {:induction false} ToggleListOff(d: Doc, i: nat, j: nat)
    requires i < |d.children| && IsBlock(d.children[i]) && IsListKind(d.children[i].kind)
    requires var items := d.children[i].children;
      j < |items| && IsBlock(items[j]) && items[j].kind == ListItem
    requires d.selection.Some? && IsCollapsed(d.selection.value) && ValidDoc(d)
    requires var a := d.selection.value.anchor.path; |a| == 3 && a[0] == i && a[1] == j
    ensures var l := d.children[i];
      var items := l.children;
      var pt := d.selection.value.anchor;
      ToggleBlock(d, l.kind) ==
        d.(children := d.children[..i] +
             (if j > 0 then [l.(children := items[..j])] else []) +
             [items[j].(kind := Paragraph)] +
             (if j + 1 < |items| then [l.(children := items[j + 1..])] else []) +
             d.children[i + 1..],
           selection := Some(Range(Point([i + (if j > 0 then 1 else 0), pt.path[2]], pt.offset),
                                   Point([i + (if j > 0 then 1 else 0), pt.path[2]], pt.offset))))
  {
    var cs := d.children;
    var l := cs[i];
    var items := l.children;
    var off := if j > 0 then 1 else 0;
    ListItemUnwrap(d, i, j);
    ToggleBlockActive(d, l.kind);
    var cs1 := cs[..i] + LiftPieces(l, j) + cs[i + 1..];
    PiecesReplaced(cs, i, l, j, items[j].(kind := Paragraph));
    SetNodeTop(cs1, i + off, items[j].(kind := Paragraph));
  }

  /** A list format toggled twice on a top-level paragraph gives back the document and the caret. */
  lemma {:induction false} ToggleListTwice(d: Doc, i: nat, j: nat, k: Kind)
    requires CaretInTopBlock(d, i, j) && IsListKind(k) && d.children[i].kind == Paragraph
    ensures ToggleBlock(ToggleBlock(d, k), k) == d
  {
    var pt := d.selection.value.anchor;
    var pt1 := Point([i, 0, j], pt.offset);
    var d1 := d.(children := d.children[i := Element(k, None, [d.children[i].(kind := ListItem)])], selection := Some(Range(pt1, pt1)));
    ToggleListOn(d, i, j, k);
    ListOffAfterOn(d, d1, i, j, k);
  }

  /** The second half of `ToggleListTwice`: the one-item list made by the
      first toggle goes back to the paragraph. */
  lemma {:induction false} ListOffAfterOn(d: Doc, d1: Doc, i: nat, j: nat, k: Kind)
    requires CaretInTopBlock(d, i, j) && IsListKind(k) && d.children[i].kind == Paragraph
    requires var pt1 := Point([i, 0, j], d.selection.value.anchor.offset);
      d1 == d.(children := d.children[i := Element(k, None, [d.children[i].(kind := ListItem)])], selection := Some(Range(pt1, pt1)))
    ensures ToggleBlock(d1, k) == d
  {
    var cs := d.children;
    var b := cs[i];
    var l := Element(k, None, [b.(kind := ListItem)]);
    assert d1.children[i] == l;
    NodeAtCons(d1.children, i, [0, j]);
    NodeAtCons(l.children, 0, [j]);
    assert ValidDoc(d1);
    SingleItemOff(d1, i);
    assert b.(kind := ListItem).(kind := Paragraph) == b;
    assert cs[i := l][i := b] == cs;
  }

  /** The item of a one-item list toggled off: the list gives way to a paragraph. */
  lemma {:induction false} SingleItemOff(d: Doc, i: nat)
    requires i < |d.children| && IsBlock(d.children[i]) && IsListKind(d.children[i].kind)
    requires |d.children[i].children| == 1
    requires IsBlock(d.children[i].children[0]) && d.children[i].children[0].kind == ListItem
    requires d.selection.Some? && IsCollapsed(d.selection.value) && ValidDoc(d)
    requires var a := d.selection.value.anchor.path; |a| == 3 && a[0] == i && a[1] == 0
    ensures var pt := d.selection.value.anchor;
      var q := Point([i, pt.path[2]], pt.offset);
      ToggleBlock(d, d.children[i].kind) ==
        d.(children := d.children[i := d.children[i].children[0].(kind := Paragraph)], selection := Some(Range(q, q)))
  {
    ToggleListOff(d, i, 0);
    OneItemPieces(d.children, i, d.children[i].children[0].(kind := Paragraph));
  }

  /** Replacing one node with nothing before or after it is an update in place. */
  lemma {:induction false} OneItemPieces(cs: seq<Node>, i: nat, n: Node)
    requires i < |cs|
    ensures cs[..i] + [] + [n] + [] + cs[i + 1..] == cs[i := n]
  {
  }

  /** Code (or any non-list format) toggled twice on a top-level paragraph gives back the document. */
  lemma {:induction false} ToggleKindTwice(d: Doc, i: nat, j: nat, k: Kind)
    requires CaretInTopBlock(d, i, j) && !IsListKind(k) && k != Mention && d.children[i].kind == Paragraph
    ensures ToggleBlock(d, k).children == d.children[i := d.children[i].(kind := k)]
    ensures ToggleBlock(ToggleBlock(d, k), k) == d
  {
    var cs := d.children;
    var b := cs[i];
    CaretTarget(d, i, j);
    CaretActive(d, i, j, k);
    SetNodeTop(cs, i, b.(kind := NewKind(k == Paragraph, k)));
    var d1 := ToggleBlock(d, k);
    if k != Paragraph {
      assert CaretInTopBlock(d1, i, j);
      CaretTarget(d1, i, j);
      CaretActive(d1, i, j, k);
      SetNodeTop(d1.children, i, b);
      assert d1.children[i := b] == cs;
    } else {
      assert b.(kind := Paragraph) == b;
      assert cs[i := b] == cs;
    }
  }

  // ---------------------------------------------------------------------------
  // Hot keys

  datatype Command = ToggleMarkCommand(mark: Mark) | ToggleBlockCommand(kind: Kind)

  /** The `hotkeys` table: Ctrl+b, Ctrl+i, Ctrl+u toggle bold, italic and
      underline; Ctrl+/ toggles a code block. */
  function Hotkey(key: string): (c: Option<Command>)
    ensures c.Some? <==> key in {"b", "i", "u", "/"}
    ensures key == "b" ==> c == Some(ToggleMarkCommand(Bold))
    ensures key == "i" ==> c == Some(ToggleMarkCommand(Italic))
    ensures key == "u" ==> c == Some(ToggleMarkCommand(Underline))
    ensures c == Some(ToggleBlockCommand(Code)) <==> key == "/"
    ensures c.Some? && c.value.ToggleMarkCommand? ==> c.value.mark != Placeholder
  {
    if key == "b" then Some(ToggleMarkCommand(Bold))
    else if key == "i" then Some(ToggleMarkCommand(Italic))
    else if key == "u" then Some(ToggleMarkCommand(Underline))
    else if key == "/" then Some(ToggleBlockCommand(Code))
    else None
  }

  function RunCommand(d: Doc, c: Command): Doc {
    match c
    case ToggleMarkCommand(m) => ToggleMark(d, m)
    case ToggleBlockCommand(k) => ToggleBlock(d, k)
  }

  /** Every command keeps the selection on text runs. */
  lemma {:induction false} RunCommandValid(d: Doc, c: Command)
    requires ValidDoc(d)
    ensures ValidDoc(RunCommand(d, c))
  {
    match c
    case ToggleMarkCommand(m) => ToggleMarkValid(d, m);
    case ToggleBlockCommand(k) =>
      if ToggleTarget(d).Some? {
        ToggleBlockResult(d, k);
      }
  }
}
