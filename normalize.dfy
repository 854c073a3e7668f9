/** `withMergeAdjacentLists`: the editor's own `normalizeNode`. A paragraph
    that starts with `1. ` or `* `/`- ` becomes a list item; the children of a
    list are coerced to list items; a list right after a list of the same
    kind is merged into it. */
module Normalize {
  import opened Document
  import opened SlateOps
  import opened Commands

  // ---------------------------------------------------------------------------
  // The two prefix patterns

  predicate IsDigit(c: char) {
    '0' <= c <= '9'
  }

  /** The number of leading decimal digits. */
  function DigitRun(t: string): (n: nat)
    ensures n <= |t|
    ensures forall i | 0 <= i < n :: IsDigit(t[i])
    ensures n < |t| ==> !IsDigit(t[n])
  {
    if t != [] && IsDigit(t[0]) then 1 + DigitRun(t[1..]) else 0
  }

  /** `t.match(/^\d+\. /)`: the length of the match. */
  function NumberPrefix(t: string): Option<nat> {
    var n := DigitRun(t);
    if n > 0 && n + 1 < |t| && t[n] == '.' && t[n + 1] == ' ' then Some(n + 2) else None
  }

  /** `t.match(/^[*-] /)`: the length of the match. */
  function BulletPrefix(t: string): Option<nat> {
    if |t| >= 2 && (t[0] == '*' || t[0] == '-') && t[1] == ' ' then Some(2) else None
  }

  /** `t` starts with `k >= 1` digits, a full stop and a space. */
  predicate NumberShape(t: string, k: nat) {
    k >= 1 && k + 2 <= |t| && (forall i | 0 <= i < k :: IsDigit(t[i])) && t[k] == '.' && t[k + 1] == ' '
  }

  /** The number pattern matches exactly the texts of that shape, and its
      length is the digits plus two. */
  lemma {:induction false} NumberPrefixMeans(t: string, k: nat)
    ensures NumberPrefix(t) == Some(k + 2) <==> NumberShape(t, k)
  {
    if NumberShape(t, k) {
      var n := DigitRun(t);
      assert n >= k;
      assert n == k;
    }
  }

  lemma {:induction false} NumberPrefixAtLeast(t: string)
    ensures NumberPrefix(t).Some? ==> NumberPrefix(t).value >= 3 && NumberShape(t, NumberPrefix(t).value - 2)
  {
  }

  /** The bullet pattern matches exactly `* ` and `- ` at the start. */
  lemma {:induction false} BulletPrefixMeans(t: string)
    ensures BulletPrefix(t).Some? <==> |t| >= 2 && t[..2] in {"* ", "- "}
    ensures BulletPrefix(t).Some? ==> BulletPrefix(t).value == 2
  {
    if |t| >= 2 {
      assert t[..2] == [t[0], t[1]];
    }
  }

  /** Matches depend on the beginning of the text only. */
  lemma {:induction false} NumberPrefixExtend(t: string, u: string)
    requires NumberPrefix(t).Some?
    ensures NumberPrefix(t + u) == NumberPrefix(t)
  {
    var k := NumberPrefix(t).value - 2;
    NumberPrefixMeans(t, k);
    assert NumberShape(t + u, k) by {
      assert forall i | 0 <= i < k + 2 :: (t + u)[i] == t[i];
    }
    NumberPrefixMeans(t + u, k);
  }

  lemma {:induction false} BulletPrefixExtend(t: string, u: string)
    requires BulletPrefix(t).Some?
    ensures BulletPrefix(t + u) == BulletPrefix(t)
  {
  }

  /** The list kind and prefix length autoformatting picks; the number pattern wins. */
  function Autoformat(t: string): (r: Option<(Kind, nat)>)
    ensures r.Some? <==> NumberPrefix(t).Some? || BulletPrefix(t).Some?
    ensures r.Some? ==> IsListKind(r.value.0)
  {
    if NumberPrefix(t).Some? then Some((OrderedList, NumberPrefix(t).value))
    else if BulletPrefix(t).Some? then Some((UnorderedList, 2))
    else None
  }

  /** Both patterns cannot match at once: one needs a digit first, the other `*` or `-`. */
  lemma {:induction false} AutoformatUnambiguous(t: string)
    ensures !(NumberPrefix(t).Some? && BulletPrefix(t).Some?)
  {
  }

  // ---------------------------------------------------------------------------
  // Coercing the children of a list

  /** A block child that is not a list item becomes one, keeping its children. */
  function AsItem(n: Node): Node {
    if IsBlock(n) && n.kind != ListItem then n.(kind := ListItem) else n
  }

  function Coerced(kids: seq<Node>): (r: seq<Node>)
    ensures |r| == |kids|
  {
    if kids == [] then [] else Coerced(kids[..|kids| - 1]) + [AsItem(kids[|kids| - 1])]
  }

  lemma {:induction false} CoercedAt(kids: seq<Node>, i: nat)
    requires i < |kids|
    ensures Coerced(kids)[i] == AsItem(kids[i])
    decreases |kids|
  {
    if i < |kids| - 1 {
      CoercedAt(kids[..|kids| - 1], i);
    }
  }

  /** After coercion every block child is a list item; each child keeps its
      children, and only the kind of a non-item block changes. */
  lemma {:induction false} CoercedItems(kids: seq<Node>)
    ensures forall i | 0 <= i < |kids| :: IsBlock(Coerced(kids)[i]) ==> Coerced(kids)[i].kind == ListItem
    ensures forall i | 0 <= i < |kids| ::
      Coerced(kids)[i] == kids[i] || (IsBlock(kids[i]) && Coerced(kids)[i] == kids[i].(kind := ListItem))
  {
    forall i | 0 <= i < |kids|
      ensures IsBlock(Coerced(kids)[i]) ==> Coerced(kids)[i].kind == ListItem
      ensures Coerced(kids)[i] == kids[i] || (IsBlock(kids[i]) && Coerced(kids)[i] == kids[i].(kind := ListItem))
    {
      CoercedAt(kids, i);
    }
  }

  /** Coercing twice changes nothing more. */
  lemma {:induction false} CoercedIdempotent(kids: seq<Node>)
    ensures Coerced(Coerced(kids)) == Coerced(kids)
  {
    forall i | 0 <= i < |kids|
      ensures Coerced(Coerced(kids))[i] == Coerced(kids)[i]
    {
      CoercedAt(kids, i);
      CoercedAt(Coerced(kids), i);
    }
  }

  /** Coercion of the list at `p`. */
  function CoerceItems(d: Doc, p: Path): Doc
    requires HasElement(d.children, p)
  {
    var node := NodeAt(d.children, p).value;
    d.(children := SetNode(d.children, p, node.(children := Coerced(node.children))))
  }

  /** Retyping children moves no text run. */
  lemma {:induction false} CoerceItemsKeeps(d: Doc, p: Path, q: Path)
    requires HasElement(d.children, p) && IsTextAt(d.children, q)
    ensures NodeAt(CoerceItems(d, p).children, q) == NodeAt(d.children, q)
  {
    var cs := d.children;
    var node := NodeAt(cs, p).value;
    var n' := node.(children := Coerced(node.children));
    if IsPrefix(p, q) {
      TextUnder(cs, p, q);
      var j, r := q[|p|], q[|p| + 1..];
      assert q == p + ([j] + r);
      NodeAtUnder(cs, p, [j] + r);
      SetNodeBelow(cs, p, n', [j] + r);
      assert j < |node.children|;
      NodeAtCons(node.children, j, r);
      NodeAtCons(n'.children, j, r);
      CoercedAt(node.children, j);
    } else {
      SetNodeKeeps(cs, p, n', q);
    }
  }

  lemma {:induction false} CoerceItemsValid(d: Doc, p: Path)
    requires HasElement(d.children, p) && ValidDoc(d)
    ensures ValidDoc(CoerceItems(d, p))
  {
    if d.selection.Some? {
      CoerceItemsKeeps(d, p, d.selection.value.anchor.path);
      CoerceItemsKeeps(d, p, d.selection.value.focus.path);
    }
  }

  /** The node at `p` keeps its kind, and its siblings are untouched. */
  lemma {:induction false} CoerceItemsShape(d: Doc, p: Path)
    requires HasElement(d.children, p)
    ensures var node := NodeAt(d.children, p).value;
      NodeAt(CoerceItems(d, p).children, p) == Some(node.(children := Coerced(node.children)))
    ensures Last(p) > 0 ==> NodeAt(CoerceItems(d, p).children, PrevPath(p)) == NodeAt(d.children, PrevPath(p))
  {
    var cs := d.children;
    var node := NodeAt(cs, p).value;
    var n' := node.(children := Coerced(node.children));
    SetNodeBelow(cs, p, n', []);
    assert p + [] == p;
    if Last(p) > 0 {
      NodeAtParent(cs, p);
      var kids := ChildrenAt(cs, Parent(p)).value;
      var nk := kids[..Last(p)] + [n'] + kids[Last(p) + 1..];
      assert nk[Last(p) - 1] == kids[Last(p) - 1];
      NodeAtReplacedBelow(cs, Parent(p), nk, Last(p) - 1, []);
      NodeAtBelow(cs, Parent(p), Last(p) - 1, []);
      assert PrevPath(p) == Parent(p) + [Last(p) - 1] + [];
    }
  }

  // ---------------------------------------------------------------------------
  // normalizeNode

  /** `Node.first` below a node: follows first children down to a text run. */
  function FirstLeafOf(n: Node): (r: Option<Path>)
    ensures r.Some? ==> NodeIn(n, r.value).Some? && NodeIn(n, r.value).value.Text?
  {
    match n
    case Text(_, _) => Some([])
    case Element(_, _, kids) =>
      if kids == [] then None
      else
        var inner := FirstLeafOf(kids[0]);
        if inner.Some? then NodeAtCons(kids, 0, inner.value); Some([0] + inner.value) else None
  }

  /** The text run of `Editor.start(editor, p)`. */
  function StartPath(cs: seq<Node>, p: Path): (r: Option<Path>)
    ensures r.Some? ==> IsTextAt(cs, r.value)
  {
    if !HasNode(cs, p) then None
    else
      var f := FirstLeafOf(NodeAt(cs, p).value);
      if f.Some? then NodeAtUnder(cs, p, f.value); Some(p + f.value) else None
  }

  /** `Transforms.delete` of `n` characters from `Editor.start(editor, p)`:
      the deletion stops at the end of that text run. */
  function DeleteFromStart(d: Doc, p: Path, n: nat): Doc {
    var sp := StartPath(d.children, p);
    if sp.None? then d
    else
      var t := NodeAt(d.children, sp.value).value.text;
      var len := if n < |t| then n else |t|;
      if len == 0 then d
      else
        d.(children := RemoveText(d.children, sp.value, 0, len),
           selection := if d.selection.None? then None
             else Some(Range(RemoveTextPoint(sp.value, 0, len, d.selection.value.anchor),
                             RemoveTextPoint(sp.value, 0, len, d.selection.value.focus))))
  }

  /** The merge step: a list whose previous sibling is a block list of the same
      kind is merged into it. `kind` is the kind the node had on entry. */
  function MergeWithPrevious(d: Doc, p: Path, kind: Kind): Doc
    requires HasElement(d.children, p)
  {
    if IsListKind(kind) && Last(p) > 0 then
      NodeAtParent(d.children, p);
      var prev := ChildrenAt(d.children, Parent(p)).value[Last(p) - 1];
      NodeAtBelow(d.children, Parent(p), Last(p) - 1, []);
      assert PrevPath(p) == Parent(p) + [Last(p) - 1] + [];
      if IsBlock(prev) && prev.kind == kind then
        d.(children := Merge(d.children, p), selection := MergeSel(d.children, p, d.selection))
      else d
    else d
  }

  /** `normalizeNode` on the entry at `p`. Slate's own normalization, which
      the editor's version falls back to, is not part of the model. */
  function NormalizeNode(d: Doc, p: Path): Doc
    requires HasNode(d.children, p)
  {
    var node := NodeAt(d.children, p).value;
    if !IsBlock(node) then d
    else
      var af := Autoformat(StringOf(node));
      if node.kind == Paragraph && |node.children| > 0 && af.Some? then
        DeleteFromStart(ToggleBlock(d, af.value.0), p, af.value.1)
      else
        var d1 := if IsListKind(node.kind) then CoerceItems(d, p) else d;
        CoerceItemsShape(d, p);
        MergeWithPrevious(d1, p, node.kind)
  }

  // ---------------------------------------------------------------------------
  // What normalization promises

  lemma {:induction false} DeleteFromStartValid(d: Doc, p: Path, n: nat)
    requires ValidDoc(d)
    ensures ValidDoc(DeleteFromStart(d, p, n))
  {
    var sp := StartPath(d.children, p);
    if sp.Some? && d.selection.Some? {
      var t := NodeAt(d.children, sp.value).value.text;
      var len := if n < |t| then n else |t|;
      RemoveTextPointValid(d.children, sp.value, 0, len, d.selection.value.anchor);
      RemoveTextPointValid(d.children, sp.value, 0, len, d.selection.value.focus);
    }
  }

  lemma {:induction false} MergeWithPreviousValid(d: Doc, p: Path, kind: Kind)
    requires HasElement(d.children, p) && ValidDoc(d)
    ensures ValidDoc(MergeWithPrevious(d, p, kind))
  {
    if IsListKind(kind) && Last(p) > 0 {
      NodeAtParent(d.children, p);
      NodeAtBelow(d.children, Parent(p), Last(p) - 1, []);
      assert PrevPath(p) == Parent(p) + [Last(p) - 1] + [];
      var prev := ChildrenAt(d.children, Parent(p)).value[Last(p) - 1];
      if IsBlock(prev) && prev.kind == kind {
        MergeSelValid(d.children, p, d.selection);
      }
    }
  }

  /** Normalization keeps the selection on text runs (or clears it). */
  lemma {:induction false} NormalizeNodeValid(d: Doc, p: Path)
    requires HasNode(d.children, p) && ValidDoc(d)
    ensures ValidDoc(NormalizeNode(d, p))
  {
    var node := NodeAt(d.children, p).value;
    if IsBlock(node) {
      var af := Autoformat(StringOf(node));
      if node.kind == Paragraph && |node.children| > 0 && af.Some? {
        var d1 := ToggleBlock(d, af.value.0);
        if ToggleTarget(d).Some? {
          ToggleBlockResult(d, af.value.0);
        }
        DeleteFromStartValid(d1, p, af.value.1);
      } else {
        if IsListKind(node.kind) {
          CoerceItemsValid(d, p);
          CoerceItemsShape(d, p);
          MergeWithPreviousValid(CoerceItems(d, p), p, node.kind);
        } else {
          MergeWithPreviousValid(d, p, node.kind);
        }
      }
    }
  }

  /** Autoformatting a top-level paragraph with the caret in it, when the
      matched prefix lies in its first text run: the paragraph becomes the
      only item of a new list of the matched kind, and the prefix is gone. */
  lemma {:induction false} AutoformatParagraph(d: Doc, i: nat, j: nat)
    requires CaretInTopBlock(d, i, j) && d.children[i].kind == Paragraph
    requires var b := d.children[i]; b.children[0].Text? && Autoformat(b.children[0].text).Some?
    ensures var b := d.children[i];
      var t := b.children[0].text;
      var af := Autoformat(t).value;
      NormalizeNode(d, [i]).children ==
        d.children[i := Element(af.0, None,
          [b.(kind := ListItem, children := [Text(t[af.1..], b.children[0].marks)] + b.children[1..])])]
  {
    var cs := d.children;
    var b := cs[i];
    var t := b.children[0].text;
    var af := Autoformat(t).value;
    var d1 := ToggleBlock(d, af.0);
    AutoformatOfBlock(b);
    NodeAtCons(cs, i, []);
    NormalizeAutoformat(d, [i]);
    assert d1.children == cs[i := Element(af.0, None, [b.(kind := ListItem)])] by {
      ToggleListOn(d, i, j, af.0);
    }
    if NumberPrefix(t).Some? {
      NumberPrefixAtLeast(t);
    }
    DeleteListPrefix(d1, i, af.1);
  }

  // Unfolds the autoformat branch of `NormalizeNode` for the proofs below.
  lemma {:induction false} NormalizeAutoformat(d: Doc, p: Path)
    requires HasNode(d.children, p)
    requires var b := NodeAt(d.children, p).value;
      IsBlock(b) && b.kind == Paragraph && |b.children| > 0 && Autoformat(StringOf(b)).Some?
    ensures var af := Autoformat(StringOf(NodeAt(d.children, p).value)).value;
      NormalizeNode(d, p) == DeleteFromStart(ToggleBlock(d, af.0), p, af.1)
  {
  }

  /** A paragraph whose first run starts with a list prefix is recognized by its whole string. */
  lemma {:induction false} AutoformatOfBlock(b: Node)
    requires IsBlock(b) && b.kind == Paragraph && |b.children| > 0 && b.children[0].Text?
    requires Autoformat(b.children[0].text).Some?
    ensures Autoformat(StringOf(b)) == Autoformat(b.children[0].text)
  {
    var t := b.children[0].text;
    assert b.children == [b.children[0]] + b.children[1..];
    assert StringOfAll(b.children) == t + StringOfAll(b.children[1..]);
    if NumberPrefix(t).Some? {
      NumberPrefixExtend(t, StringOfAll(b.children[1..]));
    } else {
      BulletPrefixExtend(t, StringOfAll(b.children[1..]));
    }
  }

  /** Deleting a prefix of the first run of the only item of the top-level list `i`. */
  lemma {:induction false} DeleteListPrefix(d: Doc, i: nat, len: nat)
    requires i < |d.children| && d.children[i].Element? && |d.children[i].children| == 1
    requires var li := d.children[i].children[0];
      li.Element? && |li.children| > 0 && li.children[0].Text? && 0 < len <= |li.children[0].text|
    ensures var l := d.children[i];
      var li := l.children[0];
      var t := li.children[0];
      DeleteFromStart(d, [i], len).children ==
        d.children[i := l.(children := [li.(children := [Text(t.text[len..], t.marks)] + li.children[1..])])]
  {
    var cs := d.children;
    var l := cs[i];
    var li := l.children[0];
    var t := li.children[0];
    NodeAtCons(cs, i, []);
    assert FirstLeafOf(t) == Some([]);
    assert FirstLeafOf(li) == Some([0]) by {
      assert [0] + [] == [0];
    }
    assert FirstLeafOf(l) == Some([0, 0]) by {
      assert [0] + [0] == [0, 0];
    }
    assert [i] + [0, 0] == [i, 0, 0];
    assert StartPath(cs, [i]) == Some([i, 0, 0]);
    NodeAtCons(cs, i, [0, 0]);
    NodeAtCons(l.children, 0, [0]);
    NodeAtCons(li.children, 0, []);
    assert NodeAt(cs, [i, 0, 0]) == Some(t);
    var nt := Text(t.text[..0] + t.text[len..], t.marks);
    assert t.text[..0] + t.text[len..] == t.text[len..];
    SetNodeInList(cs, i, li, nt);
  }

  /** Replacing the first run of the only item of the top-level list `i`. */
  lemma {:induction false} SetNodeInList(cs: seq<Node>, i: nat, li: Node, nt: Node)
    requires i < |cs| && cs[i].Element? && cs[i].children == [li] && li.Element? && |li.children| > 0
    ensures HasNode(cs, [i, 0, 0])
    ensures SetNode(cs, [i, 0, 0], nt) ==
      cs[i := cs[i].(children := [li.(children := [nt] + li.children[1..])])]
  {
    var p := [i, 0, 0];
    NodeAtCons(cs, i, [0, 0]);
    NodeAtCons([li], 0, [0]);
    NodeAtCons(li.children, 0, []);
    assert Parent(p) == [i, 0] && Last(p) == 0;
    var kids := li.children;
    assert ChildrenAt(cs, [i, 0]) == Some(kids) by {
      assert [i, 0][1..] == [0];
      assert [0][1..] == [];
    }
    var nk := kids[..0] + [nt] + kids[1..];
    assert nk == [nt] + kids[1..];
    assert ReplaceChildren(cs, [i, 0], nk) == cs[i := cs[i].(children := ReplaceChildren(cs[i].children, [0], nk))];
    assert ReplaceChildren([li], [0], nk) == [li.(children := ReplaceChildren(li.children, [], nk))];
  }

  lemma {:induction false} BuyMilkPrefix(t: string)
    requires t == "1. buy milk"
    ensures Autoformat(t) == Some((OrderedList, 3))
  {
    assert DigitRun(t[1..]) == 0;
  }

  /** A document holding one paragraph of one run that starts with a list
      marker becomes a list of that kind whose only item holds the run
      without its marker. */
  lemma {:induction false} AutoformatSingleRun(d: Doc, t: string, ms: set<Mark>, o: nat)
    requires d.children == [Element(Paragraph, None, [Text(t, ms)])]
    requires o <= |t| && d.selection == Some(Range(Point([0, 0], o), Point([0, 0], o)))
    requires Autoformat(t).Some?
    ensures var af := Autoformat(t).value;
      NormalizeNode(d, [0]).children == [Element(af.0, None, [Element(ListItem, None, [Text(t[af.1..], ms)])])]
  {
    var af := Autoformat(t).value;
    assert CaretInTopBlock(d, 0, 0);
    AutoformatParagraph(d, 0, 0);
    SingleRunItem(d.children[0], t, ms, af.0, af.1);
  }

  /** The one-run paragraph turned into the only item of a list. */
  lemma {:induction false} SingleRunItem(b: Node, t: string, ms: set<Mark>, k: Kind, n: nat)
    requires b == Element(Paragraph, None, [Text(t, ms)]) && n <= |t|
    ensures var t0 := b.children[0];
      [b][0 := Element(k, None, [b.(kind := ListItem, children := [Text(t0.text[n..], t0.marks)] + b.children[1..])])] ==
        [Element(k, None, [Element(ListItem, None, [Text(t[n..], ms)])])]
  {
    var t0 := b.children[0];
    assert t0.text == t && t0.marks == ms && b.children[1..] == [];
    var run := [Text(t[n..], ms)];
    assert run + b.children[1..] == run;
    var x := Element(k, None, [Element(ListItem, None, run)]);
    assert [b][0 := x] == [x];
  }

  /** "1. buy milk" with the caret at its end becomes an ordered list whose
      only item reads "buy milk". */
  lemma {:induction false} BuyMilkExample(d: Doc)
    requires d.children == [Element(Paragraph, None, [Text("1. buy milk", {})])]
    requires d.selection == Some(Range(Point([0, 0], 11), Point([0, 0], 11)))
    ensures NormalizeNode(d, [0]).children == [Element(OrderedList, None, [Element(ListItem, None, [Text("buy milk", {})])])]
  {
    var t := "1. buy milk";
    BuyMilkPrefix(t);
    AutoformatSingleRun(d, t, {}, 11);
    assert t[3..] == "buy milk";
  }

  /** A list right after a non-empty list of the same kind is merged into it:
      the children are concatenated (after coercion) and the parent has one
      child fewer. */
  lemma {:induction false} MergeAdjacentLists(d: Doc, i: nat)
    requires 0 < i < |d.children|
    requires var a, b := d.children[i - 1], d.children[i];
      a.Element? && b.Element? && IsListKind(b.kind) && a.kind == b.kind && !IsEmpty(a)
    ensures var a, b := d.children[i - 1], d.children[i];
      var r := NormalizeNode(d, [i]).children;
      r == d.children[..i - 1] + [a.(children := a.children + Coerced(b.children))] + d.children[i + 1..] &&
      |r| == |d.children| - 1
  {
    var cs := d.children;
    var a, b := cs[i - 1], cs[i];
    NodeAtCons(cs, i, []);
    var d1 := CoerceItems(d, [i]);
    SetNodeTop(cs, i, b.(children := Coerced(b.children)));
    var cs1 := cs[i := b.(children := Coerced(b.children))];
    assert d1.children == cs1;
    assert Parent([i]) == [] && Last([i]) == i && PrevPath([i]) == [i - 1];
    NodeAtCons(cs1, i - 1, []);
    NodeAtCons(cs1, i, []);
    assert CanMerge(cs1, [i]);
    MergeSetup(cs1, [i]);
    ReplaceAtRoot(cs1, i - 1, 2, [a.(children := a.children + Coerced(b.children))]);
    assert cs1[..i - 1] == cs[..i - 1] && cs1[i + 1..] == cs[i + 1..];
  }

  /** Items that are already list items are left as they are. */
  lemma {:induction false} CoercedPair(c: Node, e: Node)
    requires c.Element? && c.kind == ListItem && e.Element? && e.kind == ListItem
    ensures Coerced([c, e]) == [c, e]
  {
    CoercedAt([c, e], 0);
    CoercedAt([c, e], 1);
  }

  /** `[A, B]` followed by `[C, D]` of the same list kind becomes `[A, B, C, D]`. */
  lemma {:induction false} MergeTwoListsExample(x: Node, a: Node, b: Node, c: Node, e: Node, k: Kind)
    requires IsListKind(k)
    requires forall n | n in [a, b, c, e] :: n.Element? && n.kind == ListItem && n.mention == None
    ensures var d := Doc([x, Element(k, None, [a, b]), Element(k, None, [c, e])], None, None);
      NormalizeNode(d, [2]).children == [x, Element(k, None, [a, b, c, e])]
  {
    var l1, l2 := Element(k, None, [a, b]), Element(k, None, [c, e]);
    assert a in [a, b, c, e] && c in [a, b, c, e] && e in [a, b, c, e];
    assert !IsEmpty(l1);
    MergeListsAt(Doc([x, l1, l2], None, None), x, l1, l2);
    CoercedPair(c, e);
    assert l1.children + Coerced(l2.children) == [a, b, c, e];
  }

  /** The merge of the third top-level block into the second. */
  lemma {:induction false} MergeListsAt(d: Doc, x: Node, l1: Node, l2: Node)
    requires d.children == [x, l1, l2]
    requires l1.Element? && l2.Element? && IsListKind(l2.kind) && l1.kind == l2.kind && !IsEmpty(l1)
    ensures NormalizeNode(d, [2]).children == [x, l1.(children := l1.children + Coerced(l2.children))]
  {
    MergeAdjacentLists(d, 2);
    assert d.children[..1] == [x] && d.children[3..] == [];
  }
}
