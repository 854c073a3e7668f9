/** The editor's document model: the element and text node types of the note
    editor, how the editor classifies them (block, inline, void), and the
    path addressing every editing operation is expressed in. */
module Document {

  datatype Option<T> = None | Some(value: T)

  /** The `type` of a CustomElement. */
  datatype Kind = Paragraph | Code | UnorderedList | OrderedList | ListItem | Mention

  datatype MentionType = User | Machine

  /** The optional boolean properties of a text run (`Format`). */
  datatype Mark = Bold | Italic | Underline | Placeholder

  /** What a mention element points at: `mentionType` and `id`. */
  datatype MentionRef = MentionRef(mentionType: MentionType, id: int)

  /** A node is an element with children or a text run (leaf). */
  datatype Node =
    | Element(kind: Kind, mention: Option<MentionRef>, children: seq<Node>)
    | Text(text: string, marks: set<Mark>)

  /** Child indices from the document root. */
  type Path = seq<nat>

  datatype Point = Point(path: Path, offset: nat)

  datatype Range = Range(anchor: Point, focus: Point)

  predicate IsCollapsed(r: Range) {
    r.anchor == r.focus
  }

  /** `format.endsWith("-list")` */
  predicate IsListKind(k: Kind) {
    k == OrderedList || k == UnorderedList
  }

  /** `withMentions`: mentions are inline and void; every other element is a block. */
  predicate IsInline(n: Node) {
    n.Element? && n.kind == Mention
  }

  predicate IsVoid(n: Node) {
    n.Element? && n.kind == Mention
  }

  predicate IsBlock(n: Node) {
    n.Element? && !IsInline(n)
  }

  /** `Editor.string` of a node: its text, skipping the contents of void elements. */
  function StringOf(n: Node): string {
    match n
    case Text(t, _) => t
    case Element(k, _, kids) => if k == Mention then "" else StringOfAll(kids)
  }

  function StringOfAll(cs: seq<Node>): string {
    if cs == [] then "" else StringOf(cs[0]) + StringOfAll(cs[1..])
  }

  /** `Editor.isEmpty`: no children, or one empty text run in a non-void element. */
  predicate IsEmpty(n: Node)
    requires n.Element?
  {
    |n.children| == 0 ||
    (|n.children| == 1 && n.children[0].Text? && n.children[0].text == "" && !IsVoid(n))
  }

  // ---------------------------------------------------------------------------
  // Paths

  predicate IsPrefix(a: Path, b: Path) {
    |a| <= |b| && b[..|a|] == a
  }

  function Parent(p: Path): Path
    requires |p| > 0
  {
    p[..|p| - 1]
  }

  function Last(p: Path): nat
    requires |p| > 0
  {
    p[|p| - 1]
  }

  lemma {:induction false} ParentLast(p: Path, r: Path)
    requires |p| > 0
    ensures p == Parent(p) + [Last(p)]
    ensures p + r == Parent(p) + [Last(p)] + r
  {
  }

  /** Length of the longest common prefix (`Path.common`). */
  function CommonLen(a: Path, b: Path): (n: nat)
    ensures n <= |a| && n <= |b| && a[..n] == b[..n]
    ensures n < |a| && n < |b| ==> a[n] != b[n]
  {
    if |a| == 0 || |b| == 0 || a[0] != b[0] then 0
    else
      var m := CommonLen(a[1..], b[1..]);
      assert a[..m + 1] == [a[0]] + a[1..][..m];
      assert b[..m + 1] == [b[0]] + b[1..][..m];
      m + 1
  }

  /** The node at a non-empty path below the children `cs`. */
  function NodeAt(cs: seq<Node>, p: Path): Option<Node>
    decreases |p|
  {
    if |p| == 0 || p[0] >= |cs| then None
    else if |p| == 1 then Some(cs[p[0]])
    else match cs[p[0]]
      case Text(_, _) => None
      case Element(_, _, kids) => NodeAt(kids, p[1..])
  }

  /** The node at a path relative to `n` (the empty path is `n` itself). */
  function NodeIn(n: Node, r: Path): Option<Node> {
    if r == [] then Some(n)
    else match n
      case Text(_, _) => None
      case Element(_, _, kids) => NodeAt(kids, r)
  }

  /** The children of the node at `p`; the empty path names the root. */
  function ChildrenAt(cs: seq<Node>, p: Path): Option<seq<Node>>
    decreases |p|
  {
    if |p| == 0 then Some(cs)
    else if p[0] >= |cs| then None
    else match cs[p[0]]
      case Text(_, _) => None
      case Element(_, _, kids) => ChildrenAt(kids, p[1..])
  }

  /** The document with the children of the node at `p` replaced by `nk`. */
  function ReplaceChildren(cs: seq<Node>, p: Path, nk: seq<Node>): seq<Node>
    requires ChildrenAt(cs, p).Some?
    decreases |p|
  {
    if |p| == 0 then nk
    else cs[p[0] := cs[p[0]].(children := ReplaceChildren(cs[p[0]].children, p[1..], nk))]
  }

  /** Replace `del` children of the node at `p`, from index `i`, by `ins`. */
  function Splice(cs: seq<Node>, p: Path, i: nat, del: nat, ins: seq<Node>): seq<Node>
    requires ChildrenAt(cs, p).Some? && i + del <= |ChildrenAt(cs, p).value|
  {
    var kids := ChildrenAt(cs, p).value;
    ReplaceChildren(cs, p, kids[..i] + ins + kids[i + del..])
  }

  predicate IsTextAt(cs: seq<Node>, p: Path) {
    NodeAt(cs, p).Some? && NodeAt(cs, p).value.Text?
  }

  predicate ValidPoint(cs: seq<Node>, pt: Point) {
    IsTextAt(cs, pt.path) && pt.offset <= |NodeAt(cs, pt.path).value.text|
  }

  predicate ValidSelection(cs: seq<Node>, sel: Option<Range>) {
    sel.Some? ==> ValidPoint(cs, sel.value.anchor) && ValidPoint(cs, sel.value.focus)
  }

  // ---------------------------------------------------------------------------
  // Facts about paths

  lemma {:induction false} NodeAtCons(cs: seq<Node>, j: nat, r: Path)
    requires j < |cs|
    ensures NodeAt(cs, [j] + r) == NodeIn(cs[j], r)
  {
    assert ([j] + r)[1..] == r;
  }

  lemma {:induction false} ChildrenAtIsElement(cs: seq<Node>, p: Path)
    requires |p| > 0
    ensures ChildrenAt(cs, p).Some? <==> (NodeAt(cs, p).Some? && NodeAt(cs, p).value.Element?)
    ensures ChildrenAt(cs, p).Some? ==> ChildrenAt(cs, p).value == NodeAt(cs, p).value.children
    decreases |p|
  {
    if p[0] < |cs| && |p| > 1 && cs[p[0]].Element? {
      ChildrenAtIsElement(cs[p[0]].children, p[1..]);
    }
  }

  lemma {:induction false} NodeAtAppend(cs: seq<Node>, p: Path, q: Path)
    requires ChildrenAt(cs, p).Some? && |q| > 0
    ensures NodeAt(cs, p + q) == NodeAt(ChildrenAt(cs, p).value, q)
    decreases |p|
  {
    if |p| > 0 {
      assert (p + q)[0] == p[0];
      assert (p + q)[1..] == p[1..] + q;
      NodeAtAppend(cs[p[0]].children, p[1..], q);
    } else {
      assert p + q == q;
    }
  }

  lemma {:induction false} ChildrenAtAppend(cs: seq<Node>, p: Path, q: Path)
    requires ChildrenAt(cs, p).Some?
    ensures ChildrenAt(cs, p + q) == ChildrenAt(ChildrenAt(cs, p).value, q)
    decreases |p|
  {
    if |p| > 0 {
      assert (p + q)[0] == p[0];
      assert (p + q)[1..] == p[1..] + q;
      ChildrenAtAppend(cs[p[0]].children, p[1..], q);
    } else {
      assert p + q == q;
    }
  }

  /** Every prefix of a container path is a container path. */
  lemma {:induction false} ChildrenAtPrefix(cs: seq<Node>, p: Path, k: nat)
    requires ChildrenAt(cs, p).Some? && k <= |p|
    ensures ChildrenAt(cs, p[..k]).Some?
    decreases |p|
  {
    if k > 0 {
      assert p[..k][0] == p[0] && p[..k][1..] == p[1..][..k - 1];
      ChildrenAtPrefix(cs[p[0]].children, p[1..], k - 1);
    }
  }

  lemma {:induction false} ChildrenAtReplaced(cs: seq<Node>, p: Path, nk: seq<Node>)
    requires ChildrenAt(cs, p).Some?
    ensures ChildrenAt(ReplaceChildren(cs, p, nk), p) == Some(nk)
    decreases |p|
  {
    if |p| > 0 {
      ChildrenAtReplaced(cs[p[0]].children, p[1..], nk);
    }
  }

  /** Putting back the children that are already there changes nothing. */
  lemma {:induction false} ReplaceChildrenSame(cs: seq<Node>, p: Path)
    requires ChildrenAt(cs, p).Some?
    ensures ReplaceChildren(cs, p, ChildrenAt(cs, p).value) == cs
    decreases |p|
  {
    if |p| > 0 {
      ReplaceChildrenSame(cs[p[0]].children, p[1..]);
      assert cs[p[0]].(children := cs[p[0]].children) == cs[p[0]];
    }
  }

  /** A second replacement at the same place overrides the first. */
  lemma {:induction false} ReplaceChildrenTwice(cs: seq<Node>, p: Path, nk1: seq<Node>, nk2: seq<Node>)
    requires ChildrenAt(cs, p).Some?
    ensures ChildrenAt(ReplaceChildren(cs, p, nk1), p).Some?
    ensures ReplaceChildren(ReplaceChildren(cs, p, nk1), p, nk2) == ReplaceChildren(cs, p, nk2)
    decreases |p|
  {
    ChildrenAtReplaced(cs, p, nk1);
    if |p| > 0 {
      ReplaceChildrenTwice(cs[p[0]].children, p[1..], nk1, nk2);
    }
  }

  /** Replacing the children of the `j`-th child of the node at `p` replaces
      that child among the children at `p`. */
  lemma {:induction false} ReplaceChildrenDeeper(cs: seq<Node>, p: Path, j: nat, nk: seq<Node>)
    requires ChildrenAt(cs, p).Some? && j < |ChildrenAt(cs, p).value|
    requires ChildrenAt(cs, p).value[j].Element?
    ensures ChildrenAt(cs, p + [j]).Some?
    ensures var kids := ChildrenAt(cs, p).value;
      ReplaceChildren(cs, p + [j], nk) == ReplaceChildren(cs, p, kids[j := kids[j].(children := nk)])
    decreases |p|
  {
    if |p| > 0 {
      assert (p + [j])[0] == p[0] && (p + [j])[1..] == p[1..] + [j];
      ReplaceChildrenDeeper(cs[p[0]].children, p[1..], j, nk);
    } else {
      assert p + [j] == [j];
      assert [j][1..] == [];
    }
  }

  /** Replacing the children at `p` leaves every node off the path to `p` in place. */
  lemma {:induction false} NodeAtReplacedAway(cs: seq<Node>, p: Path, nk: seq<Node>, q: Path)
    requires ChildrenAt(cs, p).Some?
    requires !IsPrefix(p, q) && !IsPrefix(q, p)
    ensures NodeAt(ReplaceChildren(cs, p, nk), q) == NodeAt(cs, q)
    decreases |p|
  {
    var cs' := ReplaceChildren(cs, p, nk);
    assert |p| > 0 && |q| > 0;
    if q[0] != p[0] {
    } else {
      PrefixCons(p, q);
      PrefixCons(q, p);
      NodeAtReplacedAway(cs[p[0]].children, p[1..], nk, q[1..]);
    }
  }

  lemma {:induction false} PrefixCons(a: Path, b: Path)
    requires |a| > 0 && |b| > 0 && a[0] == b[0]
    ensures IsPrefix(a, b) <==> IsPrefix(a[1..], b[1..])
  {
    if IsPrefix(a[1..], b[1..]) {
      assert b[..|a|] == [b[0]] + b[1..][..|a| - 1];
      assert a == [a[0]] + a[1..];
    }
  }

  /** A text node never lies on the path to a container. */
  lemma {:induction false} TextNotAbove(cs: seq<Node>, p: Path, q: Path)
    requires ChildrenAt(cs, p).Some? && IsTextAt(cs, q)
    ensures !IsPrefix(q, p)
  {
    if IsPrefix(q, p) {
      ChildrenAtPrefix(cs, p, |q|);
      assert p[..|q|] == q;
      ChildrenAtIsElement(cs, q);
    }
  }

  /** A node's parent holds it at the last index of its path. */
  lemma {:induction false} NodeAtParent(cs: seq<Node>, p: Path)
    requires NodeAt(cs, p).Some?
    ensures ChildrenAt(cs, Parent(p)).Some?
    ensures Last(p) < |ChildrenAt(cs, Parent(p)).value|
    ensures ChildrenAt(cs, Parent(p)).value[Last(p)] == NodeAt(cs, p).value
    decreases |p|
  {
    if |p| > 1 {
      assert Parent(p)[0] == p[0] && Parent(p)[1..] == Parent(p[1..]);
      NodeAtParent(cs[p[0]].children, p[1..]);
    }
  }

  /** Where a text node lands after the children at `p` are replaced:
      below `p` it is found through the new children. */
  lemma {:induction false} NodeAtReplacedBelow(cs: seq<Node>, p: Path, nk: seq<Node>, j: nat, r: Path)
    requires ChildrenAt(cs, p).Some? && j < |nk|
    ensures NodeAt(ReplaceChildren(cs, p, nk), p + [j] + r) == NodeIn(nk[j], r)
  {
    ChildrenAtReplaced(cs, p, nk);
    assert p + [j] + r == p + ([j] + r);
    NodeAtAppend(ReplaceChildren(cs, p, nk), p, [j] + r);
    NodeAtCons(nk, j, r);
  }

  lemma {:induction false} NodeAtBelow(cs: seq<Node>, p: Path, j: nat, r: Path)
    requires ChildrenAt(cs, p).Some? && j < |ChildrenAt(cs, p).value|
    ensures NodeAt(cs, p + [j] + r) == NodeIn(ChildrenAt(cs, p).value[j], r)
  {
    assert p + [j] + r == p + ([j] + r);
    NodeAtAppend(cs, p, [j] + r);
    NodeAtCons(ChildrenAt(cs, p).value, j, r);
  }

  /** A text path that does not pass through `p` splits as `p + [j] + r` when `p`
      is a prefix of it. */
  lemma {:induction false} ConsPath(p: Path, j: nat, r: Path)
    ensures p + [j] + r == p + ([j] + r)
  {
  }

  lemma {:induction false} SplitBelow(p: Path, q: Path)
    requires IsPrefix(p, q) && |q| > |p|
    ensures q == p + [q[|p|]] + q[|p| + 1..]
    ensures q == p + ([q[|p|]] + q[|p| + 1..])
  {
  }

  // ---------------------------------------------------------------------------
  // Text search in document order. With `voids` false the search does not
  // enter void elements, as Slate's `Editor.nodes`, `Editor.previous` and
  // `Editor.next` do by default; `Node.texts` enters them.

  /** The last text node among `cs[..n]`, in document order. */
  function LastTextIn(cs: seq<Node>, n: nat, voids: bool): Option<Path>
    requires n <= |cs|
    decreases cs, n
  {
    if n == 0 then None
    else match cs[n - 1]
      case Text(_, _) => Some([n - 1])
      case Element(_, _, kids) =>
        var inner := if voids || !IsVoid(cs[n - 1]) then LastTextIn(kids, |kids|, voids) else None;
        if inner.Some? then Some([n - 1] + inner.value) else LastTextIn(cs, n - 1, voids)
  }

  /** The first text node among `cs[n..]`, in document order. */
  function FirstTextFrom(cs: seq<Node>, n: nat, voids: bool): Option<Path>
    requires n <= |cs|
    decreases cs, |cs| - n
  {
    if n == |cs| then None
    else match cs[n]
      case Text(_, _) => Some([n])
      case Element(_, _, kids) =>
        var inner := if voids || !IsVoid(cs[n]) then FirstTextFrom(kids, 0, voids) else None;
        if inner.Some? then Some([n] + inner.value) else FirstTextFrom(cs, n + 1, voids)
  }

  /** The last text node that ends before `r` (`Path.compare(q, r) == -1`). */
  function TextBefore(cs: seq<Node>, r: Path, voids: bool): Option<Path>
    decreases |r|
  {
    if r == [] then None
    else
      var inner :=
        if r[0] < |cs| && cs[r[0]].Element? && (voids || !IsVoid(cs[r[0]]))
        then TextBefore(cs[r[0]].children, r[1..], voids) else None;
      if inner.Some? then Some([r[0]] + inner.value)
      else LastTextIn(cs, if r[0] <= |cs| then r[0] else |cs|, voids)
  }

  /** The first text node at or after `r` (`Path.compare(q, r) >= 0`). */
  function TextAtOrAfter(cs: seq<Node>, r: Path, voids: bool): Option<Path>
    decreases |r|
  {
    if r == [] then FirstTextFrom(cs, 0, voids)
    else if r[0] >= |cs| then None
    else
      var inner := match cs[r[0]]
        case Text(_, _) => Some([])
        case Element(_, _, kids) => if voids || !IsVoid(cs[r[0]]) then TextAtOrAfter(kids, r[1..], voids) else None;
      if inner.Some? then Some([r[0]] + inner.value) else FirstTextFrom(cs, r[0] + 1, voids)
  }

  /** Some proper ancestor of the node at `p` is a void element. */
  predicate InVoid(cs: seq<Node>, p: Path)
    decreases |p|
  {
    |p| > 1 && p[0] < |cs| && cs[p[0]].Element? &&
    (IsVoid(cs[p[0]]) || InVoid(cs[p[0]].children, p[1..]))
  }

  lemma {:induction false} LastTextInIsText(cs: seq<Node>, n: nat, voids: bool)
    requires n <= |cs|
    ensures LastTextIn(cs, n, voids).Some? ==> IsTextAt(cs, LastTextIn(cs, n, voids).value)
    decreases cs, n
  {
    if n > 0 && cs[n - 1].Element? {
      var kids := cs[n - 1].children;
      LastTextInIsText(kids, |kids|, voids);
      LastTextInIsText(cs, n - 1, voids);
      var inner := LastTextIn(kids, |kids|, voids);
      if inner.Some? {
        NodeAtCons(cs, n - 1, inner.value);
      }
    }
  }

  lemma {:induction false} FirstTextFromIsText(cs: seq<Node>, n: nat, voids: bool)
    requires n <= |cs|
    ensures FirstTextFrom(cs, n, voids).Some? ==> IsTextAt(cs, FirstTextFrom(cs, n, voids).value)
    decreases cs, |cs| - n
  {
    if n < |cs| && cs[n].Element? {
      var kids := cs[n].children;
      FirstTextFromIsText(kids, 0, voids);
      FirstTextFromIsText(cs, n + 1, voids);
      var inner := FirstTextFrom(kids, 0, voids);
      if inner.Some? {
        NodeAtCons(cs, n, inner.value);
      }
    }
  }

  lemma {:induction false} TextBeforeIsText(cs: seq<Node>, r: Path, voids: bool)
    ensures TextBefore(cs, r, voids).Some? ==> IsTextAt(cs, TextBefore(cs, r, voids).value)
    decreases |r|
  {
    if r != [] {
      LastTextInIsText(cs, if r[0] <= |cs| then r[0] else |cs|, voids);
      if r[0] < |cs| && cs[r[0]].Element? {
        TextBeforeIsText(cs[r[0]].children, r[1..], voids);
        var inner := TextBefore(cs[r[0]].children, r[1..], voids);
        if inner.Some? {
          NodeAtCons(cs, r[0], inner.value);
        }
      }
    }
  }

  lemma {:induction false} TextAtOrAfterIsText(cs: seq<Node>, r: Path, voids: bool)
    ensures TextAtOrAfter(cs, r, voids).Some? ==> IsTextAt(cs, TextAtOrAfter(cs, r, voids).value)
    decreases |r|
  {
    if r == [] {
      FirstTextFromIsText(cs, 0, voids);
    } else if r[0] < |cs| {
      FirstTextFromIsText(cs, r[0] + 1, voids);
      match cs[r[0]]
      case Text(_, _) =>
        assert [r[0]] + [] == [r[0]];
      case Element(_, _, kids) =>
        TextAtOrAfterIsText(kids, r[1..], voids);
        var inner := TextAtOrAfter(kids, r[1..], voids);
        if inner.Some? {
          NodeAtCons(cs, r[0], inner.value);
        }
    }
  }

  /** A text node is its own first text at or after itself, unless the search
      skips voids and the node lies inside one. */
  lemma {:induction false} TextAtOrAfterSelf(cs: seq<Node>, p: Path, voids: bool)
    requires IsTextAt(cs, p) && (voids || !InVoid(cs, p))
    ensures TextAtOrAfter(cs, p, voids) == Some(p)
    decreases |p|
  {
    if |p| == 1 {
      assert [p[0]] + [] == p;
    } else {
      assert [p[0]] + p[1..] == p;
      TextAtOrAfterSelf(cs[p[0]].children, p[1..], voids);
    }
  }

  /** Whether a child of the node at `p` lies inside a void depends only on the
      nodes on the path to `p`, which replacing `p`'s children does not touch. */
  lemma {:induction false} ReplaceInVoid(cs: seq<Node>, p: Path, nk: seq<Node>, x: nat, y: nat)
    requires ChildrenAt(cs, p).Some?
    ensures InVoid(ReplaceChildren(cs, p, nk), p + [x]) == InVoid(cs, p + [y])
    decreases |p|
  {
    if |p| > 0 {
      assert (p + [x])[1..] == p[1..] + [x];
      assert (p + [y])[1..] == p[1..] + [y];
      ReplaceInVoid(cs[p[0]].children, p[1..], nk, x, y);
    }
  }

  /** Where Slate moves a selection point whose text node was removed by
      `remove_node` at `p`; `cs` is the document after the removal. The
      previous text wins unless the next one is closer in the tree. */
  function Relocate(cs: seq<Node>, p: Path): Option<Point>
    requires |p| > 0
  {
    var prev := TextBefore(cs, p, true);
    var next := TextAtOrAfter(cs, p, true);
    var preferNext :=
      prev.Some? && next.Some? &&
      (if next.value == p then Last(p) == 0
       else CommonLen(prev.value, p) < CommonLen(next.value, p));
    if prev.Some? && !preferNext && IsTextAt(cs, prev.value) then
      Some(Point(prev.value, |NodeAt(cs, prev.value).value.text|))
    else if next.Some? then Some(Point(next.value, 0))
    else None
  }

  lemma {:induction false} RelocateIsValid(cs: seq<Node>, p: Path)
    requires |p| > 0
    ensures Relocate(cs, p).Some? ==> ValidPoint(cs, Relocate(cs, p).value)
  {
    TextBeforeIsText(cs, p, true);
    TextAtOrAfterIsText(cs, p, true);
  }
}
