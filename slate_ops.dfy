/** The library tree operations the editor drives (`Transforms.setNodes`,
    `wrapNodes`, `unwrapNodes` with `split`, `removeNodes`, `mergeNodes`,
    `insertNodes`, `delete`), each written as a splice of one children list,
    together with the map the library applies to selection points. The
    lemmas say that every text run a point sits in is found again, unchanged,
    at the mapped path. */
module SlateOps {
  import opened Document

  predicate HasNode(cs: seq<Node>, p: Path) {
    |p| > 0 && NodeAt(cs, p).Some?
  }

  predicate HasElement(cs: seq<Node>, p: Path) {
    HasNode(cs, p) && NodeAt(cs, p).value.Element?
  }

  /** Children of the node at `pp` from index `i + del` on move by the size change. */
  function ShiftPath(q: Path, pp: Path, i: nat, del: nat, insLen: nat): Path {
    if IsPrefix(pp, q) && |q| > |pp| && q[|pp|] >= i + del then q[|pp| := q[|pp|] - del + insLen] else q
  }

  predicate InSplice(q: Path, pp: Path, i: nat, del: nat) {
    IsPrefix(pp, q) && |q| > |pp| && i <= q[|pp|] < i + del
  }

  lemma {:induction false} SpliceKeeps(cs: seq<Node>, pp: Path, i: nat, del: nat, ins: seq<Node>, q: Path)
    requires ChildrenAt(cs, pp).Some? && i + del <= |ChildrenAt(cs, pp).value|
    requires IsTextAt(cs, q) && !InSplice(q, pp, i, del)
    ensures NodeAt(Splice(cs, pp, i, del, ins), ShiftPath(q, pp, i, del, |ins|)) == NodeAt(cs, q)
  {
    var kids := ChildrenAt(cs, pp).value;
    var nk := kids[..i] + ins + kids[i + del..];
    TextNotAbove(cs, pp, q);
    if !IsPrefix(pp, q) {
      NodeAtReplacedAway(cs, pp, nk, q);
    } else {
      var j, r := q[|pp|], q[|pp| + 1..];
      SplitBelow(pp, q);
      NodeAtAppend(cs, pp, [j] + r);
      assert pp + [j] + r == pp + ([j] + r);
      assert j < |kids|;
      NodeAtBelow(cs, pp, j, r);
      var j' := if j < i then j else j - del + |ins|;
      assert nk[j'] == kids[j];
      NodeAtReplacedBelow(cs, pp, nk, j', r);
      assert ShiftPath(q, pp, i, del, |ins|) == pp + [j'] + r;
    }
  }

  /** The node at `p + r` is the node at `r` inside the node at `p`. */
  lemma {:induction false} NodeAtUnder(cs: seq<Node>, p: Path, r: Path)
    requires HasNode(cs, p)
    ensures NodeAt(cs, p + r) == NodeIn(NodeAt(cs, p).value, r)
  {
    NodeAtParent(cs, p);
    ParentLast(p, r);
    NodeAtBelow(cs, Parent(p), Last(p), r);
  }


  /** A child-range splice of one node at `p` touches exactly the paths below `p`. */
  lemma {:induction false} InSpliceAt(q: Path, pp: Path, i: nat)
    ensures InSplice(q, pp, i, 1) ==> IsPrefix(pp + [i], q)
  {
    if InSplice(q, pp, i, 1) {
      assert q[..|pp| + 1] == q[..|pp|] + [q[|pp|]];
    }
  }

  /** A text run under an element lies strictly below it. */
  lemma {:induction false} TextUnder(cs: seq<Node>, p: Path, q: Path)
    requires HasElement(cs, p) && IsTextAt(cs, q)
    ensures IsPrefix(p, q) ==> |q| > |p|
  {
    if IsPrefix(p, q) {
      assert q[..|p|] != q;
    }
  }

  /** Nothing lies below a text run. */
  lemma {:induction false} TextLeaf(cs: seq<Node>, p: Path, q: Path)
    requires IsTextAt(cs, p) && NodeAt(cs, q).Some?
    ensures IsPrefix(p, q) ==> q == p
  {
    if IsPrefix(p, q) && |q| > |p| {
      var r := q[|p|..];
      assert q == p + r;
      NodeAtUnder(cs, p, r);
    }
  }

  // ---------------------------------------------------------------------------
  // Replacing one node

  function SetNode(cs: seq<Node>, p: Path, n: Node): seq<Node>
    requires HasNode(cs, p)
  {
    NodeAtParent(cs, p);
    Splice(cs, Parent(p), Last(p), 1, [n])
  }

  lemma {:induction false} SetNodeBelow(cs: seq<Node>, p: Path, n: Node, r: Path)
    requires HasNode(cs, p)
    ensures NodeAt(SetNode(cs, p, n), p + r) == NodeIn(n, r)
  {
    NodeAtParent(cs, p);
    var pp, i := Parent(p), Last(p);
    var kids := ChildrenAt(cs, pp).value;
    var nk := kids[..i] + [n] + kids[i + 1..];
    assert SetNode(cs, p, n) == ReplaceChildren(cs, pp, nk);
    assert nk[i] == n;
    ParentLast(p, r);
    NodeAtReplacedBelow(cs, pp, nk, i, r);
  }

  lemma {:induction false} SetNodeKeeps(cs: seq<Node>, p: Path, n: Node, q: Path)
    requires HasNode(cs, p) && IsTextAt(cs, q) && !IsPrefix(p, q)
    ensures NodeAt(SetNode(cs, p, n), q) == NodeAt(cs, q)
  {
    var pp, i := Parent(p), Last(p);
    NodeAtParent(cs, p);
    ParentLast(p, []);
    InSpliceAt(q, pp, i);
    assert !InSplice(q, pp, i, 1);
    SpliceKeeps(cs, pp, i, 1, [n], q);
    if IsPrefix(pp, q) && |q| > |pp| && q[|pp|] >= i + 1 {
      assert q[|pp| := q[|pp|]] == q;
    }
  }

  /** Writing a node back where it already is changes nothing. */
  lemma {:induction false} SetNodeSame(cs: seq<Node>, p: Path)
    requires HasNode(cs, p)
    ensures SetNode(cs, p, NodeAt(cs, p).value) == cs
  {
    NodeAtParent(cs, p);
    SetNodeSplice(cs, p, NodeAt(cs, p).value);
    ReplaceChildrenSame(cs, Parent(p));
    var kids := ChildrenAt(cs, Parent(p)).value;
    assert kids[Last(p) := NodeAt(cs, p).value] == kids;
  }

  lemma {:induction false} SetNodeSplice(cs: seq<Node>, p: Path, n: Node)
    requires HasNode(cs, p)
    ensures ChildrenAt(cs, Parent(p)).Some? && Last(p) < |ChildrenAt(cs, Parent(p)).value|
    ensures var kids := ChildrenAt(cs, Parent(p)).value;
      SetNode(cs, p, n) == ReplaceChildren(cs, Parent(p), kids[Last(p) := n])
  {
    NodeAtParent(cs, p);
    var kids := ChildrenAt(cs, Parent(p)).value;
    assert kids[..Last(p)] + [n] + kids[Last(p) + 1..] == kids[Last(p) := n];
  }

  /** Retyping the `i`-th child of an element just set at `p` is setting `p`
      to the element with that child retyped. */
  lemma {:induction false} SetKindInside(cs: seq<Node>, p: Path, n: Node, i: nat, k: Kind)
    requires HasNode(cs, p) && n.Element? && i < |n.children| && n.children[i].Element?
    ensures HasElement(SetNode(cs, p, n), p + [i])
    ensures SetKind(SetNode(cs, p, n), p + [i], k) ==
      SetNode(cs, p, n.(children := n.children[i := n.children[i].(kind := k)]))
  {
    var cs1 := SetNode(cs, p, n);
    var m := n.children[i].(kind := k);
    var n' := n.(children := n.children[i := m]);
    SetNodeSplice(cs, p, n);
    SetNodeSplice(cs, p, n');
    var pp, j := Parent(p), Last(p);
    var kids := ChildrenAt(cs, pp).value;
    SetNodeBelow(cs, p, n, [i]);
    SetNodeBelow(cs, p, n, []);
    assert p + [] == p;
    NodeAtParent(cs1, p + [i]);
    assert Parent(p + [i]) == p && Last(p + [i]) == i;
    ChildrenAtIsElement(cs1, p);
    assert ChildrenAt(cs1, p) == Some(n.children);
    SetNodeSplice(cs1, p + [i], m);
    ChildrenAtReplaced(cs, pp, kids[j := n]);
    assert p == pp + [j];
    ReplaceChildrenDeeper(cs1, pp, j, n.children[i := m]);
    assert kids[j := n][j := n'] == kids[j := n'];
    ReplaceChildrenTwice(cs, pp, kids[j := n], kids[j := n']);
  }

  /** `Transforms.setNodes(editor, { type })` on the element at `p`. */
  function SetKind(cs: seq<Node>, p: Path, k: Kind): seq<Node>
    requires HasElement(cs, p)
  {
    SetNode(cs, p, NodeAt(cs, p).value.(kind := k))
  }

  lemma {:induction false} SetKindResult(cs: seq<Node>, p: Path, k: Kind)
    requires HasElement(cs, p)
    ensures NodeAt(SetKind(cs, p, k), p) == Some(NodeAt(cs, p).value.(kind := k))
  {
    SetNodeBelow(cs, p, NodeAt(cs, p).value.(kind := k), []);
    assert p + [] == p;
  }

  /** Changing an element's kind moves no text run. */
  lemma {:induction false} SetKindKeeps(cs: seq<Node>, p: Path, k: Kind, q: Path)
    requires HasElement(cs, p) && IsTextAt(cs, q)
    ensures NodeAt(SetKind(cs, p, k), q) == NodeAt(cs, q)
  {
    var n := NodeAt(cs, p).value;
    if IsPrefix(p, q) {
      var r := q[|p|..];
      assert q == p + r;
      TextUnder(cs, p, q);
      SetNodeBelow(cs, p, n.(kind := k), r);
      NodeAtUnder(cs, p, r);
    } else {
      SetNodeKeeps(cs, p, n.(kind := k), q);
    }
  }

  // ---------------------------------------------------------------------------
  // Wrapping

  /** `Transforms.wrapNodes(editor, { type: k, children: [] })` around the node at `p`. */
  function Wrap(cs: seq<Node>, p: Path, k: Kind): seq<Node>
    requires HasNode(cs, p)
  {
    SetNode(cs, p, Element(k, None, [NodeAt(cs, p).value]))
  }

  function WrapPath(p: Path, q: Path): Path {
    if IsPrefix(p, q) then p + [0] + q[|p|..] else q
  }

  lemma {:induction false} WrapResult(cs: seq<Node>, p: Path, k: Kind)
    requires HasNode(cs, p)
    ensures NodeAt(Wrap(cs, p, k), p) == Some(Element(k, None, [NodeAt(cs, p).value]))
  {
    SetNodeBelow(cs, p, Element(k, None, [NodeAt(cs, p).value]), []);
    assert p + [] == p;
  }

  lemma {:induction false} WrapKeeps(cs: seq<Node>, p: Path, k: Kind, q: Path)
    requires HasNode(cs, p) && IsTextAt(cs, q)
    ensures NodeAt(Wrap(cs, p, k), WrapPath(p, q)) == NodeAt(cs, q)
  {
    var n := NodeAt(cs, p).value;
    if IsPrefix(p, q) {
      var r := q[|p|..];
      assert q == p + r;
      assert p + [0] + r == p + ([0] + r);
      SetNodeBelow(cs, p, Element(k, None, [n]), [0] + r);
      NodeAtCons([n], 0, r);
      NodeAtUnder(cs, p, r);
    } else {
      SetNodeKeeps(cs, p, Element(k, None, [n]), q);
    }
  }

  // ---------------------------------------------------------------------------
  // Lifting a child out of its parent (unwrap with `split: true`)

  predicate CanLift(cs: seq<Node>, cp: Path) {
    |cp| >= 2 && NodeAt(cs, cp).Some?
  }

  /** The nodes that replace a parent `l` when its child `ci` is lifted out:
      the children before it, the child itself, the children after it. */
  function LiftPieces(l: Node, ci: nat): seq<Node>
    requires l.Element? && ci < |l.children|
  {
    (if ci > 0 then [l.(children := l.children[..ci])] else []) +
    [l.children[ci]] +
    (if ci + 1 < |l.children| then [l.(children := l.children[ci + 1..])] else [])
  }

  lemma {:induction false} LiftSetup(cs: seq<Node>, cp: Path)
    requires CanLift(cs, cp)
    ensures HasElement(cs, Parent(cp))
    ensures Last(cp) < |NodeAt(cs, Parent(cp)).value.children|
    ensures NodeAt(cs, Parent(cp)).value.children[Last(cp)] == NodeAt(cs, cp).value
    ensures ChildrenAt(cs, Parent(Parent(cp))).Some?
    ensures Last(Parent(cp)) < |ChildrenAt(cs, Parent(Parent(cp))).value|
  {
    NodeAtParent(cs, cp);
    ChildrenAtIsElement(cs, Parent(cp));
    NodeAtParent(cs, Parent(cp));
  }

  /** `liftNodes`: the child at `cp` leaves its parent, which is split around it. */
  function Lift(cs: seq<Node>, cp: Path): seq<Node>
    requires CanLift(cs, cp)
  {
    LiftSetup(cs, cp);
    var lp := Parent(cp);
    Splice(cs, Parent(lp), Last(lp), 1, LiftPieces(NodeAt(cs, lp).value, Last(cp)))
  }

  /** Where the lifted node lands. */
  function LiftedPath(cs: seq<Node>, cp: Path): Path
    requires |cp| >= 2
  {
    var lp := Parent(cp);
    Parent(lp) + [Last(lp) + (if Last(cp) > 0 then 1 else 0)]
  }

  function LiftPath(cs: seq<Node>, cp: Path, q: Path): Path
    requires CanLift(cs, cp)
  {
    LiftSetup(cs, cp);
    var lp := Parent(cp);
    var gp, li, ci := Parent(lp), Last(lp), Last(cp);
    var off := if ci > 0 then 1 else 0;
    if IsPrefix(lp, q) && |q| > |lp| then
      var j, r := q[|lp|], q[|lp| + 1..];
      if j < ci then q
      else if j == ci then gp + [li + off] + r
      else gp + [li + off + 1] + ([j - ci - 1] + r)
    else ShiftPath(q, gp, li, 1, |LiftPieces(NodeAt(cs, lp).value, ci)|)
  }

  /** `Lift` as one splice of the grandparent's children. */
  lemma {:induction false} LiftShape(cs: seq<Node>, cp: Path)
    requires CanLift(cs, cp)
    ensures HasElement(cs, Parent(cp)) && ChildrenAt(cs, Parent(Parent(cp))).Some?
    ensures var lp := Parent(cp);
      var gkids := ChildrenAt(cs, Parent(lp)).value;
      Last(lp) < |gkids| && gkids[Last(lp)] == NodeAt(cs, lp).value &&
      Last(cp) < |NodeAt(cs, lp).value.children| &&
      Lift(cs, cp) == ReplaceChildren(cs, Parent(lp),
        gkids[..Last(lp)] + LiftPieces(NodeAt(cs, lp).value, Last(cp)) + gkids[Last(lp) + 1..])
  {
    LiftSetup(cs, cp);
    NodeAtParent(cs, Parent(cp));
  }

  /** Where `LiftPath` sends a path through child `j` of the split parent. */
  lemma {:induction false} LiftPathUnder(cs: seq<Node>, cp: Path, j: nat, r: Path)
    requires CanLift(cs, cp)
    ensures var lp := Parent(cp);
      var gp, li, ci := Parent(lp), Last(lp), Last(cp);
      var off := if ci > 0 then 1 else 0;
      var q := lp + ([j] + r);
      LiftPath(cs, cp, q) ==
        if j < ci then q
        else if j == ci then gp + [li + off] + r
        else gp + [li + off + 1] + ([j - ci - 1] + r)
  {
    var lp := Parent(cp);
    var q := lp + ([j] + r);
    LiftSetup(cs, cp);
    assert q[..|lp|] == lp;
    assert q[|lp|] == j && q[|lp| + 1..] == r;
  }

  /** Where child `j` of the split parent, and what lies under it, is found after the lift. */
  lemma {:induction false} LiftChildAt(cs: seq<Node>, cp: Path, j: nat, r: Path)
    requires CanLift(cs, cp)
    requires HasElement(cs, Parent(cp)) && j < |NodeAt(cs, Parent(cp)).value.children|
    ensures var lp := Parent(cp);
      var kids := NodeAt(cs, lp).value.children;
      NodeAt(Lift(cs, cp), LiftPath(cs, cp, lp + ([j] + r))) == NodeIn(kids[j], r)
  {
    LiftPathUnder(cs, cp, j, r);
    LiftSetup(cs, cp);
    if j < Last(cp) {
      LiftChildBefore(cs, cp, j, r);
    } else if j == Last(cp) {
      LiftPieceAt(cs, cp, if j > 0 then 1 else 0, r);
    } else {
      LiftChildAfter(cs, cp, j, r);
    }
  }

  /** A child before the lifted one stays in the first piece, at its old path. */
  lemma {:induction false} LiftChildBefore(cs: seq<Node>, cp: Path, j: nat, r: Path)
    requires CanLift(cs, cp)
    requires HasElement(cs, Parent(cp)) && j < Last(cp) < |NodeAt(cs, Parent(cp)).value.children|
    ensures var lp := Parent(cp);
      NodeAt(Lift(cs, cp), lp + ([j] + r)) == NodeIn(NodeAt(cs, lp).value.children[j], r)
  {
    var lp := Parent(cp);
    LiftSetup(cs, cp);
    ParentLast(lp, [j] + r);
    LiftPieceAt(cs, cp, 0, [j] + r);
    LiftBefore(NodeAt(cs, lp).value, Last(cp), j, r);
  }

  /** A child after the lifted one moves into the last piece. */
  lemma {:induction false} LiftChildAfter(cs: seq<Node>, cp: Path, j: nat, r: Path)
    requires CanLift(cs, cp)
    requires HasElement(cs, Parent(cp)) && Last(cp) < j < |NodeAt(cs, Parent(cp)).value.children|
    ensures var lp := Parent(cp);
      var ci := Last(cp);
      NodeAt(Lift(cs, cp), Parent(lp) + [Last(lp) + (if ci > 0 then 1 else 0) + 1] + ([j - ci - 1] + r)) ==
        NodeIn(NodeAt(cs, lp).value.children[j], r)
  {
    var ci := Last(cp);
    LiftSetup(cs, cp);
    LiftPieceAt(cs, cp, (if ci > 0 then 1 else 0) + 1, [j - ci - 1] + r);
    LiftAfter(NodeAt(cs, Parent(cp)).value, ci, j, r);
  }

  /** The `k`-th piece of the split parent sits at index `Last(lp) + k` of the grandparent. */
  lemma {:induction false} LiftPieceAt(cs: seq<Node>, cp: Path, k: nat, r: Path)
    requires CanLift(cs, cp)
    requires HasElement(cs, Parent(cp)) && Last(cp) < |NodeAt(cs, Parent(cp)).value.children|
    requires k < |LiftPieces(NodeAt(cs, Parent(cp)).value, Last(cp))|
    ensures var lp := Parent(cp);
      NodeAt(Lift(cs, cp), Parent(lp) + [Last(lp) + k] + r) ==
        NodeIn(LiftPieces(NodeAt(cs, lp).value, Last(cp))[k], r)
  {
    LiftShape(cs, cp);
    var lp := Parent(cp);
    var gp, li := Parent(lp), Last(lp);
    var pieces := LiftPieces(NodeAt(cs, lp).value, Last(cp));
    var gkids := ChildrenAt(cs, gp).value;
    var nk := gkids[..li] + pieces + gkids[li + 1..];
    assert Lift(cs, cp) == ReplaceChildren(cs, gp, nk);
    assert nk[li + k] == pieces[k];
    NodeAtReplacedBelow(cs, gp, nk, li + k, r);
  }

  lemma {:induction false} LiftBefore(l: Node, ci: nat, j: nat, r: Path)
    requires l.Element? && j < ci < |l.children|
    ensures LiftPieces(l, ci)[0] == l.(children := l.children[..ci])
    ensures NodeIn(l.(children := l.children[..ci]), [j] + r) == NodeIn(l.children[j], r)
  {
    NodeAtCons(l.children[..ci], j, r);
  }

  lemma {:induction false} LiftAfter(l: Node, ci: nat, j: nat, r: Path)
    requires l.Element? && ci < j < |l.children|
    ensures LiftPieces(l, ci)[if ci > 0 then 2 else 1] == l.(children := l.children[ci + 1..])
    ensures NodeIn(l.(children := l.children[ci + 1..]), [j - ci - 1] + r) == NodeIn(l.children[j], r)
  {
    NodeAtCons(l.children[ci + 1..], j - ci - 1, r);
  }

  lemma {:induction false} LiftKeeps(cs: seq<Node>, cp: Path, q: Path)
    requires CanLift(cs, cp) && IsTextAt(cs, q)
    ensures NodeAt(Lift(cs, cp), LiftPath(cs, cp, q)) == NodeAt(cs, q)
  {
    LiftShape(cs, cp);
    var lp := Parent(cp);
    var gp, li := Parent(lp), Last(lp);
    var l := NodeAt(cs, lp).value;
    if IsPrefix(lp, q) && |q| > |lp| {
      var j, r := q[|lp|], q[|lp| + 1..];
      SplitBelow(lp, q);
      NodeAtUnder(cs, lp, [j] + r);
      NodeAtCons(l.children, j, r);
      LiftChildAt(cs, cp, j, r);
    } else {
      InSpliceAt(q, gp, li);
      TextUnder(cs, lp, q);
      SpliceKeeps(cs, gp, li, 1, LiftPieces(l, Last(cp)), q);
    }
  }

  /** The lifted node, moved whole. */
  lemma {:induction false} LiftResult(cs: seq<Node>, cp: Path)
    requires CanLift(cs, cp)
    ensures NodeAt(Lift(cs, cp), LiftedPath(cs, cp)) == NodeAt(cs, cp)
  {
    LiftSetup(cs, cp);
    var lp := Parent(cp);
    var gp, li, ci := Parent(lp), Last(lp), Last(cp);
    var pieces := LiftPieces(NodeAt(cs, lp).value, ci);
    var gkids := ChildrenAt(cs, gp).value;
    var nk := gkids[..li] + pieces + gkids[li + 1..];
    var off := if ci > 0 then 1 else 0;
    assert nk[li + off] == NodeAt(cs, cp).value;
    NodeAtReplacedBelow(cs, gp, nk, li + off, []);
    assert LiftedPath(cs, cp) == gp + [li + off] + [];
  }

  /** Every path below the lifted node follows it. */
  lemma {:induction false} LiftPathBelow(cs: seq<Node>, cp: Path, r: Path)
    requires CanLift(cs, cp)
    ensures LiftPath(cs, cp, cp + r) == LiftedPath(cs, cp) + r
  {
    var lp := Parent(cp);
    assert cp + r == lp + [Last(cp)] + r;
    assert (cp + r)[|lp|] == Last(cp);
    assert (cp + r)[|lp| + 1..] == r;
  }

  // ---------------------------------------------------------------------------
  // Inserting and removing

  /** `Transforms.insertNodes(editor, n, { at: pp + [i] })`. */
  function Insert(cs: seq<Node>, pp: Path, i: nat, n: Node): seq<Node>
    requires ChildrenAt(cs, pp).Some? && i <= |ChildrenAt(cs, pp).value|
  {
    Splice(cs, pp, i, 0, [n])
  }

  lemma {:induction false} InsertKeeps(cs: seq<Node>, pp: Path, i: nat, n: Node, q: Path)
    requires ChildrenAt(cs, pp).Some? && i <= |ChildrenAt(cs, pp).value| && IsTextAt(cs, q)
    ensures NodeAt(Insert(cs, pp, i, n), ShiftPath(q, pp, i, 0, 1)) == NodeAt(cs, q)
  {
    SpliceKeeps(cs, pp, i, 0, [n], q);
  }

  /** `Transforms.removeNodes(editor, { at: p })`. */
  function Remove(cs: seq<Node>, p: Path): seq<Node>
    requires HasNode(cs, p)
  {
    NodeAtParent(cs, p);
    Splice(cs, Parent(p), Last(p), 1, [])
  }

  function RemovePath(p: Path, q: Path): Path
    requires |p| > 0
  {
    ShiftPath(q, Parent(p), Last(p), 1, 0)
  }

  lemma {:induction false} RemoveKeeps(cs: seq<Node>, p: Path, q: Path)
    requires HasNode(cs, p) && IsTextAt(cs, q) && !IsPrefix(p, q)
    ensures NodeAt(Remove(cs, p), RemovePath(p, q)) == NodeAt(cs, q)
  {
    NodeAtParent(cs, p);
    ParentLast(p, []);
    InSpliceAt(q, Parent(p), Last(p));
    SpliceKeeps(cs, Parent(p), Last(p), 1, [], q);
  }

  /** A point after `remove_node` at `p`: shifted, or relocated when its text went with the node. */
  function RemovePoint(cs: seq<Node>, p: Path, pt: Point): Option<Point>
    requires HasNode(cs, p)
  {
    if IsPrefix(p, pt.path) then Relocate(Remove(cs, p), p)
    else Some(Point(RemovePath(p, pt.path), pt.offset))
  }

  lemma {:induction false} RemovePointValid(cs: seq<Node>, p: Path, pt: Point)
    requires HasNode(cs, p) && ValidPoint(cs, pt)
    ensures RemovePoint(cs, p, pt).Some? ==> ValidPoint(Remove(cs, p), RemovePoint(cs, p, pt).value)
  {
    if IsPrefix(p, pt.path) {
      RelocateIsValid(Remove(cs, p), p);
    } else {
      RemoveKeeps(cs, p, pt.path);
    }
  }

  // ---------------------------------------------------------------------------
  // Merging an element into its previous sibling

  predicate CanMerge(cs: seq<Node>, p: Path) {
    HasElement(cs, p) && Last(p) > 0 && HasElement(cs, PrevPath(p))
  }

  function PrevPath(p: Path): Path
    requires |p| > 0 && Last(p) > 0
  {
    Parent(p) + [Last(p) - 1]
  }

  lemma {:induction false} MergeSetup(cs: seq<Node>, p: Path)
    requires CanMerge(cs, p)
    ensures ChildrenAt(cs, Parent(p)).Some?
    ensures Last(p) < |ChildrenAt(cs, Parent(p)).value|
    ensures ChildrenAt(cs, Parent(p)).value[Last(p)] == NodeAt(cs, p).value
    ensures ChildrenAt(cs, Parent(p)).value[Last(p) - 1] == NodeAt(cs, PrevPath(p)).value
  {
    NodeAtParent(cs, p);
    NodeAtParent(cs, PrevPath(p));
    assert Parent(PrevPath(p)) == Parent(p);
  }

  /** `Transforms.mergeNodes(editor, { at: p })`: the children of the node at `p`
      are appended to its previous sibling; an empty previous sibling is
      removed instead. */
  function Merge(cs: seq<Node>, p: Path): seq<Node>
    requires CanMerge(cs, p)
  {
    MergeSetup(cs, p);
    var prev, node := NodeAt(cs, PrevPath(p)).value, NodeAt(cs, p).value;
    if IsEmpty(prev) then Remove(cs, PrevPath(p))
    else Splice(cs, Parent(p), Last(p) - 1, 2, [prev.(children := prev.children + node.children)])
  }

  /** A point after the merge at `p`. */
  function MergePoint(cs: seq<Node>, p: Path, pt: Point): Option<Point>
    requires CanMerge(cs, p)
  {
    var prev := NodeAt(cs, PrevPath(p)).value;
    if IsEmpty(prev) then RemovePoint(cs, PrevPath(p), pt)
    else if IsPrefix(p, pt.path) && |pt.path| > |p| then
      Some(Point(PrevPath(p) + [|prev.children| + pt.path[|p|]] + pt.path[|p| + 1..], pt.offset))
    else Some(Point(ShiftPath(pt.path, Parent(p), Last(p) - 1, 2, 1), pt.offset))
  }

  /** The merged element kept by a non-empty merge, and the children list it sits in. */
  function Merged(cs: seq<Node>, p: Path): Node
    requires CanMerge(cs, p)
  {
    var prev := NodeAt(cs, PrevPath(p)).value;
    prev.(children := prev.children + NodeAt(cs, p).value.children)
  }

  lemma {:induction false} MergeShape(cs: seq<Node>, p: Path)
    requires CanMerge(cs, p) && !IsEmpty(NodeAt(cs, PrevPath(p)).value)
    ensures ChildrenAt(cs, Parent(p)).Some? && Last(p) < |ChildrenAt(cs, Parent(p)).value|
    ensures var kids := ChildrenAt(cs, Parent(p)).value;
      Merge(cs, p) == ReplaceChildren(cs, Parent(p), kids[..Last(p) - 1] + [Merged(cs, p)] + kids[Last(p) + 1..])
  {
    MergeSetup(cs, p);
  }

  lemma {:induction false} AppendedChild(a: seq<Node>, b: seq<Node>, j: nat, r: Path)
    requires j < |b|
    ensures NodeAt(a + b, [|a| + j] + r) == NodeAt(b, [j] + r)
  {
    var ab := a + b;
    assert ab[|a| + j] == b[j];
    NodeAtCons(ab, |a| + j, r);
    NodeAtCons(b, j, r);
  }

  /** The node at `PrevPath(p) + r` after a non-empty merge is found inside the merged element. */
  lemma {:induction false} MergedAt(cs: seq<Node>, p: Path, r: Path)
    requires CanMerge(cs, p) && !IsEmpty(NodeAt(cs, PrevPath(p)).value)
    ensures NodeAt(Merge(cs, p), PrevPath(p) + r) == NodeIn(Merged(cs, p), r)
  {
    MergeSetup(cs, p);
    MergeShape(cs, p);
    var pp, i := Parent(p), Last(p);
    var kids := ChildrenAt(cs, pp).value;
    var nk := kids[..i - 1] + [Merged(cs, p)] + kids[i + 1..];
    assert nk[i - 1] == Merged(cs, p);
    NodeAtReplacedBelow(cs, pp, nk, i - 1, r);
  }

  /** A text below the merged element is found after the previous sibling's own children. */
  lemma {:induction false} MergeBelowKeeps(cs: seq<Node>, p: Path, q: Path)
    requires CanMerge(cs, p) && !IsEmpty(NodeAt(cs, PrevPath(p)).value)
    requires IsTextAt(cs, q) && IsPrefix(p, q) && |q| > |p|
    ensures NodeAt(Merge(cs, p), PrevPath(p) + [|NodeAt(cs, PrevPath(p)).value.children| + q[|p|]] + q[|p| + 1..])
      == NodeAt(cs, q)
  {
    ChildBelow(cs, p, q);
    MergedChildAt(cs, p, q[|p|], q[|p| + 1..]);
  }

  /** A node strictly below the element at `p` is under one of its children. */
  lemma {:induction false} ChildBelow(cs: seq<Node>, p: Path, q: Path)
    requires HasElement(cs, p) && IsPrefix(p, q) && |q| > |p| && NodeAt(cs, q).Some?
    ensures var kids := NodeAt(cs, p).value.children;
      q[|p|] < |kids| && NodeAt(cs, q) == NodeAt(kids, [q[|p|]] + q[|p| + 1..])
  {
    var j, r := q[|p|], q[|p| + 1..];
    SplitBelow(p, q);
    NodeAtUnder(cs, p, [j] + r);
    assert ([j] + r)[0] == j;
  }

  /** Child `j` of the node at `p` follows the previous sibling's own children. */
  lemma {:induction false} MergedChildAt(cs: seq<Node>, p: Path, j: nat, r: Path)
    requires CanMerge(cs, p) && !IsEmpty(NodeAt(cs, PrevPath(p)).value)
    requires j < |NodeAt(cs, p).value.children|
    ensures var prev, node := NodeAt(cs, PrevPath(p)).value, NodeAt(cs, p).value;
      NodeAt(Merge(cs, p), PrevPath(p) + [|prev.children| + j] + r) == NodeAt(node.children, [j] + r)
  {
    var prev, node := NodeAt(cs, PrevPath(p)).value, NodeAt(cs, p).value;
    var tail' := [|prev.children| + j] + r;
    var m := Merged(cs, p);
    ConsPath(PrevPath(p), |prev.children| + j, r);
    MergedAt(cs, p, tail');
    assert m.children == prev.children + node.children;
    AppendedChild(prev.children, node.children, j, r);
  }

  /** A text below the previous sibling keeps its path. */
  lemma {:induction false} MergePrevKeeps(cs: seq<Node>, p: Path, q: Path)
    requires CanMerge(cs, p) && !IsEmpty(NodeAt(cs, PrevPath(p)).value)
    requires IsTextAt(cs, q) && IsPrefix(PrevPath(p), q)
    ensures NodeAt(Merge(cs, p), q) == NodeAt(cs, q)
  {
    MergeSetup(cs, p);
    MergeShape(cs, p);
    var prev := NodeAt(cs, PrevPath(p)).value;
    var pp, i := Parent(p), Last(p);
    var kids := ChildrenAt(cs, pp).value;
    var merged := Merged(cs, p);
    var nk := kids[..i - 1] + [merged] + kids[i + 1..];
    TextUnder(cs, PrevPath(p), q);
    var r := q[|PrevPath(p)|..];
    assert q == PrevPath(p) + r;
    NodeAtUnder(cs, PrevPath(p), r);
    assert r == [r[0]] + r[1..];
    NodeAtCons(prev.children, r[0], r[1..]);
    NodeAtCons(merged.children, r[0], r[1..]);
    assert nk[i - 1] == merged;
    NodeAtReplacedBelow(cs, pp, nk, i - 1, r);
  }

  /** A text outside both merged elements is shifted by one. */
  lemma {:induction false} MergeOtherKeeps(cs: seq<Node>, p: Path, q: Path)
    requires CanMerge(cs, p) && !IsEmpty(NodeAt(cs, PrevPath(p)).value)
    requires IsTextAt(cs, q) && !IsPrefix(p, q) && !IsPrefix(PrevPath(p), q)
    ensures NodeAt(Merge(cs, p), ShiftPath(q, Parent(p), Last(p) - 1, 2, 1)) == NodeAt(cs, q)
  {
    MergeSetup(cs, p);
    MergeShape(cs, p);
    var pp, i := Parent(p), Last(p);
    assert p == pp + [i];
    InSpliceAt(q, pp, i);
    InSpliceAt(q, pp, i - 1);
    SpliceKeeps(cs, pp, i - 1, 2, [Merged(cs, p)], q);
  }

  lemma {:induction false} MergePointValid(cs: seq<Node>, p: Path, pt: Point)
    requires CanMerge(cs, p) && ValidPoint(cs, pt)
    ensures MergePoint(cs, p, pt).Some? ==> ValidPoint(Merge(cs, p), MergePoint(cs, p, pt).value)
  {
    MergeSetup(cs, p);
    var q := pt.path;
    if IsEmpty(NodeAt(cs, PrevPath(p)).value) {
      RemovePointValid(cs, PrevPath(p), pt);
    } else if IsPrefix(p, q) && |q| > |p| {
      MergeBelowKeeps(cs, p, q);
    } else if IsPrefix(PrevPath(p), q) {
      MergePrevKeeps(cs, p, q);
      TextUnder(cs, PrevPath(p), q);
      assert q[|Parent(p)|] == Last(p) - 1 by {
        assert PrevPath(p)[|Parent(p)|] == Last(p) - 1;
      }
      assert ShiftPath(q, Parent(p), Last(p) - 1, 2, 1) == q;
    } else {
      TextUnder(cs, p, q);
      MergeOtherKeeps(cs, p, q);
    }
  }

  // ---------------------------------------------------------------------------
  // Text edits

  /** `remove_text`: the characters `[from, to)` of the text run at `p` are deleted. */
  function RemoveText(cs: seq<Node>, p: Path, from: nat, to: nat): seq<Node>
    requires IsTextAt(cs, p) && from <= to <= |NodeAt(cs, p).value.text|
  {
    var t := NodeAt(cs, p).value;
    SetNode(cs, p, Text(t.text[..from] + t.text[to..], t.marks))
  }

  /** Slate's point transform for `remove_text`. */
  function RemoveTextPoint(p: Path, from: nat, to: nat, pt: Point): Point
    requires from <= to
  {
    if pt.path == p && from <= pt.offset then
      Point(p, pt.offset - (if pt.offset - from < to - from then pt.offset - from else to - from))
    else pt
  }

  lemma {:induction false} RemoveTextPointValid(cs: seq<Node>, p: Path, from: nat, to: nat, pt: Point)
    requires IsTextAt(cs, p) && from <= to <= |NodeAt(cs, p).value.text| && ValidPoint(cs, pt)
    ensures ValidPoint(RemoveText(cs, p, from, to), RemoveTextPoint(p, from, to, pt))
  {
    var t := NodeAt(cs, p).value;
    var n := Text(t.text[..from] + t.text[to..], t.marks);
    if pt.path == p {
      SetNodeBelow(cs, p, n, []);
      assert p + [] == p;
    } else {
      TextLeaf(cs, p, pt.path);
      SetNodeKeeps(cs, p, n, pt.path);
    }
  }

  /** The text run at `p` replaced by several runs (a split); the run at index
      `k` of `runs` continues the old run's characters from `shift` on. */
  function SplitText(cs: seq<Node>, p: Path, runs: seq<Node>): seq<Node>
    requires HasNode(cs, p)
  {
    NodeAtParent(cs, p);
    Splice(cs, Parent(p), Last(p), 1, runs)
  }

  /** Texts outside the run that was split are found again, shifted by the number of new runs. */
  lemma {:induction false} SplitTextKeeps(cs: seq<Node>, p: Path, runs: seq<Node>, q: Path)
    requires IsTextAt(cs, p) && IsTextAt(cs, q) && q != p
    ensures NodeAt(SplitText(cs, p, runs), ShiftPath(q, Parent(p), Last(p), 1, |runs|)) == NodeAt(cs, q)
  {
    NodeAtParent(cs, p);
    ParentLast(p, []);
    InSpliceAt(q, Parent(p), Last(p));
    TextLeaf(cs, p, q);
    SpliceKeeps(cs, Parent(p), Last(p), 1, runs, q);
  }

  lemma {:induction false} SplitTextRun(cs: seq<Node>, p: Path, runs: seq<Node>, k: nat)
    requires HasNode(cs, p) && k < |runs|
    ensures NodeAt(SplitText(cs, p, runs), Parent(p) + [Last(p) + k]) == Some(runs[k])
  {
    NodeAtParent(cs, p);
    var kids := ChildrenAt(cs, Parent(p)).value;
    var nk := kids[..Last(p)] + runs + kids[Last(p) + 1..];
    assert nk[Last(p) + k] == runs[k];
    NodeAtReplacedBelow(cs, Parent(p), nk, Last(p) + k, []);
    assert Parent(p) + [Last(p) + k] + [] == Parent(p) + [Last(p) + k];
  }

  // ---------------------------------------------------------------------------
  // Prefixes and subtrees

  lemma {:induction false} NodeAtPrefix(cs: seq<Node>, p: Path, n: nat)
    requires NodeAt(cs, p).Some? && 0 < n <= |p|
    ensures NodeAt(cs, p[..n]).Some?
    decreases |p|
  {
    if n == |p| {
      assert p[..n] == p;
    } else if n > 1 {
      NodeAtPrefix(cs[p[0]].children, p[1..], n - 1);
      assert p[..n][0] == p[0];
      assert p[..n][1..] == p[1..][..n - 1];
    }
  }

  /** The subtree of the lifted node is carried along whole. */
  lemma {:induction false} LiftBelow(cs: seq<Node>, cp: Path, r: Path)
    requires CanLift(cs, cp)
    ensures NodeAt(Lift(cs, cp), LiftPath(cs, cp, cp + r)) == NodeAt(cs, cp + r)
  {
    LiftResult(cs, cp);
    LiftPathBelow(cs, cp, r);
    LiftSetup(cs, cp);
    NodeAtUnder(Lift(cs, cp), LiftedPath(cs, cp), r);
    NodeAtUnder(cs, cp, r);
  }

  // ---------------------------------------------------------------------------
  // Selections carried through the operations

  function LiftSel(cs: seq<Node>, cp: Path, sel: Option<Range>): Option<Range>
    requires CanLift(cs, cp)
  {
    if sel.None? then None
    else
      var r := sel.value;
      Some(Range(Point(LiftPath(cs, cp, r.anchor.path), r.anchor.offset),
                 Point(LiftPath(cs, cp, r.focus.path), r.focus.offset)))
  }

  lemma {:induction false} LiftSelValid(cs: seq<Node>, cp: Path, sel: Option<Range>)
    requires CanLift(cs, cp) && ValidSelection(cs, sel)
    ensures ValidSelection(Lift(cs, cp), LiftSel(cs, cp, sel))
  {
    if sel.Some? {
      LiftKeeps(cs, cp, sel.value.anchor.path);
      LiftKeeps(cs, cp, sel.value.focus.path);
    }
  }

  function WrapSel(p: Path, sel: Option<Range>): Option<Range> {
    if sel.None? then None
    else
      var r := sel.value;
      Some(Range(Point(WrapPath(p, r.anchor.path), r.anchor.offset),
                 Point(WrapPath(p, r.focus.path), r.focus.offset)))
  }

  lemma {:induction false} WrapSelValid(cs: seq<Node>, p: Path, k: Kind, sel: Option<Range>)
    requires HasNode(cs, p) && ValidSelection(cs, sel)
    ensures ValidSelection(Wrap(cs, p, k), WrapSel(p, sel))
  {
    if sel.Some? {
      WrapKeeps(cs, p, k, sel.value.anchor.path);
      WrapKeeps(cs, p, k, sel.value.focus.path);
    }
  }

  lemma {:induction false} SetKindSelValid(cs: seq<Node>, p: Path, k: Kind, sel: Option<Range>)
    requires HasElement(cs, p) && ValidSelection(cs, sel)
    ensures ValidSelection(SetKind(cs, p, k), sel)
  {
    if sel.Some? {
      SetKindKeeps(cs, p, k, sel.value.anchor.path);
      SetKindKeeps(cs, p, k, sel.value.focus.path);
    }
  }

  /** The selection after `remove_node`; it is cleared when a point finds no text to move to. */
  function RemoveSel(cs: seq<Node>, p: Path, sel: Option<Range>): Option<Range>
    requires HasNode(cs, p)
  {
    if sel.None? then None
    else
      var a, f := RemovePoint(cs, p, sel.value.anchor), RemovePoint(cs, p, sel.value.focus);
      if a.Some? && f.Some? then Some(Range(a.value, f.value)) else None
  }

  lemma {:induction false} RemoveSelValid(cs: seq<Node>, p: Path, sel: Option<Range>)
    requires HasNode(cs, p) && ValidSelection(cs, sel)
    ensures ValidSelection(Remove(cs, p), RemoveSel(cs, p, sel))
  {
    if sel.Some? {
      RemovePointValid(cs, p, sel.value.anchor);
      RemovePointValid(cs, p, sel.value.focus);
    }
  }

  function MergeSel(cs: seq<Node>, p: Path, sel: Option<Range>): Option<Range>
    requires CanMerge(cs, p)
  {
    if sel.None? then None
    else
      var a, f := MergePoint(cs, p, sel.value.anchor), MergePoint(cs, p, sel.value.focus);
      if a.Some? && f.Some? then Some(Range(a.value, f.value)) else None
  }

  lemma {:induction false} MergeSelValid(cs: seq<Node>, p: Path, sel: Option<Range>)
    requires CanMerge(cs, p) && ValidSelection(cs, sel)
    ensures ValidSelection(Merge(cs, p), MergeSel(cs, p, sel))
  {
    if sel.Some? {
      MergePointValid(cs, p, sel.value.anchor);
      MergePointValid(cs, p, sel.value.focus);
    }
  }
}
