/** The mention autocomplete: the candidate lists and their filter, the
    trigger recognizer run on every change, and the highlighted index. */
module Mentions {
  import opened Document

  // ---------------------------------------------------------------------------
  // Candidates

  datatype Entity = Entity(id: int, name: string)

  const Users: seq<Entity> :=
    [Entity(1, "Alice"), Entity(2, "Bob"), Entity(3, "Charlie"), Entity(4, "Diana")]

  const Machines: seq<Entity> :=
    [Entity(1, "Machine 1"), Entity(2, "Machine 2"), Entity(3, "Machine 3"), Entity(4, "Machine 4")]

  /** The list a search of type `ty` draws from. */
  function Pool(ty: MentionType): seq<Entity> {
    if ty == User then Users else Machines
  }

  /** `toLowerCase` on one character, for the ASCII letters. */
  function LowerChar(c: char): (r: char)
    ensures 'A' <= c <= 'Z' ==> 'a' <= r <= 'z'
    ensures !('A' <= c <= 'Z') ==> r == c
  {
    if 'A' <= c <= 'Z' then (c as int + 32) as char else c
  }

  function Lower(s: string): (r: string)
    ensures |r| == |s|
    ensures forall i | 0 <= i < |s| :: r[i] == LowerChar(s[i])
  {
    seq(|s|, i requires 0 <= i < |s| => LowerChar(s[i]))
  }

  lemma {:induction false} LowerIdempotent(s: string)
    ensures Lower(Lower(s)) == Lower(s)
  {
  }

  /** `hay.includes(needle)`. */
  function Includes(hay: string, needle: string): bool
    decreases |hay|
  {
    if |needle| > |hay| then false
    else if hay[..|needle|] == needle then true
    else Includes(hay[1..], needle)
  }

  predicate OccursAt(hay: string, needle: string, i: nat) {
    i + |needle| <= |hay| && hay[i..i + |needle|] == needle
  }

  /** `includes` holds exactly when the needle occurs at some position. */
  lemma {:induction false} IncludesMeans(hay: string, needle: string)
    ensures Includes(hay, needle) <==> exists i: nat :: OccursAt(hay, needle, i)
    decreases |hay|
  {
    if |needle| > |hay| {
    } else if hay[..|needle|] == needle {
      assert OccursAt(hay, needle, 0);
    } else {
      IncludesMeans(hay[1..], needle);
      if Includes(hay, needle) {
        var i: nat :| OccursAt(hay[1..], needle, i);
        assert hay[1..][i..i + |needle|] == hay[i + 1..i + 1 + |needle|];
        assert OccursAt(hay, needle, i + 1);
      }
      if i: nat :| OccursAt(hay, needle, i) {
        assert i != 0;
        assert hay[1..][i - 1..i - 1 + |needle|] == hay[i..i + |needle|];
        assert OccursAt(hay[1..], needle, i - 1);
      }
    }
  }

  /** The empty search is included in every name. */
  lemma {:induction false} IncludesEmpty(hay: string)
    ensures Includes(hay, "")
  {
    assert OccursAt(hay, "", 0);
    IncludesMeans(hay, "");
  }

  predicate Matches(e: Entity, search: string) {
    Includes(Lower(e.name), Lower(search))
  }

  /** `list.filter(e => e.name.toLowerCase().includes(search.toLowerCase()))`. */
  function Candidates(es: seq<Entity>, search: string): (r: seq<Entity>)
    ensures |r| <= |es|
  {
    if es == [] then []
    else if Matches(es[0], search) then [es[0]] + Candidates(es[1..], search)
    else Candidates(es[1..], search)
  }

  /** An entity is a candidate exactly when it is in the list and its name
      contains the search, case aside. */
  lemma {:induction false} CandidatesMembers(es: seq<Entity>, search: string, e: Entity)
    ensures e in Candidates(es, search) <==> e in es && Matches(e, search)
    decreases |es|
  {
    if es != [] {
      CandidatesMembers(es[1..], search, e);
      assert es == [es[0]] + es[1..];
    }
  }

  /** The filter keeps the list's order: the candidates are the matching
      entities of `es`, in their order in `es`. */
  lemma {:induction false} CandidatesOrder(es: seq<Entity>, es2: seq<Entity>, search: string)
    ensures Candidates(es + es2, search) == Candidates(es, search) + Candidates(es2, search)
    decreases |es|
  {
    if es != [] {
      assert (es + es2)[1..] == es[1..] + es2;
      CandidatesOrder(es[1..], es2, search);
    } else {
      assert es + es2 == es2;
    }
  }

  /** The search is compared without regard to letter case. */
  lemma {:induction false} CandidatesIgnoreCase(es: seq<Entity>, search: string)
    ensures Candidates(es, search) == Candidates(es, Lower(search))
    decreases |es|
  {
    LowerIdempotent(search);
    if es != [] {
      assert Matches(es[0], search) == Matches(es[0], Lower(search));
      CandidatesIgnoreCase(es[1..], search);
    }
  }

  /** An empty search lists every entity. */
  lemma {:induction false} CandidatesEmptySearch(es: seq<Entity>)
    ensures Candidates(es, "") == es
    decreases |es|
  {
    if es != [] {
      IncludesEmpty(Lower(es[0].name));
      CandidatesEmptySearch(es[1..]);
    }
  }

  /** Every user is offered for the empty search that follows a bare `@`,
      and the users' ids are distinct, so each is a distinct popup row. */
  lemma {:induction false} UsersDistinct()
    ensures Candidates(Users, "") == Users
    ensures forall i, j | 0 <= i < j < |Users| :: Users[i].id != Users[j].id
  {
    CandidatesEmptySearch(Users);
  }

  /** A one-character search is found exactly where that character occurs. */
  lemma {:induction false} IncludesChar(hay: string, c: char)
    ensures Includes(hay, [c]) <==> c in hay
  {
    IncludesMeans(hay, [c]);
    if c in hay {
      var i :| 0 <= i < |hay| && hay[i] == c;
      assert hay[i..i + 1] == [c];
      assert OccursAt(hay, [c], i);
    }
    forall i: nat | OccursAt(hay, [c], i)
      ensures c in hay
    {
      assert hay[i] == hay[i..i + 1][0];
    }
  }

  /** Lower-casing neither creates nor removes a character that is not a letter. */
  lemma {:induction false} LowerKeeps(s: string, c: char)
    requires !('A' <= c <= 'Z') && !('a' <= c <= 'z')
    ensures c in Lower(s) <==> c in s
  {
    if c in s {
      var i :| 0 <= i < |s| && s[i] == c;
      assert Lower(s)[i] == c;
    }
    if c in Lower(s) {
      var i :| 0 <= i < |s| && Lower(s)[i] == c;
      assert s[i] == c;
    }
  }

  /** A machine matches a search for the digit `c` exactly when its name
      ends in `c`. */
  lemma {:induction false} MachineMatchDigit(e: Entity, c: char)
    requires e in Machines && '0' <= c <= '9'
    ensures Matches(e, [c]) <==> e.name[8] == c
  {
    assert Lower([c]) == [c];
    IncludesChar(Lower(e.name), c);
    LowerKeeps(e.name, c);
  }

  /** Searching for a digit narrows the machines to the one numbered by it. */
  lemma {:induction false} MachineByNumber(c: char)
    requires '1' <= c <= '4'
    ensures Candidates(Machines, [c]) == [Machines[c as int - '1' as int]]
  {
    var m := Machines;
    MachineMatchDigit(m[0], c);
    MachineMatchDigit(m[1], c);
    MachineMatchDigit(m[2], c);
    MachineMatchDigit(m[3], c);
    assert m == [m[0], m[1]] + [m[2], m[3]];
    CandidatesOrder([m[0], m[1]], [m[2], m[3]], [c]);
    CandidatesPair(m[0], m[1], [c]);
    CandidatesPair(m[2], m[3], [c]);
  }

  /** The filter over two entities. */
  lemma {:induction false} CandidatesPair(x: Entity, y: Entity, search: string)
    ensures Candidates([x, y], search) ==
      (if Matches(x, search) then [x] else []) + (if Matches(y, search) then [y] else [])
  {
    assert [x, y][1..] == [y];
    assert [y][1..] == [];
  }

  // ---------------------------------------------------------------------------
  // The highlighted index

  /** ArrowDown: `(index + 1) % n`; an empty list leaves the index alone. */
  function NextIndex(index: nat, n: nat): (r: nat)
    ensures n > 0 ==> r < n
    ensures n == 0 ==> r == index
  {
    if n == 0 then index else (index + 1) % n
  }

  /** ArrowUp: `(index - 1 + n) % n`; an empty list leaves the index alone. */
  function PrevIndex(index: nat, n: nat): (r: nat)
    ensures n > 0 ==> r < n
    ensures n == 0 ==> r == index
  {
    if n == 0 then index else (index - 1 + n) % n
  }

  lemma {:induction false} ModBelow(x: int, n: int)
    requires 0 <= x < n
    ensures x % n == x
  {
  }

  lemma {:induction false} ModShift(x: int, n: int)
    requires 0 <= x < n
    ensures (x + n) % n == x
  {
  }

  /** Down moves one entry on, wrapping after the last. */
  lemma {:induction false} NextIndexIs(index: nat, n: nat)
    requires index < n
    ensures NextIndex(index, n) == if index + 1 < n then index + 1 else 0
  {
    if index + 1 < n { ModBelow(index + 1, n); } else { assert index + 1 == n; }
  }

  /** Up moves one entry back, wrapping before the first. */
  lemma {:induction false} PrevIndexIs(index: nat, n: nat)
    requires index < n
    ensures PrevIndex(index, n) == if index == 0 then n - 1 else index - 1
  {
    if index == 0 { ModBelow(n - 1, n); } else { ModShift(index - 1, n); }
  }

  /** Up undoes Down and Down undoes Up. */
  lemma {:induction false} IndexInverse(index: nat, n: nat)
    requires n == 0 || index < n
    ensures PrevIndex(NextIndex(index, n), n) == index
    ensures NextIndex(PrevIndex(index, n), n) == index
  {
    if n > 0 {
      NextIndexIs(index, n);
      PrevIndexIs(index, n);
      NextIndexIs(PrevIndex(index, n), n);
      PrevIndexIs(NextIndex(index, n), n);
    }
  }

  /** Down from the last entry wraps to the first, Up from the first to the last. */
  lemma {:induction false} IndexWraps(n: nat)
    requires n > 0
    ensures NextIndex(n - 1, n) == 0 && PrevIndex(0, n) == n - 1
  {
  }

  // ---------------------------------------------------------------------------
  // The trigger

  /** JavaScript's `\w`. */
  predicate IsJsWord(c: char) {
    'a' <= c <= 'z' || 'A' <= c <= 'Z' || '0' <= c <= '9' || c == '_'
  }

  /** JavaScript's `\s`. */
  predicate IsJsSpace(c: char) {
    c in {'\t', '\n', '\U{B}', '\U{C}', '\r', ' ', '\U{A0}', '\U{1680}', '\U{2028}', '\U{2029}',
          '\U{202F}', '\U{205F}', '\U{3000}', '\U{FEFF}'} ||
    '\U{2000}' <= c <= '\U{200A}'
  }

  /** The punctuation that ends a word for Slate's word unit, within Latin-1. */
  predicate IsPunctuation(c: char) {
    c in {'!', '"', '#', '%', '&', '\'', '(', ')', '*', ',', '-', '.', '/', ':', ';', '?', '@',
          '[', '\\', ']', '_', '{', '}', '\U{A1}', '\U{A7}', '\U{AB}', '\U{B6}', '\U{B7}',
          '\U{BB}', '\U{BF}'}
  }

  predicate IsSlateWord(c: char) {
    !IsJsSpace(c) && !IsPunctuation(c)
  }

  /** Where `Editor.before(start, {unit: 'word'})` lands inside one text run:
      back over non-word characters, then over a word. */
  function WordStart(t: string, o: nat, started: bool): (j: nat)
    requires o <= |t|
    ensures j <= o
    ensures j == o ==> o == 0 || (started && !IsSlateWord(t[o - 1]))
    decreases o
  {
    if o == 0 then 0
    else if IsSlateWord(t[o - 1]) then WordStart(t, o - 1, true)
    else if !started then WordStart(t, o - 1, false)
    else o
  }

  /** A recognized trigger: where it starts in the run, whom it searches, and the word. */
  datatype Trigger = Trigger(start: nat, searchType: MentionType, search: string)

  /** The text before the caret matches `^([@#])(\w+)$` and the text after it
      `^(\s|$)`, both within the run `t` with the caret at `o`. */
  function Recognize(t: string, o: nat): (r: Option<Trigger>)
    requires o <= |t|
    ensures r.Some? ==> r.value.start < o && t[r.value.start] in {'@', '#'}
    ensures r.Some? ==> r.value.search == t[r.value.start + 1..o] && r.value.search != []
    ensures r.Some? ==> forall c | c in r.value.search :: IsJsWord(c)
    ensures r.Some? ==> r.value.searchType == (if t[r.value.start] == '@' then User else Machine)
    ensures r.Some? ==> o == |t| || IsJsSpace(t[o])
  {
    var j := WordStart(t, o, false);
    if j == 0 then None
    else
      var before := t[j - 1..o];
      if |before| >= 2 && before[0] in {'@', '#'} && (forall c | c in before[1..] :: IsJsWord(c)) &&
         (o == |t| || IsJsSpace(t[o]))
      then Some(Trigger(j - 1, if before[0] == '@' then User else Machine, before[1..]))
      else None
  }

  predicate IsAlnum(c: char) {
    'a' <= c <= 'z' || 'A' <= c <= 'Z' || '0' <= c <= '9'
  }

  lemma {:induction false} WordStartOverWord(t: string, s: nat, o: nat, started: bool)
    requires s < o <= |t| && !IsSlateWord(t[s])
    requires forall i | s < i < o :: IsSlateWord(t[i])
    requires s + 1 < o || started
    ensures WordStart(t, o, started) == s + 1
    decreases o
  {
    if o - 1 > s {
      WordStartOverWord(t, s, o - 1, true);
    }
  }

  /** An `@` or `#` followed by letters and digits up to the caret, with a
      space or the end after it, is always recognized. */
  lemma {:induction false} RecognizeComplete(t: string, s: nat, o: nat)
    requires s < o <= |t| && s + 1 < o
    requires t[s] in {'@', '#'}
    requires forall i | s < i < o :: IsAlnum(t[i])
    requires o == |t| || IsJsSpace(t[o])
    ensures Recognize(t, o) == Some(Trigger(s, if t[s] == '@' then User else Machine, t[s + 1..o]))
  {
    assert forall i | s < i < o :: IsSlateWord(t[i]);
    WordStartOverWord(t, s, o, false);
    var before := t[s..o];
    assert before[0] == t[s];
    assert before[1..] == t[s + 1..o];
    forall c | c in before[1..]
      ensures IsJsWord(c)
    {
      var k :| 0 <= k < |before[1..]| && before[1..][k] == c;
      assert c == t[s + 1 + k];
    }
  }

  /** The word scan stops at `_`, so `@a_b` is not a trigger... */
  lemma {:induction false} UnderscoreInside()
    ensures Recognize("@a_b", 4) == None
  {
    var t := "@a_b";
    assert IsSlateWord(t[3]) && !IsSlateWord(t[2]);
    WordStartOverWord(t, 2, 4, false);
  }

  /** ...while a trailing `_` is skipped first, so `@ali_` is one, searching "ali_". */
  lemma {:induction false} UnderscoreAtEnd()
    ensures Recognize("@ali_", 5) == Some(Trigger(0, User, "ali_"))
  {
    var t := "@ali_";
    assert !IsSlateWord(t[4]);
    assert WordStart(t, 5, false) == WordStart(t, 4, false);
    WordStartOverWord(t, 0, 4, false);
    assert t[0..5][1..] == "ali_";
  }

  /** A caret right after a space recognizes nothing. */
  lemma {:induction false} NothingAfterSpace(t: string, o: nat)
    requires 0 < o <= |t| && IsJsSpace(t[o - 1])
    ensures Recognize(t, o) == None
  {
    var j := WordStart(t, o, false);
    if j > 0 {
      var before := t[j - 1..o];
      assert before[|before| - 1] == t[o - 1];
      assert |before| >= 2 ==> before[|before| - 1] in before[1..];
    }
  }

  // ---------------------------------------------------------------------------
  // The autocomplete state

  /** The popup state kept beside the document. */
  datatype Popup = Popup(target: Option<Range>, index: nat, searchType: MentionType, search: string)

  /** The candidates of the current search. */
  function Shown(p: Popup): seq<Entity> {
    Candidates(Pool(p.searchType), p.search)
  }

  /** The popup is rendered when there is a target and something to show. */
  predicate PopupVisible(p: Popup) {
    p.target.Some? && |Shown(p)| > 0
  }

  /** The highlighted index stays within the candidates whenever there are any. */
  predicate IndexOk(p: Popup) {
    |Shown(p)| > 0 ==> p.index < |Shown(p)|
  }

  /** A visible popup highlights an existing candidate. */
  lemma {:induction false} VisibleHighlights(p: Popup)
    requires IndexOk(p) && PopupVisible(p)
    ensures p.index < |Shown(p)|
  {
  }
}
