# Rich-text note editor: a verified model

This project models the rich-text editor component of the maintenance
application's client, `ClientApp/src/components/Shared/Editor.tsx`, in Dafny.
The component is built on the Slate editing library. It adds:

- bold, italic and underline marks, with the hotkeys Ctrl+B, Ctrl+I, Ctrl+U;
- block formats: paragraph, code block, bulleted list and numbered list;
  Ctrl+/ toggles a code block;
- a normalizer that turns "1. " and "- " / "* " prefixes into lists,
  retypes the children of a list into list items, and merges adjacent lists
  of the same kind;
- inline void `mention` elements, inserted from an autocomplete popup that
  opens after `@word` (users) or `#word` (machines);
- keyboard handling for Enter, Tab, the arrows, Escape, Backspace and Delete.

The model has seven modules, one file each:

| file | module | what it holds |
|---|---|---|
| `document.dfy` | `Document` | element and text nodes, `Editor.isBlock/isInline/isVoid/isEmpty/string`, paths, the document tree addressed by paths |
| `slate_ops.dfy` | `SlateOps` | the Slate operations the component calls: set a node's type, wrap, unwrap with split (lift), remove, merge, delete text, split a run to insert a node. Each one comes with where every text run moves and how the selection is carried along |
| `commands.dfy` | `Commands` | `isMarkActive`, `toggleMark`, `isBlockActive`, `toggleBlock`, the hotkey table |
| `normalize.dfy` | `Normalize` | the `withMergeAdjacentLists` normalizer |
| `mentions.dfy` | `Mentions` | the user and machine lists, the case-insensitive filter, the highlighted index, the `@`/`#` recognizer |
| `keyboard.dfy` | `Keyboard` | `onKeyDown` and `onChange` as functions from a `Session` (document plus popup state) to the next `Session`, with whether the default action is prevented |
| `editor.dfy` | `EditorComponent` | the `RichTextEditor` class: the editor object's fields and the component's state, updated in place by methods proved equal to the functions above |

The handlers change the editor object in place, so they are methods of a
class. Each method is proved to leave the fields exactly as the pure model
prescribes. The `forEach` that retypes a list's children is a `while` loop
that calls a `setNodes` method once per child. The rest is pure code
(matching, filtering, the key dispatch), modelled as functions with lemmas.

Three global invariants run through the proofs:

- `ValidDoc`: the selection's points lie on text runs, within their text.
- `IndexOk`: the highlighted index stays within the candidates whenever there are any.
- `TargetOk`: a popup target sits inside one text run.

`Keyboard.SessionOk` combines them. It is proved to hold after every key
press: `onKeyDown`, then `onChange` if the document changed.

In these details the model follows the code:

- The numbered-list marker is `^\d+\. ` with a literal space, not any
  whitespace character.
- `isMarkActive` reads `Editor.marks`. For a selection, that is the marks of
  the first text run from where the selection starts that is not inside a
  mention, not whether every selected character carries the mark.
- Enter or Tab with a target but no matching candidate prevents the default
  action and selects the target. Then the lookup of `filtered[index].id`
  fails, so no mention is inserted and the key handler leaves the target set
  (`Keyboard.CompleteWithoutCandidate`). The change handler that follows
  sees the expanded selection and clears the target, as `onChange` does
  (`Keyboard.KeyPress`).

## Model

| member | source | states |
|---|---|---|
| `EditorComponent.RichTextEditor.constructor` | ClientApp/src/components/Shared/Editor.tsx:241-247 | a new editor shows the initial value with no selection, no pending marks, no target, index 0, search type "user" and an empty search |
| `EditorComponent.RichTextEditor.DefaultValue` | ClientApp/src/components/Shared/Editor.tsx:241 | the default value is a single empty paragraph |
| `EditorComponent.RichTextEditor.ToggleMark` | ClientApp/src/components/Shared/Editor.tsx:70-75 | the method leaves the document as `Commands.ToggleMark` prescribes, keeps the popup state, and keeps the selection on text |
| `EditorComponent.RichTextEditor.ToggleBlock` | ClientApp/src/components/Shared/Editor.tsx:83-101 | the method leaves the document as `Commands.ToggleBlock` prescribes, keeps the popup state, and keeps the selection on text |
| `EditorComponent.RichTextEditor.NormalizeNode` | ClientApp/src/components/Shared/Editor.tsx:153-198 | the in-place normalizer (toggle, delete, `forEach` of `setNodes`, merge) leaves the document as `Normalize.NormalizeNode` prescribes and keeps the selection valid |
| `EditorComponent.RichTextEditor.CoerceChildren` | ClientApp/src/components/Shared/Editor.tsx:177-183 | the loop over a list's children ends with every child block retyped to a list item and nothing else changed, i.e. `CoerceItems` |
| `EditorComponent.RichTextEditor.SetNodeType` | ClientApp/src/components/Shared/Editor.tsx:180 | `setNodes` at a path changes the `type` of that element only |
| `EditorComponent.RichTextEditor.OnChange` | ClientApp/src/components/Shared/Editor.tsx:424-449 | the handler sets target, search type, search and index exactly as `Keyboard.OnChange` prescribes, and leaves the document alone |
| `EditorComponent.RichTextEditor.OnKeyDown` | ClientApp/src/components/Shared/Editor.tsx:274-407 | the handler's new state and its `preventDefault` are those of `Keyboard.KeyDown` |
| `EditorComponent.RichTextEditor.KeyPress` | ClientApp/src/components/Shared/Editor.tsx:274-449 | a key press (key down, then change if the document changed) matches `Keyboard.KeyPress` and preserves `SessionOk` |
| `Commands.Marks` | ClientApp/src/components/Shared/Editor.tsx:65-67 | `Editor.marks` is defined exactly when there is a selection |
| `Commands.MarksAfterMention` | ClientApp/src/components/Shared/Editor.tsx:65-75 | a caret at the start of the run after a mention reads the marks of the run before the mention, not the mention's own text, and toggling a mark flips it against those marks |
| `Commands.MarksOfRange` | ClientApp/src/components/Shared/Editor.tsx:65-68 | on a range that starts on a run outside any void, the marks are that run's |
| `Commands.ToggleMarkInVoid` | ClientApp/src/components/Shared/Editor.tsx:70-75 | a range inside the text of a void element takes no mark, so the document is unchanged |
| `Commands.ToggleMarkCaret` | ClientApp/src/components/Shared/Editor.tsx:64-75 | at a caret, toggling a mark flips whether that mark is active, leaves every other mark's activity, the document and the selection unchanged |
| `Commands.ToggleMarkTwice` | ClientApp/src/components/Shared/Editor.tsx:70-75 | at a caret, toggling the same mark twice restores the pending marks |
| `Commands.ToggleMarkRange` | ClientApp/src/components/Shared/Editor.tsx:70-75 | on a selection inside one run, the selected characters become a run of their own whose mark set has the mark flipped, the selection stays expanded, and the mark's activity flips |
| `Commands.MarkRunsKeepText` | ClientApp/src/components/Shared/Editor.tsx:72-74 | splitting a run to mark part of it keeps the run's text |
| `Commands.ToggleMarkValid` | ClientApp/src/components/Shared/Editor.tsx:70-75 | toggling a mark keeps the selection on text |
| `Commands.ActiveBelowSound` | ClientApp/src/components/Shared/Editor.tsx:76-82 | when the `Editor.nodes` walk finds a match, a block of that kind lies in the selection's span |
| `Commands.ActiveBelowComplete` | ClientApp/src/components/Shared/Editor.tsx:76-82 | any block of that kind in the span is found by the walk |
| `Commands.ActiveBelowMeans` | ClientApp/src/components/Shared/Editor.tsx:76-82 | `isBlockActive` holds exactly when some block of the format lies between the selection's start and end |
| `Commands.ActiveAtCaret` | ClientApp/src/components/Shared/Editor.tsx:76-82 | at a caret, a format is active exactly when one of the caret's block ancestors has that type |
| `Commands.CaretActive` | ClientApp/src/components/Shared/Editor.tsx:76-82 | with the caret in a top-level block, a format is active exactly when that block has its type |
| `Commands.LowestUpTo` | ClientApp/src/components/Shared/Editor.tsx:88-91 | the match found is a block of the wanted kinds on the selection's path, and no deeper block on the path matches |
| `Commands.ToggleTarget` | ClientApp/src/components/Shared/Editor.tsx:93-95 | the block `setNodes` changes is a non-list block that is an ancestor of both ends of the selection |
| `Commands.UnwrapList` | ClientApp/src/components/Shared/Editor.tsx:88-91 | unwrapping keeps the block and the selection's validity; with no list above, nothing changes; otherwise the block moves one level up |
| `Commands.ToggleBlockResult` | ClientApp/src/components/Shared/Editor.tsx:83-101 | the toggled block becomes a paragraph when the format was active, becomes a list item wrapped in a new list for a list format, and takes the format's type otherwise; it moves up a level when it left a list; the selection stays valid |
| `Commands.CaretTarget` | ClientApp/src/components/Shared/Editor.tsx:93-95 | with the caret in a top-level non-list block, that block is the one toggled and no list is unwrapped |
| `Commands.ToggleListOn` | ClientApp/src/components/Shared/Editor.tsx:83-101 | a top-level paragraph toggled to a list becomes a one-item list, and the caret follows its text into the item |
| `Commands.ListItemTarget` | ClientApp/src/components/Shared/Editor.tsx:88-95 | with the caret in a list item, the item is the block toggled and its list is the one unwrapped |
| `Commands.ListItemUnwrap` | ClientApp/src/components/Shared/Editor.tsx:88-91 | unwrapping an item splits its list into the items before, the item itself, and the items after, and moves the caret with the item |
| `Commands.ListItemLift` | ClientApp/src/components/Shared/Editor.tsx:88-91 | the same split, as the result of the lift |
| `Commands.ToggleListOff` | ClientApp/src/components/Shared/Editor.tsx:83-101 | toggling a list's own format on one of its items turns that item into a paragraph between the two remaining halves of the list |
| `Commands.SingleItemOff` | ClientApp/src/components/Shared/Editor.tsx:83-101 | a one-item list toggled off becomes the paragraph it held |
| `Commands.ToggleListTwice` | ClientApp/src/components/Shared/Editor.tsx:83-101 | toggling a list format twice on a top-level paragraph gives back the document and the selection |
| `Commands.ListOffAfterOn` | ClientApp/src/components/Shared/Editor.tsx:83-101 | the second toggle undoes the first one's wrap |
| `Commands.ToggleKindTwice` | ClientApp/src/components/Shared/Editor.tsx:83-101 | toggling code (or any non-list format) on a paragraph retypes only that block, and a second toggle gives back the document |
| `Commands.Hotkey` | ClientApp/src/components/Shared/Editor.tsx:104-109 | exactly the keys b, i, u and / have a command; b, i and u toggle bold, italic and underline; / toggles a code block; no hotkey toggles the placeholder mark |
| `Commands.RunCommandValid` | ClientApp/src/components/Shared/Editor.tsx:104-109 | every hotkey command keeps the selection on text |
| `Normalize.DigitRun` | ClientApp/src/components/Shared/Editor.tsx:158 | the run of digits at the start is maximal |
| `Normalize.NumberPrefixMeans` | ClientApp/src/components/Shared/Editor.tsx:158 | the numbered marker matches with length k + 2 exactly when the text starts with k digits, a dot and a space |
| `Normalize.BulletPrefixMeans` | ClientApp/src/components/Shared/Editor.tsx:159-165 | the bullet marker matches exactly when the text starts with "* " or "- ", and is two characters long |
| `Normalize.NumberPrefixExtend` | ClientApp/src/components/Shared/Editor.tsx:158 | the anchored match is unchanged by text appended after it |
| `Normalize.BulletPrefixExtend` | ClientApp/src/components/Shared/Editor.tsx:159 | the anchored match is unchanged by text appended after it |
| `Normalize.Autoformat` | ClientApp/src/components/Shared/Editor.tsx:158-162 | autoformat fires exactly when one of the markers matches, and always picks a list format |
| `Normalize.AutoformatUnambiguous` | ClientApp/src/components/Shared/Editor.tsx:158-162 | no text matches both markers |
| `Normalize.CoercedAt` | ClientApp/src/components/Shared/Editor.tsx:178-182 | each child of a list is retyped on its own, independently of the others |
| `Normalize.CoercedItems` | ClientApp/src/components/Shared/Editor.tsx:178-182 | after the loop every child block is a list item, and every child is either unchanged or the same block retyped |
| `Normalize.CoercedIdempotent` | ClientApp/src/components/Shared/Editor.tsx:178-182 | running the loop again changes nothing |
| `Normalize.CoerceItemsKeeps` | ClientApp/src/components/Shared/Editor.tsx:178-182 | retyping moves no text run |
| `Normalize.CoerceItemsValid` | ClientApp/src/components/Shared/Editor.tsx:178-182 | retyping keeps the selection valid |
| `Normalize.CoerceItemsShape` | ClientApp/src/components/Shared/Editor.tsx:177-185 | the list keeps its place with its children retyped, and its previous sibling is untouched |
| `Normalize.FirstLeafOf` | ClientApp/src/components/Shared/Editor.tsx:164 | the first leaf of a node, when there is one, is a text run |
| `Normalize.StartPath` | ClientApp/src/components/Shared/Editor.tsx:164 | `Editor.start` of a block is on a text run |
| `Normalize.DeleteFromStartValid` | ClientApp/src/components/Shared/Editor.tsx:164-172 | deleting the marker keeps the selection valid |
| `Normalize.MergeWithPreviousValid` | ClientApp/src/components/Shared/Editor.tsx:185-193 | merging into the previous list keeps the selection valid |
| `Normalize.NormalizeNodeValid` | ClientApp/src/components/Shared/Editor.tsx:153-198 | normalizing any node keeps the selection valid |
| `Normalize.AutoformatOfBlock` | ClientApp/src/components/Shared/Editor.tsx:157-159 | the match on the block's whole text is the match on its first run |
| `Normalize.AutoformatParagraph` | ClientApp/src/components/Shared/Editor.tsx:156-174 | a top-level paragraph with a marker becomes a list of the matching kind whose only item holds the paragraph's runs without the marker |
| `Normalize.AutoformatSingleRun` | ClientApp/src/components/Shared/Editor.tsx:156-174 | a document of one single-run paragraph with a marker becomes a one-item list holding the text after the marker |
| `Normalize.BuyMilkExample` | ClientApp/src/components/Shared/Editor.tsx:156-174 | "1. buy milk" becomes a numbered list whose only item reads "buy milk" |
| `Normalize.MergeAdjacentLists` | ClientApp/src/components/Shared/Editor.tsx:177-193 | a list right after a non-empty list of the same kind is merged into it, children concatenated after retyping, and the parent has one child fewer |
| `Normalize.MergeTwoListsExample` | ClientApp/src/components/Shared/Editor.tsx:177-193 | [A, B] followed by [C, D] of the same list kind becomes [A, B, C, D] |
| `Mentions.LowerChar` | ClientApp/src/components/Shared/Editor.tsx:271-272 | lower-casing maps capital letters to small ones and leaves other characters alone |
| `Mentions.Lower` | ClientApp/src/components/Shared/Editor.tsx:271-272 | lower-casing a string works character by character and keeps its length |
| `Mentions.LowerIdempotent` | ClientApp/src/components/Shared/Editor.tsx:271-272 | lower-casing twice is lower-casing once |
| `Mentions.LowerKeeps` | ClientApp/src/components/Shared/Editor.tsx:271-272 | lower-casing neither adds nor removes a character that is not a letter |
| `Mentions.IncludesMeans` | ClientApp/src/components/Shared/Editor.tsx:271-272 | `includes` holds exactly when the needle occurs at some position |
| `Mentions.IncludesEmpty` | ClientApp/src/components/Shared/Editor.tsx:271-272 | every name includes the empty search |
| `Mentions.IncludesChar` | ClientApp/src/components/Shared/Editor.tsx:271-272 | a one-character search is found exactly when that character occurs |
| `Mentions.Candidates` | ClientApp/src/components/Shared/Editor.tsx:271-272 | the filter never lengthens the list |
| `Mentions.CandidatesMembers` | ClientApp/src/components/Shared/Editor.tsx:271-272 | an entity is offered exactly when it is in the list and its name contains the search, ignoring case |
| `Mentions.CandidatesOrder` | ClientApp/src/components/Shared/Editor.tsx:271-272 | the filter keeps the list's order (it distributes over concatenation) |
| `Mentions.CandidatesIgnoreCase` | ClientApp/src/components/Shared/Editor.tsx:271-272 | the search is compared without regard to case |
| `Mentions.CandidatesEmptySearch` | ClientApp/src/components/Shared/Editor.tsx:271-272 | an empty search offers every entity |
| `Mentions.UsersDistinct` | ClientApp/src/components/Shared/Editor.tsx:222-227 | all four users are offered for an empty search, with distinct ids |
| `Mentions.MachineMatchDigit` | ClientApp/src/components/Shared/Editor.tsx:234-239 | a machine matches a digit search exactly when its name ends in that digit |
| `Mentions.MachineByNumber` | ClientApp/src/components/Shared/Editor.tsx:234-239 | searching for a digit 1-4 offers exactly the machine with that number |
| `Mentions.NextIndex` | ClientApp/src/components/Shared/Editor.tsx:325-331 | ArrowDown's index stays below the number of candidates, and stays put when there are none |
| `Mentions.PrevIndex` | ClientApp/src/components/Shared/Editor.tsx:333-339 | ArrowUp's index stays below the number of candidates, and stays put when there are none |
| `Mentions.NextIndexIs` | ClientApp/src/components/Shared/Editor.tsx:328 | ArrowDown moves to the next candidate, wrapping from the last to the first |
| `Mentions.PrevIndexIs` | ClientApp/src/components/Shared/Editor.tsx:336 | ArrowUp moves to the previous candidate, wrapping from the first to the last |
| `Mentions.IndexInverse` | ClientApp/src/components/Shared/Editor.tsx:325-339 | ArrowUp undoes ArrowDown and ArrowDown undoes ArrowUp |
| `Mentions.IndexWraps` | ClientApp/src/components/Shared/Editor.tsx:325-339 | the index wraps around at both ends |
| `Mentions.WordStart` | ClientApp/src/components/Shared/Editor.tsx:429 | the word-unit step back lands at or before the caret, and stays put only at the start or after a non-word character |
| `Mentions.WordStartOverWord` | ClientApp/src/components/Shared/Editor.tsx:429 | stepping back over a run of word characters lands at its first character |
| `Mentions.Recognize` | ClientApp/src/components/Shared/Editor.tsx:427-445 | a recognized target starts with @ or #, the search is the non-empty run of word characters from there up to the caret, the type is user for @ and machine for #, and the caret is at the end of the text or before a space |
| `Mentions.RecognizeComplete` | ClientApp/src/components/Shared/Editor.tsx:427-445 | an @ or # followed by letters or digits up to the caret, with a space or the end after it, is recognized with that search |
| `Mentions.UnderscoreInside` | ClientApp/src/components/Shared/Editor.tsx:429-433 | "@a_b" is not recognized, because the word unit stops at "_" and the text before it is not `[@#]\w+` |
| `Mentions.UnderscoreAtEnd` | ClientApp/src/components/Shared/Editor.tsx:429-433 | "@ali_" is recognized with the search "ali_" |
| `Mentions.NothingAfterSpace` | ClientApp/src/components/Shared/Editor.tsx:429-433 | just after a space nothing is recognized |
| `Mentions.VisibleHighlights` | ClientApp/src/components/Shared/Editor.tsx:481 | when the popup is shown, the highlighted index names one of the listed candidates |
| `Keyboard.ParentPath` | ClientApp/src/components/Shared/Editor.tsx:275-276 | `Editor.parent` of the selection exists only with a selection, and is the editor or a node of the document |
| `Keyboard.ParentAtCaret` | ClientApp/src/components/Shared/Editor.tsx:275-276 | at a caret, the parent is the element holding the caret's text run |
| `Keyboard.CtrlKeys` | ClientApp/src/components/Shared/Editor.tsx:278-284 | with Ctrl, b, i and u toggle their marks and / toggles code, each preventing the default; any other key does nothing and prevents nothing; the popup is untouched |
| `Keyboard.NoParentNoEffect` | ClientApp/src/components/Shared/Editor.tsx:275 | without a selection, or with ends in different top-level blocks, no key changes anything |
| `Keyboard.EnterFallsThrough` | ClientApp/src/components/Shared/Editor.tsx:290-304 | Enter outside an empty list item or code block behaves as Tab |
| `Keyboard.LowestBlockIsParent` | ClientApp/src/components/Shared/Editor.tsx:290-299 | at a caret in a non-list block, the block `toggleBlock` changes is the caret's parent |
| `Keyboard.EnterEndsItem` | ClientApp/src/components/Shared/Editor.tsx:290-301 | Enter in an empty list item or code block turns it into a paragraph, prevents the default, keeps the popup and the selection's validity |
| `Keyboard.CompleteNeedsTarget` | ClientApp/src/components/Shared/Editor.tsx:304-323 | Tab, or Enter that falls through, without a target does nothing |
| `Keyboard.CompleteResult` | ClientApp/src/components/Shared/Editor.tsx:304-323 | completing replaces the target's text with a mention of the highlighted candidate and type, puts the caret on the text run right after the mention, clears the target and the pending marks, and keeps the surrounding text |
| `Keyboard.MentionInserted` | ClientApp/src/components/Shared/Editor.tsx:304-323 | Enter or Tab with a target inside one run and a highlighted candidate completes the mention, prevents the default, hides the popup and leaves a caret |
| `Keyboard.CompleteWithoutCandidate` | ClientApp/src/components/Shared/Editor.tsx:304-312 | with a target but no candidate, the key is prevented and the target selected, but nothing is inserted and the target stays |
| `Keyboard.CaretAfterMention` | ClientApp/src/components/Shared/Editor.tsx:309-319 | after the insertion the mention sits where the target was and a text run follows it, for `Transforms.move` to land on |
| `Keyboard.RunsText` | ClientApp/src/components/Shared/Editor.tsx:309-318 | the runs around the inserted void mention hold exactly the text outside the target |
| `Keyboard.SplitTextText` | ClientApp/src/components/Shared/Editor.tsx:309 | splitting a run into pieces replaces it among its siblings, and the siblings' text is the pieces' text in place of the run's |
| `Keyboard.ArrowRoundTrip` | ClientApp/src/components/Shared/Editor.tsx:325-339 | with a target, ArrowDown moves to the next candidate and ArrowUp then restores the state, both prevented |
| `Keyboard.ArrowsNeedTarget` | ClientApp/src/components/Shared/Editor.tsx:325-339 | without a target the arrows do nothing |
| `Keyboard.EscapeHides` | ClientApp/src/components/Shared/Editor.tsx:341-344 | Escape clears the target and hides the popup, leaving the document and the rest of the popup state |
| `Keyboard.KeyDownIndexOk` | ClientApp/src/components/Shared/Editor.tsx:274-407 | no key breaks the highlighted index's bound |
| `Keyboard.KeyDownTarget` | ClientApp/src/components/Shared/Editor.tsx:274-407 | a key either keeps the target or clears it, never sets a new one |
| `Keyboard.BackspaceEndsItem` | ClientApp/src/components/Shared/Editor.tsx:353-359 | Backspace at the very start of a list item or code block turns that block into a paragraph, prevents the default, keeps the popup and keeps the selection valid |
| `Keyboard.BackspaceFloor` | ClientApp/src/components/Shared/Editor.tsx:346-348 | Backspace in a document of one paragraph does nothing |
| `Keyboard.RemoveNeighbours` | ClientApp/src/components/Shared/Editor.tsx:365-386 | after removing a block, its previous sibling is where it was and its next sibling takes its place |
| `Keyboard.TopRemove` | ClientApp/src/components/Shared/Editor.tsx:365-367 | removing a top-level block drops it from the list of blocks |
| `Keyboard.TopMerge` | ClientApp/src/components/Shared/Editor.tsx:381-385 | merging two top-level blocks appends the second's children to the first, or drops an empty first one, keeping a caret at the end of the first |
| `Keyboard.RemoveEmptyTopBlock` | ClientApp/src/components/Shared/Editor.tsx:362-388 | Backspace in an empty top-level block removes it and puts the caret at the end of the previous block; if the blocks around it have the same type they are merged |
| `Keyboard.RemoveEmptyBlockValid` | ClientApp/src/components/Shared/Editor.tsx:362-388 | removing an empty block, moving the caret and merging keep the selection valid |
| `Keyboard.BackspaceValid` | ClientApp/src/components/Shared/Editor.tsx:346-390 | Backspace keeps the selection valid |
| `Keyboard.DeleteFloor` | ClientApp/src/components/Shared/Editor.tsx:392-395 | Delete in a document of one block does nothing |
| `Keyboard.DeleteEmptyTopBlock` | ClientApp/src/components/Shared/Editor.tsx:392-403 | Delete in an empty top-level block of a longer document removes the block and prevents the default |
| `Keyboard.DeleteKeyValid` | ClientApp/src/components/Shared/Editor.tsx:392-405 | Delete keeps the selection valid |
| `Keyboard.KeyDownValid` | ClientApp/src/components/Shared/Editor.tsx:274-407 | every key keeps the selection valid |
| `Keyboard.OnChangeSound` | ClientApp/src/components/Shared/Editor.tsx:424-449 | `onChange` leaves the document; it clears the target, or sets one that ends at a caret, lies in one run, reads `@` or `#` followed by the search, is followed by a space or the end, and resets the index to 0 |
| `Keyboard.OnChangeComplete` | ClientApp/src/components/Shared/Editor.tsx:424-449 | an `@` or `#` followed by letters or digits up to a caret, with a space or the end after it, sets exactly that target, type and search |
| `Keyboard.OnChangeIndexOk` | ClientApp/src/components/Shared/Editor.tsx:424-449 | `onChange` keeps the highlighted index within the candidates |
| `Keyboard.OnChangeOk` | ClientApp/src/components/Shared/Editor.tsx:424-449 | `onChange` preserves the session invariant |
| `Keyboard.KeyPressOk` | ClientApp/src/components/Shared/Editor.tsx:274-449 | a key press followed by the change handler preserves the session invariant |
| `SlateOps.SetKindResult` | ClientApp/src/components/Shared/Editor.tsx:93-95 | `setNodes` gives the element at the path the new type |
| `SlateOps.SetKindKeeps` | ClientApp/src/components/Shared/Editor.tsx:93-95 | `setNodes` moves no text run |
| `SlateOps.SetKindSelValid` | ClientApp/src/components/Shared/Editor.tsx:93-95 | `setNodes` keeps the selection valid |
| `SlateOps.WrapResult` | ClientApp/src/components/Shared/Editor.tsx:97-100 | `wrapNodes` puts the new list where the block was, holding the block |
| `SlateOps.WrapKeeps` | ClientApp/src/components/Shared/Editor.tsx:97-100 | `wrapNodes` moves each text run one level down under the wrapper, or leaves it |
| `SlateOps.WrapSelValid` | ClientApp/src/components/Shared/Editor.tsx:97-100 | `wrapNodes` keeps the selection valid |
| `SlateOps.LiftResult` | ClientApp/src/components/Shared/Editor.tsx:88-91 | unwrapping with split puts the item just after the first half of its old list |
| `SlateOps.LiftKeeps` | ClientApp/src/components/Shared/Editor.tsx:88-91 | every text run is found at its mapped path after the split |
| `SlateOps.LiftSelValid` | ClientApp/src/components/Shared/Editor.tsx:88-91 | the split keeps the selection valid |
| `SlateOps.RemoveKeeps` | ClientApp/src/components/Shared/Editor.tsx:365-367 | removing a node moves every text run outside it to its shifted path |
| `SlateOps.RemovePointValid` | ClientApp/src/components/Shared/Editor.tsx:365-367 | a point carried across `removeNodes` stays on text |
| `SlateOps.RemoveSelValid` | ClientApp/src/components/Shared/Editor.tsx:365-367 | `removeNodes` keeps the selection valid (also for Delete at line 401) |
| `SlateOps.MergeBelowKeeps` | ClientApp/src/components/Shared/Editor.tsx:189-191 | text in the merged block follows the previous block's own children |
| `SlateOps.MergePrevKeeps` | ClientApp/src/components/Shared/Editor.tsx:189-191 | text in the previous block keeps its path |
| `SlateOps.MergeOtherKeeps` | ClientApp/src/components/Shared/Editor.tsx:189-191 | text after the merged pair shifts back by one |
| `SlateOps.MergePointValid` | ClientApp/src/components/Shared/Editor.tsx:189-191 | a point carried across `mergeNodes` stays on text (the same merge is used by Backspace at lines 382-384) |
| `SlateOps.MergeSelValid` | ClientApp/src/components/Shared/Editor.tsx:189-191 | `mergeNodes` keeps the selection valid (also for Backspace at lines 382-384) |
| `SlateOps.RemoveTextPointValid` | ClientApp/src/components/Shared/Editor.tsx:167-172 | a point carried across deleting a marker stays on text |
| `SlateOps.SplitTextKeeps` | ClientApp/src/components/Shared/Editor.tsx:309 | inserting the mention moves the other text runs only by the number of inserted nodes |

## Left out

- Rendering (`renderers`, `Mention`, `renderLeaf`, the placeholder decoration, the popup's position and the toolbar buttons) is not modelled: it draws the state and changes nothing.
- The history plugin, typing itself and the browser's default key actions are not modelled. A handler's outcome records only whether the default was prevented.
- Slate's own default normalization (joining adjacent text runs with the same marks, removing empty runs) and the scheduling of normalization are not modelled. `normalizeNode` is a function of the document and one path.
- `Commands.ToggleBlock`: toggles the block only when both ends of the selection share the lowest block; a selection spanning several blocks leaves the document unchanged. `Transforms.setNodes` over a multi-block range is not modelled.
- `Commands.ToggleMark`: a selection that spans several text runs leaves the document unchanged. Only a caret and a selection inside one run are modelled.
- `Commands.ToggleMarkInVoid`: a range inside the text of a mention leaves the document unchanged; the splits Slate makes around an inline void in that case are not modelled.
- `Mentions.Recognize`: reads only the text run holding the caret. `Editor.before` and `Editor.after` crossing into a neighbouring run or block are not modelled. Word characters follow the ASCII letter, digit and punctuation classes; Unicode word boundaries are not modelled.
- `Mentions.LowerChar`: lower-cases only the ASCII letters, where `toLowerCase` also maps other alphabets.
- `Mentions.NextIndex`: with no candidates the index stays put, where the source computes `NaN` (`% 0`); `Mentions.PrevIndex` is treated the same way. No shown popup reads the index in that case.
- `Keyboard.PrevSibling`: `Editor.previous` and `Editor.next` are modelled as the previous and next sibling block, not as a document-order search for any matching node.
- `EditorComponent.RichTextEditor.CoerceChildren`: `node.children.indexOf(child)` is modelled as the loop index. The source finds the first child equal by reference, which is the same child because Slate nodes are distinct objects.
- `Keyboard.CompleteResult`: a target that does not lie within one text run is not modelled. `onChange` only sets targets inside one run (`Keyboard.OnChangeSound`).
- `Keyboard.MentionInserted`: states the dispatch and the new caret; the contents of the insertion are stated by `Keyboard.CompleteResult`.
- `Keyboard.NoParentNoEffect`: without a selection, `Editor.parent` throws in the source; the model treats this as a handler that changes nothing.
- `Keyboard.CompleteWithoutCandidate`: the exception thrown by `filtered[index].id` is modelled as the handler stopping after `Transforms.select`.
- The `ReactEditor.toDOMRange` effect that positions the popup (lines 409-418) is not modelled: it only moves the element on the page.
