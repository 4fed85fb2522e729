# Element picker and runner game, modelled in Dafny

This project models two parts of a generated web app.

The first is the editor that runs inside the app's page, `EditCommunicator` in
`frontend/src/hooks/useEditor.ts`. A parent frame drives it over
`postMessage`. It does four things:

- it names each element by a content hash of a canonical DOM-tree string;
- it marks the elements the user picks with a class and a badge;
- it keeps the picks in an insertion-ordered map from id to entry;
- it reports every change back to the parent frame, but only to an allowed origin.

The second is the rule logic of the runner game in `frontend/src/pages/Game.tsx`:

- the score formula and the top-five leaderboard;
- the padded hit-box collision tests;
- jumping, gravity and landing;
- obstacle and coin spawning;
- the per-frame coin and obstacle passes;
- the run reset on start, and name validation on submit.

The modules follow the source:

| module | file | models |
|---|---|---|
| `Options` | options.dfy | the optional value used for `T \| null` |
| `ContentIdentity` | content_identity.dfy | `hashDomTreeString`: the `bv32` djb2-xor fold over UTF-16 code units, exact for every string of Unicode scalar values, base 36, `padStart(6, '0')` |
| `Dom` | dom.dfy | the document as an arena of elements: tag, attributes, class token list, children, parent; `cloneNode`, `classList`, `setAttribute`, `remove`, `querySelector(All)` |
| `Canonical` | canonical.dfy | `#removeArtificialElements` and `#generateDOMTreeString` over detached trees, and their invariance under selection marks |
| `SelectionStore` | selection_store.dfy | the `#selectedElements` `Map` as an ordered list of entries with distinct ids |
| `Annotator` | annotator.dfy | `ensurePositionedForBadge`, `addBadge`, `removeBadge`, `clearBadges` and the class sweeps, as functions and as methods of the `Document` class that change the page in place |
| `Editor` | editor.dfy | class `EditCommunicator`: editor state, selection map, `parentOrigin`, the outbound message log; every private method and the `message` listener; `initEditor` |
| `GameRules` | game_rules.dfy | constants, `checkCollision`, `checkCoinCollision`, the score formula, the `topScores` sort and slice, `String.prototype.trim` |
| `Game` | game.dfy | class `GamePage` holding the game's refs; `jump`, `spawnObstacle`, `spawnCoin`, `gameLoop`, `startGame`, `handleSubmitScore` and the input handlers, each proved against a function on a `World` snapshot |

Design notes:

- Outbound traffic is `outbox: seq<Posted>`. `#toParent` appends nothing while
  `parentOrigin` is unset, so the ordering promises of the protocol are
  statements about that log.
- The editor's `document` is a `Document` object whose `arena` field the badge
  and class helpers change in place. Detached nodes stay in the arena with no
  parent, as removed DOM nodes do.
- `outerHTML` is an abstract but deterministic serialiser of a detached tree.
- Game positions are `real`s, not IEEE doubles. The random coin lane is a
  parameter.

## Model

| member | source | states |
|---|---|---|
| ContentIdentity.HashDomTreeString | frontend/src/hooks/useEditor.ts:73-80 | the loop over the code units computes exactly `IdOf(input)`, the 32-bit fold rendered as an id |
| ContentIdentity.CodeUnits | frontend/src/hooks/useEditor.ts:75-76 | `charCodeAt` walks UTF-16 code units: one or two units per character |
| ContentIdentity.DecodeUnits | frontend/src/hooks/useEditor.ts:75-76 | UTF-16 decoding, the reference for the encoding: a decoded string has between half as many and as many characters as units |
| ContentIdentity.CodeUnitsRoundTrip | frontend/src/hooks/useEditor.ts:75-76 | decoding the code units `charCodeAt` walks gives the string back: the encoding loses nothing |
| ContentIdentity.BmpUnit | frontend/src/hooks/useEditor.ts:75-76 | a character below 0x10000 is one unit of the same value, not a surrogate |
| ContentIdentity.AstralUnits | frontend/src/hooks/useEditor.ts:75-76 | an astral character is a high and a low surrogate that decode back to it |
| ContentIdentity.FoldSnoc | frontend/src/hooks/useEditor.ts:75-77 | one more loop turn is one more `((h << 5) + h) ^ c` step on the prefix fold |
| ContentIdentity.IdShape | frontend/src/hooks/useEditor.ts:79 | every id is "id-" followed by 6 or 7 base-36 digits whose value is the unsigned 32-bit hash |
| ContentIdentity.IdOfHashShape | frontend/src/hooks/useEditor.ts:79 | the same shape for any hash value below 2^32 |
| ContentIdentity.IdDeterminesHash | frontend/src/hooks/useEditor.ts:79 | two strings with the same id have the same 32-bit hash: the rendering loses nothing |
| ContentIdentity.ToBase36 | frontend/src/hooks/useEditor.ts:79 | `toString(36)` gives at least one digit, all from 0-9a-z |
| ContentIdentity.Digit | frontend/src/hooks/useEditor.ts:79 | a value below 36 is written as a base-36 digit |
| ContentIdentity.DigitValue | frontend/src/hooks/useEditor.ts:79 | reading a digit back gives a value below 36 that writes as the same digit |
| ContentIdentity.Base36RoundTrip | frontend/src/hooks/useEditor.ts:79 | reading back the digits of `toString(36)` gives the number |
| ContentIdentity.Base36Length | frontend/src/hooks/useEditor.ts:79 | a number below 36^k has at most k digits, so a 32-bit hash has at most 7 |
| ContentIdentity.PadStart | frontend/src/hooks/useEditor.ts:79 | `padStart(w, '0')` has length max(len, w), ends with the input and has only zeros before it |
| ContentIdentity.Zeros | frontend/src/hooks/useEditor.ts:79 | the padding is k characters '0' |
| ContentIdentity.LeadingZeros | frontend/src/hooks/useEditor.ts:79 | the zeros `padStart` adds do not change the value read back |
| ContentIdentity.AllZeros | frontend/src/hooks/useEditor.ts:79 | the padding alone reads as 0 |
| Dom.Without | frontend/src/hooks/useEditor.ts:293 | removing a set of class tokens keeps exactly the tokens outside the set |
| Dom.WithoutAppend | frontend/src/hooks/useEditor.ts:293 | removing tokens from two joined lists is removing them from each, so the kept tokens keep their order |
| Dom.WithoutNone | frontend/src/hooks/useEditor.ts:293 | a list with no token of the set is left exactly as it is |
| Dom.AddToken | frontend/src/hooks/useEditor.ts:231 | `classList.add`: the token is present afterwards and no other token is added or lost |
| Dom.RemoveToken | frontend/src/hooks/useEditor.ts:214 | `classList.remove`: the token is absent afterwards and every other token stays |
| Dom.SetAttr | frontend/src/hooks/useEditor.ts:268 | `setAttribute`: the attribute reads the new value and every other attribute reads as before |
| Dom.CloneTree | frontend/src/hooks/useEditor.ts:266 | `cloneNode(true)` copies tag, attributes and classes, with one cloned child per child |
| Dom.CloneAll | frontend/src/hooks/useEditor.ts:275 | the deep clones of a list of siblings, one per sibling, in order |
| Dom.ShallowClone | frontend/src/hooks/useEditor.ts:259 | `cloneNode(false)` keeps tag, attributes and classes, and has no children and no text |
| Dom.Preorder | frontend/src/hooks/useEditor.ts:384 | a subtree in document order starts at its root and holds only page nodes with handles not below the root's |
| Dom.PreorderBelow | frontend/src/hooks/useEditor.ts:384 | every node of a subtree walk is the root or lies below it: its parent links lead up to the root |
| Dom.PreorderAllBelow | frontend/src/hooks/useEditor.ts:384 | every node of a walk over a parent's children lies strictly below that parent |
| Dom.UnderParent | frontend/src/hooks/useEditor.ts:384 | a node below a child is below the child's parent |
| Dom.PreorderFrameAbove | frontend/src/hooks/useEditor.ts:384 | a subtree walk reads only the children lists of the nodes inside the subtree |
| Dom.PreorderAllFrameAbove | frontend/src/hooks/useEditor.ts:384 | the same for a walk over a list of siblings |
| Dom.PreorderAllAppend | frontend/src/hooks/useEditor.ts:384 | walking two lists of siblings one after the other is walking the joined list |
| Dom.ChildInPreorderAll | frontend/src/hooks/useEditor.ts:384 | every listed child is visited by the walk over the children |
| Dom.PreorderFrame | frontend/src/hooks/useEditor.ts:384 | document order depends only on the children lists: class changes keep it |
| Dom.AllElements | frontend/src/hooks/useEditor.ts:384 | `querySelectorAll('*')` lists only elements of the document |
| Dom.WithClass | frontend/src/hooks/useEditor.ts:212 | `querySelectorAll('.c')` keeps exactly the listed elements carrying class c |
| Dom.Badges | frontend/src/hooks/useEditor.ts:105 | `querySelectorAll('[data-editor-badge="1"]')` keeps exactly the listed badges |
| Dom.FirstBadgeBelow | frontend/src/hooks/useEditor.ts:99 | `el.querySelector(badge)` finds nothing exactly when no node below `el` is a badge, and otherwise the first badge below `el` in document order, at any depth |
| Dom.BadgesFirst | frontend/src/hooks/useEditor.ts:99 | the first of the badges of a list is the first element of the list that is a badge; there is none exactly when no element is a badge |
| Dom.OwnBadge | frontend/src/hooks/useEditor.ts:98-100 | the badge among the element's own children, or none when no child is a badge |
| Dom.AddClass | frontend/src/hooks/useEditor.ts:231 | `el.classList.add(c)` on the page changes that element's classes only and keeps the page well formed |
| Dom.RemoveClass | frontend/src/hooks/useEditor.ts:214 | `el.classList.remove(c)` on the page changes that element's classes only and keeps the page well formed |
| Dom.SetClasses | frontend/src/hooks/useEditor.ts:293 | replacing one element's class list changes nothing else |
| Dom.AppendBadge | frontend/src/hooks/useEditor.ts:91-95 | `appendChild` of a fresh badge: a new last child under the element, nothing else changed |
| Dom.Detach | frontend/src/hooks/useEditor.ts:100 | `node.remove()`: the node leaves its parent's children and keeps its own subtree; the page stays well formed |
| Dom.RemoveRef | frontend/src/hooks/useEditor.ts:100 | removing a child keeps exactly the other children |
| Canonical.RemoveArtificialElements | frontend/src/hooks/useEditor.ts:289-299 | the recursive method computes `Stripped(t, marks)` |
| Canonical.Stripped | frontend/src/hooks/useEditor.ts:289-299 | stripping keeps tag, attributes and text |
| Canonical.StrippedIsClean | frontend/src/hooks/useEditor.ts:289-299 | after stripping, no badge and no marker class is left anywhere in the subtree |
| Canonical.StrippedOfClean | frontend/src/hooks/useEditor.ts:289-299 | a clean tree is left as it is: stripping removes only badges and marker classes |
| Canonical.StrippedIdempotent | frontend/src/hooks/useEditor.ts:289-299 | stripping twice is stripping once |
| Canonical.PathToBody | frontend/src/hooks/useEditor.ts:245-251 | the upward walk collects page nodes and never the body itself |
| Canonical.Target | frontend/src/hooks/useEditor.ts:268 | the target clone carries `data-target="this"` |
| Canonical.BuildTree | frontend/src/hooks/useEditor.ts:258-283 | `buildTree` keeps the parent's tag and attributes and its classes without the marker classes, and none of its own text, since `cloneNode(false)` copies no text node |
| Canonical.BuildKids | frontend/src/hooks/useEditor.ts:261-279 | each child is rebuilt, in order: recursion on the path, the tagged target, or a stripped deep clone |
| Canonical.BuildTreeOf | frontend/src/hooks/useEditor.ts:258-283 | the recursive method with its `forEach` loop computes `BuildTree` |
| Canonical.GenerateDomTreeString | frontend/src/hooks/useEditor.ts:244-287 | the upward `while` walk and the rebuild compute `TreeString`, in which the body and the ancestors on the path carry no text |
| Canonical.PathStartsOutside | frontend/src/hooks/useEditor.ts:248-251 | for an element not under the body, the walk ends at a node with no parent |
| Canonical.OutsideBodyIsBodyString | frontend/src/hooks/useEditor.ts:248-287 | an element not under the body gets the body's own string |
| Canonical.NonBadge | frontend/src/hooks/useEditor.ts:290-291 | the non-badge children, in order |
| Canonical.StrippedClones | frontend/src/hooks/useEditor.ts:275-277 | stripping the deep clones of siblings keeps the canonical clones of the non-badge siblings |
| Canonical.StrippedBuilds | frontend/src/hooks/useEditor.ts:261-281 | stripping the rebuilt children keeps those of the non-badge children |
| Canonical.BuildKidBadge | frontend/src/hooks/useEditor.ts:261-279 | a rebuilt child is a badge exactly when the original is |
| Canonical.CloneInvisible | frontend/src/hooks/useEditor.ts:289-299 | a stripped deep clone is the same on two pages that differ only in marks and badges |
| Canonical.BuildInvisible | frontend/src/hooks/useEditor.ts:258-283 | the rebuilt tree is the same on two pages that differ only in marks and badges |
| Canonical.KidInvisible | frontend/src/hooks/useEditor.ts:261-279 | one rebuilt child, stripped, is the same on two such pages |
| Canonical.TreeStringInvisible | frontend/src/hooks/useEditor.ts:244-299 | an element's canonical string is the same on two pages that differ only in marks and badges and give it the same path |
| Canonical.PathsAgree | frontend/src/hooks/useEditor.ts:248-251 | the walk depends only on the parents along it |
| Canonical.SamePathsWhenSameParents | frontend/src/hooks/useEditor.ts:248-251 | where every node keeps its parent, every element keeps its path |
| Canonical.SameContentTransitive | frontend/src/hooks/useEditor.ts:289-299 | differing only in marks and badges composes across steps |
| Canonical.SetClassesInvisible | frontend/src/hooks/useEditor.ts:293 | a class change within the marker classes changes no string and moves nothing |
| Canonical.AddMarkInvisible | frontend/src/hooks/useEditor.ts:231 | adding a marker class changes no string and moves nothing |
| Canonical.RemoveMarkInvisible | frontend/src/hooks/useEditor.ts:214 | removing a marker class changes no string and moves nothing |
| Canonical.AddBadgeInvisible | frontend/src/hooks/useEditor.ts:95 | appending a badge changes no string and moves no existing node |
| Canonical.RemoveBadgeInvisible | frontend/src/hooks/useEditor.ts:100 | removing a badge changes no string and moves nothing but the badge |
| Canonical.NonBadgeRemoveBadge | frontend/src/hooks/useEditor.ts:100 | the non-badge children are the same after a badge leaves |
| Canonical.CloneFrameAbove | frontend/src/hooks/useEditor.ts:266 | a deep clone is the same in two documents that agree on every node above the clone's root |
| Canonical.CloneAllFrameAbove | frontend/src/hooks/useEditor.ts:275 | the same for the clones of a list of siblings |
| Canonical.BuildFrameAbove | frontend/src/hooks/useEditor.ts:258-283 | the rebuilt subtree of a node is the same in two documents that agree on every node above it |
| Canonical.BuildKidsFrameAbove | frontend/src/hooks/useEditor.ts:261-279 | the same for the rebuilt children of a list |
| Canonical.BuildKidFrameAbove | frontend/src/hooks/useEditor.ts:263-278 | the same for one rebuilt child |
| Canonical.BodyTextUnread | frontend/src/hooks/useEditor.ts:259 | changing the body's own text changes no element's canonical string, because `cloneNode(false)` leaves it behind |
| Canonical.SelectionModeChangesStrings | frontend/src/hooks/useEditor.ts:236-242 | as written, with the source's three marker classes, turning the cursor on changes every element's string on a plain body |
| Canonical.SelectionModeOnInvisible | frontend/src/hooks/useEditor.ts:236-242 | once the mode class is stripped too, turning selection mode on changes no string |
| Canonical.SelectionModeOffInvisible | frontend/src/hooks/useEditor.ts:236-242 | once the mode class is stripped too, turning selection mode off changes no string |
| SelectionStore.Ids | frontend/src/hooks/useEditor.ts:318 | `Array.from(map.keys())` lists each entry's id, in map order |
| SelectionStore.Get | frontend/src/hooks/useEditor.ts:221 | `map.get(id)` finds an entry exactly when the id is present, and that entry has the id |
| SelectionStore.Put | frontend/src/hooks/useEditor.ts:233 | `map.set`: a new id is appended at the end; a present id keeps its place |
| SelectionStore.Delete | frontend/src/hooks/useEditor.ts:225 | `map.delete(id)`: the id is gone and exactly the other entries stay |
| SelectionStore.PutGet | frontend/src/hooks/useEditor.ts:233 | after `set`, ids stay distinct, the id maps to the new entry and every other id keeps its entry |
| SelectionStore.DeleteGet | frontend/src/hooks/useEditor.ts:225 | after `delete`, ids stay distinct, the id maps to nothing and every other id keeps its entry |
| SelectionStore.PutMembers | frontend/src/hooks/useEditor.ts:233 | `set` brings in no entry but the new one |
| SelectionStore.PutThenDelete | frontend/src/hooks/useEditor.ts:225-233 | setting an absent id and deleting it gives back the same map, order included |
| SelectionStore.DeleteThenPut | frontend/src/hooks/useEditor.ts:225-233 | deleting a present id and setting it again keeps the key set and moves that id to the end |
| SelectionStore.IdsFiltered | frontend/src/hooks/useEditor.ts:225 | the keys after `delete` are the old keys without that id |
| SelectionStore.PutIds | frontend/src/hooks/useEditor.ts:233 | the keys after `set` are the old keys and the new id |
| SelectionStore.ConsDistinct | frontend/src/hooks/useEditor.ts:151 | an entry with a new id keeps the ids distinct |
| Annotator.Positioned | frontend/src/hooks/useEditor.ts:82-87 | a statically positioned element gets `editor-selected-badged`; any other keeps its classes; nothing else changes |
| Annotator.WithBadge | frontend/src/hooks/useEditor.ts:89-96 | `addBadge`: positioned first, then a fresh badge carrying the id as the element's last child |
| Annotator.WithoutBadgeAsWritten | frontend/src/hooks/useEditor.ts:98-102 | `removeBadge` as written: the first badge anywhere below goes, and the element loses the badged class |
| Annotator.WithoutBadge | frontend/src/hooks/useEditor.ts:98-102 | `removeBadge` as intended: the element's own badge goes, and the element loses the badged class |
| Annotator.BadgeSwept | frontend/src/hooks/useEditor.ts:106-111 | one turn of `clearBadges`: the badge is out of the page, no other node moves, no attribute and no other class changes |
| Annotator.BadgeSweptClasses | frontend/src/hooks/useEditor.ts:106-111 | a sweep turn changes no class but the badged class |
| Annotator.BadgesCleared | frontend/src/hooks/useEditor.ts:104-113 | the whole `clearBadges` loop keeps the page well formed with the same nodes |
| Annotator.BadgesClearedDetached | frontend/src/hooks/useEditor.ts:104-113 | after `clearBadges` every badge found up front is out of the page and no other node moved |
| Annotator.BadgesClearedClasses | frontend/src/hooks/useEditor.ts:104-113 | `clearBadges` takes away the badged class and no other |
| Annotator.BadgeSweptInvisible | frontend/src/hooks/useEditor.ts:106-111 | for any stripped class set holding the source's three marker classes, a sweep turn changes no canonical string |
| Annotator.BadgesClearedInvisible | frontend/src/hooks/useEditor.ts:104-113 | for any stripped class set holding the source's three marker classes, `clearBadges` changes no canonical string and no attribute |
| Annotator.ClassRemovedFrom | frontend/src/hooks/useEditor.ts:212-215 | the `forEach` class removal keeps the page well formed with the same nodes |
| Annotator.ClassRemovedFromEffect | frontend/src/hooks/useEditor.ts:212-215 | after it, no listed element carries the class, other elements are unchanged, and children and attributes are unchanged everywhere |
| Annotator.ClassRemovedFromCleared | frontend/src/hooks/useEditor.ts:212-215 | no listed element carries the class afterwards |
| Annotator.ClassRemovedFromFrame | frontend/src/hooks/useEditor.ts:212-215 | unlisted elements, and all children and attributes, are unchanged |
| Annotator.ClassRemovedFromInvisible | frontend/src/hooks/useEditor.ts:212-215 | for any stripped class set holding the source's three marker classes, removing a marker class from a list of elements changes no string and moves nothing |
| Annotator.Swept | frontend/src/hooks/useEditor.ts:212-215 | `querySelectorAll('.c').forEach(remove c)` keeps the page well formed with the same nodes |
| Annotator.SweptEffect | frontend/src/hooks/useEditor.ts:212-215 | afterwards no element carries the class; elements without it, document order and badges are unchanged |
| Annotator.SweptInvisible | frontend/src/hooks/useEditor.ts:212-215 | for any stripped class set holding the source's three marker classes, sweeping a marker class changes no string and moves nothing |
| Annotator.Marked | frontend/src/hooks/useEditor.ts:230-232 | the page side of `#addSelection`: a fresh badge for the id |
| Annotator.Unmarked | frontend/src/hooks/useEditor.ts:220-224 | the page side of `#removeSelection`: the element no longer carries the badged class |
| Annotator.ClearedPage | frontend/src/hooks/useEditor.ts:211-218 | the page side of `#clearAllSelections` keeps the page well formed with the same nodes |
| Annotator.ClearedPageEffect | frontend/src/hooks/useEditor.ts:211-218 | after clearing, no element carries `editor-selected` and every badge is out of the page |
| Annotator.ClearedPageInvisible | frontend/src/hooks/useEditor.ts:211-218 | for any stripped class set holding the source's three marker classes, clearing changes no string; only badges change parent |
| Annotator.Hovered | frontend/src/hooks/useEditor.ts:356-367 | after a hover the target carries `editor-hover` |
| Annotator.HoveredUnique | frontend/src/hooks/useEditor.ts:361-366 | after a hover the target is the only element carrying `editor-hover` |
| Annotator.HoveredInvisible | frontend/src/hooks/useEditor.ts:356-367 | for any stripped class set holding the source's three marker classes, hovering changes no string and moves nothing |
| Annotator.MarkedInvisible | frontend/src/hooks/useEditor.ts:230-232 | for any stripped class set holding the source's three marker classes, selecting changes no element's string and moves nothing |
| Annotator.UnmarkedInvisible | frontend/src/hooks/useEditor.ts:220-224 | for any stripped class set holding the source's three marker classes, unselecting changes no string; only a badge changes parent |
| Annotator.WithBadgeInvisible | frontend/src/hooks/useEditor.ts:89-96 | for any stripped class set holding the source's three marker classes, `addBadge` changes no string and moves no existing node |
| Annotator.WithoutBadgeInvisible | frontend/src/hooks/useEditor.ts:98-102 | for any stripped class set holding the source's three marker classes, `removeBadge` changes no string; only the badge changes parent |
| Annotator.BadgeRoundTrip | frontend/src/hooks/useEditor.ts:89-102 | on an unbadged element, `removeBadge` after `addBadge` gives back every existing node unchanged |
| Annotator.FreshBadgeDetached | frontend/src/hooks/useEditor.ts:89-100 | detaching the badge just added restores the element's children and every other node |
| Annotator.BadgedTokenRoundTrip | frontend/src/hooks/useEditor.ts:85-101 | removing the badged class undoes `ensurePositionedForBadge` on the class list |
| Annotator.OwnBadgeOfFresh | frontend/src/hooks/useEditor.ts:89-96 | the badge just added is the element's own badge |
| Annotator.MarkedOwnBadge | frontend/src/hooks/useEditor.ts:220-234 | the badge `#addSelection` appends is the one `#removeSelection` finds |
| Annotator.SelectRoundTrip | frontend/src/hooks/useEditor.ts:220-234 | on an unmarked element, unselecting after selecting gives back every existing node unchanged |
| Annotator.NoBadgeBelowNoOwnBadge | frontend/src/hooks/useEditor.ts:98-100 | an element with no badge anywhere below it has none among its children |
| Annotator.FirstBadgeBelowFrame | frontend/src/hooks/useEditor.ts:99 | the `querySelector` lookup reads only children lists and attributes |
| Annotator.ClassesUnread | frontend/src/hooks/useEditor.ts:99 | adding or removing a class does not change which badge `querySelector` finds |
| Annotator.FreshBadgeFirstBelow | frontend/src/hooks/useEditor.ts:89-99 | on an element with no badge below it, the badge `addBadge` appends is the one `querySelector` finds |
| Annotator.BadgeRoundTripAsWritten | frontend/src/hooks/useEditor.ts:89-102 | on an element with no badge below it, `removeBadge` as written after `addBadge` gives the same page as the own-badge removal |
| Annotator.MarkedFirstBadge | frontend/src/hooks/useEditor.ts:220-234 | on an element with no badge below it, after `#addSelection` and the class removal, `querySelector` finds the badge just appended |
| Annotator.MarkedLookupsAgree | frontend/src/hooks/useEditor.ts:220-234 | on such an element both lookups find that badge |
| Annotator.SelectRoundTripAsWritten | frontend/src/hooks/useEditor.ts:220-234 | as written, on an unmarked element with no badge below it, unselecting after selecting gives the own-badge page and back every existing node unchanged |
| Annotator.TokensRoundTrip | frontend/src/hooks/useEditor.ts:220-234 | selecting then unselecting restores the class list exactly |
| Annotator.RemoveBadgeAsWrittenTakesChildBadge | frontend/src/hooks/useEditor.ts:98-102 | as written, on `body > div > p` with both badged, removing the div's badge takes the p's badge and leaves the div's |
| Annotator.RemoveBadgeTakesOwnBadge | frontend/src/hooks/useEditor.ts:98-102 | as intended, the same steps take the div's own badge and leave the p's |
| Annotator.Document.AddBadge | frontend/src/hooks/useEditor.ts:89-96 | the page becomes `WithBadge`; the returned badge is new, carries the id and is the element's last child |
| Annotator.Document.SweepClass | frontend/src/hooks/useEditor.ts:212-215 | the page becomes `Swept`; no element carries the class afterwards |
| Annotator.Document.RemoveBadge | frontend/src/hooks/useEditor.ts:98-102 | the page becomes `WithoutBadge` |
| Annotator.Document.ClearBadges | frontend/src/hooks/useEditor.ts:104-113 | the loop over the badges found up front gives `BadgesCleared`; every one of them is out of the page |
| Editor.Sent | frontend/src/hooks/useEditor.ts:139-145 | `#toParent` posts nothing while `parentOrigin` is unset, and otherwise the one message to that origin |
| Editor.LowerAscii | frontend/src/hooks/useEditor.ts:315 | `toLowerCase` on ASCII: same length, no upper-case letter left, every other character kept and each upper-case letter moved to its lower-case one |
| Editor.LowerAsciiIdempotent | frontend/src/hooks/useEditor.ts:315 | lower-casing twice is lower-casing once |
| Editor.Summaries | frontend/src/hooks/useEditor.ts:313-317 | `selectedElements` of a click report: id, lower-cased tag name and string of each entry, in map order |
| Editor.RebuiltSummaries | frontend/src/hooks/useEditor.ts:394-397 | `selectedElements` of a rebuild report: id and string of each entry, in map order |
| Editor.Deselected | frontend/src/hooks/useEditor.ts:220-228 | `#removeSelection`: the id is gone and exactly the other entries stay; an absent id changes nothing at all |
| Editor.Selected | frontend/src/hooks/useEditor.ts:230-234 | `#addSelection`: the page gains the badge and the map has the id |
| Editor.SelectedConsistent | frontend/src/hooks/useEditor.ts:230-234 | adding an entry keeps ids distinct, entries on the page and each id the hash of its string |
| Editor.Clicked | frontend/src/hooks/useEditor.ts:301-311 | for any stripped class set, a click toggles the clicked element's id: present afterwards exactly when absent before |
| Editor.MarkingKeepsIds | frontend/src/hooks/useEditor.ts:230-232 | for any stripped class set holding the source's marker classes, selecting an element changes the id of no element |
| Editor.ClickTwiceRestores | frontend/src/hooks/useEditor.ts:301-311 | clicking the same unselected, unbadged element twice gives back the same map, order included, and every existing node |
| Editor.ClickTwiceStore | frontend/src/hooks/useEditor.ts:301-311 | on any page, clicking twice on an element whose id was not selected gives back the same map, order included |
| Editor.UnmarkingKeepsIds | frontend/src/hooks/useEditor.ts:220-224 | unselecting changes the id of no element that is neither a badge nor inside one (badges are `pointer-events: none`, :196) |
| Editor.ClickTwiceReselects | frontend/src/hooks/useEditor.ts:301-311 | clicking twice on an element whose id was selected drops the entry and sets it again for this element at the end of the map; the key set is the same |
| Editor.Wanted | frontend/src/hooks/useEditor.ts:381 | `new Set(ids)` holds exactly the listed ids |
| Editor.Rescan | frontend/src/hooks/useEditor.ts:384-392 | for any stripped class set, the `forEach` of a rebuild only adds nodes to the page |
| Editor.RescanKeepsContent | frontend/src/hooks/useEditor.ts:384-392 | for any stripped class set holding the source's marker classes, the marks a rebuild adds change no string and move no node |
| Editor.RescanInvisible | frontend/src/hooks/useEditor.ts:384-392 | for any stripped class set holding the source's marker classes, part-way through a rebuild every element still has the id it had before |
| Editor.RescanSound | frontend/src/hooks/useEditor.ts:384-392 | for any stripped class set, after the scan, ids are distinct, every entry is a scanned element whose id is wanted and is the hash of its string, and `matched` holds exactly the map's ids |
| Editor.RescanComplete | frontend/src/hooks/useEditor.ts:384-392 | for any stripped class set, every scanned element whose id is wanted has its id in the map |
| Editor.RebuiltSelectsListed | frontend/src/hooks/useEditor.ts:376-415 | after a rebuild, ids are distinct, each is listed and is its string's hash, every page element with a listed id is selected, and the state is selection mode exactly when something matched |
| Editor.AckFirst | frontend/src/hooks/useEditor.ts:426-458 | for an accepted message the ack comes right after the old log, and no later message of that request is another ack or an error |
| Editor.EditCommunicator.constructor | frontend/src/hooks/useEditor.ts:417-464 | a new editor is `ready` with an empty map, no parent origin, no messages and the mode class off the body |
| Editor.EditCommunicator.ToParent | frontend/src/hooks/useEditor.ts:139-145 | the log grows by `Sent(parentOrigin, m)`; messages still go only to allowed origins |
| Editor.EditCommunicator.ToggleCrosshairCursor | frontend/src/hooks/useEditor.ts:236-242 | the mode class is added to or removed from the body |
| Editor.EditCommunicator.ClearAllSelections | frontend/src/hooks/useEditor.ts:211-218 | the map is empty and the page is `ClearedPage` of the old page |
| Editor.EditCommunicator.RemoveSelection | frontend/src/hooks/useEditor.ts:220-228 | page and map become `Deselected` |
| Editor.EditCommunicator.AddSelection | frontend/src/hooks/useEditor.ts:230-234 | page and map become `Selected` |
| Editor.EditCommunicator.ToggleSelection | frontend/src/hooks/useEditor.ts:304-311 | the string and id are those of the target before the toggle; page and map become `Clicked` |
| Editor.EditCommunicator.HandleClickElementSelection | frontend/src/hooks/useEditor.ts:301-329 | page and map become `Clicked`; one `element-selection` report goes out with the new map's summaries and keys, the clicked id and its string |
| Editor.EditCommunicator.OnClick | frontend/src/hooks/useEditor.ts:331-340 | outside selection mode a click changes nothing; in it, page and map become `Clicked` |
| Editor.EditCommunicator.HandleMouseOver | frontend/src/hooks/useEditor.ts:356-367 | in selection mode the page becomes `Hovered`; otherwise it is unchanged |
| Editor.EditCommunicator.HandleMouseOut | frontend/src/hooks/useEditor.ts:369-374 | in selection mode the target loses `editor-hover`; otherwise nothing changes |
| Editor.EditCommunicator.RebuildSelection | frontend/src/hooks/useEditor.ts:376-415 | the new page, map, state and log satisfy `Rebuilt`; `matched` is empty for an empty list and otherwise the scan's matches |
| Editor.EditCommunicator.RescanAndReport | frontend/src/hooks/useEditor.ts:384-414 | from a cleared page, the outcome is `RescannedFrom` the list and `matched` is the scan's matches |
| Editor.EditCommunicator.ReportRebuilt | frontend/src/hooks/useEditor.ts:394-412 | when the map is not empty: selection mode, cursor on, a status; then the `selection-rebuilt` report in every case |
| Editor.EditCommunicator.SelectMatching | frontend/src/hooks/useEditor.ts:385-392 | the `forEach` leaves page, map and `matched` equal to `Rescan` |
| Editor.EditCommunicator.EnterState | frontend/src/hooks/useEditor.ts:433-435 | state, cursor and one status message for the new state; the map is unchanged |
| Editor.EditCommunicator.OnReady | frontend/src/hooks/useEditor.ts:431-436 | `ready` clears, sets state `ready`, turns the cursor off and reports the status |
| Editor.EditCommunicator.OnToolElementSelection | frontend/src/hooks/useEditor.ts:437-442 | `tool-element-selection` clears, sets selection mode, turns the cursor on and reports the status |
| Editor.EditCommunicator.OnClearSelection | frontend/src/hooks/useEditor.ts:443-446 | `clear-selection` reports its status, then clears; the state is kept |
| Editor.EditCommunicator.OnRemoveSelection | frontend/src/hooks/useEditor.ts:447-452 | with a non-empty id: a status, then `Deselected`; a missing or empty id changes nothing |
| Editor.EditCommunicator.OnMessage | frontend/src/hooks/useEditor.ts:421-459 | a disallowed origin gets at most one error, to the old origin, and nothing else changes; an allowed origin becomes `parentOrigin`; with `null` data nothing else happens, otherwise the ack is logged, then the request is `Handled` |
| Editor.EditCommunicator.Dispatch | frontend/src/hooks/useEditor.ts:430-457 | each request kind does what `Handled` states: a missing `ids` array counts as `[]`, an unknown type does nothing |
| Editor.EditorModule.InitEditor | frontend/src/hooks/useEditor.ts:467-474 | the first call creates a `ready` editor; every later call returns that same editor and leaves the page alone |
| GameRules.PlayerHitbox | frontend/src/pages/Game.tsx:395-400 | the player's box is padded on every side, with the ground offset also off the bottom |
| GameRules.ItemHitbox | frontend/src/pages/Game.tsx:403-408 | a cactus or coin box is padded on every side |
| GameRules.CollisionIffCommonPoint | frontend/src/pages/Game.tsx:392-416 | for boxes of positive size, `checkCollision` holds exactly when some point lies strictly inside both hit boxes |
| GameRules.CoinCollisionIffCommonPoint | frontend/src/pages/Game.tsx:418-442 | for boxes of positive size, `checkCoinCollision` holds exactly when some point lies strictly inside both hit boxes |
| GameRules.OverlapIffCommonPoint | frontend/src/pages/Game.tsx:410-415 | the four-comparison test is strict overlap: a common interior point, for boxes of positive size |
| GameRules.OverlapSymmetric | frontend/src/pages/Game.tsx:410-415 | the test does not depend on which box comes first |
| GameRules.TouchingIsNoOverlap | frontend/src/pages/Game.tsx:410-415 | boxes that only share an edge do not collide |
| GameRules.Score | frontend/src/pages/Game.tsx:695 | the score is ten per coin plus the frames divided by ten, rounded down |
| GameRules.ScoreMonotone | frontend/src/pages/Game.tsx:695 | the score never falls when either counter grows |
| GameRules.ScoreSteps | frontend/src/pages/Game.tsx:747 | ten more frames are one point; one more coin is ten points |
| GameRules.Insert | frontend/src/pages/Game.tsx:844 | insertion adds exactly the one row |
| GameRules.InsertSorted | frontend/src/pages/Game.tsx:844 | inserting into a list sorted by score, highest first, keeps it sorted |
| GameRules.SortByScore | frontend/src/pages/Game.tsx:843-844 | the sort by `b[1] - a[1]` gives a permutation sorted by score, highest first |
| GameRules.WithScore | frontend/src/pages/Game.tsx:844 | the rows of one score are rows of the list |
| GameRules.InsertStable | frontend/src/pages/Game.tsx:844 | an inserted row goes after the rows of its own score already there |
| GameRules.InsertAhead | frontend/src/pages/Game.tsx:844 | a row scoring above every row of a sorted list still comes after the rows of its own score, as there are none |
| GameRules.InsertBehindHead | frontend/src/pages/Game.tsx:844 | a row that stays behind the head keeps the stable order of the tail |
| GameRules.NoneWithScore | frontend/src/pages/Game.tsx:844 | a sorted list whose top is below k has no row of score k |
| GameRules.SortStable | frontend/src/pages/Game.tsx:844 | the sort is stable: rows of one score keep their order |
| GameRules.TopScoresAreTheTop | frontend/src/pages/Game.tsx:843-845 | `topScores` holds min(n, 5) rows of the fetched list, sorted, and no row left out beats any row shown |
| GameRules.SortedSplit | frontend/src/pages/Game.tsx:845 | cutting a sorted list keeps the head sorted, and no row of the tail outscores a row of the head |
| GameRules.TrimStart | frontend/src/pages/Game.tsx:746 | the leading part removed is all white space and the result does not start with white space |
| GameRules.TrimEnd | frontend/src/pages/Game.tsx:746 | the trailing part removed is all white space and the result does not end with white space |
| GameRules.TrimIsCore | frontend/src/pages/Game.tsx:746-749 | `trim()` is a slice of the name with only white space around it, and neither of its ends is white space |
| GameRules.TrimEndsNotSpace | frontend/src/pages/Game.tsx:749 | the submitted name neither starts nor ends with white space |
| GameRules.TrimSlices | frontend/src/pages/Game.tsx:749 | where the trimmed name sits in the typed name |
| GameRules.TrimEmptyIffSpace | frontend/src/pages/Game.tsx:746 | a name trims to nothing exactly when it is all white space |
| GameRules.TrimIdempotent | frontend/src/pages/Game.tsx:749 | trimming a trimmed name changes nothing |
| Game.Jumped | frontend/src/pages/Game.tsx:377-390 | the player changes only when a jump is allowed, and then gets the jump velocity and `isJumping`; position and size never change |
| Game.Fall | frontend/src/pages/Game.tsx:563-573 | after the physics step the player is not below the ground line; on the line, velocity 0 and not jumping; above it, moved by the velocity plus gravity |
| Game.Animated | frontend/src/pages/Game.tsx:575-579 | every eighth frame the counter restarts and the sprite flips; otherwise the sprite stays |
| Game.CoinLanes | frontend/src/pages/Game.tsx:485-489 | three lanes |
| Game.ObstaclesAfterSpawn | frontend/src/pages/Game.tsx:464-476 | a cactus at the right edge is appended exactly when the list is empty or the last one is more than 400 left of it; two spawned in a row are over 400 apart |
| Game.CoinsAfterSpawn | frontend/src/pages/Game.tsx:478-499 | a coin at the right edge is appended exactly when the list is empty or the last one is more than 250 left of it; two spawned in a row are over 250 apart |
| Game.KeepIf | frontend/src/pages/Game.tsx:626-628 | the backward `splice` loop never adds items |
| Game.KeptAt | frontend/src/pages/Game.tsx:626-628 | one position per kept item |
| Game.KeepIfKeepsOrder | frontend/src/pages/Game.tsx:626-628 | the kept items are accepted items at strictly increasing positions, and no accepted item is lost |
| Game.KeptAtSound | frontend/src/pages/Game.tsx:626-628 | each kept item is the accepted item at its position |
| Game.KeptAtIncreasing | frontend/src/pages/Game.tsx:626-628 | kept positions increase: the order is kept |
| Game.KeptAtComplete | frontend/src/pages/Game.tsx:626-628 | every accepted item is kept |
| Game.CoinStep | frontend/src/pages/Game.tsx:602-624 | a collected coin stays as it is and is never counted; an uncollected coin is counted exactly when it hits the player after moving, and is then marked collected |
| Game.AdvancedCoins | frontend/src/pages/Game.tsx:601-624 | the pass keeps one coin per coin |
| Game.NewlyCollected | frontend/src/pages/Game.tsx:617-619 | a pass counts at most one coin per coin |
| Game.CoinPassStep | frontend/src/pages/Game.tsx:601-629 | the pass over the coins from i on is coin i's step followed by the pass over the rest |
| Game.Uncollected | frontend/src/pages/Game.tsx:604 | the uncollected coins are at most all the coins |
| Game.AdvancedObstacles | frontend/src/pages/Game.tsx:632-634 | one moved obstacle per obstacle |
| Game.ObstaclePassStep | frontend/src/pages/Game.tsx:632-652 | the pass over the obstacles from i on is obstacle i's move followed by the pass over the rest |
| Game.HitBelow | frontend/src/pages/Game.tsx:632-652 | the highest index below n whose moved cactus hits, with none between it and n; none when nothing below n hits |
| Game.LastHit | frontend/src/pages/Game.tsx:632-652 | the backward loop stops at the last index that hits; none when nothing hits |
| Game.LastHitIsFirstFromTheBack | frontend/src/pages/Game.tsx:632-652 | a hit with no hit after it is where the loop stops |
| Game.LastHitNone | frontend/src/pages/Game.tsx:632-652 | with no hit at all the loop runs to the end |
| Game.ObstaclesPass | frontend/src/pages/Game.tsx:631-657 | the pass reports a hit exactly when some moved cactus hits the player |
| Game.GamePage.constructor | frontend/src/pages/Game.tsx:76-94 | the refs' initial values: menu, the player at the start column, nothing on the field, all counters zero |
| Game.GamePage.Jump | frontend/src/pages/Game.tsx:377-390 | the player becomes `Jumped` |
| Game.GamePage.SpawnObstacle | frontend/src/pages/Game.tsx:464-476 | the obstacles become `ObstaclesAfterSpawn` |
| Game.GamePage.SpawnCoin | frontend/src/pages/Game.tsx:478-499 | the coins become `CoinsAfterSpawn` for the lane drawn |
| Game.GamePage.UpdateCoins | frontend/src/pages/Game.tsx:600-629 | the backward loop leaves the moved coins still on the canvas, in order, and adds the coins it counted to `coinsCollected` |
| Game.GamePage.UpdateObstacles | frontend/src/pages/Game.tsx:631-657 | the backward loop with its early return leaves the obstacles and the hit flag `ObstaclesPass` gives |
| Game.GamePage.ApplyGravity | frontend/src/pages/Game.tsx:563-573 | the player becomes `Fall` onto the ground line |
| Game.GamePage.AdvanceSprite | frontend/src/pages/Game.tsx:575-579 | the sprite counters become `Animated` |
| Game.GamePage.AdvanceFrame | frontend/src/pages/Game.tsx:563-598 | physics, sprite and frame counter, then the spawns on every 120th and 90th frame |
| Game.GamePage.GameLoop | frontend/src/pages/Game.tsx:501-704 | one frame takes the refs to `Tick` of the old refs; the canvas, the typed name and the submissions are unchanged |
| Game.GamePage.ResetRun | frontend/src/pages/Game.tsx:717-737 | the refs become `Started`: playing, counters and lists reset, the player standing at the start column |
| Game.GamePage.StartGame | frontend/src/pages/Game.tsx:706-743 | without a canvas nothing changes; otherwise the reset, then the first frame |
| Game.GamePage.HandleSubmitScore | frontend/src/pages/Game.tsx:745-755 | a name that is not blank is submitted trimmed with the final score, then the dialog closes and the name clears; a blank name changes nothing |
| Game.GamePage.OnTap | frontend/src/pages/Game.tsx:782-793 | a click or touch jumps while playing; otherwise the player is unchanged |
| Game.GamePage.OnSpaceKey | frontend/src/pages/Game.tsx:758-768 | in the menu the space bar starts the game, or changes nothing while there is no canvas; otherwise it jumps |
| Game.TickKeepsPlayerAboveGround | frontend/src/pages/Game.tsx:563-573 | after a frame the player is not below the ground line, and on the line has stopped and is not jumping |
| Game.JumpThenRise | frontend/src/pages/Game.tsx:377-390 | a take-off from the ground rises 11.4 in the next frame and is still in the air |
| Game.TickScoreGrows | frontend/src/pages/Game.tsx:682-695 | a frame raises the frame counter by at most one, never lowers the coin count, and never lowers the shown score |
| Game.CoinsCountedOnce | frontend/src/pages/Game.tsx:600-629 | the coins a pass counts, plus the uncollected coins left, are at most the uncollected coins before: no coin is counted twice |
| Game.SpawnAddsOneCoin | frontend/src/pages/Game.tsx:478-499 | a spawn adds at most one uncollected coin |
| Game.SpawnedCoins | frontend/src/pages/Game.tsx:592-598 | the spawners of a frame count no coin and add at most one uncollected coin |
| Game.CoinsMovedCounts | frontend/src/pages/Game.tsx:600-629 | the coin pass of a frame moves coins from uncollected to counted without counting one twice |
| Game.UncollectedAppend | frontend/src/pages/Game.tsx:604 | uncollected coins add up over a split list |
| Game.TickCountsCoinsOnce | frontend/src/pages/Game.tsx:592-629 | over a frame, `coinsCollected` plus the uncollected coins grows by at most one, the one coin a spawn may add |
| Game.TickEndsGameOnHit | frontend/src/pages/Game.tsx:631-685 | the game ends exactly when a moved cactus hits the fallen player; then the score stands still, the name dialog opens and later frames change nothing; otherwise the frame counter grows by one |
| Game.StartThenFirstFrame | frontend/src/pages/Game.tsx:706-743 | after a start and its first frame: playing, frame counter 1, score shown 0, no obstacles or coins, speed 4 plus one increment, the player standing at the start column |
| Game.SubmittedNameNotBlank | frontend/src/pages/Game.tsx:746 | a score is submitted exactly when the name is not all white space |

## Left out

- CSS injection (`#injectEditorStyles`, frontend/src/hooks/useEditor.ts:156-209) is not modelled: it only adds a `<style>` element to `<head>`, which is outside the body the canonical strings are built from.
- `getComputedStyle(el).position === 'static'` in `ensurePositionedForBadge` is read from an element field, `staticPosition`, because the stylesheet is not part of this model.
- The `postMessage` transport and `addEventListener` wiring are not modelled. Posting appends to `outbox`. Every listener is an explicit method: `OnMessage`, `OnClick`, `HandleMouseOver` and `HandleMouseOut`. Re-adding the hover listeners in `#setupElementHoverListeners` has no effect on state, so it is not modelled.
- OuterHtml (`Dom.OuterHtml`) is an abstract deterministic serialiser, not byte-level `outerHTML` with HTML escaping.
- Element.text (`Dom.Element.text`, with `Dom.CloneTree` and `Dom.OuterHtml`): an element's own text is one string, written before its child elements. Text after or between child elements cannot be represented, so the model covers only pages where each element's text comes before its child elements. On other pages `<div>a<p></p>b</div>` and `<div>ab<p></p></div>` get the same string here, but not in the browser.
- Classes are a token list. `classList.remove` leaves `class=""` on an element that had no class attribute, and the model does not capture that. So "selection does not change the id" is proved at the class-list level only.
- EditCommunicator (`Editor.EditCommunicator`): the model strips `editor-element-selection-mode` as well as the source's three classes (see Findings). The as-written behaviour is kept in `Canonical.SelectionModeChangesStrings`.
- RemoveBadge (`Annotator.Document.RemoveBadge`) removes the element's own badge (see Findings). The as-written `querySelector` behaviour is `Annotator.WithoutBadgeAsWritten`.
- Unmarked (`Annotator.Unmarked`) uses the own-badge removal (see Findings). `Annotator.SelectRoundTripAsWritten` shows the `querySelector` removal gives the same page when no badge lies below the element.
- UnmarkedInvisible (`Annotator.UnmarkedInvisible`) is stated for the own-badge removal. The `querySelector` removal also detaches only a badge, but that is not proved.
- BadgeRoundTrip (`Annotator.BadgeRoundTrip`) is stated for the own-badge removal. `Annotator.BadgeRoundTripAsWritten` covers the as-written removal when no badge lies below the element.
- MarkedOwnBadge (`Annotator.MarkedOwnBadge`) is stated for the own-badge lookup. `Annotator.MarkedLookupsAgree` gives the as-written lookup when no badge lies below the element.
- SelectRoundTrip (`Annotator.SelectRoundTrip`) is stated for the own-badge removal. `Annotator.SelectRoundTripAsWritten` is the as-written version, for elements with no badge below them.
- Deselected (`Editor.Deselected`) unselects with the own-badge removal (see Findings).
- Clicked (`Editor.Clicked`) unselects with the own-badge removal (see Findings).
- Summaries (`Editor.Summaries`): `toLowerCase` is modelled on ASCII letters only. Tag names are ASCII in HTML.
- CodeUnits (`ContentIdentity.CodeUnits`): a Dafny string holds Unicode scalar values only, so a string with a lone surrogate cannot be modelled.
- HashDomTreeString (`ContentIdentity.HashDomTreeString`) hashes strings of Unicode scalar values only, for the same reason.
- AllElements (`Dom.AllElements`) is `Preorder` from the document root and has the same gap: that it lists every element of the page, as `querySelectorAll('*')` does, is not stated. So `Editor.RebuiltSelectsListed` speaks of the elements the walk lists.
- Preorder (`Dom.Preorder`): that every node below the root is listed is not stated. `Dom.WellFormed` links each child to its parent, but does not require a parent to list every node that names it as parent.
- `Array.isArray(ids)` on an untyped payload is represented by `ids: Option<seq<string>>`. The elements of a JavaScript array are not checked to be strings.
- Game.tsx canvas drawing, sprite and image loading, Web Audio, particles (`Math.random`, `cos`, `sin`), background offsets, fullscreen and orientation handling, resize handlers and JSX markup are not modelled.
- `requestAnimationFrame` scheduling and `cancelAnimationFrame` are not modelled. `GameLoop` is one frame.
- `await enterFullscreen()` and the audio resume in `startGame` are not modelled. `StartGame` runs the resets and then the first frame.
- Game positions and speeds are `real`s, not IEEE doubles. `SPEED_INCREMENT` is added exactly, and rounding is not modelled.
- The random coin lane (`Math.floor(Math.random() * 3)`) is a parameter `lane < 3`.
- The React state mirrors (`setScore`, `setGameState` and the others) are not modelled. `FinalScore` of the refs is the value they would show.
- TopScores (`GameRules.TopScores`) is a value computed from the fetched rows. `.sort` also reorders the react-query cache array in place, and that aliasing is not modelled. Scores are unbounded integers, so the `Number(bigint)` precision loss above 2^53 is not modelled.
- SortByScore (`GameRules.SortByScore`) is an insertion sort. The browser's sort algorithm is not specified, but it must be stable, and the model proves stability, so the results agree.
- The name dialog's cancel button and the backend's `submitScore` call are not modelled. Submissions are collected in `GamePage.submitted`.
- `GameLoop`'s sections are separate methods: `ApplyGravity`, `AdvanceSprite`, `AdvanceFrame`, `UpdateCoins` and `UpdateObstacles`. `StartGame`'s resets are `ResetRun`. Each is proved against a function on the `World` snapshot.

## Findings

| source | as written | input that shows it | evidently intended | confidence | as-written member | corrected member |
|---|---|---|---|---|---|---|
| frontend/src/hooks/useEditor.ts:289-299 | `#removeArtificialElements` strips `editor-selected`, `editor-selected-badged` and `editor-hover`, but not `editor-element-selection-mode`, which `#toggleCrosshairCursor` (:236-242) puts on the body; every id therefore hashes the body's mode class | a page whose body has no class: an element's id in `ready` state differs from its id in selection mode, so a `rebuild-selection` received while in `ready` cannot match ids captured in selection mode | ids that do not depend on the editor's own mode class, like the other marker classes | not executed | Canonical.SelectionModeChangesStrings | Canonical.SelectionModeOnInvisible, Canonical.SelectionModeOffInvisible |
| frontend/src/hooks/useEditor.ts:98-102 | `removeBadge` removes the first badge found by `el.querySelector` at any depth below the element | `body > div > p`: select the `p`, then the `div`, then deselect the `div`; the `p`'s badge is removed and the `div`'s stays | remove the badge `addBadge` appended to the element itself | not executed | Annotator.RemoveBadgeAsWrittenTakesChildBadge | Annotator.RemoveBadgeTakesOwnBadge |
