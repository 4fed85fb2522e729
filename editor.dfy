/**
 * The `EditCommunicator` of frontend/src/hooks/useEditor.ts: the editor that
 * runs inside the generated app's page. It marks the elements the user
 * picks, names each one by the hash of its canonical string, keeps the
 * selection in an insertion-ordered map and reports to the parent frame
 * through `postMessage`.
 *
 * The page is a `Document` (module Annotator) changed in place; the
 * messages the editor posts are collected in `outbox`, in order.
 */
module Editor {
  import opened Options
  import opened Dom
  import opened ContentIdentity
  import opened Canonical
  import opened SelectionStore
  import opened Annotator

  /** The origins the parent frame may speak from. */
  const AllowedOrigins: seq<string> := ["http://localhost:3000", "https://dev.caffeine.ai", "https://caffeine.ai"]

  datatype EditorState = Initializing | Ready | ElementSelection {
    /** The `type` field, reported in `status` messages. */
    function Name(): string {
      match this
      case Initializing => "initializing"
      case Ready => "ready"
      case ElementSelection => "element-selection"
    }
  }

  /**
   * A message from the parent frame. `ids` is `None` when the payload holds
   * no array; `UnknownRequest` is any other `type`.
   */
  datatype Request =
    | ReadyRequest
    | ToolElementSelectionRequest
    | ClearSelectionRequest
    | RemoveSelectionRequest(element: Option<string>)
    | RebuildSelectionRequest(ids: Option<seq<string>>)
    | UnknownRequest(kind: string)

  datatype SelectedSummary = SelectedSummary(id: string, tagName: string, domTreeString: string)

  datatype RebuiltSummary = RebuiltSummary(id: string, domTreeString: string)

  /** A message to the parent frame. */
  datatype Report =
    | ElementSelectionReport(selectedElements: seq<SelectedSummary>, selectedElementIds: seq<string>, elementId: string, elementTree: string)
    | StatusReport(status: string)
    | AckReport(message: Request)
    | SelectionRebuiltReport(rebuiltElements: seq<RebuiltSummary>, rebuiltElementIds: seq<string>)
    | ErrorReport(msg: string)

  /** `parent.postMessage(message, targetOrigin)`. */
  datatype Posted = Posted(message: Report, targetOrigin: string)

  /** What `#toParent(m)` posts: nothing until an allowed origin has spoken. */
  function Sent(parentOrigin: Option<string>, m: Report): (ps: seq<Posted>)
    ensures |ps| <= 1 && forall p :: p in ps ==> p.message == m && Some(p.targetOrigin) == parentOrigin
  {
    match parentOrigin
    case None => []
    case Some(o) => [Posted(m, o)]
  }

  predicate IsUpperAscii(c: char) {
    'A' <= c <= 'Z'
  }

  /** `String.prototype.toLowerCase` on ASCII letters: each upper-case letter becomes its lower-case one. */
  function LowerAscii(s: string): (r: string)
    ensures |r| == |s|
    ensures forall i :: 0 <= i < |s| ==> !IsUpperAscii(r[i])
    ensures forall i :: 0 <= i < |s| ==> r[i] == s[i] || (IsUpperAscii(s[i]) && r[i] as int == s[i] as int + 32)
  {
    if s == [] then []
    else [if IsUpperAscii(s[0]) then (s[0] as int + 32) as char else s[0]] + LowerAscii(s[1..])
  }

  /** Lowering twice is lowering once. */
  lemma LowerAsciiIdempotent(s: string)
    ensures LowerAscii(LowerAscii(s)) == LowerAscii(s)
  {
  }

  /** The `selectedElements` of an `element-selection` message, in map order, with lower-cased tag names. */
  function Summaries(a: Arena, s: Store): (r: seq<SelectedSummary>)
    requires forall e :: e in s ==> e.element in a.nodes
    ensures |r| == |s|
    ensures forall i :: 0 <= i < |s| ==> r[i] == SelectedSummary(s[i].id, LowerAscii(a.nodes[s[i].element].tag), s[i].domTreeString)
  {
    if s == [] then [] else [SelectedSummary(s[0].id, LowerAscii(a.nodes[s[0].element].tag), s[0].domTreeString)] + Summaries(a, s[1..])
  }

  /** The `selectedElements` of a `selection-rebuilt` message, in map order. */
  function RebuiltSummaries(s: Store): (r: seq<RebuiltSummary>)
    ensures |r| == |s| && forall i :: 0 <= i < |s| ==> r[i] == RebuiltSummary(s[i].id, s[i].domTreeString)
  {
    if s == [] then [] else [RebuiltSummary(s[0].id, s[0].domTreeString)] + RebuiltSummaries(s[1..])
  }

  // ---------------------------------------------------------------- what a selection step does

  /** The page and the selection map together. */
  datatype Selection = Selection(page: Arena, store: Store)

  /** Every entry points at an element of the page. */
  ghost predicate Anchored(a: Arena, s: Store) {
    forall e {:trigger e in s} :: e in s ==> e.element in a.nodes
  }

  /** `#removeSelection(id)`: the entry's element loses its marks and the entry goes; an unknown id changes nothing. */
  function Deselected(a: Arena, s: Store, id: string): (r: Selection)
    requires WellFormed(a) && Anchored(a, s)
    ensures WellFormed(r.page) && r.page.nodes.Keys == a.nodes.Keys && r.page.body == a.body
    ensures !Has(r.store, id) && forall x :: x in r.store <==> x in s && x.id != id
    ensures !Has(s, id) ==> r == Selection(a, s)
  {
    match Get(s, id)
    case None => Selection(a, s)
    case Some(e) => Selection(Unmarked(a, e.element), Delete(s, id))
  }

  /** `#addSelection(id, target, domTreeString)`: the target is marked and the map sets the entry. */
  function Selected(a: Arena, s: Store, e: Entry): (r: Selection)
    requires WellFormed(a) && e.element in a.nodes
    ensures WellFormed(r.page) && r.page.nodes.Keys == a.nodes.Keys + {a.next} && r.page.body == a.body
    ensures Has(r.store, e.id)
  {
    PutIds(s, e);
    Selection(Marked(a, e.element, e.id), Put(s, e))
  }

  /** Selecting a consistent entry keeps the selection consistent with the page. */
  lemma SelectedConsistent(a: Arena, s: Store, e: Entry)
    requires WellFormed(a) && e.element in a.nodes && SelectionConsistent(a, s) && e.id == IdOf(e.domTreeString)
    ensures var r := Selected(a, s, e); SelectionConsistent(r.page, r.store)
  {
    var r := Selected(a, s, e);
    PutGet(s, e, e.id);
    PutMembers(s, e);
    forall x | x in r.store
      ensures x.element in r.page.nodes && x.id == IdOf(x.domTreeString)
    {
      assert x == e || x in s;
    }
  }

  /** The identifier a click on `target` computes. */
  function ClickedId(a: Arena, target: Ref, marks: set<string>): string
    requires WellFormed(a) && target in a.nodes
  {
    IdOf(TreeString(a, target, marks))
  }

  /** `#handleClickElementSelection`: the target's identifier toggles in the selection. */
  function Clicked(a: Arena, s: Store, target: Ref, marks: set<string>): (r: Selection)
    requires WellFormed(a) && target in a.nodes && Anchored(a, s)
    ensures Has(r.store, ClickedId(a, target, marks)) <==> !Has(s, ClickedId(a, target, marks))
  {
    var str := TreeString(a, target, marks);
    var id := IdOf(str);
    if Has(s, id) then Deselected(a, s, id) else Selected(a, s, Entry(id, target, str))
  }

  /** Marking an element changes the identifier of no element. */
  lemma MarkingKeepsIds(a: Arena, el: Ref, id: string, x: Ref, marks: set<string>)
    requires WellFormed(a) && a.body.Some? && el in a.nodes && x in a.nodes && SourceMarks <= marks
    ensures TreeString(Marked(a, el, id), x, marks) == TreeString(a, x, marks)
  {
    MarkedInvisible(a, el, id, marks);
    SamePathsWhenSameParents(a, Marked(a, el, id), x);
    TreeStringInvisible(a, Marked(a, el, id), x, marks);
  }

  /**
   * Clicking an element twice undoes the first click: when its identifier
   * was not selected and it carried no mark and no badge, the map is the
   * same map again, order included, and every element of the page is as it
   * was.
   */
  lemma ClickTwiceRestores(a: Arena, s: Store, target: Ref, marks: set<string>)
    requires WellFormed(a) && a.body.Some? && target in a.nodes && Anchored(a, s) && DistinctIds(s) && SourceMarks <= marks
    requires !Has(s, ClickedId(a, target, marks)) && OwnBadge(a, target).None?
    requires !HasClass(a, target, SelectedClass) && !HasClass(a, target, BadgedClass)
    ensures var r1 := Clicked(a, s, target, marks);
      Anchored(r1.page, r1.store) && target in r1.page.nodes &&
      var r2 := Clicked(r1.page, r1.store, target, marks);
      r2.store == s && forall x :: x in a.nodes ==> r2.page.nodes[x] == a.nodes[x]
  {
    var str := TreeString(a, target, marks);
    var e := Entry(IdOf(str), target, str);
    var r1 := Clicked(a, s, target, marks);
    assert r1 == Selected(a, s, e);
    MarkingKeepsIds(a, target, e.id, target, marks);
    PutGet(s, e, e.id);
    assert Get(r1.store, e.id) == Some(e);
    PutThenDelete(s, e);
    SelectRoundTrip(a, target, e.id);
  }

  /**
   * The selection half of clicking twice, whatever the page looked like:
   * when the identifier was not selected, the second click gives back the
   * same map, order included.
   */
  lemma ClickTwiceStore(a: Arena, s: Store, target: Ref, marks: set<string>)
    requires WellFormed(a) && a.body.Some? && target in a.nodes && Anchored(a, s) && SourceMarks <= marks
    requires !Has(s, ClickedId(a, target, marks))
    ensures var r1 := Clicked(a, s, target, marks);
      Anchored(r1.page, r1.store) && target in r1.page.nodes &&
      Clicked(r1.page, r1.store, target, marks).store == s
  {
    var str := TreeString(a, target, marks);
    var e := Entry(IdOf(str), target, str);
    var r1 := Clicked(a, s, target, marks);
    assert r1 == Selected(a, s, e);
    PutMembers(s, e);
    MarkingKeepsIds(a, target, e.id, target, marks);
    PutThenDelete(s, e);
  }

  /**
   * Unselecting an element changes the identifier of no element that is
   * neither a badge nor inside one (badges take no clicks: they are styled
   * `pointer-events: none`).
   */
  lemma UnmarkingKeepsIds(a: Arena, el: Ref, x: Ref, marks: set<string>)
    requires WellFormed(a) && a.body.Some? && el in a.nodes && x in a.nodes && SourceMarks <= marks
    requires forall y :: y in PathToBody(a, Some(x)) ==> !IsBadge(a, y)
    ensures TreeString(Unmarked(a, el), x, marks) == TreeString(a, x, marks)
  {
    UnmarkedInvisible(a, el, marks);
    PathsAgree(a, Unmarked(a, el), Some(x));
    TreeStringInvisible(a, Unmarked(a, el), x, marks);
  }

  /**
   * Clicking twice on an element whose identifier was already selected: the
   * first click drops the entry, the second sets it again for this element,
   * at the end of the map. The identifiers in the map are the same as
   * before.
   */
  lemma ClickTwiceReselects(a: Arena, s: Store, target: Ref, marks: set<string>)
    requires WellFormed(a) && a.body.Some? && target in a.nodes && Anchored(a, s) && SourceMarks <= marks
    requires forall y :: y in PathToBody(a, Some(target)) ==> !IsBadge(a, y)
    requires Has(s, ClickedId(a, target, marks))
    ensures var id := ClickedId(a, target, marks);
      var r1 := Clicked(a, s, target, marks);
      Anchored(r1.page, r1.store) && target in r1.page.nodes && !Has(r1.store, id) &&
      var r2 := Clicked(r1.page, r1.store, target, marks);
      && r2.store == Delete(s, id) + [Entry(id, target, TreeString(a, target, marks))]
      && forall k :: k in Ids(r2.store) <==> k in Ids(s)
  {
    var str := TreeString(a, target, marks);
    var id := IdOf(str);
    var r1 := Clicked(a, s, target, marks);
    assert r1 == Deselected(a, s, id);
    var prior := Get(s, id).value;
    assert r1.page == Unmarked(a, prior.element);
    UnmarkingKeepsIds(a, prior.element, target, marks);
    var e := Entry(id, target, str);
    assert Clicked(r1.page, r1.store, target, marks) == Selected(r1.page, r1.store, e);
    DeleteThenPut(s, e);
  }

  // ---------------------------------------------------------------- rebuilding a selection

  /** `new Set(ids)`. */
  function Wanted(ids: seq<string>): (w: set<string>)
    ensures forall k :: k in w <==> k in ids
  {
    set k | k in ids
  }

  /** Where `#rebuildSelection` stands after some of the page's elements. */
  datatype Scan = Scan(page: Arena, store: Store, matched: seq<string>)

  /**
   * `#rebuildSelection` over the elements `els` of the cleared page `a0`:
   * each element whose identifier is wanted is selected and its identifier
   * recorded. The identifiers are those of `a0`; the loop computes them on
   * the page as it goes, and `RescanInvisible` shows the two agree.
   */
  function Rescan(a0: Arena, els: seq<Ref>, wanted: set<string>, marks: set<string>): (r: Scan)
    requires WellFormed(a0) && a0.body.Some? && forall x :: x in els ==> x in a0.nodes
    ensures WellFormed(r.page) && r.page.body == a0.body && a0.nodes.Keys <= r.page.nodes.Keys
    decreases |els|
  {
    if els == [] then Scan(a0, [], [])
    else
      var prev := Rescan(a0, els[..|els| - 1], wanted, marks);
      var el := els[|els| - 1];
      var str := TreeString(a0, el, marks);
      var id := IdOf(str);
      if id in wanted then
        Scan(Marked(prev.page, el, id), Put(prev.store, Entry(id, el, str)), prev.matched + [id])
      else prev
  }

  /** The marks a rebuild adds change no canonical string and move no node. */
  lemma {:induction false} RescanKeepsContent(a0: Arena, els: seq<Ref>, wanted: set<string>, marks: set<string>)
    requires WellFormed(a0) && a0.body.Some? && (forall x :: x in els ==> x in a0.nodes) && SourceMarks <= marks
    ensures SameContent(a0, Rescan(a0, els, wanted, marks).page, marks) && SameParents(a0, Rescan(a0, els, wanted, marks).page)
    decreases |els|
  {
    if els == [] {
      SameContentReflexive(a0, marks);
    } else {
      var init := els[..|els| - 1];
      assert forall x :: x in init ==> x in els;
      RescanKeepsContent(a0, init, wanted, marks);
      var prev := Rescan(a0, init, wanted, marks);
      var el := els[|els| - 1];
      var id := IdOf(TreeString(a0, el, marks));
      if id in wanted {
        MarkedInvisible(prev.page, el, id, marks);
        SameContentTransitive(a0, prev.page, Marked(prev.page, el, id), marks);
      }
    }
  }

  /** The page a rebuild is part-way through gives every element the identifier it had before. */
  lemma RescanInvisible(a0: Arena, els: seq<Ref>, wanted: set<string>, x: Ref, marks: set<string>)
    requires WellFormed(a0) && a0.body.Some? && (forall y :: y in els ==> y in a0.nodes) && x in a0.nodes && SourceMarks <= marks
    ensures TreeString(Rescan(a0, els, wanted, marks).page, x, marks) == TreeString(a0, x, marks)
  {
    var r := Rescan(a0, els, wanted, marks);
    RescanKeepsContent(a0, els, wanted, marks);
    SamePathsWhenSameParents(a0, r.page, x);
    TreeStringInvisible(a0, r.page, x, marks);
  }

  /**
   * Everything a rebuild selects was asked for: each entry is an element of
   * the scan under its own identifier, that identifier is wanted, the
   * matched list and the map hold the same identifiers, and no identifier
   * occurs twice in the map.
   */
  lemma {:induction false} RescanSound(a0: Arena, els: seq<Ref>, wanted: set<string>, marks: set<string>)
    requires WellFormed(a0) && a0.body.Some? && forall x :: x in els ==> x in a0.nodes
    ensures var r := Rescan(a0, els, wanted, marks);
      && DistinctIds(r.store)
      && (forall e :: e in r.store ==>
            e.element in els && e.id in wanted && e.domTreeString == TreeString(a0, e.element, marks) && e.id == IdOf(e.domTreeString))
      && (forall k :: k in r.matched <==> k in Ids(r.store))
    decreases |els|
  {
    hide TreeString, Marked;
    if els != [] {
      var init := els[..|els| - 1];
      assert forall x :: x in init ==> x in els;
      RescanSound(a0, init, wanted, marks);
      var prev := Rescan(a0, init, wanted, marks);
      var el := els[|els| - 1];
      var str := TreeString(a0, el, marks);
      var e := Entry(IdOf(str), el, str);
      if e.id in wanted {
        PutGet(prev.store, e, e.id);
        PutMembers(prev.store, e);
        PutIds(prev.store, e);
      }
    }
  }

  /** Nothing wanted is missed: every scanned element whose identifier is wanted has it selected. */
  lemma {:induction false} RescanComplete(a0: Arena, els: seq<Ref>, wanted: set<string>, marks: set<string>)
    requires WellFormed(a0) && a0.body.Some? && forall x :: x in els ==> x in a0.nodes
    ensures forall x :: x in els && IdOf(TreeString(a0, x, marks)) in wanted ==>
      Has(Rescan(a0, els, wanted, marks).store, IdOf(TreeString(a0, x, marks)))
    decreases |els|
  {
    hide TreeString, Marked;
    if els != [] {
      var init := els[..|els| - 1];
      var el := els[|els| - 1];
      assert els == init + [el];
      RescanComplete(a0, init, wanted, marks);
      var prev := Rescan(a0, init, wanted, marks);
      var str := TreeString(a0, el, marks);
      var e := Entry(IdOf(str), el, str);
      if e.id in wanted {
        assert Rescan(a0, els, wanted, marks).store == Put(prev.store, e);
        PutIds(prev.store, e);
      } else {
        assert Rescan(a0, els, wanted, marks) == prev;
      }
    }
  }

  /** The rebuild's prefix one element longer is one more loop turn. */
  lemma RescanStep(a0: Arena, els: seq<Ref>, wanted: set<string>, i: nat, marks: set<string>)
    requires WellFormed(a0) && a0.body.Some? && (forall x :: x in els ==> x in a0.nodes) && i < |els|
    ensures var prev := Rescan(a0, els[..i], wanted, marks);
      var str := TreeString(a0, els[i], marks);
      Rescan(a0, els[..i + 1], wanted, marks) ==
        if IdOf(str) in wanted then Scan(Marked(prev.page, els[i], IdOf(str)), Put(prev.store, Entry(IdOf(str), els[i], str)), prev.matched + [IdOf(str)])
        else prev
  {
    assert els[..i + 1][..i] == els[..i];
  }

  // ---------------------------------------------------------------- the editor

  /**
   * The selection map's entries are elements of the page, keyed by the
   * identifier of the string stored with them, with no key twice.
   */
  ghost predicate SelectionConsistent(a: Arena, s: Store) {
    && DistinctIds(s)
    && Anchored(a, s)
    && (forall e {:trigger e in s} :: e in s ==> e.id == IdOf(e.domTreeString))
  }

  /** The parent's origin is an allowed one, and every message posted so far went to an allowed origin. */
  ghost predicate ChannelConsistent(parentOrigin: Option<string>, outbox: seq<Posted>) {
    && (parentOrigin.Some? ==> parentOrigin.value in AllowedOrigins)
    && (forall p {:trigger p in outbox} :: p in outbox ==> p.targetOrigin in AllowedOrigins)
  }

  /**
   * What `#rebuildSelection(list)` does, with page `a0`, state `st0` and
   * messages `out0` before and `a`, `s`, `st`, `out` after: everything is
   * cleared, then the elements whose identifiers are listed are selected in
   * document order; when one matched, selection mode and its status follow,
   * and the rebuilt selection is reported in every case but the empty list.
   */
  ghost predicate Rebuilt(list: seq<string>, a0: Arena, st0: EditorState, out0: seq<Posted>,
                          a: Arena, s: Store, st: EditorState, out: seq<Posted>, parentOrigin: Option<string>)
    requires WellFormed(a0) && a0.body.Some?
  {
    if |list| == 0 then
      s == [] && a == ClearedPage(a0) && st == st0 && out == out0
    else
      RescannedFrom(list, ClearedPage(a0), st0, out0, a, s, st, out, parentOrigin)
  }

  /**
   * The part of `#rebuildSelection(list)` after the clearing, for a
   * non-empty list, from the cleared page `a1`.
   */
  ghost predicate RescannedFrom(list: seq<string>, a1: Arena, st0: EditorState, out0: seq<Posted>,
                                a: Arena, s: Store, st: EditorState, out: seq<Posted>, parentOrigin: Option<string>)
    requires WellFormed(a1) && a1.body.Some?
  {
    var r := Rescan(a1, AllElements(a1), Wanted(list), Marks);
    var found := |r.store| > 0;
    && s == r.store
    && a == (if found then AddClass(r.page, a1.body.value, ModeClass) else r.page)
    && st == (if found then ElementSelection else st0)
    && out == (if found then out0 + Sent(parentOrigin, StatusReport(ElementSelection.Name())) else out0)
         + Sent(parentOrigin, SelectionRebuiltReport(RebuiltSummaries(s), Ids(s)))
  }

  /**
   * What the `message` listener does with an acknowledged request, replies
   * going to `parentOrigin`: page `a0`, map `s0`, state `st0` and messages `out0` before;
   * `a`, `s`, `st` and `out` after.
   */
  ghost predicate Handled(data: Request, a0: Arena, s0: Store, st0: EditorState, out0: seq<Posted>,
                          a: Arena, s: Store, st: EditorState, out: seq<Posted>, parentOrigin: Option<string>)
  {
    && WellFormed(a0) && a0.body.Some? && Anchored(a0, s0)
    && match data
       case ReadyRequest =>
         && st == Ready && s == [] && a == RemoveClass(ClearedPage(a0), a0.body.value, ModeClass)
         && out == out0 + Sent(parentOrigin, StatusReport(Ready.Name()))
       case ToolElementSelectionRequest =>
         && st == ElementSelection && s == [] && a == AddClass(ClearedPage(a0), a0.body.value, ModeClass)
         && out == out0 + Sent(parentOrigin, StatusReport(ElementSelection.Name()))
       case ClearSelectionRequest =>
         && st == st0 && s == [] && a == ClearedPage(a0)
         && out == out0 + Sent(parentOrigin, StatusReport("clearing selections"))
       case RemoveSelectionRequest(element) =>
         && st == st0
         && if element.Some? && element.value != "" then
              && Selection(a, s) == Deselected(a0, s0, element.value)
              && out == out0 + Sent(parentOrigin, StatusReport("removing " + element.value))
            else
              s == s0 && a == a0 && out == out0
       case RebuildSelectionRequest(ids) =>
         Rebuilt(if ids.Some? then ids.value else [], a0, st0, out0, a, s, st, out, parentOrigin)
       case UnknownRequest(_) =>
         st == st0 && s == s0 && a == a0 && out == out0
  }

  /**
   * A rebuild selects exactly what was listed: every entry is keyed by its
   * own string's identifier, that identifier was listed, no identifier is
   * kept twice, every element of the page whose identifier was listed is
   * selected, and selection mode is entered exactly when something matched.
   */
  lemma RebuiltSelectsListed(list: seq<string>, a0: Arena, st0: EditorState, out0: seq<Posted>,
                             a: Arena, s: Store, st: EditorState, out: seq<Posted>, parentOrigin: Option<string>)
    requires WellFormed(a0) && a0.body.Some?
    requires Rebuilt(list, a0, st0, out0, a, s, st, out, parentOrigin)
    ensures DistinctIds(s)
    ensures forall e :: e in s ==> e.id in list && e.id == IdOf(e.domTreeString)
    ensures forall x :: x in AllElements(ClearedPage(a0)) && IdOf(TreeString(ClearedPage(a0), x, Marks)) in list ==>
      Has(s, IdOf(TreeString(ClearedPage(a0), x, Marks)))
    ensures st == if |s| > 0 then ElementSelection else st0
  {
    if |list| > 0 {
      var a1 := ClearedPage(a0);
      RescanSound(a1, AllElements(a1), Wanted(list), Marks);
      RescanComplete(a1, AllElements(a1), Wanted(list), Marks);
    }
  }

  /**
   * Every handled request is acknowledged first: the acknowledgement opens
   * the replies, and the replies after it are status and selection reports,
   * never another acknowledgement or an error.
   */
  lemma AckFirst(data: Request, a0: Arena, s0: Store, st0: EditorState, out0: seq<Posted>,
                 a: Arena, s: Store, st: EditorState, out: seq<Posted>, origin: string)
    requires Handled(data, a0, s0, st0, out0 + [Posted(AckReport(data), origin)], a, s, st, out, Some(origin))
    ensures |out| > |out0| && out[..|out0|] == out0 && out[|out0|] == Posted(AckReport(data), origin)
    ensures forall k :: |out0| < k < |out| ==> !out[k].message.AckReport? && !out[k].message.ErrorReport?
  {
    hide Handled;
    var acked := out0 + [Posted(AckReport(data), origin)];
    HandledExtends(data, a0, s0, st0, acked, a, s, st, out, Some(origin));
    assert out[..|out0|] == acked[..|out0|] == out0;
    var tail := out[|acked|..];
    HandledReplies(data, a0, s0, st0, acked, a, s, st, out, Some(origin));
    forall k | |out0| < k < |out|
      ensures !out[k].message.AckReport? && !out[k].message.ErrorReport?
    {
      assert out[k] == tail[k - |acked|];
    }
  }

  /** A handled request only appends to the messages. */
  lemma HandledExtends(data: Request, a0: Arena, s0: Store, st0: EditorState, out0: seq<Posted>,
                       a: Arena, s: Store, st: EditorState, out: seq<Posted>, parentOrigin: Option<string>)
    requires Handled(data, a0, s0, st0, out0, a, s, st, out, parentOrigin)
    ensures out0 <= out
  {
    hide ClearedPage, Deselected, Rescan, AllElements, Wanted, AddClass, RemoveClass, RebuiltSummaries, Ids;
    match data
    case RebuildSelectionRequest(ids) =>
      var list := if ids.Some? then ids.value else [];
      if |list| > 0 {
        RescannedReplies(list, ClearedPage(a0), st0, out0, a, s, st, out, parentOrigin);
      }
    case _ =>
  }

  /** What a handled request appends are status and selection reports. */
  lemma HandledReplies(data: Request, a0: Arena, s0: Store, st0: EditorState, out0: seq<Posted>,
                       a: Arena, s: Store, st: EditorState, out: seq<Posted>, parentOrigin: Option<string>)
    requires Handled(data, a0, s0, st0, out0, a, s, st, out, parentOrigin)
    requires out0 <= out
    ensures forall p :: p in out[|out0|..] ==> p.message.StatusReport? || p.message.SelectionRebuiltReport?
  {
    hide ClearedPage, Deselected, Rescan, AllElements, Wanted, AddClass, RemoveClass, RebuiltSummaries, Ids;
    match data
    case RebuildSelectionRequest(ids) =>
      var list := if ids.Some? then ids.value else [];
      if |list| > 0 {
        RescannedReplies(list, ClearedPage(a0), st0, out0, a, s, st, out, parentOrigin);
      }
    case _ =>
  }

  /** The tail of a rebuild: an optional status, then the rebuilt report. */
  lemma RescannedReplies(list: seq<string>, a1: Arena, st0: EditorState, out0: seq<Posted>,
                         a: Arena, s: Store, st: EditorState, out: seq<Posted>, parentOrigin: Option<string>)
    requires WellFormed(a1) && a1.body.Some?
    requires RescannedFrom(list, a1, st0, out0, a, s, st, out, parentOrigin)
    ensures out0 <= out
    ensures forall p :: p in out[|out0|..] ==> p.message.StatusReport? || p.message.SelectionRebuiltReport?
  {
    hide Rescan, AllElements, Wanted, AddClass, RebuiltSummaries, Ids;
  }

  class EditCommunicator {
    const doc: Document
    var state: EditorState
    var selected: Store
    // Module-level `let parentOrigin` in the source; `InitEditor` makes one
    // editor only, so a field of it behaves the same.
    var parentOrigin: Option<string>
    var outbox: seq<Posted>

    /** The page has a body and the selection map is consistent with it. */
    ghost predicate PageValid()
      reads this`selected, doc
    {
      doc.Valid() && SelectionConsistent(doc.arena, selected)
    }

    /** Messages go only to allowed origins. */
    ghost predicate ChannelValid()
      reads this`parentOrigin, this`outbox
    {
      ChannelConsistent(parentOrigin, outbox)
    }

    ghost predicate Valid()
      reads this`selected, this`parentOrigin, this`outbox, doc
    {
      doc.Valid() && SelectionConsistent(doc.arena, selected) && ChannelConsistent(parentOrigin, outbox)
    }

    /** `constructor()`: the cursor class off, then the listeners, then state `ready`. */
    constructor (page: Document)
      requires page.Valid()
      modifies page
      ensures Valid() && doc == page
      ensures state == Ready && selected == [] && parentOrigin == None && outbox == []
      ensures page.arena == RemoveClass(old(page.arena), old(page.arena).body.value, ModeClass)
    {
      doc := page;
      state := Initializing;
      selected := [];
      parentOrigin := None;
      outbox := [];
      new;
      ToggleCrosshairCursor(false);
      state := Ready;
    }

    /** `#toParent(message)`. */
    method ToParent(m: Report)
      requires ChannelValid()
      modifies this`outbox
      ensures ChannelValid()
      ensures outbox == old(outbox) + Sent(parentOrigin, m)
    {
      if parentOrigin.Some? {
        outbox := outbox + [Posted(m, parentOrigin.value)];
      }
    }

    /** `#toggleCrosshairCursor(enabled)`: the mode class on the body; no identifier changes under `Marks`. */
    method ToggleCrosshairCursor(enabled: bool)
      requires PageValid()
      modifies doc
      ensures PageValid()
      ensures doc.arena == (if enabled then AddClass else RemoveClass)(old(doc.arena), old(doc.arena).body.value, ModeClass)
    {
      var body := doc.arena.body.value;
      if enabled {
        doc.arena := AddClass(doc.arena, body, ModeClass);
      } else {
        doc.arena := RemoveClass(doc.arena, body, ModeClass);
      }
    }

    /** `#clearAllSelections()`. */
    method ClearAllSelections()
      requires PageValid()
      modifies this`selected, doc
      ensures PageValid()
      ensures selected == [] && doc.arena == ClearedPage(old(doc.arena)) && doc.arena.body == old(doc.arena).body
    {
      doc.SweepClass(SelectedClass);
      selected := [];
      doc.ClearBadges();
    }

    /** `#removeSelection(id)`. */
    method RemoveSelection(id: string)
      requires PageValid()
      modifies this`selected, doc
      ensures PageValid()
      ensures Selection(doc.arena, selected) == Deselected(old(doc.arena), old(selected), id)
    {
      var entry := Get(selected, id);
      if entry.Some? {
        doc.arena := RemoveClass(doc.arena, entry.value.element, SelectedClass);
        doc.RemoveBadge(entry.value.element);
        DeleteGet(selected, id, id);
        selected := Delete(selected, id);
      }
    }

    /** `#addSelection(id, target, domTreeString)`. */
    method AddSelection(id: string, target: Ref, domTreeString: string)
      requires PageValid() && target in doc.arena.nodes && id == IdOf(domTreeString)
      modifies this`selected, doc
      ensures PageValid()
      ensures Selection(doc.arena, selected) == Selected(old(doc.arena), old(selected), Entry(id, target, domTreeString))
    {
      ghost var a0, s0 := doc.arena, selected;
      var e := Entry(id, target, domTreeString);
      SelectedConsistent(a0, s0, e);
      doc.arena := AddClass(doc.arena, target, SelectedClass);
      var badge := doc.AddBadge(target, id);
      selected := Put(selected, e);
      assert doc.arena == Marked(a0, target, id);
    }

    /** `#handleClickElementSelection(e)`, for a click on `target`. */
    method HandleClickElementSelection(target: Ref)
      requires Valid() && target in doc.arena.nodes
      modifies this`selected, this`outbox, doc
      ensures Valid()
      ensures Selection(doc.arena, selected) == Clicked(old(doc.arena), old(selected), target, Marks)
      ensures outbox == old(outbox) + Sent(parentOrigin, ElementSelectionReport(
        Summaries(doc.arena, selected), Ids(selected), ClickedId(old(doc.arena), target, Marks), TreeString(old(doc.arena), target, Marks)))
    {
      hide Clicked, TreeString;
      var id, domTreeString := ToggleSelection(target);
      ToParent(ElementSelectionReport(Summaries(doc.arena, selected), Ids(selected), id, domTreeString));
    }

    /** The selection half of `#handleClickElementSelection`: the clicked element's entry is removed if present, added if not. */
    method ToggleSelection(target: Ref) returns (id: string, domTreeString: string)
      requires PageValid() && target in doc.arena.nodes
      modifies this`selected, doc
      ensures PageValid()
      ensures domTreeString == TreeString(old(doc.arena), target, Marks) && id == ClickedId(old(doc.arena), target, Marks)
      ensures Selection(doc.arena, selected) == Clicked(old(doc.arena), old(selected), target, Marks)
    {
      domTreeString := GenerateDomTreeString(doc.arena, target, Marks);
      id := HashDomTreeString(domTreeString);
      if Has(selected, id) {
        RemoveSelection(id);
      } else {
        AddSelection(id, target, domTreeString);
      }
    }

    /** The click listener on the body: clicks count only in selection mode. */
    method OnClick(target: Ref)
      requires Valid() && target in doc.arena.nodes
      modifies this`selected, this`outbox, doc
      ensures Valid()
      ensures old(state) != ElementSelection ==> selected == old(selected) && doc.arena == old(doc.arena) && outbox == old(outbox)
      ensures old(state) == ElementSelection ==> Selection(doc.arena, selected) == Clicked(old(doc.arena), old(selected), target, Marks)
    {
      if state == ElementSelection {
        HandleClickElementSelection(target);
      }
    }

    /** `#handleMouseOver(e)`: in selection mode the target becomes the one hovered element. */
    method HandleMouseOver(target: Ref)
      requires Valid() && target in doc.arena.nodes
      modifies doc
      ensures Valid()
      ensures doc.arena == if state == ElementSelection then Hovered(old(doc.arena), target) else old(doc.arena)
    {
      if state != ElementSelection {
        return;
      }
      doc.SweepClass(HoverClass);
      doc.arena := AddClass(doc.arena, target, HoverClass);
    }

    /** `#handleMouseOut(e)`: in selection mode the target loses the hover class. */
    method HandleMouseOut(target: Ref)
      requires Valid() && target in doc.arena.nodes
      modifies doc
      ensures Valid()
      ensures doc.arena == if state == ElementSelection then RemoveClass(old(doc.arena), target, HoverClass) else old(doc.arena)
      ensures !HasClass(doc.arena, target, HoverClass) || state != ElementSelection
    {
      if state != ElementSelection {
        return;
      }
      doc.arena := RemoveClass(doc.arena, target, HoverClass);
    }

    /**
     * `#rebuildSelection(ids)`: after clearing, every element of the page
     * whose identifier is wanted is selected again, in document order.
     */
    method RebuildSelection(ids: seq<string>) returns (matched: seq<string>)
      requires Valid()
      modifies this`selected, this`outbox, this`state, doc
      ensures Valid() && old(outbox) <= outbox
      ensures Rebuilt(ids, old(doc.arena), old(state), old(outbox), doc.arena, selected, state, outbox, parentOrigin)
      ensures matched == if |ids| == 0 then [] else
        var a0 := ClearedPage(old(doc.arena)); Rescan(a0, AllElements(a0), Wanted(ids), Marks).matched
    {
      hide ClearedPage;
      ClearAllSelections();
      if |ids| == 0 {
        return [];
      }
      matched := RescanAndReport(ids);
    }

    /** `#rebuildSelection(ids)` from the `forEach` on, on a cleared page. */
    method RescanAndReport(ids: seq<string>) returns (matched: seq<string>)
      requires Valid() && selected == []
      modifies this`selected, this`outbox, this`state, doc
      ensures Valid() && old(outbox) <= outbox
      ensures RescannedFrom(ids, old(doc.arena), old(state), old(outbox), doc.arena, selected, state, outbox, parentOrigin)
      ensures matched == Rescan(old(doc.arena), AllElements(old(doc.arena)), Wanted(ids), Marks).matched
    {
      hide Rescan;
      matched := SelectMatching(AllElements(doc.arena), Wanted(ids));
      ReportRebuilt();
    }

    /** The close of `#rebuildSelection`: selection mode when anything matched, then the report. */
    method ReportRebuilt()
      requires Valid()
      modifies this`state, this`outbox, doc
      ensures Valid() && old(outbox) <= outbox
      ensures var found := |selected| > 0;
        && doc.arena == (if found then AddClass(old(doc.arena), old(doc.arena).body.value, ModeClass) else old(doc.arena))
        && state == (if found then ElementSelection else old(state))
        && outbox == (if found then old(outbox) + Sent(parentOrigin, StatusReport(ElementSelection.Name())) else old(outbox))
             + Sent(parentOrigin, SelectionRebuiltReport(RebuiltSummaries(selected), Ids(selected)))
    {
      assert |Ids(selected)| == |selected|;
      if |Ids(selected)| > 0 {
        state := ElementSelection;
        ToggleCrosshairCursor(true);
        ToParent(StatusReport(state.Name()));
      }
      ToParent(SelectionRebuiltReport(RebuiltSummaries(selected), Ids(selected)));
    }

    /** The `forEach` of `#rebuildSelection`: each listed element whose identifier is wanted is selected. */
    method SelectMatching(els: seq<Ref>, wanted: set<string>) returns (matched: seq<string>)
      requires PageValid() && selected == [] && forall x :: x in els ==> x in doc.arena.nodes
      modifies this`selected, doc
      ensures PageValid()
      ensures Scan(doc.arena, selected, matched) == Rescan(old(doc.arena), els, wanted, Marks)
    {
      ghost var a0 := doc.arena;
      matched := [];
      for i := 0 to |els|
        invariant PageValid()
        invariant Scan(doc.arena, selected, matched) == Rescan(a0, els[..i], wanted, Marks)
      {
        var el := els[i];
        RescanStep(a0, els, wanted, i, Marks);
        RescanInvisible(a0, els[..i], wanted, el, Marks);
        var domTreeString := GenerateDomTreeString(doc.arena, el, Marks);
        var id := HashDomTreeString(domTreeString);
        if id in wanted {
          AddSelection(id, el, domTreeString);
          matched := matched + [id];
        }
      }
      assert els[..|els|] == els;
    }

    /** The common close of the `ready` and `tool-element-selection` cases: new state, cursor, status. */
    method EnterState(next: EditorState)
      requires PageValid() && ChannelValid()
      modifies this`state, this`outbox, doc
      ensures PageValid() && ChannelValid() && state == next && selected == old(selected)
      ensures doc.arena == (if next == ElementSelection then AddClass else RemoveClass)(old(doc.arena), old(doc.arena).body.value, ModeClass)
      ensures outbox == old(outbox) + Sent(parentOrigin, StatusReport(next.Name()))
    {
      state := next;
      ToggleCrosshairCursor(next == ElementSelection);
      ToParent(StatusReport(state.Name()));
    }

    /** The `ready` case of the `message` listener. */
    method OnReady()
      requires Valid()
      modifies this`selected, this`state, this`outbox, doc
      ensures Valid() && state == Ready && selected == []
      ensures doc.arena == RemoveClass(ClearedPage(old(doc.arena)), old(doc.arena).body.value, ModeClass)
      ensures outbox == old(outbox) + Sent(parentOrigin, StatusReport(Ready.Name()))
    {
      hide ClearedPage;
      ClearAllSelections();
      EnterState(Ready);
    }

    /** The `tool-element-selection` case of the `message` listener. */
    method OnToolElementSelection()
      requires Valid()
      modifies this`selected, this`state, this`outbox, doc
      ensures Valid() && state == ElementSelection && selected == []
      ensures doc.arena == AddClass(ClearedPage(old(doc.arena)), old(doc.arena).body.value, ModeClass)
      ensures outbox == old(outbox) + Sent(parentOrigin, StatusReport(ElementSelection.Name()))
    {
      hide ClearedPage;
      ClearAllSelections();
      EnterState(ElementSelection);
    }

    /** The `clear-selection` case of the `message` listener: the status goes out before the clearing. */
    method OnClearSelection()
      requires Valid()
      modifies this`selected, this`outbox, doc
      ensures Valid() && selected == [] && doc.arena == ClearedPage(old(doc.arena))
      ensures outbox == old(outbox) + Sent(parentOrigin, StatusReport("clearing selections"))
    {
      hide ClearedPage;
      ToParent(StatusReport("clearing selections"));
      ClearAllSelections();
    }

    /** The `remove-selection` case of the `message` listener: a missing or empty id is ignored. */
    method OnRemoveSelection(element: Option<string>)
      requires Valid()
      modifies this`selected, this`outbox, doc
      ensures Valid()
      ensures element.Some? && element.value != "" ==>
        && Selection(doc.arena, selected) == Deselected(old(doc.arena), old(selected), element.value)
        && outbox == old(outbox) + Sent(parentOrigin, StatusReport("removing " + element.value))
      ensures element.None? || element.value == "" ==>
        selected == old(selected) && doc.arena == old(doc.arena) && outbox == old(outbox)
    {
      hide Deselected;
      if element.Some? && element.value != "" {
        ToParent(StatusReport("removing " + element.value));
        RemoveSelection(element.value);
      }
    }

    /** The `message` listener installed by the constructor: origin check, acknowledgement, then the request. */
    /**
     * The `message` listener. `data` is `None` when `event.data` is `null` or
     * `undefined`: destructuring it throws once `parentOrigin` is set, so no
     * ack and no handling follow.
     */
    method OnMessage(origin: string, data: Option<Request>)
      requires Valid()
      modifies this, doc
      ensures Valid()
      ensures origin !in AllowedOrigins ==>
        && outbox == old(outbox) + Sent(old(parentOrigin), ErrorReport("disallowed origin: " + origin))
        && state == old(state) && selected == old(selected) && parentOrigin == old(parentOrigin) && doc.arena == old(doc.arena)
      ensures origin in AllowedOrigins && data.None? ==>
        && parentOrigin == Some(origin)
        && outbox == old(outbox) && state == old(state) && selected == old(selected) && doc.arena == old(doc.arena)
      ensures origin in AllowedOrigins && data.Some? ==>
        && parentOrigin == Some(origin)
        && Handled(data.value, old(doc.arena), old(selected), old(state), old(outbox) + [Posted(AckReport(data.value), origin)],
                   doc.arena, selected, state, outbox, Some(origin))
    {
      if origin !in AllowedOrigins {
        ToParent(ErrorReport("disallowed origin: " + origin));
        return;
      }
      parentOrigin := Some(origin);
      if data.None? {
        return;
      }
      var request := data.value;
      ToParent(AckReport(request));
      assert doc.arena == old(doc.arena) && selected == old(selected) && state == old(state);
      assert outbox == old(outbox) + [Posted(AckReport(request), origin)];
      Dispatch(request);
    }

    /** The `switch` of the `message` listener, once the origin is known and acknowledged. */
    method Dispatch(data: Request)
      requires Valid() && parentOrigin.Some?
      modifies this`selected, this`state, this`outbox, doc
      ensures Valid() && parentOrigin == old(parentOrigin)
      ensures Handled(data, old(doc.arena), old(selected), old(state), old(outbox), doc.arena, selected, state, outbox, parentOrigin)
    {
      hide ClearedPage, Rescan;
      match data
      case ReadyRequest =>
        OnReady();
      case ToolElementSelectionRequest =>
        OnToolElementSelection();
      case ClearSelectionRequest =>
        OnClearSelection();
      case RemoveSelectionRequest(element) =>
        OnRemoveSelection(element);
      case RebuildSelectionRequest(ids) =>
        var list := if ids.Some? then ids.value else [];
        var matched := RebuildSelection(list);
      case UnknownRequest(_) =>
    }
  }

  /** The module-level `editorInstance` and `initEditor()`: one editor per page. */
  class EditorModule {
    var editorInstance: EditCommunicator?

    constructor ()
      ensures editorInstance == null
    {
      editorInstance := null;
    }

    /** The first call creates the editor; every later call returns that same editor and changes nothing. */
    method InitEditor(page: Document) returns (editor: EditCommunicator)
      requires page.Valid()
      modifies this, page
      ensures editorInstance == editor
      ensures old(editorInstance) != null ==> editor == old(editorInstance) && page.arena == old(page.arena)
      ensures old(editorInstance) == null ==> fresh(editor) && editor.Valid() && editor.doc == page && editor.state == Ready
    {
      if editorInstance == null {
        editorInstance := new EditCommunicator(page);
      }
      editor := editorInstance;
    }
  }
}
