/**
 * The badges and classes the element picker puts on the page
 * (`ensurePositionedForBadge`, `addBadge`, `removeBadge`, `clearBadges` and
 * the class sweeps of `#clearAllSelections` and `#handleMouseOver` in
 * frontend/src/hooks/useEditor.ts), as functions on the document and as the
 * methods of a `Document` object that apply them in place.
 */
module Annotator {
  import opened Options
  import opened Dom
  import opened Canonical

  /** `ensurePositionedForBadge(el)`: a statically positioned element gets the badged class. */
  function Positioned(a: Arena, el: Ref): (a': Arena)
    requires WellFormed(a) && el in a.nodes
    ensures WellFormed(a') && a'.nodes.Keys == a.nodes.Keys && a'.body == a.body
    ensures a'.root == a.root && a'.next == a.next
    ensures a'.nodes[el] == a.nodes[el].(classes := if a.nodes[el].staticPosition then AddToken(a.nodes[el].classes, BadgedClass) else a.nodes[el].classes)
    ensures forall x :: x in a.nodes && x != el ==> a'.nodes[x] == a.nodes[x]
    ensures a.nodes[el].staticPosition ==> HasClass(a', el, BadgedClass)
  {
    if a.nodes[el].staticPosition then AddClass(a, el, BadgedClass) else a
  }

  /** `addBadge(el, id)`. */
  function WithBadge(a: Arena, el: Ref, id: string): (a': Arena)
    requires WellFormed(a) && el in a.nodes
    ensures WellFormed(a') && a'.nodes.Keys == a.nodes.Keys + {a.next} && a'.body == a.body
    ensures a'.nodes[a.next] == BadgeElement(id, el)
    ensures a'.nodes[el].children == a.nodes[el].children + [a.next]
    ensures a'.root == a.root && a'.next == a.next + 1
    ensures a'.nodes[el] == Positioned(a, el).nodes[el].(children := a.nodes[el].children + [a.next])
    ensures forall x :: x in a.nodes && x != el ==> a'.nodes[x] == a.nodes[x]
  {
    AppendBadge(Positioned(a, el), el, id)
  }

  /** `removeBadge(el)` as written: the first badge anywhere below `el` goes, not necessarily its own. */
  function WithoutBadgeAsWritten(a: Arena, el: Ref): (a': Arena)
    requires WellFormed(a) && el in a.nodes
    ensures WellFormed(a') && a'.nodes.Keys == a.nodes.Keys && a'.body == a.body
    ensures !HasClass(a', el, BadgedClass)
  {
    var a1 := match FirstBadgeBelow(a, el) case None => a case Some(b) => Detach(a, b);
    RemoveClass(a1, el, BadgedClass)
  }

  /** `removeBadge(el)` as intended: the badge `addBadge` put on `el` goes. */
  function WithoutBadge(a: Arena, el: Ref): (a': Arena)
    requires WellFormed(a) && el in a.nodes
    ensures WellFormed(a') && a'.nodes.Keys == a.nodes.Keys && a'.body == a.body
    ensures !HasClass(a', el, BadgedClass)
  {
    var a1 := match OwnBadge(a, el) case None => a case Some(b) => Detach(a, b);
    RemoveClass(a1, el, BadgedClass)
  }

  /** One turn of the loop of `clearBadges`: the badge leaves its parent, which loses the badged class. */
  function BadgeSwept(a: Arena, b: Ref): (a': Arena)
    requires WellFormed(a) && b in a.nodes
    ensures WellFormed(a') && a'.nodes.Keys == a.nodes.Keys && a'.body == a.body
    ensures a'.nodes[b].parent.None?
    ensures forall x :: x in a.nodes && x != b ==> a'.nodes[x].parent == a.nodes[x].parent
    ensures forall x :: x in a.nodes ==> a'.nodes[x].attrs == a.nodes[x].attrs
    ensures forall x, c :: x in a.nodes && c != BadgedClass ==> (c in a'.nodes[x].classes <==> c in a.nodes[x].classes)
  {
    var p := a.nodes[b].parent;
    var a2 := Detach(a, b);
    BadgeSweptClasses(a, b);
    if p.Some? then RemoveClass(a2, p.value, BadgedClass) else a2
  }

  /** Sweeping a badge changes no class but the badged class. */
  lemma BadgeSweptClasses(a: Arena, b: Ref)
    requires WellFormed(a) && b in a.nodes
    ensures var p := a.nodes[b].parent;
      var a2 := Detach(a, b);
      var a3 := if p.Some? then RemoveClass(a2, p.value, BadgedClass) else a2;
      forall x, c :: x in a.nodes && c != BadgedClass ==> (c in a3.nodes[x].classes <==> c in a.nodes[x].classes)
  {
    var p := a.nodes[b].parent;
    var a2 := Detach(a, b);
    assert forall x :: x in a.nodes ==> a2.nodes[x].classes == a.nodes[x].classes;
  }

  /** The loop of `clearBadges` over the badges `bs` found up front. */
  function BadgesCleared(a: Arena, bs: seq<Ref>): (a': Arena)
    requires WellFormed(a) && forall b :: b in bs ==> b in a.nodes
    ensures WellFormed(a') && a'.nodes.Keys == a.nodes.Keys && a'.body == a.body
    decreases |bs|
  {
    if bs == [] then a
    else BadgeSwept(BadgesCleared(a, bs[..|bs| - 1]), bs[|bs| - 1])
  }

  /** `rs.forEach(el => el.classList.remove(c))`. */
  function ClassRemovedFrom(a: Arena, rs: seq<Ref>, c: string): (a': Arena)
    requires WellFormed(a) && forall r :: r in rs ==> r in a.nodes
    ensures WellFormed(a') && a'.nodes.Keys == a.nodes.Keys && a'.body == a.body && a'.root == a.root
    decreases |rs|
  {
    if rs == [] then a
    else RemoveClass(ClassRemovedFrom(a, rs[..|rs| - 1], c), rs[|rs| - 1], c)
  }

  /** The sweep over a prefix one longer removes the class from one more element. */
  lemma ClassRemovedFromStep(a: Arena, rs: seq<Ref>, c: string, i: nat)
    requires WellFormed(a) && (forall r :: r in rs ==> r in a.nodes) && i < |rs|
    ensures ClassRemovedFrom(a, rs[..i + 1], c) == RemoveClass(ClassRemovedFrom(a, rs[..i], c), rs[i], c)
  {
    assert rs[..i + 1][..i] == rs[..i];
  }

  // ---------------------------------------------------------------- what the sweeps achieve

  /** After the sweep no listed element carries the class, and nothing else changes. */
  lemma ClassRemovedFromEffect(a: Arena, rs: seq<Ref>, c: string)
    requires WellFormed(a) && forall r :: r in rs ==> r in a.nodes
    ensures forall r :: r in rs ==> !HasClass(ClassRemovedFrom(a, rs, c), r, c)
    ensures forall x :: x in a.nodes && x !in rs ==> ClassRemovedFrom(a, rs, c).nodes[x] == a.nodes[x]
    ensures forall x :: x in a.nodes ==> ClassRemovedFrom(a, rs, c).nodes[x].children == a.nodes[x].children
    ensures forall x :: x in a.nodes ==> ClassRemovedFrom(a, rs, c).nodes[x].attrs == a.nodes[x].attrs
  {
    ClassRemovedFromCleared(a, rs, c);
    ClassRemovedFromFrame(a, rs, c);
  }

  /** After the sweep over `rs`, no element of `rs` carries the class. */
  lemma {:induction false} ClassRemovedFromCleared(a: Arena, rs: seq<Ref>, c: string)
    requires WellFormed(a) && forall r :: r in rs ==> r in a.nodes
    ensures forall r :: r in rs ==> !HasClass(ClassRemovedFrom(a, rs, c), r, c)
    decreases |rs|
  {
    if rs != [] {
      var n := |rs| - 1;
      var init := rs[..n];
      InitMembers(rs);
      ClassRemovedFromCleared(a, init, c);
      var a1 := ClassRemovedFrom(a, init, c);
      var a2 := RemoveClass(a1, rs[n], c);
      assert ClassRemovedFrom(a, rs, c) == a2;
      forall r | r in rs
        ensures !HasClass(a2, r, c)
      {
        if r != rs[n] {
          LastOrInit(rs, r);
        }
      }
    }
  }

  /** The sweep over `rs` leaves other elements alone, and children and attributes everywhere. */
  lemma {:induction false} ClassRemovedFromFrame(a: Arena, rs: seq<Ref>, c: string)
    requires WellFormed(a) && forall r :: r in rs ==> r in a.nodes
    ensures forall x :: x in a.nodes && x !in rs ==> ClassRemovedFrom(a, rs, c).nodes[x] == a.nodes[x]
    ensures forall x :: x in a.nodes ==> ClassRemovedFrom(a, rs, c).nodes[x].children == a.nodes[x].children
    ensures forall x :: x in a.nodes ==> ClassRemovedFrom(a, rs, c).nodes[x].attrs == a.nodes[x].attrs
    decreases |rs|
  {
    if rs != [] {
      var n := |rs| - 1;
      var init := rs[..n];
      InitMembers(rs);
      ClassRemovedFromFrame(a, init, c);
      var a2 := RemoveClass(ClassRemovedFrom(a, init, c), rs[n], c);
      assert ClassRemovedFrom(a, rs, c) == a2;
      forall x | x in a.nodes && x !in rs
        ensures a2.nodes[x] == a.nodes[x]
      {
        assert x !in init;
      }
    }
  }


  lemma InitMembers<T>(s: seq<T>)
    requires s != []
    ensures forall x :: x in s[..|s| - 1] ==> x in s
  {
  }

  lemma LastOrInit<T>(s: seq<T>, x: T)
    requires x in s && x != s[|s| - 1]
    ensures x in s[..|s| - 1]
  {
    var i :| 0 <= i < |s| && s[i] == x;
    assert s[..|s| - 1][i] == x;
  }

  /** Removing a marker class everywhere in `rs` changes no canonical string and moves nothing. */
  lemma {:induction false} ClassRemovedFromInvisible(a: Arena, rs: seq<Ref>, c: string, marks: set<string>)
    requires WellFormed(a) && (forall r :: r in rs ==> r in a.nodes) && SourceMarks <= marks && c in marks
    ensures SameContent(a, ClassRemovedFrom(a, rs, c), marks) && SameParents(a, ClassRemovedFrom(a, rs, c))
    decreases |rs|
  {
    if rs == [] {
      SameContentReflexive(a, marks);
    } else {
      var init := rs[..|rs| - 1];
      assert forall r :: r in init ==> r in rs;
      ClassRemovedFromInvisible(a, init, c, marks);
      var a1 := ClassRemovedFrom(a, init, c);
      RemoveMarkInvisible(a1, rs[|rs| - 1], c, marks);
      SameContentTransitive(a, a1, ClassRemovedFrom(a, rs, c), marks);
    }
  }

  /** Every badge swept by `clearBadges` ends up out of the document; no other node moves. */
  lemma {:induction false} BadgesClearedDetached(a: Arena, bs: seq<Ref>)
    requires WellFormed(a) && forall b :: b in bs ==> b in a.nodes
    ensures forall b :: b in bs ==> BadgesCleared(a, bs).nodes[b].parent.None?
    ensures forall x :: x in a.nodes && x !in bs ==> BadgesCleared(a, bs).nodes[x].parent == a.nodes[x].parent
    decreases |bs|
  {
    if bs != [] {
      var n := |bs| - 1;
      var init := bs[..n];
      InitMembers(bs);
      BadgesClearedDetached(a, init);
      var a1 := BadgesCleared(a, init);
      var a2 := BadgeSwept(a1, bs[n]);
      assert BadgesCleared(a, bs) == a2;
      forall x | x in bs
        ensures a2.nodes[x].parent.None?
      {
        if x != bs[n] {
          LastOrInit(bs, x);
        }
      }
      forall x | x in a.nodes && x !in bs
        ensures a2.nodes[x].parent == a.nodes[x].parent
      {
        assert x !in init;
      }
    }
  }

  /** The sweep over a prefix one longer is one more sweep turn. */
  lemma BadgesClearedStep(a: Arena, bs: seq<Ref>, i: nat)
    requires WellFormed(a) && (forall b :: b in bs ==> b in a.nodes) && i < |bs|
    ensures BadgesCleared(a, bs[..i + 1]) == BadgeSwept(BadgesCleared(a, bs[..i]), bs[i])
  {
    assert bs[..i + 1][..i] == bs[..i];
  }

  /** The sweep takes away the badged class and no other. */
  lemma {:induction false} BadgesClearedClasses(a: Arena, bs: seq<Ref>, x: Ref, c: string)
    requires WellFormed(a) && (forall b :: b in bs ==> b in a.nodes) && x in a.nodes && c != BadgedClass
    ensures c in BadgesCleared(a, bs).nodes[x].classes <==> c in a.nodes[x].classes
    decreases |bs|
  {
    if bs != [] {
      InitMembers(bs);
      BadgesClearedClasses(a, bs[..|bs| - 1], x, c);
    }
  }

  /** One sweep turn on a badge changes no canonical string. */
  lemma BadgeSweptInvisible(a: Arena, b: Ref, marks: set<string>)
    requires WellFormed(a) && b in a.nodes && IsBadge(a, b) && SourceMarks <= marks
    ensures SameContent(a, BadgeSwept(a, b), marks)
  {
    var p := a.nodes[b].parent;
    var a2 := Detach(a, b);
    RemoveBadgeInvisible(a, b, marks);
    if p.Some? {
      RemoveMarkInvisible(a2, p.value, BadgedClass, marks);
      SameContentTransitive(a, a2, RemoveClass(a2, p.value, BadgedClass), marks);
    }
  }

  /** Sweeping badges changes no canonical string and no attribute. */
  lemma {:induction false} BadgesClearedInvisible(a: Arena, bs: seq<Ref>, marks: set<string>)
    requires WellFormed(a) && (forall b :: b in bs ==> b in a.nodes && IsBadge(a, b)) && SourceMarks <= marks
    ensures SameContent(a, BadgesCleared(a, bs), marks)
    ensures forall x :: x in a.nodes ==> BadgesCleared(a, bs).nodes[x].attrs == a.nodes[x].attrs
    decreases |bs|
  {
    if bs == [] {
      SameContentReflexive(a, marks);
    } else {
      var n := |bs| - 1;
      var init := bs[..n];
      InitMembers(bs);
      BadgesClearedInvisible(a, init, marks);
      var a1 := BadgesCleared(a, init);
      assert IsBadge(a1, bs[n]);
      BadgeSweptInvisible(a1, bs[n], marks);
      SameContentTransitive(a, a1, BadgeSwept(a1, bs[n]), marks);
    }
  }

  // ---------------------------------------------------------------- selecting, unselecting, clearing

  /** The page side of `#addSelection(id, el, ...)`: the selected class, then the badge. */
  function Marked(a: Arena, el: Ref, id: string): (a': Arena)
    requires WellFormed(a) && el in a.nodes
    ensures WellFormed(a') && a'.nodes.Keys == a.nodes.Keys + {a.next} && a'.body == a.body
    ensures a'.nodes[a.next] == BadgeElement(id, el)
  {
    WithBadge(AddClass(a, el, SelectedClass), el, id)
  }

  /** The page side of `#removeSelection(id)`, on the entry's element. */
  function Unmarked(a: Arena, el: Ref): (a': Arena)
    requires WellFormed(a) && el in a.nodes
    ensures WellFormed(a') && a'.nodes.Keys == a.nodes.Keys && a'.body == a.body
    ensures !HasClass(a', el, BadgedClass)
  {
    WithoutBadge(RemoveClass(a, el, SelectedClass), el)
  }

  /** `document.querySelectorAll('.c').forEach(el => el.classList.remove(c))`. */
  function Swept(a: Arena, c: string): (a': Arena)
    requires WellFormed(a)
    ensures WellFormed(a') && a'.nodes.Keys == a.nodes.Keys && a'.body == a.body && a'.root == a.root
  {
    ClassRemovedFrom(a, WithClass(a, AllElements(a), c), c)
  }

  /**
   * After the sweep no element of the document carries the class; document
   * order, attributes and so the set of badges stay as they were.
   */
  lemma SweptEffect(a: Arena, c: string)
    requires WellFormed(a)
    ensures forall x :: x in AllElements(a) ==> !HasClass(Swept(a, c), x, c)
    ensures forall x :: x in a.nodes && !HasClass(a, x, c) ==> Swept(a, c).nodes[x] == a.nodes[x]
    ensures AllElements(Swept(a, c)) == AllElements(a)
    ensures Badges(Swept(a, c), AllElements(a)) == Badges(a, AllElements(a))
  {
    var rs := WithClass(a, AllElements(a), c);
    ClassRemovedFromEffect(a, rs, c);
    PreorderFrame(a, Swept(a, c), a.root);
    BadgesFrame(a, Swept(a, c), AllElements(a));
  }

  /** Sweeping a marker class changes no canonical string and moves no node. */
  lemma SweptInvisible(a: Arena, c: string, marks: set<string>)
    requires WellFormed(a) && SourceMarks <= marks && c in marks
    ensures SameContent(a, Swept(a, c), marks) && SameParents(a, Swept(a, c))
  {
    ClassRemovedFromInvisible(a, WithClass(a, AllElements(a), c), c, marks);
  }

  /** The page side of `#clearAllSelections`: the selected class swept, then every badge. */
  function ClearedPage(a: Arena): (a': Arena)
    requires WellFormed(a)
    ensures WellFormed(a') && a'.nodes.Keys == a.nodes.Keys && a'.body == a.body
  {
    var a1 := Swept(a, SelectedClass);
    BadgesCleared(a1, Badges(a1, AllElements(a1)))
  }

  /** The page side of `#handleMouseOver`: the hover class leaves every element and lands on the target. */
  function Hovered(a: Arena, target: Ref): (a': Arena)
    requires WellFormed(a) && target in a.nodes
    ensures WellFormed(a') && a'.nodes.Keys == a.nodes.Keys && a'.body == a.body
    ensures HasClass(a', target, HoverClass)
  {
    AddClass(Swept(a, HoverClass), target, HoverClass)
  }

  /** Selecting an element changes no canonical string and moves no node. */
  lemma MarkedInvisible(a: Arena, el: Ref, id: string, marks: set<string>)
    requires WellFormed(a) && el in a.nodes && SourceMarks <= marks
    ensures SameContent(a, Marked(a, el, id), marks) && SameParents(a, Marked(a, el, id))
  {
    var a1 := AddClass(a, el, SelectedClass);
    AddMarkInvisible(a, el, SelectedClass, marks);
    WithBadgeInvisible(a1, el, id, marks);
    SameContentTransitive(a, a1, Marked(a, el, id), marks);
  }

  /** Unselecting an element changes no canonical string; only a badge changes parent. */
  lemma UnmarkedInvisible(a: Arena, el: Ref, marks: set<string>)
    requires WellFormed(a) && el in a.nodes && SourceMarks <= marks
    ensures SameContent(a, Unmarked(a, el), marks)
    ensures forall x :: x in a.nodes && !IsBadge(a, x) ==> Unmarked(a, el).nodes[x].parent == a.nodes[x].parent
  {
    var a1 := RemoveClass(a, el, SelectedClass);
    RemoveMarkInvisible(a, el, SelectedClass, marks);
    WithoutBadgeInvisible(a1, el, marks);
    SameContentTransitive(a, a1, Unmarked(a, el), marks);
  }

  /**
   * After `#clearAllSelections` no element of the page carries the selected
   * class and every badge of the page is out of the document.
   */
  lemma ClearedPageEffect(a: Arena)
    requires WellFormed(a)
    ensures forall x :: x in AllElements(a) ==> !HasClass(ClearedPage(a), x, SelectedClass)
    ensures forall b :: b in Badges(a, AllElements(a)) ==> ClearedPage(a).nodes[b].parent.None?
  {
    var a1 := Swept(a, SelectedClass);
    var bs := Badges(a1, AllElements(a1));
    SweptEffect(a, SelectedClass);
    BadgesClearedDetached(a1, bs);
    forall x | x in AllElements(a)
      ensures !HasClass(ClearedPage(a), x, SelectedClass)
    {
      BadgesClearedClasses(a1, bs, x, SelectedClass);
    }
  }

  /** Clearing changes no canonical string; only badges change parent. */
  lemma ClearedPageInvisible(a: Arena, marks: set<string>)
    requires WellFormed(a) && SourceMarks <= marks
    ensures SameContent(a, ClearedPage(a), marks)
    ensures forall x :: x in a.nodes && !IsBadge(a, x) ==> ClearedPage(a).nodes[x].parent == a.nodes[x].parent
  {
    var a1 := Swept(a, SelectedClass);
    SweptInvisible(a, SelectedClass, marks);
    ClassRemovedFromEffect(a, WithClass(a, AllElements(a), SelectedClass), SelectedClass);
    var bs := Badges(a1, AllElements(a1));
    BadgesClearedInvisible(a1, bs, marks);
    BadgesClearedDetached(a1, bs);
    SameContentTransitive(a, a1, ClearedPage(a), marks);
  }

  /** After a hover, the target is the one element of the document carrying the hover class. */
  lemma HoveredUnique(a: Arena, target: Ref)
    requires WellFormed(a) && target in a.nodes
    ensures forall x :: x in AllElements(a) ==> (HasClass(Hovered(a, target), x, HoverClass) <==> x == target)
  {
    SweptEffect(a, HoverClass);
  }

  /** Hovering changes no canonical string and moves no node. */
  lemma HoveredInvisible(a: Arena, target: Ref, marks: set<string>)
    requires WellFormed(a) && target in a.nodes && SourceMarks <= marks
    ensures SameContent(a, Hovered(a, target), marks) && SameParents(a, Hovered(a, target))
  {
    var a1 := Swept(a, HoverClass);
    SweptInvisible(a, HoverClass, marks);
    AddMarkInvisible(a1, target, HoverClass, marks);
    SameContentTransitive(a, a1, Hovered(a, target), marks);
  }

  // ---------------------------------------------------------------- one badge

  /** Adding a badge changes no canonical string and moves no existing node. */
  lemma WithBadgeInvisible(a: Arena, el: Ref, id: string, marks: set<string>)
    requires WellFormed(a) && el in a.nodes && SourceMarks <= marks
    ensures SameContent(a, WithBadge(a, el, id), marks) && SameParents(a, WithBadge(a, el, id))
  {
    var a1 := Positioned(a, el);
    if a.nodes[el].staticPosition {
      AddMarkInvisible(a, el, BadgedClass, marks);
    } else {
      SameContentReflexive(a, marks);
    }
    AddBadgeInvisible(a1, el, id, marks);
    SameContentTransitive(a, a1, WithBadge(a, el, id), marks);
  }

  /** Removing the badge changes no canonical string; only that badge changes parent. */
  lemma WithoutBadgeInvisible(a: Arena, el: Ref, marks: set<string>)
    requires WellFormed(a) && el in a.nodes && SourceMarks <= marks
    ensures SameContent(a, WithoutBadge(a, el), marks)
    ensures forall x :: x in a.nodes && !IsBadge(a, x) ==> WithoutBadge(a, el).nodes[x].parent == a.nodes[x].parent
  {
    match OwnBadge(a, el)
    case None =>
      SameContentReflexive(a, marks);
      RemoveMarkInvisible(a, el, BadgedClass, marks);
    case Some(b) =>
      var a1 := Detach(a, b);
      RemoveBadgeInvisible(a, b, marks);
      RemoveMarkInvisible(a1, el, BadgedClass, marks);
      SameContentTransitive(a, a1, RemoveClass(a1, el, BadgedClass), marks);
      assert WithoutBadge(a, el) == RemoveClass(a1, el, BadgedClass);
  }

  /**
   * `removeBadge` undoes `addBadge`: on an element without a badge and
   * without the badged class, adding a badge and removing it again leaves
   * every existing element as it was (the badge itself lives on, detached).
   */
  lemma BadgeRoundTrip(a: Arena, el: Ref, id: string)
    requires WellFormed(a) && el in a.nodes
    requires OwnBadge(a, el).None? && !HasClass(a, el, BadgedClass)
    ensures forall x :: x in a.nodes ==> WithoutBadge(WithBadge(a, el, id), el).nodes[x] == a.nodes[x]
  {
    var a2 := WithBadge(a, el, id);
    OwnBadgeOfFresh(a, el, id);
    var a3 := Detach(a2, a.next);
    FreshBadgeDetached(a, el, id);
    assert WithoutBadge(a2, el) == RemoveClass(a3, el, BadgedClass);
    BadgedTokenRoundTrip(a.nodes[el].classes, a.nodes[el].staticPosition);
  }

  /** Detaching the badge just added restores the children of its element. */
  lemma FreshBadgeDetached(a: Arena, el: Ref, id: string)
    requires WellFormed(a) && el in a.nodes
    ensures var a3 := Detach(WithBadge(a, el, id), a.next);
      && a3.nodes[el] == Positioned(a, el).nodes[el]
      && forall x :: x in a.nodes && x != el ==> a3.nodes[x] == a.nodes[x]
  {
    var a2 := WithBadge(a, el, id);
    assert a2.nodes[a.next].parent == Some(el);
    ChildrenAbove(a, el);
    RemoveRefAbsent(a.nodes[el].children, a.next);
  }

  /** Removing the badged class undoes `ensurePositionedForBadge` on the class list. */
  lemma BadgedTokenRoundTrip(cls: seq<string>, positionedStatic: bool)
    requires BadgedClass !in cls
    ensures RemoveToken(if positionedStatic then AddToken(cls, BadgedClass) else cls, BadgedClass) == cls
  {
    WithoutNone(cls, {BadgedClass});
    if positionedStatic {
      WithoutAppend(cls, [BadgedClass], {BadgedClass});
      assert Without([BadgedClass], {BadgedClass}) == [];
    }
  }

  /** The badge just added is the element's own badge when it had none before. */
  lemma OwnBadgeOfFresh(a: Arena, el: Ref, id: string)
    requires WellFormed(a) && el in a.nodes && OwnBadge(a, el).None?
    ensures OwnBadge(WithBadge(a, el, id), el) == Some(a.next)
  {
    var a2 := WithBadge(a, el, id);
    var cs := a.nodes[el].children;
    ChildrenAbove(a, el);
    assert Badges(a2, cs + [a.next]) == Badges(a2, cs) + Badges(a2, [a.next]) by {
      BadgesAppend(a2, cs, [a.next]);
    }
    assert Badges(a2, cs) == Badges(a, cs) by {
      BadgesFrame(a, a2, cs);
    }
  }

  /**
   * `#removeSelection` undoes `#addSelection`: on an element that was not
   * selected and had no badge, selecting it and unselecting it again leaves
   * every existing element as it was (the badge lives on, detached).
   */
  lemma SelectRoundTrip(a: Arena, el: Ref, id: string)
    requires WellFormed(a) && el in a.nodes && OwnBadge(a, el).None?
    requires !HasClass(a, el, SelectedClass) && !HasClass(a, el, BadgedClass)
    ensures forall x :: x in a.nodes ==> Unmarked(Marked(a, el, id), el).nodes[x] == a.nodes[x]
  {
    var a3 := RemoveClass(Marked(a, el, id), el, SelectedClass);
    MarkedOwnBadge(a, el, id);
    var a4 := Detach(a3, a.next);
    assert Unmarked(Marked(a, el, id), el) == RemoveClass(a4, el, BadgedClass);
    assert a4.nodes[el].children == a.nodes[el].children by {
      ChildrenAbove(a, el);
      RemoveRefAbsent(a.nodes[el].children, a.next);
    }
    TokensRoundTrip(a.nodes[el].classes, a.nodes[el].staticPosition);
  }

  /** The badge `#addSelection` appends is the one `#removeSelection` finds. */
  lemma MarkedOwnBadge(a: Arena, el: Ref, id: string)
    requires WellFormed(a) && el in a.nodes && OwnBadge(a, el).None?
    ensures OwnBadge(RemoveClass(Marked(a, el, id), el, SelectedClass), el) == Some(a.next)
  {
    var a1 := AddClass(a, el, SelectedClass);
    var a2 := WithBadge(a1, el, id);
    var cs := a.nodes[el].children;
    ChildrenAbove(a, el);
    assert OwnBadge(a1, el).None? by {
      BadgesFrame(a, a1, cs);
    }
    OwnBadgeOfFresh(a1, el, id);
    ChildrenAbove(a2, el);
    BadgesFrame(a2, RemoveClass(a2, el, SelectedClass), cs + [a.next]);
  }

  /** An element with no badge anywhere below it has no badge of its own either. */
  lemma NoBadgeBelowNoOwnBadge(a: Arena, el: Ref)
    requires WellFormed(a) && el in a.nodes && FirstBadgeBelow(a, el).None?
    ensures OwnBadge(a, el).None?
  {
    var cs := a.nodes[el].children;
    ChildrenAbove(a, el);
    forall c | c in cs
      ensures !IsBadge(a, c)
    {
      ChildInPreorderAll(a, cs, el, c);
      assert Preorder(a, el)[1..] == PreorderAll(a, cs, el);
    }
  }

  /** Classes are not read by `querySelector('[data-editor-badge="1"]')`: only children and attributes. */
  lemma FirstBadgeBelowFrame(a1: Arena, a2: Arena, el: Ref)
    requires WellFormed(a1) && WellFormed(a2) && el in a1.nodes
    requires forall x :: x in a1.nodes ==> x in a2.nodes && a2.nodes[x].children == a1.nodes[x].children && a2.nodes[x].attrs == a1.nodes[x].attrs
    ensures FirstBadgeBelow(a1, el) == FirstBadgeBelow(a2, el)
  {
    PreorderFrame(a1, a2, el);
    var rs := Preorder(a1, el);
    assert forall x :: x in rs[1..] ==> x in rs;
    BadgesFrame(a1, a2, rs[1..]);
  }

  /**
   * On an element with no badge anywhere below it, the badge `addBadge`
   * appends is the first badge `querySelector` finds below the element.
   */
  lemma FreshBadgeFirstBelow(a: Arena, el: Ref, id: string)
    requires WellFormed(a) && el in a.nodes && FirstBadgeBelow(a, el).None?
    ensures FirstBadgeBelow(WithBadge(a, el, id), el) == Some(a.next)
  {
    var a2 := WithBadge(a, el, id);
    var cs := a.nodes[el].children;
    ChildrenAbove(a, el);
    ChildrenAbove(a2, el);
    var before := PreorderAll(a, cs, el);
    assert Preorder(a, el)[1..] == before;
    PreorderAllFrameAbove(a, a2, cs, el, el);
    PreorderAllAppend(a2, cs, [a.next], el);
    assert PreorderAll(a2, [a.next], el) == [a.next] by {
      assert Preorder(a2, a.next) == [a.next];
    }
    assert Preorder(a2, el)[1..] == before + [a.next];
    BadgesFrame(a, a2, before);
    BadgesAppend(a2, before, [a.next]);
    assert Badges(a2, [a.next]) == [a.next];
  }

  /**
   * Where the element has no badge anywhere below it, `removeBadge` as
   * written takes the badge `addBadge` just appended: adding a badge and
   * removing it again with the `querySelector` lookup is the same as with
   * the own-badge lookup.
   */
  lemma BadgeRoundTripAsWritten(a: Arena, el: Ref, id: string)
    requires WellFormed(a) && el in a.nodes && FirstBadgeBelow(a, el).None?
    ensures WithoutBadgeAsWritten(WithBadge(a, el, id), el) == WithoutBadge(WithBadge(a, el, id), el)
  {
    NoBadgeBelowNoOwnBadge(a, el);
    OwnBadgeOfFresh(a, el, id);
    FreshBadgeFirstBelow(a, el, id);
  }

  /**
   * The same for a whole selection: where the element has no badge anywhere
   * below it, `#removeSelection` as written undoes `#addSelection` exactly as
   * the own-badge version does, so every existing element is as it was.
   */
  lemma SelectRoundTripAsWritten(a: Arena, el: Ref, id: string)
    requires WellFormed(a) && el in a.nodes && FirstBadgeBelow(a, el).None?
    requires !HasClass(a, el, SelectedClass) && !HasClass(a, el, BadgedClass)
    ensures var a3 := RemoveClass(Marked(a, el, id), el, SelectedClass);
      WithoutBadgeAsWritten(a3, el) == Unmarked(Marked(a, el, id), el)
    ensures var a3 := RemoveClass(Marked(a, el, id), el, SelectedClass);
      forall x :: x in a.nodes ==> WithoutBadgeAsWritten(a3, el).nodes[x] == a.nodes[x]
  {
    MarkedLookupsAgree(a, el, id);
    var a3 := RemoveClass(Marked(a, el, id), el, SelectedClass);
    hide FirstBadgeBelow, OwnBadge, Marked, RemoveClass, WithoutBadge, WithoutBadgeAsWritten;
    LookupsAgree(a3, el);
    NoBadgeBelowNoOwnBadge(a, el);
    SelectRoundTrip(a, el, id);
  }

  /** After `#addSelection` and the class removal, both lookups find the badge just appended. */
  lemma MarkedLookupsAgree(a: Arena, el: Ref, id: string)
    requires WellFormed(a) && el in a.nodes && FirstBadgeBelow(a, el).None?
    ensures var a3 := RemoveClass(Marked(a, el, id), el, SelectedClass);
      FirstBadgeBelow(a3, el) == OwnBadge(a3, el) == Some(a.next)
  {
    MarkedFirstBadge(a, el, id);
    NoBadgeBelowNoOwnBadge(a, el);
    MarkedOwnBadge(a, el, id);
  }

  lemma MarkedFirstBadge(a: Arena, el: Ref, id: string)
    requires WellFormed(a) && el in a.nodes && FirstBadgeBelow(a, el).None?
    ensures FirstBadgeBelow(RemoveClass(Marked(a, el, id), el, SelectedClass), el) == Some(a.next)
  {
    var a1 := AddClass(a, el, SelectedClass);
    var a2 := WithBadge(a1, el, id);
    assert a2 == Marked(a, el, id);
    hide FirstBadgeBelow, WithBadge, AddClass, RemoveClass, Marked;
    ClassesUnread(a, el, SelectedClass, el);
    FreshBadgeFirstBelow(a1, el, id);
    ClassesUnread(a2, el, SelectedClass, el);
  }

  /** Adding or removing a class moves no badge lookup. */
  lemma ClassesUnread(a: Arena, x: Ref, c: string, el: Ref)
    requires WellFormed(a) && x in a.nodes && el in a.nodes
    ensures FirstBadgeBelow(AddClass(a, x, c), el) == FirstBadgeBelow(a, el)
    ensures FirstBadgeBelow(RemoveClass(a, x, c), el) == FirstBadgeBelow(a, el)
  {
    FirstBadgeBelowFrame(a, AddClass(a, x, c), el);
    FirstBadgeBelowFrame(a, RemoveClass(a, x, c), el);
  }

  /** Where the two lookups find the same badge, the two removals agree. */
  lemma LookupsAgree(a: Arena, el: Ref)
    requires WellFormed(a) && el in a.nodes && FirstBadgeBelow(a, el) == OwnBadge(a, el)
    ensures WithoutBadgeAsWritten(a, el) == WithoutBadge(a, el)
  {
  }

  /** The class list of a selected-then-unselected element is the one it started with. */
  lemma TokensRoundTrip(cls: seq<string>, positionedStatic: bool)
    requires SelectedClass !in cls && BadgedClass !in cls
    ensures var c1 := AddToken(cls, SelectedClass);
      var c2 := if positionedStatic then AddToken(c1, BadgedClass) else c1;
      RemoveToken(RemoveToken(c2, SelectedClass), BadgedClass) == cls
  {
    var c1 := cls + [SelectedClass];
    assert AddToken(cls, SelectedClass) == c1;
    assert Without([SelectedClass], {SelectedClass}) == [];
    assert Without([BadgedClass], {BadgedClass}) == [];
    assert Without([BadgedClass], {SelectedClass}) == [BadgedClass];
    WithoutNone(cls, {SelectedClass});
    WithoutNone(cls, {BadgedClass});
    WithoutAppend(cls, [SelectedClass], {SelectedClass});
    assert RemoveToken(c1, SelectedClass) == cls;
    if positionedStatic {
      assert AddToken(c1, BadgedClass) == c1 + [BadgedClass];
      WithoutAppend(c1, [BadgedClass], {SelectedClass});
      assert RemoveToken(c1 + [BadgedClass], SelectedClass) == cls + [BadgedClass];
      WithoutAppend(cls, [BadgedClass], {BadgedClass});
    }
  }

  lemma {:induction false} BadgesAppend(a: Arena, xs: seq<Ref>, ys: seq<Ref>)
    requires forall c :: c in xs + ys ==> c in a.nodes
    ensures Badges(a, xs + ys) == Badges(a, xs) + Badges(a, ys)
  {
    if xs == [] {
      assert xs + ys == ys;
    } else {
      assert (xs + ys)[0] == xs[0];
      assert (xs + ys)[1..] == xs[1..] + ys;
      BadgesAppend(a, xs[1..], ys);
    }
  }

  lemma BadgesFrame(a1: Arena, a2: Arena, cs: seq<Ref>)
    requires forall c :: c in cs ==> c in a1.nodes && c in a2.nodes && a1.nodes[c].attrs == a2.nodes[c].attrs
    ensures Badges(a1, cs) == Badges(a2, cs)
  {
  }

  lemma {:induction false} RemoveRefAbsent(cs: seq<Ref>, x: Ref)
    requires x !in cs
    ensures RemoveRef(cs + [x], x) == cs
  {
    if cs == [] {
      assert [] + [x] == [x];
    } else {
      assert (cs + [x])[1..] == cs[1..] + [x];
      RemoveRefAbsent(cs[1..], x);
    }
  }

  // ---------------------------------------------------------------- selecting a child, then its parent

  /** `<body><div><p></p></div></body>`, with handles 0, 1 and 2. */
  function NestedPage(): Arena {
    Arena(map[
      0 := Element("body", [], [], "", [1], None, false),
      1 := Element("div", [], [], "", [2], Some(0), false),
      2 := Element("p", [], [], "", [], Some(1), false)], 0, Some(0), 3)
  }

  /** `NestedPage` after `addBadge(p, "id-p")` and `addBadge(div, "id-div")`. */
  function NestedPageBadged(): Arena {
    Arena(map[
      0 := Element("body", [], [], "", [1], None, false),
      1 := Element("div", [], [], "", [2, 4], Some(0), false),
      2 := Element("p", [], [], "", [3], Some(1), false),
      3 := BadgeElement("id-p", 2),
      4 := BadgeElement("id-div", 1)], 0, Some(0), 5)
  }

  lemma NestedPagesWellFormed()
    ensures WellFormed(NestedPage()) && WellFormed(NestedPageBadged())
  {
    NestedPageWellFormed();
    NestedPageBadgedWellFormed();
  }

  lemma NestedPageWellFormed()
    ensures WellFormed(NestedPage())
  {
    var n := NestedPage().nodes;
    assert n.Keys == {0, 1, 2};
    forall r | r in n
      ensures r == 0 || r == 1 || r == 2
    {
      assert r in n.Keys;
    }
  }

  lemma NestedPageBadgedWellFormed()
    ensures WellFormed(NestedPageBadged())
  {
    var a := NestedPageBadged();
    var n := a.nodes;
    assert n.Keys == {0, 1, 2, 3, 4};
    forall r | r in n
      ensures r == 0 || r == 1 || r == 2 || r == 3 || r == 4
    {
      assert r in n.Keys;
    }
    assert n[0].children == [1] && n[1].children == [2, 4] && n[2].children == [3];
    assert n[3].children == [] && n[4].children == [];
    assert n[0].parent == None && n[1].parent == Some(0) && n[2].parent == Some(1);
    assert n[3].parent == Some(2) && n[4].parent == Some(1);
  }

  /** `NestedPage` after `addBadge(p, "id-p")`. */
  function NestedPageHalfBadged(): Arena {
    Arena(map[
      0 := Element("body", [], [], "", [1], None, false),
      1 := Element("div", [], [], "", [2], Some(0), false),
      2 := Element("p", [], [], "", [3], Some(1), false),
      3 := BadgeElement("id-p", 2)], 0, Some(0), 4)
  }

  lemma NestedPageHalfBadgedWellFormed()
    ensures WellFormed(NestedPageHalfBadged())
  {
    var n := NestedPageHalfBadged().nodes;
    assert n.Keys == {0, 1, 2, 3};
    forall r | r in n
      ensures r == 0 || r == 1 || r == 2 || r == 3
    {
      assert r in n.Keys;
    }
  }

  lemma NestedPageFirstStep()
    ensures WellFormed(NestedPage())
    ensures WithBadge(NestedPage(), 2, "id-p") == NestedPageHalfBadged()
  {
    NestedPageWellFormed();
    var a := NestedPage();
    assert Positioned(a, 2) == a;
    var n := a.nodes;
    assert n[2 := n[2].(children := [3])][3 := BadgeElement("id-p", 2)] == NestedPageHalfBadged().nodes;
    assert n[2].children + [3] == [3];
  }

  lemma NestedPageSecondStep()
    ensures WellFormed(NestedPageHalfBadged())
    ensures WithBadge(NestedPageHalfBadged(), 1, "id-div") == NestedPageBadged()
  {
    NestedPageHalfBadgedWellFormed();
    var a := NestedPageHalfBadged();
    assert Positioned(a, 1) == a;
    var n := a.nodes;
    assert n[1 := n[1].(children := [2, 4])][4 := BadgeElement("id-div", 1)] == NestedPageBadged().nodes;
    assert n[1].children + [4] == [2, 4];
  }

  lemma NestedPageBadgedSteps()
    ensures WellFormed(NestedPage())
    ensures WithBadge(WithBadge(NestedPage(), 2, "id-p"), 1, "id-div") == NestedPageBadged()
  {
    NestedPageFirstStep();
    NestedPageSecondStep();
  }

  lemma PreorderOfP()
    ensures WellFormed(NestedPageBadged()) && Preorder(NestedPageBadged(), 2) == [2, 3]
  {
    NestedPagesWellFormed();
    var a := NestedPageBadged();
    assert Preorder(a, 3) == [3];
    assert PreorderAll(a, [3], 2) == [3];
  }

  lemma PreorderOfDiv()
    ensures WellFormed(NestedPageBadged()) && Preorder(NestedPageBadged(), 1) == [1, 2, 3, 4]
  {
    PreorderOfP();
    var a := NestedPageBadged();
    assert Preorder(a, 4) == [4];
    assert PreorderAll(a, [4], 1) == [4];
    assert PreorderAll(a, [2, 4], 1) == Preorder(a, 2) + PreorderAll(a, [4], 1);
  }

  lemma FirstBadgeBelowDiv()
    ensures WellFormed(NestedPageBadged()) && FirstBadgeBelow(NestedPageBadged(), 1) == Some(3)
  {
    PreorderOfDiv();
    BadgesBelowDiv();
    assert Preorder(NestedPageBadged(), 1)[1..] == [2, 3, 4];
  }

  lemma BadgesBelowDiv()
    ensures Badges(NestedPageBadged(), [2, 3, 4]) == [3, 4]
  {
    var a := NestedPageBadged();
    assert Badges(a, [4]) == [4];
    assert Badges(a, [3, 4]) == [3, 4];
  }

  lemma OwnBadgeOfDiv()
    ensures WellFormed(NestedPageBadged()) && OwnBadge(NestedPageBadged(), 1) == Some(4)
  {
    NestedPagesWellFormed();
    var a := NestedPageBadged();
    assert Badges(a, [4]) == [4];
    assert Badges(a, [2, 4]) == [4];
  }

  lemma DetachBadgeOfP()
    ensures WellFormed(NestedPageBadged()) && 3 in NestedPageBadged().nodes
    ensures Detach(NestedPageBadged(), 3).nodes[2].children == []
    ensures Detach(NestedPageBadged(), 3).nodes[1].children == [2, 4]
  {
    NestedPageBadgedWellFormed();
    assert RemoveRef([3], 3) == [];
  }

  lemma DetachBadgeOfDiv()
    ensures WellFormed(NestedPageBadged()) && 4 in NestedPageBadged().nodes
    ensures Detach(NestedPageBadged(), 4).nodes[2].children == [3]
    ensures Detach(NestedPageBadged(), 4).nodes[1].children == [2]
  {
    NestedPageBadgedWellFormed();
    assert RemoveRef([4], 4) == [];
    assert RemoveRef([2, 4], 4) == [2];
  }

  lemma AsWrittenOnBadgedPage()
    ensures WellFormed(NestedPageBadged())
    ensures WithoutBadgeAsWritten(NestedPageBadged(), 1).nodes[2].children == []
    ensures WithoutBadgeAsWritten(NestedPageBadged(), 1).nodes[1].children == [2, 4]
  {
    FirstBadgeBelowDiv();
    DetachBadgeOfP();
  }

  lemma AsIntendedOnBadgedPage()
    ensures WellFormed(NestedPageBadged())
    ensures WithoutBadge(NestedPageBadged(), 1).nodes[2].children == [3]
    ensures WithoutBadge(NestedPageBadged(), 1).nodes[1].children == [2]
  {
    OwnBadgeOfDiv();
    DetachBadgeOfDiv();
  }

  /**
   * As written: badge the `p` (badge 3), then the `div` (badge 4), then
   * remove the `div`'s badge. The `p`'s badge goes and the `div`'s stays.
   */
  lemma RemoveBadgeAsWrittenTakesChildBadge()
    ensures WellFormed(NestedPage())
    ensures var a := WithBadge(WithBadge(NestedPage(), 2, "id-p"), 1, "id-div");
      && WithoutBadgeAsWritten(a, 1).nodes[2].children == []
      && WithoutBadgeAsWritten(a, 1).nodes[1].children == [2, 4]
  {
    NestedPageBadgedSteps();
    AsWrittenOnBadgedPage();
  }

  /** As intended, the same steps remove the `div`'s own badge and leave the `p`'s. */
  lemma RemoveBadgeTakesOwnBadge()
    ensures WellFormed(NestedPage())
    ensures var a := WithBadge(WithBadge(NestedPage(), 2, "id-p"), 1, "id-div");
      && WithoutBadge(a, 1).nodes[2].children == [3]
      && WithoutBadge(a, 1).nodes[1].children == [2]
  {
    NestedPageBadgedSteps();
    AsIntendedOnBadgedPage();
  }

  // ---------------------------------------------------------------- the page, changed in place

  /** The document the editor runs in; the badge helpers change it in place. */
  class Document {
    var arena: Arena

    /** The page has a body, which `#generateDOMTreeString` dereferences. */
    ghost predicate Valid()
      reads this
    {
      WellFormed(arena) && arena.body.Some?
    }

    constructor (a: Arena)
      requires WellFormed(a) && a.body.Some?
      ensures Valid() && arena == a
    {
      arena := a;
    }

    /** `addBadge(el, id)`: returns the new badge, now the last child of `el`. */
    method AddBadge(el: Ref, id: string) returns (badge: Ref)
      requires Valid() && el in arena.nodes
      modifies this
      ensures Valid() && arena == WithBadge(old(arena), el, id)
      ensures badge == old(arena).next && badge !in old(arena).nodes && IsBadge(arena, badge) && arena.nodes[badge].parent == Some(el)
      ensures arena.nodes[badge].text == id
      ensures arena.nodes[el].children == old(arena).nodes[el].children + [badge]
    {
      if arena.nodes[el].staticPosition {
        arena := AddClass(arena, el, BadgedClass);
      }
      badge := arena.next;
      arena := AppendBadge(arena, el, id);
    }

    /** `document.querySelectorAll('.c').forEach(el => el.classList.remove(c))`. */
    method SweepClass(c: string)
      requires Valid()
      modifies this
      ensures Valid() && arena == Swept(old(arena), c)
      ensures forall x :: x in AllElements(old(arena)) ==> !HasClass(arena, x, c)
    {
      ghost var a0 := arena;
      var els := WithClass(arena, AllElements(arena), c);
      for i := 0 to |els|
        invariant WellFormed(arena) && arena.nodes.Keys == a0.nodes.Keys && arena.body == a0.body
        invariant arena == ClassRemovedFrom(a0, els[..i], c)
      {
        ClassRemovedFromStep(a0, els, c, i);
        arena := RemoveClass(arena, els[i], c);
      }
      assert els[..|els|] == els;
      SweptEffect(a0, c);
    }

    /** `removeBadge(el)`, taking the badge of `el` itself (see `WithoutBadgeAsWritten`). */
    method RemoveBadge(el: Ref)
      requires Valid() && el in arena.nodes
      modifies this
      ensures Valid() && arena == WithoutBadge(old(arena), el)
      ensures !HasClass(arena, el, BadgedClass)
    {
      var badge := OwnBadge(arena, el);
      if badge.Some? {
        arena := Detach(arena, badge.value);
      }
      arena := RemoveClass(arena, el, BadgedClass);
    }

    /** `clearBadges()`: every badge of the page, in document order, leaves it. */
    method ClearBadges()
      requires Valid()
      modifies this
      ensures Valid() && arena == BadgesCleared(old(arena), Badges(old(arena), AllElements(old(arena))))
      ensures forall b :: b in Badges(old(arena), AllElements(old(arena))) ==> arena.nodes[b].parent.None?
    {
      ghost var a0 := arena;
      var badges := Badges(arena, AllElements(arena));
      for i := 0 to |badges|
        invariant WellFormed(arena) && arena.nodes.Keys == a0.nodes.Keys && arena.body == a0.body
        invariant arena == BadgesCleared(a0, badges[..i])
      {
        var badge := badges[i];
        ghost var before := arena;
        var parent := arena.nodes[badge].parent;
        arena := Detach(arena, badge);
        if parent.Some? {
          arena := RemoveClass(arena, parent.value, BadgedClass);
        }
        assert arena == BadgeSwept(before, badge);
        BadgesClearedStep(a0, badges, i);
      }
      assert badges[..|badges|] == badges;
      BadgesClearedDetached(a0, badges);
    }
  }
}
