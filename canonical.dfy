/**
 * The canonical DOM-tree string of an element (`#generateDOMTreeString` and
 * `#removeArtificialElements` in frontend/src/hooks/useEditor.ts), from which
 * the element's identifier is hashed.
 *
 * The walk goes up from the element to `document.body`, collecting the path.
 * The body is then rebuilt top down: each level is a shallow clone of the
 * node on the path, whose children are the next node on the path (rebuilt the
 * same way), or, at the end of the path, the element itself (deep-cloned,
 * stripped, tagged `data-target="this"`), and every other child deep-cloned
 * and stripped. Stripping removes badge elements and the editor's marker
 * classes from a whole detached subtree.
 *
 * The set of marker classes is a parameter: `SourceMarks` is the set the
 * source strips; `Marks` adds the selection-mode class that the editor puts
 * on `document.body`, which the source leaves in (see README, Findings).
 */
module Canonical {
  import opened Options
  import opened Dom

  const SelectedClass := "editor-selected"
  const BadgedClass := "editor-selected-badged"
  const HoverClass := "editor-hover"
  const ModeClass := "editor-element-selection-mode"

  /** The classes `#removeArtificialElements` removes, as written. */
  const SourceMarks: set<string> := {SelectedClass, BadgedClass, HoverClass}

  /** Every class the editor adds to the document. */
  const Marks: set<string> := SourceMarks + {ModeClass}

  predicate IsBadgeTree(t: Tree) {
    IsBadgeAttrs(t.attrs)
  }

  // ---------------------------------------------------------------- stripping

  /** A detached tree with badges and marker classes removed throughout. */
  function Stripped(t: Tree, marks: set<string>): (r: Tree)
    ensures r.tag == t.tag && r.attrs == t.attrs && r.text == t.text
    decreases t, 1
  {
    Tree(t.tag, t.attrs, Without(t.classes, marks), t.text, StrippedKids(t.kids, marks))
  }

  function StrippedKids(ts: seq<Tree>, marks: set<string>): seq<Tree>
    decreases ts, 0
  {
    if ts == [] then []
    else StrippedKids(ts[..|ts| - 1], marks) + (if IsBadgeTree(ts[|ts| - 1]) then [] else [Stripped(ts[|ts| - 1], marks)])
  }

  /** No marker class and no badge anywhere in the tree. */
  ghost predicate Clean(t: Tree, marks: set<string>)
    decreases t
  {
    && (forall c :: c in t.classes ==> c !in marks)
    && (forall i :: 0 <= i < |t.kids| ==> !IsBadgeTree(t.kids[i]) && Clean(t.kids[i], marks))
  }

  /**
   * `#removeArtificialElements` on a detached clone. The source first removes
   * every badge below the element and then recurses into the remaining
   * children; removing a badge takes its subtree with it, so dropping the
   * badge children at each level, as here, removes the same nodes.
   */
  method RemoveArtificialElements(t: Tree, marks: set<string>) returns (r: Tree)
    ensures r == Stripped(t, marks)
    decreases t
  {
    var kids: seq<Tree> := [];
    for i := 0 to |t.kids|
      invariant kids == StrippedKids(t.kids[..i], marks)
    {
      assert t.kids[..i + 1][..i] == t.kids[..i];
      if !IsBadgeTree(t.kids[i]) {
        var k := RemoveArtificialElements(t.kids[i], marks);
        kids := kids + [k];
      }
    }
    assert t.kids[..|t.kids|] == t.kids;
    r := Tree(t.tag, t.attrs, Without(t.classes, marks), t.text, kids);
  }

  /** Stripping leaves no badge and no marker class anywhere. */
  lemma {:induction false} StrippedIsClean(t: Tree, marks: set<string>)
    ensures Clean(Stripped(t, marks), marks)
    decreases t, 1
  {
    StrippedKidsAreClean(t.kids, marks);
  }

  lemma {:induction false} StrippedKidsAreClean(ts: seq<Tree>, marks: set<string>)
    ensures forall i :: 0 <= i < |StrippedKids(ts, marks)| ==>
      !IsBadgeTree(StrippedKids(ts, marks)[i]) && Clean(StrippedKids(ts, marks)[i], marks)
    decreases ts, 0
  {
    if ts != [] {
      StrippedKidsAreClean(ts[..|ts| - 1], marks);
      StrippedIsClean(ts[|ts| - 1], marks);
    }
  }

  /** A clean tree is left as it is: stripping changes only what it removes. */
  lemma {:induction false} StrippedOfClean(t: Tree, marks: set<string>)
    requires Clean(t, marks)
    ensures Stripped(t, marks) == t
    decreases t, 1
  {
    WithoutNone(t.classes, marks);
    StrippedKidsOfClean(t.kids, marks);
  }

  lemma {:induction false} StrippedKidsOfClean(ts: seq<Tree>, marks: set<string>)
    requires forall i :: 0 <= i < |ts| ==> !IsBadgeTree(ts[i]) && Clean(ts[i], marks)
    ensures StrippedKids(ts, marks) == ts
    decreases ts, 0
  {
    if ts != [] {
      StrippedKidsOfClean(ts[..|ts| - 1], marks);
      StrippedOfClean(ts[|ts| - 1], marks);
      assert ts[..|ts| - 1] + [ts[|ts| - 1]] == ts;
    }
  }

  /** Stripping twice is stripping once. */
  lemma StrippedIdempotent(t: Tree, marks: set<string>)
    ensures Stripped(Stripped(t, marks), marks) == Stripped(t, marks)
  {
    StrippedIsClean(t, marks);
    StrippedOfClean(Stripped(t, marks), marks);
  }

  // ---------------------------------------------------------------- the path to the body

  /** The nodes from just below `document.body` down to `cur`, top down. */
  function PathToBody(a: Arena, cur: Option<Ref>): (path: seq<Ref>)
    requires WellFormed(a) && (cur.Some? ==> cur.value in a.nodes)
    ensures forall x :: x in path ==> x in a.nodes && Some(x) != a.body
    decreases if cur.Some? then cur.value + 1 else 0
  {
    if cur.None? || cur == a.body then []
    else PathToBody(a, a.nodes[cur.value].parent) + [cur.value]
  }

  /** The upward walk from `cur` reaches `document.body`. */
  ghost predicate InsideBody(a: Arena, cur: Option<Ref>)
    requires WellFormed(a) && (cur.Some? ==> cur.value in a.nodes)
    decreases if cur.Some? then cur.value + 1 else 0
  {
    cur.Some? && (cur == a.body || InsideBody(a, a.nodes[cur.value].parent))
  }

  // ---------------------------------------------------------------- rebuilding the body

  /** `setAttribute('data-target', 'this')`. */
  function Target(t: Tree): (r: Tree)
    ensures GetAttr(r.attrs, "data-target") == Some("this")
  {
    t.(attrs := SetAttr(t.attrs, "data-target", "this"))
  }

  /** `buildTree(parent, path)`: a shallow clone of `p` over its rebuilt children, stripped. */
  function BuildTree(a: Arena, p: Ref, path: seq<Ref>, marks: set<string>): (t: Tree)
    requires WellFormed(a) && p in a.nodes
    ensures t.tag == a.nodes[p].tag && t.attrs == a.nodes[p].attrs
    ensures t.classes == Without(a.nodes[p].classes, marks)
    ensures t.text == ""
    decreases |path|, 2
  {
    ChildrenAbove(a, p);
    Stripped(ShallowClone(a, p).(kids := BuildKids(a, a.nodes[p].children, path, marks)), marks)
  }

  function BuildKids(a: Arena, cs: seq<Ref>, path: seq<Ref>, marks: set<string>): (ts: seq<Tree>)
    requires WellFormed(a) && forall c :: c in cs ==> c in a.nodes
    ensures |ts| == |cs| && forall i :: 0 <= i < |cs| ==> ts[i] == BuildKid(a, cs[i], path, marks)
    decreases |path|, 1, |cs|
  {
    if cs == [] then [] else [BuildKid(a, cs[0], path, marks)] + BuildKids(a, cs[1..], path, marks)
  }

  /** What `buildTree` appends for child `c`. */
  function BuildKid(a: Arena, c: Ref, path: seq<Ref>, marks: set<string>): Tree
    requires WellFormed(a) && c in a.nodes
    decreases |path|, 0
  {
    if |path| > 0 && c == path[0] then
      if |path| == 1 then Target(Stripped(CloneTree(a, c), marks))
      else BuildTree(a, c, path[1..], marks)
    else Stripped(CloneTree(a, c), marks)
  }

  /** The canonical string of element `e`. */
  function TreeString(a: Arena, e: Ref, marks: set<string>): string
    requires WellFormed(a) && e in a.nodes
  {
    var path := PathToBody(a, Some(e));
    match a.body
    case None => OuterHtml(CloneTree(a, e))
    case Some(b) => OuterHtml(BuildTree(a, b, path, marks))
  }

  method BuildTreeOf(a: Arena, p: Ref, path: seq<Ref>, marks: set<string>) returns (t: Tree)
    requires WellFormed(a) && p in a.nodes
    ensures t == BuildTree(a, p, path, marks)
    decreases |path|
  {
    var clonedParent := ShallowClone(a, p);
    var children := a.nodes[p].children;
    ChildrenAbove(a, p);
    var kids: seq<Tree> := [];
    for i := 0 to |children|
      invariant |kids| == i
      invariant forall j :: 0 <= j < i ==> kids[j] == BuildKid(a, children[j], path, marks)
    {
      var child := children[i];
      var k: Tree;
      if |path| > 0 && child == path[0] {
        if |path| == 1 {
          k := RemoveArtificialElements(CloneTree(a, child), marks);
          k := Target(k);
        } else {
          k := BuildTreeOf(a, child, path[1..], marks);
        }
      } else {
        k := RemoveArtificialElements(CloneTree(a, child), marks);
      }
      kids := kids + [k];
    }
    assert kids == BuildKids(a, children, path, marks);
    t := RemoveArtificialElements(clonedParent.(kids := kids), marks);
  }

  /** `#generateDOMTreeString`: walks up to the body, then rebuilds it. */
  method GenerateDomTreeString(a: Arena, e: Ref, marks: set<string>) returns (s: string)
    requires WellFormed(a) && e in a.nodes
    ensures s == TreeString(a, e, marks)
  {
    var path: seq<Ref> := [];
    var current: Option<Ref> := Some(e);
    while current.Some? && current != a.body
      invariant current.Some? ==> current.value in a.nodes
      invariant PathToBody(a, Some(e)) == PathToBody(a, current) + path
      decreases if current.Some? then current.value + 1 else 0
    {
      path := [current.value] + path;
      current := a.nodes[current.value].parent;
    }
    assert PathToBody(a, current) == [];
    assert PathToBody(a, Some(e)) == path;
    if a.body.None? {
      s := OuterHtml(CloneTree(a, e));
    } else {
      var tree := BuildTreeOf(a, a.body.value, path, marks);
      s := OuterHtml(tree);
    }
  }

  lemma {:induction false} PathStartsOutside(a: Arena, cur: Option<Ref>)
    requires WellFormed(a) && cur.Some? && cur.value in a.nodes && !InsideBody(a, cur)
    ensures var path := PathToBody(a, cur); path != [] && a.nodes[path[0]].parent.None?
    decreases cur.value
  {
    var p := a.nodes[cur.value].parent;
    if p.Some? {
      PathStartsOutside(a, p);
    }
  }

  /**
   * An element outside the body (detached, or in the head) gets the same
   * string as the body itself: its path matches none of the body's children.
   */
  lemma OutsideBodyIsBodyString(a: Arena, e: Ref, marks: set<string>)
    requires WellFormed(a) && e in a.nodes && a.body.Some? && !InsideBody(a, Some(e))
    ensures TreeString(a, e, marks) == TreeString(a, a.body.value, marks)
  {
    var b := a.body.value;
    var path := PathToBody(a, Some(e));
    PathStartsOutside(a, Some(e));
    ChildrenAbove(a, b);
    var cs := a.nodes[b].children;
    assert BuildKids(a, cs, path, marks) == BuildKids(a, cs, [], marks) by {
      forall i | 0 <= i < |cs|
        ensures BuildKid(a, cs[i], path, marks) == BuildKid(a, cs[i], [], marks)
      {
        assert a.nodes[cs[i]].parent == Some(b);
      }
    }
  }

  // ---------------------------------------------------------------- what the editor adds is invisible

  /** The members of `cs` that are not badges, in order. */
  function NonBadge(a: Arena, cs: seq<Ref>): (r: seq<Ref>)
    requires forall c :: c in cs ==> c in a.nodes
    ensures forall x :: x in r <==> x in cs && !IsBadge(a, x)
  {
    if cs == [] then [] else (if IsBadge(a, cs[0]) then [] else [cs[0]]) + NonBadge(a, cs[1..])
  }

  /** Node `r` looks the same in both documents once marks and badges are ignored. */
  ghost predicate Alike(a1: Arena, a2: Arena, r: Ref, marks: set<string>)
    requires WellFormed(a1) && WellFormed(a2) && r in a1.nodes && r in a2.nodes
  {
    var e1 := a1.nodes[r];
    var e2 := a2.nodes[r];
    && e1.tag == e2.tag && e1.attrs == e2.attrs && e1.text == e2.text
    && Without(e1.classes, marks) == Without(e2.classes, marks)
    && NonBadge(a1, e1.children) == NonBadge(a2, e2.children)
  }

  /**
   * The two documents differ only in marker classes and in badges: every node
   * they share has the same tag, attributes, text, classes outside `marks` and
   * non-badge children.
   */
  ghost predicate SameContent(a1: Arena, a2: Arena, marks: set<string>) {
    && WellFormed(a1) && WellFormed(a2)
    && a1.body == a2.body
    && forall r :: r in a1.nodes && r in a2.nodes ==> Alike(a1, a2, r, marks)
  }

  function Canons(a: Arena, cs: seq<Ref>, marks: set<string>): (ts: seq<Tree>)
    requires WellFormed(a) && forall c :: c in cs ==> c in a.nodes
    ensures |ts| == |cs| && forall i :: 0 <= i < |cs| ==> ts[i] == Stripped(CloneTree(a, cs[i]), marks)
  {
    if cs == [] then [] else [Stripped(CloneTree(a, cs[0]), marks)] + Canons(a, cs[1..], marks)
  }

  function BuildCanons(a: Arena, cs: seq<Ref>, path: seq<Ref>, marks: set<string>): (ts: seq<Tree>)
    requires WellFormed(a) && forall c :: c in cs ==> c in a.nodes
    ensures |ts| == |cs| && forall i :: 0 <= i < |cs| ==> ts[i] == Stripped(BuildKid(a, cs[i], path, marks), marks)
  {
    if cs == [] then [] else [Stripped(BuildKid(a, cs[0], path, marks), marks)] + BuildCanons(a, cs[1..], path, marks)
  }

  lemma {:induction false} NonBadgeAppend(a: Arena, xs: seq<Ref>, ys: seq<Ref>)
    requires (forall c :: c in xs ==> c in a.nodes) && (forall c :: c in ys ==> c in a.nodes)
    ensures NonBadge(a, xs + ys) == NonBadge(a, xs) + NonBadge(a, ys)
  {
    if xs == [] {
      assert xs + ys == ys;
    } else {
      var head := if IsBadge(a, xs[0]) then [] else [xs[0]];
      var rest := xs[1..];
      assert forall c :: c in rest ==> c in xs;
      assert (xs + ys)[1..] == rest + ys;
      NonBadgeAppend(a, rest, ys);
      assert NonBadge(a, xs + ys) == head + NonBadge(a, rest + ys);
      assert NonBadge(a, xs) == head + NonBadge(a, rest);
      AppendAssoc(head, NonBadge(a, rest), NonBadge(a, ys));
    }
  }

  lemma AppendAssoc<T>(p: seq<T>, q: seq<T>, r: seq<T>)
    ensures p + (q + r) == (p + q) + r
  {
  }

  /** `StrippedKids` read from the front. */
  lemma {:induction false} StrippedKidsCons(t: Tree, ts: seq<Tree>, marks: set<string>)
    ensures StrippedKids([t] + ts, marks) ==
      (if IsBadgeTree(t) then [] else [Stripped(t, marks)]) + StrippedKids(ts, marks)
    decreases |ts|
  {
    if ts != [] {
      var n := |ts| - 1;
      assert ([t] + ts)[..n + 1] == [t] + ts[..n];
      assert ([t] + ts)[n + 1] == ts[n];
      StrippedKidsCons(t, ts[..n], marks);
    } else {
      assert [t][..0] == [];
    }
  }

  /** Stripping the clones of `cs` keeps the clones of the non-badge members. */
  lemma {:induction false} StrippedClones(a: Arena, cs: seq<Ref>, p: Ref, marks: set<string>)
    requires WellFormed(a) && p in a.nodes
    requires forall c :: c in cs ==> c in a.nodes && p < c
    ensures StrippedKids(CloneAll(a, cs, p), marks) == Canons(a, NonBadge(a, cs), marks)
    decreases |cs|
  {
    if cs != [] {
      assert forall c :: c in cs[1..] ==> c in cs;
      StrippedClones(a, cs[1..], p, marks);
      StrippedKidsCons(CloneTree(a, cs[0]), CloneAll(a, cs[1..], p), marks);
    }
  }

  /** Stripping the rebuilt children of `cs` keeps those of the non-badge members. */
  lemma {:induction false} StrippedBuilds(a: Arena, cs: seq<Ref>, path: seq<Ref>, marks: set<string>)
    requires WellFormed(a) && forall c :: c in cs ==> c in a.nodes
    ensures StrippedKids(BuildKids(a, cs, path, marks), marks) == BuildCanons(a, NonBadge(a, cs), path, marks)
    decreases |cs|
  {
    if cs != [] {
      StrippedBuilds(a, cs[1..], path, marks);
      BuildKidBadge(a, cs[0], path, marks);
      StrippedKidsCons(BuildKid(a, cs[0], path, marks), BuildKids(a, cs[1..], path, marks), marks);
    }
  }

  /** A rebuilt child is a badge exactly when the original is. */
  lemma BuildKidBadge(a: Arena, c: Ref, path: seq<Ref>, marks: set<string>)
    requires WellFormed(a) && c in a.nodes
    ensures IsBadgeTree(BuildKid(a, c, path, marks)) == IsBadge(a, c)
  {
    assert BadgeAttr != "data-target";
  }

  lemma {:induction false} CanonsAgree(a1: Arena, a2: Arena, ns: seq<Ref>, r: Ref, marks: set<string>)
    requires SameContent(a1, a2, marks) && r in a1.nodes && r in a2.nodes
    requires forall c :: c in ns ==> c in a1.nodes && c in a2.nodes && r < c
    ensures Canons(a1, ns, marks) == Canons(a2, ns, marks)
    decreases a1.next - r, 0
  {
    forall i | 0 <= i < |ns|
      ensures Stripped(CloneTree(a1, ns[i]), marks) == Stripped(CloneTree(a2, ns[i]), marks)
    {
      assert ns[i] in a1.nodes;
      CloneInvisible(a1, a2, ns[i], marks);
    }
  }

  /** A stripped deep clone does not see marker classes or badges. */
  lemma {:induction false} CloneInvisible(a1: Arena, a2: Arena, r: Ref, marks: set<string>)
    requires SameContent(a1, a2, marks) && r in a1.nodes && r in a2.nodes
    ensures Stripped(CloneTree(a1, r), marks) == Stripped(CloneTree(a2, r), marks)
    decreases a1.next - r, 1
  {
    assert Alike(a1, a2, r, marks);
    ChildrenAbove(a1, r);
    ChildrenAbove(a2, r);
    var ch1 := a1.nodes[r].children;
    var ch2 := a2.nodes[r].children;
    StrippedClones(a1, ch1, r, marks);
    StrippedClones(a2, ch2, r, marks);
    var ns := NonBadge(a1, ch1);
    assert ns == NonBadge(a2, ch2);
    CanonsAgree(a1, a2, ns, r, marks);
  }

  /** The rebuilt tree does not see marker classes or badges. */
  lemma {:induction false} BuildInvisible(a1: Arena, a2: Arena, p: Ref, path: seq<Ref>, marks: set<string>)
    requires SameContent(a1, a2, marks) && p in a1.nodes && p in a2.nodes
    ensures BuildTree(a1, p, path, marks) == BuildTree(a2, p, path, marks)
    decreases |path|, 2
  {
    assert Alike(a1, a2, p, marks);
    ChildrenAbove(a1, p);
    ChildrenAbove(a2, p);
    var ch1 := a1.nodes[p].children;
    var ch2 := a2.nodes[p].children;
    StrippedBuilds(a1, ch1, path, marks);
    StrippedBuilds(a2, ch2, path, marks);
    var ns := NonBadge(a1, ch1);
    assert ns == NonBadge(a2, ch2);
    BuildCanonsAgree(a1, a2, ns, path, marks);
  }

  /** The rebuilt children, marks stripped, agree when the two documents have the same content. */
  lemma {:induction false} BuildCanonsAgree(a1: Arena, a2: Arena, ns: seq<Ref>, path: seq<Ref>, marks: set<string>)
    requires SameContent(a1, a2, marks) && forall c :: c in ns ==> c in a1.nodes && c in a2.nodes
    ensures BuildCanons(a1, ns, path, marks) == BuildCanons(a2, ns, path, marks)
    decreases |path|, 1, |ns|
  {
    if ns != [] {
      KidInvisible(a1, a2, ns[0], path, marks);
      BuildCanonsAgree(a1, a2, ns[1..], path, marks);
    }
  }

  /** One child's subtree, marks stripped, does not see marker classes or badges either. */
  lemma {:induction false} KidInvisible(a1: Arena, a2: Arena, c: Ref, path: seq<Ref>, marks: set<string>)
    requires SameContent(a1, a2, marks) && c in a1.nodes && c in a2.nodes
    ensures Stripped(BuildKid(a1, c, path, marks), marks) == Stripped(BuildKid(a2, c, path, marks), marks)
    decreases |path|, 0
  {
    if |path| > 0 && c == path[0] && |path| > 1 {
      BuildInvisible(a1, a2, c, path[1..], marks);
    } else {
      CloneInvisible(a1, a2, c, marks);
    }
  }

  /**
   * Two documents that differ only in marks and badges, in which the element
   * has the same path to the body, give the element the same string.
   */
  lemma TreeStringInvisible(a1: Arena, a2: Arena, e: Ref, marks: set<string>)
    requires SameContent(a1, a2, marks) && a1.body.Some? && e in a1.nodes && e in a2.nodes
    requires PathToBody(a1, Some(e)) == PathToBody(a2, Some(e))
    ensures TreeString(a1, e, marks) == TreeString(a2, e, marks)
  {
    BuildInvisible(a1, a2, a1.body.value, PathToBody(a1, Some(e)), marks);
  }

  /** The path only depends on the parents along it. */
  lemma {:induction false} PathsAgree(a1: Arena, a2: Arena, cur: Option<Ref>)
    requires WellFormed(a1) && WellFormed(a2) && a1.body == a2.body
    requires cur.Some? ==> cur.value in a1.nodes && cur.value in a2.nodes
    requires forall x :: x in PathToBody(a1, cur) ==> x in a2.nodes && a2.nodes[x].parent == a1.nodes[x].parent
    ensures PathToBody(a1, cur) == PathToBody(a2, cur)
    decreases if cur.Some? then cur.value + 1 else 0
  {
    if cur.Some? && cur != a1.body {
      var p := a1.nodes[cur.value].parent;
      assert cur.value in PathToBody(a1, cur);
      PathsAgree(a1, a2, p);
    }
  }

  // ---------------------------------------------------------------- the editor's changes are invisible

  /** Every node of `a1` is in `a2` under the same parent. */
  ghost predicate SameParents(a1: Arena, a2: Arena) {
    forall x :: x in a1.nodes ==> x in a2.nodes && a2.nodes[x].parent == a1.nodes[x].parent
  }

  lemma {:induction false} WithoutWithout(s: seq<string>, m: string, ts: set<string>)
    requires m in ts
    ensures Without(Without(s, {m}), ts) == Without(s, ts)
  {
    if s != [] {
      WithoutWithout(s[1..], m, ts);
      var head := if s[0] in {m} then [] else [s[0]];
      WithoutAppend(head, Without(s[1..], {m}), ts);
    }
  }

  lemma NonBadgeFrame(a1: Arena, a2: Arena, cs: seq<Ref>)
    requires forall c :: c in cs ==> c in a1.nodes && c in a2.nodes && a1.nodes[c].attrs == a2.nodes[c].attrs
    ensures NonBadge(a1, cs) == NonBadge(a2, cs)
  {
  }

  lemma SameContentReflexive(a: Arena, marks: set<string>)
    requires WellFormed(a)
    ensures SameContent(a, a, marks)
  {
  }

  /** Differing only in marks and badges is transitive while no node disappears. */
  lemma SameContentTransitive(a0: Arena, a1: Arena, a2: Arena, marks: set<string>)
    requires SameContent(a0, a1, marks) && SameContent(a1, a2, marks)
    requires a0.nodes.Keys <= a1.nodes.Keys
    ensures SameContent(a0, a2, marks)
  {
    forall r | r in a0.nodes && r in a2.nodes
      ensures Alike(a0, a2, r, marks)
    {
      assert Alike(a0, a1, r, marks) && Alike(a1, a2, r, marks);
    }
  }

  /** Changing classes only within `marks` is invisible and moves nothing. */
  lemma SetClassesInvisible(a: Arena, x: Ref, cls: seq<string>, marks: set<string>)
    requires WellFormed(a) && x in a.nodes
    requires Without(cls, marks) == Without(a.nodes[x].classes, marks)
    ensures SameContent(a, SetClasses(a, x, cls), marks) && SameParents(a, SetClasses(a, x, cls))
  {
    var a' := SetClasses(a, x, cls);
    forall r | r in a.nodes
      ensures Alike(a, a', r, marks)
    {
      AlikeAfterSetClasses(a, x, cls, marks, r);
    }
  }

  lemma AlikeAfterSetClasses(a: Arena, x: Ref, cls: seq<string>, marks: set<string>, r: Ref)
    requires WellFormed(a) && x in a.nodes && r in a.nodes
    requires Without(cls, marks) == Without(a.nodes[x].classes, marks)
    ensures Alike(a, SetClasses(a, x, cls), r, marks)
  {
    var a' := SetClasses(a, x, cls);
    ChildrenAbove(a, r);
    NonBadgeFrame(a, a', a.nodes[r].children);
    if r == x {
      assert a'.nodes[r] == a.nodes[r].(classes := cls);
    } else {
      assert a'.nodes[r] == a.nodes[r];
    }
  }

  /** Adding a marker class is invisible and moves nothing. */
  lemma AddMarkInvisible(a: Arena, x: Ref, m: string, marks: set<string>)
    requires WellFormed(a) && x in a.nodes && m in marks
    ensures SameContent(a, AddClass(a, x, m), marks) && SameParents(a, AddClass(a, x, m))
  {
    var cls := a.nodes[x].classes;
    if m !in cls {
      WithoutAppend(cls, [m], marks);
    }
    SetClassesInvisible(a, x, AddToken(cls, m), marks);
  }

  /** Removing a marker class is invisible and moves nothing. */
  lemma RemoveMarkInvisible(a: Arena, x: Ref, m: string, marks: set<string>)
    requires WellFormed(a) && x in a.nodes && m in marks
    ensures SameContent(a, RemoveClass(a, x, m), marks) && SameParents(a, RemoveClass(a, x, m))
  {
    WithoutWithout(a.nodes[x].classes, m, marks);
    SetClassesInvisible(a, x, RemoveToken(a.nodes[x].classes, m), marks);
  }

  /** Appending a badge is invisible and moves no existing node. */
  lemma AddBadgeInvisible(a: Arena, el: Ref, id: string, marks: set<string>)
    requires WellFormed(a) && el in a.nodes
    ensures SameContent(a, AppendBadge(a, el, id), marks) && SameParents(a, AppendBadge(a, el, id))
  {
    var a' := AppendBadge(a, el, id);
    forall r | r in a.nodes
      ensures Alike(a, a', r, marks)
    {
      AlikeAfterAppendBadge(a, el, id, marks, r);
    }
  }

  lemma AlikeAfterAppendBadge(a: Arena, el: Ref, id: string, marks: set<string>, r: Ref)
    requires WellFormed(a) && el in a.nodes && r in a.nodes
    ensures Alike(a, AppendBadge(a, el, id), r, marks)
  {
    var a' := AppendBadge(a, el, id);
    var cs := a.nodes[r].children;
    NonBadgeFrame(a, a', cs);
    if r == el {
      NonBadgeAppend(a', cs, [a.next]);
    }
  }

  lemma {:induction false} NonBadgeRemoveBadge(a: Arena, cs: seq<Ref>, b: Ref)
    requires b in a.nodes && IsBadge(a, b) && forall c :: c in cs ==> c in a.nodes
    ensures NonBadge(a, RemoveRef(cs, b)) == NonBadge(a, cs)
  {
    if cs != [] {
      NonBadgeRemoveBadge(a, cs[1..], b);
      var head := if cs[0] == b then [] else [cs[0]];
      NonBadgeAppend(a, head, RemoveRef(cs[1..], b));
    }
  }

  /** Removing a badge is invisible and moves nothing but the badge. */
  lemma RemoveBadgeInvisible(a: Arena, b: Ref, marks: set<string>)
    requires WellFormed(a) && b in a.nodes && IsBadge(a, b)
    ensures SameContent(a, Detach(a, b), marks)
    ensures forall x :: x in a.nodes && x != b ==> Detach(a, b).nodes[x].parent == a.nodes[x].parent
  {
    var a' := Detach(a, b);
    forall r | r in a.nodes
      ensures Alike(a, a', r, marks)
    {
      var cs := a.nodes[r].children;
      if Some(r) == a.nodes[b].parent {
        NonBadgeRemoveBadge(a, cs, b);
        NonBadgeFrame(a, a', RemoveRef(cs, b));
      } else {
        NonBadgeFrame(a, a', cs);
      }
    }
  }

  /** Where every node keeps its parent, every element keeps its path. */
  lemma SamePathsWhenSameParents(a1: Arena, a2: Arena, e: Ref)
    requires WellFormed(a1) && WellFormed(a2) && a1.body == a2.body && SameParents(a1, a2) && e in a1.nodes
    ensures PathToBody(a1, Some(e)) == PathToBody(a2, Some(e))
  {
    PathsAgree(a1, a2, Some(e));
  }

  // ---------------------------------------------------------------- text left behind by `cloneNode(false)`

  /** The two documents hold the same nodes above handle `lo`. */
  ghost predicate SameAbove(a1: Arena, a2: Arena, lo: Ref) {
    forall x :: x in a1.nodes && lo < x ==> x in a2.nodes && a2.nodes[x] == a1.nodes[x]
  }

  /** A deep clone reads only the nodes of its subtree, all above its root. */
  lemma {:induction false} CloneFrameAbove(a1: Arena, a2: Arena, r: Ref, lo: Ref)
    requires WellFormed(a1) && WellFormed(a2) && r in a1.nodes && lo < r && SameAbove(a1, a2, lo)
    ensures CloneTree(a1, r) == CloneTree(a2, r)
    decreases a1.next - r, 1
  {
    ChildrenAbove(a1, r);
    CloneAllFrameAbove(a1, a2, a1.nodes[r].children, r, lo);
  }

  lemma {:induction false} CloneAllFrameAbove(a1: Arena, a2: Arena, cs: seq<Ref>, p: Ref, lo: Ref)
    requires WellFormed(a1) && WellFormed(a2) && p in a1.nodes && p in a2.nodes && lo <= p && SameAbove(a1, a2, lo)
    requires forall c :: c in cs ==> c in a1.nodes && p < c
    ensures CloneAll(a1, cs, p) == CloneAll(a2, cs, p)
    decreases a1.next - p, 0, |cs|
  {
    if cs != [] {
      assert cs[0] in cs;
      CloneFrameAbove(a1, a2, cs[0], lo);
      CloneAllFrameAbove(a1, a2, cs[1..], p, lo);
    }
  }

  /** The rebuilt subtree of `p` reads only nodes above `p`'s handle. */
  lemma {:induction false} BuildFrameAbove(a1: Arena, a2: Arena, p: Ref, path: seq<Ref>, marks: set<string>, lo: Ref)
    requires WellFormed(a1) && WellFormed(a2) && p in a1.nodes && lo < p && SameAbove(a1, a2, lo)
    ensures BuildTree(a1, p, path, marks) == BuildTree(a2, p, path, marks)
    decreases |path|, 2
  {
    ChildrenAbove(a1, p);
    BuildKidsFrameAbove(a1, a2, a1.nodes[p].children, path, marks, lo);
  }

  lemma {:induction false} BuildKidsFrameAbove(a1: Arena, a2: Arena, cs: seq<Ref>, path: seq<Ref>, marks: set<string>, lo: Ref)
    requires WellFormed(a1) && WellFormed(a2) && SameAbove(a1, a2, lo)
    requires forall c :: c in cs ==> c in a1.nodes && lo < c
    ensures BuildKids(a1, cs, path, marks) == BuildKids(a2, cs, path, marks)
    decreases |path|, 1, |cs|
  {
    if cs != [] {
      assert cs[0] in cs;
      BuildKidFrameAbove(a1, a2, cs[0], path, marks, lo);
      BuildKidsFrameAbove(a1, a2, cs[1..], path, marks, lo);
    }
  }

  lemma {:induction false} BuildKidFrameAbove(a1: Arena, a2: Arena, c: Ref, path: seq<Ref>, marks: set<string>, lo: Ref)
    requires WellFormed(a1) && WellFormed(a2) && c in a1.nodes && lo < c && SameAbove(a1, a2, lo)
    ensures BuildKid(a1, c, path, marks) == BuildKid(a2, c, path, marks)
    decreases |path|, 0
  {
    if |path| > 0 && c == path[0] && |path| > 1 {
      BuildFrameAbove(a1, a2, c, path[1..], marks, lo);
    } else {
      CloneFrameAbove(a1, a2, c, lo);
    }
  }

  /**
   * `cloneNode(false)` copies no child nodes, text nodes included: the body's
   * own text is in no element's string.
   */
  lemma BodyTextUnread(a: Arena, s: string, e: Ref, marks: set<string>)
    requires WellFormed(a) && a.body.Some? && e in a.nodes
    ensures var b := a.body.value;
      TreeString(a.(nodes := a.nodes[b := a.nodes[b].(text := s)]), e, marks) == TreeString(a, e, marks)
  {
    var b := a.body.value;
    var a2 := a.(nodes := a.nodes[b := a.nodes[b].(text := s)]);
    assert WellFormed(a2);
    assert SameParents(a, a2);
    SamePathsWhenSameParents(a, a2, e);
    var path := PathToBody(a, Some(e));
    ChildrenAbove(a, b);
    BuildKidsFrameAbove(a, a2, a.nodes[b].children, path, marks, b);
    assert ShallowClone(a2, b) == ShallowClone(a, b);
  }

  // ---------------------------------------------------------------- the selection-mode class

  /**
   * As written, the stripped set misses the class that selection mode puts on
   * `document.body`, and the body's own classes are part of every string: a
   * plain `<body>` gets one string with the mode on and another with it off,
   * for every element of the document.
   */
  lemma SelectionModeChangesStrings(a: Arena, e: Ref)
    requires WellFormed(a) && e in a.nodes && a.body.Some?
    requires var b := a.nodes[a.body.value]; b.tag == "body" && b.classes == [] && b.attrs == []
    ensures TreeString(AddClass(a, a.body.value, ModeClass), e, SourceMarks) != TreeString(a, e, SourceMarks)
  {
    var b := a.body.value;
    var a' := AddClass(a, b, ModeClass);
    var t := BuildTree(a, b, PathToBody(a, Some(e)), SourceMarks);
    var t' := BuildTree(a', b, PathToBody(a', Some(e)), SourceMarks);
    assert Without([], SourceMarks) == [];
    assert Without([ModeClass], SourceMarks) == [ModeClass];
    assert OuterHtml(t)[5] == '>';
    assert OuterHtml(t')[5] == ' ';
  }

  /** With the mode class among the stripped marks, entering selection mode changes no string. */
  lemma SelectionModeOnInvisible(a: Arena, e: Ref)
    requires WellFormed(a) && e in a.nodes && a.body.Some?
    ensures TreeString(AddClass(a, a.body.value, ModeClass), e, Marks) == TreeString(a, e, Marks)
  {
    var a' := AddClass(a, a.body.value, ModeClass);
    AddMarkInvisible(a, a.body.value, ModeClass, Marks);
    SamePathsWhenSameParents(a, a', e);
    TreeStringInvisible(a, a', e, Marks);
  }

  /** With the mode class among the stripped marks, leaving selection mode changes no string. */
  lemma SelectionModeOffInvisible(a: Arena, e: Ref)
    requires WellFormed(a) && e in a.nodes && a.body.Some?
    ensures TreeString(RemoveClass(a, a.body.value, ModeClass), e, Marks) == TreeString(a, e, Marks)
  {
    var a' := RemoveClass(a, a.body.value, ModeClass);
    RemoveMarkInvisible(a, a.body.value, ModeClass, Marks);
    SamePathsWhenSameParents(a, a', e);
    TreeStringInvisible(a, a', e, Marks);
  }
}
