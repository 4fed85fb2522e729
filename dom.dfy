/**
 * The part of the browser DOM that the element picker in
 * frontend/src/hooks/useEditor.ts reads and writes, as an arena of elements
 * addressed by handles.
 *
 * An element has a tag, its attributes other than `class` (in order), its
 * class list (an ordered token list without repeats, like `DOMTokenList`),
 * its own text, its children and its parent. A node removed from the
 * document stays in the arena with no parent, as a removed DOM node stays
 * alive for whoever still holds it. Handles are allocated so that a child's
 * handle is greater than its parent's, which is what makes walks up and
 * down the tree terminate.
 */
module Dom {
  import opened Options

  type Ref = nat

  datatype Element = Element(
    tag: string,
    attrs: seq<(string, string)>,
    classes: seq<string>,
    text: string,
    children: seq<Ref>,
    parent: Option<Ref>,
    /** whether the computed `position` is `static`; the stylesheet is outside the model */
    staticPosition: bool)

  /** The document: its elements, `document.documentElement`, `document.body`, and the next free handle. */
  datatype Arena = Arena(nodes: map<Ref, Element>, root: Ref, body: Option<Ref>, next: Ref)

  /** A detached copy of a subtree, what `cloneNode` produces. */
  datatype Tree = Tree(tag: string, attrs: seq<(string, string)>, classes: seq<string>, text: string, kids: seq<Tree>)

  ghost predicate WellFormed(a: Arena) {
    && a.root in a.nodes
    && (a.body.Some? ==> a.body.value in a.nodes)
    && (forall r :: r in a.nodes ==> r < a.next)
    && (forall r, c {:trigger c in a.nodes[r].children} :: r in a.nodes && c in a.nodes[r].children ==>
          c in a.nodes && r < c && a.nodes[c].parent == Some(r))
    && (forall r :: r in a.nodes && a.nodes[r].parent.Some? ==>
          a.nodes[r].parent.value in a.nodes && a.nodes[r].parent.value < r)
  }

  lemma ChildrenAbove(a: Arena, r: Ref)
    requires WellFormed(a) && r in a.nodes
    ensures forall c :: c in a.nodes[r].children ==> c in a.nodes && r < c && a.nodes[c].parent == Some(r)
  {
  }

  // ---------------------------------------------------------------- token lists and attributes

  /** The tokens of `s` that are not in `ts`, in order. */
  function Without(s: seq<string>, ts: set<string>): (r: seq<string>)
    ensures forall t :: t in r <==> t in s && t !in ts
    ensures |r| <= |s|
  {
    if s == [] then [] else (if s[0] in ts then [] else [s[0]]) + Without(s[1..], ts)
  }

  /** Tokens outside the set are all kept, as they were. */
  lemma {:induction false} WithoutNone(s: seq<string>, ts: set<string>)
    requires forall c :: c in s ==> c !in ts
    ensures Without(s, ts) == s
  {
    if s != [] {
      WithoutNone(s[1..], ts);
      assert [s[0]] + s[1..] == s;
    }
  }

  /** Removing tokens from two lists joined is removing them from each: the kept tokens keep their order. */
  lemma {:induction false} WithoutAppend(xs: seq<string>, ys: seq<string>, ts: set<string>)
    ensures Without(xs + ys, ts) == Without(xs, ts) + Without(ys, ts)
  {
    if xs == [] {
      assert xs + ys == ys;
    } else {
      assert (xs + ys)[0] == xs[0];
      assert (xs + ys)[1..] == xs[1..] + ys;
      WithoutAppend(xs[1..], ys, ts);
    }
  }

  /** `classList.add(t)`: appended when absent. */
  function AddToken(s: seq<string>, t: string): (r: seq<string>)
    ensures t in r && forall u :: u in r <==> u in s || u == t
  {
    if t in s then s else s + [t]
  }

  /** `classList.remove(t)`. */
  function RemoveToken(s: seq<string>, t: string): (r: seq<string>)
    ensures t !in r && forall u :: u in r <==> u in s && u != t
  {
    Without(s, {t})
  }

  /** `getAttribute(name)`: the value of the first attribute with that name. */
  function GetAttr(attrs: seq<(string, string)>, name: string): Option<string> {
    if attrs == [] then None
    else if attrs[0].0 == name then Some(attrs[0].1)
    else GetAttr(attrs[1..], name)
  }

  /** `setAttribute(name, value)`: replaces the value in place, or appends the attribute. */
  function SetAttr(attrs: seq<(string, string)>, name: string, value: string): (r: seq<(string, string)>)
    ensures GetAttr(r, name) == Some(value)
    ensures forall n :: n != name ==> GetAttr(r, n) == GetAttr(attrs, n)
  {
    if attrs == [] then [(name, value)]
    else if attrs[0].0 == name then [(name, value)] + attrs[1..]
    else [attrs[0]] + SetAttr(attrs[1..], name, value)
  }

  const BadgeAttr := "data-editor-badge"

  /** Matches the selector `[data-editor-badge="1"]`. */
  predicate IsBadgeAttrs(attrs: seq<(string, string)>) {
    GetAttr(attrs, BadgeAttr) == Some("1")
  }

  predicate IsBadge(a: Arena, r: Ref)
    requires r in a.nodes
  {
    IsBadgeAttrs(a.nodes[r].attrs)
  }

  predicate HasClass(a: Arena, r: Ref, c: string)
    requires r in a.nodes
  {
    c in a.nodes[r].classes
  }

  // ---------------------------------------------------------------- reading the tree

  /** `cloneNode(true)`. */
  function CloneTree(a: Arena, r: Ref): (t: Tree)
    requires WellFormed(a) && r in a.nodes
    ensures t.tag == a.nodes[r].tag && t.attrs == a.nodes[r].attrs && t.classes == a.nodes[r].classes
    ensures |t.kids| == |a.nodes[r].children|
    decreases a.next - r, 1
  {
    var e := a.nodes[r];
    ChildrenAbove(a, r);
    Tree(e.tag, e.attrs, e.classes, e.text, CloneAll(a, e.children, r))
  }

  function CloneAll(a: Arena, cs: seq<Ref>, p: Ref): (ts: seq<Tree>)
    requires WellFormed(a) && p in a.nodes
    requires forall c :: c in cs ==> c in a.nodes && p < c
    ensures |ts| == |cs|
    ensures forall i :: 0 <= i < |cs| ==> ts[i] == CloneTree(a, cs[i])
    decreases a.next - p, 0, |cs|
  {
    if cs == [] then [] else [CloneTree(a, cs[0])] + CloneAll(a, cs[1..], p)
  }

  /**
   * `cloneNode(false)`: the element without its child nodes. Text is held in
   * child text nodes, so the clone has no text either.
   */
  function ShallowClone(a: Arena, r: Ref): (t: Tree)
    requires r in a.nodes
    ensures t.tag == a.nodes[r].tag && t.attrs == a.nodes[r].attrs && t.classes == a.nodes[r].classes
    ensures t.text == "" && t.kids == []
  {
    var e := a.nodes[r];
    Tree(e.tag, e.attrs, e.classes, "", [])
  }

  /** The subtree of `r` in document order (pre-order), `r` first. */
  function Preorder(a: Arena, r: Ref): (rs: seq<Ref>)
    requires WellFormed(a) && r in a.nodes
    ensures |rs| >= 1 && rs[0] == r
    ensures forall x :: x in rs ==> x in a.nodes && r <= x
    decreases a.next - r, 1
  {
    ChildrenAbove(a, r);
    [r] + PreorderAll(a, a.nodes[r].children, r)
  }

  function PreorderAll(a: Arena, cs: seq<Ref>, p: Ref): (rs: seq<Ref>)
    requires WellFormed(a) && p in a.nodes
    requires forall c :: c in cs ==> c in a.nodes && p < c
    ensures forall x :: x in rs ==> x in a.nodes && p < x
    decreases a.next - p, 0, |cs|
  {
    if cs == [] then []
    else
      assert forall c :: c in cs[1..] ==> c in cs;
      Preorder(a, cs[0]) + PreorderAll(a, cs[1..], p)
  }

  /** Document order only depends on the children lists. */
  lemma {:induction false} PreorderFrame(a1: Arena, a2: Arena, r: Ref)
    requires WellFormed(a1) && WellFormed(a2) && r in a1.nodes
    requires forall x :: x in a1.nodes ==> x in a2.nodes && a2.nodes[x].children == a1.nodes[x].children
    ensures Preorder(a1, r) == Preorder(a2, r)
    decreases a1.next - r, 1
  {
    ChildrenAbove(a1, r);
    ChildrenAbove(a2, r);
    PreorderAllFrame(a1, a2, a1.nodes[r].children, r);
  }

  lemma {:induction false} PreorderAllFrame(a1: Arena, a2: Arena, cs: seq<Ref>, p: Ref)
    requires WellFormed(a1) && WellFormed(a2) && p in a1.nodes && p in a2.nodes
    requires forall c :: c in cs ==> c in a1.nodes && p < c
    requires forall x :: x in a1.nodes ==> x in a2.nodes && a2.nodes[x].children == a1.nodes[x].children
    ensures PreorderAll(a1, cs, p) == PreorderAll(a2, cs, p)
    decreases a1.next - p, 0, |cs|
  {
    if cs != [] {
      assert cs[0] in cs;
      PreorderFrame(a1, a2, cs[0]);
      PreorderAllFrame(a1, a2, cs[1..], p);
    }
  }

  /** A subtree walk only reads the children of the nodes it visits, all above `lo`. */
  lemma {:induction false} PreorderFrameAbove(a1: Arena, a2: Arena, r: Ref, lo: Ref)
    requires WellFormed(a1) && WellFormed(a2) && r in a1.nodes && lo < r
    requires forall x :: x in a1.nodes && lo < x ==> x in a2.nodes && a2.nodes[x].children == a1.nodes[x].children
    ensures Preorder(a1, r) == Preorder(a2, r)
    decreases a1.next - r, 1
  {
    ChildrenAbove(a1, r);
    ChildrenAbove(a2, r);
    PreorderAllFrameAbove(a1, a2, a1.nodes[r].children, r, lo);
  }

  lemma {:induction false} PreorderAllFrameAbove(a1: Arena, a2: Arena, cs: seq<Ref>, p: Ref, lo: Ref)
    requires WellFormed(a1) && WellFormed(a2) && p in a1.nodes && p in a2.nodes && lo <= p
    requires forall c :: c in cs ==> c in a1.nodes && p < c
    requires forall x :: x in a1.nodes && lo < x ==> x in a2.nodes && a2.nodes[x].children == a1.nodes[x].children
    ensures PreorderAll(a1, cs, p) == PreorderAll(a2, cs, p)
    decreases a1.next - p, 0, |cs|
  {
    if cs != [] {
      assert cs[0] in cs;
      PreorderFrameAbove(a1, a2, cs[0], lo);
      PreorderAllFrameAbove(a1, a2, cs[1..], p, lo);
    }
  }

  /** Walking two lists of subtrees one after the other is walking the joined list. */
  lemma {:induction false} PreorderAllAppend(a: Arena, xs: seq<Ref>, ys: seq<Ref>, p: Ref)
    requires WellFormed(a) && p in a.nodes
    requires (forall c :: c in xs ==> c in a.nodes && p < c) && (forall c :: c in ys ==> c in a.nodes && p < c)
    ensures PreorderAll(a, xs + ys, p) == PreorderAll(a, xs, p) + PreorderAll(a, ys, p)
    decreases |xs|
  {
    hide WellFormed;
    if xs == [] {
      assert xs + ys == ys;
    } else {
      var zs := xs + ys;
      assert zs[0] == xs[0] && zs[1..] == xs[1..] + ys;
      assert forall c :: c in xs[1..] ==> c in xs;
      PreorderAllAppend(a, xs[1..], ys, p);
    }
  }

  /** Every child of `p` in `cs` is visited by the walk over `cs`. */
  lemma {:induction false} ChildInPreorderAll(a: Arena, cs: seq<Ref>, p: Ref, c: Ref)
    requires WellFormed(a) && p in a.nodes && (forall x :: x in cs ==> x in a.nodes && p < x) && c in cs
    ensures c in PreorderAll(a, cs, p)
    decreases |cs|
  {
    if cs[0] != c {
      assert c in cs[1..];
      ChildInPreorderAll(a, cs[1..], p, c);
    }
  }

  /** `x` is `r` or lies below it: following parent links up from `x` reaches `r`. */
  ghost predicate Under(a: Arena, x: Ref, r: Ref)
    requires WellFormed(a) && x in a.nodes
    decreases x
  {
    x == r || (a.nodes[x].parent.Some? && Under(a, a.nodes[x].parent.value, r))
  }

  /** Below a child is below its parent. */
  lemma {:induction false} UnderParent(a: Arena, x: Ref, c: Ref, p: Ref)
    requires WellFormed(a) && x in a.nodes && c in a.nodes && a.nodes[c].parent == Some(p)
    requires Under(a, x, c)
    ensures Under(a, x, p)
    decreases x
  {
    if x == c {
      assert Under(a, p, p);
    } else {
      UnderParent(a, a.nodes[x].parent.value, c, p);
    }
  }

  /** The subtree walk lists `r` and nodes below `r`, and nothing else. */
  lemma {:induction false} PreorderBelow(a: Arena, r: Ref)
    requires WellFormed(a) && r in a.nodes
    ensures forall x :: x in Preorder(a, r) ==> Under(a, x, r)
    decreases a.next - r, 1
  {
    ChildrenAbove(a, r);
    PreorderAllBelow(a, a.nodes[r].children, r);
  }

  lemma {:induction false} PreorderAllBelow(a: Arena, cs: seq<Ref>, p: Ref)
    requires WellFormed(a) && p in a.nodes
    requires forall c :: c in cs ==> c in a.nodes && p < c && a.nodes[c].parent == Some(p)
    ensures forall x :: x in PreorderAll(a, cs, p) ==> Under(a, x, p) && x != p
    decreases a.next - p, 0, |cs|
  {
    if cs != [] {
      assert cs[0] in cs;
      assert forall c :: c in cs[1..] ==> c in cs;
      PreorderBelow(a, cs[0]);
      forall x | x in Preorder(a, cs[0])
        ensures Under(a, x, p)
      {
        UnderParent(a, x, cs[0], p);
      }
      PreorderAllBelow(a, cs[1..], p);
    }
  }

  /** `document.querySelectorAll('*')`: every element in the document, in document order. */
  function AllElements(a: Arena): (rs: seq<Ref>)
    requires WellFormed(a)
    ensures forall x :: x in rs ==> x in a.nodes
  {
    Preorder(a, a.root)
  }

  /** The elements of `rs` that carry class `c`, in order. */
  function WithClass(a: Arena, rs: seq<Ref>, c: string): (r: seq<Ref>)
    requires forall x :: x in rs ==> x in a.nodes
    ensures forall x :: x in r <==> x in rs && HasClass(a, x, c)
  {
    if rs == [] then [] else (if HasClass(a, rs[0], c) then [rs[0]] else []) + WithClass(a, rs[1..], c)
  }

  /** The elements of `rs` that are badges, in order. */
  function Badges(a: Arena, rs: seq<Ref>): (r: seq<Ref>)
    requires forall x :: x in rs ==> x in a.nodes
    ensures forall x :: x in r <==> x in rs && IsBadge(a, x)
  {
    if rs == [] then [] else (if IsBadge(a, rs[0]) then [rs[0]] else []) + Badges(a, rs[1..])
  }

  /**
   * `el.querySelector('[data-editor-badge="1"]')`: the first badge strictly
   * below `el` in document order; none when no node below `el` is a badge.
   */
  function FirstBadgeBelow(a: Arena, el: Ref): (b: Option<Ref>)
    requires WellFormed(a) && el in a.nodes
    ensures b.Some? ==> b.value in a.nodes && IsBadge(a, b.value) && el < b.value && Under(a, b.value, el)
    ensures var below := Preorder(a, el)[1..];
      && (b.None? <==> forall i :: 0 <= i < |below| ==> !IsBadge(a, below[i]))
      && (b.Some? ==> exists i :: 0 <= i < |below| && below[i] == b.value && forall j :: 0 <= j < i ==> !IsBadge(a, below[j]))
  {
    var rs := Preorder(a, el);
    assert forall x :: x in rs[1..] ==> x in rs;
    var below := Badges(a, rs[1..]);
    BadgesFirst(a, rs[1..]);
    PreorderBelow(a, el);
    if below == [] then None else assert below[0] in below; Some(below[0])
  }

  /** The first badge of a list is the first element of the list that is a badge. */
  lemma {:induction false} BadgesFirst(a: Arena, rs: seq<Ref>)
    requires forall x :: x in rs ==> x in a.nodes
    ensures Badges(a, rs) == [] <==> forall i :: 0 <= i < |rs| ==> !IsBadge(a, rs[i])
    ensures Badges(a, rs) != [] ==>
      exists i :: 0 <= i < |rs| && rs[i] == Badges(a, rs)[0] && forall j :: 0 <= j < i ==> !IsBadge(a, rs[j])
  {
    if rs != [] {
      assert forall x :: x in rs[1..] ==> x in rs;
      BadgesFirst(a, rs[1..]);
      if IsBadge(a, rs[0]) {
        assert Badges(a, rs)[0] == rs[0];
      } else if Badges(a, rs) != [] {
        var tail := rs[1..];
        assert Badges(a, rs) == Badges(a, tail);
        var i :| 0 <= i < |tail| && tail[i] == Badges(a, tail)[0] && forall j :: 0 <= j < i ==> !IsBadge(a, tail[j]);
        forall j | 0 <= j < i + 1
          ensures !IsBadge(a, rs[j])
        {
          if j > 0 {
            assert rs[j] == tail[j - 1];
          }
        }
        assert rs[i + 1] == Badges(a, rs)[0];
      } else {
        forall i | 0 <= i < |rs|
          ensures !IsBadge(a, rs[i])
        {
          if i > 0 {
            assert rs[i] == rs[1..][i - 1];
          }
        }
      }
    }
  }

  /** `el.querySelector(':scope > [data-editor-badge="1"]')`: the first badge among the children of `el`. */
  function OwnBadge(a: Arena, el: Ref): (b: Option<Ref>)
    requires WellFormed(a) && el in a.nodes
    ensures b.Some? ==> b.value in a.nodes[el].children && IsBadge(a, b.value) && a.nodes[b.value].parent == Some(el)
    ensures b.None? ==> forall c :: c in a.nodes[el].children ==> !IsBadge(a, c)
  {
    ChildrenAbove(a, el);
    var own := Badges(a, a.nodes[el].children);
    if own == [] then None else assert own[0] in own; Some(own[0])
  }

  // ---------------------------------------------------------------- changing the tree

  function SetClasses(a: Arena, r: Ref, cls: seq<string>): (a': Arena)
    requires WellFormed(a) && r in a.nodes
    ensures WellFormed(a')
    ensures a'.nodes.Keys == a.nodes.Keys && a'.root == a.root && a'.body == a.body && a'.next == a.next
    ensures a'.nodes[r] == a.nodes[r].(classes := cls)
    ensures forall x :: x in a.nodes && x != r ==> a'.nodes[x] == a.nodes[x]
  {
    a.(nodes := a.nodes[r := a.nodes[r].(classes := cls)])
  }

  /** `el.classList.add(c)`. */
  function AddClass(a: Arena, r: Ref, c: string): (a': Arena)
    requires WellFormed(a) && r in a.nodes
    ensures WellFormed(a')
    ensures a'.nodes.Keys == a.nodes.Keys && a'.root == a.root && a'.body == a.body && a'.next == a.next
    ensures a'.nodes[r] == a.nodes[r].(classes := AddToken(a.nodes[r].classes, c))
    ensures forall x :: x in a.nodes && x != r ==> a'.nodes[x] == a.nodes[x]
  {
    SetClasses(a, r, AddToken(a.nodes[r].classes, c))
  }

  /** `el.classList.remove(c)`. */
  function RemoveClass(a: Arena, r: Ref, c: string): (a': Arena)
    requires WellFormed(a) && r in a.nodes
    ensures WellFormed(a')
    ensures a'.nodes.Keys == a.nodes.Keys && a'.root == a.root && a'.body == a.body && a'.next == a.next
    ensures a'.nodes[r] == a.nodes[r].(classes := RemoveToken(a.nodes[r].classes, c))
    ensures forall x :: x in a.nodes && x != r ==> a'.nodes[x] == a.nodes[x]
  {
    SetClasses(a, r, RemoveToken(a.nodes[r].classes, c))
  }

  /**
   * The badge `addBadge` creates: `<span class="editor-badge"
   * data-editor-badge="1">id</span>`, absolutely positioned by the editor's
   * stylesheet.
   */
  function BadgeElement(id: string, parent: Ref): Element {
    Element("span", [(BadgeAttr, "1")], ["editor-badge"], id, [], Some(parent), false)
  }

  /** `el.appendChild(badge)` for a fresh badge; the new handle is `a.next`. */
  function AppendBadge(a: Arena, el: Ref, id: string): (a': Arena)
    requires WellFormed(a) && el in a.nodes
    ensures WellFormed(a')
    ensures a'.nodes.Keys == a.nodes.Keys + {a.next} && a'.next == a.next + 1
    ensures a'.root == a.root && a'.body == a.body
    ensures a'.nodes[a.next] == BadgeElement(id, el) && IsBadge(a', a.next)
    ensures a'.nodes[el] == a.nodes[el].(children := a.nodes[el].children + [a.next])
    ensures forall x :: x in a.nodes && x != el ==> a'.nodes[x] == a.nodes[x]
  {
    var b := a.next;
    var e := a.nodes[el];
    var a' := a.(nodes := a.nodes[el := e.(children := e.children + [b])][b := BadgeElement(id, el)], next := b + 1);
    AppendBadgeWellFormed(a, el, id, a');
    a'
  }

  lemma AppendBadgeWellFormed(a: Arena, el: Ref, id: string, a': Arena)
    requires WellFormed(a) && el in a.nodes
    requires a' == a.(nodes := a.nodes[el := a.nodes[el].(children := a.nodes[el].children + [a.next])]
                                      [a.next := BadgeElement(id, el)], next := a.next + 1)
    ensures WellFormed(a')
  {
    forall r, c {:trigger c in a'.nodes[r].children} | r in a'.nodes && c in a'.nodes[r].children
      ensures c in a'.nodes && r < c && a'.nodes[c].parent == Some(r)
    {
      if r == el {
        AppendBadgeLinkAtParent(a, el, id, a', c);
      } else {
        AppendBadgeLinkElsewhere(a, el, id, a', r, c);
      }
    }
  }

  lemma AppendBadgeLinkAtParent(a: Arena, el: Ref, id: string, a': Arena, c: Ref)
    requires WellFormed(a) && el in a.nodes
    requires a' == a.(nodes := a.nodes[el := a.nodes[el].(children := a.nodes[el].children + [a.next])]
                                      [a.next := BadgeElement(id, el)], next := a.next + 1)
    requires c in a'.nodes[el].children
    ensures c in a'.nodes && el < c && a'.nodes[c].parent == Some(el)
  {
  }

  lemma AppendBadgeLinkElsewhere(a: Arena, el: Ref, id: string, a': Arena, r: Ref, c: Ref)
    requires WellFormed(a) && el in a.nodes
    requires a' == a.(nodes := a.nodes[el := a.nodes[el].(children := a.nodes[el].children + [a.next])]
                                      [a.next := BadgeElement(id, el)], next := a.next + 1)
    requires r in a'.nodes && c in a'.nodes[r].children && r != el
    ensures c in a'.nodes && r < c && a'.nodes[c].parent == Some(r)
  {
  }

  function RemoveRef(cs: seq<Ref>, x: Ref): (r: seq<Ref>)
    ensures forall y :: y in r <==> y in cs && y != x
  {
    if cs == [] then [] else (if cs[0] == x then [] else [cs[0]]) + RemoveRef(cs[1..], x)
  }

  /** `node.remove()`: the node leaves its parent's children and keeps its own subtree. */
  function Detach(a: Arena, b: Ref): (a': Arena)
    requires WellFormed(a) && b in a.nodes
    ensures WellFormed(a')
    ensures a'.nodes.Keys == a.nodes.Keys && a'.root == a.root && a'.body == a.body && a'.next == a.next
    ensures a'.nodes[b] == a.nodes[b].(parent := None)
    ensures forall x :: x in a.nodes && x != b && Some(x) != a.nodes[b].parent ==> a'.nodes[x] == a.nodes[x]
    ensures a.nodes[b].parent.Some? ==>
      var p := a.nodes[b].parent.value;
      a'.nodes[p] == a.nodes[p].(children := RemoveRef(a.nodes[p].children, b))
  {
    match a.nodes[b].parent
    case None => a
    case Some(p) =>
      var pe := a.nodes[p];
      var a' := a.(nodes := a.nodes[p := pe.(children := RemoveRef(pe.children, b))][b := a.nodes[b].(parent := None)]);
      assert p != b by { assert p < b; }
      DetachWellFormed(a, b, p, a');
      a'
  }

  /** Taking `b` out of its parent `p`, node by node, keeps the arena well formed. */
  lemma DetachWellFormed(a: Arena, b: Ref, p: Ref, a': Arena)
    requires WellFormed(a) && b in a.nodes && a.nodes[b].parent == Some(p)
    requires a'.nodes.Keys == a.nodes.Keys && a'.root == a.root && a'.body == a.body && a'.next == a.next
    requires a'.nodes[b] == a.nodes[b].(parent := None)
    requires a'.nodes[p] == a.nodes[p].(children := RemoveRef(a.nodes[p].children, b))
    requires forall x :: x in a.nodes && x != b && x != p ==> a'.nodes[x] == a.nodes[x]
    ensures WellFormed(a')
  {
    DetachChildLinks(a, b, p, a');
    DetachParentLinks(a, b, p, a');
    assert a'.root in a'.nodes;
    forall r | r in a'.nodes
      ensures r < a'.next
    {
      assert r in a.nodes;
    }
  }

  /** After the detach every child still points back at its parent. */
  lemma DetachChildLinks(a: Arena, b: Ref, p: Ref, a': Arena)
    requires WellFormed(a) && b in a.nodes && a.nodes[b].parent == Some(p)
    requires a'.nodes.Keys == a.nodes.Keys && a'.root == a.root && a'.body == a.body && a'.next == a.next
    requires a'.nodes[b] == a.nodes[b].(parent := None)
    requires a'.nodes[p] == a.nodes[p].(children := RemoveRef(a.nodes[p].children, b))
    requires forall x :: x in a.nodes && x != b && x != p ==> a'.nodes[x] == a.nodes[x]
    ensures forall r, c {:trigger c in a'.nodes[r].children} :: r in a'.nodes && c in a'.nodes[r].children ==> c in a'.nodes && r < c && a'.nodes[c].parent == Some(r)
  {
    forall r, c {:trigger c in a'.nodes[r].children} | r in a'.nodes && c in a'.nodes[r].children
      ensures c in a'.nodes && r < c && a'.nodes[c].parent == Some(r)
    {
      ChildrenAbove(a, r);
      if r == p {
        assert c in a.nodes[r].children && c != b;
      } else {
        assert a'.nodes[r].children == a.nodes[r].children;
        assert c != b;
      }
    }
  }

  /** After the detach every parent link still points at an earlier node. */
  lemma DetachParentLinks(a: Arena, b: Ref, p: Ref, a': Arena)
    requires WellFormed(a) && b in a.nodes && a.nodes[b].parent == Some(p)
    requires a'.nodes.Keys == a.nodes.Keys && a'.root == a.root && a'.body == a.body && a'.next == a.next
    requires a'.nodes[b] == a.nodes[b].(parent := None)
    requires a'.nodes[p] == a.nodes[p].(children := RemoveRef(a.nodes[p].children, b))
    requires forall x :: x in a.nodes && x != b && x != p ==> a'.nodes[x] == a.nodes[x]
    ensures forall r :: r in a'.nodes && a'.nodes[r].parent.Some? ==> a'.nodes[r].parent.value in a'.nodes && a'.nodes[r].parent.value < r
  {
    forall r | r in a'.nodes && a'.nodes[r].parent.Some?
      ensures a'.nodes[r].parent.value in a'.nodes && a'.nodes[r].parent.value < r
    {
      assert r != b && a'.nodes[r].parent == a.nodes[r].parent;
    }
  }

  // ---------------------------------------------------------------- serialising

  /**
   * `outerHTML` of a detached tree. The model only needs a deterministic
   * serialiser that writes every part of the tree; escaping and the exact
   * byte form of the browser's serialiser are not modelled.
   */
  function OuterHtml(t: Tree): string
    decreases t
  {
    "<" + t.tag + ClassText(t.classes) + AttrsText(t.attrs) + ">" + t.text + KidsHtml(t.kids) + "</" + t.tag + ">"
  }

  function KidsHtml(ts: seq<Tree>): string
    decreases ts
  {
    if ts == [] then "" else OuterHtml(ts[0]) + KidsHtml(ts[1..])
  }

  function ClassText(cls: seq<string>): string {
    if cls == [] then "" else " class=\"" + Join(cls) + "\""
  }

  function Join(cls: seq<string>): string
    requires cls != []
  {
    if |cls| == 1 then cls[0] else cls[0] + " " + Join(cls[1..])
  }

  function AttrsText(attrs: seq<(string, string)>): string {
    if attrs == [] then "" else " " + attrs[0].0 + "=\"" + attrs[0].1 + "\"" + AttrsText(attrs[1..])
  }
}
