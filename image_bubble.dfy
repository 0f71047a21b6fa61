/** The image bubble (goog.editor.plugins.ImageBubble): which image a
    selection anchors the bubble to, the bubble's two options, and what its
    Edit and Remove actions do to the document and to the field's event
    stream. */
module Bubble {
  import opened Dom

  /** The node name of an image element. */
  const ImgTag: string := "IMG"

  predicate IsImg(doc: Document, n: NodeId)
  {
    n in doc && doc[n].tag == ImgTag
  }

  /** `parentNode`; a node outside the document has none. */
  function Parent(doc: Document, n: NodeId): Option<NodeId>
  {
    if n in doc then doc[n].parent else None
  }

  // ---------------------------------------------------------------------
  // Ancestors

  /** `n`, its parent, its parent's parent, ..., nearest first, following at
      most `fuel` parent links. */
  function Chain(doc: Document, n: NodeId, fuel: nat): (c: seq<NodeId>)
    ensures 1 <= |c| <= fuel + 1 && c[0] == n
    ensures forall i :: 0 <= i < |c| - 1 ==> Parent(doc, c[i]) == Some(c[i + 1])
    ensures |c| == fuel + 1 || Parent(doc, c[|c| - 1]).None?
    decreases fuel
  {
    if fuel == 0 then [n]
    else match Parent(doc, n)
      case None => [n]
      case Some(p) => [n] + Chain(doc, p, fuel - 1)
  }

  /** The self-or-ancestor chain of `n`, nearest first. A chain of parent
      links longer than the document repeats a node, so when parent links
      are acyclic this chain ends at a node without a parent: it holds every
      ancestor of `n` up to the root. */
  function SelfOrAncestors(doc: Document, n: NodeId): (c: seq<NodeId>)
    ensures 1 <= |c| <= |doc| + 1 && c[0] == n
    ensures forall i :: 0 <= i < |c| - 1 ==> Parent(doc, c[i]) == Some(c[i + 1])
    ensures Acyclic(doc) ==> Parent(doc, c[|c| - 1]).None?
  {
    ChainReachesRoot(doc, n);
    Chain(doc, n, |doc|)
  }

  /** No walk up the parent links comes back to the node it started from. */
  ghost predicate Acyclic(doc: Document)
  {
    forall n, fuel: nat, i :: 0 < i < |Chain(doc, n, fuel)| ==> Chain(doc, n, fuel)[i] != n
  }

  /** The chain from the `i`-th node of a chain is the rest of that chain. */
  lemma {:induction false} ChainSuffix(doc: Document, n: NodeId, fuel: nat, i: nat)
    requires i < |Chain(doc, n, fuel)|
    ensures i <= fuel
    ensures Chain(doc, n, fuel)[i..] == Chain(doc, Chain(doc, n, fuel)[i], fuel - i)
    decreases i
  {
    if i > 0 {
      var p := Parent(doc, n).value;
      var rest := Chain(doc, p, fuel - 1);
      assert Chain(doc, n, fuel) == [n] + rest;
      ChainSuffix(doc, p, fuel - 1, i - 1);
      assert Chain(doc, n, fuel)[i..] == rest[i - 1..];
    }
  }

  /** In an acyclic document no node occurs twice in a chain. */
  lemma AcyclicChainDistinct(doc: Document, n: NodeId, fuel: nat)
    requires Acyclic(doc)
    ensures forall i, j :: 0 <= i < j < |Chain(doc, n, fuel)| ==> Chain(doc, n, fuel)[i] != Chain(doc, n, fuel)[j]
  {
    var c := Chain(doc, n, fuel);
    forall i, j | 0 <= i < j < |c| ensures c[i] != c[j] {
      ChainSuffix(doc, n, fuel, i);
      assert Chain(doc, c[i], fuel - i)[j - i] == c[j];
    }
  }

  /** A sequence without repeats, drawn from `s`, is no longer than `s` is
      large. */
  lemma {:induction false} DistinctWithin(c: seq<NodeId>, s: set<NodeId>)
    ensures ((forall i :: 0 <= i < |c| ==> c[i] in s) &&
             (forall i, j :: 0 <= i < j < |c| ==> c[i] != c[j]))
            ==> |c| <= |s|
  {
    if c != [] && (forall i :: 0 <= i < |c| ==> c[i] in s) && (forall i, j :: 0 <= i < j < |c| ==> c[i] != c[j]) {
      var rest := s - {c[0]};
      forall i | 0 <= i < |c| - 1 ensures c[1..][i] in rest {
        assert c[1..][i] == c[i + 1];
      }
      DistinctWithin(c[1..], rest);
      assert s == rest + {c[0]};
    }
  }

  /** In an acyclic document a walk of `|doc|` parent links reaches a node
      without a parent: otherwise it would visit `|doc| + 1` distinct nodes
      of the document. */
  lemma ChainReachesRoot(doc: Document, n: NodeId)
    ensures Acyclic(doc) ==> Parent(doc, Chain(doc, n, |doc|)[|Chain(doc, n, |doc|)| - 1]).None?
  {
    if Acyclic(doc) {
      var c := Chain(doc, n, |doc|);
      AcyclicChainDistinct(doc, n, |doc|);
      forall i | 0 <= i < |c| - 1 ensures c[i] in doc.Keys {
        assert Parent(doc, c[i]) == Some(c[i + 1]);
      }
      DistinctWithin(c, doc.Keys);
      assert |doc.Keys| == |doc|;
    }
  }

  /** The chain of `n` ends at a node that has no parent. */
  predicate ReachesRoot(doc: Document, n: NodeId)
  {
    var c := SelfOrAncestors(doc, n);
    Parent(doc, c[|c| - 1]).None?
  }

  /** Once a chain has reached a root, more fuel finds no further ancestor. */
  lemma {:induction false} ChainComplete(doc: Document, n: NodeId, fuel: nat, more: nat)
    requires Parent(doc, Chain(doc, n, fuel)[|Chain(doc, n, fuel)| - 1]).None?
    requires fuel <= more
    ensures Chain(doc, n, more) == Chain(doc, n, fuel)
    decreases fuel
  {
    if fuel == 0 {
      assert Parent(doc, n).None?;
      if more > 0 {
        assert Chain(doc, n, more) == [n];
      }
    } else {
      match Parent(doc, n)
      case None =>
      case Some(p) =>
        var c := Chain(doc, p, fuel - 1);
        assert Chain(doc, n, fuel) == [n] + c;
        assert c[|c| - 1] == Chain(doc, n, fuel)[|Chain(doc, n, fuel)| - 1];
        ChainComplete(doc, p, fuel - 1, more - 1);
    }
  }

  /** For a node whose chain reaches a root, no longer walk up the parent
      links finds more ancestors. */
  lemma SelfOrAncestorsComplete(doc: Document, n: NodeId, fuel: nat)
    requires ReachesRoot(doc, n) && |doc| <= fuel
    ensures Chain(doc, n, fuel) == SelfOrAncestors(doc, n)
  {
    ChainComplete(doc, n, |doc|, fuel);
  }

  /** The index of the first image in `c`. */
  function FirstImgIndex(doc: Document, c: seq<NodeId>): (r: Option<nat>)
    ensures r.Some? ==> r.value < |c| && IsImg(doc, c[r.value])
    ensures r.Some? ==> forall j :: 0 <= j < r.value ==> !IsImg(doc, c[j])
    ensures r.None? ==> forall j :: 0 <= j < |c| ==> !IsImg(doc, c[j])
  {
    if c == [] then None
    else if IsImg(doc, c[0]) then Some(0)
    else match FirstImgIndex(doc, c[1..])
      case None => None
      case Some(i) => Some(i + 1)
  }

  /** goog.dom.getAncestorByTagNameAndClass(n, IMG): the nearest image among
      `n` and its ancestors. */
  function NearestImgAncestor(doc: Document, n: NodeId): (r: Option<NodeId>)
    ensures r.Some? ==> IsImg(doc, r.value)
    ensures r.Some? ==> exists i :: 0 <= i < |SelfOrAncestors(doc, n)| &&
                                    SelfOrAncestors(doc, n)[i] == r.value &&
                                    forall j :: 0 <= j < i ==> !IsImg(doc, SelfOrAncestors(doc, n)[j])
    ensures r.None? ==> forall j :: 0 <= j < |SelfOrAncestors(doc, n)| ==> !IsImg(doc, SelfOrAncestors(doc, n)[j])
  {
    var c := SelfOrAncestors(doc, n);
    match FirstImgIndex(doc, c)
    case None => None
    case Some(i) => Some(c[i])
  }

  // ---------------------------------------------------------------------
  // Siblings

  /** The position of the first occurrence of `x` in `cs`. */
  function IndexOf(cs: seq<NodeId>, x: NodeId): (r: Option<nat>)
    ensures r.Some? ==> r.value < |cs| && cs[r.value] == x && x !in cs[..r.value]
    ensures r.None? ==> x !in cs
  {
    if cs == [] then None
    else if cs[0] == x then Some(0)
    else match IndexOf(cs[1..], x)
      case None => None
      case Some(i) =>
        assert cs[..i + 1] == [cs[0]] + cs[1..][..i];
        Some(i + 1)
  }

  /** `previousSibling`: the node just before `n` in its parent's child
      list. */
  function PrevSibling(doc: Document, n: NodeId): (r: Option<NodeId>)
    ensures r.Some? ==> Parent(doc, n).Some? && Parent(doc, n).value in doc
    ensures r.Some? ==> exists i :: 0 < i < |doc[Parent(doc, n).value].children| &&
                          doc[Parent(doc, n).value].children[i] == n &&
                          doc[Parent(doc, n).value].children[i - 1] == r.value
  {
    match Parent(doc, n)
    case None => None
    case Some(p) =>
      if p !in doc then None
      else match IndexOf(doc[p].children, n)
        case None => None
        case Some(i) => if i == 0 then None else Some(doc[p].children[i - 1])
  }

  // ---------------------------------------------------------------------
  // Bubble target

  /** The field's current range, as far as the bubble reads it. */
  datatype Range = Range(collapsed: bool, startNode: NodeId, startOffset: nat)

  /** The fallback for a cursor just after an image: a collapsed range at
      offset 0 whose start node's previous sibling is an image. */
  function FallbackTarget(doc: Document, range: Option<Range>): (r: Option<NodeId>)
    ensures r.Some? <==> && range.Some? && range.value.collapsed && range.value.startOffset == 0
                         && PrevSibling(doc, range.value.startNode).Some?
                         && IsImg(doc, PrevSibling(doc, range.value.startNode).value)
    ensures r.Some? ==> r == PrevSibling(doc, range.value.startNode)
  {
    if range.Some? && range.value.collapsed && range.value.startOffset == 0 then
      match PrevSibling(doc, range.value.startNode)
      case Some(previous) => if IsImg(doc, previous) then Some(previous) else None
      case None => None
    else None
  }

  /** getBubbleTargetFromSelection: the nearest image among the selected
      element and its ancestors; failing that, the image the cursor
      touches; failing that, none. */
  function BubbleTarget(doc: Document, selected: NodeId, range: Option<Range>): (r: Option<NodeId>)
    ensures r.Some? ==> IsImg(doc, r.value)
    ensures NearestImgAncestor(doc, selected).Some? ==> r == NearestImgAncestor(doc, selected)
    ensures NearestImgAncestor(doc, selected).None? ==> r == FallbackTarget(doc, range)
  {
    match NearestImgAncestor(doc, selected)
    case Some(image) => Some(image)
    case None => FallbackTarget(doc, range)
  }

  /** Selecting an image makes that image the target, whatever the range. */
  lemma SelectedImageIsTarget(doc: Document, selected: NodeId, range: Option<Range>)
    requires IsImg(doc, selected)
    ensures BubbleTarget(doc, selected, range) == Some(selected)
  {
    assert SelfOrAncestors(doc, selected)[0] == selected;
  }

  /** An image among the self-or-ancestors with no image nearer to the
      selection is the target, whatever the range. */
  lemma NearestAncestorImageIsTarget(doc: Document, selected: NodeId, range: Option<Range>, i: nat)
    requires i < |SelfOrAncestors(doc, selected)|
    requires IsImg(doc, SelfOrAncestors(doc, selected)[i])
    requires forall j :: 0 <= j < i ==> !IsImg(doc, SelfOrAncestors(doc, selected)[j])
    ensures BubbleTarget(doc, selected, range) == Some(SelfOrAncestors(doc, selected)[i])
  {
    var c := SelfOrAncestors(doc, selected);
    var k := FirstImgIndex(doc, c);
    assert k.Some? && k.value == i;
  }

  /** With no image among the self-or-ancestors, the target is the previous
      sibling of the range's start node exactly when the range is
      collapsed at offset 0 and that sibling is an image; otherwise there is
      no target. */
  lemma FallbackWithoutImageAncestor(doc: Document, selected: NodeId, range: Option<Range>)
    requires forall j :: 0 <= j < |SelfOrAncestors(doc, selected)| ==> !IsImg(doc, SelfOrAncestors(doc, selected)[j])
    ensures BubbleTarget(doc, selected, range).Some? <==>
              && range.Some? && range.value.collapsed && range.value.startOffset == 0
              && PrevSibling(doc, range.value.startNode).Some?
              && IsImg(doc, PrevSibling(doc, range.value.startNode).value)
    ensures BubbleTarget(doc, selected, range).Some? ==>
              BubbleTarget(doc, selected, range) == PrevSibling(doc, range.value.startNode)
  {
  }

  // ---------------------------------------------------------------------
  // Removal

  /** `cs` without any occurrence of `t`, order kept. */
  function Without(cs: seq<NodeId>, t: NodeId): (r: seq<NodeId>)
    ensures forall x :: x in r <==> x in cs && x != t
    ensures t !in cs ==> r == cs
  {
    if cs == [] then []
    else if cs[0] == t then Without(cs[1..], t)
    else [cs[0]] + Without(cs[1..], t)
  }

  /** Removing from a concatenation removes from each part. */
  lemma {:induction false} WithoutConcat(a: seq<NodeId>, b: seq<NodeId>, t: NodeId)
    ensures Without(a + b, t) == Without(a, t) + Without(b, t)
  {
    if a == [] {
      assert a + b == b;
    } else {
      assert (a + b)[1..] == a[1..] + b;
      WithoutConcat(a[1..], b, t);
    }
  }

  /** Removing a child that occurs once cuts it out at its position. */
  lemma WithoutSingle(cs: seq<NodeId>, t: NodeId, i: nat)
    requires i < |cs| && cs[i] == t && t !in cs[..i] && t !in cs[i + 1..]
    ensures Without(cs, t) == cs[..i] + cs[i + 1..]
  {
    assert cs == cs[..i] + ([cs[i]] + cs[i + 1..]);
    WithoutConcat(cs[..i], [cs[i]] + cs[i + 1..], t);
    WithoutConcat([cs[i]], cs[i + 1..], t);
    assert Without([t], t) == Without([t][1..], t);
  }

  /** goog.dom.removeNode(t): a node with a parent is cut out of the
      parent's child list and loses its parent; anything else is left as it
      is. */
  function RemoveNode(doc: Document, t: NodeId): (d: Document)
    ensures d.Keys == doc.Keys
    ensures Parent(d, t).None?
    ensures forall m :: m in doc && m != t && Some(m) != Parent(doc, t) ==> d[m] == doc[m]
    ensures forall m :: m in doc && m != t ==> d[m].(children := doc[m].children) == doc[m]
    ensures Parent(doc, t).Some? && Parent(doc, t).value in doc ==>
              d[Parent(doc, t).value].children == Without(doc[Parent(doc, t).value].children, t)
    ensures t in doc && Parent(doc, t) != Some(t) ==> d[t] == doc[t].(parent := None)
    ensures Parent(doc, t).None? ==> d == doc
  {
    if t in doc && doc[t].parent.Some? then
      var p := doc[t].parent.value;
      var d1 := doc[t := doc[t].(parent := None)];
      if p in d1 then d1[p := d1[p].(children := Without(d1[p].children, t))] else d1
    else doc
  }

  /** Every parent lists its child. */
  ghost predicate ParentsListChildren(doc: Document)
  {
    forall n :: n in doc && doc[n].parent.Some? ==>
      doc[n].parent.value in doc && n in doc[doc[n].parent.value].children
  }

  /** Every listed child names its parent back. */
  ghost predicate ChildrenNameParent(doc: Document)
  {
    forall p, n :: p in doc && n in doc[p].children ==> n in doc && doc[n].parent == Some(p)
  }

  /** No child list repeats a node. */
  ghost predicate ChildListsDistinct(doc: Document)
  {
    forall p, i, j :: p in doc && 0 <= i < j < |doc[p].children| ==>
      doc[p].children[i] != doc[p].children[j]
  }

  /** No node is its own parent. */
  ghost predicate NoSelfParent(doc: Document)
  {
    forall n :: n in doc ==> doc[n].parent != Some(n)
  }

  /** The document's parent and child links agree, no child list repeats a
      node, and no node is its own parent. */
  ghost predicate Wf(doc: Document)
  {
    ParentsListChildren(doc) && ChildrenNameParent(doc) && ChildListsDistinct(doc) && NoSelfParent(doc)
  }

  lemma RemoveKeepsParentsListChildren(doc: Document, t: NodeId)
    requires Wf(doc)
    ensures ParentsListChildren(RemoveNode(doc, t))
  {
    var d := RemoveNode(doc, t);
    forall n | n in d && d[n].parent.Some?
      ensures d[n].parent.value in d && n in d[d[n].parent.value].children
    {
      var q := d[n].parent.value;
      assert n != t && doc[n].parent == Some(q);
      assert n in doc[q].children;
    }
  }

  lemma RemoveKeepsChildrenNameParent(doc: Document, t: NodeId)
    requires Wf(doc)
    ensures ChildrenNameParent(RemoveNode(doc, t))
  {
    var d := RemoveNode(doc, t);
    forall q, n | q in d && n in d[q].children ensures n in d && d[n].parent == Some(q) {
      if Parent(doc, t).Some? && q == Parent(doc, t).value {
        assert n in doc[q].children && n != t;
      } else {
        assert n in doc[q].children;
        if n == t {
          assert doc[t].parent == Some(q);
        }
      }
    }
  }

  /** Cutting a node out of a distinct child list keeps it distinct. */
  lemma WithoutKeepsDistinct(cs: seq<NodeId>, t: NodeId)
    requires forall i, j :: 0 <= i < j < |cs| ==> cs[i] != cs[j]
    ensures forall i, j :: 0 <= i < j < |Without(cs, t)| ==> Without(cs, t)[i] != Without(cs, t)[j]
  {
    var k := IndexOf(cs, t);
    if k.Some? {
      assert t !in cs[k.value + 1..] by {
        forall x | k.value + 1 <= x < |cs| ensures cs[x] != t {
          assert cs[x] != cs[k.value];
        }
      }
      WithoutSingle(cs, t, k.value);
      var r := cs[..k.value] + cs[k.value + 1..];
      forall i, j | 0 <= i < j < |r| ensures r[i] != r[j] {
        var i' := if i < k.value then i else i + 1;
        var j' := if j < k.value then j else j + 1;
        assert r[i] == cs[i'] && r[j] == cs[j'];
      }
    }
  }

  lemma RemoveKeepsChildListsDistinct(doc: Document, t: NodeId)
    requires Wf(doc)
    ensures ChildListsDistinct(RemoveNode(doc, t))
  {
    var d := RemoveNode(doc, t);
    if Parent(doc, t).Some? && Parent(doc, t).value in doc {
      var p := Parent(doc, t).value;
      WithoutKeepsDistinct(doc[p].children, t);
      forall q, i, j | q in d && 0 <= i < j < |d[q].children|
        ensures d[q].children[i] != d[q].children[j]
      {
        if q != p {
          assert d[q].children == doc[q].children;
        }
      }
    }
  }

  /** Removal keeps a well-formed document well formed. */
  lemma RemoveNodeKeepsWf(doc: Document, t: NodeId)
    requires Wf(doc)
    ensures Wf(RemoveNode(doc, t))
  {
    RemoveKeepsParentsListChildren(doc, t);
    RemoveKeepsChildrenNameParent(doc, t);
    RemoveKeepsChildListsDistinct(doc, t);
    assert NoSelfParent(RemoveNode(doc, t));
  }

  /** The entry before position `i`, if any. */
  function PrevAt(cs: seq<NodeId>, i: nat): Option<NodeId>
    requires i < |cs|
  {
    if i == 0 then None else Some(cs[i - 1])
  }

  /** Cutting position `k` out of `cs` moves the entry at `i` to `i'`; its
      new predecessor is its old one, except that the entry just after `k`
      inherits the predecessor of `k`. */
  lemma CutPrevAt(cs: seq<NodeId>, k: nat, i: nat)
    requires k < |cs| && i < |cs| && i != k
    ensures var r := cs[..k] + cs[k + 1..];
            var i' := if i < k then i else i - 1;
            && i' < |r| && r[i'] == cs[i]
            && PrevAt(r, i') == if i == k + 1 then PrevAt(cs, k) else PrevAt(cs, i)
  {
    var r := cs[..k] + cs[k + 1..];
    if i < k {
      assert r[i] == cs[i];
      if i > 0 { assert r[i - 1] == cs[i - 1]; }
    } else {
      assert r[i - 1] == cs[i];
      if i > k + 1 { assert r[i - 2] == cs[i - 1]; }
      if k > 0 && i == k + 1 { assert r[k - 1] == cs[k - 1]; }
    }
  }

  /** In a child list without repeats, the previous sibling of the child at
      position `i` is the child at `i - 1`. */
  lemma PrevSiblingAt(doc: Document, m: NodeId, q: NodeId, i: nat)
    requires ChildListsDistinct(doc)
    requires Parent(doc, m) == Some(q) && q in doc
    requires i < |doc[q].children| && doc[q].children[i] == m
    ensures PrevSibling(doc, m) == PrevAt(doc[q].children, i)
  {
    var k := IndexOf(doc[q].children, m);
    assert k.Some?;
    assert k.value == i;
  }

  /** A node listed under the removed node's parent keeps its previous
      sibling, unless it followed the removed node and now follows the removed
      node's previous sibling. */
  lemma RemoveNodeSiblingUnderParent(doc: Document, t: NodeId, m: NodeId)
    requires Wf(doc) && m in doc && m != t
    requires Parent(doc, t).Some? && Parent(doc, m) == Parent(doc, t)
    ensures PrevSibling(doc, m) == Some(t) ==> PrevSibling(RemoveNode(doc, t), m) == PrevSibling(doc, t)
    ensures PrevSibling(doc, m) != Some(t) ==> PrevSibling(RemoveNode(doc, t), m) == PrevSibling(doc, m)
  {
    var d := RemoveNode(doc, t);
    RemoveKeepsChildListsDistinct(doc, t);
    var p := Parent(doc, t).value;
    var cs := doc[p].children;
    var k := IndexOf(cs, t).value;
    assert t !in cs[k + 1..] by {
      forall x | k + 1 <= x < |cs| ensures cs[x] != t {
        assert cs[x] != cs[k];
      }
    }
    WithoutSingle(cs, t, k);
    var r := cs[..k] + cs[k + 1..];
    assert d[p].children == r;
    assert Parent(d, m) == Some(p);
    PrevSiblingAt(doc, t, p, k);
    assert m in cs;
    var i :| 0 <= i < |cs| && cs[i] == m;
    assert i != k;
    PrevSiblingAt(doc, m, p, i);
    CutPrevAt(cs, k, i);
    var i' := if i < k then i else i - 1;
    PrevSiblingAt(d, m, p, i');
    assert PrevSibling(doc, m) == Some(t) <==> i == k + 1;
  }

  /** A node listed under any other parent keeps its previous sibling. */
  lemma RemoveNodeSiblingElsewhere(doc: Document, t: NodeId, m: NodeId)
    requires Wf(doc) && m in doc && m != t
    requires Parent(doc, t).None? || Parent(doc, m) != Parent(doc, t)
    ensures PrevSibling(RemoveNode(doc, t), m) == PrevSibling(doc, m)
  {
    var d := RemoveNode(doc, t);
    RemoveKeepsChildListsDistinct(doc, t);
    assert Parent(d, m) == Parent(doc, m);
    if Parent(doc, m).Some? {
      var q := Parent(doc, m).value;
      assert q in doc && m in doc[q].children;
      assert d[q].children == doc[q].children;
      var i :| 0 <= i < |doc[q].children| && doc[q].children[i] == m;
      PrevSiblingAt(doc, m, q, i);
      PrevSiblingAt(d, m, q, i);
    }
  }

  /** What removal does to previous siblings: the removed node has none,
      the node that followed it now follows the removed node's previous
      sibling, and every other node keeps its previous sibling. */
  lemma RemoveNodeSiblings(doc: Document, t: NodeId)
    requires Wf(doc)
    ensures PrevSibling(RemoveNode(doc, t), t).None?
    ensures forall m :: m in doc && m != t && PrevSibling(doc, m) == Some(t) ==>
              PrevSibling(RemoveNode(doc, t), m) == PrevSibling(doc, t)
    ensures forall m :: m in doc && m != t && PrevSibling(doc, m) != Some(t) ==>
              PrevSibling(RemoveNode(doc, t), m) == PrevSibling(doc, m)
  {
    forall m | m in doc && m != t
      ensures PrevSibling(doc, m) == Some(t) ==> PrevSibling(RemoveNode(doc, t), m) == PrevSibling(doc, t)
      ensures PrevSibling(doc, m) != Some(t) ==> PrevSibling(RemoveNode(doc, t), m) == PrevSibling(doc, m)
    {
      if Parent(doc, t).Some? && Parent(doc, m) == Parent(doc, t) {
        RemoveNodeSiblingUnderParent(doc, t, m);
      } else {
        RemoveNodeSiblingElsewhere(doc, t, m);
      }
    }
  }

  /** Removal changes the ancestors of no node whose chain avoids the
      removed node. */
  lemma {:induction false} ChainAfterRemove(doc: Document, t: NodeId, n: NodeId, fuel: nat)
    requires t !in Chain(doc, n, fuel)
    ensures Chain(RemoveNode(doc, t), n, fuel) == Chain(doc, n, fuel)
    decreases fuel
  {
    var d := RemoveNode(doc, t);
    assert n != t by { assert Chain(doc, n, fuel)[0] == n; }
    assert Parent(d, n) == Parent(doc, n);
    if fuel > 0 {
      match Parent(doc, n)
      case None =>
      case Some(p) =>
        assert Chain(doc, n, fuel) == [n] + Chain(doc, p, fuel - 1);
        ChainAfterRemove(doc, t, p, fuel - 1);
    }
  }

  /** For a selection whose ancestors do not include the removed image, the
      nearest image ancestor is the same after the removal. */
  lemma NearestImgAncestorAfterRemove(doc: Document, t: NodeId, n: NodeId)
    requires t !in SelfOrAncestors(doc, n)
    ensures NearestImgAncestor(RemoveNode(doc, t), n) == NearestImgAncestor(doc, n)
  {
    var d := RemoveNode(doc, t);
    assert |d| == |doc| by { assert d.Keys == doc.Keys; assert |d.Keys| == |d| && |doc.Keys| == |doc|; }
    ChainAfterRemove(doc, t, n, |doc|);
    var c := SelfOrAncestors(doc, n);
    assert SelfOrAncestors(d, n) == c;
    forall i | 0 <= i < |c| ensures IsImg(d, c[i]) == IsImg(doc, c[i]) {
      assert c[i] != t;
    }
    FirstImgIndexSameImages(d, doc, c);
  }

  /** Two documents that agree on which nodes of `c` are images agree on
      the first image of `c`. */
  lemma {:induction false} FirstImgIndexSameImages(d: Document, doc: Document, c: seq<NodeId>)
    requires forall i :: 0 <= i < |c| ==> IsImg(d, c[i]) == IsImg(doc, c[i])
    ensures FirstImgIndex(d, c) == FirstImgIndex(doc, c)
  {
    if c != [] {
      FirstImgIndexSameImages(d, doc, c[1..]);
    }
  }

  // ---------------------------------------------------------------------
  // Bubble contents

  /** What getImageToTextObj_ returns. */
  datatype ImageText = ImageText(imageSrc: string, imageAlt: string)

  /** getImageToTextObj_: the target's `src` and `alt`, each `''` when the
      attribute is absent. */
  function ImageToText(e: Element): (r: ImageText)
    ensures r.imageSrc == (if e.src.Some? then e.src.value else "")
    ensures r.imageAlt == (if e.alt.Some? then e.alt.value else "")
  {
    ImageText(e.src.GetOr(""), e.alt.GetOr(""))
  }

  /** The two actions the bubble offers. */
  datatype BubbleAction = ShowImageDialogAction | DeleteImageAction

  /** One option link of the bubble: its span id, link id, caption and the
      handler it runs. */
  datatype BubbleOption = BubbleOption(spanId: string, linkId: string, caption: string, action: BubbleAction)

  /** createBubbleContents: the bubble's options in display order. */
  function BubbleOptions(): (r: seq<BubbleOption>)
    ensures |r| == 2
    ensures r[0].caption == "Edit" && r[0].action == ShowImageDialogAction
    ensures r[1].caption == "Remove" && r[1].action == DeleteImageAction
  {
    [ BubbleOption("tr_change-image-span", "tr_change-image", "Edit", ShowImageDialogAction),
      BubbleOption("tr_delete-image-span", "tr_delete-image", "Remove", DeleteImageAction) ]
  }

  // ---------------------------------------------------------------------
  // The bubble's actions

  /** The editor command the Edit action issues. */
  datatype Command = ImageCommand

  /** What the bubble does to the field, in order. */
  datatype FieldEvent =
    | BeforeChange
    | NodeRemoved(node: NodeId)
    | BubbleClosed
    | Change
    | CommandExecuted(command: Command, arg: NodeId)

  /** An open image bubble: the field's document, the bubble's target image,
      and the events the bubble has caused on the field. */
  class ImageBubble {
    var doc: Document
    var target: NodeId
    var log: seq<FieldEvent>

    constructor (doc: Document, target: NodeId)
      ensures this.doc == doc && this.target == target && log == []
    {
      this.doc := doc;
      this.target := target;
      log := [];
    }

    /** deleteImage_: before-change, remove the target, close the bubble,
        change; nothing but the target and its parent's child list is
        altered. */
    method DeleteImage()
      modifies this`doc, this`log
      ensures doc == RemoveNode(old(doc), target)
      ensures log == old(log) + [BeforeChange, NodeRemoved(target), BubbleClosed, Change]
      ensures Wf(old(doc)) ==> Wf(doc)
    {
      log := log + [BeforeChange];
      if Wf(doc) {
        RemoveNodeKeepsWf(doc, target);
      }
      doc := RemoveNode(doc, target);
      log := log + [NodeRemoved(target)];
      log := log + [BubbleClosed];
      log := log + [Change];
    }

    /** showImageDialog_: issue the image command on the target, then close
        the bubble; the document is untouched. */
    method ShowImageDialog()
      modifies this`log
      ensures log == old(log) + [CommandExecuted(ImageCommand, target), BubbleClosed]
      ensures doc == old(doc)
    {
      log := log + [CommandExecuted(ImageCommand, target)];
      log := log + [BubbleClosed];
    }
  }
}
