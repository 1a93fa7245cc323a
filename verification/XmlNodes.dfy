/** TiXmlNode's sibling lists: firstChild, lastChild, prev, next and parent under in-place edits.
    A document is viewed as the map of its nodes' pointers; an edit's contract is the whole new
    view. */
module XmlNodes {

  class Node {
    const isDocument: bool
    var parent: Node?
    var firstChild: Node?
    var lastChild: Node?
    var prev: Node?
    var next: Node?

    ghost var children: seq<Node>  // the list that the pointers spell out

    constructor (isDocument: bool)
      ensures this.isDocument == isDocument
      ensures parent == firstChild == lastChild == prev == next == null && children == []
    {
      this.isDocument := isDocument;
      parent, firstChild, lastChild, prev, next := null, null, null, null, null;
      children := [];
    }

    // assignments to the pointers, with their effect on the view

    /** A new node's own three pointers. */
    method Hook(ghost nodes: set<Node>, p: Node?, a: Node?, b: Node?)
      requires this in nodes
      modifies this`parent, this`prev, this`next
      ensures parent == p && prev == a && next == b
      ensures View(nodes) == old(View(nodes)[this := View(nodes)[this].(parent := p, prev := a, next := b)])
    {
      parent := p;
      prev := a;
      next := b;
    }

    /** A deleted node has no place in the document. */
    method Orphan(ghost nodes: set<Node>)
      requires this in nodes
      modifies this`parent
      ensures parent == null && View(nodes) == old(View(nodes)[this := View(nodes)[this].(parent := null)])
    {
      parent := null;
    }

    method Adopt(ghost nodes: set<Node>, p: Node)
      requires this in nodes
      modifies this`parent
      ensures parent == p && View(nodes) == old(View(nodes)[this := View(nodes)[this].(parent := p)])
    {
      parent := p;
    }

    method SetFirst(ghost nodes: set<Node>, x: Node?)
      requires this in nodes
      modifies this`firstChild
      ensures firstChild == x && View(nodes) == old(View(nodes)[this := View(nodes)[this].(first := x)])
    {
      firstChild := x;
    }

    method SetLast(ghost nodes: set<Node>, x: Node?)
      requires this in nodes
      modifies this`lastChild
      ensures lastChild == x && View(nodes) == old(View(nodes)[this := View(nodes)[this].(last := x)])
    {
      lastChild := x;
    }

    method SetPrev(ghost nodes: set<Node>, x: Node?)
      requires this in nodes
      modifies this`prev
      ensures prev == x && View(nodes) == old(View(nodes)[this := View(nodes)[this].(prev := x)])
    {
      prev := x;
    }

    method SetNext(ghost nodes: set<Node>, x: Node?)
      requires this in nodes
      modifies this`next
      ensures next == x && View(nodes) == old(View(nodes)[this := View(nodes)[this].(next := x)])
    {
      next := x;
    }

    ghost method SetChildren(nodes: set<Node>, s: seq<Node>)
      requires this in nodes
      modifies this`children
      ensures children == s && View(nodes) == old(View(nodes)[this := View(nodes)[this].(kids := s)])
    {
      children := s;
    }

    /** LinkEndChild, for a node in no list: its parent pointer may already be set to this node, as
        the parser does. A document is refused. */
    method LinkEndChild(ghost nodes: set<Node>, node: Node) returns (r: Node?)
      requires this in nodes && node in nodes && (node.parent == null || node.parent == this)
      requires WellFormed(Loose(View(nodes), node))
      modifies nodes
      ensures node.isDocument ==> r == null && View(nodes) == old(View(nodes))
      ensures !node.isDocument ==>
        r == node && View(nodes) == old(DocInsert(View(nodes), this, |children|, node)) && WellFormed(View(nodes))
    {
      hide WellFormed, Insert, Distinct, DocInsert;
      if node.isDocument { return null; }
      ghost var d := View(nodes);
      LinkEndIsInsert(d, this, node);
      hide View, Loose;
      LinkLast(nodes, node);
      SetChildren(nodes, Insert(d[this].kids, |d[this].kids|, node));
      return node;
    }

    /** The pointer part of LinkEndChild. */
    method LinkLast(ghost nodes: set<Node>, node: Node)
      requires this in nodes && node in nodes && (lastChild != null ==> lastChild in nodes && lastChild != node)
      modifies nodes
      ensures View(nodes) == old(LinkEnd(View(nodes), this, node))
      ensures children == old(children)
    {
      assert View(nodes)[this].last == lastChild;
      hide View;
      node.Hook(nodes, this, lastChild, null);
      if lastChild != null {
        lastChild.SetNext(nodes, node);
      } else {
        SetFirst(nodes, node);
      }
      SetLast(nodes, node);
    }

    /** InsertBeforeChild, node being the clone of what is to be added (null if cloning failed). */
    method InsertBeforeChild(ghost nodes: set<Node>, before: Node?, node: Node?) returns (r: Node?)
      requires WellFormed(View(nodes)) && this in nodes && (before != null ==> before in nodes)
      requires node != null ==> node in nodes && node.parent == null
      modifies nodes
      ensures WellFormed(View(nodes))
      ensures old(before == null || before.parent != this || node == null || node.isDocument) ==>
        r == null && View(nodes) == old(View(nodes))
      ensures old(before != null && before.parent == this && node != null && !node.isDocument) ==>
        r == node && before in old(children) &&
        View(nodes) == old(DocInsert(View(nodes), this, IndexOf(children, before), node))
    {
      hide WellFormed, Insert, Distinct, DocInsert, IndexOf, Before, After;
      if before == null || before.parent != this { return null; }
      if node == null || node.isDocument { return null; }
      ghost var d := View(nodes);
      ghost var k := FoundAt(d, this, before);
      Neighbours(d, this, k, node);
      InsertKeeps(d, this, k, node);
      SpliceIsInsert(d, this, k, node, false);
      hide View;
      LinkBefore(nodes, before, node);
      SetChildren(nodes, Insert(d[this].kids, k, node));
      return node;
    }

    /** The pointer part of InsertBeforeChild. */
    method LinkBefore(ghost nodes: set<Node>, before: Node, node: Node)
      requires this in nodes && before in nodes && node in nodes && node != before
      requires before.prev != null ==> before.prev in nodes && before.prev != node
      modifies nodes
      ensures View(nodes) == old(After(Before(View(nodes)[node := View(nodes)[node].(parent := this, prev := before.prev,
        next := before)], this, before.prev, node), this, before, node))
      ensures children == old(children)
    {
      hide View;
      node.Hook(nodes, this, before.prev, before);
      if before.prev != null {
        before.prev.SetNext(nodes, node);
      } else {
        SetFirst(nodes, node);
      }
      before.SetPrev(nodes, node);
    }

    /** The pointer part of InsertAfterChild. */
    method LinkAfter(ghost nodes: set<Node>, after: Node, node: Node)
      requires this in nodes && after in nodes && node in nodes && node != after
      requires after.next != null ==> after.next in nodes && after.next != node
      modifies nodes
      ensures View(nodes) == old(Before(After(View(nodes)[node := View(nodes)[node].(parent := this, prev := after,
        next := after.next)], this, after.next, node), this, after, node))
      ensures children == old(children)
    {
      hide View;
      node.Hook(nodes, this, after, after.next);
      if after.next != null {
        after.next.SetPrev(nodes, node);
      } else {
        SetLast(nodes, node);
      }
      after.SetNext(nodes, node);
    }

    /** InsertAfterChild. */
    method InsertAfterChild(ghost nodes: set<Node>, after: Node?, node: Node?) returns (r: Node?)
      requires WellFormed(View(nodes)) && this in nodes && (after != null ==> after in nodes)
      requires node != null ==> node in nodes && node.parent == null
      modifies nodes
      ensures WellFormed(View(nodes))
      ensures old(after == null || after.parent != this || node == null || node.isDocument) ==>
        r == null && View(nodes) == old(View(nodes))
      ensures old(after != null && after.parent == this && node != null && !node.isDocument) ==>
        r == node && after in old(children) &&
        View(nodes) == old(DocInsert(View(nodes), this, IndexOf(children, after) + 1, node))
    {
      hide WellFormed, Insert, Distinct, DocInsert, IndexOf, Before, After;
      if after == null || after.parent != this { return null; }
      if node == null || node.isDocument { return null; }
      ghost var d := View(nodes);
      ghost var k := FoundAt(d, this, after);
      Neighbours(d, this, k + 1, node);
      InsertKeeps(d, this, k + 1, node);
      SpliceIsInsert(d, this, k + 1, node, true);
      hide View;
      LinkAfter(nodes, after, node);
      SetChildren(nodes, Insert(d[this].kids, k + 1, node));
      return node;
    }

    /** The pointer part of a removal: the neighbours of x skip it. */
    method Unlink(ghost nodes: set<Node>, x: Node)
      requires this in nodes && x in nodes
      requires (x.prev != null ==> x.prev in nodes && x.prev != x) && (x.next != null ==> x.next in nodes && x.next != x)
      modifies nodes
      ensures View(nodes) == old(Before(After(View(nodes), this, x.next, x.prev), this, x.prev, x.next))
      ensures children == old(children) && x.prev == old(x.prev) && x.next == old(x.next)
    {
      hide View;
      if x.next != null {
        x.next.SetPrev(nodes, x.prev);
      } else {
        SetLast(nodes, x.prev);
      }
      if x.prev != null {
        x.prev.SetNext(nodes, x.next);
      } else {
        SetFirst(nodes, x.next);
      }
    }

    /** RemoveChild. The deleted node leaves the document with its own children. */
    method RemoveChild(ghost nodes: set<Node>, x: Node?) returns (done: bool)
      requires WellFormed(View(nodes)) && this in nodes && (x != null ==> x in nodes)
      modifies nodes
      ensures WellFormed(View(nodes))
      ensures done == old(x != null && x.parent == this)
      ensures !done ==> View(nodes) == old(View(nodes))
      ensures done ==> x in old(children) && View(nodes) == old(DocRemove(View(nodes), this, IndexOf(children, x)))
    {
      hide WellFormed, Remove, Distinct, DocRemove, IndexOf, Before, After;
      if x == null || x.parent != this { return false; }
      ghost var d := View(nodes);
      ghost var k := FoundAt(d, this, x);
      Around(d, this, k);
      RemoveKeeps(d, this, k);
      UnspliceIsRemove(d, this, k);
      hide View;
      Unlink(nodes, x);
      x.Orphan(nodes);
      SetChildren(nodes, Remove(d[this].kids, k));
      return true;
    }

    /** The pointer part of a replacement, up to the new node's parent. */
    method Relink(ghost nodes: set<Node>, x: Node, y: Node)
      requires this in nodes && x in nodes && y in nodes && x != y
      requires x.prev != null ==> x.prev in nodes && x.prev != y && x.prev != x
      requires x.next != null ==> x.next in nodes && x.next != y && x.next != x
      modifies nodes
      ensures View(nodes) == old(Before(After(View(nodes)[y := View(nodes)[y].(prev := x.prev, next := x.next)],
        this, x.next, y), this, x.prev, y))
      ensures children == old(children)
    {
      assert View(nodes)[y].parent == y.parent;
      hide View;
      y.Hook(nodes, y.parent, x.prev, x.next);
      if x.next != null {
        x.next.SetPrev(nodes, y);
      } else {
        SetLast(nodes, y);
      }
      if x.prev != null {
        x.prev.SetNext(nodes, y);
      } else {
        SetFirst(nodes, y);
      }
    }

    /** ReplaceChild, y being the clone of the replacement (null if cloning failed). */
    method ReplaceChild(ghost nodes: set<Node>, x: Node?, y: Node?) returns (r: Node?)
      requires WellFormed(View(nodes)) && this in nodes && (x != null ==> x in nodes)
      requires y != null ==> y in nodes && y.parent == null
      modifies nodes
      ensures WellFormed(View(nodes))
      ensures old(x == null || x.parent != this || y == null || y.isDocument) ==>
        r == null && View(nodes) == old(View(nodes))
      ensures old(x != null && x.parent == this && y != null && !y.isDocument) ==>
        r == y && x in old(children) && View(nodes) == old(DocReplace(View(nodes), this, IndexOf(children, x), y))
    {
      hide WellFormed, Distinct, DocReplace, IndexOf, Before, After;
      if x == null || x.parent != this { return null; }
      if y == null || y.isDocument { return null; }
      ghost var d := View(nodes);
      ghost var k := FoundAt(d, this, x);
      Around(d, this, k);
      UnlinkedIsNowhere(d, this, y);
      ReplaceKeeps(d, this, k, y);
      RespliceIsReplace(d, this, k, y);
      hide View;
      Relink(nodes, x, y);
      x.Orphan(nodes);
      y.Adopt(nodes, this);
      SetChildren(nodes, d[this].kids[k := y]);
      return y;
    }
  }

  datatype Links = Links(parent: Node?, first: Node?, last: Node?, prev: Node?, next: Node?, kids: seq<Node>)

  type Doc = map<Node, Links>

  /** The pointers of a set of nodes. */
  ghost function View(nodes: set<Node>): Doc
    reads nodes
  {
    map n | n in nodes :: Links(n.parent, n.firstChild, n.lastChild, n.prev, n.next, n.children)
  }

  /** The i-th node, or the null pointer beyond either end. */
  ghost function At(s: seq<Node>, i: int): Node?
  {
    if 0 <= i < |s| then s[i] else null
  }

  ghost predicate Distinct(s: seq<Node>)
  {
    forall i, j :: 0 <= i < j < |s| ==> s[i] != s[j]
  }

  /** The pointers of entry i of the list s of p agree with its place. */
  ghost predicate Placed(d: Doc, p: Node, s: seq<Node>, i: nat)
    requires i < |s|
  {
    s[i] in d && d[s[i]].parent == p && d[s[i]].prev == At(s, i - 1) && d[s[i]].next == At(s, i + 1)
  }

  ghost predicate ListOk(d: Doc, p: Node)
    requires p in d
  {
    var s := d[p].kids;
    && d[p].first == At(s, 0) && d[p].last == At(s, |s| - 1) && Distinct(s)
    && forall i: nat {:trigger Placed(d, p, s, i)} :: i < |s| ==> Placed(d, p, s, i)
  }

  /** Node n, if it has a parent, is in that parent's list. */
  ghost predicate Listed(d: Doc, n: Node)
    requires n in d
  {
    d[n].parent != null ==> d[n].parent in d && n in d[d[n].parent].kids
  }

  /** Every list is well formed, and every node with a parent is in its parent's list. */
  ghost predicate WellFormed(d: Doc)
  {
    && (forall p {:trigger ListOk(d, p)} :: p in d ==> ListOk(d, p))
    && (forall n {:trigger Listed(d, n)} :: n in d ==> Listed(d, n))
  }

  /** Membership in a list and the parent pointer agree. */
  lemma MemberHasParent(d: Doc, p: Node, i: nat)
    requires WellFormed(d) && p in d && i < |d[p].kids|
    ensures Distinct(d[p].kids) && d[p].kids[i] in d && d[d[p].kids[i]].parent == p
    ensures d[d[p].kids[i]].prev == At(d[p].kids, i - 1) && d[d[p].kids[i]].next == At(d[p].kids, i + 1)
  {
    assert ListOk(d, p);
    assert Placed(d, p, d[p].kids, i);
  }

  /** An unlinked node is in no list. */
  lemma UnlinkedIsNowhere(d: Doc, p: Node, x: Node)
    requires WellFormed(d) && p in d && x in d && d[x].parent == null
    ensures x !in d[p].kids
  {
    forall i | 0 <= i < |d[p].kids| ensures d[p].kids[i] != x {
      MemberHasParent(d, p, i);
    }
  }

  /** The view with x's parent pointer cleared. */
  ghost function Loose(d: Doc, x: Node): Doc
    requires x in d
  {
    d[x := d[x].(parent := null)]
  }

  /** The neighbours of place k, as the pointers give them. */
  lemma Neighbours(d: Doc, p: Node, k: nat, x: Node)
    requires WellFormed(d) && p in d && k <= |d[p].kids| && x in d && d[x].parent == null
    ensures d[p].last == At(d[p].kids, |d[p].kids| - 1) && d[p].first == At(d[p].kids, 0)
    ensures x !in d[p].kids && Distinct(d[p].kids)
    ensures k > 0 ==> d[p].kids[k - 1] in d && d[d[p].kids[k - 1]].next == At(d[p].kids, k)
    ensures k < |d[p].kids| ==> d[p].kids[k] in d && d[d[p].kids[k]].prev == At(d[p].kids, k - 1)
  {
    assert ListOk(d, p);
    UnlinkedIsNowhere(d, p, x);
    if k > 0 { MemberHasParent(d, p, k - 1); }
    if k < |d[p].kids| { MemberHasParent(d, p, k); }
  }

  /** The pointer assignments of an insertion between a and b, one after the other, the later
      neighbour's first or last. */
  ghost function Splice(d: Doc, p: Node, k: nat, x: Node, laterFirst: bool): Doc
    requires p in d && x in d && k <= |d[p].kids|
    requires At(d[p].kids, k - 1) != null ==> At(d[p].kids, k - 1) in d
    requires At(d[p].kids, k) != null ==> At(d[p].kids, k) in d
  {
    var s := d[p].kids;
    var a, b := At(s, k - 1), At(s, k);
    var d1 := d[x := d[x].(parent := p, prev := a, next := b)];
    var d3 := if laterFirst then Before(After(d1, p, b, x), p, a, x) else After(Before(d1, p, a, x), p, b, x);
    d3[p := d3[p].(kids := Insert(s, k, x))]
  }

  /** x becomes the successor of a, or the first child. */
  ghost function Before(d: Doc, p: Node, a: Node?, x: Node?): (r: Doc)
    requires p in d && (a != null ==> a in d)
    ensures r.Keys == d.Keys
  {
    if a != null then d[a := d[a].(next := x)] else d[p := d[p].(first := x)]
  }

  /** x becomes the predecessor of b, or the last child. */
  ghost function After(d: Doc, p: Node, b: Node?, x: Node?): (r: Doc)
    requires p in d && (b != null ==> b in d)
    ensures r.Keys == d.Keys
  {
    if b != null then d[b := d[b].(prev := x)] else d[p := d[p].(last := x)]
  }

  lemma SpliceIsInsert(d: Doc, p: Node, k: nat, x: Node, laterFirst: bool)
    requires WellFormed(d) && p in d && k <= |d[p].kids| && x in d && d[x].parent == null
    ensures k > 0 ==> d[p].kids[k - 1] in d
    ensures k < |d[p].kids| ==> d[p].kids[k] in d
    ensures Splice(d, p, k, x, laterFirst) == DocInsert(d, p, k, x)
  {
    hide WellFormed, Insert;
    Neighbours(d, p, k, x);
  }

  ghost function IndexOf(s: seq<Node>, x: Node): nat
    requires x in s
    ensures IndexOf(s, x) < |s| && s[IndexOf(s, x)] == x
  {
    if s[0] == x then 0 else 1 + IndexOf(s[1..], x)
  }

  /** A node with parent p has one place in p's list. */
  lemma FoundAt(d: Doc, p: Node, x: Node) returns (k: nat)
    requires WellFormed(d) && p in d && x in d && d[x].parent == p
    ensures x in d[p].kids && k == IndexOf(d[p].kids, x) < |d[p].kids|
  {
    assert Listed(d, x);
    k := IndexOf(d[p].kids, x);
  }

  /** A list other than p's is kept when only children of p and unlinked nodes get new neighbours. */
  lemma OtherList(d: Doc, d': Doc, p: Node, q: Node)
    requires WellFormed(d) && d'.Keys == d.Keys && p in d && q in d && q != p
    requires d'[q].kids == d[q].kids && d'[q].first == d[q].first && d'[q].last == d[q].last
    requires forall n {:trigger d[n]} {:trigger d'[n]} :: n in d && d[n].parent != null && d[n].parent != p ==>
      d'[n].parent == d[n].parent && d'[n].prev == d[n].prev && d'[n].next == d[n].next
    ensures ListOk(d', q)
  {
    var s := d[q].kids;
    assert ListOk(d, q);
    forall i: nat | i < |s| ensures Placed(d', q, s, i) {
      assert Placed(d, q, s, i);
    }
  }

  // ---------- insertion ----------

  ghost function Insert(s: seq<Node>, k: nat, x: Node): seq<Node>
    requires k <= |s|
  {
    s[..k] + [x] + s[k..]
  }

  /** The view after x has become child k of p. */
  ghost function DocInsert(d: Doc, p: Node, k: nat, x: Node): Doc
    requires p in d && k <= |d[p].kids|
  {
    var a, b := At(d[p].kids, k - 1), At(d[p].kids, k);
    map n | n in d :: Links(
      if n == x then p else d[n].parent,
      if n == p && a == null then x else d[n].first,
      if n == p && b == null then x else d[n].last,
      if n == x then a else if n == b then x else d[n].prev,
      if n == x then b else if n == a then x else d[n].next,
      if n == p then Insert(d[p].kids, k, x) else d[n].kids)
  }

  /** LinkEndChild's assignments to the pointers. */
  ghost function LinkEnd(d: Doc, p: Node, x: Node): Doc
    requires p in d && x in d && (d[p].last != null ==> d[p].last in d)
    ensures LinkEnd(d, p, x).Keys == d.Keys
  {
    var d1 := d[x := d[x].(parent := p, prev := d[p].last, next := null)];
    var d2 := Before(d1, p, d[p].last, x);
    d2[p := d2[p].(last := x)]
  }

  /** They append x to p's list; a parent pointer of x set beforehand makes no difference. */
  lemma LinkEndIsInsert(d: Doc, p: Node, x: Node)
    requires p in d && x in d && WellFormed(Loose(d, x)) && (d[x].parent == null || d[x].parent == p)
    ensures d[p].last != null ==> d[p].last in d && d[p].last != x
    ensures LinkEnd(d, p, x)[p := LinkEnd(d, p, x)[p].(kids := Insert(d[p].kids, |d[p].kids|, x))]
      == DocInsert(d, p, |d[p].kids|, x)
    ensures WellFormed(DocInsert(d, p, |d[p].kids|, x))
    ensures Acyclic(Loose(d, x)) ==> (Acyclic(DocInsert(d, p, |d[p].kids|, x)) <==> !Within(Loose(d, x), p, x))
  {
    hide WellFormed, Insert, Distinct, DocInsert, LinkEnd, Acyclic, Within;
    if Acyclic(Loose(d, x)) { InsertAcyclic(Loose(d, x), p, |d[p].kids|, x); }
    Neighbours(Loose(d, x), p, |d[p].kids|, x);
    InsertKeeps(Loose(d, x), p, |d[p].kids|, x);
    LinkEndPointwise(d, p, x);
    LooseInsert(d, p, x);
  }

  lemma LooseInsert(d: Doc, p: Node, x: Node)
    requires p in d && x in d
    ensures DocInsert(Loose(d, x), p, |d[p].kids|, x) == DocInsert(d, p, |d[p].kids|, x)
  {
    hide Insert;
  }

  lemma LinkEndPointwise(d: Doc, p: Node, x: Node)
    requires p in d && x in d && d[p].last == At(d[p].kids, |d[p].kids| - 1)
    requires d[p].last != null ==> d[p].last in d && d[p].last != x
    ensures LinkEnd(d, p, x)[p := LinkEnd(d, p, x)[p].(kids := Insert(d[p].kids, |d[p].kids|, x))]
      == DocInsert(d, p, |d[p].kids|, x)
  {
    hide Insert;
  }

  /** LinkEndChild's own assertion lets a node through that is already a child of p, but then no list
      of children fits the pointers it leaves. */
  lemma LinkEndOfChildBreaks(d: Doc, p: Node, x: Node, list: seq<Node>)
    requires WellFormed(d) && p in d && x in d[p].kids
    ensures x in d && d[p].last in d && !WellFormed(LinkEnd(d, p, x)[p := LinkEnd(d, p, x)[p].(kids := list)])
  {
    var s := d[p].kids;
    var k := IndexOf(s, x);
    Around(d, p, k);
    MemberHasParent(d, p, |s| - 1);
    if k > 0 { MemberHasParent(d, p, k - 1); }
    assert ListOk(d, p);
    var d' := LinkEnd(d, p, x)[p := LinkEnd(d, p, x)[p].(kids := list)];
    if WellFormed(d') {
      assert ListOk(d', p) && Listed(d', s[|s| - 1]) && Listed(d', x);
      MemberHasParent(d', p, IndexOf(list, x));
      MemberHasParent(d', p, IndexOf(list, s[|s| - 1]));
      if k > 0 {
        assert Listed(d', s[k - 1]);
        MemberHasParent(d', p, IndexOf(list, s[k - 1]));
      }
      assert false;
    }
  }

  /** The pointers are those of a document in which p has this list of children. */
  ghost predicate FitsList(d: Doc, p: Node, list: seq<Node>)
    requires p in d
  {
    WellFormed(d[p := d[p].(kids := list)])
  }

  /** For a node that passes the assertion on parents, what LinkEndChild leaves fits a list of children
      if and only if the node was not yet in the list. */
  lemma LinkEndFitsExactly(d: Doc, p: Node, x: Node)
    requires p in d && x in d && (d[x].parent == null || d[x].parent == p)
    requires WellFormed(d) || WellFormed(Loose(d, x))
    ensures d[p].last != null ==> d[p].last in d
    ensures (exists list :: FitsList(LinkEnd(d, p, x), p, list)) <==> x !in d[p].kids
  {
    hide WellFormed, LinkEnd, Insert;
    if x in d[p].kids {
      if WellFormed(Loose(d, x)) {
        UnlinkedIsNowhere(Loose(d, x), p, x);
        assert false;
      }
      LinkEndOfChildBreaks(d, p, x, []);
      forall list ensures !FitsList(LinkEnd(d, p, x), p, list) {
        LinkEndOfChildBreaks(d, p, x, list);
      }
    } else {
      if WellFormed(d) {
        if d[x].parent == p {
          var k := FoundAt(d, p, x);
          assert false;
        }
        assert Loose(d, x) == d;
      }
      LinkEndIsInsert(d, p, x);
      assert FitsList(LinkEnd(d, p, x), p, Insert(d[p].kids, |d[p].kids|, x));
    }
  }

  lemma InsertIndex(s: seq<Node>, k: nat, x: Node)
    requires k <= |s| && Distinct(s) && x !in s
    ensures var s' := Insert(s, k, x);
      && |s'| == |s| + 1 && Distinct(s') && x in s' && (forall n :: n in s ==> n in s')
      && (forall i {:trigger s'[i]} :: 0 <= i < |s'| ==> s'[i] == if i < k then s[i] else if i == k then x else s[i - 1])
  {
    var s' := Insert(s, k, x);
    forall n | n in s ensures n in s' {
      var i :| 0 <= i < |s| && s[i] == n;
      assert s'[if i < k then i else i + 1] == n;
    }
    assert s'[k] == x;
  }

  /** Where the neighbours of a place in the list are after an insertion. */
  lemma InsertNeighbours(s: seq<Node>, k: nat, x: Node, i: int)
    requires k <= |s| && Distinct(s) && x !in s
    ensures At(Insert(s, k, x), i) == if i < k then At(s, i) else if i == k then x else At(s, i - 1)
  {
    InsertIndex(s, k, x);
  }

  lemma InsertedPlace(d: Doc, p: Node, k: nat, x: Node, i: nat)
    requires p in d && ListOk(d, p) && k <= |d[p].kids| && x in d && x !in d[p].kids
    requires i <= |d[p].kids| == |Insert(d[p].kids, k, x)| - 1
    ensures Placed(DocInsert(d, p, k, x), p, Insert(d[p].kids, k, x), i)
  {
    hide Insert;
    var s := d[p].kids;
    InsertIndex(s, k, x);
    InsertNeighbours(s, k, x, i - 1);
    InsertNeighbours(s, k, x, i + 1);
    if i < k {
      assert Placed(d, p, s, i);
    } else if i > k {
      assert Placed(d, p, s, i - 1);
    }
  }

  lemma InsertedList(d: Doc, p: Node, k: nat, x: Node)
    requires p in d && ListOk(d, p) && k <= |d[p].kids| && x in d && x !in d[p].kids
    ensures ListOk(DocInsert(d, p, k, x), p)
  {
    hide Insert, Placed;
    var s := d[p].kids;
    InsertIndex(s, k, x);
    InsertNeighbours(s, k, x, 0);
    InsertNeighbours(s, k, x, |s|);
    forall i: nat | i <= |s| ensures Placed(DocInsert(d, p, k, x), p, Insert(s, k, x), i) {
      InsertedPlace(d, p, k, x, i);
    }
  }

  /** Inserting an unlinked node keeps the document well formed. */
  lemma InsertKeeps(d: Doc, p: Node, k: nat, x: Node)
    requires WellFormed(d) && p in d && k <= |d[p].kids| && x in d && d[x].parent == null
    ensures WellFormed(DocInsert(d, p, k, x))
  {
    hide Insert, ListOk;
    var s, d' := d[p].kids, DocInsert(d, p, k, x);
    assert ListOk(d, p);
    UnlinkedIsNowhere(d, p, x);
    InsertedList(d, p, k, x);
    if k > 0 { MemberHasParent(d, p, k - 1); }
    if k < |s| { MemberHasParent(d, p, k); }
    forall q | q in d' ensures ListOk(d', q) {
      if q != p { OtherList(d, d', p, q); }
    }
    forall n | n in d' ensures Listed(d', n) {
      ListedAfterInsert(d, p, k, x, n);
    }
  }

  lemma ListedAfterInsert(d: Doc, p: Node, k: nat, x: Node, n: Node)
    requires WellFormed(d) && p in d && k <= |d[p].kids| && x in d && d[x].parent == null && n in d
    ensures Listed(DocInsert(d, p, k, x), n)
  {
    hide Insert;
    assert ListOk(d, p) && Listed(d, n);
    UnlinkedIsNowhere(d, p, x);
    InsertIndex(d[p].kids, k, x);
  }

  // ---------- removal and replacement ----------

  ghost function Remove(s: seq<Node>, k: nat): seq<Node>
    requires k < |s|
  {
    s[..k] + s[k + 1..]
  }

  /** The view after child k of p is gone. */
  ghost function DocRemove(d: Doc, p: Node, k: nat): Doc
    requires p in d && k < |d[p].kids|
  {
    var s := d[p].kids;
    var a, b := At(s, k - 1), At(s, k + 1);
    map n | n in d :: Links(
      if n == s[k] then null else d[n].parent,
      if n == p && a == null then b else d[n].first,
      if n == p && b == null then a else d[n].last,
      if n == b then a else d[n].prev,
      if n == a then b else d[n].next,
      if n == p then Remove(s, k) else d[n].kids)
  }

  /** The view after y has taken the place of child k of p. */
  ghost function DocReplace(d: Doc, p: Node, k: nat, y: Node): Doc
    requires p in d && k < |d[p].kids|
  {
    var s := d[p].kids;
    var a, b := At(s, k - 1), At(s, k + 1);
    map n | n in d :: Links(
      if n == y then p else if n == s[k] then null else d[n].parent,
      if n == p && a == null then y else d[n].first,
      if n == p && b == null then y else d[n].last,
      if n == y then a else if n == b then y else d[n].prev,
      if n == y then b else if n == a then y else d[n].next,
      if n == p then s[k := y] else d[n].kids)
  }

  /** The neighbours of child k, as the pointers give them. */
  lemma Around(d: Doc, p: Node, k: nat)
    requires WellFormed(d) && p in d && k < |d[p].kids|
    ensures var s := d[p].kids;
      && s[k] in d && d[s[k]].parent == p && d[s[k]].prev == At(s, k - 1) && d[s[k]].next == At(s, k + 1)
      && (k > 0 ==> s[k - 1] in d && s[k - 1] != s[k]) && (k + 1 < |s| ==> s[k + 1] in d && s[k + 1] != s[k])
  {
    MemberHasParent(d, p, k);
    if k > 0 { MemberHasParent(d, p, k - 1); }
    if k + 1 < |d[p].kids| { MemberHasParent(d, p, k + 1); }
  }

  /** The pointer assignments of a removal. */
  lemma UnspliceIsRemove(d: Doc, p: Node, k: nat)
    requires WellFormed(d) && p in d && k < |d[p].kids|
    ensures var s := d[p].kids;
      && s[k] in d && (k > 0 ==> s[k - 1] in d) && (k + 1 < |s| ==> s[k + 1] in d)
      && var d2 := Before(After(d, p, At(s, k + 1), At(s, k - 1)), p, At(s, k - 1), At(s, k + 1));
      var d3 := d2[s[k] := d2[s[k]].(parent := null)];
      d3[p := d3[p].(kids := Remove(s, k))] == DocRemove(d, p, k)
  {
    hide WellFormed, Remove;
    Around(d, p, k);
  }

  /** The pointer assignments of a replacement of x, between a and b, by y. */
  ghost function Resplice(d: Doc, p: Node, a: Node?, b: Node?, x: Node, y: Node, kids: seq<Node>): (r: Doc)
    requires p in d && x in d && y in d && (a != null ==> a in d) && (b != null ==> b in d)
    ensures r.Keys == d.Keys
  {
    var d1 := d[y := d[y].(prev := a, next := b)];
    var d2 := Before(After(d1, p, b, y), p, a, y);
    var d3 := d2[x := d2[x].(parent := null)];
    var d4 := d3[y := d3[y].(parent := p)];
    d4[p := d4[p].(kids := kids)]
  }

  lemma RespliceIsReplace(d: Doc, p: Node, k: nat, y: Node)
    requires WellFormed(d) && p in d && k < |d[p].kids| && y in d && d[y].parent == null
    ensures var s := d[p].kids;
      && s[k] in d && (k > 0 ==> s[k - 1] in d) && (k + 1 < |s| ==> s[k + 1] in d)
      && Resplice(d, p, At(s, k - 1), At(s, k + 1), s[k], y, s[k := y]) == DocReplace(d, p, k, y)
  {
    hide WellFormed, Resplice;
    Around(d, p, k);
    UnlinkedIsNowhere(d, p, y);
    var s := d[p].kids;
    forall n | n in d
      ensures Resplice(d, p, At(s, k - 1), At(s, k + 1), s[k], y, s[k := y])[n] == DocReplace(d, p, k, y)[n]
    {
      ResplicedNode(d, p, At(s, k - 1), At(s, k + 1), s[k], y, s[k := y], n);
    }
  }

  /** The assignments, node by node. */
  lemma ResplicedNode(d: Doc, p: Node, a: Node?, b: Node?, x: Node, y: Node, kids: seq<Node>, n: Node)
    requires p in d && x in d && y in d && (a != null ==> a in d) && (b != null ==> b in d)
    requires y != x && y != a && y != b && n in d
    ensures Resplice(d, p, a, b, x, y, kids)[n] == Links(
      if n == y then p else if n == x then null else d[n].parent,
      if n == p && a == null then y else d[n].first,
      if n == p && b == null then y else d[n].last,
      if n == y then a else if n == b then y else d[n].prev,
      if n == y then b else if n == a then y else d[n].next,
      if n == p then kids else d[n].kids)
  {
  }

  lemma RemoveIndex(s: seq<Node>, k: nat)
    requires k < |s| && Distinct(s)
    ensures var s' := Remove(s, k);
      && |s'| == |s| - 1 && Distinct(s') && s[k] !in s' && (forall n {:trigger n in s'} :: n in s && n != s[k] ==> n in s')
      && (forall i {:trigger s'[i]} :: 0 <= i < |s'| ==> s'[i] == if i < k then s[i] else s[i + 1])
  {
    var s' := Remove(s, k);
    forall n | n in s && n != s[k] ensures n in s' {
      var i :| 0 <= i < |s| && s[i] == n;
      assert s'[if i < k then i else i - 1] == n;
    }
  }

  lemma RemovedPlace(d: Doc, p: Node, k: nat, i: nat)
    requires p in d && ListOk(d, p) && k < |d[p].kids| && i + 1 < |d[p].kids| == |Remove(d[p].kids, k)| + 1
    ensures Placed(DocRemove(d, p, k), p, Remove(d[p].kids, k), i)
  {
    hide Remove;
    var s := d[p].kids;
    RemoveIndex(s, k);
    if i < k {
      assert Placed(d, p, s, i);
    } else {
      assert Placed(d, p, s, i + 1);
    }
  }

  lemma RemovedList(d: Doc, p: Node, k: nat)
    requires p in d && ListOk(d, p) && k < |d[p].kids|
    ensures ListOk(DocRemove(d, p, k), p)
  {
    hide Remove, Placed;
    RemoveIndex(d[p].kids, k);
    forall i: nat | i + 1 < |d[p].kids| ensures Placed(DocRemove(d, p, k), p, Remove(d[p].kids, k), i) {
      RemovedPlace(d, p, k, i);
    }
  }

  /** Removing a child keeps the document well formed. */
  lemma RemoveKeeps(d: Doc, p: Node, k: nat)
    requires WellFormed(d) && p in d && k < |d[p].kids|
    ensures WellFormed(DocRemove(d, p, k))
  {
    hide Remove, ListOk;
    var s, d' := d[p].kids, DocRemove(d, p, k);
    assert ListOk(d, p);
    Around(d, p, k);
    RemovedList(d, p, k);
    if k > 0 { MemberHasParent(d, p, k - 1); }
    if k + 1 < |s| { MemberHasParent(d, p, k + 1); }
    forall q | q in d' ensures ListOk(d', q) {
      if q != p { OtherList(d, d', p, q); }
    }
    forall n | n in d' ensures Listed(d', n) {
      ListedAfterRemove(d, p, k, n);
    }
  }

  lemma ListedAfterRemove(d: Doc, p: Node, k: nat, n: Node)
    requires WellFormed(d) && p in d && k < |d[p].kids| && n in d
    ensures Listed(DocRemove(d, p, k), n)
  {
    hide Remove;
    assert ListOk(d, p) && Listed(d, n);
    RemoveIndex(d[p].kids, k);
  }

  lemma ReplacedList(d: Doc, p: Node, k: nat, y: Node)
    requires p in d && ListOk(d, p) && k < |d[p].kids| && y in d && y !in d[p].kids
    ensures ListOk(DocReplace(d, p, k, y), p)
  {
    var s, s' := d[p].kids, d[p].kids[k := y];
    forall i: nat | i < |s| ensures Placed(DocReplace(d, p, k, y), p, s', i) {
      assert Placed(d, p, s, i);
    }
  }

  /** Replacing a child by an unlinked node keeps the document well formed. */
  lemma ReplaceKeeps(d: Doc, p: Node, k: nat, y: Node)
    requires WellFormed(d) && p in d && k < |d[p].kids| && y in d && d[y].parent == null
    ensures WellFormed(DocReplace(d, p, k, y))
  {
    hide ListOk;
    var s, d' := d[p].kids, DocReplace(d, p, k, y);
    assert ListOk(d, p);
    Around(d, p, k);
    UnlinkedIsNowhere(d, p, y);
    ReplacedList(d, p, k, y);
    if k > 0 { MemberHasParent(d, p, k - 1); }
    if k + 1 < |s| { MemberHasParent(d, p, k + 1); }
    forall q | q in d' ensures ListOk(d', q) {
      if q != p { OtherList(d, d', p, q); }
    }
    forall n | n in d' ensures Listed(d', n) {
      ListedAfterReplace(d, p, k, y, n);
    }
  }

  lemma ListedAfterReplace(d: Doc, p: Node, k: nat, y: Node, n: Node)
    requires WellFormed(d) && p in d && k < |d[p].kids| && y in d && d[y].parent == null && n in d
    ensures Listed(DocReplace(d, p, k, y), n)
  {
    var s := d[p].kids;
    assert ListOk(d, p) && Listed(d, n);
    UnlinkedIsNowhere(d, p, y);
    assert s[k := y][k] == y;
    if n != y && n != s[k] && n in s {
      var i :| 0 <= i < |s| && s[i] == n;
      assert s[k := y][i] == n;
    }
  }

  // ---------- whole runs ----------

  /** The node reached from p's firstChild by following next i times. */
  ghost function Forward(d: Doc, p: Node, i: nat): Node?
    requires p in d
  {
    if i == 0 then d[p].first
    else var n := Forward(d, p, i - 1); if n != null && n in d then d[n].next else null
  }

  /** The node reached from p's lastChild by following prev i times. */
  ghost function Backward(d: Doc, p: Node, i: nat): Node?
    requires p in d
  {
    if i == 0 then d[p].last
    else var n := Backward(d, p, i - 1); if n != null && n in d then d[n].prev else null
  }

  /** Both walks visit exactly the list, in its order and in reverse, and then stop: the list is
      what the pointers spell out, nothing more. */
  lemma {:induction false} WalkVisitsList(d: Doc, p: Node, i: nat)
    requires WellFormed(d) && p in d && i <= |d[p].kids|
    ensures Forward(d, p, i) == At(d[p].kids, i)
    ensures Backward(d, p, i) == At(d[p].kids, |d[p].kids| - 1 - i)
  {
    hide WellFormed;
    if i == 0 {
      FirstAndLast(d, p);
    } else {
      WalkVisitsList(d, p, i - 1);
      MemberHasParent(d, p, i - 1);
      MemberHasParent(d, p, |d[p].kids| - i);
    }
  }

  lemma FirstAndLast(d: Doc, p: Node)
    requires WellFormed(d) && p in d
    ensures d[p].first == At(d[p].kids, 0) && d[p].last == At(d[p].kids, |d[p].kids| - 1)
  {
    assert ListOk(d, p);
  }

  /** The edits, by the place of the list they act on. */
  datatype Edit = Link(p: Node, k: nat, x: Node) | Unlink(p: Node, k: nat) | Swap(p: Node, k: nat, y: Node)

  ghost predicate Fits(d: Doc, e: Edit)
  {
    match e
    case Link(p, k, x) => p in d && k <= |d[p].kids| && x in d && d[x].parent == null
    case Unlink(p, k) => p in d && k < |d[p].kids|
    case Swap(p, k, y) => p in d && k < |d[p].kids| && y in d && d[y].parent == null
  }

  ghost function Apply(d: Doc, e: Edit): Doc
    requires Fits(d, e)
  {
    match e
    case Link(p, k, x) => DocInsert(d, p, k, x)
    case Unlink(p, k) => DocRemove(d, p, k)
    case Swap(p, k, y) => DocReplace(d, p, k, y)
  }

  /** The document after those of the edits that fit when their turn comes. */
  ghost function Session(d: Doc, edits: seq<Edit>): Doc
  {
    if edits == [] then d
    else Session(if Fits(d, edits[0]) then Apply(d, edits[0]) else d, edits[1..])
  }

  /** No sequence of edits ever leaves a list whose pointers disagree. */
  lemma {:induction false} SessionKeeps(d: Doc, edits: seq<Edit>)
    requires WellFormed(d)
    ensures WellFormed(Session(d, edits))
    decreases |edits|
  {
    hide WellFormed, DocInsert, DocRemove, DocReplace;
    if edits != [] {
      var e := edits[0];
      if Fits(d, e) {
        match e
        case Link(p, k, x) => InsertKeeps(d, p, k, x);
        case Unlink(p, k) => RemoveKeeps(d, p, k);
        case Swap(p, k, y) => ReplaceKeeps(d, p, k, y);
      }
      SessionKeeps(if Fits(d, e) then Apply(d, e) else d, edits[1..]);
    }
  }

  // ---------- ancestors ----------

  /** The node i parents above n. */
  ghost function Up(d: Doc, n: Node?, i: nat): Node?
  {
    if i == 0 then n else if n == null || n !in d then null else Up(d, d[n].parent, i - 1)
  }

  /** n is x, or x is an ancestor of n. */
  ghost predicate Within(d: Doc, n: Node, x: Node)
  {
    exists i: nat :: Up(d, n, i) == x
  }

  ghost predicate OwnAncestor(d: Doc, n: Node, i: nat)
  {
    n in d && i > 0 && Up(d, n, i) == n
  }

  /** No node is its own ancestor. */
  ghost predicate Acyclic(d: Doc)
  {
    forall n: Node, i: nat {:trigger OwnAncestor(d, n, i)} :: n in d ==> !OwnAncestor(d, n, i)
  }

  /** Only the parent of x differs. */
  ghost predicate SameParents(d: Doc, d': Doc, x: Node)
  {
    d'.Keys == d.Keys && forall n {:trigger d[n]} {:trigger d'[n]} :: n in d && n != x ==> d'[n].parent == d[n].parent
  }

  lemma {:induction false} UpAdd(d: Doc, n: Node?, i: nat, j: nat)
    ensures Up(d, Up(d, n, i), j) == Up(d, n, i + j)
    decreases i
  {
    if i > 0 && (n == null || n !in d) {
      UpNull(d, j);
    } else if i > 0 {
      UpAdd(d, d[n].parent, i - 1, j);
    }
  }

  lemma UpNull(d: Doc, j: nat)
    ensures Up(d, null, j) == null
  {
  }

  /** The way up from n is the same in both documents until it meets x. */
  lemma {:induction false} UpSame(d: Doc, d': Doc, x: Node, n: Node?, i: nat)
    requires SameParents(d, d', x) && forall j: nat {:trigger Up(d, n, j)} :: j < i ==> Up(d, n, j) != x
    ensures Up(d', n, i) == Up(d, n, i)
    decreases i
  {
    if i > 0 && n != null && n in d {
      assert Up(d, n, 0) != x;
      forall j: nat | j < i - 1 ensures Up(d, d[n].parent, j) != x {
        assert Up(d, n, j + 1) == Up(d, d[n].parent, j);
      }
      UpSame(d, d', x, d[n].parent, i - 1);
    }
  }

  /** The first time the way up from n meets x, if it does within i steps. */
  lemma {:induction false} FirstMeeting(d: Doc, x: Node, n: Node?, i: nat) returns (j: nat)
    ensures j <= i && (j < i ==> Up(d, n, j) == x) && forall k: nat {:trigger Up(d, n, k)} :: k < j ==> Up(d, n, k) != x
  {
    j := 0;
    while j < i && Up(d, n, j) != x
      invariant j <= i && forall k: nat {:trigger Up(d, n, k)} :: k < j ==> Up(d, n, k) != x
    {
      j := j + 1;
    }
  }

  /** Giving x, which has no parent, the parent p makes a cycle if and only if p is x or below it. */
  lemma AttachAcyclic(d: Doc, d': Doc, p: Node, x: Node)
    requires Acyclic(d) && SameParents(d, d', x) && p in d && x in d && d[x].parent == null && d'[x].parent == p
    ensures Acyclic(d') <==> !Within(d, p, x)
  {
    if Within(d, p, x) {
      var i: nat :| Up(d, p, i) == x;
      var j := FirstMeeting(d, x, p, i);
      UpSame(d, d', x, p, j);
      assert Up(d', x, j + 1) == Up(d', p, j) == x;
      assert OwnAncestor(d', x, j + 1);
    } else {
      forall n: Node, i: nat | n in d' && i > 0 ensures !OwnAncestor(d', n, i) {
        assert !OwnAncestor(d, n, i);
        var j := FirstMeeting(d, x, n, i);
        UpSame(d, d', x, n, j);
        if j < i {
          var m := i - j - 1;
          UpSame(d, d', x, p, m);
          UpAdd(d', n, j, m + 1);
          assert Up(d', x, m + 1) == Up(d', p, m);
          UpAdd(d, p, m, j);
        }
      }
    }
  }

  /** Taking x's parent away makes no cycle. */
  lemma DetachAcyclic(d: Doc, d': Doc, x: Node)
    requires Acyclic(d) && SameParents(d, d', x) && x in d && d'[x].parent == null
    ensures Acyclic(d')
  {
    forall n: Node, i: nat | n in d' && i > 0 ensures !OwnAncestor(d', n, i) {
      assert !OwnAncestor(d, n, i);
      var j := FirstMeeting(d, x, n, i);
      UpSame(d, d', x, n, j);
      if j < i {
        UpAdd(d', n, j, i - j);
        UpNull(d', i - j - 1);
      }
    }
  }

  /** Inserting x under p makes a cycle if and only if x is p or an ancestor of p. */
  lemma InsertAcyclic(d: Doc, p: Node, k: nat, x: Node)
    requires Acyclic(d) && p in d && k <= |d[p].kids| && x in d && d[x].parent == null
    ensures Acyclic(DocInsert(d, p, k, x)) <==> !Within(d, p, x)
  {
    hide Insert, Acyclic, Within;
    AttachAcyclic(d, DocInsert(d, p, k, x), p, x);
  }

  lemma RemoveAcyclic(d: Doc, p: Node, k: nat)
    requires WellFormed(d) && Acyclic(d) && p in d && k < |d[p].kids|
    ensures Acyclic(DocRemove(d, p, k))
  {
    hide Remove, Acyclic, WellFormed;
    MemberHasParent(d, p, k);
    DetachAcyclic(d, DocRemove(d, p, k), d[p].kids[k]);
  }

  lemma ReplaceAcyclic(d: Doc, p: Node, k: nat, y: Node)
    requires WellFormed(d) && Acyclic(d) && p in d && k < |d[p].kids| && y in d && d[y].parent == null
    ensures Acyclic(DocReplace(d, p, k, y)) <==> !Within(d, p, y)
  {
    hide Acyclic, WellFormed;
    MemberHasParent(d, p, k);
    var x := d[p].kids[k];
    var free := Loose(d, x);
    DetachAcyclic(d, free, x);
    AttachAcyclic(free, DocReplace(d, p, k, y), p, y);
    forall i: nat ensures Up(free, p, i) == Up(d, p, i) {
      ParentAboveChild(d, p, x, i);
      UpSame(d, free, x, p, i);
    }
  }

  /** The way up from a parent does not meet its child. */
  lemma ParentAboveChild(d: Doc, p: Node, x: Node, i: nat)
    requires Acyclic(d) && x in d && d[x].parent == p
    ensures forall j: nat {:trigger Up(d, p, j)} :: j < i ==> Up(d, p, j) != x
  {
    forall j: nat | j < i ensures Up(d, p, j) != x {
      assert Up(d, x, j + 1) == Up(d, p, j) && !OwnAncestor(d, x, j + 1);
    }
  }

  /** The node an edit puts in is not the new parent or above it. */
  ghost predicate PutsOutside(d: Doc, e: Edit)
  {
    (e.Link? ==> !Within(d, e.p, e.x)) && (e.Swap? ==> !Within(d, e.p, e.y))
  }

  ghost predicate AlwaysAcyclic(d: Doc, edits: seq<Edit>)
  {
    Acyclic(d) && (edits == [] ||
      AlwaysAcyclic(if Fits(d, edits[0]) then Apply(d, edits[0]) else d, edits[1..]))
  }

  ghost predicate AlwaysOutside(d: Doc, edits: seq<Edit>)
  {
    edits == [] || ((Fits(d, edits[0]) ==> PutsOutside(d, edits[0])) &&
      AlwaysOutside(if Fits(d, edits[0]) then Apply(d, edits[0]) else d, edits[1..]))
  }

  /** The document is a forest all through a sequence of edits if and only if no edit puts a node
      inside itself. */
  lemma {:induction false} SessionAcyclic(d: Doc, edits: seq<Edit>)
    requires WellFormed(d) && Acyclic(d)
    ensures AlwaysAcyclic(d, edits) <==> AlwaysOutside(d, edits)
    decreases |edits|
  {
    hide WellFormed, DocInsert, DocRemove, DocReplace, Acyclic, Within;
    if edits != [] {
      var e := edits[0];
      var d' := if Fits(d, e) then Apply(d, e) else d;
      if Fits(d, e) {
        match e
        case Link(p, k, x) => InsertKeeps(d, p, k, x); InsertAcyclic(d, p, k, x);
        case Unlink(p, k) => RemoveKeeps(d, p, k); RemoveAcyclic(d, p, k);
        case Swap(p, k, y) => ReplaceKeeps(d, p, k, y); ReplaceAcyclic(d, p, k, y);
      }
      assert Acyclic(d') <==> (Fits(d, e) ==> PutsOutside(d, e));
      if Acyclic(d') {
        SessionAcyclic(d', edits[1..]);
      } else {
        assert !AlwaysAcyclic(d', edits[1..]);
      }
    }
  }
}
