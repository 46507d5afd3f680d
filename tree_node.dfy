/**
 * IdeTreeNode, the node of the sidebar's outline tree (ide-tree-node.h).
 *
 * The library's implementation file is not part of this model, so the nodes
 * live in an arena: a node is an index, and the parent, first/last child,
 * previous/next sibling links and the child count are index-valued fields
 * that the operations rewire in place. The ghost field `Kids` is the ordered
 * child list of every node; `Valid` ties every link to it.
 */
module IdeTreeNode {
  import opened Wrappers
  import opened Payload

  type NodeId = nat

  /* ---------------------------------------------------------------- */
  /* Visit codes and flag bits                                        */
  /* ---------------------------------------------------------------- */

  /** IdeTreeNodeVisit: what a traversal callback asks for next. */
  datatype Visit = Break | Continue | Children

  function VisitCode(v: Visit): bv32
  {
    match v
    case Break => 0
    case Continue => 0x1
    case Children => 0x3
  }

  /** "Children" carries the "continue" bit; "break" carries none. */
  lemma VisitCodes()
    ensures VisitCode(Break) == 0 && VisitCode(Continue) == 1 && VisitCode(Children) == 3
    ensures VisitCode(Children) & VisitCode(Continue) == VisitCode(Continue)
    ensures VisitCode(Break) & VisitCode(Continue) == 0
  {
  }

  const FLAGS_NONE: bv32 := 0
  const FLAGS_DESCENDANT: bv32 := 1 << 0
  const FLAGS_ADDED: bv32 := 1 << 1
  const FLAGS_CHANGED: bv32 := 1 << 2
  const FLAGS_REMOVED: bv32 := 1 << 3
  const FLAGS_VCS_MASK: bv32 := FLAGS_DESCENDANT | FLAGS_ADDED | FLAGS_CHANGED | FLAGS_REMOVED

  predicate SingleBit(b: bv32)
  {
    b != 0 && b & (b - 1) == 0
  }

  /** The four VCS flags are distinct single bits. */
  lemma FlagBits()
    ensures FLAGS_NONE == 0
    ensures SingleBit(FLAGS_DESCENDANT) && SingleBit(FLAGS_ADDED)
    ensures SingleBit(FLAGS_CHANGED) && SingleBit(FLAGS_REMOVED)
    ensures FLAGS_DESCENDANT & FLAGS_ADDED == 0 && FLAGS_DESCENDANT & FLAGS_CHANGED == 0
    ensures FLAGS_DESCENDANT & FLAGS_REMOVED == 0 && FLAGS_ADDED & FLAGS_CHANGED == 0
    ensures FLAGS_ADDED & FLAGS_REMOVED == 0 && FLAGS_CHANGED & FLAGS_REMOVED == 0
  {
  }

  /** Masking with the VCS mask keeps exactly the four VCS bits of a flags value. */
  lemma VcsMaskKeepsVcsBits(f: bv32)
    ensures FLAGS_VCS_MASK == 0xF
    ensures f & FLAGS_VCS_MASK ==
            (f & FLAGS_DESCENDANT) | (f & FLAGS_ADDED) | (f & FLAGS_CHANGED) | (f & FLAGS_REMOVED)
    ensures (f & FLAGS_VCS_MASK) & !FLAGS_VCS_MASK == 0
    ensures (f & FLAGS_VCS_MASK) & FLAGS_VCS_MASK == f & FLAGS_VCS_MASK
  {
  }

  /* ---------------------------------------------------------------- */
  /* Per-node properties                                              */
  /* ---------------------------------------------------------------- */

  /** The settable properties of a node; icons are kept by icon name. */
  datatype NodeData = NodeData(
    title: Option<string>,
    icon: Option<string>,
    expandedIcon: Option<string>,
    flags: bv32,
    vcsIgnored: bool,
    hasError: bool,
    destroyItem: bool,
    item: Option<Item>,
    childrenPossible: bool,
    resetOnCollapse: bool,
    useMarkup: bool,
    isHeader: bool)

  const EmptyData := NodeData(None, None, None, FLAGS_NONE, false, false, false, None, false, false, false, false)

  /* ---------------------------------------------------------------- */
  /* Child lists                                                      */
  /* ---------------------------------------------------------------- */

  predicate Distinct(s: seq<NodeId>)
  {
    forall i, j :: 0 <= i < j < |s| ==> s[i] != s[j]
  }

  function IndexOf(s: seq<NodeId>, x: NodeId): (i: nat)
    requires x in s
    ensures i < |s| && s[i] == x && x !in s[..i]
  {
    if s[0] == x then 0
    else
      var j := IndexOf(s[1..], x);
      assert s[..j + 1] == [s[0]] + s[1..][..j];
      1 + j
  }

  function First(s: seq<NodeId>): Option<NodeId>
  {
    if s == [] then None else Some(s[0])
  }

  function Last(s: seq<NodeId>): Option<NodeId>
  {
    if s == [] then None else Some(s[|s| - 1])
  }

  /**
   * The child list after inserting x before sibling `sib` (at the end when
   * there is no sibling): x sits exactly in front of `sib` and nothing else
   * moves.
   */
  function InsertedBefore(s: seq<NodeId>, x: NodeId, sib: Option<NodeId>): (r: seq<NodeId>)
    ensures |r| == |s| + 1 && multiset(r) == multiset(s) + multiset{x}
    ensures sib.None? || sib.value !in s ==> r == s + [x]
    ensures sib.Some? && sib.value in s ==>
              var k := IndexOf(s, sib.value);
              r[..k] == s[..k] && r[k] == x && r[k + 1..] == s[k..]
  {
    if sib.None? || sib.value !in s then s + [x]
    else
      var k := IndexOf(s, sib.value);
      var r := s[..k] + [x] + s[k..];
      assert s == s[..k] + s[k..];
      assert multiset(r) == multiset(s[..k]) + multiset{x} + multiset(s[k..]);
      assert r[..k] == s[..k] && r[k + 1..] == s[k..];
      r
  }

  /** The child list after taking x out; the others keep their order. */
  function Removed(s: seq<NodeId>, x: NodeId): (r: seq<NodeId>)
    ensures x in s ==> |r| == |s| - 1 && multiset(r) == multiset(s) - multiset{x}
    ensures x !in s ==> r == s
  {
    if x !in s then s
    else
      var k := IndexOf(s, x);
      assert s == s[..k] + [x] + s[k + 1..];
      s[..k] + s[k + 1..]
  }

  /** The first occurrence of x is at k when x occurs at k and nowhere before. */
  lemma {:induction false} IndexOfFirst(s: seq<NodeId>, x: NodeId, k: nat)
    requires k < |s| && s[k] == x
    requires forall i :: 0 <= i < k ==> s[i] != x
    ensures IndexOf(s, x) == k
    decreases k
  {
    if k > 0 {
      IndexOfFirst(s[1..], x, k - 1);
    }
  }

  /** Taking out a node that was just inserted gives back the original list. */
  lemma RemoveUndoesInsert(s: seq<NodeId>, x: NodeId, sib: Option<NodeId>)
    requires x !in s
    ensures Removed(InsertedBefore(s, x, sib), x) == s
  {
    var r := InsertedBefore(s, x, sib);
    var k := if sib.None? || sib.value !in s then |s| else IndexOf(s, sib.value);
    assert r[..k] == s[..k] && r[k] == x;
    forall i | 0 <= i < k ensures r[i] != x {
      assert r[..k][i] == s[..k][i] == s[i];
    }
    IndexOfFirst(r, x, k);
    if sib.None? || sib.value !in s {
      assert r[..k] == s;
    } else {
      assert r[k + 1..] == s[k..];
      assert s == s[..k] + s[k..];
    }
  }

  /** In a distinct list, removal really takes the node out. */
  lemma RemovedAbsent(s: seq<NodeId>, x: NodeId)
    requires Distinct(s)
    ensures x !in Removed(s, x)
  {
    if x in s {
      var k := IndexOf(s, x);
      var r := Removed(s, x);
      assert r == s[..k] + s[k + 1..];
      forall i | 0 <= i < |r| ensures r[i] != x {
        if i < k {
          assert r[i] == s[..k][i] == s[i];
        } else {
          assert r[i] == s[k + 1..][i - k] == s[i + 1];
        }
      }
    }
  }

  /** The structural fields of one node, as the node struct holds them. */
  datatype Link = Link(
    parent: Option<NodeId>,
    firstChild: Option<NodeId>,
    lastChild: Option<NodeId>,
    prevSibling: Option<NodeId>,
    nextSibling: Option<NodeId>,
    nChildren: nat)

  const Detached := Link(None, None, None, None, None, 0)

  /**
   * The sibling links of a child list: each element points back to the one
   * before it and forward to the one after it, and the ends point nowhere.
   */
  ghost predicate Linked(s: seq<NodeId>, links: seq<Link>)
  {
    (forall i :: 0 <= i < |s| ==> s[i] < |links|) &&
    (forall i {:trigger links[s[i]]} :: 0 <= i < |s| ==>
       links[s[i]].prevSibling == (if i == 0 then None else Some(s[i - 1])) &&
       links[s[i]].nextSibling == (if i == |s| - 1 then None else Some(s[i + 1])))
  }

  lemma LinkedFrame(s: seq<NodeId>, links: seq<Link>, links2: seq<Link>)
    requires Linked(s, links) && |links| <= |links2|
    requires forall i {:trigger links2[s[i]]} :: 0 <= i < |s| ==>
               links2[s[i]].prevSibling == links[s[i]].prevSibling && links2[s[i]].nextSibling == links[s[i]].nextSibling
    ensures Linked(s, links2)
  {
  }

  lemma LinkedInsert(s: seq<NodeId>, k: nat, x: NodeId, links: seq<Link>, links2: seq<Link>)
    requires Linked(s, links) && k <= |s| && x !in s
    requires |links2| == |links| && x < |links|
    requires links2[x].prevSibling == (if k == 0 then None else Some(s[k - 1]))
    requires links2[x].nextSibling == (if k == |s| then None else Some(s[k]))
    requires k < |s| ==> links2[s[k]].prevSibling == Some(x)
    requires 0 < k ==> links2[s[k - 1]].nextSibling == Some(x)
    requires forall i {:trigger links2[s[i]]} :: 0 <= i < |s| && i != k ==> links2[s[i]].prevSibling == links[s[i]].prevSibling
    requires forall i {:trigger links2[s[i]]} :: 0 <= i < |s| && i + 1 != k ==> links2[s[i]].nextSibling == links[s[i]].nextSibling
    ensures Linked(s[..k] + [x] + s[k..], links2)
  {
    var t := s[..k] + [x] + s[k..];
    assert |t| == |s| + 1;
    forall j | 0 <= j < |t|
      ensures t[j] < |links2|
      ensures links2[t[j]].prevSibling == (if j == 0 then None else Some(t[j - 1]))
      ensures links2[t[j]].nextSibling == (if j == |t| - 1 then None else Some(t[j + 1]))
    {
      if j < k {
        assert t[j] == s[j];
        assert links2[s[j]].prevSibling == links[s[j]].prevSibling == (if j == 0 then None else Some(s[j - 1]));
        if j > 0 { assert t[j - 1] == s[j - 1]; }
        if j + 1 < k {
          assert t[j + 1] == s[j + 1];
          assert links2[s[j]].nextSibling == links[s[j]].nextSibling;
        } else {
          assert t[j + 1] == x;
        }
      } else if j == k {
        assert t[j] == x;
        if j > 0 { assert t[j - 1] == s[j - 1]; }
        if j < |s| { assert t[j + 1] == s[j]; }
      } else {
        var i := j - 1;
        assert t[j] == s[i];
        if i == k {
          assert t[j - 1] == x;
        } else {
          assert t[j - 1] == s[i - 1];
          assert links2[s[i]].prevSibling == links[s[i]].prevSibling == Some(s[i - 1]);
        }
        assert links2[s[i]].nextSibling == links[s[i]].nextSibling;
        if j + 1 < |t| { assert t[j + 1] == s[i + 1]; }
      }
    }
    assert Linked(t, links2);
  }

  lemma LinkedRemove(s: seq<NodeId>, k: nat, links: seq<Link>, links2: seq<Link>)
    requires Linked(s, links) && k < |s|
    requires |links2| == |links|
    requires k + 1 < |s| ==> links2[s[k + 1]].prevSibling == (if k == 0 then None else Some(s[k - 1]))
    requires 0 < k ==> links2[s[k - 1]].nextSibling == (if k + 1 == |s| then None else Some(s[k + 1]))
    requires forall i {:trigger links2[s[i]]} :: 0 <= i < |s| && i != k && i != k + 1 ==> links2[s[i]].prevSibling == links[s[i]].prevSibling
    requires forall i {:trigger links2[s[i]]} :: 0 <= i < |s| && i != k && i + 1 != k ==> links2[s[i]].nextSibling == links[s[i]].nextSibling
    ensures Linked(s[..k] + s[k + 1..], links2)
  {
    var t := s[..k] + s[k + 1..];
    assert |t| == |s| - 1;
    forall j | 0 <= j < |t|
      ensures t[j] < |links2|
      ensures links2[t[j]].prevSibling == (if j == 0 then None else Some(t[j - 1]))
      ensures links2[t[j]].nextSibling == (if j == |t| - 1 then None else Some(t[j + 1]))
    {
      if j < k {
        assert t[j] == s[j];
        if j > 0 { assert t[j - 1] == s[j - 1]; }
        if j + 1 < k {
          assert t[j + 1] == s[j + 1];
          assert links2[s[j]].nextSibling == links[s[j]].nextSibling == Some(s[j + 1]);
        } else {
          assert links2[s[k - 1]].nextSibling == (if k + 1 == |s| then None else Some(s[k + 1]));
          if j + 1 < |t| { assert t[j + 1] == s[j + 2]; }
        }
      } else {
        var i := j + 1;
        assert t[j] == s[i];
        if j > 0 {
          if j == k { assert t[j - 1] == s[k - 1]; } else { assert t[j - 1] == s[i - 1]; }
        }
        assert links2[s[i]].nextSibling == links[s[i]].nextSibling;
        if j + 1 < |t| { assert t[j + 1] == s[i + 1]; }
      }
    }
    assert Linked(t, links2);
  }

  /* ---------------------------------------------------------------- */
  /* Well-formed arenas                                               */
  /* ---------------------------------------------------------------- */

  /** Every child list holds existing, distinct nodes whose parent link names the list's owner. */
  ghost predicate Owned(links: seq<Link>, kids: seq<seq<NodeId>>)
  {
    |links| == |kids| &&
    (forall p, i :: 0 <= p < |kids| && 0 <= i < |kids[p]| ==> kids[p][i] < |kids|) &&
    (forall p, i {:trigger links[kids[p][i]]} :: 0 <= p < |kids| && 0 <= i < |kids[p]| ==> links[kids[p][i]].parent == Some(p)) &&
    (forall p :: 0 <= p < |kids| ==> Distinct(kids[p]))
  }

  /** A parent link always names a node whose child list contains the child. */
  ghost predicate Listed(links: seq<Link>, kids: seq<seq<NodeId>>)
  {
    forall c :: 0 <= c < |links| && links[c].parent.Some? ==>
      links[c].parent.value < |kids| && c in kids[links[c].parent.value]
  }

  /** First/last child and the child count describe each child list; a detached node has no siblings. */
  ghost predicate Ends(links: seq<Link>, kids: seq<seq<NodeId>>)
  {
    |links| == |kids| &&
    (forall p {:trigger links[p]} :: 0 <= p < |kids| ==>
       links[p].nChildren == |kids[p]| && links[p].firstChild == First(kids[p]) && links[p].lastChild == Last(kids[p])) &&
    (forall c :: 0 <= c < |links| && links[c].parent.None? ==> links[c].prevSibling.None? && links[c].nextSibling.None?)
  }

  /** The sibling links chain every child list (Linked, stated for all lists at once). */
  ghost predicate Chained(links: seq<Link>, kids: seq<seq<NodeId>>)
  {
    (forall p, i :: 0 <= p < |kids| && 0 <= i < |kids[p]| ==> kids[p][i] < |links|) &&
    forall p, i {:trigger links[kids[p][i]]} :: 0 <= p < |kids| && 0 <= i < |kids[p]| ==>
      kids[p][i] < |links| &&
      links[kids[p][i]].prevSibling == (if i == 0 then None else Some(kids[p][i - 1])) &&
      links[kids[p][i]].nextSibling == (if i == |kids[p]| - 1 then None else Some(kids[p][i + 1]))
  }

  /** No node is its own parent. */
  ghost predicate NoSelfParent(links: seq<Link>)
  {
    forall c :: 0 <= c < |links| && links[c].parent.Some? ==> links[c].parent.value != c
  }

  ghost predicate WellFormed(links: seq<Link>, kids: seq<seq<NodeId>>)
  {
    Owned(links, kids) && Listed(links, kids) && Ends(links, kids) && Chained(links, kids) && NoSelfParent(links)
  }

  lemma ChainedLinked(links: seq<Link>, kids: seq<seq<NodeId>>, p: NodeId)
    requires Chained(links, kids) && p < |kids|
    ensures Linked(kids[p], links)
  {
  }

  lemma LinkedChained(links: seq<Link>, kids: seq<seq<NodeId>>)
    requires forall p :: 0 <= p < |kids| ==> Linked(kids[p], links)
    ensures Chained(links, kids)
  {
    forall p, i | 0 <= p < |kids| && 0 <= i < |kids[p]|
      ensures kids[p][i] < |links|
      ensures links[kids[p][i]].prevSibling == (if i == 0 then None else Some(kids[p][i - 1]))
      ensures links[kids[p][i]].nextSibling == (if i == |kids[p]| - 1 then None else Some(kids[p][i + 1]))
    {
      assert Linked(kids[p], links);
    }
  }

  /**
   * One insert_before step on the arena: the detached node x enters p's list
   * at position k, x points up to p and sideways to its new neighbours, the
   * neighbours and p's first/last/count fields point at x, and no other
   * node changes.
   */
  ghost predicate InsertStep(links: seq<Link>, kids: seq<seq<NodeId>>, p: NodeId, k: nat, x: NodeId,
                             links2: seq<Link>, kids2: seq<seq<NodeId>>)
  {
    |links| == |kids| && p < |kids| && x < |kids| && x != p && links[x].parent.None? && k <= |kids[p]| &&
    (forall i :: 0 <= i < |kids[p]| ==> kids[p][i] < |links|) &&
    kids2 == kids[p := kids[p][..k] + [x] + kids[p][k..]] &&
    |links2| == |links| &&
    links2[x] == links[x].(parent := Some(p),
                           prevSibling := if k == 0 then None else Some(kids[p][k - 1]),
                           nextSibling := if k == |kids[p]| then None else Some(kids[p][k])) &&
    links2[p] == links[p].(nChildren := links[p].nChildren + 1,
                           firstChild := if k == 0 then Some(x) else links[p].firstChild,
                           lastChild := if k == |kids[p]| then Some(x) else links[p].lastChild) &&
    (k < |kids[p]| ==> links2[kids[p][k]] == links[kids[p][k]].(prevSibling := Some(x))) &&
    (0 < k ==> links2[kids[p][k - 1]] == links[kids[p][k - 1]].(nextSibling := Some(x))) &&
    (forall c :: 0 <= c < |links| && c != x && c != p && (k >= |kids[p]| || c != kids[p][k]) && (k == 0 || c != kids[p][k - 1]) ==>
       links2[c] == links[c])
  }

  /** An insert step changes no parent link but x's, and no sibling link outside p's list and x. */
  lemma InsertStepFrame(links: seq<Link>, kids: seq<seq<NodeId>>, p: NodeId, k: nat, x: NodeId,
                        links2: seq<Link>, kids2: seq<seq<NodeId>>)
    requires Owned(links, kids) && NoSelfParent(links)
    requires InsertStep(links, kids, p, k, x, links2, kids2)
    ensures x !in kids[p]
    ensures forall c :: 0 <= c < |links| && c != x ==> links2[c].parent == links[c].parent
    ensures forall c :: 0 <= c < |links| && c != x && links[c].parent != Some(p) ==>
              links2[c].prevSibling == links[c].prevSibling && links2[c].nextSibling == links[c].nextSibling
  {
    var s := kids[p];
    forall c | 0 <= c < |links| && c != x && links[c].parent != Some(p)
      ensures links2[c].prevSibling == links[c].prevSibling && links2[c].nextSibling == links[c].nextSibling
    {
      if k < |s| { assert links[s[k]].parent == Some(p); }
      if 0 < k { assert links[s[k - 1]].parent == Some(p); }
    }
    forall c | 0 <= c < |links| && c != x
      ensures links2[c].parent == links[c].parent
    {
    }
  }

  lemma InsertKeepsChained(links: seq<Link>, kids: seq<seq<NodeId>>, p: NodeId, k: nat, x: NodeId,
                           links2: seq<Link>, kids2: seq<seq<NodeId>>)
    requires Chained(links, kids) && Owned(links, kids) && NoSelfParent(links)
    requires InsertStep(links, kids, p, k, x, links2, kids2)
    ensures Chained(links2, kids2)
  {
    var s := kids[p];
    InsertStepFrame(links, kids, p, k, x, links2, kids2);
    ChainedLinked(links, kids, p);
    LinkedInsert(s, k, x, links, links2);
    forall q | 0 <= q < |kids2|
      ensures Linked(kids2[q], links2)
    {
      if q != p {
        ChainedLinked(links, kids, q);
        forall i | 0 <= i < |kids[q]|
          ensures links2[kids[q][i]].prevSibling == links[kids[q][i]].prevSibling
          ensures links2[kids[q][i]].nextSibling == links[kids[q][i]].nextSibling
        {
          assert links[kids[q][i]].parent == Some(q);
        }
        LinkedFrame(kids[q], links, links2);
      }
    }
    LinkedChained(links2, kids2);
  }

  lemma InsertKeepsOwned(links: seq<Link>, kids: seq<seq<NodeId>>, p: NodeId, k: nat, x: NodeId,
                         links2: seq<Link>, kids2: seq<seq<NodeId>>)
    requires Owned(links, kids) && NoSelfParent(links)
    requires InsertStep(links, kids, p, k, x, links2, kids2)
    ensures Owned(links2, kids2)
  {
    var s := kids[p];
    var t := s[..k] + [x] + s[k..];
    InsertStepFrame(links, kids, p, k, x, links2, kids2);
    forall j, i | 0 <= j < i < |t| ensures t[j] != t[i] {
      if j < k && i > k {
        assert t[i] == s[i - 1];
      }
    }
    assert Distinct(t);
    forall q, i | 0 <= q < |kids2| && 0 <= i < |kids2[q]|
      ensures kids2[q][i] < |kids2| && links2[kids2[q][i]].parent == Some(q)
    {
      if q != p {
        assert links[kids[q][i]].parent == Some(q);
      } else if i < k {
        assert t[i] == s[i];
      } else if i > k {
        assert t[i] == s[i - 1];
      }
    }
  }

  lemma InsertKeepsListed(links: seq<Link>, kids: seq<seq<NodeId>>, p: NodeId, k: nat, x: NodeId,
                          links2: seq<Link>, kids2: seq<seq<NodeId>>)
    requires Listed(links, kids) && Owned(links, kids) && NoSelfParent(links)
    requires InsertStep(links, kids, p, k, x, links2, kids2)
    ensures Listed(links2, kids2)
  {
    var s := kids[p];
    var t := s[..k] + [x] + s[k..];
    InsertStepFrame(links, kids, p, k, x, links2, kids2);
    forall c | 0 <= c < |links2| && links2[c].parent.Some?
      ensures links2[c].parent.value < |kids2| && c in kids2[links2[c].parent.value]
    {
      if c == x {
        assert t[k] == x;
      } else if links[c].parent.value == p {
        var i :| 0 <= i < |s| && s[i] == c;
        if i < k {
          assert t[i] == c;
        } else {
          assert t[i + 1] == c;
        }
      }
    }
  }

  lemma InsertKeepsEnds(links: seq<Link>, kids: seq<seq<NodeId>>, p: NodeId, k: nat, x: NodeId,
                        links2: seq<Link>, kids2: seq<seq<NodeId>>)
    requires Ends(links, kids) && Owned(links, kids) && NoSelfParent(links)
    requires InsertStep(links, kids, p, k, x, links2, kids2)
    ensures Ends(links2, kids2) && NoSelfParent(links2)
  {
    InsertStepFrame(links, kids, p, k, x, links2, kids2);
    InsertKeepsCounts(links, kids, p, k, x, links2, kids2);
    forall c | 0 <= c < |links2| && links2[c].parent.None?
      ensures links2[c].prevSibling.None? && links2[c].nextSibling.None?
    {
      assert c != x;
    }
    forall c | 0 <= c < |links2| && links2[c].parent.Some?
      ensures links2[c].parent.value != c
    {
    }
  }

  lemma InsertKeepsCounts(links: seq<Link>, kids: seq<seq<NodeId>>, p: NodeId, k: nat, x: NodeId,
                          links2: seq<Link>, kids2: seq<seq<NodeId>>)
    requires Ends(links, kids)
    requires InsertStep(links, kids, p, k, x, links2, kids2)
    ensures forall q {:trigger links2[q]} :: 0 <= q < |kids2| ==>
              links2[q].nChildren == |kids2[q]| && links2[q].firstChild == First(kids2[q]) && links2[q].lastChild == Last(kids2[q])
  {
    var s := kids[p];
    var t := s[..k] + [x] + s[k..];
    assert First(t) == if k == 0 then Some(x) else First(s);
    assert Last(t) == if k == |s| then Some(x) else Last(s);
    forall q | 0 <= q < |kids2|
      ensures links2[q].nChildren == |kids2[q]| && links2[q].firstChild == First(kids2[q]) && links2[q].lastChild == Last(kids2[q])
    {
      if q != p {
        assert kids2[q] == kids[q];
        assert links2[q].nChildren == links[q].nChildren;
        assert links2[q].firstChild == links[q].firstChild && links2[q].lastChild == links[q].lastChild;
      }
    }
  }

  /**
   * Inserting the detached node x into p's list at position k, with the
   * links rewired as insert_before does, keeps the arena well formed.
   */
  lemma InsertKeepsWellFormed(links: seq<Link>, kids: seq<seq<NodeId>>, p: NodeId, k: nat, x: NodeId,
                              links2: seq<Link>, kids2: seq<seq<NodeId>>)
    requires WellFormed(links, kids)
    requires InsertStep(links, kids, p, k, x, links2, kids2)
    ensures WellFormed(links2, kids2)
  {
    InsertKeepsChained(links, kids, p, k, x, links2, kids2);
    InsertKeepsOwned(links, kids, p, k, x, links2, kids2);
    InsertKeepsListed(links, kids, p, k, x, links2, kids2);
    InsertKeepsEnds(links, kids, p, k, x, links2, kids2);
  }

  /** The links after insert_before's assignments, in the order it makes them. */
  function InsertLinks(links: seq<Link>, p: NodeId, x: NodeId, before: Option<NodeId>, sib: Option<NodeId>): (r: seq<Link>)
    requires p < |links| && x < |links| && (before.Some? ==> before.value < |links|) && (sib.Some? ==> sib.value < |links|)
    ensures |r| == |links|
  {
    var l1 := links[x := links[x].(parent := Some(p), prevSibling := before, nextSibling := sib)];
    var l2 := if before.Some? then l1[before.value := l1[before.value].(nextSibling := Some(x))]
              else l1[p := l1[p].(firstChild := Some(x))];
    var l3 := if sib.Some? then l2[sib.value := l2[sib.value].(prevSibling := Some(x))]
              else l2[p := l2[p].(lastChild := Some(x))];
    l3[p := l3[p].(nChildren := l3[p].nChildren + 1)]
  }

  /**
   * insert_before's assignments, made with the neighbours its guard
   * selects, link the node into the children right before the sibling and
   * keep the links well formed.
   */
  lemma InsertBeforeKeepsWellFormed(links: seq<Link>, kids: seq<seq<NodeId>>, x: NodeId, p: NodeId,
                                    sib: Option<NodeId>, before: Option<NodeId>)
    requires WellFormed(links, kids) && x < |kids| && p < |kids| && (sib.Some? ==> sib.value < |kids|)
    requires x != p && links[x].parent.None? && (sib.None? || links[sib.value].parent == Some(p))
    requires before == if sib.None? then links[p].lastChild else links[sib.value].prevSibling
    ensures (before.Some? ==> before.value < |links|) && p < |links| && x < |links|
    ensures WellFormed(InsertLinks(links, p, x, before, sib), kids[p := InsertedBefore(kids[p], x, sib)])
    ensures InsertLinks(links, p, x, before, sib)[x].parent == Some(p)
  {
    var s := kids[p];
    ChainedLinked(links, kids, p);
    var k: nat := |s|;
    if sib.Some? {
      k := IndexOf(s, sib.value);
    }
    assert before == (if k == 0 then None else Some(s[k - 1]));
    var links2 := InsertLinks(links, p, x, before, sib);
    var kids2 := kids[p := s[..k] + [x] + s[k..]];
    InsertLinksStep(links, kids, p, k, x, before, sib);
    InsertKeepsWellFormed(links, kids, p, k, x, links2, kids2);
    assert sib.None? ==> s[..k] == s && s[k..] == [];
    assert s[..k] + [x] + s[k..] == InsertedBefore(s, x, sib);
  }

  /** Those assignments, made with the neighbours of position k, are an insert step. */
  lemma InsertLinksStep(links: seq<Link>, kids: seq<seq<NodeId>>, p: NodeId, k: nat, x: NodeId,
                        before: Option<NodeId>, sib: Option<NodeId>)
    requires Owned(links, kids) && NoSelfParent(links)
    requires p < |kids| && x < |kids| && x != p && links[x].parent.None? && k <= |kids[p]|
    requires before == (if k == 0 then None else Some(kids[p][k - 1]))
    requires sib == (if k == |kids[p]| then None else Some(kids[p][k]))
    ensures InsertStep(links, kids, p, k, x, InsertLinks(links, p, x, before, sib),
                       kids[p := kids[p][..k] + [x] + kids[p][k..]])
  {
    var s := kids[p];
    assert Distinct(s);
    if before.Some? { assert links[s[k - 1]].parent == Some(p); }
    if sib.Some? { assert links[s[k]].parent == Some(p); }
  }

  /**
   * One remove step on the arena: the child at position k of p's list leaves
   * it with no parent and no siblings, its old neighbours point at each
   * other, p's first/last/count fields skip it, and no other node changes.
   */
  ghost predicate RemoveStep(links: seq<Link>, kids: seq<seq<NodeId>>, p: NodeId, k: nat,
                             links2: seq<Link>, kids2: seq<seq<NodeId>>)
  {
    |links| == |kids| && p < |kids| && k < |kids[p]| && links[p].nChildren > 0 &&
    (forall i :: 0 <= i < |kids[p]| ==> kids[p][i] < |links|) &&
    kids2 == kids[p := kids[p][..k] + kids[p][k + 1..]] &&
    |links2| == |links| &&
    links2[kids[p][k]] == links[kids[p][k]].(parent := None, prevSibling := None, nextSibling := None) &&
    links2[p] == links[p].(nChildren := links[p].nChildren - 1,
                           firstChild := if k == 0 then First(kids[p][1..]) else links[p].firstChild,
                           lastChild := if k == |kids[p]| - 1 then Last(kids[p][..k]) else links[p].lastChild) &&
    (k + 1 < |kids[p]| ==>
       links2[kids[p][k + 1]] == links[kids[p][k + 1]].(prevSibling := if k == 0 then None else Some(kids[p][k - 1]))) &&
    (0 < k ==>
       links2[kids[p][k - 1]] == links[kids[p][k - 1]].(nextSibling := if k + 1 == |kids[p]| then None else Some(kids[p][k + 1]))) &&
    (forall c :: 0 <= c < |links| && c != kids[p][k] && c != p &&
                 (k + 1 >= |kids[p]| || c != kids[p][k + 1]) && (k == 0 || c != kids[p][k - 1]) ==>
       links2[c] == links[c])
  }

  /** The links after remove's assignments, in the order it makes them. */
  function RemoveLinks(links: seq<Link>, p: NodeId, c: NodeId, pr: Option<NodeId>, nx: Option<NodeId>): (r: seq<Link>)
    requires p < |links| && c < |links| && (pr.Some? ==> pr.value < |links|) && (nx.Some? ==> nx.value < |links|)
    requires links[p].nChildren > 0
    ensures |r| == |links|
  {
    var l1 := if pr.Some? then links[pr.value := links[pr.value].(nextSibling := nx)]
              else links[p := links[p].(firstChild := nx)];
    var l2 := if nx.Some? then l1[nx.value := l1[nx.value].(prevSibling := pr)]
              else l1[p := l1[p].(lastChild := pr)];
    var l3 := l2[c := l2[c].(parent := None, prevSibling := None, nextSibling := None)];
    l3[p := l3[p].(nChildren := l3[p].nChildren - 1)]
  }

  /** Those assignments, made for the child at position k and its neighbours, are a remove step. */
  lemma RemoveLinksStep(links: seq<Link>, kids: seq<seq<NodeId>>, p: NodeId, k: nat,
                        pr: Option<NodeId>, nx: Option<NodeId>)
    requires Owned(links, kids) && Ends(links, kids) && NoSelfParent(links)
    requires p < |kids| && k < |kids[p]|
    requires pr == (if k == 0 then None else Some(kids[p][k - 1]))
    requires nx == (if k == |kids[p]| - 1 then None else Some(kids[p][k + 1]))
    ensures RemoveStep(links, kids, p, k, RemoveLinks(links, p, kids[p][k], pr, nx),
                       kids[p := kids[p][..k] + kids[p][k + 1..]])
  {
    var s := kids[p];
    assert Distinct(s);
    assert links[p].nChildren == |s|;
    assert links[s[k]].parent == Some(p);
    if pr.Some? { assert links[s[k - 1]].parent == Some(p); }
    if nx.Some? { assert links[s[k + 1]].parent == Some(p); }
    if k == 0 { assert First(s[1..]) == nx; }
    if k == |s| - 1 { assert Last(s[..k]) == pr; }
  }

  /** A remove step changes no parent link but the child's, and no sibling link outside p's list. */
  lemma RemoveStepFrame(links: seq<Link>, kids: seq<seq<NodeId>>, p: NodeId, k: nat,
                        links2: seq<Link>, kids2: seq<seq<NodeId>>)
    requires Owned(links, kids) && NoSelfParent(links)
    requires RemoveStep(links, kids, p, k, links2, kids2)
    ensures kids[p][k] != p
    ensures forall c :: 0 <= c < |links| && c != kids[p][k] ==> links2[c].parent == links[c].parent
    ensures forall c :: 0 <= c < |links| && links[c].parent != Some(p) ==>
              links2[c].prevSibling == links[c].prevSibling && links2[c].nextSibling == links[c].nextSibling
  {
    var s := kids[p];
    assert links[s[k]].parent == Some(p);
    forall c | 0 <= c < |links| && links[c].parent != Some(p)
      ensures links2[c].prevSibling == links[c].prevSibling && links2[c].nextSibling == links[c].nextSibling
    {
      if k + 1 < |s| { assert links[s[k + 1]].parent == Some(p); }
      if 0 < k { assert links[s[k - 1]].parent == Some(p); }
    }
    forall c | 0 <= c < |links| && c != s[k]
      ensures links2[c].parent == links[c].parent
    {
    }
  }

  /** The list after a remove step holds every other child, each once. */
  lemma RemovedList(links: seq<Link>, kids: seq<seq<NodeId>>, p: NodeId, k: nat)
    requires Owned(links, kids) && p < |kids| && k < |kids[p]|
    ensures var s := kids[p]; var t := s[..k] + s[k + 1..];
            Distinct(t) && s[k] !in t && (forall c :: c in s && c != s[k] ==> c in t)
  {
    var s := kids[p];
    var t := s[..k] + s[k + 1..];
    assert Distinct(s);
    assert forall j :: 0 <= j < k ==> t[j] == s[j];
    assert forall j :: k <= j < |t| ==> t[j] == s[j + 1];
    forall j, i | 0 <= j < i < |t| ensures t[j] != t[i] {
      if j < k && i >= k {
        assert t[i] == s[i + 1];
      }
    }
    forall c | c in s && c != s[k] ensures c in t {
      var i :| 0 <= i < |s| && s[i] == c;
      if i < k {
        assert t[i] == c;
      } else {
        assert t[i - 1] == c;
      }
    }
  }

  lemma RemoveKeepsChained(links: seq<Link>, kids: seq<seq<NodeId>>, p: NodeId, k: nat,
                           links2: seq<Link>, kids2: seq<seq<NodeId>>)
    requires Chained(links, kids) && Owned(links, kids) && NoSelfParent(links)
    requires RemoveStep(links, kids, p, k, links2, kids2)
    ensures Chained(links2, kids2)
  {
    var s := kids[p];
    RemoveStepFrame(links, kids, p, k, links2, kids2);
    ChainedLinked(links, kids, p);
    assert Distinct(s);
    LinkedRemove(s, k, links, links2);
    forall q | 0 <= q < |kids2|
      ensures Linked(kids2[q], links2)
    {
      if q != p {
        ChainedLinked(links, kids, q);
        forall i | 0 <= i < |kids[q]|
          ensures links2[kids[q][i]].prevSibling == links[kids[q][i]].prevSibling
          ensures links2[kids[q][i]].nextSibling == links[kids[q][i]].nextSibling
        {
          assert links[kids[q][i]].parent == Some(q);
        }
        LinkedFrame(kids[q], links, links2);
      }
    }
    LinkedChained(links2, kids2);
  }

  lemma RemoveKeepsOwned(links: seq<Link>, kids: seq<seq<NodeId>>, p: NodeId, k: nat,
                         links2: seq<Link>, kids2: seq<seq<NodeId>>)
    requires Owned(links, kids) && NoSelfParent(links)
    requires RemoveStep(links, kids, p, k, links2, kids2)
    ensures Owned(links2, kids2)
  {
    var s := kids[p];
    var t := s[..k] + s[k + 1..];
    RemoveStepFrame(links, kids, p, k, links2, kids2);
    RemovedList(links, kids, p, k);
    forall q, i | 0 <= q < |kids2| && 0 <= i < |kids2[q]|
      ensures kids2[q][i] < |kids2| && links2[kids2[q][i]].parent == Some(q)
    {
      if q != p {
        assert links[kids[q][i]].parent == Some(q);
      } else if i < k {
        assert t[i] == s[i];
      } else {
        assert t[i] == s[i + 1];
      }
    }
  }

  lemma RemoveKeepsListed(links: seq<Link>, kids: seq<seq<NodeId>>, p: NodeId, k: nat,
                          links2: seq<Link>, kids2: seq<seq<NodeId>>)
    requires Listed(links, kids) && Owned(links, kids) && NoSelfParent(links)
    requires RemoveStep(links, kids, p, k, links2, kids2)
    ensures Listed(links2, kids2)
  {
    RemoveStepFrame(links, kids, p, k, links2, kids2);
    RemovedList(links, kids, p, k);
  }

  lemma RemoveKeepsCounts(links: seq<Link>, kids: seq<seq<NodeId>>, p: NodeId, k: nat,
                          links2: seq<Link>, kids2: seq<seq<NodeId>>)
    requires Ends(links, kids)
    requires RemoveStep(links, kids, p, k, links2, kids2)
    ensures forall q {:trigger links2[q]} :: 0 <= q < |kids2| ==>
              links2[q].nChildren == |kids2[q]| && links2[q].firstChild == First(kids2[q]) && links2[q].lastChild == Last(kids2[q])
  {
    var s := kids[p];
    var t := s[..k] + s[k + 1..];
    if k == 0 { assert t == s[1..]; }
    if k == |s| - 1 { assert t == s[..k]; }
    assert First(t) == if k == 0 then First(s[1..]) else First(s);
    assert Last(t) == if k == |s| - 1 then Last(s[..k]) else Last(s);
    forall q | 0 <= q < |kids2|
      ensures links2[q].nChildren == |kids2[q]| && links2[q].firstChild == First(kids2[q]) && links2[q].lastChild == Last(kids2[q])
    {
      if q != p {
        assert kids2[q] == kids[q];
        assert links2[q].nChildren == links[q].nChildren;
        assert links2[q].firstChild == links[q].firstChild && links2[q].lastChild == links[q].lastChild;
      }
    }
  }

  lemma RemoveKeepsEnds(links: seq<Link>, kids: seq<seq<NodeId>>, p: NodeId, k: nat,
                        links2: seq<Link>, kids2: seq<seq<NodeId>>)
    requires Ends(links, kids) && Owned(links, kids) && NoSelfParent(links)
    requires RemoveStep(links, kids, p, k, links2, kids2)
    ensures Ends(links2, kids2) && NoSelfParent(links2)
  {
    RemoveStepFrame(links, kids, p, k, links2, kids2);
    RemoveKeepsCounts(links, kids, p, k, links2, kids2);
    forall c | 0 <= c < |links2| && links2[c].parent.None?
      ensures links2[c].prevSibling.None? && links2[c].nextSibling.None?
    {
    }
    forall c | 0 <= c < |links2| && links2[c].parent.Some?
      ensures links2[c].parent.value != c
    {
    }
  }

  /**
   * Taking the child at position k out of p's list, with the links rewired
   * as remove does, keeps the arena well formed.
   */
  /**
   * remove's assignments, made with the child's own sibling links, take
   * the child out of p's children, detach it and keep the links well formed.
   */
  lemma RemoveChildKeepsWellFormed(links: seq<Link>, kids: seq<seq<NodeId>>, p: NodeId, c: NodeId,
                                   pr: Option<NodeId>, nx: Option<NodeId>)
    requires WellFormed(links, kids) && p < |kids| && c < |kids| && links[c].parent == Some(p)
    requires pr == links[c].prevSibling && nx == links[c].nextSibling
    ensures p < |links| && c < |links| && (pr.Some? ==> pr.value < |links|) && (nx.Some? ==> nx.value < |links|)
    ensures links[p].nChildren > 0
    ensures WellFormed(RemoveLinks(links, p, c, pr, nx), kids[p := Removed(kids[p], c)])
    ensures RemoveLinks(links, p, c, pr, nx)[c].parent.None? && c !in Removed(kids[p], c)
  {
    var s := kids[p];
    ChainedLinked(links, kids, p);
    var k := IndexOf(s, c);
    var links2 := RemoveLinks(links, p, c, pr, nx);
    var kids2 := kids[p := s[..k] + s[k + 1..]];
    RemoveLinksStep(links, kids, p, k, pr, nx);
    RemoveKeepsWellFormed(links, kids, p, k, links2, kids2);
    assert s[..k] + s[k + 1..] == Removed(s, c);
    RemovedAbsent(s, c);
  }

  lemma RemoveKeepsWellFormed(links: seq<Link>, kids: seq<seq<NodeId>>, p: NodeId, k: nat,
                              links2: seq<Link>, kids2: seq<seq<NodeId>>)
    requires WellFormed(links, kids)
    requires RemoveStep(links, kids, p, k, links2, kids2)
    ensures WellFormed(links2, kids2)
  {
    RemoveKeepsChained(links, kids, p, k, links2, kids2);
    RemoveKeepsOwned(links, kids, p, k, links2, kids2);
    RemoveKeepsListed(links, kids, p, k, links2, kids2);
    RemoveKeepsEnds(links, kids, p, k, links2, kids2);
  }

  /**
   * The node insert_after puts its new node in front of: the first child
   * when there is no previous sibling, otherwise the previous sibling's next
   * sibling; either way the one at position k, right after the previous
   * sibling.
   */
  lemma SuccessorAt(links: seq<Link>, kids: seq<seq<NodeId>>, p: NodeId, prevSib: Option<NodeId>) returns (k: nat)
    requires WellFormed(links, kids) && p < |kids|
    requires prevSib.Some? ==> prevSib.value < |kids| && links[prevSib.value].parent == Some(p)
    ensures k <= |kids[p]|
    ensures k == if prevSib.None? then 0 else IndexOf(kids[p], prevSib.value) + 1
    ensures var sib := if prevSib.None? then links[p].firstChild else links[prevSib.value].nextSibling;
            sib == (if k == |kids[p]| then None else Some(kids[p][k])) &&
            (sib.Some? ==> sib.value < |kids| && links[sib.value].parent == Some(p) && sib.value in kids[p] &&
                           IndexOf(kids[p], sib.value) == k)
  {
    var s := kids[p];
    ChainedLinked(links, kids, p);
    assert Distinct(s);
    k := 0;
    if prevSib.Some? {
      k := IndexOf(s, prevSib.value) + 1;
    }
    if k < |s| {
      assert links[s[k]].parent == Some(p);
      forall i | 0 <= i < k ensures s[i] != s[k] {
      }
      IndexOfFirst(s, s[k], k);
    }
  }

  /** InsertedBefore places x at the sibling's position, or at the end without one. */
  lemma InsertedBeforeAt(s: seq<NodeId>, x: NodeId, sib: Option<NodeId>, k: nat)
    requires k == if sib.None? || sib.value !in s then |s| else IndexOf(s, sib.value)
    ensures InsertedBefore(s, x, sib) == s[..k] + [x] + s[k..]
  {
    if sib.None? || sib.value !in s {
      assert s[..k] == s && s[k..] == [];
    }
  }

  /* ---------------------------------------------------------------- */
  /* Traversal                                                        */
  /* ---------------------------------------------------------------- */

  /** The nodes a traversal called back on, and whether a callback asked it to stop. */
  datatype Walked = Walked(visited: seq<NodeId>, stopped: bool)

  /**
   * Pre-order walk of the forest `ns` to at most `depth` levels: a node is
   * reported to `visit`; "break" ends the walk, "children" descends into its
   * children before its next sibling, "continue" goes on to the next sibling.
   */
  function Walk(kids: seq<seq<NodeId>>, ns: seq<NodeId>, depth: nat, visit: NodeId -> Visit): Walked
    decreases depth, |ns|
  {
    if ns == [] || depth == 0 then Walked([], false)
    else
      var n := ns[0];
      if visit(n) == Break then Walked([n], true)
      else
        var below := if visit(n) == Children && n < |kids| then Walk(kids, kids[n], depth - 1, visit) else Walked([], false);
        if below.stopped then Walked([n] + below.visited, true)
        else
          var rest := Walk(kids, ns[1..], depth, visit);
          Walked([n] + below.visited + rest.visited, rest.stopped)
  }

  predicate NoBreak(s: seq<NodeId>, visit: NodeId -> Visit)
  {
    forall i :: 0 <= i < |s| ==> visit(s[i]) != Break
  }

  /**
   * The shape a "break" answer gives a walk: a walk that stopped ends with
   * the one node that answered "break"; a walk that did not stop met none.
   */
  predicate BreakEnds(w: Walked, visit: NodeId -> Visit)
  {
    if w.stopped then w.visited != [] && visit(w.visited[|w.visited| - 1]) == Break && NoBreak(w.visited[..|w.visited| - 1], visit)
    else NoBreak(w.visited, visit)
  }

  lemma BreakEndsAfter(a: seq<NodeId>, w: Walked, visit: NodeId -> Visit)
    requires NoBreak(a, visit) && BreakEnds(w, visit)
    ensures BreakEnds(Walked(a + w.visited, w.stopped), visit)
  {
    var v := a + w.visited;
    if w.stopped {
      assert v[..|v| - 1] == a + w.visited[..|w.visited| - 1];
    }
  }

  /**
   * A callback answer of "break" ends the traversal: the walk stops exactly
   * when the last node it visited answered "break", and no earlier node did.
   */
  lemma {:induction false} BreakStopsWalk(kids: seq<seq<NodeId>>, ns: seq<NodeId>, depth: nat, visit: NodeId -> Visit)
    ensures BreakEnds(Walk(kids, ns, depth, visit), visit)
    decreases depth, |ns|
  {
    if ns == [] || depth == 0 {
    } else {
      var n := ns[0];
      if visit(n) == Break {
        assert Walk(kids, ns, depth, visit).visited == [n];
      } else {
        var below := if visit(n) == Children && n < |kids| then Walk(kids, kids[n], depth - 1, visit) else Walked([], false);
        if visit(n) == Children && n < |kids| {
          BreakStopsWalk(kids, kids[n], depth - 1, visit);
        }
        BreakEndsAfter([n], below, visit);
        if !below.stopped {
          var rest := Walk(kids, ns[1..], depth, visit);
          BreakStopsWalk(kids, ns[1..], depth, visit);
          BreakEndsAfter([n] + below.visited, rest, visit);
        }
      }
    }
  }

  /** A walk limited to one level reports only the nodes it starts from, up to a "break". */
  lemma {:induction false} WalkOneLevel(kids: seq<seq<NodeId>>, ns: seq<NodeId>, visit: NodeId -> Visit)
    ensures var w := Walk(kids, ns, 1, visit); |w.visited| <= |ns| && w.visited == ns[..|w.visited|]
    decreases |ns|
  {
    if ns != [] && visit(ns[0]) != Break {
      var rest := Walk(kids, ns[1..], 1, visit);
      WalkOneLevel(kids, ns[1..], visit);
      assert ns[..|rest.visited| + 1] == [ns[0]] + ns[1..][..|rest.visited|];
    }
  }

  /* ---------------------------------------------------------------- */
  /* The node arena                                                   */
  /* ---------------------------------------------------------------- */

  class Arena {
    /** The structural fields of every node, indexed by node. */
    var links: seq<Link>
    /** The settable properties of every node, indexed by node. */
    var data: seq<NodeData>
    /** The ordered child list of every node. */
    ghost var Kids: seq<seq<NodeId>>

    ghost predicate Valid()
      reads this
    {
      WellFormed(links, Kids) && |data| == |Kids|
    }

    constructor ()
      ensures Valid() && Kids == [] && data == []
    {
      links, data := [], [];
      Kids := [];
    }

    /** ide_tree_node_new: a fresh node with no parent, no children and default properties. */
    method NewNode() returns (n: NodeId)
      requires Valid()
      modifies this
      ensures Valid()
      ensures n == old(|Kids|) && Kids == old(Kids) + [[]]
      ensures data == old(data) + [EmptyData] && links == old(links) + [Detached]
    {
      n := |links|;
      ghost var oldKids := Kids;
      links := links + [Detached];
      data := data + [EmptyData];
      Kids := Kids + [[]];
      forall q | 0 <= q < |Kids| ensures Linked(Kids[q], links) {
        if q < n {
          ChainedLinked(old(links), oldKids, q);
          forall i | 0 <= i < |oldKids[q]| ensures links[oldKids[q][i]] == old(links)[oldKids[q][i]] {
          }
          LinkedFrame(oldKids[q], old(links), links);
        }
      }
      LinkedChained(links, Kids);
    }

    /* ---- getters ---- */

    /** ide_tree_node_get_n_children */
    function NChildren(n: NodeId): (r: nat)
      reads this
      requires Valid() && n < |Kids|
      ensures r == |Kids[n]|
    {
      links[n].nChildren
    }

    /** ide_tree_node_get_first_child */
    function FirstChild(n: NodeId): (r: Option<NodeId>)
      reads this
      requires Valid() && n < |Kids|
      ensures r.None? <==> Kids[n] == []
      ensures r.Some? ==> r.value == Kids[n][0]
    {
      links[n].firstChild
    }

    /** ide_tree_node_get_last_child */
    function LastChild(n: NodeId): (r: Option<NodeId>)
      reads this
      requires Valid() && n < |Kids|
      ensures r.None? <==> Kids[n] == []
      ensures r.Some? ==> r.value == Kids[n][|Kids[n]| - 1]
    {
      links[n].lastChild
    }

    /** ide_tree_node_get_next_sibling: the node after n in its parent's child list. */
    function NextSibling(n: NodeId): (r: Option<NodeId>)
      reads this
      requires Valid() && n < |Kids|
      ensures forall p, i :: 0 <= p < |Kids| && 0 <= i < |Kids[p]| && Kids[p][i] == n ==>
                r == (if i == |Kids[p]| - 1 then None else Some(Kids[p][i + 1]))
      ensures links[n].parent.None? ==> r.None?
    {
      links[n].nextSibling
    }

    /** ide_tree_node_get_prev_sibling: the node before n in its parent's child list. */
    function PrevSibling(n: NodeId): (r: Option<NodeId>)
      reads this
      requires Valid() && n < |Kids|
      ensures forall p, i :: 0 <= p < |Kids| && 0 <= i < |Kids[p]| && Kids[p][i] == n ==>
                r == (if i == 0 then None else Some(Kids[p][i - 1]))
      ensures links[n].parent.None? ==> r.None?
    {
      links[n].prevSibling
    }

    /** ide_tree_node_get_parent: the one node whose child list contains n. */
    function Parent(n: NodeId): (r: Option<NodeId>)
      reads this
      requires Valid() && n < |Kids|
      ensures r.Some? ==> r.value < |Kids| && r.value != n && n in Kids[r.value]
      ensures forall p :: 0 <= p < |Kids| && n in Kids[p] ==> r == Some(p)
    {
      links[n].parent
    }

    /** ide_tree_node_holds: the node's item is an object of the given type. */
    function Holds(n: NodeId, t: ItemType): (r: bool)
      reads this
      requires Valid() && n < |Kids|
      ensures r <==> data[n].item.Some? && data[n].item.value.kind == t
    {
      match data[n].item
      case None => false
      case Some(it) => it.kind == t
    }

    /**
     * Walks the children of p the way callers do, from the first child along
     * next-sibling links; the walk yields exactly the child list, ending at
     * the last child, and has get_n_children elements.
     */
    method ListChildren(p: NodeId) returns (cs: seq<NodeId>)
      requires Valid() && p < |Kids|
      ensures cs == Kids[p]
      ensures |cs| == NChildren(p) && Last(cs) == LastChild(p)
    {
      cs := [];
      var cur := links[p].firstChild;
      ChainedLinked(links, Kids, p);
      while cur.Some?
        invariant |cs| <= |Kids[p]| && cs == Kids[p][..|cs|]
        invariant cur == if |cs| < |Kids[p]| then Some(Kids[p][|cs|]) else None
        decreases |Kids[p]| - |cs|
      {
        ghost var i := |cs|;
        assert Kids[p][..i + 1] == Kids[p][..i] + [Kids[p][i]];
        assert links[Kids[p][i]].nextSibling == if i + 1 == |Kids[p]| then None else Some(Kids[p][i + 1]);
        cs := cs + [cur.value];
        cur := links[cur.value].nextSibling;
      }
      assert cs == Kids[p][..|Kids[p]|];
    }

    /* ---- property setters ---- */

    method SetTitle(n: NodeId, title: Option<string>)
      requires n < |data|
      modifies this`data
      ensures data == old(data)[n := old(data[n]).(title := title)]
    {
      data := data[n := data[n].(title := title)];
    }

    /** ide_tree_node_set_icon_name; also stands for set_icon with a themed icon. */
    method SetIconName(n: NodeId, icon: Option<string>)
      requires n < |data|
      modifies this`data
      ensures data == old(data)[n := old(data[n]).(icon := icon)]
    {
      data := data[n := data[n].(icon := icon)];
    }

    method SetExpandedIconName(n: NodeId, icon: Option<string>)
      requires n < |data|
      modifies this`data
      ensures data == old(data)[n := old(data[n]).(expandedIcon := icon)]
    {
      data := data[n := data[n].(expandedIcon := icon)];
    }

    method SetFlags(n: NodeId, flags: bv32)
      requires n < |data|
      modifies this`data
      ensures data == old(data)[n := old(data[n]).(flags := flags)]
    {
      data := data[n := data[n].(flags := flags)];
    }

    method SetVcsIgnored(n: NodeId, ignored: bool)
      requires n < |data|
      modifies this`data
      ensures data == old(data)[n := old(data[n]).(vcsIgnored := ignored)]
    {
      data := data[n := data[n].(vcsIgnored := ignored)];
    }

    method SetHasError(n: NodeId, hasError: bool)
      requires n < |data|
      modifies this`data
      ensures data == old(data)[n := old(data[n]).(hasError := hasError)]
    {
      data := data[n := data[n].(hasError := hasError)];
    }

    method SetDestroyItem(n: NodeId, destroyItem: bool)
      requires n < |data|
      modifies this`data
      ensures data == old(data)[n := old(data[n]).(destroyItem := destroyItem)]
    {
      data := data[n := data[n].(destroyItem := destroyItem)];
    }

    method SetItem(n: NodeId, item: Option<Item>)
      requires n < |data|
      modifies this`data
      ensures data == old(data)[n := old(data[n]).(item := item)]
    {
      data := data[n := data[n].(item := item)];
    }

    method SetChildrenPossible(n: NodeId, possible: bool)
      requires n < |data|
      modifies this`data
      ensures data == old(data)[n := old(data[n]).(childrenPossible := possible)]
    {
      data := data[n := data[n].(childrenPossible := possible)];
    }

    method SetResetOnCollapse(n: NodeId, reset: bool)
      requires n < |data|
      modifies this`data
      ensures data == old(data)[n := old(data[n]).(resetOnCollapse := reset)]
    {
      data := data[n := data[n].(resetOnCollapse := reset)];
    }

    method SetUseMarkup(n: NodeId, useMarkup: bool)
      requires n < |data|
      modifies this`data
      ensures data == old(data)[n := old(data[n]).(useMarkup := useMarkup)]
    {
      data := data[n := data[n].(useMarkup := useMarkup)];
    }

    method SetIsHeader(n: NodeId, isHeader: bool)
      requires n < |data|
      modifies this`data
      ensures data == old(data)[n := old(data[n]).(isHeader := isHeader)]
    {
      data := data[n := data[n].(isHeader := isHeader)];
    }

    /* ---- structure ---- */

    /**
     * What insertion demands: a detached node other than the parent, and a
     * sibling (if any) that is a child of the parent.
     */
    predicate CanInsert(node: NodeId, p: NodeId, sib: Option<NodeId>)
      reads this
      requires Valid() && node < |Kids| && p < |Kids| && (sib.Some? ==> sib.value < |Kids|)
    {
      node != p && links[node].parent.None? && (sib.None? || links[sib.value].parent == Some(p))
    }

    /**
     * ide_tree_node_insert_before: links the detached `node` into p's
     * children right before `sib`, or as the last child when there is no
     * sibling. A call that breaks the guard changes nothing.
     */
    method InsertBefore(node: NodeId, p: NodeId, sib: Option<NodeId>)
      requires Valid() && node < |Kids| && p < |Kids| && (sib.Some? ==> sib.value < |Kids|)
      modifies this`links, this`Kids
      ensures Valid() && data == old(data)
      ensures old(CanInsert(node, p, sib)) ==> Kids == old(Kids)[p := InsertedBefore(old(Kids[p]), node, sib)]
      ensures old(CanInsert(node, p, sib)) ==> links[node].parent == Some(p)
      ensures !old(CanInsert(node, p, sib)) ==> unchanged(this)
    {
      if !CanInsert(node, p, sib) {
        return;
      }
      var before := if sib.None? then links[p].lastChild else links[sib.value].prevSibling;
      InsertBeforeKeepsWellFormed(links, Kids, node, p, sib, before);
      Relink(InsertLinks(links, p, node, before, sib), Kids[p := InsertedBefore(Kids[p], node, sib)]);
    }

    /** Replaces the structure with a well-formed one over the same nodes. */
    method Relink(links2: seq<Link>, ghost kids2: seq<seq<NodeId>>)
      requires WellFormed(links2, kids2) && |kids2| == |data|
      modifies this`links, this`Kids
      ensures Valid() && links == links2 && Kids == kids2
    {
      links := links2;
      Kids := kids2;
    }

    /**
     * ide_tree_node_insert_after: links the detached `node` into p's children
     * right after `prevSib`, or as the first child when there is none.
     */
    method InsertAfter(node: NodeId, p: NodeId, prevSib: Option<NodeId>)
      requires Valid() && node < |Kids| && p < |Kids| && (prevSib.Some? ==> prevSib.value < |Kids|)
      modifies this`links, this`Kids
      ensures Valid() && data == old(data)
      ensures old(CanInsert(node, p, prevSib)) ==>
                var s := old(Kids[p]);
                var k := if prevSib.None? then 0 else IndexOf(s, prevSib.value) + 1;
                Kids == old(Kids)[p := s[..k] + [node] + s[k..]]
      ensures !old(CanInsert(node, p, prevSib)) ==> unchanged(this)
    {
      if !(node != p && links[node].parent.None? && (prevSib.None? || links[prevSib.value].parent == Some(p))) {
        return;
      }
      ghost var s := Kids[p];
      ghost var k := SuccessorAt(links, Kids, p, prevSib);
      var sib := if prevSib.None? then links[p].firstChild else links[prevSib.value].nextSibling;
      InsertBefore(node, p, sib);
      InsertedBeforeAt(s, node, sib, k);
    }

    /** What removal demands: the child's parent is the node it is removed from. */
    predicate CanRemove(p: NodeId, child: NodeId)
      reads this
      requires Valid() && p < |Kids| && child < |Kids|
    {
      links[child].parent == Some(p)
    }

    /**
     * ide_tree_node_remove: unlinks `child` from p's children, leaving it
     * detached and the other children in order. A child of another node is
     * left alone.
     */
    method Remove(p: NodeId, child: NodeId)
      requires Valid() && p < |Kids| && child < |Kids|
      modifies this`links, this`Kids
      ensures Valid() && data == old(data)
      ensures old(CanRemove(p, child)) ==> Kids == old(Kids)[p := Removed(old(Kids[p]), child)]
      ensures old(CanRemove(p, child)) ==> links[child].parent.None? && child !in Kids[p]
      ensures !old(CanRemove(p, child)) ==> unchanged(this)
    {
      if links[child].parent != Some(p) {
        return;
      }
      var pr := links[child].prevSibling;
      var nx := links[child].nextSibling;
      RemoveChildKeepsWellFormed(links, Kids, p, child, pr, nx);
      Relink(RemoveLinks(links, p, child, pr, nx), Kids[p := Removed(Kids[p], child)]);
    }

    /** ide_tree_node_unparent: removes the node from its parent's children, if it has a parent. */
    method Unparent(node: NodeId)
      requires Valid() && node < |Kids|
      modifies this`links, this`Kids
      ensures Valid() && data == old(data) && links[node].parent.None?
      ensures old(links[node].parent).Some? ==>
                var p := old(links[node].parent).value;
                Kids == old(Kids)[p := Removed(old(Kids[p]), node)]
      ensures old(links[node].parent).None? ==> unchanged(this)
    {
      var p := links[node].parent;
      if p.Some? {
        Remove(p.value, node);
      }
    }

    /**
     * ide_tree_node_traverse in pre-order over every node: the walk starts at
     * `self` and goes at most `maxDepth` levels deep. A maximum of zero or
     * less is read as no limit, after g_node_traverse's -1, and bounded by
     * the arena's size, which matches the unlimited walk when the nodes
     * below `self` form a tree.
     */
    ghost function Traverse(self: NodeId, maxDepth: int, visit: NodeId -> Visit): (w: Walked)
      reads this
      requires Valid() && self < |Kids|
      ensures w.visited != [] && w.visited[0] == self
      ensures maxDepth == 1 ==> w.visited == [self]
      ensures BreakEnds(w, visit)
    {
      BreakStopsWalk(Kids, [self], if maxDepth <= 0 then |Kids| else maxDepth, visit);
      WalkOneLevel(Kids, [self], visit);
      Walk(Kids, [self], if maxDepth <= 0 then |Kids| else maxDepth, visit)
    }
  }
}
