/**
 * manuals-sidebar.c: the sidebar's search page (keyboard selection and
 * activation of search results), its browse tree (reveal of a navigatable
 * by descending from the root) and the small setters the window calls.
 *
 * Search queries run asynchronously; their results, and the parents that
 * manuals_navigatable_find_parent resolves to, are inputs of the methods
 * that receive them. Opening a tab for an activated result is done by
 * ManualsWindow.Window.ShowNavigatable, to which activation hands the
 * navigatable it decides on.
 */
module ManualsSidebar {
  import opened Wrappers
  import opened Payload
  import opened GLibStrings
  import opened IdeTreeNode

  /** guint */
  newtype uint32 = x: int | 0 <= x < 0x1_0000_0000

  /** GTK_INVALID_LIST_POSITION, which is G_MAXUINT. */
  const INVALID_POSITION: uint32 := 0xFFFF_FFFF

  /** Unsigned 32-bit addition, wrapping around as C does. */
  function Inc(x: uint32): (r: uint32)
    ensures r as int == (x as int + 1) % 0x1_0000_0000
  {
    if x == 0xFFFF_FFFF then 0 else x + 1
  }

  /* ---------------------------------------------------------------- */
  /* Keyboard navigation of the search results                       */
  /* ---------------------------------------------------------------- */

  datatype Key = Down | KeypadDown | Up | KeypadUp | OtherKey(keyval: nat)

  /**
   * What the key handler does: whether it stops the event, and the
   * position it passes to gtk_single_selection_set_selected, if any.
   */
  datatype KeyOutcome = KeyOutcome(stop: bool, request: Option<uint32>)

  /** manuals_sidebar_key_pressed_cb, on the selected position and the item count. */
  function KeyPressed(key: Key, selected: uint32, nItems: uint32): (o: KeyOutcome)
    ensures o.request.Some? <==> o.stop
  {
    match key
    case Down | KeypadDown =>
      if nItems > 0 && Inc(selected) == nItems then KeyOutcome(false, None)
      else KeyOutcome(true, Some(Inc(selected)))
    case Up | KeypadUp =>
      if selected == 0 then KeyOutcome(false, None)
      else if selected == INVALID_POSITION then KeyOutcome(true, Some(0))
      else KeyOutcome(true, Some(selected - 1))
    case OtherKey(_) => KeyOutcome(false, None)
  }

  /**
   * gtk_single_selection_set_selected on a selection built with
   * autoselect off: a position past the end unselects.
   */
  function Select(position: uint32, nItems: uint32): (r: uint32)
    ensures position < nItems ==> r == position
    ensures position >= nItems ==> r == INVALID_POSITION
    ensures r == INVALID_POSITION || r < nItems
  {
    if position < nItems then position else INVALID_POSITION
  }

  predicate IsDown(key: Key) { key == Down || key == KeypadDown }
  predicate IsUp(key: Key) { key == Up || key == KeypadUp }

  /** Down on the last item lets the event through and requests nothing. */
  lemma DownAtLastPropagates(key: Key, selected: uint32, nItems: uint32)
    requires IsDown(key) && nItems > 0 && selected as int + 1 == nItems as int
    ensures KeyPressed(key, selected, nItems) == KeyOutcome(false, None)
  {
  }

  /**
   * Down anywhere else stops the event and requests the next position,
   * wrapping from "no selection" to the first item.
   */
  lemma DownMovesOn(key: Key, selected: uint32, nItems: uint32)
    requires IsDown(key) && !(nItems > 0 && selected as int + 1 == nItems as int)
    ensures var o := KeyPressed(key, selected, nItems);
            o.stop && o.request == Some(if selected == INVALID_POSITION then 0 else selected + 1)
  {
  }

  /**
   * Up on the first item lets the event through; from no selection it
   * selects the first item; otherwise it moves one item back.
   */
  lemma UpMovesBack(key: Key, selected: uint32, nItems: uint32)
    requires IsUp(key)
    ensures var o := KeyPressed(key, selected, nItems);
            (selected == 0 ==> o == KeyOutcome(false, None)) &&
            (selected == INVALID_POSITION ==> o == KeyOutcome(true, Some(0))) &&
            (0 < selected < INVALID_POSITION ==> o == KeyOutcome(true, Some(selected - 1)))
  {
  }

  /** Any other key lets the event through and requests nothing. */
  lemma OtherKeysPropagate(key: Key, selected: uint32, nItems: uint32)
    requires !IsDown(key) && !IsUp(key)
    ensures KeyPressed(key, selected, nItems) == KeyOutcome(false, None)
  {
  }

  /** The selection after a key press, with unchanged selection when nothing is requested. */
  function AfterKey(key: Key, selected: uint32, nItems: uint32): uint32
  {
    var o := KeyPressed(key, selected, nItems);
    if o.request.Some? then Select(o.request.value, nItems) else selected
  }

  /**
   * Keyboard moves never leave the list: from a selected item or from no
   * selection, the selection after Up or Down is an item or no selection.
   */
  lemma KeysKeepSelectionInList(key: Key, selected: uint32, nItems: uint32)
    requires selected < nItems || selected == INVALID_POSITION
    ensures var r := AfterKey(key, selected, nItems); r < nItems || r == INVALID_POSITION
  {
  }

  /** Down then Up returns to the item it started from, for every item but the last. */
  lemma DownThenUp(selected: uint32, nItems: uint32)
    requires selected as int + 1 < nItems as int
    ensures AfterKey(Up, AfterKey(Down, selected, nItems), nItems) == selected
  {
    assert Inc(selected) == selected + 1;
    assert AfterKey(Down, selected, nItems) == selected + 1;
  }

  /** From no selection, Down selects the first item of a non-empty list. */
  lemma DownFromNothingSelectsFirst(nItems: uint32)
    requires nItems > 0
    ensures AfterKey(Down, INVALID_POSITION, nItems) == 0
  {
  }

  /* ---------------------------------------------------------------- */
  /* Activation                                                       */
  /* ---------------------------------------------------------------- */

  /**
   * The guard of manuals_sidebar_activate: the navigatable of the search
   * result at `position`, if there is a result there and it has an item.
   * `results` holds, per result, the item of the result.
   */
  function Activation(position: uint32, results: seq<Option<Navigatable>>): (r: Option<Navigatable>)
    ensures r.Some? <==> position != INVALID_POSITION && (position as int) < |results| && results[position].Some?
    ensures r.Some? ==> r == results[position]
  {
    if position == INVALID_POSITION || position as int >= |results| then None
    else results[position]
  }

  /** Activating "no selection" does nothing, whatever the results are. */
  lemma InvalidActivatesNothing(results: seq<Option<Navigatable>>)
    ensures Activation(INVALID_POSITION, results).None?
  {
  }

  /* ---------------------------------------------------------------- */
  /* Matching tree nodes against a navigatable                       */
  /* ---------------------------------------------------------------- */

  /** The same object: both absent, or the same handle. */
  predicate SameObject(a: Option<Item>, b: Option<Item>)
  {
    (a.None? && b.None?) || (a.Some? && b.Some? && a.value.handle == b.value.handle)
  }

  /**
   * node_matches: the same object matches; otherwise objects of different
   * types never match and objects of the same type match when their ids
   * are equal. A missing item on one side only does not match.
   */
  predicate NodeMatches(nodeItem: Option<Item>, navItem: Option<Item>)
  {
    if SameObject(nodeItem, navItem) then true
    else if nodeItem.None? || navItem.None? then false
    else if nodeItem.value.kind != navItem.value.kind then false
    else nodeItem.value.id == navItem.value.id
  }

  /** Two present items match exactly when they are the same object or share type and id. */
  lemma NodeMatchesIff(a: Item, b: Item)
    ensures NodeMatches(Some(a), Some(b)) <==> a.handle == b.handle || (a.kind == b.kind && a.id == b.id)
  {
  }

  /** Matching is reflexive and symmetric. */
  lemma NodeMatchesReflexiveSymmetric(a: Option<Item>, b: Option<Item>)
    ensures NodeMatches(a, a)
    ensures NodeMatches(a, b) == NodeMatches(b, a)
  {
  }

  /** Every node id mentioned in a child list exists. */
  ghost predicate InRange(kids: seq<seq<NodeId>>)
  {
    forall p, i :: 0 <= p < |kids| && 0 <= i < |kids[p]| ==> kids[p][i] < |kids|
  }

  /** The position of the first child matching `nav`, if any. */
  function FirstMatch(children: seq<NodeId>, data: seq<NodeData>, nav: Navigatable): (r: Option<nat>)
    requires forall i :: 0 <= i < |children| ==> children[i] < |data|
    ensures r.Some? ==> r.value < |children| && NodeMatches(data[children[r.value]].item, nav.item)
    ensures r.Some? ==> forall i :: 0 <= i < r.value ==> !NodeMatches(data[children[i]].item, nav.item)
    ensures r.None? ==> forall i :: 0 <= i < |children| ==> !NodeMatches(data[children[i]].item, nav.item)
    decreases |children|
  {
    if children == [] then None
    else if NodeMatches(data[children[0]].item, nav.item) then Some(0)
    else match FirstMatch(children[1..], data, nav)
      case None => None
      case Some(j) => Some(j + 1)
  }

  /**
   * The node reveal ends on: starting at `node`, each navigatable of the
   * chain in turn moves to the first matching child, until one has no match.
   */
  ghost function Descend(kids: seq<seq<NodeId>>, data: seq<NodeData>, node: NodeId, chain: seq<Navigatable>): (r: NodeId)
    requires InRange(kids) && |data| == |kids| && node < |kids|
    ensures r < |kids|
    decreases |chain|
  {
    if chain == [] then node
    else match FirstMatch(kids[node], data, chain[0])
      case None => node
      case Some(j) => Descend(kids, data, kids[node][j], chain[1..])
  }

  /** The sequence read back to front. */
  function Reversed<T>(s: seq<T>): (r: seq<T>)
    ensures |r| == |s|
    ensures forall i :: 0 <= i < |s| ==> r[i] == s[|s| - 1 - i]
  {
    if s == [] then [] else Reversed(s[1..]) + [s[0]]
  }

  /** Prepending the next element builds the reversal of one more element. */
  lemma ReversedSnoc<T>(s: seq<T>, x: T)
    ensures Reversed(s + [x]) == [x] + Reversed(s)
  {
    var r, t := Reversed(s + [x]), [x] + Reversed(s);
    assert |r| == |t|;
    forall i | 0 <= i < |r| ensures r[i] == t[i] {
      if i > 0 {
        assert (s + [x])[|s| - i] == s[|s| - 1 - (i - 1)];
      }
    }
  }

  /**
   * The navigatables reveal descends through: the revealed one and its
   * ancestors, root-first, without the root (the repository).
   */
  function RevealChain(target: Navigatable, parents: seq<Navigatable>): (chain: seq<Navigatable>)
    ensures |chain| == |parents|
    ensures |parents| > 0 ==> chain[|chain| - 1] == target
    ensures forall i :: 0 <= i < |parents| - 1 ==> chain[i] == parents[|parents| - 2 - i]
  {
    Reversed([target] + parents)[1..]
  }

  /**
   * An empty chain, or a chain whose first navigatable matches no child,
   * leaves the walk where it started.
   */
  lemma DescendStays(kids: seq<seq<NodeId>>, data: seq<NodeData>, node: NodeId, chain: seq<Navigatable>)
    requires InRange(kids) && |data| == |kids| && node < |kids|
    requires chain == [] || FirstMatch(kids[node], data, chain[0]).None?
    ensures Descend(kids, data, node, chain) == node
  {
  }

  /**
   * When the first navigatable of the chain matches child j, and no child
   * before it, the walk continues from child j with the rest of the chain.
   */
  lemma DescendStep(kids: seq<seq<NodeId>>, data: seq<NodeData>, node: NodeId, chain: seq<Navigatable>, j: nat)
    requires InRange(kids) && |data| == |kids| && node < |kids| && chain != []
    requires j < |kids[node]| && NodeMatches(data[kids[node][j]].item, chain[0].item)
    requires forall i :: 0 <= i < j ==> !NodeMatches(data[kids[node][i]].item, chain[0].item)
    ensures Descend(kids, data, node, chain) == Descend(kids, data, kids[node][j], chain[1..])
  {
    var r := FirstMatch(kids[node], data, chain[0]);
    assert r.Some? && r.value == j;
  }

  /**
   * The chain loop of manuals_sidebar_reveal_fiber: starting from the
   * revealed navigatable, each one is prepended and replaced by its parent
   * until there is none; `parents` lists the parents from the revealed
   * one's outward.
   */
  method AncestorChain(target: Navigatable, parents: seq<Navigatable>) returns (chain: seq<Navigatable>)
    ensures chain == Reversed([target] + parents)
    ensures chain[1..] == RevealChain(target, parents)
  {
    ghost var all := [target] + parents;
    chain := [];
    var parent: Option<Navigatable> := Some(target);
    var i := 0;
    while parent.Some?
      invariant 0 <= i <= |parents|
      invariant parent.Some? ==> parent.value == all[i] && chain == Reversed(all[..i])
      invariant parent.None? ==> chain == Reversed(all)
      decreases |parents| - i, parent.Some?
    {
      ReversedSnoc(all[..i], parent.value);
      assert all[..i + 1] == all[..i] + [parent.value];
      chain := [parent.value] + chain;
      if i < |parents| {
        parent := Some(parents[i]);
        i := i + 1;
      } else {
        assert all[..i + 1] == all;
        parent := None;
      }
    }
  }

  /* ---------------------------------------------------------------- */
  /* The sidebar                                                      */
  /* ---------------------------------------------------------------- */

  class Sidebar {
    /** The browse tree's nodes. */
    const tree: Arena
    /** The browse tree's root, if one was set. */
    var root: Option<NodeId>
    var repository: Option<Item>
    /** The node ide_tree_set_selected_node last selected, and the last node expanded by reveal. */
    var selectedNode: Option<NodeId>
    var expandedNode: Option<NodeId>

    var searchText: string
    /** The running search, by its stripped text. */
    var query: Option<string>
    /** The search results, by the navigatable each holds, and the selected position. */
    var results: seq<Option<Navigatable>>
    var selected: uint32

    var page: string
    var backVisible: bool
    var enabled: bool
    var searchFocused: bool

    var toReveal: Option<Navigatable>
    var revealExpand: bool

    ghost predicate Valid()
      reads this, tree
    {
      tree.Valid() &&
      (root.Some? ==> root.value < |tree.Kids|) &&
      (selectedNode.Some? ==> selectedNode.value < |tree.Kids|) &&
      |results| < 0x1_0000_0000
    }

    constructor (tree: Arena)
      requires tree.Valid()
      ensures Valid() && this.tree == tree
      ensures root.None? && repository.None? && results == [] && selected == INVALID_POSITION
    {
      this.tree := tree;
      root, repository, selectedNode, expandedNode := None, None, None, None;
      searchText, query, results, selected := "", None, [], INVALID_POSITION;
      page, backVisible, enabled, searchFocused := "browse", false, true, false;
      toReveal, revealExpand := None, false;
    }

    /**
     * manuals_sidebar_key_pressed_cb on the search list: applies the
     * requested position to the selection, and reports what the
     * selection-changed handler then activates.
     */
    method KeyPress(key: Key) returns (stop: bool, activated: Option<Navigatable>)
      requires Valid()
      modifies this`selected
      ensures Valid()
      ensures stop == KeyPressed(key, old(selected), |results| as uint32).stop
      ensures selected == AfterKey(key, old(selected), |results| as uint32)
      ensures activated == if selected != old(selected) then Activation(selected, results) else None
    {
      var n := |results| as uint32;
      var o := KeyPressed(key, selected, n);
      stop := o.stop;
      activated := None;
      if o.request.Some? {
        var s := Select(o.request.value, n);
        if s != selected {
          selected := s;
          activated := Activation(s, results);
        }
      }
    }

    /** manuals_sidebar_search_activate_cb: activates the selected result. */
    method SearchActivate() returns (activated: Option<Navigatable>)
      requires Valid()
      ensures activated == Activation(selected, results)
      ensures selected == INVALID_POSITION ==> activated.None?
    {
      activated := Activation(selected, results);
    }

    /** manuals_sidebar_search_changed_cb, after the entry's text changed to `text`. */
    method SearchChanged(text: string)
      requires Valid()
      modifies this`searchText, this`query, this`results, this`selected, this`page, this`backVisible
      ensures Valid() && searchText == text
      ensures AllSpace(text) ==> query.None? && page == "browse" && !backVisible &&
                                 results == old(results) && selected == old(selected)
      ensures !AllSpace(text) ==> query == Some(Strip(text)) && page == "search" && backVisible &&
                                  results == [] && selected == INVALID_POSITION
    {
      searchText := text;
      StripEmptyIff(text);
      ShowSearch(Strip(text));
    }

    /** The part of manuals_sidebar_search_changed_cb after the text was stripped. */
    method ShowSearch(stripped: string)
      requires Valid()
      modifies this`query, this`results, this`selected, this`page, this`backVisible
      ensures Valid()
      ensures stripped == [] ==> query.None? && page == "browse" && !backVisible &&
                                 results == old(results) && selected == old(selected)
      ensures stripped != [] ==> query == Some(stripped) && page == "search" && backVisible &&
                                 results == [] && selected == INVALID_POSITION
    {
      query := None;
      if stripped == [] {
        page := "browse";
        backVisible := false;
      } else {
        query := Some(stripped);
        results := [];
        selected := INVALID_POSITION;
        page := "search";
        backVisible := true;
      }
    }

    /**
     * The search completing: the results fill the list and
     * manuals_sidebar_select_first activates the first of them.
     */
    method SearchCompleted(found: seq<Option<Navigatable>>) returns (activated: Option<Navigatable>)
      requires Valid() && |found| < 0x1_0000_0000
      modifies this`results
      ensures Valid() && results == found
      ensures activated == Activation(0, found)
      ensures activated.Some? <==> |found| > 0 && found[0].Some?
    {
      results := found;
      activated := Activation(0, found);
    }

    /** The "sidebar.browse" action: clears the search text. */
    method Browse()
      requires Valid()
      modifies this`searchText, this`query, this`results, this`selected, this`page, this`backVisible
      ensures Valid() && searchText == "" && query.None? && page == "browse" && !backVisible
      ensures results == old(results) && selected == old(selected)
    {
      SearchChanged("");
    }

    /** manuals_sidebar_set_repository: a new repository gets a new root node holding it. */
    method SetRepository(repo: Item)
      requires Valid()
      modifies this`repository, this`root, tree
      ensures Valid()
      ensures SameObject(old(repository), Some(repo)) ==> unchanged(this) && unchanged(tree)
      ensures !SameObject(old(repository), Some(repo)) ==>
                repository == Some(repo) && root == Some(old(|tree.Kids|)) &&
                tree.Kids == old(tree.Kids) + [[]] && tree.data == old(tree.data) + [EmptyData.(item := Some(repo))]
    {
      if !SameObject(repository, Some(repo)) {
        repository := Some(repo);
        NewRoot();
      }
    }

    /** manuals_sidebar_reload: a new root node holding the current repository. */
    method Reload()
      requires Valid()
      modifies this`root, tree
      ensures Valid() && root == Some(old(|tree.Kids|))
      ensures tree.Kids == old(tree.Kids) + [[]] && tree.data == old(tree.data) + [EmptyData.(item := repository)]
    {
      NewRoot();
    }

    method NewRoot()
      requires Valid()
      modifies this`root, tree
      ensures Valid() && root == Some(old(|tree.Kids|))
      ensures tree.Kids == old(tree.Kids) + [[]] && tree.data == old(tree.data) + [EmptyData.(item := repository)]
    {
      var n := tree.NewNode();
      tree.SetItem(n, repository);
      root := Some(n);
    }

    /** manuals_sidebar_focus_search */
    method FocusSearch()
      modifies this`searchFocused
      ensures searchFocused
    {
      searchFocused := true;
    }

    /** manuals_sidebar_set_enabled */
    method SetEnabled(enabled: bool)
      modifies this`enabled
      ensures this.enabled == enabled
    {
      this.enabled := enabled;
    }

    /**
     * manuals_sidebar_reveal: remembers what to reveal and whether to
     * expand it, clears the search (which shows the browse page) and starts
     * the reveal fiber, modelled by RevealFiber.
     */
    method Reveal(nav: Option<Navigatable>, expand: bool)
      requires Valid()
      modifies this`toReveal, this`revealExpand, this`searchText, this`query, this`results, this`selected,
               this`page, this`backVisible
      ensures Valid() && toReveal == nav && revealExpand == expand
      ensures searchText == "" && query.None? && page == "browse" && !backVisible
      ensures results == old(results) && selected == old(selected)
    {
      toReveal := nav;
      revealExpand := expand;
      SearchChanged("");
    }

    /**
     * The descent of manuals_sidebar_reveal_fiber from `start`: at each
     * level the children are scanned in order for the first that matches
     * the next navigatable of the chain; the walk stops at the first level
     * without a match or when the chain is used up.
     */
    method FindNode(start: NodeId, chain: seq<Navigatable>) returns (node: NodeId)
      requires tree.Valid() && start < |tree.Kids|
      ensures InRange(tree.Kids) && node == Descend(tree.Kids, tree.data, start, chain)
    {
      assert InRange(tree.Kids);
      ghost var goal := Descend(tree.Kids, tree.data, start, chain);
      node := start;
      var rest := chain;
      while |rest| > 0
        invariant node < |tree.Kids| && Descend(tree.Kids, tree.data, node, rest) == goal
        decreases |rest|
      {
        var nav := rest[0];
        ghost var level := rest;
        rest := rest[1..];
        var found := ScanChildren(node, nav);
        if found.None? {
          DescendStays(tree.Kids, tree.data, node, level);
          break;
        }
        DescendStep(tree.Kids, tree.data, node, level, FirstMatch(tree.Kids[node], tree.data, nav).value);
        node := found.value;
      }
    }

    /**
     * One level of that descent: the children of `n` are scanned in order
     * and the first that matches `nav`, if any, is returned.
     */
    method ScanChildren(n: NodeId, nav: Navigatable) returns (found: Option<NodeId>)
      requires tree.Valid() && n < |tree.Kids| && InRange(tree.Kids)
      ensures var m := FirstMatch(tree.Kids[n], tree.data, nav);
        (found.None? <==> m.None?) && (found.Some? ==> found.value == tree.Kids[n][m.value])
    {
      var child := tree.FirstChild(n);
      ghost var j := 0;
      while child.Some?
        invariant 0 <= j <= |tree.Kids[n]|
        invariant child.Some? <==> j < |tree.Kids[n]|
        invariant child.Some? ==> child.value == tree.Kids[n][j]
        invariant forall k :: 0 <= k < j ==> !NodeMatches(tree.data[tree.Kids[n][k]].item, nav.item)
        decreases |tree.Kids[n]| - j
      {
        if NodeMatches(tree.data[child.value].item, nav.item) {
          return child;
        }
        child := tree.NextSibling(child.value);
        j := j + 1;
      }
      return None;
    }

    /**
     * manuals_sidebar_reveal_fiber, with `parents` the navigatables that
     * manuals_navigatable_find_parent resolves to, from the revealed one's
     * parent outward. The chain is built root-first by prepending, its first
     * element (the repository) is dropped, and the walk descends from the
     * root taking the first matching child at each level, stopping at the
     * first level without a match; the node reached is selected, and
     * expanded when reveal asked for it.
     */
    method RevealFiber(parents: seq<Navigatable>)
      requires Valid()
      modifies this`toReveal, this`selectedNode, this`expandedNode, this`page
      ensures Valid() && toReveal.None?
      ensures old(toReveal).None? ==> selectedNode == old(selectedNode) && expandedNode == old(expandedNode) && page == old(page)
      ensures old(toReveal).Some? ==> page == "browse"
      ensures old(toReveal).Some? && root.None? ==> selectedNode == old(selectedNode) && expandedNode == old(expandedNode)
      ensures old(toReveal).Some? && root.Some? ==>
                InRange(tree.Kids) &&
                selectedNode == Some(Descend(tree.Kids, tree.data, root.value, RevealChain(old(toReveal).value, parents))) &&
                expandedNode == (if revealExpand then selectedNode else old(expandedNode))
    {
      if toReveal.None? {
        return;
      }
      var target := toReveal.value;
      toReveal := None;
      var chain := AncestorChain(target, parents);
      // The repository is always the first element.
      chain := chain[1..];
      var node := None;
      if root.Some? {
        var n := FindNode(root.value, chain);
        node := Some(n);
      }

      if node.Some? {
        selectedNode := node;
        if revealExpand {
          expandedNode := node;
        }
      }
      page := "browse";
    }
  }
}
