/**
 * manuals-tree-addin.c: how the sidebar's outline tree decorates a node
 * for its payload, fills in its children and reacts to activation.
 *
 * The futures the addin chains on (a heading's has_children, the
 * repository/SDK/book/heading listings) are inputs: the value they resolve
 * to, or the error they reject with.
 */
module ManualsTreeAddin {
  import opened Wrappers
  import opened Payload
  import opened IdeTreeNode
  import opened ManualsWindow

  /** The node ids `start`, `start + 1`, ..., `start + n - 1`. */
  function Fresh(start: nat, n: nat): (r: seq<NodeId>)
    ensures |r| == n
    ensures forall j :: 0 <= j < n ==> r[j] == start + j
  {
    seq(n, j => start + j)
  }

  /** Whether a payload of this type has a listing the tree fills children from. */
  predicate Listable(t: ItemType)
  {
    t == RepositoryType || t == SdkType || t == BookType || t == HeadingType
  }

  /**
   * apply_children_posible: only a has_children future that resolves to
   * true makes the node expandable, with the pan icons; a false or failed
   * answer changes nothing.
   */
  method ApplyChildrenPossible(tree: Arena, n: NodeId, hasChildren: Result<bool, Error>)
    requires n < |tree.data|
    modifies tree`data
    ensures hasChildren == Ok(true) ==>
              tree.data == old(tree.data)[n := old(tree.data[n]).(childrenPossible := true,
                                                                  icon := Some("pan-end-symbolic"),
                                                                  expandedIcon := Some("pan-down-symbolic"))]
    ensures hasChildren != Ok(true) ==> tree.data == old(tree.data)
  {
    // dex_await_boolean gives FALSE for a rejected future.
    var childrenPossible := hasChildren.Ok? && hasChildren.value;
    if childrenPossible {
      tree.SetChildrenPossible(n, true);
      tree.SetIconName(n, Some("pan-end-symbolic"));
      tree.SetExpandedIconName(n, Some("pan-down-symbolic"));
    }
  }

  /**
   * manuals_tree_addin_build_node: an SDK node gets the SDK's title and
   * icon, a book node the book's title and the book icon, both becoming
   * expandable headers; a heading node gets its title, is not expandable
   * until its has_children answer (the `hasChildren` input) says so; any
   * other node is left alone.
   */
  method BuildNode(tree: Arena, n: NodeId, hasChildren: Result<bool, Error>)
    requires tree.Valid() && n < |tree.Kids|
    modifies tree`data
    ensures tree.Valid()
    ensures var d := old(tree.data[n]);
            d.item.Some? && d.item.value.kind == SdkType ==>
              tree.data == old(tree.data)[n := d.(title := Some(d.item.value.title), icon := d.item.value.iconName,
                                                  childrenPossible := true, isHeader := true)]
    ensures var d := old(tree.data[n]);
            d.item.Some? && d.item.value.kind == BookType ==>
              tree.data == old(tree.data)[n := d.(title := Some(d.item.value.title), icon := Some("book-symbolic"),
                                                  childrenPossible := true, isHeader := true)]
    ensures var d := old(tree.data[n]);
            d.item.Some? && d.item.value.kind == HeadingType && hasChildren != Ok(true) ==>
              tree.data == old(tree.data)[n := d.(title := Some(d.item.value.title), childrenPossible := false)]
    ensures var d := old(tree.data[n]);
            d.item.Some? && d.item.value.kind == HeadingType && hasChildren == Ok(true) ==>
              tree.data == old(tree.data)[n := d.(title := Some(d.item.value.title), childrenPossible := true,
                                                  icon := Some("pan-end-symbolic"), expandedIcon := Some("pan-down-symbolic"))]
    ensures var d := old(tree.data[n]);
            d.item.None? || d.item.value.kind !in {SdkType, BookType, HeadingType} ==> tree.data == old(tree.data)
  {
    if tree.Holds(n, SdkType) {
      var sdk := tree.data[n].item.value;
      DecorateHeader(tree, n, sdk.title, sdk.iconName);
    } else if tree.Holds(n, BookType) {
      var book := tree.data[n].item.value;
      DecorateHeader(tree, n, book.title, Some("book-symbolic"));
    } else if tree.Holds(n, HeadingType) {
      var heading := tree.data[n].item.value;
      DecorateHeading(tree, n, heading.title, hasChildren);
    }
  }

  /** The SDK and book branches of build_node: title, icon, expandable, header. */
  method DecorateHeader(tree: Arena, n: NodeId, title: string, icon: Option<string>)
    requires n < |tree.data|
    modifies tree`data
    ensures tree.data == old(tree.data)[n := old(tree.data[n]).(title := Some(title), icon := icon,
                                                                childrenPossible := true, isHeader := true)]
  {
    tree.SetTitle(n, Some(title));
    tree.SetIconName(n, icon);
    tree.SetChildrenPossible(n, true);
    tree.SetIsHeader(n, true);
  }

  /** The heading branch of build_node, followed by apply_children_posible on the has_children answer. */
  method DecorateHeading(tree: Arena, n: NodeId, title: string, hasChildren: Result<bool, Error>)
    requires n < |tree.data|
    modifies tree`data
    ensures hasChildren != Ok(true) ==>
              tree.data == old(tree.data)[n := old(tree.data[n]).(title := Some(title), childrenPossible := false)]
    ensures hasChildren == Ok(true) ==>
              tree.data == old(tree.data)[n := old(tree.data[n]).(title := Some(title), childrenPossible := true,
                                                                  icon := Some("pan-end-symbolic"),
                                                                  expandedIcon := Some("pan-down-symbolic"))]
  {
    ghost var d0 := tree.data;
    ghost var titled := d0[n].(title := Some(title));
    tree.SetTitle(n, Some(title));
    tree.SetChildrenPossible(n, false);
    ghost var d := titled.(childrenPossible := false);
    UpdatedTwice(d0, n, titled, d);
    ApplyChildrenPossible(tree, n, hasChildren);
    if hasChildren == Ok(true) {
      UpdatedTwice(d0, n, d, tree.data[n]);
    }
  }

  /** Two updates of the same position leave only the second. */
  lemma UpdatedTwice<T>(s: seq<T>, n: nat, a: T, b: T)
    requires n < |s|
    ensures s[n := a][n := b] == s[n := b]
  {
  }

  /**
   * manuals_tree_addin_add_children: one new node per listed item, in list
   * order, each holding its item and appended after the node's existing
   * children; resolves to true.
   */
  method AddChildren(tree: Arena, node: NodeId, items: seq<Item>) returns (ok: bool)
    requires tree.Valid() && node < |tree.Kids|
    modifies tree
    ensures tree.Valid() && ok
    ensures tree.Kids == (old(tree.Kids) + Leaves(|items|))[node := old(tree.Kids[node]) + Fresh(old(|tree.Kids|), |items|)]
    ensures tree.data == old(tree.data) + Holding(items)
    ensures forall j :: 0 <= j < |items| ==>
              tree.data[tree.Kids[node][old(|tree.Kids[node]|) + j]] == EmptyData.(item := Some(items[j]))
  {
    ghost var k0 := |tree.Kids|;
    ghost var kids0 := tree.Kids;
    ghost var data0 := tree.data;
    var i := 0;
    assert kids0 + Leaves(0) == kids0 && kids0[node] + Fresh(k0, 0) == kids0[node];
    while i < |items|
      invariant 0 <= i <= |items|
      invariant tree.Valid() && node < k0
      invariant tree.Kids == (kids0 + Leaves(i))[node := kids0[node] + Fresh(k0, i)]
      invariant tree.data == data0 + Holding(items[..i])
    {
      ghost var before := tree.Kids;
      var child := AppendChild(tree, node, items[i]);
      AppendedKids(kids0, node, i, before, child);
      AppendedData(data0, items, i);
      i := i + 1;
    }
    assert items[..i] == items;
    forall j | 0 <= j < |items|
      ensures tree.data[tree.Kids[node][|kids0[node]| + j]] == EmptyData.(item := Some(items[j]))
    {
      assert tree.Kids[node] == kids0[node] + Fresh(k0, |items|);
      assert tree.Kids[node][|kids0[node]| + j] == k0 + j;
      assert tree.data[k0 + j] == Holding(items)[j];
    }
    ok := true;
  }

  /** The child lists after one more child was appended to `node`. */
  lemma AppendedKids(kids0: seq<seq<NodeId>>, node: NodeId, i: nat, before: seq<seq<NodeId>>, child: NodeId)
    requires node < |kids0|
    requires before == (kids0 + Leaves(i))[node := kids0[node] + Fresh(|kids0|, i)]
    requires child == |before|
    ensures (before + [[]])[node := before[node] + [child]] == (kids0 + Leaves(i + 1))[node := kids0[node] + Fresh(|kids0|, i + 1)]
  {
    assert Fresh(|kids0|, i + 1) == Fresh(|kids0|, i) + [child];
    assert Leaves(i + 1) == Leaves(i) + [[]];
    assert before + [[]] == (kids0 + Leaves(i + 1))[node := kids0[node] + Fresh(|kids0|, i)];
    assert before[node] + [child] == kids0[node] + Fresh(|kids0|, i + 1);
  }

  /** The node properties after one more child holding items[i] was made. */
  lemma AppendedData(data0: seq<NodeData>, items: seq<Item>, i: nat)
    requires i < |items|
    ensures data0 + Holding(items[..i]) + [EmptyData.(item := Some(items[i]))] == data0 + Holding(items[..i + 1])
  {
    assert Holding(items[..i + 1]) == Holding(items[..i]) + [EmptyData.(item := Some(items[i]))];
  }

  /** One iteration of add_children: a new node holding `item`, appended to node's children. */
  method AppendChild(tree: Arena, node: NodeId, item: Item) returns (child: NodeId)
    requires tree.Valid() && node < |tree.Kids|
    modifies tree
    ensures tree.Valid() && child == old(|tree.Kids|)
    ensures tree.Kids == (old(tree.Kids) + [[]])[node := old(tree.Kids[node]) + [child]]
    ensures tree.data == old(tree.data) + [EmptyData.(item := Some(item))]
  {
    child := tree.NewNode();
    tree.SetItem(child, Some(item));
    tree.InsertBefore(child, node, None);
  }

  /** `n` empty child lists. */
  function Leaves(n: nat): (r: seq<seq<NodeId>>)
    ensures |r| == n && forall j :: 0 <= j < n ==> r[j] == []
  {
    seq(n, _ => [])
  }

  /** Fresh node properties holding the given items, one per item. */
  function Holding(items: seq<Item>): (r: seq<NodeData>)
    ensures |r| == |items| && forall j :: 0 <= j < |items| ==> r[j] == EmptyData.(item := Some(items[j]))
  {
    seq(|items|, j requires 0 <= j < |items| => EmptyData.(item := Some(items[j])))
  }

  /**
   * manuals_tree_addin_build_children_async: a repository lists its SDKs,
   * an SDK its books, a book its headings and a heading its sub-headings,
   * and the listing (the `listing` input) becomes the node's new children;
   * a failed listing is passed on and adds nothing. Any other node resolves
   * to true at once.
   */
  method BuildChildren(tree: Arena, node: NodeId, listing: Result<seq<Item>, Error>) returns (r: Result<bool, Error>)
    requires tree.Valid() && node < |tree.Kids|
    modifies tree
    ensures tree.Valid()
    ensures var d := old(tree.data[node]);
            d.item.Some? && Listable(d.item.value.kind) && listing.Ok? ==>
              r == Ok(true) &&
              tree.Kids == (old(tree.Kids) + Leaves(|listing.value|))[node := old(tree.Kids[node]) + Fresh(old(|tree.Kids|), |listing.value|)] &&
              tree.data == old(tree.data) + Holding(listing.value)
    ensures var d := old(tree.data[node]);
            d.item.Some? && Listable(d.item.value.kind) && listing.Err? ==>
              r == Err(listing.error) && tree.Kids == old(tree.Kids) && tree.data == old(tree.data)
    ensures var d := old(tree.data[node]);
            d.item.None? || !Listable(d.item.value.kind) ==>
              r == Ok(true) && tree.Kids == old(tree.Kids) && tree.data == old(tree.data)
  {
    if tree.Holds(node, RepositoryType) || tree.Holds(node, SdkType) ||
       tree.Holds(node, BookType) || tree.Holds(node, HeadingType) {
      if listing.Err? {
        return Err(listing.error);
      }
      var ok := AddChildren(tree, node, listing.value);
      r := Ok(ok);
    } else {
      r := Ok(true);
    }
  }

  /**
   * manuals_tree_addin_node_activated: a book or heading node is shown in
   * the window's visible tab (or a new one when there is none or control
   * is pressed), which then takes the focus; the result says whether the
   * node is a leaf, that is, cannot have children.
   */
  method NodeActivated(tree: Arena, n: NodeId, window: Window, controlPressed: bool) returns (handled: bool)
    requires tree.Valid() && n < |tree.Kids| && window.Valid() && !window.disposed
    modifies window`tabs, window`selected, window`goBackEnabled, window`goForwardEnabled, window`focusedTab,
             window`child, window`statusbarVisible, window`dockRevealed,
             window.sidebar`enabled, window.sidebar`searchFocused
    ensures window.Valid()
    ensures handled == !tree.data[n].childrenPossible
    ensures tree.data[n].item.Some? && tree.data[n].item.value.kind in {BookType, HeadingType} ==>
              window.selected.Some? && window.focusedTab == window.selected &&
              window.tabs[window.selected.value].navigatable == Some(NavigatableFor(tree.data[n].item.value))
    ensures tree.data[n].item.Some? && tree.data[n].item.value.kind in {BookType, HeadingType} &&
            old(window.VisibleTab()).Some? && !controlPressed ==>
              window.selected == old(window.selected) &&
              window.tabs == old(window.tabs)[window.selected.value :=
                old(window.tabs)[window.selected.value].(navigatable := Some(NavigatableFor(tree.data[n].item.value)))]
    ensures tree.data[n].item.Some? && tree.data[n].item.value.kind in {BookType, HeadingType} &&
            (old(window.VisibleTab()).None? || controlPressed) ==>
              window.selected == Some(|old(window.tabs)|) &&
              window.tabs == old(window.tabs) + [NewTab.(navigatable := Some(NavigatableFor(tree.data[n].item.value)))]
    ensures tree.data[n].item.None? || tree.data[n].item.value.kind !in {BookType, HeadingType} ==>
              window.tabs == old(window.tabs) && window.selected == old(window.selected)
  {
    if tree.Holds(n, BookType) || tree.Holds(n, HeadingType) {
      var nav := NavigatableFor(tree.data[n].item.value);
      window.ShowNavigatable(nav, controlPressed);
      window.FocusVisibleTab();
    }
    handled := !tree.data[n].childrenPossible;
  }
}
