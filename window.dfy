/**
 * manuals-window.c: the main window's stack (loading, tabs or empty), its
 * tab list and visible tab, the back/forward action state and the
 * navigation entry points that open a navigatable in a tab or reveal it in
 * the sidebar.
 *
 * The tab view is a sequence of tabs with an optional selected index.
 * ManualsTab itself (manuals-tab.c) is not part of this model: a tab is the
 * navigatable it shows and its back/forward availability.
 */
module ManualsWindow {
  import opened Wrappers
  import opened GLibStrings
  import opened Payload
  import opened ManualsSidebar
  import IdeTreeNode

  /** The children of the window's GtkStack. */
  datatype StackChild = Loading | Tabs | Empty

  /** The child names the window passes to gtk_stack_set_visible_child_name. */
  function ChildName(c: StackChild): (name: string)
    ensures name != []
    ensures name == "empty" <==> c == Empty
  {
    match c
    case Loading => "loading"
    case Tabs => "tabs"
    case Empty => "empty"
  }

  /** Distinct children have distinct names, so comparing names compares children. */
  lemma ChildNameInjective(a: StackChild, b: StackChild)
    ensures ChildName(a) == ChildName(b) <==> a == b
  {
    if a != b {
      assert ChildName(a)[0] != ChildName(b)[0];
    }
  }

  /** g_strcmp0 (old, new) != 0 on the visible child names, where no visible child has a NULL name. */
  predicate NameChanged(before: Option<StackChild>, after: StackChild)
  {
    before.None? || ChildName(before.value) != ChildName(after)
  }

  /** The choice in manuals_window_update_stack_child. */
  function ChooseChild(importActive: bool, hasTabs: bool): (c: StackChild)
    ensures c == Loading <==> importActive
    ensures c == Tabs <==> !importActive && hasTabs
    ensures c == Empty <==> !importActive && !hasTabs
  {
    if importActive then Loading else if hasTabs then Tabs else Empty
  }

  datatype Tab = Tab(navigatable: Option<Navigatable>, canGoBack: bool, canGoForward: bool)

  /** manuals_tab_new: a tab showing nothing, with no history. */
  const NewTab := Tab(None, false, false)

  /** The index the tab view selects after closing the selected page `i`: the next page, or the previous one when it was last. */
  function AfterClose(i: nat, remaining: nat): (r: Option<nat>)
    requires i <= remaining
    ensures r.None? <==> remaining == 0
    ensures r.Some? ==> r.value < remaining && (r.value == i || r.value + 1 == i)
  {
    if remaining == 0 then None else if i < remaining then Some(i) else Some(remaining - 1)
  }

  class Window {
    const sidebar: Sidebar

    var tabs: seq<Tab>
    var selected: Option<nat>
    /** The stack's visible child; None before the first update. */
    var child: Option<StackChild>
    var statusbarVisible: bool
    var dockRevealed: bool
    var goBackEnabled: bool
    var goForwardEnabled: bool
    /** The tab that last grabbed the keyboard focus. */
    var focusedTab: Option<nat>
    var disposed: bool
    var destroyed: bool
    /** URIs handed to GtkUriLauncher. */
    var launched: seq<string>
    /** manuals_application_get_import_active, as last notified. */
    var importActive: bool

    ghost predicate Valid()
      reads this, sidebar, sidebar.tree
    {
      sidebar.Valid() &&
      (selected.Some? ==> selected.value < |tabs|) &&
      (tabs != [] ==> selected.Some?)
    }

    /**
     * manuals_window_get_visible_tab: the selected page's tab, or none once
     * the template (and its tab view) was disposed.
     */
    function VisibleTab(): (t: Option<Tab>)
      reads this, sidebar, sidebar.tree
      requires Valid()
      ensures t.Some? <==> !disposed && tabs != []
      ensures t.Some? ==> t == Some(tabs[selected.value])
    {
      if disposed || selected.None? then None else Some(tabs[selected.value])
    }

    /**
     * manuals_window_constructed: the sidebar gets the repository and the
     * search focus, then the stack is updated for the import state.
     * `initialChild` and `initialDockRevealed` are the stack's visible
     * child and the dock's reveal state as the window's UI file leaves them.
     */
    constructor (sidebar: Sidebar, repository: Item, importActive: bool,
                 initialChild: Option<StackChild>, initialDockRevealed: bool)
      requires sidebar.Valid()
      modifies sidebar, sidebar.tree
      ensures Valid() && this.sidebar == sidebar && tabs == [] && selected.None?
      ensures child == Some(if importActive then Loading else Empty)
      ensures sidebar.searchFocused
      ensures dockRevealed == (if !importActive && initialChild != Some(Empty) then true else initialDockRevealed)
    {
      this.sidebar := sidebar;
      tabs, selected, child := [], None, initialChild;
      statusbarVisible, dockRevealed := false, initialDockRevealed;
      goBackEnabled, goForwardEnabled := false, false;
      focusedTab, disposed, destroyed := None, false, false;
      launched := [];
      this.importActive := importActive;
      new;
      sidebar.SetRepository(repository);
      sidebar.FocusSearch();
      UpdateStackChild();
    }

    /**
     * manuals_window_update_stack_child: shows the chosen child, the
     * statusbar only with tabs, enables the sidebar unless loading, and on a
     * change into "empty" reveals the dock and focuses the search.
     */
    method UpdateStackChild()
      requires Valid()
      modifies this`child, this`statusbarVisible, this`dockRevealed, sidebar`enabled, sidebar`searchFocused
      ensures Valid()
      ensures child == Some(ChooseChild(importActive, tabs != []))
      ensures statusbarVisible <==> child == Some(Tabs)
      ensures sidebar.enabled <==> child != Some(Loading)
      ensures old(child) != child && child == Some(Empty) ==> dockRevealed && sidebar.searchFocused
      ensures !(old(child) != child && child == Some(Empty)) ==>
                dockRevealed == old(dockRevealed) && sidebar.searchFocused == old(sidebar.searchFocused)
    {
      var oldChild := child;
      var c := ChooseChild(importActive, |tabs| > 0);
      child := Some(c);
      statusbarVisible := c == Tabs;
      sidebar.SetEnabled(c != Loading);
      if oldChild.Some? {
        ChildNameInjective(oldChild.value, c);
      }
      if NameChanged(oldChild, c) && ChildName(c) == "empty" {
        dockRevealed := true;
        sidebar.FocusSearch();
      }
    }

    /** manuals_window_notify_import_active_cb */
    method NotifyImportActive(active: bool)
      requires Valid()
      modifies this`importActive, this`child, this`statusbarVisible, this`dockRevealed, sidebar`enabled, sidebar`searchFocused
      ensures Valid() && importActive == active
      ensures child == Some(ChooseChild(active, tabs != []))
      ensures statusbarVisible <==> !active && tabs != []
      ensures sidebar.enabled <==> !active
      ensures old(child) != Some(Empty) && !active && tabs == [] ==> dockRevealed && sidebar.searchFocused
    {
      importActive := active;
      UpdateStackChild();
    }

    /**
     * manuals_window_update_actions: after dispose nothing changes;
     * otherwise back and forward follow the visible tab, and are disabled
     * when there is none.
     */
    method UpdateActions()
      requires Valid()
      modifies this`goBackEnabled, this`goForwardEnabled
      ensures Valid()
      ensures disposed ==> goBackEnabled == old(goBackEnabled) && goForwardEnabled == old(goForwardEnabled)
      ensures !disposed ==> goBackEnabled == (VisibleTab().Some? && VisibleTab().value.canGoBack)
      ensures !disposed ==> goForwardEnabled == (VisibleTab().Some? && VisibleTab().value.canGoForward)
      ensures !disposed && VisibleTab().None? ==> !goBackEnabled && !goForwardEnabled
    {
      if disposed {
        return;
      }
      var canGoBack, canGoForward := false, false;
      var tab := VisibleTab();
      if tab.Some? {
        canGoBack := tab.value.canGoBack;
        canGoForward := tab.value.canGoForward;
      }
      goBackEnabled := canGoBack;
      goForwardEnabled := canGoForward;
    }

    /**
     * manuals_window_add_tab: the tab view appends the page, selecting it
     * when nothing was selected (which rebinds the visible-tab signals and
     * updates the actions), and the stack is updated.
     */
    method AddTab(t: Tab)
      requires Valid()
      modifies this`tabs, this`selected, this`goBackEnabled, this`goForwardEnabled,
               this`child, this`statusbarVisible, this`dockRevealed, sidebar`enabled, sidebar`searchFocused
      ensures Valid()
      ensures tabs == old(tabs) + [t]
      ensures selected == (if old(selected).None? then Some(|old(tabs)|) else old(selected))
      ensures child == Some(if importActive then Loading else Tabs)
      ensures dockRevealed == old(dockRevealed) && sidebar.searchFocused == old(sidebar.searchFocused)
    {
      tabs := tabs + [t];
      if selected.None? {
        selected := Some(|tabs| - 1);
        UpdateActions();
      }
      UpdateStackChild();
    }

    /** manuals_window_set_visible_tab: selects the tab when it is one of the window's pages. */
    method SetVisibleTab(i: nat)
      requires Valid()
      modifies this`selected, this`goBackEnabled, this`goForwardEnabled
      ensures Valid() && tabs == old(tabs)
      ensures i < |tabs| ==> selected == Some(i)
      ensures i >= |tabs| ==> selected == old(selected)
      ensures selected == old(selected) ==> goBackEnabled == old(goBackEnabled) && goForwardEnabled == old(goForwardEnabled)
    {
      if i < |tabs| && selected != Some(i) {
        selected := Some(i);
        UpdateActions();
      }
    }

    /** The "tab.new" action: duplicates the visible tab and shows the copy; without one it does nothing. */
    method TabNewAction()
      requires Valid()
      modifies this`tabs, this`selected, this`goBackEnabled, this`goForwardEnabled,
               this`child, this`statusbarVisible, this`dockRevealed, sidebar`enabled, sidebar`searchFocused
      ensures Valid()
      ensures old(VisibleTab()).None? ==> tabs == old(tabs) && selected == old(selected) && child == old(child)
      ensures old(VisibleTab()).Some? ==>
                tabs == old(tabs) + [old(VisibleTab()).value] && selected == Some(|old(tabs)|)
    {
      var tab := VisibleTab();
      if tab.None? {
        return;
      }
      AddTab(tab.value);
      SetVisibleTab(|tabs| - 1);
    }

    /**
     * The "tab.close" action: without a visible tab the window is
     * destroyed; otherwise the visible tab's page is closed, the tab view
     * selects its neighbour, and the stack is updated.
     */
    method TabCloseAction()
      requires Valid()
      modifies this`destroyed, this`tabs, this`selected, this`goBackEnabled, this`goForwardEnabled,
               this`child, this`statusbarVisible, this`dockRevealed, sidebar`enabled, sidebar`searchFocused
      ensures Valid()
      ensures old(VisibleTab()).None? ==> destroyed && tabs == old(tabs) && selected == old(selected)
      ensures old(VisibleTab()).Some? ==>
                var i := old(selected).value;
                destroyed == old(destroyed) && tabs == old(tabs)[..i] + old(tabs)[i + 1..] &&
                selected == AfterClose(i, |tabs|) &&
                child == Some(ChooseChild(importActive, tabs != []))
      ensures old(VisibleTab()).Some? && old(|tabs|) == 1 && !importActive && old(child) != Some(Empty) ==>
                tabs == [] && dockRevealed && sidebar.searchFocused
    {
      var tab := VisibleTab();
      if tab.None? {
        destroyed := true;
        return;
      }
      var i := selected.value;
      tabs := tabs[..i] + tabs[i + 1..];
      selected := AfterClose(i, |tabs|);
      UpdateActions();
      UpdateStackChild();
    }

    /** The "sidebar.focus-search" action. */
    method SidebarFocusSearchAction()
      requires Valid()
      modifies this`dockRevealed, sidebar`searchFocused
      ensures Valid() && dockRevealed && sidebar.searchFocused
    {
      dockRevealed := true;
      sidebar.FocusSearch();
    }

    /**
     * manuals_window_new_tab_for_uri_from_current_tab: a URI whose scheme is
     * not "file" is launched externally and gives no tab; otherwise the
     * visible tab is duplicated, or a new tab made when there is none, and
     * set to show the URI.
     */
    method NewTabForUri(uri: string) returns (t: Option<Tab>)
      requires Valid()
      modifies this`launched
      ensures Valid()
      ensures PeekScheme(uri) != Some("file") ==> t.None? && launched == old(launched) + [uri]
      ensures PeekScheme(uri) == Some("file") ==>
                launched == old(launched) &&
                t == Some((if VisibleTab().Some? then VisibleTab().value else NewTab).(navigatable := Some(Navigatable(None, Some(uri)))))
    {
      if PeekScheme(uri) != Some("file") {
        launched := launched + [uri];
        return None;
      }
      var original := VisibleTab();
      var newTab := if original.Some? then original.value else NewTab;
      var nav := Navigatable(None, Some(uri));
      t := Some(newTab.(navigatable := Some(nav)));
    }

    /** The "open-uri-in-new-tab" action: adds the tab made for the URI, if any. */
    method OpenUriInNewTab(uri: string)
      requires Valid()
      modifies this`launched, this`tabs, this`selected, this`goBackEnabled, this`goForwardEnabled,
               this`child, this`statusbarVisible, this`dockRevealed, sidebar`enabled, sidebar`searchFocused
      ensures Valid()
      ensures PeekScheme(uri) != Some("file") ==> launched == old(launched) + [uri] && tabs == old(tabs)
      ensures PeekScheme(uri) == Some("file") ==>
                launched == old(launched) && |tabs| == old(|tabs|) + 1 && tabs[..old(|tabs|)] == old(tabs) &&
                tabs[old(|tabs|)].navigatable == Some(Navigatable(None, Some(uri)))
    {
      var t := NewTabForUri(uri);
      if t.Some? {
        AddTab(t.value);
      }
    }

    /**
     * The "open-uri-in-new-window" action: the tab the new window receives,
     * if any; the new window itself is not modelled.
     */
    method OpenUriInNewWindow(uri: string) returns (t: Option<Tab>)
      requires Valid()
      modifies this`launched
      ensures Valid()
      ensures PeekScheme(uri) != Some("file") ==> t.None? && launched == old(launched) + [uri]
      ensures PeekScheme(uri) == Some("file") ==>
                launched == old(launched) && t.Some? && t.value.navigatable == Some(Navigatable(None, Some(uri)))
    {
      t := NewTabForUri(uri);
    }

    /** manuals_window_invalidate_contents_cb: the sidebar reloads its tree. */
    method InvalidateContents()
      requires Valid()
      modifies sidebar`root, sidebar.tree
      ensures Valid() && sidebar.root == Some(old(|sidebar.tree.Kids|))
      ensures sidebar.tree.data == old(sidebar.tree.data) + [IdeTreeNode.EmptyData.(item := sidebar.repository)]
    {
      sidebar.Reload();
    }

    /** manuals_window_dispose */
    method Dispose()
      requires Valid()
      modifies this`disposed
      ensures Valid() && disposed && VisibleTab().None?
    {
      disposed := true;
    }

    /** gtk_widget_grab_focus on the visible tab. */
    method FocusVisibleTab()
      requires Valid()
      modifies this`focusedTab
      ensures Valid() && focusedTab == (if VisibleTab().Some? then selected else old(focusedTab))
    {
      if VisibleTab().Some? {
        focusedTab := selected;
      }
    }

    /**
     * Showing a navigatable in a tab, as manuals_sidebar_activate and the
     * tree addin's node activation do: the visible tab, or a new tab added
     * and made visible when there is none or control is pressed, is set to
     * show the navigatable.
     */
    method ShowNavigatable(nav: Navigatable, controlPressed: bool)
      requires Valid() && !disposed
      modifies this`tabs, this`selected, this`goBackEnabled, this`goForwardEnabled,
               this`child, this`statusbarVisible, this`dockRevealed, sidebar`enabled, sidebar`searchFocused
      ensures Valid() && selected.Some?
      ensures tabs[selected.value].navigatable == Some(nav)
      ensures old(VisibleTab()).Some? && !controlPressed ==>
                selected == old(selected) && tabs == old(tabs)[selected.value := old(tabs)[selected.value].(navigatable := Some(nav))]
      ensures old(VisibleTab()).None? || controlPressed ==>
                selected == Some(|old(tabs)|) && tabs == old(tabs) + [NewTab.(navigatable := Some(nav))]
    {
      var tab := VisibleTab();
      if tab.None? || controlPressed {
        AddTab(NewTab);
        SetVisibleTab(|tabs| - 1);
      }
      var i := selected.value;
      tabs := tabs[i := tabs[i].(navigatable := Some(nav))];
    }

    /**
     * manuals_sidebar_activate: a search result with an item, at a valid
     * position, is shown in a tab; anything else does nothing.
     */
    method ActivateSearchResult(position: uint32, controlPressed: bool)
      requires Valid() && !disposed
      modifies this`tabs, this`selected, this`goBackEnabled, this`goForwardEnabled,
               this`child, this`statusbarVisible, this`dockRevealed, sidebar`enabled, sidebar`searchFocused
      ensures Valid()
      ensures Activation(position, sidebar.results).None? ==> tabs == old(tabs) && selected == old(selected)
      ensures Activation(position, sidebar.results).Some? ==>
                selected.Some? && tabs[selected.value].navigatable == Activation(position, sidebar.results)
    {
      var nav := Activation(position, sidebar.results);
      if nav.Some? {
        ShowNavigatable(nav.value, controlPressed);
      }
    }

    /**
     * manuals_window_navigate_to: a navigatable with a URI is shown in the
     * visible tab, or in a new visible tab when control is pressed, and that
     * tab takes the focus; with no visible tab and no control there is no
     * tab to show it in and nothing changes. A navigatable without a URI is
     * revealed, expanded, in the sidebar, with the dock shown.
     */
    method NavigateTo(nav: Navigatable, controlPressed: bool)
      requires Valid() && !disposed
      modifies this`tabs, this`selected, this`goBackEnabled, this`goForwardEnabled, this`focusedTab,
               this`child, this`statusbarVisible, this`dockRevealed, sidebar`enabled, sidebar`searchFocused,
               sidebar`toReveal, sidebar`revealExpand, sidebar`searchText, sidebar`query, sidebar`results,
               sidebar`selected, sidebar`page, sidebar`backVisible
      ensures Valid()
      ensures nav.uri.Some? && controlPressed ==>
                tabs == old(tabs) + [NewTab.(navigatable := Some(nav))] && selected == Some(|old(tabs)|) &&
                focusedTab == selected
      ensures nav.uri.Some? && !controlPressed && old(VisibleTab()).Some? ==>
                selected == old(selected) && focusedTab == selected &&
                tabs == old(tabs)[selected.value := old(tabs)[selected.value].(navigatable := Some(nav))]
      ensures nav.uri.Some? && !controlPressed && old(VisibleTab()).None? ==>
                tabs == old(tabs) && selected == old(selected) && focusedTab == old(focusedTab)
      ensures nav.uri.Some? ==> sidebar.toReveal == old(sidebar.toReveal)
      ensures nav.uri.None? ==>
                tabs == old(tabs) && dockRevealed && sidebar.toReveal == Some(nav) && sidebar.revealExpand &&
                sidebar.searchText == "" && sidebar.page == "browse"
    {
      if nav.uri.Some? {
        if controlPressed {
          AddTab(NewTab);
          SetVisibleTab(|tabs| - 1);
        }
        if selected.Some? {
          var i := selected.value;
          tabs := tabs[i := tabs[i].(navigatable := Some(nav))];
          FocusVisibleTab();
        }
      } else {
        dockRevealed := true;
        sidebar.Reveal(Some(nav), true);
      }
    }
  }
}
