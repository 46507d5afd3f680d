# Manuals core, modelled in Dafny

Manuals is a GNOME documentation browser. This project models the parts of
it that decide things once the asynchronous results are in:

- **Outline tree** (`tree_node.dfy`, module `IdeTreeNode`): an arena of
  nodes with index-valued parent, first/last child and sibling links, kept
  consistent with a ghost list of children per node. It also covers the
  visit codes and VCS flag bits, `insert_before`, `insert_after`,
  `remove`, `unparent`, `holds` and a pre-order `traverse`. The arena
  follows the contract in `ide-tree-node.h`, because the node library's
  implementation is not part of this model.
- **Tree addin** (`tree_addin.dfy`): per payload type, the decoration of a
  node, the population of a node's children, and node activation.
- **Sidebar** (`sidebar.dfy`):
  - Up/Down keyboard navigation over the search results, with unsigned
    32-bit wrap-around of `GTK_INVALID_LIST_POSITION`;
  - activation of a search result and the search text's page switch;
  - `node_matches`;
  - the reveal descent, which builds the ancestor chain root-first, drops
    the repository, and descends by first matching child.
- **Window** (`window.dfy`):
  - the loading/tabs/empty stack decision, with transition detection;
  - back/forward action state;
  - the tab new/close actions;
  - opening a URI in a tab or handing it to an external launcher;
  - `navigate_to`.
- **SDK references and installers**:
  - `sdk_reference.dfy`: change-guarded setters and the default
    `install`/`equal`.
  - `sdk_installer.dfy`: the installer's list of references. `add`
    appends, `remove` removes the first equal reference, and a change of
    `installed` moves the reference to the end. Also the list-model
    getters and the default `load`.
  - `flatpak_reference.dfy`: how a Flatpak runtime's name maps to a title
    and subtitle, and the initial `installed` flag.
  - `flatpak_installer.dfy`: the `.Docs`/`org.kde.`/arch filter, the
    User/System tag, the monitor and the load fiber.
- **SDK dialog** (`sdk_dialog.dfy`): the GNOME-first comparator, group
  visibility, the list/empty page, row contents and `present`.
- **Install button** (`install_button.dfy`): the install/cancel state
  machine and the percentage-to-CSS formatting.
- **Version macros** (`version_macros.dfy`): the `CUR_STABLE`,
  `PREV_STABLE`, `MIN_REQUIRED` and `MAX_ALLOWED` arithmetic and the two
  `#error` checks.

`glib_strings.dfy` models the GLib string helpers the core calls:
`g_str_has_prefix`/`g_str_has_suffix`, `strstr`, the sign of `g_strcmp0`,
`g_strstrip`, `%u` formatting and `g_uri_peek_scheme`. `payload.dfy`
models the payload items and navigatables. `wrappers.dfy` holds
`Option`, `Result` and the error kinds.

Asynchronous results are parameters of the model. These include:

- the items a list operation returns;
- whether a heading has children;
- each Flatpak installation's runtimes;
- the search results;
- the outcome of an install.

Virtual methods are chosen by a constant kind field: `SdkReference.kind`
is `Base` or `Flatpak`, and `SdkInstaller.loadFuture` is null for the base
class.

Three behaviours of the source show up in the proofs:

- With the minor version at 0, `PREV_STABLE` encodes the minor `-2`. The
  preprocessor shift then yields `-512`, below every real version
  (`PrevStableAtMinorZero`).
- When neither version macro is overridden, the upper-bound `#error` never
  fires. The lower-bound `#error` fires exactly for a 0.x version other
  than 0.99 (`DefaultsRejectedIff`).
- The installer's filter drops every `org.kde.` name. The "KDE" title
  branch of `manuals_flatpak_reference_new` is therefore unreachable from
  the monitor (`NoKdeSurvivor`).

## Model

| member | source | states |
|---|---|---|
| IdeTreeNode.VisitCodes | ide-tree-node.h:29-34 | BREAK, CONTINUE and CHILDREN are 0, 1 and 3. CHILDREN contains the CONTINUE bit and BREAK shares no bit with it |
| IdeTreeNode.FlagBits | ide-tree-node.h:36-43 | NONE is 0. DESCENDANT, ADDED, CHANGED and REMOVED are single bits and pairwise disjoint |
| IdeTreeNode.VcsMaskKeepsVcsBits | ide-tree-node.h:45-49 | the VCS mask is 0xF, the union of the four VCS bits. Masking any flags value keeps exactly those bits and is idempotent |
| IdeTreeNode.InsertedBefore | ide-tree-node.h:136-138 | inserting adds exactly one occurrence of the node. A missing or foreign sibling appends it; otherwise it lands right before the sibling's first occurrence |
| IdeTreeNode.Removed | ide-tree-node.h:126-127 | removing takes exactly one occurrence out of a child list that has it, and leaves any other list unchanged |
| IdeTreeNode.RemoveUndoesInsert | ide-tree-node.h:126-138 | removing a node just inserted into a list that lacked it restores the list, whatever the sibling |
| IdeTreeNode.RemovedAbsent | ide-tree-node.h:126-128 | after removal from a duplicate-free child list the node is no longer a child |
| IdeTreeNode.LinkedChained | ide-tree-node.h:120-123 | when every child list is linked by prev/next sibling, the whole arena's sibling chains agree with the children lists |
| IdeTreeNode.InsertKeepsWellFormed | ide-tree-node.h:133-138 | an insertion step keeps every link invariant: ownership, membership, first/last child, sibling chains, counts and no node its own parent |
| IdeTreeNode.RemoveKeepsWellFormed | ide-tree-node.h:126-128 | a removal step keeps the same link invariants |
| IdeTreeNode.BreakStopsWalk | ide-tree-node.h:53-63 | in a traversal, VISIT_BREAK can only come from the last node visited, so the walk stops at the first BREAK |
| IdeTreeNode.WalkOneLevel | ide-tree-node.h:142-147 | with depth 1 the walk visits a prefix of the given nodes and none of their children |
| IdeTreeNode.Arena.constructor | ide-tree-node.h:78 | a new arena holds no nodes and is consistent |
| IdeTreeNode.Arena.NewNode | ide-tree-node.h:78 | ide_tree_node_new adds one detached node with empty data and no children; all others are unchanged |
| IdeTreeNode.Arena.NChildren | ide-tree-node.h:79 | the child count is the length of the node's children list |
| IdeTreeNode.Arena.FirstChild | ide-tree-node.h:120 | the first child is absent exactly for a childless node, and otherwise is the head of its children list |
| IdeTreeNode.Arena.LastChild | ide-tree-node.h:121 | the last child is absent exactly for a childless node, and otherwise is the end of its children list |
| IdeTreeNode.Arena.NextSibling | ide-tree-node.h:123 | the next sibling is the following entry in the parent's children list, none for the last child or a detached node |
| IdeTreeNode.Arena.PrevSibling | ide-tree-node.h:122 | the previous sibling is the preceding entry in the parent's children list, none for the first child or a detached node |
| IdeTreeNode.Arena.Parent | ide-tree-node.h:129 | the parent is the one node whose children list contains the node, never the node itself |
| IdeTreeNode.Arena.Holds | ide-tree-node.h:131-132 | holds(type) is true exactly when the node has an item of that type |
| IdeTreeNode.Arena.ListChildren | ide-tree-node.h:79-123 | walking from first child by next sibling yields the children list; its length is the child count and it ends at the last child |
| IdeTreeNode.Arena.SetTitle | ide-tree-node.h:81-82 | only the node's title changes |
| IdeTreeNode.Arena.SetIconName | ide-tree-node.h:89-90 | only the node's icon name changes |
| IdeTreeNode.Arena.SetExpandedIconName | ide-tree-node.h:91-92 | only the node's expanded icon name changes |
| IdeTreeNode.Arena.SetFlags | ide-tree-node.h:94-95 | only the node's flags change |
| IdeTreeNode.Arena.SetVcsIgnored | ide-tree-node.h:97-98 | only the node's vcs-ignored flag changes |
| IdeTreeNode.Arena.SetHasError | ide-tree-node.h:100-101 | only the node's has-error flag changes |
| IdeTreeNode.Arena.SetDestroyItem | ide-tree-node.h:103-104 | only the node's destroy-item flag changes |
| IdeTreeNode.Arena.SetItem | ide-tree-node.h:106-107 | only the node's item changes |
| IdeTreeNode.Arena.SetChildrenPossible | ide-tree-node.h:109-110 | only the node's children-possible flag changes |
| IdeTreeNode.Arena.SetResetOnCollapse | ide-tree-node.h:112-113 | only the node's reset-on-collapse flag changes |
| IdeTreeNode.Arena.SetUseMarkup | ide-tree-node.h:115-116 | only the node's use-markup flag changes |
| IdeTreeNode.Arena.SetIsHeader | ide-tree-node.h:118-119 | only the node's is-header flag changes |
| IdeTreeNode.Arena.InsertBefore | ide-tree-node.h:136-138 | a detached node goes into the parent's children right before the sibling, or last without one, and gets that parent. A call that breaks the guard changes nothing; data is untouched and the arena stays consistent |
| IdeTreeNode.Arena.InsertAfter | ide-tree-node.h:133-135 | a detached node goes right after the previous sibling, or first without one. A call that breaks the guard changes nothing |
| IdeTreeNode.Arena.Remove | ide-tree-node.h:126-127 | a child of the parent leaves its children list, the others staying in order, and ends up detached. A child of another node is left alone |
| IdeTreeNode.Arena.Unparent | ide-tree-node.h:128 | an attached node is removed from its parent's children and ends detached. A detached node changes nothing |
| IdeTreeNode.Arena.Traverse | ide-tree-node.h:142-147 | the traversal starts at the node itself, a depth of 1 visits only it, and a BREAK ends the walk |
| ManualsTreeAddin.ApplyChildrenPossible | manuals-tree-addin.c:39-60 | only a has-children result of TRUE sets children-possible and the pan-end/pan-down icons; an error or FALSE changes nothing |
| ManualsTreeAddin.BuildNode | manuals-tree-addin.c:62-106 | an SDK gets its title and icon, a book its title and "book-symbolic"; both become children-possible headers. A heading gets its title, starts not children-possible, and then follows ApplyChildrenPossible. Any other payload is left unchanged |
| ManualsTreeAddin.DecorateHeader | manuals-tree-addin.c:68-88 | a header node gets the title and icon with children-possible and is-header set; nothing else changes |
| ManualsTreeAddin.DecorateHeading | manuals-tree-addin.c:89-104 | a heading gets its title and children-possible false, then true with the pan icons only when it has children |
| ManualsTreeAddin.AddChildren | manuals-tree-addin.c:108-133 | one fresh child per item, in item order, after the existing children, each holding its item. No other node changes and the result is TRUE |
| ManualsTreeAddin.AppendChild | manuals-tree-addin.c:122-129 | one new node holding the item becomes the parent's last child |
| ManualsTreeAddin.BuildChildren | manuals-tree-addin.c:135-199 | a repository, SDK, book or heading adds its listed children (or passes on the listing's error). Any other payload adds nothing and resolves TRUE |
| ManualsTreeAddin.NodeActivated | manuals-tree-addin.c:212-241 | the result is the negation of children-possible. Only a book or heading is shown, and the tab showing it takes the focus. With a visible tab and control not pressed, that tab is reused: the selection stays and only its navigatable changes. Otherwise a new tab showing the navigatable is appended and selected. Any other node leaves the tabs alone |
| ManualsSidebar.Inc | manuals-sidebar.c:140 | guint increment wraps modulo 2^32 |
| ManualsSidebar.KeyPressed | manuals-sidebar.c:119-167 | a new selection is requested exactly when the event is stopped |
| ManualsSidebar.Select | manuals-sidebar.c:142 | a position inside the list is kept exactly; a position at or past the end gives GTK_INVALID_LIST_POSITION |
| ManualsSidebar.DownAtLastPropagates | manuals-sidebar.c:137-138 | Down on the last of a non-empty list propagates and changes nothing |
| ManualsSidebar.DownMovesOn | manuals-sidebar.c:140-144 | otherwise Down stops the event and requests selected+1 modulo 2^32 |
| ManualsSidebar.UpMovesBack | manuals-sidebar.c:146-162 | Up at 0 propagates. From no selection it requests 0; otherwise it requests selected-1 and stops |
| ManualsSidebar.OtherKeysPropagate | manuals-sidebar.c:164-165 | any other key propagates without changing the selection |
| ManualsSidebar.KeysKeepSelectionInList | manuals-sidebar.c:119-167 | a selection inside the list, or none, stays inside the list or none after any key |
| ManualsSidebar.DownThenUp | manuals-sidebar.c:130-162 | Down then Up returns to the same item when it was not the last |
| ManualsSidebar.DownFromNothingSelectsFirst | manuals-sidebar.c:140-142 | Down with no selection selects the first result, because G_MAXUINT+1 wraps to 0 |
| ManualsSidebar.Activation | manuals-sidebar.c:80-87 | something is activated exactly for a valid position of an existing result that has an item, and it is that item |
| ManualsSidebar.InvalidActivatesNothing | manuals-sidebar.c:80-81 | GTK_INVALID_LIST_POSITION activates nothing |
| ManualsSidebar.NodeMatchesIff | manuals-sidebar.c:473-492 | two items match exactly when they are the same object, or have the same type and the same id |
| ManualsSidebar.NodeMatchesReflexiveSymmetric | manuals-sidebar.c:473-492 | matching is reflexive and symmetric |
| ManualsSidebar.FirstMatch | manuals-sidebar.c:524-541 | the scan returns the first child that matches, and nothing only when no child matches |
| ManualsSidebar.Reversed | manuals-sidebar.c:507-517 | prepending each element reverses the order |
| ManualsSidebar.ReversedSnoc | manuals-sidebar.c:507-517 | prepending one more element puts it first |
| ManualsSidebar.RevealChain | manuals-sidebar.c:507-521 | the chain without its first element has one entry per parent, runs root-first and ends at the revealed navigatable |
| ManualsSidebar.DescendStays | manuals-sidebar.c:519-545 | the descent stops when the chain is used up or no child matches |
| ManualsSidebar.DescendStep | manuals-sidebar.c:524-541 | the descent continues from the first matching child with the rest of the chain |
| ManualsSidebar.AncestorChain | manuals-sidebar.c:507-517 | the loop builds the chain root-first, and without its first element it is RevealChain |
| ManualsSidebar.Sidebar.constructor | manuals-sidebar.c:399-409 | a new sidebar has no root, repository, results or selection |
| ManualsSidebar.Sidebar.KeyPress | manuals-sidebar.c:107-167 | the stop result and new selection follow KeyPressed, and a changed selection activates its result |
| ManualsSidebar.Sidebar.SearchActivate | manuals-sidebar.c:170-183 | activates the selected result; no selection activates nothing |
| ManualsSidebar.Sidebar.SearchChanged | manuals-sidebar.c:199-248 | text that is blank after stripping clears the query, shows "browse" and hides the back button. Other text runs the stripped query, shows "search" and shows the back button |
| ManualsSidebar.Sidebar.ShowSearch | manuals-sidebar.c:211-247 | the two page switches on the stripped text |
| ManualsSidebar.Sidebar.SearchCompleted | manuals-sidebar.c:186-196 | the results are the query's, and the first is activated exactly when it exists and has an item |
| ManualsSidebar.Sidebar.Browse | manuals-sidebar.c:259-266 | clearing the text shows "browse" with no query and no back button |
| ManualsSidebar.Sidebar.SetRepository | manuals-sidebar.c:419-435 | the same repository changes nothing; a new one is stored and gets a new root holding it |
| ManualsSidebar.Sidebar.Reload | manuals-sidebar.c:583-593 | a new root node holding the current repository |
| ManualsSidebar.Sidebar.FocusSearch | manuals-sidebar.c:437-444 | the search entry has the focus |
| ManualsSidebar.Sidebar.SetEnabled | manuals-sidebar.c:595-602 | the sidebar's sensitivity is the argument |
| ManualsSidebar.Sidebar.Reveal | manuals-sidebar.c:562-581 | remembers what to reveal and whether to expand, clears the search to the browse page, and keeps the results |
| ManualsSidebar.Sidebar.FindNode | manuals-sidebar.c:519-545 | the loop's node is Descend from the root over the chain |
| ManualsSidebar.Sidebar.ScanChildren | manuals-sidebar.c:531-541 | the child found is the first child that matches, by FirstMatch, and none is found exactly when no child matches |
| ManualsSidebar.Sidebar.RevealFiber | manuals-sidebar.c:494-560 | with nothing to reveal nothing changes. Otherwise the browse page shows and, given a root, the node Descend reaches over RevealChain is selected, and expanded when asked |
| ManualsWindow.ChildName | manuals-window.c:92-97 | each stack child has a non-empty name, and the name is "empty" exactly for the empty child |
| ManualsWindow.ChildNameInjective | manuals-window.c:92-103 | two children have the same name exactly when they are the same child, so comparing the names with g_strcmp0 compares the children |
| ManualsWindow.ChooseChild | manuals-window.c:92-97 | "loading" exactly while an import runs, "tabs" exactly without one and with tabs, and "empty" otherwise |
| ManualsWindow.AfterClose | manuals-window.c:224-243 | after closing a page the tab view selects a neighbour inside the remaining pages, and none only when no page remains |
| ManualsWindow.Window.VisibleTab | manuals-window.c:587-601 | a visible tab exists exactly before dispose with at least one tab, and it is the selected one |
| ManualsWindow.Window.constructor | manuals-window.c:382-414 | the sidebar gets the repository and the search focus, and the stack shows "loading" or "empty". The dock is revealed when the stack changes into "empty" from the child the UI file left visible; otherwise it keeps the UI file's state |
| ManualsWindow.Window.UpdateStackChild | manuals-window.c:75-113 | the child is ChooseChild. The statusbar shows exactly with "tabs" and the sidebar is enabled exactly when not "loading"; only a change into "empty" reveals the dock and focuses search |
| ManualsWindow.Window.NotifyImportActive | manuals-window.c:355-364 | the import flag is stored and the stack decision follows it |
| ManualsWindow.Window.UpdateActions | manuals-window.c:135-155 | after dispose nothing changes. Back and forward follow the visible tab's history and are disabled without a visible tab |
| ManualsWindow.Window.AddTab | manuals-window.c:115-133 | the tab is appended, selected when nothing was, and the stack shows tabs unless loading |
| ManualsWindow.Window.SetVisibleTab | manuals-window.c:603-614 | one of the window's tabs becomes selected; anything else changes nothing |
| ManualsWindow.Window.TabNewAction | manuals-window.c:205-222 | without a visible tab nothing happens; otherwise its duplicate is added and shown |
| ManualsWindow.Window.TabCloseAction | manuals-window.c:224-243 | without a visible tab the window is destroyed; otherwise its page is closed and the neighbour selected |
| ManualsWindow.Window.SidebarFocusSearchAction | manuals-window.c:245-256 | the dock is revealed and the sidebar's search focused |
| ManualsWindow.Window.NewTabForUri | manuals-window.c:275-304 | a non-"file" URI is launched externally and gives no tab. A file URI gives a duplicate of the visible tab, or a new tab without one, showing the URI |
| ManualsWindow.Window.OpenUriInNewTab | manuals-window.c:306-321 | the tab made for a file URI is added; any other URI is only launched |
| ManualsWindow.Window.OpenUriInNewWindow | manuals-window.c:323-343 | the new window's tab is the one made for a file URI; any other URI is only launched |
| ManualsWindow.Window.InvalidateContents | manuals-window.c:345-353 | the sidebar reloads: a new root holding the repository |
| ManualsWindow.Window.Dispose | manuals-window.c:416-428 | after dispose there is no visible tab |
| ManualsWindow.Window.FocusVisibleTab | manuals-window.c:658 | the visible tab, if any, takes the focus |
| ManualsWindow.Window.ShowNavigatable | manuals-sidebar.c:95-103 | the navigatable is shown in the visible tab, or in a new visible tab when there is none or control is pressed |
| ManualsWindow.Window.ActivateSearchResult | manuals-sidebar.c:69-104 | a result with an item at a valid position is shown as ShowNavigatable does; otherwise nothing changes |
| ManualsWindow.Window.NavigateTo | manuals-window.c:638-666 | with a URI the visible tab, or a new one when control is pressed, shows the navigatable and takes the focus. With no tab and no control nothing changes. Without a URI the target is revealed, expanded, with the dock shown |
| Payload.NavigatableFor | manuals-tree-addin.c:225 | the navigatable made for a resource holds that resource |
| GLibStrings.StripEmptyIff | manuals-sidebar.c:209-211 | stripping leaves the empty string exactly for blank text |
| GLibStrings.FileSchemeIff | manuals-window.c:284 | the peeked scheme is "file" exactly for a URI starting with "file:" in any letter case |
| ManualsSdkReference.SdkReference.constructor | manuals-sdk-reference.c:187-190 | a new reference holds the given title, subtitle and installed flag, with no tags and no notifications |
| ManualsSdkReference.SdkReference.SetInstalled | manuals-sdk-reference.c:229-244 | installed becomes the argument normalised to a boolean, and "installed" is notified exactly when that changes it |
| ManualsSdkReference.SdkReference.SetTitle | manuals-sdk-reference.c:124-127 | the title is replaced, with a notification exactly when it differs |
| ManualsSdkReference.SdkReference.SetSubtitle | manuals-sdk-reference.c:129-132 | the subtitle is replaced, with a notification exactly when it differs |
| ManualsSdkReference.SdkReference.SetTags | manuals-sdk-reference.c:256-270 | the tags are replaced and "tags" is always notified |
| ManualsSdkReference.SdkReference.InstalledCallback | manuals-flatpak-reference.c:48-55 | a completed install marks the reference installed, notifying only if it was not, and passes the result through |
| ManualsSdkReference.SdkReference.Install | manuals-sdk-reference.c:48-56 | the base class rejects with NOT_SUPPORTED and changes nothing. A Flatpak install returns its outcome and is installed after a success; an error changes nothing |
| ManualsSdkReference.InstallTwiceNotifiesOnce | manuals-sdk-reference.c:236-242 | two successful installs leave the reference installed with at most one "installed" notification |
| ManualsSdkInstaller.Future.Pending | manuals-flatpak-installer.c:157 | a new future has not resolved |
| ManualsSdkInstaller.Future.Resolved | manuals-sdk-installer.c:49 | a future created resolved holds its value |
| ManualsSdkInstaller.RemoveFirst | manuals-sdk-installer.c:193-204 | removing drops one occurrence when there is one (as multisets) and changes nothing otherwise |
| ManualsSdkInstaller.Without | manuals-sdk-installer.c:155-157 | the list without any occurrence of the reference, keeping only elements of the original |
| ManualsSdkInstaller.WithoutAppend | manuals-sdk-installer.c:155-157 | filtering a reference out commutes with concatenation |
| ManualsSdkInstaller.RemoveFirstAt | manuals-sdk-installer.c:193-204 | removing deletes the element at the first equal index and keeps the rest in order |
| ManualsSdkInstaller.RemoveFirstKeepsOthers | manuals-sdk-installer.c:193-204 | removal keeps the other references in their relative order |
| ManualsSdkInstaller.MoveToEnd | manuals-sdk-installer.c:155-157 | remove-then-add keeps the length and the multiset, puts the reference last and keeps the others' order |
| ManualsSdkInstaller.MoveToEndIdempotent | manuals-sdk-installer.c:155-157 | moving a once-present reference to the end a second time changes nothing |
| ManualsSdkInstaller.SdkInstaller.constructor | manuals-sdk-installer.c:127-137 | a new installer has an empty list and no handlers |
| ManualsSdkInstaller.SdkInstaller.Add | manuals-sdk-installer.c:162-178 | the reference is appended and its notify handler connected |
| ManualsSdkInstaller.SdkInstaller.Remove | manuals-sdk-installer.c:180-205 | the first equal reference leaves the list (none when absent) and its handlers are disconnected |
| ManualsSdkInstaller.SdkInstaller.NotifyInstalled | manuals-sdk-installer.c:148-160 | a change of installed moves the reference to the end, with exactly one handler |
| ManualsSdkInstaller.SdkInstaller.NItems | manuals-sdk-installer.c:214-221 | the item count is the list's length |
| ManualsSdkInstaller.SdkInstaller.GetItem | manuals-sdk-installer.c:223-231 | an item exists exactly at positions below the count, and it is the list's element |
| ManualsSdkInstaller.SdkInstaller.Load | manuals-sdk-installer.c:139-145 | the virtual load: the base class (lines 46-50) resolves a fresh future to TRUE, and a Flatpak installer returns the future it made at construction |
| ManualsFlatpakReference.Title | manuals-flatpak-reference.c:195-212 | every title ends with a space and the branch |
| ManualsFlatpakReference.Subtitle | manuals-flatpak-reference.c:177-200 | only org.gnome.Sdk.Docs has a subtitle |
| ManualsFlatpakReference.NewFlatpakReference | manuals-flatpak-reference.c:172-221 | the new reference has the derived title and subtitle, and is installed exactly when the installation has that runtime |
| ManualsFlatpakReference.GnomeTitleNamesGnome | manuals-flatpak-reference.c:195-200 | the GNOME SDK's title contains "GNOME", so the dialog lists it first |
| ManualsFlatpakReference.WellKnownTitles | manuals-flatpak-reference.c:195-212 | GNOME, FreeDesktop and KDE names give those prefixes; any other name gives "<name> " |
| ManualsFlatpakReference.FallbackTitleInjective | manuals-flatpak-reference.c:209-212 | two other names of one branch give the same title only when the names are equal |
| ManualsFlatpakInstaller.Survivors | manuals-flatpak-installer.c:94-118 | the filtered refs are input refs that end in ".Docs", are not org.kde. and have the default arch |
| ManualsFlatpakInstaller.SurvivorsIff | manuals-flatpak-installer.c:100-111 | a ref survives exactly when it is in the input and passes all three tests |
| ManualsFlatpakInstaller.NoKdeSurvivor | manuals-flatpak-installer.c:106-107 | org.kde.Sdk.Docs never survives the filter |
| ManualsFlatpakInstaller.TagsFor | manuals-flatpak-installer.c:89-92 | a user installation tags its references ["User"], any other ["System"] |
| ManualsFlatpakInstaller.Added | manuals-flatpak-installer.c:86-118 | a listing error adds nothing; otherwise one reference per survivor, in order, of that installation |
| ManualsFlatpakInstaller.MonitorOutcome | manuals-flatpak-installer.c:86-120 | the monitor fails exactly when listing the refs fails |
| ManualsFlatpakInstaller.CreatedAllAppend | manuals-flatpak-installer.c:137-140 | references made for two runs of listings concatenate |
| ManualsFlatpakInstaller.NewFlatpakInstaller | manuals-flatpak-installer.c:149-163 | a new installer titled "Flatpak" with an empty list and a pending load future |
| ManualsFlatpakInstaller.AddReference | manuals-flatpak-installer.c:113-117 | a new reference with the installation's tag is appended |
| ManualsFlatpakInstaller.Monitor | manuals-flatpak-installer.c:74-121 | the outcome is MonitorOutcome. New references for exactly the survivors, in order, are appended, and an error adds nothing |
| ManualsFlatpakInstaller.AddKept | manuals-flatpak-installer.c:94-118 | the loop appends one new tagged reference per survivor, in order |
| ManualsFlatpakInstaller.KeepNext | manuals-flatpak-installer.c:96-117 | one ref of the loop: the references made so far stay in place and match the survivors of the refs seen so far, one new one is appended exactly when the filter keeps the ref |
| ManualsFlatpakInstaller.MonitorAll | manuals-flatpak-installer.c:134-140 | one monitor per installation, in order, each with its outcome; the references appended are those of all of them |
| ManualsFlatpakInstaller.MonitorNext | manuals-flatpak-installer.c:137-140 | one monitor for the next installation: its outcome is MonitorOutcome and its references extend the earlier ones, matching the pairs added by the installations so far |
| ManualsFlatpakInstaller.LoadFiber | manuals-flatpak-installer.c:124-146 | a failure to list installations rejects the load future and adds nothing. Otherwise one monitor runs per installation, awaited only if there is one, and the load future resolves TRUE |
| ManualsSdkDialog.RefSorter | manuals-sdk-dialog.c:168-186 | a GNOME title sorts first, a non-GNOME one after, and two titles on the same side compare as strings |
| ManualsSdkDialog.RefSorterAntisymmetric | manuals-sdk-dialog.c:168-186 | swapping the titles negates the result, which is 0 exactly for equal titles |
| ManualsSdkDialog.RefSorterTransitive | manuals-sdk-dialog.c:168-186 | the comparator is transitive, so the sorted model gets a total order |
| ManualsSdkDialog.GroupVisible | manuals-sdk-dialog.c:189-221 | a group is visible exactly when its model has items |
| ManualsSdkDialog.StackPage | manuals-sdk-dialog.c:325-329 | "list" exactly when some reference is available or installed, "empty" otherwise |
| ManualsSdkDialog.CreateSdkRow | manuals-sdk-dialog.c:104-166 | the row has the reference's title and subtitle and one tag suffix per tag, in order. An Install button, which also makes the row activatable, appears exactly when the reference is not installed |
| ManualsSdkDialog.LoadAll | manuals-sdk-dialog.c:349-357 | one load per installer, in installer order |
| ManualsSdkDialog.SdkDialog.constructor | manuals-sdk-dialog.c:256-299 | no installers and both groups hidden |
| ManualsSdkDialog.SdkDialog.AddInstaller | manuals-sdk-dialog.c:307-315 | the installer is appended |
| ManualsSdkDialog.SdkDialog.InstalledItemsChanged | manuals-sdk-dialog.c:189-204 | the installed group is visible exactly when it has items |
| ManualsSdkDialog.SdkDialog.AvailableItemsChanged | manuals-sdk-dialog.c:206-221 | the available group is visible exactly when it has items |
| ManualsSdkDialog.SdkDialog.Present | manuals-sdk-dialog.c:335-367 | with at least one installer, starts one load per installer in order and shows the dialog |
| ManualsSdkDialog.SdkDialog.PresentCallback | manuals-sdk-dialog.c:317-333 | the stack shows StackPage of the two counts |
| ManualsInstallButton.Cancellable.constructor | manuals-install-button.c:98-99 | a new cancellable is not cancelled |
| ManualsInstallButton.Percentage | manuals-install-button.c:72-73 | the fraction times 100, clamped to 0..100 and truncated |
| ManualsInstallButton.ProgressCss | manuals-install-button.c:75-80 | every CSS string sets the progress background size |
| ManualsInstallButton.ProgressCssUniform | manuals-install-button.c:75-80 | every percentage but 0, 100 included, is written "<p>%" |
| ManualsInstallButton.ProgressCssInjective | manuals-install-button.c:75-80 | distinct percentages give distinct CSS |
| ManualsInstallButton.InstallButton.constructor | manuals-install-button.c:255-265 | a new button shows the install page with nothing running |
| ManualsInstallButton.InstallButton.RealInstall | manuals-install-button.c:126-136 | the default install handler shows the cancel page |
| ManualsInstallButton.InstallButton.RealCancel | manuals-install-button.c:138-153 | the running install is cancelled, both references are cleared and the install page shows |
| ManualsInstallButton.InstallButton.ProgressChanged | manuals-install-button.c:61-91 | the CSS follows the percentage. Completion clears both references and shows the install page; otherwise they stay |
| ManualsInstallButton.InstallButton.InstallClicked | manuals-install-button.c:93-115 | fresh cancellable and progress replace the old ones and are passed to "install". The cancel page shows at 0% and the button stays consistent |
| ManualsInstallButton.InstallButton.CancelClicked | manuals-install-button.c:117-124 | emits "cancel": the install is cancelled and the install page shows |
| ManualsInstallButton.InstallButton.Cancel | manuals-install-button.c:285-294 | after dispose, or on the install page, nothing changes; on the cancel page the install is cancelled |
| ManualsInstallButton.InstallButton.Dispose | manuals-install-button.c:155-170 | disposed, with both references cleared |
| ManualsVersionMacros.Encode | manuals-version-macros.h:42 | G_ENCODE_VERSION is negative exactly for a negative minor |
| ManualsVersionMacros.EncodeMonotonic | manuals-version-macros.h:42-58 | encoding keeps the order of versions |
| ManualsVersionMacros.CurStable | manuals-version-macros.h:44-50 | the current stable minor is even. At 99 it is the next major's 0; otherwise it is the minor rounded up to even |
| ManualsVersionMacros.PrevStable | manuals-version-macros.h:52-58 | at 99 the next major's 0; otherwise an even minor one or two below |
| ManualsVersionMacros.PrevStableAtMinorZero | manuals-version-macros.h:56-57 | at minor 0 the previous stable version encodes to -512 |
| ManualsVersionMacros.MinRequired | manuals-version-macros.h:75-77 | defaults to the current stable version |
| ManualsVersionMacros.MaxAllowed | manuals-version-macros.h:94-100 | defaults to the minimum when that is newer than the previous stable version, else the current stable version |
| ManualsVersionMacros.DefaultsAgree | manuals-version-macros.h:75-100 | with neither macro overridden, MAX == MIN == CUR_STABLE |
| ManualsVersionMacros.DefaultsRejectedIff | manuals-version-macros.h:102-107 | with the defaults the upper check never fires, and the lower one fires exactly for 0.x other than 0.99 |
| ManualsVersionMacros.OneZeroAccepted | manuals-version-macros.h:102-107 | MIN = 1.0 with the default MAX passes both checks for a 1.x release |

## Left out

- Asynchronous machinery (libdex futures, fibers, `dex_await`, cancellation of futures) is not modelled. Each awaited result is a parameter, and a future is an object holding an optional outcome.
- `ide_tree_node_set_parent`, `insert_sorted`, `get_root`, `get_title`-style getters, and the GIcon setters are left out. Only the icon-name setters are modelled. `get_root` needs an acyclicity invariant the arena does not keep.
- IdeTreeNode.Arena.Traverse: only the pre-order walk over all nodes is modelled. The GTraverseType/GTraverseFlags variants are not. The header gives no meaning to a `max_depth` of zero or less. The model reads it as "no limit", after GLib's g_node_traverse, where -1 visits every node; treating every value of zero or less the same way is a modelling choice. The implementation file ide-tree-node.c is not part of this model. The unlimited walk is bounded by the arena's size, a modelling choice that visits the same nodes as the source only when the nodes below `self` form a tree. The arena keeps no acyclicity invariant: InsertBefore's guard lets a root be linked under one of its own descendants. On such an arena the source's walk does not end, while the model stops at that depth.
- The IdeTree widget, node expansion (`expand_node`) and the tree's selection are not modelled. The sidebar records the node it selects and expands.
- manuals-tab.c is not part of this model. A tab is a value with a navigatable and back/forward flags. Navigation history, `manuals_tab_duplicate` beyond copying that value, and the new window's own state are left out.
- ManualsWindow.Window.NavigateTo: with a URI, no visible tab and no control pressed, the source dereferences a NULL tab. The model leaves the window unchanged there.
- ManualsSidebar.NodeMatches: a node without an item matches only another node without an item; the source would pass NULL to G_OBJECT_TYPE.
- ManualsSidebar.Sidebar.SearchChanged: the search query itself (ManualsSearchQuery) and its results model are not modelled. Results arrive through SearchCompleted.
- The GLib notify signal wiring is left out. ManualsSdkInstaller.SdkInstaller.NotifyInstalled models the handler's body, and `handlers` counts connected handlers per reference.
- ManualsSdkReference.SdkReference.SetTags: the copy of the string vector, and the source's leak of the previous copy, are not modelled.
- The dialog's `install_cb`/`cancel_cb`, its filter models' predicates and the sort model are not modelled. Item counts are inputs, and RefSorter is proved to be an order.
- ManualsSdkDialog.RefSorter: a NULL title (g_strcmp0's NULL case) is not modelled; titles are strings.
- ManualsSdkDialog.SdkDialog.PresentCallback: the guint sum of the two counts is taken as unbounded. It cannot wrap for list sizes that fit in memory.
- ManualsSdkDialog.SdkDialog.constructor: the stack's initial page comes from the UI file and is not modelled.
- ManualsWindow.Window.constructor: the stack's initial child and the dock's initial state come from the UI file, which is not part of this model. They are parameters of the constructor, so the contract states the dock's state relative to them rather than a fixed value.
- The installer's `title` property setter and the Flatpak installer's dispose are not modelled. The title is fixed at construction.
- ManualsInstallButton.Percentage: the fraction is a real number, so NaN and infinities are not modelled.
- ManualsInstallButton.InstallButton.InstallClicked: the progress's own fraction starts at 0, which is passed to ProgressChanged. Later progress notifications are calls to ProgressChanged.
- The install button's label property, its template and GTK widget state are not modelled.
- manuals-application.c is not part of this model: lifecycle, import fan-out, the import-or-timeout race, keyboard-modifier queries and the about dialog. Whether control is pressed is a parameter.
- The Flatpak library calls (`list_refs_by_kind`, installed-ref lookup, installs) are not modelled. Their results are the installation listings and the outcome parameter.
