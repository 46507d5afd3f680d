/**
 * ManualsSdkDialog: the dialog that lists the SDK references of every
 * installer, GNOME first, split into an installed and an available group.
 * The two filtered models are defined in the dialog's UI file; their item
 * counts are inputs here.
 */
module ManualsSdkDialog {
  import opened Wrappers
  import opened GLibStrings
  import opened ManualsSdkReference
  import opened ManualsSdkInstaller

  /** Whether a title mentions GNOME, as strstr (title, "GNOME") != NULL. */
  predicate IsGnome(title: string)
  {
    Contains(title, "GNOME")
  }

  /**
   * ref_sorter on the two references' titles: a GNOME title sorts before
   * any other, and titles on the same side compare as g_strcmp0 does.
   */
  function RefSorter(titleA: string, titleB: string): (r: int)
    ensures -1 <= r <= 1
    ensures IsGnome(titleA) && !IsGnome(titleB) ==> r == -1
    ensures !IsGnome(titleA) && IsGnome(titleB) ==> r == 1
    ensures IsGnome(titleA) == IsGnome(titleB) ==> r == StrCmp(titleA, titleB)
  {
    if IsGnome(titleA) && !IsGnome(titleB) then -1
    else if !IsGnome(titleA) && IsGnome(titleB) then 1
    else StrCmp(titleA, titleB)
  }

  /** The comparator is antisymmetric and only equal titles compare equal. */
  lemma RefSorterAntisymmetric(a: string, b: string)
    ensures RefSorter(b, a) == -RefSorter(a, b)
    ensures RefSorter(a, b) == 0 <==> a == b
  {
    StrCmpAntisymmetric(a, b);
  }

  /** The comparator is transitive, so it is a total order the sorted model can use. */
  lemma RefSorterTransitive(a: string, b: string, c: string)
    requires RefSorter(a, b) < 0 && RefSorter(b, c) < 0
    ensures RefSorter(a, c) < 0
  {
    if IsGnome(a) == IsGnome(b) && IsGnome(b) == IsGnome(c) {
      StrCmpTransitive(a, b, c);
    }
  }

  /** items_changed_cb of either group: the group shows exactly when its model has items. */
  function GroupVisible(nItems: nat): (visible: bool)
    ensures visible <==> nItems > 0
  {
    nItems != 0
  }

  /** present_cb: the stack child once every installer has loaded. */
  function StackPage(nAvailable: nat, nInstalled: nat): (page: string)
    ensures page == "list" || page == "empty"
    ensures page == "list" <==> nAvailable + nInstalled > 0
  {
    if nAvailable + nInstalled != 0 then "list" else "empty"
  }

  /** A suffix widget of a reference's row. */
  datatype Suffix = TagSuffix(value: string) | InstallButtonSuffix

  /** The action row create_sdk_row builds for one reference. */
  datatype Row = Row(title: Option<string>, subtitle: Option<string>, suffixes: seq<Suffix>, activatable: bool)

  /** The tags of a reference as a list; a NULL vector has none. */
  function TagList(tags: Option<seq<string>>): seq<string>
  {
    if tags.Some? then tags.value else []
  }

  /**
   * create_sdk_row: one tag suffix per tag, in order, then an Install
   * button, which also activates the row, only when the reference is not
   * installed.
   */
  method CreateSdkRow(reference: SdkReference) returns (row: Row)
    ensures row.title == reference.title && row.subtitle == reference.subtitle
    ensures |row.suffixes| == |TagList(reference.tags)| + (if reference.installed then 0 else 1)
    ensures forall i :: 0 <= i < |TagList(reference.tags)| ==> row.suffixes[i] == TagSuffix(TagList(reference.tags)[i])
    ensures InstallButtonSuffix in row.suffixes <==> !reference.installed
    ensures row.activatable <==> !reference.installed
  {
    var suffixes: seq<Suffix> := [];
    if reference.tags.Some? {
      var tags := reference.tags.value;
      var i := 0;
      while i < |tags|
        invariant 0 <= i <= |tags|
        invariant |suffixes| == i
        invariant forall k :: 0 <= k < i ==> suffixes[k] == TagSuffix(tags[k])
      {
        suffixes := suffixes + [TagSuffix(tags[i])];
        i := i + 1;
      }
    }
    var activatable := false;
    if !reference.installed {
      suffixes := suffixes + [InstallButtonSuffix];
      activatable := true;
    }
    row := Row(reference.title, reference.subtitle, suffixes, activatable);
  }

  /**
   * The loop of present: one load per installer, in installer order. A
   * base installer's future is new and already resolved to TRUE; any
   * other installer's is its own load future.
   */
  method LoadAll(installers: seq<SdkInstaller>) returns (futures: seq<Future>)
    ensures |futures| == |installers|
    ensures forall i :: 0 <= i < |installers| && installers[i].loadFuture != null ==> futures[i] == installers[i].loadFuture
    ensures forall i :: 0 <= i < |installers| && installers[i].loadFuture == null ==>
      fresh(futures[i]) && futures[i].outcome == Some(Ok(true))
  {
    futures := [];
    var i := 0;
    while i < |installers|
      invariant 0 <= i <= |installers| && |futures| == i
      invariant forall k :: 0 <= k < i && installers[k].loadFuture != null ==> futures[k] == installers[k].loadFuture
      invariant forall k :: 0 <= k < i && installers[k].loadFuture == null ==>
        fresh(futures[k]) && futures[k].outcome == Some(Ok(true))
    {
      var f := installers[i].Load();
      futures := futures + [f];
      i := i + 1;
    }
  }

  class SdkDialog {
    var installers: seq<SdkInstaller>
    var installedGroupVisible: bool
    var availableGroupVisible: bool
    /** The visible child of the stack; the UI file's initial choice is not modelled. */
    var page: Option<string>
    var presented: bool

    /** manuals_sdk_dialog_init: no installers yet, so both groups start hidden. */
    constructor()
      ensures installers == [] && !installedGroupVisible && !availableGroupVisible
      ensures page == None && !presented
    {
      installers := [];
      installedGroupVisible := GroupVisible(0);
      availableGroupVisible := GroupVisible(0);
      page := None;
      presented := false;
    }

    /** add_installer appends to the installers store. */
    method AddInstaller(installer: SdkInstaller)
      modifies this`installers
      ensures installers == old(installers) + [installer]
    {
      installers := installers + [installer];
    }

    /** installed_items_changed_cb with the installed model's item count. */
    method InstalledItemsChanged(nItems: nat)
      modifies this`installedGroupVisible
      ensures installedGroupVisible <==> nItems > 0
    {
      installedGroupVisible := GroupVisible(nItems);
    }

    /** available_items_changed_cb with the available model's item count. */
    method AvailableItemsChanged(nItems: nat)
      modifies this`availableGroupVisible
      ensures availableGroupVisible <==> nItems > 0
    {
      availableGroupVisible := GroupVisible(nItems);
    }

    /**
     * present: asserts that there is an installer, starts one load per
     * installer and shows the dialog; `futures` are the loads present_cb
     * waits for.
     */
    method Present() returns (futures: seq<Future>)
      requires |installers| > 0
      modifies this`presented
      ensures presented
      ensures |futures| == |installers|
      ensures forall i :: 0 <= i < |installers| && installers[i].loadFuture != null ==> futures[i] == installers[i].loadFuture
      ensures forall i :: 0 <= i < |installers| && installers[i].loadFuture == null ==>
        fresh(futures[i]) && futures[i].outcome == Some(Ok(true))
    {
      futures := LoadAll(installers);
      presented := true;
    }

    /** present_cb with the item counts of the available and installed models. */
    method PresentCallback(nAvailable: nat, nInstalled: nat)
      modifies this`page
      ensures page == Some(StackPage(nAvailable, nInstalled))
    {
      page := Some(StackPage(nAvailable, nInstalled));
    }
  }
}
