/**
 * ManualsFlatpakInstaller: the SDK installer that offers the
 * documentation runtimes of every Flatpak installation. At construction
 * it spawns a loading fiber; the fiber lists each installation's runtime
 * refs, keeps the documentation runtimes for this machine's architecture
 * (except KDE's) and adds one reference per kept ref, tagged with the
 * kind of installation it came from. The fiber's listings are inputs here.
 */
module ManualsFlatpakInstaller {
  import opened Wrappers
  import opened GLibStrings
  import opened ManualsSdkReference
  import opened ManualsSdkInstaller
  import opened ManualsFlatpakReference

  /** One installation together with the outcome of listing its runtime refs. */
  datatype InstallationListing = InstallationListing(installation: Installation, runtimes: Result<seq<FlatpakRef>, Error>)

  /** The monitor loop's filter: a ".Docs" runtime, not KDE's, built for the default arch. */
  predicate Kept(ref: FlatpakRef, defaultArch: string)
  {
    HasSuffix(ref.name, ".Docs") && !HasPrefix(ref.name, "org.kde.") && ref.arch == defaultArch
  }

  /** The refs the filter keeps, in listing order. */
  function Survivors(refs: seq<FlatpakRef>, defaultArch: string): (r: seq<FlatpakRef>)
    ensures |r| <= |refs|
    ensures forall i :: 0 <= i < |r| ==> Kept(r[i], defaultArch) && r[i] in refs
  {
    if refs == [] then []
    else
      var last := refs[|refs| - 1];
      Survivors(refs[..|refs| - 1], defaultArch) + (if Kept(last, defaultArch) then [last] else [])
  }

  /** A ref survives exactly when it is listed and passes the filter. */
  lemma {:induction false} SurvivorsIff(refs: seq<FlatpakRef>, defaultArch: string, ref: FlatpakRef)
    ensures ref in Survivors(refs, defaultArch) <==> ref in refs && Kept(ref, defaultArch)
  {
    if refs != [] {
      var init := refs[..|refs| - 1];
      assert refs == init + [refs[|refs| - 1]];
      SurvivorsIff(init, defaultArch, ref);
    }
  }

  /** No KDE documentation runtime is ever offered, so the KDE title branch is never reached from here. */
  lemma NoKdeSurvivor(refs: seq<FlatpakRef>, defaultArch: string, ref: FlatpakRef)
    requires ref in Survivors(refs, defaultArch)
    ensures ref.name != KDE_DOCS
  {
    SurvivorsIff(refs, defaultArch, ref);
    assert KDE_DOCS[..|"org.kde."|] == "org.kde.";
  }

  /** The tag vector the monitor gives every reference of one installation. */
  function TagsFor(installation: Installation): (tags: seq<string>)
    ensures |tags| == 1
    ensures tags[0] == (if installation.isUser then "User" else "System")
  {
    if installation.isUser then ["User"] else ["System"]
  }

  /** The (installation, ref) pairs one listing adds, in order. */
  function Added(listing: InstallationListing, defaultArch: string): (r: seq<(Installation, FlatpakRef)>)
    ensures listing.runtimes.Err? ==> r == []
    ensures listing.runtimes.Ok? ==> |r| == |Survivors(listing.runtimes.value, defaultArch)|
    ensures forall j :: 0 <= j < |r| ==>
      r[j] == (listing.installation, Survivors(listing.runtimes.value, defaultArch)[j])
  {
    match listing.runtimes
    case Err(_) => []
    case Ok(refs) =>
      var kept := Survivors(refs, defaultArch);
      seq(|kept|, j requires 0 <= j < |kept| => (listing.installation, kept[j]))
  }

  /** The pairs a whole run of the loading fiber adds, installation after installation. */
  function AddedAll(listings: seq<InstallationListing>, defaultArch: string): (r: seq<(Installation, FlatpakRef)>)
  {
    if listings == [] then []
    else AddedAll(listings[..|listings| - 1], defaultArch) + Added(listings[|listings| - 1], defaultArch)
  }

  /** What the monitor's future for one listing resolves to. */
  function MonitorOutcome(listing: InstallationListing): (r: Result<bool, Error>)
    ensures r.Err? <==> listing.runtimes.Err?
  {
    if listing.runtimes.Err? then Err(listing.runtimes.error) else Ok(true)
  }

  /** A reference as the monitor leaves it for one kept ref of one installation. */
  predicate Created(r: SdkReference, pair: (Installation, FlatpakRef))
    reads r
  {
    r.kind == Flatpak(pair.0, pair.1)
    && r.title == Some(Title(pair.1)) && r.subtitle == Subtitle(pair.1)
    && (r.installed <==> InstalledIn(pair.0, pair.1))
    && r.tags == Some(TagsFor(pair.0))
    && r.notifications == [TagsProp]
  }

  /** The references `rs` were created, one for each pair, in the same order. */
  predicate CreatedAll(rs: seq<SdkReference>, pairs: seq<(Installation, FlatpakRef)>)
    reads set j | 0 <= j < |rs| :: rs[j]
  {
    |rs| == |pairs| && forall j :: 0 <= j < |rs| ==> Created(rs[j], pairs[j])
  }

  lemma CreatedAllAppend(a: seq<SdkReference>, p: seq<(Installation, FlatpakRef)>, b: seq<SdkReference>, q: seq<(Installation, FlatpakRef)>)
    requires CreatedAll(a, p) && CreatedAll(b, q)
    ensures CreatedAll(a + b, p + q)
  {
    forall j | 0 <= j < |a + b|
      ensures Created((a + b)[j], (p + q)[j])
    {
      if j >= |a| {
        assert (a + b)[j] == b[j - |a|] && (p + q)[j] == q[j - |a|];
      }
    }
  }

  /** manuals_flatpak_installer_new: a base installer titled "Flatpak" whose load future is pending. */
  method NewFlatpakInstaller() returns (installer: SdkInstaller)
    ensures fresh(installer) && installer.loadFuture != null && fresh(installer.loadFuture)
    ensures installer.title == "Flatpak" && installer.loadFuture.outcome == None
    ensures installer.refs == [] && installer.handlers == multiset{}
  {
    var load := new Future.Pending();
    installer := new SdkInstaller("Flatpak", load);
  }

  /** One kept ref: create its reference, tag it and add it to the installer. */
  method AddReference(installer: SdkInstaller, installation: Installation, ref: FlatpakRef) returns (reference: SdkReference)
    modifies installer`refs, installer`handlers
    ensures fresh(reference) && Created(reference, (installation, ref))
    ensures installer.refs == old(installer.refs) + [reference]
    ensures installer.handlers == old(installer.handlers) + multiset{reference}
  {
    reference := NewFlatpakReference(installation, ref);
    reference.SetTags(Some(TagsFor(installation)));
    installer.Add(reference);
  }

  /**
   * manuals_flatpak_installer_monitor with the listing of the
   * installation's runtime refs given. A listing error is returned and
   * nothing is added; otherwise every kept ref is added once, in order,
   * as a new reference, and the future resolves to TRUE.
   */
  method Monitor(installer: SdkInstaller, listing: InstallationListing, defaultArch: string)
      returns (r: Result<bool, Error>)
    modifies installer`refs, installer`handlers
    ensures r == MonitorOutcome(listing)
    ensures |installer.refs| >= |old(installer.refs)|
    ensures installer.refs == old(installer.refs) + installer.refs[|old(installer.refs)|..]
    ensures CreatedAll(installer.refs[|old(installer.refs)|..], Added(listing, defaultArch))
    ensures forall j :: |old(installer.refs)| <= j < |installer.refs| ==> fresh(installer.refs[j])
    ensures listing.runtimes.Err? ==> installer.refs == old(installer.refs) && installer.handlers == old(installer.handlers)
  {
    if listing.runtimes.Err? {
      assert installer.refs[|installer.refs|..] == [];
      return Err(listing.runtimes.error);
    }
    AddKept(installer, listing.installation, listing.runtimes.value, defaultArch);
    r := Ok(true);
  }

  /** The filter loop of the monitor over a successful listing. */
  method AddKept(installer: SdkInstaller, installation: Installation, refs: seq<FlatpakRef>, defaultArch: string)
    modifies installer`refs, installer`handlers
    ensures |installer.refs| >= |old(installer.refs)|
    ensures installer.refs == old(installer.refs) + installer.refs[|old(installer.refs)|..]
    ensures CreatedAll(installer.refs[|old(installer.refs)|..], Added(InstallationListing(installation, Ok(refs)), defaultArch))
    ensures forall j :: |old(installer.refs)| <= j < |installer.refs| ==> fresh(installer.refs[j])
  {
    ghost var start := installer.refs;
    ghost var created: seq<SdkReference> := [];
    ghost var kept: seq<FlatpakRef> := [];
    var i := 0;
    while i < |refs|
      invariant 0 <= i <= |refs|
      invariant kept == Survivors(refs[..i], defaultArch)
      invariant installer.refs == start + created && |created| == |kept|
      invariant forall j :: 0 <= j < |created| ==> fresh(created[j]) && Created(created[j], (installation, kept[j]))
    {
      ghost var earlier, earlierKept := created, kept;
      created, kept := KeepNext(installer, installation, refs, i, defaultArch, start, created, kept);
      forall j | 0 <= j < |created|
        ensures fresh(created[j]) && Created(created[j], (installation, kept[j]))
      {
        if j < |earlier| {
          assert created[j] == earlier[j] && kept[j] == earlierKept[j];
        }
      }
      i := i + 1;
    }
    assert refs[..i] == refs;
    assert installer.refs[|start|..] == created;
  }

  /** One iteration of the filter loop: the i-th ref is added when the filter keeps it. */
  method KeepNext(installer: SdkInstaller, installation: Installation, refs: seq<FlatpakRef>, i: nat, defaultArch: string,
                  ghost start: seq<SdkReference>, ghost created: seq<SdkReference>, ghost kept: seq<FlatpakRef>)
      returns (ghost created2: seq<SdkReference>, ghost kept2: seq<FlatpakRef>)
    requires i < |refs|
    requires kept == Survivors(refs[..i], defaultArch)
    requires installer.refs == start + created && |created| == |kept|
    modifies installer`refs, installer`handlers
    ensures kept2 == Survivors(refs[..i + 1], defaultArch)
    ensures installer.refs == start + created2 && |created2| == |kept2|
    ensures |created2| >= |created| && created2[..|created|] == created && kept2[..|kept|] == kept
    ensures forall j :: |created| <= j < |created2| ==> fresh(created2[j]) && Created(created2[j], (installation, kept2[j]))
  {
    var ref := refs[i];
    assert refs[..i + 1][..i] == refs[..i];
    assert refs[..i + 1][i] == ref;
    created2, kept2 := created, kept;
    if Kept(ref, defaultArch) {
      var reference := AddReference(installer, installation, ref);
      created2 := created + [reference];
      kept2 := kept + [ref];
      assert created2[..|created|] == created && kept2[..|kept|] == kept;
    }
  }

  /** A list that grew from `start + created` is `start` followed by `created` and the new elements. */
  lemma Extended<T>(start: seq<T>, created: seq<T>, before: seq<T>, after: seq<T>)
    requires before == start + created
    requires |after| >= |before| && after == before + after[|before|..]
    ensures after == start + (created + after[|before|..])
    ensures (created + after[|before|..])[..|created|] == created
  {
    assert (start + created) + after[|before|..] == start + (created + after[|before|..]);
  }

  /**
   * One iteration of the loading fiber's loop: the monitor of the i-th
   * installation, whose references extend those made for the earlier ones.
   */
  method MonitorNext(installer: SdkInstaller, listings: seq<InstallationListing>, i: nat, defaultArch: string,
                     ghost start: seq<SdkReference>, ghost created: seq<SdkReference>)
      returns (r: Result<bool, Error>, ghost created2: seq<SdkReference>)
    requires i < |listings|
    requires installer.refs == start + created
    requires CreatedAll(created, AddedAll(listings[..i], defaultArch))
    modifies installer`refs, installer`handlers
    ensures r == MonitorOutcome(listings[i])
    ensures installer.refs == start + created2
    ensures CreatedAll(created2, AddedAll(listings[..i + 1], defaultArch))
    ensures |created2| >= |created| && created2[..|created|] == created
    ensures forall j :: |created| <= j < |created2| ==> fresh(created2[j])
  {
    ghost var pairs := AddedAll(listings[..i], defaultArch);
    ghost var added := Added(listings[i], defaultArch);
    assert AddedAll(listings[..i + 1], defaultArch) == pairs + added by {
      assert listings[..i + 1][..i] == listings[..i];
    }
    ghost var before := installer.refs;
    r := Monitor(installer, listings[i], defaultArch);
    ghost var more := installer.refs[|before|..];
    CreatedAllAppend(created, pairs, more, added);
    Extended(start, created, before, installer.refs);
    created2 := created + more;
  }

  /**
   * The loop of the loading fiber: one monitor per installation, in order,
   * collecting what each monitor's future resolves to.
   */
  method MonitorAll(installer: SdkInstaller, listings: seq<InstallationListing>, defaultArch: string)
      returns (futures: seq<Result<bool, Error>>)
    modifies installer`refs, installer`handlers
    ensures |futures| == |listings|
    ensures forall i :: 0 <= i < |listings| ==> futures[i] == MonitorOutcome(listings[i])
    ensures |installer.refs| >= |old(installer.refs)|
    ensures installer.refs == old(installer.refs) + installer.refs[|old(installer.refs)|..]
    ensures CreatedAll(installer.refs[|old(installer.refs)|..], AddedAll(listings, defaultArch))
    ensures forall j :: |old(installer.refs)| <= j < |installer.refs| ==> fresh(installer.refs[j])
  {
    ghost var start := installer.refs;
    ghost var created: seq<SdkReference> := [];
    futures := [];
    var i := 0;
    while i < |listings|
      invariant 0 <= i <= |listings|
      invariant |futures| == i && forall k :: 0 <= k < i ==> futures[k] == MonitorOutcome(listings[k])
      invariant installer.refs == start + created
      invariant CreatedAll(created, AddedAll(listings[..i], defaultArch))
      invariant forall j :: 0 <= j < |created| ==> fresh(created[j])
    {
      ghost var earlier := created;
      var r;
      r, created := MonitorNext(installer, listings, i, defaultArch, start, created);
      forall j | 0 <= j < |created|
        ensures fresh(created[j])
      {
        if j < |earlier| {
          assert created[j] == earlier[j];
        }
      }
      futures := futures + [r];
      i := i + 1;
    }
    assert listings[..i] == listings;
    assert installer.refs[|start|..] == created;
  }

  /**
   * The loading fiber spawned by manuals_flatpak_installer_new, with the
   * listing of the installations given. It resolves the installer's load
   * future: to the error when the installations cannot be listed, and to
   * TRUE otherwise, after running one monitor per installation and
   * awaiting them all only when there is at least one (their errors are
   * ignored).
   */
  method LoadFiber(installer: SdkInstaller, installations: Result<seq<InstallationListing>, Error>, defaultArch: string)
      returns (futures: seq<Result<bool, Error>>, awaited: bool)
    requires installer.loadFuture != null
    modifies installer`refs, installer`handlers, installer.loadFuture
    ensures installations.Err? ==>
      installer.loadFuture.outcome == Some(Err(installations.error))
      && installer.refs == old(installer.refs) && futures == [] && !awaited
    ensures installations.Ok? ==>
      installer.loadFuture.outcome == Some(Ok(true))
      && |futures| == |installations.value| && awaited == (|futures| > 0)
      && (forall i :: 0 <= i < |futures| ==> futures[i] == MonitorOutcome(installations.value[i]))
    ensures installations.Ok? ==>
      |installer.refs| >= |old(installer.refs)|
      && installer.refs == old(installer.refs) + installer.refs[|old(installer.refs)|..]
      && CreatedAll(installer.refs[|old(installer.refs)|..], AddedAll(installations.value, defaultArch))
      && forall j :: |old(installer.refs)| <= j < |installer.refs| ==> fresh(installer.refs[j])
  {
    if installations.Err? {
      installer.loadFuture.outcome := Some(Err(installations.error));
      return [], false;
    }
    futures := MonitorAll(installer, installations.value, defaultArch);
    awaited := |futures| > 0;
    installer.loadFuture.outcome := Some(Ok(true));
  }
}
