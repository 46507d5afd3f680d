/**
 * ManualsFlatpakReference: an SDK reference backed by a Flatpak runtime
 * ref in one installation. Its title and subtitle are derived from the
 * runtime's name and branch, and it starts out installed exactly when the
 * installation already has that runtime.
 */
module ManualsFlatpakReference {
  import opened Wrappers
  import opened GLibStrings
  import opened ManualsSdkReference

  const GNOME_DOCS := "org.gnome.Sdk.Docs"
  const FREEDESKTOP_DOCS := "org.freedesktop.Sdk.Docs"
  const KDE_DOCS := "org.kde.Sdk.Docs"

  /** The title chosen by the name-to-title chain of manuals_flatpak_reference_new. */
  function Title(ref: FlatpakRef): (t: string)
    ensures HasSuffix(t, " " + ref.branch)
  {
    var t := if ref.name == GNOME_DOCS then "GNOME " + ref.branch
      else if ref.name == FREEDESKTOP_DOCS then "FreeDesktop " + ref.branch
      else if ref.name == KDE_DOCS then "KDE " + ref.branch
      else ref.name + " " + ref.branch;
    assert t[|t| - |" " + ref.branch|..] == " " + ref.branch;
    t
  }

  /** The subtitle: only the GNOME SDK documentation has one. */
  function Subtitle(ref: FlatpakRef): (s: Option<string>)
    ensures s.Some? <==> ref.name == GNOME_DOCS
  {
    if ref.name == GNOME_DOCS then Some("Documentation for the GNOME " + ref.branch + " SDK") else None
  }

  /** flatpak_installation_get_installed_ref for a runtime with the same name, arch and branch. */
  predicate InstalledIn(installation: Installation, ref: FlatpakRef)
  {
    ref in installation.installedRuntimes
  }

  /** manuals_flatpak_reference_new. */
  method NewFlatpakReference(installation: Installation, ref: FlatpakRef) returns (r: SdkReference)
    ensures fresh(r)
    ensures r.kind == Flatpak(installation, ref)
    ensures r.title == Some(Title(ref)) && r.subtitle == Subtitle(ref)
    ensures r.installed <==> InstalledIn(installation, ref)
    ensures r.tags == None && r.notifications == []
  {
    r := new SdkReference(Flatpak(installation, ref), Some(Title(ref)), Subtitle(ref), InstalledIn(installation, ref));
  }

  /** The GNOME documentation is titled after GNOME, so the SDK dialog lists it first. */
  lemma GnomeTitleNamesGnome(ref: FlatpakRef)
    requires ref.name == GNOME_DOCS
    ensures Contains(Title(ref), "GNOME")
  {
    ContainsAt(Title(ref), "GNOME", 0);
  }

  /** The three well-known names and the fallback give four disjoint title forms for one branch. */
  lemma WellKnownTitles(ref: FlatpakRef)
    ensures ref.name == GNOME_DOCS ==> HasPrefix(Title(ref), "GNOME ")
    ensures ref.name == FREEDESKTOP_DOCS ==> HasPrefix(Title(ref), "FreeDesktop ")
    ensures ref.name == KDE_DOCS ==> HasPrefix(Title(ref), "KDE ")
    ensures ref.name !in {GNOME_DOCS, FREEDESKTOP_DOCS, KDE_DOCS} ==> HasPrefix(Title(ref), ref.name + " ")
  {
  }

  /**
   * Two runtimes of the same branch whose names fall through to the
   * "<name> <branch>" form get distinct titles when their names differ.
   */
  lemma FallbackTitleInjective(a: FlatpakRef, b: FlatpakRef)
    requires a.branch == b.branch
    requires a.name !in {GNOME_DOCS, FREEDESKTOP_DOCS, KDE_DOCS}
    requires b.name !in {GNOME_DOCS, FREEDESKTOP_DOCS, KDE_DOCS}
    requires Title(a) == Title(b)
    ensures a.name == b.name
  {
    var suffix := " " + a.branch;
    assert Title(a) == a.name + suffix;
    assert Title(b) == b.name + suffix;
    assert a.name == Title(a)[..|Title(a)| - |suffix|];
    assert b.name == Title(b)[..|Title(b)| - |suffix|];
  }
}
