/**
 * ManualsSdkReference: one installable documentation SDK as the SDK
 * dialog lists it. The base class keeps title, subtitle, tags and the
 * installed flag, notifies property changes, compares by identity and
 * refuses to install; ManualsFlatpakReference overrides install. Both
 * live in the one class below, told apart by the constant `kind`.
 */
module ManualsSdkReference {
  import opened Wrappers

  /** The properties whose change is announced with a notify signal. */
  datatype Prop = InstalledProp | TitleProp | SubtitleProp | TagsProp

  /** A FlatpakRef: the runtime name, architecture and branch. */
  datatype FlatpakRef = FlatpakRef(name: string, arch: string, branch: string)

  /**
   * A FlatpakInstallation: `handle` stands for the object, `isUser` tells a
   * per-user installation from the system one, `installedRuntimes` are the
   * runtimes installed in it.
   */
  datatype Installation = Installation(handle: nat, isUser: bool, installedRuntimes: seq<FlatpakRef>)

  /** Which class the reference object is an instance of. */
  datatype Kind = Base | Flatpak(installation: Installation, ref: FlatpakRef)

  class SdkReference {
    const kind: Kind
    var title: Option<string>
    var subtitle: Option<string>
    var tags: Option<seq<string>>
    var installed: bool
    /** The notify signals emitted so far, oldest first. */
    var notifications: seq<Prop>

    /** g_object_new with the construct-time properties; nobody listens yet. */
    constructor(kind: Kind, title: Option<string>, subtitle: Option<string>, installed: bool)
      ensures this.kind == kind && this.title == title && this.subtitle == subtitle
      ensures this.installed == installed && tags == None && notifications == []
    {
      this.kind := kind;
      this.title := title;
      this.subtitle := subtitle;
      this.installed := installed;
      tags := None;
      notifications := [];
    }

    /** The "equal" virtual method; no subclass overrides it, so it is identity. */
    predicate Equal(other: SdkReference)
    {
      this == other
    }

    /**
     * set_installed: any non-zero gboolean counts as TRUE, and the
     * property is notified only when the stored flag actually changes.
     */
    method SetInstalled(value: int)
      modifies this`installed, this`notifications
      ensures installed == (value != 0)
      ensures notifications == old(notifications) + (if old(installed) == (value != 0) then [] else [InstalledProp])
    {
      var normalised := value != 0;
      if installed != normalised {
        installed := normalised;
        notifications := notifications + [InstalledProp];
      }
    }

    /** The "title" property setter: g_set_str, then notify only if it changed. */
    method SetTitle(value: Option<string>)
      modifies this`title, this`notifications
      ensures title == value
      ensures notifications == old(notifications) + (if old(title) == value then [] else [TitleProp])
    {
      if title != value {
        title := value;
        notifications := notifications + [TitleProp];
      }
    }

    /** The "subtitle" property setter, guarded the same way. */
    method SetSubtitle(value: Option<string>)
      modifies this`subtitle, this`notifications
      ensures subtitle == value
      ensures notifications == old(notifications) + (if old(subtitle) == value then [] else [SubtitleProp])
    {
      if subtitle != value {
        subtitle := value;
        notifications := notifications + [SubtitleProp];
      }
    }

    /** set_tags stores a copy of the vector and notifies unconditionally. */
    method SetTags(value: Option<seq<string>>)
      modifies this`tags, this`notifications
      ensures tags == value
      ensures notifications == old(notifications) + [TagsProp]
    {
      tags := value;
      notifications := notifications + [TagsProp];
    }

    /**
     * installed_cb of a Flatpak reference: the installation finished, so
     * the reference is now installed and the completed result goes on.
     */
    method InstalledCallback(completed: Result<bool, Error>) returns (r: Result<bool, Error>)
      modifies this`installed, this`notifications
      ensures r == completed && installed
      ensures notifications == old(notifications) + (if old(installed) then [] else [InstalledProp])
    {
      SetInstalled(1);
      r := completed;
    }

    /**
     * manuals_sdk_reference_install with the outcome of the underlying
     * installation supplied as `outcome`. The base class rejects with
     * NOT_SUPPORTED and changes nothing; a Flatpak reference runs
     * installed_cb only when the installation succeeded, and an error
     * passes through untouched.
     */
    method Install(outcome: Result<bool, Error>) returns (r: Result<bool, Error>)
      modifies this`installed, this`notifications
      ensures kind.Base? ==> r == Err(NotSupported) && installed == old(installed) && notifications == old(notifications)
      ensures kind.Flatpak? ==> r == outcome
      ensures kind.Flatpak? && outcome.Ok? ==> installed
      ensures kind.Flatpak? && outcome.Ok? ==>
        notifications == old(notifications) + (if old(installed) then [] else [InstalledProp])
      ensures kind.Flatpak? && outcome.Err? ==> installed == old(installed) && notifications == old(notifications)
    {
      if kind.Base? {
        r := Err(NotSupported);
      } else if outcome.Ok? {
        r := InstalledCallback(outcome);
      } else {
        r := outcome;
      }
    }
  }

  /** Installing twice in a row notifies at most once: the second call finds the flag already set. */
  method InstallTwiceNotifiesOnce(reference: SdkReference, outcome: Result<bool, Error>)
    requires reference.kind.Flatpak? && outcome.Ok?
    modifies reference
    ensures reference.installed
    ensures |reference.notifications| <= |old(reference.notifications)| + 1
  {
    var first := reference.Install(outcome);
    var second := reference.Install(outcome);
  }
}
