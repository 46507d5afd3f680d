/**
 * ManualsInstallButton: a two-page button. The install page starts an
 * installation with a fresh cancellable and progress; while it runs the
 * cancel page is shown and the button's background shows the progress.
 * Cancelling or completing returns to the install page.
 */
module ManualsInstallButton {
  import opened GLibStrings

  /** A GCancellable. */
  class Cancellable {
    var cancelled: bool

    constructor()
      ensures !cancelled
    {
      cancelled := false;
    }
  }

  /** A ManualsProgress; only its identity matters to the button. */
  class Progress {
    constructor()
    {
    }
  }

  /** The two children of the button's stack. */
  datatype Page = InstallPage | CancelPage

  /**
   * The percentage progress_changed_cb derives from a fraction: the
   * product with 100 clamped to [0, 100] and truncated to an unsigned int.
   */
  function Percentage(fraction: real): (p: nat)
    ensures p <= 100
    ensures fraction <= 0.0 ==> p == 0
    ensures fraction >= 1.0 ==> p == 100
    ensures 0.0 <= fraction < 1.0 ==> p as real <= fraction * 100.0 < p as real + 1.0
  {
    var scaled := fraction * 100.0;
    if scaled <= 0.0 then 0
    else if scaled >= 100.0 then 100
    else scaled.Floor
  }

  const CSS_PREFIX := ".install-progress { background-size: "

  /** The CSS progress_changed_cb loads for a percentage. */
  function ProgressCss(percentage: nat): (css: string)
    ensures HasPrefix(css, CSS_PREFIX)
  {
    if percentage == 0 then CSS_PREFIX + "0; }"
    else if percentage == 100 then CSS_PREFIX + "100%; }"
    else CSS_PREFIX + DecimalString(percentage) + "%; }"
  }

  /** Every percentage but 0 is written as "<p>%", the special case 100 included. */
  lemma ProgressCssUniform(percentage: nat)
    requires percentage != 0
    ensures ProgressCss(percentage) == CSS_PREFIX + DecimalString(percentage) + "%; }"
  {
    if percentage == 100 {
      assert DigitChar(1) == '1' && DigitChar(0) == '0';
      assert DecimalString(10) == ['1', '0'];
      assert DecimalString(100) == ['1', '0', '0'];
    }
  }

  /** Distinct percentages give distinct CSS, so the bar always tells progress apart. */
  lemma ProgressCssInjective(p: nat, q: nat)
    requires ProgressCss(p) == ProgressCss(q)
    ensures p == q
  {
    var n := |CSS_PREFIX|;
    if p != 0 && q != 0 {
      ProgressCssUniform(p);
      ProgressCssUniform(q);
      var cp := ProgressCss(p);
      assert cp[n..|cp| - 4] == DecimalString(p);
      assert cp[n..|cp| - 4] == DecimalString(q);
      DecimalRoundTrip(p);
      DecimalRoundTrip(q);
    }
  }

  class InstallButton {
    var cancellable: Cancellable?
    var progress: Progress?
    var page: Page
    /** The CSS most recently loaded into the cancel button's provider. */
    var css: string
    var disposed: bool
    /** The arguments of every "install" emission, oldest first. */
    var installRequests: seq<(Progress, Cancellable)>

    /**
     * While the button is alive and shows the cancel page, there is an
     * installation to cancel and a progress to show.
     */
    predicate Valid()
      reads this
    {
      !disposed && page == CancelPage ==> cancellable != null && progress != null
    }

    /** A new button shows its install page; nothing is running. */
    constructor()
      ensures Valid()
      ensures cancellable == null && progress == null && page == InstallPage
      ensures !disposed && installRequests == [] && css == ""
    {
      cancellable := null;
      progress := null;
      page := InstallPage;
      css := "";
      disposed := false;
      installRequests := [];
    }

    /** The default "install" handler. */
    method RealInstall()
      modifies this`page
      ensures page == CancelPage
    {
      page := CancelPage;
    }

    /**
     * The default "cancel" handler: cancel the running installation, if
     * any, drop it and go back to the install page.
     */
    method RealCancel()
      modifies this`cancellable, this`progress, this`page, cancellable
      ensures old(cancellable) != null ==> old(cancellable).cancelled
      ensures cancellable == null && progress == null && page == InstallPage
      ensures Valid()
    {
      if cancellable != null {
        cancellable.cancelled := true;
      }
      cancellable := null;
      progress := null;
      page := InstallPage;
    }

    /**
     * progress_changed_cb with the progress's fraction: load the CSS for
     * its percentage, and on completion drop the installation and show
     * the install page.
     */
    method ProgressChanged(fraction: real)
      requires Valid()
      modifies this`css, this`cancellable, this`progress, this`page
      ensures Valid()
      ensures css == ProgressCss(Percentage(fraction))
      ensures fraction >= 1.0 ==> cancellable == null && progress == null && page == InstallPage
      ensures fraction < 1.0 ==> cancellable == old(cancellable) && progress == old(progress) && page == old(page)
    {
      css := ProgressCss(Percentage(fraction));
      if fraction >= 1.0 {
        cancellable := null;
        progress := null;
        page := InstallPage;
      }
    }

    /**
     * install_clicked_cb: replace the cancellable and progress with fresh
     * ones, emit "install" with them (the default handler shows the cancel
     * page) and show the new progress, which starts at zero.
     */
    method InstallClicked()
      requires Valid()
      modifies this
      ensures Valid()
      ensures cancellable != null && fresh(cancellable) && !cancellable.cancelled
      ensures progress != null && fresh(progress)
      ensures installRequests == old(installRequests) + [(progress, cancellable)]
      ensures page == CancelPage && css == ProgressCss(0)
      ensures disposed == old(disposed)
    {
      cancellable := null;
      progress := null;
      cancellable := new Cancellable();
      progress := new Progress();
      installRequests := installRequests + [(progress, cancellable)];
      RealInstall();
      ProgressChanged(0.0);
    }

    /** cancel_clicked_cb: emit "cancel"; the default handler does the work. */
    method CancelClicked()
      modifies this`cancellable, this`progress, this`page, cancellable
      ensures old(cancellable) != null ==> old(cancellable).cancelled
      ensures cancellable == null && progress == null && page == InstallPage
      ensures Valid()
    {
      RealCancel();
    }

    /**
     * manuals_install_button_cancel: nothing after dispose; otherwise
     * press the cancel button only when it is the visible page.
     */
    method Cancel()
      requires Valid()
      modifies this`cancellable, this`progress, this`page, cancellable
      ensures Valid()
      ensures disposed || old(page) == InstallPage ==>
        cancellable == old(cancellable) && progress == old(progress) && page == old(page)
        && (old(cancellable) != null ==> old(cancellable).cancelled == old(cancellable.cancelled))
      ensures !disposed && old(page) == CancelPage ==>
        old(cancellable).cancelled && cancellable == null && progress == null && page == InstallPage
    {
      if disposed {
        return;
      }
      if page == CancelPage {
        CancelClicked();
      }
    }

    /** dispose: remember it happened and drop the installation. */
    method Dispose()
      modifies this`disposed, this`cancellable, this`progress
      ensures disposed && cancellable == null && progress == null
      ensures Valid()
    {
      disposed := true;
      cancellable := null;
      progress := null;
    }
  }
}
