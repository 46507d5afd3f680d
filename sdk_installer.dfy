/**
 * ManualsSdkInstaller: a list model of SDK references that one backend
 * offers. References are appended, removed by equality, and moved to the
 * end of the list whenever their installed flag changes. The base class
 * loads nothing; the Flatpak installer returns the future of its loading
 * fiber instead.
 */
module ManualsSdkInstaller {
  import opened Wrappers
  import opened ManualsSdkReference

  /** A DexFuture of a boolean; `outcome` is None while it is pending. */
  class Future {
    var outcome: Option<Result<bool, Error>>

    constructor Pending()
      ensures outcome == None
    {
      outcome := None;
    }

    constructor Resolved(value: Result<bool, Error>)
      ensures outcome == Some(value)
    {
      outcome := Some(value);
    }
  }

  /** `s` with its first occurrence of `x` taken out. */
  function RemoveFirst<T(==)>(s: seq<T>, x: T): (r: seq<T>)
    ensures x !in s ==> r == s
    ensures x in s ==> |r| == |s| - 1
    ensures multiset(r) == multiset(s) - multiset{x}
  {
    if s == [] then []
    else if s[0] == x then
      assert s == [s[0]] + s[1..];
      s[1..]
    else
      assert s == [s[0]] + s[1..];
      [s[0]] + RemoveFirst(s[1..], x)
  }

  /** The elements of `s` other than `x`, in their order. */
  function Without<T(==)>(s: seq<T>, x: T): (r: seq<T>)
    ensures x !in r
    ensures forall i :: 0 <= i < |r| ==> r[i] in s && r[i] != x
  {
    if s == [] then [] else (if s[0] == x then [] else [s[0]]) + Without(s[1..], x)
  }

  lemma {:induction false} WithoutAppend<T>(a: seq<T>, b: seq<T>, x: T)
    ensures Without(a + b, x) == Without(a, x) + Without(b, x)
  {
    if a == [] {
      assert a + b == b;
    } else {
      assert (a + b)[0] == a[0];
      assert (a + b)[1..] == a[1..] + b;
      WithoutAppend(a[1..], b, x);
    }
  }

  /** When the first `x` sits at index i, removing it splices the sequence around i. */
  lemma {:induction false} RemoveFirstAt<T>(s: seq<T>, x: T, i: nat)
    requires i < |s| && s[i] == x && x !in s[..i]
    ensures RemoveFirst(s, x) == s[..i] + s[i + 1..]
  {
    if i == 0 {
      assert s[..0] + s[1..] == s[1..];
    } else {
      assert s[0] == s[..i][0];
      var tail := s[1..];
      assert tail[..i - 1] == s[1..i];
      RemoveFirstAt(tail, x, i - 1);
      assert tail[i..] == s[i + 1..];
      assert RemoveFirst(s, x) == [s[0]] + (s[1..i] + s[i + 1..]);
      assert [s[0]] + s[1..i] == s[..i];
    }
  }

  /** Taking out the first `x` keeps every other element, in order. */
  lemma {:induction false} RemoveFirstKeepsOthers<T>(s: seq<T>, x: T)
    ensures Without(RemoveFirst(s, x), x) == Without(s, x)
  {
    if s != [] && s[0] != x {
      RemoveFirstKeepsOthers(s[1..], x);
    }
  }

  /**
   * What notify_installed_cb does to the list: a reference that was
   * listed ends up last, the list keeps its elements and the others keep
   * their relative order.
   */
  lemma MoveToEnd<T>(s: seq<T>, x: T)
    requires x in s
    ensures var r := RemoveFirst(s, x) + [x];
      |r| == |s| && r[|r| - 1] == x && multiset(r) == multiset(s) && Without(r, x) == Without(s, x)
  {
    var r := RemoveFirst(s, x) + [x];
    RemoveFirstKeepsOthers(s, x);
    WithoutAppend(RemoveFirst(s, x), [x], x);
    assert Without([x], x) == [];
  }

  class SdkInstaller {
    const title: string
    /** The future the Flatpak installer returns from load; null for the base class. */
    const loadFuture: Future?
    var refs: seq<SdkReference>
    /** One entry per connected notify::installed handler, keyed by the reference it watches. */
    var handlers: multiset<SdkReference>

    constructor(title: string, loadFuture: Future?)
      ensures this.title == title && this.loadFuture == loadFuture
      ensures refs == [] && handlers == multiset{}
    {
      this.title := title;
      this.loadFuture := loadFuture;
      refs := [];
      handlers := multiset{};
    }

    /** add: watch the reference's installed flag and append it to the list. */
    method Add(reference: SdkReference)
      modifies this`refs, this`handlers
      ensures refs == old(refs) + [reference]
      ensures handlers == old(handlers) + multiset{reference}
    {
      handlers := handlers + multiset{reference};
      refs := refs + [reference];
    }

    /**
     * remove: disconnect every handler this installer has on the
     * reference, then delete the first element equal to it, if any.
     */
    method Remove(reference: SdkReference)
      modifies this`refs, this`handlers
      ensures refs == RemoveFirst(old(refs), reference)
      ensures handlers == old(handlers)[reference := 0]
    {
      handlers := handlers[reference := 0];
      var n := |refs|;
      var i := 0;
      while i < n
        invariant 0 <= i <= n == |refs| && refs == old(refs)
        invariant reference !in refs[..i]
      {
        if refs[i].Equal(reference) {
          RemoveFirstAt(refs, reference, i);
          refs := refs[..i] + refs[i + 1..];
          return;
        }
        i := i + 1;
      }
      assert refs[..i] == refs;
    }

    /** notify_installed_cb: the reference's installed flag changed. */
    method NotifyInstalled(reference: SdkReference)
      modifies this`refs, this`handlers
      ensures refs == RemoveFirst(old(refs), reference) + [reference]
      ensures handlers == old(handlers)[reference := 1]
    {
      Remove(reference);
      Add(reference);
    }

    /** get_n_items of the list model. */
    function NItems(): (n: nat)
      reads this
      ensures n == |refs|
    {
      |refs|
    }

    /** get_item of the list model: NULL past the end. */
    function GetItem(position: nat): (r: Option<SdkReference>)
      reads this
      ensures r.Some? <==> position < NItems()
      ensures r.Some? ==> r.value == refs[position]
    {
      if position < |refs| then Some(refs[position]) else None
    }

    /**
     * load: the base class resolves at once to TRUE in a new future; the
     * Flatpak installer hands out the one future created with it.
     */
    method Load() returns (f: Future)
      ensures loadFuture != null ==> f == loadFuture
      ensures loadFuture == null ==> fresh(f) && f.outcome == Some(Ok(true))
    {
      if loadFuture == null {
        f := new Future.Resolved(Ok(true));
      } else {
        f := loadFuture;
      }
    }
  }

  /**
   * A reference listed once that is moved to the end twice in a row ends
   * where the first move put it: the second move changes nothing.
   */
  lemma MoveToEndIdempotent<T>(s: seq<T>, x: T)
    requires multiset(s)[x] == 1
    ensures var once := RemoveFirst(s, x) + [x];
      RemoveFirst(once, x) + [x] == once
  {
    var rest := RemoveFirst(s, x);
    var once := rest + [x];
    assert multiset(rest)[x] == 0;
    assert x !in rest;
    assert once[..|rest|] == rest;
    RemoveFirstAt(once, x, |rest|);
    assert once[|rest| + 1..] == [];
    assert RemoveFirst(once, x) == rest;
  }
}
