/**
 * manuals-version-macros.h: the stable-version arithmetic the public
 * headers use to decide which API is deprecated or unavailable. Every
 * value is a preprocessor constant computed from MANUALS_MAJOR_VERSION
 * and MANUALS_MINOR_VERSION, optionally overridden by the includer.
 */
module ManualsVersionMacros {
  import opened Wrappers

  /** A (major, minor) pair before encoding. */
  datatype Version = Version(major: nat, minor: int)

  /**
   * G_ENCODE_VERSION: major << 16 | minor << 8 in the preprocessor's
   * intmax_t. A non-negative minor below 256 occupies its own byte; a
   * minor between -256 and -1 shifts into a value whose bits from 16 up
   * are all set, so the OR leaves it unchanged and the major is lost.
   */
  function Encode(v: Version): (e: int)
    requires -256 <= v.minor < 256
    ensures e < 0 <==> v.minor < 0
  {
    if v.minor >= 0 then v.major * 65536 + v.minor * 256 else v.minor * 256
  }

  /** Encoding keeps the lexicographic order of versions with a non-negative minor. */
  lemma EncodeMonotonic(a: Version, b: Version)
    requires 0 <= a.minor < 256 && 0 <= b.minor < 256
    requires a.major < b.major || (a.major == b.major && a.minor < b.minor)
    ensures Encode(a) < Encode(b)
  {
    if a.major < b.major {
      assert a.major * 65536 + 65536 <= b.major * 65536;
    }
  }

  /** The minor numbers a release can have. */
  predicate ValidMinor(minor: int) { 0 <= minor <= 99 }

  /** MANUALS_VERSION_CUR_STABLE before encoding. */
  function CurStable(major: nat, minor: int): (v: Version)
    requires ValidMinor(minor)
    ensures v.minor % 2 == 0 && 0 <= v.minor <= 98
    ensures minor == 99 ==> v == Version(major + 1, 0)
    ensures minor != 99 ==> v.major == major && minor <= v.minor <= minor + 1
  {
    if minor == 99 then Version(major + 1, 0)
    else if minor % 2 == 1 then Version(major, minor + 1)
    else Version(major, minor)
  }

  /** MANUALS_VERSION_PREV_STABLE before encoding. */
  function PrevStable(major: nat, minor: int): (v: Version)
    requires ValidMinor(minor)
    ensures -2 <= v.minor <= 98
    ensures minor == 99 ==> v == Version(major + 1, 0)
    ensures minor != 99 ==> v.major == major && minor - 2 <= v.minor < minor
  {
    if minor == 99 then Version(major + 1, 0)
    else if minor % 2 == 1 then Version(major, minor - 1)
    else Version(major, minor - 2)
  }

  /** At minor 0 the previous stable version encodes to -512, below every real version. */
  lemma PrevStableAtMinorZero(major: nat)
    ensures Encode(PrevStable(major, 0)) == -512
  {
  }

  /** MANUALS_VERSION_MIN_REQUIRED: the includer's value, else the current stable version. */
  function MinRequired(userMin: Option<int>, major: nat, minor: int): (m: int)
    requires ValidMinor(minor)
    ensures userMin.None? ==> m == Encode(CurStable(major, minor))
    ensures userMin.Some? ==> m == userMin.value
  {
    if userMin.Some? then userMin.value else Encode(CurStable(major, minor))
  }

  /**
   * MANUALS_VERSION_MAX_ALLOWED: the includer's value, else the minimum
   * when that is newer than the previous stable version, else the current
   * stable version.
   */
  function MaxAllowed(userMax: Option<int>, minRequired: int, major: nat, minor: int): (m: int)
    requires ValidMinor(minor)
    ensures userMax.Some? ==> m == userMax.value
    ensures userMax.None? && minRequired > Encode(PrevStable(major, minor)) ==> m == minRequired
    ensures userMax.None? && minRequired <= Encode(PrevStable(major, minor)) ==> m == Encode(CurStable(major, minor))
  {
    if userMax.Some? then userMax.value
    else if minRequired > Encode(PrevStable(major, minor)) then minRequired
    else Encode(CurStable(major, minor))
  }

  /** The two #error checks. */
  predicate Rejected(minRequired: int, maxAllowed: int)
  {
    maxAllowed < minRequired || minRequired < Encode(Version(1, 0))
  }

  /** With neither macro overridden, both bounds are the current stable version. */
  lemma DefaultsAgree(major: nat, minor: int)
    requires ValidMinor(minor)
    ensures var min := MinRequired(None, major, minor);
      min == Encode(CurStable(major, minor)) && MaxAllowed(None, min, major, minor) == min
  {
    var cur := CurStable(major, minor);
    var prev := PrevStable(major, minor);
    if minor != 99 && prev.minor >= 0 {
      EncodeMonotonic(prev, cur);
    }
  }

  /**
   * With neither macro overridden the upper-bound check never fires, and
   * the lower-bound check fires exactly for a 0.x version other than 0.99.
   */
  lemma DefaultsRejectedIff(major: nat, minor: int)
    requires ValidMinor(minor)
    ensures var min := MinRequired(None, major, minor);
      var max := MaxAllowed(None, min, major, minor);
      !(max < min) && (Rejected(min, max) <==> major == 0 && minor != 99)
  {
    DefaultsAgree(major, minor);
    var cur := CurStable(major, minor);
    if major >= 1 && minor != 99 {
      assert Encode(cur) >= 65536;
    }
  }

  /** MANUALS_VERSION_1_0 itself, taken as the minimum, passes both checks under the default maximum of a 1.x release. */
  lemma OneZeroAccepted(minor: int)
    requires ValidMinor(minor) && minor != 99
    ensures !Rejected(Encode(Version(1, 0)), MaxAllowed(None, Encode(Version(1, 0)), 1, minor))
  {
    var prev := PrevStable(1, minor);
    var cur := CurStable(1, minor);
    if prev.minor >= 0 {
      EncodeMonotonic(prev, cur);
    }
  }
}
