/**
 * The GLib string helpers the Manuals sources call, over strings modelled as
 * sequences of characters: g_str_has_prefix, g_str_has_suffix, strstr,
 * g_strcmp0 (by its sign), g_strstrip, "%u" formatting and g_uri_peek_scheme.
 */
module GLibStrings {
  import opened Wrappers

  predicate HasPrefix(s: string, prefix: string)
  {
    |prefix| <= |s| && s[..|prefix|] == prefix
  }

  predicate HasSuffix(s: string, suffix: string)
  {
    |suffix| <= |s| && s[|s| - |suffix|..] == suffix
  }

  /** strstr (s, needle) != NULL */
  predicate Contains(s: string, needle: string)
    decreases |s|
  {
    HasPrefix(s, needle) || (|s| > 0 && Contains(s[1..], needle))
  }

  lemma {:induction false} ContainsAt(s: string, needle: string, i: nat)
    requires i <= |s| && HasPrefix(s[i..], needle)
    ensures Contains(s, needle)
    decreases i
  {
    if i > 0 {
      assert s[1..][i - 1..] == s[i..];
      ContainsAt(s[1..], needle, i - 1);
    }
  }

  lemma {:induction false} ContainsWitness(s: string, needle: string)
    requires Contains(s, needle)
    ensures exists i :: 0 <= i <= |s| && HasPrefix(s[i..], needle)
    decreases |s|
  {
    if HasPrefix(s, needle) {
      assert s[0..] == s;
    } else {
      ContainsWitness(s[1..], needle);
      var i :| 0 <= i <= |s[1..]| && HasPrefix(s[1..][i..], needle);
      assert s[1..][i..] == s[i + 1..];
    }
  }

  /** Lexicographic order on character codes; for UTF-8 text this is the byte order strcmp uses. */
  predicate Less(a: string, b: string)
    decreases |a|
  {
    if a == [] then b != []
    else if b == [] then false
    else if a[0] != b[0] then a[0] < b[0]
    else Less(a[1..], b[1..])
  }

  /** The sign of g_strcmp0 on two non-NULL strings. */
  function StrCmp(a: string, b: string): (r: int)
    ensures -1 <= r <= 1
  {
    if a == b then 0 else if Less(a, b) then -1 else 1
  }

  lemma {:induction false} LessIrreflexive(a: string)
    ensures !Less(a, a)
    decreases |a|
  {
    if a != [] {
      LessIrreflexive(a[1..]);
    }
  }

  lemma {:induction false} LessTotal(a: string, b: string)
    ensures a == b || Less(a, b) || Less(b, a)
    decreases |a|
  {
    if a != [] && b != [] && a[0] == b[0] {
      LessTotal(a[1..], b[1..]);
      if a[1..] == b[1..] {
        assert a == [a[0]] + a[1..] && b == [b[0]] + b[1..];
      }
    }
  }

  lemma {:induction false} LessAsymmetric(a: string, b: string)
    ensures !(Less(a, b) && Less(b, a))
    decreases |a|
  {
    if a != [] && b != [] && a[0] == b[0] {
      LessAsymmetric(a[1..], b[1..]);
    }
  }

  lemma {:induction false} LessTransitive(a: string, b: string, c: string)
    requires Less(a, b) && Less(b, c)
    ensures Less(a, c)
    decreases |a|
  {
    if a != [] && b != [] && c != [] && a[0] == b[0] && b[0] == c[0] {
      LessTransitive(a[1..], b[1..], c[1..]);
    }
  }

  /** g_strcmp0 is zero exactly on equal strings and swapping its arguments flips its sign. */
  lemma StrCmpAntisymmetric(a: string, b: string)
    ensures StrCmp(a, b) == 0 <==> a == b
    ensures StrCmp(b, a) == -StrCmp(a, b)
  {
    LessTotal(a, b);
    LessAsymmetric(a, b);
  }

  lemma StrCmpTransitive(a: string, b: string, c: string)
    requires StrCmp(a, b) < 0 && StrCmp(b, c) < 0
    ensures StrCmp(a, c) < 0
  {
    LessTransitive(a, b, c);
    LessIrreflexive(a);
  }

  /** g_ascii_isspace */
  predicate IsSpace(c: char)
  {
    c == ' ' || c == '\t' || c == '\n' || c == '\U{0B}' || c == '\U{0C}' || c == '\r'
  }

  /** g_strchug: drops leading ASCII white space. */
  function Chug(s: string): (r: string)
    ensures |r| <= |s| && r == s[|s| - |r|..]
    ensures r == [] || !IsSpace(r[0])
    ensures forall i :: 0 <= i < |s| - |r| ==> IsSpace(s[i])
    decreases |s|
  {
    if s != [] && IsSpace(s[0]) then Chug(s[1..]) else s
  }

  /** g_strchomp: drops trailing ASCII white space. */
  function Chomp(s: string): (r: string)
    ensures |r| <= |s| && r == s[..|r|]
    ensures r == [] || !IsSpace(r[|r| - 1])
    ensures forall i :: |r| <= i < |s| ==> IsSpace(s[i])
    decreases |s|
  {
    if s != [] && IsSpace(s[|s| - 1]) then Chomp(s[..|s| - 1]) else s
  }

  /** g_strstrip, which is g_strchug (g_strchomp (s)). */
  function Strip(s: string): string
  {
    Chug(Chomp(s))
  }

  predicate AllSpace(s: string)
  {
    forall i :: 0 <= i < |s| ==> IsSpace(s[i])
  }

  /** Stripping leaves nothing exactly when the text is all white space. */
  lemma StripEmptyIff(s: string)
    ensures Strip(s) == [] <==> AllSpace(s)
  {
    var m := Chomp(s);
    if Strip(s) == [] {
      forall i | 0 <= i < |s| ensures IsSpace(s[i]) {
        if i < |m| {
          assert m[i] == s[i];
        }
      }
    } else {
      var r := Strip(s);
      var j := |m| - |r|;
      assert r[0] == m[j] == s[j];
    }
  }

  /** The stripped text is one contiguous piece of the original. */
  lemma StripIsInfix(s: string)
    ensures exists a, b :: 0 <= a <= b <= |s| && Strip(s) == s[a..b]
  {
    var m := Chomp(s);
    var r := Chug(m);
    var a, b := |m| - |r|, |m|;
    assert m == s[..b];
    assert r == m[a..];
    assert m[a..] == s[a..b];
    assert Strip(s) == s[a..b];
  }

  function DigitChar(d: nat): (c: char)
    requires d < 10
    ensures '0' <= c <= '9'
  {
    ['0', '1', '2', '3', '4', '5', '6', '7', '8', '9'][d]
  }

  /** printf "%u": decimal digits, no leading zero. */
  function DecimalString(n: nat): (r: string)
    ensures |r| >= 1
    ensures forall i :: 0 <= i < |r| ==> '0' <= r[i] <= '9'
    ensures r[0] == '0' ==> n == 0
    decreases n
  {
    if n < 10 then [DigitChar(n)] else DecimalString(n / 10) + [DigitChar(n % 10)]
  }

  function DigitValue(c: char): nat
    requires '0' <= c <= '9'
  {
    (c as int - '0' as int) as nat
  }

  /** Reads back a string of decimal digits. */
  function ParseDecimal(s: string): nat
    requires forall i :: 0 <= i < |s| ==> '0' <= s[i] <= '9'
    decreases |s|
  {
    if s == [] then 0 else ParseDecimal(s[..|s| - 1]) * 10 + DigitValue(s[|s| - 1])
  }

  lemma DigitRoundTrip(d: nat)
    requires d < 10
    ensures DigitValue(DigitChar(d)) == d
  {
  }

  /** "%u" formatting loses nothing: its digits read back as the number. */
  lemma {:induction false} DecimalRoundTrip(n: nat)
    ensures ParseDecimal(DecimalString(n)) == n
    decreases n
  {
    var r := DecimalString(n);
    if n < 10 {
      DigitRoundTrip(n);
    } else {
      DecimalRoundTrip(n / 10);
      DigitRoundTrip(n % 10);
      assert r[..|r| - 1] == DecimalString(n / 10);
    }
  }

  predicate IsAlpha(c: char) { 'a' <= c <= 'z' || 'A' <= c <= 'Z' }
  predicate IsDigit(c: char) { '0' <= c <= '9' }
  predicate IsSchemeChar(c: char) { IsAlpha(c) || IsDigit(c) || c == '+' || c == '-' || c == '.' }

  function AsciiLower(c: char): char
  {
    if 'A' <= c <= 'Z' then (c as int + 32) as char else c
  }

  function AsciiDown(s: string): (r: string)
    ensures |r| == |s| && forall i :: 0 <= i < |s| ==> r[i] == AsciiLower(s[i])
  {
    seq(|s|, i requires 0 <= i < |s| => AsciiLower(s[i]))
  }

  /** Length of the run of scheme characters starting at index i. */
  function SchemeEnd(uri: string, i: nat): (j: nat)
    requires i <= |uri|
    ensures i <= j <= |uri|
    ensures forall k :: i <= k < j ==> IsSchemeChar(uri[k])
    ensures j == |uri| || !IsSchemeChar(uri[j])
    decreases |uri| - i
  {
    if i < |uri| && IsSchemeChar(uri[i]) then SchemeEnd(uri, i + 1) else i
  }

  /**
   * g_uri_peek_scheme: a letter, then letters, digits, '+', '-' or '.', up
   * to a ':'; the scheme is returned lower-cased, or NULL when there is none.
   */
  function PeekScheme(uri: string): (r: Option<string>)
    ensures r.Some? ==> |r.value| >= 1 && |r.value| < |uri| && uri[|r.value|] == ':'
    ensures r.Some? ==> r.value == AsciiDown(uri[..|r.value|])
    ensures r.None? <==> (uri == [] || !IsAlpha(uri[0]) || SchemeEnd(uri, 1) == |uri| || uri[SchemeEnd(uri, 1)] != ':')
  {
    if uri == [] || !IsAlpha(uri[0]) then None
    else
      var j := SchemeEnd(uri, 1);
      if j < |uri| && uri[j] == ':' then Some(AsciiDown(uri[..j])) else None
  }

  /** A URI has the "file" scheme exactly when it starts with "file:" in any letter case. */
  lemma FileSchemeIff(uri: string)
    ensures PeekScheme(uri) == Some("file") <==>
            (|uri| >= 5 && AsciiDown(uri[..4]) == "file" && uri[4] == ':')
  {
    if |uri| >= 5 && AsciiDown(uri[..4]) == "file" && uri[4] == ':' {
      var low := AsciiDown(uri[..4]);
      assert low[0] == AsciiLower(uri[0]) == 'f';
      assert low[1] == AsciiLower(uri[1]) == 'i';
      assert low[2] == AsciiLower(uri[2]) == 'l';
      assert low[3] == AsciiLower(uri[3]) == 'e';
      assert IsAlpha(uri[0]) && IsSchemeChar(uri[1]) && IsSchemeChar(uri[2]) && IsSchemeChar(uri[3]);
      assert !IsSchemeChar(uri[4]);
      SchemeEndRun(uri, 1, 4);
    }
  }

  lemma {:induction false} SchemeEndRun(uri: string, i: nat, j: nat)
    requires i <= j < |uri|
    requires forall k :: i <= k < j ==> IsSchemeChar(uri[k])
    requires !IsSchemeChar(uri[j])
    ensures SchemeEnd(uri, i) == j
    decreases j - i
  {
    if i < j {
      SchemeEndRun(uri, i + 1, j);
    }
  }
}
