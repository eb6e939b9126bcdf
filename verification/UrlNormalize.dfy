/** The browser application's address-bar normalisation, `normalizeInputToUrl`
    (src/components/applications/chrome.application.jsx:32-43). The
    percent-encoder `encodeURIComponent` is a parameter. */
module UrlNormalize {
  import opened Wrappers
  import opened Strings

  const DefaultHomeUrl: string := "https://www.google.com/webhp?igu=1"
  const SearchPrefix: string := "https://www.google.com/search?q="

  // ---------------------------------------------------------------------------
  // "Looks like a URL"
  // ---------------------------------------------------------------------------

  /** Length of the run of decimal digits at the start of `s`. */
  function LeadingDigits(s: string): (n: nat)
    ensures n <= |s|
    ensures forall i :: 0 <= i < n ==> IsDigit(s[i])
    ensures n == |s| || !IsDigit(s[n])
  {
    if |s| > 0 && IsDigit(s[0]) then 1 + LeadingDigits(s[1..]) else 0
  }

  /** `s` starts with `dots` groups of one to three digits each followed by a
      dot, and then at least one digit: the regular expression
      `^\d{1,3}(?:\.\d{1,3}){dots}` matches a prefix of `s`. A run of four or
      more digits cannot match, since `\d{1,3}` would have to stop before a
      digit where a dot is required. */
  predicate DigitGroups(s: string, dots: nat)
    decreases dots
  {
    var n := LeadingDigits(s);
    if dots == 0 then n >= 1
    else 1 <= n <= 3 && n < |s| && s[n] == '.' && DigitGroups(s[n + 1..], dots - 1)
  }

  /** `/^\d{1,3}(?:\.\d{1,3}){3}/.test(s)` */
  predicate DottedQuadPrefix(s: string) {
    DigitGroups(s, 3)
  }

  /** The `looksLikeUrl` test. Its dotted-quad alternative is subsumed by the
      test for a dot. */
  predicate LooksLikeUrl(raw: string)
    ensures LooksLikeUrl(raw) <==>
      '.' in raw || StartsWith(raw, "http://") || StartsWith(raw, "https://") || StartsWith(raw, "localhost")
  {
    QuadPrefixHasDot(raw);
    || '.' in raw
    || StartsWith(raw, "http://")
    || StartsWith(raw, "https://")
    || StartsWith(raw, "localhost")
    || DottedQuadPrefix(raw)
  }

  predicate HasScheme(s: string) {
    StartsWith(s, "http://") || StartsWith(s, "https://")
  }

  // ---------------------------------------------------------------------------
  // Normalisation
  // ---------------------------------------------------------------------------

  /** `normalizeInputToUrl`; `None` is a nullish input. Blank input goes home;
      text that does not look like a URL, or has white space inside, becomes a
      search; a URL with a scheme is kept; any other URL gets `https://`. */
  function Normalize(input: Option<string>, encode: string -> string): (r: string)
    ensures HasScheme(r)
    ensures IsBlank(input.GetOr("")) ==> r == DefaultHomeUrl
    ensures var raw := Trim(input.GetOr(""));
      raw != [] && (!LooksLikeUrl(raw) || HasWhitespace(raw)) ==> r == SearchPrefix + encode(raw)
    ensures var raw := Trim(input.GetOr(""));
      raw != [] && !HasWhitespace(raw) && HasScheme(raw) ==> r == raw
    ensures var raw := Trim(input.GetOr(""));
      raw != [] && LooksLikeUrl(raw) && !HasWhitespace(raw) && !HasScheme(raw) ==> r == "https://" + raw
  {
    NormalizeTrimmed(Trim(input.GetOr("")), encode)
  }

  /** The part of `normalizeInputToUrl` after trimming. */
  function NormalizeTrimmed(raw: string, encode: string -> string): (r: string)
    ensures HasScheme(r)
    ensures raw == [] ==> r == DefaultHomeUrl
    ensures raw != [] && (!LooksLikeUrl(raw) || HasWhitespace(raw)) ==> r == SearchPrefix + encode(raw)
    ensures raw != [] && !HasWhitespace(raw) && HasScheme(raw) ==> r == raw
    ensures raw != [] && LooksLikeUrl(raw) && !HasWhitespace(raw) && !HasScheme(raw) ==> r == "https://" + raw
  {
    if raw == [] then
      StartsWithAppend("https://", "www.google.com/webhp?igu=1");
      DefaultHomeUrl
    else if !LooksLikeUrl(raw) || HasWhitespace(raw) then
      StartsWithAppend("https://", "www.google.com/search?q=" + encode(raw));
      SearchPrefix + encode(raw)
    else if StartsWith(raw, "http://") || StartsWith(raw, "https://") then
      raw
    else
      StartsWithAppend("https://", raw);
      "https://" + raw
  }

  // ---------------------------------------------------------------------------
  // Properties
  // ---------------------------------------------------------------------------

  /** The dotted-quad test never decides anything on its own: every string
      it accepts already contains a dot. */
  lemma DigitGroupsHaveDot(s: string, dots: nat)
    requires dots >= 1 && DigitGroups(s, dots)
    ensures '.' in s
  {
    var n := LeadingDigits(s);
    assert s[n] == '.';
  }

  /** A dotted-quad prefix contains a dot. */
  lemma QuadPrefixHasDot(raw: string)
    ensures DottedQuadPrefix(raw) ==> '.' in raw
  {
    if DottedQuadPrefix(raw) {
      DigitGroupsHaveDot(raw, 3);
    }
  }

  /** So a URL that gets `https://` prepended contains a dot or starts with
      `localhost`. */
  lemma PrefixedInputShape(raw: string)
    requires LooksLikeUrl(raw) && !HasScheme(raw)
    ensures '.' in raw || StartsWith(raw, "localhost")
  {
  }

  lemma NoWhitespaceConcat(a: string, b: string)
    requires !HasWhitespace(a) && !HasWhitespace(b)
    ensures !HasWhitespace(a + b)
  {
  }

  lemma FixedUrlsHaveNoWhitespace()
    ensures !HasWhitespace(DefaultHomeUrl)
    ensures !HasWhitespace(SearchPrefix)
    ensures !HasWhitespace("https://")
  {
    PrintableHasNoWhitespace(DefaultHomeUrl);
    PrintableHasNoWhitespace(SearchPrefix);
    PrintableHasNoWhitespace("https://");
  }

  /** Visible ASCII characters are not white space. */
  lemma PrintableHasNoWhitespace(s: string)
    requires forall i :: 0 <= i < |s| ==> '!' <= s[i] <= '~'
    ensures !HasWhitespace(s)
  {
  }

  /** With an encoder that never emits white space (as percent-encoding does
      not), the result of normalisation has no white space. */
  lemma NormalizedHasNoWhitespace(input: Option<string>, encode: string -> string)
    requires forall s :: !HasWhitespace(encode(s))
    ensures !HasWhitespace(Normalize(input, encode))
  {
    var raw := Trim(input.GetOr(""));
    FixedUrlsHaveNoWhitespace();
    if raw == [] {
    } else if !LooksLikeUrl(raw) || HasWhitespace(raw) {
      NoWhitespaceConcat(SearchPrefix, encode(raw));
    } else if !HasScheme(raw) {
      NoWhitespaceConcat("https://", raw);
    }
  }

  /** Normalising an already normalised address changes nothing, given an
      encoder that never emits white space. */
  lemma NormalizeIdempotent(input: Option<string>, encode: string -> string)
    requires forall s :: !HasWhitespace(encode(s))
    ensures Normalize(Some(Normalize(input, encode)), encode) == Normalize(input, encode)
  {
    NormalizedHasNoWhitespace(input, encode);
    NormalFormIsFixed(Normalize(input, encode), encode);
  }

  /** A white-space-free address with a scheme is its own normal form. */
  lemma NormalFormIsFixed(r: string, encode: string -> string)
    requires !HasWhitespace(r) && HasScheme(r)
    ensures Normalize(Some(r), encode) == r
  {
    assert Trim(r) == r;
    assert r != [];
  }

  /** The home page normalises to itself. */
  lemma HomeUrlIsNormal(encode: string -> string)
    ensures Normalize(Some(DefaultHomeUrl), encode) == DefaultHomeUrl
  {
    FixedUrlsHaveNoWhitespace();
    assert Trim(DefaultHomeUrl) == DefaultHomeUrl;
    StartsWithAppend("https://", "www.google.com/webhp?igu=1");
  }
}
