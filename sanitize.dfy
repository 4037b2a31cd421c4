/**
 `sanitize_filename`: the page URL turned into a file name stem. It drops an
 `http://` or `https://` scheme together with the host and the slash after
 it, drops every trailing slash, puts `_` in place of each character outside
 `[A-Za-z0-9_-]`, and keeps at most the first 100 characters.
 */
module Sanitize {
  import opened Text

  const MAX_LENGTH := 100

  /** A character that the regular expression class `[a-zA-Z0-9_-]` admits. */
  predicate Allowed(ch: char) {
    ('a' <= ch <= 'z') || ('A' <= ch <= 'Z') || ('0' <= ch <= '9') || ch == '_' || ch == '-'
  }

  /**
   Past the scheme, which ends at index `schemeEnd`, `url[..k]` is a
   non-empty run of characters other than `/` followed by one `/`: the
   `[^/]+/` part of the pattern.
   */
  predicate HostThenSlash(url: string, schemeEnd: nat, k: int) {
    && schemeEnd + 2 <= k <= |url|
    && url[k - 1] == '/'
    && forall i :: schemeEnd <= i < k - 1 ==> url[i] != '/'
  }

  /** The pattern `^https?://[^/]+/` matches exactly `url[..k]`. */
  predicate HostPrefixMatch(url: string, k: int) {
    || (StartsWith(url, "http://") && HostThenSlash(url, 7, k))
    || (StartsWith(url, "https://") && HostThenSlash(url, 8, k))
  }

  /** Length of the `https?://` at the front of `url`, or 0 when there is none. */
  function SchemeLength(url: string): (n: nat)
    ensures n == 8 <==> StartsWith(url, "https://")
    ensures n == 7 <==> StartsWith(url, "http://")
    ensures n == 0 || n == 7 || n == 8
  {
    if StartsWith(url, "https://") then
      assert url[4] == 's';
      8
    else if StartsWith(url, "http://") then 7
    else 0
  }

  /**
   `re.sub(r'^https?://[^/]+/', '', url)`: the part after the match when the
   pattern matches a prefix of `url`, and all of `url` when it does not.
   */
  function StripSchemeAndHost(url: string): (path: string)
    ensures forall k :: HostPrefixMatch(url, k) ==> path == url[k..]
    ensures path == url || exists k :: HostPrefixMatch(url, k)
  {
    var n := SchemeLength(url);
    if n == 0 then url
    else
      var slash := Find(url, '/', n);
      if n < slash < |url| then
        assert HostPrefixMatch(url, slash + 1);
        url[slash + 1..]
      else url
  }

  /** `re.sub(r'[^a-zA-Z0-9_-]', '_', s)`: one character for one, in place. */
  function ReplaceDisallowed(s: string): (r: string)
    ensures |r| == |s|
    ensures forall i :: 0 <= i < |s| ==> r[i] == if Allowed(s[i]) then s[i] else '_'
    decreases |s|
  {
    if s == [] then []
    else [if Allowed(s[0]) then s[0] else '_'] + ReplaceDisallowed(s[1..])
  }

  /** `sanitize_filename(url)`. */
  function SanitizeFilename(url: string): (name: string)
    ensures |name| <= MAX_LENGTH
    ensures forall i :: 0 <= i < |name| ==> Allowed(name[i])
    ensures var path := RStrip(StripSchemeAndHost(url), '/');
      && |name| == Min(MAX_LENGTH, |path|)
      && forall i :: 0 <= i < |name| ==> name[i] == if Allowed(path[i]) then path[i] else '_'
  {
    var path := StripSchemeAndHost(url);
    var trimmed := RStrip(path, '/');
    var sanitized := ReplaceDisallowed(trimmed);
    Take(sanitized, MAX_LENGTH)
  }

  /**
   A name made only of allowed characters and at most 100 long passes
   through every step unchanged.
   */
  lemma SanitizeFixedPoint(name: string)
    requires |name| <= MAX_LENGTH
    requires forall i :: 0 <= i < |name| ==> Allowed(name[i])
    ensures SanitizeFilename(name) == name
  {
    if |name| >= 5 {
      assert Allowed(name[4]);
      assert forall k | 5 <= k <= |name| :: name[..k][4] == name[4] != ':';
    }
    assert StripSchemeAndHost(name) == name;
    assert RStrip(name, '/') == name;
    assert ReplaceDisallowed(name) == name;
  }

  /** Sanitizing a second time changes nothing. */
  lemma SanitizeIdempotent(url: string)
    ensures SanitizeFilename(SanitizeFilename(url)) == SanitizeFilename(url)
  {
    SanitizeFixedPoint(SanitizeFilename(url));
  }
}
