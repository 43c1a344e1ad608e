/**
 * The two input checks of the projects panel: whether a repository's
 * homepage earns a "Live" link, and whether the page names a GitHub account
 * at all.
 */
module Validators {
  import opened Wrappers
  import opened Text

  /** `t` starts with `prefix`, ASCII letters compared without regard to case (`prefix` is lower case). */
  predicate StartsWithIgnoringCase(t: string, prefix: string) {
    |prefix| <= |t| && LowerAsciiString(t[..|prefix|]) == prefix
  }

  /**
   * The regular expression `/^https?:\/\//i` read left to right: `http` in
   * any case, an optional `s` in any case, then `://`. (Under the `i` flag
   * without `u`, only the ASCII letters themselves match `h`, `t`, `p` and
   * `s`, so ASCII case folding is exact.)
   */
  predicate MatchesHttpScheme(t: string) {
    && |t| >= 4 && LowerAsciiString(t[..4]) == "http"
    && var rest := if |t| > 4 && LowerAscii(t[4]) == 's' then t[5..] else t[4..];
      |rest| >= 3 && rest[..3] == "://"
  }

  /** Comparing a prefix without regard to case is comparing it character by character. */
  lemma StartsWithIgnoringCaseIff(t: string, prefix: string)
    ensures StartsWithIgnoringCase(t, prefix) <==>
      |prefix| <= |t| && forall k | 0 <= k < |prefix| :: LowerAscii(t[k]) == prefix[k]
  {
    if |prefix| <= |t| {
      var l := LowerAsciiString(t[..|prefix|]);
      if forall k | 0 <= k < |prefix| :: LowerAscii(t[k]) == prefix[k] {
        assert forall k | 0 <= k < |prefix| :: l[k] == prefix[k];
      }
    }
  }

  /** `://` compares equal to its lower-case form only when written as is. */
  lemma SeparatorIgnoringCase(r: string)
    ensures |r| >= 3 && r[..3] == "://" <==> StartsWithIgnoringCase(r, "://")
  {
    StartsWithIgnoringCaseIff(r, "://");
    if |r| >= 3 && r[..3] != "://" {
      assert r[0] != ':' || r[1] != '/' || r[2] != '/';
    }
  }

  /** With an `s` after `http`, the pattern needs `://` after the `s`, which is `https://`. */
  lemma SecureScheme(t: string)
    requires |t| > 4 && LowerAscii(t[4]) == 's' && StartsWithIgnoringCase(t, "http")
    ensures |t[5..]| >= 3 && t[5..][..3] == "://" <==> StartsWithIgnoringCase(t, "https://")
    ensures !StartsWithIgnoringCase(t, "http://")
  {
    var rest := t[5..];
    SeparatorIgnoringCase(rest);
    StartsWithIgnoringCaseIff(rest, "://");
    StartsWithIgnoringCaseIff(t, "http");
    StartsWithIgnoringCaseIff(t, "http://");
    StartsWithIgnoringCaseIff(t, "https://");
    assert forall k | 0 <= k < |rest| :: rest[k] == t[k + 5];
  }

  /** Without an `s` after `http`, the pattern needs `://` right after `http`, which is `http://`. */
  lemma PlainScheme(t: string)
    requires |t| >= 4 && !(|t| > 4 && LowerAscii(t[4]) == 's') && StartsWithIgnoringCase(t, "http")
    ensures |t[4..]| >= 3 && t[4..][..3] == "://" <==> StartsWithIgnoringCase(t, "http://")
    ensures !StartsWithIgnoringCase(t, "https://")
  {
    var rest := t[4..];
    SeparatorIgnoringCase(rest);
    StartsWithIgnoringCaseIff(rest, "://");
    StartsWithIgnoringCaseIff(t, "http");
    StartsWithIgnoringCaseIff(t, "http://");
    StartsWithIgnoringCaseIff(t, "https://");
    assert forall k | 0 <= k < |rest| :: rest[k] == t[k + 4];
  }

  /** The pattern accepts exactly the strings that start with `http://` or `https://`, in any case. */
  lemma MatchesHttpSchemeIff(t: string)
    ensures MatchesHttpScheme(t) <==> StartsWithIgnoringCase(t, "http://") || StartsWithIgnoringCase(t, "https://")
  {
    if |t| >= 4 && LowerAsciiString(t[..4]) == "http" {
      if |t| > 4 && LowerAscii(t[4]) == 's' {
        SecureScheme(t);
      } else {
        PlainScheme(t);
      }
    } else {
      StartsWithIgnoringCaseIff(t, "http");
      StartsWithIgnoringCaseIff(t, "http://");
      StartsWithIgnoringCaseIff(t, "https://");
    }
  }

  /**
   * The target of the card's "Live" link: the trimmed homepage when it is a
   * string matching the scheme pattern; none otherwise (a non-string
   * homepage reads as the empty string).
   */
  function LiveLink(homepage: Option<string>): (r: Option<string>)
    ensures r.Some? ==> homepage.Some? && r.value == Trim(homepage.value)
  {
    var h := if homepage.Some? then Trim(homepage.value) else "";
    if MatchesHttpScheme(h) then Some(h) else None
  }

  /**
   * A card links its homepage exactly when the homepage, trimmed, starts
   * with `http://` or `https://` in any case; the link then has no white
   * space at either end.
   */
  lemma LiveLinkIff(homepage: Option<string>)
    ensures LiveLink(homepage).Some? <==>
      homepage.Some? && (StartsWithIgnoringCase(Trim(homepage.value), "http://") || StartsWithIgnoringCase(Trim(homepage.value), "https://"))
    ensures LiveLink(homepage).Some? ==>
      var l := LiveLink(homepage).value; l != [] && !IsJsSpace(l[0]) && !IsJsSpace(l[|l| - 1])
  {
    MatchesHttpSchemeIff(if homepage.Some? then Trim(homepage.value) else "");
    if homepage.Some? {
      TrimEndsWithNonSpace(homepage.value);
    }
  }

  /** A link target passes the check again unchanged. */
  lemma LiveLinkIdempotent(homepage: Option<string>)
    ensures LiveLink(homepage).Some? ==> LiveLink(LiveLink(homepage)) == LiveLink(homepage)
  {
    if homepage.Some? {
      TrimIdempotent(homepage.value);
    }
  }

  /** The placeholder shipped in the page template. */
  const Placeholder: string := "your_github_username"

  /**
   * The account to load, from the `data-github-username` attribute: the
   * trimmed attribute (a missing one reads as empty), unless that is empty
   * or the placeholder in any case, when there is none. (ASCII folding
   * decides the comparison as `toLowerCase` does: the only non-ASCII
   * characters it maps into ASCII are the Kelvin sign, to `k`, which the
   * placeholder lacks, and the dotted capital I, to two characters.)
   */
  function ConfiguredUsername(attribute: Option<string>): (r: Option<string>)
    ensures r.Some? ==> r.value == Trim(attribute.GetOr(""))
  {
    var name := Trim(attribute.GetOr(""));
    if name == "" || LowerAsciiString(name) == Placeholder then None else Some(name)
  }

  /**
   * No account is configured exactly when the attribute is white space only
   * (or missing) or, trimmed, spells the placeholder, letters in any case.
   */
  lemma ConfiguredUsernameIff(attribute: Option<string>)
    ensures var a := attribute.GetOr(""); var t := Trim(a);
      ConfiguredUsername(attribute).None? <==>
        (forall k | 0 <= k < |a| :: IsJsSpace(a[k]))
        || (|t| == |Placeholder| && forall k | 0 <= k < |t| :: LowerAscii(t[k]) == Placeholder[k])
  {
    var a := attribute.GetOr("");
    TrimEmptyIffBlank(a);
    LowerIsIff(Trim(a), Placeholder);
  }

  /** A configured account is non-empty, with no white space at either end. */
  lemma ConfiguredUsernameTrimmed(attribute: Option<string>)
    ensures ConfiguredUsername(attribute).Some? ==>
      var u := ConfiguredUsername(attribute).value; u != [] && !IsJsSpace(u[0]) && !IsJsSpace(u[|u| - 1])
  {
    TrimEndsWithNonSpace(attribute.GetOr(""));
  }

  /** Lower-casing gives `p` exactly when each character lower-cases to the character of `p` at its place. */
  lemma LowerIsIff(t: string, p: string)
    ensures LowerAsciiString(t) == p <==> |t| == |p| && forall k | 0 <= k < |t| :: LowerAscii(t[k]) == p[k]
  {
    var l := LowerAsciiString(t);
    if |t| == |p| && forall k | 0 <= k < |t| :: LowerAscii(t[k]) == p[k] {
      assert forall k | 0 <= k < |t| :: l[k] == p[k];
    }
  }
}
