/**
 * The records the page receives from the GitHub REST API, reduced to the
 * fields the page's rules read. Timestamps are whole numbers (for example
 * milliseconds since the epoch) instead of ISO-8601 strings.
 */
module GitHubData {
  import opened Wrappers

  /** One entry of `GET /users/{account}/repos`. */
  datatype Repo = Repo(
    name: string,
    language: Option<string>,      // `language`: null, "" or a language name
    stargazersCount: Option<int>,  // `stargazers_count`: missing, null or a number
    updatedAt: int,                // `updated_at`
    pushedAt: Option<int>,         // `pushed_at`: missing or null, or a timestamp
    homepage: Option<string>,      // `homepage`: a string, or any non-string value
    fork: bool,
    archived: bool)

  /** The counters of `GET /users/{account}` that the page shows. */
  datatype Profile = Profile(
    publicRepos: Option<int>,
    followers: Option<int>,
    following: Option<int>)

  /** `repo.stargazers_count || 0`: a missing or null count reads as 0. */
  function Stars(r: Repo): int {
    r.stargazersCount.GetOr(0)
  }

  /** `!repo.fork && !repo.archived`. */
  predicate Eligible(r: Repo) {
    !r.fork && !r.archived
  }

  /** The language a repo is counted under: none when it is null or empty (`if (!lang)`). */
  function LanguageOf(r: Repo): (l: Option<string>)
    ensures l.Some? <==> r.language.Some? && r.language.value != ""
    ensures l.Some? ==> l.value == r.language.value
  {
    if r.language.Some? && r.language.value != "" then r.language else None
  }
}
