/**
 * `loadPublicProjects` as a decision over its inputs: whether the panel
 * exists, the configured account, the configured limit and what the two
 * GitHub API requests returned.
 */
module Projects {
  import opened Wrappers
  import opened GitHubData
  import Validators
  import opened Curation
  import opened Insights
  import opened LanguageStats

  /** What the two requests gave: a failure (a non-ok status or an unreadable body) or the profile and its repositories. */
  datatype ApiResult = RequestFailed | Loaded(profile: Profile, repos: seq<Repo>)

  /** What the panel ends up showing. */
  datatype Outcome =
    | Untouched                      // the grid or the status line is missing from the page
    | NeedsUsername                  // the "Set your GitHub username ..." note
    | LoadFailed                     // the "Could not load GitHub projects ..." note
    | NoQualifying(metrics: Metrics, languages: LanguagePanel)
    | Showing(metrics: Metrics, languages: LanguagePanel, cards: seq<Repo>)

  /** The panel's outcome; `fetch` is consulted only once an account is configured. */
  function LoadPublicProjects(hasPanel: bool, usernameAttribute: Option<string>, limitAttribute: Option<string>, fetch: ApiResult): (o: Outcome)
    ensures o.Showing? ==> 0 < |o.cards| <= EffectiveLimit(ConfiguredLimit(limitAttribute))
  {
    if !hasPanel then Untouched
    else if Validators.ConfiguredUsername(usernameAttribute).None? then NeedsUsername
    else
      match fetch
      case RequestFailed => LoadFailed
      case Loaded(profile, repos) =>
        var metrics := Insights.Insights(profile, repos);
        var languages := Panel(repos);
        var curated := Curate(repos, ConfiguredLimit(limitAttribute));
        if curated == [] then NoQualifying(metrics, languages) else Showing(metrics, languages, curated)
  }

  /** The curated list is empty exactly when no repository is eligible. */
  lemma CurateEmptyIff(repos: seq<Repo>, limit: ParsedNumber)
    ensures Curate(repos, limit) == [] <==> forall r | r in repos :: !Eligible(r)
  {
    var e := Eligibles(repos);
    if e != [] {
      assert multiset(e)[e[0]] > 0;
    } else {
      forall r | r in repos ensures !Eligible(r) {
        assert multiset(repos)[r] > 0;
        assert multiset(e)[r] == 0;
      }
    }
  }

  /**
   * Each outcome happens under exactly its condition: no panel, no account,
   * a failed request, no eligible repository, or else the curated cards,
   * with the metrics and the language panel of the fetched repositories
   * whenever the requests succeed.
   */
  lemma LoadOutcomes(hasPanel: bool, usernameAttribute: Option<string>, limitAttribute: Option<string>, fetch: ApiResult)
    ensures var o := LoadPublicProjects(hasPanel, usernameAttribute, limitAttribute, fetch);
      var configured := hasPanel && Validators.ConfiguredUsername(usernameAttribute).Some?;
      && (o.Untouched? <==> !hasPanel)
      && (o.NeedsUsername? <==> hasPanel && Validators.ConfiguredUsername(usernameAttribute).None?)
      && (o.LoadFailed? <==> configured && fetch.RequestFailed?)
      && (o.NoQualifying? <==> configured && fetch.Loaded? && forall r | r in fetch.repos :: !Eligible(r))
      && (o.Showing? <==> configured && fetch.Loaded? && exists r | r in fetch.repos :: Eligible(r))
      && ((o.NoQualifying? || o.Showing?) ==>
            o.metrics == Insights.Insights(fetch.profile, fetch.repos) && o.languages == Panel(fetch.repos))
      && (o.Showing? ==> o.cards == Curate(fetch.repos, ConfiguredLimit(limitAttribute)))
  {
    if fetch.Loaded? {
      CurateEmptyIff(fetch.repos, ConfiguredLimit(limitAttribute));
    }
  }

  /** Without a configured account the outcome does not depend on what the requests would return: nothing is fetched. */
  lemma NoAccountNoRequest(usernameAttribute: Option<string>, limitAttribute: Option<string>, a: ApiResult, b: ApiResult)
    requires Validators.ConfiguredUsername(usernameAttribute).None?
    ensures LoadPublicProjects(true, usernameAttribute, limitAttribute, a) == LoadPublicProjects(true, usernameAttribute, limitAttribute, b)
  {
  }
}
