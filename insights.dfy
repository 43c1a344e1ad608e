/**
 * The profile metrics of the insights panel: repository count, followers,
 * following, the star total and the most recent push over the fetched
 * repositories.
 */
module Insights {
  import opened Wrappers
  import opened GitHubData
  import opened StableSort

  /** The star total: each repository's count added up, a missing count adding 0. */
  function TotalStars(repos: seq<Repo>): int {
    if repos == [] then 0 else Stars(repos[0]) + TotalStars(repos[1..])
  }

  /** The total of two lists fetched one after the other is the sum of their totals. */
  lemma {:induction false} TotalStarsAppend(a: seq<Repo>, b: seq<Repo>)
    ensures TotalStars(a + b) == TotalStars(a) + TotalStars(b)
  {
    if a == [] {
      assert a + b == b;
    } else {
      assert (a + b)[1..] == a[1..] + b;
      TotalStarsAppend(a[1..], b);
    }
  }

  /** Taking one repository out of the list takes its count out of the total. */
  lemma TotalStarsRemove(b: seq<Repo>, i: nat)
    requires i < |b|
    ensures TotalStars(b) == Stars(b[i]) + TotalStars(b[..i] + b[i + 1..])
  {
    var pre, post := b[..i], b[i + 1..];
    var tail := [b[i]] + post;
    assert b == pre + tail;
    assert tail[1..] == post;
    TotalStarsAppend(pre, tail);
    TotalStarsAppend(pre, post);
  }

  /** The star total does not depend on the order in which the repositories arrive. */
  lemma {:induction false} TotalStarsPermutation(a: seq<Repo>, b: seq<Repo>)
    requires multiset(a) == multiset(b)
    ensures TotalStars(a) == TotalStars(b)
    decreases |a|
  {
    if a != [] {
      var i := MatchFirst(a, b);
      TotalStarsPermutation(a[1..], b[..i] + b[i + 1..]);
      TotalStarsRemove(b, i);
    } else {
      assert |multiset(b)| == 0;
    }
  }

  /** With no negative counts, the total is at least the count of any one repository. */
  lemma {:induction false} TotalStarsBounds(repos: seq<Repo>, k: nat)
    requires k < |repos|
    requires forall r | r in repos :: Stars(r) >= 0
    ensures 0 <= Stars(repos[k]) <= TotalStars(repos)
  {
    TotalStarsRemove(repos, k);
    TotalStarsNonNegative(repos[..k] + repos[k + 1..]);
  }

  lemma {:induction false} TotalStarsNonNegative(repos: seq<Repo>)
    requires forall r | r in repos :: Stars(r) >= 0
    ensures TotalStars(repos) >= 0
  {
    if repos != [] {
      assert repos[0] in repos;
      TotalStarsNonNegative(repos[1..]);
    }
  }

  /** The push times present, in fetch order (a missing or empty time is left out). */
  function PushTimes(repos: seq<Repo>): (ts: seq<int>)
    ensures |ts| <= |repos|
  {
    if repos == [] then []
    else
      var rest := PushTimes(repos[1..]);
      match repos[0].pushedAt
      case Some(t) => [t] + rest
      case None => rest
  }

  lemma {:induction false} PushTimesOfRepos(repos: seq<Repo>)
    ensures PushTimes(repos) == [] <==> forall r | r in repos :: r.pushedAt.None?
    ensures forall t | t in PushTimes(repos) :: exists r | r in repos :: r.pushedAt == Some(t)
    ensures forall r | r in repos && r.pushedAt.Some? :: r.pushedAt.value in PushTimes(repos)
  {
    if repos != [] {
      PushTimesOfRepos(repos[1..]);
      assert repos == [repos[0]] + repos[1..];
      forall t | t in PushTimes(repos) ensures exists r | r in repos :: r.pushedAt == Some(t) {
        if t !in PushTimes(repos[1..]) {
          assert repos[0].pushedAt == Some(t);
        }
      }
    }
  }

  function TimeKey(t: int): Key {
    Key(t, 0)
  }

  /** The timestamp sorted first when the present push times are sorted newest first. */
  function LatestPush(repos: seq<Repo>): Option<int> {
    var ts := PushTimes(repos);
    if ts == [] then None else Some(Sort(ts, TimeKey)[0])
  }

  /** The head of a newest-first sort is the newest time of the list. */
  lemma NewestFirst(ts: seq<int>)
    requires ts != []
    ensures Sort(ts, TimeKey)[0] in ts
    ensures forall t | t in ts :: t <= Sort(ts, TimeKey)[0]
  {
    var sorted := Sort(ts, TimeKey);
    assert sorted[0] in multiset(ts);
    forall t | t in ts ensures t <= sorted[0] {
      assert t in multiset(sorted);
      var j :| 0 <= j < |sorted| && sorted[j] == t;
      assert j == 0 || !Outranks(TimeKey(sorted[j]), TimeKey(sorted[0]));
    }
  }

  /**
   * There is a latest push exactly when some repository has a push time,
   * and then it is one of those times and no push time is later.
   */
  lemma LatestPushIsNewest(repos: seq<Repo>)
    ensures LatestPush(repos).None? <==> forall r | r in repos :: r.pushedAt.None?
    ensures LatestPush(repos).Some? ==>
      && (exists r | r in repos :: r.pushedAt == LatestPush(repos))
      && forall r | r in repos && r.pushedAt.Some? :: r.pushedAt.value <= LatestPush(repos).value
  {
    PushTimesOfRepos(repos);
    var ts := PushTimes(repos);
    if ts != [] {
      NewestFirst(ts);
    }
  }

  datatype Metrics = Metrics(repoCount: int, followers: int, following: int, totalStars: int, lastPush: Option<int>)

  /** The five metrics, a missing profile count falling back with `??`. */
  function Insights(profile: Profile, repos: seq<Repo>): Metrics {
    Metrics(
      profile.publicRepos.GetOr(|repos|),
      profile.followers.GetOr(0),
      profile.following.GetOr(0),
      TotalStars(repos),
      LatestPush(repos))
  }

  /**
   * The repository metric is the profile's own count when present (even 0)
   * and the number of fetched repositories otherwise; the follower counts
   * are the profile's own when present (even 0) and read as 0 when missing; the star total is that of the fetched list; the
   * last push is absent exactly when no repository has a push time, and is
   * otherwise one of them and no earlier than any of them.
   */
  lemma InsightsFallbacks(profile: Profile, repos: seq<Repo>)
    ensures var m := Insights(profile, repos);
      && (profile.publicRepos.Some? ==> m.repoCount == profile.publicRepos.value)
      && (profile.publicRepos.None? ==> m.repoCount == |repos|)
      && (profile.followers.Some? ==> m.followers == profile.followers.value)
      && (profile.followers.None? ==> m.followers == 0)
      && (profile.following.Some? ==> m.following == profile.following.value)
      && (profile.following.None? ==> m.following == 0)
      && m.totalStars == TotalStars(repos)
      && (m.lastPush.None? <==> forall r | r in repos :: r.pushedAt.None?)
      && (m.lastPush.Some? ==> exists r | r in repos :: r.pushedAt == m.lastPush)
      && (m.lastPush.Some? ==> forall r | r in repos && r.pushedAt.Some? :: r.pushedAt.value <= m.lastPush.value)
  {
    LatestPushIsNewest(repos);
  }
}
