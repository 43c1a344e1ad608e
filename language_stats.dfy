/**
 * The language breakdown panel: count the repositories per language, rank
 * the languages by count, keep the top six and give each its share of the
 * repositories counted in those six.
 */
module LanguageStats {
  import opened Wrappers
  import opened GitHubData
  import opened StableSort

  /** How many languages the panel lists at most. */
  const MaxLanguages: nat := 6

  /** How many of `repos` are counted under `lang`. */
  function CountOf(repos: seq<Repo>, lang: string): nat {
    if repos == [] then 0
    else CountOf(repos[..|repos| - 1], lang) + (if LanguageOf(repos[|repos| - 1]) == Some(lang) then 1 else 0)
  }

  /** The counted languages in order of first appearance, which is the key order of the `totals` object. */
  function FirstSeen(repos: seq<Repo>): seq<string> {
    if repos == [] then []
    else
      var prev := FirstSeen(repos[..|repos| - 1]);
      match LanguageOf(repos[|repos| - 1])
      case Some(l) => if l in prev then prev else prev + [l]
      case None => prev
  }

  /** A language is listed exactly when some repository is counted under it; the empty language never is. */
  lemma {:induction false} FirstSeenHoldsCountedLanguages(repos: seq<Repo>, lang: string)
    ensures lang in FirstSeen(repos) <==> CountOf(repos, lang) > 0
    ensures CountOf(repos, "") == 0
  {
    if repos != [] {
      FirstSeenHoldsCountedLanguages(repos[..|repos| - 1], lang);
    }
  }

  /** Each language is listed once. */
  lemma {:induction false} FirstSeenDistinct(repos: seq<Repo>)
    ensures forall i, j | 0 <= i < j < |FirstSeen(repos)| :: FirstSeen(repos)[i] != FirstSeen(repos)[j]
  {
    if repos != [] {
      FirstSeenDistinct(repos[..|repos| - 1]);
    }
  }

  /**
   * `repos.reduce((acc, repo) => { ...; acc[lang] = (acc[lang] || 0) + 1; ... }, {})`:
   * the dictionary `totals` and the order in which its keys were added.
   */
  method Tally(repos: seq<Repo>) returns (keys: seq<string>, totals: map<string, nat>)
    ensures keys == FirstSeen(repos)
    ensures forall l :: l in totals <==> l in keys
    ensures forall l | l in totals :: totals[l] == CountOf(repos, l)
  {
    keys, totals := [], map[];
    for i := 0 to |repos|
      invariant keys == FirstSeen(repos[..i])
      invariant forall l :: l in totals <==> l in keys
      invariant forall l | l in totals :: totals[l] == CountOf(repos[..i], l)
    {
      assert repos[..i + 1][..i] == repos[..i];
      assert forall m :: CountOf(repos[..i + 1], m) == CountOf(repos[..i], m) + (if LanguageOf(repos[i]) == Some(m) then 1 else 0);
      var lang := repos[i].language;
      if lang.Some? && lang.value != "" {
        var l := lang.value;
        var prior := if l in totals then totals[l] else 0;
        if l !in totals {
          FirstSeenHoldsCountedLanguages(repos[..i], l);
          keys := keys + [l];
        }
        totals := totals[l := prior + 1];
      }
    }
    assert repos[..|repos|] == repos;
  }

  /** One `[language, count]` pair of `Object.entries(totals)`. */
  datatype Entry = Entry(language: string, count: nat)

  /** The comparator `(a, b) => b[1] - a[1]`: by count, descending. */
  function EntryKey(e: Entry): Key {
    Key(e.count, 0)
  }

  /** `Object.entries(totals)` for the totals of `repos`. */
  function EntriesOf(repos: seq<Repo>): (es: seq<Entry>)
    ensures |es| == |FirstSeen(repos)|
    ensures forall i | 0 <= i < |es| :: es[i] == Entry(FirstSeen(repos)[i], CountOf(repos, FirstSeen(repos)[i]))
  {
    var keys := FirstSeen(repos);
    seq(|keys|, i requires 0 <= i < |keys| => Entry(keys[i], CountOf(repos, keys[i])))
  }

  /** `.sort((a, b) => b[1] - a[1]).slice(0, 6)`. */
  function TopLanguages(repos: seq<Repo>): seq<Entry> {
    var sorted := Sort(EntriesOf(repos), EntryKey);
    if |sorted| <= MaxLanguages then sorted else sorted[..MaxLanguages]
  }

  /** Every kept entry is an entry of the totals. */
  lemma TopLanguagesFromTotals(repos: seq<Repo>)
    ensures multiset(TopLanguages(repos)) <= multiset(EntriesOf(repos))
    ensures SortedDesc(TopLanguages(repos), EntryKey)
  {
    var sorted := Sort(EntriesOf(repos), EntryKey);
    TakeSorted(sorted, EntryKey, |TopLanguages(repos)|);
  }

  /**
   * The ranking holds at most six entries, as many as there are languages up
   * to that bound, sorted by count; each names a non-empty language and
   * carries the number of repositories counted under it.
   */
  lemma TopLanguagesAreCounts(repos: seq<Repo>)
    ensures var t := TopLanguages(repos);
      && |t| <= MaxLanguages
      && |t| == (if |FirstSeen(repos)| < MaxLanguages then |FirstSeen(repos)| else MaxLanguages)
      && (forall i | 0 <= i < |t| - 1 :: t[i].count >= t[i + 1].count)
      && (forall e | e in t :: e.language != "" && e.count > 0 && e.count == CountOf(repos, e.language))
  {
    var t := TopLanguages(repos);
    TopLanguagesFromTotals(repos);
    forall e | e in t ensures e.language != "" && e.count > 0 && e.count == CountOf(repos, e.language) {
      assert e in multiset(EntriesOf(repos));
      var i :| 0 <= i < |EntriesOf(repos)| && EntriesOf(repos)[i] == e;
      FirstSeenHoldsCountedLanguages(repos, e.language);
    }
  }

  /** A counted language left out of the ranking has no more repositories than any language in it. */
  lemma TopLanguagesAreTheMostUsed(repos: seq<Repo>, lang: string)
    requires CountOf(repos, lang) > 0
    requires forall e | e in TopLanguages(repos) :: e.language != lang
    ensures forall e | e in TopLanguages(repos) :: CountOf(repos, lang) <= e.count
  {
    var sorted := Sort(EntriesOf(repos), EntryKey);
    var t := TopLanguages(repos);
    var n := |t|;
    assert t == sorted[..n];
    FirstSeenHoldsCountedLanguages(repos, lang);
    var i :| 0 <= i < |FirstSeen(repos)| && FirstSeen(repos)[i] == lang;
    var x := EntriesOf(repos)[i];
    assert x in multiset(sorted);
    assert x !in multiset(t);
    DroppedRankNoHigher(sorted, EntryKey, n);
  }

  /** Languages with equal counts keep the order in which they were first seen. */
  lemma TopLanguagesKeepTieOrder(repos: seq<Repo>, k: Key)
    ensures WithKey(TopLanguages(repos), EntryKey, k) <= WithKey(EntriesOf(repos), EntryKey, k)
  {
    var sorted := Sort(EntriesOf(repos), EntryKey);
    SortStable(EntriesOf(repos), EntryKey, k);
    PrefixWithKey(sorted, EntryKey, k, |TopLanguages(repos)|);
  }

  /** The ranking is empty exactly when no repository has a language. */
  lemma NoLanguagesIffNoneCounted(repos: seq<Repo>)
    ensures TopLanguages(repos) == [] <==> forall r | r in repos :: LanguageOf(r).None?
  {
    TopLanguagesAreCounts(repos);
    if TopLanguages(repos) == [] {
      forall r | r in repos ensures LanguageOf(r).None? {
        if LanguageOf(r).Some? {
          var k :| 0 <= k < |repos| && repos[k] == r;
          CountedRepoIsCounted(repos, k);
          FirstSeenHoldsCountedLanguages(repos, LanguageOf(r).value);
        }
      }
    } else {
      var l := TopLanguages(repos)[0].language;
      if forall r | r in repos :: LanguageOf(r).None? {
        NothingCounted(repos, l);
      }
    }
  }

  lemma {:induction false} CountedRepoIsCounted(repos: seq<Repo>, k: nat)
    requires k < |repos| && LanguageOf(repos[k]).Some?
    ensures CountOf(repos, LanguageOf(repos[k]).value) > 0
  {
    if k < |repos| - 1 {
      CountedRepoIsCounted(repos[..|repos| - 1], k);
    }
  }

  lemma {:induction false} NothingCounted(repos: seq<Repo>, lang: string)
    requires forall r | r in repos :: LanguageOf(r).None?
    ensures CountOf(repos, lang) == 0
  {
    if repos != [] {
      NothingCounted(repos[..|repos| - 1], lang);
    }
  }

  /** `ranked.reduce((sum, [, count]) => sum + count, 0)`. */
  function SumCounts(es: seq<Entry>): nat {
    if es == [] then 0 else es[0].count + SumCounts(es[1..])
  }

  /**
   * `Math.round((count / total) * 100)` on the exact ratio: the integer
   * nearest to 100 * count / total, halves rounded up.
   */
  function Percent(count: nat, total: nat): (p: int)
    requires total > 0
    ensures 2 * total * p <= 200 * count + total < 2 * total * (p + 1)
  {
    (200 * count + total) / (2 * total)
  }

  /** One row of the panel: the language, its count and its rounded share. */
  datatype LanguageRow = LanguageRow(language: string, count: nat, percent: int)

  /** What the panel shows: the "No language data available." note, or one row per kept language. */
  datatype LanguagePanel = NoLanguageData | Breakdown(rows: seq<LanguageRow>)

  lemma {:induction false} SumCountsPositive(es: seq<Entry>)
    requires es != [] && es[0].count > 0
    ensures SumCounts(es) > 0
  {
  }

  /** The panel for `repos`: shares are taken against the sum of the kept counts. */
  function Panel(repos: seq<Repo>): LanguagePanel {
    var ranked := TopLanguages(repos);
    if ranked == [] then NoLanguageData
    else
      TopLanguagesAreCounts(repos);
      var total := SumCounts(ranked);
      assert total > 0 by { SumCountsPositive(ranked); }
      Breakdown(seq(|ranked|, i requires 0 <= i < |ranked| =>
        LanguageRow(ranked[i].language, ranked[i].count, Percent(ranked[i].count, total))))
  }

  /** How many of `repos` have a language. */
  function CountedRepos(repos: seq<Repo>): nat {
    if repos == [] then 0
    else CountedRepos(repos[..|repos| - 1]) + (if LanguageOf(repos[|repos| - 1]).Some? then 1 else 0)
  }

  /** The share denominator of the panel: the sum of the kept counts. */
  function Denominator(repos: seq<Repo>): nat {
    SumCounts(TopLanguages(repos))
  }

  lemma {:induction false} SumCountsAppend(a: seq<Entry>, b: seq<Entry>)
    ensures SumCounts(a + b) == SumCounts(a) + SumCounts(b)
  {
    if a == [] {
      assert a + b == b;
    } else {
      assert (a + b)[1..] == a[1..] + b;
      SumCountsAppend(a[1..], b);
    }
  }

  lemma SumCountsRemove(b: seq<Entry>, i: nat)
    requires i < |b|
    ensures SumCounts(b) == b[i].count + SumCounts(b[..i] + b[i + 1..])
  {
    var pre, post := b[..i], b[i + 1..];
    var tail := [b[i]] + post;
    assert b == pre + tail;
    assert tail[1..] == post;
    SumCountsAppend(pre, tail);
    SumCountsAppend(pre, post);
  }

  /** The sum of counts does not depend on the order of the entries. */
  lemma {:induction false} SumCountsPermutation(a: seq<Entry>, b: seq<Entry>)
    requires multiset(a) == multiset(b)
    ensures SumCounts(a) == SumCounts(b)
    decreases |a|
  {
    if a != [] {
      var i := MatchFirst(a, b);
      SumCountsPermutation(a[1..], b[..i] + b[i + 1..]);
      SumCountsRemove(b, i);
    } else {
      assert |multiset(b)| == 0;
    }
  }

  /** The counts of one repository list, summed over a list of languages. */
  function SumOver(keys: seq<string>, repos: seq<Repo>): nat {
    if keys == [] then 0 else CountOf(repos, keys[0]) + SumOver(keys[1..], repos)
  }

  /** One more repository adds one to the sum over any list of distinct languages that names its language. */
  lemma {:induction false} SumOverStep(keys: seq<string>, repos: seq<Repo>)
    requires repos != []
    requires forall i, j | 0 <= i < j < |keys| :: keys[i] != keys[j]
    ensures var init, l := repos[..|repos| - 1], LanguageOf(repos[|repos| - 1]);
      SumOver(keys, repos) == SumOver(keys, init) + (if l.Some? && l.value in keys then 1 else 0)
  {
    if keys != [] {
      SumOverStep(keys[1..], repos);
      var l := LanguageOf(repos[|repos| - 1]);
      assert l.Some? && l.value in keys ==> (l.value == keys[0] <==> l.value !in keys[1..]);
    }
  }

  lemma {:induction false} SumOverAppend(a: seq<string>, b: seq<string>, repos: seq<Repo>)
    ensures SumOver(a + b, repos) == SumOver(a, repos) + SumOver(b, repos)
  {
    if a == [] {
      assert a + b == b;
    } else {
      assert (a + b)[1..] == a[1..] + b;
      SumOverAppend(a[1..], b, repos);
    }
  }

  lemma {:induction false} SumOverUncounted(keys: seq<string>, repos: seq<Repo>)
    requires forall k | k in keys :: CountOf(repos, k) == 0
    ensures SumOver(keys, repos) == 0
  {
    if keys != [] {
      SumOverUncounted(keys[1..], repos);
    }
  }

  /** Summed over all its languages, the counts add up to the repositories that have a language. */
  lemma {:induction false} CountsAddUp(repos: seq<Repo>)
    ensures SumOver(FirstSeen(repos), repos) == CountedRepos(repos)
  {
    if repos != [] {
      var init := repos[..|repos| - 1];
      var prev := FirstSeen(init);
      var keys := FirstSeen(repos);
      CountsAddUp(init);
      FirstSeenDistinct(repos);
      SumOverStep(keys, repos);
      match LanguageOf(repos[|repos| - 1])
      case None =>
      case Some(l) =>
        if l !in prev {
          SumOverAppend(prev, [l], init);
          FirstSeenHoldsCountedLanguages(init, l);
        }
    }
  }

  lemma {:induction false} SumOfEntries(keys: seq<string>, repos: seq<Repo>, es: seq<Entry>)
    requires |es| == |keys| && forall i | 0 <= i < |es| :: es[i] == Entry(keys[i], CountOf(repos, keys[i]))
    ensures SumCounts(es) == SumOver(keys, repos)
  {
    if keys != [] {
      SumOfEntries(keys[1..], repos, es[1..]);
    }
  }

  /** Summed over all languages, the counts add up to the repositories that have a language. */
  lemma EntriesAddUp(repos: seq<Repo>)
    ensures SumCounts(Sort(EntriesOf(repos), EntryKey)) == CountedRepos(repos)
  {
    var es := EntriesOf(repos);
    SumOfEntries(FirstSeen(repos), repos, es);
    CountsAddUp(repos);
    SumCountsPermutation(Sort(es, EntryKey), es);
  }

  lemma {:induction false} DroppingCountedShrinks(s: seq<Entry>, n: nat)
    requires n < |s| && s[|s| - 1].count > 0
    ensures SumCounts(s[..n]) < SumCounts(s)
  {
    var last := s[|s| - 1];
    assert s == s[..n] + s[n..];
    SumCountsAppend(s[..n], s[n..]);
    assert s[n..] == s[n..|s| - 1] + [last];
    SumCountsAppend(s[n..|s| - 1], [last]);
  }

  /**
   * The denominator counts only the repositories of the kept languages: it
   * equals the number of repositories with a language when there are at
   * most six languages, and is smaller when there are more.
   */
  lemma DenominatorCountsKeptLanguages(repos: seq<Repo>)
    ensures |FirstSeen(repos)| <= MaxLanguages ==> Denominator(repos) == CountedRepos(repos)
    ensures |FirstSeen(repos)| > MaxLanguages ==> Denominator(repos) < CountedRepos(repos)
  {
    var es := EntriesOf(repos);
    var sorted := Sort(es, EntryKey);
    EntriesAddUp(repos);
    if |sorted| > MaxLanguages {
      var last := sorted[|sorted| - 1];
      assert last in multiset(es);
      var i :| 0 <= i < |es| && es[i] == last;
      FirstSeenHoldsCountedLanguages(repos, last.language);
      DroppingCountedShrinks(sorted, MaxLanguages);
    }
  }

  lemma {:induction false} EntryAtMostSum(es: seq<Entry>, i: nat)
    requires i < |es|
    ensures es[i].count <= SumCounts(es)
  {
    if i > 0 {
      EntryAtMostSum(es[1..], i - 1);
    }
  }

  lemma {:induction false} MulMonotone(t: nat, a: int, b: int)
    ensures a >= b ==> t * a >= t * b
  {
    if t > 0 {
      MulMonotone(t - 1, a, b);
      assert t * a == (t - 1) * a + a;
      assert t * b == (t - 1) * b + b;
    }
  }

  /** A share of a part of the total lies between 0 and 100. */
  lemma PercentInRange(count: nat, total: nat)
    requires 0 < total && count <= total
    ensures 0 <= Percent(count, total) <= 100
  {
    var p := Percent(count, total);
    MulMonotone(2 * total, p, 101);
    MulMonotone(2 * total, 0, p + 1);
  }

  /** Each row shows its count and its share of the kept counts, a share between 0 and 100. */
  lemma PanelShares(repos: seq<Repo>)
    ensures Panel(repos).Breakdown? ==>
      var rows, t := Panel(repos).rows, TopLanguages(repos);
      && |rows| == |t|
      && forall i | 0 <= i < |rows| ::
           && rows[i].language == t[i].language && rows[i].count == t[i].count
           && rows[i].percent == Percent(rows[i].count, Denominator(repos))
           && 0 <= rows[i].percent <= 100
  {
    if Panel(repos).Breakdown? {
      var rows, t := Panel(repos).rows, TopLanguages(repos);
      TopLanguagesAreCounts(repos);
      assert t[0] in t;
      SumCountsPositive(t);
      forall i | 0 <= i < |rows| ensures 0 <= rows[i].percent <= 100 {
        EntryAtMostSum(t, i);
        PercentInRange(t[i].count, Denominator(repos));
      }
    }
  }

  function SumPercents(rows: seq<LanguageRow>): int {
    if rows == [] then 0 else rows[0].percent + SumPercents(rows[1..])
  }

  function SumRowCounts(rows: seq<LanguageRow>): nat {
    if rows == [] then 0 else rows[0].count + SumRowCounts(rows[1..])
  }

  /** The arithmetic of one row of `RoundingBounds`. */
  lemma RoundingStep(total: nat, p: int, c: nat, sp: int, sc: nat, n: nat)
    requires 2 * total * p <= 200 * c + total < 2 * total * (p + 1)
    requires 2 * total * sp <= 200 * sc + n * total
    requires 200 * sc + n * total + n <= 2 * total * (sp + n)
    ensures 2 * total * (p + sp) <= 200 * (c + sc) + (n + 1) * total
    ensures 200 * (c + sc) + (n + 1) * total + (n + 1) <= 2 * total * (p + sp + n + 1)
  {
    assert 2 * total * (p + sp) == 2 * total * p + 2 * total * sp;
    assert 2 * total * (p + sp + n + 1) == 2 * total * (p + 1) + 2 * total * (sp + n);
    assert (n + 1) * total == n * total + total;
  }

  /** Rounding each share moves the sum of the shares by at most half a point per row. */
  lemma {:induction false} RoundingBounds(rows: seq<LanguageRow>, total: nat)
    requires total > 0
    requires forall i | 0 <= i < |rows| :: rows[i].percent == Percent(rows[i].count, total)
    ensures 2 * total * SumPercents(rows) <= 200 * SumRowCounts(rows) + |rows| * total
    ensures 200 * SumRowCounts(rows) + |rows| * total + |rows| <= 2 * total * (SumPercents(rows) + |rows|)
  {
    if rows != [] {
      var tail := rows[1..];
      RoundingBounds(tail, total);
      assert rows[0].percent == Percent(rows[0].count, total);
      RoundingStep(total, rows[0].percent, rows[0].count, SumPercents(tail), SumRowCounts(tail), |tail|);
    }
  }

  lemma {:induction false} RowCountsAreEntryCounts(rows: seq<LanguageRow>, es: seq<Entry>)
    requires |rows| == |es| && forall i | 0 <= i < |rows| :: rows[i].count == es[i].count
    ensures SumRowCounts(rows) == SumCounts(es)
  {
    if rows != [] {
      RowCountsAreEntryCounts(rows[1..], es[1..]);
    }
  }

  /**
   * The rounded shares add up to 100 give or take half a point per row
   * (six rows: between 97 and 103); they are not bounded by 100.
   */
  lemma SharesSumNearHundred(repos: seq<Repo>)
    ensures Panel(repos).Breakdown? ==>
      var rows := Panel(repos).rows;
      200 - |rows| < 2 * SumPercents(rows) <= 200 + |rows|
  {
    if Panel(repos).Breakdown? {
      var rows, t := Panel(repos).rows, TopLanguages(repos);
      PanelShares(repos);
      RowCountsAreEntryCounts(rows, t);
      RoundedSharesNearHundred(rows, Denominator(repos));
    }
  }

  lemma RoundedSharesNearHundred(rows: seq<LanguageRow>, total: nat)
    requires total > 0 && SumRowCounts(rows) == total
    requires forall i | 0 <= i < |rows| :: rows[i].percent == Percent(rows[i].count, total)
    ensures 200 - |rows| < 2 * SumPercents(rows) <= 200 + |rows|
  {
    RoundingBounds(rows, total);
    SharesArithmetic(total, SumPercents(rows), |rows|);
  }

  /** The arithmetic of `RoundedSharesNearHundred`: dividing the bounds by the total. */
  lemma SharesArithmetic(total: nat, s: int, n: nat)
    requires total > 0 && n > 0
    requires 2 * total * s <= 200 * total + n * total
    requires 200 * total + n * total + n <= 2 * total * (s + n)
    ensures 200 - n < 2 * s <= 200 + n
  {
    assert 2 * total * s == total * (2 * s);
    assert 200 * total + n * total == total * (200 + n);
    assert 2 * total * (s + n) == total * (2 * s + 2 * n);
    MulMonotone(total, 2 * s, 201 + n);
    assert total * (201 + n) == total * (200 + n) + total;
    MulMonotone(total, 200 + n, 2 * s + 2 * n);
  }

  /** Six languages with equal counts get 17% each, 102% in all. */
  lemma EqualSharesOverflow(count: nat)
    requires count > 0
    ensures Percent(count, 6 * count) == 17
    ensures 6 * Percent(count, 6 * count) == 102
  {
    var p := Percent(count, 6 * count);
    assert 12 * count * p <= 206 * count < 12 * count * (p + 1);
    MulMonotone(12 * count, p, 18);
    MulMonotone(12 * count, 16, p);
    assert 12 * count * (p + 1) == 12 * count * p + 12 * count;
  }

  /** `renderLanguageStats` without the DOM: tally, rank, then compute the shares. */
  method RenderLanguageStats(repos: seq<Repo>) returns (panel: LanguagePanel)
    ensures panel == Panel(repos)
  {
    var keys, totals := Tally(repos);
    var entries := seq(|keys|, i requires 0 <= i < |keys| => Entry(keys[i], totals[keys[i]]));
    assert entries == EntriesOf(repos);
    var sorted := Sort(entries, EntryKey);
    var ranked := if |sorted| <= MaxLanguages then sorted else sorted[..MaxLanguages];
    if ranked == [] {
      panel := NoLanguageData;
    } else {
      TopLanguagesAreCounts(repos);
      var total := SumCounts(ranked);
      SumCountsPositive(ranked);
      panel := Breakdown(seq(|ranked|, i requires 0 <= i < |ranked| =>
        LanguageRow(ranked[i].language, ranked[i].count, Percent(ranked[i].count, total))));
    }
  }
}
