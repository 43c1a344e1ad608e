/**
 * The chain that picks the repositories shown as cards
 * (`repos.filter(...).sort(...).slice(0, limit)`) and the display limit
 * read from the page's `data-github-limit` attribute.
 */
module Curation {
  import opened Wrappers
  import opened GitHubData
  import opened StableSort
  import Text

  /** The fallback display limit. */
  const DefaultLimit: nat := 6

  /** What `Number.parseInt` returns: an integer, or `NotFinite` for NaN and the two infinities. */
  datatype ParsedNumber = Finite(value: int) | NotFinite

  /**
   * The least integer that a JavaScript number rounds to Infinity:
   * 2^1024 - 2^970, halfway between the largest double and 2^1024.
   */
  const NumberOverflow: int := 0xfffffffffffffc00000000000000000000000000000000000000000000000000000000000000000000000000000000000000000000000000000000000000000000000000000000000000000000000000000000000000000000000000000000000000000000000000000000000000000000000000000000000000000000000000

  predicate IsDigit(c: char) {
    '0' <= c <= '9'
  }

  /** The longest prefix of `s` made of decimal digits. */
  function DigitPrefix(s: string): (d: string)
    ensures d <= s
    ensures forall k :: 0 <= k < |d| ==> IsDigit(d[k])
    ensures |d| == |s| || !IsDigit(s[|d|])
  {
    if s != [] && IsDigit(s[0]) then [s[0]] + DigitPrefix(s[1..]) else []
  }

  function DigitValue(c: char): nat
    requires IsDigit(c)
  {
    c as int - '0' as int
  }

  /** The number a string of decimal digits denotes, most significant digit first. */
  function DigitsValue(d: string): nat
    requires forall k :: 0 <= k < |d| ==> IsDigit(d[k])
  {
    if d == [] then 0 else 10 * DigitsValue(d[..|d| - 1]) + DigitValue(d[|d| - 1])
  }

  /** The digits of `parseInt` after white space and sign, or `NotFinite` when there are none or too many. */
  function ParseMagnitude(unsigned: string): ParsedNumber {
    var digits := DigitPrefix(unsigned);
    if digits == [] then NotFinite
    else
      var m := DigitsValue(digits);
      if m >= NumberOverflow then NotFinite else Finite(m)
  }

  /**
   * `Number.parseInt(s, 10)`: skip leading white space, read an optional
   * sign, then the longest run of digits; no digits gives NaN, and a value
   * too large for a double gives an infinity.
   */
  function ParseInt(s: string): ParsedNumber {
    ParseSigned(Text.TrimStart(s))
  }

  /** `parseInt` once the leading white space is gone. */
  function ParseSigned(t: string): ParsedNumber {
    var negative := t != [] && t[0] == '-';
    var unsigned := if t != [] && (t[0] == '-' || t[0] == '+') then t[1..] else t;
    match ParseMagnitude(unsigned)
    case NotFinite => NotFinite
    case Finite(m) => Finite(if negative then -m else m)
  }

  /** `Number.parseInt(document.body.dataset.githubLimit || "6", 10)`: a missing or empty attribute reads as "6". */
  function ConfiguredLimit(attribute: Option<string>): ParsedNumber {
    ParseInt(if attribute.None? || attribute.value == "" then "6" else attribute.value)
  }

  /** `Number.isFinite(githubLimit) && githubLimit > 0 ? githubLimit : 6`. */
  function EffectiveLimit(limit: ParsedNumber): (n: nat)
    ensures n > 0
    ensures limit.Finite? && limit.value > 0 ==> n == limit.value
    ensures !(limit.Finite? && limit.value > 0) ==> n == DefaultLimit
  {
    if limit.Finite? && limit.value > 0 then limit.value else DefaultLimit
  }

  /** The decimal spelling of `n`, without leading zeros. */
  function Decimal(n: nat): (d: string)
    ensures d != [] && IsDigit(d[0])
    ensures forall k :: 0 <= k < |d| ==> IsDigit(d[k])
  {
    if n < 10 then [('0' as int + n) as char] else Decimal(n / 10) + [('0' as int + n % 10) as char]
  }

  lemma {:induction false} DecimalValue(n: nat)
    ensures DigitsValue(Decimal(n)) == n
  {
    if n >= 10 {
      var d := Decimal(n);
      assert d[..|d| - 1] == Decimal(n / 10);
      DecimalValue(n / 10);
    }
  }

  lemma {:induction false} DigitPrefixOfDigits(d: string, rest: string)
    requires forall k :: 0 <= k < |d| ==> IsDigit(d[k])
    requires rest == [] || !IsDigit(rest[0])
    ensures DigitPrefix(d + rest) == d
  {
    if d != [] {
      assert (d + rest)[1..] == d[1..] + rest;
      DigitPrefixOfDigits(d[1..], rest);
    } else {
      assert d + rest == rest;
    }
  }

  /** Any non-empty run of digits, leading zeros included, followed by a non-digit. */
  predicate DigitRun(d: string, rest: string) {
    && d != []
    && (forall k :: 0 <= k < |d| ==> IsDigit(d[k]))
    && (rest == [] || !IsDigit(rest[0]))
  }

  lemma MagnitudeOfDigits(d: string, rest: string)
    requires DigitRun(d, rest) && DigitsValue(d) < NumberOverflow
    ensures ParseMagnitude(d + rest) == Finite(DigitsValue(d))
  {
    DigitPrefixOfDigits(d, rest);
  }

  /** The sign `parseInt` reads before the digits: none, a plus or a minus. */
  datatype SignMark = NoSign | Plus | Minus

  /** The spelling of a sign mark. */
  function Sign(m: SignMark): string {
    match m
    case NoSign => []
    case Plus => ['+']
    case Minus => ['-']
  }

  /** The value a digit run denotes under a sign mark: only a minus negates. */
  function Signed(m: SignMark, n: nat): int {
    if m == Minus then -(n as int) else n
  }

  lemma ParseSignedMinus(u: string)
    ensures ParseSigned(['-'] + u) == match ParseMagnitude(u)
                                       case NotFinite => NotFinite
                                       case Finite(m) => Finite(-m)
  {
    assert (['-'] + u)[1..] == u;
  }

  lemma ParseSignedPlus(u: string)
    ensures ParseSigned(['+'] + u) == ParseMagnitude(u)
  {
    assert (['+'] + u)[1..] == u;
  }

  lemma ParseSignedUnsigned(u: string)
    requires u != [] && IsDigit(u[0])
    ensures ParseSigned(u) == ParseMagnitude(u)
  {
  }

  lemma ParseIntSkipsPadding(pad: string, t: string)
    requires forall k :: 0 <= k < |pad| ==> Text.IsJsSpace(pad[k])
    requires t != [] && (t[0] == '-' || t[0] == '+' || IsDigit(t[0]))
    ensures ParseInt(pad + t) == ParseSigned(t)
  {
    Text.TrimStartSkipsPadding(pad, t);
  }

  lemma ParseSignedDigits(m: SignMark, d: string, rest: string)
    requires DigitRun(d, rest) && DigitsValue(d) < NumberOverflow
    ensures ParseSigned(Sign(m) + (d + rest)) == Finite(Signed(m, DigitsValue(d)))
  {
    MagnitudeOfDigits(d, rest);
    match m
    case Minus => ParseSignedMinus(d + rest);
    case Plus => ParseSignedPlus(d + rest);
    case NoSign =>
      assert Sign(m) + (d + rest) == d + rest;
      ParseSignedUnsigned(d + rest);
  }

  /**
   * `parseInt` reads a run of digits with an optional `+` or `-` before it,
   * whatever white space comes before that and whatever non-digit text
   * comes after it.
   */
  lemma ParseIntReadsDigits(pad: string, m: SignMark, d: string, rest: string)
    requires forall k :: 0 <= k < |pad| ==> Text.IsJsSpace(pad[k])
    requires DigitRun(d, rest) && DigitsValue(d) < NumberOverflow
    ensures ParseInt(pad + Sign(m) + d + rest) == Finite(Signed(m, DigitsValue(d)))
  {
    var signed := Sign(m) + (d + rest);
    assert pad + Sign(m) + d + rest == pad + signed;
    assert signed[0] == match m case Minus => '-' case Plus => '+' case NoSign => d[0];
    ParseIntSkipsPadding(pad, signed);
    ParseSignedDigits(m, d, rest);
  }

  /** `parseInt` reads back the decimal spelling of every integer below the overflow bound. */
  lemma ParseIntReadsDecimal(n: nat)
    requires n < NumberOverflow
    ensures ParseInt(Decimal(n)) == Finite(n)
  {
    var d := Decimal(n);
    DecimalValue(n);
    assert DigitRun(d, []);
    ParseIntReadsDigits([], NoSign, d, []);
    assert [] + Sign(NoSign) + d + [] == d;
  }

  /** A missing or empty attribute reads as the default limit. */
  lemma MissingLimitIsDefault(attribute: Option<string>)
    requires attribute.None? || attribute == Some("")
    ensures EffectiveLimit(ConfiguredLimit(attribute)) == DefaultLimit
  {
    ParseIntReadsDecimal(6);
    assert Decimal(6) == "6";
  }

  /** A numeric attribute, signed or not, is used when it is positive; zero and negative numbers fall back to 6. */
  lemma NumericLimit(pad: string, m: SignMark, d: string, rest: string)
    requires forall k :: 0 <= k < |pad| ==> Text.IsJsSpace(pad[k])
    requires DigitRun(d, rest) && DigitsValue(d) < NumberOverflow
    ensures var attribute := Some(pad + Sign(m) + d + rest);
      var n := DigitsValue(d);
      EffectiveLimit(ConfiguredLimit(attribute)) == if m != Minus && n > 0 then n else DefaultLimit
  {
    ParseIntReadsDigits(pad, m, d, rest);
  }

  /** Text without digits after the white space and sign is NaN, so the limit falls back to 6. */
  lemma NonNumericLimitIsDefault(attribute: string)
    requires attribute != []
    requires var t := Text.TrimStart(attribute);
      var u := if t != [] && (t[0] == '-' || t[0] == '+') then t[1..] else t;
      u == [] || !IsDigit(u[0])
    ensures EffectiveLimit(ConfiguredLimit(Some(attribute))) == DefaultLimit
  {
  }

  /** The comparator's key: star count (missing reads as 0), then `updated_at`, both descending. */
  function RepoKey(r: Repo): Key {
    Key(Stars(r), r.updatedAt)
  }

  /** `repos.filter((repo) => !repo.fork && !repo.archived)`. */
  function Eligibles(repos: seq<Repo>): (r: seq<Repo>)
    ensures forall x :: multiset(r)[x] == if Eligible(x) then multiset(repos)[x] else 0
  {
    if repos == [] then []
    else
      assert repos == [repos[0]] + repos[1..];
      (if Eligible(repos[0]) then [repos[0]] else []) + Eligibles(repos[1..])
  }

  /** The eligible repositories in display order. */
  function Ranked(repos: seq<Repo>): seq<Repo> {
    Sort(Eligibles(repos), RepoKey)
  }

  /** The curated list: filter, stable sort, then slice to the effective limit. */
  function Curate(repos: seq<Repo>, limit: ParsedNumber): (r: seq<Repo>)
    ensures |r| <= EffectiveLimit(limit)
    ensures |r| == if |Eligibles(repos)| < EffectiveLimit(limit) then |Eligibles(repos)| else EffectiveLimit(limit)
    ensures forall x | x in r :: Eligible(x) && x in repos
    ensures multiset(r) <= multiset(Eligibles(repos))
    ensures forall i | 0 <= i < |r| - 1 ::
              Stars(r[i]) >= Stars(r[i + 1]) && (Stars(r[i]) == Stars(r[i + 1]) ==> r[i].updatedAt >= r[i + 1].updatedAt)
  {
    var ranked := Ranked(repos);
    var n := if |ranked| <= EffectiveLimit(limit) then |ranked| else EffectiveLimit(limit);
    RankedPrefix(repos, n);
    ranked[..n]
  }

  /** A prefix of the ranked list holds eligible input repositories in display order. */
  lemma RankedPrefix(repos: seq<Repo>, n: nat)
    requires n <= |Ranked(repos)|
    ensures var r := Ranked(repos)[..n];
      && |Ranked(repos)| == |Eligibles(repos)|
      && (forall x | x in r :: Eligible(x) && x in repos)
      && multiset(r) <= multiset(Eligibles(repos))
      && forall i | 0 <= i < |r| - 1 ::
           Stars(r[i]) >= Stars(r[i + 1]) && (Stars(r[i]) == Stars(r[i + 1]) ==> r[i].updatedAt >= r[i + 1].updatedAt)
  {
    var ranked := Ranked(repos);
    TakeSorted(ranked, RepoKey, n);
    EligiblesFromInput(repos, ranked[..n]);
    assert |multiset(ranked)| == |multiset(Eligibles(repos))|;
    var r := ranked[..n];
    forall i | 0 <= i < |r| - 1
      ensures Stars(r[i]) >= Stars(r[i + 1]) && (Stars(r[i]) == Stars(r[i + 1]) ==> r[i].updatedAt >= r[i + 1].updatedAt)
    {
      assert !Outranks(RepoKey(r[i + 1]), RepoKey(r[i]));
    }
  }

  lemma EligiblesFromInput(repos: seq<Repo>, r: seq<Repo>)
    requires multiset(r) <= multiset(Eligibles(repos))
    ensures forall x | x in r :: Eligible(x) && x in repos
  {
    forall x | x in r ensures Eligible(x) && x in repos {
      assert x in multiset(r);
      assert multiset(Eligibles(repos))[x] > 0;
      assert x in multiset(repos);
    }
  }

  /** Whatever the slice drops ranks no higher than anything it keeps. */
  lemma CurateKeepsTheTop(repos: seq<Repo>, limit: ParsedNumber)
    ensures var r := Curate(repos, limit);
      forall x, y | x in multiset(Eligibles(repos)) - multiset(r) && y in r :: !Outranks(RepoKey(x), RepoKey(y))
  {
    var ranked := Ranked(repos);
    var n := |Curate(repos, limit)|;
    DroppedRankNoHigher(ranked, RepoKey, n);
  }

  /** Repositories that tie on stars and update time keep the order in which the API listed them. */
  lemma CurateKeepsTieOrder(repos: seq<Repo>, limit: ParsedNumber, k: Key)
    ensures WithKey(Curate(repos, limit), RepoKey, k) <= WithKey(Eligibles(repos), RepoKey, k)
  {
    var ranked := Ranked(repos);
    SortStable(Eligibles(repos), RepoKey, k);
    PrefixWithKey(ranked, RepoKey, k, |Curate(repos, limit)|);
  }
}
