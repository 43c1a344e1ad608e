/**
 * `Array.prototype.sort` with a comparator that orders by a descending key,
 * which is the shape of both comparators of the page
 * (`b.stars - a.stars` then `b.updated - a.updated`, and `b[1] - a[1]`).
 * The sort is stable, as ECMAScript requires since 2019: elements whose
 * comparator result is 0 keep their input order.
 */
module StableSort {
  /** A sort key, compared lexicographically: `major` first, then `minor`. */
  datatype Key = Key(major: int, minor: int)

  /** The comparator puts an element with key `a` strictly before one with key `b`. */
  predicate Outranks(a: Key, b: Key) {
    a.major > b.major || (a.major == b.major && a.minor > b.minor)
  }

  /** No element is strictly outranked by a later one. */
  ghost predicate SortedDesc<T>(s: seq<T>, key: T -> Key) {
    forall i, j | 0 <= i < j < |s| :: !Outranks(key(s[j]), key(s[i]))
  }

  /** Inserts `x` before the first element it does not strictly follow, so it precedes its equals. */
  function Insert<T>(x: T, s: seq<T>, key: T -> Key): seq<T> {
    if s == [] || !Outranks(key(s[0]), key(x)) then [x] + s else [s[0]] + Insert(x, s[1..], key)
  }

  /** Nothing in `s` outranks `h`. */
  ghost predicate NoneAbove<T>(s: seq<T>, key: T -> Key, h: T) {
    forall y | y in s :: !Outranks(key(y), key(h))
  }

  lemma ConsSorted<T>(h: T, t: seq<T>, key: T -> Key)
    requires SortedDesc(t, key) && NoneAbove(t, key, h)
    ensures SortedDesc([h] + t, key)
  {
    var r := [h] + t;
    forall i, j | 0 <= i < j < |r| ensures !Outranks(key(r[j]), key(r[i])) {
      assert r[j] == t[j - 1];
      if i > 0 {
        assert r[i] == t[i - 1];
      }
    }
  }

  lemma {:induction false} InsertSorted<T>(x: T, s: seq<T>, key: T -> Key)
    requires SortedDesc(s, key)
    ensures SortedDesc(Insert(x, s, key), key)
    ensures multiset(Insert(x, s, key)) == multiset(s) + multiset{x}
  {
    if s == [] || !Outranks(key(s[0]), key(x)) {
      assert NoneAbove(s, key, x) by {
        forall y | y in s ensures !Outranks(key(y), key(x)) {
          var j :| 0 <= j < |s| && s[j] == y;
          assert j == 0 || !Outranks(key(s[j]), key(s[0]));
        }
      }
      ConsSorted(x, s, key);
    } else {
      var tail := s[1..];
      assert s == [s[0]] + tail;
      assert SortedDesc(tail, key);
      InsertSorted(x, tail, key);
      var rest := Insert(x, tail, key);
      assert NoneAbove(rest, key, s[0]) by {
        forall y | y in rest ensures !Outranks(key(y), key(s[0])) {
          assert y in multiset(rest);
          if y != x {
            assert y in multiset(tail);
            var j :| 0 <= j < |tail| && tail[j] == y;
            assert s[j + 1] == y;
          }
        }
      }
      ConsSorted(s[0], rest, key);
    }
  }

  /** Insertion sort: every element is inserted ahead of the equal-keyed elements that follow it in `s`. */
  function Sort<T>(s: seq<T>, key: T -> Key): (r: seq<T>)
    ensures SortedDesc(r, key)
    ensures multiset(r) == multiset(s)
  {
    if s == [] then []
    else
      var sorted := Sort(s[1..], key);
      InsertSorted(s[0], sorted, key);
      assert s == [s[0]] + s[1..];
      Insert(s[0], sorted, key)
  }

  /** The elements of `s` whose key is `k`, in order. */
  function WithKey<T>(s: seq<T>, key: T -> Key, k: Key): seq<T> {
    if s == [] then [] else (if key(s[0]) == k then [s[0]] else []) + WithKey(s[1..], key, k)
  }

  lemma {:induction false} WithKeyAppend<T>(a: seq<T>, b: seq<T>, key: T -> Key, k: Key)
    ensures WithKey(a + b, key, k) == WithKey(a, key, k) + WithKey(b, key, k)
  {
    if a != [] {
      assert (a + b)[1..] == a[1..] + b;
      WithKeyAppend(a[1..], b, key, k);
    } else {
      assert a + b == b;
    }
  }

  lemma {:induction false} InsertWithKey<T>(x: T, s: seq<T>, key: T -> Key, k: Key)
    ensures WithKey(Insert(x, s, key), key, k) == (if key(x) == k then [x] else []) + WithKey(s, key, k)
  {
    var xs := if key(x) == k then [x] else [];
    if s == [] || !Outranks(key(s[0]), key(x)) {
      assert ([x] + s)[0] == x && ([x] + s)[1..] == s;
    } else {
      var tail := s[1..];
      var rest := Insert(x, tail, key);
      var head := if key(s[0]) == k then [s[0]] else [];
      calc {
        WithKey(Insert(x, s, key), key, k);
        { assert Insert(x, s, key) == [s[0]] + rest;
          assert ([s[0]] + rest)[0] == s[0] && ([s[0]] + rest)[1..] == rest; }
        head + WithKey(rest, key, k);
        { InsertWithKey(x, tail, key, k); }
        head + (xs + WithKey(tail, key, k));
        { assert head == [] || xs == []; }
        xs + (head + WithKey(tail, key, k));
      }
    }
  }

  /** Stability: sorting keeps, for every key, the input order of the elements with that key. */
  lemma {:induction false} SortStable<T>(s: seq<T>, key: T -> Key, k: Key)
    ensures WithKey(Sort(s, key), key, k) == WithKey(s, key, k)
  {
    if s != [] {
      SortStable(s[1..], key, k);
      InsertWithKey(s[0], Sort(s[1..], key), key, k);
    }
  }

  /** A prefix of a sorted sequence is sorted and holds some of its elements. */
  lemma TakeSorted<T>(s: seq<T>, key: T -> Key, n: nat)
    requires SortedDesc(s, key) && n <= |s|
    ensures SortedDesc(s[..n], key)
    ensures multiset(s[..n]) <= multiset(s)
  {
    assert s == s[..n] + s[n..];
  }

  /** In a sorted sequence nothing after position `n` outranks anything before it. */
  lemma PrefixOutranksRest<T>(s: seq<T>, key: T -> Key, n: nat)
    requires SortedDesc(s, key) && n <= |s|
    ensures forall x, y | x in s[n..] && y in s[..n] :: !Outranks(key(x), key(y))
  {
    forall x, y | x in s[n..] && y in s[..n] ensures !Outranks(key(x), key(y)) {
      var i :| 0 <= i < |s[n..]| && s[n..][i] == x;
      var j :| 0 <= j < n && s[..n][j] == y;
      assert s[n + i] == x && s[j] == y;
    }
  }

  /** What a prefix of a sorted sequence leaves out ranks no higher than anything it keeps. */
  lemma DroppedRankNoHigher<T>(s: seq<T>, key: T -> Key, n: nat)
    requires SortedDesc(s, key) && n <= |s|
    ensures forall x, y | x in multiset(s) - multiset(s[..n]) && y in s[..n] :: !Outranks(key(x), key(y))
  {
    assert s == s[..n] + s[n..];
    assert multiset(s) - multiset(s[..n]) == multiset(s[n..]);
    PrefixOutranksRest(s, key, n);
  }

  /** Keeping a prefix keeps, for every key, a prefix of the elements with that key. */
  lemma PrefixWithKey<T>(s: seq<T>, key: T -> Key, k: Key, n: nat)
    requires n <= |s|
    ensures WithKey(s[..n], key, k) <= WithKey(s, key, k)
  {
    assert s == s[..n] + s[n..];
    WithKeyAppend(s[..n], s[n..], key, k);
  }

  /**
   * Two sequences with the same elements: the first element of `a` sits at
   * some place `i` of `b`, and the rests, without it, again have the same
   * elements.
   */
  lemma MatchFirst<T>(a: seq<T>, b: seq<T>) returns (i: nat)
    requires a != [] && multiset(a) == multiset(b)
    ensures i < |b| && b[i] == a[0]
    ensures multiset(a[1..]) == multiset(b[..i] + b[i + 1..])
  {
    assert a[0] in multiset(b);
    i :| 0 <= i < |b| && b[i] == a[0];
    assert b == b[..i] + [b[i]] + b[i + 1..];
    assert a == [a[0]] + a[1..];
    assert multiset(b[..i] + b[i + 1..]) == multiset(b) - multiset{b[i]};
  }
}
