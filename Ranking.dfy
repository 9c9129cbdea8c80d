/**
 * Step 3 of `RecommendAsync`: the LINQ pipeline over the gathered suggestions,
 *   Distinct(OrdinalIgnoreCase) . Where(not watched) . OrderByDescending(score) . Take(5)
 * as functions on sequences, and what the pipeline guarantees. As in
 * `RecommendAsync`, the filter and the sort key are functions handed to the pipeline:
 * `watched(line)` holds when the history contains the line's bare title, and
 * `score(line)` is the line's parsed score.
 */
module Ranking {
  import opened Text

  /** How many recommendations the routine returns at most (`Take(5)`). */
  const MaxResults: nat := 5

  /** `Take(n)`: the first `n` elements, or all of them when there are fewer. */
  function Take(s: seq<string>, n: nat): (r: seq<string>)
    ensures r <= s
    ensures |r| == if |s| <= n then |s| else n
  {
    if |s| <= n then s else s[..n]
  }

  /** No two elements are equal under `OrdinalIgnoreCase`. */
  ghost predicate NoFoldDuplicates(s: seq<string>) {
    forall i, j :: 0 <= i < j < |s| ==> Fold(s[i]) != Fold(s[j])
  }

  // ---------------------------------------------------------------------------
  // Distinct(StringComparer.OrdinalIgnoreCase)
  // ---------------------------------------------------------------------------

  /** No element before position `k` equals `s[k]` under `OrdinalIgnoreCase`. */
  predicate IsFirst(s: seq<string>, k: nat) {
    k < |s| && forall j :: 0 <= j < k ==> Fold(s[j]) != Fold(s[k])
  }

  /** `Distinct(StringComparer.OrdinalIgnoreCase)`: keeps an element exactly when
      no earlier element equals it ignoring case, in the order of `s`. */
  function Distinct(s: seq<string>): (r: seq<string>)
    ensures forall x :: x in r ==> x in s
    decreases |s|
  {
    if s == [] then []
    else
      var n := |s| - 1;
      Distinct(s[..n]) + (if IsFirst(s, n) then [s[n]] else [])
  }

  /** No two kept lines are equal ignoring case. */
  lemma {:induction false} DistinctNoDuplicates(s: seq<string>)
    ensures NoFoldDuplicates(Distinct(s))
    decreases |s|
  {
    if s != [] {
      var n := |s| - 1;
      var init := s[..n];
      DistinctNoDuplicates(init);
      var prev := Distinct(init);
      if IsFirst(s, n) {
        var r := Distinct(s);
        assert r == prev + [s[n]];
        forall i | 0 <= i < |prev| ensures Fold(r[i]) != Fold(s[n]) {
          assert prev[i] in init;
          var k :| 0 <= k < n && init[k] == prev[i];
          assert s[k] == init[k];
        }
      }
    }
  }

  /** Some element of `r` equals `x` ignoring case. */
  ghost predicate HasFoldTwin(r: seq<string>, x: string) {
    exists i :: 0 <= i < |r| && Fold(r[i]) == Fold(x)
  }

  /** Every line has a case-insensitive equal among the kept ones. */
  lemma {:induction false} DistinctCovers(s: seq<string>)
    ensures forall k :: 0 <= k < |s| ==> HasFoldTwin(Distinct(s), s[k])
    decreases |s|
  {
    if s != [] {
      var n := |s| - 1;
      var init := s[..n];
      DistinctCovers(init);
      var prev := Distinct(init);
      var r := Distinct(s);
      assert forall i :: 0 <= i < |prev| ==> r[i] == prev[i];
      forall k | 0 <= k < |s| ensures HasFoldTwin(r, s[k]) {
        if k < n {
          assert s[k] == init[k];
          assert HasFoldTwin(prev, init[k]);
          var i :| 0 <= i < |prev| && Fold(prev[i]) == Fold(init[k]);
          assert Fold(r[i]) == Fold(s[k]);
        } else if IsFirst(s, n) {
          assert r[|r| - 1] == s[n];
        } else {
          var j :| 0 <= j < n && Fold(s[j]) == Fold(s[n]);
          assert s[j] == init[j];
          assert HasFoldTwin(prev, init[j]);
          var i :| 0 <= i < |prev| && Fold(prev[i]) == Fold(init[j]);
          assert Fold(r[i]) == Fold(s[k]);
        }
      }
    }
  }

  // ---------------------------------------------------------------------------
  // Where(s => !memory.Contains(TitleOnly(s)))
  // ---------------------------------------------------------------------------

  /** `Where(s => !watched(s))`: drops every line `watched` holds for, in order. */
  function Unwatched(s: seq<string>, watched: string -> bool): (r: seq<string>)
    ensures forall x :: x in r ==> x in s && !watched(x)
    decreases |s|
  {
    if s == [] then []
    else
      var n := |s| - 1;
      Unwatched(s[..n], watched) + (if !watched(s[n]) then [s[n]] else [])
  }

  lemma {:induction false} UnwatchedKeeps(s: seq<string>, watched: string -> bool)
    ensures forall x :: x in s && !watched(x) ==> x in Unwatched(s, watched)
    decreases |s|
  {
    if s != [] {
      var n := |s| - 1;
      UnwatchedKeeps(s[..n], watched);
      assert s == s[..n] + [s[n]];
    }
  }

  /** Filtering distributes over concatenation, so it keeps the order of its input. */
  lemma {:induction false} UnwatchedConcat(a: seq<string>, b: seq<string>, watched: string -> bool)
    ensures Unwatched(a + b, watched) == Unwatched(a, watched) + Unwatched(b, watched)
    decreases |b|
  {
    if b == [] {
      assert a + b == a;
    } else {
      var n := |b| - 1;
      assert (a + b)[..|a + b| - 1] == a + b[..n];
      UnwatchedConcat(a, b[..n], watched);
    }
  }

  lemma {:induction false} UnwatchedNoDuplicates(s: seq<string>, watched: string -> bool)
    requires NoFoldDuplicates(s)
    ensures NoFoldDuplicates(Unwatched(s, watched))
    decreases |s|
  {
    if s != [] {
      var n := |s| - 1;
      var init := s[..n];
      assert NoFoldDuplicates(init) by {
        forall i, j | 0 <= i < j < |init| ensures Fold(init[i]) != Fold(init[j]) {
          assert init[i] == s[i] && init[j] == s[j];
        }
      }
      UnwatchedNoDuplicates(init, watched);
      var prev := Unwatched(init, watched);
      if !watched(s[n]) {
        var r := prev + [s[n]];
        forall i | 0 <= i < |prev| ensures Fold(prev[i]) != Fold(s[n]) {
          assert prev[i] in init;
          var k :| 0 <= k < n && init[k] == prev[i];
          assert s[k] == init[k];
        }
        forall i, j | 0 <= i < j < |r| ensures Fold(r[i]) != Fold(r[j]) {
          if j < |prev| {
            assert r[i] == prev[i] && r[j] == prev[j];
          } else {
            assert r[i] == prev[i] && r[j] == s[n];
          }
        }
      }
    }
  }

  // ---------------------------------------------------------------------------
  // Which suggestions survive both filters, by position
  // ---------------------------------------------------------------------------

  /** The suggestion at position `k` is the first spelling of its
      case-insensitive class and is not watched. */
  predicate Survives(s: seq<string>, k: nat, watched: string -> bool) {
    IsFirst(s, k) && !watched(s[k])
  }

  /** The suggestions at positions before `n` that survive, in suggestion order. */
  function Survivors(s: seq<string>, watched: string -> bool, n: nat): seq<string>
    requires n <= |s|
    decreases n
  {
    if n == 0 then []
    else Survivors(s, watched, n - 1) + (if Survives(s, n - 1, watched) then [s[n - 1]] else [])
  }

  /** Which positions survive depends only on the suggestions up to them. */
  lemma {:induction false} SurvivorsPrefix(s: seq<string>, watched: string -> bool, m: nat, n: nat)
    requires m <= n <= |s|
    ensures Survivors(s[..n], watched, m) == Survivors(s, watched, m)
    decreases m
  {
    if m > 0 {
      SurvivorsPrefix(s, watched, m - 1, n);
      var k := m - 1;
      forall j | 0 <= j <= k ensures s[..n][j] == s[j] {
      }
      assert IsFirst(s[..n], k) == IsFirst(s, k);
    }
  }

  /** The surviving suggestions are exactly those at surviving positions. */
  lemma {:induction false} SurvivorsMembers(s: seq<string>, watched: string -> bool, n: nat)
    requires n <= |s|
    ensures forall x :: x in Survivors(s, watched, n) ==>
      exists k :: 0 <= k < n && s[k] == x && Survives(s, k, watched)
    ensures forall k :: 0 <= k < n && Survives(s, k, watched) ==> s[k] in Survivors(s, watched, n)
    decreases n
  {
    if n > 0 {
      var k := n - 1;
      SurvivorsMembers(s, watched, k);
      var prev := Survivors(s, watched, k);
      forall x | x in Survivors(s, watched, n)
        ensures exists j :: 0 <= j < n && s[j] == x && Survives(s, j, watched)
      {
        if x !in prev {
          assert x == s[k] && Survives(s, k, watched);
        }
      }
      forall j | 0 <= j < n && Survives(s, j, watched)
        ensures s[j] in Survivors(s, watched, n)
      {
        if j < k {
          assert s[j] in prev;
        }
      }
    }
  }

  // ---------------------------------------------------------------------------
  // OrderByDescending(key): a stable sort
  // ---------------------------------------------------------------------------

  ghost predicate SortedDesc(s: seq<string>, key: string -> real) {
    forall i, j :: 0 <= i < j < |s| ==> key(s[i]) >= key(s[j])
  }

  /** Puts `x` after every element whose key is larger than its own. */
  function Insert(x: string, t: seq<string>, key: string -> real): (r: seq<string>)
    ensures multiset(r) == multiset(t) + multiset{x}
    decreases |t|
  {
    if t == [] || key(t[0]) <= key(x) then [x] + t
    else
      assert t == [t[0]] + t[1..];
      [t[0]] + Insert(x, t[1..], key)
  }

  lemma {:induction false} InsertSorted(x: string, t: seq<string>, key: string -> real)
    requires SortedDesc(t, key)
    ensures SortedDesc(Insert(x, t, key), key)
    decreases |t|
  {
    if t != [] && key(t[0]) > key(x) {
      InsertSorted(x, t[1..], key);
      var rest := Insert(x, t[1..], key);
      var r := [t[0]] + rest;
      forall j | 0 < j < |r| ensures key(r[0]) >= key(r[j]) {
        assert rest[j - 1] in multiset(rest);
        if rest[j - 1] != x {
          var k :| 0 <= k < |t[1..]| && t[1..][k] == rest[j - 1];
          assert t[k + 1] == rest[j - 1];
        }
      }
    }
  }

  /** `OrderByDescending(key)`: insertion sort, so elements with equal keys keep their order. */
  function SortDesc(s: seq<string>, key: string -> real): (r: seq<string>)
    ensures multiset(r) == multiset(s)
    ensures SortedDesc(r, key)
    decreases |s|
  {
    if s == [] then []
    else
      assert s == [s[0]] + s[1..];
      InsertSorted(s[0], SortDesc(s[1..], key), key);
      Insert(s[0], SortDesc(s[1..], key), key)
  }

  /** The elements of `s` whose key is `v`, in order. */
  function WithKey(s: seq<string>, key: string -> real, v: real): seq<string>
    decreases |s|
  {
    if s == [] then []
    else (if key(s[0]) == v then [s[0]] else []) + WithKey(s[1..], key, v)
  }

  lemma {:induction false} WithKeyConcat(a: seq<string>, b: seq<string>, key: string -> real, v: real)
    ensures WithKey(a + b, key, v) == WithKey(a, key, v) + WithKey(b, key, v)
    decreases |a|
  {
    if a != [] {
      assert (a + b)[1..] == a[1..] + b;
      WithKeyConcat(a[1..], b, key, v);
    } else {
      assert a + b == b;
    }
  }

  lemma {:induction false} InsertWithKey(x: string, t: seq<string>, key: string -> real, v: real)
    ensures WithKey(Insert(x, t, key), key, v) == (if key(x) == v then [x] else []) + WithKey(t, key, v)
    decreases |t|
  {
    if t == [] || key(t[0]) <= key(x) {
      assert ([x] + t)[1..] == t;
    } else {
      InsertWithKey(x, t[1..], key, v);
      var rest := Insert(x, t[1..], key);
      assert ([t[0]] + rest)[1..] == rest;
    }
  }

  /** Stability: the elements sharing one key come out in the order they went in. */
  lemma {:induction false} SortStable(s: seq<string>, key: string -> real, v: real)
    ensures WithKey(SortDesc(s, key), key, v) == WithKey(s, key, v)
    decreases |s|
  {
    if s != [] {
      SortStable(s[1..], key, v);
      InsertWithKey(s[0], SortDesc(s[1..], key), key, v);
    }
  }

  /** What `Insert` returns is `x` or an element of `t`. */
  lemma InsertMembers(x: string, t: seq<string>, key: string -> real)
    ensures forall y :: y in Insert(x, t, key) ==> y == x || y in t
  {
    var r := Insert(x, t, key);
    forall y | y in r ensures y == x || y in t {
      assert y in multiset(r);
    }
  }

  lemma {:induction false} InsertNoDuplicates(x: string, t: seq<string>, key: string -> real)
    requires NoFoldDuplicates(t)
    requires forall y :: y in t ==> Fold(y) != Fold(x)
    ensures NoFoldDuplicates(Insert(x, t, key))
    decreases |t|
  {
    var r := Insert(x, t, key);
    if t == [] || key(t[0]) <= key(x) {
      forall i, j | 0 <= i < j < |r| ensures Fold(r[i]) != Fold(r[j]) {
        assert r[j] == t[j - 1] && t[j - 1] in t;
        if i > 0 {
          assert r[i] == t[i - 1];
        }
      }
    } else {
      var tail := t[1..];
      assert NoFoldDuplicates(tail) by {
        forall i, j | 0 <= i < j < |tail| ensures Fold(tail[i]) != Fold(tail[j]) {
          assert tail[i] == t[i + 1] && tail[j] == t[j + 1];
        }
      }
      InsertNoDuplicates(x, tail, key);
      InsertMembers(x, tail, key);
      var rest := Insert(x, tail, key);
      assert r == [t[0]] + rest;
      forall i, j | 0 <= i < j < |r| ensures Fold(r[i]) != Fold(r[j]) {
        assert r[j] == rest[j - 1] && rest[j - 1] in rest;
        if i > 0 {
          assert r[i] == rest[i - 1];
        } else if rest[j - 1] != x {
          var k :| 0 <= k < |tail| && tail[k] == rest[j - 1];
          assert t[k + 1] == rest[j - 1] && t[0] in t;
        }
      }
    }
  }

  lemma {:induction false} SortNoDuplicates(s: seq<string>, key: string -> real)
    requires NoFoldDuplicates(s)
    ensures NoFoldDuplicates(SortDesc(s, key))
    decreases |s|
  {
    if s != [] {
      assert NoFoldDuplicates(s[1..]);
      SortNoDuplicates(s[1..], key);
      var sorted := SortDesc(s[1..], key);
      forall y | y in sorted ensures Fold(y) != Fold(s[0]) {
        assert y in multiset(sorted);
        var k :| 0 <= k < |s[1..]| && s[1..][k] == y;
        assert s[k + 1] == y;
      }
      InsertNoDuplicates(s[0], sorted, key);
    }
  }

  // ---------------------------------------------------------------------------
  // The whole pipeline
  // ---------------------------------------------------------------------------

  /** The suggestions that survive de-duplication and the watched filter, in
      first-encounter order. */
  function Unseen(suggestions: seq<string>, watched: string -> bool): (unseen: seq<string>)
    ensures forall x :: x in unseen ==> x in suggestions && !watched(x)
    ensures NoFoldDuplicates(unseen)
  {
    DistinctNoDuplicates(suggestions);
    UnwatchedNoDuplicates(Distinct(suggestions), watched);
    Unwatched(Distinct(suggestions), watched)
  }

  /** `suggestions.Distinct(OrdinalIgnoreCase).Where(s => !watched(s)).OrderByDescending(score).Take(5)`. */
  function Rank(suggestions: seq<string>, watched: string -> bool, score: string -> real): (top: seq<string>)
    ensures |top| <= MaxResults
  {
    Take(SortDesc(Unseen(suggestions, watched), score), MaxResults)
  }

  /** The candidates before sorting are exactly the surviving suggestions, in
      the order in which the suggestions show them. */
  lemma {:induction false} UnseenSurvivors(suggestions: seq<string>, watched: string -> bool)
    ensures Unseen(suggestions, watched) == Survivors(suggestions, watched, |suggestions|)
    decreases |suggestions|
  {
    var s := suggestions;
    if s != [] {
      var n := |s| - 1;
      var init := s[..n];
      UnseenSurvivors(init, watched);
      SurvivorsPrefix(s, watched, n, n);
      var last := if IsFirst(s, n) then [s[n]] else [];
      UnwatchedConcat(Distinct(init), last, watched);
      if IsFirst(s, n) {
        assert last[..0] == [];
      }
    }
  }

  /** Every ranked line is a suggestion that survives: the first spelling of its
      case-insensitive class, and not watched. */
  lemma RankFromSuggestions(suggestions: seq<string>, watched: string -> bool, score: string -> real)
    ensures forall x :: x in Rank(suggestions, watched, score) ==>
      exists k :: 0 <= k < |suggestions| && suggestions[k] == x && Survives(suggestions, k, watched)
  {
    var unseen := Unseen(suggestions, watched);
    var sorted := SortDesc(unseen, score);
    UnseenSurvivors(suggestions, watched);
    SurvivorsMembers(suggestions, watched, |suggestions|);
    forall x | x in Rank(suggestions, watched, score)
      ensures exists k :: 0 <= k < |suggestions| && suggestions[k] == x && Survives(suggestions, k, watched)
    {
      assert x in sorted;
      assert x in multiset(sorted);
      assert x in unseen;
    }
  }

  /** No two ranked lines are equal ignoring case. */
  lemma RankNoDuplicates(suggestions: seq<string>, watched: string -> bool, score: string -> real)
    ensures NoFoldDuplicates(Rank(suggestions, watched, score))
  {
    SortNoDuplicates(Unseen(suggestions, watched), score);
  }

  /** The ranked lines have non-increasing scores. */
  lemma RankSorted(suggestions: seq<string>, watched: string -> bool, score: string -> real)
    ensures SortedDesc(Rank(suggestions, watched, score), score)
  {
    TakeSorted(SortDesc(Unseen(suggestions, watched), score), score, MaxResults);
  }

  /** A prefix of a descending sequence is descending. */
  lemma TakeSorted(s: seq<string>, key: string -> real, n: nat)
    requires SortedDesc(s, key)
    ensures SortedDesc(Take(s, n), key)
  {
    var top := Take(s, n);
    forall i, j | 0 <= i < j < |top| ensures key(top[i]) >= key(top[j]) {
      assert top[i] == s[i] && top[j] == s[j];
    }
  }

  /** Cutting a sequence keeps, for every key, a prefix of the elements with that key. */
  lemma TakeWithKey(s: seq<string>, key: string -> real, v: real, n: nat)
    ensures WithKey(Take(s, n), key, v) <= WithKey(s, key, v)
  {
    if |s| > n {
      assert s == s[..n] + s[n..];
      WithKeyConcat(s[..n], s[n..], key, v);
    }
  }

  /** Ties keep encounter order: the ranked lines with score `v` are the first
      unseen candidates with score `v`, in the same order. */
  lemma RankTies(suggestions: seq<string>, watched: string -> bool, score: string -> real, v: real)
    ensures WithKey(Rank(suggestions, watched, score), score, v) <= WithKey(Unseen(suggestions, watched), score, v)
  {
    var unseen := Unseen(suggestions, watched);
    SortStable(unseen, score, v);
    TakeWithKey(SortDesc(unseen, score), score, v, MaxResults);
  }

  /** Cutting a sorted sequence after `n` elements leaves out nothing that scores
      more than the last element kept. */
  lemma TakeLeftOut(sorted: seq<string>, key: string -> real, n: nat)
    requires SortedDesc(sorted, key) && n > 0
    ensures forall c :: c in sorted && c !in Take(sorted, n) ==>
      |Take(sorted, n)| == n && key(c) <= key(Take(sorted, n)[n - 1])
  {
    var top := Take(sorted, n);
    forall c | c in sorted && c !in top ensures |top| == n && key(c) <= key(top[n - 1]) {
      var k :| 0 <= k < |sorted| && sorted[k] == c;
      forall i | 0 <= i < |top| ensures sorted[i] != c {
        assert top[i] == sorted[i];
        assert top[i] in top;
      }
    }
  }

  /** Five lines are returned when there are at least five unseen candidates,
      all of them otherwise. */
  lemma RankCount(suggestions: seq<string>, watched: string -> bool, score: string -> real)
    ensures var unseen := Unseen(suggestions, watched);
      |Rank(suggestions, watched, score)| == if |unseen| < MaxResults then |unseen| else MaxResults
  {
    var unseen := Unseen(suggestions, watched);
    var sorted := SortDesc(unseen, score);
    assert |sorted| == |multiset(sorted)| == |unseen|;
  }

  /** Every unseen candidate that is not returned was cut off by `Take(5)`, and
      scores no more than the last line returned. */
  lemma RankLeftOut(suggestions: seq<string>, watched: string -> bool, score: string -> real)
    ensures var top := Rank(suggestions, watched, score);
      forall c :: c in Unseen(suggestions, watched) && c !in top ==>
        |top| == MaxResults && score(c) <= score(top[MaxResults - 1])
  {
    var unseen := Unseen(suggestions, watched);
    var sorted := SortDesc(unseen, score);
    TakeLeftOut(sorted, score, MaxResults);
    forall c | c in unseen ensures c in sorted {
      assert c in multiset(unseen);
    }
  }
}
