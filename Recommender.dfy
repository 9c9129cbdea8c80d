/**
 * `MovieRecommender.RecommendAsync`: the fallback to the top-rated list, the
 * loop that resolves watched titles to movie ids, the loop that gathers the
 * recommendation lines of every id, and the ranking of those lines.
 *
 * The collaborators are parameters: `topRated(take)` is the
 * `GetTopRatedMoviesAsync` lookup, `resolve(title)` the `SearchMovieId` lookup,
 * `recs(movieId, take)` the `GetMovieRecommendations` lookup, and
 * `contains(title)` the watch history's `Contains`. A lookup that throws gives
 * `Err`; the routine catches nothing, so the first `Err` ends the call.
 */
module Recommender {
  import opened Wrappers
  import opened Text
  import opened Numbers
  import opened CandidateLine
  import opened Ranking

  /** The `take` argument of every `GetMovieRecommendations` lookup. */
  const RecommendationsPerTitle: int := 10

  // ---------------------------------------------------------------------------
  // A loop that appends what each step gives and stops at the first throw
  // ---------------------------------------------------------------------------

  /** The outcome so far followed by the outcome of one more step: the first error wins. */
  function Chain<T>(sofar: Result<seq<T>>, next: Result<seq<T>>): Result<seq<T>> {
    match sofar
    case Err(e) => Err(e)
    case Ok(u) =>
      match next
      case Err(e) => Err(e)
      case Ok(v) => Ok(u + v)
  }

  /** A `foreach` over `xs` whose body appends what `step` gives, and throws
      when `step` throws. */
  function Collect<A, T>(xs: seq<A>, step: A -> Result<seq<T>>): Result<seq<T>>
    decreases |xs|
  {
    if xs == [] then Ok([])
    else Chain(Collect(xs[..|xs| - 1], step), step(xs[|xs| - 1]))
  }

  lemma ChainAssoc<T>(x: Result<seq<T>>, y: Result<seq<T>>, z: Result<seq<T>>)
    ensures Chain(Chain(x, y), z) == Chain(x, Chain(y, z))
  {
    if x.Ok? && y.Ok? && z.Ok? {
      assert x.value + y.value + z.value == x.value + (y.value + z.value);
    }
  }

  /** Running the loop over `a + b` is running it over `a`, then over `b`. */
  lemma {:induction false} CollectConcat<A, T>(a: seq<A>, b: seq<A>, step: A -> Result<seq<T>>)
    ensures Collect(a + b, step) == Chain(Collect(a, step), Collect(b, step))
    decreases |b|
  {
    if b == [] {
      assert a + b == a;
      if Collect(a, step).Ok? {
        assert Collect(a, step).value + [] == Collect(a, step).value;
      }
    } else {
      var n := |b| - 1;
      assert (a + b)[..|a + b| - 1] == a + b[..n];
      assert (a + b)[|a + b| - 1] == b[n];
      CollectConcat(a, b[..n], step);
      ChainAssoc(Collect(a, step), Collect(b[..n], step), step(b[n]));
    }
  }

  /** The loop completes exactly when no step throws. */
  lemma {:induction false} CollectOk<A, T>(xs: seq<A>, step: A -> Result<seq<T>>)
    ensures Collect(xs, step).Ok? <==> forall k :: 0 <= k < |xs| ==> step(xs[k]).Ok?
    decreases |xs|
  {
    if xs != [] {
      var n := |xs| - 1;
      CollectOk(xs[..n], step);
      assert forall k :: 0 <= k < n ==> xs[..n][k] == xs[k];
    }
  }

  /** When the loop completes, what it built holds exactly what the steps gave. */
  lemma {:induction false} CollectMembers<A, T>(xs: seq<A>, step: A -> Result<seq<T>>)
    ensures Collect(xs, step).Ok? ==>
      forall y :: y in Collect(xs, step).value ==>
        exists k :: 0 <= k < |xs| && step(xs[k]).Ok? && y in step(xs[k]).value
    ensures Collect(xs, step).Ok? ==>
      forall y, k :: 0 <= k < |xs| && step(xs[k]).Ok? && y in step(xs[k]).value ==>
        y in Collect(xs, step).value
    decreases |xs|
  {
    if xs != [] && Collect(xs, step).Ok? {
      var n := |xs| - 1;
      var init := xs[..n];
      CollectMembers(init, step);
      assert Collect(init, step).Ok? && step(xs[n]).Ok?;
      assert Collect(xs, step).value == Collect(init, step).value + step(xs[n]).value;
      forall y | y in Collect(xs, step).value
        ensures exists k :: 0 <= k < |xs| && step(xs[k]).Ok? && y in step(xs[k]).value
      {
        if y in Collect(init, step).value {
          var k :| 0 <= k < |init| && step(init[k]).Ok? && y in step(init[k]).value;
          assert init[k] == xs[k];
        } else {
          assert y in step(xs[n]).value;
        }
      }
      forall y, k | 0 <= k < |xs| && step(xs[k]).Ok? && y in step(xs[k]).value
        ensures y in Collect(xs, step).value
      {
        if k < n {
          assert init[k] == xs[k];
        }
      }
    }
  }

  /** A loop over one element gives what its one step gives. */
  lemma CollectOne<A, T>(xs: seq<A>, step: A -> Result<seq<T>>)
    requires |xs| == 1
    ensures Collect(xs, step) == step(xs[0])
  {
    assert xs[..0] == [];
    var nothing: seq<T> := [];
    if step(xs[0]).Ok? {
      assert nothing + step(xs[0]).value == step(xs[0]).value;
    }
  }

  /** A loop whose every step completes and appends nothing builds nothing. */
  lemma {:induction false} CollectNothing<A, T>(xs: seq<A>, step: A -> Result<seq<T>>)
    requires forall k :: 0 <= k < |xs| ==> step(xs[k]) == Ok([])
    ensures Collect(xs, step) == Ok([])
    decreases |xs|
  {
    if xs != [] {
      var n := |xs| - 1;
      assert forall k :: 0 <= k < n ==> xs[..n][k] == xs[k];
      CollectNothing(xs[..n], step);
      var nothing: seq<T> := [];
      assert nothing + nothing == nothing;
    }
  }

  /** The loop ends with the error of the first step that throws. */
  lemma CollectFirstError<A, T>(xs: seq<A>, step: A -> Result<seq<T>>, k: nat)
    requires k < |xs| && step(xs[k]).Err?
    requires forall j :: 0 <= j < k ==> step(xs[j]).Ok?
    ensures Collect(xs, step) == Err(step(xs[k]).error)
  {
    var before := xs[..k];
    var rest := xs[k + 1..];
    assert forall j :: 0 <= j < k ==> before[j] == xs[j];
    CollectOk(before, step);
    assert xs[..k + 1] == before + [xs[k]];
    assert (before + [xs[k]])[..k] == before;
    assert xs == xs[..k + 1] + rest;
    CollectConcat(xs[..k + 1], rest, step);
  }

  // ---------------------------------------------------------------------------
  // Step 1: resolve each watched title to a movie id
  // ---------------------------------------------------------------------------

  /** One pass of the id loop: the search reply's id, kept when `int.TryParse`
      accepts the reply and the id is not 0. */
  function ResolveOne(title: string, resolve: string -> Result<string>): (r: Result<seq<int>>)
    ensures r.Ok? <==> resolve(title).Ok?
    ensures r.Ok? ==> |r.value| <= 1 && forall id :: id in r.value ==> id != 0 && Int32Min <= id <= Int32Max
  {
    match resolve(title)
    case Err(e) => Err(e)
    case Ok(idStr) =>
      var id := ParseInt(idStr);
      if id.Some? && id.value != 0 then Ok([id.value]) else Ok([])
  }

  /** Every id is a non-zero C# `int`, as `int.TryParse` and the `id != 0` test leave it. */
  predicate MovieIds(ids: seq<int>) {
    forall id :: id in ids ==> id != 0 && Int32Min <= id <= Int32Max
  }

  /** The id list built by the first loop, or the error of the first search that throws. */
  function ResolveIds(titles: seq<string>, resolve: string -> Result<string>): (r: Result<seq<int>>)
    ensures r.Ok? ==> MovieIds(r.value)
  {
    var step := title => ResolveOne(title, resolve);
    CollectMembers(titles, step);
    Collect(titles, step)
  }

  /** `title` is searched without a throw, and the reply parses as the non-zero `int` `id`. */
  ghost predicate ResolvesTo(title: string, id: int, resolve: string -> Result<string>) {
    resolve(title).Ok? && ParseInt(resolve(title).value) == Some(id) && id != 0
  }

  /** One more title adds what its search gives. */
  lemma ResolveIdsStep(titles: seq<string>, title: string, resolve: string -> Result<string>)
    ensures ResolveIds(titles + [title], resolve) == Chain(ResolveIds(titles, resolve), ResolveOne(title, resolve))
  {
    assert (titles + [title])[..|titles|] == titles;
  }

  /** A search reply that is the text of an `int` resolves to it, negative ids
      included, unless it is 0; a number outside the `int` range is dropped. */
  lemma ResolveOneOfText(title: string, resolve: string -> Result<string>, n: int)
    requires resolve(title) == Ok(IntText(n))
    ensures ResolveOne(title, resolve) == Ok(if n != 0 && Int32Min <= n <= Int32Max then [n] else [])
  {
    ParseIntOfText(n);
  }

  /** A search reply without a digit (such as "N/A") adds no id. */
  lemma ResolveOneWithoutDigits(title: string, resolve: string -> Result<string>)
    requires resolve(title).Ok? && NoDigit(resolve(title).value)
    ensures ResolveOne(title, resolve) == Ok([])
  {
    ParseIntNeedsDigit(resolve(title).value);
  }

  /** The ids of the titles `a + b` are the ids of `a` followed by those of `b`:
      watched order is kept, and so are repeated ids. */
  lemma ResolveIdsConcat(a: seq<string>, b: seq<string>, resolve: string -> Result<string>)
    ensures ResolveIds(a + b, resolve) == Chain(ResolveIds(a, resolve), ResolveIds(b, resolve))
  {
    CollectConcat(a, b, title => ResolveOne(title, resolve));
  }

  /** Two titles whose searches both answer the same non-zero id contribute
      that id twice: the id list is not de-duplicated. */
  lemma RepeatedIdKept(first: string, second: string, resolve: string -> Result<string>, n: int)
    requires resolve(first) == Ok(IntText(n)) && resolve(second) == Ok(IntText(n))
    requires n != 0 && Int32Min <= n <= Int32Max
    ensures ResolveIds([first, second], resolve) == Ok([n, n])
  {
    ResolveOneOfText(first, resolve, n);
    ResolveOneOfText(second, resolve, n);
    ResolveIdsConcat([first], [second], resolve);
    assert [first] + [second] == [first, second];
    CollectOne([first], title => ResolveOne(title, resolve));
    CollectOne([second], title => ResolveOne(title, resolve));
    assert ResolveIds([first], resolve) == Ok([n]);
    assert ResolveIds([second], resolve) == Ok([n]);
    assert [n] + [n] == [n, n];
  }

  /** A search that does not throw gives exactly the id its title resolves to. */
  lemma ResolveOneMembers(title: string, resolve: string -> Result<string>)
    ensures ResolveOne(title, resolve).Ok? ==>
      forall id :: id in ResolveOne(title, resolve).value <==> ResolvesTo(title, id, resolve)
  {
  }

  /** The id loop completes exactly when no search throws, and then holds
      exactly the ids the titles resolve to. */
  lemma ResolveIdsValues(titles: seq<string>, resolve: string -> Result<string>)
    ensures ResolveIds(titles, resolve).Ok? <==> forall k :: 0 <= k < |titles| ==> resolve(titles[k]).Ok?
    ensures ResolveIds(titles, resolve).Ok? ==>
      forall id :: id in ResolveIds(titles, resolve).value <==>
        exists k :: 0 <= k < |titles| && ResolvesTo(titles[k], id, resolve)
  {
    var step := title => ResolveOne(title, resolve);
    CollectOk(titles, step);
    CollectMembers(titles, step);
    if ResolveIds(titles, resolve).Ok? {
      var ids := ResolveIds(titles, resolve).value;
      forall id | id in ids ensures exists k :: 0 <= k < |titles| && ResolvesTo(titles[k], id, resolve) {
        var k :| 0 <= k < |titles| && step(titles[k]).Ok? && id in step(titles[k]).value;
        ResolveOneMembers(titles[k], resolve);
      }
      forall id, k | 0 <= k < |titles| && ResolvesTo(titles[k], id, resolve) ensures id in ids {
        ResolveOneMembers(titles[k], resolve);
        assert id in step(titles[k]).value;
      }
    }
  }

  // ---------------------------------------------------------------------------
  // Step 2: gather the recommendation lines of every id
  // ---------------------------------------------------------------------------

  /** One pass of the gathering loop: the non-blank lines of the id's recommendations. */
  function GatherOne(id: int, recs: (int, int) -> Result<string>): (r: Result<seq<string>>)
    ensures r.Ok? <==> recs(id, RecommendationsPerTitle).Ok?
  {
    match recs(id, RecommendationsPerTitle)
    case Err(e) => Err(e)
    case Ok(reply) => Ok(NonBlankLines(reply))
  }

  /** The suggestion list built by the second loop, or the error of the first lookup that throws. */
  function Gather(ids: seq<int>, recs: (int, int) -> Result<string>): (r: Result<seq<string>>)
    ensures r.Ok? ==> forall line :: line in r.value ==> !IsBlank(line) && '\n' !in line
  {
    var step := id => GatherOne(id, recs);
    CollectMembers(ids, step);
    Collect(ids, step)
  }

  /** `line` is a non-blank line of the recommendations looked up for `id`. */
  ghost predicate Recommends(id: int, line: string, recs: (int, int) -> Result<string>) {
    recs(id, RecommendationsPerTitle).Ok? && line in NonBlankLines(recs(id, RecommendationsPerTitle).value)
  }

  /** The gathering loop completes exactly when no lookup throws, and then holds
      exactly the non-blank lines of the replies, one reply after another. */
  lemma GatherLines(ids: seq<int>, recs: (int, int) -> Result<string>)
    ensures Gather(ids, recs).Ok? <==> forall k :: 0 <= k < |ids| ==> recs(ids[k], RecommendationsPerTitle).Ok?
    ensures Gather(ids, recs).Ok? ==>
      forall line :: line in Gather(ids, recs).value <==>
        exists k :: 0 <= k < |ids| && Recommends(ids[k], line, recs)
  {
    var step := id => GatherOne(id, recs);
    CollectOk(ids, step);
    assert forall k :: 0 <= k < |ids| ==> step(ids[k]) == GatherOne(ids[k], recs);
    CollectMembers(ids, step);
    if Gather(ids, recs).Ok? {
      forall line ensures line in Gather(ids, recs).value <==>
        exists k :: 0 <= k < |ids| && Recommends(ids[k], line, recs)
      {
        if line in Gather(ids, recs).value {
          var k :| 0 <= k < |ids| && step(ids[k]).Ok? && line in step(ids[k]).value;
          assert Recommends(ids[k], line, recs);
        }
        if exists k :: 0 <= k < |ids| && Recommends(ids[k], line, recs) {
          var k :| 0 <= k < |ids| && Recommends(ids[k], line, recs);
          assert line in step(ids[k]).value;
        }
      }
    }
  }

  /** One more id adds the lines of its recommendations. */
  lemma GatherStep(ids: seq<int>, id: int, recs: (int, int) -> Result<string>)
    ensures Gather(ids + [id], recs) == Chain(Gather(ids, recs), GatherOne(id, recs))
  {
    assert (ids + [id])[..|ids|] == ids;
  }

  /** The lines of the ids `a + b` are the lines of `a` followed by those of `b`. */
  lemma GatherConcat(a: seq<int>, b: seq<int>, recs: (int, int) -> Result<string>)
    ensures Gather(a + b, recs) == Chain(Gather(a, recs), Gather(b, recs))
  {
    CollectConcat(a, b, id => GatherOne(id, recs));
  }

  // ---------------------------------------------------------------------------
  // The whole routine
  // ---------------------------------------------------------------------------

  /** The filter of the pipeline, `s => _memory.Contains(TitleOnly(s))`. */
  function WatchedLine(contains: string -> bool): (watched: string -> bool)
    ensures forall line :: !(Marker <= line) ==> (watched(line) <==> contains(line))
    ensures forall title, year, score {:trigger Format(title, year, score)} ::
      '(' !in title && (title == [] || (!IsWhiteSpace(title[0]) && !IsWhiteSpace(title[|title| - 1]))) ==>
        (watched(Format(title, year, score)) <==> contains(title))
  {
    assert forall line :: !(Marker <= line) ==> TitleOnly(line) == line;
    assert forall title, year, score {:trigger Format(title, year, score)} ::
      '(' !in title && (title == [] || (!IsWhiteSpace(title[0]) && !IsWhiteSpace(title[|title| - 1]))) ==>
        TitleOnly(Format(title, year, score)) == title
    by {
      forall title, year, score | '(' !in title && (title == [] || (!IsWhiteSpace(title[0]) && !IsWhiteSpace(title[|title| - 1])))
        ensures TitleOnly(Format(title, year, score)) == title
      {
        TitleOfFormat(title, year, score);
      }
    }
    line => contains(TitleOnly(line))
  }

  /** What `RecommendAsync(top)` returns for the watch history `watched`. */
  function Recommend(watched: seq<string>, top: int, topRated: int -> Result<string>,
                     resolve: string -> Result<string>, recs: (int, int) -> Result<string>,
                     contains: string -> bool): (r: Result<seq<string>>)
    ensures r.Ok? ==> |r.value| <= MaxResults
  {
    if watched == [] then
      match topRated(top)
      case Err(e) => Err(e)
      case Ok(list) => Ok(Take(NonBlankLines(list), MaxResults))
    else
      match ResolveIds(watched, resolve)
      case Err(e) => Err(e)
      case Ok(ids) =>
        if ids == [] then Ok([])
        else
          match Gather(ids, recs)
          case Err(e) => Err(e)
          case Ok(suggestions) => Ok(Rank(suggestions, WatchedLine(contains), ParseScore))
  }

  /** The first loop: searches every watched title in turn and keeps the ids
      that parse and are not 0; a search that throws ends it. */
  method ResolveAll(watched: seq<string>, resolve: string -> Result<string>) returns (r: Result<seq<int>>)
    ensures r == ResolveIds(watched, resolve)
  {
    var ids: seq<int> := [];
    var i := 0;
    while i < |watched|
      invariant 0 <= i <= |watched|
      invariant ResolveIds(watched[..i], resolve) == Ok(ids)
    {
      var idStr := resolve(watched[i]);
      assert watched[..i + 1] == watched[..i] + [watched[i]];
      ResolveIdsStep(watched[..i], watched[i], resolve);
      if idStr.Err? {
        ResolveIdsConcat(watched[..i + 1], watched[i + 1..], resolve);
        assert watched[..i + 1] + watched[i + 1..] == watched;
        return Err(idStr.error);
      }
      var id := ParseInt(idStr.value);
      assert ResolveOne(watched[i], resolve) == if id.Some? && id.value != 0 then Ok([id.value]) else Ok([]);
      if id.Some? && id.value != 0 {
        ids := ids + [id.value];
      } else {
        assert ids + [] == ids;
      }
      i := i + 1;
    }
    assert watched[..i] == watched;
    return Ok(ids);
  }

  /** The second loop: looks up the recommendations of every id in turn and
      appends their non-blank lines; a lookup that throws ends it. */
  method GatherAll(ids: seq<int>, recs: (int, int) -> Result<string>) returns (r: Result<seq<string>>)
    ensures r == Gather(ids, recs)
  {
    var suggestions: seq<string> := [];
    var k := 0;
    while k < |ids|
      invariant 0 <= k <= |ids|
      invariant Gather(ids[..k], recs) == Ok(suggestions)
    {
      var reply := recs(ids[k], RecommendationsPerTitle);
      assert ids[..k + 1] == ids[..k] + [ids[k]];
      GatherStep(ids[..k], ids[k], recs);
      if reply.Err? {
        GatherConcat(ids[..k + 1], ids[k + 1..], recs);
        assert ids[..k + 1] + ids[k + 1..] == ids;
        return Err(reply.error);
      }
      suggestions := suggestions + NonBlankLines(reply.value);
      k := k + 1;
    }
    assert ids[..k] == ids;
    return Ok(suggestions);
  }

  /** The routine itself: the fallback, the two loops and the ranking pipeline. */
  method RecommendAsync(watched: seq<string>, top: int, topRated: int -> Result<string>,
                        resolve: string -> Result<string>, recs: (int, int) -> Result<string>,
                        contains: string -> bool)
    returns (r: Result<seq<string>>)
    ensures r == Recommend(watched, top, topRated, resolve, recs, contains)
  {
    if |watched| == 0 {
      var list := topRated(top);
      if list.Err? {
        return Err(list.error);
      }
      return Ok(Take(NonBlankLines(list.value), MaxResults));
    }
    var resolved := ResolveAll(watched, resolve);
    if resolved.Err? {
      return Err(resolved.error);
    }
    var ids := resolved.value;
    if |ids| == 0 {
      return Ok([]);
    }
    var gathered := GatherAll(ids, recs);
    if gathered.Err? {
      return Err(gathered.error);
    }
    return Ok(Rank(gathered.value, WatchedLine(contains), ParseScore));
  }

  // ---------------------------------------------------------------------------
  // What the routine guarantees
  // ---------------------------------------------------------------------------

  /** With an empty watch history the result is the first (at most five)
      non-blank lines of the top-rated reply, in their order, unscored and
      not de-duplicated; a throwing lookup ends the call with its error. */
  lemma FallbackPath(top: int, topRated: int -> Result<string>,
                     resolve: string -> Result<string>, recs: (int, int) -> Result<string>,
                     contains: string -> bool)
    ensures var r := Recommend([], top, topRated, resolve, recs, contains);
      match topRated(top)
      case Err(e) => r == Err(e)
      case Ok(list) =>
        var lines := NonBlankLines(list);
        && r.Ok? && r.value <= lines
        && |r.value| == (if |lines| < MaxResults then |lines| else MaxResults)
        && forall l :: l in r.value ==> l in Split(list, '\n') && !IsBlank(l)
  {
    if topRated(top).Ok? {
      var list := topRated(top).value;
      NonBlankLinesMembers(list);
      var r := Recommend([], top, topRated, resolve, recs, contains);
      forall l | l in r.value ensures l in NonBlankLines(list) {
        var i :| 0 <= i < |r.value| && r.value[i] == l;
        assert NonBlankLines(list)[i] == l;
      }
    }
  }

  /** When every title is searched without a throw but none resolves to an id,
      the result is empty, not the top-rated list. */
  lemma NothingResolved(watched: seq<string>, top: int, topRated: int -> Result<string>,
                        resolve: string -> Result<string>, recs: (int, int) -> Result<string>,
                        contains: string -> bool)
    requires watched != []
    requires forall k :: 0 <= k < |watched| ==> resolve(watched[k]).Ok?
    requires forall k, id :: 0 <= k < |watched| ==> !ResolvesTo(watched[k], id, resolve)
    ensures Recommend(watched, top, topRated, resolve, recs, contains) == Ok([])
  {
    forall k | 0 <= k < |watched| ensures ResolveOne(watched[k], resolve) == Ok([]) {
      var parsed := ParseInt(resolve(watched[k]).value);
      if parsed.Some? {
        assert !ResolvesTo(watched[k], parsed.value, resolve);
      }
    }
    CollectNothing(watched, title => ResolveOne(title, resolve));
  }

  /** Every recommendation is a non-blank line of the recommendations of a
      watched title's id, its bare title is not in the watch history, no two
      recommendations are equal ignoring case, and the scores do not increase. */
  lemma Personalized(watched: seq<string>, top: int, topRated: int -> Result<string>,
                     resolve: string -> Result<string>, recs: (int, int) -> Result<string>,
                     contains: string -> bool)
    requires watched != []
    ensures var r := Recommend(watched, top, topRated, resolve, recs, contains);
      r.Ok? ==>
        && NoFoldDuplicates(r.value)
        && SortedDesc(r.value, ParseScore)
        && forall x :: x in r.value ==>
             && !contains(TitleOnly(x))
             && exists k, id :: 0 <= k < |watched| && ResolvesTo(watched[k], id, resolve) && Recommends(id, x, recs)
  {
    var r := Recommend(watched, top, topRated, resolve, recs, contains);
    if r.Ok? && ResolveIds(watched, resolve).value != [] {
      var ids := ResolveIds(watched, resolve).value;
      var suggestions := Gather(ids, recs).value;
      RankNoDuplicates(suggestions, WatchedLine(contains), ParseScore);
      RankSorted(suggestions, WatchedLine(contains), ParseScore);
      RankFromSuggestions(suggestions, WatchedLine(contains), ParseScore);
      ResolveIdsValues(watched, resolve);
      GatherLines(ids, recs);
      forall x | x in r.value
        ensures !contains(TitleOnly(x))
        ensures exists k, id :: 0 <= k < |watched| && ResolvesTo(watched[k], id, resolve) && Recommends(id, x, recs)
      {
        var j :| 0 <= j < |suggestions| && suggestions[j] == x && Survives(suggestions, j, WatchedLine(contains));
        assert x in suggestions;
        var m :| 0 <= m < |ids| && Recommends(ids[m], x, recs);
        assert ids[m] in ids;
        var k :| 0 <= k < |watched| && ResolvesTo(watched[k], ids[m], resolve);
      }
    }
  }

  /** The call fails exactly when a lookup it makes throws: the top-rated lookup
      for an empty history, otherwise a title search or the recommendations of a
      resolved id. */
  lemma Failures(watched: seq<string>, top: int, topRated: int -> Result<string>,
                 resolve: string -> Result<string>, recs: (int, int) -> Result<string>,
                 contains: string -> bool)
    ensures Recommend(watched, top, topRated, resolve, recs, contains).Err? <==>
      if watched == [] then topRated(top).Err?
      else
        || (exists k :: 0 <= k < |watched| && resolve(watched[k]).Err?)
        || (exists k, id :: 0 <= k < |watched| && ResolvesTo(watched[k], id, resolve) && recs(id, RecommendationsPerTitle).Err?)
  {
    if watched != [] {
      ResolveIdsValues(watched, resolve);
      if ResolveIds(watched, resolve).Ok? {
        var ids := ResolveIds(watched, resolve).value;
        GatherLines(ids, recs);
        if exists k, id :: 0 <= k < |watched| && ResolvesTo(watched[k], id, resolve) && recs(id, RecommendationsPerTitle).Err? {
          var k, id :| 0 <= k < |watched| && ResolvesTo(watched[k], id, resolve) && recs(id, RecommendationsPerTitle).Err?;
          assert id in ids;
          var m :| 0 <= m < |ids| && ids[m] == id;
        }
        if Gather(ids, recs).Err? && ids != [] {
          var m :| 0 <= m < |ids| && recs(ids[m], RecommendationsPerTitle).Err?;
          assert ids[m] in ids;
          var k :| 0 <= k < |watched| && ResolvesTo(watched[k], ids[m], resolve);
        }
      }
    }
  }

  /** The error is the one of the first title whose search throws. */
  lemma FirstFailingSearch(watched: seq<string>, top: int, topRated: int -> Result<string>,
                           resolve: string -> Result<string>, recs: (int, int) -> Result<string>,
                           contains: string -> bool, k: nat)
    requires k < |watched| && resolve(watched[k]).Err?
    requires forall j :: 0 <= j < k ==> resolve(watched[j]).Ok?
    ensures Recommend(watched, top, topRated, resolve, recs, contains) == Err(resolve(watched[k]).error)
  {
    var step := title => ResolveOne(title, resolve);
    assert forall j :: 0 <= j < |watched| ==> step(watched[j]) == ResolveOne(watched[j], resolve);
    CollectFirstError(watched, step, k);
  }
}
