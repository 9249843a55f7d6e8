/** The linear title scan of cli/lib/keyboard_search.py: `has_matching_tokens` and
    `search_command`. A movie matches when some query token occurs as a substring of some
    token of its title; matches are collected in corpus order up to a limit. */
module Search {
  import opened Seqs
  import opened Text
  import opened Index

  /** Python's `needle in hay` on two strings. */
  predicate IsSubstring(needle: string, hay: string) {
    exists k | 0 <= k <= |hay| - |needle| :: OccursAt(needle, hay, k)
  }

  /** `needle` occurs in `hay` starting at position `k`. */
  predicate OccursAt(needle: string, hay: string, k: int) {
    0 <= k <= |hay| - |needle| && hay[k..k + |needle|] == needle
  }

  /** The inner loop of `has_matching_tokens`: does `q` occur in some movie token? */
  function ContainedInAny(q: string, ms: seq<string>): (b: bool)
    ensures b <==> exists j :: 0 <= j < |ms| && IsSubstring(q, ms[j])
  {
    if ms == [] then false
    else
      var rest := ContainedInAny(q, ms[1..]);
      assert forall j :: 1 <= j < |ms| ==> ms[j] == ms[1..][j - 1];
      IsSubstring(q, ms[0]) || rest
  }

  /** `has_matching_tokens(query_tokens, movie_tokens)`: some query token is a substring of
      some movie token. With no query tokens or no movie tokens it is false. */
  function HasMatchingTokens(qs: seq<string>, ms: seq<string>): (b: bool)
    ensures b <==> exists i, j :: 0 <= i < |qs| && 0 <= j < |ms| && IsSubstring(qs[i], ms[j])
  {
    if qs == [] then false
    else
      var rest := HasMatchingTokens(qs[1..], ms);
      assert forall i :: 1 <= i < |qs| ==> qs[i] == qs[1..][i - 1];
      ContainedInAny(qs[0], ms) || rest
  }

  /** A movie matches the query tokens `qt` when they match the tokens of its title. */
  predicate TitleMatches(qt: seq<string>, m: Movie, a: Analyzer) {
    HasMatchingTokens(qt, Tokenize(m.title, a))
  }

  function TitleFilter(qt: seq<string>, a: Analyzer): Movie -> bool {
    m => TitleMatches(qt, m, a)
  }

  /** Every movie of the corpus that matches, in corpus order. */
  function Matches(qt: seq<string>, movies: seq<Movie>, a: Analyzer): seq<Movie> {
    Filter(TitleFilter(qt, a), movies)
  }

  /** The first `n` elements of `s`; a negative `n` is no limit. */
  function Limited<T>(s: seq<T>, n: int): seq<T> {
    if n < 0 || |s| <= n then s else s[..n]
  }

  lemma {:induction false} SubsequencePrefix<T>(xs: seq<T>, ys: seq<T>, n: nat)
    requires IsSubsequence(xs, ys) && n <= |xs|
    ensures IsSubsequence(xs[..n], ys)
    decreases |ys|
  {
    if n > 0 {
      if xs[0] == ys[0] && IsSubsequence(xs[1..], ys[1..]) {
        SubsequencePrefix(xs[1..], ys[1..], n - 1);
        assert xs[..n][1..] == xs[1..][..n - 1];
      } else {
        SubsequencePrefix(xs, ys[1..], n);
      }
    }
  }

  /** What a search with limit `n` returns, whatever the corpus: movies of the corpus in
      corpus order, each matching the query; at most `n` of them for `n >= 0`; every match
      when fewer than `n` movies match; and no movie that matches is skipped before the
      last one returned. */
  lemma LimitedMatchesProperties(qt: seq<string>, movies: seq<Movie>, a: Analyzer, n: int)
    ensures IsSubsequence(Limited(Matches(qt, movies, a), n), movies)
    ensures forall i :: 0 <= i < |Limited(Matches(qt, movies, a), n)| ==>
      TitleMatches(qt, Limited(Matches(qt, movies, a), n)[i], a)
    ensures n >= 0 ==> |Limited(Matches(qt, movies, a), n)| <= n
    ensures n < 0 || |Matches(qt, movies, a)| <= n ==>
      Limited(Matches(qt, movies, a), n) == Matches(qt, movies, a)
    ensures Limited(Matches(qt, movies, a), n) <= Matches(qt, movies, a)
  {
    var f := Matches(qt, movies, a);
    FilterMembers(TitleFilter(qt, a), movies);
    FilterSubsequence(TitleFilter(qt, a), movies);
    if !(n < 0 || |f| <= n) {
      SubsequencePrefix(f, movies, n);
    }
  }

  /** Once the first `i` movies have given `n` matches, the first `n` matches of the whole
      corpus are exactly those. */
  lemma LimitedOfPrefix(qt: seq<string>, movies: seq<Movie>, i: nat, a: Analyzer, n: int)
    requires i <= |movies| && n >= 0 && |Matches(qt, movies[..i], a)| == n
    ensures Limited(Matches(qt, movies, a), n) == Matches(qt, movies[..i], a)
  {
    assert movies[..i] + movies[i..] == movies;
    FilterConcat(TitleFilter(qt, a), movies[..i], movies[i..]);
  }

  lemma MatchesSnoc(qt: seq<string>, movies: seq<Movie>, i: nat, a: Analyzer)
    requires i < |movies|
    ensures Matches(qt, movies[..i + 1], a)
      == Matches(qt, movies[..i], a) + (if TitleMatches(qt, movies[i], a) then [movies[i]] else [])
  {
    assert movies[..i + 1] == movies[..i] + [movies[i]];
    FilterConcat(TitleFilter(qt, a), movies[..i], [movies[i]]);
  }

  /** `search_command(query, n_results)` as the loop is meant to work: it stops as soon as
      `n_results` movies have been collected, so a limit of 0 returns nothing. The corpus
      (`load_movies()`) and the analyzer are parameters. */
  method SearchCommand(query: string, nResults: int, movies: seq<Movie>, a: Analyzer)
    returns (results: seq<Movie>)
    ensures results == Limited(Matches(Tokenize(query, a), movies, a), nResults)
    ensures IsSubsequence(results, movies)
    ensures forall i :: 0 <= i < |results| ==> TitleMatches(Tokenize(query, a), results[i], a)
    ensures nResults >= 0 ==> |results| <= nResults
    ensures nResults < 0 || |Matches(Tokenize(query, a), movies, a)| <= nResults ==>
      results == Matches(Tokenize(query, a), movies, a)
  {
    results := [];
    var queryTokens := Tokenize(query, a);
    var i := 0;
    while i < |movies|
      invariant 0 <= i <= |movies|
      invariant results == Matches(queryTokens, movies[..i], a)
      invariant nResults >= 0 ==> |results| <= nResults
    {
      if |results| == nResults {
        LimitedOfPrefix(queryTokens, movies, i, a, nResults);
        break;
      }
      var movie := movies[i];
      var movieTokens := Tokenize(movie.title, a);
      MatchesSnoc(queryTokens, movies, i, a);
      if HasMatchingTokens(queryTokens, movieTokens) {
        results := results + [movie];
      }
      i := i + 1;
    }
    if i == |movies| {
      assert movies[..i] == movies;
    }
    LimitedMatchesProperties(queryTokens, movies, a, nResults);
  }

  /** What `search_command` as written returns for the query tokens `qt` and the limit `n`:
      the intended result unless `n == 0`; for `n == 0` every match when the first movie
      matches and nothing otherwise. */
  ghost predicate AsWrittenOutcome(qt: seq<string>, movies: seq<Movie>, a: Analyzer, n: int, results: seq<Movie>) {
    && (n != 0 ==> results == Limited(Matches(qt, movies, a), n))
    && (n == 0 && |movies| > 0 && TitleMatches(qt, movies[0], a) ==> results == Matches(qt, movies, a))
    && (n == 0 && (|movies| == 0 || !TitleMatches(qt, movies[0], a)) ==> results == [])
  }

  /** One pass of the loop of `search_command` as written, from the state after `i` movies
      to the state after `i + 1`: either the limit test fires, and the collected movies are
      then the final result, or the loop invariant still holds. */
  lemma AsWrittenStep(qt: seq<string>, movies: seq<Movie>, i: nat, a: Analyzer, n: int)
    requires i < |movies|
    requires n >= 1 ==> |Matches(qt, movies[..i], a)| < n
    requires n == 0 && i >= 1 ==> TitleMatches(qt, movies[0], a)
    ensures var r := Matches(qt, movies[..i + 1], a);
      && (|r| != n ==> (n >= 1 ==> |r| < n) && (n == 0 ==> TitleMatches(qt, movies[0], a)))
      && (|r| == n ==> AsWrittenOutcome(qt, movies, a, n, r))
  {
    MatchesSnoc(qt, movies, i, a);
    if i == 0 {
      assert movies[..0] == [];
    }
    if |Matches(qt, movies[..i + 1], a)| == n && n != 0 {
      LimitedOfPrefix(qt, movies, i + 1, a, n);
    }
  }

  /** The loop of `search_command` as written ran to the end of the corpus. */
  lemma AsWrittenEnd(qt: seq<string>, movies: seq<Movie>, a: Analyzer, n: int)
    requires n >= 1 ==> |Matches(qt, movies, a)| < n
    requires n == 0 && |movies| >= 1 ==> TitleMatches(qt, movies[0], a)
    ensures AsWrittenOutcome(qt, movies, a, n, Matches(qt, movies, a))
  {
  }

  /** `search_command` as written: the limit is tested after every movie, appended or not.
      For `n_results != 0` this is the intended result; for `n_results == 0` the test fires
      after the first movie only when that movie did not match, and otherwise never fires, so
      the search returns nothing or every match depending on the first movie alone. */
  method SearchCommandAsWritten(query: string, nResults: int, movies: seq<Movie>, a: Analyzer)
    returns (results: seq<Movie>)
    ensures nResults != 0 ==>
      results == Limited(Matches(Tokenize(query, a), movies, a), nResults)
    ensures nResults == 0 && |movies| > 0 && TitleMatches(Tokenize(query, a), movies[0], a) ==>
      results == Matches(Tokenize(query, a), movies, a)
    ensures nResults == 0 && (|movies| == 0 || !TitleMatches(Tokenize(query, a), movies[0], a)) ==>
      results == []
  {
    results := [];
    var queryTokens := Tokenize(query, a);
    var i := 0;
    ghost var stopped := false;
    while i < |movies|
      invariant 0 <= i <= |movies|
      invariant results == Matches(queryTokens, movies[..i], a)
      invariant nResults >= 1 ==> |results| < nResults
      invariant nResults == 0 && i >= 1 ==> TitleMatches(queryTokens, movies[0], a)
      invariant !stopped
    {
      var movie := movies[i];
      var movieTokens := Tokenize(movie.title, a);
      MatchesSnoc(queryTokens, movies, i, a);
      AsWrittenStep(queryTokens, movies, i, a, nResults);
      if HasMatchingTokens(queryTokens, movieTokens) {
        results := results + [movie];
      }
      i := i + 1;
      if |results| == nResults {
        stopped := true;
        break;
      }
    }
    if !stopped {
      assert movies[..i] == movies;
      AsWrittenEnd(queryTokens, movies, a, nResults);
    }
    assert AsWrittenOutcome(queryTokens, movies, a, nResults, results);
  }
}
