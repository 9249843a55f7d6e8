/** Worked examples on a two-movie corpus: the title scan of `search_command` and the
    limit-0 behaviour of the loop as written. The stemmer is the identity and there are no
    stopwords, so every normalised word is its own token. */
module Scenarios {
  import opened Seqs
  import opened Text
  import opened Index
  import opened Search

  function Identity(w: string): string { w }

  function Plain(): Analyzer {
    Analyzer({}, Identity)
  }

  function Corpus(): seq<Movie> {
    [Movie(1, "Brave", "A princess named Merida"), Movie(2, "Braveheart", "Scottish warrior")]
  }

  lemma BraveQuery()
    ensures Tokenize("brave", Plain()) == ["brave"]
  {
    assert Lower("brave") == "brave";
    TokenizeLowerWord("brave", "brave", Plain());
  }

  lemma XyzzyQuery()
    ensures Tokenize("xyzzy", Plain()) == ["xyzzy"]
  {
    assert Lower("xyzzy") == "xyzzy";
    TokenizeLowerWord("xyzzy", "xyzzy", Plain());
  }

  lemma BraveTitle()
    ensures Tokenize("Brave", Plain()) == ["brave"]
  {
    assert Lower("Brave") == "brave";
    TokenizeLowerWord("Brave", "brave", Plain());
  }

  /** `s.lower() == t` is decided character by character. */
  lemma LowerPointwise(s: string, t: string)
    requires |s| == |t| && forall i :: 0 <= i < |s| ==> LowerChar(s[i]) == t[i]
    ensures Lower(s) == t
  {
  }

  lemma LowerBraveheart()
    ensures Lower("Braveheart") == "braveheart"
  {
    LowerPointwise("Braveheart", "braveheart");
  }

  lemma BraveheartLetters()
    ensures forall i :: 0 <= i < |"braveheart"| ==> 'a' <= "braveheart"[i] <= 'z'
  {
  }

  lemma BraveheartTitle()
    ensures Tokenize("Braveheart", Plain()) == ["braveheart"]
  {
    LowerBraveheart();
    BraveheartLetters();
    TokenizeLowerWord("Braveheart", "braveheart", Plain());
  }

  /** A prefix of a string occurs in it. */
  lemma PrefixIsSubstring(needle: string, hay: string)
    requires needle <= hay
    ensures IsSubstring(needle, hay)
  {
    assert OccursAt(needle, hay, 0);
  }

  /** A needle whose first character is not in `hay` does not occur in it. */
  lemma FirstCharMissing(needle: string, hay: string)
    requires needle != [] && needle[0] !in hay
    ensures !IsSubstring(needle, hay)
  {
    forall k | 0 <= k <= |hay| - |needle| ensures !OccursAt(needle, hay, k) {
      assert hay[k..k + |needle|][0] == hay[k];
    }
  }

  /** A two-movie corpus, one query token and one token per title: the matches are the
      movies whose title token contains the query token. */
  lemma TwoOneTokenTitles(qt: seq<string>, c: seq<Movie>, a: Analyzer, q: string, t0: string, t1: string)
    requires qt == [q] && |c| == 2
    requires Tokenize(c[0].title, a) == [t0] && Tokenize(c[1].title, a) == [t1]
    ensures IsSubstring(q, t0) && IsSubstring(q, t1) ==> Matches(qt, c, a) == c
    ensures !IsSubstring(q, t0) && !IsSubstring(q, t1) ==> Matches(qt, c, a) == []
  {
    assert c == [c[0]] + [c[1]];
    FilterConcat(TitleFilter(qt, a), [c[0]], [c[1]]);
  }

  lemma BraveInBothTitleTokens()
    ensures IsSubstring("brave", "brave") && IsSubstring("brave", "braveheart")
  {
    PrefixIsSubstring("brave", "brave");
    PrefixIsSubstring("brave", "braveheart");
  }

  /** "brave" matches both titles. */
  lemma BraveMatchesAll()
    ensures Matches(Tokenize("brave", Plain()), Corpus(), Plain()) == Corpus()
  {
    BraveQuery();
    BraveTitle();
    BraveheartTitle();
    BraveInBothTitleTokens();
    TwoOneTokenTitles(["brave"], Corpus(), Plain(), "brave", "brave", "braveheart");
  }

  lemma XyzzyInNoTitleToken()
    ensures !IsSubstring("xyzzy", "brave") && !IsSubstring("xyzzy", "braveheart")
  {
    FirstCharMissing("xyzzy", "brave");
    FirstCharMissing("xyzzy", "braveheart");
  }

  /** "xyzzy" matches neither title. */
  lemma XyzzyMatchesNone()
    ensures Matches(Tokenize("xyzzy", Plain()), Corpus(), Plain()) == []
  {
    XyzzyQuery();
    BraveTitle();
    BraveheartTitle();
    XyzzyInNoTitleToken();
    TwoOneTokenTitles(["xyzzy"], Corpus(), Plain(), "xyzzy", "brave", "braveheart");
  }

  /** `search("brave", 5)` returns both movies in corpus order, `search("brave", 1)` the
      first only, and `search("xyzzy", 5)` nothing. */
  method BraveSearches() returns (five: seq<Movie>, one: seq<Movie>, none: seq<Movie>)
    ensures five == Corpus() && one == [Corpus()[0]] && none == []
  {
    BraveMatchesAll();
    XyzzyMatchesNone();
    five := SearchCommand("brave", 5, Corpus(), Plain());
    one := SearchCommand("brave", 1, Corpus(), Plain());
    none := SearchCommand("xyzzy", 5, Corpus(), Plain());
  }

  /** The same three searches through the loop as written give the same results. */
  method BraveSearchesAsWritten() returns (five: seq<Movie>, one: seq<Movie>, none: seq<Movie>)
    ensures five == Corpus() && one == [Corpus()[0]] && none == []
  {
    BraveMatchesAll();
    XyzzyMatchesNone();
    five := SearchCommandAsWritten("brave", 5, Corpus(), Plain());
    one := SearchCommandAsWritten("brave", 1, Corpus(), Plain());
    none := SearchCommandAsWritten("xyzzy", 5, Corpus(), Plain());
  }

  /** Limit 0 with a first movie that matches: the loop as written returns every match,
      where the intended search returns nothing. */
  method ZeroLimitCounterexample() returns (asWritten: seq<Movie>, intended: seq<Movie>)
    ensures asWritten == Corpus() && intended == []
  {
    BraveMatchesAll();
    asWritten := SearchCommandAsWritten("brave", 0, Corpus(), Plain());
    intended := SearchCommand("brave", 0, Corpus(), Plain());
  }
}
