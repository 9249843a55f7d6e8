/** The in-memory inverted index of cli/lib/keyboard_search.py: `InvertedIndex` with its
    `index` (token -> posting set, a `defaultdict(set)`) and `docmap` (doc id -> movie). */
module Index {
  import opened Seqs
  import opened Text

  /** A movie record of the dataset; only the fields the core reads are modelled. */
  datatype Movie = Movie(id: int, title: string, description: string)

  /** The text indexed for a movie: `f"{movie['title']} {movie['description']}"`. */
  function IndexedText(m: Movie): string {
    m.title + " " + m.description
  }

  type PostingMap = map<string, set<int>>

  /** Reading a `defaultdict(set)`: an absent token has the empty posting set. */
  function Postings(ix: PostingMap, t: string): set<int> {
    if t in ix then ix[t] else {}
  }

  /** `set(tokens)` of `_add_document`. */
  function TokenSet(text: string, a: Analyzer): set<string> {
    set t | t in Tokenize(text, a)
  }

  /** The index after `_add_document(id, text)` whose distinct tokens are `toks`: every
      token gets a key (the `defaultdict` inserts it) and `id` in its posting set. */
  function WithDocument(ix: PostingMap, id: int, toks: set<string>): PostingMap {
    map t | t in ix.Keys + toks :: Postings(ix, t) + (if t in toks then {id} else {})
  }

  /** What `_add_document` does to one token `t`: it gets a key; when it is a token of the
      document its posting set gains `id`, otherwise it is unchanged; no id is removed. */
  lemma AddDocumentEffect(ix: PostingMap, id: int, toks: set<string>, t: string)
    ensures WithDocument(ix, id, toks).Keys == ix.Keys + toks
    ensures t in toks ==> id in Postings(WithDocument(ix, id, toks), t)
    ensures t !in toks ==> Postings(WithDocument(ix, id, toks), t) == Postings(ix, t)
    ensures Postings(ix, t) <= Postings(WithDocument(ix, id, toks), t) <= Postings(ix, t) + {id}
  {
  }

  /** Adding the same document twice leaves the index it left the first time. */
  lemma WithDocumentIdempotent(ix: PostingMap, id: int, toks: set<string>)
    ensures WithDocument(WithDocument(ix, id, toks), id, toks) == WithDocument(ix, id, toks)
  {
    var once := WithDocument(ix, id, toks);
    var twice := WithDocument(once, id, toks);
    assert twice.Keys == once.Keys;
    forall t | t in once ensures twice[t] == once[t] {
      assert Postings(twice, t) == Postings(once, t);
    }
  }

  /** Adding a document with no tokens leaves the index as it was. */
  lemma WithDocumentNone(ix: PostingMap, id: int)
    ensures WithDocument(ix, id, {}) == ix
  {
    var r := WithDocument(ix, id, {});
    assert r.Keys == ix.Keys;
    forall u | u in r ensures r[u] == ix[u] {
    }
  }

  /** One step of the loop of `_add_document`: adding `id` under one more token. */
  lemma WithDocumentStep(ix: PostingMap, id: int, done: set<string>, t: string)
    ensures var cur := WithDocument(ix, id, done);
      cur[t := Postings(cur, t) + {id}] == WithDocument(ix, id, done + {t})
  {
    var cur := WithDocument(ix, id, done);
    var l, r := cur[t := Postings(cur, t) + {id}], WithDocument(ix, id, done + {t});
    assert l.Keys == r.Keys;
    forall u | u in l ensures l[u] == r[u] {
      assert Postings(l, u) == Postings(r, u);
    }
  }

  /** The index after `build` has added the movies `ms` in order to `ix`. */
  function IndexCorpus(ix: PostingMap, ms: seq<Movie>, a: Analyzer): PostingMap
    decreases |ms|
  {
    if ms == [] then ix
    else
      var last := ms[|ms| - 1];
      WithDocument(IndexCorpus(ix, ms[..|ms| - 1], a), last.id, TokenSet(IndexedText(last), a))
  }

  /** `build` indexes one more movie. */
  lemma IndexCorpusSnoc(ix: PostingMap, ms: seq<Movie>, i: nat, a: Analyzer)
    requires i < |ms|
    ensures IndexCorpus(ix, ms[..i + 1], a)
      == WithDocument(IndexCorpus(ix, ms[..i], a), ms[i].id, TokenSet(IndexedText(ms[i]), a))
  {
    var p := ms[..i + 1];
    assert p[..|p| - 1] == ms[..i];
  }

  /** The ids of the movies of `ms` whose indexed text has the token `t`. */
  ghost function IdsWithToken(ms: seq<Movie>, t: string, a: Analyzer): set<int> {
    set m | m in ms && t in TokenSet(IndexedText(m), a) :: m.id
  }

  /** Every token of some movie of `ms`. */
  ghost function CorpusTokens(ms: seq<Movie>, a: Analyzer): set<string> {
    set m, t | m in ms && t in TokenSet(IndexedText(m), a) :: t
  }

  /** The posting set of every token after `build`: the ids it had before, and the ids of
      exactly those movies whose title and description have the token. */
  lemma {:induction false} IndexCorpusPostings(ix: PostingMap, ms: seq<Movie>, a: Analyzer, t: string)
    ensures Postings(IndexCorpus(ix, ms, a), t) == Postings(ix, t) + IdsWithToken(ms, t, a)
    decreases |ms|
  {
    if ms == [] {
      assert IdsWithToken(ms, t, a) == {};
    } else {
      var init, last := ms[..|ms| - 1], ms[|ms| - 1];
      var toks := TokenSet(IndexedText(last), a);
      IndexCorpusPostings(ix, init, a, t);
      WithDocumentPostings(IndexCorpus(ix, init, a), last.id, toks, t);
      IdsWithTokenLast(ms, t, a);
    }
  }

  lemma WithDocumentPostings(ix: PostingMap, id: int, toks: set<string>, t: string)
    ensures Postings(WithDocument(ix, id, toks), t) ==
      Postings(ix, t) + (if t in toks then {id} else {})
  {
  }

  lemma IdsWithTokenLast(ms: seq<Movie>, t: string, a: Analyzer)
    requires ms != []
    ensures var last := ms[|ms| - 1];
      IdsWithToken(ms, t, a) == IdsWithToken(ms[..|ms| - 1], t, a) +
        (if t in TokenSet(IndexedText(last), a) then {last.id} else {})
  {
    var init, last := ms[..|ms| - 1], ms[|ms| - 1];
    assert ms == init + [last];
    assert forall m :: m in ms <==> m in init || m == last;
  }

  /** The tokens that have a key after `build`: those before and every token of a movie. */
  lemma {:induction false} IndexCorpusKeys(ix: PostingMap, ms: seq<Movie>, a: Analyzer)
    ensures IndexCorpus(ix, ms, a).Keys == ix.Keys + CorpusTokens(ms, a)
    decreases |ms|
  {
    if ms == [] {
      assert CorpusTokens(ms, a) == {};
    } else {
      var init, last := ms[..|ms| - 1], ms[|ms| - 1];
      IndexCorpusKeys(ix, init, a);
      CorpusTokensLast(ms, a);
    }
  }

  lemma CorpusTokensLast(ms: seq<Movie>, a: Analyzer)
    requires ms != []
    ensures CorpusTokens(ms, a) ==
      CorpusTokens(ms[..|ms| - 1], a) + TokenSet(IndexedText(ms[|ms| - 1]), a)
  {
    var init, last := ms[..|ms| - 1], ms[|ms| - 1];
    assert ms == init + [last];
    assert forall m :: m in ms <==> m in init || m == last;
  }

  /** The inverted-index invariant of a fresh build: `id` is in the posting set of `t`
      exactly when some movie with that id has `t` among the tokens of its title and
      description; a token of no movie has no documents. */
  lemma BuildPostingsExact(ms: seq<Movie>, a: Analyzer, t: string, id: int)
    ensures id in Postings(IndexCorpus(map[], ms, a), t) <==>
      exists m :: m in ms && m.id == id && t in Tokenize(IndexedText(m), a)
    ensures (forall m :: m in ms ==> t !in Tokenize(IndexedText(m), a)) ==>
      Postings(IndexCorpus(map[], ms, a), t) == {}
  {
    IndexCorpusPostings(map[], ms, a, t);
  }

  /** A token of a movie's title or of its description finds the movie after `build`. */
  lemma TitleOrDescriptionIndexed(ms: seq<Movie>, m: Movie, a: Analyzer, t: string)
    requires m in ms
    requires t in Tokenize(m.title, a) || t in Tokenize(m.description, a)
    ensures m.id in Postings(IndexCorpus(map[], ms, a), t)
  {
    TokenizeConcat(m.title, m.description, a);
    IndexCorpusPostings(map[], ms, a, t);
  }

  /** The index `build` produces depends only on which movies are indexed, not on their
      order or repetition. */
  lemma BuildOrderIndependent(ix: PostingMap, ms: seq<Movie>, ns: seq<Movie>, a: Analyzer)
    requires forall m :: m in ms <==> m in ns
    ensures IndexCorpus(ix, ms, a) == IndexCorpus(ix, ns, a)
  {
    var l, r := IndexCorpus(ix, ms, a), IndexCorpus(ix, ns, a);
    IndexCorpusKeys(ix, ms, a);
    IndexCorpusKeys(ix, ns, a);
    SameMoviesSameSets(ms, ns, a, "");
    forall t | t in l ensures l[t] == r[t] {
      IndexCorpusPostings(ix, ms, a, t);
      IndexCorpusPostings(ix, ns, a, t);
      SameMoviesSameSets(ms, ns, a, t);
    }
  }

  lemma SameMoviesSameSets(ms: seq<Movie>, ns: seq<Movie>, a: Analyzer, t: string)
    requires forall m :: m in ms <==> m in ns
    ensures CorpusTokens(ms, a) == CorpusTokens(ns, a)
    ensures IdsWithToken(ms, t, a) == IdsWithToken(ns, t, a)
  {
  }

  /** The `docmap` that `build` fills: `docmap[doc_id] = movie` for each movie in turn.
      Its keys are the ids of the movies and each id maps to a movie with that id. */
  function DocMap(ms: seq<Movie>): (d: map<int, Movie>)
    ensures d.Keys == set m | m in ms :: m.id
    ensures forall id :: id in d ==> d[id] in ms && d[id].id == id
    decreases |ms|
  {
    if ms == [] then map[]
    else
      var init, last := ms[..|ms| - 1], ms[|ms| - 1];
      assert ms == init + [last];
      assert forall m :: m in ms <==> m in init || m == last;
      DocMap(init)[last.id := last]
  }

  /** `build` records one more movie: its id now maps to it, whatever was there before. */
  lemma DocMapSnoc(base: map<int, Movie>, ms: seq<Movie>, i: nat)
    requires i < |ms|
    ensures base + DocMap(ms[..i + 1]) == (base + DocMap(ms[..i]))[ms[i].id := ms[i]]
  {
    var p := ms[..i + 1];
    assert p[..|p| - 1] == ms[..i];
    assert DocMap(p) == DocMap(ms[..i])[ms[i].id := ms[i]];
  }

  /** A later movie with the same id replaces an earlier one: the stored movie is the last
      one with its id. */
  lemma {:induction false} DocMapLastWins(ms: seq<Movie>, i: nat)
    requires i < |ms|
    requires forall j :: i < j < |ms| ==> ms[j].id != ms[i].id
    ensures ms[i].id in DocMap(ms) && DocMap(ms)[ms[i].id] == ms[i]
    decreases |ms|
  {
    var init, last := ms[..|ms| - 1], ms[|ms| - 1];
    if i < |ms| - 1 {
      assert last.id != ms[i].id;
      assert init[i] == ms[i];
      DocMapLastWins(init, i);
    }
  }

  /** Sorted strictly ascending: `sorted` of a set of ids. */
  predicate StrictlyAscending(s: seq<int>) {
    forall i, j :: 0 <= i < j < |s| ==> s[i] < s[j]
  }

  /** A set of ids without members is empty (used to pick a member of a non-empty set). */
  lemma NoIdEmpty(s: set<int>)
    ensures (forall x :: x !in s) ==> s == {}
  {
    if forall x :: x !in s {
      var none: set<int> := {};
      assert forall x :: x in s <==> x in none;
    }
  }

  /** A set of tokens without members is empty. */
  lemma NoTokenEmpty(s: set<string>)
    ensures (forall x :: x !in s) ==> s == {}
  {
    if forall x :: x !in s {
      var none: set<string> := {};
      assert forall x :: x in s <==> x in none;
    }
  }

  /** A least element of a non-empty set of ids, found by removing one element at a time. */
  lemma {:induction false} LeastOf(s: set<int>) returns (m: int)
    requires s != {}
    ensures m in s && forall x :: x in s ==> m <= x
    decreases |s|
  {
    NoIdEmpty(s);
    var x :| x in s;
    if s == {x} {
      m := x;
    } else {
      var y := LeastOf(s - {x});
      m := if x < y then x else y;
      assert forall z :: z in s ==> z == x || z in s - {x};
    }
  }

  lemma LeastExists(s: set<int>)
    requires s != {}
    ensures exists m :: m in s && forall x :: x in s ==> m <= x
  {
    var m := LeastOf(s);
    assert m in s && forall x :: x in s ==> m <= x;
  }

  /** The least id of a non-empty posting set. */
  function Least(s: set<int>): (m: int)
    requires s != {}
    ensures m in s && forall x :: x in s ==> m <= x
  {
    LeastExists(s);
    var m :| m in s && forall x :: x in s ==> m <= x;
    m
  }

  /** `sorted(list(s))`. */
  function SortedIds(s: set<int>): (r: seq<int>)
    ensures StrictlyAscending(r)
    ensures forall x :: x in r <==> x in s
    ensures |r| == |s|
    decreases |s|
  {
    if s == {} then []
    else
      var m := Least(s);
      [m] + SortedIds(s - {m})
  }

  lemma HeadIsLeast(s: seq<int>)
    requires StrictlyAscending(s) && s != []
    ensures forall x :: x in s ==> s[0] <= x
  {
    forall x | x in s ensures s[0] <= x {
      var k :| 0 <= k < |s| && s[k] == x;
    }
  }

  /** The result of `get_documents` is determined by the posting set: there is one strictly
      ascending list per set of ids. */
  lemma {:induction false} SortedUnique(xs: seq<int>, ys: seq<int>)
    requires StrictlyAscending(xs) && StrictlyAscending(ys)
    requires forall x :: x in xs <==> x in ys
    ensures xs == ys
    decreases |xs|
  {
    if xs != [] {
      assert xs[0] in xs;
    }
    if ys != [] {
      assert ys[0] in ys;
    }
    if xs != [] && ys != [] {
      assert xs[0] == ys[0] by {
        HeadIsLeast(xs);
        HeadIsLeast(ys);
      }
      assert forall x :: x in xs[1..] <==> x in xs && x != xs[0];
      assert forall x :: x in ys[1..] <==> x in ys && x != ys[0];
      SortedUnique(xs[1..], ys[1..]);
      assert xs == [xs[0]] + xs[1..] && ys == [ys[0]] + ys[1..];
    }
  }

  class InvertedIndex {
    var index: PostingMap
    var docmap: map<int, Movie>

    /** `__init__`: an empty index and an empty document map. */
    constructor ()
      ensures index == map[] && docmap == map[]
    {
      index := map[];
      docmap := map[];
    }

    /** `_add_document(doc_id, text)`: add `doc_id` to the posting set of every distinct
        token of `text`. */
    method AddDocument(docId: int, text: string, a: Analyzer)
      modifies this`index
      ensures index == WithDocument(old(index), docId, TokenSet(text, a))
    {
      var tokens := Tokenize(text, a);
      AddTokens(docId, set t | t in tokens);
    }

    /** The loop of `_add_document` over `set(tokens)`, visiting the tokens in any order. */
    method AddTokens(docId: int, toks: set<string>)
      modifies this`index
      ensures index == WithDocument(old(index), docId, toks)
    {
      var pending := toks;
      ghost var done: set<string> := {};
      WithDocumentNone(index, docId);
      while pending != {}
        invariant done + pending == toks
        invariant index == WithDocument(old(index), docId, done)
        decreases |pending|
      {
        NoTokenEmpty(pending);
        var t :| t in pending;
        WithDocumentStep(old(index), docId, done, t);
        index := index[t := Postings(index, t) + {docId}];
        pending := pending - {t};
        done := done + {t};
      }
    }

    /** `get_documents(term)`: the posting set of `term` as a strictly ascending list.
        Looking the term up through the `defaultdict` stores an empty set for an unknown
        term; no posting set gains or loses an id. */
    method GetDocuments(term: string) returns (ids: seq<int>)
      modifies this`index
      ensures StrictlyAscending(ids)
      ensures forall id :: id in ids <==> id in Postings(old(index), term)
      ensures index == if term in old(index) then old(index) else old(index)[term := {}]
      ensures forall t :: Postings(index, t) == Postings(old(index), t)
    {
      if term !in index {
        index := index[term := {}];
      }
      ids := SortedIds(index[term]);
    }

    /** `build`: index every movie under its title and description and record it in
        `docmap`; the dataset is the parameter `movies`. */
    method Build(movies: seq<Movie>, a: Analyzer)
      modifies this
      ensures index == IndexCorpus(old(index), movies, a)
      ensures docmap == old(docmap) + DocMap(movies)
    {
      for i := 0 to |movies|
        invariant index == IndexCorpus(old(index), movies[..i], a)
        invariant docmap == old(docmap) + DocMap(movies[..i])
      {
        var movie := movies[i];
        IndexCorpusSnoc(old(index), movies, i, a);
        DocMapSnoc(old(docmap), movies, i);
        AddDocument(movie.id, IndexedText(movie), a);
        docmap := docmap[movie.id := movie];
      }
      assert movies[..|movies|] == movies;
    }
  }
}
