# Keyword movie search: normaliser, tokenizer, inverted index and title scan

This project models the keyword-search core of `cli/lib/keyboard_search.py` in Dafny and
proves properties of the model. It covers five parts:

- **Text normalisation.** `transform_text` lower-cases a text and deletes every character of
  Python's `string.punctuation`.
- **Tokenisation.** `tokenize_text` normalises the text and splits it on whitespace. It drops
  empty words and stopwords, then stems every remaining word.
- **The inverted index.** `InvertedIndex` keeps `index`, a `defaultdict(set)` from token to the
  ids of the documents holding it, and `docmap`, a dict from id to movie:
  - `__init__` makes both empty.
  - `_add_document` adds an id under every distinct token of a text.
  - `get_documents` returns the posting set of a term as a sorted list.
  - `build` indexes every movie under `title + " " + description` and records it in `docmap`.
- **Token matching.** `has_matching_tokens` holds when some query token is a substring of some
  movie token.
- **The title scan.** `search_command` tokenises the query and walks the corpus in order. It
  keeps each movie whose title tokens match and stops at a limit.

The modules follow that structure:

- `Seqs` (seqs.dfy): Python's list comprehensions as `Filter` and `Map`, `"".join` as
  `Flatten`, and "is a subsequence of".
- `Text` (text.dfy): `str.lower`, `str.translate`, `str.split`, `transform_text` and
  `tokenize_text`.
- `Index` (index.dfy): the `Movie` record, the `InvertedIndex` class and the functions that
  specify its methods.
- `Search` (search.dfy): `has_matching_tokens`, plus `search_command` both as the loop is
  written and as it is meant to work.
- `Scenarios` (scenarios.dfy): a two-movie corpus, the searches on it, and the counterexample
  behind the finding below.

The model takes the source's own form:

- `InvertedIndex` is a class with the fields `index: map<string, set<int>>` and
  `docmap: map<int, Movie>`.
- `AddDocument` and `Build` change those fields in loops. Each loop is proved against a
  function of the inputs and the old state: `WithDocument`, `IndexCorpus` and `DocMap`.
- `GetDocuments` has no loop. Its result is `SortedIds`, which models the library call
  `sorted(list(...))`.
- `search_command` is a method with a `while` loop and a `break`.
- The expression pipelines (`transform_text`, `tokenize_text`, `has_matching_tokens`) are
  functions.

The reading of a `defaultdict` is explicit. `Postings(ix, t)` is the empty set for a token
without a key. `get_documents` inserts that empty set into `index`, as the `defaultdict` does.

Collaborators outside the core become parameters. The stopword list and the stemmer are the
two fields of an `Analyzer` value. The corpus returned by `load_movies()` is a sequence of
movies.

The docstring of `search_command` promises at most `n_results` movies
(cli/lib/keyboard_search.py:161 and 164). With a limit of 0 the loop can return more than
that. The model follows the code, and "## Findings" records the discrepancy.

## Model

| member | source | states |
|---|---|---|
| Text.TransformText | cli/lib/keyboard_search.py:93-95 | The normalised text is no longer than the input and holds no punctuation character and no ASCII upper-case letter. |
| Text.TransformKeepsOrder | cli/lib/keyboard_search.py:93-95 | The normalised text is a subsequence of the lower-cased text: characters are only deleted, never reordered. Which characters are deleted is stated by `Text.TransformChar`. |
| Text.TransformChar | cli/lib/keyboard_search.py:93-95 | On one character, normalisation deletes punctuation and keeps every other character, lower-cased. With `Text.TransformConcat` this determines the result on every text: only punctuation is deleted and everything else is kept, lower-cased, in order. |
| Text.TransformFixedPoint | cli/lib/keyboard_search.py:93-95 | A text is unchanged by normalisation if and only if it has no punctuation and no upper-case letter. |
| Text.TransformIdempotent | cli/lib/keyboard_search.py:93-95 | Normalising twice gives the same text as normalising once. |
| Text.TransformConcat | cli/lib/keyboard_search.py:93-95 | Normalisation works character by character: normalising `x + y` is normalising `x` followed by normalising `y`. |
| Text.PunctuationRanges | cli/lib/keyboard_search.py:94 | `string.punctuation` has 32 characters, which are exactly the four ASCII symbol runs `!`..`/`, `:`..`@`, `[`..`` ` ``, `{`..`~`; none of them is a letter or whitespace. |
| Text.LowerChar | cli/lib/keyboard_search.py:93 | Lower-casing a character leaves no upper-case letter: an upper-case one moves 32 code points up, any other character is kept. |
| Text.Split | cli/lib/keyboard_search.py:120 | Every element of `str.split()` is a word: non-empty and free of whitespace. |
| Text.SplitKeepsCharacters | cli/lib/keyboard_search.py:120 | The words glued together are exactly the non-whitespace characters of the text, in order: splitting loses only whitespace. |
| Text.SplitJoin | cli/lib/keyboard_search.py:120 | Splitting `" ".join(ws)` gives back `ws` for every list of words. |
| Text.SplitConcat | cli/lib/keyboard_search.py:120 | Splitting a text at a whitespace character splits the two sides independently. |
| Text.SplitWord | cli/lib/keyboard_search.py:120 | A single word splits into the one-element list of that word. |
| Text.Tokenize | cli/lib/keyboard_search.py:113-122 | There are never more tokens than whitespace-separated words of the normalised text. |
| Text.TokenizeInOrder | cli/lib/keyboard_search.py:116-121 | The surviving words are a subsequence of the words in source order. Every word that is neither empty nor a stopword survives. Token `i` is the stem of surviving word `i`. |
| Text.TokensFromContentWords | cli/lib/keyboard_search.py:116-121 | Every token is the stem of a word of the normalised text that is non-empty and not a stopword. |
| Text.TokensNonEmpty | cli/lib/keyboard_search.py:118-121 | With a stemmer that never maps a word to the empty string, no token is empty. |
| Text.TokenizeWord | cli/lib/keyboard_search.py:113-122 | A text that normalises to one word that is not a stopword has exactly one token: the stem of that word. |
| Text.TokenizeLowerWord | cli/lib/keyboard_search.py:113-122 | A text that lower-cases to one word of letters `a`-`z` that is not a stopword has exactly one token: the stem of that word. |
| Text.TokenizeConcat | cli/lib/keyboard_search.py:113-122 | The tokens of `title + " " + description` are the title's tokens followed by the description's. |
| Index.AddDocumentEffect | cli/lib/keyboard_search.py:41-43 | After adding a document: every token of the document has a key and the id in its posting set; every other token's posting set is unchanged; no id is removed; at most the new id is added. |
| Index.WithDocumentIdempotent | cli/lib/keyboard_search.py:42-43 | Adding the same document twice leaves the same index as adding it once, because postings are sets. |
| Index.InvertedIndex.constructor | cli/lib/keyboard_search.py:26-31 | A new index has an empty token map and an empty document map. |
| Index.InvertedIndex.AddDocument | cli/lib/keyboard_search.py:41-43 | The new `index` is the old one with the id added under every distinct token of the text. |
| Index.InvertedIndex.AddTokens | cli/lib/keyboard_search.py:42-43 | The loop over `set(tokens)`, visiting the tokens in any order, gives the old index with the id added under each of them. |
| Index.InvertedIndex.GetDocuments | cli/lib/keyboard_search.py:55 | The result is strictly ascending and holds exactly the ids of the posting set; an unknown term gives an empty list. The only change to `index` is an empty set stored under an unknown term, and no posting set gains or loses an id. |
| Index.SortedIds | cli/lib/keyboard_search.py:55 | `sorted(list(s))` of a set of ids is strictly ascending, has the same members as the set and has one element per member. |
| Index.SortedUnique | cli/lib/keyboard_search.py:55 | Two strictly ascending lists with the same members are equal, so the result of `get_documents` is determined by the posting set. |
| Index.InvertedIndex.Build | cli/lib/keyboard_search.py:63-68 | After `build` over `movies`, `index` is the old index with every movie added in turn under its title and description, and `docmap` is the old map updated with every movie in turn. |
| Index.IndexCorpusPostings | cli/lib/keyboard_search.py:63-68 | After indexing a corpus, the posting set of each token is its old posting set plus the ids of exactly the movies whose title and description have that token. |
| Index.IndexCorpusKeys | cli/lib/keyboard_search.py:63-68 | After indexing a corpus, the tokens with a key are the old ones plus every token of some movie. |
| Index.BuildPostingsExact | cli/lib/keyboard_search.py:63-68 | In a fresh build, an id is in a token's posting set if and only if some movie with that id has the token in its title and description; a token of no movie has no documents. |
| Index.TitleOrDescriptionIndexed | cli/lib/keyboard_search.py:66-67 | A token of a movie's title or of its description finds that movie after `build`. |
| Index.BuildOrderIndependent | cli/lib/keyboard_search.py:64-67 | The index that `build` produces depends only on which movies are indexed, not on their order or repetition. |
| Index.DocMap | cli/lib/keyboard_search.py:68 | The document map's keys are the ids of the movies, and each id maps to a movie of the corpus with that id. |
| Index.DocMapLastWins | cli/lib/keyboard_search.py:68 | When several movies share an id, the document map keeps the last one. |
| Search.ContainedInAny | cli/lib/keyboard_search.py:139-141 | The inner loop finds a movie token containing the query token if and only if one exists. |
| Search.HasMatchingTokens | cli/lib/keyboard_search.py:138-142 | The result is true if and only if some query token is a substring of some movie token, so no query tokens or no movie tokens give false. |
| Search.LimitedMatchesProperties | cli/lib/keyboard_search.py:166-175 | The first `n` matches are movies of the corpus in corpus order, each matching the query. There are at most `n` of them for `n >= 0`. They are every match when fewer than `n` movies match or `n` is negative. They are a prefix of the list of all matches. |
| Search.SearchCommand | cli/lib/keyboard_search.py:166-175 | The search returns the first `n_results` movies, in corpus order, whose title tokens match the query tokens. Each result matches, the results are a subsequence of the corpus, there are at most `n_results` of them, and every match is returned when fewer match or the limit is negative. |
| Search.AsWrittenStep | cli/lib/keyboard_search.py:169-174 | One pass of the loop as written: either the limit test fires with the final result collected, or the loop invariant holds for one more movie. |
| Search.SearchCommandAsWritten | cli/lib/keyboard_search.py:166-175 | As written, the loop returns the intended first `n_results` matches for every `n_results` other than 0. For 0 it returns every match when the first movie matches, and nothing otherwise. |
| Scenarios.BraveSearches | cli/lib/keyboard_search.py:166-175 | With the identity stemmer and no stopwords, on the corpus Brave, Braveheart, the intended search for "brave" returns both movies in corpus order with limit 5 and only Brave with limit 1; "xyzzy" with limit 5 returns nothing. |
| Scenarios.BraveSearchesAsWritten | cli/lib/keyboard_search.py:166-175 | The same three searches through the loop as written give the same results: both movies, then Brave only, then nothing. |
| Scenarios.ZeroLimitCounterexample | cli/lib/keyboard_search.py:173-174 | On the same corpus with limit 0, the loop as written returns both movies while the intended search returns none. |

## Left out

- `InvertedIndex.save` (cli/lib/keyboard_search.py:70-80) is file I/O through `pickle` in an opaque format, so it has no model.
- The Porter stemmer of nltk is foreign code. It is the function `Analyzer.stem`, about which nothing is assumed except where a lemma states a requirement on it.
- `load_movies` and `load_stopwords` (cli/lib/search_utils.py:10-18) read files. The corpus is a parameter and the stopword list is `Analyzer.stopwords`. `tokenize_text` re-reads the stopword file on every call; the model assumes the file does not change during one operation.
- The path constants `CACHE_PATH`, `index_path` and `doc_path` only name files, so the constructor does not model them.
- `build_command` and the command-line front end (cli/keyword_search_cli.py) are glue and printing, so they are not modelled.
- Text.LowerChar: `str.lower()` is modelled on ASCII letters only. Non-ASCII upper-case letters are kept as they are.
- Text.Split: whitespace is the character list of Python's `str.isspace()`. No other Unicode semantics is modelled.
- Index.Movie carries only `id`, `title` and `description`. The other fields of a record are not modelled, and neither is the `KeyError` on a record missing one of these fields.
- Index.InvertedIndex.AddTokens visits the token set in an unspecified order, as iteration over a Python `set` does. Its contract is independent of that order.
- Document ids are modelled as integers. Python accepts any hashable, orderable value.
- Search.SearchCommand and Search.SearchCommandAsWritten take `n_results` as an integer. A limit equal to no integer (e.g. 2.5 or None), for which the `==` test never fires, is not modelled.
- The worked example "`get_documents("merida")` after a build returns `[1]`" is not evaluated on concrete strings. `Index.BuildPostingsExact` and `Index.TitleOrDescriptionIndexed` state it for every corpus.

## Findings

| source | as written | input that shows it | evidently intended | confidence | as-written member | corrected member |
|---|---|---|---|---|---|---|
| cli/lib/keyboard_search.py:173-174 | `if len(results) == n_results: break` runs after each movie, whether or not that movie was appended. With `n_results == 0`, a first movie that matches is appended before the first test, so the test never fires again and every match is returned. A first movie that does not match returns nothing. | `search_command("brave", 0)` on the corpus [Brave, Braveheart], with the identity stemmer and no stopwords: both movies come back (`Scenarios.ZeroLimitCounterexample`). | A limit of 0 returns no movie: the limit is tested before a movie is appended. For every other limit the result is unchanged. | not executed | Search.SearchCommandAsWritten | Search.SearchCommand |
