/** Text normalisation and tokenisation: `transform_text` and `tokenize_text`
    (cli/lib/keyboard_search.py). Strings are sequences of characters; `str.lower()` is
    modelled on ASCII letters only; the Porter stemmer and the stopword list are injected
    through an `Analyzer` value. */
module Text {
  import opened Seqs

  /** Python's `string.punctuation`: the 32 printable ASCII characters that are neither
      letters, digits nor the space. */
  const Punctuation: string := "!\"#$%&'()*+,-./:;<=>?@[\\]^_`{|}~"

  predicate IsPunctuation(c: char) {
    c in Punctuation
  }

  /** The characters `translate` keeps. */
  predicate NotPunctuation(c: char) {
    !IsPunctuation(c)
  }

  predicate IsUpper(c: char) {
    'A' <= c <= 'Z'
  }

  /** The characters for which Python's `str.isspace()` holds, so the separators of
      `str.split()` without an argument. */
  predicate IsWhitespace(c: char) {
    || '\t' <= c <= '\r'
    || '\U{1C}' <= c <= '\U{1F}'
    || c == ' '
    || c == '\U{85}'
    || c == '\U{A0}'
    || c == '\U{1680}'
    || '\U{2000}' <= c <= '\U{200A}'
    || c == '\U{2028}'
    || c == '\U{2029}'
    || c == '\U{202F}'
    || c == '\U{205F}'
    || c == '\U{3000}'
  }

  /** The punctuation set is exactly the four runs of ASCII symbols between the space,
      the digits, the upper-case and the lower-case letters, and no character of it is a
      letter or whitespace. */
  lemma PunctuationRanges(c: char)
    ensures |Punctuation| == 32
    ensures IsPunctuation(c) <==>
      '!' <= c <= '/' || ':' <= c <= '@' || '[' <= c <= '`' || '{' <= c <= '~'
    ensures IsPunctuation(c) ==> !IsUpper(c) && !IsWhitespace(c)
  {
    // The literal lists the four runs in code order.
    assert forall i :: 0 <= i < 15 ==> Punctuation[i] as int == 33 + i;
    assert forall i :: 15 <= i < 22 ==> Punctuation[i] as int == 58 + (i - 15);
    assert forall i :: 22 <= i < 28 ==> Punctuation[i] as int == 91 + (i - 22);
    assert forall i :: 28 <= i < 32 ==> Punctuation[i] as int == 123 + (i - 28);
    if '!' <= c <= '/' {
      assert Punctuation[c as int - 33] == c;
    } else if ':' <= c <= '@' {
      assert Punctuation[c as int - 58 + 15] == c;
    } else if '[' <= c <= '`' {
      assert Punctuation[c as int - 91 + 22] == c;
    } else if '{' <= c <= '~' {
      assert Punctuation[c as int - 123 + 28] == c;
    }
  }

  /** `str.lower()` on one character (ASCII case folding). */
  function LowerChar(c: char): (d: char)
    ensures !IsUpper(d)
    ensures IsUpper(c) ==> d as int == c as int + 32
    ensures !IsUpper(c) ==> d == c
  {
    if IsUpper(c) then (c as int + 32) as char else c
  }

  /** `text.lower()`. */
  function Lower(s: string): string {
    Map(LowerChar, s)
  }

  /** `text.translate(str.maketrans("", "", string.punctuation))`. */
  function StripPunctuation(s: string): string {
    Filter(NotPunctuation, s)
  }

  /** `transform_text`: lower-case, then delete punctuation. */
  function TransformText(s: string): (r: string)
    ensures |r| <= |s|
    ensures forall i :: 0 <= i < |r| ==> !IsPunctuation(r[i]) && !IsUpper(r[i])
  {
    var l := Lower(s);
    FilterMembers(NotPunctuation, l);
    StripPunctuation(l)
  }

  /** Every character that is kept stays in its place relative to the others: the result
      is the lower-cased text with some characters deleted. */
  lemma TransformKeepsOrder(s: string)
    ensures IsSubsequence(TransformText(s), Lower(s))
  {
    FilterSubsequence(NotPunctuation, Lower(s));
  }

  /** A string is left unchanged by `transform_text` exactly when it has no punctuation
      and no upper-case letter. */
  lemma {:induction false} TransformFixedPoint(s: string)
    ensures TransformText(s) == s <==>
      forall i :: 0 <= i < |s| ==> !IsPunctuation(s[i]) && !IsUpper(s[i])
  {
    if forall i :: 0 <= i < |s| ==> !IsPunctuation(s[i]) && !IsUpper(s[i]) {
      assert Lower(s) == s;
      FilterAll(NotPunctuation, s);
    }
  }

  /** `transform_text` on one character: punctuation is deleted and every other character
      is kept, lower-cased. With `TransformConcat` this determines the result on every text. */
  lemma TransformChar(c: char)
    ensures TransformText([c]) == if IsPunctuation(c) then [] else [LowerChar(c)]
  {
    assert Lower([c]) == [LowerChar(c)];
    if IsUpper(c) {
      PunctuationRanges(c);
      PunctuationRanges(LowerChar(c));
    }
  }

  /** Normalising twice is the same as normalising once. */
  lemma TransformIdempotent(s: string)
    ensures TransformText(TransformText(s)) == TransformText(s)
  {
    TransformFixedPoint(TransformText(s));
  }

  /** Normalisation works character by character: it commutes with concatenation,
      so every kept character stays in its place relative to the others. */
  lemma TransformConcat(a: string, b: string)
    ensures TransformText(a + b) == TransformText(a) + TransformText(b)
  {
    MapConcat(LowerChar, a, b);
    FilterConcat(NotPunctuation, Lower(a), Lower(b));
  }

  lemma TransformSpace()
    ensures TransformText(" ") == " "
  {
    TransformFixedPoint(" ");
  }

  /** A word of `str.split()`: non-empty and without whitespace. */
  predicate IsWord(w: string) {
    w != [] && forall i :: 0 <= i < |w| ==> !IsWhitespace(w[i])
  }

  predicate NotWhitespace(c: char) {
    !IsWhitespace(c)
  }

  predicate NoWhitespace(w: string) {
    forall i :: 0 <= i < |w| ==> !IsWhitespace(w[i])
  }

  /** `str.split()` without an argument: the maximal runs of non-whitespace characters. */
  function Split(s: string): (ws: seq<string>)
    ensures forall i :: 0 <= i < |ws| ==> IsWord(ws[i])
  {
    SplitFrom(s, [])
  }

  /** Splitting the rest `s` of a string while `word` has been read of the current word. */
  function SplitFrom(s: string, word: string): (ws: seq<string>)
    requires NoWhitespace(word)
    ensures forall i :: 0 <= i < |ws| ==> IsWord(ws[i])
    decreases |s|
  {
    var done := if word == [] then [] else [word];
    if s == [] then done
    else if IsWhitespace(s[0]) then done + SplitFrom(s[1..], [])
    else SplitFrom(s[1..], word + [s[0]])
  }

  /** `" ".join(ws)`. */
  function JoinWords(ws: seq<string>): string {
    if ws == [] then []
    else if |ws| == 1 then ws[0]
    else ws[0] + " " + JoinWords(ws[1..])
  }

  /** Nothing but whitespace is lost by splitting: the words, glued together, are the
      non-whitespace characters of the text in their original order. */
  lemma {:induction false} SplitKeepsCharacters(s: string)
    ensures Flatten(Split(s)) == Filter(NotWhitespace, s)
  {
    SplitFromKeepsCharacters(s, []);
  }

  lemma {:induction false} SplitFromKeepsCharacters(s: string, word: string)
    requires NoWhitespace(word)
    ensures Flatten(SplitFrom(s, word)) == word + Filter(NotWhitespace, s)
    decreases |s|
  {
    if s == [] {
      FlattenPending(word);
      assert word + [] == word;
    } else if IsWhitespace(s[0]) {
      SplitFromKeepsCharacters(s[1..], []);
      WhitespaceEndsWord(s, word);
    } else {
      SplitFromKeepsCharacters(s[1..], word + [s[0]]);
      assert SplitFrom(s, word) == SplitFrom(s[1..], word + [s[0]]);
      assert Filter(NotWhitespace, s) == [s[0]] + Filter(NotWhitespace, s[1..]);
    }
  }

  /** The step of SplitFromKeepsCharacters at a whitespace character. */
  lemma WhitespaceEndsWord(s: string, word: string)
    requires NoWhitespace(word) && s != [] && IsWhitespace(s[0])
    requires Flatten(SplitFrom(s[1..], [])) == Filter(NotWhitespace, s[1..])
    ensures Flatten(SplitFrom(s, word)) == word + Filter(NotWhitespace, s)
  {
    var done: seq<string> := if word == [] then [] else [word];
    var later := SplitFrom(s[1..], []);
    assert SplitFrom(s, word) == done + later;
    assert Filter(NotWhitespace, s) == Filter(NotWhitespace, s[1..]);
    FlattenPending(word);
    FlattenConcat(done, later);
  }

  /** The pending word contributes exactly its characters. */
  lemma FlattenPending(word: string)
    ensures Flatten(if word == [] then [] else [word]) == word
  {
    if word != [] {
      assert Flatten([word]) == word + Flatten([word][1..]);
    }
  }

  /** Reading a run of non-whitespace only extends the current word. */
  lemma {:induction false} SplitFromWord(w: string, rest: string, word: string)
    requires NoWhitespace(word) && NoWhitespace(w)
    ensures SplitFrom(w + rest, word) == SplitFrom(rest, word + w)
    decreases |w|
  {
    if w == [] {
      assert w + rest == rest;
      assert word + w == word;
    } else {
      assert (w + rest)[0] == w[0];
      assert (w + rest)[1..] == w[1..] + rest;
      assert word + w == (word + [w[0]]) + w[1..];
      SplitFromWord(w[1..], rest, word + [w[0]]);
    }
  }

  /** A whitespace character ends the current word: splitting `x + [c] + y` splits `x`
      and `y` on their own. */
  lemma {:induction false} SplitFromConcat(x: string, c: char, y: string, word: string)
    requires IsWhitespace(c) && NoWhitespace(word)
    ensures SplitFrom(x + [c] + y, word) == SplitFrom(x, word) + SplitFrom(y, [])
    decreases |x|
  {
    if x == [] {
      assert x + [c] + y == [c] + y;
      assert ([c] + y)[1..] == y;
    } else {
      assert (x + [c] + y)[0] == x[0];
      assert (x + [c] + y)[1..] == x[1..] + [c] + y;
      if IsWhitespace(x[0]) {
        SplitFromConcat(x[1..], c, y, []);
      } else {
        SplitFromConcat(x[1..], c, y, word + [x[0]]);
      }
    }
  }

  lemma SplitConcat(x: string, c: char, y: string)
    requires IsWhitespace(c)
    ensures Split(x + [c] + y) == Split(x) + Split(y)
  {
    SplitFromConcat(x, c, y, []);
  }

  /** Splitting a single word gives back that word. */
  lemma SplitWord(w: string)
    requires IsWord(w)
    ensures Split(w) == [w]
  {
    SplitFromWord(w, [], []);
    assert w + [] == w;
    assert [] + w == w;
  }

  /** `" ".join(ws).split() == ws` for every list of words. */
  lemma {:induction false} SplitJoin(ws: seq<string>)
    requires forall i :: 0 <= i < |ws| ==> IsWord(ws[i])
    ensures Split(JoinWords(ws)) == ws
    decreases |ws|
  {
    if ws == [] {
    } else if |ws| == 1 {
      SplitWord(ws[0]);
    } else {
      SplitJoin(ws[1..]);
      SplitWord(ws[0]);
      assert ws[0] + " " + JoinWords(ws[1..]) == ws[0] + [' '] + JoinWords(ws[1..]);
      SplitConcat(ws[0], ' ', JoinWords(ws[1..]));
      assert [ws[0]] + ws[1..] == ws;
    }
  }

  /** The injected parts of `tokenize_text`: the stopword list (`load_stopwords`) and the
      stemmer (`PorterStemmer().stem`). */
  datatype Analyzer = Analyzer(stopwords: set<string>, stem: string -> string)

  /** The whitespace-separated words of the normalised text. */
  function Words(text: string): seq<string> {
    Split(TransformText(text))
  }

  /** `_filter`: keep a word when it is non-empty and not a stopword. */
  predicate Keep(a: Analyzer, w: string) {
    w != [] && w !in a.stopwords
  }

  /** The words that survive the stopword filter, in source order. */
  function ContentWords(text: string, a: Analyzer): seq<string> {
    Filter(w => Keep(a, w), Words(text))
  }

  /** `tokenize_text`: normalise, split, drop empty words and stopwords, stem. */
  function Tokenize(text: string, a: Analyzer): (tokens: seq<string>)
    ensures |tokens| <= |Words(text)|
  {
    Map(a.stem, ContentWords(text, a))
  }

  /** The tokens are the stems of a subsequence of the words: each surviving word is stemmed
      in place, in source order, and a non-stopword word is never dropped. */
  lemma TokenizeInOrder(text: string, a: Analyzer)
    ensures IsSubsequence(ContentWords(text, a), Words(text))
    ensures forall i :: 0 <= i < |Words(text)| && Keep(a, Words(text)[i]) ==>
      Words(text)[i] in ContentWords(text, a)
    ensures |Tokenize(text, a)| == |ContentWords(text, a)|
    ensures forall i :: 0 <= i < |Tokenize(text, a)| ==>
      Tokenize(text, a)[i] == a.stem(ContentWords(text, a)[i])
  {
    FilterMembers(w => Keep(a, w), Words(text));
    FilterSubsequence(w => Keep(a, w), Words(text));
  }

  /** Every token is the stem of a word of the normalised text that is neither empty nor
      a stopword. */
  lemma TokensFromContentWords(text: string, a: Analyzer)
    ensures forall i :: 0 <= i < |Tokenize(text, a)| ==>
      exists w :: w in Words(text) && Keep(a, w) && Tokenize(text, a)[i] == a.stem(w)
  {
    var kept := ContentWords(text, a);
    var toks := Tokenize(text, a);
    assert toks == Map(a.stem, kept);
    FilterMembers(w => Keep(a, w), Words(text));
    forall i | 0 <= i < |toks|
      ensures exists w :: w in Words(text) && Keep(a, w) && toks[i] == a.stem(w)
    {
      var w := kept[i];
      assert w in Words(text) && Keep(a, w) && toks[i] == a.stem(w);
    }
  }

  /** With a stemmer that never maps a word to the empty string, no token is empty. */
  lemma TokensNonEmpty(text: string, a: Analyzer)
    requires forall w :: w != [] ==> a.stem(w) != []
    ensures forall i :: 0 <= i < |Tokenize(text, a)| ==> Tokenize(text, a)[i] != []
  {
    TokensFromContentWords(text, a);
  }

  /** A text that normalises to a single word that is not a stopword has exactly one
      token: the stem of that word. */
  lemma TokenizeWord(text: string, a: Analyzer)
    requires IsWord(TransformText(text)) && TransformText(text) !in a.stopwords
    ensures Tokenize(text, a) == [a.stem(TransformText(text))]
  {
    SplitWord(TransformText(text));
  }

  /** A text that lower-cases to one word of ASCII lower-case letters that is not a
      stopword has exactly one token: the stem of that word. */
  lemma TokenizeLowerWord(text: string, w: string, a: Analyzer)
    requires Lower(text) == w && w != [] && w !in a.stopwords
    requires forall i :: 0 <= i < |w| ==> 'a' <= w[i] <= 'z'
    ensures Tokenize(text, a) == [a.stem(w)]
  {
    forall i | 0 <= i < |w| ensures NotPunctuation(w[i]) {
      PunctuationRanges(w[i]);
    }
    FilterAll(NotPunctuation, w);
    TokenizeWord(text, a);
  }

  /** Tokenising `x + " " + y` tokenises `x` and `y` separately: the indexed text
      `title + " " + description` has exactly the title's tokens followed by the
      description's. */
  lemma TokenizeConcat(x: string, y: string, a: Analyzer)
    ensures Tokenize(x + " " + y, a) == Tokenize(x, a) + Tokenize(y, a)
  {
    TransformConcat(x + " ", y);
    TransformConcat(x, " ");
    TransformSpace();
    assert TransformText(x + " " + y) == TransformText(x) + [' '] + TransformText(y);
    SplitConcat(TransformText(x), ' ', TransformText(y));
    FilterConcat(w => Keep(a, w), Words(x), Words(y));
    MapConcat(a.stem, ContentWords(x, a), ContentWords(y, a));
  }
}
