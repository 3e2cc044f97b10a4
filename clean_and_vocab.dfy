/**
 * Cleaning of raw Project Gutenberg books and the unified vocabulary built
 * from them: the header and footer are cut at the marker phrases, the text is
 * tokenized, lower-cased, tagged and lemmatized, stopwords are dropped, each
 * book's tokens are written out joined by spaces, and the per-book counters
 * are summed into one global counter whose 100 most common words are ranked.
 *
 * The natural-language toolkit is a parameter (`Nlp`): its tokenizer, tagger,
 * lemmatizer and stopword list are not modelled.
 */
module CleanVocab {
  import opened Seqs
  import opened Results
  import opened PyText
  import opened Counters

  const StartPhrase: string := "start of this project gutenberg ebook"
  const EndPhrase: string := "end of this project gutenberg ebook"

  // ---------------------------------------------------------------------------
  // Header and footer
  // ---------------------------------------------------------------------------

  /**
   * Where the content starts: just past the newline that ends the line of the
   * first start marker, at the marker itself when no newline follows it, and
   * at 0 without a marker. The marker is looked for in the lower-cased text,
   * the newline in the text itself; the two have the same indices.
   */
  function ContentStart(text: string): (start: nat)
    ensures start <= |text|
  {
    var i := Find(Lower(text), StartPhrase, 0);
    if i == -1 then 0
    else
      var j := Find(text, "\n", i);
      if j == -1 then i else j + 1
  }

  lemma ContentStartSpec(text: string)
    ensures NowhereFrom(Lower(text), StartPhrase, 0) ==> ContentStart(text) == 0
    ensures forall i, j | IsFirstAt(Lower(text), StartPhrase, 0, i) && IsFirstAt(text, "\n", i, j) :: ContentStart(text) == j + 1
    ensures forall i | IsFirstAt(Lower(text), StartPhrase, 0, i) && NowhereFrom(text, "\n", i) :: ContentStart(text) == i
  {
    FindIsFirst(Lower(text), StartPhrase, 0);
    var i := Find(Lower(text), StartPhrase, 0);
    if i != -1 {
      FindIsFirst(text, "\n", i);
    }
  }

  /** Where the content ends: at the first end marker, or at the end of the text. */
  function ContentEnd(text: string): (end: nat)
    ensures end <= |text|
  {
    var e := Find(Lower(text), EndPhrase, 0);
    if e == -1 then |text| else e
  }

  lemma ContentEndSpec(text: string)
    ensures NowhereFrom(Lower(text), EndPhrase, 0) ==> ContentEnd(text) == |text|
    ensures forall e | IsFirstAt(Lower(text), EndPhrase, 0, e) :: ContentEnd(text) == e
  {
    FindIsFirst(Lower(text), EndPhrase, 0);
  }

  /** `text[a:b]` for indices within the text: the `b - a` characters from `a` on, none when `b <= a`. */
  function Slice(text: string, a: nat, b: nat): (r: string)
    requires a <= |text| && b <= |text|
    ensures |r| == if a <= b then b - a else 0
    ensures forall i | 0 <= i < |r| :: r[i] == text[a + i]
  {
    if a <= b then text[a..b] else []
  }

  /**
   * `strip_gutenberg_header_footer`: the stripped text between the markers,
   * or the whole text when that is empty. The result is empty only for an empty
   * text, and is either the text or a non-empty stripped substring of it.
   */
  function StripGutenbergHeaderFooter(text: string): (r: string)
    ensures |r| <= |text|
    ensures r == [] <==> text == []
  {
    if Cleaned(text) != [] then Cleaned(text) else text
  }

  /** The stripped text between the computed start and end. */
  function Cleaned(text: string): (r: string)
    ensures |r| <= |text|
  {
    Strip(Slice(text, ContentStart(text), ContentEnd(text)))
  }

  /**
   * The result is empty only for an empty text, and it is the text itself or
   * a non-empty stripped slice of it.
   */
  lemma CleanIsTextOrStrippedSlice(text: string)
    ensures StripGutenbergHeaderFooter(text) == [] <==> text == []
    ensures var r := StripGutenbergHeaderFooter(text);
      r == text || (r != [] && exists a, b | 0 <= a <= b <= |text| :: r == Strip(text[a..b]))
  {
    var start := ContentStart(text);
    var end := ContentEnd(text);
    if Cleaned(text) != [] {
      assert start <= end && StripGutenbergHeaderFooter(text) == Strip(text[start..end]);
    }
  }

  /** Without either marker the result is `text.strip()`, or the text itself when that is empty. */
  lemma CleanWithoutMarkers(text: string)
    requires NowhereFrom(Lower(text), StartPhrase, 0) && NowhereFrom(Lower(text), EndPhrase, 0)
    ensures StripGutenbergHeaderFooter(text) == if Strip(text) != [] then Strip(text) else text
  {
    ContentStartSpec(text);
    ContentEndSpec(text);
    assert text[0..|text|] == text;
  }

  /**
   * With both markers and a newline after the start marker, the result is the
   * stripped text from just past that newline up to the end marker, when that
   * is not empty.
   */
  lemma CleanBetweenMarkers(text: string, i: nat, j: nat, e: nat)
    requires IsFirstAt(Lower(text), StartPhrase, 0, i) && IsFirstAt(text, "\n", i, j)
    requires IsFirstAt(Lower(text), EndPhrase, 0, e) && j + 1 <= e
    requires Strip(text[j + 1..e]) != []
    ensures StripGutenbergHeaderFooter(text) == Strip(text[j + 1..e])
  {
    ContentStartSpec(text);
    ContentEndSpec(text);
  }

  /** An end marker at or before the computed start leaves nothing between: the whole text is returned. */
  lemma CleanEndBeforeStart(text: string, e: nat)
    requires IsFirstAt(Lower(text), EndPhrase, 0, e) && e <= ContentStart(text)
    ensures StripGutenbergHeaderFooter(text) == text
  {
    ContentEndSpec(text);
    var start := ContentStart(text);
    assert Slice(text, start, e) == [];
  }

  /** A marker that occurs nowhere in a text occurs nowhere in a slice of it. */
  lemma NowhereInSlice(text: string, pat: string, a: nat, b: nat)
    requires a <= b <= |text| && NowhereFrom(Lower(text), pat, 0)
    ensures NowhereFrom(Lower(text[a..b]), pat, 0)
  {
    LowerSlice(text, a, b);
    var low := Lower(text);
    forall k | 0 <= k <= b - a && OccursAt(Lower(text[a..b]), pat, k)
      ensures OccursAt(low, pat, a + k)
    {
      assert low[a + k..a + k + |pat|] == low[a..b][k..k + |pat|];
    }
  }

  /** Stripping cannot create a marker. */
  lemma NowhereInStrip(text: string, pat: string)
    requires NowhereFrom(Lower(text), pat, 0)
    ensures NowhereFrom(Lower(Strip(text)), pat, 0)
  {
    var r := Strip(text);
    StripMargins(text);
    var a := LeadingSpaces(text);
    NowhereInSlice(text, pat, a, a + |r|);
  }

  /** Without markers, cleaning twice is cleaning once. */
  lemma CleanIdempotentWithoutMarkers(text: string)
    requires NowhereFrom(Lower(text), StartPhrase, 0) && NowhereFrom(Lower(text), EndPhrase, 0)
    ensures StripGutenbergHeaderFooter(StripGutenbergHeaderFooter(text)) == StripGutenbergHeaderFooter(text)
  {
    CleanWithoutMarkers(text);
    var r := Strip(text);
    if r != [] {
      NowhereInStrip(text, StartPhrase);
      NowhereInStrip(text, EndPhrase);
      CleanWithoutMarkers(r);
      StripIdempotent(text);
    }
  }

  // ---------------------------------------------------------------------------
  // Part-of-speech mapping
  // ---------------------------------------------------------------------------

  /** The WordNet categories `a`, `v`, `n` and `r`. */
  datatype WordNetPos = Adj | Verb | Noun | Adv {
    function Code(): string {
      match this
      case Adj => "a"
      case Verb => "v"
      case Noun => "n"
      case Adv => "r"
    }
  }

  predicate StartsWith(tag: string, c: char) {
    |tag| > 0 && tag[0] == c
  }

  /**
   * `nltk_pos_to_wordnet_pos`: tags starting with J, V, N and R map to
   * adjective, verb, noun and adverb; every other tag, the empty one
   * included, maps to noun.
   */
  function PosOf(tag: string): (p: WordNetPos)
    ensures p == Adj <==> StartsWith(tag, 'J')
    ensures p == Verb <==> StartsWith(tag, 'V')
    ensures p == Adv <==> StartsWith(tag, 'R')
    ensures p == Noun <==> !(StartsWith(tag, 'J') || StartsWith(tag, 'V') || StartsWith(tag, 'R'))
    ensures p.Code() in ["a", "v", "n", "r"]
  {
    if StartsWith(tag, 'J') then Adj
    else if StartsWith(tag, 'V') then Verb
    else if StartsWith(tag, 'N') then Noun
    else if StartsWith(tag, 'R') then Adv
    else Noun
  }

  // ---------------------------------------------------------------------------
  // Tokenizing and lemmatizing
  // ---------------------------------------------------------------------------

  /**
   * The toolkit: `word_tokenize`, the tag `pos_tag` gives to the token at an
   * index of a token list, `WordNetLemmatizer.lemmatize` and the English
   * stopword list.
   */
  datatype Nlp = Nlp(
    wordTokenize: string -> seq<string>,
    tagger: (seq<string>, nat) -> string,
    lemmatize: (string, WordNetPos) -> string,
    stop: set<string>)

  /** `[t.lower() for t in tokens if t.isalpha()]`. */
  function AlphaLower(tokens: seq<string>): (r: seq<string>)
    ensures |r| <= |tokens|
    ensures forall k | 0 <= k < |r| :: IsLowerWord(r[k])
  {
    if tokens == [] then []
    else
      var rest := AlphaLower(tokens[1..]);
      if IsAlpha(tokens[0]) then
        var w := Lower(tokens[0]);
        assert IsLowerWord(w);
        assert forall k | 0 < k < |[w] + rest| :: ([w] + rest)[k] == rest[k - 1];
        [w] + rest
      else rest
  }

  /**
   * The kept tokens are exactly the lower-cased forms of the alphabetic input
   * tokens: each comes from one, and each one's lower-cased form is kept.
   */
  lemma {:induction false} AlphaLowerFrom(tokens: seq<string>)
    ensures forall w | w in AlphaLower(tokens) :: exists t | t in tokens :: IsAlpha(t) && w == Lower(t)
    ensures forall t | t in tokens && IsAlpha(t) :: Lower(t) in AlphaLower(tokens)
  {
    if tokens != [] {
      AlphaLowerFrom(tokens[1..]);
      assert forall t | t in tokens[1..] :: t in tokens;
      assert forall t | t in tokens :: t == tokens[0] || t in tokens[1..];
    }
  }

  /** `pos_tag(tokens)`: each token with its tag. */
  function Tagged(nlp: Nlp, tokens: seq<string>): (r: seq<(string, string)>)
    ensures |r| == |tokens| && forall i | 0 <= i < |r| :: r[i].0 == tokens[i]
  {
    seq(|tokens|, i requires 0 <= i < |tokens| => (tokens[i], nlp.tagger(tokens, i)))
  }

  /** The lemma each tagged token would give. */
  function Candidates(nlp: Nlp, tagged: seq<(string, string)>): (r: seq<string>)
    ensures |r| == |tagged|
  {
    seq(|tagged|, i requires 0 <= i < |tagged| => nlp.lemmatize(tagged[i].0, PosOf(tagged[i].1)))
  }

  /**
   * The lemmas kept from the tagged tokens: a stopword token is skipped, and
   * so is an empty lemma or a lemma that is a stopword.
   */
  function Kept(nlp: Nlp, tagged: seq<(string, string)>): (r: seq<string>)
    ensures |r| <= |tagged|
    ensures forall k | 0 <= k < |r| :: r[k] != [] && r[k] !in nlp.stop
    decreases |tagged|
  {
    if tagged == [] then []
    else
      var prefix := Kept(nlp, tagged[..|tagged| - 1]);
      var (tok, tg) := tagged[|tagged| - 1];
      if tok in nlp.stop then prefix
      else
        var lem := nlp.lemmatize(tok, PosOf(tg));
        if lem != [] && lem !in nlp.stop then prefix + [lem] else prefix
  }

  /** The kept lemmas are in the order of the tokens they come from. */
  lemma {:induction false} KeptInOrder(nlp: Nlp, tagged: seq<(string, string)>)
    ensures IsSubsequence(Kept(nlp, tagged), Candidates(nlp, tagged))
    decreases |tagged|
  {
    if tagged != [] {
      var p := tagged[..|tagged| - 1];
      KeptInOrder(nlp, p);
      var last := Candidates(nlp, tagged)[|tagged| - 1];
      assert Candidates(nlp, tagged) == Candidates(nlp, p) + [last];
      if Kept(nlp, tagged) == Kept(nlp, p) {
        IsSubsequenceSnocRight(Kept(nlp, p), Candidates(nlp, p), last);
      } else {
        IsSubsequenceSnocBoth(Kept(nlp, p), Candidates(nlp, p), last);
      }
    }
  }

  /** A lemma is kept exactly when its token and itself pass the filters. */
  lemma {:induction false} KeptMembers(nlp: Nlp, tagged: seq<(string, string)>)
    ensures forall i | 0 <= i < |tagged| && tagged[i].0 !in nlp.stop && Candidates(nlp, tagged)[i] != [] && Candidates(nlp, tagged)[i] !in nlp.stop ::
      Candidates(nlp, tagged)[i] in Kept(nlp, tagged)
    ensures forall w | w in Kept(nlp, tagged) :: w in Candidates(nlp, tagged)
    decreases |tagged|
  {
    if tagged != [] {
      var p := tagged[..|tagged| - 1];
      KeptMembers(nlp, p);
      assert forall i | 0 <= i < |p| :: Candidates(nlp, tagged)[i] == Candidates(nlp, p)[i];
    }
  }
  /**
   * The tokens the loop keeps: a token that is not a stopword and whose lemma
   * is non-empty and not a stopword.
   */
  function KeepMask(nlp: Nlp, tagged: seq<(string, string)>): (m: seq<bool>)
    ensures |m| == |tagged|
  {
    var cand := Candidates(nlp, tagged);
    seq(|tagged|, i requires 0 <= i < |tagged| => tagged[i].0 !in nlp.stop && cand[i] != [] && cand[i] !in nlp.stop)
  }

  /**
   * The kept lemmas are exactly the lemmas at the positions the loop keeps,
   * in token order and with their multiplicity.
   */
  lemma {:induction false} KeptIsSelect(nlp: Nlp, tagged: seq<(string, string)>)
    ensures Kept(nlp, tagged) == Select(KeepMask(nlp, tagged), Candidates(nlp, tagged))
    decreases |tagged|
  {
    if tagged != [] {
      var p := tagged[..|tagged| - 1];
      KeptIsSelect(nlp, p);
      assert KeepMask(nlp, tagged)[..|tagged| - 1] == KeepMask(nlp, p);
      assert Candidates(nlp, tagged)[..|tagged| - 1] == Candidates(nlp, p);
    }
  }

  /**
   * `[t.lower() for t in tokens if t.isalpha()]` is exactly the lower-cased
   * tokens at the alphabetic positions, in order and with their multiplicity.
   */
  lemma {:induction false} AlphaLowerIsSelect(tokens: seq<string>)
    ensures AlphaLower(tokens) == Select(Map(IsAlpha, tokens), Map(Lower, tokens))
  {
    if tokens != [] {
      var m := Map(IsAlpha, tokens);
      var s := Map(Lower, tokens);
      AlphaLowerIsSelect(tokens[1..]);
      assert m == [m[0]] + Map(IsAlpha, tokens[1..]);
      assert s == [s[0]] + Map(Lower, tokens[1..]);
      SelectConcat([m[0]], [s[0]], Map(IsAlpha, tokens[1..]), Map(Lower, tokens[1..]));
      assert [m[0]][..0] == [];
    }
  }


  function TokensOf(nlp: Nlp, text: string): seq<(string, string)> {
    Tagged(nlp, AlphaLower(nlp.wordTokenize(text)))
  }

  /**
   * `tokenize_and_lemmatize`: the kept lemmas of the tagged alphabetic
   * tokens, each non-empty and not a stopword, no more of them than there are
   * alphabetic tokens.
   */
  method TokenizeAndLemmatize(nlp: Nlp, text: string) returns (lemmas: seq<string>)
    ensures lemmas == Kept(nlp, TokensOf(nlp, text))
    ensures forall k | 0 <= k < |lemmas| :: lemmas[k] != [] && lemmas[k] !in nlp.stop
    ensures |lemmas| <= |AlphaLower(nlp.wordTokenize(text))|
  {
    var tokens := AlphaLower(nlp.wordTokenize(text));
    var tagged := Tagged(nlp, tokens);
    lemmas := [];
    var i := 0;
    while i < |tagged|
      invariant 0 <= i <= |tagged|
      invariant lemmas == Kept(nlp, tagged[..i])
    {
      assert tagged[..i + 1][..i] == tagged[..i];
      var (tok, tg) := tagged[i];
      if tok !in nlp.stop {
        var lem := nlp.lemmatize(tok, PosOf(tg));
        if lem != [] && lem !in nlp.stop {
          lemmas := lemmas + [lem];
        }
      }
      i := i + 1;
    }
    assert tagged[..|tagged|] == tagged;
  }

  /** The tokens of one raw book. */
  function BookTokens(nlp: Nlp, raw: string): (r: seq<string>)
    ensures forall k | 0 <= k < |r| :: r[k] != [] && r[k] !in nlp.stop
  {
    Kept(nlp, TokensOf(nlp, StripGutenbergHeaderFooter(raw)))
  }

  /**
   * `process_file` on the contents of one book: its tokens, and the text of
   * its cleaned file, the tokens joined by single spaces.
   */
  method ProcessFile(nlp: Nlp, raw: string) returns (tokens: seq<string>, written: string)
    ensures tokens == BookTokens(nlp, raw)
    ensures written == Join(tokens)
    ensures forall k | 0 <= k < |tokens| :: tokens[k] != [] && tokens[k] !in nlp.stop
    ensures (forall k | 0 <= k < |tokens| :: AllOf(tokens[k], NonSpace)) ==> Split(written) == tokens
  {
    var core := StripGutenbergHeaderFooter(raw);
    tokens := TokenizeAndLemmatize(nlp, core);
    written := Join(tokens);
    if forall k | 0 <= k < |tokens| :: AllOf(tokens[k], NonSpace) {
      SplitJoin(tokens);
    }
  }

  /**
   * The lemmatizer, given a token the pipeline can pass it (a non-empty
   * lower-case word), gives a lemma made of `p`-characters.
   */
  ghost predicate LemmasAllOf(nlp: Nlp, p: char -> bool) {
    forall w, pos | IsLowerWord(w) :: AllOf(nlp.lemmatize(w, pos), p)
  }

  /**
   * A lemmatizer that returns every word unchanged, as WordNet's does for a
   * word it does not know, meets both character properties the round trips use.
   */
  lemma UnchangedLemmasAllOf(nlp: Nlp)
    requires forall w, pos :: nlp.lemmatize(w, pos) == w
    ensures LemmasAllOf(nlp, IsAsciiLower) && LemmasAllOf(nlp, NonSpace)
  {
    forall w, pos | IsLowerWord(w)
      ensures AllOf(nlp.lemmatize(w, pos), NonSpace)
    {
      forall i | 0 <= i < |w|
        ensures NonSpace(w[i])
      {
        assert IsAsciiLower(w[i]);
      }
    }
  }

  lemma KeptAllOf(nlp: Nlp, tagged: seq<(string, string)>, p: char -> bool)
    requires LemmasAllOf(nlp, p)
    requires forall i | 0 <= i < |tagged| :: IsLowerWord(tagged[i].0)
    ensures forall k | 0 <= k < |Kept(nlp, tagged)| :: AllOf(Kept(nlp, tagged)[k], p)
  {
    var kept := Kept(nlp, tagged);
    var cands := Candidates(nlp, tagged);
    KeptMembers(nlp, tagged);
    forall k | 0 <= k < |kept|
      ensures AllOf(kept[k], p)
    {
      assert kept[k] in kept;
      var i :| 0 <= i < |cands| && cands[i] == kept[k];
      assert cands[i] == nlp.lemmatize(tagged[i].0, PosOf(tagged[i].1));
    }
  }

  /** The tokens of a book are non-empty runs of `p`-characters when every lemma is. */
  lemma BookTokensAllOf(nlp: Nlp, raw: string, p: char -> bool)
    requires LemmasAllOf(nlp, p)
    ensures forall k | 0 <= k < |BookTokens(nlp, raw)| :: BookTokens(nlp, raw)[k] != [] && AllOf(BookTokens(nlp, raw)[k], p)
  {
    var tagged := TokensOf(nlp, StripGutenbergHeaderFooter(raw));
    assert forall i | 0 <= i < |tagged| :: IsLowerWord(tagged[i].0);
    KeptAllOf(nlp, tagged, p);
  }

  // ---------------------------------------------------------------------------
  // The unified vocabulary
  // ---------------------------------------------------------------------------

  /** One row of the per-book statistics. */
  datatype BookStats = BookStats(book: string, uniqueTokens: nat, totalTokens: nat)

  datatype Summary = Summary(perBook: seq<BookStats>, global: Vocab, top100: seq<(nat, string, nat)>)

  datatype CleanError = NoRawFiles

  /** The token lists of the books, in order. */
  function AllTokens(nlp: Nlp, books: seq<(string, string)>): (ts: seq<seq<string>>)
    ensures |ts| == |books|
  {
    Map((book: (string, string)) => BookTokens(nlp, book.1), books)
  }

  /** The texts of the cleaned files written for `books`, in order. */
  function Written(nlp: Nlp, books: seq<(string, string)>): (files: seq<string>)
    ensures |files| == |books|
  {
    Map((book: (string, string)) => Join(BookTokens(nlp, book.1)), books)
  }

  /** The statistics of one token list: distinct tokens and tokens. */
  function StatsOf(name: string, tokens: seq<string>): (r: BookStats)
    ensures r.book == name && r.totalTokens == |tokens|
    ensures r.uniqueTokens == 0 <==> tokens == []
  {
    assert tokens != [] ==> tokens[0] in Elems(tokens);
    BookStats(name, |Elems(tokens)|, |tokens|)
  }

  /** The statistics rows of the books, in order. */
  function PerBookStats(nlp: Nlp, books: seq<(string, string)>): (rows: seq<BookStats>)
    ensures |rows| == |books|
  {
    Map((book: (string, string)) => StatsOf(book.0, BookTokens(nlp, book.1)), books)
  }

  /** The sum over the books of the count of `w` in each. */
  function BookSum(ts: seq<seq<string>>, w: string): nat
    decreases |ts|
  {
    if ts == [] then 0 else BookSum(ts[..|ts| - 1], w) + Get(Tally(ts[|ts| - 1]).counts, w)
  }

  /** The global count of a word is the sum of its per-book counts. */
  lemma {:induction false} GlobalIsSumOfBooks(ts: seq<seq<string>>, w: string)
    ensures Get(Tally(Flatten(ts)).counts, w) == BookSum(ts, w)
    decreases |ts|
  {
    TallySpec(Flatten(ts));
    if ts != [] {
      var p := ts[..|ts| - 1];
      GlobalIsSumOfBooks(p, w);
      TallySpec(Flatten(p));
      TallySpec(ts[|ts| - 1]);
      assert multiset(Flatten(ts)) == multiset(Flatten(p)) + multiset(ts[|ts| - 1]);
    }
  }

  /** Merging the counter of one more book into the global counter. */
  lemma MergeStep(prev: seq<seq<string>>, tokens: seq<string>)
    ensures AddItems(Tally(Flatten(prev)), ItemsOf(Tally(tokens))) == Tally(Flatten(prev + [tokens]))
  {
    TallySpec(Flatten(prev));
    MergeTally(Tally(Flatten(prev)), tokens);
    AddAllConcat(Empty, Flatten(prev), tokens);
    assert (prev + [tokens])[..|prev|] == prev;
  }

  /** Every book has at most as many distinct tokens as tokens. */
  lemma UniqueAtMostTotal(name: string, tokens: seq<string>)
    ensures StatsOf(name, tokens).uniqueTokens <= StatsOf(name, tokens).totalTokens
  {
    TallySpec(tokens);
  }

  /**
   * One iteration of the loop of `main`: process the book, count its tokens,
   * merge the book's counter into the global one, and give its statistics.
   */
  method BookStep(nlp: Nlp, name: string, raw: string, global: Counter) returns (tokens: seq<string>, stats: BookStats)
    requires global.Valid()
    modifies global
    ensures tokens == BookTokens(nlp, raw)
    ensures stats == StatsOf(name, tokens)
    ensures global.Valid() && global.Value() == AddItems(old(global.Value()), ItemsOf(Tally(tokens)))
  {
    var written;
    tokens, written := ProcessFile(nlp, raw);
    var cnt := new Counter();
    cnt.Update(tokens);
    assert cnt.Value() == Tally(tokens);
    TallySpec(tokens);
    global.UpdateFrom(cnt);
    stats := BookStats(name, cnt.Len(), SumCounts(cnt.Value()));
  }

  /**
   * `main` on the raw books given as `(name, contents)` in sorted order: fails
   * without books; otherwise the per-book statistics, the global counter as
   * the count of all tokens of all books, and its 100 most common words with
   * ranks.
   */
  method BuildVocabulary(nlp: Nlp, books: seq<(string, string)>) returns (r: Result<Summary, CleanError>)
    ensures r.Failure? <==> books == []
    ensures r.Success? ==> r.value.perBook == PerBookStats(nlp, books)
    ensures r.Success? ==> r.value.global == Tally(Flatten(AllTokens(nlp, books)))
    ensures r.Success? ==> r.value.top100 == RankedTop(ItemsOf(r.value.global), 100)
  {
    if |books| == 0 {
      return Failure(NoRawFiles);
    }
    var global := new Counter();
    var perBook: seq<BookStats> := [];
    ghost var done: seq<seq<string>> := [];
    var i := 0;
    while i < |books|
      invariant 0 <= i <= |books| && |perBook| == i
      invariant done == AllTokens(nlp, books[..i])
      invariant perBook == PerBookStats(nlp, books[..i])
      invariant global.Valid() && global.Value() == Tally(Flatten(done))
    {
      var tokens, stats := BookStep(nlp, books[i].0, books[i].1, global);
      MergeStep(done, tokens);
      MapSnoc((book: (string, string)) => BookTokens(nlp, book.1), books, i);
      MapSnoc((book: (string, string)) => StatsOf(book.0, BookTokens(nlp, book.1)), books, i);
      perBook := perBook + [stats];
      done := done + [tokens];
      i := i + 1;
    }
    assert books[..|books|] == books;
    var top := RankedTop(global.Items(), 100);
    return Success(Summary(perBook, global.Value(), top));
  }

  /**
   * What the summary promises: each book's distinct count is at most its
   * total, the global count of every word is the sum of its per-book counts,
   * and the top list has at most 100 entries ranked 1, 2, ... with counts that
   * never increase, each the global count of its word; its words are distinct
   * and no word left out is counted more often than a word listed.
   */
  lemma SummaryProperties(nlp: Nlp, books: seq<(string, string)>, s: Summary)
    requires s.perBook == PerBookStats(nlp, books)
    requires s.global == Tally(Flatten(AllTokens(nlp, books)))
    requires s.top100 == RankedTop(ItemsOf(s.global), 100)
    ensures forall b | 0 <= b < |books| :: s.perBook[b].uniqueTokens <= s.perBook[b].totalTokens
    ensures forall w :: Get(s.global.counts, w) == BookSum(AllTokens(nlp, books), w)
    ensures |s.top100| <= 100
    ensures forall i | 0 <= i < |s.top100| :: s.top100[i].0 == i + 1
    ensures forall i, j | 0 <= i < j < |s.top100| :: s.top100[i].2 >= s.top100[j].2
    ensures forall i | 0 <= i < |s.top100| :: Get(s.global.counts, s.top100[i].1) == s.top100[i].2
    ensures Distinct(RowWords(s.top100))
    ensures forall i, y | 0 <= i < |s.top100| && y in s.global.counts && y !in RowWords(s.top100) ::
      s.top100[i].2 >= s.global.counts[y]
  {
    forall b | 0 <= b < |books|
      ensures s.perBook[b].uniqueTokens <= s.perBook[b].totalTokens
    {
      UniqueAtMostTotal(books[b].0, BookTokens(nlp, books[b].1));
    }
    forall w
      ensures Get(s.global.counts, w) == BookSum(AllTokens(nlp, books), w)
    {
      GlobalIsSumOfBooks(AllTokens(nlp, books), w);
    }
    TallySpec(Flatten(AllTokens(nlp, books)));
    ItemsOfSpec(s.global);
    RankedTopSpec(ItemsOf(s.global), 100);
    RankedTopOfCounter(s.global, 100);
  }
}
