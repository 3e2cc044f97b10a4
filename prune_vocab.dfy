/**
 * Pruning of the vocabulary read back from the cleaned books: tokens are the
 * matches of `[a-z]+` in the lower-cased files, and the counter is pruned in
 * place in four stages — stopwords, words outside a length window, the most
 * frequent head of the vocabulary, and rare words — before being exported
 * in `most_common` order.
 */
module PruneVocab {
  import opened Seqs
  import opened Results
  import opened PyText
  import opened Counters
  import CleanVocab

  datatype ReadError = NoCleanedFiles

  /** The thresholds of the four stages. */
  datatype PruneConfig = PruneConfig(stop: set<string>, minLen: int, maxLen: int, minCount: int, topPctDrop: real)

  /** The default thresholds: a length window of 3 to 20 letters, at least 4 occurrences, and the top 1% dropped. */
  function DefaultConfig(stop: set<string>): (cfg: PruneConfig)
    ensures cfg.stop == stop && 0 < cfg.minLen <= cfg.maxLen && cfg.minCount > 0
    ensures 0.0 < cfg.topPctDrop < 1.0
  {
    PruneConfig(stop, 3, 20, 4, 0.01)
  }

  // ---------------------------------------------------------------------------
  // Reading the cleaned files
  // ---------------------------------------------------------------------------

  /** The tokens of each cleaned file: the matches of `[a-z]+` in its lower-cased text. */
  function Matches(files: seq<string>): (ts: seq<seq<string>>)
    ensures |ts| == |files|
  {
    Map((text: string) => FindAllLower(Lower(text)), files)
  }

  /**
   * `read_clean_tokens` on the contents of the cleaned files in sorted order:
   * fails without files, and otherwise counts the regular-expression matches
   * of all files.
   */
  method ReadCleanTokens(files: seq<string>) returns (r: Result<Counter, ReadError>)
    ensures r.Failure? <==> files == []
    ensures r.Success? ==> r.value.Valid() && r.value.Value() == Tally(Flatten(Matches(files)))
  {
    if |files| == 0 {
      return Failure(NoCleanedFiles);
    }
    var counter := new Counter();
    var i := 0;
    while i < |files|
      invariant 0 <= i <= |files|
      invariant counter.Valid() && counter.Value() == Tally(Flatten(Matches(files[..i])))
    {
      var toks := FindAllLower(Lower(files[i]));
      MapSnoc((text: string) => FindAllLower(Lower(text)), files, i);
      assert Flatten(Matches(files[..i + 1])) == Flatten(Matches(files[..i])) + toks;
      AddAllConcat(Empty, Flatten(Matches(files[..i])), toks);
      counter.Update(toks);
      i := i + 1;
    }
    assert files[..|files|] == files;
    return Success(counter);
  }

  /**
   * Every counted key is a match of `[a-z]+`, every count is positive, and the
   * counts add up to the number of matches in all files.
   */
  lemma ReadCleanTokensSpec(files: seq<string>)
    ensures forall w | w in Tally(Flatten(Matches(files))).counts :: IsLowerWord(w)
    ensures forall w | w in Tally(Flatten(Matches(files))).counts :: Tally(Flatten(Matches(files))).counts[w] > 0
    ensures SumCounts(Tally(Flatten(Matches(files)))) == |Flatten(Matches(files))|
  {
    var ts := Matches(files);
    FlattenAll(ts, IsLowerWord);
    TallySpec(Flatten(ts));
  }

  /**
   * The round trip between the two steps: when every lemma is a lower-case
   * ASCII word, the matches of `[a-z]+` in the lower-cased cleaned files are
   * the token lists of the books, so pruning starts from the unified
   * vocabulary of the cleaning step.
   */
  lemma ReadBackWritten(nlp: CleanVocab.Nlp, books: seq<(string, string)>)
    requires CleanVocab.LemmasAllOf(nlp, IsAsciiLower)
    ensures Matches(CleanVocab.Written(nlp, books)) == CleanVocab.AllTokens(nlp, books)
    ensures Tally(Flatten(Matches(CleanVocab.Written(nlp, books)))) == Tally(Flatten(CleanVocab.AllTokens(nlp, books)))
  {
    var ts := Matches(CleanVocab.Written(nlp, books));
    forall k | 0 <= k < |books|
      ensures ts[k] == CleanVocab.AllTokens(nlp, books)[k]
    {
      ReadBackBook(nlp, books[k].1);
    }
  }

  /** One book's written file yields its token list back. */
  lemma ReadBackBook(nlp: CleanVocab.Nlp, raw: string)
    requires CleanVocab.LemmasAllOf(nlp, IsAsciiLower)
    ensures FindAllLower(Lower(Join(CleanVocab.BookTokens(nlp, raw)))) == CleanVocab.BookTokens(nlp, raw)
  {
    var tokens := CleanVocab.BookTokens(nlp, raw);
    CleanVocab.BookTokensAllOf(nlp, raw, IsAsciiLower);
    assert forall j | 0 <= j < |tokens| :: IsLowerWord(tokens[j]);
    FindAllOfJoin(tokens);
  }

  // ---------------------------------------------------------------------------
  // Deleting in place
  // ---------------------------------------------------------------------------

  /** The keys of the items that `drop` selects. */
  function DropSet(items: seq<(string, nat)>, drop: (string, nat) -> bool): set<string> {
    set y | y in items && drop(y.0, y.1) :: y.0
  }

  /** The counter without the entries that `drop` selects. */
  function DropWhere(v: Vocab, drop: (string, nat) -> bool): (r: Vocab)
    ensures forall w | w in r.counts :: w in v.counts && r.counts[w] == v.counts[w]
    ensures |r.keys| <= |v.keys|
  {
    Without(v, DropSet(ItemsOf(v), drop))
  }

  /**
   * Deletion by a predicate keeps exactly the entries it does not select,
   * with their counts, in their order.
   */
  lemma DropWhereSpec(v: Vocab, drop: (string, nat) -> bool)
    requires v.Valid()
    ensures DropWhere(v, drop).Valid()
    ensures forall w | w in DropWhere(v, drop).counts ::
      w in v.counts && DropWhere(v, drop).counts[w] == v.counts[w] && !drop(w, v.counts[w])
    ensures forall w | w in v.counts && !drop(w, v.counts[w]) :: w in DropWhere(v, drop).counts
    ensures IsSubsequence(DropWhere(v, drop).keys, v.keys)
  {
    var d := DropSet(ItemsOf(v), drop);
    ItemsOfSpec(v);
    WithoutSpec(v, d);
    assert forall w | w in v.counts :: (w in d <==> drop(w, v.counts[w])) by {
      forall w | w in v.counts
        ensures w in d <==> drop(w, v.counts[w])
      {
        assert (w, v.counts[w]) in ItemsOf(v);
      }
    }
  }

  lemma DropSetStep(items: seq<(string, nat)>, i: nat, drop: (string, nat) -> bool)
    requires i < |items|
    ensures DropSet(items[..i + 1], drop) == DropSet(items[..i], drop) + (if drop(items[i].0, items[i].1) then {items[i].0} else {})
  {
    assert items[..i + 1] == items[..i] + [items[i]];
  }

  /**
   * `for w, c in list(counter.items()): if drop(w, c): del counter[w]`: the
   * loop of stage 4 over a snapshot of the entries. Stages 1 and 2 loop over
   * the snapshot `list(counter.keys())` and test only the word, which visits
   * the same words in the same order, so they are this loop with a `drop`
   * that ignores the count.
   */
  method DeleteWhere(counter: Counter, drop: (string, nat) -> bool)
    requires counter.Valid()
    modifies counter
    ensures counter.Valid() && counter.Value() == DropWhere(old(counter.Value()), drop)
  {
    ghost var v0 := counter.Value();
    var snapshot := ItemsOf(counter.Value());
    ghost var gone: set<string> := {};
    WithoutNothing(v0);
    var i := 0;
    while i < |snapshot|
      invariant 0 <= i <= |snapshot|
      invariant counter.Valid() && counter.Value() == Without(v0, gone)
      invariant gone == DropSet(snapshot[..i], drop)
    {
      var (w, c) := snapshot[i];
      DropSetStep(snapshot, i, drop);
      if drop(w, c) {
        counter.Delete(w);
        WithoutTwice(v0, gone, {w});
        gone := gone + {w};
      }
      i := i + 1;
    }
    assert snapshot[..|snapshot|] == snapshot;
  }

  /** `for w in words: del counter[w]`. */
  method DeleteAll(counter: Counter, words: seq<string>)
    requires counter.Valid()
    modifies counter
    ensures counter.Valid() && counter.Value() == Without(old(counter.Value()), Elems(words))
  {
    ghost var v0 := counter.Value();
    WithoutNothing(v0);
    assert Elems(words[..0]) == {};
    var i := 0;
    while i < |words|
      invariant 0 <= i <= |words|
      invariant counter.Valid() && counter.Value() == Without(v0, Elems(words[..i]))
    {
      assert Elems(words[..i + 1]) == Elems(words[..i]) + {words[i]} by {
        assert words[..i + 1] == words[..i] + [words[i]];
      }
      counter.Delete(words[i]);
      WithoutTwice(v0, Elems(words[..i]), {words[i]});
      i := i + 1;
    }
    assert words[..|words|] == words;
  }

  // ---------------------------------------------------------------------------
  // The four stages
  // ---------------------------------------------------------------------------

  /** Stage 1 selects stopwords. */
  function StopDrop(cfg: PruneConfig): (drop: (string, nat) -> bool)
    ensures forall w, c: nat :: drop(w, c) <==> w in cfg.stop
    ensures forall w, c: nat, c': nat :: drop(w, c) == drop(w, c')
  {
    (w: string, c: nat) => w in cfg.stop
  }

  /** Stage 2 selects words shorter than `minLen` or longer than `maxLen`. */
  function LengthDrop(cfg: PruneConfig): (drop: (string, nat) -> bool)
    ensures forall w, c: nat :: !drop(w, c) <==> cfg.minLen <= |w| <= cfg.maxLen
    ensures forall w, c: nat, c': nat :: drop(w, c) == drop(w, c')
  {
    (w: string, c: nat) => |w| < cfg.minLen || |w| > cfg.maxLen
  }

  /** Stage 4 selects words counted fewer than `minCount` times. */
  function RareDrop(cfg: PruneConfig): (drop: (string, nat) -> bool)
    ensures forall w, c: nat :: !drop(w, c) <==> c >= cfg.minCount
    ensures forall w, w', c: nat :: drop(w, c) == drop(w', c)
    ensures forall w, c: nat, c': nat | c <= c' :: drop(w, c') ==> drop(w, c)
  {
    (w: string, c: nat) => c < cfg.minCount
  }

  /** `math.ceil`. */
  function Ceil(x: real): (n: int)
    ensures x <= n as real < x + 1.0
  {
    if x == x.Floor as real then x.Floor else x.Floor + 1
  }

  /** `max(1, math.ceil(pct * V))`: the number of head entries stage 3 asks for. */
  function HeadCount(size: nat, pct: real): (k: nat)
    ensures k >= 1 && (k as real) >= pct * (size as real)
    ensures k > 1 ==> (k as real) < pct * (size as real) + 1.0
  {
    var c := Ceil(pct * (size as real));
    if c < 1 then 1 else c
  }

  /** Under the default 1%, stage 3 asks for `k = 1` head word whenever the vocabulary has at most 100 words. */
  lemma DefaultHeadCount(stop: set<string>, size: nat)
    requires size <= 100
    ensures HeadCount(size, DefaultConfig(stop).topPctDrop) == 1
  {
  }

  /**
   * Under the default 1%, a non-empty vocabulary of at most 100 words loses
   * exactly one word at stage 3, one counted at least as often as any other.
   */
  lemma DefaultHeadStage(stop: set<string>, v: Vocab)
    requires v.Valid() && 1 <= |v.keys| <= 100
    ensures |HeadStage(v, DefaultConfig(stop).topPctDrop).keys| == |v.keys| - 1
    ensures forall x, y | x in v.counts && x !in HeadStage(v, DefaultConfig(stop).topPctDrop).counts &&
      y in HeadStage(v, DefaultConfig(stop).topPctDrop).counts :: v.counts[x] >= v.counts[y]
  {
    DefaultHeadCount(stop, |v.keys|);
    HeadStageSpec(v, DefaultConfig(stop).topPctDrop);
  }

  /** `[w for w, c in counter.most_common(k)]`. */
  function TopWords(v: Vocab, k: nat): (r: seq<string>)
    ensures |r| == if k < |v.keys| then k else |v.keys|
  {
    KeysOf(MostCommon(ItemsOf(v), k))
  }

  /** Stage 3: the counter without its `HeadCount` most common words. */
  function HeadStage(v: Vocab, pct: real): (r: Vocab)
    ensures forall w | w in r.counts :: w in v.counts && r.counts[w] == v.counts[w]
    ensures |r.keys| <= |v.keys|
  {
    Without(v, Elems(TopWords(v, HeadCount(|v.keys|, pct))))
  }

  /** The four stages in order. */
  function PruneSpec(v: Vocab, cfg: PruneConfig): (r: Vocab)
    ensures forall w | w in r.counts :: w in v.counts && r.counts[w] == v.counts[w]
    ensures |r.keys| <= |v.keys|
  {
    DropWhere(HeadStage(DropWhere(DropWhere(v, StopDrop(cfg)), LengthDrop(cfg)), cfg.topPctDrop), RareDrop(cfg))
  }

  /**
   * `prune`: runs the four stages on the counter in place and returns the same
   * counter, together with the number of entries removed.
   */
  method Prune(counter: Counter, cfg: PruneConfig) returns (result: Counter, removed: int)
    requires counter.Valid()
    modifies counter
    ensures result == counter && counter.Valid()
    ensures counter.Value() == PruneSpec(old(counter.Value()), cfg)
    ensures removed == |old(counter.Value()).keys| - |counter.Value().keys| && removed >= 0
  {
    PruneSpecProperties(counter.Value(), cfg);
    var before := counter.Len();
    DeleteWhere(counter, StopDrop(cfg));
    DeleteWhere(counter, LengthDrop(cfg));
    var v := counter.Len();
    var k := HeadCount(v, cfg.topPctDrop);
    var top := KeysOf(MostCommon(counter.Items(), k));
    DeleteAll(counter, top);
    DeleteWhere(counter, RareDrop(cfg));
    var after := counter.Len();
    removed := before - after;
    result := counter;
  }

  /** After stage 1 no key is a stopword. */
  lemma StopStageSpec(v: Vocab, cfg: PruneConfig)
    requires v.Valid()
    ensures forall w | w in DropWhere(v, StopDrop(cfg)).counts :: w !in cfg.stop
    ensures forall w | w in v.counts && w !in cfg.stop :: w in DropWhere(v, StopDrop(cfg)).counts
  {
    DropWhereSpec(v, StopDrop(cfg));
  }

  /** After stage 2 every key has a length in the window. */
  lemma LengthStageSpec(v: Vocab, cfg: PruneConfig)
    requires v.Valid()
    ensures forall w | w in DropWhere(v, LengthDrop(cfg)).counts :: cfg.minLen <= |w| <= cfg.maxLen
    ensures forall w | w in v.counts && cfg.minLen <= |w| <= cfg.maxLen :: w in DropWhere(v, LengthDrop(cfg)).counts
  {
    DropWhereSpec(v, LengthDrop(cfg));
  }

  /** After stage 4 every count is at least `minCount`. */
  lemma RareStageSpec(v: Vocab, cfg: PruneConfig)
    requires v.Valid()
    ensures forall w | w in DropWhere(v, RareDrop(cfg)).counts :: DropWhere(v, RareDrop(cfg)).counts[w] >= cfg.minCount
    ensures forall w | w in v.counts && v.counts[w] >= cfg.minCount :: w in DropWhere(v, RareDrop(cfg)).counts
  {
    DropWhereSpec(v, RareDrop(cfg));
  }

  /** The head words are distinct keys of the counter, `min(k, V)` of them. */
  lemma TopWordsSpec(v: Vocab, k: nat)
    requires v.Valid()
    ensures Distinct(TopWords(v, k))
    ensures |TopWords(v, k)| == if k < |v.keys| then k else |v.keys|
    ensures forall x | x in TopWords(v, k) :: x in v.counts
  {
    var sorted := SortByCount(ItemsOf(v));
    var m := if k < |v.keys| then k else |v.keys|;
    var top := sorted[..m];
    SortedItemsKeys(v);
    assert forall i | 0 <= i < m :: top[i] == sorted[i];
    assert DistinctKeys(top);
    KeysOfDistinct(top);
    forall x | x in TopWords(v, k)
      ensures x in v.counts
    {
      var i :| 0 <= i < m && TopWords(v, k)[i] == x;
      assert sorted[i] in sorted;
    }
  }

  /**
   * An unfolding step for the position lemmas below: the head words are the
   * keys of the first `min(k, V)` entries of `most_common()`.
   */
  lemma TopWordsIndex(v: Vocab, k: nat)
    requires v.Valid()
    ensures |TopWords(v, k)| == if k < |v.keys| then k else |v.keys|
    ensures forall j | 0 <= j < |TopWords(v, k)| :: TopWords(v, k)[j] == SortByCount(ItemsOf(v))[j].0
  {
    assert |ItemsOf(v)| == |v.keys|;
  }

  /** A head word sits in the sorted items before position `|TopWords(v, k)|`. */
  lemma HeadPosition(v: Vocab, k: nat, x: string) returns (i: nat)
    requires v.Valid()
    requires x in v.counts && x in TopWords(v, k)
    ensures i < |TopWords(v, k)| <= |SortByCount(ItemsOf(v))|
    ensures SortByCount(ItemsOf(v))[i] == (x, v.counts[x])
  {
    var sorted := SortByCount(ItemsOf(v));
    var top := TopWords(v, k);
    TopWordsIndex(v, k);
    SortedItemsKeys(v);
    i :| 0 <= i < |top| && top[i] == x;
    assert sorted[i] in sorted;
  }

  /** A word outside the head sits in the sorted items at or after position `|TopWords(v, k)|`. */
  lemma TailPosition(v: Vocab, k: nat, y: string) returns (j: nat)
    requires v.Valid()
    requires y in v.counts && y !in TopWords(v, k)
    ensures |TopWords(v, k)| <= j < |SortByCount(ItemsOf(v))|
    ensures SortByCount(ItemsOf(v))[j] == (y, v.counts[y])
  {
    var sorted := SortByCount(ItemsOf(v));
    var top := TopWords(v, k);
    TopWordsIndex(v, k);
    SortedItemsKeys(v);
    assert (y, v.counts[y]) in sorted;
    j :| 0 <= j < |sorted| && sorted[j] == (y, v.counts[y]);
    assert forall m | 0 <= m < |top| :: top[m] in top && sorted[m].0 != y;
  }

  /** One head word against one word outside the head. */
  lemma HeadPair(v: Vocab, k: nat, x: string, y: string)
    requires v.Valid()
    requires x in v.counts && x in TopWords(v, k) && y in v.counts && y !in TopWords(v, k)
    ensures v.counts[x] >= v.counts[y]
  {
    var i := HeadPosition(v, k, x);
    var j := TailPosition(v, k, y);
    SortByCountSpec(ItemsOf(v));
    assert SortByCount(ItemsOf(v))[i].1 >= SortByCount(ItemsOf(v))[j].1;
  }

  /** Every head word is counted at least as often as every word outside the head. */
  lemma TopWordsDominate(v: Vocab, k: nat)
    requires v.Valid()
    ensures forall x, y | x in v.counts && x in TopWords(v, k) && y in v.counts && y !in TopWords(v, k) ::
      v.counts[x] >= v.counts[y]
  {
    forall x, y | x in v.counts && x in TopWords(v, k) && y in v.counts && y !in TopWords(v, k)
      ensures v.counts[x] >= v.counts[y]
    {
      HeadPair(v, k, x, y);
    }
  }

  /**
   * Stage 3 removes exactly `min(k, V)` entries, every removed count is at
   * least every surviving count, and an empty counter is left alone.
   */
  lemma HeadStageSpec(v: Vocab, pct: real)
    requires v.Valid()
    ensures HeadStage(v, pct).Valid()
    ensures var k := HeadCount(|v.keys|, pct);
      |HeadStage(v, pct).keys| == |v.keys| - (if k < |v.keys| then k else |v.keys|)
    ensures forall x, y | x in v.counts && x !in HeadStage(v, pct).counts && y in HeadStage(v, pct).counts ::
      v.counts[x] >= v.counts[y]
    ensures forall y | y in HeadStage(v, pct).counts :: y in v.counts && HeadStage(v, pct).counts[y] == v.counts[y]
    ensures |v.keys| == 0 ==> HeadStage(v, pct) == v
  {
    var k := HeadCount(|v.keys|, pct);
    var top := TopWords(v, k);
    TopWordsSpec(v, k);
    TopWordsDominate(v, k);
    DistinctCard(top);
    assert Elems(v.keys) * Elems(top) == Elems(top);
    WithoutSpec(v, Elems(top));
    if |v.keys| == 0 {
      assert v.counts == map[];
      assert top == [];
      WithoutNothing(v);
    }
  }

  /**
   * What pruning promises as a whole: the result is a sub-map of the input
   * with the surviving counts unchanged and the keys in their order; no key is
   * a stopword, every key has a length in the window and every count is at
   * least `minCount`.
   */
  lemma PruneSpecProperties(v: Vocab, cfg: PruneConfig)
    requires v.Valid()
    ensures PruneSpec(v, cfg).Valid()
    ensures forall w | w in PruneSpec(v, cfg).counts :: w in v.counts && PruneSpec(v, cfg).counts[w] == v.counts[w]
    ensures IsSubsequence(PruneSpec(v, cfg).keys, v.keys)
    ensures |PruneSpec(v, cfg).keys| <= |v.keys|
    ensures forall w | w in PruneSpec(v, cfg).counts ::
      w !in cfg.stop && cfg.minLen <= |w| <= cfg.maxLen && PruneSpec(v, cfg).counts[w] >= cfg.minCount
  {
    var s1 := DropWhere(v, StopDrop(cfg));
    DropWhereSpec(v, StopDrop(cfg));
    var s2 := DropWhere(s1, LengthDrop(cfg));
    DropWhereSpec(s1, LengthDrop(cfg));
    var s3 := HeadStage(s2, cfg.topPctDrop);
    HeadStageSpec(s2, cfg.topPctDrop);
    WithoutSpec(s2, Elems(TopWords(s2, HeadCount(|s2.keys|, cfg.topPctDrop))));
    var s4 := DropWhere(s3, RareDrop(cfg));
    DropWhereSpec(s3, RareDrop(cfg));
    IsSubsequenceTrans(s2.keys, s1.keys, v.keys);
    IsSubsequenceTrans(s3.keys, s2.keys, v.keys);
    IsSubsequenceTrans(s4.keys, s3.keys, v.keys);
    DistinctCard(v.keys);
    DistinctCard(s4.keys);
    assert Elems(s4.keys) <= Elems(v.keys);
    assert |Elems(s4.keys)| <= |Elems(v.keys)| by {
      SubsetCard(Elems(s4.keys), Elems(v.keys));
    }
  }

  lemma SubsetCard(a: set<string>, b: set<string>)
    requires a <= b
    ensures |a| <= |b|
  {
    assert b == a + (b - a);
  }

  const ExampleConfig: PruneConfig := PruneConfig({"the"}, 3, 20, 10, 0.5)

  lemma ExampleStopStage()
    ensures DropWhere(Vocab(["whale", "ship", "sea", "the"], map["whale" := 100, "ship" := 50, "sea" := 50, "the" := 999]),
      StopDrop(ExampleConfig)) == Vocab(["whale", "ship", "sea"], map["whale" := 100, "ship" := 50, "sea" := 50])
  {
    var v := Vocab(["whale", "ship", "sea", "the"], map["whale" := 100, "ship" := 50, "sea" := 50, "the" := 999]);
    ExampleStopSet();
    ExampleStopKeys();
    assert v.counts - {"the"} == map["whale" := 100, "ship" := 50, "sea" := 50];
  }

  lemma ExampleStopKeys()
    ensures FilterOut(["whale", "ship", "sea", "the"], {"the"}) == ["whale", "ship", "sea"]
  {
    assert FilterOut(["the"], {"the"}) == [];
    assert FilterOut(["sea", "the"], {"the"}) == ["sea"];
    assert FilterOut(["ship", "sea", "the"], {"the"}) == ["ship", "sea"];
  }

  lemma ExampleStopSet()
    ensures DropSet(ItemsOf(Vocab(["whale", "ship", "sea", "the"], map["whale" := 100, "ship" := 50, "sea" := 50, "the" := 999])),
      StopDrop(ExampleConfig)) == {"the"}
  {
    var items := ItemsOf(Vocab(["whale", "ship", "sea", "the"], map["whale" := 100, "ship" := 50, "sea" := 50, "the" := 999]));
    assert items == [("whale", 100), ("ship", 50), ("sea", 50), ("the", 999)];
  }

  lemma ExampleLengthStage()
    ensures DropWhere(Vocab(["whale", "ship", "sea"], map["whale" := 100, "ship" := 50, "sea" := 50]),
      LengthDrop(ExampleConfig)) == Vocab(["whale", "ship", "sea"], map["whale" := 100, "ship" := 50, "sea" := 50])
  {
    var v := Vocab(["whale", "ship", "sea"], map["whale" := 100, "ship" := 50, "sea" := 50]);
    var items := ItemsOf(v);
    assert items == [("whale", 100), ("ship", 50), ("sea", 50)];
    assert DropSet(items, LengthDrop(ExampleConfig)) == {};
    WithoutNothing(v);
  }

  /** `most_common` keeps `ship` before `sea`: equal counts stay in insertion order. */
  lemma ExampleSorted()
    ensures SortByCount(ItemsOf(Vocab(["whale", "ship", "sea"], map["whale" := 100, "ship" := 50, "sea" := 50])))
      == [("whale", 100), ("ship", 50), ("sea", 50)]
  {
    var items := ItemsOf(Vocab(["whale", "ship", "sea"], map["whale" := 100, "ship" := 50, "sea" := 50]));
    assert items == [("whale", 100), ("ship", 50), ("sea", 50)];
    assert SortByCount([("sea", 50)]) == [("sea", 50)];
    assert [("ship", 50), ("sea", 50)][1..] == [("sea", 50)];
    assert SortByCount([("ship", 50), ("sea", 50)]) == [("ship", 50), ("sea", 50)];
    assert items[1..] == [("ship", 50), ("sea", 50)];
  }

  /** Half of three words rounds up to two head words. */
  lemma ExampleTop()
    ensures var v := Vocab(["whale", "ship", "sea"], map["whale" := 100, "ship" := 50, "sea" := 50]);
      TopWords(v, HeadCount(|v.keys|, 0.5)) == ["whale", "ship"]
  {
    var v := Vocab(["whale", "ship", "sea"], map["whale" := 100, "ship" := 50, "sea" := 50]);
    assert HeadCount(3, 0.5) == 2;
    ExampleSorted();
    assert MostCommon(ItemsOf(v), 2) == [("whale", 100), ("ship", 50)];
  }

  lemma ExampleHeadStage()
    ensures HeadStage(Vocab(["whale", "ship", "sea"], map["whale" := 100, "ship" := 50, "sea" := 50]), 0.5)
      == Vocab(["sea"], map["sea" := 50])
  {
    var v := Vocab(["whale", "ship", "sea"], map["whale" := 100, "ship" := 50, "sea" := 50]);
    ExampleTop();
    assert Elems(["whale", "ship"]) == {"whale", "ship"};
    assert FilterOut(v.keys, {"whale", "ship"}) == ["sea"];
    assert v.counts - {"whale", "ship"} == map["sea" := 50];
  }

  lemma ExampleRareStage()
    ensures DropWhere(Vocab(["sea"], map["sea" := 50]), RareDrop(ExampleConfig)) == Vocab(["sea"], map["sea" := 50])
  {
    var v := Vocab(["sea"], map["sea" := 50]);
    assert ItemsOf(v) == [("sea", 50)];
    assert DropSet(ItemsOf(v), RareDrop(ExampleConfig)) == {};
    WithoutNothing(v);
  }

  /**
   * The worked example: with the stopword `the`, the window 3..20, minimum
   * count 10 and a head fraction of one half, `{whale: 100, ship: 50, sea: 50,
   * the: 999}` prunes to `{sea: 50}`: stage 3 drops two words, `whale` and then
   * `ship`, which was inserted before `sea`.
   */
  lemma PruneExample()
    ensures PruneSpec(
      Vocab(["whale", "ship", "sea", "the"], map["whale" := 100, "ship" := 50, "sea" := 50, "the" := 999]),
      ExampleConfig)
      == Vocab(["sea"], map["sea" := 50])
  {
    ExampleStopStage();
    ExampleLengthStage();
    ExampleHeadStage();
    ExampleRareStage();
  }

  // ---------------------------------------------------------------------------
  // Export order
  // ---------------------------------------------------------------------------

  /** The rows `(word, count)` of `export_all`: `counter.most_common()`. */
  function ExportAll(v: Vocab): (r: seq<(string, nat)>)
    ensures |r| == |v.keys|
  {
    SortByCount(ItemsOf(v))
  }

  /** The rows `(rank, word, count)` of `export_top100`. */
  function ExportTop100(v: Vocab): (r: seq<(nat, string, nat)>)
    ensures |r| == if 100 < |v.keys| then 100 else |v.keys|
  {
    RankedTop(ItemsOf(v), 100)
  }

  /**
   * `export_all` lists each entry of the counter exactly once, with its count,
   * by count from largest to smallest, equal counts in insertion order.
   */
  lemma ExportAllSpec(v: Vocab)
    requires v.Valid()
    ensures |ExportAll(v)| == |v.keys|
    ensures DistinctKeys(ExportAll(v))
    ensures forall y | y in ExportAll(v) :: y.0 in v.counts && y.1 == v.counts[y.0]
    ensures forall w | w in v.counts :: (w, v.counts[w]) in ExportAll(v)
    ensures NonIncreasing(ExportAll(v))
    ensures forall c: nat :: WithCount(ExportAll(v), c) == WithCount(ItemsOf(v), c)
  {
    SortedItemsKeys(v);
    SortByCountSpec(ItemsOf(v));
    forall c: nat
      ensures WithCount(ExportAll(v), c) == WithCount(ItemsOf(v), c)
    {
      SortByCountStable(ItemsOf(v), c);
    }
  }

  /**
   * `export_top100` writes `min(100, V)` rows ranked from 1: distinct words of
   * the counter with their own counts, never increasing, and no word left out
   * is counted more often than a word written. They are the first rows of
   * the full export.
   */
  lemma ExportTop100Spec(v: Vocab)
    requires v.Valid()
    ensures |ExportTop100(v)| == if 100 < |v.keys| then 100 else |v.keys|
    ensures forall i | 0 <= i < |ExportTop100(v)| :: ExportTop100(v)[i].0 == i + 1
    ensures Distinct(RowWords(ExportTop100(v)))
    ensures forall i | 0 <= i < |ExportTop100(v)| ::
      ExportTop100(v)[i].1 in v.counts && ExportTop100(v)[i].2 == v.counts[ExportTop100(v)[i].1]
    ensures forall i, j | 0 <= i < j < |ExportTop100(v)| :: ExportTop100(v)[i].2 >= ExportTop100(v)[j].2
    ensures forall i, y | 0 <= i < |ExportTop100(v)| && y in v.counts && y !in RowWords(ExportTop100(v)) ::
      ExportTop100(v)[i].2 >= v.counts[y]
    ensures forall i | 0 <= i < |ExportTop100(v)| ::
      ExportTop100(v)[i] == (i + 1, ExportAll(v)[i].0, ExportAll(v)[i].1)
  {
    var rows := ExportTop100(v);
    RankedTopOfCounter(v, 100);
    RankedTopSpec(ItemsOf(v), 100);
    ItemsOfSpec(v);
    forall i | 0 <= i < |rows|
      ensures rows[i].1 in v.counts && rows[i].2 == v.counts[rows[i].1]
    {
      assert (rows[i].1, rows[i].2) in ItemsOf(v);
    }
  }
}
