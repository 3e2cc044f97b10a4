# Verified model of the Gutenberg vocabulary pipeline

This project models the three-stage vocabulary pipeline of a small Project Gutenberg corpus tool.

1. **Cleaning and aggregation** (`clean_and_vocab.py`).
   - Each raw book is cut between its "start of this project gutenberg ebook" and "end of this project gutenberg ebook" markers.
   - The cut text is tokenized, lower-cased and filtered to alphabetic tokens.
   - The tokens are POS-tagged and lemmatized. Stopwords are dropped.
   - The lemmas are written back as one space-separated cleaned file per book.
   - A global `Counter` accumulates every book's counts. Per-book unique and total counts and a ranked top-100 list are produced.
2. **Pruning** (`prune_vocab.py`).
   - The cleaned files are read back as the matches of `[a-z]+` in their lower-cased text.
   - The counter is then pruned in place in four stages: stopwords, a length window, the `max(1, ceil(pct·V))` most common words, and words rarer than a minimum count.
   - Finally it is exported in `most_common` order.
3. **Rank-frequency table and fit window** (`zipf_analysis.py`).
   - The cleaned files are read back with `str.split()`.
   - The counter becomes a table of ranks `1..V`, words, counts and probabilities `count / total`.
   - The Zipf fit keeps the ranks inside `[rmin, rmax]`. It refuses the fit when fewer than five remain.
   - The model curve is evaluated at every rank.

Modules, one per file:

| module | file | contents |
|---|---|---|
| `Results` | `results.dfy` | the `Result` type for the error paths |
| `Seqs` | `seqs.dfy` | generic sequence facts: distinctness, first occurrences, filtering, masked selection, subsequences, flattening |
| `PyText` | `py_text.dfy` | the Python string operations the pipeline relies on: `isspace`, `lower`, `find`, `strip`, `" ".join`, `split()`, and `re.findall("[a-z]+")` |
| `Counters` | `counters.dfy` | Python's `collections.Counter` |
| `CleanVocab` | `clean_and_vocab.dfy` | the cleaning stage |
| `PruneVocab` | `prune_vocab.dfy` | the pruning stage |
| `ZipfAnalysis` | `zipf_analysis.dfy` | the rank-frequency table and fit window |

How `Counters` models `collections.Counter`:
- Its value `Vocab` is an insertion-ordered key list plus a count map.
- The class `Counter` holds those two as fields that its methods update in place.
- `most_common` is a stable descending insertion sort. CPython documents it as equal to a sort of the items by count that is descending and stable, so equal counts keep first-insertion order.

Other modelling choices:
- The NLTK tokenizer, tagger, lemmatizer and stopword list are an `Nlp` parameter.
- `log10`, `**` and `polyfit` are a `Numerics` parameter.
- Probabilities are exact reals.

`prune` deletes from the counter it is given and returns that same counter (`prune_vocab.py:47-76`), and `PruneVocab.Prune` does the same.

Two round-trip lemmas join the files. Both assume a character property of the lemmatizer (`CleanVocab.LemmasAllOf`), and only on the tokens the pipeline can give it: non-empty lower-case ASCII words.
- `ZipfAnalysis.ReadBackWritten`: writing `" ".join(tokens)` per book and reading it back with `split()` gives back every book's tokens. Here the assumed property is that the lemma of such a word holds no whitespace.
- `PruneVocab.ReadBackWritten`: lower-casing the same files and running `[a-z]+` also gives back every book's tokens. Here the assumed property is that the lemma of such a word is made of lower-case ASCII letters.

`CleanVocab.UnchangedLemmasAllOf` shows that both properties are satisfiable: a lemmatizer that returns every word unchanged, as WordNet's does for a word it does not know, has both.

## Model

| member | source | states |
|---|---|---|
| CleanVocab.ContentStartSpec | clean_and_vocab.py:60-67 | content starts at 0 when the lowered text has no start marker; with the first marker at `i`, it starts just after the first newline at or after `i`, or at `i` when no newline follows |
| CleanVocab.ContentEndSpec | clean_and_vocab.py:61-72 | content ends at the first end marker of the lowered text, or at `len(text)` when there is none |
| CleanVocab.ContentStart | clean_and_vocab.py:60-67 | the content start is an index within the text; `ContentStartSpec` says which |
| CleanVocab.ContentEnd | clean_and_vocab.py:61-72 | the content end is an index within the text; `ContentEndSpec` says which |
| CleanVocab.Slice | clean_and_vocab.py:74 | `text[a:b]` has `b - a` characters, or none when `b <= a`, and its `i`-th character is the text's character `a + i` |
| CleanVocab.Cleaned | clean_and_vocab.py:74 | the stripped slice between content start and end is never longer than the text |
| CleanVocab.StripGutenbergHeaderFooter | clean_and_vocab.py:55-75 | the result is never longer than the text, and is empty only when the text is, since an empty stripped slice falls back to the whole text; the lemmas below state each case |
| CleanVocab.CleanIsTextOrStrippedSlice | clean_and_vocab.py:74-75 | the cleaned text is empty exactly when the input is; it is either the input itself or the non-empty stripped slice `text[a:b].strip()` for some `a <= b` |
| CleanVocab.CleanWithoutMarkers | clean_and_vocab.py:60-75 | with neither marker present, the result is `text.strip()`, or `text` when that strip is empty |
| CleanVocab.CleanBetweenMarkers | clean_and_vocab.py:63-75 | with the start marker's line ending at `j` and the end marker at `e > j`, the result is `text[j+1:e].strip()` when that is non-empty |
| CleanVocab.CleanEndBeforeStart | clean_and_vocab.py:69-75 | when the first end marker lies at or before the computed start, the original text is returned |
| CleanVocab.CleanIdempotentWithoutMarkers | clean_and_vocab.py:67-75 | on marker-free text, cleaning twice equals cleaning once |
| CleanVocab.PosOf | clean_and_vocab.py:77-86 | the WordNet category is adjective iff the tag starts with J, verb iff V, adverb iff R, noun otherwise; its code is one of `a`, `v`, `n`, `r` |
| CleanVocab.AlphaLower | clean_and_vocab.py:91 | the kept tokens are non-empty lower-case words, no more than the input tokens |
| CleanVocab.AlphaLowerFrom | clean_and_vocab.py:91 | as sets: every kept token is the lower-casing of an alphabetic input token, and every alphabetic input token's lower-casing is kept |
| CleanVocab.AlphaLowerIsSelect | clean_and_vocab.py:91 | the kept tokens are exactly the lower-cased tokens at the alphabetic positions of the tokenizer's output, in that order and with their multiplicity |
| CleanVocab.Tagged | clean_and_vocab.py:93 | tagging pairs each token, in order, with a tag |
| CleanVocab.Candidates | clean_and_vocab.py:102-103 | one `lemmatize(tok, pos=wn_pos)` per tagged token; `KeptInOrder` and `KeptMembers` relate the kept lemmas to it |
| CleanVocab.Kept | clean_and_vocab.py:98-106 | every kept lemma is non-empty and not a stopword, and there are no more lemmas than tagged tokens |
| CleanVocab.KeptInOrder | clean_and_vocab.py:98-105 | the lemmas are a subsequence of the per-token lemmatizations, so input order is kept |
| CleanVocab.KeptMembers | clean_and_vocab.py:99-105 | as sets: the lemma of every non-stopword token is kept when it is non-empty and not a stopword, and every kept word is the lemma of some token |
| CleanVocab.KeptIsSelect | clean_and_vocab.py:98-105 | the kept lemmas are exactly the lemmas of the tokens that are not stopwords and whose lemma is non-empty and not a stopword, in token order and with their multiplicity |
| CleanVocab.TokenizeAndLemmatize | clean_and_vocab.py:88-106 | the appending loop yields the filtered lemmas: non-empty, no stopwords, no longer than the alphabetic token list |
| CleanVocab.BookTokens | clean_and_vocab.py:115-116 | the tokens of one book are non-empty and none is a stopword |
| CleanVocab.ProcessFile | clean_and_vocab.py:108-122 | a book yields the lemmas of its stripped text and writes their space join; when no lemma holds whitespace, `split()` of the written text gives the lemmas back |
| CleanVocab.UnchangedLemmasAllOf | clean_and_vocab.py:103 | a lemmatizer returning every word unchanged gives, on lower-case words, lemmas that are lower-case ASCII and free of whitespace |
| CleanVocab.KeptAllOf | clean_and_vocab.py:103-105 | when the tagged tokens are lower-case words, a character property that the lemmatizer gives all such words holds of every kept lemma |
| CleanVocab.BookTokensAllOf | clean_and_vocab.py:115-116 | every token of a book is non-empty and has any character property that the lemmatizer gives all lower-case words, because line 91 only passes it lower-case alphabetic tokens |
| CleanVocab.AllTokens | clean_and_vocab.py:134-136 | one token list per raw book, in file order |
| CleanVocab.Written | clean_and_vocab.py:118-120 | one cleaned file per raw book |
| CleanVocab.StatsOf | clean_and_vocab.py:139 | a book's row carries its name and its token total, and its unique count is 0 exactly when it has no token (`UniqueAtMostTotal` bounds it by the total) |
| CleanVocab.PerBookStats | clean_and_vocab.py:139 | one statistics row per book |
| CleanVocab.GlobalIsSumOfBooks | clean_and_vocab.py:134-138 | every word's global count is the sum of its counts in the books |
| CleanVocab.MergeStep | clean_and_vocab.py:137-138 | updating the global counter with a book's `Counter(tokens)` gives the counter of all tokens so far |
| CleanVocab.UniqueAtMostTotal | clean_and_vocab.py:139 | a book's unique-token count never exceeds its total-token count |
| CleanVocab.BookStep | clean_and_vocab.py:134-139 | one loop iteration processes the book, reports its statistics and merges its `Counter` into the global one in place |
| CleanVocab.BuildVocabulary | clean_and_vocab.py:124-152 | fails exactly when there is no raw book; otherwise yields the per-book rows, the global counter of all tokens and the ranked top 100 |
| CleanVocab.SummaryProperties | clean_and_vocab.py:131-152 | unique ≤ total per book; global counts are per-book sums; the top list has at most 100 rows, ranked 1.. with non-increasing counts that match the global counter, distinct words, and no word left out counted more often than a word listed |
| Counters.AddOne | clean_and_vocab.py:138 | adding a count to one key keeps the keys distinct and in step with the map |
| Counters.AddOneSpec | clean_and_vocab.py:138 | adding `n` to word `w` appends `w` when new and raises only `w`'s count by `n` |
| Counters.AddAll | zipf_analysis.py:43 | `update(tokens)` keeps a valid counter valid: keys distinct and exactly the map's keys (`AddAllSpec` gives keys and counts) |
| Counters.Tally | clean_and_vocab.py:137 | `Counter(tokens)` is a valid counter, empty for no tokens (`TallySpec` gives keys and counts) |
| Counters.AddItems | clean_and_vocab.py:138 | `update(other_counter)` keeps a valid counter valid (`AddItemsSpec` gives keys and counts) |
| Counters.Without | prune_vocab.py:53 | after deleting a set of keys, every remaining key was present before, is outside the set and keeps its count, and the key list does not grow |
| Counters.InsertMultiset | prune_vocab.py:84 | inserting into the sorted list keeps every item: the multiset grows by the inserted item |
| Counters.InsertSorted | prune_vocab.py:84 | inserting keeps the list descending by count |
| Counters.SortByCount | prune_vocab.py:84 | `most_common()` has as many items as the counter; `SortByCountSpec` states order and permutation |
| Counters.MostCommon | clean_and_vocab.py:147 | `most_common(n)` has `min(n, V)` items |
| Counters.SortByCountSpec | prune_vocab.py:84 | `most_common()` order is descending by count and a permutation of the items |
| Counters.SortByCountStable | zipf_analysis.py:51 | items of equal count appear in the same relative order as in the counter: the sort is stable |
| Counters.SortDistinctKeys | zipf_analysis.py:51-52 | sorting keeps the keys distinct |
| Counters.SortByCountSum | zipf_analysis.py:53-54 | sorting keeps the sum of the counts |
| Counters.RankedTop | clean_and_vocab.py:147-152 | the top-`n` rows are `min(n, V)` in number |
| Counters.RankedTopSpec | clean_and_vocab.py:147-152 | row `i` has rank `i + 1` and a word and count taken from the counter; counts never increase down the rows |
| Counters.RankedTopOfCounter | clean_and_vocab.py:147 | the words of `most_common(n)` are distinct, and no word left out is counted more often than a word listed |
| Counters.AddAllSpec | zipf_analysis.py:43 | `update(tokens)` appends the new words in first-seen order and raises every count by the word's number of occurrences |
| Counters.AddAllConcat | zipf_analysis.py:37-43 | updating with two token lists in turn equals updating with their concatenation |
| Counters.AddItemsSpec | clean_and_vocab.py:138 | `update(other_counter)` appends other's new keys in other's order and adds its counts |
| Counters.MergeTally | clean_and_vocab.py:137-138 | updating with `Counter(tokens)` equals updating with the tokens themselves |
| Counters.SumCountsAddOne | clean_and_vocab.py:139 | adding `n` to one count raises the sum of the counts by `n` |
| Counters.SumCounts | clean_and_vocab.py:139 | `sum(cnt.values())` is at least the count of every key |
| Counters.TallySpec | clean_and_vocab.py:137-139 | `Counter(tokens)` has the distinct tokens in first-seen order as keys, each token's multiplicity as its positive count, `len` equal to the number of distinct tokens (at most the token count) and counts summing to the token count |
| Counters.WithoutSpec | prune_vocab.py:53 | deleting a set of keys leaves exactly the other keys with unchanged counts, in their old relative order, each deleted key present in the counter shortening the key list by one |
| Counters.WithoutNothing | prune_vocab.py:65-66 | deleting no key changes nothing |
| Counters.WithoutTwice | prune_vocab.py:65-66 | deleting one set and then another equals deleting their union |
| Counters.ItemsOfSpec | prune_vocab.py:69 | `items()` lists each key once with its own count, and every key appears |
| Counters.SortedItemsKeys | prune_vocab.py:84 | `most_common()` lists each key once with its own count, and every key appears |
| Counters.Counter.constructor | clean_and_vocab.py:131 | `Counter()` is empty |
| Counters.Counter.Len | prune_vocab.py:48 | `len(counter)` of a valid counter is the number of its keys (also lines 62 and 73) |
| Counters.Counter.Items | prune_vocab.py:69 | `counter.items()` of a valid counter lists every key exactly once with its own count |
| Counters.Counter.Add | clean_and_vocab.py:138 | adds a count for one key in place |
| Counters.Counter.Update | zipf_analysis.py:43 | `update(tokens)` in place: the new state is the old one updated with the tokens |
| Counters.Counter.UpdateFrom | clean_and_vocab.py:138 | `update(other_counter)` in place: own state updated with other's items; other unchanged |
| Counters.Counter.Delete | prune_vocab.py:53 | `del counter[w]` in place, a no-op when `w` is absent |
| PruneVocab.ReadCleanTokens | prune_vocab.py:33-45 | fails exactly when there is no cleaned file; otherwise the counter of all `[a-z]+` matches of the lower-cased files |
| PruneVocab.ReadCleanTokensSpec | prune_vocab.py:39-44 | every counted key is a non-empty `[a-z]+` word with a positive count, and the counts sum to the number of matches |
| PruneVocab.Matches | prune_vocab.py:39-43 | one match list per cleaned file |
| PruneVocab.ReadBackWritten | prune_vocab.py:39-44 | reading back the files the cleaning stage writes yields every book's tokens, so the counter read equals the counter of all cleaned tokens (for lower-case ASCII lemmas) |
| PruneVocab.ReadBackBook | prune_vocab.py:41-43 | `[a-z]+` over one lower-cased written book gives its token list back |
| PruneVocab.DropWhereSpec | prune_vocab.py:69-71 | deleting the items a predicate selects leaves exactly the unselected keys with unchanged counts, in their old order |
| PruneVocab.DropWhere | prune_vocab.py:69-71 | the counter after deleting selected entries holds only old entries with their old counts, and has no more keys |
| PruneVocab.DeleteWhere | prune_vocab.py:69-71 | the deleting loop over a snapshot of `items()` leaves the counter without the selected entries; stages 1 and 2 (lines 51-59) loop over a snapshot of `keys()` and test only the word, which is the same loop with a test that ignores the count |
| PruneVocab.DeleteAll | prune_vocab.py:65-66 | deleting each listed word in place leaves the counter without those words |
| PruneVocab.Ceil | prune_vocab.py:63 | `math.ceil(x)` is the least integer not below `x` |
| PruneVocab.HeadCount | prune_vocab.py:63 | `k` is at least 1 and at least `pct·V`, and exceeds it by less than 1 when above 1 |
| PruneVocab.DefaultHeadCount | prune_vocab.py:17 | with the default 1%, stage 3 asks for `k = 1` head word for a vocabulary of at most 100 words |
| PruneVocab.DefaultHeadStage | prune_vocab.py:61-66 | with the default 1%, a non-empty vocabulary of at most 100 words loses exactly one word at stage 3, counted at least as often as every survivor |
| PruneVocab.DefaultConfig | prune_vocab.py:14-17 | the default thresholds give a non-empty length window, a positive minimum count and a fraction strictly between 0 and 1 (`DefaultHeadCount` and `DefaultHeadStage` state their effect on stage 3) |
| PruneVocab.Prune | prune_vocab.py:47-76 | the four stages run on the counter in place and return that same counter; `removed` is the size before minus the size after, and is non-negative |
| PruneVocab.StopDrop | prune_vocab.py:52 | stage 1 selects exactly the stopwords, whatever their count (`StopStageSpec` states the stage) |
| PruneVocab.LengthDrop | prune_vocab.py:58 | stage 2 keeps exactly the words of length within `[minLen, maxLen]`, whatever their count (`LengthStageSpec`) |
| PruneVocab.RareDrop | prune_vocab.py:70 | stage 4 keeps exactly the counts of at least `minCount`, whatever the word, and selecting a count selects every smaller one (`RareStageSpec`) |
| PruneVocab.StopStageSpec | prune_vocab.py:51-53 | after stage 1 no key is a stopword, and every non-stopword remains |
| PruneVocab.LengthStageSpec | prune_vocab.py:55-59 | after stage 2 every key has length in `[minLen, maxLen]`, and every such key remains |
| PruneVocab.RareStageSpec | prune_vocab.py:68-71 | after stage 4 every count is at least `minCount`, and every such entry remains |
| PruneVocab.TopWordsSpec | prune_vocab.py:64 | the top words are `min(k, V)` distinct keys of the counter |
| PruneVocab.TopWords | prune_vocab.py:64 | `most_common(k)` gives `min(k, V)` words |
| PruneVocab.HeadPair | prune_vocab.py:61-66 | a word among the top words is counted at least as often as any word outside them |
| PruneVocab.TopWordsDominate | prune_vocab.py:61-66 | every top word's count is at least every other word's count |
| PruneVocab.HeadStageSpec | prune_vocab.py:61-66 | stage 3 removes exactly `min(k, V)` entries, each removed count ≥ every surviving count, survivors keep their counts, and an empty counter is unchanged |
| PruneVocab.HeadStage | prune_vocab.py:61-66 | after stage 3 every remaining entry was in the counter with the same count, and there are no more keys |
| PruneVocab.PruneSpecProperties | prune_vocab.py:47-76 | pruning yields a sub-map of the input in its order, no larger, whose keys are non-stopwords within the length window with counts ≥ `minCount` |
| PruneVocab.PruneSpec | prune_vocab.py:47-76 | the four stages together keep only old entries with their old counts, and never add a key |
| PruneVocab.PruneExample | prune_vocab.py:47-71 | `{whale:100, ship:50, sea:50, the:999}` with stop `{the}`, window 3..20, min count 10 and 50% becomes `{sea:50}` |
| PruneVocab.ExampleSorted | prune_vocab.py:64 | in the example, `ship` is ranked before `sea` at equal counts because it was inserted first |
| PruneVocab.ExampleHeadStage | prune_vocab.py:61-66 | in the example, stage 3 drops `k = 2` words, `whale` and `ship` |
| PruneVocab.ExportAllSpec | prune_vocab.py:78-87 | the exported rows are all entries once each with their counts, non-increasing, with equal counts in insertion order |
| PruneVocab.ExportAll | prune_vocab.py:84 | the full export has one row per counter key |
| PruneVocab.ExportTop100Spec | prune_vocab.py:89-98 | the top-100 export has `min(100, V)` rows ranked from 1; its words are distinct keys of the counter with their own counts, never increasing; no word left out is counted more often than a word written; the rows are the first rows of the full export |
| PruneVocab.ExportTop100 | prune_vocab.py:95 | the top-100 export has `min(100, V)` rows |
| ZipfAnalysis.ReadCleanTokens | zipf_analysis.py:25-45 | fails with "directory not found" when the directory is missing, else with "no cleaned files" when it is empty; otherwise yields the counter of all whitespace-split tokens |
| ZipfAnalysis.ReadCleanTokensSpec | zipf_analysis.py:37-43 | every counted token is non-empty and whitespace-free, its count is its number of occurrences, counts are positive and sum to the token total |
| ZipfAnalysis.Splits | zipf_analysis.py:42 | one token list per cleaned file |
| ZipfAnalysis.ReadBackWritten | zipf_analysis.py:37-43 | `split()` of the files the cleaning stage writes yields every book's tokens back, so the counter read equals the counter of all cleaned tokens (for whitespace-free lemmas) |
| ZipfAnalysis.BuildRankFrequency | zipf_analysis.py:48-59 | the four columns have one entry per counter key |
| ZipfAnalysis.Ranks | zipf_analysis.py:58 | `np.arange(1, n+1)` has `n` strictly increasing ranks within `1..n` (`WindowOfRanks` states the window over them) |
| ZipfAnalysis.Scaled | zipf_analysis.py:57 | one probability per count |
| ZipfAnalysis.Rows | zipf_analysis.py:51-53 | zipping the word and count columns gives one `(word, count)` row per word; `BuildRankFrequencySpec` shows these rows are `most_common()` |
| ZipfAnalysis.BuildRankFrequencySpec | zipf_analysis.py:48-59 | ranks are exactly `1..V`; words are the counter's keys, each once; each count is its word's count; counts never increase; equal counts keep insertion order; counts sum to the counter's total |
| ZipfAnalysis.ProbabilitiesSpec | zipf_analysis.py:54-57 | for a non-empty counter each probability is count / total, positive, non-increasing in rank, and the probabilities sum to exactly 1 |
| ZipfAnalysis.TableTotal | zipf_analysis.py:54-57 | a non-empty counter has a positive total, and the probabilities are the counts over that total |
| ZipfAnalysis.Mask | zipf_analysis.py:76 | the mask has one entry per rank |
| Seqs.Select | zipf_analysis.py:80-81 | `a[mask]` has as many elements as the mask has true entries |
| Seqs.CountTrue | zipf_analysis.py:77 | `mask.sum()` is at most the mask's length, and is 0 exactly when no entry is true |
| ZipfAnalysis.WindowSize | zipf_analysis.py:76-77 | the number of ranks `1..V` in `[rmin, rmax]` is at most `V`, and 0 when `rmax < rmin`; `WindowOfRanks` ties it to `mask.sum()` |
| ZipfAnalysis.WindowOfRanks | zipf_analysis.py:76-77 | over ranks `1..V` the window selects the consecutive ranks from `max(rmin, 1)`, and `mask.sum()` is `max(0, min(rmax, V) - max(rmin, 1) + 1)` |
| ZipfAnalysis.LogWindow | zipf_analysis.py:80-81 | the log-log points are one per windowed rank |
| ZipfAnalysis.FitZipfExponent | zipf_analysis.py:73-87 | the fit fails with the too-few-points error, naming the window, exactly when fewer than 5 ranks fall in `[rmin, rmax]` |
| ZipfAnalysis.FitOnRanks | zipf_analysis.py:76-78 | on ranks `1..V` the fit fails exactly when the window size formula is below 5 |
| ZipfAnalysis.FitIsLocal | zipf_analysis.py:76-86 | the fit depends only on the probabilities inside the window |
| ZipfAnalysis.ModelWithFixedA | zipf_analysis.py:90-99 | the model curve has one value per rank, not per windowed rank, and is all NaN exactly when the window is empty |
| ZipfAnalysis.Mean | zipf_analysis.py:97 | `np.mean` of a non-empty sequence is the value whose `len` copies sum to its sum |
| ZipfAnalysis.MeanBounds | zipf_analysis.py:97 | the mean lies within any lower and upper bound of the values |
| ZipfAnalysis.ModelIsLocal | zipf_analysis.py:92-99 | the model curve depends only on the probabilities inside the window |
| ZipfAnalysis.ModelOnRanks | zipf_analysis.py:92-99 | on ranks `1..V` the curve is NaN exactly when the window size formula is 0 |
| PyText.IsSpace | clean_and_vocab.py:74 | `isspace()`, the whitespace of `strip()` and `split()`, holds of no letter |
| PyText.IsAlpha | clean_and_vocab.py:91 | an `isalpha()` token contains no whitespace |
| PyText.Find | clean_and_vocab.py:60-61 | `find` returns -1 exactly when the pattern does not occur from the start position, and otherwise its first occurrence |
| PyText.LowerSlice | clean_and_vocab.py:56-64 | lower-casing commutes with slicing, so indices found in `low` apply to `text` |
| PyText.Lower | prune_vocab.py:41 | `lower()` keeps the length, leaves no ASCII capital and changes no other character |
| PyText.Strip | clean_and_vocab.py:74 | `strip()` is empty exactly when the text is all whitespace, and otherwise starts and ends with non-whitespace |
| PyText.StripMargins | clean_and_vocab.py:74 | `strip()` removes exactly the leading and trailing whitespace runs |
| PyText.StripIdempotent | clean_and_vocab.py:74 | stripping twice equals stripping once |
| PyText.Words | zipf_analysis.py:42 | every word of a split or a regex match run is non-empty and made of the accepted characters |
| PyText.Split | zipf_analysis.py:42 | every word of `split()` is non-empty and whitespace-free |
| PyText.FindAllLower | prune_vocab.py:43 | every match of `[a-z]+` is a non-empty run of `a`..`z` |
| PyText.Join | clean_and_vocab.py:120 | the space join begins with the first word and has at least one character per word boundary (`SplitJoin` gives the words back) |
| PyText.SplitJoin | zipf_analysis.py:42 | `" ".join(ws).split()` is `ws` for non-empty whitespace-free words |
| PyText.WordsOfJoin | prune_vocab.py:43 | maximal runs of a character class not containing space, taken over a space join of such words, give the words back |
| PyText.WordsCoverCharacters | prune_vocab.py:43 | the matches of a character class together hold exactly as many characters as the text has of that class |
| PyText.LowerOfLowerWords | prune_vocab.py:41 | lower-casing a space join of lower-case words changes nothing |
| PyText.FindAllOfJoin | prune_vocab.py:43 | `re.findall("[a-z]+")` over the lower-cased join of lower-case words gives the words back |

## Left out

- `crawl_and_download.py` and `make_report.py` are not part of this model. They are network fetching and report formatting.
- Files and directories are not modelled:
  - reading and writing them, `os.makedirs`, `glob`, `os.listdir` and the `.txt` name filter;
  - `utf-8` decoding with `errors="ignore"`.
  - Raw books and cleaned files are sequences of contents, assumed already sorted by name.
  - The existence of the analysis input directory is a boolean parameter of `ZipfAnalysis.ReadCleanTokens`.
  - The round-trip lemmas take the cleaned files in the same order as the raw books. They do not model file names, `basename` or `splitext`.
- CSV, pandas and matplotlib output are not modelled: CSV writers, `save_rank_table`, plots, console previews and log lines. The rows those writers receive are modelled (`Counters.RankedTop`, `PruneVocab.ExportAll`, `PruneVocab.ExportTop100`, `ZipfAnalysis.Rows`), as is the removed-count of the pruning report.
- `argparse` and environment variables are not modelled. The thresholds are a `PruneConfig` value, with the defaults of lines 14-17 as `PruneVocab.DefaultConfig`. The fit window is a pair of parameters.
- NLTK is the `Nlp` parameter, opaque to the proofs:
  - `word_tokenize`, `pos_tag`, `WordNetLemmatizer` and the English stopword list;
  - `ensure_nltk_data` downloads;
  - prune's fallback stopword list (`prune_vocab.py:20-29`), which is just another `stop` set.
- Floating point is not modelled. `log10`, `10 ** b`, `polyfit` and the power law are the `Numerics` parameter. Probabilities and `TOP_PCT_DROP` are exact reals, so the probabilities sum to exactly 1 rather than approximately.
- Integer width is not modelled: counts are unbounded, not `int64`.
- Unicode letters and case mapping are not modelled. `isalpha` and `lower` are ASCII only, so indices into the lowered text and the text line up. `isspace` uses Python's full whitespace set.
- The Unicode divergence between `isalpha` at `clean_and_vocab.py:91` and `[a-z]+` at `prune_vocab.py:31` does not arise for ASCII. With non-ASCII letters, the regex would split a token that `isalpha` accepted, and the prune round trip would no longer hold.
- ZipfAnalysis.BuildRankFrequency: requires every count to be positive. numpy divides by a zero total only for a non-empty counter whose counts are all zero, so this is stronger than the source needs: it also excludes counters such as `{a: 0, b: 3}`. It is kept because `read_clean_tokens` never yields a zero count (`ZipfAnalysis.ReadCleanTokensSpec`), and the positivity clause of `ZipfAnalysis.ProbabilitiesSpec` depends on it. An empty counter is allowed and gives an empty table.
- ZipfAnalysis.FitZipfExponent: requires the rank and probability arrays to have equal length. numpy raises an indexing error otherwise, which is not modelled because `build_rank_frequency` always returns equal lengths.
- ZipfAnalysis.ModelWithFixedA: same equal-length requirement, for the same reason. The NaN result for an empty window is a `NaNCurve` of the right length, not individual NaN values.
- ZipfAnalysis.LogWindow: same equal-length requirement. Taking `log10` of a zero probability is not modelled.
- ZipfAnalysis.FitZipfExponent: the fitted `a` and `C` are `-m` and `10 ** b` for the abstract `polyfit` result. Nothing is proved about the least-squares regression.
- Counters.Counter.UpdateFrom: requires the other counter to be a different object. Updating a counter with itself never happens in the pipeline.
- ZipfAnalysis.ReadBackWritten: holds under an assumption: lemmatizing a non-empty lower-case ASCII word gives a lemma without whitespace (`CleanVocab.LemmasAllOf` with `NonSpace`). The lemmatizer is not modelled, so this is assumed of WordNet, not proved. A lemmatizer that returns words unchanged meets it (`CleanVocab.UnchangedLemmasAllOf`).
- PruneVocab.ReadBackWritten: holds under a similar assumption: lemmatizing such a word gives a lemma of lower-case ASCII letters (`CleanVocab.LemmasAllOf` with `IsAsciiLower`). It is assumed for the same reason.
- PruneVocab.ReadBackBook: the same assumption as `PruneVocab.ReadBackWritten`, for one book.
- CleanVocab.KeptAllOf: takes the lemmatizer's character property as a premise, on lower-case words only, for the same reason.
- CleanVocab.BookTokensAllOf: the same premise as `CleanVocab.KeptAllOf`.
- `Counter.most_common(n)` uses `heapq.nlargest`, which is not modelled. It is modelled by the stable sort it is documented to equal.
