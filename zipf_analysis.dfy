/**
 * The Zipf analysis of the unified vocabulary: the cleaned files are read
 * back and split on whitespace, the counter is turned into a rank-frequency
 * table (most common first, ranks 1..V, probability count/total), and the
 * scaling window `[rmin, rmax]` selects the ranks used for the log-log fit
 * of the exponent and of the fixed-exponent model curves.
 *
 * Probabilities are exact reals. The floating-point functions of the fit —
 * `log10`, powers and the least-squares line — are parameters (`Numerics`);
 * only the table, the window and the error logic are stated and proved.
 */
module ZipfAnalysis {
  import opened Seqs
  import opened Results
  import opened PyText
  import opened Counters
  import CleanVocab

  datatype ReadError = DirectoryNotFound | NoCleanedFiles

  // ---------------------------------------------------------------------------
  // Reading the cleaned files
  // ---------------------------------------------------------------------------

  /** The tokens of each cleaned file: its text split on whitespace. */
  function Splits(files: seq<string>): (ts: seq<seq<string>>)
    ensures |ts| == |files|
  {
    Map((text: string) => Split(text), files)
  }

  /**
   * `read_clean_tokens` on whether the directory exists and on the contents of
   * its `*.txt` files in sorted order: a missing directory and an empty one are
   * errors, and otherwise the counter holds the whitespace-separated tokens of
   * all files.
   */
  method ReadCleanTokens(dirExists: bool, files: seq<string>) returns (r: Result<Counter, ReadError>)
    ensures r.Failure? <==> !dirExists || files == []
    ensures r.Failure? ==> r.error == if !dirExists then DirectoryNotFound else NoCleanedFiles
    ensures r.Success? ==> r.value.Valid() && r.value.Value() == Tally(Flatten(Splits(files)))
  {
    var counter := new Counter();
    if !dirExists {
      return Failure(DirectoryNotFound);
    }
    if |files| == 0 {
      return Failure(NoCleanedFiles);
    }
    var i := 0;
    while i < |files|
      invariant 0 <= i <= |files|
      invariant counter.Valid() && counter.Value() == Tally(Flatten(Splits(files[..i])))
    {
      var toks := Split(files[i]);
      MapSnoc((text: string) => Split(text), files, i);
      assert Flatten(Splits(files[..i + 1])) == Flatten(Splits(files[..i])) + toks;
      AddAllConcat(Empty, Flatten(Splits(files[..i])), toks);
      counter.Update(toks);
      i := i + 1;
    }
    assert files[..|files|] == files;
    return Success(counter);
  }

  /**
   * Every counted key is a non-empty run of non-whitespace characters, each
   * count is the number of occurrences of its token in the splits of all
   * files, and the counts add up to the number of tokens.
   */
  lemma ReadCleanTokensSpec(files: seq<string>)
    ensures Tally(Flatten(Splits(files))).Valid()
    ensures forall w | w in Tally(Flatten(Splits(files))).counts :: w != [] && AllOf(w, NonSpace)
    ensures forall w :: Get(Tally(Flatten(Splits(files))).counts, w) == multiset(Flatten(Splits(files)))[w]
    ensures forall w | w in Tally(Flatten(Splits(files))).counts :: Tally(Flatten(Splits(files))).counts[w] > 0
    ensures SumCounts(Tally(Flatten(Splits(files)))) == |Flatten(Splits(files))|
  {
    var ts := Splits(files);
    FlattenAll(ts, (w: string) => w != [] && AllOf(w, NonSpace));
    TallySpec(Flatten(ts));
  }

  // ---------------------------------------------------------------------------
  // The cleaned files of the cleaning step, read back
  // ---------------------------------------------------------------------------

  /**
   * The round trip between the two steps: splitting the cleaned files gives
   * back the token list of every book, so the Zipf counter is the unified
   * vocabulary of the cleaning step.
   */
  lemma ReadBackWritten(nlp: CleanVocab.Nlp, books: seq<(string, string)>)
    requires CleanVocab.LemmasAllOf(nlp, NonSpace)
    ensures Splits(CleanVocab.Written(nlp, books)) == CleanVocab.AllTokens(nlp, books)
    ensures Tally(Flatten(Splits(CleanVocab.Written(nlp, books)))) == Tally(Flatten(CleanVocab.AllTokens(nlp, books)))
  {
    var ts := Splits(CleanVocab.Written(nlp, books));
    forall k | 0 <= k < |books|
      ensures ts[k] == CleanVocab.AllTokens(nlp, books)[k]
    {
      CleanVocab.BookTokensAllOf(nlp, books[k].1, NonSpace);
      SplitJoin(CleanVocab.BookTokens(nlp, books[k].1));
    }
  }

  // ---------------------------------------------------------------------------
  // The rank-frequency table
  // ---------------------------------------------------------------------------

  /** The four columns returned by `build_rank_frequency`. */
  datatype RankTable = RankTable(ranks: seq<nat>, probs: seq<real>, words: seq<string>, counts: seq<nat>)

  /** `np.arange(1, n + 1)`. */
  function Ranks(n: nat): (r: seq<nat>)
    ensures |r| == n
    ensures forall i | 0 <= i < n :: 1 <= r[i] <= n
    ensures forall i, j | 0 <= i < j < n :: r[i] < r[j]
  {
    seq(n, i requires 0 <= i < n => i + 1)
  }

  /** Every count of the counter is positive, as it is for a counter of tokens. */
  ghost predicate PositiveCounts(v: Vocab) {
    forall w | w in v.counts :: v.counts[w] > 0
  }

  /** `counts / total` elementwise. */
  function Scaled(c: seq<nat>, total: real): (r: seq<real>)
    requires c != [] ==> total > 0.0
    ensures |r| == |c|
  {
    seq(|c|, i requires 0 <= i < |c| => c[i] as real / total)
  }

  /** `build_rank_frequency`: the `most_common()` rows split into columns. */
  function BuildRankFrequency(v: Vocab): (t: RankTable)
    requires v.Valid() && PositiveCounts(v)
    ensures |t.ranks| == |v.keys| && |t.probs| == |v.keys| && |t.words| == |v.keys| && |t.counts| == |v.keys|
  {
    var items := SortByCount(ItemsOf(v));
    var counts := CountsOf(items);
    var total := SumNat(counts);
    SortedItemsKeys(v);
    assert counts != [] ==> items[0] in items && total >= counts[0] > 0;
    RankTable(Ranks(|counts|), Scaled(counts, total as real), KeysOf(items), counts)
  }

  /** The rows `(word, count)` of the table. */
  function Rows(t: RankTable): (rows: seq<(string, nat)>)
    requires |t.words| == |t.counts|
    ensures |rows| == |t.words|
  {
    seq(|t.words|, i requires 0 <= i < |t.words| => (t.words[i], t.counts[i]))
  }

  /**
   * An unfolding step for the lemmas below: the columns of the table are
   * those of the sorted rows.
   */
  lemma TableColumns(v: Vocab)
    requires v.Valid() && PositiveCounts(v)
    ensures BuildRankFrequency(v).ranks == Ranks(|v.keys|)
    ensures BuildRankFrequency(v).words == KeysOf(SortByCount(ItemsOf(v)))
    ensures BuildRankFrequency(v).counts == CountsOf(SortByCount(ItemsOf(v)))
    ensures Rows(BuildRankFrequency(v)) == SortByCount(ItemsOf(v))
  {
    assert |ItemsOf(v)| == |v.keys|;
  }

  lemma SortedKeysCover(v: Vocab)
    requires v.Valid()
    ensures Elems(KeysOf(SortByCount(ItemsOf(v)))) == v.counts.Keys
  {
    var items := SortByCount(ItemsOf(v));
    var keys := KeysOf(items);
    SortedItemsKeys(v);
    forall w | w in v.counts
      ensures w in Elems(keys)
    {
      var i :| 0 <= i < |items| && items[i] == (w, v.counts[w]);
      assert keys[i] == w;
    }
    forall w | w in Elems(keys)
      ensures w in v.counts
    {
      var i :| 0 <= i < |keys| && keys[i] == w;
      assert items[i] in items;
    }
  }

  lemma SortedCountsMatch(v: Vocab)
    requires v.Valid()
    ensures forall i | 0 <= i < |SortByCount(ItemsOf(v))| ::
      KeysOf(SortByCount(ItemsOf(v)))[i] in v.counts &&
      CountsOf(SortByCount(ItemsOf(v)))[i] == v.counts[KeysOf(SortByCount(ItemsOf(v)))[i]]
  {
    var items := SortByCount(ItemsOf(v));
    SortedItemsKeys(v);
    forall i | 0 <= i < |items|
      ensures KeysOf(items)[i] in v.counts && CountsOf(items)[i] == v.counts[KeysOf(items)[i]]
    {
      assert items[i] in items;
    }
  }

  /** Every key of the counter is listed exactly once, with its count. */
  lemma TableKeys(v: Vocab)
    requires v.Valid() && PositiveCounts(v)
    ensures Distinct(BuildRankFrequency(v).words)
    ensures Elems(BuildRankFrequency(v).words) == v.counts.Keys
    ensures forall i | 0 <= i < |v.keys| :: BuildRankFrequency(v).counts[i] == v.counts[BuildRankFrequency(v).words[i]]
  {
    TableColumns(v);
    SortedItemsKeys(v);
    KeysOfDistinct(SortByCount(ItemsOf(v)));
    SortedKeysCover(v);
    SortedCountsMatch(v);
  }

  /** Counts never increase, equal counts keep their insertion order, and no count is lost. */
  lemma TableOrder(v: Vocab)
    requires v.Valid() && PositiveCounts(v)
    ensures forall i, j | 0 <= i < j < |v.keys| :: BuildRankFrequency(v).counts[i] >= BuildRankFrequency(v).counts[j]
    ensures forall c: nat :: WithCount(Rows(BuildRankFrequency(v)), c) == WithCount(ItemsOf(v), c)
    ensures SumNat(BuildRankFrequency(v).counts) == SumCounts(v)
  {
    TableColumns(v);
    SortByCountSpec(ItemsOf(v));
    forall c: nat
      ensures WithCount(SortByCount(ItemsOf(v)), c) == WithCount(ItemsOf(v), c)
    {
      SortByCountStable(ItemsOf(v), c);
    }
    SortByCountSum(ItemsOf(v));
  }

  /**
   * The table lists every key of the counter exactly once with its count,
   * ranks are 1..V, counts never increase and equal counts keep their
   * insertion order, and the total is the sum of all counts.
   */
  lemma BuildRankFrequencySpec(v: Vocab)
    requires v.Valid() && PositiveCounts(v)
    ensures BuildRankFrequency(v).ranks == Ranks(|v.keys|)
    ensures Distinct(BuildRankFrequency(v).words)
    ensures Elems(BuildRankFrequency(v).words) == v.counts.Keys
    ensures forall i | 0 <= i < |v.keys| :: BuildRankFrequency(v).counts[i] == v.counts[BuildRankFrequency(v).words[i]]
    ensures forall i, j | 0 <= i < j < |v.keys| :: BuildRankFrequency(v).counts[i] >= BuildRankFrequency(v).counts[j]
    ensures forall c: nat :: WithCount(Rows(BuildRankFrequency(v)), c) == WithCount(ItemsOf(v), c)
    ensures SumNat(BuildRankFrequency(v).counts) == SumCounts(v)
  {
    TableColumns(v);
    TableKeys(v);
    TableOrder(v);
  }

  /** The sum of a sequence of reals. */
  function SumReal(s: seq<real>): real {
    if s == [] then 0.0 else s[0] + SumReal(s[1..])
  }

  lemma {:induction false} SumScaled(c: seq<nat>, total: real)
    requires total > 0.0
    ensures SumReal(Scaled(c, total)) == SumNat(c) as real / total
  {
    if c != [] {
      var s := Scaled(c, total);
      SumScaled(c[1..], total);
      assert s[1..] == Scaled(c[1..], total);
      assert SumNat(c) as real == c[0] as real + SumNat(c[1..]) as real;
      DivAdd(c[0] as real, SumNat(c[1..]) as real, total);
    }
  }

  lemma DivAdd(a: real, b: real, total: real)
    requires total > 0.0
    ensures (a + b) / total == a / total + b / total
  {
  }

  lemma DivMonotone(a: real, b: real, total: real)
    requires a >= b && total > 0.0
    ensures a / total >= b / total
  {
    assert a / total - b / total == (a - b) / total;
  }

  /** The probability column divides the counts by the sum of all counts, which is positive. */
  lemma TableTotal(v: Vocab)
    requires v.Valid() && PositiveCounts(v) && v.keys != []
    ensures SumCounts(v) > 0
    ensures BuildRankFrequency(v).probs == Scaled(BuildRankFrequency(v).counts, SumCounts(v) as real)
  {
    var t := BuildRankFrequency(v);
    TableColumns(v);
    TableKeys(v);
    TableOrder(v);
    assert t.words[0] in Elems(t.words);
    assert SumNat(t.counts) >= t.counts[0] > 0;
  }

  lemma ScaledPositive(c: seq<nat>, total: real)
    requires total > 0.0
    requires forall i | 0 <= i < |c| :: c[i] > 0
    ensures forall i | 0 <= i < |c| :: Scaled(c, total)[i] > 0.0
  {
    forall i | 0 <= i < |c|
      ensures Scaled(c, total)[i] > 0.0
    {
      DivPositive(c[i] as real, total);
    }
  }

  lemma ScaledOrder(c: seq<nat>, total: real)
    requires total > 0.0
    requires forall i, j | 0 <= i < j < |c| :: c[i] >= c[j]
    ensures forall i, j | 0 <= i < j < |c| :: Scaled(c, total)[i] >= Scaled(c, total)[j]
  {
    forall i, j | 0 <= i < j < |c|
      ensures Scaled(c, total)[i] >= Scaled(c, total)[j]
    {
      DivMonotone(c[i] as real, c[j] as real, total);
    }
  }

  /** Counts divided by their positive sum add up to 1. */
  lemma ScaledSumOne(c: seq<nat>, total: real)
    requires total == SumNat(c) as real && total > 0.0
    ensures SumReal(Scaled(c, total)) == 1.0
  {
    SumScaled(c, total);
    assert SumReal(Scaled(c, total)) == total / total;
    DivSelf(total);
  }

  lemma DivSelf(x: real)
    requires x > 0.0
    ensures x / x == 1.0
  {
  }

  lemma DivPositive(a: real, total: real)
    requires a > 0.0 && total > 0.0
    ensures a / total > 0.0
  {
  }

  /** Every count in the table is positive. */
  lemma TablePositive(v: Vocab)
    requires v.Valid() && PositiveCounts(v)
    ensures forall i | 0 <= i < |v.keys| :: BuildRankFrequency(v).counts[i] > 0
  {
    var t := BuildRankFrequency(v);
    TableKeys(v);
    forall i | 0 <= i < |v.keys|
      ensures t.counts[i] > 0
    {
      assert t.words[i] in Elems(t.words);
    }
  }

  /**
   * With exact reals the probabilities are `count / total`, positive, they
   * never increase with the rank, and they sum to 1.
   */
  lemma ProbabilitiesSpec(v: Vocab)
    requires v.Valid() && PositiveCounts(v) && v.keys != []
    ensures SumCounts(v) > 0
    ensures forall i | 0 <= i < |v.keys| ::
      BuildRankFrequency(v).probs[i] == BuildRankFrequency(v).counts[i] as real / SumCounts(v) as real
    ensures forall i | 0 <= i < |v.keys| :: BuildRankFrequency(v).probs[i] > 0.0
    ensures forall i, j | 0 <= i < j < |v.keys| :: BuildRankFrequency(v).probs[i] >= BuildRankFrequency(v).probs[j]
    ensures SumReal(BuildRankFrequency(v).probs) == 1.0
  {
    TableTotal(v);
    TablePositive(v);
    TableOrder(v);
    var total := SumCounts(v) as real;
    ScaledPositive(BuildRankFrequency(v).counts, total);
    ScaledOrder(BuildRankFrequency(v).counts, total);
    ScaledSumOne(BuildRankFrequency(v).counts, total);
  }

  // ---------------------------------------------------------------------------
  // The scaling window
  // ---------------------------------------------------------------------------

  /** `(ranks >= rmin) & (ranks <= rmax)`. */
  function Mask(ranks: seq<nat>, rmin: int, rmax: int): (m: seq<bool>)
    ensures |m| == |ranks|
  {
    seq(|ranks|, i requires 0 <= i < |ranks| => rmin <= ranks[i] && ranks[i] <= rmax)
  }

  /** The first rank inside the window: `max(rmin, 1)`. */
  function WindowStart(rmin: int): nat {
    if rmin < 1 then 1 else rmin
  }

  /** The number of ranks `1..V` inside `[rmin, rmax]`: `max(0, min(rmax, V) - max(rmin, 1) + 1)`. */
  function WindowSize(size: nat, rmin: int, rmax: int): (r: nat)
    ensures r <= size
    ensures rmax < rmin ==> r == 0
  {
    var lo := WindowStart(rmin);
    var hi := if rmax < size then rmax else size;
    if hi < lo then 0 else hi - lo + 1
  }

  lemma RanksSnoc(n: nat, rmin: int, rmax: int)
    ensures Ranks(n + 1)[..n] == Ranks(n)
    ensures Mask(Ranks(n + 1), rmin, rmax)[..n] == Mask(Ranks(n), rmin, rmax)
  {
  }

  /** The consecutive ranks `start, start + 1, ..., start + len - 1`. */
  function Interval(start: nat, len: nat): (r: seq<nat>)
    ensures |r| == len
  {
    seq(len, i requires 0 <= i < len => start + i)
  }

  lemma IntervalSnoc(start: nat, len: nat)
    ensures Interval(start, len + 1) == Interval(start, len) + [start + len]
  {
    var a := Interval(start, len + 1);
    var b := Interval(start, len) + [start + len];
    assert forall i | 0 <= i < len + 1 :: a[i] == b[i];
  }

  /**
   * For ranks `1..V` the window selects exactly the consecutive ranks from
   * `max(rmin, 1)` to `min(rmax, V)`.
   */
  lemma {:induction false} WindowOfRanks(size: nat, rmin: int, rmax: int)
    ensures Select(Mask(Ranks(size), rmin, rmax), Ranks(size)) == Interval(WindowStart(rmin), WindowSize(size, rmin, rmax))
    ensures CountTrue(Mask(Ranks(size), rmin, rmax)) == WindowSize(size, rmin, rmax)
  {
    if size > 0 {
      var n := size - 1;
      WindowOfRanks(n, rmin, rmax);
      RanksSnoc(n, rmin, rmax);
      if rmin <= size && size <= rmax {
        assert WindowSize(size, rmin, rmax) == WindowSize(n, rmin, rmax) + 1;
        assert WindowStart(rmin) + WindowSize(n, rmin, rmax) == size;
        IntervalSnoc(WindowStart(rmin), WindowSize(n, rmin, rmax));
      } else {
        assert WindowSize(size, rmin, rmax) == WindowSize(n, rmin, rmax);
      }
    }
  }

  // ---------------------------------------------------------------------------
  // The fit and the model curves
  // ---------------------------------------------------------------------------

  /** The floating-point functions the fit uses, which are not modelled. */
  datatype Numerics = Numerics(
    log10: real -> real,
    pow: (real, real) -> real,
    polyfit: (seq<real>, seq<real>) -> (real, real))

  datatype FitError = TooFewPoints(rmin: int, rmax: int)

  function AsReals(s: seq<nat>): (r: seq<real>)
    ensures |r| == |s|
  {
    seq(|s|, i requires 0 <= i < |s| => s[i] as real)
  }

  /** `np.log10(ranks[mask])` and `np.log10(probs[mask])`. */
  function LogWindow(num: Numerics, ranks: seq<nat>, probs: seq<real>, rmin: int, rmax: int): (xy: (seq<real>, seq<real>))
    requires |ranks| == |probs|
    ensures |xy.0| == CountTrue(Mask(ranks, rmin, rmax)) && |xy.1| == CountTrue(Mask(ranks, rmin, rmax))
  {
    var mask := Mask(ranks, rmin, rmax);
    (Map(num.log10, AsReals(Select(mask, ranks))), Map(num.log10, Select(mask, probs)))
  }

  /**
   * `fit_zipf_exponent`: fails when fewer than five ranks fall in the window,
   * and otherwise fits a line to the logarithms of the windowed points and
   * returns the negated slope and ten to the intercept.
   */
  function FitZipfExponent(num: Numerics, ranks: seq<nat>, probs: seq<real>, rmin: int, rmax: int)
    : (r: Result<(real, real), FitError>)
    requires |ranks| == |probs|
    ensures r.Failure? <==> CountTrue(Mask(ranks, rmin, rmax)) < 5
    ensures r.Failure? ==> r.error == TooFewPoints(rmin, rmax)
  {
    if CountTrue(Mask(ranks, rmin, rmax)) < 5 then Failure(TooFewPoints(rmin, rmax))
    else
      var (x, y) := LogWindow(num, ranks, probs, rmin, rmax);
      var (slope, intercept) := num.polyfit(x, y);
      Success((-slope, num.pow(10.0, intercept)))
  }

  /** On a table of ranks `1..V` the fit fails exactly when the window holds fewer than five ranks. */
  lemma FitOnRanks(num: Numerics, probs: seq<real>, rmin: int, rmax: int)
    ensures FitZipfExponent(num, Ranks(|probs|), probs, rmin, rmax).Failure? <==> WindowSize(|probs|, rmin, rmax) < 5
  {
    WindowOfRanks(|probs|, rmin, rmax);
  }

  /** Two samples that agree at every windowed position give the same windowed points. */
  lemma {:induction false} SelectAgree(m: seq<bool>, s: seq<real>, s': seq<real>)
    requires |m| == |s| == |s'|
    requires forall i | 0 <= i < |m| && m[i] :: s[i] == s'[i]
    ensures Select(m, s) == Select(m, s')
  {
    if m != [] {
      var n := |m| - 1;
      assert forall i | 0 <= i < n && m[..n][i] :: s[..n][i] == s'[..n][i];
      SelectAgree(m[..n], s[..n], s'[..n]);
    }
  }

  /** The fit depends on the probabilities inside the window only. */
  lemma FitIsLocal(num: Numerics, ranks: seq<nat>, probs: seq<real>, probs': seq<real>, rmin: int, rmax: int)
    requires |ranks| == |probs| == |probs'|
    requires forall i | 0 <= i < |ranks| && rmin <= ranks[i] <= rmax :: probs[i] == probs'[i]
    ensures FitZipfExponent(num, ranks, probs, rmin, rmax) == FitZipfExponent(num, ranks, probs', rmin, rmax)
  {
    SelectAgree(Mask(ranks, rmin, rmax), probs, probs');
  }

  /** A model curve: one value per rank, or all NaN when the window is empty. */
  datatype Curve = Curve(values: seq<real>) | NaNCurve(length: nat) {
    function Length(): nat {
      match this
      case Curve(vs) => |vs|
      case NaNCurve(n) => n
    }
  }

  /** `np.mean` of a non-empty sequence: the value whose `|s|` copies sum to the sum of `s`. */
  function Mean(s: seq<real>): (m: real)
    requires s != []
    ensures m * (|s| as real) == SumReal(s)
  {
    SumReal(s) / (|s| as real)
  }

  /** A sum of values within `[lo, hi]` lies within `|s|` times those bounds. */
  lemma {:induction false} SumRealBounds(s: seq<real>, lo: real, hi: real)
    requires forall i | 0 <= i < |s| :: lo <= s[i] <= hi
    ensures lo * (|s| as real) <= SumReal(s) <= hi * (|s| as real)
  {
    if s != [] {
      SumRealBounds(s[1..], lo, hi);
      assert lo * (|s| as real) == lo + lo * (|s[1..]| as real);
      assert hi * (|s| as real) == hi + hi * (|s[1..]| as real);
    }
  }

  /** The mean lies within any bounds of the values. */
  lemma MeanBounds(s: seq<real>, lo: real, hi: real)
    requires s != []
    requires forall i | 0 <= i < |s| :: lo <= s[i] <= hi
    ensures lo <= Mean(s) <= hi
  {
    var n := |s| as real;
    SumRealBounds(s, lo, hi);
    assert Mean(s) * n >= lo * n;
    assert Mean(s) * n <= hi * n;
  }

  /**
   * `model_with_fixed_a`: the intercept is the mean of `y + a * x` over the
   * window, and the curve `C * r ** (-a)` is evaluated at every rank, not only
   * the windowed ones. An empty window makes the mean, and so every value, NaN.
   */
  function ModelWithFixedA(num: Numerics, ranks: seq<nat>, probs: seq<real>, rmin: int, rmax: int, a: real): (c: Curve)
    requires |ranks| == |probs|
    ensures c.Length() == |ranks|
    ensures c.NaNCurve? <==> CountTrue(Mask(ranks, rmin, rmax)) == 0
  {
    var (x, y) := LogWindow(num, ranks, probs, rmin, rmax);
    if |x| == 0 then NaNCurve(|ranks|)
    else
      var b := Mean(seq(|x|, i requires 0 <= i < |x| => y[i] + a * x[i]));
      var scale := num.pow(10.0, b);
      Curve(seq(|ranks|, i requires 0 <= i < |ranks| => scale * num.pow(ranks[i] as real, -a)))
  }

  /** The model curve depends on the probabilities inside the window only. */
  lemma ModelIsLocal(num: Numerics, ranks: seq<nat>, probs: seq<real>, probs': seq<real>, rmin: int, rmax: int, a: real)
    requires |ranks| == |probs| == |probs'|
    requires forall i | 0 <= i < |ranks| && rmin <= ranks[i] <= rmax :: probs[i] == probs'[i]
    ensures ModelWithFixedA(num, ranks, probs, rmin, rmax, a) == ModelWithFixedA(num, ranks, probs', rmin, rmax, a)
  {
    SelectAgree(Mask(ranks, rmin, rmax), probs, probs');
  }

  /** On a table of ranks `1..V` the model curve is NaN exactly when no rank falls in the window. */
  lemma ModelOnRanks(num: Numerics, probs: seq<real>, rmin: int, rmax: int, a: real)
    ensures ModelWithFixedA(num, Ranks(|probs|), probs, rmin, rmax, a).NaNCurve? <==> WindowSize(|probs|, rmin, rmax) == 0
  {
    WindowOfRanks(|probs|, rmin, rmax);
  }
}
