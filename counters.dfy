/**
 * Python's `collections.Counter` as the three scripts use it: a dictionary
 * from token to count that remembers the order in which keys were first
 * inserted, `update` from tokens or from another counter, `del`, `len`,
 * `values()` and `most_common`.
 */
module Counters {
  import opened Seqs

  /** The contents of a counter: its keys in insertion order and the count of each. */
  datatype Vocab = Vocab(keys: seq<string>, counts: map<string, nat>) {
    ghost predicate Valid() {
      Distinct(keys) && (forall w | w in counts :: w in keys) && (forall w | w in keys :: w in counts)
    }
  }

  const Empty: Vocab := Vocab([], map[])

  /** `counter[w]`: a missing key counts 0. */
  function Get(counts: map<string, nat>, w: string): nat {
    if w in counts then counts[w] else 0
  }

  /** `counter[w] = n + counter.get(w, 0)`: a new key goes to the end of the order. */
  function AddOne(v: Vocab, w: string, n: nat): (r: Vocab)
    ensures v.Valid() ==> r.Valid()
  {
    var r := Vocab(if w in v.counts then v.keys else v.keys + [w], v.counts[w := Get(v.counts, w) + n]);
    assert v.Valid() && w !in v.counts ==> forall i | 0 <= i < |v.keys| :: v.keys[i] != w;
    r
  }

  /** `counter.update(tokens)`: each token adds one. */
  function AddAll(v: Vocab, tokens: seq<string>): (r: Vocab)
    ensures v.Valid() ==> r.Valid()
    decreases |tokens|
  {
    if tokens == [] then v
    else AddOne(AddAll(v, tokens[..|tokens| - 1]), tokens[|tokens| - 1], 1)
  }

  /** `Counter(tokens)`. */
  function Tally(tokens: seq<string>): (r: Vocab)
    ensures r.Valid()
    ensures tokens == [] ==> r == Empty
  {
    AddAll(Empty, tokens)
  }

  /** `counter.update(other)` where `other.items()` is `items`. */
  function AddItems(v: Vocab, items: seq<(string, nat)>): (r: Vocab)
    ensures v.Valid() ==> r.Valid()
    decreases |items|
  {
    if items == [] then v
    else
      var last := items[|items| - 1];
      AddOne(AddItems(v, items[..|items| - 1]), last.0, last.1)
  }

  /** The pairs `(k, m[k])` for the keys `ks`, in order. */
  function Pairs(ks: seq<string>, m: map<string, nat>): seq<(string, nat)> {
    seq(|ks|, i requires 0 <= i < |ks| => (ks[i], Get(m, ks[i])))
  }

  /** `counter.items()`. */
  function ItemsOf(v: Vocab): seq<(string, nat)> {
    Pairs(v.keys, v.counts)
  }

  function KeysOf(items: seq<(string, nat)>): seq<string> {
    seq(|items|, i requires 0 <= i < |items| => items[i].0)
  }

  function CountsOf(items: seq<(string, nat)>): seq<nat> {
    seq(|items|, i requires 0 <= i < |items| => items[i].1)
  }

  /** The sum of the counts of the items whose key is `w`. */
  function ItemCount(items: seq<(string, nat)>, w: string): nat
    decreases |items|
  {
    if items == [] then 0
    else
      var last := items[|items| - 1];
      ItemCount(items[..|items| - 1], w) + (if last.0 == w then last.1 else 0)
  }

  function SumNat(s: seq<nat>): nat {
    if s == [] then 0 else s[0] + SumNat(s[1..])
  }

  /** `sum(counter.values())`: no key's count exceeds it. */
  function SumCounts(v: Vocab): (total: nat)
    ensures forall i | 0 <= i < |v.keys| :: Get(v.counts, v.keys[i]) <= total
  {
    SumNatBound(CountsOf(ItemsOf(v)));
    assert forall i | 0 <= i < |v.keys| :: CountsOf(ItemsOf(v))[i] == Get(v.counts, v.keys[i]);
    SumNat(CountsOf(ItemsOf(v)))
  }

  /** Every element of a sequence of naturals is at most its sum. */
  lemma {:induction false} SumNatBound(s: seq<nat>)
    ensures forall j | 0 <= j < |s| :: s[j] <= SumNat(s)
  {
    if s != [] {
      SumNatBound(s[1..]);
      assert forall j | 1 <= j < |s| :: s[j] == s[1..][j - 1];
    }
  }

  /** The counter with the keys in `drop` deleted (`del counter[w]` for each). */
  function Without(v: Vocab, drop: set<string>): (r: Vocab)
    ensures forall w | w in r.counts :: w in v.counts && w !in drop && r.counts[w] == v.counts[w]
    ensures |r.keys| <= |v.keys|
  {
    Vocab(FilterOut(v.keys, drop), v.counts - drop)
  }

  /** Counts never increase along the sequence. */
  predicate NonIncreasing(s: seq<(string, nat)>) {
    forall i, j | 0 <= i < j < |s| :: s[i].1 >= s[j].1
  }

  /** No key occurs twice. */
  predicate DistinctKeys(s: seq<(string, nat)>) {
    forall i, j | 0 <= i < j < |s| :: s[i].0 != s[j].0
  }

  lemma NonIncreasingTail(s: seq<(string, nat)>)
    requires NonIncreasing(s) && s != []
    ensures NonIncreasing(s[1..])
    ensures forall y | y in s[1..] :: y.1 <= s[0].1
  {
    assert forall j | 0 <= j < |s| - 1 :: s[1..][j] == s[j + 1];
  }

  /** Inserts `x` in front of the first entry whose count is not larger. */
  function Insert(x: (string, nat), s: seq<(string, nat)>): (r: seq<(string, nat)>)
    ensures |r| == |s| + 1
  {
    if s == [] then [x]
    else if x.1 >= s[0].1 then [x] + s
    else [s[0]] + Insert(x, s[1..])
  }

  /** Inserting adds exactly the one entry. */
  lemma {:induction false} InsertMultiset(x: (string, nat), s: seq<(string, nat)>)
    ensures multiset(Insert(x, s)) == multiset(s) + multiset{x}
  {
    if s != [] && x.1 < s[0].1 {
      InsertMultiset(x, s[1..]);
      assert s == [s[0]] + s[1..];
    }
  }

  /** Inserting into a sequence ordered by count keeps it ordered. */
  lemma {:induction false} InsertSorted(x: (string, nat), s: seq<(string, nat)>)
    requires NonIncreasing(s)
    ensures NonIncreasing(Insert(x, s))
    ensures Insert(x, s)[0] == x || (s != [] && Insert(x, s)[0] == s[0])
  {
    if s != [] && x.1 < s[0].1 {
      NonIncreasingTail(s);
      InsertSorted(x, s[1..]);
      var rest := Insert(x, s[1..]);
      assert rest[0].1 <= s[0].1 by {
        if rest[0] != x {
          assert rest[0] in s[1..];
        }
      }
      ConsSorted(s[0], rest);
    } else {
      ConsSorted(x, s);
    }
  }

  /** An element no smaller than the head of a non-increasing sequence can go in front of it. */
  lemma ConsSorted(a: (string, nat), s: seq<(string, nat)>)
    requires NonIncreasing(s)
    requires s == [] || a.1 >= s[0].1
    ensures NonIncreasing([a] + s)
  {
    var r := [a] + s;
    assert forall j | 0 < j < |r| :: r[j] == s[j - 1] && a.1 >= s[j - 1].1;
  }

  /**
   * `sorted(items, key=count, reverse=True)`: by count, largest first; an
   * insertion sort that keeps equal counts in their original order.
   */
  function SortByCount(s: seq<(string, nat)>): (r: seq<(string, nat)>)
    ensures |r| == |s|
  {
    if s == [] then [] else Insert(s[0], SortByCount(s[1..]))
  }

  /** The result is ordered by count, largest first, and is a permutation of the input. */
  lemma {:induction false} SortByCountSpec(s: seq<(string, nat)>)
    ensures NonIncreasing(SortByCount(s))
    ensures multiset(SortByCount(s)) == multiset(s)
  {
    if s != [] {
      SortByCountSpec(s[1..]);
      InsertSorted(s[0], SortByCount(s[1..]));
      InsertMultiset(s[0], SortByCount(s[1..]));
      assert s == [s[0]] + s[1..];
    }
  }

  /** Sorting neither invents nor loses entries. */
  lemma SortedMembers(s: seq<(string, nat)>)
    ensures forall y | y in SortByCount(s) :: y in s
    ensures forall y | y in s :: y in SortByCount(s)
  {
    var r := SortByCount(s);
    SortByCountSpec(s);
    forall y | y in r
      ensures y in s
    {
      assert y in multiset(r);
    }
    forall y | y in s
      ensures y in r
    {
      assert y in multiset(s);
    }
  }

  lemma DistinctKeysTail(s: seq<(string, nat)>)
    requires DistinctKeys(s) && s != []
    ensures DistinctKeys(s[1..])
    ensures forall y | y in s[1..] :: y.0 != s[0].0 && y in s
  {
    assert forall j | 0 <= j < |s| - 1 :: s[1..][j] == s[j + 1];
  }

  lemma {:induction false} InsertDistinctKeys(x: (string, nat), s: seq<(string, nat)>)
    requires DistinctKeys(s)
    requires forall y | y in s :: y.0 != x.0
    ensures DistinctKeys(Insert(x, s))
  {
    if s != [] {
      DistinctKeysTail(s);
      if x.1 >= s[0].1 {
        var r := [x] + s;
        assert forall j | 0 < j < |r| :: r[j] == s[j - 1] && s[j - 1] in s;
      } else {
        InsertDistinctKeys(x, s[1..]);
        var rest := Insert(x, s[1..]);
        InsertKeysFrom(x, s[1..], s[0].0);
        var r := [s[0]] + rest;
        assert forall j | 0 < j < |r| :: r[j] == rest[j - 1] && rest[j - 1] in rest;
      }
    }
  }

  /** A key that is neither the inserted one nor in the sequence is not in the result. */
  lemma InsertKeysFrom(x: (string, nat), s: seq<(string, nat)>, k: string)
    requires x.0 != k && forall y | y in s :: y.0 != k
    ensures forall y | y in Insert(x, s) :: y.0 != k
  {
    var r := Insert(x, s);
    InsertMultiset(x, s);
    forall y | y in r
      ensures y.0 != k
    {
      assert y in multiset(r);
      assert y == x || y in multiset(s);
    }
  }

  /** Sorting a sequence with distinct keys keeps them distinct. */
  lemma {:induction false} SortDistinctKeys(s: seq<(string, nat)>)
    requires DistinctKeys(s)
    ensures DistinctKeys(SortByCount(s))
  {
    if s != [] {
      DistinctKeysTail(s);
      SortDistinctKeys(s[1..]);
      SortedMembers(s[1..]);
      InsertDistinctKeys(s[0], SortByCount(s[1..]));
    }
  }

  /** The entries whose count is `c`, in order. */
  function WithCount(s: seq<(string, nat)>, c: nat): seq<(string, nat)> {
    if s == [] then [] else (if s[0].1 == c then [s[0]] else []) + WithCount(s[1..], c)
  }

  /** `counter.most_common(n)`: the first `n` entries of the stable descending order. */
  function MostCommon(items: seq<(string, nat)>, n: nat): (r: seq<(string, nat)>)
    ensures |r| == if n < |items| then n else |items|
  {
    SortByCount(items)[..if n < |items| then n else |items|]
  }

  /** The rows `(rank, word, count)` written for `enumerate(counter.most_common(n), start=1)`. */
  function RankedTop(items: seq<(string, nat)>, n: nat): (rows: seq<(nat, string, nat)>)
    ensures |rows| == (if n < |items| then n else |items|)
  {
    var top := MostCommon(items, n);
    seq(|top|, i requires 0 <= i < |top| => (i + 1, top[i].0, top[i].1))
  }

  /** The ranked rows are numbered from 1, come from the items, and their counts never increase. */
  lemma RankedTopSpec(items: seq<(string, nat)>, n: nat)
    ensures forall i | 0 <= i < |RankedTop(items, n)| ::
      RankedTop(items, n)[i].0 == i + 1 && (RankedTop(items, n)[i].1, RankedTop(items, n)[i].2) in items
    ensures forall i, j | 0 <= i < j < |RankedTop(items, n)| :: RankedTop(items, n)[i].2 >= RankedTop(items, n)[j].2
  {
    var sorted := SortByCount(items);
    var rows := RankedTop(items, n);
    SortedMembers(items);
    SortByCountSpec(items);
    forall i | 0 <= i < |rows|
      ensures rows[i].0 == i + 1 && (rows[i].1, rows[i].2) in items
    {
      assert (rows[i].1, rows[i].2) == sorted[i];
      assert sorted[i] in sorted;
    }
    forall i, j | 0 <= i < j < |rows|
      ensures rows[i].2 >= rows[j].2
    {
      assert rows[i].2 == sorted[i].1 && rows[j].2 == sorted[j].1;
    }
  }

  /** The words of ranked rows `(rank, word, count)`. */
  function RowWords(rows: seq<(nat, string, nat)>): (ws: seq<string>)
    ensures |ws| == |rows|
  {
    seq(|rows|, i requires 0 <= i < |rows| => rows[i].1)
  }

  /**
   * The top rows of a counter name distinct words, and no word left out is
   * counted more often than a word listed.
   */
  lemma RankedTopOfCounter(v: Vocab, n: nat)
    requires v.Valid()
    ensures Distinct(RowWords(RankedTop(ItemsOf(v), n)))
    ensures forall i, y | 0 <= i < |RankedTop(ItemsOf(v), n)| && y in v.counts && y !in RowWords(RankedTop(ItemsOf(v), n)) ::
      RankedTop(ItemsOf(v), n)[i].2 >= v.counts[y]
  {
    var sorted := SortByCount(ItemsOf(v));
    var rows := RankedTop(ItemsOf(v), n);
    var ws := RowWords(rows);
    SortedItemsKeys(v);
    SortByCountSpec(ItemsOf(v));
    assert forall i | 0 <= i < |rows| :: ws[i] == sorted[i].0 && rows[i].2 == sorted[i].1;
    forall i, y | 0 <= i < |rows| && y in v.counts && y !in ws
      ensures rows[i].2 >= v.counts[y]
    {
      assert (y, v.counts[y]) in sorted;
      var j :| 0 <= j < |sorted| && sorted[j] == (y, v.counts[y]);
      assert forall m | 0 <= m < |rows| :: ws[m] in ws && sorted[m].0 != y;
    }
  }


  // ---------------------------------------------------------------------------
  // Counting
  // ---------------------------------------------------------------------------

  /** Two valid counters with the same key order and the same counts are equal. */
  lemma VocabEq(a: Vocab, b: Vocab)
    requires a.Valid() && b.Valid() && a.keys == b.keys
    requires forall w :: Get(a.counts, w) == Get(b.counts, w)
    ensures a == b
  {
    assert forall w | w in a.counts :: w in b.counts && a.counts[w] == Get(a.counts, w) == b.counts[w];
    assert a.counts == b.counts;
  }

  /** Adding `n` under `w` raises the count of `w` by `n` and no other count. */
  lemma AddOneCounts(v: Vocab, w: string, n: nat)
    ensures forall u :: Get(AddOne(v, w, n).counts, u) == Get(v.counts, u) + (if u == w then n else 0)
  {
  }

  /** The effect of one increment on a valid counter. */
  lemma AddOneSpec(v: Vocab, w: string, n: nat)
    requires v.Valid()
    ensures AddOne(v, w, n).keys == if w in v.keys then v.keys else v.keys + [w]
    ensures forall u :: Get(AddOne(v, w, n).counts, u) == Get(v.counts, u) + (if u == w then n else 0)
  {
  }

  lemma AddAllSnoc(v: Vocab, p: seq<string>, x: string)
    ensures AddAll(v, p + [x]) == AddOne(AddAll(v, p), x, 1)
  {
    assert (p + [x])[..|p|] == p;
  }

  lemma AddItemsSnoc(v: Vocab, p: seq<(string, nat)>, x: (string, nat))
    ensures AddItems(v, p + [x]) == AddOne(AddItems(v, p), x.0, x.1)
  {
    assert (p + [x])[..|p|] == p;
  }

  /** `update(tokens)` keeps the counter valid and appends new keys in the order of their first occurrence. */
  lemma {:induction false} AddAllKeys(v: Vocab, t: seq<string>)
    requires v.Valid()
    ensures AddAll(v, t).Valid()
    ensures AddAll(v, t).keys == FirstSeen(v.keys + t)
    decreases |t|
  {
    if t == [] {
      FirstSeenOfDistinct(v.keys);
      assert v.keys + t == v.keys;
    } else {
      var p := t[..|t| - 1];
      var x := t[|t| - 1];
      AddAllKeys(v, p);
      assert t == p + [x];
      AddAllKeysStep(v, p, x);
    }
  }

  lemma AddAllKeysStep(v: Vocab, p: seq<string>, x: string)
    requires AddAll(v, p).Valid() && AddAll(v, p).keys == FirstSeen(v.keys + p)
    ensures AddAll(v, p + [x]).Valid()
    ensures AddAll(v, p + [x]).keys == FirstSeen(v.keys + (p + [x]))
  {
    AddAllSnoc(v, p, x);
    assert v.keys + (p + [x]) == (v.keys + p) + [x];
    AddOneKeys(AddAll(v, p), v.keys + p, x, 1);
  }

  /** One increment extends the first occurrences by its key. */
  lemma AddOneKeys(u: Vocab, s: seq<string>, x: string, n: nat)
    requires u.Valid() && u.keys == FirstSeen(s)
    ensures AddOne(u, x, n).keys == FirstSeen(s + [x])
  {
    AddOneSpec(u, x, n);
    FirstSeenSnoc(s, x);
  }

  /** `update(tokens)` adds to each key its number of occurrences. */
  lemma {:induction false} AddAllCounts(v: Vocab, t: seq<string>)
    ensures forall w :: Get(AddAll(v, t).counts, w) == Get(v.counts, w) + multiset(t)[w]
    decreases |t|
  {
    if t != [] {
      var p := t[..|t| - 1];
      var x := t[|t| - 1];
      AddAllCounts(v, p);
      assert t == p + [x];
      AddAllCountsStep(v, p, x);
    }
  }

  lemma AddAllCountsStep(v: Vocab, p: seq<string>, x: string)
    requires forall w :: Get(AddAll(v, p).counts, w) == Get(v.counts, w) + multiset(p)[w]
    ensures forall w :: Get(AddAll(v, p + [x]).counts, w) == Get(v.counts, w) + multiset(p + [x])[w]
  {
    AddAllSnoc(v, p, x);
    AddOneCounts(AddAll(v, p), x, 1);
    assert multiset(p + [x]) == multiset(p) + multiset{x};
  }

  /**
   * `update(tokens)` keeps the counter valid, appends new keys in the order of
   * their first occurrence and adds to each key its number of occurrences.
   */
  lemma AddAllSpec(v: Vocab, t: seq<string>)
    requires v.Valid()
    ensures AddAll(v, t).Valid()
    ensures AddAll(v, t).keys == FirstSeen(v.keys + t)
    ensures forall w :: Get(AddAll(v, t).counts, w) == Get(v.counts, w) + multiset(t)[w]
  {
    AddAllKeys(v, t);
    AddAllCounts(v, t);
  }

  /** Tokens given in two parts are counted as if given at once. */
  lemma {:induction false} AddAllConcat(v: Vocab, a: seq<string>, b: seq<string>)
    ensures AddAll(AddAll(v, a), b) == AddAll(v, a + b)
    decreases |b|
  {
    if b == [] {
      assert a + b == a;
    } else {
      var p := b[..|b| - 1];
      var x := b[|b| - 1];
      assert b == p + [x];
      AddAllConcat(v, a, p);
      AddAllSnoc(AddAll(v, a), p, x);
      assert a + b == (a + p) + [x];
      AddAllSnoc(v, a + p, x);
    }
  }

  lemma {:induction false} AddItemsKeys(v: Vocab, items: seq<(string, nat)>)
    requires v.Valid()
    ensures AddItems(v, items).Valid()
    ensures AddItems(v, items).keys == FirstSeen(v.keys + KeysOf(items))
    decreases |items|
  {
    if items == [] {
      FirstSeenOfDistinct(v.keys);
      assert v.keys + KeysOf(items) == v.keys;
    } else {
      var p := items[..|items| - 1];
      var x := items[|items| - 1];
      AddItemsKeys(v, p);
      assert items == p + [x];
      AddItemsKeysStep(v, p, x);
    }
  }

  lemma AddItemsKeysStep(v: Vocab, p: seq<(string, nat)>, x: (string, nat))
    requires AddItems(v, p).Valid() && AddItems(v, p).keys == FirstSeen(v.keys + KeysOf(p))
    ensures AddItems(v, p + [x]).Valid()
    ensures AddItems(v, p + [x]).keys == FirstSeen(v.keys + KeysOf(p + [x]))
  {
    AddItemsSnoc(v, p, x);
    assert KeysOf(p + [x]) == KeysOf(p) + [x.0];
    assert v.keys + KeysOf(p + [x]) == (v.keys + KeysOf(p)) + [x.0];
    AddOneKeys(AddItems(v, p), v.keys + KeysOf(p), x.0, x.1);
  }

  lemma {:induction false} AddItemsCounts(v: Vocab, items: seq<(string, nat)>)
    ensures forall w :: Get(AddItems(v, items).counts, w) == Get(v.counts, w) + ItemCount(items, w)
    decreases |items|
  {
    if items != [] {
      var p := items[..|items| - 1];
      var x := items[|items| - 1];
      AddItemsCounts(v, p);
      assert items == p + [x];
      AddItemsCountsStep(v, p, x);
    }
  }

  lemma AddItemsCountsStep(v: Vocab, p: seq<(string, nat)>, x: (string, nat))
    requires forall w :: Get(AddItems(v, p).counts, w) == Get(v.counts, w) + ItemCount(p, w)
    ensures forall w :: Get(AddItems(v, p + [x]).counts, w) == Get(v.counts, w) + ItemCount(p + [x], w)
  {
    AddItemsSnoc(v, p, x);
    AddOneCounts(AddItems(v, p), x.0, x.1);
    assert (p + [x])[..|p|] == p;
  }

  /** `update(other)` appends the new keys of `other` in its order and adds its counts. */
  lemma AddItemsSpec(v: Vocab, items: seq<(string, nat)>)
    requires v.Valid()
    ensures AddItems(v, items).Valid()
    ensures AddItems(v, items).keys == FirstSeen(v.keys + KeysOf(items))
    ensures forall w :: Get(AddItems(v, items).counts, w) == Get(v.counts, w) + ItemCount(items, w)
  {
    AddItemsKeys(v, items);
    AddItemsCounts(v, items);
  }

  /** Summing the items of a set of distinct keys gives each key's count. */
  lemma {:induction false} ItemCountOfPairs(ks: seq<string>, m: map<string, nat>, w: string)
    requires Distinct(ks)
    ensures ItemCount(Pairs(ks, m), w) == if w in ks then Get(m, w) else 0
    decreases |ks|
  {
    if ks != [] {
      var p := ks[..|ks| - 1];
      DistinctParts(ks);
      assert Pairs(ks, m)[..|ks| - 1] == Pairs(p, m);
      ItemCountOfPairs(p, m, w);
      assert ks == p + [ks[|ks| - 1]];
    }
  }

  lemma MergeTallyKeys(v: Vocab, t: seq<string>)
    requires v.Valid()
    ensures AddItems(v, ItemsOf(Tally(t))).keys == AddAll(v, t).keys
  {
    var tt := Tally(t);
    AddAllKeys(Empty, t);
    assert [] + t == t;
    assert KeysOf(ItemsOf(tt)) == tt.keys;
    AddItemsKeys(v, ItemsOf(tt));
    AddAllKeys(v, t);
    FirstSeenAbsorb(v.keys, t);
  }

  lemma MergeTallyCount(v: Vocab, t: seq<string>, w: string)
    requires v.Valid()
    ensures Get(AddItems(v, ItemsOf(Tally(t))).counts, w) == Get(AddAll(v, t).counts, w)
  {
    var tt := Tally(t);
    AddAllKeys(Empty, t);
    AddAllCounts(Empty, t);
    AddItemsCounts(v, ItemsOf(tt));
    AddAllCounts(v, t);
    ItemCountOfPairs(tt.keys, tt.counts, w);
    assert (w in tt.keys) == (w in tt.counts);
  }

  /**
   * Merging per-document counters is summation: `update(Counter(tokens))`
   * has the same effect as `update(tokens)`.
   */
  lemma MergeTally(v: Vocab, t: seq<string>)
    requires v.Valid()
    ensures AddItems(v, ItemsOf(Tally(t))) == AddAll(v, t)
  {
    var merged := AddItems(v, ItemsOf(Tally(t)));
    var direct := AddAll(v, t);
    AddAllKeys(Empty, t);
    AddItemsKeys(v, ItemsOf(Tally(t)));
    AddAllKeys(v, t);
    MergeTallyKeys(v, t);
    forall w
      ensures Get(merged.counts, w) == Get(direct.counts, w)
    {
      MergeTallyCount(v, t, w);
    }
    VocabEq(merged, direct);
  }

  lemma {:induction false} SumNatAppend(s: seq<nat>, n: nat)
    ensures SumNat(s + [n]) == SumNat(s) + n
  {
    if s != [] {
      assert (s + [n])[1..] == s[1..] + [n];
      SumNatAppend(s[1..], n);
    }
  }

  lemma {:induction false} SumNatBump(s: seq<nat>, j: nat, n: nat)
    requires j < |s|
    ensures SumNat(s[j := s[j] + n]) == SumNat(s) + n
  {
    if j > 0 {
      assert s[j := s[j] + n][1..] == s[1..][j - 1 := s[1..][j - 1] + n];
      SumNatBump(s[1..], j - 1, n);
    }
  }

  /** Adding `n` to one key adds `n` to the sum of the counts. */
  lemma SumCountsAddOne(v: Vocab, w: string, n: nat)
    requires v.Valid()
    ensures SumCounts(AddOne(v, w, n)) == SumCounts(v) + n
  {
    var r := AddOne(v, w, n);
    var old_ := CountsOf(ItemsOf(v));
    var new_ := CountsOf(ItemsOf(r));
    if w in v.counts {
      var j :| 0 <= j < |v.keys| && v.keys[j] == w;
      assert new_ == old_[j := old_[j] + n];
      SumNatBump(old_, j, n);
    } else {
      assert new_ == old_ + [n];
      SumNatAppend(old_, n);
    }
  }

  /**
   * `Counter(tokens)`: its keys are the distinct tokens, in order of first
   * occurrence; `len` is their number, at most `len(tokens)`; every count is
   * positive and the counts sum to `len(tokens)`.
   */
  lemma TallySpec(t: seq<string>)
    ensures Tally(t).Valid()
    ensures Tally(t).keys == FirstSeen(t)
    ensures forall w :: Get(Tally(t).counts, w) == multiset(t)[w]
    ensures forall w | w in Tally(t).counts :: Tally(t).counts[w] > 0
    ensures |Tally(t).keys| == |Elems(t)| <= |t|
    ensures SumCounts(Tally(t)) == |t|
  {
    TallyKeys(t);
    TallyCounts(t);
    TallySum(t);
  }

  lemma TallyKeys(t: seq<string>)
    ensures Tally(t).Valid()
    ensures Tally(t).keys == FirstSeen(t)
    ensures |Tally(t).keys| == |Elems(t)|
  {
    AddAllKeys(Empty, t);
    assert Empty.keys + t == t;
    var ks := Tally(t).keys;
    DistinctCard(ks);
    assert Elems(ks) == Elems(t);
  }

  lemma TallyCounts(t: seq<string>)
    ensures forall w :: Get(Tally(t).counts, w) == multiset(t)[w]
    ensures forall w | w in Tally(t).counts :: Tally(t).counts[w] > 0
  {
    AddAllCounts(Empty, t);
    TallyKeys(t);
    assert forall w | w in Tally(t).counts :: w in Tally(t).keys && w in t && multiset(t)[w] > 0;
  }

  lemma {:induction false} TallySum(t: seq<string>)
    ensures SumCounts(Tally(t)) == |t|
    decreases |t|
  {
    if t != [] {
      var p := t[..|t| - 1];
      TallySum(p);
      AddAllKeys(Empty, p);
      SumCountsAddOne(Tally(p), t[|t| - 1], 1);
    }
  }

  /** Deleting keys keeps the counter valid and leaves the surviving counts alone. */
  lemma WithoutSpec(v: Vocab, drop: set<string>)
    requires v.Valid()
    ensures Without(v, drop).Valid()
    ensures Without(v, drop).counts.Keys == v.counts.Keys - drop
    ensures forall w | w in Without(v, drop).counts :: Without(v, drop).counts[w] == v.counts[w]
    ensures |Without(v, drop).keys| == |v.keys| - |Elems(v.keys) * drop|
    ensures IsSubsequence(Without(v, drop).keys, v.keys)
  {
    WithoutValid(v, drop);
    FilterOutSize(v.keys, drop);
    FilterOutIsSubsequence(v.keys, drop);
  }

  lemma WithoutValid(v: Vocab, drop: set<string>)
    requires v.Valid()
    ensures Without(v, drop).Valid()
  {
    FilterOutDistinct(v.keys, drop);
  }

  /** Deleting nothing changes nothing. */
  lemma WithoutNothing(v: Vocab)
    ensures Without(v, {}) == v
  {
    FilterOutNone(v.keys, {});
    assert v.counts - {} == v.counts;
  }

  /** Two deletions in a row are one deletion of both sets. */
  lemma WithoutTwice(v: Vocab, a: set<string>, b: set<string>)
    ensures Without(Without(v, a), b) == Without(v, a + b)
  {
    FilterOutTwice(v.keys, a, b);
    assert (v.counts - a) - b == v.counts - (a + b);
  }

  // ---------------------------------------------------------------------------
  // most_common
  // ---------------------------------------------------------------------------

  lemma {:induction false} InsertWithCount(x: (string, nat), s: seq<(string, nat)>, c: nat)
    ensures WithCount(Insert(x, s), c) == (if x.1 == c then [x] else []) + WithCount(s, c)
  {
    if s == [] {
      assert Insert(x, s) == [x];
      assert [x][1..] == [];
    } else if x.1 >= s[0].1 {
      assert Insert(x, s) == [x] + s;
      assert ([x] + s)[1..] == s;
    } else {
      var rest := Insert(x, s[1..]);
      assert Insert(x, s) == [s[0]] + rest;
      assert ([s[0]] + rest)[1..] == rest;
      InsertWithCount(x, s[1..], c);
      var h0 := if s[0].1 == c then [s[0]] else [];
      var hx := if x.1 == c then [x] else [];
      assert WithCount(Insert(x, s), c) == h0 + (hx + WithCount(s[1..], c));
      assert WithCount(s, c) == h0 + WithCount(s[1..], c);
      assert h0 == [] || hx == [];
    }
  }

  /**
   * The order is stable: the entries of any one count appear in the sorted
   * sequence in the same order as in the input.
   */
  lemma {:induction false} SortByCountStable(s: seq<(string, nat)>, c: nat)
    ensures WithCount(SortByCount(s), c) == WithCount(s, c)
  {
    if s != [] {
      SortByCountStable(s[1..], c);
      InsertWithCount(s[0], SortByCount(s[1..]), c);
    }
  }

  /** Distinct keys make a duplicate-free key column. */
  lemma KeysOfDistinct(s: seq<(string, nat)>)
    requires DistinctKeys(s)
    ensures Distinct(KeysOf(s))
  {
  }

  lemma CountsOfCons(x: (string, nat), s: seq<(string, nat)>)
    ensures CountsOf([x] + s) == [x.1] + CountsOf(s)
    ensures s != [] ==> CountsOf(s)[1..] == CountsOf(s[1..])
  {
  }

  lemma {:induction false} InsertSum(x: (string, nat), s: seq<(string, nat)>)
    ensures SumNat(CountsOf(Insert(x, s))) == x.1 + SumNat(CountsOf(s))
  {
    if s == [] {
      assert CountsOf([x]) == [x.1];
    } else if x.1 >= s[0].1 {
      CountsOfCons(x, s);
      assert ([x.1] + CountsOf(s))[1..] == CountsOf(s);
    } else {
      var rest := Insert(x, s[1..]);
      InsertSum(x, s[1..]);
      CountsOfCons(s[0], rest);
      CountsOfCons(s[0], s[1..]);
      assert [s[0]] + s[1..] == s;
      assert ([s[0].1] + CountsOf(rest))[1..] == CountsOf(rest);
    }
  }

  /** Sorting keeps the total of the counts. */
  lemma {:induction false} SortByCountSum(s: seq<(string, nat)>)
    ensures SumNat(CountsOf(SortByCount(s))) == SumNat(CountsOf(s))
  {
    if s != [] {
      SortByCountSum(s[1..]);
      InsertSum(s[0], SortByCount(s[1..]));
      CountsOfCons(s[0], s[1..]);
      assert [s[0]] + s[1..] == s;
    }
  }

  /** The items of a valid counter: one entry per key, carrying its count. */
  lemma ItemsOfSpec(v: Vocab)
    requires v.Valid()
    ensures DistinctKeys(ItemsOf(v))
    ensures forall y | y in ItemsOf(v) :: y.0 in v.counts && y.1 == v.counts[y.0]
    ensures forall w | w in v.counts :: (w, v.counts[w]) in ItemsOf(v)
  {
    var items := ItemsOf(v);
    forall y | y in items
      ensures y.0 in v.counts && y.1 == v.counts[y.0]
    {
      var i :| 0 <= i < |items| && items[i] == y;
      assert v.keys[i] in v.keys;
    }
    forall w | w in v.counts
      ensures (w, v.counts[w]) in items
    {
      var i :| 0 <= i < |v.keys| && v.keys[i] == w;
      assert items[i] == (w, v.counts[w]);
    }
  }

  /** The sorted items of a counter hold each key once, with its count. */
  lemma SortedItemsKeys(v: Vocab)
    requires v.Valid()
    ensures DistinctKeys(SortByCount(ItemsOf(v)))
    ensures forall y | y in SortByCount(ItemsOf(v)) :: y.0 in v.counts && y.1 == v.counts[y.0]
    ensures forall w | w in v.counts :: (w, v.counts[w]) in SortByCount(ItemsOf(v))
  {
    ItemsOfSpec(v);
    SortDistinctKeys(ItemsOf(v));
    SortedMembers(ItemsOf(v));
  }

  /** A valid counter has as many keys in its list as in its map. */
  lemma ValidLen(v: Vocab)
    ensures v.Valid() ==> |v.keys| == |v.counts.Keys|
  {
    if v.Valid() {
      DistinctCard(v.keys);
      assert Elems(v.keys) == v.counts.Keys;
    }
  }

  /** `ItemsOfSpec` for a counter value that may or may not be valid. */
  lemma ValidItems(v: Vocab)
    ensures v.Valid() ==> DistinctKeys(ItemsOf(v))
    ensures v.Valid() ==> forall i | 0 <= i < |ItemsOf(v)| :: ItemsOf(v)[i].0 in v.counts && ItemsOf(v)[i].1 == v.counts[ItemsOf(v)[i].0]
    ensures v.Valid() ==> forall w | w in v.counts :: (w, v.counts[w]) in ItemsOf(v)
  {
    if v.Valid() {
      ItemsOfSpec(v);
    }
  }

  // ---------------------------------------------------------------------------
  // The mutable counter
  // ---------------------------------------------------------------------------

  class Counter {
    var keys: seq<string>
    var counts: map<string, nat>

    function Value(): Vocab
      reads this
    {
      Vocab(keys, counts)
    }

    ghost predicate Valid()
      reads this
    {
      Value().Valid()
    }

    /** `Counter()`. */
    constructor ()
      ensures Valid() && Value() == Empty
    {
      keys := [];
      counts := map[];
    }

    /** `len(counter)`: the number of keys. */
    function Len(): (n: nat)
      reads this
      ensures Valid() ==> n == |counts.Keys|
    {
      ValidLen(Value());
      |keys|
    }

    /** `counter.items()`: every key once, with its own count. */
    function Items(): (items: seq<(string, nat)>)
      reads this
      ensures |items| == Len()
      ensures Valid() ==> DistinctKeys(items)
      ensures Valid() ==> forall i | 0 <= i < |items| :: items[i].0 in counts && items[i].1 == counts[items[i].0]
      ensures Valid() ==> forall w | w in counts :: (w, counts[w]) in items
    {
      ValidItems(Value());
      ItemsOf(Value())
    }

    /** `self[w] = n + self.get(w, 0)`. */
    method Add(w: string, n: nat)
      requires Valid()
      modifies this
      ensures Valid() && Value() == AddOne(old(Value()), w, n)
    {
      if w !in counts {
        keys := keys + [w];
      }
      counts := counts[w := Get(counts, w) + n];
    }

    /** `self.update(tokens)`. */
    method Update(tokens: seq<string>)
      requires Valid()
      modifies this
      ensures Valid() && Value() == AddAll(old(Value()), tokens)
    {
      var i := 0;
      while i < |tokens|
        invariant 0 <= i <= |tokens|
        invariant Valid() && Value() == AddAll(old(Value()), tokens[..i])
      {
        assert tokens[..i + 1][..i] == tokens[..i];
        Add(tokens[i], 1);
        i := i + 1;
      }
      assert tokens[..|tokens|] == tokens;
    }

    /** `self.update(other)` for another counter. */
    method UpdateFrom(other: Counter)
      requires Valid() && other != this
      modifies this
      ensures Valid() && Value() == AddItems(old(Value()), old(other.Items()))
      ensures other.Items() == old(other.Items())
    {
      var items := other.Items();
      var i := 0;
      while i < |items|
        invariant 0 <= i <= |items|
        invariant Valid() && Value() == AddItems(old(Value()), items[..i])
      {
        assert items[..i + 1][..i] == items[..i];
        Add(items[i].0, items[i].1);
        i := i + 1;
      }
      assert items[..|items|] == items;
    }

    /** `del self[w]`; like `Counter.__delitem__`, a missing key is ignored. */
    method Delete(w: string)
      requires Valid()
      modifies this
      ensures Valid() && Value() == Without(old(Value()), {w})
    {
      WithoutValid(Value(), {w});
      if w in counts {
        keys := FilterOut(keys, {w});
        counts := counts - {w};
      } else {
        FilterOutNone(keys, {w});
        assert counts - {w} == counts;
      }
    }
  }
}
