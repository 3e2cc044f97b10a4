/**
 * The Python string built-ins the vocabulary scripts rely on: `str.isspace`,
 * `str.strip`, `str.lower`, `str.isalpha`, `str.find`, `" ".join`,
 * `str.split()` and `re.findall(r"[a-z]+", ...)`.
 */
module PyText {
  import opened Seqs

  /** `c.isspace()`: the characters that `str.split()` and `str.strip()` treat as whitespace. */
  predicate IsSpace(c: char)
    ensures IsSpace(c) ==> !IsLetter(c)
  {
    var n := c as int;
    n == 0x20 || 0x09 <= n <= 0x0D || 0x1C <= n <= 0x1F || n == 0x85 || n == 0xA0 || n == 0x1680
    || 0x2000 <= n <= 0x200A || n == 0x2028 || n == 0x2029 || n == 0x202F || n == 0x205F || n == 0x3000
  }

  predicate NonSpace(c: char) {
    !IsSpace(c)
  }

  predicate AllSpace(s: string) {
    forall i | 0 <= i < |s| :: IsSpace(s[i])
  }

  /** A character of the regular-expression class `[a-z]`. */
  predicate IsAsciiLower(c: char) {
    'a' <= c <= 'z'
  }

  /** A letter; only ASCII letters are modelled. */
  predicate IsLetter(c: char) {
    'a' <= c <= 'z' || 'A' <= c <= 'Z'
  }

  /** `s.isalpha()`: non-empty and made of letters only. */
  predicate IsAlpha(s: string)
    ensures IsAlpha(s) ==> AllOf(s, NonSpace)
  {
    |s| > 0 && forall i | 0 <= i < |s| :: IsLetter(s[i])
  }

  function LowerChar(c: char): char {
    if 'A' <= c <= 'Z' then (c as int + 32) as char else c
  }

  /** `s.lower()` on ASCII: one character for one, so indices into `s` and `Lower(s)` agree. */
  function Lower(s: string): (r: string)
    ensures |r| == |s|
    ensures forall i | 0 <= i < |r| :: !('A' <= r[i] <= 'Z')
    ensures forall i | 0 <= i < |s| && !('A' <= s[i] <= 'Z') :: r[i] == s[i]
  {
    seq(|s|, i requires 0 <= i < |s| => LowerChar(s[i]))
  }

  /** `pat` occurs in `s` starting at index `i`. */
  predicate OccursAt(s: string, pat: string, i: int) {
    0 <= i && i + |pat| <= |s| && s[i..i + |pat|] == pat
  }

  /** `i` is the first index at or after `from` where `pat` occurs. */
  predicate IsFirstAt(s: string, pat: string, from: int, i: int) {
    from <= i && OccursAt(s, pat, i) && forall k | from <= k < i :: !OccursAt(s, pat, k)
  }

  /** `pat` occurs nowhere at or after `from`. */
  predicate NowhereFrom(s: string, pat: string, from: int) {
    forall k | from <= k <= |s| :: !OccursAt(s, pat, k)
  }

  /** `s.find(pat, from)`: the lowest index at or after `from` where `pat` occurs, or -1. */
  function Find(s: string, pat: string, from: nat): (r: int)
    ensures r == -1 <==> NowhereFrom(s, pat, from)
    ensures r != -1 ==> IsFirstAt(s, pat, from, r)
    decreases |s| - from
  {
    if from + |pat| > |s| then -1
    else if s[from..from + |pat|] == pat then
      assert OccursAt(s, pat, from);
      from
    else Find(s, pat, from + 1)
  }

  /** The first occurrence is unique, so `Find` returns it. */
  lemma FindIsFirst(s: string, pat: string, from: nat)
    ensures forall i | IsFirstAt(s, pat, from, i) :: Find(s, pat, from) == i
  {
  }

  /** Lowering commutes with slicing, since it maps one character to one. */
  lemma LowerSlice(s: string, a: nat, b: nat)
    requires a <= b <= |s|
    ensures Lower(s[a..b]) == Lower(s)[a..b]
  {
  }

  /** The length of the leading run of whitespace. */
  function LeadingSpaces(s: string): (n: nat)
    ensures n <= |s|
    ensures forall i | 0 <= i < n :: IsSpace(s[i])
    ensures n < |s| ==> !IsSpace(s[n])
  {
    if s == [] || !IsSpace(s[0]) then 0 else 1 + LeadingSpaces(s[1..])
  }

  /** The index just past the last non-whitespace character (0 if there is none). */
  function TrailingEnd(s: string): (n: nat)
    ensures n <= |s|
    ensures forall i | n <= i < |s| :: IsSpace(s[i])
    ensures n > 0 ==> !IsSpace(s[n - 1])
  {
    if s == [] || !IsSpace(s[|s| - 1]) then |s| else TrailingEnd(s[..|s| - 1])
  }

  /** `s` is `r` surrounded by whitespace only, with `r` starting at index `a`. */
  predicate Margins(s: string, a: int, r: string) {
    0 <= a && a + |r| <= |s| && s[a..a + |r|] == r && AllSpace(s[..a]) && AllSpace(s[a + |r|..])
  }

  /** `s.strip()`. */
  function Strip(s: string): (r: string)
    ensures r == [] <==> AllSpace(s)
    ensures r != [] ==> !IsSpace(r[0]) && !IsSpace(r[|r| - 1])
    ensures |r| <= |s|
  {
    var a := LeadingSpaces(s);
    var b := TrailingEnd(s);
    if a < b then s[a..b] else []
  }

  /** What `strip` removes is whitespace on either side of the result. */
  lemma StripMargins(s: string)
    ensures Margins(s, LeadingSpaces(s), Strip(s))
  {
    var a := LeadingSpaces(s);
    var b := TrailingEnd(s);
    if a < b {
      SpaceSlice(s, 0, a);
      SpaceSlice(s, b, |s|);
      assert s[..a] == s[0..a] && s[b..] == s[b..|s|];
    } else {
      assert a == |s|;
    }
  }

  /** A slice of whitespace characters is all whitespace. */
  lemma SpaceSlice(s: string, a: nat, b: nat)
    requires a <= b <= |s|
    requires forall i | a <= i < b :: IsSpace(s[i])
    ensures AllSpace(s[a..b])
  {
    assert forall i | 0 <= i < b - a :: s[a..b][i] == s[a + i];
  }

  /** Stripping a stripped string changes nothing. */
  lemma StripIdempotent(s: string)
    ensures Strip(Strip(s)) == Strip(s)
  {
    var r := Strip(s);
    if r != [] {
      assert LeadingSpaces(r) == 0;
      assert TrailingEnd(r) == |r|;
    }
  }

  /** `" ".join(ws)`. */
  function Join(ws: seq<string>): (r: string)
    ensures ws != [] ==> |ws[0]| <= |r| && r[..|ws[0]|] == ws[0]
    ensures |r| >= |ws| - 1
  {
    if |ws| == 0 then [] else if |ws| == 1 then ws[0] else ws[0] + [' '] + Join(ws[1..])
  }

  /** The length of the leading run of characters satisfying `p`. */
  function RunLength(s: string, p: char -> bool): (n: nat)
    ensures n <= |s|
    ensures forall i | 0 <= i < n :: p(s[i])
    ensures n < |s| ==> !p(s[n])
  {
    if s == [] || !p(s[0]) then 0 else 1 + RunLength(s[1..], p)
  }

  /** The maximal runs of characters satisfying `p`, in order. */
  function Words(s: string, p: char -> bool): (ws: seq<string>)
    ensures forall k | 0 <= k < |ws| :: ws[k] != [] && forall i | 0 <= i < |ws[k]| :: p(ws[k][i])
    decreases |s|
  {
    if s == [] then []
    else if !p(s[0]) then Words(s[1..], p)
    else
      var n := RunLength(s, p);
      [s[..n]] + Words(s[n..], p)
  }

  /** `s.split()` with no separator: the maximal runs of non-whitespace. */
  function Split(s: string): (r: seq<string>)
    ensures forall k | 0 <= k < |r| :: r[k] != [] && AllOf(r[k], NonSpace)
  {
    Words(s, NonSpace)
  }

  /** `re.findall(r"[a-z]+", s)`: the maximal runs of `a`..`z`. */
  function FindAllLower(s: string): (r: seq<string>)
    ensures forall k | 0 <= k < |r| :: r[k] != [] && AllOf(r[k], IsAsciiLower)
  {
    Words(s, IsAsciiLower)
  }

  /** Every character of `w` satisfies `p`. */
  predicate AllOf(w: string, p: char -> bool) {
    forall i | 0 <= i < |w| :: p(w[i])
  }

  /** `w` is one match of the regular expression `[a-z]+`. */
  predicate IsLowerWord(w: string) {
    w != [] && AllOf(w, IsAsciiLower)
  }

  /** The number of characters of `s` satisfying `p`. */
  function CountOf(s: string, p: char -> bool): nat {
    if s == [] then 0 else (if p(s[0]) then 1 else 0) + CountOf(s[1..], p)
  }

  /** The total length of a sequence of strings. */
  function TotalLength(ws: seq<string>): nat {
    if ws == [] then 0 else |ws[0]| + TotalLength(ws[1..])
  }

  lemma {:induction false} RunLengthOfPrefix(w: string, rest: string, p: char -> bool)
    requires AllOf(w, p)
    requires rest == [] || !p(rest[0])
    ensures RunLength(w + rest, p) == |w|
  {
    if w != [] {
      assert (w + rest)[1..] == w[1..] + rest;
      RunLengthOfPrefix(w[1..], rest, p);
    }
  }

  /**
   * Splitting a joined sequence gives it back, provided every element is a
   * non-empty run of `p`-characters and the separator is not one of them.
   */
  lemma {:induction false} WordsOfJoin(ws: seq<string>, p: char -> bool)
    requires !p(' ')
    requires forall k | 0 <= k < |ws| :: ws[k] != [] && AllOf(ws[k], p)
    ensures Words(Join(ws), p) == ws
  {
    if |ws| == 1 {
      WordsOfWord(ws[0], p);
    } else if |ws| > 1 {
      WordsOfJoin(ws[1..], p);
      WordsCons(ws[0], Join(ws[1..]), p);
      assert ws == [ws[0]] + ws[1..];
    }
  }

  /** A single non-empty run is one word. */
  lemma WordsOfWord(w: string, p: char -> bool)
    requires w != [] && AllOf(w, p)
    ensures Words(w, p) == [w]
  {
    RunLengthOfPrefix(w, [], p);
    assert w + [] == w;
    assert w[..|w|] == w;
    assert w[|w|..] == [];
  }

  /** A run followed by a space and more text is the first word of the whole. */
  lemma WordsCons(w: string, rest: string, p: char -> bool)
    requires !p(' ')
    requires w != [] && AllOf(w, p)
    ensures Words(w + [' '] + rest, p) == [w] + Words(rest, p)
  {
    var s := w + [' '] + rest;
    assert s == w + ([' '] + rest);
    RunLengthOfPrefix(w, [' '] + rest, p);
    assert s[..|w|] == w;
    assert s[|w|..] == [' '] + rest;
    assert s[|w|..][1..] == rest;
  }

  /** `" ".join` followed by `split()` is the identity on non-empty tokens without whitespace. */
  lemma SplitJoin(ws: seq<string>)
    requires forall k | 0 <= k < |ws| :: ws[k] != [] && AllOf(ws[k], NonSpace)
    ensures Split(Join(ws)) == ws
  {
    WordsOfJoin(ws, NonSpace);
  }

  lemma {:induction false} CountOfAppend(a: string, b: string, p: char -> bool)
    ensures CountOf(a + b, p) == CountOf(a, p) + CountOf(b, p)
  {
    if a != [] {
      assert (a + b)[0] == a[0] && (a + b)[1..] == a[1..] + b;
      CountOfAppend(a[1..], b, p);
    } else {
      assert a + b == b;
    }
  }

  lemma {:induction false} CountOfAll(w: string, p: char -> bool)
    requires AllOf(w, p)
    ensures CountOf(w, p) == |w|
  {
    if w != [] {
      CountOfAll(w[1..], p);
    }
  }

  /**
   * The runs cover every `p`-character exactly once: their total length is
   * the number of `p`-characters of the text.
   */
  lemma {:induction false} WordsCoverCharacters(s: string, p: char -> bool)
    ensures TotalLength(Words(s, p)) == CountOf(s, p)
    decreases |s|
  {
    if s != [] {
      if !p(s[0]) {
        WordsCoverCharacters(s[1..], p);
      } else {
        var n := RunLength(s, p);
        assert s == s[..n] + s[n..];
        CountOfAppend(s[..n], s[n..], p);
        CountOfAll(s[..n], p);
        WordsCoverCharacters(s[n..], p);
        assert ([s[..n]] + Words(s[n..], p))[1..] == Words(s[n..], p);
      }
    }
  }

  /** Lowering a text of lower-case letters and spaces changes nothing. */
  lemma LowerOfLowerWords(ws: seq<string>)
    requires forall k | 0 <= k < |ws| :: AllOf(ws[k], IsAsciiLower)
    ensures Lower(Join(ws)) == Join(ws)
  {
    JoinChars(ws);
  }

  lemma {:induction false} JoinChars(ws: seq<string>)
    requires forall k | 0 <= k < |ws| :: AllOf(ws[k], IsAsciiLower)
    ensures forall i | 0 <= i < |Join(ws)| :: Join(ws)[i] == ' ' || IsAsciiLower(Join(ws)[i])
  {
    if |ws| > 1 {
      JoinChars(ws[1..]);
      var w := ws[0];
      var s := w + [' '] + Join(ws[1..]);
      assert forall i | 0 <= i < |s| :: s[i] == (if i < |w| then w[i] else if i == |w| then ' ' else Join(ws[1..])[i - |w| - 1]);
    }
  }

  /**
   * The artifact written by `process_file`, read back with `[a-z]+`, gives
   * the tokens back when they are lower-case ASCII words.
   */
  lemma FindAllOfJoin(ws: seq<string>)
    requires forall k | 0 <= k < |ws| :: IsLowerWord(ws[k])
    ensures FindAllLower(Lower(Join(ws))) == ws
  {
    LowerOfLowerWords(ws);
    WordsOfJoin(ws, IsAsciiLower);
  }
}
