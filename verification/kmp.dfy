/**
  String search in the style of Knuth-Morris-Pratt (KnuthMorrisPratt.java).
  The table built here differs from the textbook failure function: on a
  mismatch the running prefix length drops straight to 0 instead of
  falling back to a shorter border, so an entry is a border length but not
  always the longest one, and the search built on it can miss matches.
 */
module KnuthMorrisPratt {

  /** The first v characters of s[..j] are also its last v characters. */
  ghost predicate IsBorder(s: string, j: nat, v: nat)
    requires j <= |s|
  {
    v <= j && s[..v] == s[j - v..j]
  }

  /** pattern occurs in text starting at index m. */
  ghost predicate OccursAt(text: string, pattern: string, m: nat)
  {
    m + |pattern| <= |text| && text[m..m + |pattern|] == pattern
  }

  /** calcPrefixLen's loop from index i on, with the running prefix length: the entries ar[i + 1 ..]. */
  function PrefixFrom(pattern: string, i: nat, prefixLen: nat): (r: seq<int>)
    requires prefixLen < i <= |pattern|
    ensures |r| == |pattern| - i
    ensures forall j :: 0 <= j < |r| ==> 0 <= r[j] < i + j + 1
    decreases |pattern| - i
  {
    if i == |pattern| then []
    else
      var pl := if pattern[i] == pattern[prefixLen] then prefixLen + 1 else 0;
      [pl] + PrefixFrom(pattern, i + 1, pl)
  }

  /** Starting from a border, the entry the loop writes j steps on is a border of its prefix. */
  lemma {:induction false} PrefixFromBorders(pattern: string, i: nat, prefixLen: nat, j: nat, k: nat)
    requires prefixLen < i <= |pattern| && IsBorder(pattern, i, prefixLen) && j < |pattern| - i && k == i + j + 1
    ensures IsBorder(pattern, k, PrefixFrom(pattern, i, prefixLen)[j])
    decreases j
  {
    var pl := if pattern[i] == pattern[prefixLen] then prefixLen + 1 else 0;
    BorderExtends(pattern, i, prefixLen, pl);
    var v := PrefixFromAt(pattern, i, prefixLen, pl, j);
    if j > 0 {
      PrefixFromBorders(pattern, i + 1, pl, j - 1, k);
    }
  }

  /** The entry j steps on is the one written now, or the next step's entry j - 1. */
  lemma PrefixFromAt(pattern: string, i: nat, prefixLen: nat, pl: nat, j: nat) returns (v: int)
    requires prefixLen < i < |pattern| && j < |pattern| - i
    requires pl == if pattern[i] == pattern[prefixLen] then prefixLen + 1 else 0
    ensures v == PrefixFrom(pattern, i, prefixLen)[j]
    ensures v == if j == 0 then pl else PrefixFrom(pattern, i + 1, pl)[j - 1]
  {
    var r, rest := PrefixFrom(pattern, i, prefixLen), PrefixFrom(pattern, i + 1, pl);
    assert r == [pl] + rest;
    v := r[j];
  }

  /** A border followed by a matching character is a longer border; 0 is always one. */
  lemma BorderExtends(pattern: string, i: nat, prefixLen: nat, pl: nat)
    requires prefixLen < i < |pattern| && IsBorder(pattern, i, prefixLen)
    requires pl == if pattern[i] == pattern[prefixLen] then prefixLen + 1 else 0
    ensures IsBorder(pattern, i + 1, pl)
  {
    if pl > 0 {
      assert pattern[..pl] == pattern[..prefixLen] + [pattern[prefixLen]];
      assert pattern[i + 1 - pl..i + 1] == pattern[i - prefixLen..i] + [pattern[i]];
    }
  }

  /**
    calcPrefixLen(pattern): one entry per prefix length 0 .. |pattern|;
    entry 0 is -1, and every other entry j is a border length of
    pattern[..j] shorter than j.
   */
  function PrefixTable(pattern: string): (r: seq<int>)
    ensures |r| == |pattern| + 1 && r[0] == -1
    ensures |pattern| > 0 ==> r[1] == 0
    ensures forall j :: 1 <= j <= |pattern| ==> 0 <= r[j] < j && IsBorder(pattern, j, r[j])
  {
    if |pattern| == 0 then [-1]
    else
      var rest := PrefixFrom(pattern, 1, 0);
      TableBorders(pattern, rest);
      [-1, 0] + rest
  }

  /** The entries after the first two are the loop's, each a border of its prefix. */
  lemma TableBorders(pattern: string, rest: seq<int>)
    requires |pattern| > 0 && rest == PrefixFrom(pattern, 1, 0)
    ensures forall j :: 1 <= j <= |pattern| ==> 0 <= ([-1, 0] + rest)[j] < j && IsBorder(pattern, j, ([-1, 0] + rest)[j])
  {
    var r := [-1, 0] + rest;
    forall j | 1 <= j <= |pattern|
      ensures 0 <= r[j] < j && IsBorder(pattern, j, r[j])
    {
      if j >= 2 {
        assert r[j] == rest[j - 2];
        PrefixFromBorders(pattern, 1, 0, j - 2, j);
      }
    }
  }

  /** The table's properties that the search relies on. */
  ghost predicate TableOk(pattern: string, table: seq<int>)
  {
    |table| == |pattern| + 1 &&
    forall j :: 1 <= j <= |pattern| ==> EntryOk(pattern, table, j)
  }

  /** Entry j of the table is a border length of pattern[..j] shorter than j. */
  ghost predicate EntryOk(pattern: string, table: seq<int>, j: nat)
    requires j < |table| && j <= |pattern|
  {
    0 <= table[j] < j && IsBorder(pattern, j, table[j])
  }

  /** One more matching character extends a partial match. */
  lemma ExtendMatch(text: string, pattern: string, t: nat, p: nat)
    requires p < |pattern| && p <= t < |text| && text[t - p..t] == pattern[..p]
    requires pattern[p] == text[t]
    ensures text[t - p..t + 1] == pattern[..p + 1]
  {
    assert text[t - p..t + 1] == text[t - p..t] + [text[t]];
    assert pattern[..p + 1] == pattern[..p] + [pattern[p]];
  }

  /** A border of the matched prefix is itself matched at the end of the text read so far. */
  lemma ShiftToBorder(text: string, pattern: string, t: nat, p: nat, q: nat)
    requires p <= |pattern| && p <= t <= |text| && text[t - p..t] == pattern[..p]
    requires q <= p && IsBorder(pattern, p, q)
    ensures text[t - q..t] == pattern[..q]
  {
    assert text[t - q..t] == text[t - p..t][p - q..];
    assert pattern[p - q..p] == pattern[..p][p - q..];
  }

  /** r lists occurrences of pattern in text, in strictly increasing order, none before from. */
  ghost predicate Reported(text: string, pattern: string, r: seq<nat>, from: int)
  {
    (forall k :: 0 <= k < |r| ==> OccursAt(text, pattern, r[k]) && from <= r[k]) &&
    (forall j, k :: 0 <= j < k < |r| ==> r[j] < r[k])
  }

  /** An occurrence reported ahead of later ones keeps the list in order. */
  lemma Prepend(text: string, pattern: string, x: nat, rest: seq<nat>, after: int, from: int)
    requires OccursAt(text, pattern, x) && from <= x < after && Reported(text, pattern, rest, after)
    ensures Reported(text, pattern, [x] + rest, from)
  {
    var r := [x] + rest;
    forall k | 0 <= k < |r|
      ensures OccursAt(text, pattern, r[k]) && from <= r[k]
    {
      if k > 0 {
        assert r[k] == rest[k - 1];
      }
    }
    forall j, k | 0 <= j < k < |r|
      ensures r[j] < r[k]
    {
      assert r[k] == rest[k - 1];
      if j > 0 {
        assert r[j] == rest[j - 1];
      }
    }
  }

  /** A list with nothing before after has nothing before any earlier from. */
  lemma Weaken(text: string, pattern: string, r: seq<nat>, after: int, from: int)
    requires from <= after && Reported(text, pattern, r, after)
    ensures Reported(text, pattern, r, from)
  {
  }

  /** A full match ending at t: an occurrence, and the table's entry is a shorter prefix still matched. */
  lemma Found(text: string, pattern: string, table: seq<int>, t: nat, p: nat, q: int)
    requires TableOk(pattern, table) && p + 1 == |pattern| && p <= t < |text|
    requires text[t - p..t] == pattern[..p] && pattern[p] == text[t] && q == table[|pattern|]
    ensures 0 <= q < |pattern| && q <= t + 1 && text[t + 1 - q..t + 1] == pattern[..q]
    ensures OccursAt(text, pattern, t + 1 - |pattern|)
  {
    ExtendMatch(text, pattern, t, p);
    assert EntryOk(pattern, table, |pattern|);
    ShiftToBorder(text, pattern, t + 1, |pattern|, q);
    assert pattern[..|pattern|] == pattern;
  }

  /** On a mismatch the table's entry is -1 or a shorter prefix still matched. */
  lemma Missed(text: string, pattern: string, table: seq<int>, t: nat, p: nat, q: int)
    requires TableOk(pattern, table) && table[0] == -1 && p < |pattern| && p <= t <= |text|
    requires text[t - p..t] == pattern[..p] && q == table[p]
    ensures q < p && (q < 0 ==> p == 0) && (q >= 0 ==> q <= t && text[t - q..t] == pattern[..q])
  {
    if p > 0 {
      assert EntryOk(pattern, table, p);
      ShiftToBorder(text, pattern, t, p, q);
    }
  }

  /**
    search's loop at text position t with p pattern characters matched.
    Every reported index is an occurrence, the indices strictly increase,
    and each one lies past the start of the current partial match.
   */
  function SearchFrom(text: string, pattern: string, table: seq<int>, t: nat, p: nat): (r: seq<nat>)
    requires TableOk(pattern, table) && table[0] == -1
    requires p < |pattern| && p <= t <= |text|
    requires text[t - p..t] == pattern[..p]
    ensures Reported(text, pattern, r, t - p)
    decreases |text| - t, p
  {
    if t == |text| then []
    else if pattern[p] == text[t] then
      if p + 1 == |pattern| then
        var q := table[|pattern|];
        Found(text, pattern, table, t, p, q);
        var rest := SearchFrom(text, pattern, table, t + 1, q);
        Prepend(text, pattern, t + 1 - |pattern|, rest, t + 1 - q, t - p);
        [t + 1 - |pattern|] + rest
      else
        ExtendMatch(text, pattern, t, p);
        SearchFrom(text, pattern, table, t + 1, p + 1)
    else
      var q := table[p];
      Missed(text, pattern, table, t, p, q);
      if q < 0 then
        var rest := SearchFrom(text, pattern, table, t + 1, 0);
        Weaken(text, pattern, rest, t + 1, t - p);
        rest
      else
        var rest := SearchFrom(text, pattern, table, t, q);
        Weaken(text, pattern, rest, t - q, t - p);
        rest
  }

  /**
    search(text, pattern): the start indices it reports, in strictly
    increasing order, each the start of an occurrence of pattern. The
    first step reads pattern's first character, so pattern must not be
    empty.
   */
  function Search(text: string, pattern: string): (r: seq<nat>)
    requires |pattern| > 0
    ensures forall k :: 0 <= k < |r| ==> OccursAt(text, pattern, r[k])
    ensures forall j, k :: 0 <= j < k < |r| ==> r[j] < r[k]
  {
    SearchFrom(text, pattern, PrefixTable(pattern), 0, 0)
  }

  /** The documented example of calcPrefixLen. */
  lemma TableExample(s: string)
    requires s == "abcxxxabcyyy"
    ensures PrefixTable(s) == [-1, 0, 0, 0, 0, 0, 0, 1, 2, 3, 0, 0, 0]
  {
    TableExampleFrom1(s);
  }

  lemma TableExampleFrom1(s: string)
    requires s == "abcxxxabcyyy"
    ensures PrefixFrom(s, 1, 0) == [0, 0, 0, 0, 0, 1, 2, 3, 0, 0, 0]
  {
    TableExampleFrom3(s);
    assert PrefixFrom(s, 2, 0) == [0, 0, 0, 0, 1, 2, 3, 0, 0, 0];
  }

  lemma TableExampleFrom3(s: string)
    requires s == "abcxxxabcyyy"
    ensures PrefixFrom(s, 3, 0) == [0, 0, 0, 1, 2, 3, 0, 0, 0]
  {
    TableExampleFrom6(s);
    assert PrefixFrom(s, 5, 0) == [0, 1, 2, 3, 0, 0, 0];
    assert PrefixFrom(s, 4, 0) == [0, 0, 1, 2, 3, 0, 0, 0];
  }

  lemma TableExampleFrom6(s: string)
    requires s == "abcxxxabcyyy"
    ensures PrefixFrom(s, 6, 0) == [1, 2, 3, 0, 0, 0]
  {
    TableExampleFrom9(s);
    assert PrefixFrom(s, 8, 2) == [3, 0, 0, 0];
    assert PrefixFrom(s, 7, 1) == [2, 3, 0, 0, 0];
  }

  lemma TableExampleFrom9(s: string)
    requires s == "abcxxxabcyyy"
    ensures PrefixFrom(s, 9, 3) == [0, 0, 0]
  {
    assert PrefixFrom(s, 11, 0) == [0];
    assert PrefixFrom(s, 10, 0) == [0, 0];
  }

  /**
    Entries need not be the longest border: for "abaab" the table ends
    0, 0, although "a" is a border of "abaa" and "ab" one of "abaab".
   */
  lemma NotLongestBorder(s: string)
    requires s == "abaab"
    ensures PrefixTable(s) == [-1, 0, 0, 1, 0, 0]
    ensures IsBorder(s, 4, 1) && IsBorder(s, 5, 2)
  {
    assert PrefixFrom(s, 4, 0) == [0];
    assert PrefixFrom(s, 3, 1) == [0, 0];
    assert PrefixFrom(s, 2, 0) == [1, 0, 0];
    assert PrefixFrom(s, 1, 0) == [0, 1, 0, 0];
    assert s[..1] == s[3..4];
    assert s[..2] == s[3..5];
  }

  /**
    The search is not complete: "abaab" occurs in "abaabaab" at 0 and at
    3, but after the match at 0 the table sends the search back to a
    prefix of length 0 and the second occurrence is lost.
   */
  lemma SearchMissesOverlap(text: string, pattern: string)
    requires text == "abaabaab" && pattern == "abaab"
    ensures OccursAt(text, pattern, 0) && OccursAt(text, pattern, 3)
    ensures Search(text, pattern) == [0]
  {
    NotLongestBorder(pattern);
    var table := PrefixTable(pattern);
    assert text[0..5] == pattern && text[3..8] == pattern;
    assert SearchFrom(text, pattern, table, 8, 2) == [];
    assert SearchFrom(text, pattern, table, 7, 1) == [];
    assert SearchFrom(text, pattern, table, 6, 0) == [];
    assert SearchFrom(text, pattern, table, 5, 0) == [];
    assert SearchFrom(text, pattern, table, 4, 4) == [0];
    assert SearchFrom(text, pattern, table, 3, 3) == [0];
    assert SearchFrom(text, pattern, table, 2, 2) == [0];
    assert SearchFrom(text, pattern, table, 1, 1) == [0];
  }

  /** The table of "abaac": as for "abaab", the entry for "abaa" is 0. */
  lemma AbaacTable(s: string)
    requires s == "abaac"
    ensures PrefixTable(s) == [-1, 0, 0, 1, 0, 0]
  {
    assert PrefixFrom(s, 4, 0) == [0];
    assert PrefixFrom(s, 3, 1) == [0, 0];
    assert PrefixFrom(s, 2, 0) == [1, 0, 0];
    assert PrefixFrom(s, 1, 0) == [0, 1, 0, 0];
  }

  /**
    The misses are not only of overlapping occurrences: "abaac" occurs in
    "abaabaac" once, at 3, and the search reports nothing. The mismatch at
    position 4 falls back to a matched prefix of 0, so the "a" at 3 that
    starts the occurrence is never reconsidered.
   */
  lemma SearchMissesOccurrence(text: string, pattern: string)
    requires text == "abaabaac" && pattern == "abaac"
    ensures OccursAt(text, pattern, 3) && !OccursAt(text, pattern, 0)
    ensures Search(text, pattern) == []
  {
    AbaacTable(pattern);
    var table := PrefixTable(pattern);
    assert text[3..8] == pattern && text[0..5] != pattern by {
      assert text[0..5][4] != pattern[4];
    }
    assert SearchFrom(text, pattern, table, 8, 0) == [];
    assert SearchFrom(text, pattern, table, 7, 0) == [];
    assert SearchFrom(text, pattern, table, 7, 1) == [];
    assert SearchFrom(text, pattern, table, 6, 0) == [];
    assert SearchFrom(text, pattern, table, 6, 1) == [];
    assert SearchFrom(text, pattern, table, 5, 0) == [];
    assert SearchFrom(text, pattern, table, 4, 0) == [];
    assert SearchFrom(text, pattern, table, 4, 4) == [];
    assert SearchFrom(text, pattern, table, 3, 3) == [];
    assert SearchFrom(text, pattern, table, 2, 2) == [];
    assert SearchFrom(text, pattern, table, 1, 1) == [];
  }

  /** From a prefix length of 0, text without the pattern's first character yields no match. */
  lemma {:induction false} NoStartFrom(text: string, pattern: string, table: seq<int>, t: nat)
    requires TableOk(pattern, table) && table[0] == -1 && |pattern| > 0 && t <= |text|
    requires forall k :: t <= k < |text| ==> text[k] != pattern[0]
    ensures SearchFrom(text, pattern, table, t, 0) == []
    decreases |text| - t
  {
    if t < |text| {
      NoStartFrom(text, pattern, table, t + 1);
    }
  }

  /** The class's main method: "abbbc" does not occur in "abbbbbbbbbbbb". */
  lemma Demo(text: string, pattern: string)
    requires text == "abbbbbbbbbbbb" && pattern == "abbbc"
    ensures PrefixTable(pattern) == [-1, 0, 0, 0, 0, 0]
    ensures Search(text, pattern) == []
  {
    assert PrefixFrom(pattern, 3, 0) == [0, 0];
    assert PrefixFrom(pattern, 1, 0) == [0, 0, 0, 0];
    DemoSearch(text, pattern, PrefixTable(pattern));
  }

  lemma DemoSearch(text: string, pattern: string, table: seq<int>)
    requires text == "abbbbbbbbbbbb" && pattern == "abbbc"
    requires table == [-1, 0, 0, 0, 0, 0] && TableOk(pattern, table)
    ensures SearchFrom(text, pattern, table, 0, 0) == []
  {
    NoStartFrom(text, pattern, table, 5);
    assert SearchFrom(text, pattern, table, 4, 0) == [];
    assert SearchFrom(text, pattern, table, 4, 4) == [];
    assert SearchFrom(text, pattern, table, 3, 3) == [];
    assert SearchFrom(text, pattern, table, 2, 2) == [];
    assert SearchFrom(text, pattern, table, 1, 1) == [];
  }
}
