/** The word-frequency tokenizer: it scans a text line by line with the
    index builder's separator and lower-casing rules, counts each token
    in a frequency map together with token and character totals, and
    ranks the terms by descending frequency. */
module Tokenizer {
  import opened Codec
  import opened Sequences
  import opened Text
  import opened Sorting

  // ---------------------------------------------------------------------
  // Sums over the frequency map

  /** f summed over a map's entries; the order does not matter (see
      SumRemove). */
  ghost function Sum(m: map<seq<byte>, int>, f: (seq<byte>, int) -> int): int
    decreases |m|
  {
    if m == map[] then 0
    else
      var k :| k in m;
      f(k, m[k]) + Sum(m - {k}, f)
  }

  /** Any entry can be taken out of the sum first. */
  lemma {:induction false} SumRemove(m: map<seq<byte>, int>, f: (seq<byte>, int) -> int, k: seq<byte>)
    requires k in m
    ensures Sum(m, f) == f(k, m[k]) + Sum(m - {k}, f)
    decreases |m|
  {
    var j :| j in m && Sum(m, f) == f(j, m[j]) + Sum(m - {j}, f);
    if j != k {
      SumRemove(m - {j}, f, k);
      SumRemove(m - {k}, f, j);
      assert m - {j} - {k} == m - {k} - {j};
    }
  }

  /** Setting one entry changes the sum by that entry's change. */
  lemma SumUpdate(m: map<seq<byte>, int>, f: (seq<byte>, int) -> int, k: seq<byte>, v: int)
    ensures Sum(m[k := v], f) == Sum(m, f) - (if k in m then f(k, m[k]) else 0) + f(k, v)
  {
    var m' := m[k := v];
    SumRemove(m', f, k);
    assert m' - {k} == m - {k};
    if k in m {
      SumRemove(m, f, k);
    } else {
      assert m - {k} == m;
    }
  }

  /** A term's count, as `total_tokens` adds it up. */
  function Occurrences(t: seq<byte>, n: int): int
  {
    n
  }

  /** A term's characters over all its occurrences, as `total_length`
      adds them up. */
  function Characters(t: seq<byte>, n: int): int
  {
    n * |t|
  }

  /** One more occurrence adds the term's length. */
  lemma CharactersStep(t: seq<byte>, n: int)
    ensures Characters(t, n + 1) == Characters(t, n) + |t|
  {
  }

  // ---------------------------------------------------------------------
  // Counting

  /** `stats.frequency[token]++` */
  function Bump(m: map<seq<byte>, int>, t: seq<byte>): (r: map<seq<byte>, int>)
    ensures r.Keys == m.Keys + {t}
    ensures r[t] == (if t in m then m[t] else 0) + 1
    ensures forall u :: u in m && u != t ==> r[u] == m[u]
  {
    m[t := (if t in m then m[t] else 0) + 1]
  }

  /** The map after counting the tokens in order. */
  function Counted(m: map<seq<byte>, int>, tokens: seq<seq<byte>>): map<seq<byte>, int>
  {
    if tokens == [] then m else Bump(Counted(m, tokens[..|tokens| - 1]), tokens[|tokens| - 1])
  }

  /** The number of characters over all tokens. */
  function TotalChars(tokens: seq<seq<byte>>): nat
  {
    if tokens == [] then 0 else TotalChars(tokens[..|tokens| - 1]) + |tokens[|tokens| - 1]|
  }

  /** Counting holds each token's number of occurrences, added to what
      the map held before, and no other key. */
  lemma {:induction false} CountedFrequencies(m: map<seq<byte>, int>, tokens: seq<seq<byte>>, t: seq<byte>)
    ensures t in Counted(m, tokens) <==> t in m || t in tokens
    ensures t in Counted(m, tokens) ==>
              Counted(m, tokens)[t] == (if t in m then m[t] else 0) + multiset(tokens)[t]
    decreases |tokens|
  {
    if tokens != [] {
      var init, last := tokens[..|tokens| - 1], tokens[|tokens| - 1];
      assert tokens == init + [last];
      CountedFrequencies(m, init, t);
    }
  }

  /** Counting tokens one after another is counting them together. */
  lemma {:induction false} CountedAppend(m: map<seq<byte>, int>, a: seq<seq<byte>>, b: seq<seq<byte>>)
    ensures Counted(m, a + b) == Counted(Counted(m, a), b)
    ensures TotalChars(a + b) == TotalChars(a) + TotalChars(b)
    decreases |b|
  {
    if b == [] {
      assert a + b == a;
    } else {
      var init := b[..|b| - 1];
      assert (a + b)[..|a + b| - 1] == a + init;
      CountedAppend(m, a, init);
    }
  }

  /** The counts add up: starting from an empty map, the frequencies sum
      to the number of tokens and, weighted by length, to the number of
      characters. */
  lemma {:induction false} CountedTotals(tokens: seq<seq<byte>>)
    ensures Sum(Counted(map[], tokens), Occurrences) == |tokens|
    ensures Sum(Counted(map[], tokens), Characters) == TotalChars(tokens)
    decreases |tokens|
  {
    if tokens != [] {
      var init, t := tokens[..|tokens| - 1], tokens[|tokens| - 1];
      CountedTotals(init);
      var m := Counted(map[], init);
      var n := if t in m then m[t] else 0;
      SumUpdate(m, Occurrences, t, n + 1);
      SumUpdate(m, Characters, t, n + 1);
      CharactersStep(t, n);
    }
  }

  // ---------------------------------------------------------------------
  // process_file

  /** Counting from an empty map keeps exactly the tokens seen, each
      with a count of at least one. */
  lemma CountedKeys(tokens: seq<seq<byte>>, t: seq<byte>)
    ensures t in Counted(map[], tokens) <==> t in tokens
    ensures t in Counted(map[], tokens) ==> Counted(map[], tokens)[t] == multiset(tokens)[t] >= 1
  {
    CountedFrequencies(map[], tokens, t);
  }

  /** The scan of one byte more is one step further. */
  lemma ScanNext(s: seq<byte>, i: nat)
    requires i < |s|
    ensures Scan(s[..i + 1]) == Step(Scan(s[..i]), s[i])
  {
    assert s[..i + 1][..i] == s[..i];
  }

  /** `Stats`: the totals and the frequency map, updated in place. The
      ghost `seen` is every token counted so far, in order. */
  class Stats {
    var totalTokens: int
    var totalLength: int
    var frequency: map<seq<byte>, int>
    ghost var seen: seq<seq<byte>>

    /** The fields are the counts of the tokens seen; by CountedKeys and
        CountedTotals every key is one of those tokens with a count of at
        least one, and the totals are the frequency map's sums. */
    ghost predicate Valid()
      reads this
    {
      (forall i :: 0 <= i < |seen| ==> IsToken(seen[i])) &&
      frequency == Counted(map[], seen) &&
      totalTokens == |seen| &&
      totalLength == TotalChars(seen)
    }

    constructor()
      ensures Valid() && seen == []
      ensures totalTokens == 0 && totalLength == 0 && frequency == map[]
    {
      totalTokens, totalLength, frequency := 0, 0, map[];
      seen := [];
    }

    /** One completed token: both totals and its count go up. */
    method Add(token: seq<byte>)
      requires Valid() && IsToken(token)
      modifies this
      ensures Valid() && seen == old(seen) + [token]
      ensures totalTokens == old(totalTokens) + 1
      ensures totalLength == old(totalLength) + |token|
      ensures frequency == Bump(old(frequency), token)
    {
      assert (seen + [token])[..|seen|] == seen;
      var n := if token in frequency then frequency[token] else 0;
      totalTokens := totalTokens + 1;
      totalLength := totalLength + |token|;
      frequency := frequency[token := n + 1];
      seen := seen + [token];
    }

    /** The loop over one line's bytes, then the flush of the token the
        line ends with. */
    method ProcessLine(line: seq<byte>)
      requires Valid()
      modifies this
      ensures Valid() && seen == old(seen) + Tokens(line)
    {
      ghost var before := seen;
      var token: seq<byte> := [];
      ghost var done: seq<seq<byte>> := [];
      var i := 0;
      while i < |line|
        invariant i <= |line| && Valid()
        invariant Scan(line[..i]) == ScanState(done, token)
        invariant seen == before + done
      {
        var c := line[i];
        ScanNext(line, i);
        if IsSeparator(c) {
          if token != [] {
            Assoc(before, done, [token]);
            Add(token);
            done := done + [token];
            token := [];
          }
        } else {
          token := token + [ToLower(c)];
        }
        i := i + 1;
      }
      assert line[..i] == line;
      if token != [] {
        Assoc(before, done, [token]);
        Add(token);
      }
    }

    /** `process_file`: every line of the file in turn. A token never
        spans two lines, so counting line by line counts the tokens of the
        whole text: the map gains each token's occurrences, the totals its
        number and its characters. */
    method ProcessFile(content: seq<byte>)
      requires Valid()
      modifies this
      ensures Valid() && seen == old(seen) + Tokens(content)
      ensures frequency == Counted(old(frequency), Tokens(content))
      ensures totalTokens == old(totalTokens) + |Tokens(content)|
      ensures totalLength == old(totalLength) + TotalChars(Tokens(content))
    {
      ghost var before := seen;
      var lines := Lines(content);
      var i := 0;
      while i < |lines|
        invariant i <= |lines| && Valid()
        invariant seen == before + LineTokens(lines[..i])
      {
        LineTokensSnoc(lines, i);
        Assoc(before, LineTokens(lines[..i]), Tokens(lines[i]));
        ProcessLine(lines[i]);
        i := i + 1;
      }
      assert lines[..i] == lines;
      LineTokensAreTokens(content);
      CountedAppend(map[], before, Tokens(content));
    }
  }

  /** One more line adds its tokens. */
  lemma {:induction false} LineTokensSnoc(lines: seq<seq<byte>>, i: nat)
    requires i < |lines|
    ensures LineTokens(lines[..i + 1]) == LineTokens(lines[..i]) + Tokens(lines[i])
    decreases i
  {
    if i == 0 {
      assert lines[..1][1..] == [];
    } else {
      var rest := lines[1..];
      LineTokensSnoc(rest, i - 1);
      assert lines[..i + 1][1..] == rest[..i];
      assert lines[..i][1..] == rest[..i - 1];
      Assoc(Tokens(lines[0]), LineTokens(rest[..i - 1]), Tokens(lines[i]));
    }
  }

  // ---------------------------------------------------------------------
  // Ranking

  /** One line of the output table. */
  datatype Row = Row(rank: nat, term: seq<byte>, frequency: int)

  /** The `std::sort` comparison: higher frequency first. */
  function MoreFrequent(a: (seq<byte>, int), b: (seq<byte>, int)): bool
  {
    a.1 > b.1
  }

  lemma MoreFrequentOrder()
    ensures StrictWeakOrder(MoreFrequent)
  {
  }

  predicate NoDuplicates<T(==)>(s: seq<T>)
  {
    forall i, j :: 0 <= i < j < |s| ==> s[i] != s[j]
  }

  lemma {:induction false} DistinctOnce<T>(s: seq<T>, x: T)
    requires NoDuplicates(s)
    ensures multiset(s)[x] <= 1
    decreases |s|
  {
    if s != [] {
      assert s == [s[0]] + s[1..];
      DistinctOnce(s[1..], x);
      if x == s[0] {
        assert x !in s[1..];
      }
    }
  }

  /** A rearrangement of a sequence without repeats has none either. */
  lemma PermutationDistinct<T>(a: seq<T>, b: seq<T>)
    requires NoDuplicates(a) && multiset(a) == multiset(b)
    ensures NoDuplicates(b)
  {
    forall i, j | 0 <= i < j < |b|
      ensures b[i] != b[j]
    {
      DistinctOnce(a, b[j]);
      assert b == b[..j] + [b[j]] + b[j + 1..];
      assert b[i] in b[..j];
      assert multiset(b)[b[j]] == multiset(b[..j])[b[j]] + 1 + multiset(b[j + 1..])[b[j]];
    }
  }

  /** The pairs of a map, each key once, as the vector built from the
      map's range. */
  method MapEntries(m: map<seq<byte>, int>) returns (pairs: seq<(seq<byte>, int)>)
    ensures |pairs| == |m|
    ensures NoDuplicates(pairs)
    ensures forall i :: 0 <= i < |pairs| ==> pairs[i].0 in m && pairs[i].1 == m[pairs[i].0]
    ensures forall t :: t in m ==> (t, m[t]) in pairs
  {
    pairs := [];
    var rest := m.Keys;
    while rest != {}
      invariant rest <= m.Keys
      invariant |pairs| + |rest| == |m|
      invariant NoDuplicates(pairs)
      invariant forall i :: 0 <= i < |pairs| ==> pairs[i].0 in m && pairs[i].1 == m[pairs[i].0] && pairs[i].0 !in rest
      invariant forall t :: t in m ==> t in rest || (t, m[t]) in pairs
      decreases |rest|
    {
      var t :| t in rest;
      pairs := pairs + [(t, m[t])];
      rest := rest - {t};
    }
  }

  /** The map's pairs sorted by descending frequency (`sorted_terms`
      after `std::sort`). */
  method SortedPairs(frequency: map<seq<byte>, int>) returns (sorted: seq<(seq<byte>, int)>)
    ensures |sorted| == |frequency|
    ensures NoDuplicates(sorted)
    ensures Sorted(sorted, MoreFrequent)
    ensures forall i :: 0 <= i < |sorted| ==> sorted[i].0 in frequency && sorted[i].1 == frequency[sorted[i].0]
    ensures forall t :: t in frequency ==> (t, frequency[t]) in sorted
  {
    var pairs := MapEntries(frequency);
    var a := new (seq<byte>, int)[|pairs|](k requires 0 <= k < |pairs| => pairs[k]);
    assert a[..] == pairs;
    MoreFrequentOrder();
    SortArray(a, MoreFrequent);
    sorted := a[..];
    PermutationDistinct(pairs, sorted);
    forall t | t in frequency
      ensures (t, frequency[t]) in sorted
    {
      assert (t, frequency[t]) in multiset(pairs);
    }
    forall i | 0 <= i < |sorted|
      ensures sorted[i] in pairs
    {
      assert sorted[i] in multiset(sorted);
    }
  }

  /** The CSV rows: pair k of the ranking, numbered k + 1. */
  predicate Numbered(rows: seq<Row>, sorted: seq<(seq<byte>, int)>)
  {
    |rows| == |sorted| &&
    forall k :: 0 <= k < |rows| ==> rows[k] == Row(k + 1, sorted[k].0, sorted[k].1)
  }

  /** The output loop: row i + 1 for pair i. */
  method NumberRows(sorted: seq<(seq<byte>, int)>) returns (rows: seq<Row>)
    ensures Numbered(rows, sorted)
  {
    rows := [];
    var i := 0;
    while i < |sorted|
      invariant i <= |sorted| && |rows| == i
      invariant forall k :: 0 <= k < i ==> rows[k] == Row(k + 1, sorted[k].0, sorted[k].1)
    {
      rows := rows + [Row(i + 1, sorted[i].0, sorted[i].1)];
      i := i + 1;
    }
  }

  /** Numbering the sorted pairs of the map ranks every term exactly
      once, with its frequency, most frequent first. */
  lemma NumberedRanking(frequency: map<seq<byte>, int>, sorted: seq<(seq<byte>, int)>, rows: seq<Row>)
    requires |sorted| == |frequency| && NoDuplicates(sorted) && Sorted(sorted, MoreFrequent)
    requires forall i :: 0 <= i < |sorted| ==> sorted[i].0 in frequency && sorted[i].1 == frequency[sorted[i].0]
    requires forall t :: t in frequency ==> (t, frequency[t]) in sorted
    requires Numbered(rows, sorted)
    ensures forall i, j :: 0 <= i < j < |rows| ==> rows[i].frequency >= rows[j].frequency
    ensures forall i :: 0 <= i < |rows| ==>
              rows[i].term in frequency && rows[i].frequency == frequency[rows[i].term]
    ensures forall i, j :: 0 <= i < j < |rows| ==> rows[i].term != rows[j].term
    ensures forall t :: t in frequency ==> exists i :: 0 <= i < |rows| && rows[i].term == t
  {
    forall i, j | 0 <= i < j < |rows|
      ensures rows[i].term != rows[j].term
    {
      assert sorted[i] != sorted[j];
    }
    forall t | t in frequency
      ensures exists k :: 0 <= k < |rows| && rows[k].term == t
    {
      var k :| 0 <= k < |sorted| && sorted[k] == (t, frequency[t]);
      assert rows[k].term == t;
    }
  }

  /** The ranking in `main`: the map's pairs sorted by descending
      frequency, numbered from 1. Every term appears exactly once with its
      frequency; among equal frequencies the order is unspecified. */
  method RankTerms(frequency: map<seq<byte>, int>) returns (rows: seq<Row>)
    ensures |rows| == |frequency|
    ensures forall i :: 0 <= i < |rows| ==> rows[i].rank == i + 1
    ensures forall i, j :: 0 <= i < j < |rows| ==> rows[i].frequency >= rows[j].frequency
    ensures forall i :: 0 <= i < |rows| ==>
              rows[i].term in frequency && rows[i].frequency == frequency[rows[i].term]
    ensures forall i, j :: 0 <= i < j < |rows| ==> rows[i].term != rows[j].term
    ensures forall t :: t in frequency ==> exists i :: 0 <= i < |rows| && rows[i].term == t
  {
    var sorted := SortedPairs(frequency);
    rows := NumberRows(sorted);
    NumberedRanking(frequency, sorted, rows);
  }
}
