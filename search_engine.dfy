/** The query engine: the dictionary loaded from the term index, term
    lookup by binary search, the recursive-descent query parser and the
    result listing. The four index files are byte sequences; opening them
    and the clock around the parse are left to the caller. */
module SearchEngine {
  import opened Codec
  import opened Sequences
  import opened Text
  import opened SetAlgebra
  import opened IndexFormat
  import opened Query

  /** At most this many results are listed (`limit` in `main`). */
  const RESULT_LIMIT: nat := 50

  // ---------------------------------------------------------------------
  // Binary search over the dictionary

  /** An entry not after b that is below w is itself below w. */
  lemma EarlierBelow(a: seq<byte>, b: seq<byte>, w: seq<byte>)
    requires !LexLess(b, a) && LexLess(b, w)
    ensures LexLess(a, w)
  {
    LexLessTotal(a, b);
    if a != b {
      LexLessTransitive(a, b, w);
    }
  }

  /** An entry not before a that is not below w is not below w either. */
  lemma LaterNotBelow(a: seq<byte>, b: seq<byte>, w: seq<byte>)
    requires !LexLess(b, a) && !LexLess(a, w)
    ensures !LexLess(b, w)
  {
    if LexLess(b, w) {
      EarlierBelow(a, b, w);
    }
  }

  /** The index `std::lower_bound` finds: every entry before it is below
      w, none from it on is. Such an index holds w's entry if any does. */
  lemma LowerBoundFinds(dict: seq<TermEntry>, lo: nat, w: seq<byte>)
    requires TermsNonDecreasing(dict) && lo <= |dict|
    requires forall k :: 0 <= k < lo ==> LexLess(dict[k].term, w)
    requires forall k :: lo <= k < |dict| ==> !LexLess(dict[k].term, w)
    ensures Find(dict, w) == if lo < |dict| && dict[lo].term == w then Some(lo) else None
  {
    forall k | 0 <= k < lo
      ensures dict[k].term != w
    {
      LexLessIrreflexive(w);
    }
    if lo < |dict| && dict[lo].term != w {
      LexLessTotal(dict[lo].term, w);
      forall k | lo < k < |dict|
        ensures dict[k].term != w
      {
        assert !LexLess(dict[k].term, dict[lo].term);
      }
    }
  }

  /** Lower-casing one byte more of a slice appends that byte lowered. */
  lemma LoweredNext(q: seq<byte>, start: nat, pos: nat)
    requires start <= pos < |q|
    ensures Lowered(q[start..pos + 1]) == Lowered(q[start..pos]) + [ToLower(q[pos])]
  {
    assert q[start..pos + 1] == q[start..pos] + [q[pos]];
  }

  /** The dictionary and the open index files. */
  class Engine {
    var dictionary: seq<TermEntry>
    const termIndex: seq<byte>
    const postings: seq<byte>
    const docsIndex: seq<byte>
    const docsData: seq<byte>

    constructor(termIndex: seq<byte>, postings: seq<byte>, docsIndex: seq<byte>, docsData: seq<byte>)
      ensures this.termIndex == termIndex && this.postings == postings
      ensures this.docsIndex == docsIndex && this.docsData == docsData
      ensures dictionary == []
    {
      this.termIndex := termIndex;
      this.postings := postings;
      this.docsIndex := docsIndex;
      this.docsData := docsData;
      dictionary := [];
    }

    /** `load_dictionary`: read records until the end of the term index,
      appending one entry per record. */
    method LoadDictionary()
      modifies this
      ensures dictionary == old(dictionary) + DecodeTermIndex(termIndex)
    {
      Pow256Values();
      var rest := termIndex;
      while |rest| >= 2
        invariant dictionary + DecodeTermIndex(rest) == old(dictionary) + DecodeTermIndex(termIndex)
        decreases |rest|
      {
        var len := DecodeLE(rest[..2]);
        var afterLen := rest[2..];
        if |afterLen| < len + 12 {
          assert dictionary + [] == dictionary;
          break;
        }
        var term, afterTerm := afterLen[..len], afterLen[len..];
        var offset, afterOffset := DecodeLE(afterTerm[..8]), afterTerm[8..];
        var count, next := DecodeLE(afterOffset[..4]), afterOffset[4..];
        var e := TermEntry(term, offset, count);
        assert DecodeTermIndex(rest) == [e] + DecodeTermIndex(next);
        Assoc(dictionary, [e], DecodeTermIndex(next));
        dictionary := dictionary + [e];
        rest := next;
      }
      if |rest| < 2 {
        assert dictionary + [] == dictionary;
      }
    }

    /** `get_postings`: `std::lower_bound` over the sorted dictionary,
      then, when the entry found holds w, its ids from the postings file. */
    method GetPostings(w: seq<byte>) returns (ids: seq<nat>)
      requires TermsNonDecreasing(dictionary)
      ensures ids == PostingsOf(dictionary, postings, w)
    {
      var lo, hi := 0, |dictionary|;
      while lo < hi
        invariant 0 <= lo <= hi <= |dictionary|
        invariant forall k :: 0 <= k < lo ==> LexLess(dictionary[k].term, w)
        invariant forall k :: hi <= k < |dictionary| ==> !LexLess(dictionary[k].term, w)
      {
        var mid := (lo + hi) / 2;
        if LexLess(dictionary[mid].term, w) {
          forall k | 0 <= k < mid
            ensures LexLess(dictionary[k].term, w)
          {
            EarlierBelow(dictionary[k].term, dictionary[mid].term, w);
          }
          lo := mid + 1;
        } else {
          forall k | mid < k < |dictionary|
            ensures !LexLess(dictionary[k].term, w)
          {
            LaterNotBelow(dictionary[mid].term, dictionary[k].term, w);
          }
          hi := mid;
        }
      }
      LowerBoundFinds(dictionary, lo, w);
      if lo < |dictionary| && dictionary[lo].term == w {
        ids := ReadIds(postings, dictionary[lo].offset, dictionary[lo].count);
      } else {
        ids := [];
      }
    }
  }

  // ---------------------------------------------------------------------
  // The parser

  /** `Parser`: the query and a cursor into it, over a loaded engine. */
  class Parser {
    const query: seq<byte>
    var pos: nat
    const engine: Engine

    constructor(query: seq<byte>, engine: Engine)
      ensures this.query == query && this.engine == engine && pos == 0
    {
      this.query := query;
      this.engine := engine;
      pos := 0;
    }

    /** The cursor is inside the query and the dictionary is sorted. */
    predicate Valid()
      reads this, engine
    {
      pos <= |query| && TermsNonDecreasing(engine.dictionary)
    }

    /** `peek`: skip spaces and return the byte there, 0 at the end. */
    method Peek() returns (c: byte)
      requires pos <= |query|
      modifies this
      ensures pos == SkipSpaces(query, old(pos))
      ensures c == PeekChar(query, old(pos))
    {
      while pos < |query| && query[pos] == SPACE
        invariant old(pos) <= pos <= |query|
        invariant SkipSpaces(query, pos) == SkipSpaces(query, old(pos))
        decreases |query| - pos
      {
        pos := pos + 1;
      }
      if pos == |query| {
        c := 0;
      } else {
        c := query[pos];
      }
    }

    /** `get_word`: skip bytes that cannot start a word, then collect the
      word's bytes lower-cased. */
    method GetWord() returns (word: seq<byte>)
      requires pos <= |query|
      modifies this
      ensures word == Query.GetWord(query, old(pos))
      ensures pos == AfterWord(query, old(pos))
    {
      while pos < |query| && !IsWordChar(query[pos])
        invariant old(pos) <= pos <= |query|
        invariant SkipNonWord(query, pos) == SkipNonWord(query, old(pos))
        decreases |query| - pos
      {
        pos := pos + 1;
      }
      var start := pos;
      word := [];
      while pos < |query| && IsWordChar(query[pos])
        invariant start <= pos <= |query|
        invariant WordEnd(query, pos) == WordEnd(query, start)
        invariant word == Lowered(query[start..pos])
        decreases |query| - pos
      {
        LoweredNext(query, start, pos);
        word := word + [ToLower(query[pos])];
        pos := pos + 1;
      }
    }

    /** `parse_factor`. */
    method ParseFactor() returns (ids: seq<nat>)
      requires Valid()
      modifies this
      ensures Valid()
      ensures Parsed(ids, pos) == Factor(query, old(pos), engine.dictionary, engine.postings)
      decreases |query| - pos, 0
    {
      ghost var factor := Factor(query, pos, engine.dictionary, engine.postings);
      var c := Peek();
      ghost var s := pos;
      if c == BANG {
        assert s < |query| && query[s] == BANG;
        pos := pos + 1;
        var operand := ParseFactor();
        ids := [];
        assert factor == Parsed(ids, pos);
      } else if c == LPAREN {
        assert s < |query| && query[s] == LPAREN;
        pos := pos + 1;
        ids := ParseExpression();
        var d := Peek();
        if d == RPAREN {
          pos := pos + 1;
        }
        assert factor == Parsed(ids, pos);
      } else {
        assert !(s < |query| && (query[s] == BANG || query[s] == LPAREN));
        var w := GetWord();
        ids := engine.GetPostings(w);
        assert factor == Parsed(ids, pos);
      }
    }

    /** One turn of `parse_term`'s loop, at the non-space byte c under
      the cursor that does not end the term. */
    method TermOperator(c: byte, lhs: seq<nat>) returns (ids: seq<nat>)
      requires Valid() && pos < |query| && query[pos] == c && c != SPACE && !EndsTerm(query, pos)
      modifies this
      ensures Valid()
      ensures Parsed(ids, pos) == TermStep(query, old(pos), lhs, engine.dictionary, engine.postings)
      decreases |query| - pos, 1
    {
      ghost var step := TermStep(query, pos, lhs, engine.dictionary, engine.postings);
      if c == AMPERSAND && pos + 1 < |query| && query[pos + 1] == AMPERSAND {
        pos := pos + 2;
        var rhs := ParseFactor();
        ids := Intersect(lhs, rhs);
        assert step == Parsed(ids, pos);
      } else if c == BANG {
        pos := pos + 1;
        var rhs := ParseFactor();
        ids := Exclude(lhs, rhs);
        assert step == Parsed(ids, pos);
      } else {
        var rhs := ParseFactor();
        ids := lhs;
        if rhs != [] {
          ids := Intersect(lhs, rhs);
        }
        assert step == Parsed(ids, pos);
      }
    }

    /** `parse_term`: a factor, then the loop over '&&', '!' and adjacent
      factors until the end, '|' or ')'. */
    method ParseTerm() returns (ids: seq<nat>)
      requires Valid()
      modifies this
      ensures Valid()
      ensures Parsed(ids, pos) == Term(query, old(pos), engine.dictionary, engine.postings)
      decreases |query| - pos, 3
    {
      ghost var dict := engine.dictionary;
      ids := ParseFactor();
      while true
        invariant Valid() && old(pos) <= pos && engine.dictionary == dict
        invariant TermRest(query, pos, ids, dict, engine.postings) == Term(query, old(pos), dict, engine.postings)
        decreases |query| - pos
      {
        var c := Peek();
        if c == 0 || c == PIPE || c == RPAREN {
          break;
        }
        ids := TermOperator(c, ids);
      }
    }

    /** The '|' under the cursor and, past spaces, a second '|' if there
      is one. */
    method SkipBars()
      requires pos < |query| && query[pos] == PIPE
      modifies this
      ensures pos == AfterBars(query, old(pos))
    {
      pos := pos + 1;
      var d := Peek();
      if d == PIPE {
        pos := pos + 1;
      }
    }

    /** `parse_expression`: a term, then, while the next byte is '|',
      skip it and an optional second '|', parse a term and unite. */
    method ParseExpression() returns (ids: seq<nat>)
      requires Valid()
      modifies this
      ensures Valid()
      ensures Parsed(ids, pos) == Expression(query, old(pos), engine.dictionary, engine.postings)
      decreases |query| - pos, 5
    {
      ghost var dict := engine.dictionary;
      ids := ParseTerm();
      while true
        invariant Valid() && old(pos) <= pos && engine.dictionary == dict
        invariant ExpressionRest(query, pos, ids, dict, engine.postings) == Expression(query, old(pos), dict, engine.postings)
        decreases |query| - pos
      {
        var c := Peek();
        if c != PIPE {
          break;
        }
        SkipBars();
        var rhs := ParseTerm();
        ids := Unite(ids, rhs);
      }
    }
  }

  // ---------------------------------------------------------------------
  // The result listing

  /** `std::replace(title, '"', '\'')`: every double quote becomes a
      single quote, nothing else changes. */
  function ReplaceQuotes(s: seq<byte>): (r: seq<byte>)
    ensures |r| == |s| && QUOTE !in r
    ensures forall k :: 0 <= k < |s| && s[k] != QUOTE ==> r[k] == s[k]
    ensures forall k :: 0 <= k < |s| && s[k] == QUOTE ==> r[k] == APOSTROPHE
  {
    seq(|s|, k requires 0 <= k < |s| => if s[k] == QUOTE then APOSTROPHE else s[k])
  }

  /** The rows printed for the ids of a result: the first RESULT_LIMIT,
      in order, each with its url and its title quote-free. */
  function Report(ids: seq<nat>, docsIndex: seq<byte>, docsData: seq<byte>): (rows: seq<DocResult>)
    ensures |rows| == if |ids| < RESULT_LIMIT then |ids| else RESULT_LIMIT
    ensures forall k :: 0 <= k < |rows| ==>
              var doc := DocInfo(docsIndex, docsData, ids[k]);
              rows[k] == DocResult(ids[k], doc.url, ReplaceQuotes(doc.title))
  {
    var n := if |ids| < RESULT_LIMIT then |ids| else RESULT_LIMIT;
    seq(n, k requires 0 <= k < n =>
      var doc := DocInfo(docsIndex, docsData, ids[k]);
      DocResult(doc.id, doc.url, ReplaceQuotes(doc.title)))
  }

  /** `main`: load the dictionary, evaluate the query and list the
      results. The count is that of all matching documents; the rows are
      those of Report. */
  method Search(query: seq<byte>, termIndex: seq<byte>, postings: seq<byte>, docsIndex: seq<byte>, docsData: seq<byte>)
    returns (count: nat, rows: seq<DocResult>)
    requires TermsNonDecreasing(DecodeTermIndex(termIndex))
    ensures count == |Evaluate(query, DecodeTermIndex(termIndex), postings)|
    ensures rows == Report(Evaluate(query, DecodeTermIndex(termIndex), postings), docsIndex, docsData)
  {
    var engine := new Engine(termIndex, postings, docsIndex, docsData);
    engine.LoadDictionary();
    assert engine.dictionary == DecodeTermIndex(termIndex);
    var parser := new Parser(query, engine);
    var ids := parser.ParseExpression();
    count := |ids|;
    rows := ListResults(ids, docsIndex, docsData);
  }

  /** The loop printing the results: for each of the first RESULT_LIMIT
      ids, its url and its title with quotes replaced. */
  method ListResults(ids: seq<nat>, docsIndex: seq<byte>, docsData: seq<byte>) returns (rows: seq<DocResult>)
    ensures rows == Report(ids, docsIndex, docsData)
  {
    ghost var report := Report(ids, docsIndex, docsData);
    rows := [];
    var i := 0;
    while i < |ids| && i < RESULT_LIMIT
      invariant i <= |ids| && i <= RESULT_LIMIT
      invariant rows == report[..i]
    {
      var doc := DocInfo(docsIndex, docsData, ids[i]);
      var safeTitle := ReplaceQuotes(doc.title);
      assert report[..i + 1] == report[..i] + [DocResult(doc.id, doc.url, safeTitle)];
      rows := rows + [DocResult(doc.id, doc.url, safeTitle)];
      i := i + 1;
    }
    assert report[..i] == report;
  }
}
