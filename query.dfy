/** The query language of the search engine, as the recursive-descent
    parser evaluates it: one function per parser routine, taking the
    query, the cursor position on entry and the loaded index, and giving
    the ids computed and the cursor position on exit.

      expression := term { ('|' | '||') term }          union, left to right
      term       := factor { '&&' factor                intersection
                           | '!' factor                 difference
                           | factor }                   intersection, if non-empty
      factor     := '!' factor                          always empty
                  | '(' expression [')']
                  | word                                its postings list

    Spaces are skipped before each operator and factor; a word is a run of
    letters, digits and '_', lower-cased, after skipping any other bytes. */
module Query {
  import opened Codec
  import opened Sequences
  import opened Text
  import opened SetAlgebra
  import opened IndexFormat

  /** The cursor after `peek`'s loop: past the spaces from p on. */
  function SkipSpaces(q: seq<byte>, p: nat): (s: nat)
    requires p <= |q|
    ensures p <= s <= |q|
    ensures forall k :: p <= k < s ==> q[k] == SPACE
    ensures s < |q| ==> q[s] != SPACE
    decreases |q| - p
  {
    if p < |q| && q[p] == SPACE then SkipSpaces(q, p + 1) else p
  }

  /** What `peek` returns: the first byte that is not a space, or 0 at the
      end of the query. */
  function PeekChar(q: seq<byte>, p: nat): byte
    requires p <= |q|
  {
    var s := SkipSpaces(q, p);
    if s == |q| then 0 else q[s]
  }

  /** The bytes a word is made of. Bytes above 127 are not among them. */
  predicate IsWordChar(c: byte)
  {
    IsAlnum(c) || c == UNDERSCORE
  }

  /** The cursor after `get_word`'s first loop: past every byte that cannot
      start a word. */
  function SkipNonWord(q: seq<byte>, p: nat): (s: nat)
    requires p <= |q|
    ensures p <= s <= |q|
    ensures forall k :: p <= k < s ==> !IsWordChar(q[k])
    ensures s < |q| ==> IsWordChar(q[s])
    decreases |q| - p
  {
    if p < |q| && !IsWordChar(q[p]) then SkipNonWord(q, p + 1) else p
  }

  /** The cursor after `get_word`'s second loop: the end of the run of word
      bytes starting at p. */
  function WordEnd(q: seq<byte>, p: nat): (e: nat)
    requires p <= |q|
    ensures p <= e <= |q|
    ensures forall k :: p <= k < e ==> IsWordChar(q[k])
    ensures e < |q| ==> !IsWordChar(q[e])
    decreases |q| - p
  {
    if p < |q| && IsWordChar(q[p]) then WordEnd(q, p + 1) else p
  }

  /** The word `get_word` returns from p on. */
  function GetWord(q: seq<byte>, p: nat): (w: seq<byte>)
    requires p <= |q|
  {
    var s := SkipNonWord(q, p);
    Lowered(q[s..WordEnd(q, s)])
  }

  /** Where `get_word` leaves the cursor. */
  function AfterWord(q: seq<byte>, p: nat): (e: nat)
    requires p <= |q|
    ensures p <= e <= |q|
    ensures e == p ==> p == |q|
  {
    WordEnd(q, SkipNonWord(q, p))
  }

  /** A parse result: the ids and the cursor after the parsed text. */
  datatype Parsed = Parsed(ids: seq<nat>, pos: nat)

  /** `parse_factor`. Once a non-space byte is there to read, the cursor
      moves past it; a '!' factor is always empty. */
  function Factor(q: seq<byte>, p: nat, dict: seq<TermEntry>, postings: seq<byte>): (r: Parsed)
    requires p <= |q|
    ensures p <= r.pos <= |q|
    ensures SkipSpaces(q, p) < |q| ==> SkipSpaces(q, p) < r.pos
    ensures PeekChar(q, p) == BANG ==> r.ids == []
    decreases |q| - p, 0
  {
    var s := SkipSpaces(q, p);
    if s < |q| && q[s] == BANG then
      var operand := Factor(q, s + 1, dict, postings);
      Parsed([], operand.pos)
    else if s < |q| && q[s] == LPAREN then
      var inner := Expression(q, s + 1, dict, postings);
      var t := SkipSpaces(q, inner.pos);
      Parsed(inner.ids, if t < |q| && q[t] == RPAREN then t + 1 else t)
    else
      Parsed(PostingsOf(dict, postings, GetWord(q, s)), AfterWord(q, s))
  }

  /** The bytes at which the term loop stops: end of query (or a NUL
      byte, which `peek` cannot tell apart from it), '|' and ')'. */
  predicate EndsTerm(q: seq<byte>, s: nat)
    requires s <= |q|
  {
    s == |q| || q[s] == 0 || q[s] == PIPE || q[s] == RPAREN
  }

  /** One turn of the loop of `parse_term`, at a non-space byte s that
      does not end the term: '&&' intersects with the next factor, '!'
      subtracts it, and any other byte starts a factor that intersects
      only when its list is non-empty. The C++ test `query[pos+1] == '&'`
      reads the terminating NUL when '&' is the last byte, hence the
      bound. */
  function TermStep(q: seq<byte>, s: nat, lhs: seq<nat>, dict: seq<TermEntry>, postings: seq<byte>): (r: Parsed)
    requires s < |q| && q[s] != SPACE && !EndsTerm(q, s)
    ensures s < r.pos <= |q|
    decreases |q| - s, 1
  {
    if q[s] == AMPERSAND && s + 1 < |q| && q[s + 1] == AMPERSAND then
      var rhs := Factor(q, s + 2, dict, postings);
      Parsed(Intersection(lhs, rhs.ids), rhs.pos)
    else if q[s] == BANG then
      var rhs := Factor(q, s + 1, dict, postings);
      Parsed(Difference(lhs, rhs.ids), rhs.pos)
    else
      var rhs := Factor(q, s, dict, postings);
      Parsed(if rhs.ids == [] then lhs else Intersection(lhs, rhs.ids), rhs.pos)
  }

  /** The loop of `parse_term`, from cursor p with the ids lhs so far. It
      stops where EndsTerm holds. */
  function TermRest(q: seq<byte>, p: nat, lhs: seq<nat>, dict: seq<TermEntry>, postings: seq<byte>): (r: Parsed)
    requires p <= |q|
    ensures p <= r.pos <= |q| && EndsTerm(q, r.pos)
    decreases |q| - p, 2
  {
    var s := SkipSpaces(q, p);
    if EndsTerm(q, s) then Parsed(lhs, s)
    else
      var step := TermStep(q, s, lhs, dict, postings);
      TermRest(q, step.pos, step.ids, dict, postings)
  }

  /** `parse_term`: a factor, then the term loop. */
  function Term(q: seq<byte>, p: nat, dict: seq<TermEntry>, postings: seq<byte>): (r: Parsed)
    requires p <= |q|
    ensures p <= r.pos <= |q| && EndsTerm(q, r.pos)
    decreases |q| - p, 3
  {
    var first := Factor(q, p, dict, postings);
    TermRest(q, first.pos, first.ids, dict, postings)
  }

  /** The cursor after the '|' at s and, past optional spaces, a second
      '|' if there is one. */
  function AfterBars(q: seq<byte>, s: nat): (r: nat)
    requires s < |q| && q[s] == PIPE
    ensures s < r <= |q|
  {
    var s2 := SkipSpaces(q, s + 1);
    if s2 < |q| && q[s2] == PIPE then s2 + 1 else s2
  }

  /** The loop of `parse_expression`: while the next non-space byte is
      '|', skip it and a second '|' after optional spaces, parse a term and
      unite. It stops at the end of the query, a NUL byte or ')'. */
  function ExpressionRest(q: seq<byte>, p: nat, lhs: seq<nat>, dict: seq<TermEntry>, postings: seq<byte>): (r: Parsed)
    requires p <= |q|
    ensures p <= r.pos <= |q|
    ensures EndsTerm(q, p) ==> r.pos == |q| || q[r.pos] == 0 || q[r.pos] == RPAREN
    decreases |q| - p, 4
  {
    var s := SkipSpaces(q, p);
    if s < |q| && q[s] == PIPE then
      var rhs := Term(q, AfterBars(q, s), dict, postings);
      ExpressionRest(q, rhs.pos, Union(lhs, rhs.ids), dict, postings)
    else Parsed(lhs, s)
  }

  /** `parse_expression`: a term, then the union loop. Parsing stops at
      the end of the query, at a NUL byte, or at a ')' it does not
      consume. */
  function Expression(q: seq<byte>, p: nat, dict: seq<TermEntry>, postings: seq<byte>): (r: Parsed)
    requires p <= |q|
    ensures p <= r.pos <= |q|
    ensures r.pos == |q| || q[r.pos] == 0 || q[r.pos] == RPAREN
    decreases |q| - p, 5
  {
    var first := Term(q, p, dict, postings);
    ExpressionRest(q, first.pos, first.ids, dict, postings)
  }

  /** The ids a query evaluates to (`parser.parse_expression()` in
      `main`); text after an unmatched ')' is ignored. */
  function Evaluate(q: seq<byte>, dict: seq<TermEntry>, postings: seq<byte>): seq<nat>
  {
    Expression(q, 0, dict, postings).ids
  }

  // ---------------------------------------------------------------------
  // What every query evaluates to

  /** Every routine of the parser gives an ascending list of ids below n
      when every postings list of the index is one (and, for the loops,
      when the ids so far are). */
  lemma {:induction false} FactorShape(q: seq<byte>, p: nat, dict: seq<TermEntry>, postings: seq<byte>, n: nat)
    requires p <= |q| && PostingsAscendingBelow(dict, postings, n)
    ensures Ascending(Factor(q, p, dict, postings).ids) && Below(Factor(q, p, dict, postings).ids, n)
    decreases |q| - p, 0
  {
    var s := SkipSpaces(q, p);
    if s < |q| && q[s] == BANG {
    } else if s < |q| && q[s] == LPAREN {
      ExpressionShape(q, s + 1, dict, postings, n);
    } else {
      PostingsOfAscendingBelow(dict, postings, n, GetWord(q, s));
    }
  }

  lemma {:induction false} TermStepShape(q: seq<byte>, s: nat, lhs: seq<nat>, dict: seq<TermEntry>, postings: seq<byte>, n: nat)
    requires s < |q| && q[s] != SPACE && !EndsTerm(q, s)
    requires PostingsAscendingBelow(dict, postings, n) && Ascending(lhs) && Below(lhs, n)
    ensures Ascending(TermStep(q, s, lhs, dict, postings).ids) && Below(TermStep(q, s, lhs, dict, postings).ids, n)
    decreases |q| - s, 1
  {
    if q[s] == AMPERSAND && s + 1 < |q| && q[s + 1] == AMPERSAND {
      FactorShape(q, s + 2, dict, postings, n);
      MergesShape(lhs, Factor(q, s + 2, dict, postings).ids, n);
    } else if q[s] == BANG {
      FactorShape(q, s + 1, dict, postings, n);
      MergesShape(lhs, Factor(q, s + 1, dict, postings).ids, n);
    } else {
      FactorShape(q, s, dict, postings, n);
      MergesShape(lhs, Factor(q, s, dict, postings).ids, n);
    }
  }

  lemma {:induction false} TermRestShape(q: seq<byte>, p: nat, lhs: seq<nat>, dict: seq<TermEntry>, postings: seq<byte>, n: nat)
    requires p <= |q| && PostingsAscendingBelow(dict, postings, n)
    requires Ascending(lhs) && Below(lhs, n)
    ensures Ascending(TermRest(q, p, lhs, dict, postings).ids) && Below(TermRest(q, p, lhs, dict, postings).ids, n)
    decreases |q| - p, 2
  {
    var s := SkipSpaces(q, p);
    if !EndsTerm(q, s) {
      var step := TermStep(q, s, lhs, dict, postings);
      TermStepShape(q, s, lhs, dict, postings, n);
      TermRestShape(q, step.pos, step.ids, dict, postings, n);
    }
  }

  lemma {:induction false} TermShape(q: seq<byte>, p: nat, dict: seq<TermEntry>, postings: seq<byte>, n: nat)
    requires p <= |q| && PostingsAscendingBelow(dict, postings, n)
    ensures Ascending(Term(q, p, dict, postings).ids) && Below(Term(q, p, dict, postings).ids, n)
    decreases |q| - p, 3
  {
    var first := Factor(q, p, dict, postings);
    FactorShape(q, p, dict, postings, n);
    TermRestShape(q, first.pos, first.ids, dict, postings, n);
  }

  lemma {:induction false} ExpressionRestShape(q: seq<byte>, p: nat, lhs: seq<nat>, dict: seq<TermEntry>, postings: seq<byte>, n: nat)
    requires p <= |q| && PostingsAscendingBelow(dict, postings, n)
    requires Ascending(lhs) && Below(lhs, n)
    ensures Ascending(ExpressionRest(q, p, lhs, dict, postings).ids) && Below(ExpressionRest(q, p, lhs, dict, postings).ids, n)
    decreases |q| - p, 4
  {
    var s := SkipSpaces(q, p);
    if s < |q| && q[s] == PIPE {
      var next := AfterBars(q, s);
      var rhs := Term(q, next, dict, postings);
      TermShape(q, next, dict, postings, n);
      MergesShape(lhs, rhs.ids, n);
      ExpressionRestShape(q, rhs.pos, Union(lhs, rhs.ids), dict, postings, n);
    }
  }

  lemma {:induction false} ExpressionShape(q: seq<byte>, p: nat, dict: seq<TermEntry>, postings: seq<byte>, n: nat)
    requires p <= |q| && PostingsAscendingBelow(dict, postings, n)
    ensures Ascending(Expression(q, p, dict, postings).ids) && Below(Expression(q, p, dict, postings).ids, n)
    decreases |q| - p, 5
  {
    var first := Term(q, p, dict, postings);
    TermShape(q, p, dict, postings, n);
    ExpressionRestShape(q, first.pos, first.ids, dict, postings, n);
  }

  /** Whatever the query, its result is an ascending, duplicate-free list
      of ids below n when the index's postings lists are. */
  lemma EvaluateShape(q: seq<byte>, dict: seq<TermEntry>, postings: seq<byte>, n: nat)
    requires PostingsAscendingBelow(dict, postings, n)
    ensures Ascending(Evaluate(q, dict, postings)) && Below(Evaluate(q, dict, postings), n)
  {
    ExpressionShape(q, 0, dict, postings, n);
  }

  /** With an empty dictionary every query finds nothing. */
  lemma EmptyDictionaryFindsNothing(q: seq<byte>, postings: seq<byte>)
    ensures Evaluate(q, [], postings) == []
  {
    ExpressionShape(q, 0, [], postings, 0);
    AscendingBelowLength(Evaluate(q, [], postings), 0);
  }

  // ---------------------------------------------------------------------
  // What the operators mean, on queries of one or two words

  /** A non-empty run of word bytes. */
  predicate IsWord(w: seq<byte>)
  {
    |w| > 0 && forall k :: 0 <= k < |w| ==> IsWordChar(w[k])
  }

  /** The run of word bytes from p ends at e when every byte before e is
      a word byte and the byte at e (if any) is not. */
  lemma {:induction false} WordEndAt(q: seq<byte>, p: nat, e: nat)
    requires p <= e <= |q|
    requires forall k :: p <= k < e ==> IsWordChar(q[k])
    requires e == |q| || !IsWordChar(q[e])
    ensures WordEnd(q, p) == e
    decreases e - p
  {
    if p < e {
      WordEndAt(q, p + 1, e);
    }
  }

  /** A word standing in the query at |x|, not followed by a word byte,
      is a factor: its postings list, with the cursor right after it. */
  lemma WordFactor(x: seq<byte>, w: seq<byte>, y: seq<byte>, dict: seq<TermEntry>, postings: seq<byte>)
    requires IsWord(w) && (y == [] || !IsWordChar(y[0]))
    ensures Factor(x + w + y, |x|, dict, postings) == Parsed(PostingsOf(dict, postings, Lowered(w)), |x| + |w|)
  {
    var q, p := x + w + y, |x|;
    Middle(x, w, y);
    assert q[p] == w[0];
    assert q[p] != SPACE && q[p] != BANG && q[p] != LPAREN;
    assert SkipSpaces(q, p) == p;
    assert SkipNonWord(q, p) == p;
    WordEndAt(q, p, p + |w|);
    assert GetWord(q, p) == Lowered(w);
    assert AfterWord(q, p) == p + |w|;
  }

  /** After the last factor the term loop and the union loop stop at the
      end of the query. */
  lemma AtEnd(q: seq<byte>, ids: seq<nat>, dict: seq<TermEntry>, postings: seq<byte>)
    ensures TermRest(q, |q|, ids, dict, postings) == Parsed(ids, |q|)
    ensures ExpressionRest(q, |q|, ids, dict, postings) == Parsed(ids, |q|)
  {
  }

  /** A single word finds its postings list. */
  lemma WordQuery(w: seq<byte>, dict: seq<TermEntry>, postings: seq<byte>)
    requires IsWord(w)
    ensures Evaluate(w, dict, postings) == PostingsOf(dict, postings, Lowered(w))
  {
    var ids := PostingsOf(dict, postings, Lowered(w));
    assert [] + w + [] == w;
    WordFactor([], w, [], dict, postings);
    AtEnd(w, ids, dict, postings);
    assert Term(w, 0, dict, postings) == Parsed(ids, |w|);
  }

  /** Spaces before a factor do not change it. */
  lemma FactorAfterSpaces(q: seq<byte>, p: nat, dict: seq<TermEntry>, postings: seq<byte>)
    requires p <= |q|
    ensures Factor(q, p, dict, postings) == Factor(q, SkipSpaces(q, p), dict, postings)
  {
    var s := SkipSpaces(q, p);
    assert SkipSpaces(q, s) == s;
  }

  /** A query whose first term runs to its end evaluates to that term. */
  lemma WholeTerm(q: seq<byte>, dict: seq<TermEntry>, postings: seq<byte>)
    requires Term(q, 0, dict, postings).pos == |q|
    ensures Evaluate(q, dict, postings) == Term(q, 0, dict, postings).ids
  {
    var t := Term(q, 0, dict, postings);
    AtEnd(q, t.ids, dict, postings);
    assert Expression(q, 0, dict, postings) == ExpressionRest(q, |q|, t.ids, dict, postings);
  }

  /** A query whose first factor runs to its end evaluates to that factor. */
  lemma WholeFactor(q: seq<byte>, dict: seq<TermEntry>, postings: seq<byte>)
    requires Factor(q, 0, dict, postings).pos == |q|
    ensures Evaluate(q, dict, postings) == Factor(q, 0, dict, postings).ids
  {
    var f := Factor(q, 0, dict, postings);
    AtEnd(q, f.ids, dict, postings);
    assert Term(q, 0, dict, postings) == TermRest(q, |q|, f.ids, dict, postings);
    WholeTerm(q, dict, postings);
  }

  /** The word a opening the query a + op + b, where op starts with a
      byte that is not a word byte, is its first factor. */
  lemma LeadingWord(a: seq<byte>, op: seq<byte>, b: seq<byte>, dict: seq<TermEntry>, postings: seq<byte>)
    requires IsWord(a) && |op| > 0 && !IsWordChar(op[0])
    ensures Factor(a + op + b, 0, dict, postings) == Parsed(PostingsOf(dict, postings, Lowered(a)), |a|)
  {
    Assoc(a, op, b);
    assert a + op + b == [] + a + (op + b);
    WordFactor([], a, op + b, dict, postings);
  }

  /** The word b closing the query a + op + b is the factor at its start. */
  lemma TrailingWord(a: seq<byte>, op: seq<byte>, b: seq<byte>, dict: seq<TermEntry>, postings: seq<byte>)
    requires IsWord(b)
    ensures var q := a + op + b;
            Factor(q, |a| + |op|, dict, postings) == Parsed(PostingsOf(dict, postings, Lowered(b)), |q|)
  {
    assert a + op + b == (a + op) + b + [];
    WordFactor(a + op, b, [], dict, postings);
  }

  /** A first factor ending at n followed by one turn of the term loop at
      s that consumes the rest of the query. */
  lemma FactorThenStep(q: seq<byte>, n: nat, s: nat, lhs: seq<nat>, ids: seq<nat>, dict: seq<TermEntry>, postings: seq<byte>)
    requires n < s < |q| && Factor(q, 0, dict, postings) == Parsed(lhs, n)
    requires SkipSpaces(q, n) == s && q[s] != SPACE && !EndsTerm(q, s)
    requires TermStep(q, s, lhs, dict, postings) == Parsed(ids, |q|)
    ensures Evaluate(q, dict, postings) == ids
  {
    AtEnd(q, ids, dict, postings);
    assert TermRest(q, n, lhs, dict, postings) == Parsed(ids, |q|);
    WholeTerm(q, dict, postings);
  }

  /** Two words side by side: the second narrows the first only when
      its postings list is non-empty. */
  lemma AdjacentQuery(a: seq<byte>, b: seq<byte>, dict: seq<TermEntry>, postings: seq<byte>)
    requires IsWord(a) && IsWord(b)
    ensures var A, B := PostingsOf(dict, postings, Lowered(a)), PostingsOf(dict, postings, Lowered(b));
            Evaluate(a + [SPACE] + b, dict, postings) == if B == [] then A else Intersection(A, B)
  {
    var A, B := PostingsOf(dict, postings, Lowered(a)), PostingsOf(dict, postings, Lowered(b));
    var q := a + [SPACE] + b;
    var n := |a|;
    LeadingWord(a, [SPACE], b, dict, postings);
    TrailingWord(a, [SPACE], b, dict, postings);
    Middle(a, [SPACE], b);
    assert q[n] == SPACE && q[n + 1] == b[0] && IsWordChar(q[n + 1]);
    assert SkipSpaces(q, n) == n + 1;
    var ids := if B == [] then A else Intersection(A, B);
    assert TermStep(q, n + 1, A, dict, postings) == Parsed(ids, |q|);
    FactorThenStep(q, n, n + 1, A, ids, dict, postings);
  }

  /** `a && b` is the intersection, even when b's list is empty. */
  lemma AndQuery(a: seq<byte>, b: seq<byte>, dict: seq<TermEntry>, postings: seq<byte>)
    requires IsWord(a) && IsWord(b)
    ensures Evaluate(a + [SPACE, AMPERSAND, AMPERSAND, SPACE] + b, dict, postings)
            == Intersection(PostingsOf(dict, postings, Lowered(a)), PostingsOf(dict, postings, Lowered(b)))
  {
    var A, B := PostingsOf(dict, postings, Lowered(a)), PostingsOf(dict, postings, Lowered(b));
    var op := [SPACE, AMPERSAND, AMPERSAND, SPACE];
    var q := a + op + b;
    var n := |a|;
    LeadingWord(a, op, b, dict, postings);
    TrailingWord(a, op, b, dict, postings);
    Middle(a, op, b);
    assert q[n] == SPACE && q[n + 1] == AMPERSAND && q[n + 2] == AMPERSAND && q[n + 3] == SPACE;
    AndStep(q, n, A, dict, postings);
    FactorThenStep(q, n, n + 1, A, Intersection(A, B), dict, postings);
  }

  /** One turn of the term loop over " && ": the intersection with the
      factor after it. */
  lemma AndStep(q: seq<byte>, n: nat, lhs: seq<nat>, dict: seq<TermEntry>, postings: seq<byte>)
    requires n + 4 <= |q| && q[n] == SPACE && q[n + 1] == AMPERSAND && q[n + 2] == AMPERSAND && q[n + 3] == SPACE
    ensures SkipSpaces(q, n) == n + 1 && !EndsTerm(q, n + 1)
    ensures var rhs := Factor(q, n + 4, dict, postings);
            TermStep(q, n + 1, lhs, dict, postings) == Parsed(Intersection(lhs, rhs.ids), rhs.pos)
  {
    assert SkipSpaces(q, n + 3) == SkipSpaces(q, n + 4);
    FactorAfterSpaces(q, n + 3, dict, postings);
    FactorAfterSpaces(q, n + 4, dict, postings);
  }

  /** `a !b` keeps the ids of a that are not in b. */
  lemma ExceptQuery(a: seq<byte>, b: seq<byte>, dict: seq<TermEntry>, postings: seq<byte>)
    requires IsWord(a) && IsWord(b)
    ensures Evaluate(a + [SPACE, BANG] + b, dict, postings)
            == Difference(PostingsOf(dict, postings, Lowered(a)), PostingsOf(dict, postings, Lowered(b)))
  {
    var A, B := PostingsOf(dict, postings, Lowered(a)), PostingsOf(dict, postings, Lowered(b));
    var op := [SPACE, BANG];
    var q := a + op + b;
    var n := |a|;
    LeadingWord(a, op, b, dict, postings);
    TrailingWord(a, op, b, dict, postings);
    Middle(a, op, b);
    assert q[n] == SPACE && q[n + 1] == BANG;
    assert SkipSpaces(q, n) == n + 1;
    assert TermStep(q, n + 1, A, dict, postings) == Parsed(Difference(A, B), |q|);
    FactorThenStep(q, n, n + 1, A, Difference(A, B), dict, postings);
  }

  /** `a | b` and `a || b` are the union. */
  lemma OrQuery(a: seq<byte>, op: seq<byte>, b: seq<byte>, dict: seq<TermEntry>, postings: seq<byte>)
    requires IsWord(a) && IsWord(b) && (op == [SPACE, PIPE, SPACE] || op == [SPACE, PIPE, PIPE, SPACE])
    ensures Evaluate(a + op + b, dict, postings)
            == Union(PostingsOf(dict, postings, Lowered(a)), PostingsOf(dict, postings, Lowered(b)))
  {
    var A, B := PostingsOf(dict, postings, Lowered(a)), PostingsOf(dict, postings, Lowered(b));
    var q := a + op + b;
    var n, m := |a|, |a| + |op|;
    LeadingWord(a, op, b, dict, postings);
    Middle(a, op, b);
    assert q[n] == SPACE && q[n + 1] == PIPE;
    assert SkipSpaces(q, n) == n + 1;
    assert Term(q, 0, dict, postings) == Parsed(A, n + 1);
    var next := AfterBars(q, n + 1);
    assert Term(q, next, dict, postings) == Parsed(B, |q|) by {
      OrOperand(a, op, b, dict, postings);
    }
    AtEnd(q, Union(A, B), dict, postings);
    assert ExpressionRest(q, n + 1, A, dict, postings) == Parsed(Union(A, B), |q|);
  }

  /** The term after the bars of `a | b` or `a || b` is b. */
  lemma OrOperand(a: seq<byte>, op: seq<byte>, b: seq<byte>, dict: seq<TermEntry>, postings: seq<byte>)
    requires IsWord(b) && (op == [SPACE, PIPE, SPACE] || op == [SPACE, PIPE, PIPE, SPACE])
    ensures var q := a + op + b;
            Term(q, AfterBars(q, |a| + 1), dict, postings) == Parsed(PostingsOf(dict, postings, Lowered(b)), |q|)
  {
    BarsEnd(a, op, b);
    TrailingWord(a, op, b, dict, postings);
    LastOperand(a + op + b, |a| + 1, |a| + |op|, PostingsOf(dict, postings, Lowered(b)), dict, postings);
  }

  /** A factor at m that ends the query, reached past the bars at n and
      the spaces after them, is the whole term there. */
  lemma LastOperand(q: seq<byte>, n: nat, m: nat, ids: seq<nat>, dict: seq<TermEntry>, postings: seq<byte>)
    requires n < |q| && q[n] == PIPE && SkipSpaces(q, AfterBars(q, n)) == m
    requires Factor(q, m, dict, postings) == Parsed(ids, |q|)
    ensures Term(q, AfterBars(q, n), dict, postings) == Parsed(ids, |q|)
  {
    LoneFactorTerm(q, AfterBars(q, n), dict, postings);
  }

  /** Past the bars and the spaces after them the cursor is at b. */
  lemma BarsEnd(a: seq<byte>, op: seq<byte>, b: seq<byte>)
    requires IsWord(b) && (op == [SPACE, PIPE, SPACE] || op == [SPACE, PIPE, PIPE, SPACE])
    ensures var q := a + op + b;
            |a| + 1 < |q| && q[|a| + 1] == PIPE &&
            SkipSpaces(q, AfterBars(q, |a| + 1)) == |a| + |op|
  {
    var q := a + op + b;
    var n, m := |a|, |a| + |op|;
    Middle(a, op, b);
    assert q[n + 1] == PIPE && q[m - 1] == SPACE && q[m] == b[0];
    assert q[m] != SPACE;
    if op == [SPACE, PIPE, PIPE, SPACE] {
      assert q[n + 2] == PIPE;
      assert SkipSpaces(q, n + 2) == n + 2;
      assert AfterBars(q, n + 1) == n + 3;
    } else {
      assert q[n + 2] == SPACE;
      assert SkipSpaces(q, n + 2) == m;
      assert AfterBars(q, n + 1) == m;
    }
  }

  /** A term whose first factor runs to the end of the query is that
      factor. */
  lemma LoneFactorTerm(q: seq<byte>, p: nat, dict: seq<TermEntry>, postings: seq<byte>)
    requires p <= |q| && Factor(q, SkipSpaces(q, p), dict, postings).pos == |q|
    ensures Term(q, p, dict, postings) == Factor(q, SkipSpaces(q, p), dict, postings)
  {
    FactorAfterSpaces(q, p, dict, postings);
    AtEnd(q, Factor(q, p, dict, postings).ids, dict, postings);
  }

  /** A leading '!' makes the whole term empty, whatever follows. */
  lemma NegatedQuery(a: seq<byte>, dict: seq<TermEntry>, postings: seq<byte>)
    requires IsWord(a)
    ensures Evaluate([BANG] + a, dict, postings) == []
  {
    var q := [BANG] + a;
    assert q == [BANG] + a + [];
    WordFactor([BANG], a, [], dict, postings);
    assert Factor(q, 0, dict, postings) == Parsed([], |q|);
    WholeFactor(q, dict, postings);
  }

  /** A parenthesised word finds its postings list, with or without the
      closing ')'. */
  lemma GroupQuery(a: seq<byte>, close: seq<byte>, dict: seq<TermEntry>, postings: seq<byte>)
    requires IsWord(a) && (close == [] || close == [RPAREN])
    ensures Evaluate([LPAREN] + a + close, dict, postings) == PostingsOf(dict, postings, Lowered(a))
  {
    var A := PostingsOf(dict, postings, Lowered(a));
    var q := [LPAREN] + a + close;
    var n := 1 + |a|;
    GroupInner(a, close, dict, postings);
    assert q[0] == LPAREN;
    if close != [] {
      assert q[n] == RPAREN;
    }
    assert Factor(q, 0, dict, postings) == Parsed(A, |q|);
    WholeFactor(q, dict, postings);
  }

  /** Inside the parentheses, the word is the whole expression, which
      stops at the ')' or at the end. */
  lemma GroupInner(a: seq<byte>, close: seq<byte>, dict: seq<TermEntry>, postings: seq<byte>)
    requires IsWord(a) && (close == [] || close == [RPAREN])
    ensures var q := [LPAREN] + a + close;
            Expression(q, 1, dict, postings) == Parsed(PostingsOf(dict, postings, Lowered(a)), 1 + |a|)
  {
    var A := PostingsOf(dict, postings, Lowered(a));
    var q := [LPAREN] + a + close;
    var n := 1 + |a|;
    WordFactor([LPAREN], a, close, dict, postings);
    Middle([LPAREN], a, close);
    if close == [] {
      AtEnd(q, A, dict, postings);
    } else {
      assert q[n] == RPAREN;
      assert TermRest(q, n, A, dict, postings) == Parsed(A, n);
      assert ExpressionRest(q, n, A, dict, postings) == Parsed(A, n);
    }
    assert Term(q, 1, dict, postings) == Parsed(A, n);
  }
}
