/** Character classes, tokenisation, line splitting and string order,
    shared by the index builder and the word-frequency tokenizer (both
    scan bytes with the same separator rule) and by the query engine
    (which orders terms as `std::string` does). */
module Text {
  import opened Codec

  const TAB: byte := 9
  const NEWLINE: byte := 10
  const SPACE: byte := 32
  const BANG: byte := 33
  const QUOTE: byte := 34
  const AMPERSAND: byte := 38
  const APOSTROPHE: byte := 39
  const LPAREN: byte := 40
  const RPAREN: byte := 41
  const UNDERSCORE: byte := 95
  const PIPE: byte := 124

  predicate IsDigit(c: byte) { 48 <= c <= 57 }
  predicate IsUpper(c: byte) { 65 <= c <= 90 }
  predicate IsLower(c: byte) { 97 <= c <= 122 }

  /** `isalnum` in the C locale: ASCII letters and digits only. */
  predicate IsAlnum(c: byte) { IsDigit(c) || IsUpper(c) || IsLower(c) }

  /** The separator rule of both scanners: a byte above 127 always
      belongs to a token; an ASCII byte separates iff it is not a letter
      or a digit. */
  predicate IsSeparator(c: byte)
  {
    if c > 127 then false else !IsAlnum(c)
  }

  /** The separators, listed as the ranges of ASCII that are neither
      letters nor digits. */
  lemma SeparatorRanges(c: byte)
    ensures IsSeparator(c) <==> c < 48 || 57 < c < 65 || 90 < c < 97 || 122 < c <= 127
  {
  }

  /** ASCII lower-casing: only 'A'..'Z' move, by 32. */
  function ToLower(c: byte): (r: byte)
    ensures !IsUpper(r)
    ensures IsSeparator(r) == IsSeparator(c)
    ensures r != c ==> IsUpper(c) && r == c + 32
  {
    if IsUpper(c) then c + 32 else c
  }

  /** A byte that can appear in a token once it has been lower-cased. */
  predicate IsTokenByte(b: byte) { !IsSeparator(b) && !IsUpper(b) }

  /** What every emitted token is: non-empty, lower-cased, separator-free. */
  predicate IsToken(t: seq<byte>)
  {
    |t| > 0 && forall k :: 0 <= k < |t| ==> IsTokenByte(t[k])
  }

  /** State of the byte-by-byte scanner: the tokens completed so far and
      the (lower-cased) token being built. */
  datatype ScanState = ScanState(done: seq<seq<byte>>, pending: seq<byte>)

  /** One byte of input: a separator completes a non-empty pending token;
      any other byte is appended to it, lower-cased. */
  function Step(st: ScanState, c: byte): ScanState
  {
    if IsSeparator(c) then
      if st.pending == [] then st else ScanState(st.done + [st.pending], [])
    else
      ScanState(st.done, st.pending + [ToLower(c)])
  }

  /** The scanner's state after reading all of s, from the empty state. */
  function Scan(s: seq<byte>): (st: ScanState)
    ensures forall k :: 0 <= k < |st.done| ==> IsToken(st.done[k]) && |st.done[k]| <= |s|
    ensures forall k :: 0 <= k < |st.pending| ==> IsTokenByte(st.pending[k])
    ensures |st.pending| <= |s|
  {
    if s == [] then ScanState([], [])
    else Step(Scan(s[..|s| - 1]), s[|s| - 1])
  }

  /** The tokens of s: the completed ones plus a trailing run that no
      separator ended. */
  function Tokens(s: seq<byte>): (r: seq<seq<byte>>)
    ensures forall k :: 0 <= k < |r| ==> IsToken(r[k]) && |r[k]| <= |s|
  {
    var st := Scan(s);
    if st.pending == [] then st.done else st.done + [st.pending]
  }

  /** A separator-free byte string, lower-cased byte by byte. */
  function Lowered(s: seq<byte>): (r: seq<byte>)
    ensures |r| == |s| && forall k :: 0 <= k < |s| ==> r[k] == ToLower(s[k])
  {
    seq(|s|, k requires 0 <= k < |s| => ToLower(s[k]))
  }

  /** Scanning a run of token bytes leaves the whole run, lower-cased,
      pending. */
  lemma {:induction false} ScanRun(s: seq<byte>)
    requires forall k :: 0 <= k < |s| ==> !IsSeparator(s[k])
    ensures Scan(s) == ScanState([], Lowered(s))
  {
    if s != [] {
      var init := s[..|s| - 1];
      ScanRun(init);
      assert Lowered(init) + [ToLower(s[|s| - 1])] == Lowered(s);
    }
  }

  /** A maximal run of non-separators is exactly one token. */
  lemma TokensOfRun(s: seq<byte>)
    requires |s| > 0 && forall k :: 0 <= k < |s| ==> !IsSeparator(s[k])
    ensures Tokens(s) == [Lowered(s)]
  {
    ScanRun(s);
  }

  /** Once nothing is pending, the scan of the rest proceeds as from the
      start, its tokens following those already completed. */
  lemma {:induction false} ScanAfterBoundary(a: seq<byte>, b: seq<byte>)
    requires Scan(a).pending == []
    ensures Scan(a + b) == ScanState(Scan(a).done + Scan(b).done, Scan(b).pending)
    decreases |b|
  {
    if b == [] {
      assert a + b == a;
    } else {
      var b' := b[..|b| - 1];
      var c := b[|b| - 1];
      assert (a + b)[..|a + b| - 1] == a + b';
      assert b[..|b| - 1] == b';
      ScanAfterBoundary(a, b');
      var d := Scan(a).done;
      var sb := Scan(b');
      if IsSeparator(c) && sb.pending != [] {
        assert d + sb.done + [sb.pending] == d + (sb.done + [sb.pending]);
      }
    }
  }

  /** A separator splits the token stream: nothing spans it. */
  lemma TokensSplit(a: seq<byte>, c: byte, b: seq<byte>)
    requires IsSeparator(c)
    ensures Tokens(a + [c] + b) == Tokens(a) + Tokens(b)
  {
    var ac := a + [c];
    assert ac[..|ac| - 1] == a;
    assert Scan(ac) == ScanState(Tokens(a), []);
    ScanAfterBoundary(ac, b);
    var sb := Scan(b);
    if sb.pending != [] {
      assert Tokens(a) + sb.done + [sb.pending] == Tokens(a) + (sb.done + [sb.pending]);
    }
  }

  // ---------------------------------------------------------------------
  // Lines and tab-separated fields (`std::getline`)

  /** Position of the first newline in s, or |s| if there is none. */
  function LineEnd(s: seq<byte>): (e: nat)
    ensures e <= |s|
    ensures e < |s| ==> s[e] == NEWLINE
    ensures forall k :: 0 <= k < e ==> s[k] != NEWLINE
  {
    if s == [] || s[0] == NEWLINE then 0 else 1 + LineEnd(s[1..])
  }

  /** The lines `while (std::getline(in, line))` yields: split at each
      newline; a final newline does not start an extra empty line; an
      empty input has no lines. */
  function Lines(s: seq<byte>): (r: seq<seq<byte>>)
    ensures forall k :: 0 <= k < |r| ==> NEWLINE !in r[k]
    decreases |s|
  {
    if s == [] then []
    else
      var e := LineEnd(s);
      [s[..e]] + Lines(if e < |s| then s[e + 1..] else [])
  }

  /** The concatenated tokens of each line. */
  function LineTokens(lines: seq<seq<byte>>): seq<seq<byte>>
  {
    if lines == [] then [] else Tokens(lines[0]) + LineTokens(lines[1..])
  }

  lemma SplitAt(s: seq<byte>, e: nat)
    requires e < |s|
    ensures s == s[..e] + [s[e]] + s[e + 1..]
  {
  }

  /** The first line of s and what follows its newline: the line-wise
      tokens and the tokens of s both split there. */
  lemma FirstLine(s: seq<byte>) returns (line: seq<byte>, rest: seq<byte>)
    requires s != []
    ensures |rest| < |s|
    ensures LineTokens(Lines(s)) == Tokens(line) + LineTokens(Lines(rest))
    ensures Tokens(s) == Tokens(line) + Tokens(rest)
  {
    var e := LineEnd(s);
    rest := if e < |s| then s[e + 1..] else [];
    line := s[..e];
    var lines := [line] + Lines(rest);
    assert Lines(s) == lines;
    assert lines[1..] == Lines(rest);
    if e < |s| {
      SplitAt(s, e);
      TokensSplit(line, NEWLINE, rest);
    } else {
      assert line == s;
      assert Tokens(rest) == [];
    }
  }

  /** Scanning line by line (flushing the pending token at each line's
      end) yields exactly the tokens of the whole input: a newline is a
      separator, so no token spans two lines. */
  lemma {:induction false} LineTokensAreTokens(s: seq<byte>)
    ensures LineTokens(Lines(s)) == Tokens(s)
    decreases |s|
  {
    if s != [] {
      var line, rest := FirstLine(s);
      LineTokensAreTokens(rest);
    }
  }

  /** Position of the first tab in s, or |s|. */
  function FieldEnd(s: seq<byte>): (e: nat)
    ensures e <= |s|
    ensures e < |s| ==> s[e] == TAB
    ensures forall k :: 0 <= k < e ==> s[k] != TAB
  {
    if s == [] || s[0] == TAB then 0 else 1 + FieldEnd(s[1..])
  }

  /** `std::getline(ss, field, '\t')`: the bytes before the first tab. */
  function Field(s: seq<byte>): (f: seq<byte>)
    ensures TAB !in f && f <= s
  {
    s[..FieldEnd(s)]
  }

  /** What remains of the stream after that getline: the bytes after the
      tab, or nothing when the field ran to the end. */
  function AfterField(s: seq<byte>): (r: seq<byte>)
    ensures |r| <= |s|
  {
    var e := FieldEnd(s);
    if e < |s| then s[e + 1..] else []
  }

  /** A field followed by a tab: getline returns the field and leaves the
      stream just past the tab. */
  lemma FieldThen(u: seq<byte>, rest: seq<byte>)
    requires TAB !in u
    ensures Field(u + [TAB] + rest) == u
    ensures AfterField(u + [TAB] + rest) == rest
  {
    var s := u + [TAB] + rest;
    var e := FieldEnd(s);
    assert s[|u|] == TAB;
    assert forall k :: 0 <= k < |u| ==> s[k] == u[k];
    assert s[|u| + 1..] == rest;
  }

  /** A last field with no tab: getline returns all of it and the stream
      is exhausted. */
  lemma FieldWhole(u: seq<byte>)
    requires TAB !in u
    ensures Field(u) == u && AfterField(u) == []
  {
  }

  // ---------------------------------------------------------------------
  // The order of `std::string::operator<` (bytes compared unsigned)

  function LexLess(a: seq<byte>, b: seq<byte>): bool
  {
    if b == [] then false
    else if a == [] then true
    else if a[0] != b[0] then a[0] < b[0]
    else LexLess(a[1..], b[1..])
  }

  lemma {:induction false} LexLessIrreflexive(a: seq<byte>)
    ensures !LexLess(a, a)
  {
    if a != [] { LexLessIrreflexive(a[1..]); }
  }

  lemma {:induction false} LexLessTransitive(a: seq<byte>, b: seq<byte>, c: seq<byte>)
    requires LexLess(a, b) && LexLess(b, c)
    ensures LexLess(a, c)
  {
    if a != [] && a[0] == b[0] && b[0] == c[0] {
      LexLessTransitive(a[1..], b[1..], c[1..]);
    }
  }

  lemma {:induction false} LexLessTotal(a: seq<byte>, b: seq<byte>)
    ensures a == b || LexLess(a, b) || LexLess(b, a)
  {
    if a != [] && b != [] && a[0] == b[0] {
      LexLessTotal(a[1..], b[1..]);
      if a[1..] == b[1..] {
        assert a == [a[0]] + a[1..] && b == [b[0]] + b[1..];
      }
    }
  }

  /** Two strings are never each less than the other. */
  lemma LexLessAsymmetric(a: seq<byte>, b: seq<byte>)
    requires LexLess(a, b)
    ensures !LexLess(b, a)
  {
    if LexLess(b, a) {
      LexLessTransitive(a, b, a);
      LexLessIrreflexive(a);
    }
  }
}
