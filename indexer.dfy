/** The index builder: it reads tab-separated records (url, title, text)
    one per line, writes the document store, collects a (term, doc id)
    pair per token, sorts the pairs and merges them into one postings
    list per distinct term, written with its term-index entry. */
module Indexer {
  import opened Codec
  import opened Sequences
  import opened Text
  import opened SetAlgebra
  import opened IndexFormat
  import opened Sorting

  /** `RawEntry`: one occurrence of a term in a document. */
  datatype RawEntry = RawEntry(term: seq<byte>, docId: nat)

  /** `RawEntry::operator<`: by term, then by document id. */
  function EntryLess(a: RawEntry, b: RawEntry): bool
  {
    if a.term != b.term then LexLess(a.term, b.term) else a.docId < b.docId
  }

  /** Two entries are equal or one is less than the other. */
  lemma EntryLessTotal(a: RawEntry, b: RawEntry)
    ensures a == b || EntryLess(a, b) || EntryLess(b, a)
  {
    LexLessTotal(a.term, b.term);
  }

  lemma EntryLessTransitive(a: RawEntry, b: RawEntry, c: RawEntry)
    requires EntryLess(a, b) && EntryLess(b, c)
    ensures EntryLess(a, c)
  {
    if a.term != b.term && b.term != c.term {
      LexLessTransitive(a.term, b.term, c.term);
      if a.term == c.term {
        LexLessIrreflexive(a.term);
      }
    }
  }

  lemma EntryLessAsymmetric(a: RawEntry, b: RawEntry)
    requires EntryLess(a, b)
    ensures !EntryLess(b, a)
  {
    if a.term != b.term {
      LexLessAsymmetric(a.term, b.term);
    }
  }

  /** The entry order is one `std::sort` accepts. */
  lemma EntryOrder()
    ensures StrictWeakOrder(EntryLess)
  {
    forall x, y | EntryLess(x, y)
      ensures !EntryLess(y, x)
    {
      EntryLessAsymmetric(x, y);
    }
    forall x, y, z | !EntryLess(x, y) && !EntryLess(y, z)
      ensures !EntryLess(x, z)
    {
      if x != y && y != z {
        EntryLessTotal(x, y);
        EntryLessTotal(y, z);
        EntryLessTransitive(z, y, x);
        EntryLessAsymmetric(z, x);
      }
    }
  }

  // ---------------------------------------------------------------------
  // Records

  /** The three `std::getline(ss, field, '\t')` calls on a line: url,
      title and text; a field with no tab before it is empty. */
  function SplitRecord(line: seq<byte>): (d: Document)
    ensures TAB !in d.url && TAB !in d.title && TAB !in d.text
  {
    var afterUrl := AfterField(line);
    var afterTitle := AfterField(afterUrl);
    Document(Field(line), Field(afterUrl), Field(afterTitle))
  }

  /** The documents the builder keeps, in line order: those whose text
      is not empty. The k-th kept document gets id k. */
  function KeptDocuments(lines: seq<seq<byte>>): (docs: seq<Document>)
    ensures |docs| <= |lines|
    ensures forall k :: 0 <= k < |docs| ==> docs[k].text != []
  {
    if lines == [] then [] else KeptDocuments(lines[..|lines| - 1]) + KeptLine(lines[|lines| - 1])
  }

  /** What one line contributes: its record, unless its text is empty. */
  function KeptLine(line: seq<byte>): (r: seq<Document>)
    ensures |r| <= 1 && forall k :: 0 <= k < |r| ==> r[k] == SplitRecord(line) && r[k].text != []
  {
    var d := SplitRecord(line);
    if d.text == [] then [] else [d]
  }

  /** A line with two tabs: url, title, and the text up to any further
      tab. */
  lemma SplitRecordFields(u: seq<byte>, t: seq<byte>, x: seq<byte>)
    requires TAB !in u && TAB !in t
    ensures SplitRecord(u + [TAB] + t + [TAB] + x) == Document(u, t, Field(x))
  {
    var line := u + [TAB] + t + [TAB] + x;
    assert line == u + [TAB] + (t + [TAB] + x);
    FieldThen(u, t + [TAB] + x);
    FieldThen(t, x);
  }

  /** A line with one tab: url and title, and an empty text. */
  lemma SplitRecordOneTab(u: seq<byte>, t: seq<byte>)
    requires TAB !in u && TAB !in t
    ensures SplitRecord(u + [TAB] + t) == Document(u, t, [])
  {
    FieldThen(u, t);
    FieldWhole(t);
    FieldWhole([]);
  }

  /** A line with no tab: all of it is the url; title and text are empty. */
  lemma SplitRecordNoTab(line: seq<byte>)
    requires TAB !in line
    ensures SplitRecord(line) == Document(line, [], [])
  {
    FieldWhole(line);
    FieldWhole([]);
  }

  /** One more line adds its contribution at the end. */
  lemma KeptSnoc(lines: seq<seq<byte>>, l: seq<byte>)
    ensures KeptDocuments(lines + [l]) == KeptDocuments(lines) + KeptLine(l)
  {
    var s := lines + [l];
    assert s[..|s| - 1] == lines;
  }

  /** Splitting the input's lines anywhere splits the kept documents
      there: documents keep their lines' order. */
  lemma {:induction false} KeptDocumentsAppend(a: seq<seq<byte>>, b: seq<seq<byte>>)
    ensures KeptDocuments(a + b) == KeptDocuments(a) + KeptDocuments(b)
    decreases |b|
  {
    if b == [] {
      assert a + b == a;
    } else {
      var init, l := b[..|b| - 1], b[|b| - 1];
      ButLast(b);
      Assoc(a, init, [l]);
      calc {
        KeptDocuments(a + b);
        { KeptSnoc(a + init, l); }
        KeptDocuments(a + init) + KeptLine(l);
        { KeptDocumentsAppend(a, init); }
        KeptDocuments(a) + KeptDocuments(init) + KeptLine(l);
        { Assoc(KeptDocuments(a), KeptDocuments(init), KeptLine(l)); }
        KeptDocuments(a) + (KeptDocuments(init) + KeptLine(l));
        { KeptSnoc(init, l); }
        KeptDocuments(a) + KeptDocuments(b);
      }
    }
  }

  /** Line i is kept, between the documents of the lines before and after
      it, exactly when its text is not empty; its id is the number of
      documents kept before it. */
  lemma KeptLineAt(lines: seq<seq<byte>>, i: nat)
    requires i < |lines|
    ensures KeptDocuments(lines) == KeptDocuments(lines[..i]) + KeptLine(lines[i]) + KeptDocuments(lines[i + 1..])
    ensures KeptLine(lines[i]) == if SplitRecord(lines[i]).text == [] then [] else [SplitRecord(lines[i])]
  {
    var before, line, after := lines[..i], lines[i], lines[i + 1..];
    Around(lines, i);
    calc {
      KeptDocuments(lines);
      KeptDocuments(before + [line] + after);
      { KeptDocumentsAppend(before + [line], after); }
      KeptDocuments(before + [line]) + KeptDocuments(after);
      { KeptSnoc(before, line); }
      KeptDocuments(before) + KeptLine(line) + KeptDocuments(after);
    }
  }

  /** A document is kept iff some line splits into it and its text is not
      empty. */
  lemma {:induction false} KeptDocumentsMembers(lines: seq<seq<byte>>, d: Document)
    ensures d in KeptDocuments(lines) <==> d.text != [] && exists l :: l in lines && SplitRecord(l) == d
    decreases |lines|
  {
    if lines != [] {
      var init, last := lines[..|lines| - 1], lines[|lines| - 1];
      ButLast(lines);
      KeptSnoc(init, last);
      KeptDocumentsMembers(init, d);
      var kept, mine := KeptDocuments(init), KeptLine(last);
      assert d in KeptDocuments(lines) <==> d in kept || d in mine;
      assert d in mine <==> SplitRecord(last) == d && d.text != [];
      if d in kept {
        var l :| l in init && SplitRecord(l) == d;
        InSnoc(init, last, l);
      } else if d in mine {
        InSnoc(init, last, last);
      }
      if d.text != [] && exists l :: l in lines && SplitRecord(l) == d {
        var l :| l in lines && SplitRecord(l) == d;
        InSnoc(init, last, l);
      }
    }
  }

  /** The pairs for one document's tokens, in text order. */
  function DocEntries(tokens: seq<seq<byte>>, id: nat): (r: seq<RawEntry>)
    ensures |r| == |tokens|
    ensures forall k :: 0 <= k < |r| ==> r[k] == RawEntry(tokens[k], id)
  {
    seq(|tokens|, k requires 0 <= k < |tokens| => RawEntry(tokens[k], id))
  }

  /** The pairs of all documents, in document order. */
  function AllEntries(docs: seq<Document>): seq<RawEntry>
  {
    if docs == [] then []
    else AllEntries(docs[..|docs| - 1]) + DocEntries(Tokens(docs[|docs| - 1].text), |docs| - 1)
  }

  /** A pair is collected exactly when its term is a token of the text of
      the document its id numbers. */
  lemma {:induction false} AllEntriesMembers(docs: seq<Document>, e: RawEntry)
    ensures e in AllEntries(docs) <==> e.docId < |docs| && e.term in Tokens(docs[e.docId].text)
    decreases |docs|
  {
    if docs != [] {
      var n := |docs| - 1;
      var init := docs[..n];
      AllEntriesMembers(init, e);
      var mine := DocEntries(Tokens(docs[n].text), n);
      assert e in mine <==> e.docId == n && e.term in Tokens(docs[n].text) by {
        if e in mine {
          var k :| 0 <= k < |mine| && mine[k] == e;
        }
        if e.docId == n && e.term in Tokens(docs[n].text) {
          var k :| 0 <= k < |Tokens(docs[n].text)| && Tokens(docs[n].text)[k] == e.term;
          assert mine[k] == e;
        }
      }
      if e.docId < n {
        assert docs[e.docId] == init[e.docId];
      }
    }
  }

  /** One pair per token of the text, in order: the scanning loop over the
      text's bytes, then the trailing token. */
  method AddTokens(entries: seq<RawEntry>, text: seq<byte>, docId: nat) returns (out: seq<RawEntry>)
    ensures out == entries + DocEntries(Tokens(text), docId)
  {
    out := entries;
    var token: seq<byte> := [];
    ghost var done: seq<seq<byte>> := [];
    var i := 0;
    while i < |text|
      invariant i <= |text|
      invariant Scan(text[..i]) == ScanState(done, token)
      invariant out == entries + DocEntries(done, docId)
    {
      var c := text[i];
      assert text[..i + 1][..i] == text[..i];
      if IsSeparator(c) {
        if token != [] {
          Assoc(entries, DocEntries(done, docId), [RawEntry(token, docId)]);
          assert DocEntries(done + [token], docId) == DocEntries(done, docId) + [RawEntry(token, docId)];
          out := out + [RawEntry(token, docId)];
          done := done + [token];
          token := [];
        }
      } else {
        token := token + [ToLower(c)];
      }
      i := i + 1;
    }
    assert text[..i] == text;
    if token != [] {
      Assoc(entries, DocEntries(done, docId), [RawEntry(token, docId)]);
      assert DocEntries(done + [token], docId) == DocEntries(done, docId) + [RawEntry(token, docId)];
      out := out + [RawEntry(token, docId)];
    }
  }

  /** The four writes of a document-data record, appended to the file. */
  lemma RecordWrites(file: seq<byte>, d: Document)
    ensures var ul, tl := |d.url| % U16_LIMIT, |d.title| % U16_LIMIT;
            file + U16(ul) + d.url[..ul] + U16(tl) + d.title[..tl] == file + Record(d)
  {
    var ul, tl := |d.url| % U16_LIMIT, |d.title| % U16_LIMIT;
    var a, b, c, e := U16(ul), d.url[..ul], U16(tl), d.title[..tl];
    assert Record(d) == a + (b + (c + e));
    Assoc(file, a, b + (c + e));
    Assoc(file + a, b, c + e);
    Assoc(file + a + b, c, e);
  }

  /** Keeping one more line's record, if its text is not empty. */
  lemma KeptStep(lines: seq<seq<byte>>, i: nat)
    requires i < |lines|
    ensures var d := SplitRecord(lines[i]);
            KeptDocuments(lines[..i + 1])
              == KeptDocuments(lines[..i]) + (if d.text == [] then [] else [d])
  {
    assert lines[..i + 1][..i] == lines[..i];
  }

  /** What storing one more document adds to each phase-1 output. */
  lemma StoreStep(docs: seq<Document>, d: Document)
    ensures DataFile(docs + [d]) == DataFile(docs) + Record(d)
    ensures IndexFile(docs + [d]) == IndexFile(docs) + U64(|DataFile(docs)| % U64_LIMIT)
    ensures AllEntries(docs + [d]) == AllEntries(docs) + DocEntries(Tokens(d.text), |docs|)
  {
    assert (docs + [d])[..|docs|] == docs;
  }

  /** Writing one kept record: its offset in the data file, as a u64, to
      the index file, then the record to the data file. */
  method StoreDocument(docsData: seq<byte>, docsIndex: seq<byte>, d: Document)
    returns (data: seq<byte>, index: seq<byte>)
    ensures data == docsData + Record(d)
    ensures index == docsIndex + U64(|docsData| % U64_LIMIT)
  {
    index := docsIndex + U64(|docsData| % U64_LIMIT);
    var ul, tl := |d.url| % U16_LIMIT, |d.title| % U16_LIMIT;
    RecordWrites(docsData, d);
    data := docsData + U16(ul);
    data := data + d.url[..ul];
    data := data + U16(tl);
    data := data + d.title[..tl];
  }

  /** Phase 1, over the input's lines: skip records with empty text;
      for each kept one write its offset to the document index and its
      record to the document data, collect its token pairs and give the
      next document the next id. */
  method CollectDocuments(lines: seq<seq<byte>>)
    returns (docsData: seq<byte>, docsIndex: seq<byte>, entries: seq<RawEntry>, docCount: nat)
    ensures docsData == DataFile(KeptDocuments(lines))
    ensures docsIndex == IndexFile(KeptDocuments(lines))
    ensures entries == AllEntries(KeptDocuments(lines))
    ensures docCount == |KeptDocuments(lines)|
  {
    docsData, docsIndex, entries, docCount := [], [], [], 0;
    var i := 0;
    while i < |lines|
      invariant i <= |lines|
      invariant docsData == DataFile(KeptDocuments(lines[..i]))
      invariant docsIndex == IndexFile(KeptDocuments(lines[..i]))
      invariant entries == AllEntries(KeptDocuments(lines[..i]))
      invariant docCount == |KeptDocuments(lines[..i])|
    {
      ghost var docs := KeptDocuments(lines[..i]);
      var d := SplitRecord(lines[i]);
      KeptStep(lines, i);
      if d.text != [] {
        StoreStep(docs, d);
        docsData, docsIndex := StoreDocument(docsData, docsIndex, d);
        entries := AddTokens(entries, d.text, docCount);
        docCount := docCount + 1;
      } else {
        assert docs + [] == docs;
      }
      i := i + 1;
    }
    assert lines[..i] == lines;
  }

  // ---------------------------------------------------------------------
  // Merging sorted pairs into postings lists

  /** One term's merged postings list. */
  datatype Group = Group(term: seq<byte>, ids: seq<nat>)

  /** The merge loop's step on one pair: the same term as the current
      list extends it unless the id repeats the list's last one; a new
      term starts a new list. */
  function AddEntry(groups: seq<Group>, e: RawEntry): (r: seq<Group>)
    ensures |groups| <= |r| <= |groups| + 1
    ensures forall k :: 0 <= k < |groups| ==> r[k].term == groups[k].term
    ensures r != [] && r[|r| - 1].term == e.term
  {
    if groups != [] && groups[|groups| - 1].term == e.term then
      var last := groups[|groups| - 1];
      var ids := if last.ids != [] && last.ids[|last.ids| - 1] == e.docId then last.ids else last.ids + [e.docId];
      groups[..|groups| - 1] + [Group(e.term, ids)]
    else
      groups + [Group(e.term, [e.docId])]
  }

  /** The lists the merge builds from a sequence of pairs. */
  function Grouped(es: seq<RawEntry>): seq<Group>
  {
    if es == [] then [] else AddEntry(Grouped(es[..|es| - 1]), es[|es| - 1])
  }

  /** The postings lists alone, in term order. */
  function Lists(groups: seq<Group>): (r: seq<seq<nat>>)
    ensures |r| == |groups|
    ensures forall k :: 0 <= k < |r| ==> r[k] == groups[k].ids
  {
    seq(|groups|, k requires 0 <= k < |groups| => groups[k].ids)
  }

  /** The term-index entries: each list's byte offset in the postings
      file (the file's length before it, as a `u64`) and its length (as
      a `u32`). */
  function Directory(groups: seq<Group>): (r: seq<TermEntry>)
    ensures |r| == |groups| && AllRepresentable(r)
    ensures forall k :: 0 <= k < |r| ==> r[k].term == groups[k].term
  {
    if groups == [] then []
    else
      var init, last := groups[..|groups| - 1], groups[|groups| - 1];
      Directory(init) + [TermEntry(last.term, (4 * TotalLength(Lists(init))) % U64_LIMIT, |last.ids| % U32_LIMIT)]
  }

  /** Every list is non-empty and strictly ascending (hence duplicate
      free), and the terms are strictly ascending (one list per term). */
  predicate WellFormed(groups: seq<Group>)
  {
    (forall k :: 0 <= k < |groups| ==> groups[k].ids != [] && Ascending(groups[k].ids)) &&
    (forall i, j :: 0 <= i < j < |groups| ==> LexLess(groups[i].term, groups[j].term))
  }

  lemma AscendingSnoc(s: seq<nat>, x: nat)
    requires Ascending(s) && (s == [] || s[|s| - 1] < x)
    ensures Ascending(s + [x])
  {
    var t := s + [x];
    forall i, j | 0 <= i < j < |t|
      ensures t[i] < t[j]
    {
      if j == |s| && i < |s| - 1 {
        assert s[i] < s[|s| - 1];
      }
    }
  }

  lemma SortedPrefix(es: seq<RawEntry>, n: nat)
    requires Sorted(es, EntryLess) && n <= |es|
    ensures Sorted(es[..n], EntryLess)
  {
    var p := es[..n];
    assert forall i :: 0 <= i < n ==> p[i] == es[i];
  }

  /** In a sorted sequence every term is at most the last one's. */
  lemma TermsUpToLast(es: seq<RawEntry>, x: RawEntry)
    requires Sorted(es, EntryLess) && x in es
    ensures x.term == es[|es| - 1].term || LexLess(x.term, es[|es| - 1].term)
  {
    var p :| 0 <= p < |es| && es[p] == x;
    if p < |es| - 1 {
      assert !EntryLess(es[|es| - 1], es[p]);
      LexLessTotal(x.term, es[|es| - 1].term);
    }
  }

  /** The last list belongs to e's term and ends with e's id. */
  predicate EndsWith(groups: seq<Group>, e: RawEntry)
  {
    groups != [] && groups[|groups| - 1].term == e.term &&
    var ids := groups[|groups| - 1].ids;
    ids != [] && ids[|ids| - 1] == e.docId
  }

  /** A pair of the current list's term with an id not below its last:
      only the last list changes, gaining the id if it is new. */
  lemma AddSameTerm(groups: seq<Group>, e: RawEntry)
    requires WellFormed(groups) && groups != []
    requires groups[|groups| - 1].term == e.term
    requires var ids := groups[|groups| - 1].ids; ids[|ids| - 1] <= e.docId
    ensures var r := AddEntry(groups, e);
            WellFormed(r) && EndsWith(r, e) && |r| == |groups| &&
            (forall k :: 0 <= k < |groups| - 1 ==> r[k] == groups[k]) &&
            e.docId in r[|r| - 1].ids &&
            (r[|r| - 1].ids == groups[|groups| - 1].ids || r[|r| - 1].ids == groups[|groups| - 1].ids + [e.docId])
  {
    var last := groups[|groups| - 1];
    var ids := if last.ids[|last.ids| - 1] == e.docId then last.ids else last.ids + [e.docId];
    var r := AddEntry(groups, e);
    assert r == groups[..|groups| - 1] + [Group(e.term, ids)];
    if ids != last.ids {
      AscendingSnoc(last.ids, e.docId);
    }
    assert forall k :: 0 <= k < |groups| - 1 ==> r[k] == groups[k];
  }

  /** A pair whose term follows every list's term starts a new list. */
  lemma AddNewTerm(groups: seq<Group>, e: RawEntry)
    requires WellFormed(groups)
    requires groups != [] ==> LexLess(groups[|groups| - 1].term, e.term)
    ensures AddEntry(groups, e) == groups + [Group(e.term, [e.docId])]
    ensures WellFormed(AddEntry(groups, e)) && EndsWith(AddEntry(groups, e), e)
    ensures forall k :: 0 <= k < |groups| ==> groups[k].term != e.term
  {
    if groups != [] {
      LexLessIrreflexive(e.term);
    }
    var r := AddEntry(groups, e);
    var n := |groups|;
    forall i, j | 0 <= i < j < |r|
      ensures LexLess(r[i].term, r[j].term)
    {
      if j == n && i < n - 1 {
        LexLessTransitive(groups[i].term, groups[n - 1].term, e.term);
      }
    }
    forall k | 0 <= k < n
      ensures groups[k].term != e.term
    {
      if k < n - 1 {
        LexLessTransitive(groups[k].term, groups[n - 1].term, e.term);
        LexLessIrreflexive(e.term);
      }
    }
  }

  /** The pair after the sorted prefix init: same term and no smaller id
      as init's last pair, or a later term. */
  lemma NextPair(es: seq<RawEntry>)
    requires Sorted(es, EntryLess) && |es| >= 2
    ensures var x, e := es[|es| - 2], es[|es| - 1];
            (x.term == e.term && x.docId <= e.docId) || LexLess(x.term, e.term)
  {
    var x, e := es[|es| - 2], es[|es| - 1];
    assert !EntryLess(e, x);
    LexLessTotal(x.term, e.term);
  }

  /** Merging sorted pairs gives well-formed lists, the last of which
      holds the last pair's term and ends with its id. */
  lemma {:induction false} GroupedShape(es: seq<RawEntry>)
    requires Sorted(es, EntryLess)
    ensures WellFormed(Grouped(es))
    ensures es != [] ==> EndsWith(Grouped(es), es[|es| - 1])
    decreases |es|
  {
    if es != [] {
      var init, e := es[..|es| - 1], es[|es| - 1];
      SortedPrefix(es, |es| - 1);
      GroupedShape(init);
      var g0 := Grouped(init);
      if init == [] {
        AddNewTerm(g0, e);
      } else {
        NextPair(es);
        assert init[|init| - 1] == es[|es| - 2];
        if g0[|g0| - 1].term == e.term {
          AddSameTerm(g0, e);
        } else {
          AddNewTerm(g0, e);
        }
      }
    }
  }

  /** The last pair of a sorted sequence, what precedes it, and how it
      follows the pair before it: same term and an id not below, or a
      later term. */
  lemma LastStep(es: seq<RawEntry>) returns (init: seq<RawEntry>, e: RawEntry)
    requires Sorted(es, EntryLess) && es != []
    ensures es == init + [e] && Sorted(init, EntryLess)
    ensures Grouped(es) == AddEntry(Grouped(init), e)
    ensures init != [] ==>
              var x := init[|init| - 1];
              (x.term == e.term && x.docId <= e.docId) || (x.term != e.term && LexLess(x.term, e.term))
  {
    init, e := es[..|es| - 1], es[|es| - 1];
    assert es == init + [e];
    SortedPrefix(es, |es| - 1);
    if init != [] {
      NextPair(es);
      assert init[|init| - 1] == es[|es| - 2];
      LexLessIrreflexive(e.term);
    }
  }

  /** Merging sorted pairs loses and invents nothing: an id is in a
      term's list exactly when that pair was present. */
  lemma {:induction false} GroupedMember(es: seq<RawEntry>, k: nat, d: nat)
    requires Sorted(es, EntryLess) && k < |Grouped(es)|
    ensures d in Grouped(es)[k].ids <==> RawEntry(Grouped(es)[k].term, d) in es
    decreases |es|
  {
    var init, e := LastStep(es);
    if k < |Grouped(init)| {
      GroupedMember(init, k, d);
    }
    if init != [] && init[|init| - 1].term == e.term {
      GroupedShape(init);
      MemberSameTerm(init, Grouped(init), e, k, d);
    } else {
      MemberNewTerm(init, e, k, d);
    }
  }

  /** Membership in a sequence with one element more. */
  lemma InSnoc<T>(init: seq<T>, e: T, x: T)
    ensures x in init + [e] <==> x in init || x == e
  {
  }

  /** GroupedMember's step when the pair extends the last list g0
      holds. */
  lemma MemberSameTerm(init: seq<RawEntry>, g0: seq<Group>, e: RawEntry, k: nat, d: nat)
    requires init != [] && WellFormed(g0) && EndsWith(g0, init[|init| - 1])
    requires var x := init[|init| - 1]; x.term == e.term && x.docId <= e.docId
    requires k < |g0| && (d in g0[k].ids <==> RawEntry(g0[k].term, d) in init)
    ensures var g := AddEntry(g0, e);
            k < |g| && (d in g[k].ids <==> RawEntry(g[k].term, d) in init + [e])
  {
    if k + 1 < |g0| {
      SameTermEarlier(g0, e, k);
      InSnoc(init, e, RawEntry(g0[k].term, d));
    } else {
      SameTermLast(g0, e, d);
      InSnoc(init, e, RawEntry(e.term, d));
    }
  }

  /** Extending the last list leaves an earlier list, whose term is not
      the pair's, as it was. */
  lemma SameTermEarlier(g0: seq<Group>, e: RawEntry, k: nat)
    requires WellFormed(g0) && k + 1 < |g0| && g0[|g0| - 1].term == e.term
    ensures AddEntry(g0, e)[k] == g0[k] && g0[k].term != e.term
  {
    EarlierTermDiffers(g0, k, e.term);
  }

  /** Extending the last list adds exactly the pair's id to it. */
  lemma SameTermLast(g0: seq<Group>, e: RawEntry, d: nat)
    requires WellFormed(g0) && g0 != [] && g0[|g0| - 1].term == e.term
    requires var ids := g0[|g0| - 1].ids; ids[|ids| - 1] <= e.docId
    ensures |AddEntry(g0, e)| == |g0|
    ensures var g := AddEntry(g0, e);
            g[|g0| - 1].term == e.term &&
            (d in g[|g0| - 1].ids <==> d in g0[|g0| - 1].ids || d == e.docId)
  {
    AddSameTerm(g0, e);
  }

  /** An earlier list of well-formed lists has a term other than the
      last list's. */
  lemma EarlierTermDiffers(g0: seq<Group>, k: nat, t: seq<byte>)
    requires WellFormed(g0) && k + 1 < |g0| && g0[|g0| - 1].term == t
    ensures g0[k].term != t
  {
    assert LexLess(g0[k].term, g0[|g0| - 1].term);
    LexLessIrreflexive(t);
  }

  /** GroupedMember's step when the pair starts a new list. */
  lemma MemberNewTerm(init: seq<RawEntry>, e: RawEntry, k: nat, d: nat)
    requires Sorted(init, EntryLess)
    requires init != [] ==> LexLess(init[|init| - 1].term, e.term)
    requires k < |AddEntry(Grouped(init), e)|
    requires var g0 := Grouped(init);
             k < |g0| ==> (d in g0[k].ids <==> RawEntry(g0[k].term, d) in init)
    ensures var g := AddEntry(Grouped(init), e);
            d in g[k].ids <==> RawEntry(g[k].term, d) in init + [e]
  {
    GroupedShape(init);
    var g0 := Grouped(init);
    AddNewTerm(g0, e);
    var g := AddEntry(g0, e);
    var t := g[k].term;
    assert RawEntry(t, d) in init + [e] <==> RawEntry(t, d) in init || RawEntry(t, d) == e;
    if k == |g0| {
      assert g[k] == Group(e.term, [e.docId]);
      if init != [] {
        LaterTermAbsent(init, e.term);
      }
      assert RawEntry(t, d) !in init;
    }
  }

  /** GroupedMember for every list and id. */
  lemma GroupedMembers(es: seq<RawEntry>)
    requires Sorted(es, EntryLess)
    ensures var g := Grouped(es);
            forall k, d :: 0 <= k < |g| ==> (d in g[k].ids <==> RawEntry(g[k].term, d) in es)
  {
    forall k, d | 0 <= k < |Grouped(es)|
      ensures d in Grouped(es)[k].ids <==> RawEntry(Grouped(es)[k].term, d) in es
    {
      GroupedMember(es, k, d);
    }
  }

  /** The documents whose pairs carry term t. */
  function DocsWith(es: seq<RawEntry>, t: seq<byte>): set<nat>
  {
    set e | e in es && e.term == t :: e.docId
  }

  /** A term's list holds each of its documents once: its length, the
      count written to the term index, is the number of distinct
      documents whose pairs carry the term. */
  lemma GroupedCount(es: seq<RawEntry>, k: nat)
    requires Sorted(es, EntryLess) && k < |Grouped(es)|
    ensures |Grouped(es)[k].ids| == |DocsWith(es, Grouped(es)[k].term)|
  {
    GroupedShape(es);
    var ids, t := Grouped(es)[k].ids, Grouped(es)[k].term;
    forall d
      ensures d in Elements(ids) <==> d in DocsWith(es, t)
    {
      GroupedMember(es, k, d);
      if d in DocsWith(es, t) {
        var e :| e in es && e.term == t && e.docId == d;
        assert e == RawEntry(t, d);
      }
    }
    assert Elements(ids) == DocsWith(es, t);
    AscendingDistinct(ids);
  }

  /** Every pair's term has a list: the k-th. */
  lemma {:induction false} GroupOf(es: seq<RawEntry>, e: RawEntry) returns (k: nat)
    requires e in es
    ensures k < |Grouped(es)| && Grouped(es)[k].term == e.term
    decreases |es|
  {
    var init, last := es[..|es| - 1], es[|es| - 1];
    assert es == init + [last];
    var g := Grouped(es);
    assert g == AddEntry(Grouped(init), last);
    if e == last {
      k := |g| - 1;
    } else {
      k := GroupOf(init, e);
    }
  }

  /** No pair of a sorted sequence has a term after its last one's. */
  lemma LaterTermAbsent(es: seq<RawEntry>, t: seq<byte>)
    requires Sorted(es, EntryLess) && es != [] && LexLess(es[|es| - 1].term, t)
    ensures forall y :: y in es ==> y.term != t
  {
    var x := es[|es| - 1];
    LexLessIrreflexive(t);
    forall y | y in es
      ensures y.term != t
    {
      TermsUpToLast(es, y);
      if y.term != x.term {
        LexLessTransitive(y.term, x.term, t);
      }
    }
  }

  // ---------------------------------------------------------------------
  // Writing the lists and the term index

  /** Entry k of the directory: list k starts four bytes per id of the
      lists before it into the postings file. */
  lemma {:induction false} DirectoryAt(groups: seq<Group>, k: nat)
    requires k < |groups|
    ensures Directory(groups)[k]
              == TermEntry(groups[k].term, (4 * TotalLength(Lists(groups[..k]))) % U64_LIMIT, |groups[k].ids| % U32_LIMIT)
    decreases |groups|
  {
    var init := groups[..|groups| - 1];
    if k < |groups| - 1 {
      DirectoryAt(init, k);
      assert init[..k] == groups[..k];
    }
  }

  /** Writing one more list: its entry records the postings file's
      length so far. */
  lemma GroupStep(done: seq<Group>, g: Group)
    ensures Directory(done + [g])
              == Directory(done) + [TermEntry(g.term, |EncodeLists(Lists(done))| % U64_LIMIT, |g.ids| % U32_LIMIT)]
    ensures EncodeTermIndex(Directory(done + [g]))
              == EncodeTermIndex(Directory(done))
                 + EncodeEntry(TermEntry(g.term, |EncodeLists(Lists(done))| % U64_LIMIT, |g.ids| % U32_LIMIT))
    ensures EncodeLists(Lists(done + [g])) == EncodeLists(Lists(done)) + EncodeIds(g.ids)
  {
    var all := done + [g];
    assert all[..|done|] == done;
    EncodeListsLength(Lists(done));
    assert Lists(all)[..|done|] == Lists(done);
    EncodeTermIndexSnoc(Directory(done), TermEntry(g.term, |EncodeLists(Lists(done))| % U64_LIMIT, |g.ids| % U32_LIMIT));
  }

  /** The lists of one pair more: that pair added to the lists. */
  lemma GroupedNext(entries: seq<RawEntry>, i: nat)
    requires i < |entries|
    ensures Grouped(entries[..i + 1]) == AddEntry(Grouped(entries[..i]), entries[i])
  {
    assert entries[..i + 1][..i] == entries[..i];
  }

  /** The merge loop's invariant one pair further: the current list
      grows, or is complete and a new one starts. */
  lemma MergeInvariant(entries: seq<RawEntry>, i: nat, done: seq<Group>, term: seq<byte>, ids: seq<nat>)
    requires i < |entries| && ids != []
    requires Grouped(entries[..i]) == done + [Group(term, ids)]
    ensures var e := entries[i];
            e.term == term ==>
              Grouped(entries[..i + 1])
                == done + [Group(term, if e.docId == ids[|ids| - 1] then ids else ids + [e.docId])]
    ensures var e := entries[i];
            e.term != term ==>
              Grouped(entries[..i + 1]) == (done + [Group(term, ids)]) + [Group(e.term, [e.docId])]
  {
    GroupedNext(entries, i);
    if entries[i].term == term {
      MergeSameTerm(done, term, ids, entries[i]);
    } else {
      MergeNewTerm(done, term, ids, entries[i]);
    }
  }

  /** The merge's step on a pair of the current list's term: the list
      gains the id unless it already ends with it. */
  lemma MergeSameTerm(done: seq<Group>, term: seq<byte>, ids: seq<nat>, e: RawEntry)
    requires ids != [] && e.term == term
    ensures AddEntry(done + [Group(term, ids)], e)
              == done + [Group(term, if e.docId == ids[|ids| - 1] then ids else ids + [e.docId])]
  {
    assert (done + [Group(term, ids)])[..|done|] == done;
  }

  /** The merge's step on a pair of another term: the current list is
      complete and a new one starts. */
  lemma MergeNewTerm(done: seq<Group>, term: seq<byte>, ids: seq<nat>, e: RawEntry)
    requires e.term != term
    ensures AddEntry(done + [Group(term, ids)], e) == (done + [Group(term, ids)]) + [Group(e.term, [e.docId])]
  {
  }

  lemma {:induction false} EncodeIdsSnoc(ids: seq<nat>, x: nat)
    ensures EncodeIds(ids + [x]) == EncodeIds(ids) + U32(x % U32_LIMIT)
  {
    if ids != [] {
      assert (ids + [x])[1..] == ids[1..] + [x];
      EncodeIdsSnoc(ids[1..], x);
      Assoc(U32(ids[0] % U32_LIMIT), EncodeIds(ids[1..]), U32(x % U32_LIMIT));
    }
  }

  /** One id more of a list is four bytes more. */
  lemma EncodeIdsPrefix(ids: seq<nat>, k: nat)
    requires k < |ids|
    ensures EncodeIds(ids[..k + 1]) == EncodeIds(ids[..k]) + U32(ids[k] % U32_LIMIT)
  {
    assert ids[..k + 1] == ids[..k] + [ids[k]];
    EncodeIdsSnoc(ids[..k], ids[k]);
  }

  /** The four writes of a term-index entry, appended to the file. */
  lemma EntryWrites(file: seq<byte>, e: TermEntry)
    requires Representable(e)
    ensures var len := |e.term| % U16_LIMIT;
            file + U16(len) + e.term[..len] + U64(e.offset) + U32(e.count) == file + EncodeEntry(e)
  {
    var len := |e.term| % U16_LIMIT;
    var a, b, c, d := U16(len), e.term[..len], U64(e.offset), U32(e.count);
    assert EncodeEntry(e) == a + (b + (c + d));
    Assoc(file, a, b + (c + d));
    Assoc(file + a, b, c + d);
    Assoc(file + a + b, c, d);
  }

  /** The loop writing a list's ids to the postings file, one `u32`
      each. */
  method WriteIds(postings: seq<byte>, ids: seq<nat>) returns (newPostings: seq<byte>)
    ensures newPostings == postings + EncodeIds(ids)
  {
    newPostings := postings;
    var k := 0;
    while k < |ids|
      invariant k <= |ids|
      invariant newPostings == postings + EncodeIds(ids[..k])
    {
      EncodeIdsPrefix(ids, k);
      Assoc(postings, EncodeIds(ids[..k]), U32(ids[k] % U32_LIMIT));
      newPostings := newPostings + U32(ids[k] % U32_LIMIT);
      k := k + 1;
    }
    assert ids[..k] == ids;
  }

  /** The four writes of a term-index entry: length, term bytes, offset,
      count. */
  method WriteEntry(termIndex: seq<byte>, e: TermEntry) returns (newIndex: seq<byte>)
    requires Representable(e)
    ensures newIndex == termIndex + EncodeEntry(e)
  {
    var len := |e.term| % U16_LIMIT;
    EntryWrites(termIndex, e);
    newIndex := termIndex + U16(len);
    newIndex := newIndex + e.term[..len];
    newIndex := newIndex + U64(e.offset);
    newIndex := newIndex + U32(e.count);
  }

  /** Writing one term's list: its ids to the postings file, then its
      entry, with the postings file's length before the ids as offset
      and the number of ids as count. */
  method WriteGroup(termIndex: seq<byte>, postings: seq<byte>, term: seq<byte>, ids: seq<nat>, ghost done: seq<Group>)
    returns (newIndex: seq<byte>, newPostings: seq<byte>)
    requires termIndex == EncodeTermIndex(Directory(done)) && postings == EncodeLists(Lists(done))
    ensures newPostings == postings + EncodeIds(ids)
    ensures newIndex == termIndex + EncodeEntry(TermEntry(term, |postings| % U64_LIMIT, |ids| % U32_LIMIT))
    ensures newIndex == EncodeTermIndex(Directory(done + [Group(term, ids)]))
    ensures newPostings == EncodeLists(Lists(done + [Group(term, ids)]))
  {
    GroupStep(done, Group(term, ids));
    var offset := |postings| % U64_LIMIT;
    var count := |ids| % U32_LIMIT;
    newPostings := WriteIds(postings, ids);
    newIndex := WriteEntry(termIndex, TermEntry(term, offset, count));
  }

  /** One pass of the merge loop over `entries[i]`: extend the current
      list, or write it out and start the next term's. */
  method MergeNext(entries: seq<RawEntry>, i: nat, termIndex: seq<byte>, postings: seq<byte>,
                   uniqueTerms: nat, term: seq<byte>, ids: seq<nat>, ghost done: seq<Group>)
    returns (termIndex': seq<byte>, postings': seq<byte>, uniqueTerms': nat,
             term': seq<byte>, ids': seq<nat>, ghost done': seq<Group>)
    requires i < |entries| && ids != []
    requires Grouped(entries[..i]) == done + [Group(term, ids)]
    requires termIndex == EncodeTermIndex(Directory(done))
    requires postings == EncodeLists(Lists(done))
    requires uniqueTerms == |done|
    ensures Grouped(entries[..i + 1]) == done' + [Group(term', ids')]
    ensures ids' != []
    ensures termIndex' == EncodeTermIndex(Directory(done'))
    ensures postings' == EncodeLists(Lists(done'))
    ensures uniqueTerms' == |done'|
  {
    MergeInvariant(entries, i, done, term, ids);
    if entries[i].term == term {
      termIndex', postings', uniqueTerms', term', done' := termIndex, postings, uniqueTerms, term, done;
      if entries[i].docId != ids[|ids| - 1] {
        ids' := ids + [entries[i].docId];
      } else {
        ids' := ids;
      }
    } else {
      termIndex', postings' := WriteGroup(termIndex, postings, term, ids, done);
      uniqueTerms' := uniqueTerms + 1;
      done' := done + [Group(term, ids)];
      term' := entries[i].term;
      ids' := [entries[i].docId];
    }
  }

  /** The merge loop of phase 3 over a non-empty run of pairs: every list
      but the last is written out, the last is still being collected. */
  method MergeGroups(entries: seq<RawEntry>)
    returns (termIndex: seq<byte>, postings: seq<byte>, uniqueTerms: nat,
             currentTerm: seq<byte>, current: seq<nat>, ghost done: seq<Group>)
    requires entries != []
    ensures Grouped(entries) == done + [Group(currentTerm, current)]
    ensures current != []
    ensures termIndex == EncodeTermIndex(Directory(done))
    ensures postings == EncodeLists(Lists(done))
    ensures uniqueTerms == |done|
  {
    termIndex, postings, uniqueTerms := [], [], 0;
    currentTerm := entries[0].term;
    current := [entries[0].docId];
    done := [];
    assert entries[..1][..0] == [];
    var i := 1;
    while i < |entries|
      invariant 1 <= i <= |entries|
      invariant Grouped(entries[..i]) == done + [Group(currentTerm, current)]
      invariant current != []
      invariant termIndex == EncodeTermIndex(Directory(done))
      invariant postings == EncodeLists(Lists(done))
      invariant uniqueTerms == |done|
    {
      termIndex, postings, uniqueTerms, currentTerm, current, done :=
        MergeNext(entries, i, termIndex, postings, uniqueTerms, currentTerm, current, done);
      i := i + 1;
    }
    assert entries[..i] == entries;
  }

  /** Phase 3, over the sorted pairs: extend the current list while the
      term stays the same (skipping a repeated id), write it out when the
      term changes, and write the last list after the loop. No pairs
      give empty files. */
  method MergePostings(entries: seq<RawEntry>) returns (termIndex: seq<byte>, postings: seq<byte>, uniqueTerms: nat)
    ensures termIndex == EncodeTermIndex(Directory(Grouped(entries)))
    ensures postings == EncodeLists(Lists(Grouped(entries)))
    ensures uniqueTerms == |Grouped(entries)|
    ensures entries == [] <==> termIndex == [] && postings == []
  {
    if |entries| == 0 {
      return [], [], 0;
    }
    var currentTerm, current;
    ghost var done;
    termIndex, postings, uniqueTerms, currentTerm, current, done := MergeGroups(entries);
    termIndex, postings := WriteGroup(termIndex, postings, currentTerm, current, done);
    uniqueTerms := uniqueTerms + 1;
  }

  // ---------------------------------------------------------------------
  // The whole build

  /** Phase 2, `std::sort` of the pairs, over an array holding them. */
  method SortEntries(entries: seq<RawEntry>) returns (sorted: seq<RawEntry>)
    ensures Sorted(sorted, EntryLess)
    ensures multiset(sorted) == multiset(entries)
  {
    var a := new RawEntry[|entries|](k requires 0 <= k < |entries| => entries[k]);
    assert a[..] == entries;
    EntryOrder();
    SortArray(a, EntryLess);
    sorted := a[..];
  }

  /** `main`: phase 1 over the input file's lines (`std::getline`), the
      sort, then the merge.
      EntryLess orders every two distinct pairs, so `sorted` is the one
      sorted arrangement of the collected pairs. */
  method BuildIndex(input: seq<byte>)
    returns (docsData: seq<byte>, docsIndex: seq<byte>, termIndex: seq<byte>, postings: seq<byte>,
             docCount: nat, uniqueTerms: nat, sorted: seq<RawEntry>)
    ensures docsData == DataFile(KeptDocuments(Lines(input)))
    ensures docsIndex == IndexFile(KeptDocuments(Lines(input)))
    ensures docCount == |KeptDocuments(Lines(input))|
    ensures Sorted(sorted, EntryLess)
    ensures multiset(sorted) == multiset(AllEntries(KeptDocuments(Lines(input))))
    ensures termIndex == EncodeTermIndex(Directory(Grouped(sorted)))
    ensures postings == EncodeLists(Lists(Grouped(sorted)))
    ensures uniqueTerms == |Grouped(sorted)|
  {
    var entries;
    docsData, docsIndex, entries, docCount := CollectDocuments(Lines(input));
    sorted := SortEntries(entries);
    termIndex, postings, uniqueTerms := MergePostings(sorted);
  }

  /** The sizes fit the files' fixed-width fields: each term its `u16`
      length, each list its `u32` count and ids, the postings file its
      `u64` offsets. */
  predicate FitsFields(groups: seq<Group>)
  {
    (forall k :: 0 <= k < |groups| ==>
       |groups[k].term| < U16_LIMIT && |groups[k].ids| < U32_LIMIT &&
       forall j :: 0 <= j < |groups[k].ids| ==> groups[k].ids[j] < U32_LIMIT) &&
    4 * TotalLength(Lists(groups)) < U64_LIMIT
  }

  /** The term index reads back, and a term it holds is found at its
      list's position. */
  lemma FindGroup(groups: seq<Group>, k: nat)
    requires WellFormed(groups) && FitsFields(groups) && k < |groups|
    ensures DecodeTermIndex(EncodeTermIndex(Directory(groups))) == Directory(groups)
    ensures Find(Directory(groups), groups[k].term) == Some(k)
  {
    var dir := Directory(groups);
    TermIndexRoundTrip(dir);
    assert TermsAscending(dir);
    FindInAscending(dir, k);
  }

  /** Well-formed lists give a directory in strictly ascending term
      order. */
  lemma DirectoryAscending(groups: seq<Group>)
    requires WellFormed(groups)
    ensures TermsAscending(Directory(groups))
  {
  }

  /** The dictionary the query engine loads from the term index the
      builder wrote is strictly ascending by term, so it meets the
      ordering `std::lower_bound` requires. */
  lemma BuiltDictionarySorted(sorted: seq<RawEntry>)
    requires Sorted(sorted, EntryLess) && FitsFields(Grouped(sorted))
    ensures TermsAscending(DecodeTermIndex(EncodeTermIndex(Directory(Grouped(sorted)))))
    ensures TermsNonDecreasing(DecodeTermIndex(EncodeTermIndex(Directory(Grouped(sorted)))))
  {
    var g := Grouped(sorted);
    GroupedShape(sorted);
    var dir := Directory(g);
    DirectoryAscending(g);
    TermIndexRoundTrip(dir);
    AscendingIsNonDecreasing(dir);
  }

  /** When the sizes fit, entry k holds list k's exact byte offset and
      length. */
  lemma DirectoryFits(groups: seq<Group>, k: nat)
    requires FitsFields(groups) && k < |groups|
    ensures Directory(groups)[k].offset == |EncodeLists(Lists(groups)[..k])|
    ensures Directory(groups)[k].count == |groups[k].ids|
  {
    DirectoryAt(groups, k);
    var lists := Lists(groups);
    assert lists[..k] == Lists(groups[..k]);
    EncodeListsSplit(lists, k);
    EncodeListsLength(lists[..k]);
    EncodeListsLength(lists);
    ModSmall(4 * TotalLength(Lists(groups[..k])), U64_LIMIT);
    ModSmall(|groups[k].ids|, U32_LIMIT);
  }

  /** Entry k's offset and count read list k back from the postings
      file. */
  lemma ReadGroup(groups: seq<Group>, k: nat)
    requires FitsFields(groups) && k < |groups|
    ensures var e := Directory(groups)[k];
            ReadIds(EncodeLists(Lists(groups)), e.offset, e.count) == groups[k].ids
  {
    DirectoryFits(groups, k);
    var lists := Lists(groups);
    EncodeListsSplit(lists, k);
    ReadEncodedIds(EncodeLists(lists[..k]), lists[k], EncodeLists(lists[k + 1..]));
  }

  /** Looking up a term the index holds reads back its list. */
  lemma LookupFound(groups: seq<Group>, k: nat)
    requires WellFormed(groups) && FitsFields(groups) && k < |groups|
    ensures PostingsOf(DecodeTermIndex(EncodeTermIndex(Directory(groups))), EncodeLists(Lists(groups)), groups[k].term)
              == groups[k].ids
  {
    FindGroup(groups, k);
    ReadGroup(groups, k);
  }

  /** Looking up a term the index does not hold gives no documents. */
  lemma LookupMissing(groups: seq<Group>, t: seq<byte>)
    requires FitsFields(groups)
    requires forall k :: 0 <= k < |groups| ==> groups[k].term != t
    ensures PostingsOf(DecodeTermIndex(EncodeTermIndex(Directory(groups))), EncodeLists(Lists(groups)), t) == []
  {
    TermIndexRoundTrip(Directory(groups));
  }

  /** What the query engine reads for term t from the files written for
      these lists. */
  function Lookup(groups: seq<Group>, t: seq<byte>): seq<nat>
  {
    PostingsOf(DecodeTermIndex(EncodeTermIndex(Directory(groups))), EncodeLists(Lists(groups)), t)
  }

  /** Document d exists and its text has t as a token. */
  predicate HasToken(docs: seq<Document>, d: nat, t: seq<byte>)
  {
    d < |docs| && t in Tokens(docs[d].text)
  }

  /** What the built index answers: looking a term up in the files the
      builder wrote gives the ascending list of exactly the documents
      whose text has that term as a token. */
  lemma BuiltIndexLookup(docs: seq<Document>, sorted: seq<RawEntry>, t: seq<byte>)
    requires Sorted(sorted, EntryLess)
    requires multiset(sorted) == multiset(AllEntries(docs))
    requires FitsFields(Grouped(sorted))
    ensures Ascending(Lookup(Grouped(sorted), t))
    ensures forall d :: d in Lookup(Grouped(sorted), t) <==> HasToken(docs, d, t)
  {
    var g := Grouped(sorted);
    GroupedShape(sorted);
    forall d
      ensures RawEntry(t, d) in sorted <==> HasToken(docs, d, t)
    {
      assert RawEntry(t, d) in sorted <==> RawEntry(t, d) in multiset(sorted);
      AllEntriesMembers(docs, RawEntry(t, d));
    }
    if k :| 0 <= k < |g| && g[k].term == t {
      LookupFound(g, k);
      GroupedMembers(sorted);
    } else {
      LookupMissing(g, t);
      forall d
        ensures RawEntry(t, d) !in sorted
      {
        if RawEntry(t, d) in sorted {
          var k := GroupOf(sorted, RawEntry(t, d));
        }
      }
    }
  }
}
