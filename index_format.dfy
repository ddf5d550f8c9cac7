/** The binary index written by the builder and read by the query engine:
    - term index: per distinct term `u16 len`, the term bytes, `u64`
      postings offset, `u32` postings count;
    - postings: per term, `count` consecutive `u32` document ids;
    - document index: one `u64` offset into the document data per document;
    - document data: per document `u16 len`, url, `u16 len`, title.
    Encoders model the builder's writes, decoders the engine's reads. */
module IndexFormat {
  import opened Codec
  import opened Text
  import opened SetAlgebra
  import opened Sequences

  /** One dictionary entry (`TermEntry` of the engine; the builder writes
      the same three fields). */
  datatype TermEntry = TermEntry(term: seq<byte>, offset: nat, count: nat)

  /** The offset and count fit their `u64` and `u32` fields. */
  predicate Representable(e: TermEntry)
  {
    e.offset < U64_LIMIT && e.count < U32_LIMIT
  }

  predicate AllRepresentable(es: seq<TermEntry>)
  {
    forall k :: 0 <= k < |es| ==> Representable(es[k])
  }

  /** Every term fits its `u16` length field. */
  predicate ShortTerms(es: seq<TermEntry>)
  {
    forall k :: 0 <= k < |es| ==> |es[k].term| < U16_LIMIT
  }

  // ---------------------------------------------------------------------
  // Term index

  /** One term-index record. The length is taken mod 2^16 (the
      `uint16_t` cast) and only that many term bytes are written. */
  function EncodeEntry(e: TermEntry): (r: seq<byte>)
    requires Representable(e)
    ensures |e.term| < U16_LIMIT ==> |r| == 14 + |e.term|
  {
    var len := |e.term| % U16_LIMIT;
    U16(len) + (e.term[..len] + (U64(e.offset) + U32(e.count)))
  }

  /** The term-index file: the records one after the other. */
  function EncodeTermIndex(es: seq<TermEntry>): seq<byte>
    requires AllRepresentable(es)
  {
    if es == [] then [] else EncodeEntry(es[0]) + EncodeTermIndex(es[1..])
  }

  /** Writing one more record appends its bytes (the builder's loop). */
  lemma {:induction false} EncodeTermIndexSnoc(es: seq<TermEntry>, e: TermEntry)
    requires AllRepresentable(es) && Representable(e)
    ensures AllRepresentable(es + [e])
    ensures EncodeTermIndex(es + [e]) == EncodeTermIndex(es) + EncodeEntry(e)
  {
    if es != [] {
      assert (es + [e])[1..] == es[1..] + [e];
      EncodeTermIndexSnoc(es[1..], e);
    }
  }

  /** `load_dictionary`'s reads: `u16` length (a lone trailing byte ends
      the loop), the term, `u64` offset, `u32` count, until end of file.
      A record cut short ends the dictionary here; the source would push
      one entry with unread fields. */
  function DecodeTermIndex(bytes: seq<byte>): (r: seq<TermEntry>)
    ensures ShortTerms(r) && AllRepresentable(r)
    decreases |bytes|
  {
    Pow256Values();
    if |bytes| < 2 then []
    else
      var len, afterLen := DecodeLE(bytes[..2]), bytes[2..];
      if |afterLen| < len + 12 then []
      else
        var term, afterTerm := afterLen[..len], afterLen[len..];
        var offset, afterOffset := DecodeLE(afterTerm[..8]), afterTerm[8..];
        var count, rest := DecodeLE(afterOffset[..4]), afterOffset[4..];
        [TermEntry(term, offset, count)] + DecodeTermIndex(rest)
  }

  /** A term-index record followed by more bytes, field by field. */
  lemma EntryThen(e: TermEntry, rest: seq<byte>)
    requires Representable(e) && |e.term| < U16_LIMIT
    ensures EncodeEntry(e) + rest == U16(|e.term|) + (e.term + (U64(e.offset) + (U32(e.count) + rest)))
  {
    var len := |e.term|;
    var o, c := U64(e.offset), U32(e.count);
    assert e.term[..len] == e.term;
    assert EncodeEntry(e) == U16(len) + (e.term + (o + c));
    Assoc(U16(len), e.term + (o + c), rest);
    Assoc(e.term, o + c, rest);
    Assoc(o, c, rest);
  }

  /** Decoding a record written by the builder gives the entry back and
      resumes right after it. */
  lemma DecodeEntryThen(e: TermEntry, rest: seq<byte>)
    requires Representable(e) && |e.term| < U16_LIMIT
    ensures DecodeTermIndex(EncodeEntry(e) + rest) == [e] + DecodeTermIndex(rest)
  {
    var len := |e.term|;
    var o, c := U64(e.offset), U32(e.count);
    EntryThen(e, rest);
    Split(U16(len), e.term + (o + (c + rest)));
    Split(e.term, o + (c + rest));
    Split(o, c + rest);
    Split(c, rest);
    FixedWidthRoundTrip(len);
    FixedWidthRoundTrip(e.offset);
    FixedWidthRoundTrip(e.count);
  }

  /** The engine decodes exactly the entries the builder wrote, in order. */
  lemma {:induction false} TermIndexRoundTrip(es: seq<TermEntry>)
    requires AllRepresentable(es) && ShortTerms(es)
    ensures DecodeTermIndex(EncodeTermIndex(es)) == es
  {
    if es != [] {
      DecodeEntryThen(es[0], EncodeTermIndex(es[1..]));
      TermIndexRoundTrip(es[1..]);
    }
  }

  // ---------------------------------------------------------------------
  // Postings

  /** Ids written as consecutive `u32`s. */
  function EncodeIds(ids: seq<nat>): (r: seq<byte>)
    ensures |r| == 4 * |ids|
  {
    if ids == [] then [] else U32(ids[0] % U32_LIMIT) + EncodeIds(ids[1..])
  }

  /** Consecutive `u32`s read back. */
  function DecodeIds(bytes: seq<byte>): (r: seq<nat>)
    requires |bytes| % 4 == 0
    ensures |r| == |bytes| / 4
    ensures forall k :: 0 <= k < |r| ==> r[k] < U32_LIMIT
  {
    Pow256Values();
    if bytes == [] then [] else [DecodeLE(bytes[..4])] + DecodeIds(bytes[4..])
  }

  lemma {:induction false} DecodeEncodeIds(ids: seq<nat>)
    requires forall k :: 0 <= k < |ids| ==> ids[k] < U32_LIMIT
    ensures DecodeIds(EncodeIds(ids)) == ids
  {
    if ids != [] {
      ModSmall(ids[0], U32_LIMIT);
      Split(U32(ids[0]), EncodeIds(ids[1..]));
      FixedWidthRoundTrip(ids[0]);
      DecodeEncodeIds(ids[1..]);
    }
  }

  function ZeroBytes(n: nat): (r: seq<byte>)
    ensures |r| == n
  {
    seq(n, _ => 0)
  }

  /** `get_postings`' read: a zero-filled vector of `count` ids, into
      which `seekg(offset)` and `read(4 * count bytes)` copy what the file
      holds from that offset on (a short read leaves the rest zero). */
  function ReadIds(file: seq<byte>, offset: nat, count: nat): (r: seq<nat>)
    ensures |r| == count
    ensures forall k :: 0 <= k < |r| ==> r[k] < U32_LIMIT
  {
    var got := Window(file, offset, 4 * count);
    DecodeIds(got + ZeroBytes(4 * count - |got|))
  }

  /** Id k of a block is read from its k-th group of four bytes. */
  lemma {:induction false} DecodeIdsAt(bytes: seq<byte>, k: nat)
    requires |bytes| % 4 == 0 && 4 * k + 4 <= |bytes|
    ensures DecodeIds(bytes)[k] == DecodeLE(bytes[4 * k..4 * k + 4])
    decreases k
  {
    if k > 0 {
      DecodeIdsAt(bytes[4..], k - 1);
      assert bytes[4..][4 * (k - 1)..4 * (k - 1) + 4] == bytes[4 * k..4 * k + 4];
    }
  }

  /** An id whose four bytes all lie in the file is read from them. */
  lemma ReadIdsWithin(file: seq<byte>, offset: nat, count: nat, k: nat)
    requires k < count && offset + 4 * k + 4 <= |file|
    ensures ReadIds(file, offset, count)[k] == DecodeLE(file[offset + 4 * k..offset + 4 * k + 4])
  {
    var got := Window(file, offset, 4 * count);
    var padded := got + ZeroBytes(4 * count - |got|);
    WindowAt(file, offset, 4 * count, 4 * k, 4 * k + 4);
    DecodeIdsAt(padded, k);
    SliceLeft(got, ZeroBytes(4 * count - |got|), 4 * k, 4 * k + 4);
  }

  /** An id that starts at or past the end of the file is 0: a short read
      leaves the vector's zero fill in place. */
  lemma ReadIdsPastEnd(file: seq<byte>, offset: nat, count: nat, k: nat)
    requires k < count && |file| <= offset + 4 * k
    ensures ReadIds(file, offset, count)[k] == 0
  {
    var got := Window(file, offset, 4 * count);
    var padded := got + ZeroBytes(4 * count - |got|);
    assert |got| <= 4 * k;
    DecodeIdsAt(padded, k);
    DecodeZero(padded[4 * k..4 * k + 4]);
  }

  /** At most n bytes of file from offset on: what `seekg` then `read`
      obtain. */
  function Window(file: seq<byte>, offset: nat, n: nat): (r: seq<byte>)
    ensures |r| <= n
  {
    if offset >= |file| then []
    else
      var from := file[offset..];
      if |from| <= n then from else from[..n]
  }

  /** Within the file, the window holds the file's bytes. */
  lemma WindowAt(file: seq<byte>, offset: nat, n: nat, i: nat, j: nat)
    requires i <= j <= n && offset + j <= |file|
    ensures j <= |Window(file, offset, n)|
    ensures Window(file, offset, n)[i..j] == file[offset + i..offset + j]
  {
    if offset < |file| {
      var from := file[offset..];
      assert from[i..j] == file[offset + i..offset + j];
    }
  }

  /** The window at the start of a block holds exactly that block. */
  lemma WindowOf(prefix: seq<byte>, e: seq<byte>, suffix: seq<byte>, n: nat)
    requires n == |e|
    ensures Window(prefix + e + suffix, |prefix|, n) == e
  {
    var file := prefix + e + suffix;
    if |prefix| < |file| {
      assert file == prefix + (e + suffix);
      Split(prefix, e + suffix);
      Split(e, suffix);
    }
  }

  /** Ids stored at an offset are read back exactly. */
  lemma ReadEncodedIds(prefix: seq<byte>, ids: seq<nat>, suffix: seq<byte>)
    requires forall k :: 0 <= k < |ids| ==> ids[k] < U32_LIMIT
    ensures ReadIds(prefix + EncodeIds(ids) + suffix, |prefix|, |ids|) == ids
  {
    var e, n := EncodeIds(ids), 4 * |ids|;
    WindowOf(prefix, e, suffix, n);
    assert e + ZeroBytes(n - |e|) == e;
    DecodeEncodeIds(ids);
  }

  /** The postings file: each term's list after the previous one. */
  function EncodeLists(lists: seq<seq<nat>>): seq<byte>
  {
    if lists == [] then [] else EncodeLists(lists[..|lists| - 1]) + EncodeIds(lists[|lists| - 1])
  }

  /** Total number of ids in the lists. */
  function TotalLength(lists: seq<seq<nat>>): nat
  {
    if lists == [] then 0 else TotalLength(lists[..|lists| - 1]) + |lists[|lists| - 1]|
  }

  lemma {:induction false} EncodeListsLength(lists: seq<seq<nat>>)
    ensures |EncodeLists(lists)| == 4 * TotalLength(lists)
  {
    if lists != [] {
      EncodeListsLength(lists[..|lists| - 1]);
    }
  }

  /** The last list is written last. */
  lemma EncodeListsLast(lists: seq<seq<nat>>)
    requires lists != []
    ensures EncodeLists(lists) == EncodeLists(lists[..|lists| - 1]) + EncodeIds(lists[|lists| - 1])
  {
  }

  /** Writing two runs of lists writes the first run's bytes, then the
      second's. */
  lemma {:induction false} EncodeListsAppend(a: seq<seq<nat>>, b: seq<seq<nat>>)
    ensures EncodeLists(a + b) == EncodeLists(a) + EncodeLists(b)
    decreases |b|
  {
    if b == [] {
      assert a + b == a;
    } else {
      var n := |b| - 1;
      var c, init := a + b, b[..n];
      assert c[..|c| - 1] == a + init && c[|c| - 1] == b[n];
      EncodeListsAppend(a, init);
      calc {
        EncodeLists(c);
        { EncodeListsLast(c); }
        EncodeLists(a + init) + EncodeIds(b[n]);
        EncodeLists(a) + EncodeLists(init) + EncodeIds(b[n]);
        { Assoc(EncodeLists(a), EncodeLists(init), EncodeIds(b[n])); }
        EncodeLists(a) + (EncodeLists(init) + EncodeIds(b[n]));
        EncodeLists(a) + EncodeLists(b);
      }
    }
  }

  /** The postings file splits around the k-th list: the lists before it,
      the list itself, the lists after it. */
  lemma EncodeListsSplit(lists: seq<seq<nat>>, k: nat)
    requires k < |lists|
    ensures EncodeLists(lists) == EncodeLists(lists[..k]) + EncodeIds(lists[k]) + EncodeLists(lists[k + 1..])
  {
    var before, one, after := lists[..k], [lists[k]], lists[k + 1..];
    assert one[..0] == [];
    assert EncodeLists(one) == EncodeIds(lists[k]);
    Around(lists, k);
    EncodeListsAppend(before, one);
    EncodeListsAppend(before + one, after);
  }

  // ---------------------------------------------------------------------
  // Term lookup

  /** Reference lookup: the first entry whose term is w, by linear scan. */
  function Find(dict: seq<TermEntry>, w: seq<byte>): (r: Option<nat>)
    ensures r.Some? ==> r.value < |dict| && dict[r.value].term == w
    ensures r.Some? ==> forall j :: 0 <= j < r.value ==> dict[j].term != w
    ensures r.None? ==> forall j :: 0 <= j < |dict| ==> dict[j].term != w
  {
    if dict == [] then None
    else if dict[0].term == w then Some(0)
    else match Find(dict[1..], w)
      case None => None
      case Some(k) => Some(k + 1)
  }

  /** What `get_postings(w)` returns: the ids stored for w's entry, or no
      ids when no entry has term w. */
  function PostingsOf(dict: seq<TermEntry>, postings: seq<byte>, w: seq<byte>): seq<nat>
  {
    match Find(dict, w)
    case None => []
    case Some(k) => ReadIds(postings, dict[k].offset, dict[k].count)
  }

  /** The order `std::lower_bound` needs: no entry is less than an
      earlier one. */
  predicate TermsNonDecreasing(dict: seq<TermEntry>)
  {
    forall i, j :: 0 <= i < j < |dict| ==> !LexLess(dict[j].term, dict[i].term)
  }

  /** The order the builder produces: strictly ascending, so no term
      occurs twice. */
  predicate TermsAscending(dict: seq<TermEntry>)
  {
    forall i, j :: 0 <= i < j < |dict| ==> LexLess(dict[i].term, dict[j].term)
  }

  lemma AscendingIsNonDecreasing(dict: seq<TermEntry>)
    requires TermsAscending(dict)
    ensures TermsNonDecreasing(dict)
  {
    forall i, j | 0 <= i < j < |dict|
      ensures !LexLess(dict[j].term, dict[i].term)
    {
      LexLessAsymmetric(dict[i].term, dict[j].term);
    }
  }

  /** In an ascending dictionary the entry holding w is the one found. */
  lemma FindInAscending(dict: seq<TermEntry>, k: nat)
    requires TermsAscending(dict) && k < |dict|
    ensures Find(dict, dict[k].term) == Some(k)
  {
    var r := Find(dict, dict[k].term);
    if r.value < k {
      LexLessIrreflexive(dict[k].term);
    }
  }

  /** Postings lists whose ids are all ascending and below n: the shape
      the builder guarantees. */
  predicate PostingsAscendingBelow(dict: seq<TermEntry>, postings: seq<byte>, n: nat)
  {
    forall k :: 0 <= k < |dict| ==>
      Ascending(ReadIds(postings, dict[k].offset, dict[k].count)) &&
      Below(ReadIds(postings, dict[k].offset, dict[k].count), n)
  }

  /** Any lookup then returns an ascending list of ids below n. */
  lemma PostingsOfAscendingBelow(dict: seq<TermEntry>, postings: seq<byte>, n: nat, w: seq<byte>)
    requires PostingsAscendingBelow(dict, postings, n)
    ensures Ascending(PostingsOf(dict, postings, w)) && Below(PostingsOf(dict, postings, w), n)
  {
  }

  // ---------------------------------------------------------------------
  // Document store

  /** A kept input record: url, title and body text. */
  datatype Document = Document(url: seq<byte>, title: seq<byte>, text: seq<byte>)

  /** Url and title fit their `u16` length fields. */
  predicate ShortFields(d: Document)
  {
    |d.url| < U16_LIMIT && |d.title| < U16_LIMIT
  }

  /** One document-data record: lengths taken mod 2^16, then only that
      many bytes of url and of title. */
  function Record(d: Document): (r: seq<byte>)
    ensures |r| == 4 + |d.url| % U16_LIMIT + |d.title| % U16_LIMIT
  {
    var ul := |d.url| % U16_LIMIT;
    var tl := |d.title| % U16_LIMIT;
    U16(ul) + (d.url[..ul] + (U16(tl) + d.title[..tl]))
  }

  /** The document-data file: the records in document order. */
  function DataFile(docs: seq<Document>): seq<byte>
  {
    if docs == [] then [] else DataFile(docs[..|docs| - 1]) + Record(docs[|docs| - 1])
  }

  /** The document-index file: per document, the length of the data file
      before its record was written (`tellp`), as a `u64`. */
  function IndexFile(docs: seq<Document>): (r: seq<byte>)
    ensures |r| == 8 * |docs|
  {
    if docs == [] then []
    else
      var init := docs[..|docs| - 1];
      IndexFile(init) + U64(|DataFile(init)| % U64_LIMIT)
  }

  /** The url and title of the record at offset, if the file holds all of
      it. */
  function DecodeRecord(data: seq<byte>, offset: nat): Option<(seq<byte>, seq<byte>)>
  {
    if offset > |data| || |data[offset..]| < 2 then None
    else
      var s := data[offset..];
      var ul, afterLen := DecodeLE(s[..2]), s[2..];
      if |afterLen| < ul + 2 then None
      else
        var url, afterUrl := afterLen[..ul], afterLen[ul..];
        var tl, rest := DecodeLE(afterUrl[..2]), afterUrl[2..];
        if |rest| < tl then None
        else Some((url, rest[..tl]))
  }

  /** A result row: id, url and title. */
  datatype DocResult = DocResult(id: nat, url: seq<byte>, title: seq<byte>)

  /** `get_doc_info`: read the `u64` at `doc_id * 8` (a 32-bit product)
      in the document index, then the record at that offset. A missing
      index slot, or a record the data file does not hold in full, gives
      empty url and title. */
  function DocInfo(docsIndex: seq<byte>, docsData: seq<byte>, docId: nat): (r: DocResult)
    ensures r.id == docId
  {
    var at := (docId * 8) % U32_LIMIT;
    if at + 8 > |docsIndex| then DocResult(docId, [], [])
    else
      match DecodeRecord(docsData, DecodeLE(docsIndex[at..at + 8]))
      case None => DocResult(docId, [], [])
      case Some((url, title)) => DocResult(docId, url, title)
  }

  /** Slot k of the document index holds the data-file length before
      document k's record (where that record starts), as the `u64` the
      stream position is written as. */
  lemma {:induction false} IndexSlot(docs: seq<Document>, k: nat)
    requires k < |docs|
    ensures IndexFile(docs)[8 * k..8 * k + 8] == U64(|DataFile(docs[..k])| % U64_LIMIT)
    decreases |docs|
  {
    if k == |docs| - 1 {
      LastSlot(docs, k);
    } else {
      IndexSlot(docs[..|docs| - 1], k);
      EarlierSlot(docs, k);
      PrefixOfPrefix(docs, |docs| - 1, k);
    }
  }

  /** The slot of the last document written. */
  lemma {:induction false} LastSlot(docs: seq<Document>, k: nat)
    requires k == |docs| - 1
    ensures IndexFile(docs)[8 * k..8 * k + 8] == U64(|DataFile(docs[..k])| % U64_LIMIT)
  {
    var init := docs[..k];
    SlotAt(IndexFile(docs), IndexFile(init), U64(|DataFile(init)| % U64_LIMIT), 8 * k);
  }

  /** Writing the last document's slot keeps the earlier slots. */
  lemma EarlierSlot(docs: seq<Document>, k: nat)
    requires k + 1 < |docs|
    ensures IndexFile(docs)[8 * k..8 * k + 8] == IndexFile(docs[..|docs| - 1])[8 * k..8 * k + 8]
  {
    var init := docs[..|docs| - 1];
    var slot := U64(|DataFile(init)| % U64_LIMIT);
    assert IndexFile(docs) == IndexFile(init) + slot;
    SliceLeft(IndexFile(init), slot, 8 * k, 8 * k + 8);
  }

  /** The eight bytes after a prefix of length i. */
  lemma SlotAt(whole: seq<byte>, a: seq<byte>, b: seq<byte>, i: nat)
    requires whole == a + b && |a| == i && |b| == 8
    ensures whole[i..i + 8] == b
  {
    Split(a, b);
  }

  /** The last record is written last. */
  lemma DataFileLast(docs: seq<Document>)
    requires docs != []
    ensures DataFile(docs) == DataFile(docs[..|docs| - 1]) + Record(docs[|docs| - 1])
  {
  }

  /** Writing two runs of documents writes the first run's records, then
      the second's. */
  lemma {:induction false} DataFileAppend(a: seq<Document>, b: seq<Document>)
    ensures DataFile(a + b) == DataFile(a) + DataFile(b)
    decreases |b|
  {
    if b == [] {
      assert a + b == a;
    } else {
      var n := |b| - 1;
      var c, init := a + b, b[..n];
      assert c[..|c| - 1] == a + init && c[|c| - 1] == b[n];
      DataFileAppend(a, init);
      calc {
        DataFile(c);
        { DataFileLast(c); }
        DataFile(a + init) + Record(b[n]);
        DataFile(a) + DataFile(init) + Record(b[n]);
        { Assoc(DataFile(a), DataFile(init), Record(b[n])); }
        DataFile(a) + (DataFile(init) + Record(b[n]));
        DataFile(a) + DataFile(b);
      }
    }
  }

  /** The data file splits around document k's record. */
  lemma DataSplit(docs: seq<Document>, k: nat)
    requires k < |docs|
    ensures DataFile(docs) == DataFile(docs[..k]) + Record(docs[k]) + DataFile(docs[k + 1..])
  {
    var before, one, after := docs[..k], [docs[k]], docs[k + 1..];
    assert one[..0] == [];
    assert DataFile(one) == Record(docs[k]);
    Around(docs, k);
    DataFileAppend(before, one);
    DataFileAppend(before + one, after);
  }

  /** A record followed by more bytes, field by field. */
  lemma RecordThen(d: Document, suffix: seq<byte>)
    requires ShortFields(d)
    ensures Record(d) + suffix == U16(|d.url|) + (d.url + (U16(|d.title|) + (d.title + suffix)))
  {
    var ul, tl := |d.url|, |d.title|;
    ModSmall(ul, U16_LIMIT);
    ModSmall(tl, U16_LIMIT);
    assert d.url[..ul] == d.url && d.title[..tl] == d.title;
    var r3 := U16(tl) + d.title;
    var r2 := d.url + r3;
    assert Record(d) == U16(ul) + r2;
    Assoc(U16(ul), r2, suffix);
    Assoc(d.url, r3, suffix);
    Assoc(U16(tl), d.title, suffix);
  }

  /** A record written after prefix decodes at offset |prefix|. */
  lemma DecodeRecordAt(prefix: seq<byte>, d: Document, suffix: seq<byte>)
    requires ShortFields(d)
    ensures DecodeRecord(prefix + Record(d) + suffix, |prefix|) == Some((d.url, d.title))
  {
    var ul, tl := |d.url|, |d.title|;
    RecordThen(d, suffix);
    Assoc(prefix, Record(d), suffix);
    Split(prefix, Record(d) + suffix);
    Split(U16(ul), d.url + (U16(tl) + (d.title + suffix)));
    Split(d.url, U16(tl) + (d.title + suffix));
    Split(U16(tl), d.title + suffix);
    Split(d.title, suffix);
    FixedWidthRoundTrip(ul);
    FixedWidthRoundTrip(tl);
  }

  /** Document k's record decodes at the offset its slot holds. */
  lemma RecordLookup(docs: seq<Document>, k: nat)
    requires k < |docs| && ShortFields(docs[k])
    ensures DecodeRecord(DataFile(docs), |DataFile(docs[..k])|) == Some((docs[k].url, docs[k].title))
  {
    DataSplit(docs, k);
    DecodeRecordAt(DataFile(docs[..k]), docs[k], DataFile(docs[k + 1..]));
  }

  /** `get_doc_info` on an index slot that holds a record's offset. */
  lemma DocInfoAt(index: seq<byte>, data: seq<byte>, k: nat, off: nat, url: seq<byte>, title: seq<byte>)
    requires k * 8 < U32_LIMIT && 8 * k + 8 <= |index| && off < U64_LIMIT
    requires index[8 * k..8 * k + 8] == U64(off)
    requires DecodeRecord(data, off) == Some((url, title))
    ensures DocInfo(index, data, k) == DocResult(k, url, title)
  {
    ModSmall(k * 8, U32_LIMIT);
    FixedWidthRoundTrip(off);
  }

  /** Looking up document k in the files written for docs gives back its
      url and title, provided its index slot is addressable with 32-bit
      arithmetic and all offsets fit a `u64`. */
  lemma StoreRoundTrip(docs: seq<Document>, k: nat)
    requires k < |docs| && k * 8 < U32_LIMIT
    requires forall j :: 0 <= j < |docs| ==> ShortFields(docs[j])
    requires |DataFile(docs)| < U64_LIMIT
    ensures DocInfo(IndexFile(docs), DataFile(docs), k) == DocResult(k, docs[k].url, docs[k].title)
  {
    IndexSlot(docs, k);
    DataSplit(docs, k);
    ModSmall(|DataFile(docs[..k])|, U64_LIMIT);
    RecordLookup(docs, k);
    DocInfoAt(IndexFile(docs), DataFile(docs), k, |DataFile(docs[..k])|, docs[k].url, docs[k].title);
  }
}
