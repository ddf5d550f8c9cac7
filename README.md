# A small search engine, modelled in Dafny

Three C++ programs make up the system:

- **The index builder** reads tab-separated records (url, title, text), one per line. It
  writes a document store and an inverted index to four binary files:
  - a document index, one `u64` offset per document;
  - document data, the `u16` url length, the url, the `u16` title length and the title;
  - a term index, the `u16` term length, the term, a `u64` postings offset and a `u32` count;
  - postings, consecutive `u32` document ids.
- **The query engine** loads the term index, parses a boolean query by recursive descent
  over a cursor, and combines postings lists with linear merges (`&&`, `!`, `|`). It lists
  the first 50 results with their url and title.
- **The word-frequency tokenizer** scans a text with the same separator rule, counts the
  tokens in a frequency map with token and character totals, and ranks the terms by
  descending frequency.

Files are modelled as byte sequences (`seq<byte>`). Writing to an output stream is
appending to a sequence, and `tellp` is its length. Stateful code keeps its imperative
form:

- the merges, the dictionary loader and every counting or copying loop are `while` loops;
- the parser is a class whose methods advance `pos`;
- the tokenizer's `Stats` is a class whose fields the methods update;
- `std::sort` is an insertion sort over an `array`.

Each method is proved against pure specification functions: `Intersection`, `Factor`,
`Term`, `Expression`, `Grouped`, `Counted`, `DataFile`, `EncodeTermIndex` and the like.
The properties of the system are proved about those functions, among them:

- the merges keep lists ascending and compute set intersection, union and difference;
- the term index and the document store decode to exactly what was encoded;
- looking up a term in the files the builder wrote gives exactly the documents containing
  it, in ascending order;
- the tokenizer's totals are the sums over its frequency map;
- the ranking is non-increasing.

Modules:

- `Codec`: little-endian fixed-width integers.
- `Text`: the ASCII character classes, tokenisation, line and field splitting, and the
  `std::string` order.
- `Sequences`: small sequence lemmas.
- `Sorting`: `std::sort`.
- `SetAlgebra`: the three merges.
- `IndexFormat`: the file layouts.
- `Query`: the query language's meaning.
- `SearchEngine`: the engine's classes and `main`.
- `Indexer`: the builder.
- `Tokenizer`: the frequency counter.

Four points where the model fixes a reading of the source:

- **Query bytes above 127.** The query engine's `isalnum` is taken in the C locale, so
  these bytes never belong to a word. The builder and the tokenizer test for bytes above
  127 explicitly and count them as token bytes.
- **A NUL byte in a query.** `peek` returns 0 for it exactly as at the end of the query,
  so the term loop stops there. The model does the same.
- **A negated factor `!x`.** It parses x and then yields the empty list, as the source does (its comment marks inversion against the whole corpus as not done yet). `a !b` in a term is the difference.
- **A truncated dictionary record.** The decoder stops at the last complete record. The
  source pushes an entry with unspecified fields instead.

## Model

| member | source | states |
|---|---|---|
| Codec.DecodeEncode | lab7/search_engine.cpp:40-49 | reading k little-endian bytes written for n < 256^k gives n back |
| Codec.EncodeDecode | lab7/search_engine.cpp:40-49 | every byte string is the encoding of the number it decodes to |
| Codec.FixedWidthRoundTrip | lab6/indexer.cpp:133-137 | a `u16`, `u32` or `u64` field written for a value in range reads back as that value |
| Codec.DecodeZero | lab7/search_engine.cpp:62-65 | bytes that are all zero decode to 0 |
| Text.SeparatorRanges | lab6/indexer.cpp:27-30 | a byte separates iff it is ASCII and neither a letter nor a digit, listed as the exact ASCII ranges; bytes above 127 never separate |
| Text.ToLower | lab6/indexer.cpp:32-35 | lower-casing leaves no upper-case letter, changes only 'A'..'Z' and those by +32, and never turns a separator into a token byte or back |
| Text.Lowered | lab7/search_engine.cpp:150-152 | a lowered word has the same length and each byte is that byte lower-cased |
| Text.Scan | lab6/indexer.cpp:80-95 | every token the scanner has completed is non-empty, has no separator and no upper-case letter, and no token is longer than the text |
| Text.Tokens | lab6/indexer.cpp:80-95 | every token of a text, including a trailing run with no separator after it, is non-empty, lower-cased and separator-free |
| Text.TokensOfRun | lab6/indexer.cpp:83-95 | a non-empty run of non-separator bytes is exactly one token, its lower-cased copy |
| Text.ScanAfterBoundary | lab6/indexer.cpp:83-92 | once no token is pending, scanning the rest starts afresh: the tokens of a + b are those of a, then those of b |
| Text.TokensSplit | lab6/indexer.cpp:83-92 | a separator ends the token before it: the tokens of a + [sep] + b are the tokens of a followed by those of b |
| Text.Lines | lab6/indexer.cpp:59 | `std::getline` pieces hold no newline |
| Text.LineEnd | lab6/indexer.cpp:59 | a line ends at the first newline, or at the end of the input when none follows |
| Text.LineTokensAreTokens | lab345/tokenizer.cpp:37-56 | scanning line by line and flushing the pending token at each line end gives the same tokens as scanning the whole text, so no token spans a line |
| Text.Field | lab6/indexer.cpp:63-65 | a tab-delimited field holds no tab and is a prefix of what remains of the line |
| Text.FieldThen | lab6/indexer.cpp:63-65 | before a tab, getline returns exactly the tab-free bytes ahead of it and leaves the stream just past the tab |
| Text.FieldWhole | lab6/indexer.cpp:63-65 | with no tab left, getline returns everything that remains and leaves nothing |
| Text.LexLessIrreflexive | lab6/indexer.cpp:20-24 | the `std::string` order never puts a string before itself |
| Text.LexLessAsymmetric | lab6/indexer.cpp:20-24 | two strings are never each before the other |
| Text.LexLessTransitive | lab6/indexer.cpp:20-24 | the `std::string` order is transitive |
| Text.LexLessTotal | lab6/indexer.cpp:20-24 | of two different strings one comes first |
| Sorting.SortArray | lab6/indexer.cpp:105 | for any strict weak order, the array ends sorted and is a permutation of what it held |
| Sorting.Insert | lab6/indexer.cpp:105 | inserting element i into a sorted prefix leaves a[..i+1] sorted and the array a permutation of what it held |
| SetAlgebra.Intersection | lab7/search_engine.cpp:94-106 | every id of `intersect` is in both inputs, and the result is no longer than either input |
| SetAlgebra.Union | lab7/search_engine.cpp:108-119 | `unite` holds exactly the ids that are in a or in b, at most \|a\| + \|b\| of them |
| SetAlgebra.Difference | lab7/search_engine.cpp:123-133 | every id of `exclude` is from a, and the result is no longer than a |
| SetAlgebra.IntersectionCorrect | lab7/search_engine.cpp:94-106 | on ascending inputs `intersect` is ascending and holds exactly the ids in both |
| SetAlgebra.UnionAscending | lab7/search_engine.cpp:108-119 | on ascending inputs `unite` is ascending, hence duplicate-free |
| SetAlgebra.DifferenceCorrect | lab7/search_engine.cpp:123-133 | on ascending inputs `exclude` is ascending and holds exactly the ids of a not in b |
| SetAlgebra.SelfMerges | lab7/search_engine.cpp:108-133 | intersect(a, a) = unite(a, a) = a, exclude(a, a) = [] and exclude(a, []) = a, for any a |
| SetAlgebra.MergesShape | lab7/search_engine.cpp:94-133 | ascending lists of ids below n merge into ascending lists of ids below n |
| SetAlgebra.AscendingBelowLength | lab7/search_engine.cpp:94-133 | an ascending list of ids below n has at most n elements |
| SetAlgebra.AscendingDistinct | lab6/indexer.cpp:121-124 | an ascending list has no repeats: it holds as many distinct ids as it has elements |
| SetAlgebra.Intersect | lab7/search_engine.cpp:94-106 | the two-index merge loop computes Intersection; on ascending inputs its result is ascending with exactly the common ids |
| SetAlgebra.Unite | lab7/search_engine.cpp:108-119 | the merge loop and the two copy loops compute Union; on ascending inputs the result is ascending |
| SetAlgebra.Exclude | lab7/search_engine.cpp:123-133 | the merge loop and the copy loop compute Difference; on ascending inputs the result is ascending with exactly the ids of a not in b |
| SetAlgebra.AppendRest | lab7/search_engine.cpp:116-117 | the tail-copy loop appends exactly s[i..] |
| IndexFormat.EncodeEntry | lab6/indexer.cpp:133-137 | a term-index entry is 2 + \|term\| + 8 + 4 bytes long |
| IndexFormat.EncodeTermIndexSnoc | lab6/indexer.cpp:133-137 | writing one more entry appends exactly its encoding |
| IndexFormat.DecodeTermIndex | lab7/search_engine.cpp:39-52 | the loader yields entries whose fields fit their widths, the term its `u16` length |
| IndexFormat.DecodeEntryThen | lab7/search_engine.cpp:39-52 | one encoded entry in front of more bytes decodes to that entry, then the rest |
| IndexFormat.TermIndexRoundTrip | lab7/search_engine.cpp:39-52 | decoding the term index the builder writes gives back the same entries in the same order |
| IndexFormat.DecodeIds | lab7/search_engine.cpp:62-65 | 4k bytes read as k ids, each below 2^32 |
| IndexFormat.DecodeEncodeIds | lab6/indexer.cpp:129-131 | ids below 2^32 written as `u32` read back unchanged |
| IndexFormat.DecodeIdsAt | lab7/search_engine.cpp:62-65 | id k of a block is the little-endian value of its k-th group of four bytes |
| IndexFormat.EncodeIds | lab6/indexer.cpp:129-131 | each id is written as 4 bytes |
| IndexFormat.ReadIds | lab7/search_engine.cpp:62-65 | `get_postings` yields exactly count ids, each below 2^32 |
| IndexFormat.WindowAt | lab7/search_engine.cpp:64-65 | within the file, what `seekg` and `read` obtain at a position are the file's bytes there |
| IndexFormat.ReadIdsWithin | lab7/search_engine.cpp:62-65 | an id whose four bytes lie inside the file is read from those bytes |
| IndexFormat.ReadIdsPastEnd | lab7/search_engine.cpp:62-65 | an id starting at or past the end of the file is 0: a short read leaves the vector's zero fill in place |
| IndexFormat.WindowOf | lab7/search_engine.cpp:64-65 | seeking to a block's start and reading its length yields exactly that block |
| IndexFormat.ReadEncodedIds | lab7/search_engine.cpp:62-65 | a list written at some offset in the postings file is read back exactly, whatever surrounds it |
| IndexFormat.EncodeListsLength | lab6/indexer.cpp:126-131 | the postings file is 4 bytes per id written |
| IndexFormat.EncodeListsAppend | lab6/indexer.cpp:129-131 | writing two runs of lists writes the first run's bytes, then the second's |
| IndexFormat.EncodeListsSplit | lab6/indexer.cpp:126-131 | list k starts right after the bytes of the lists before it |
| IndexFormat.Find | lab7/search_engine.cpp:59-61 | the lookup yields the first entry with that term, or none when no entry has it |
| IndexFormat.FindInAscending | lab7/search_engine.cpp:59-61 | in a strictly ascending dictionary every term is found at its own position |
| IndexFormat.AscendingIsNonDecreasing | lab7/search_engine.cpp:59 | a strictly ascending dictionary meets `lower_bound`'s ordering requirement |
| IndexFormat.PostingsOfAscendingBelow | lab7/search_engine.cpp:55-69 | when every stored list is ascending with ids below n, so is every lookup, including the empty one for a missing term |
| IndexFormat.Record | lab6/indexer.cpp:72-78 | a record is 4 bytes plus the url and title lengths taken mod 2^16, which is how far the next offset advances |
| IndexFormat.IndexFile | lab6/indexer.cpp:69-70 | the document index holds 8 bytes per kept document |
| IndexFormat.IndexSlot | lab6/indexer.cpp:69-70 | slot k holds, as a `u64`, the data-file length before document k's record, which is where that record starts |
| IndexFormat.DataFileAppend | lab6/indexer.cpp:72-78 | the data file of two runs of documents is the first run's records, then the second's |
| IndexFormat.DataSplit | lab6/indexer.cpp:72-78 | document k's record sits between the records of the documents before and after it |
| IndexFormat.RecordThen | lab6/indexer.cpp:72-78 | a record with short fields is `u16` url length, url, `u16` title length, title |
| IndexFormat.DecodeRecordAt | lab7/search_engine.cpp:79-89 | reading a record at its offset gives back its url and title, whatever precedes or follows it |
| IndexFormat.RecordLookup | lab7/search_engine.cpp:79-89 | in the data file, document k's record decodes at the data length before it |
| IndexFormat.DocInfo | lab7/search_engine.cpp:71-92 | `get_doc_info` always answers with the id it was asked for |
| IndexFormat.DocInfoAt | lab7/search_engine.cpp:71-92 | when the slot at 8k (32-bit product) holds an offset where a whole record lies, that record's url and title are returned |
| IndexFormat.StoreRoundTrip | lab7/search_engine.cpp:71-92 | document k's url and title come back from the document files the builder wrote, when 8k fits 32 bits and all offsets fit a `u64` |
| Query.SkipSpaces | lab7/search_engine.cpp:141-145 | `peek`'s loop skips exactly the run of spaces, stopping at a non-space or the end |
| Query.SkipNonWord | lab7/search_engine.cpp:148 | `get_word`'s first loop skips exactly the bytes that cannot be in a word |
| Query.WordEnd | lab7/search_engine.cpp:150-153 | `get_word`'s second loop consumes exactly the maximal run of letters, digits and '_' |
| Query.AfterWord | lab7/search_engine.cpp:147-155 | `get_word` never moves back and moves forward unless it is at the end |
| Query.WordEndAt | lab7/search_engine.cpp:150-153 | a word run ends exactly at the first byte that is not a word byte |
| Query.Factor | lab7/search_engine.cpp:157-176 | a factor never moves the cursor back, consumes at least one byte when one is left after the spaces, and is empty when it starts with '!' |
| Query.TermStep | lab7/search_engine.cpp:184-197 | every turn of the term loop strictly advances the cursor, so the loop terminates |
| Query.TermRest | lab7/search_engine.cpp:180-199 | the term loop ends only at the end of the query, a NUL byte, '\|' or ')' |
| Query.Term | lab7/search_engine.cpp:178-200 | a term stops only at the end, a NUL, '\|' or ')' |
| Query.AfterBars | lab7/search_engine.cpp:205-206 | past '\|' (or '\|\|') the cursor has moved forward |
| Query.ExpressionRest | lab7/search_engine.cpp:204-209 | started where a term ended, the union loop stops only at the end, a NUL or ')' |
| Query.Expression | lab7/search_engine.cpp:202-211 | an expression stops only at the end of the query, a NUL byte or an unmatched ')' |
| Query.FactorShape | lab7/search_engine.cpp:157-176 | over ascending lists of ids below n, every factor is one too |
| Query.TermShape | lab7/search_engine.cpp:178-200 | over ascending lists of ids below n, every term is one too |
| Query.ExpressionShape | lab7/search_engine.cpp:202-211 | over ascending lists of ids below n, every expression is one too |
| Query.EvaluateShape | lab7/search_engine.cpp:238 | every query's result is ascending and duplicate-free, with ids below n, when the stored lists are |
| Query.EmptyDictionaryFindsNothing | lab7/search_engine.cpp:55-69 | with an empty dictionary every query finds nothing |
| Query.WordFactor | lab7/search_engine.cpp:173-175 | a word factor is the postings list of the lower-cased word and ends right after it |
| Query.WordQuery | lab7/search_engine.cpp:173-175 | a one-word query gives the postings list of the lower-cased word |
| Query.AdjacentQuery | lab7/search_engine.cpp:193-197 | "a b" gives A ∩ B when B is non-empty, and A unchanged when B is empty |
| Query.AndQuery | lab7/search_engine.cpp:184-187 | "a && b" gives the intersection of the two postings lists, empty or not |
| Query.ExceptQuery | lab7/search_engine.cpp:188-192 | "a !b" gives A minus B |
| Query.OrQuery | lab7/search_engine.cpp:204-208 | "a \| b" and "a \|\| b" give the union of the two postings lists |
| Query.NegatedQuery | lab7/search_engine.cpp:159-165 | "!a" gives the empty set, whatever a's postings |
| Query.GroupQuery | lab7/search_engine.cpp:167-171 | "(a)" and "(a" both give a's postings: the ')' is consumed only when present |
| SearchEngine.LowerBoundFinds | lab7/search_engine.cpp:59-61 | when the dictionary is non-decreasing, the lower-bound position holds the word if any entry does, and then it is the first such entry |
| SearchEngine.Engine.constructor | lab7/search_engine.cpp:29-32 | the engine starts with the four files it was given and an empty dictionary |
| SearchEngine.Engine.LoadDictionary | lab7/search_engine.cpp:35-53 | the read loop appends exactly the decoded term index to the dictionary |
| SearchEngine.Engine.GetPostings | lab7/search_engine.cpp:55-69 | the binary search plus read returns the word's stored list when the word is in the dictionary, and the empty list otherwise |
| SearchEngine.Parser.Peek | lab7/search_engine.cpp:141-145 | `peek` moves past the spaces and returns the byte there, 0 at the end |
| SearchEngine.Parser.constructor | lab7/search_engine.cpp:136-139 | a parser starts at position 0 of its query |
| SearchEngine.Parser.GetWord | lab7/search_engine.cpp:147-155 | `get_word` returns the lower-cased word the query holds from the cursor on and leaves the cursor after it |
| SearchEngine.Parser.ParseFactor | lab7/search_engine.cpp:157-176 | `parse_factor` returns Factor's ids and leaves the cursor where Factor ends |
| SearchEngine.Parser.TermOperator | lab7/search_engine.cpp:184-197 | one turn of `parse_term`'s loop computes one TermStep |
| SearchEngine.Parser.ParseTerm | lab7/search_engine.cpp:178-200 | `parse_term` returns Term's ids and cursor |
| SearchEngine.Parser.SkipBars | lab7/search_engine.cpp:205-206 | one or two bars, optionally separated by spaces, are consumed |
| SearchEngine.Parser.ParseExpression | lab7/search_engine.cpp:202-211 | `parse_expression` returns Expression's ids and cursor |
| SearchEngine.ReplaceQuotes | lab7/search_engine.cpp:252-253 | every '"' of a title becomes '\\'', nothing else changes, and no '"' is left |
| SearchEngine.Report | lab7/search_engine.cpp:248-256 | the listing shows the first min(n, 50) ids in result order, each with its url and quote-free title |
| SearchEngine.ListResults | lab7/search_engine.cpp:248-256 | the listing loop produces exactly the report |
| SearchEngine.Search | lab7/search_engine.cpp:233-256 | the count is the size of the query's result over the loaded dictionary, and the rows are its report |
| Indexer.EntryLessTotal | lab6/indexer.cpp:20-24 | any two different pairs are ordered one way or the other |
| Indexer.EntryLessAsymmetric | lab6/indexer.cpp:20-24 | two pairs are never each before the other |
| Indexer.EntryLessTransitive | lab6/indexer.cpp:20-24 | the pair order is transitive |
| Indexer.EntryOrder | lab6/indexer.cpp:20-24 | the pair order is a strict weak order, as `std::sort` requires |
| Indexer.SplitRecord | lab6/indexer.cpp:60-65 | url, title and text hold no tab |
| Indexer.SplitRecordFields | lab6/indexer.cpp:60-65 | a line u TAB t TAB x with tab-free u and t splits into url u, title t and, as text, x up to its first tab |
| Indexer.SplitRecordOneTab | lab6/indexer.cpp:60-65 | a line u TAB t with tab-free u and t has url u, title t and an empty text |
| Indexer.SplitRecordNoTab | lab6/indexer.cpp:60-65 | a line with no tab is all url, with an empty title and text |
| Indexer.KeptDocuments | lab6/indexer.cpp:59-67 | at most one document per line, and every document kept has a non-empty text |
| Indexer.KeptLine | lab6/indexer.cpp:67 | a line contributes at most one document, its own record, and only with a non-empty text |
| Indexer.KeptSnoc | lab6/indexer.cpp:59-67 | one more line adds its own contribution after the documents of the earlier lines |
| Indexer.KeptDocumentsAppend | lab6/indexer.cpp:59-97 | the kept documents of two runs of lines are those of the first run, then those of the second: documents keep line order |
| Indexer.KeptLineAt | lab6/indexer.cpp:59-97 | line i is kept exactly when its text is non-empty, between the documents of the lines before and after it, so its id is the number kept before it |
| Indexer.KeptDocumentsMembers | lab6/indexer.cpp:59-67 | a document is kept iff some line splits into it and its text is non-empty |
| Indexer.DocEntries | lab6/indexer.cpp:80-95 | one pair per token, in text order, each with the document's id |
| Indexer.AllEntriesMembers | lab6/indexer.cpp:80-97 | a pair is collected iff its id is below the number of kept documents and its term is a token of that document's text; ids are dense |
| Indexer.AddTokens | lab6/indexer.cpp:80-95 | the character loop appends exactly one pair per token of the text, the trailing one included |
| Indexer.StoreDocument | lab6/indexer.cpp:69-78 | storing a document appends its record to the data file and the old data length as a `u64` to the document index |
| Indexer.StoreStep | lab6/indexer.cpp:69-97 | keeping one more document extends both files and the pairs by exactly that document's share |
| Indexer.CollectDocuments | lab6/indexer.cpp:59-99 | phase 1 writes the document files and collects the pairs of exactly the kept documents, counting them |
| Indexer.AddEntry | lab6/indexer.cpp:120-145 | one merge step keeps the earlier terms and ends with the pair's term |
| Indexer.Lists | lab6/indexer.cpp:129-131 | one postings list per group, in order |
| Indexer.Directory | lab6/indexer.cpp:133-137 | one term entry per group, with that group's term, every field in range |
| Indexer.GroupedShape | lab6/indexer.cpp:114-145 | on sorted pairs every list is non-empty and strictly ascending, and the terms are strictly ascending |
| Indexer.AddSameTerm | lab6/indexer.cpp:121-124 | a pair of the current term extends its list unless the id repeats, and keeps the shape |
| Indexer.AddNewTerm | lab6/indexer.cpp:141-143 | a pair of a later term starts a new list and keeps the shape |
| Indexer.GroupedMember | lab6/indexer.cpp:120-145 | on sorted pairs an id is in a term's list iff that pair was collected |
| Indexer.GroupedMembers | lab6/indexer.cpp:120-145 | the same for every list and id at once |
| Indexer.GroupedCount | lab6/indexer.cpp:120-137 | on sorted pairs a term's list length, the count written to the term index, is the number of distinct documents with that term |
| Indexer.GroupOf | lab6/indexer.cpp:120-145 | every collected pair's term has a list |
| Indexer.DirectoryAt | lab6/indexer.cpp:126-137 | entry k's offset is the postings length before list k, its count the list's length, both wrapped to their widths |
| Indexer.DirectoryFits | lab6/indexer.cpp:126-127 | when the sizes fit, entry k's offset is 4 times the ids of the lists before it and its count is its list's length |
| Indexer.WriteIds | lab6/indexer.cpp:129-131 | the id loop appends exactly the list's `u32` encoding |
| Indexer.WriteEntry | lab6/indexer.cpp:133-137 | the four writes append exactly the entry's encoding |
| Indexer.WriteGroup | lab6/indexer.cpp:126-137 | writing a list and its entry extends both files from those of the earlier lists to those of the lists including this one |
| Indexer.MergeNext | lab6/indexer.cpp:121-144 | one turn of the merge loop keeps "files of the finished lists, plus the current list" equal to the grouping of the pairs seen |
| Indexer.MergeGroups | lab6/indexer.cpp:114-145 | after the loop the finished lists are written and the current one completes the grouping |
| Indexer.MergePostings | lab6/indexer.cpp:112-157 | phase 3 writes the term index and postings of the grouped pairs, counts the distinct terms, and writes nothing iff there are no pairs |
| Indexer.SortEntries | lab6/indexer.cpp:105 | the pairs end sorted by the pair order and are a permutation of those collected |
| Indexer.BuildIndex | lab6/indexer.cpp:59-157 | the whole build: the document files of the kept lines, the sorted pairs, and the term index and postings of their grouping |
| Indexer.FindGroup | lab6/indexer.cpp:120-157 | the term index read back is the directory, and each term is found at its own list |
| Indexer.DirectoryAscending | lab6/indexer.cpp:133-137 | well-formed lists give term entries in strictly ascending term order |
| Indexer.BuiltDictionarySorted | lab6/indexer.cpp:105-157 | the dictionary the query engine loads from the term index the builder wrote is strictly ascending by term, so it meets `std::lower_bound`'s ordering requirement |
| Indexer.ReadGroup | lab6/indexer.cpp:126-131 | the count ids at entry k's offset are exactly list k |
| Indexer.LookupFound | lab7/search_engine.cpp:55-69 | looking up a written term in the written files returns its list |
| Indexer.LookupMissing | lab7/search_engine.cpp:55-69 | looking up a term with no list returns the empty list |
| Indexer.BuiltIndexLookup | lab6/indexer.cpp:112-157 | end to end: looking up a term in the built files gives an ascending list holding exactly the documents whose text has that term |
| Tokenizer.SumRemove | lab345/tokenizer.cpp:13 | a sum over the frequency map can take any key out first |
| Tokenizer.SumUpdate | lab345/tokenizer.cpp:43 | updating one key changes a sum over the map by that key's difference |
| Tokenizer.Bump | lab345/tokenizer.cpp:43 | `frequency[t]++` adds t with count 1 or increments it, and leaves every other key alone |
| Tokenizer.CountedFrequencies | lab345/tokenizer.cpp:37-56 | after counting a run of tokens, t is a key iff it was one or occurs in the run, and its count grew by its number of occurrences |
| Tokenizer.CountedAppend | lab345/tokenizer.cpp:37-56 | counting a + b is counting a then b; character totals add |
| Tokenizer.CountedTotals | lab345/tokenizer.cpp:41-43 | the sum of the map's counts is the number of tokens, and the sum of count times key length is the number of token characters |
| Tokenizer.CountedKeys | lab345/tokenizer.cpp:43 | a term is a key iff it occurred, and its count is its number of occurrences, at least 1 |
| Tokenizer.Stats.constructor | lab345/tokenizer.cpp:10-14 | counting starts with zero totals and an empty frequency map |
| Tokenizer.Stats.Add | lab345/tokenizer.cpp:41-44 | one token increments the token total, adds its length and bumps its count, keeping the totals equal to the sums over the map |
| Tokenizer.Stats.ProcessLine | lab345/tokenizer.cpp:38-55 | a line counts exactly its tokens, the one still pending at the line end included |
| Tokenizer.Stats.ProcessFile | lab345/tokenizer.cpp:27-57 | the file's tokens are counted into the map and the totals, line by line, and the totals stay the sums over the map |
| Tokenizer.MoreFrequentOrder | lab345/tokenizer.cpp:89-93 | "higher count first" is a strict weak order, as `std::sort` requires |
| Tokenizer.DistinctOnce | lab345/tokenizer.cpp:87 | in a duplicate-free sequence every element occurs at most once |
| Tokenizer.PermutationDistinct | lab345/tokenizer.cpp:89-93 | a permutation of a duplicate-free sequence is duplicate-free |
| Tokenizer.MapEntries | lab345/tokenizer.cpp:87 | copying the map gives each (term, count) entry exactly once and nothing else |
| Tokenizer.SortedPairs | lab345/tokenizer.cpp:87-93 | after the sort the entries are by non-increasing count, each map entry exactly once |
| Tokenizer.NumberRows | lab345/tokenizer.cpp:97-99 | row i gets rank i + 1 and the i-th sorted term and count |
| Tokenizer.NumberedRanking | lab345/tokenizer.cpp:87-99 | numbered sorted entries rank every term of the map once with its count, by non-increasing count |
| Tokenizer.RankTerms | lab345/tokenizer.cpp:87-99 | ranks run 1..n, counts are non-increasing, each term of the map appears exactly once with its count |

## Left out

- Opening files, their failure paths and the clock are left to the caller; so are the printed statistics (documents per second, KB/s, average token length, elapsed time).
- The JSON and CSV text layout is left out. The listed rows, the 50-row limit and the quote replacement are modelled, but their printing is not.
- A dictionary record cut short at the end of the term index is dropped. The source appends an entry with unspecified fields.
- A stream's sticky fail state is left out. After a failed `seekg` or a short read the source's later reads also fail; the model reads each field on its own, zero-filling a short postings read and giving empty url and title for a truncated document record.
- The `uint32_t` document counter's wrap-around after 2^32 documents is not modelled; ids are unbounded, and a written id is taken mod 2^32.
- The overflow of `Stats`' `long long` totals and `int` counts is not modelled; they are unbounded integers.
- `std::map`'s iteration order before the sort is not modelled: the entries are copied out in an unspecified order, which the unstable sort then makes irrelevant except among equal counts.
- Tokenizer.RankTerms: promises nothing about the order of terms with equal counts, because `std::sort` is not stable.
- SearchEngine.Search: requires the loaded dictionary to be sorted by term, for the same reason as GetPostings.
- SearchEngine.Engine.GetPostings: requires a dictionary sorted by term (non-decreasing), which `std::lower_bound` presumes of its range; the dictionary loaded from the term index the builder writes meets it (Indexer.BuiltDictionarySorted).
- Indexer.BuiltIndexLookup: holds when every term fits its `u16` length, every list its `u32` count and ids, and the postings file its `u64` offsets; beyond those sizes the written fields wrap, and that wrapping is modelled but not proved.
- IndexFormat.StoreRoundTrip: holds when 8k fits 32 bits, url and title fit their `u16` lengths and the data file fits `u64` offsets; the wrapped cases are modelled in DocInfo, Record and IndexFile but not proved.
- Locale-dependent `isalnum` and `tolower` are taken in the C locale. A query byte above 127 is never part of a word.
- The crawler, the export and plotting scripts and the web front end (lab2/crawler.py, lab6/lab6_export.py, lab345/lab3_export.py, lab345/lab3_plot.py, lab7/app.py) are not part of this model.
