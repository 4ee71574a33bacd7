# Verified models of the embedded library collection

This project models six components of the repository in Dafny and proves what
they are for. Imperative code is modelled by classes and loops and proved
against functions on plain values; the laws are lemmas about those functions
and about all runs.

* **Heap** (`HeapBlocks`, `HeapLedger`, `Heap`): the multi-heap first-fit allocator with its
  address-ordered, coalescing free list, on an arena of addressed headers.
* **Hash table** (`OrderedMap`, `Rings`, `Segments`, `HashTable`, `Lookup3`,
  `HashVector`): jansson's table, in which all buckets are segments of one ring and a second
  ring keeps insertion order, and the string hash behind it.
* **JSON** (`Utf8`, `JsonStrings`, `JsonValues`, `JsonTokens`, `JsonDump`,
  `JsonParse`, `JsonRoundTrip`, `JsonLoaded`, `JsonLexer`, `JsonPrinter`,
  `JsonGraph`): printer, two-pass string lexer, parser, equality and deep copy;
  the grammar they are measured against (`JsonSpelling`, `JsonGrammar`,
  `JsonAccepts`), what the layout flags do (`JsonLayout`) and what equality
  means (`JsonSame`).
* **Internet checksum** (`InternetSum`, `Checksum`, `ChecksumChain`): three
  algorithms and the buffer-chain versions, on a little-endian host.
* **DNS resolver** (`DnsSteps`, `DnsRuns`, `Dns`): table entries, attached
  requests, shared source ports, retries, failover, caching (`DnsCache`), which
  replies count (`DnsReplies`), when which server is asked (`DnsSchedule`), what
  callers are told (`DnsOutcomes`) and a refused query (`DnsRefusal`).
* **Select** (`Select`, `SelectResults`): callers of lwip_select and event callbacks as atomic
  steps, with the core lock protecting the waiter list.

`Options`, `Bytes` and `Powers` hold what these share. Check everything with
`dafny verify dfyconfig.toml`.

## Modelling decisions

* Sizes and addresses of the heap are 32 bits wide and the overflow checks of
  the code are kept; the usable arena is assumed to hold a header besides the
  end marker and to be smaller than the top bit.
* Nodes of the hash table are addresses in a map; releasing a node removes it,
  so following a released node would not verify. The hash is an arbitrary
  function of the key. Allocation results are parameters.
* JSON objects are member lists in insertion order, with the meaning the hash
  table is proved to have. Text is NUL-free, as json_loads takes it. The stream
  is modelled down to its five-byte buffer; bytes are unsigned, which
  `Utf8.NoMarkerBytes` justifies. Sorting is an insertion sort: with distinct
  keys every sorting routine gives the same order.
* The hash works on integers below 2^32. The words of a key that a 32-bit read
  shares with bytes behind it are modelled, with arbitrary such bytes.
  The check value in `HashVector` is the one the self-test of lookup3.c prints for
  its thirty-byte key; the header in this repository leaves the self-test out.
* The resolver is modelled for one address family, as many requests as table
  entries, and all security options on. Random numbers, the outcome of opening
  a port and the shape of replies are parameters; whether a query packet leaves
  has no effect on the tables. Callbacks are logged and do not call the resolver
  again. `ticket`, `born`, `ticks`, `accepted` and `calls` serve the
  specification only.
* A select call is cut into its protected sections: one socket per step of a
  scan or of a counter loop, one list element per step of a callback. Callers
  that raise events hold the core lock, as the code demands of them; callers that
  lower events need not. No socket is opened or closed during a wait.
* jansson describes json_equal as a comparison of values; for keys with NUL
  bytes the code looks up only the part before the NUL, and the model follows
  the code: `JsonValues.EqualToCopyIff` and `JsonValues.SymmetricIff` say exactly
  when it is reflexive and symmetric. Values are trees here, so these concern two
  separate objects; given the same pointer twice the code answers 1 at once.
* The waiter list and the callbacks are there so that a set event wakes a waiting
  thread. The 16-bit receive counter limits this: a wrapped counter can hide or
  invent an event. `Select.RunIsSafeIff` says exactly which runs are safe, and
  `Select.PacedLosesNothing` gives a condition on the callers of event_callback
  alone: raisings and lowerings of a socket never differ by more than 16 bits
  hold. The callers in `lwip-2.1.3/src/api` lower a counter only for a message
  taken from a mailbox (api_lib.c lines 531, 666 and 753), and the mailboxes of
  `lwip_port/lwipopts.h` have three places; the run of
  `Select.LossIsReachable` leaves the range with 32768 messages not taken.

## Model

| member | source | states |
|---|---|---|
| `HeapBlocks.RunKeepsWellFormed` | heap/heap.c:89-300 | after every run of malloc and free, blocks tile the usable range without gap or overlap, all aligned, and no two free blocks are adjacent |
| `HeapBlocks.StepKeepsWellFormed` | heap/heap.c:163-214 | one malloc or free keeps the tiling, the alignment and the separation of free blocks |
| `HeapBlocks.FreeListIsSeparated` | heap/heap.c:374-438 | the free list of a well-formed tiling is strictly increasing in address, with at least one used byte between neighbours |
| `HeapBlocks.BytesAreConserved` | heap/heap.c:198-203 | free and used bytes always add up to the whole usable arena |
| `HeapBlocks.FreeUndoesMalloc` | heap/heap.c:163-214 | freeing the block a malloc has just returned restores the exact tiling, and so the exact free list, from before the call |
| `HeapBlocks.AllFreeIsFresh` | heap/heap.c:359-367 | a well-formed tiling without used blocks is the single block of a fresh heap |
| `HeapBlocks.FullyFreedRunIsFresh` | heap/heap.c:278-287 | a run that has freed everything it allocated ends with one free block over the whole usable arena |
| `HeapBlocks.MallocIsLowestFit` | heap/heap.c:114-163 | malloc returns NULL exactly when the request is zero, has the top bit set or no free block is as large as the rounded request; otherwise it takes the lowest-addressed block that fits and the pointer is new |
| `HeapBlocks.FirstFit` | heap/heap.c:152-159 | the index of the first free block that is large enough; every earlier block is used or too small |
| `HeapBlocks.CoalesceKeepsWellFormed` | heap/heap.c:388-433 | releasing a block and merging it with whichever neighbours are free keeps the tiling and leaves no adjacent free blocks |
| `HeapBlocks.CarveKeepsWellFormed` | heap/heap.c:173-192 | splitting a free block, or taking it whole, keeps the tiling |
| `HeapLedger.RunServesRequests` | heap/heap.c:89-300 | after every run from initialisation the allocated blocks are exactly those of the requests not yet given back, each at least as large as its rounded request and at most sixteen bytes larger |
| `HeapLedger.MallocTakes` | heap/heap.c:163-203 | a successful malloc takes exactly the rounded request and leaves the rest as one free block behind it whenever the rest exceeds two headers, and otherwise the whole block; every other block stays and the free bytes fall by what was taken |
| `HeapLedger.MallocAddsOwner` | heap/heap.c:163-214 | malloc adds one allocated block of that size and changes no other |
| `HeapLedger.FreeRemovesOwner` | heap/heap.c:253-300 | free removes one allocated block, gives back exactly its bytes and changes no other |
| `HeapLedger.RequestIsRounded` | heap/heap.c:114-146 | the size looked for is a multiple of four between eight and eleven bytes above the request |
| `Heap.Heap.constructor` | heap/heap.c:43-52 | an unused heap whose pool is large enough is valid and not yet initialised |
| `Heap.Heap.Init` | heap/heap.c:324-371 | initialisation aligns both ends and leaves one free block over the usable arena, with both byte counters equal to its size |
| `Heap.Heap.AlignPool` | heap/heap.c:329-355 | both ends of the usable arena: the pool's start rounded up to the alignment and the end marker's address rounded down |
| `Heap.Heap.InsertBlock` | heap/heap.c:374-438 | the in-place list edit turns a pending block into its coalesced form in all four merge cases, and leaves the headers of used blocks alone |
| `Heap.Heap.EditFree` | heap/heap.c:391-437 | the two merge tests and the relinking give a chain with the grown block in place of it and the neighbours it touches |
| `Heap.InsertedIsCoalesced` | heap/heap.c:388-424 | inserting into the sorted list with merging is the same as coalescing in the tiling |
| `Heap.Heap.RoundRequest` | heap/heap.c:114-146 | the rounded request with its header, or zero for a request that is zero, too large or would overflow 32 bits |
| `Heap.Heap.FindFit` | heap/heap.c:152-159 | the walk along the links stops at the first list block that fits, or at the end marker |
| `Heap.FitAlongList` | heap/heap.c:155-159 | the first fit along the free list is the first fit in the tiling |
| `Heap.Heap.Take` | heap/heap.c:167-192 | unlinking the found block and splitting off the rest gives exactly the carved tiling |
| `Heap.Heap.TakeAndMark` | heap/heap.c:163-214 | the found block is taken, marked and counted, and the free-byte counter and its minimum follow |
| `Heap.Heap.Malloc` | heap/heap.c:90-250 | the call does to memory what first fit on the tiling says, returns its address, and keeps every invariant, initialising the heap on first use |
| `Heap.Heap.Free` | heap/heap.c:254-300 | freeing an allocated pointer coalesces its block in the tiling; NULL, and a pointer whose header is not marked as allocated, change nothing, and the assertions fail exactly for the latter; the free-byte counter equals the sum of free block sizes and the minimum its least value since initialisation |
| `Heap.Heap.Reinit` | heap/heap.c:561-571 | starting over leaves one free block over the usable arena and zero counts |
| `Heap.Heap.GetStats` | heap/heap.c:447-518 | the number of free blocks and their largest and smallest size, with the documented values for an uninitialised or exhausted heap |
| `OrderedMap.RunIsMapInInsertionOrder` | jansson-2.14/src/hashtable.c:227-318 | every sequence of set, delete and clear behaves as a finite map whose iteration order is first insertion, overwriting keeping the position |
| `HashTable.HashTable.constructor` | jansson-2.14/src/hashtable.c:174-191 | an empty table with valid rings and empty buckets |
| `HashTable.HashTable.InsertToBucket` | jansson-2.14/src/hashtable.c:57-69 | relinking a node keeps the ring and makes every bucket again a contiguous segment holding exactly the pairs of its index |
| `HashTable.HashTable.FindPair` | jansson-2.14/src/hashtable.c:71-93 | walking one segment finds the pair with the key, or there is none in the whole table |
| `HashTable.HashTable.Rehash` | jansson-2.14/src/hashtable.c:140-172 | the table doubles; contents and iteration order are unchanged; without memory nothing changes |
| `HashTable.HashTable.Reset` | jansson-2.14/src/hashtable.c:152-162 | twice as many empty buckets and an emptied ring; the old nodes keep their links for the walk that follows |
| `HashTable.HashTable.MoveAll` | jansson-2.14/src/hashtable.c:161-169 | the walk that relinks the nodes it is following ends, visits every pair once and re-establishes the segments of the larger table |
| `HashTable.HashTable.Set` | jansson-2.14/src/hashtable.c:227-258 | on success the contents are those of an ordered-map set, otherwise they are unchanged; it fails exactly when an allocation it needs fails; the load never exceeds one |
| `HashTable.HashTable.AddPair` | jansson-2.14/src/hashtable.c:247-256 | a new pair goes to the end of the iteration order and to the front of its bucket |
| `HashTable.HashTable.Get` | jansson-2.14/src/hashtable.c:260-273 | the value the ordered map holds for the key |
| `HashTable.HashTable.Del` | jansson-2.14/src/hashtable.c:96-126 | deletes the key from the ordered map and tells whether it was there |
| `HashTable.HashTable.RemovePair` | jansson-2.14/src/hashtable.c:109-123 | a pair leaves both rings and its bucket, and its node is released |
| `HashTable.HashTable.ShrinkBucket` | jansson-2.14/src/hashtable.c:109-116 | the bucket ends after its first, last, only or an inner node is removed |
| `HashTable.HashTable.Clear` | jansson-2.14/src/hashtable.c:280-292 | the table is empty and keeps its size |
| `HashTable.HashTable.DoClear` | jansson-2.14/src/hashtable.c:128-138 | every pair is released exactly once, each after its successor was read |
| `HashTable.HashTable.Iterate` | jansson-2.14/src/hashtable.c:294-318 | iteration yields the contents in first-insertion order |
| `Rings.InsertIntoRing` | jansson-2.14/src/hashtable.c:45-50 | inserting before a node of a ring gives the ring with the node at that place |
| `Rings.RemoveFromRing` | jansson-2.14/src/hashtable.c:52-55 | removing a node gives the ring without it |
| `Segments.InsertKeepsSegments` | jansson-2.14/src/hashtable.c:61-69 | buckets stay contiguous segments when a node is inserted at its bucket's front or, for an empty bucket, at the end |
| `Segments.DropKeepsSegments` | jansson-2.14/src/hashtable.c:109-118 | buckets stay contiguous segments when a node is dropped and its bucket's ends are moved |
| `Lookup3.HashLittle` | jansson-2.14/src/lookup3.h:197-382 | the hash is a function of the key's bytes, length and seed: neither the address nor the bytes behind the key matter |
| `HashVector.SpeechHash` | jansson-2.14/src/lookup3.h:124-203 | the hash of the key that the author of lookup3 publishes with its value is that value, which fixes the start value and all rotations |
| `HashVector.XorBytes` | jansson-2.14/src/lookup3.h:124-132 | the arithmetic exclusive or of the model is the machine's, byte by byte |
| `Lookup3.HashWords` | jansson-2.14/src/lookup3.h:206-288 | the 32-bit path equals the reference, with masked tails and without |
| `Lookup3.LastWords` | jansson-2.14/src/lookup3.h:249-265 | each of the masked tails adds exactly the bytes of the key |
| `Lookup3.LastWordsUnmasked` | jansson-2.14/src/lookup3.h:267-286 | each of the fall-through tails adds exactly the bytes of the key |
| `Lookup3.HashHalves` | jansson-2.14/src/lookup3.h:290-335 | the 16-bit path equals the reference for every length |
| `Lookup3.LastHalves` | jansson-2.14/src/lookup3.h:305-335 | each of the 16-bit tails adds exactly the bytes of the key |
| `Lookup3.HashBytes` | jansson-2.14/src/lookup3.h:337-378 | the byte path equals the reference for every length |
| `Lookup3.LastBytes` | jansson-2.14/src/lookup3.h:361-377 | the fall-through byte tail adds exactly the bytes of the key |
| `Lookup3.MixIsReversible` | jansson-2.14/src/lookup3.h:124-132 | mix loses no information: it has an inverse |
| `Utf8.IterateEncoded` | jansson-2.14/src/utf.c:116-137 | decoding an encoded scalar value gives it back, with its length, whatever follows |
| `Utf8.IteratedIsEncoded` | jansson-2.14/src/utf.c:68-114 | whatever is accepted is a scalar value in its one encoding: no overlong form, no surrogate half, nothing above U+10FFFF |
| `Utf8.Encode` | jansson-2.14/src/utf.c:11-36 | the encoder fails exactly outside 0 to U+10FFFF and writes one to four bytes |
| `Utf8.DecodeEncodeAll` | jansson-2.14/src/utf.c:116-137 | decoding the concatenated encodings of scalar values gives them back |
| `Utf8.EncodeAllDecode` | jansson-2.14/src/utf.c:116-137 | encoding what was decoded gives back the same bytes |
| `Utf8.ValidIffConcatenation` | jansson-2.14/src/utf.c:139-159 | a string is accepted exactly when it is a concatenation of encoded scalar values |
| `Utf8.CheckFull` | jansson-2.14/src/utf.c:68-114 | the loop over continuation bytes with the range tests, for every size |
| `Utf8.CheckString` | jansson-2.14/src/utf.c:139-159 | accepts a byte string exactly when repeated iteration reaches its end |
| `Utf8.NoMarkerBytes` | jansson-2.14/src/load.c:151-208 | no byte of decodable text has a value that, read as a signed character, is one of the stream's end marks |
| `Utf8.RfcExamples` | jansson-2.14/src/utf.c:13-45 | the examples of RFC 3629, one for each length |
| `JsonStrings.UnescapeShrinks` | jansson-2.14/src/load.c:351-358 | a decoded literal is never longer than its source text |
| `JsonStrings.UnescapeIsValid` | jansson-2.14/src/load.c:368-452 | escapes, surrogate pairs and raw multi-byte text together decode to well-formed UTF-8 |
| `JsonStrings.RawLengthIsRaw` | jansson-2.14/src/load.c:305-349 | what the first pass accepts consists of plain bytes and well-formed escapes, and ends at an unescaped quote |
| `JsonStrings.RawThenQuote` | jansson-2.14/src/load.c:305-349 | the first pass stops exactly at the quote after such text |
| `JsonStrings.DecodeEscape` | jansson-2.14/src/load.c:274-294 | the value of four hexadecimal digits |
| `JsonSpelling.QuadReads` | jansson-2.14/src/load.c:274-293 | four digits are read as their value, whichever case each letter is written in |
| `JsonSpelling.PiecesRead` | jansson-2.14/src/load.c:296-469 | every spelling of a string, by plain characters, short escapes, code units and surrogate pairs, is accepted and decoded to what it stands for |
| `JsonSpelling.PiecesOf` | jansson-2.14/src/load.c:296-469 | and whatever is accepted is such a spelling, decoded to what it stands for |
| `JsonStrings.HexRoundTrip` | jansson-2.14/src/dump.c:164-183 | the digits printed for a value are read back as that value |
| `JsonStrings.ReadEscape` | jansson-2.14/src/load.c:371-418 | one escape, or two that form a surrogate pair; a lone half is refused |
| `JsonStrings.DecodeLiteral` | jansson-2.14/src/load.c:358-452 | the second pass stops at the closing quote the first pass found, stays inside the allocated buffer and computes the decoded text |
| `JsonStrings.PrintUnescapes` | jansson-2.14/src/dump.c:114-189 | a printed character, escaped or not, is read back as that character under every mix of flags |
| `JsonStrings.PrintAllUnescapes` | jansson-2.14/src/dump.c:94-196 | a printed string is read back as the same characters |
| `JsonStrings.DumpRestPrints` | jansson-2.14/src/dump.c:94-196 | dump_string succeeds exactly on valid UTF-8, and then writes each character plain or escaped |
| `JsonSpelling.PrintIsShortest` | jansson-2.14/src/dump.c:94-193 | each character is written in a spelling that ENSURE_ASCII and ESCAPE_SLASH allow, with upper-case digits, and no allowed spelling is shorter |
| `JsonStrings.PrintAllIsClean` | jansson-2.14/src/dump.c:112-189 | printed strings are valid UTF-8 without control characters, and plain ASCII on request |
| `JsonStrings.DumpStringTo` | jansson-2.14/src/dump.c:94-196 | the run-wise loop of dump_string writes what the character-wise description says, also when it stops at an invalid byte |
| `JsonTokens.LexIntText` | jansson-2.14/src/load.c:471-512 | the decimal text of a 64-bit integer is lexed to that integer when no digit, letter or dot follows |
| `JsonGrammar.DigitsAreDecimal` | jansson-2.14/src/dump.c:234-244 | a printed number consists of its decimal digits |
| `JsonTokens.LexDumpedString` | jansson-2.14/src/load.c:296-457 | a printed string is lexed to a string token with the original bytes |
| `JsonDump.IndentTo` | jansson-2.14/src/dump.c:71-92 | newline and indentation written in runs of at most 32 spaces, or the single optional space |
| `JsonDump.LexDump` | jansson-2.14/src/dump.c:215-424 | the text printed for a value is lexed to the tokens of that value under every mix of flags |
| `JsonParse.ParseToks` | jansson-2.14/src/load.c:662-848 | the parser reads the tokens of a value as that value, members in printed order, exactly when it is not nested deeper than 2048 |
| `JsonPrinter.DoDump` | jansson-2.14/src/dump.c:215-424 | the appending recursion produces the text the description gives, or fails with it |
| `JsonPrinter.DumpsTo` | jansson-2.14/src/dump.c:426-440 | json_dumps refuses a scalar without ENCODE_ANY and otherwise returns the text |
| `JsonLayout.DumpsIsLaidOut` | jansson-2.14/src/dump.c:71-92 | the text under any INDENT and COMPACT is the text under any other, with the white space outside literals dropped and put in again by bracket depth alone: new lines behind opening and before closing brackets and behind commas, depth times width spaces, or single spaces unless compact |
| `JsonRoundTrip.DumpsFailsIff` | jansson-2.14/src/dump.c:426-440 | NULL exactly for a bare scalar without ENCODE_ANY or a string value that is not valid UTF-8 |
| `JsonRoundTrip.LoadsUndoesDumps` | jansson-2.14/src/dump.c:215-424 | every value with 64-bit integers, valid UTF-8 strings and distinct NUL-free keys is printed, as NUL-free UTF-8, under every mix of indent, compact, ensure-ascii, sort-keys and escape-slash; the text is read back exactly when the depth is within the parser's limit, as an equal value, identical and in the same member order when keys are not sorted |
| `JsonRoundTrip.ReorderedIsEqual` | jansson-2.14/src/dump.c:336-388 | sorting members at every level gives a json_equal value |
| `JsonRoundTrip.SortedWhenAsked` | jansson-2.14/src/dump.c:203-213 | with SORT_KEYS the members come in strictly ascending key order |
| `JsonRoundTrip.CompareAntisymmetric` | jansson-2.14/src/dump.c:203-213 | compare_keys distinguishes less, equal and greater, equal only for the same key |
| `JsonRoundTrip.CompareTransitive` | jansson-2.14/src/dump.c:203-213 | compare_keys is transitive |
| `JsonRoundTrip.CompareIsLexicographic` | jansson-2.14/src/dump.c:203-213 | a key comes before another exactly if it is a proper prefix of it or has the smaller byte where they first differ |
| `JsonLoaded.LoadedIsStable` | jansson-2.14/src/load.c:850-883 | every accepted text yields a printable value, and printing it unsorted and reading it again gives the same value |
| `JsonLoaded.LexAllIsOk` | jansson-2.14/src/load.c:564-629 | every string token of decodable text is well-formed UTF-8 and every integer token fits 64 bits |
| `JsonLexer.Lexer.Refill` | jansson-2.14/src/load.c:157-186 | the five-byte buffer takes the next character, or the stream ends at the end of input or at the first undecodable byte, including one cut off by the end |
| `JsonLexer.Lexer.Get` | jansson-2.14/src/load.c:151-208 | the stream hands out the longest decodable prefix byte by byte, then its end mark for ever |
| `JsonLexer.Lexer.Unget` | jansson-2.14/src/load.c:210-224 | pushing back the byte just read restores the rest of the text |
| `JsonLexer.Lexer.UngetUnsave` | jansson-2.14/src/load.c:241-257 | pushback undoes the read and the save; at the end mark it does nothing |
| `JsonLexer.Lexer.FirstPass` | jansson-2.14/src/load.c:305-349 | finds the closing quote exactly when there is one, having saved the literal with both quotes |
| `JsonLexer.Lexer.ScanEscape` | jansson-2.14/src/load.c:328-346 | reads one whole escape, or refuses a malformed one |
| `JsonLexer.Lexer.ScanString` | jansson-2.14/src/load.c:296-457 | the string token and the rest of the text, or an invalid token |
| `JsonLexer.Lexer.ScanNumber` | jansson-2.14/src/load.c:471-512 | the integer token and the rest of the text; leading zeros, missing digits and overflow are invalid |
| `JsonLexer.Lexer.Scan` | jansson-2.14/src/load.c:564-629 | the next token of the text and the rest after it |
| `JsonLexer.Lexer.ParseValueHere` | jansson-2.14/src/load.c:776-848 | the running parser returns what the parser function says, leaves the following tokens and restores its depth |
| `JsonLexer.Lexer.ParseArrayHere` | jansson-2.14/src/load.c:739-774 | the array loop agrees with the parser function |
| `JsonLexer.Lexer.ParseObjectHere` | jansson-2.14/src/load.c:662-737 | the object loop agrees with the parser function, with NUL keys, duplicates and missing colons refused as it says |
| `JsonLexer.Lexer.Load` | jansson-2.14/src/load.c:850-883 | json_loads on NUL-free text returns exactly the meaning of the text |
| `JsonAccepts.LoadsIffDenotes` | jansson-2.14/src/load.c:850-930 | json_loads gives a value exactly when the text is a JSON document that stands for it: any white space, any spelling of strings, both cases of digits, minus zero, repeated keys overwriting or refused, NUL where allowed, depth at most 2048, and nothing but white space behind it unless told not to look |
| `JsonAccepts.ParseSpelled` | jansson-2.14/src/load.c:776-848 | every document is parsed to what it stands for, leaving the text behind it |
| `JsonAccepts.DocOf` | jansson-2.14/src/load.c:776-848 | and whatever is parsed is a document followed by the rest |
| `JsonValues.EqualReflexive` | jansson-2.14/src/value.c:1023-1048 | json_equal holds between a value and a separate copy of it when keys are distinct and hold no NUL |
| `JsonValues.ReflexiveIffTidy` | jansson-2.14/src/value.c:353-368 | for values with distinct keys in which no key, cut at its first NUL, is another member's key: json_equal holds for a separate copy exactly when no key holds a NUL |
| `JsonValues.EqualToCopyIff` | jansson-2.14/src/value.c:353-368 | for every value with distinct keys: json_equal holds for a separate copy exactly when each key holding a NUL has, in the same object, the member its first part names, with an equal value |
| `JsonValues.EqualSymmetric` | jansson-2.14/src/value.c:353-368 | json_equal is symmetric although it looks up members in one direction only, as soon as the first value has distinct NUL-free keys |
| `JsonValues.SymmetricIff` | jansson-2.14/src/value.c:353-368 | for every second value with distinct keys: an equality can be turned around exactly when that value equals its own copy and has no NUL-free key that the first lacks |
| `JsonValues.EqualTransitive` | jansson-2.14/src/value.c:1023-1048 | json_equal is transitive, for all values and all keys |
| `JsonSame.EqualIffSameTree` | jansson-2.14/src/value.c:1023-1054 | for values whose keys are distinct and free of NUL, equal means the same tree once members are put in key order, and nothing else |
| `JsonValues.NulKeyIsNotFound` | jansson-2.14/src/value.c:353-368 | the object whose one key is the letter a and a NUL differs from a separate copy of it |
| `JsonValues.NulKeyLandsOnPrefix` | jansson-2.14/src/value.c:353-368 | beside the key a, the key made of a and a NUL lands on the member of a: the object equals its copy exactly when the two members are equal |
| `JsonValues.NulKeyBreaksSymmetry` | jansson-2.14/src/value.c:353-368 | two objects with such keys for which json_equal holds one way only |
| `JsonGraph.CopyFailsIffCycle` | jansson-2.14/src/value.c:385-419 | deep copy returns NULL exactly when a cycle is reachable; shared acyclic containers are copied |
| `JsonGraph.CopyDenotes` | jansson-2.14/src/value.c:679-705 | a copy is the tree the original stands for, keys in the same order |
| `JsonGraph.CopyIsEqual` | jansson-2.14/src/value.c:1076-1112 | without a reachable cycle the copy exists and is json_equal to the original, both ways |
| `JsonGraph.Copier.LoopCheck` | jansson-2.14/src/value.c:47-58 | refuses a container that is already being copied and otherwise records it |
| `JsonGraph.Copier.DeepCopy` | jansson-2.14/src/value.c:1088-1112 | terminates on every finite graph, returns what the description says and leaves the parents as they were |
| `JsonGraph.Copier.DeepCopyArray` | jansson-2.14/src/value.c:679-705 | copies element by element, giving up at the first that fails |
| `JsonGraph.Copier.DeepCopyObject` | jansson-2.14/src/value.c:385-419 | copies member by member, giving up at the first that fails |
| `Checksum.StandardChksum1` | lwip-2.1.3/src/core/inet_chksum.c:79-114 | the byte-pair version returns the ones'-complement sum in host order, without overflow up to 0x20000 bytes |
| `Checksum.StandardChksum2` | lwip-2.1.3/src/core/inet_chksum.c:132-173 | the 16-bit version returns the same at every alignment, without overflow up to 0x20000 bytes; words are loaded from even addresses only, which the load demands |
| `Checksum.StandardChksum3` | lwip-2.1.3/src/core/inet_chksum.c:188-255 | the 32-bit version returns the same at every alignment and length; its carries are added back exactly, and all its loads are aligned |
| `InternetSum.HostSumIsRep` | lwip-2.1.3/src/core/inet_chksum.c:79-114 | the byte-swapped word-by-word sum with end-around carry equals the representative of the little-endian sum |
| `InternetSum.RfcSumIsRep` | lwip-2.1.3/src/core/inet_chksum.c:79-114 | adding words with end-around carry one by one is reducing their plain sum modulo 65535, zero only for zero |
| `InternetSum.FoldOnce` | lwip-2.1.3/src/core/inet_chksum.c:567-588 | one fold suffices for the sum of two 16-bit numbers |
| `InternetSum.FoldTwice` | lwip-2.1.3/src/core/inet_chksum.c:164-165 | two folds suffice for any 32-bit number |
| `ChecksumChain.SumChain` | lwip-2.1.3/src/core/inet_chksum.c:259-283 | after any number of segments of any lengths the accumulator is the sum of their concatenation, never above 16 bits |
| `ChecksumChain.InetChksum` | lwip-2.1.3/src/core/inet_chksum.c:554-558 | the complement of the sum |
| `ChecksumChain.InetChksumPbuf` | lwip-2.1.3/src/core/inet_chksum.c:567-588 | the checksum of a chain is exactly that of the concatenation |
| `ChecksumChain.AddressSum` | lwip-2.1.3/src/core/inet_chksum.c:315-324 | the folded sum of the two addresses |
| `ChecksumChain.InetChksumPseudo` | lwip-2.1.3/src/core/inet_chksum.c:310-327 | the checksum of the pseudo header followed by the concatenated chain |
| `ChecksumChain.SumPrefix` | lwip-2.1.3/src/core/inet_chksum.c:398-440 | the partial loop sums the prefix, although it swaps on the untruncated length; the assertion at line 416 holds exactly when fewer than 0x7fff bytes are left after the first buffer |
| `ChecksumChain.InetChksumPseudoPartial` | lwip-2.1.3/src/core/inet_chksum.c:455-473 | the checksum of the pseudo header followed by the prefix of the chain |
| `ChecksumChain.StoredChecksumVerifies` | lwip-2.1.3/src/core/inet_chksum.c:555-583 | a checksum stored in its zeroed field at an even place makes the checksum of the whole zero |
| `ChecksumChain.PseudoHeaderLayout` | lwip-2.1.3/src/core/inet_chksum.c:284-327 | the pseudo header is the two addresses, a zero byte, the protocol and the length in network order |
| `DnsRuns.CalledOnceOrPending` | lwip-2.1.3/src/core/dns.c:941-973 | over every run, a request accepted with a callback has had it called exactly once, or not at all and holds exactly one slot of a pending entry for its name; every call goes to the callback registered with it |
| `DnsRuns.LiveSlotsArePending` | lwip-2.1.3/src/core/dns.c:955-973 | no live request slot ever refers to an unused or completed entry |
| `DnsRuns.TablesAreConsistent` | lwip-2.1.3/src/core/dns.c:975-1018 | pending entries have distinct ids, no name has two live entries, and the open source ports are exactly those named by pending entries |
| `DnsRuns.QueriesEndInTime` | lwip-2.1.3/src/core/dns.c:1054-1102 | no query is pending for DNS_MAX_SERVERS * (1 + R(R-1)/2) ticks, whatever happens, and its tick counter never underflows |
| `DnsRuns.AnsweredInTime` | lwip-2.1.3/src/core/dns.c:1054-1102 | every accepted request is answered, exactly once, within that many ticks |
| `DnsRuns.AcceptedWhenInProgress` | lwip-2.1.3/src/core/dns.c:1375-1503 | a request enters the ledger exactly when the caller is told it is in progress and gave a callback, and asking never calls back |
| `DnsRuns.AnswerIsDelivered` | lwip-2.1.3/src/core/dns.c:1137-1164 | a good answer reaches every request joined to the query |
| `DnsReplies.OnlyFittingRepliesCount` | lwip-2.1.3/src/core/dns.c:1185-1245 | a packet changes nothing unless it is a response with one accepted question, to a pending query with its id, from the server that was asked |
| `DnsReplies.FirstAddressAnswers` | lwip-2.1.3/src/core/dns.c:1268-1330 | the first address record of such a reply, whatever other records stand before it, is what every joined request is called with; the entry keeps it for its time to live cut to a week, or is free at once for none |
| `DnsReplies.BrokenRecordIsDropped` | lwip-2.1.3/src/core/dns.c:1269-1283 | a truncated record before any address leaves everything as it was |
| `DnsReplies.NoAddressFails` | lwip-2.1.3/src/core/dns.c:1325-1365 | a reply without an address ends the query and calls its requests with none |
| `DnsReplies.ErrorGoesOn` | lwip-2.1.3/src/core/dns.c:1251-1266 | an error reply moves the query to the next server if that is set, and changes nothing else |
| `DnsReplies.ErrorFails` | lwip-2.1.3/src/core/dns.c:1251-1266 | without a next server it ends the query and calls its requests with none |
| `DnsSchedule.EveryServerIsAsked` | lwip-2.1.3/src/core/dns.c:1070-1100 | in every run without a reply to it, a new query is put to server n / P after n ticks, P being 1 + R(R-1)/2 for R retries; until all servers have had P ticks it is pending and its callbacks are not made |
| `DnsSchedule.GivenUpAfterAll` | lwip-2.1.3/src/core/dns.c:1070-1100 | the tick after the last server's turn frees the entry and calls every request with none |
| `DnsSchedule.CheckGoesOn` | lwip-2.1.3/src/core/dns.c:1070-1100 | a check of a pending query counts down, retries with a longer wait or changes server, and does nothing else |
| `DnsSchedule.CheckGivesUp` | lwip-2.1.3/src/core/dns.c:1082-1089 | the last retry at the last set server ends the query with none |
| `DnsSchedule.ClearedServerEnds` | lwip-2.1.3/src/core/dns.c:748-772 | a retry that finds its server cleared ends the query with none |
| `DnsCache.AnswerStaysCached` | lwip-2.1.3/src/core/dns.c:602-632 | over every run, a request for the name in any spelling is given the cached address for fewer ticks than the time to live, cut to its maximum, unless a new query has taken the entry |
| `DnsCache.StaysCached` | lwip-2.1.3/src/core/dns.c:1103-1110 | without eviction a completed entry loses exactly one unit of its time to live per tick and nothing else changes it |
| `DnsCache.AnswerExpires` | lwip-2.1.3/src/core/dns.c:1103-1110 | the tick that uses up the time to live forgets the entry |
| `DnsRuns.SomeTxidIsUnclaimed` | lwip-2.1.3/src/core/dns.c:1000-1018 | the search for an unused id cannot be exhausted |
| `DnsRuns.AllocPcbFails` | lwip-2.1.3/src/core/dns.c:900-930 | no port is found only if none is open and no new one is granted |
| `DnsRuns.CallFromServes` | lwip-2.1.3/src/core/dns.c:955-973 | exactly the live slots of the entry are answered, each once |
| `DnsRuns.RetireKeepsInv` | lwip-2.1.3/src/core/dns.c:941-995 | ending a query keeps ids, names, ports, slots, deadlines and the ledger in order, also when its port is shared |
| `DnsRuns.CheckedIsNearer` | lwip-2.1.3/src/core/dns.c:1060-1085 | each check of a pending entry that goes on brings it exactly one tick nearer to its last |
| `DnsRuns.StepKeepsInv` | lwip-2.1.3/src/core/dns.c:1047-1629 | every request, tick, reply and change of server keeps the whole invariant |
| `Dns.Resolver.constructor` | lwip-2.1.3/src/core/dns.c:289-301 | zeroed tables are an initial state |
| `Dns.Resolver.CreateTxid` | lwip-2.1.3/src/core/dns.c:1000-1018 | the first drawn id that no pending entry uses |
| `Dns.Resolver.CallFoundAt` | lwip-2.1.3/src/core/dns.c:942-996 | callbacks, slot release and port release as one step on the tables |
| `Dns.Resolver.AllocPcbFor` | lwip-2.1.3/src/core/dns.c:900-930 | a new port in the first closed slot, else an open one in round-robin order, else none |
| `Dns.Resolver.SendFor` | lwip-2.1.3/src/core/dns.c:748-774 | a query whose server has been cleared is given up |
| `Dns.Resolver.CheckEntryAt` | lwip-2.1.3/src/core/dns.c:1047-1116 | first query, countdown, retry, server change, timeout and expiry as one step on the tables |
| `Dns.Resolver.Timer` | lwip-2.1.3/src/core/dns.c:1124-1131 | one tick checks every entry in turn and keeps the invariant |
| `Dns.Resolver.CorrectResponseFor` | lwip-2.1.3/src/core/dns.c:1137-1164 | the entry is completed, its requests answered, and a zero time to live flushes it |
| `Dns.Resolver.HandleReplyFor` | lwip-2.1.3/src/core/dns.c:1251-1354 | error replies move on to the next server or end the query; the first usable answer completes it |
| `Dns.Resolver.Recv` | lwip-2.1.3/src/core/dns.c:1170-1363 | a reply affects only the pending entry with its id, and only from the server asked |
| `Dns.Resolver.SetServerAt` | lwip-2.1.3/src/core/dns.c:361-370 | a server address changes, out-of-range indices are ignored, and the invariant is kept |
| `Dns.Resolver.JoinPending` | lwip-2.1.3/src/core/dns.c:1387-1410 | a request for a name already pending joins it if a slot is free |
| `DnsSteps.VictimIsOldest` | lwip-2.1.3/src/core/dns.c:1412-1447 | an unused entry if there is one, else the completed entry of greatest age modulo 256; none exactly when no entry is unused and every completed one has age 0 |
| `DnsRefusal.RefusalIsReachable` | lwip-2.1.3/src/core/dns.c:1412-1447 | so a query can be refused although a completed entry exists: a run from zeroed tables of two entries answers one name, brings the sequence number round by 256 queries and then gets ERR_MEM for a new name with a request slot free |
| `Dns.Resolver.ChooseEntry` | lwip-2.1.3/src/core/dns.c:1412-1447 | the search returns that entry, with the same choice and the same case of refusal |
| `Dns.Resolver.StartAt` | lwip-2.1.3/src/core/dns.c:1468-1501 | a new query gets its entry, slot and port and is sent at once; without a port everything is given back |
| `Dns.Resolver.EnqueueFor` | lwip-2.1.3/src/core/dns.c:1375-1503 | joins, starts or refuses a query as one step on the tables |
| `Dns.Resolver.Lookup` | lwip-2.1.3/src/core/dns.c:602-632 | the address of the first completed entry for the name |
| `Dns.Resolver.Resolve` | lwip-2.1.3/src/core/dns.c:1547-1629 | argument checks, literals, cache, missing server and the queue, in this order, keeping the invariant |
| `DnsOutcomes.OutcomeIs` | lwip-2.1.3/src/core/dns.c:1547-1628 | for every state, the exact condition of each answer: bad argument, address, no server, no memory, in progress |
| `DnsOutcomes.AddressIs` | lwip-2.1.3/src/core/dns.c:1580-1592 | the address given is the literal one or that of a completed entry for the name |
| `DnsOutcomes.InProgressAsks` | lwip-2.1.3/src/core/dns.c:1375-1520 | a request told to wait is attached to the pending query for its name or to a new one, about to be put to server 0 |
| `DnsOutcomes.PortsTakeTurns` | lwip-2.1.3/src/core/dns.c:900-935 | a new port is opened exactly when one is granted and a slot is free; otherwise the next open one after the last used is taken, going round |
| `Select.NoLostWakeup` | lwip-2.1.3/src/api/sockets.c:2035-2124 | in every interleaving in which no step strands a reader, a thread waiting while a watched event is set has its semaphore raised, or the callback that will raise it is under way; with none under way it can go on |
| `Select.CallbackDelivers` | lwip-2.1.3/src/api/sockets.c:2582-2645 | in the same interleavings, a callback that runs to its end has raised the semaphore of every waiting thread for which an event is set |
| `Select.CountersAreExact` | lwip-2.1.3/src/api/sockets.c:2037-2072 | each counter is the number of threads holding it and fits eight bits; the list holds exactly the threads between linking and unlinking; a counter about to be lowered is never zero |
| `Select.AllReturnedIsClean` | lwip-2.1.3/src/api/sockets.c:2099-2124 | once every call has returned, however it ended, the list is empty and all counters are zero |
| `Select.SkippedCheckIsHarmless` | lwip-2.1.3/src/api/sockets.c:2525-2545 | when a callback skips the waiter check, no thread's need has changed |
| `Select.RunIsSafeIff` | lwip-2.1.3/src/api/sockets.c:2035-2124 | over every run, each waking that is due is on its way in every state exactly if no step strands a reader: lowers a 16-bit receive counter from its minimum while a thread depends on being woken to read and no callback is on the way to it |
| `Select.StepIsSafeIff` | lwip-2.1.3/src/api/sockets.c:2522-2565 | a single step keeps every due waking on its way exactly if it strands nobody; an underflow that strands nobody is harmless |
| `Select.StepKeepsStructure` | lwip-2.1.3/src/api/sockets.c:1769-1898 | every atomic step of a caller or a callback keeps counters, list, open flags and callback position in order, underflows included |
| `Select.SignalServes` | lwip-2.1.3/src/api/sockets.c:2522-2565 | after an event update that does not wrap every thread that needs waking is on the way of the callback just started |
| `Select.WalkServes` | lwip-2.1.3/src/api/sockets.c:2598-2639 | each visit of the list walk serves the thread it visits and keeps the rest on the way |
| `Select.UnderflowServes` | lwip-2.1.3/src/api/sockets.c:2532-2535 | lowering a receive counter from -32768 sets a receive event without a callback: it leaves somebody unserved exactly if a reader depends on a waking that no callback will bring |
| `Select.PacedNeverStrands` | lwip-2.1.3/src/api/sockets.c:2525-2535 | what a caller can check: while a socket's counter plus the raisings minus the lowerings so far stays within 16 bits at every point of a sequence of steps, no step strands a reader |
| `Select.PacedLosesNothing` | lwip-2.1.3/src/api/sockets.c:2035-2124 | hence, from new sockets, in every interleaving whose raisings and lowerings stay that close, a thread waiting while a watched event is set has its semaphore raised or a callback on the way to it, and a callback that runs to its end raises it |
| `Select.LossIsReachable` | lwip-2.1.3/src/api/sockets.c:2525-2535 | outside that range a waking can be lost: 32768 raisings of a new socket with nothing lowered, a select call and one lowering end with the thread waiting, the receive event set, the semaphore down and no callback |
| `Select.UncountFindsItself` | lwip-2.1.3/src/api/sockets.c:2099-2121 | the counter a leaving thread lowers is positive, as the code asserts |
| `SelectResults.CallReportsReady` | lwip-2.1.3/src/api/sockets.c:1834-1898 | an uninterrupted call with valid descriptors returns the number of ready ones, counted in three sets, if there are any or it polls, and otherwise goes on to wait |
| `SelectResults.WokenReportsReady` | lwip-2.1.3/src/api/sockets.c:2099-2150 | a woken call that is not interrupted leaves list and counters and returns the number of ready descriptors |
| `SelectResults.NoCallFails` | lwip-2.1.3/src/api/sockets.c:2037-2072 | with at most 255 threads and valid descriptors no call fails, in any interleaving |
| `SelectResults.TimeOutReportsNothing` | lwip-2.1.3/src/api/sockets.c:2092-2150 | in every run a call that timed out returns zero, or an error for a closed socket |
| `SelectResults.WakingHasCause` | lwip-2.1.3/src/api/sockets.c:2582-2645 | in every run a raised semaphore means that an event was set on a watched socket while the thread was on the list |
| `SelectResults.FieldsFollowEvents` | lwip-2.1.3/src/api/sockets.c:2522-2552 | after every run the writable flag is the last send event, the error flag whether there was an error, and the receive counter the raisings minus the lowerings modulo 65536 |
| `SelectResults.EventMakesReady` | lwip-2.1.3/src/api/sockets.c:2598-2620 | for a socket without left-over data, the events that wake a thread are the ones its scan counts |

## Left out

- Real numbers in JSON: a number with a fraction or exponent is an invalid token here, and values hold no reals.
- Error messages, line and column tracking, and loading from or dumping to files, descriptors and callbacks.
- JSON_EMBED, JSON_DECODE_INT_AS_REAL and the real-precision flag.
- Dumping cyclic structures: values to be printed are trees; the loop check itself is modelled for deep copy.
- Allocation failure inside the JSON parser, the printer and deep copy.
- JSON text with NUL bytes through json_loadb, where a pushed-back NUL is lost.
- `pack_unpack.c`, `strconv.c`, `hashtable_seed.c`, `memory.c` and reference counting.
- Object and array operations of `value.c` other than equality and deep copy.
- hashtable_iter_at and hashtable_iter_set: easy instances of lookup and overwrite.
- Hash-table sizes at which doubling the bucket array overflows size_t.
- Heap sizes of 64 bits, and freeing a pointer whose header cannot be read or looks allocated without being so.
- The IPv6 pseudo header and the checksum-on-copy variants.
- Big-endian hosts, for the checksum and for the string hash.
- Dual-stack fallback, multicast DNS, the local host list and the comparison of names inside replies, which is taken as accepted or refused.
- Callbacks that call back into the resolver.
- The callers of event_callback: any sequence of events is allowed; that the mailbox operations keep to the condition of `Select.PacedLosesNothing` is not derived here.
- JsonLexer.Lexer.ScanNumber: a number with a fraction or an exponent is an invalid token, because reals rest on the C library's conversions.
- JsonLexer.Lexer.Load: texts holding reals are refused, for the same reason.
- lwip_poll, the configuration without core locking, full-duplex socket counting and the returned descriptor sets of select.
- Sockets opened or closed during a select.
- `loopQueue`, `list`, `memp.c`, `heap/original_heap_4.c`, and the rest of the network stack and its ports.
