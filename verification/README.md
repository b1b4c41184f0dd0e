# Stumpless, verified

Stumpless is a C library that builds log entries, renders them as RFC 5424 text and hands them to targets. This
project models the parts of it that are algorithms over state and buffers, in Dafny 4.11, and proves what they
promise. `dafny verify dfyconfig.toml` checks all of it.

The modules follow the source:

- `Bytes`, `Records`, `Validate`: bytes and C strings, what entries hold, the character and length checks.
- `Memory`, `Allocation`: page sizing, and a heap whose every request may be refused, which it counts, and whose blocks
  are freed at most once.
- `Slab`, `SlabCache`: the slab cache, first as a state machine with the safety and accounting of whole runs, then as a
  class over real page bytes that refines it.
- `StringBuilder`, `Digits`, `BuilderPool`, `PooledCache`: the growable buffer, decimal rendering, the pool that keeps a
  buffer in each slot from one use to the next, and that pool over the slab cache's page bytes.
- `Utf8`: the UTF-8 automaton, its exact language, and how that relates to RFC 3629.
- `Params`, `ToStrings`, `Readers`: the param printer and parser, the renderings that size a buffer first and fill it
  after, and readers of these that know only their punctuation and keys.
- `Rfc5424`, `Formatter`: the line, a parser for it, and the formatter that builds it in a string builder.
- `StructuredData`, `Graph`, `GraphRuns`, `Privals`, `GraphCopy`: an entry's data as an ordered first-match map; entries, elements
  and params as heap objects with all-or-nothing updates, and whole runs of these; copies, and what of the original they
  keep.
- `ThreadLog`: the entries a thread reuses for its log and trace calls.
- `DefaultTarget`: the compare-and-swap publication of the default target, as interleaved thread steps.
- `MultiSz`: the NUL-separated list of event sources.

Allocation failure, the system clock, the host name, the process id, the target's filter and its transport are choices
the proofs do not control: every property holds whatever they are. Refused allocations are counted, so that a call which
fails can be shown to have been refused one or given bad input.

## Where the code and its promises part

- `stumpless_entry_to_string` sizes its buffer for a prival of up to seven digits, and leaves out of the sum every element
  whose rendering failed for want of memory in the first pass (`src/entry.c:1543-1548`). The second pass renders it again
  and writes past the buffer if it succeeds. `ToStrings.EntryFitsExactly` gives the exact condition and
  `ToStrings.OverrunInput` an input. The cached entries store the priority unmasked (`src/target.c:363`), so a caller can
  exceed seven digits too. An element that cannot be rendered in the second pass is a NULL that the source dereferences
  (`src/entry.c:1580-1582`).
- A page chosen by `get_paged_size` has no slot when the entry size is itself the page size doubled some number of times
  (`Memory.PagesHoldSlots`). Such a cache adds a page for every allocation, keeps its lock in the entry's first byte and
  never uses a page again (`SlabCache.Cache.AllocSlotless`, `SlabCache.Cache.FreeSlotless`).
- When an append fails, `format_entry` drops its builder without giving the slot back (`src/formatter.c:40-83`). This
  happens if and only if a builder was obtained and an allocation was refused after that, and so never when the line
  fits the buffer the slot already has (`BuilderPool.Pool.Format`). Over any run exactly those slots are lost
  (`BuilderPool.RunCalls`, `BuilderPool.LostExactly`).
- The header says that a negative int is appended without a sign (`include/private/strbuilder.h:38-41`); the bytes are
  not its digits either (`Digits.NegativeMirrors`).
- The UTF-8 check accepts an unfinished last character, surrogates, and code points past 10FFFF (`Utf8.LanguageExact`,
  `Utf8.RfcCharExact`).
- `stumpless_copy_entry` keeps the prival only if it fits in one byte, passes the message as a format string, and does
  not copy the host name or process id. `GraphCopy.CopyEntry` claims what is left, for whatever the formatting gives.
- The copies read names as C strings. A param parsed by `stumpless_new_param_from_string` has no terminator in its name,
  so its copy may have another (`GraphCopy.ParsedNameIsNotKept`). The log calls stamp names without a terminator over a
  thread's cached entries, which reach filters and function targets, so a copy of one may have another app name or msgid
  (`ThreadLog.ShortAfterLong`); `ThreadLog.CachedNameKept` says exactly after which stamps it does not.
  `stumpless_get_entry_app_name` hands out one byte more than the name and depends on it in the same way.
- `stumpless_set_element` refuses an element with the name of the one it would replace (`Graph.Entry.SetElement`).
- Opening a default target makes it current before it is installed (`src/target/file.c:69`, `src/target/socket.c:85`),
  so another thread may be handed a target that loses the race and is closed. `DefaultTarget.StaleExactly` says when:
  asking for the default once before the threads start rules it out. Setting such a target back as current, once it is
  unhooked, leaves a dangling pointer under the same condition (`DefaultTarget.CurrentExactly`).
- Adding an empty name to the event source list hides the list from its readers (`MultiSz.AddedReads`), and removing a
  name held more than once stores bytes that were never written (`MultiSz.Remove`).
- Values are printed verbatim. Escaping is the caller's duty, and without it different entries can give the same line
  (`Rfc5424.UnescapedCollides`).

## Model

| member | source | states |
|---|---|---|
| `Memory.GetPagedSize` | src/memory.c:107-117 | the paging loop stops at the specification's first large-enough doubling of the system page size |
| `Memory.DoubleUntilSound` | src/memory.c:111-114 | that size is the page size doubled some number of times, holds the entry, and is the page size itself or under twice the entry size |
| `Memory.DoubleUntilUnique` | src/memory.c:111-116 | it is the only such size, and the least doubling that holds the entry |
| `Memory.SlotsFit` | src/cache.c:99 | slots with their lock bytes never exceed the page, one more would, and there is a slot if and only if the entry is smaller than the page |
| `Memory.PagesHoldSlots` | src/cache.c:33-36 | in a page chosen by the loop there is at least one slot if and only if the entry size is not itself the system page size doubled some number of times |
| `Allocation.Heap.Realloc` | src/memory.c:119-128 | a failed growth leaves the old block live and untouched and is recorded as a refusal; a successful one carries every byte over and releases the old block |
| `StringBuilder.StrBuilder.IncreaseSize` | src/strbuilder.c:43-63 | doubles the buffer, keeping contents and position; on failure nothing changes. With the class invariant: capacity is the first size times a power of two, is that size or under twice the longest length ever asked for, and growth has moved fewer bytes than the buffer now holds |
| `StringBuilder.StrBuilder.MakeRoom` | src/strbuilder.c:75-83 | the growth loop stops at the least sufficient doubling of the capacity it started from, contents unchanged; it fails if and only if an allocation is refused, and never when the bytes already fit |
| `StringBuilder.StrBuilder.AppendBuffer` | src/strbuilder.c:65-89 | contents grow by exactly the data, or not at all; it fails if and only if an allocation is refused, and never when the data already fits |
| `StringBuilder.StrBuilder.AppendChar` | src/strbuilder.c:91-110 | contents grow by exactly the byte, or not at all, and the capacity doubles only when the buffer was full; it fails if and only if an allocation is refused, and never when there is room |
| `StringBuilder.StrBuilder.AppendString` | src/strbuilder.c:136-161 | contents grow by the string and the capacity to the least sufficient doubling, although it grows byte by byte; only a refused allocation, and never one that was not needed, leaves a proper prefix |
| `StringBuilder.StrBuilder.AppendPositiveInt` | src/strbuilder.c:112-134 | contents grow by the decimal rendering and the capacity to the least sufficient doubling; only a refused allocation, and never one that was not needed, leaves a proper prefix |
| `StringBuilder.StrBuilder.AppendBackwards` | src/strbuilder.c:128-131 | the second digit loop sends the local buffer out in reverse, with a proper prefix on failure |
| `StringBuilder.StrBuilder.Open` | src/strbuilder.c:201-213 | the builder is empty whatever the slot held before, over the slot's old buffer if it had one |
| `StringBuilder.StrBuilder.Reset` | src/strbuilder.c:221-228 | empties the builder and nothing else |
| `StringBuilder.StrBuilder.ToCString` | src/strbuilder.c:230-250 | a fresh string with exactly the contents and a terminator |
| `StringBuilder.LeastFirst` | src/strbuilder.c:122-126 | the first digit loop fills the local buffer with the digits in reverse and never past its fifty bytes |
| `StringBuilder.DoubleUntilTwice` | src/strbuilder.c:76-83 | growing for one length and then another ends at the capacity the larger of the two needs |
| `StringBuilder.RunCapacityIsLongest` | src/strbuilder.c:43-63 | growing for one length after another ends at the capacity that the longest of them needs |
| `StringBuilder.AppendAll` | src/strbuilder.c:65-161 | over any run of the four appends on a builder: if none is refused the contents have grown by all renderings in order and the capacity is the one the whole length needs, however the run is cut up; at a refusal they are what came before it and what it left |
| `StringBuilder.CapacityOfRun` | src/strbuilder.c:43-63 | the capacity a run of appends leaves is the least doubling of the first that holds the whole length |
| `Digits.DigitBytesDecimal` | src/strbuilder.c:122-126 | for a non-negative int the bytes are decimal digits without leading zero and stand for the int |
| `Digits.DigitCount` | src/strbuilder.c:115 | an int takes at most k digits if and only if it is below ten to the k |
| `Digits.NegativeMirrors` | include/private/strbuilder.h:38-41 | a negative int gets no sign, as documented, and no digits either: each byte is the mirror image of the digit in '0' |
| `Digits.IntFits` | src/target.c:843-846 | ten bytes are enough for every 32-bit int, well inside the buffers set aside |
| `Digits.IntBytesInjective` | src/strbuilder.c:112-134 | different non-negative ints never render alike |
| `Digits.DigitsBackwards` | src/target.c:853-864 | the trace calls' loop, writing towards the front of a fixed buffer, yields the same rendering as the string builder's |
| `Slab.NextValid` | src/cache.c:64-178 | every call keeps pages apart, off NULL, and with one lock for every slot |
| `Slab.SlotInPage` | src/cache.c:33-36 | every slot lies in its page before the lock bytes, which end within the page |
| `Slab.SlotsApart` | src/cache.c:110-121 | no two slots of any two pages share a byte |
| `Slab.SlotsAvoidLocks` | src/cache.c:104-110 | no slot shares a byte with the lock bytes of any page |
| `Slab.AllocAddsOneSlot` | src/cache.c:90-126 | an allocation makes live exactly one slot that was not; a failed one changes nothing |
| `Slab.AddressFindsSlot` | src/cache.c:156-170 | address range and division find the page and slot of any address inside an entry |
| `Slab.FreeReleasesThatSlot` | src/cache.c:146-178 | a free through any address inside a live entry releases that slot and no other |
| `Slab.AllocThenFree` | src/cache.c:90-178 | taking a free slot and freeing it again restores every lock |
| `Slab.NextAccounted` | src/cache.c:64-178 | each call changes the number of live slots by exactly what it did and keeps the page bound |
| `Slab.RunsStaySafe` | src/cache.c:64-178 | over every run of allocations and frees with any of them failing, pages stay apart and their number stays within max(1, ceil(peak live / slots per page)) |
| `Slab.LiveEntriesNeverOverlap` | src/cache.c:90-126 | from a new cache on, over every run, live entries are disjoint and clear of all lock bytes |
| `SlabCache.Cache.InitPage` | src/cache.c:25-42 | every lock byte of a new page is clear |
| `SlabCache.Cache.AddPage` | src/cache.c:64-88 | one more page with clear locks, or nothing at all; entry bytes of the other pages are untouched |
| `SlabCache.Cache.Scan` | src/cache.c:103-113 | finds the first clear lock byte in page order, or shows that there is none |
| `SlabCache.Cache.Alloc` | src/cache.c:90-126 | over real page bytes, does exactly one step of the state machine of module Slab, returns the address of the slot it took, and writes no entry byte; NULL if and only if an allocation is refused |
| `SlabCache.Cache.Free` | src/cache.c:146-178 | over real page bytes, does exactly the state machine's release for that address |
| `SlabCache.Cache.WriteEntry` | src/cache.c:103-112 | a client writing inside an entry it holds disturbs no lock byte and no other entry's byte |
| `SlabCache.Cache.Destroy` | src/cache.c:128-144 | gives back every page, each once |
| `SlabCache.NewCache` | src/cache.c:180-217 | for every entry size: one page, or everything given back if and only if an allocation is refused; the page has slots, all free, if and only if the entry size is not itself a doubling of the system page |
| `SlabCache.Cache.AllocSlotless` | src/cache.c:103-125 | in a cache whose pages have no slot every allocation adds a page, unless one is refused; the entry lies within it and its first byte is the lock |
| `SlabCache.Cache.FreeSlotless` | src/cache.c:160-174 | a free there clears the entry's first byte and releases nothing |
| `BuilderPool.Pool.BuildersApart` | src/strbuilder.c:29-41 | two slots never share a struct or a buffer |
| `BuilderPool.Pool.AddPage` | src/cache.c:38-40 | the page hook gives every slot of a new page a builder without a buffer |
| `BuilderPool.Pool.OpenSlot` | src/strbuilder.c:201-217 | an empty builder with a buffer of its own, or the slot is free again |
| `BuilderPool.Pool.New` | src/strbuilder.c:180-219 | an empty builder in the first slot that was free, writing to no other struct and no buffer; a failure loses no slot; it fails if and only if an allocation is refused, and never when the first free slot still has its buffer |
| `BuilderPool.Pool.Destroy` | src/strbuilder.c:175-178 | releases that slot only; the buffer stays with the slot |
| `BuilderPool.Pool.Append` | src/strbuilder.c:65-161 | any of the four appends to one builder adds the rendering, or if and only if an allocation is refused at most a proper prefix, and keeps one owner for every buffer; only that struct and its buffer are written |
| `BuilderPool.Pool.FormatIn` | src/formatter.c:41-79 | the formatter's chain of appends in a pooled builder keeps one owner for every buffer |
| `BuilderPool.Pool.Format` | src/formatter.c:40-83 | formatting with a pooled builder gives the line in the first free slot, writing to no other struct and no other buffer; without a builder no slot changes; after a failed append exactly that slot more is live and the call has given nobody a pointer to it; either failure is one refused allocation, and a line that fits the buffer kept in that slot cannot fail |
| `BuilderPool.Pool.FreeAll` | src/cache.c:128-144 | frees every buffer, each exactly once, and nothing else |
| `BuilderPool.Pool.AppendBeside` | src/strbuilder.c:65-161 | an append to one held builder leaves every other held builder its text |
| `BuilderPool.Pool.NewBeside` | src/strbuilder.c:180-219 | so does the taking of a builder |
| `BuilderPool.Pool.FormatBeside` | src/formatter.c:40-83 | so does the formatting of an entry, even one that fails half way |
| `BuilderPool.AnyStep` | src/strbuilder.c:65-219 | any call answers as the book of held texts and lost slots allows, with the least free slot for a builder, and afterwards the live slots are exactly those held and those lost and each held builder has its text |
| `BuilderPool.RunCalls` | src/formatter.c:40-83 | over any run of news, all four appends, releases and formats, some refused anywhere: every answer is a possible one, the live slots are those held and those lost, disjointly, each held builder holds exactly the text the answers account for, and as many allocations were refused as calls failed |
| `BuilderPool.LostExactly` | src/formatter.c:81-83 | over any such run the slots lost are as many as the formats that failed after getting a builder |
| `BuilderPool.HeldText` | src/strbuilder.c:65-161 | a held builder holds the text it was handed out with and then what each append to that very slot added, in order, whatever was done to other slots in between |
| `BuilderPool.HeldExactly` | src/strbuilder.c:175-219 | over any run a slot is held if and only if some call was handed it and no later one gave it back, and lost if and only if a format that failed half way got it |
| `BuilderPool.NoSlotTwice` | src/strbuilder.c:175-219 | over any run no slot is handed out twice unless its holder gave it back in between |
| `BuilderPool.AnyRun` | src/cache.c:128-144 | over the whole life of a pool the live slots number the builders held and the failed formats, and tearing the pool down leaves no block allocated |
| `PooledCache.ScansAgree` | src/cache.c:103-113 | the pool's first free slot is where the cache's scan of pages and lock bytes stops |
| `PooledCache.AllocIsTake` | src/cache.c:90-126 | an allocation from the cache takes the pool's first free slot, in a new page when all are taken, and returns that slot's address; it is refused only when no slot is free |
| `PooledCache.FreeIsRelease` | src/cache.c:146-178 | a free of a slot's address releases that slot of the pool and no other |
| `PooledCache.NewOverCache` | src/strbuilder.c:180-219 | over real page bytes: an empty builder in the pool's first free slot and at that slot's address, or nothing and no slot lost; afterwards the slots live are those whose lock bytes are set |
| `PooledCache.DestroyOverCache` | src/strbuilder.c:175-178 | over real page bytes: the lock byte is cleared and that slot alone is free again |
| `PooledCache.NewLinked` | src/strbuilder.c:184-192 | the first use makes a cache whose one page of clear lock bytes is the pool's first page of slots, or fails if and only if an allocation is refused |
| `Utf8.ValidateUtf8Compliance` | src/validate.c:150-246 | the loop over state, count and payload bytes decides exactly what the automaton of the specification accepts |
| `Utf8.Feed` | src/validate.c:184-239 | one pass of the switch is one step of the automaton, and never writes past the payload bytes |
| `Utf8.ScanOneChar` | src/validate.c:171-243 | from the lead state the automaton reads one whole character or runs out inside it |
| `Utf8.SplitAccepted` | src/validate.c:150-246 | what is accepted splits into shortest-form characters and at most one unfinished one |
| `Utf8.AcceptSplit` | src/validate.c:150-246 | every such sequence is accepted, ending in the lead state if and only if nothing is left unfinished |
| `Utf8.LanguageExact` | src/validate.c:150-246 | the exact language: accepted if and only if shortest-form characters followed by at most one lead with too few continuations |
| `Utf8.BomNeutral` | src/validate.c:165-169 | stripping the byte order mark never changes the verdict |
| `Utf8.EncodeDecode` | src/validate.c:210-234 | a shortest-form character is the encoding of its code point |
| `Utf8.DecodeEncode` | src/validate.c:210-234 | every number of at most 21 bits has a character, which decodes back to it |
| `Utf8.ReencodesExactly` | src/validate.c:150-246 | a string accepted in the lead state decodes to code points that re-encode to the same bytes |
| `Utf8.SplitUnique` | src/validate.c:150-246 | no string splits into characters in two ways |
| `Utf8.RfcCharExact` | src/validate.c:187-234 | the characters let through are those of section 4 of RFC 3629 if and only if their code points are scalar values |
| `Utf8.RfcStringsAccepted` | src/validate.c:150-246 | every string of section 4 of RFC 3629 is accepted, and a complete accepted one is such a string if and only if it has no surrogate and nothing past 10FFFF |
| `Validate.ValidateNameChars` | src/validate.c:106-122 | true exactly for printable ASCII without '=', ']' and '"', the empty string included |
| `Validate.ValidatePrintableAscii` | src/validate.c:253-265 | true exactly for printable ASCII without spaces, the empty string included |
| `Validate.ValidateParamName` | src/validate.c:124-128 | true exactly for at most 32 name characters |
| `Validate.ValidateElementName` | src/validate.c:67-71 | true exactly for at most 32 name characters |
| `Params.ParamIntoBuffer` | src/param.c:387-411 | writes the text and a terminator at the offset and no other byte |
| `Params.ParamIntoString` | src/param.c:306-332 | answers the size, and writes only into a buffer that can take it all |
| `Params.ParseString` | src/param.c:159-204 | on any C string, without reading past the terminator, the parsing loop gives what the specification's parser gives |
| `Params.NewParamFromString` | src/param.c:146-220 | gives that result, or lacks memory if and only if an allocation is refused |
| `Params.ParsePrinted` | src/param.c:146-220 | parsing a printed param gives back its name and value |
| `Params.PrintParsed` | src/param.c:146-220 | printing a parsed param gives back the string, and the accepted strings are exactly the printed ones |
| `Params.TooBigExact` | src/param.c:169-175 | the length error means exactly 32 name characters with no '=' behind them |
| `ToStrings.FilledIsCommas` | src/element.c:223-230 | what the filling loop writes is the params separated by single commas |
| `ToStrings.ElementFormatLength` | src/element.c:194-209 | the sizing pass gives the length of the text and its terminator, for any number of params |
| `ToStrings.FillParams` | src/element.c:223-230 | the loop writes the comma-separated params and stays in the buffer |
| `ToStrings.ElementToString` | src/element.c:174-245 | the buffer holds the text and its terminator, filled to the last byte; if no name has an `=` and no value a quote, a reader that knows only the punctuation gets the name and all params back in order |
| `ToStrings.ElementReads` | src/element.c:213-236 | of that text: there is an `=` if and only if there are params, the name stands before it and `[` behind it, `]` ends the text, and the items between are the params in order |
| `ToStrings.AppendKeyValuePair` | src/entry.c:1495-1512 | writes `key="value",` behind what was there |
| `ToStrings.EntryFitsExactly` | src/entry.c:1533-1550 | for all contents and all failures of the sizing pass: every byte of a complete filling pass lies in the allocation if and only if the prival's digits and the skipped texts, a comma with each, come to at most seven bytes |
| `ToStrings.FitsWhateverIsSized` | src/entry.c:1531-1550 | what a caller can check before the call: it fits whatever the sizing pass fails to obtain if and only if the prival's digits and all the texts, a comma with each, come to at most seven bytes |
| `ToStrings.FitsWhenAllSized` | src/entry.c:1531-1550 | if the sizing pass obtains every text, that is the case if and only if the prival is at least 0 and below ten million |
| `ToStrings.SkippedElementOverruns` | src/entry.c:1542-1548 | one element of six bytes or more that the sizing pass skips and the filling pass obtains makes the writes run past the allocation, whatever the prival |
| `ToStrings.OverrunInput` | src/entry.c:1542-1590 | an entry with one six-byte element that fits, and no longer does once that element's first rendering fails |
| `ToStrings.FillTexts` | src/entry.c:1578-1590 | the loop writes the texts separated by commas, up to the first that would leave the buffer or could not be obtained |
| `ToStrings.EntryToString` | src/entry.c:1514-1600 | with every element rendered in the second pass, the whole text and its terminator are written if and only if they fit what the first pass set aside; otherwise the source writes past its allocation; a text missing in the second pass is dereferenced or preceded by such a write; what is written reads as `EntryReads` says |
| `ToStrings.EntryReads` | src/entry.c:1555-1590 | if no field and value has a quote and the names can be told apart, a reader that knows the six keys in their order and the punctuation finds the digits of the prival as an unsigned number, each field behind its own key, and all elements in order |
| `Rfc5424.ParsePrinted` | src/formatter.c:40-79 | parsing a printed line recovers the prival, every header field, all elements and params in order, and the message |
| `Rfc5424.PrintParsed` | src/formatter.c:40-79 | whatever parses prints back to the same bytes and has good contents |
| `Rfc5424.LinesExact` | src/formatter.c:28-84 | the parser accepts exactly the printed lines, contents come back if and only if they are good, and different contents never give the same line |
| `Rfc5424.UnescapedCollides` | include/stumpless/param.h:114-116 | with a bare quote in a value two different params lists give the same bytes, so escaping cannot be dropped from the condition |
| `Rfc5424.TakeDataBack` | src/entry.c:1358-1398 | the structured data reads back element by element, param by param, whatever follows it |
| `Rfc5424.TakeParamsBack` | src/entry.c:1377-1392 | a run of params reads back, in order, up to the closing bracket |
| `Rfc5424.TakePriBack` | src/formatter.c:41-43 | the priority and version read back, and no other number could have been meant |
| `Formatter.AppendHead` | src/formatter.c:40-45 | contents grow by the priority, version and timestamp |
| `Formatter.AppendHostname` | src/formatter.c:47-53 | contents grow by the entry's host name, else the system's, else a dash |
| `Formatter.AppendProcid` | src/formatter.c:58-68 | contents grow by the process id if the target asks for one, the entry's own first, else a dash |
| `Formatter.AppendNames` | src/formatter.c:47-57 | contents grow by the host name and the app name, each with its space |
| `Formatter.AppendIds` | src/formatter.c:58-71 | contents grow by the process id and the message id, each with its space |
| `Formatter.AppendParams` | src/entry.c:1377-1392 | contents grow by every param in order |
| `Formatter.AppendStructuredData` | src/entry.c:1358-1398 | contents grow by all elements in order, or a dash |
| `Formatter.AppendTail` | src/formatter.c:74-79 | contents grow by the message behind a space, if there is one, and the newline |
| `Formatter.FormatEntry` | src/formatter.c:28-84 | on success the builder holds exactly the line, and for a validated entry with escaped values a parser finds each field of it in its own place, as in `LineSays`; it fails if and only if an allocation is refused, never when the line fits the buffer; what becomes of the builder's slot is in `BuilderPool.Pool.Format` |
| `Formatter.LineSays` | src/formatter.c:40-79 | for every validated entry with escaped values the line parses to its prival, the timestamp, its app name, msgid, elements and message; the host name is the entry's, else the system's, else a dash; the process id is a dash if none is asked for, else the entry's own, else the digits of the current one |
| `Formatter.HeaderWords` | src/formatter.c:40-71 | whatever the prival, the structured data and the message are, the words of the header are in order: priority and version, timestamp, host name, app name, process id, message id |
| `Formatter.DashIsMinusThree` | src/strbuilder.c:112-134 | of all ints only -3 renders as a dash, so a dash for a process id means that none is given |
| `Formatter.IntBytesNoSpace` | src/entry.c:1353-1356 | no rendered int contains a space, not even a negative one |
| `Formatter.EntriesParseBack` | src/formatter.c:28-84 | two validated entries with escaped values and the same line agree in prival, app name, msgid, elements and message, and in the host name if both have one |
| `StructuredData.SetThenLookup` | src/entry.c:953-1000 | after a set the pair looks up as the value and every other pair as before |
| `StructuredData.AddParamExactly` | src/entry.c:88-139 | an add puts exactly the one param behind those that the first element of that name had, or into a new last element; every other element is as it was, in place |
| `StructuredData.AddThenLookup` | src/entry.c:88-139 | after an add the pair looks up as before if it was there, otherwise as the value, and every other pair as before |
| `StructuredData.RunLookup` | src/entry.c:953-1000 | over any run of calls by name, any of them failing, a pair looks up as the last value set, or else the first one added, by the calls on that very pair |
| `StructuredData.SetKeepsOrder` | src/element.c:561-583 | existing elements and params stay in place under their names, at most one value is replaced, and at most one element and one param are appended |
| `StructuredData.SetTwice` | src/entry.c:953-1000 | setting a pair twice is setting it once to the last value |
| `StructuredData.SetParamLookup` | src/element.c:561-583 | within one element: the name looks up as the value, every other as before |
| `StructuredData.NamesStayDistinct` | src/entry.c:1218-1243 | over every run of adds, element replacements and sets by name, some failing, no two elements of an entry have one name, as section 6.3.2 of RFC 5424 asks |
| `StructuredData.LookupSeesAll` | src/entry.c:1257-1278 | with distinct names the first match is the only element of its name |
| `Graph.Param.SetValue` | src/param.c:246-276 | the new value is in place before the old is freed; a failure changes nothing and means an invalid value or a refused allocation |
| `Graph.NewParam` | src/param.c:114-144 | a fresh param of blocks of its own, or nothing is left allocated, for an invalid name or value or a refused allocation |
| `Graph.NewParamFromString` | src/param.c:146-220 | a param on the heap with the name and value that the parser finds, and behind the name whatever its array held; nothing, and nothing left allocated, if and only if the string does not parse or an allocation is refused |
| `Graph.DestroyParam` | src/param.c:45-54 | frees the param and its value, each once |
| `Graph.Element.IndexOf` | src/element.c:288-315 | the first param of that name, or none |
| `Graph.Element.AddParam` | src/element.c:55-78 | one more param at the end, or nothing changes |
| `Graph.Element.AddNewParam` | src/element.c:34-53 | one more param at the end, or nothing changes and nothing is left allocated |
| `Graph.Element.SetValueAt` | src/element.c:530-559 | that value is replaced, or nothing changes |
| `Graph.Element.SetValueByName` | src/element.c:561-583 | does the set of module StructuredData, comparing names as C strings, or leaves the element as it was with no block left behind; it fails only for an invalid name or value or a refused allocation |
| `Graph.NewElement` | src/element.c:455-480 | an empty element of that name, or nothing is left allocated |
| `Graph.DestroyElementAndContents` | src/element.c:117-130 | frees every block of the element, each once, and nothing else |
| `Graph.NewElementWith` | src/entry.c:968-996 | a new element with its param, or everything the call made is released |
| `Graph.Entry.IndexOf` | src/entry.c:1257-1278 | the first element of that name, or none |
| `Graph.Entry.AddElement` | src/entry.c:1218-1243 | refuses a name the entry has; otherwise appends, or changes nothing if memory is short |
| `Graph.Entry.AddNewElement` | src/entry.c:68-86 | appends a new empty element, or the entry and the heap are as before and the name was invalid or taken or an allocation refused |
| `Graph.Entry.PutInElement` | src/entry.c:966-980 | a by-name call on an element that is there touches that element alone; a failure restores everything |
| `Graph.Entry.PutInNewElement` | src/entry.c:968-1000 | a by-name call that makes the element appends it with its one param, or releases all it made |
| `Graph.Entry.Put` | src/entry.c:953-1000 | either by-name call: on success the contents are what module StructuredData says; on failure contents and heap are as before, and a name or value was invalid or an allocation refused |
| `Graph.Entry.SetElement` | src/entry.c:691-721 | succeeds if and only if the index is in bounds and no element, not even the one replaced, has the new name; the new footprint is the old one with the one element's blocks for the other's; a failure changes nothing |
| `Graph.Entry.SetParamValueByName` | src/entry.c:953-1000 | a successful set is the map update of module StructuredData; a failed one leaves no trace, and means invalid input or a refused allocation |
| `Graph.Entry.AddNewParamToEntry` | src/entry.c:88-139 | a successful call is the add of module StructuredData, which puts one param at the end of the named element or of a new one; a failed one leaves no trace, and means invalid input or a refused allocation |
| `GraphRuns.BuildElement` | src/element.c:34-53 | an element with all its params, or nothing is left allocated, and then the contents were not valid or an allocation was refused |
| `GraphRuns.PutInPlace` | src/entry.c:691-721 | replacing an element and destroying the one replaced accounts for every block, and a refused replacement for the new one's |
| `GraphRuns.AnyCall` | src/entry.c:88-139 | each call on a heap entry that succeeds does what module StructuredData says of it, and only an acceptable one does; one that fails leaves contents and footprint in order, and was not acceptable or refused an allocation |
| `GraphRuns.AnyRun` | src/entry.c:1218-1243 | over any run of calls on a heap entry, some refused anywhere, the contents are those of the run of the successful ones, no two elements have one name, no block outside the entry's own is left, and each call that failed was not acceptable then or was refused an allocation, at most one for each refusal |
| `GraphCopy.CopyParams` | src/element.c:97-105 | after the loop the copy has a param for every one of the original's, in order and in blocks of its own, with its value and with its name as a C string read finds it |
| `GraphCopy.CopyElement` | src/element.c:80-115 | a copy in fresh blocks, or nothing is left allocated; it reads like the original if and only if every param's name has its terminator; it fails only for a refused allocation or contents that would not be taken again |
| `GraphCopy.ParamsKept` | src/param.c:32-43 | copied params equal the originals if and only if every name has its terminator right behind it |
| `GraphCopy.ElementsKept` | src/entry.c:166-174 | the same for all elements of an entry |
| `GraphCopy.ParsedNameIsNotKept` | src/param.c:185-187 | a param parsed from a string into memory that held other bytes is copied under a longer name |
| `Bytes.ReadsTheName` | src/param.c:39 | a C string read of a name in a fixed array finds just the name if and only if the next byte is the terminator |
| `Privals.OrBits` | src/prival.c:172-176 | the or that joins a facility and a severity is the or of every bit, for any two ints |
| `Privals.OrWithin` | src/prival.c:172-176 | it takes no more bits than its operands |
| `Privals.MasksExactly` | src/facility.c:72-75 | bit by bit: a facility keeps bits three to seven of a prival and no other, a severity the three below |
| `Privals.OrIsSum` | src/prival.c:172-176 | for a facility and a severity, whose bits do not overlap, it is the sum |
| `Privals.PrivalSurvives` | src/facility.c:72-75 | splitting a prival into facility and severity and joining them again keeps exactly its low byte |
| `GraphCopy.NewEntry` | src/entry.c:1280-1317 | for any facility and severity: an entry of blocks of its own with its names terminated, the message given and no host name or process id, or nothing is left allocated, for an invalid name or a refused allocation |
| `GraphCopy.DestroyEntryAndContents` | src/entry.c:192-205 | frees every block of the entry, each once, and nothing else |
| `GraphCopy.CopyElements` | src/entry.c:166-174 | after the loop the copy has a copy of every element, in order, in blocks of its own |
| `GraphCopy.CopyEntry` | src/entry.c:141-190 | the low byte of the prival, the names and structured data as C string reads find them, and what formatting the message gave, if there is one, without host name and process id, in fresh blocks, or nothing is left allocated; app name, msgid and structured data are each the original's if and only if their names have their terminators; it fails only for a refused allocation or contents that would not be taken again |
| `GraphCopy.DisturbOne` | src/entry.c:141-190 | whatever is done to every object of one entry, an entry that shares none with it reads the same |
| `GraphCopy.CopyThenDisturb` | src/entry.c:141-190 | any later update to the original or to the copy leaves the other's contents as they were |
| `ThreadLog.CachedEntry.Load` | src/entry.c:601-637 | a loaded entry has no elements, host name or process id and holds the message; it fails if and only if an allocation is refused |
| `ThreadLog.CachedEntry.Stamp` | src/target.c:362-371 | the entry then reads as the call says, whatever its names and priority were, while the buffers keep every byte behind the new names |
| `ThreadLog.NulExactly` | src/target.c:364-371 | over any sequence of loads and stamps, which bytes of a name buffer are NUL, in terms of the lengths stamped |
| `ThreadLog.CachedNameKept` | src/target.c:364-371 | a C string read of a cached name, and so a copy of the entry, keeps it if and only if it is not empty and no longer one was stamped before, since the last load if it has one byte, ever if it has more |
| `ThreadLog.CachedEntry.StampedNamesKept` | src/target.c:364-371 | so for the app name and msgid of either cached entry, right after any stamp |
| `ThreadLog.ShortAfterLong` | src/target.c:364-367 | a shorter name stamped over a longer one is read with the rest of the longer one behind it |
| `ThreadLog.GetEntryAppName` | src/entry.c:338-356 | the copy handed out is a C string if and only if the byte behind the name is the terminator |
| `ThreadLog.CachedEntry.TraceEntry` | src/target.c:866-882 | stops at the first failure, having done a prefix of the three sets; it does all three if and only if file and function are valid and no allocation is refused, the line number being always valid |
| `ThreadLog.TraceLooksUp` | src/target.c:866-882 | on any entry a trace makes file, line and function look up as given and every other pair as before |
| `ThreadLog.TraceKeepsShape` | src/target.c:866-882 | however far a trace got, the thread's trace entry keeps its one `trace` element with file, line, function in that order; a whole trace replaces all three values |
| `ThreadLog.FormatAndRelease` | src/target.c:212-257 | the formatter's line for the entry, built in a builder from the pool, if and only if no allocation is refused; the slot is given back unless an append failed |
| `ThreadLog.Send` | src/target.c:185-257 | that line goes out if and only if the filter lets the entry through, the transport works and no allocation is refused |
| `ThreadLog.ThreadEntries.FillLog` | src/target.c:334-371 | the entry then has this call's priority and message, the target's app name and msgid, and nothing else, whatever was logged before; it fails if and only if an allocation is refused |
| `ThreadLog.ThreadEntries.FillTrace` | src/target.c:910-957 | the entry then has this call's priority and message, the target's names, and exactly the one element `trace` with file, line and function in that order, even after a call that stopped half way; it succeeds if and only if file and function are valid and no allocation is refused |
| `ThreadLog.AnyCall` | src/target.c:334-374 | a log or trace call sends a line if and only if the target passes it on, its file and function are valid and no allocation is refused in it; the line carries what `ExpectedIsRight` says |
| `ThreadLog.ExpectedIsRight` | src/target.c:362-371 | a line sent by a call with a prival from 0 to 191 and escaped file and function parses to the call's priority and message, the target's app name and msgid, and no element, or for a trace one with the file, the digits of the line and the function; for any priority and texts the words of its header are the call's |
| `ThreadLog.AnyRun` | src/target.c:334-374 | over any run of log, trace and free-thread calls, with entries, builders and buffers used again, a line goes out for exactly the calls that are due one and are refused no allocation, each carrying what its own call says as in `ExpectedIsRight`; refused calls are counted one by one; the slots still taken at the end are those of failed formats |
| `DefaultTarget.NextKeeps` | src/target.c:463-520 | every step of every thread and of the application keeps the invariant of the protocol |
| `DefaultTarget.DefaultNeverMoves` | src/config/have_stdatomic.c:31-40 | over every run an installed default is never replaced |
| `DefaultTarget.ResultsAgree` | src/target.c:499-520 | over every interleaving, any two results that came from the default are the same target, which is installed, never closed and never freed |
| `DefaultTarget.ResultExactly` | src/target.c:499-520 | over every interleaving, a call for either target that ends in the default returns NULL if and only if opening one failed in that very call, and otherwise the installed default |
| `DefaultTarget.InstalledIsReturned` | src/target.c:505-520 | a call begun while a default is installed never returns NULL, and returns that very default if it looks there |
| `DefaultTarget.CurrentComesFirst` | src/target.c:463-478 | a call for the current target returns what it read there, unless that was NULL, and only then turns to the default |
| `DefaultTarget.AdoptedIsCurrent` | src/target.c:475 | a call that ends with a target leaves `current` at that target if it was NULL, and otherwise as it was |
| `DefaultTarget.WaitFree` | src/target.c:463-520 | whatever other threads do a call takes at most ten steps of its own, eight if it asks for the default, and has a step to take until it ends: a lost race is never run again |
| `DefaultTarget.LosersClosedOnce` | src/target.c:511-516 | over every interleaving no target is closed twice; once no call is under way, every one opened and not installed has been closed once and freed, and one was installed if any was opened |
| `DefaultTarget.OpensOnce` | src/target.c:507-517 | over every interleaving each thread opens at most one target: the retry loop never opens twice |
| `DefaultTarget.CurrentKept` | src/target.c:1132-1140 | every step of every thread and of the application keeps what `current` points at allocated and out of the hands of a thread about to free it, the setting back of a target that a call returned included unless it was already unhooked |
| `DefaultTarget.CurrentNeverDangles` | src/target.c:1132-1140 | over every interleaving in which no target is set back after it was unhooked, `current` is NULL, a target the application is not closing, or one opened for the default and not yet freed; it may be closed already, but only while its owner is about to unhook it; between calls it is no losing target |
| `DefaultTarget.CurrentExactly` | src/target.c:702-708 | with two or more idle threads some run leaves `current` dangling, and some run makes it a closed target, if and only if the default is not yet installed |
| `DefaultTarget.SettledForever` | src/target.c:463-478 | once a default is installed and no rival is under way, no further target is ever opened |
| `DefaultTarget.RaceGoesStale` | src/target.c:469-472 | a run in which a caller is handed as current a losing target that is then closed |
| `DefaultTarget.StaleExactly` | src/target.c:463-520 | with two or more idle threads such a run exists if and only if the default is not yet installed |
| `MultiSz.EncodeRoundTrip` | src/config/wel_supported.c:642-659 | a reader of an encoded list gets the list back |
| `MultiSz.SameString` | src/config/wel_supported.c:649 | the bounded comparison reads no further than the two terminators and decides equality |
| `MultiSz.Contains` | src/config/wel_supported.c:642-659 | agrees with membership and never reads past the list |
| `MultiSz.Add` | src/config/wel_supported.c:1023-1033 | stores the list with an absent non-empty name put first, or unchanged if it is there; it fails if and only if the allocation is refused, and a name already held needs none |
| `MultiSz.AddedReads` | src/config/wel_supported.c:1023-1033 | a reader of the new value sees the name first and then the list if and only if the name is not empty; an empty one hides the whole list |
| `MultiSz.WithoutLength` | src/config/wel_supported.c:1610-1634 | the value shrinks by the name and its NUL for each time the name was held |
| `MultiSz.WithoutJoins` | src/config/wel_supported.c:1618-1634 | leaving a name out goes name by name, so that all the others stay, in their order |
| `MultiSz.ReadsBefore` | src/config/wel_supported.c:642-659 | a reader of a list does not see what lies behind its end |
| `MultiSz.CopyOthers` | src/config/wel_supported.c:1618-1634 | the loop writes exactly the list without the name and stays in the buffer |
| `MultiSz.Remove` | src/config/wel_supported.c:1591-1634 | drops the tree if and only if the list is empty or holds just the name; otherwise stores the list without the name, where a reader finds just the others, filling the computed size exactly if and only if the name was held once; it lacks memory if and only if the allocation is refused |
| `MultiSz.AddThenRemove` | src/config/wel_supported.c:1023-1634 | adding an absent name and removing it restores the stored value if and only if the list is not empty and no allocation is refused |

## Left out

- Graph.Entry.Put: stands for both by-name calls, told apart by a flag; the mutexes are left out, each call being one
  atomic step, and making a mutex is an allocation that may fail.
- Graph.Entry.SetElement: is claimed for elements that share no param with the entry; an element attached twice, which
  the library allows, is outside the footprints of `Graph`, `GraphRuns` and `GraphCopy`.
- Graph.Element.SetValueByName: is for elements whose param names have their terminators; comparing a name that has none
  reads past it.
- GraphCopy.CopyEntry: takes what formatting the message gives as an argument, because formatting with a caller's
  directives is libc's.
- Graph.Param.SetValue: is the one setter of a param; renames, which write a terminator behind the new name, are left out,
  so what an array holds behind a name is constant.
- BuilderPool.Pool.New: scans a row of slots; `PooledCache` puts that row in page bytes for taking and giving back
  builders, while the structs themselves stay in a sequence by slot.
- Formatter.FormatEntry: works on the locked entry's contents as a value.
- ToStrings.EntryToString: takes the outcome of each element's rendering in either pass as given; that a failed
  allocation leaves the entry locked (`src/entry.c:1550-1553`) belongs to the mutexes.
- ToStrings.EntryReads: is for contents without quotes and for element names without `=` and commas; the renderings
  escape nothing, so others cannot be read back from them.
- ThreadLog.AnyRun: takes what a set by name does from `Graph`, and models the string calls only; the variadic ones
  differ in how the message is made.
- ThreadLog.Send: models targets that are sent a formatted line; chain, function, journald and sqlite3 targets get the
  entry itself.
- StringBuilder.StrBuilder.IncreaseSize: sizes are unbounded, so the overflow of a doubled `size_t` is not modelled; nor
  is that of the multiplication in `alloc_array`, which the source checks.
- SlabCache.Cache.AddPage: the array of page pointers is an allocation that may fail, not a block with contents.
- DefaultTarget.StaleExactly: assumes no `stumpless_free_all`, and an application that closes only its own targets and
  stops using them first.
- DefaultTarget.CurrentExactly: lets a thread set back the target that its last call returned, before its next call; one
  kept for longer, or handed to another thread, is not modelled.
- MultiSz.Remove: the registry, transaction and key calls around the list editing are left out.
- `stumpless_get_element_index` matches prefixes of names and is left out.
- Sockets, files, streams, journald, sqlite3, clocks and wide-character conversion are foreign code.
- Facility, severity and error tables, plain getters, NULL-argument checks and the Windows event fields would add only
  easy members.
