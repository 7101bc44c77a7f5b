# A verified model of mod_python's state machines

mod_python embeds Python in the Apache HTTP server. Most of it is glue, but several of its parts are
state machines of their own, and this project models those and proves what they keep over every input
and every run:

- **Uploads.** The read buffer behind `req.readline`, the reader that looks for part boundaries through
  it, and the form parser on top, as three layers that each refine the one below, for any block size
  and any pattern of short network reads. They end in the round trip of a whole multipart form
  (section 4 of RFC 7578, section 5.1.1 of RFC 2046).
- **PSP templates.** The six-mode scanner with its flags, its stack of included files and the Python
  code it emits: longest match, bracketing of the emitted calls, meaning of literals under section
  2.4.1 of the Python 3 Language Reference, includes as macro expansion, line numbers, and the
  compilation of whole templates.
- **Caches.** The bounded LRU cache (a dictionary and a circular doubly linked list on the heap) against
  a sequence of keys, the file cache under concurrent lookups, and the hit-count cache of templates.
- **Sessions.** The keyed and the reserved global mutexes that concurrent requests take, mutual
  exclusion, progress, lost updates, and the expiry of records.
- **Filters, handlers, interpreters, queries, CGI.** The bucket-brigade reader, the lists of handlers
  and their dispatch, the pools of thread states, the query-string parsers, and the splitter of CGI
  output.

Code that updates state step by step is modelled by classes and methods with loops, each proved equal to
a function of the old state; the lemmas are about those functions. Concurrency is modelled by steps
of a state machine; the lemmas hold for every interleaving. A byte is a `char`, a byte string a
`string`; nothing depends on the range of `char` except where a character has to be a byte. What the
network delivers, what the clock says, what handlers and build functions do, how a file system answers
and how Python hashes and sorts are parameters.

`dafny verify dfyconfig.toml` checks the whole project.

| files | subject |
|---|---|
| `Text`, `Bytes`, `Optional` | lines, substrings and byte-string methods |
| `RequestBody`, `Multipart`, `PartBody`, `FormParser`, `FormRoundTrip`, `FormTypes`, `FormErrors`, `BoundaryParam` | uploads |
| `PspScanner`, `PspLongest`, `PspParser`, `PspRuns`, `PspRegions`, `PspLines`, `PspInclude`, `PspExpansion`, `PspLiteral`, `PspReadBack`, `PspCompile` | templates |
| `LruOrder`, `LruCache`, `FileCache`, `FileLookups`, `FileStaleness`, `HitsCache` | caches |
| `LockIndex`, `SessionLocks`, `SessionProgress`, `SessionViews`, `SessionStore`, `SessionMoves`, `SessionCleanup` | sessions |
| `FilterBrigade`, `FilterRuns`, `HandlerList`, `HandlerDispatch`, `DispatchRules`, `ThreadStatePool`, `ThreadStateOwners` | filters, handlers, interpreters |
| `QueryString`, `QueryRoundTrip`, `QuerySpelling`, `CgiStdout`, `CgiChunks`, `CgiHeaders` | queries and CGI |

## Where the code differs from its intent

Each of these is a lemma with a concrete input or an exact condition:

- A multipart reader takes a boundary at the start of a *block*, even in the middle of a line, so for
  every block size there is a line that it cuts (`LongLineIsCut`); a content is read back exactly when
  none of its blocks looks like a boundary (`PartReadsBackIff`).
- A closing delimiter that ends the stream, or is followed by padding, becomes part of the last value,
  although RFC 2046 allows both (`CloseIsReadIff`, `OpenIsContent`).
- A stream that stops after a carriage return fails an assertion about the block size (`CutStreamIff`).
- Whatever follows the closing boundary is parsed as further parts, although RFC 2046 lets it be
  ignored; it changes nothing only if it looks like header lines without a body
  (`EpilogueIgnoredIff`, `EpilogueIsParsed`).
- A quoted field name with a semicolon is not read back (`NameReadsBackIff`).
- A part without a disposition ends the parse of the whole form with an error (`NamelessFails`).
- The boundary is everything from the last `boundary=` to the end of the header, so what follows the
  parameter is taken with it (`BoundaryReadsBackIff`, `ParameterAfter`).
- The file cache notes a file's new time before it opens the file, so a failing open makes the old
  content pass for the new one (`FailedBuildGoesStale`), if the entry is still in the dictionary or a
  thread has it already (`FailureShowsIff`).
- The comment beside the lock index says it is never 0; it is negative for the least 32-bit hash
  (`KeyedIndexInRangeIff`, `LeastHashIsOutOfRange`).
- A handler that locks its locked session waits for itself for ever (`SelfDeadlockLasts`).
- An include directive takes all the text up to a later quote that comes before the next space
  (`DirectiveIsWholeIff`), and a token can go on from a file's text into a template only where the file's
  contents are written in its place (`IncludeIsExpansionIff`).
- Newlines in comments and directives are missing in the generated code, so line numbers agree only
  without them (`LineNumbersAgreeIff`).
- Literal text with a backslash is not always read back: neither when a backslash is last
  (`BackslashAtEnd`) nor when it begins an escape other than `\n`, `\r`, `\t` and `\"`
  (`LiteralReadsBackIff`).
- A flush bucket stays at the front of its brigade: every later read is empty, whatever still arrives
  (`FlushBlocks`), so data after one is never read (`AllDataIsReadIff`).
- PythonHandlerModule makes a module the silent handler of every phase, and a comment promises that
  missing handlers are ignored.  None is: unless a handler is named with a dot, a variable without a
  value is used instead, and the request fails (`SilentIsSkippedIff`, `ModuleIsNotIgnored`).
- Copying a list of handlers loses the mark of silent ones after the first (`CopiesAreTheSameIff`).
- An empty line that ends well-formed CGI headers ends them only if the program's output is split there
  when CRLFCRLF comes later (`ChunksDoNotMatterIff`).
- After malformed CGI headers, every further write does the well-formed ones before them again
  (`RaisesAgain`).
- A newly compiled template is forgotten at once if its cache is full and too few of the others sort
  before it (`NewValueIsKeptIff`).
- A value that begins with `%00` in a query is read as blank and kept although blank values are not
  (`BlankIsKeptIff`, `EscapedNulIsKept`).

## Model

| member | source | states |
|---|---|---|
| RequestBody.Request.Readline | src/requestobject.c:1175-1341 | Whatever sizes the network delivers, a call returns exactly the next bytes of the body up to the first newline, the given length or the end, and what is left to read is exactly the rest |
| RequestBody.Request.Refill | src/requestobject.c:1264-1316 | A new read buffer holds the wanted number of bytes or all that is left, over as many short reads as that takes, and no byte is lost |
| RequestBody.Request.Readlines | src/requestobject.c:1349-1383 | The lines returned followed by what is left are what was there, and they are the lines that the size hint selects |
| RequestBody.ReadlinesIsPrefix | src/requestobject.c:1349-1383 | `readlines` returns a prefix of the body, and all of it without a hint |
| RequestBody.ReadlinesMeetsHint | src/requestobject.c:1349-1383 | The hint is reached unless the body ends first, and only by the last line |
| RequestBody.ReadlinesAreLines | src/requestobject.c:1349-1383 | Without a hint, a newline ends every line but possibly the last and is nowhere else |
| RequestBody.LineOfIs | src/requestobject.c:1175-1341 | A line goes up to the first newline, is bounded by a length that is not negative, and is shorter than that without a newline only at the end of the body |
| RequestBody.ReadlinesAreBounded | src/requestobject.c:1349-1383 | With a hint, every line after the first ends in a newline, has the hint's length, or ends the body, and has no newline elsewhere; the first one is a whole line |
| RequestBody.ReadRunIsPrefix | src/requestobject.c:1175-1383 | Any sequence of `readline` and `readlines` calls concatenates to a prefix of the body |
| Multipart.TakeBlock | lib/python/mod_python/util.py:455-485 | What a block writes and what is held back after it, and that it fails exactly on a short block ending in a carriage return |
| Multipart.NextWritten | lib/python/mod_python/util.py:455-485 | At every turn, what was written and the line break held back are all that was consumed |
| Multipart.ReadToBoundary | lib/python/mod_python/util.py:436-485 | For every block size and pattern of short reads, the reader writes the content before the boundary without its last line break, leaves the stream after the boundary line, and reports how it ended |
| PartBody.PassesBlocks | lib/python/mod_python/util.py:449-453 | Whole lines are passed over exactly when none of their blocks is a boundary line |
| PartBody.PartReadsBackIff | lib/python/mod_python/util.py:436-485 | A content framed by a delimiter is written exactly if and only if none of its blocks looks like a boundary |
| PartBody.PartReadsBack | lib/python/mod_python/util.py:436-485 | So it is for every content in which the dashed boundary does not occur, also when a block ends between a carriage return and a newline |
| PartBody.LongLineIsCut | lib/python/mod_python/util.py:439-453 | For every block size there is a content without line breaks that the reader cuts in the middle |
| PartBody.CloseIsReadIff | lib/python/mod_python/util.py:290-453 | A delimiter after a content ends it there if and only if no block of the content looks like a boundary and a line break follows the delimiter at once |
| PartBody.OpenIsContent | lib/python/mod_python/util.py:442-453 | A closing delimiter that ends the stream is written as part of the value, with the line break before it |
| PartBody.CutStreamIff | lib/python/mod_python/util.py:442-474 | A stream fails if and only if no block of it is a boundary and it ends in a carriage return with a last line whose length is no multiple of the block size; all of any other stream without a boundary is content |
| FormParser.ParseHeader | lib/python/mod_python/util.py:550-572 | The header's value and its options, by splitting at semicolons |
| FormParser.FieldStorage.ReadContinuations | lib/python/mod_python/util.py:323-326 | Folded lines are appended, and the line after them is read |
| FormParser.FieldStorage.ReadHeaderLines | lib/python/mod_python/util.py:322-356 | The headers of a part up to the blank line, a boundary or the end of the stream, errors included |
| FormParser.FieldStorage.ReadMultipart | lib/python/mod_python/util.py:298-398 | For every stream, block size and pattern of short reads, the fields and the error are those of the form's meaning |
| FormRoundTrip.OptionReadsBack | lib/python/mod_python/util.py:560-571 | A quoted option is read back with any value, blanks and quotes in it included |
| FormRoundTrip.DispositionReadsBack | lib/python/mod_python/util.py:560-572 | A disposition without semicolons in its name and file name is read back |
| FormRoundTrip.NameReadsBackIff | lib/python/mod_python/util.py:560-571 | A name is read back from its quoted form if and only if it has no semicolon |
| FormRoundTrip.FormReadsBack | lib/python/mod_python/util.py:298-398 | A preamble is skipped, the entries of an encoded form, each with any further header lines, come back in order, and the text after the closing delimiter is parsed as further parts |
| FormRoundTrip.FormRoundTrips | lib/python/mod_python/util.py:298-398 | Every encoded form yields the same names, values and file names in the same order, for every block size that fits its lines, whatever header lines, folded or not, the parts have besides their disposition; only an empty file name is read as none |
| FormRoundTrip.EpilogueIgnoredIff | lib/python/mod_python/util.py:301-331 | A text after the closing delimiter changes nothing if and only if, up to a closing delimiter or its end, none of its blocks is an empty line and every header line, unfolded, has a colon |
| FormRoundTrip.EpilogueIsParsed | lib/python/mod_python/util.py:322-331 | So any epilogue that begins with a line without a colon changes the result, and raises an error after the form's fields unless that line is empty |
| FormTypes.TypeReadsBack | lib/python/mod_python/util.py:550-572 | A content type is read back with all its options, whatever blanks and line folds stand around names and values, quoted or not, the last option of a name counting |
| FormTypes.TypesReadBack | lib/python/mod_python/util.py:304-397 | Every field of an encoded form has the type of its part's last Content-Type line in lower case with that line's options, or application/octet-stream if it has no slash, or text/plain without such a line; and all its header names and values, folded ones included, in order |
| FormErrors.NamelessFails | lib/python/mod_python/util.py:392-398 | A part without a disposition ends the parse with an error after the fields before it, whatever follows |
| FormErrors.CutFormIs | lib/python/mod_python/util.py:436-485 | A stream that ends within a part gives the fields before and one with all that was there, or, if it ends in a carriage return and its last line does not fill a block, an error after the fields before |
| FormErrors.NoBoundaryIs | lib/python/mod_python/util.py:298-320 | A stream without a boundary gives no field, and an error in that case only |
| BoundaryParam.LastNameCounts | lib/python/mod_python/util.py:286-290 | The last parameter name counts, in any letter case, and everything after it is the value |
| BoundaryParam.BoundaryReadsBackIff | lib/python/mod_python/util.py:286-290 | A boundary parameter, quoted or not, is read back if and only if nothing follows it and its value does not contain the name, or the last parameter of that name in what follows repeats the value |
| BoundaryParam.ParameterAfter | lib/python/mod_python/util.py:286-290 | A character set given after the boundary becomes part of it |
| PspLongest.MatchIsLongest | src/psp_parser.c:351-458 | The token found is in its rule's pattern, and no rule of the start condition matches more, or as much and comes first |
| PspParser.Parser.NextToken | src/psp_parser.c:836-1111 | One turn of the scanner's loop on its start condition, flags, buffers and file stack |
| PspParser.Parser.Lex | src/psp_parser.c:836-1111 | The loop's effect on the whole state is that of the same number of steps of the scanner |
| PspRuns.LiteralsAreBracketed | src/psp_parser.c:857-983 | In every state of every run, calls that write literals are opened and closed in turn, one is open exactly in text, directives and comments, and the echo flag is clear there |
| PspLines.LinesAreDropped | src/psp_parser.c:912-1039 | For templates without lone carriage returns that include no file: in every state of every run, the generated code is behind what is consumed by exactly the newlines in the comments and directives consumed |
| PspLines.LineNumbersAgreeIff | src/psp_parser.c:912-1039 | So the line numbers agree in every state if and only if the template has no newline in a comment or directive |
| PspInclude.SpelledHead | src/psp_parser.c:1040-1046 | Any number of spaces after `include`, and one or none on either side of the equals sign, make a directive's head |
| PspInclude.DirectiveIsWholeIff | src/psp_parser.c:1040-1061 | Whatever is skipped around it, a directive's token ends at its own quote if and only if no quote follows before the next space |
| PspInclude.IncludeIsExpansion | src/psp_parser.c:1040-1091 | A directive so ending, in any spelling, leads to the same mode, flags and emitted code as the file's contents in its place, through nested includes, if the contents are scanned to their end in text and no token goes on beyond it |
| PspInclude.NamedFileIsOpened | src/psp_parser.c:1040-1084 | The scanner comes to stand before the file of the templates' directory followed by the name, if the directory is given and the name does not begin with a slash, or else before the file of that name; if there is none, it notes a failure and goes on behind the name |
| PspInclude.TurnFailsIff | src/psp_parser.c:1072-1078 | A turn notes a failure if and only if it comes upon a directive whose file, so named, cannot be opened |
| PspExpansion.IncludeIsExpansionIff | src/psp_parser.c:1040-1091 | It does so if and only if the contents' last character and the next one make no token together, and no directive whose quoted run reaches the contents' end is followed by a quote before the next space; otherwise the other template never even comes to the place behind the directive |
| PspInclude.ExpansionGeneratesTheSame | src/psp_parser.c:931-944 | So both templates run on alike for ever and generate the same code |
| PspLiteral.TextRun | src/psp_parser.c:857-929 | The scanner goes over any text without tags, up to a tag or the end, and emits its escaped form |
| PspReadBack.LiteralIsDecoded | src/psp_parser.c:857-929 | Unless a carriage return is alone or a backslash is last or stands before a backslash, a line end, a numeric or named escape or a last quote, Python reads the emitted literal to its end, with no quote closing it early, as the text with each unprotected escape replaced |
| PspReadBack.LiteralReadsBackIff | src/psp_parser.c:857-929 | Any text whatever is read back, with CRLF as LF, if and only if it has none of these and no backslash begins an escape that the scanner does not protect |
| PspReadBack.BackslashAtEnd | src/psp_parser.c:920-944 | No text that ends in a backslash is read back |
| PspCompile.CodeRun | src/psp_parser.c:946-1039 | Code is emitted as it stands but for line ends, and leaves the indentation and the colon flag that its lines determine |
| PspCompile.ItemRun | src/psp_parser.c:857-1097 | Any literal without tags, expression, block, comment, directive or included file becomes its compiled code and leaves the scanner in text, with the files below it untouched |
| PspCompile.TemplateIsCompiled | src/psp_parser.c:836-1111 | A template of any such items, with files that include files to any depth, is compiled to exactly their program |
| PspCompile.IncludesAreInlined | src/psp_parser.c:1040-1091 | That is the program of the items with those of each included file in its place |
| PspCompile.EndingIsLastLines | src/psp_parser.c:957-1039 | The text after a block is indented as the block's last line, and a pending colon is that of its last character |
| LruCache.Cache.GetEntry | lib/python/mod_python/cache.py:99-114 | A request moves or adds its key at the end of the list, only an addition beyond the limit drops the oldest key, and list and dictionary stay in step in both directions |
| LruCache.Cache.Access | lib/python/mod_python/cache.py:201-214 | Relinking moves one entry to the end of the circular list, or adds it there |
| LruCache.Cache.CheckLru | lib/python/mod_python/cache.py:216-222 | Exactly the oldest entry is dropped when there are too many |
| LruCache.Cache.Clear | lib/python/mod_python/cache.py:176-185 | An empty list and an empty dictionary |
| LruCache.Cache.Lru | lib/python/mod_python/cache.py:157-166 | The least recently requested key, if any |
| LruCache.Cache.Mru | lib/python/mod_python/cache.py:146-155 | The most recently requested key, if any |
| LruOrder.RunIsRecency | lib/python/mod_python/cache.py:99-114 | After any run the cache holds exactly the most recently requested keys, in that order |
| LruOrder.RunBounds | lib/python/mod_python/cache.py:216-222 | No key is held twice, the limit is kept, and a larger cache holds at least what a smaller one does |
| LruOrder.RecencyOrder | lib/python/mod_python/cache.py:201-214 | The order is that of the moments of last request |
| FileStaleness.ReachableReturnsOldIff | lib/python/mod_python/cache.py:116-144 | In every reachable state, failed builds included, some continuation without another failing one makes a lookup return what its file does not hold, if and only if an outdated entry is in the dictionary or in a thread's hands |
| FileStaleness.FailureShowsIff | lib/python/mod_python/cache.py:260-278 | A step makes that possible in a coherent cache if and only if it is a build that fails in place, and its entry is still in the dictionary or another thread has it already |
| FileCache.LookupsAreCurrent | lib/python/mod_python/cache.py:116-144 | In every interleaving of lookups, file changes, removals and evictions, with fresh times and builds that succeed, what a lookup returns is what the file it names holds then |
| FileLookups.LookupsReturnTheirFile | lib/python/mod_python/cache.py:99-144 | In every run a lookup returns the path that its thread asked for, and, if no build fails in place, what the file of that path holds at that moment |
| FileLookups.UnchangedIsReadOnce | lib/python/mod_python/cache.py:260-278 | A file found changed is not found so again, and so read once, before it changes, is evicted or cannot be opened |
| FileLookups.LocksEndWithLookups | lib/python/mod_python/cache.py:116-144 | In every run a thread holds a lock exactly from the step that acquires it to the one that ends its lookup, and it is that of the path it asked for |
| FileCache.OneBuilder | lib/python/mod_python/cache.py:116-144 | In every run, failing builds included, at most one thread holds an entry's lock |
| FileCache.FailedBuildGoesStale | lib/python/mod_python/cache.py:260-278 | A run in which a failing open makes a later lookup return old content |
| LockIndex.KeyedIndexInRangeIff | src/_apachemodule.c:460-476 | A key's index is neither 0 nor out of the array if and only if the hash is not the least 32-bit integer, or the number of keyed mutexes divides it |
| LockIndex.LeastHashIsOutOfRange | src/_apachemodule.c:460-476 | With 32 mutexes that hash gives a negative index |
| LockIndex.KeyedIndexIs | src/_apachemodule.c:460-476 | Every other hash has the index of the absolute value of its low 32 bits, one more than its remainder by the number of keyed mutexes; only -1 is an error |
| SessionLocks.MutexOf | src/_apachemodule.c:460-476 | Every hash leads to a keyed mutex, but those whose low 32 bits are all ones, which the call answers with an error, and the least 32-bit one unless the number of keyed mutexes divides it |
| SessionLocks.StepKeepsInv | lib/python/mod_python/Session.py:196-214 | Every step of every request keeps the invariant of sessions and mutexes |
| SessionLocks.MutualExclusion | lib/python/mod_python/Session.py:299-308 | In every interleaving no two requests have the same session, or two with the same mutex, locked; and a finished request holds nothing and released each mutex as often as it took it |
| SessionLocks.ReleasesItsOwn | lib/python/mod_python/Session.py:305-308 | Only its owner releases a mutex, despite repeated cleanups |
| SessionProgress.StepKeepsUnblocked | lib/python/mod_python/Session.py:299-303 | A step makes no request wait for itself if and only if it locks no locked session |
| SessionProgress.SelfDeadlockLasts | lib/python/mod_python/Session.py:299-303 | A request that waits for itself does so for ever |
| SessionProgress.AllCanFinishIff | lib/python/mod_python/psp.py:399-424 | From every reachable state all requests can still finish if and only if none waits for itself, although sessions and template caches share mutex 0 |
| SessionViews.SaveReplacesWhatWasLoaded | lib/python/mod_python/Session.py:412-431 | No lost update: a save in a locked span replaces what the request loaded or saved last |
| SessionStore.StoreIsLastSaved | lib/python/mod_python/Session.py:424-440 | After every run the store has for a session what was last saved for it, if no finished deletion or cleanup of it came later, or else nothing, or the initial record |
| SessionStore.LoadFindsRecorded | lib/python/mod_python/Session.py:270-422 | A load gives the request exactly that; a first load makes the session ready if there is such a record, not expired, and has it renewed otherwise |
| SessionMoves.MovesLead | lib/python/mod_python/Session.py:296-337 | In every run a request's own steps say where it stands, which mutexes it holds, and which cleanups it still has to run: every operation on the dbm files is done under mutex 0, an unlock frees the session's mutex, and there is one unlock cleanup for each lock |
| SessionCleanup.Database.Load | lib/python/mod_python/Session.py:270-276 | A load finds a record that exists and is not expired at the moment of the check |
| SessionCleanup.Database.Cleanup | lib/python/mod_python/Session.py:340-365 | A cleanup removes all that was expired when it began and nothing that is not when it ends |
| SessionCleanup.CleanupIsInvisible | lib/python/mod_python/Session.py:340-365 | With a clock that does not go back, cleanups anywhere in a run change no result of any load |
| SessionCleanup.LoadReturnsLastSaved | lib/python/mod_python/Session.py:270-282 | Whatever was loaded, saved, deleted and cleaned up before, a load returns the record last saved if that was accessed no longer ago than its timeout, whenever it was created, and nothing otherwise |
| SessionCleanup.ClockSetBack | lib/python/mod_python/Session.py:340-365 | With one that does, they can |
| FilterBrigade.Filter.Split | src/filterobject.c:187-283 | Splitting a bucket keeps the content |
| FilterBrigade.Filter.TakeBucket | src/filterobject.c:187-283 | A turn of the loop moves bytes from the front of the brigade to the result and loses none |
| FilterBrigade.Filter.Read | src/filterobject.c:148-283 | The result followed by the data left before the next mark is the data there before; the bounds of length and line hold, and a shorter result means that the data is used up |
| FilterBrigade.TakenIs | src/filterobject.c:187-283 | These bounds leave only one result |
| FilterRuns.RunConserves | src/filterobject.c:148-283 | Whatever an input filter fetches for its reads, a run hands out all that was there and arrived from the front, byte by byte and with the ends of the stream, and never passes a flush bucket |
| FilterRuns.FlushBlocks | src/filterobject.c:187-283 | With a flush bucket at the front, every read of every run is empty, whatever arrives |
| FilterRuns.AllDataIsReadIff | src/filterobject.c:148-283 | After any run, unbounded reads to its end leave no data unread if and only if no data came after a flush bucket |
| HandlerList.FindTail | src/hlist.c:71-73 | The walk ends at the last entry |
| HandlerList.HlistAppend | src/hlist.c:64-88 | A new last entry with the given data, the others unchanged |
| HandlerList.HlistCopy | src/hlist.c:95-122 | A fresh list with the same entries but for the mark of silent ones after the first |
| HandlerList.HlistExtend | src/hlist.c:129-150 | Fresh copies of the second list's entries at the end of the first |
| HandlerDispatch.CopiesAreTheSameIff | src/hlist.c:95-122 | A copied list is the same if and only if no entry after the first is silent |
| HandlerDispatch.OnlyFirstIsSilent | src/mod_python.c:1503-1526 | In the list of a phase only the first entry can be silent |
| HandlerDispatch.SilentIsSkippedIff | lib/python/mod_python/apache.py:315-431 | A silent first handler whose object is missing is skipped, and the request declined if there is no other, if and only if the object's name, which is what follows `::` or the phase's default, has a dot; otherwise the result is that of an error report |
| HandlerDispatch.ModuleIsNotIgnored | src/mod_python.c:2466-2493 | So a module configured as the silent handler of all phases fails every request in a phase that it has no handler for |
| DispatchRules.NamedObjectIsSkippedIff | lib/python/mod_python/apache.py:330-399 | Of a missing silent handler the part after the first `::` counts: it is skipped if and only if that has a dot |
| DispatchRules.NullIsSkipped | lib/python/mod_python/apache.py:330-431 | A silent handler whose object is None is skipped, and the request declined if there is no other |
| HandlerDispatch.Request.AddHandler | src/requestobject.c:412-497 | An addition in the same phase goes to the end of the list being run, one for another phase to what is registered for it, one for an invalid phase is refused, and one to a list that is used up is lost |
| HandlerDispatch.Request.MakeList | src/mod_python.c:1503-1512 | The list is made of copies of the configured and then the registered handlers |
| HandlerDispatch.ResolveAll | src/mod_python.c:1514-1526 | Directory patterns are resolved in place, in this list only |
| HandlerDispatch.Request.Dispatch | lib/python/mod_python/apache.py:313-433 | The handlers that have turns are the list's, as it grows, in order; all but the last are skipped or have an expected result; the list is used up unless the last is neither; the result is that of the last one called, of an error report, or that of declining; whether one is skipped follows from its name and whether its object is there |
| DispatchRules.StopsUnlessAllowed | lib/python/mod_python/apache.py:313-433 | A handler that is called lets the next one run if it succeeds and returns OK in a phase other than Trans, Authen, Authz and Type, or DECLINED in one other than Handler and Cleanup; with any other outcome it is the last, however long the list is, and its result is that of the run |
| DispatchRules.MissingStops | lib/python/mod_python/apache.py:330-399 | A handler that is not silent and not found is the last, and the result is that of the error report |
| DispatchRules.TraceIsInOrder | lib/python/mod_python/apache.py:313-433 | The handlers run are those of the list and then those that the ones before them asked for, each as it was asked for, and all of them as long as these let the next one run |
| DispatchRules.ConfiguredComeFirst | src/mod_python.c:1503-1526 | The configured handlers are run before the registered ones, each in its own directory or the one its pattern matches |
| DispatchRules.OthersAreRegistered | src/requestobject.c:412-497 | What is registered for the other phases is what the handlers asked for, in order |
| HandlerDispatch.RunIsUnique | lib/python/mod_python/apache.py:313-433 | What the handlers do decides which are run and with what result |
| HandlerDispatch.RunIsPrefix | lib/python/mod_python/apache.py:313-433 | The handlers run are a prefix of configured, registered and appended ones |
| HandlerDispatch.Request.PythonHandler | src/mod_python.c:1481-1547 | The whole phase runs so, declines if there is nothing to run, and changes neither the configured nor its registered list |
| ThreadStatePool.Server.GetInterpreter | src/mod_python.c:224-289 | A handler, also one inside another on the same thread, gets an available thread state of the interpreter, or a new one |
| ThreadStatePool.Server.ReleaseInterpreter | src/mod_python.c:297-311 | It is pushed on the interpreter's pool, or deleted |
| ThreadStatePool.RunIsSafe | src/mod_python.c:224-311 | Over all interleavings, nested handlers included, no thread state is held twice, pooled twice, or both held and pooled |
| ThreadStatePool.CreatedIsPeak | src/mod_python.c:252-268 | The number of thread states made for an interpreter is the peak of its holders if none was deleted, and exceeds it by no more than were deleted |
| ThreadStateOwners.HoldsWhatItWanted | src/mod_python.c:224-289 | In every run a handler holds a thread state of the interpreter that it asked for, and of the main one only if it named that or none |
| ThreadStateOwners.ReleasedIsNextUsed | src/mod_python.c:224-311 | A released thread state is the next one that its interpreter uses |
| QueryString.CopyPiece | src/_apachemodule.c:305-313 | A piece up to the next separator with spaces for plus signs |
| QueryString.SplitPiece | src/_apachemodule.c:343-362 | What is before and after the first equals sign |
| QueryString.ParseQsl | src/_apachemodule.c:255-394 | The list of decoded pairs of the query, blank values kept or not |
| QueryString.ParseQs | src/_apachemodule.c:80-249 | For every query the dictionary is the grouping by key of that list, each key's values in order |
| QueryString.GroupingIsUnique | src/_apachemodule.c:183-245 | There is only one such dictionary |
| QueryString.GroupingIsInOrder | src/_apachemodule.c:183-245 | The dictionary has the value of every pair under its key, at the place given by the number of pairs with that key before it, and nothing else |
| QueryRoundTrip.FormReadsBack | src/_apachemodule.c:255-394 | Every list of NUL-free pairs sent as section 17.13.4.1 of HTML 4.01 has it is read back in order, or those with nonblank values are |
| QueryRoundTrip.BlankIsKeptIff | src/_apachemodule.c:364-391 | When blank values are not kept, a pair with a blank value is read all the same if and only if some value in the query begins with an escaped NUL |
| QueryRoundTrip.EscapedNulIsKept | src/_apachemodule.c:364-391 | Such a query |
| QuerySpelling.QueryReadsBack | src/_apachemodule.c:255-394 | Every query made of names, or names and values, with escapes in either case, plus signs for spaces, equals signs in values and any ampersands and semicolons before, between and after them is read as those pairs in order, a name alone with a blank value; blank ones are left out unless asked for |
| CgiStdout.CGIStdout.Write | lib/python/mod_python/apache.py:820-863 | The whole effect of a write on the object and the request, an exception in the middle included |
| CgiStdout.CGIStdout.SetHeaders | lib/python/mod_python/apache.py:842-855 | The effects of the header lines up to the first malformed one |
| CgiChunks.BlockWithEmptyLine | lib/python/mod_python/apache.py:830-855 | A header block with an empty line has the effects of the lines before it and then raises an exception |
| CgiChunks.ChunksDoNotMatterIff | lib/python/mod_python/apache.py:820-863 | Headers, body and errors are the same for every splitting of the output into writes if and only if no empty line ends well-formed headers before the first CRLFCRLF |
| CgiChunks.TwoWrites | lib/python/mod_python/apache.py:829-838 | Otherwise two writes differ from one |
| CgiChunks.RaisesAgain | lib/python/mod_python/apache.py:824-855 | After an exception, every further write repeats the effects of the header lines before the malformed one and raises an exception again |
| CgiHeaders.HeadersThenBody | lib/python/mod_python/apache.py:820-863 | A block of header lines, ended by an empty line, and a body, written in any pieces: each header sets the status to the number its value begins with, or the content type, or adds a header, with the value stripped; the body is exactly what follows; and the first line without a colon, or with a status that is no number, raises an exception after the effects before it |
| HitsCache.HitsCache.Clean | lib/python/mod_python/psp.py:446-456 | As many entries as the slice holds are deleted, those left are exactly the ones that at least as many others sort before, and none was hit less than a deleted one |
| HitsCache.HitsCache.Store | lib/python/mod_python/psp.py:433-436 | The value is stored and the size kept; a clean leaves exactly three quarters of it, the last ones in the order |
| HitsCache.HitsCache.Get | lib/python/mod_python/psp.py:438-444 | The value stored, with its hits counted |
| HitsCache.NewValueIsKeptIff | lib/python/mod_python/psp.py:433-456 | A value is kept if and only if its key was cached, or the cache was not full, or more entries sort before the new one than a quarter of the size, rounded up |
| HitsCache.FileCache.Store | lib/python/mod_python/psp.py:460-463 | The same with the file's time |
| HitsCache.FileCache.Get | lib/python/mod_python/psp.py:465-475 | The code if it has the time asked for, or else the entry is deleted |
| HitsCache.HitsAreLastStored | lib/python/mod_python/psp.py:458-475 | In every run a hit returns the code last stored for the file with that time, an entry's hits are those since then, a lookup that finds another time removes it, and the size is never exceeded |

## Left out

- `req_read` and its refill at src/requestobject.c:1142, which writes from the start of the result; so runs that mix it with `readline` are not modelled, nor are read errors and a failing `ap_setup_client_block`.
- The branches of `FieldStorage.__init__` for query arguments and urlencoded bodies beyond the query parsers, file and field callbacks, and the decoding of values to text.
- FormTypes.TypeReadsBack: options without a name or an equals sign are not among those written.
- `FieldStorage.__setitem__` and `__delitem__`, which remove by equality of values.
- PspReadBack.LiteralReadsBackIff: takes numeric and named escapes as a function that consumes at least one character and neither quotes nor backslashes.
- PspCompile.TemplateIsCompiled: is about included files that can be opened; directives that include nothing have no quotes.
- PspParser.Parser.Lex: takes the number of turns as a bound, since files may include each other for ever.
- flex's buffers and compressed tables, the pool that grows the generated code, NUL bytes in templates, and the release of the directory name in `psp_parse`.
- `__delitem__` on bounded caches, unbounded caches, `WeakCache`, `ModuleCache` and `HTTPCache`.
- FileCache.LookupsAreCurrent: assumes that every change of a file gives it a time it never had and that no build fails in place; FileStaleness.FailureShowsIff says exactly when one that does shows.
- Requests with several sessions or sessions that do not lock, `FileSession`, `MemorySession`, cookies and their signatures, malformed records, and how often cleanups are drawn.
- Errors of `ap_get_brigade`, and `write`, `flush` and `close` of filters.
- HandlerDispatch.Request.AddHandler: keeps what is registered for other phases as values; the lists of the phase being run are on the heap.
- HandlerDispatch.Request.Dispatch: takes the turns of the handlers as a finite list, so it is about every finite beginning of a run; the import of modules and `sys.path` are not modelled.
- ThreadStatePool.Server.GetInterpreter: assumes that Python makes interpreters, thread states and callback objects.
- The decoding of keys and values of text queries as UTF-8, and memory errors of the query parsers; `ap_unescape_url` is a function.
- QuerySpelling.QueryReadsBack: a percent sign that begins no escape is not among the spellings.
- White space beyond ASCII in CGI header values, and what `req.headers_out` does with the headers.
- The hit cache's sort is an insertion sort over any total order in which hits come first and no two keys are equal; codes that Python cannot compare are left out.
- `publisher.py`, `httpdconf.py`, `wsgi.py`, attribute getters and setters, configuration directives, the build and documentation tools: input and output, reflection or tables.
