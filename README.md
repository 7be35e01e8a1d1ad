# libregutils in Dafny

A model of the core of libregutils, a small C library that wraps the POSIX
matcher (`regcomp`/`regexec`) in a handle (`Preg`) and offers three result
builders on top of one search: `preg_match` (copies of every matched
subexpression), `preg_split` (the subject cut at every match) and
`preg_replace` (every match replaced by a template with `$n`
backreferences), plus `preg_escape` (backslash-quoting of the special bytes
of a POSIX basic or extended regular expression).

The model follows the C code file by file, function by function:

- `vector.dfy` — the growable vector of `src/vector.h` as a class `Vec`
  over an `array`, with `init_auto`, `resize`, `append` and `free_auto`.
- `types.dfy` — error codes and flags of `include/regutils.h`, the
  `regmatch_t` pair, and the external matcher as an oracle: a compiled
  pattern is its subexpression count and an executor function.
- `mem.dfy` — `memcpy` into a block and the bump cursor of `mem_alloc`.
- `search.dfy` — the search of `preg_offset` as functions: the discard of
  the first `min` matches, the collection of at most `(unsigned)limit`
  rows of absolute offsets, and what it returns.
- `matches.dfy`, `splits.dfy`, `assemble.dfy` — the three two-pass
  builders (size exactly, allocate once, carve with a cursor), each proved
  against a specification function of its result.
- `template.dfy` — `parse_rep` (template to literal plus backreference
  list) and the rendering of `copy_rep`, with a direct reference semantics.
- `escape.dfy` — `preg_escape`.
- `handle.dfy` — the `Preg` handle as a class: options, error record,
  `preg_offset` with the growth of its offset matrix, and `preg_match`,
  `preg_split`, `preg_replace` built on it (see "## Left out" for the
  count of matches they rely on).

Memory allocation is an oracle `canAlloc: nat -> bool` keyed by the
requested size; `regcomp`, `regexec` and `regerror` are function parameters.
`AllAlloc(canAlloc)` ("every allocation succeeds") is the condition under
which the contracts state the exact return code. Sizes are those of an LP64
target (pointer 8 bytes, `regmatch_t` 8, `String` 16) and the
`<regex.h>` constants those of glibc (`REG_NOMATCH` = 1, `REG_NOSUB` = 8,
`REG_EXTENDED` = 1).

## Model

| member | source | states |
|---|---|---|
| `Vector.GrownSize` | src/vector.h:104-105 | the capacity a full vector grows to is more than its count, so the appended entry always fits |
| `Vector.Vec.InitAuto` | src/vector.h:51-55 | a new vector has no storage, no entries and no capacity |
| `Vector.Vec.Resize` | src/vector.h:90-100 | succeeds exactly when `realloc` of `newSize * sizeof(Entry_t)` bytes does; then the capacity is the new size and the entries are kept; on failure storage and capacity are unchanged |
| `Vector.Vec.Append` | src/vector.h:102-112 | returns 0 or -1; on 0 the contents are the old contents plus the new entry, and a full vector has grown (to `n * 2 + 1` entries) exactly when the allocation of that many entries' bytes succeeded; -1 only for a full vector whose growth failed, with entries, count and capacity unchanged; `n <= size` is kept |
| `Vector.Vec.FreeAuto` | src/vector.h:69-80 | `free_entry`, when given, is called once on each entry 0..n-1 in order, else never |
| `Mem.PutText` | src/regutils.c:604-607 | a text and its terminator are copied at the cursor, the bytes before are kept, the cursor advances by the length plus one |
| `Search.Discard` | src/regutils.c:470-477 | the discard phase never moves the running offset backwards or past the subject |
| `Search.Collect` | src/regutils.c:479-510 | the collection stores at most as many rows as the cap allows and ends with a non-negative code |
| `Search.GrownRows` | src/regutils.c:529-530 | each growth of the offset matrix adds rows, and a non-empty matrix doubles |
| `Search.AbsoluteIn` | src/regutils.c:488-498 | a pair inside the searched suffix, moved by the running offset, lies inside the whole subject; (-1, -1) stays (-1, -1) |
| `Search.CollectGood` | src/regutils.c:479-510 | the stored rows have `nsub + 1` pairs inside the subject, start at or after the running offset, and their whole matches follow each other without overlap |
| `Search.CollectCap` | src/regutils.c:479-480 | a smaller limit stores exactly the first `limit` rows of what a larger one stores |
| `Search.DiscardCollect` | src/regutils.c:470-510 | for a non-empty pattern, skipping `min` matches and collecting gives the rows of a collection allowed `min` more, without its first `min` |
| `Template.DollarRun` | src/regutils.c:769-772 | the count of the scan stops at the end of the template or at a byte that is not `$` |
| `Template.DollarRunLeading` | src/regutils.c:769-772 | every byte the scan counted is `$`, so with DollarRun the count is exactly the leading run of `$` |
| `Template.DigitsAt` | src/regutils.c:786-787 | a backreference number has at most MAX_BREF_DIGITS digits, all digits, and at least one when a digit follows the run |
| `Template.NextToken` | src/regutils.c:764-811 | each pass of the scan consumes at least one byte, emits no more literal bytes than it consumes, and records at most one backreference, after its literal bytes, numbered below 10 |
| `Template.ParseRepBounds` | src/regutils.c:755-817 | the literal is never longer than the template (it fits the `strlen(rep) + 1` buffer); backreference offsets are non-decreasing and inside the literal; every number is 0..9 |
| `Template.NoDollarVerbatim` | src/regutils.c:764-812 | a template without `$` is copied verbatim and has no backreference |
| `Template.OddRunBeforeDigit` | src/regutils.c:774-798 | an odd run of k `$` before a digit emits k/2 `$` and records a backreference to that digit at the current output length; the digit is not copied |
| `Template.EvenRunBeforeDigit` | src/regutils.c:777-811 | an even run of k `$` before a digit emits k/2 `$` and then the digit itself |
| `Template.RunBeforeOther` | src/regutils.c:800-808 | a run of `$` not followed by a digit is copied unchanged |
| `Template.DollarDigitToken` | src/regutils.c:785-797 | `$d` emits nothing and records a backreference to d |
| `Template.BrefThen` | src/regutils.c:764-812 | `$d` before a plain text puts a backreference to d at offset 0 of that text |
| `Template.DemoTemplate` | examples/demo.c:145-146 | the template `$1 inside the crate` parses to ` inside the crate` with one backreference to 1 at offset 0 |
| `Template.RenderLength` | src/regutils.c:833-838 | a rendered template is as long as its literal plus the inserted subexpression texts |
| `Template.RenderParseRep` | src/regutils.c:870-902 | parsing a template and rendering the parse for a match equals substituting the match's subexpressions into the template directly |
| `Template.ScanDollars` | src/regutils.c:769-772 | the loop counts the run of `$` and stops after it |
| `Template.PutDollars` | src/regutils.c:780-781 | the loop writes `count` `$` bytes at the cursor and keeps the bytes before it |
| `Template.ReadBrefNum` | src/regutils.c:786-792 | the loop reads at most MAX_BREF_DIGITS digits and returns their `atoi` value |
| `Template.ParseToken` | src/regutils.c:764-811 | one pass of the loop writes exactly the literal bytes of the next token and returns its backreference |
| `Template.ParseRun` | src/regutils.c:774-808 | the pass after a run of `$` writes what the run's token emits |
| `Template.RunBref` | src/regutils.c:785-797 | an odd run before a digit yields the token of a backreference |
| `Template.CopyRunByte` | src/regutils.c:811 | the byte after a run is appended to the output |
| `Template.ParseStep` | src/regutils.c:764-811 | one pass writes the token's literal bytes and appends its backreference, placed at the output length, to the vector; it fails only when an allocation does |
| `Template.PushBref` | src/regutils.c:791-795 | a token's backreference is appended with its offset moved to the output written so far; the append fails only when an allocation does |
| `Template.ParseRepInto` | src/regutils.c:755-817 | `parse_rep` returns 0 or PREG_MEMFAIL, and 0 whenever every allocation succeeds; the output never exceeds the template's length; on 0 the output is the literal of the template, NUL-terminated, and the vector holds its backreferences |
| `Matches.TextsLens` | src/regutils.c:184-187 | the text of a pair is `eo - so` bytes long (empty for (-1, -1)) |
| `Matches.CarvedSum` | src/regutils.c:581-587 | the carving cursor and the products added up by the sizing pass agree |
| `Matches.ImageLength` | src/regutils.c:578-593 | the one block is exactly as large as what the copying pass carves |
| `Matches.RowPtrsAt` | src/regutils.c:599-604 | `match[i].sub[j]` points where the text of pair (i, j) is carved |
| `Matches.ImageAt` | src/regutils.c:598-608 | every carved text is the subject text its pair designates, followed by a terminator |
| `Matches.SizeMatches` | src/regutils.c:577-587 | the sizing pass computes the table of matches, the pointer tables and every text with its terminator |
| `Matches.PutRow` | src/regutils.c:601-608 | the texts of one match are copied in subexpression order, each with a terminator, and their pointers returned |
| `Matches.PutSubs` | src/regutils.c:598-609 | one match's pointer table and texts extend the block laid out for the matches before it |
| `Matches.CarveAll` | src/regutils.c:595-609 | the carving pass leaves the whole block image and every pointer the C code stores |
| `Matches.BuildMatches` | src/regutils.c:577-609 | the block exists exactly when the allocation of the computed size succeeds, and then holds every matched text at the offset its pointer gives |
| `Splits.Candidate` | src/regutils.c:643-661 | candidate `i` runs from the end of the previous whole match (or 0) to the start of match `i` (or the end of the subject) and lies inside the subject |
| `Splits.Cuts` | src/regutils.c:644-661 | the first pass records at most one entry per candidate |
| `Splits.CutsIn` | src/regutils.c:650-657 | every recorded entry is non-empty and lies inside the subject |
| `Splits.CutsOrdered` | src/regutils.c:643-661 | the entries keep subject order and do not overlap |
| `Splits.SplitsOrdered` | src/regutils.c:644-661 | the order also holds with the tail after the last match |
| `Splits.SplitsShape` | src/regutils.c:635-657 | there are at most `matc + 1` segments and none is empty |
| `Splits.SplitRoundTrip` | src/regutils.c:643-661 | the candidates interleaved with the matched texts give back the subject |
| `Splits.SplitsJoin` | src/regutils.c:650-657 | dropping the empty candidates loses no text: the recorded segments joined equal all the candidates joined, which is the subject without its matches |
| `Splits.TotalLenExact` | src/regutils.c:654-676 | `len_total` is exactly the bytes the copying pass writes |
| `Splits.PlacedAt` | src/regutils.c:670-676 | after the copy, entry `k` points at its segment's copy in the block and keeps its length |
| `Splits.StrsAt` | src/regutils.c:673-675 | segment `k` and its terminator sit at that offset of the block |
| `Splits.GoodRowsOrdered` | src/regutils.c:479-510 | the whole matches of a completed search are ordered, as the splitter assumes |
| `Splits.Record` | src/regutils.c:650-657 | a non-empty candidate is appended to the table and counted in the total; an empty one changes nothing |
| `Splits.SizeSplits` | src/regutils.c:643-661 | the first pass fills the table with the non-empty candidates and computes the block size |
| `Splits.CopySplit` | src/regutils.c:670-676 | one segment is copied with its terminator and its entry repointed into the block |
| `Splits.CopySplits` | src/regutils.c:670-676 | the second pass copies every segment in order and repoints every entry |
| `Splits.BuildSplits` | src/regutils.c:634-676 | table and block exist exactly when their allocations succeed; on success the block holds the segments and the table points at them; when only the block fails the table still points into the subject and the code is PREG_MEMFAIL |
| `Splits.DemoSplits` | examples/demo.c:172-182 | "There's a _ inside the crate" split at `[_ ]` gives There's, a, inside, the, crate |
| `Assemble.BrefLensInserted` | src/regutils.c:837-838 | the inner sum of the sizing loop is the length of the inserted subexpression texts |
| `Assemble.ReplacedLength` | src/regutils.c:830-859 | the output written so far has the length the sizing pass adds up for the same matches |
| `Assemble.AssembleSizeExact` | src/regutils.c:830-842 | the size `assemble` computes is the length of the replaced subject |
| `Assemble.RenderSelf` | src/regutils.c:880-893 | rendering `$0` for a match gives the whole match |
| `Assemble.ReplaceSelfIdentity` | src/regutils.c:819-862 | replacing every match by `$0` gives back the subject |
| `Assemble.NoMatchUnchanged` | src/regutils.c:851-859 | with no match the output is the subject |
| `Assemble.GapAt` | src/regutils.c:852-854 | the bytes copied before match `i` are the subject between the previous whole match and this one |
| `Assemble.CopyRep` | src/regutils.c:870-902 | `copy_rep` writes the template rendered for the match and returns its length, keeping the bytes before |
| `Assemble.CopyPiece` | src/regutils.c:881-889 | one turn copies the literal up to the backreference, then the subexpression text |
| `Assemble.CopyTwo` | src/regutils.c:882-888 | the two copies of one turn append literal text then group text |
| `Assemble.SizeAssemble` | src/regutils.c:830-842 | the sizing loop computes the size that Assemble.AssembleSizeExact proves equal to the length of the replaced subject |
| `Assemble.PutReplacement` | src/regutils.c:851-858 | one turn of the copying loop appends the next gap and the next rendered match |
| `Assemble.PutPiece` | src/regutils.c:852-857 | a gap then a rendered template |
| `Assemble.CopyReplacements` | src/regutils.c:851-858 | the loop writes every gap and rendered match in order |
| `Assemble.CopyPieces` | src/regutils.c:851-859 | the copying pass fills the block with the replaced subject and its terminator |
| `Assemble.CopyTail` | src/regutils.c:859 | the tail after the last match and the terminator close the block |
| `Assemble.Assemble` | src/regutils.c:819-862 | no block (and length `(size_t)-1`) exactly when the allocation fails; otherwise the block is the subject with every whole match replaced by the rendered template, NUL-terminated, and the length is that of the result |
| `Escape.StrLen` | src/regutils.c:407-408 | `strlen` is the offset of the first NUL |
| `Escape.EscapedLength` | src/regutils.c:410-414 | the output is as long as the input plus the number of special bytes |
| `Escape.UnescapeEscaped` | src/regutils.c:420-424 | deleting the inserted backslashes gives back the input |
| `Escape.EscapedAt` | src/regutils.c:420-424 | every input byte appears in order, preceded by exactly one backslash when it is special |
| `Escape.PlainUnchanged` | src/regutils.c:420-424 | a text without special bytes is its own escape |
| `Escape.NulIsEscaped` | src/regutils.c:411-422 | with an explicit length a NUL byte is escaped, since `strchr` finds the terminator |
| `Escape.MrSmithEscaped` | examples/demo.c:202-203 | "Mr. Smith" under ERE becomes `Mr\. Smith` |
| `Escape.CaretDotStar` | examples/demo.c:209-210 | `^.*` under BRE becomes `\^\.\*` |
| `Escape.CountEscaped` | src/regutils.c:410-414 | the sizing loop counts each byte once and each special byte twice |
| `Escape.PutEscaped` | src/regutils.c:420-424 | one turn of the copying loop appends the escape of one byte |
| `Escape.PregEscape` | src/regutils.c:389-428 | the result is NULL exactly when the allocation fails; otherwise it holds the escape of the first `len` bytes (or of the text up to its NUL when `len` is -1) and a terminator |
| `Handle.CheckOpt` | src/regutils.c:300-308 | 0 exactly when `min >= 0` and `limit >= -1`; PREG_BADMIN exactly when `min < 0`; PREG_BADLIMIT exactly when only the limit is bad |
| `Handle.DelUndoesSet` | src/regutils.c:271-298 | deleting a flag that was clear before it was set restores the options |
| `Handle.DelCFlagsClearsNoStrings` | src/regutils.c:290-294 | deleting REG_EXTENDED from the compile flags, as written, also clears PREG_NOSTRINGS |
| `Handle.TableEntry` | src/regutils.c:56-62 | the table entry of a code carries that code, and only PREG_BADBREF takes details |
| `Handle.ErrEndOf` | src/regutils.c:310-316 | PREG_BADBREF takes details, the other codes of the table are internal, every other code is the matcher's |
| `Handle.CopyDetail` | src/regutils.c:375-382 | the three copies fill the `strlen(prefix) + strlen(det) + 3` bytes exactly: the detailed message (prefix, ": ", details) and its terminator |
| `Handle.DetailPrefixDecides` | src/regutils.c:363-385 | two detailed messages are equal exactly when their prefixes are |
| `Handle.StaleDetailPrefix` | src/regutils.c:366-370 | after `preg_match` stored the matcher's message for code 0, the detailed message as written differs from the intended PREG_BADBREF one whenever the two prefixes differ |
| `Handle.Digit` | src/regutils.c:721 | `snprintf("%d")` of a one-digit number is that digit |
| `Handle.RowsAfter` | src/regutils.c:482-486 | after storing rows the matrix is at least as large as before and as the rows stored |
| `Handle.RowsAfterStep` | src/regutils.c:482-486 | storing one more row keeps the size while there is room and grows it when the index reaches it |
| `Handle.StaleCountOverruns` | src/regutils.c:501 | a count kept across two searches exceeds the rows the matrix holds |
| `Handle.DiscardRun` | src/regutils.c:470-477 | the discard loop ends where Search.Discard says |
| `Handle.FirstBad` | src/regutils.c:719-725 | the index of the first backreference above `subc`, all before it being valid |
| `Handle.FindBadBref` | src/regutils.c:719-725 | the check loop stops at the first invalid backreference |
| `Handle.CopyStrings` | src/regutils.c:577-609 | the copy of the matched strings exists exactly when its allocation succeeds, and then holds every matched text |
| `Handle.OutcomeSearched` | src/regutils.c:440-518 | a search that returned 0 compiled the pattern and left its rows, well formed, as rows 0..matc-1 |
| `Handle.OutcomeExpected` | src/regutils.c:452-512 | when every allocation succeeds the code is that of the options, the compilation or the whole search |
| `Handle.OutcomeCode` | src/regutils.c:452-512 | the search returns 0, PREG_MEMFAIL, PREG_BADMIN, PREG_BADLIMIT or a positive matcher code |
| `Handle.MatchSearched` | src/regutils.c:568-615 | what a `preg_match` with a given code tells about its search |
| `Handle.MatchPrepared` | src/regutils.c:715-725 | after `preg_match`, the backreference check leaves the rows and the first bad number, with the code `preg_replace` reaches |
| `Handle.CutSplits` | src/regutils.c:634-667 | the two allocations of `preg_split`: no table means PREG_MEMFAIL; the code is 0 exactly when the block exists |
| `Handle.BadDigit` | src/regutils.c:719-721 | the error detail is the digit of the first invalid backreference |
| `Handle.ParseTemplate` | src/regutils.c:697-704 | the template's buffer and parse: 0 with the parse of the template, or PREG_MEMFAIL |
| `Handle.Preg.Init` | src/regutils.c:224-240 | a new handle: REG_EXTENDED, no cap, no matches, the PREG_NOACTION error, no mode |
| `Handle.Preg.SetMode` | src/regutils.c:254-269 | the new mode's result is emptied, the others are kept |
| `Handle.Preg.SetOpt` | src/regutils.c:271-286 | flags are or-ed in, `min` and `limit` replaced |
| `Handle.Preg.DelOpt` | src/regutils.c:288-298 | each flag option clears bits in its own field only |
| `Handle.Preg.SetInternalError` | src/regutils.c:341-344 | the error record becomes the table entry |
| `Handle.Preg.SetExternalError` | src/regutils.c:346-361 | the matcher's message is kept with its code, or PREG_MEMFAIL when it cannot be allocated |
| `Handle.Preg.SetInterdtlErrorAsWritten` | src/regutils.c:363-385 | the detailed message is built from the message stored before the call |
| `Handle.Preg.SetInterdtlError` | src/regutils.c:363-385 | the detailed message is the table's message, ": " and the details, or PREG_MEMFAIL |
| `Handle.Preg.SetError` | src/regutils.c:320-339 | the code is dispatched by its class, the record is classed by its code, and the code returned is the one given unless the message cannot be allocated |
| `Handle.Preg.OffsetAlloc` | src/regutils.c:520-547 | the matrix grows to one row, then doubles, keeping its rows; either allocation failing leaves it unchanged |
| `Handle.Preg.StoreRow` | src/regutils.c:482-498 | the row is stored at its index, the matrix grown first when the index reached its size |
| `Handle.Preg.CollectTurn` | src/regutils.c:488-509 | one turn stores the row, moves the running offset and counts the row |
| `Handle.Preg.CollectRows` | src/regutils.c:479-510 | the loop stores the rows of Search.Collect (a prefix of them on PREG_MEMFAIL) and adds them to `matc` |
| `Handle.Preg.ClearNoSub` | src/regutils.c:449-450 | REG_NOSUB is cleared, nothing else |
| `Handle.Preg.Compile` | src/regutils.c:452-462 | 0 exactly when the options are good and the pattern compiles; then the pattern is installed with its subexpression count |
| `Handle.Preg.OffsetAsWritten` | src/regutils.c:440-518 | `preg_offset` as written: the count grows by this search's rows on top of what the previous search left |
| `Handle.Preg.Offset` | src/regutils.c:440-518 | `preg_offset` with the count reset: `matc` never exceeds the rows held, and the code and rows are those of this search alone |
| `Handle.Preg.SearchFor` | src/regutils.c:440-518 | on 0 rows 0..matc-1 are the rows of the search, inside the subject and in order; with every allocation succeeding the code is the expected one |
| `Handle.Preg.MatchSteps` | src/regutils.c:570-609 | REG_NOSUB is cleared; the search runs and, unless PREG_NOSTRINGS is set, its matched strings are copied; the code says which step stopped |
| `Handle.Preg.PregMatch` | src/regutils.c:558-616 | on 0 the rows are in the matrix and, unless PREG_NOSTRINGS, every matched string is copied; the mode is PREG_MATCH, the returned code is the recorded one, and with every allocation succeeding it is the search's code |
| `Handle.Preg.SplitSteps` | src/regutils.c:631-676 | REG_NOSUB is cleared; the search runs, then the table and block of segments are built from its whole matches |
| `Handle.Preg.PregSplit` | src/regutils.c:618-684 | on 0 the table holds the segments between the whole matches, copied into one block; the mode is PREG_SPLIT, the returned code is the recorded one, and with every allocation succeeding it is the search's code |
| `Handle.Preg.ClearNoStrings` | src/regutils.c:710-711 | PREG_NOSTRINGS is cleared, nothing else |
| `Handle.Preg.MatchFor` | src/regutils.c:715-716 | `preg_match` seen through what it tells of its search |
| `Handle.Preg.MatchCleared` | src/regutils.c:707-716 | the same with PREG_NOSTRINGS dropped first |
| `Handle.Preg.BrefSearch` | src/regutils.c:707-726 | `preg_match`, then every backreference number checked against the subexpression count |
| `Handle.Preg.ReplaceSearch` | src/regutils.c:707-729 | `preg_match` with the check when the template has backreferences, `preg_offset` otherwise |
| `Handle.Preg.ReplaceAssemble` | src/regutils.c:731-739 | on success the mode is PREG_REPLACE and `rep` holds the replaced subject |
| `Handle.Preg.ReplaceParsed` | src/regutils.c:703-739 | the search and the assembly for a parsed template |
| `Handle.Preg.ReplaceSteps` | src/regutils.c:696-739 | the template is parsed, the search and backreference check run and the result is assembled; on 0 the mode is PREG_REPLACE; with every allocation succeeding the code is the expected one |
| `Handle.Preg.PregReplace` | src/regutils.c:686-748 | on 0 `rep` holds the subject with every whole match replaced by the rendered template; on PREG_BADBREF the detail is the first bad number; unless an allocation failed the options lose REG_NOSUB, and PREG_NOSTRINGS when the template has backreferences; with every allocation succeeding the code is the expected one |

## Left out

- `regcomp`, `regexec`, `regerror` and `regfree` are foreign code: the
  matcher is an oracle that returns `nsub + 1` local pairs inside the
  suffix (or no match, or a positive error code), and `regerror` a message
  function of the code alone. What `REG_NOTBOL` means is not modelled.
- `malloc`, `calloc`, `realloc` and `free` are one oracle `canAlloc` keyed
  by the requested byte size; the pool list of `mem_init` and its own
  possible failure, `preg_free` and every release of memory are not
  modelled. The failure of `calloc` in `preg_init` is not modelled.
- The stale-table path of `preg_offset_alloc` (the matrix reallocated but
  its rows not) is not modelled: either allocation failing leaves the
  matrix as it was.
- The content of freshly carved matrix rows is a fixed blank row; the row
  width fixed at growth time is not tracked (rows are values of their own
  width), so a change of `subc` between two searches on one handle is not
  modelled.
- The union of results is three separate fields.
- The accessors (`preg_matc`, `preg_so`, `preg_getmatch`, `preg_errmsg`, …)
  are one-line field reads and have no members of their own.
- C strings are `seq<char>` without their terminator (`NulFree`);
  `size_t` overflow of the size computations is not modelled.
- The `Vector_t##_init` and `Vector_t##_free` functions (heap-allocated
  vectors) are not used by the core and are left out.
- Vector.Vec.Resize: requires the new size to hold the current entries,
  which its only caller (`append`, growing to `n * 2 + 1`) always meets.
- Vector.Vec.FreeAuto: the release of the entry storage is not modelled.
- Handle.Preg.PregMatch: the copied block is not stated to be freshly
  allocated, and `code` (what is handed to `preg_set_error`) is a ghost
  output.
- Handle.Preg.PregReplace: besides, the change of the options is stated only when
  the code is not PREG_MEMFAIL; the allocation of `nrep` and the failure of
  a vector append are both `canAlloc` outcomes, after which the options may
  or may not have been touched.
- Handle.Preg.ReplaceSteps: the exact code (ReplaceCode) is stated over the
  options after the call; Cleared links them to the options before it.
- The collection loop of `preg_offset` with a non-empty pattern that keeps
  matching the empty string at the end of the subject ends only at the
  cap; the model follows that bound rather than assuming the matcher
  advances. Its counter is an `int` compared with `(unsigned)limit`, so
  with a limit of -1 the C increments it past INT_MAX, which is undefined
  behaviour, before it reaches 4294967295; the model's counter is
  unbounded and stops at the unsigned cap.
- Escape.PregEscape: the C counts with an `unsigned int` against a
  `size_t` length, so for more than UINT_MAX bytes its loops never end;
  the model's counter is unbounded and escapes any length.
- Handle.Preg.SetError: a PREG_BADBREF goes to the corrected builder of
  the second row of "## Findings", so the message it states is the
  table's message and the details; as written the prefix is the message
  stored before the call (the matcher's message for code 0, on the one
  path that reaches it).
- Handle.Preg.SearchFor: built on the corrected Handle.Preg.Offset of the
  first row of "## Findings", which restarts `matc` at 0. As written the
  count carries over from the previous search on the same handle, so the
  contract holds for the code as written only on a handle whose `matc` is
  0, as after `preg_init`; there Handle.Preg.OffsetAsWritten states the
  same outcome.
- Handle.Preg.MatchSteps: searches through SearchFor, with its restarted count.
- Handle.Preg.PregMatch: searches through MatchSteps, with its restarted count.
- Handle.Preg.SplitSteps: searches through SearchFor, with its restarted count.
- Handle.Preg.PregSplit: searches through SplitSteps, with its restarted count.
- Handle.Preg.MatchFor: searches through PregMatch, with its restarted count.
- Handle.Preg.MatchCleared: searches through MatchFor, with its restarted count.
- Handle.Preg.BrefSearch: searches through MatchCleared, with its restarted count.
- Handle.Preg.ReplaceSearch: both branches search with the restarted count
  (through BrefSearch and SearchFor).
- Handle.Preg.ReplaceParsed: searches through ReplaceSearch, with its restarted count.
- Handle.Preg.ReplaceSteps: searches through ReplaceParsed, with its restarted count.
- Handle.Preg.PregReplace: searches through ReplaceSteps, with its
  restarted count, and records its error through Handle.Preg.SetError.
- `preg_set_error` is called twice on one path of `preg_replace` (inside
  `preg_match` and again at the end); the model records both calls but
  states only the last.
- The `va_list` plumbing of `preg_set_error`, `atoi` and `snprintf` are
  replaced by an explicit detail string, single-digit arithmetic and a
  one-digit conversion.

## Findings

| source | as written | input that shows it | evidently intended | confidence | as-written member | corrected member |
|---|---|---|---|---|---|---|
| src/regutils.c:501 | `matc` is only ever incremented and never reset before a search, so a second search on one handle adds its rows to the first one's count | a search storing 2 rows, then one storing 1 row: `matc` is 3, the matrix holds 2 rows, and the builders read row 2 | each search starts its count at 0 | not executed | `Handle.Preg.OffsetAsWritten` (exhibited by `Handle.StaleCountOverruns`) | `Handle.Preg.Offset` |
| src/regutils.c:366-370 | the prefix of the detailed message is read before the table entry is installed, so it is the previous message | `preg_replace` with a template `$2` and a one-subexpression pattern that matches: `preg_match` has stored `regerror(0)`'s message, so the detail reads that message + ": 2" ("Success: 2" with glibc) | "Invalid backreference number: 2" | not executed | `Handle.Preg.SetInterdtlErrorAsWritten` (exhibited by `Handle.StaleDetailPrefix`) | `Handle.Preg.SetInterdtlError` |
| src/regutils.c:290-294 | the PREG_CFLAGS case of `preg_delopt` has no `break` and falls into the PREG_UFLAGS case | `preg_delopt(rm, PREG_CFLAGS, REG_EXTENDED)` with PREG_NOSTRINGS set also clears PREG_NOSTRINGS | only the compile flags change | not executed | `Handle.WithoutOptAsWritten` (exhibited by `Handle.DelCFlagsClearsNoStrings`) | `Handle.Preg.DelOpt` |
