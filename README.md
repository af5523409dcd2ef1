# PDF merger: a Dafny model of its core

The application is a browser page that merges PDF files. The user adds
files, reorders them by dragging, and may give each file a page-range
expression such as `1-3,5,7-` to pick its pages. Pressing *Merge* copies
the chosen pages of every file, in queue order, into one new document,
which is then downloaded under a name taken from a text field.

This project models three parts of `script.js`, each with proofs about it:

- **the range parser** (`parsePageRange`, module `RangeParser`). The method
  `ParsePageRange` follows the source's token loop over `indices` and
  `seen`, and is proved equal to the function `PageRange`. Lemmas about
  `PageRange` state:
  - every result is a set of distinct pages of the document;
  - it equals an independent reading: each token's in-range pages, in
    order, with later duplicates dropped, or all pages when nothing is
    mentioned;
  - when the all-pages fallback happens;
  - that inserting whitespace anywhere never changes the result;
  - that malformed, out-of-range and backwards tokens behave as the source
    says;
  - what each of the four token forms yields alone.
- **the file queue** (`filesData`, class `FileQueue.Queue`). Each method
  mirrors one handler in the source and is proved to produce exactly what
  a function on the sequence of entries computes. The functions are
  `AddOne`, `AddAll`, `WithRange`, `Without` and `Reordered`. Lemmas about
  them state:
  - ids stay unique and below the counter;
  - removal drops exactly the entry carrying the id;
  - a drag-and-drop is a permutation that puts the dragged entry at the
    target's index and keeps the order of the others;
  - a batch add appends one entry per loadable PDF, with the old entries
    untouched.
- **the merge** (`mergePdfs`, module `Merge`). The method `MergePdfs` runs
  the loop over the queue and is proved to produce the outcome the function
  `MergeResult` computes. Lemmas state:
  - an empty queue does nothing;
  - a successful merge yields, for each entry in queue order, the pages its
    range selects, in the range's order;
  - the merge fails exactly when some reload or copy fails, or when saving
    fails;
  - if every file reloads with the page count it had when added and the
    library completes every copy, only saving can fail;
  - the download name always ends in `.pdf`, defaults to `merged.pdf`, and
    the naming rule is idempotent.

The PDF library (PDF-lib) is an abstract value `PdfLib.Library`. Its fields
are the three functions the merger depends on:
- `load`: bytes to a page count, or a failure;
- `copies`: whether copying the given indices out of the document loaded
  from the given bytes completes. This is consulted only when every index
  is a page; page copying (`CopyPages`) always fails for an index the
  document does not have;
- `save`: a list of pages to bytes, or a failure.

The library is a parameter of every operation that calls it. So a file that
loaded when it was added may still fail to load at merge time, and the
model covers that case.

Module layout:
- `Wrappers.dfy`: `Option`.
- `Text.dfy`:
  - the ECMAScript whitespace class;
  - digits;
  - `replace(/\s+/g, '')`, `split(',')` and `filter(Boolean)`;
  - `trim()`;
  - the lower-cased `.pdf` suffix test.
- `RangeParser.dfy`, `PdfLib.dfy`, `FileQueue.dfy`, `Merge.dfy`.

Two behaviours of the program are worth knowing:
- **Forward moves.** An entry dragged forwards lands just *after* the
  target, because `tgtIdx` is taken before the first `splice`
  (script.js:134-137). One dragged backwards lands just before it
  (`FileQueue.MovedNextToTarget`).
- **Whitespace-only name field.** Such a field is not empty, so `||` does
  not replace it with `merged.pdf`. It then trims to nothing, and the
  download is named `.pdf` (script.js:217-219, `Merge.OutputNameBlank`).

## Model

| member | source | states |
|---|---|---|
| `Text.StripSpaceLeavesNoSpace` | script.js:149 | after whitespace removal no whitespace character is left, and every character kept comes from the input |
| `Text.StripSpaceBlank` | script.js:146-149 | whitespace removal leaves nothing exactly when the input is blank, which is the condition of the early return |
| `Text.StripSpaceInsert` | script.js:149 | inserting a whitespace character anywhere does not change what whitespace removal leaves |
| `Text.StripSpaceAppend` | script.js:149 | whitespace removal distributes over concatenation |
| `Text.StripSpaceNoSpace` | script.js:149 | a string without whitespace is left unchanged |
| `Text.Split` | script.js:150 | `split(',')` yields at least one piece, none containing a comma |
| `Text.SplitNoSep` | script.js:150 | a string without a comma splits into itself alone |
| `Text.SplitJoin` | script.js:150 | splitting at a comma splits the two sides independently |
| `Text.DropEmpty` | script.js:150 | `filter(Boolean)` keeps only non-empty pieces, all taken from the input |
| `Text.DropEmptyAppend` | script.js:150 | `filter(Boolean)` distributes over concatenation |
| `Text.LeadingSpace` | script.js:146 | the length of the whitespace run that starts the string: only whitespace before it, a non-whitespace at it |
| `Text.TrailingSpace` | script.js:217 | where the trailing whitespace run begins: all whitespace after it, a non-whitespace just before it |
| `Text.Trim` | script.js:146 | `trim()` returns a slice `s[a..b]` of its input with only whitespace before `a` and after `b`; the slice has no whitespace at either end and is empty exactly when the input is blank |
| `Text.TrimUnchanged` | script.js:217 | a string without whitespace at its ends is its own trim |
| `Text.EndsWithAppended` | script.js:219 | a lower-case suffix appended to any string is a suffix of it regardless of case |
| `RangeParser.TokensAppend` | script.js:149-150 | the tokens of `a + "," + b` are the tokens of `a` followed by those of `b` |
| `RangeParser.TokensOfOne` | script.js:149-150 | a non-empty string without commas or whitespace is exactly one token |
| `RangeParser.BlankHasNoTokens` | script.js:146-150 | a blank expression has no tokens |
| `RangeParser.DashAt` | script.js:168-184 | the position of the first dash: no dash before it, a dash at it unless it is the end |
| `RangeParser.ParseSingleForm` | script.js:163-164 | a string of digits is the single-page form, read in decimal |
| `RangeParser.ParseClosedForm` | script.js:168-171 | digits, a dash and digits are the closed-range form with both numbers |
| `RangeParser.ParsePrefixForm` | script.js:178-180 | a dash followed by digits is the open-prefix form |
| `RangeParser.ParseSuffixForm` | script.js:184-186 | digits followed by a dash are the open-suffix form |
| `RangeParser.ParseTokenMalformed` | script.js:161-190 | a token with a character other than a digit or dash, with two dashes, or a lone dash matches none of the four forms |
| `RangeParser.ParsedIsTokenText` | script.js:163-189 | a token of any of the four forms consists of digits and dashes only |
| `RangeParser.SpanSnoc` | script.js:175 | one more iteration of a `p <= hi` loop offers one more index, `p - 1`, at the end |
| `RangeParser.PageRangeByTokens` | script.js:146-150 | the early return for a blank expression agrees with the token loop, so the result depends on the tokens alone |
| `RangeParser.PushAllValid` | script.js:154-159 | `pushIdx` keeps what is there as a prefix and adds only distinct pages of the document |
| `RangeParser.CollectValid` | script.js:161-191 | the token loop yields distinct pages of the document |
| `RangeParser.PageRangeValid` | script.js:145-193 | every index returned is a page of the document (`0 <= i < pageCount`) and none repeats |
| `RangeParser.DedupElems` | script.js:156 | dropping repeats keeps exactly the same elements |
| `RangeParser.DedupOfDistinct` | script.js:156 | a sequence without repeats is unchanged by dropping repeats |
| `RangeParser.InRangeOfPages` | script.js:155 | a sequence of pages of the document is unchanged by the range filter |
| `RangeParser.PushAllIsDedup` | script.js:154-159 | pushing values onto a repeat-free list is the same as appending the in-range values and dropping repeats |
| `RangeParser.FlattenAppend` | script.js:161 | concatenating token contributions distributes over splitting the token list |
| `RangeParser.FlattenEmpty` | script.js:192 | the concatenated contributions are empty exactly when every contribution is |
| `RangeParser.ContributionsAppend` | script.js:161 | per-token contributions of a split token list are those of its parts |
| `RangeParser.MentionedAppend` | script.js:161 | the mentioned pages of a split token list are those of its two parts, in order |
| `RangeParser.MentionedSnoc` | script.js:161-191 | one more token adds its contribution at the end of the mentioned pages |
| `RangeParser.MentionedEmpty` | script.js:192 | no page is mentioned exactly when no token contributes a page |
| `RangeParser.CollectIsDedup` | script.js:151-191 | the token loop's `indices` are the pages the tokens mention, in token order, with later repeats dropped |
| `RangeParser.PageRangeMeaning` | script.js:145-193 | `parsePageRange` returns the mentioned pages without repeats, or every page `0..pageCount-1` when none is mentioned |
| `RangeParser.FallbackExactly` | script.js:192 | the loop collects nothing exactly when no token mentions a page, and the result is then every page; otherwise it is what the loop collected |
| `RangeParser.SpaceInsensitive` | script.js:149 | inserting whitespace anywhere in the expression never changes the result |
| `RangeParser.IgnoredTokens` | script.js:190 | trailing tokens that mention no page of the document change nothing |
| `RangeParser.SingleOutOfRangeIgnored` | script.js:163-165 | a page number `0` or above `pageCount` is dropped by `pushIdx` and changes nothing |
| `RangeParser.MalformedIgnored` | script.js:190 | a token of none of the four forms is silently ignored |
| `RangeParser.LoneToken` | script.js:161-192 | an expression with one token yields what that token pushes, or every page if it pushes nothing |
| `RangeParser.SpanPushed` | script.js:175 | a span already clamped into the document pushes exactly its pages, ascending |
| `RangeParser.SpanIsInterval` | script.js:175 | a non-empty span offers the consecutive zero-based indices `lo-1 .. hi-1`, without repeats |
| `RangeParser.LoneSpan` | script.js:175-187 | a lone token whose candidates form a clamped span yields that span, or every page when it is empty |
| `RangeParser.LoneSingle` | script.js:163-165 | `N` alone yields page `N-1` when `1 <= N <= pageCount`, otherwise every page |
| `RangeParser.LoneClosed` | script.js:168-176 | `A-B` alone is put in order, clamped to `1..pageCount`, and yields that range ascending, or every page if the clamped range is empty |
| `RangeParser.LoneClosedInside` | script.js:168-176 | `A-B` with `1 <= A <= B <= pageCount` yields exactly pages `A-1 .. B-1` |
| `RangeParser.SameCandidatesSameResult` | script.js:161-191 | two tokens that offer `pushIdx` the same values are interchangeable at the end of any expression |
| `RangeParser.CollectSameAfter` | script.js:161-191 | two token lists that collect the same indices still do after the same tokens follow both |
| `RangeParser.CollectSameCandidates` | script.js:161-191 | two tokens offering `pushIdx` the same values collect the same indices at any position of the token list |
| `RangeParser.SameCandidatesAnywhere` | script.js:161-191 | two tokens offering `pushIdx` the same values are interchangeable at any position of an expression |
| `RangeParser.ClosedSwapped` | script.js:172 | a backwards range `B-A` offers the same values as `A-B`, so it means the same at the end of an expression or anywhere inside one |
| `RangeParser.LonePrefix` | script.js:178-182 | `-B` alone yields pages `0 .. min(B, pageCount)-1`, or every page if that is empty |
| `RangeParser.LoneSuffix` | script.js:184-188 | `A-` alone yields pages `max(A,1)-1 .. pageCount-1`, or every page if that is empty |
| `RangeParser.PushIdx` | script.js:154-159 | `pushIdx` drops an index that is out of range or already seen and appends any other, keeping `seen` the set of `indices` |
| `RangeParser.PushSpan` | script.js:175 | the `for (p = lo; p <= hi; p++) pushIdx(p - 1)` loop pushes the span `lo..hi` in order, keeping `seen` in step |
| `RangeParser.PushToken` | script.js:162-190 | one pass of the token loop pushes exactly the candidates of the token's form: swapped and clamped for `A-B`, clamped for `-B` and `A-`, none for a malformed token |
| `RangeParser.ParsePageRange` | script.js:145-193 | the loop over `indices` and `seen`, with the blank-input and empty-result fallbacks, returns `PageRange`, a list of distinct pages of the document |
| `FileQueue.PickPdfsMembers` | script.js:31-32 | a file is picked exactly when it is present in the list and its type is `application/pdf` or its name ends in `.pdf`, in any case |
| `FileQueue.PickPdfsAppend` | script.js:31-32 | picking keeps the files in their given order |
| `FileQueue.PdfByType` | script.js:32 | a file whose MIME type is `application/pdf` is accepted whatever its name |
| `FileQueue.PdfByName` | script.js:32 | a file whose name ends in any four characters that lowercase to `.pdf` is accepted whatever its type |
| `FileQueue.NotPdf` | script.js:32 | a file of any other MIME type is refused when its name is shorter than four characters or does not end in `f` or `F` |
| `FileQueue.FindIndex` | script.js:133-134 | `findIndex` returns the first position holding the id, or -1 exactly when no entry has it |
| `FileQueue.FindIndexUnique` | script.js:133-134 | when ids are unique, `findIndex` finds the one position holding the id |
| `FileQueue.AddOneMeaning` | script.js:43-53 | a successful `addFile` appends one entry at the end, with a fresh id, the loaded page count and an empty range, and keeps ids unique; a failed one changes nothing |
| `FileQueue.AddAllMeaning` | script.js:36-38 | adding a batch keeps the queue valid, leaves the old entries in front, and appends, in order, one entry per file the library loads: the `k`-th such file becomes an entry with id `counter + k`, its name, its bytes, the page count the library reports and an empty range; the counter advances by the number loaded |
| `FileQueue.WithRangeMeaning` | script.js:90-92 | editing a range changes that entry's range text only: no other entry and no other field, with ids still unique |
| `FileQueue.WithoutMembers` | script.js:103 | an entry survives removal exactly when it was queued and has a different id |
| `FileQueue.WithoutAbsent` | script.js:103 | removing an id no entry has leaves the queue unchanged |
| `FileQueue.WithoutAppend` | script.js:103 | the filter distributes over concatenation |
| `FileQueue.WithoutPresent` | script.js:103 | when ids are unique, removing the id at position `k` removes exactly that entry; the others keep their order |
| `FileQueue.WithoutSplice` | script.js:103 | removing the id carried by only one entry leaves the entries on either side of it, joined |
| `FileQueue.WithoutValid` | script.js:103 | removal keeps ids unique and below the counter, and no entry with the removed id is left |
| `FileQueue.MovedAt` | script.js:136-137 | the two splices move position `MovedFrom(i, j, k)` to position `k`, and the length is unchanged |
| `FileQueue.MovedPermutation` | script.js:136-137 | the two splices only rearrange: the queue holds the same entries |
| `FileQueue.MovedLands` | script.js:137 | the dragged entry lands at the target's original index |
| `FileQueue.MovedKeepsOthers` | script.js:136-137 | apart from the dragged entry, all entries keep their relative order |
| `FileQueue.MovedNextToTarget` | script.js:133-137 | dragged backwards, the entry lands just before the target; dragged forwards, just after it |
| `FileQueue.MovedValid` | script.js:136-137 | a move keeps ids unique and introduces no new id |
| `FileQueue.ReorderedNoOp` | script.js:132-135 | with no source id, the same id for source and target, or either id missing from the queue, the drop leaves the queue unchanged |
| `FileQueue.ReorderedMeaning` | script.js:128-139 | dropping a queued entry on another is a permutation that puts the source at the target's index and keeps the order of the rest, and the queue stays valid |
| `FileQueue.ReorderedValid` | script.js:128-139 | every drop keeps the queue valid |
| `FileQueue.Queue.constructor` | script.js:15-17 | the queue starts empty with the counter at zero |
| `FileQueue.Queue.GenerateId` | script.js:27 | returns the current counter, which no queued entry carries, and advances the counter by one |
| `FileQueue.Queue.AddFile` | script.js:43-53 | `addFile` pushes the entry exactly when loading succeeds, as `AddOne` says, and keeps the queue valid |
| `FileQueue.Queue.HandleFiles` | script.js:30-41 | `handleFiles` picks the PDFs and adds them one by one in order, as `AddAll` says, keeping the queue valid |
| `FileQueue.Queue.SetRange` | script.js:90-92 | the range handler updates the queue as `WithRange` says and keeps the counter |
| `FileQueue.Queue.Remove` | script.js:102-105 | the Remove button updates the queue as `Without` says and keeps the counter |
| `FileQueue.Queue.Reorder` | script.js:128-139 | the drop handler's guards and two splices update the queue as `Reordered` says, and keep the counter and the queue's validity |
| `FileQueue.Queue.Clear` | script.js:264-268 | the Clear button empties the queue and keeps the counter, so no id is ever reused |
| `Merge.WithPdfShape` | script.js:219 | the suffix rule always gives a name ending in `.pdf`; applied to a name without whitespace at its ends, it gives a non-empty name without whitespace at its ends |
| `Merge.OutputNameEndsInPdf` | script.js:217-219 | the download name always ends in `.pdf`, compared without regard to case |
| `Merge.OutputNameFixed` | script.js:217-219 | a name without whitespace at its ends that ends in `.pdf` is its own download name |
| `Merge.OutputNameDefault` | script.js:217-219 | an empty field gives `merged.pdf` |
| `Merge.DefaultTrimmed` | script.js:217 | the default name has nothing to trim |
| `Merge.DefaultEndsInPdf` | script.js:219 | the default name gets no second suffix |
| `Merge.OutputNameKeepsPdf` | script.js:217-219 | a non-empty field that, once trimmed, ends in `.pdf` in any case is used as trimmed |
| `Merge.OutputNameAddsPdf` | script.js:217-219 | any other non-empty field is trimmed and gets `.pdf` appended |
| `Merge.OutputNameBlank` | script.js:217-219 | a field of whitespace only bypasses the default and yields `.pdf` |
| `Merge.OutputNameIdempotent` | script.js:217-219 | putting a download name back into the field gives the same name |
| `Merge.StepMeaning` | script.js:206-208 | one pass succeeds exactly when the bytes load into a document that has every selected index and the library completes the copy; it then yields the entry's pages, in the range's order |
| `Merge.AssembleMeaning` | script.js:203-210 | the loop gets through the queue exactly when every pass succeeds, and then holds the merged pages |
| `Merge.AssembleSnoc` | script.js:203-210 | the loop over `i + 1` entries is the loop over `i` entries followed by one more pass |
| `Merge.AssembleFailsOnPrefix` | script.js:200-210 | once a pass fails, the whole merge fails: the `try` block is left |
| `Merge.MergeNoOpExactly` | script.js:196 | an empty queue is the only case in which Merge does nothing |
| `Merge.MergeMeaning` | script.js:195-219 | a merge succeeds exactly when every pass and the save succeed; the output is then each entry's selected pages in queue order, the saved bytes, and the name from the naming rule |
| `Merge.MergeOfReloadable` | script.js:203-213 | if every file reloads with its add-time page count, every selected index is a page; then, when the library does not throw while copying, only saving can make the merge fail |
| `Merge.MergedPagesPrefix` | script.js:203-209 | the pages of the first `n` entries begin the output |
| `Merge.MergedPagesAt` | script.js:203-209 | entry `p`'s pages come right after those of the entries before it |
| `Merge.MergedPagesMembers` | script.js:207-209 | a page is in the output exactly when its entry is queued and that entry's range selects it |
| `Merge.MergedPagesInQueueOrder` | script.js:203-209 | no page of a later entry comes before a page of an earlier one, and every page comes from a queued entry |
| `Merge.AddPages` | script.js:209 | `addPage` for each copied page appends them to the output, in order |
| `Merge.AddEntry` | script.js:204-209 | one loop body (reload, resolve the range, copy, add) succeeds exactly when the pass does, and then appends its pages |
| `Merge.MergePdfs` | script.js:195-219 | `mergePdfs` reads the queue without changing it and produces the outcome `MergeResult` describes |
| `Text.IsSpace` | script.js:146-149 | definition, no contract: the ECMAScript WhiteSpace and LineTerminator code points, the class that `\s` and `trim()` share (also at script.js:217) |
| `Text.IsBlank` | script.js:146 | definition, no contract: every character is whitespace, the test `!String(input).trim()` the early return makes |
| `Text.IsDigits` | script.js:163 | definition, no contract: the regular expression `^\d+$` |
| `Text.ToLowerAscii` | script.js:32 | definition, no contract: `toLowerCase` on one character, for the ASCII letters (also at script.js:219) |
| `Text.StripSpace` | script.js:149 | definition, no contract: `replace(/\s+/g, '')`, removing every whitespace character |
| `Text.DigitsValue` | script.js:164 | definition, no contract: `Number` of a string of digits, in decimal |
| `Text.EndsWithIgnoringCase` | script.js:32 | definition, no contract: `toLowerCase().endsWith(suffix)` for a lower-case suffix |
| `RangeParser.Tokens` | script.js:149-150 | definition, no contract: strip whitespace, split at commas, drop empty pieces |
| `RangeParser.ParseToken` | script.js:163-189 | definition, no contract: the four regular expressions, tried in the source's order |
| `RangeParser.Candidates` | script.js:164-187 | definition, no contract: the values each token form passes to `pushIdx`, after the swap and the clamping |
| `RangeParser.Push` | script.js:154-159 | definition, no contract: `pushIdx` on the list of indices |
| `RangeParser.PushAll` | script.js:175-187 | definition, no contract: `pushIdx` applied to each value in turn |
| `RangeParser.Collect` | script.js:161-191 | definition, no contract: the `indices` after the token loop |
| `RangeParser.AllPages` | script.js:147 | definition, no contract: `Array.from({ length: pageCount }, (_, i) => i)` |
| `RangeParser.Span` | script.js:175 | definition, no contract: the values a `for (p = lo; p <= hi; p++) pushIdx(p - 1)` loop offers |
| `RangeParser.Resolve` | script.js:192 | definition, no contract: what the token loop collects, or every page when that is nothing |
| `RangeParser.PageRange` | script.js:145-193 | definition, no contract: `parsePageRange` with its two fallbacks |
| `FileQueue.IsPdf` | script.js:32 | definition, no contract: the MIME type or the lower-cased name suffix test |
| `FileQueue.PickPdfs` | script.js:31-32 | definition, no contract: the present files that pass the test, in order |
| `FileQueue.AddOne` | script.js:43-53 | definition, no contract: `addFile` on the queue as a value |
| `FileQueue.AddAll` | script.js:36-38 | definition, no contract: `addFile` for each picked file in turn |
| `FileQueue.Loaded` | script.js:36-48 | definition, no contract: the files the library loads, in order |
| `FileQueue.WithRange` | script.js:91 | definition, no contract: the range text of the entry with that id replaced |
| `FileQueue.Without` | script.js:103 | definition, no contract: `filter(f => f.id !== id)` |
| `FileQueue.RemoveAt` | script.js:136 | definition, no contract: `splice(i, 1)` |
| `FileQueue.Moved` | script.js:136-137 | definition, no contract: the two splices |
| `FileQueue.Reordered` | script.js:128-139 | definition, no contract: the drop handler's guards and splices on the queue as a value |
| `PdfLib.CopyPages` | script.js:208 | definition, no contract: `copyPages`, failing on an index that is not a page or when the library throws |
| `Merge.FieldOrDefault` | script.js:217 | definition, no contract: the field's text, or `merged.pdf` when it is empty |
| `Merge.WithPdf` | script.js:219 | definition, no contract: the `.pdf` suffix rule |
| `Merge.OutputName` | script.js:217-219 | definition, no contract: the download name for the field's text |
| `Merge.EntryIndices` | script.js:207 | definition, no contract: `parsePageRange(entry.rangeStr, entry.pageCount)` |
| `Merge.EntryPages` | script.js:207-209 | definition, no contract: the pages an entry contributes, in the order of its indices |
| `Merge.MergedPages` | script.js:203-210 | definition, no contract: each entry's pages, in queue order |
| `Merge.Step` | script.js:206-209 | definition, no contract: one pass of the merge loop |
| `Merge.Assemble` | script.js:203-210 | definition, no contract: the merge loop over the queue |
| `Merge.MergeResult` | script.js:195-219 | definition, no contract: the outcome of `mergePdfs` |

## Left out

- Rendering of the list, the empty-state and button states, the status line, and console messages: user-interface output with no effect on the queue (script.js:19-25, 56-142 apart from the handlers modelled above).
- Event wiring: the file input, the drop zone and the keyboard shortcut all end in `handleFiles`, which is modelled. Turning `DataTransfer` items into files is not modelled; a missing item is `None`.
- Drag source: `dragSrcId` and `dataTransfer.getData` are not modelled. The drop handler takes the resulting source id as an `Option`, where `None` stands for a falsy id.
- Concurrency: every `await` is a sequential step. The model does not cover the queue changing while a handler waits on the library, for example an entry removed during a merge.
- FileQueue.Queue.GenerateId: the id is the counter alone. The `Date.now()` prefix is a clock reading, and uniqueness rests on the counter anyway.
- Numbers are unbounded. JavaScript's `Number` rounds a digit string at or above 2^53, and gives `Infinity` beyond about 10^308. Rounding keeps the order of values, and any rounded value still exceeds every page count, so `parsePageRange` returns the same indices.
- `toLowerCase`: modelled for ASCII only. No other character lowercases to `.`, `p`, `d` or `f`, so the `.pdf` suffix test is exact.
- FileQueue.Queue.SetRange: the source writes the range into the entry object its handler captured. The model finds the entry by id. They agree while ids are unique, which the queue invariant guarantees.
- The PDF library: an abstract `Library` value. Encryption handling (`ignoreEncryption`) and document creation are not modelled. `copyPages` is taken to throw on every index the document does not have; any other throw is the `copies` field answering false.
- Download: the `Blob`, the object URL and the anchor click are the browser's I/O. The model returns the saved bytes and the file name instead.
- `file.arrayBuffer()` is taken as the file's bytes, given up front. A failure to read the file is a load failure of `AddFile`.
- A `null` or missing file list given to `handleFiles` is modelled as an empty one.
