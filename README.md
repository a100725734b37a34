# Ingestion pipeline of RediSearchBenchmark, modelled in Dafny

Package `ingest` of the RediSearch benchmark feeds documents into an index. It has four sequential pieces of logic, and this project models each of them:

- **`walkDir`** finds the input files. It walks a directory tree depth-first and sends the full path of every non-directory entry whose base name matches a glob. It panics on an unreadable directory or a bad pattern.
- **`ReadDir`** has two accounting stages.
  - The indexing workers call `idx.Index` for every document with a non-empty `Id` and report one latency per call.
  - The `Stats` loop counts those latencies. When the 200ms window is over, it publishes a snapshot: the running document count, the window's count, and the window's latency sum divided by one more than its count. It then resets the window.
- **`ReadFile`** runs a per-document loop. For each document it:
  - records a lower-cased title suggestion into a buffer of `2 * chunk` slots, with a cursor that wraps at `chunk`;
  - replaces a zero score with `0.0000001`;
  - counts the bytes of string-valued properties (`dt`, `totalDt`);
  - forwards the document to the indexing workers;
  - resets `n` and `dt` every `chunk` documents.
- **`ngrams`** slides a window of `size` words over a text and adds `size` to the counter of each window's gram, in `uint32` arithmetic.

Each piece is a method written in the same form as the Go code: loops, counters and early exits where Go panics. Each method is proved against a specification function. Properties are stated as lemmas about those functions.

The modules are:

- `GoInt`: Go's fixed-width integers: `uint32` wrap-around, `int64` wrap-around, and division truncated toward zero.
- `Index`: the `index.Document`, property value and `index.Suggestion` types.
- `Walk`: `walkDir`.
- `ReadDir`: the worker filter and the `Stats` loop.
- `ReadFile`: the `ReadFile` loop, with `terms` as an `array`.
- `Ngrams`: `ngrams`.

## How the environment is modelled

The model never reads a file, a clock or a channel. Each of those becomes a parameter:

- **Directory tree.** The tree is a datatype. An unreadable directory is `Unreadable`; a readable one lists its entries in order.
- **`filepath.Match`.** A function parameter returning `Matched(bool)` or `BadPattern`.
- **Window timer.** `time.Since(st) > 200*time.Millisecond` is an oracle sequence: `elapsed[j]` answers it for the `j`-th latency.
- **Index call durations.** The duration of each `idx.Index` call is an input sequence `measured`.
- **Reader output.** The documents the reader delivers on `ch` are an input sequence. Whether an autocompleter was passed is a boolean, `hasAc`.
- **Panics.** A Go panic is a `panicked` result. The counters, buffers and outputs built up to the moment of the panic are returned with it. Work that other goroutines would still do after the panic is not reported.

## Model

| member | source | states |
|---|---|---|
| GoInt.ToUint32 | ingest/ingest.go:71 | `uint32(size)` keeps the value when it fits and otherwise differs from it by a multiple of 2^32 |
| GoInt.AddUint32 | ingest/ingest.go:71 | `+=` on a `uint32` counter is the plain sum below 2^32 and the sum minus 2^32 above |
| GoInt.Wrap64 | ingest/ingest.go:154 | an `int64` (`time.Duration`) result is exact when it fits and congruent modulo 2^64 otherwise |
| GoInt.Quo | ingest/ingest.go:63 | Go's integer division by a positive divisor truncates toward zero: for a non-negative dividend `r * b <= a < r * b + b`, for a negative one `r * b - b < a <= r * b`; the quotient lies between 0 and the dividend, and equals Euclidean division for a non-negative dividend |
| GoInt.Add64 | ingest/ingest.go:154 | `totalLatency += rtt` on `time.Duration`: the exact sum when it fits in `int64`, and otherwise a value congruent to it modulo 2^64 |
| GoInt.Wrap64Add | ingest/ingest.go:154 | adding `int64` values one by one with wrap-around is wrapping their full sum once |
| Ngrams.Ngrams | ingest/ingest.go:61-74 | panics exactly when `size < 0` and there are words, and then leaves the map unchanged; otherwise the map is the in-order fold of all windows; each key gains `size` per window whose words join to it, modulo 2^32, present exactly when it was before or is a window's gram; with `size > len(words)` the map is unchanged |
| Ngrams.NgramsCount | ingest/ingest.go:66-71 | the fold of `count[gram] += uint32(size)` over the windows gives, for every key, its old value plus `size` times the number of window starts whose gram it is, modulo 2^32, and the key set grows by exactly the window grams |
| Ngrams.NgramsFrame | ingest/ingest.go:65-71 | a key that is no window's gram is present afterwards exactly when it was before, with the same value |
| Ngrams.Get | ingest/ingest.go:71 | reading `count[gram]` for a missing key gives 0, which `+=` then adds to |
| Ngrams.Join | ingest/ingest.go:70 | `strings.Join` of no words is the empty string, and of one word is that word |
| Ngrams.JoinAffixes | ingest/ingest.go:70 | joined words start with the first word and end with the last; with several words the separator follows the first word |
| Ngrams.WindowCount | ingest/ingest.go:66-69 | the number of windows the loop uses: one per word when `size == 0`; otherwise the last window counted fits within the words and one more would not |
| Ngrams.Gram | ingest/ingest.go:70 | the gram of the window starting at word `j`: empty when `size == 0`, the word itself when `size == 1` |
| Ngrams.Grams | ingest/ingest.go:66-70 | one gram per window the loop uses |
| Ngrams.GramsUpToAt | ingest/ingest.go:66-70 | the `j`-th gram is that of the window starting at word `j` |
| Ngrams.AddAll | ingest/ingest.go:71 | after `count[gram] += uint32(size)` for each gram in turn, the last gram is a key; with no grams the map is unchanged |
| Ngrams.AddAllLast | ingest/ingest.go:71 | the last addition of the fold moves the key's counter from `c + o * inc` to `c + (o + 1) * inc` modulo 2^32 when it is that key's gram, and leaves it alone otherwise |
| Ngrams.StartsBelowMembers | ingest/ingest.go:66-70 | a start `j` is listed for gram `g` exactly when the window at `j` is in range and its words joined with a space are `g` |
| Ngrams.AddAllKeys | ingest/ingest.go:71 | folding the additions keeps the old keys and adds exactly the grams met |
| Ngrams.AddAllAt | ingest/ingest.go:71 | folding the additions adds `inc` once per occurrence of the key, modulo 2^32 |
| Ngrams.OccurrencesAreStarts | ingest/ingest.go:66-70 | the number of occurrences of a gram among the first `k` windows is the number of their starts whose gram it is |
| Ngrams.GramsUpToAreStarts | ingest/ingest.go:66-70 | a gram is among the first `k` windows exactly when one of their starts has it |
| Ngrams.AddAllNext | ingest/ingest.go:70-71 | the loop's next window is in range and its update extends the fold by one gram |
| Ngrams.VisitedStep | ingest/ingest.go:66-69 | an index the guard skips leaves the window count alone; a used index `i` is the start `i - offset` of the next window, and the count never exceeds the number of windows |
| Ngrams.Visited | ingest/ingest.go:66-69 | the number of windows the guard has let through before index `i`: at most one per index, and no more than the windows there are |
| Ngrams.GramsUpTo | ingest/ingest.go:66-70 | the grams of the first `k` windows, one per window |
| Walk.WalkDir | ingest/ingest.go:24-51 | what the walk sends and whether it panics equal the recursive specification `WalkListing`: unreadable directory panics; subdirectories walked in place; matching files emitted as `Join(path, name)`; a bad pattern panics |
| Walk.JoinPath | ingest/ingest.go:34 | `filepath.Join(path, name)` is a path below `path` that ends in `name` |
| Walk.WalkListing | ingest/ingest.go:24-51 | the walk of a directory: an unreadable one panics, and every path sent lies below the directory |
| Walk.WalkEntry | ingest/ingest.go:33-48 | the walk of one entry: a file sends nothing or its own joined path; every path sent lies below the directory |
| Walk.WalkEntries | ingest/ingest.go:33-50 | the walk of a listing: no entries send nothing and do not panic; every path sent lies below the directory |
| Walk.WalkEntriesAppend | ingest/ingest.go:33-38 | depth-first order: walking `a + b` walks all of `a`, subdirectories included, before anything of `b`, and never reaches `b` if `a` panics |
| Walk.WalkIsScan | ingest/ingest.go:24-51 | the recursive walk equals a linear scan of the depth-first event stream (files reached, directories that cannot be read) that emits matching files and stops at the first failure |
| Walk.WalkEntryIsScan | ingest/ingest.go:34-48 | one entry: a subdirectory is its own walk, a file is one event of the scan |
| Walk.WalkEntriesIsScan | ingest/ingest.go:34-50 | a listing's walk is the scan of the concatenated events of its entries |
| Walk.ScanAppend | ingest/ingest.go:34-50 | the scan of a concatenation scans the second part only when the first did not fail |
| Walk.MatchingPathsAppend | ingest/ingest.go:40-45 | the emitted paths of a concatenation are those of its parts, in order |
| Walk.PrefixAppend | ingest/ingest.go:26-48 | the first failure in a concatenation is that of the first part if it has one |
| Walk.PrefixBeforeFailure | ingest/ingest.go:26-48 | the events before the first failure contain no failure, and the one at the returned position is a failure |
| Walk.WalkEmitsMatchingFiles | ingest/ingest.go:24-51 | the walk emits exactly the joined paths of the matching non-directory entries met before the first failure; it panics exactly when some event fails; the matcher sees the base name; directories are never emitted |
| Walk.MatchingPathsSound | ingest/ingest.go:40-45 | every emitted path is `Join(dir, name)` of a reached non-directory entry whose base name matched |
| Walk.BadPatternFailsAtFirstFile | ingest/ingest.go:40-47 | with a pattern that is bad for every name, nothing is emitted and the walk panics exactly when the tree reaches a non-directory entry or an unreadable directory |
| Walk.AfterAfter | ingest/ingest.go:33-48 | emitting in two parts before the rest is emitting their concatenation |
| Walk.WalkEntriesFrom | ingest/ingest.go:33-48 | the walk of the entries from index `i` is entry `i` followed, unless it panicked, by the rest |
| ReadDir.IndexWorker | ingest/ingest.go:93-99 | the index calls are the documents with a non-empty `Id`, in order; there is exactly one latency per call, `measured` at that document's position; no call for an empty `Id` |
| ReadDir.Indexable | ingest/ingest.go:93-97 | the documents handed to `idx.Index` are no more than those received, and each has a non-empty `Id` |
| ReadDir.IndexStep | ingest/ingest.go:93-99 | one document handled by a worker extends the calls, the latencies and their positions by one exactly when its `Id` is set |
| ReadDir.IndexDone | ingest/ingest.go:93-99 | once every document is handled, the `k`-th call is the document at the `k`-th position, with the latency measured there |
| ReadDir.Positions | ingest/ingest.go:93-94 | the positions of indexed documents are in range and no more than the documents |
| ReadDir.PositionsMembers | ingest/ingest.go:94 | a position is listed exactly when its document has a non-empty `Id` |
| ReadDir.PositionsIncreasing | ingest/ingest.go:93-94 | positions are strictly increasing, so no document is indexed twice |
| ReadDir.IndexableAtPositions | ingest/ingest.go:93-97 | the indexed documents are the documents at those positions, one each |
| ReadDir.PositionsNext | ingest/ingest.go:93-99 | one more document extends the indexed documents and positions by itself when its `Id` is set, and by nothing otherwise |
| ReadDir.EmitSteps | ingest/ingest.go:156 | the steps at which the window is over are steps of the stream |
| ReadDir.EmitStepsIncreasing | ingest/ingest.go:151-156 | those steps come in increasing order |
| ReadDir.ReportsOf | ingest/ingest.go:156-164 | one snapshot per closed window |
| ReadDir.Stats | ingest/ingest.go:53-59 | the `Stats` struct with `TotalDocs`, `CurrentWindowDocs` and `CurrentWindowLatency`; the duration and rate fields are dropped |
| ReadDir.Snapshot | ingest/ingest.go:152-159 | the snapshot of a window ending at step `end`: `TotalDocs == end + 1`, `CurrentWindowDocs` is the window's length, and `CurrentWindowLatency` is the window's `int64` latency sum divided by one more than that length, truncated toward zero |
| ReadDir.ReportsOfAt | ingest/ingest.go:156-164 | the `k`-th snapshot is that of the `k`-th window |
| ReadDir.ReportsOfSnoc | ingest/ingest.go:156-167 | closing a window appends its snapshot, and the next window starts after it |
| ReadDir.WindowDocsSumSnoc | ingest/ingest.go:153-166 | a new snapshot adds its window count to the sum of window counts |
| ReadDir.ReportsOfWindows | ingest/ingest.go:151-168 | for increasing window ends, every window lies within the stream and its snapshot is `Snapshot` of its steps |
| ReadDir.Start | ingest/ingest.go:141-150 | the initial `stt` and `totalLatency` describe zero latencies received |
| ReadDir.Receive | ingest/ingest.go:151-156 | receiving a latency adds it to the window's `int64` sum and extends the window ends by this step exactly when the window is over |
| ReadDir.StepQuiet | ingest/ingest.go:151-155 | a latency before the window is over only counts: `TotalDocs` and `CurrentWindowDocs` grow by one, the sum grows by it |
| ReadDir.StepEmit | ingest/ingest.go:151-168 | a latency after the window is over closes the window: snapshot with `CurrentWindowLatency == totalLatency / (1 + CurrentWindowDocs)`, sent iff `stats != nil`, then `CurrentWindowDocs` and `totalLatency` reset to 0 |
| ReadDir.EmitCounted | ingest/ingest.go:152-167 | after an emission the new window starts at the next step with no documents and no latency |
| ReadDir.EmitSnapshot | ingest/ingest.go:152-159 | the snapshot of a window counts all latencies so far, the window's own, and its truncated average over one more than its count |
| ReadDir.HandleLatency | ingest/ingest.go:151-169 | one turn of the loop keeps the loop state: counts, open window, snapshots taken and sent |
| ReadDir.Finish | ingest/ingest.go:151-170 | after the last latency the state describes every window |
| ReadDir.CloseWindows | ingest/ingest.go:151-170 | the final state in terms of the window ends alone |
| ReadDir.StatsLoop | ingest/ingest.go:141-170 | after `k` latencies `TotalDocs == k`; one snapshot per closed window as `Snapshot`; the open window's count and `int64` latency sum; closed window counts plus the open one sum to `TotalDocs`; exactly the snapshots are sent when `stats != nil`, none otherwise |
| ReadDir.ReportedShape | ingest/ingest.go:152-166 | every snapshot has `CurrentWindowDocs >= 1`, `TotalDocs` strictly increases across snapshots and never exceeds the latencies received |
| ReadDir.Accounting | ingest/ingest.go:89-170 | fed by the workers, the final `TotalDocs` is the number of documents with a non-empty `Id`; it is the sum of the reported window counts plus the open window; every snapshot holds at least one document and at most that many in total |
| ReadFile.ToLower | ingest/ingest.go:228 | the lower-cased title has the same length, no upper-case ASCII letter, and every other character unchanged |
| ReadFile.ToLowerIdempotent | ingest/ingest.go:228 | lower-casing twice is lower-casing once |
| ReadFile.LowerChar | ingest/ingest.go:228 | one lower-cased character is never an upper-case ASCII letter: such a letter becomes its lower-case letter, and every other character is kept |
| ReadFile.Contribution | ingest/ingest.go:250-256 | what one property adds to `dt`: nothing unless the value is a string, then at least the lengths of the key and of the value, zero only when both are empty |
| ReadFile.PropBytes | ingest/ingest.go:250-256 | what a document adds to `dt`: at least the contribution of each of its properties |
| ReadFile.PropBytesRemove | ingest/ingest.go:250-256 | the property byte count does not depend on the order the map is walked in |
| ReadFile.PropBytesNoStrings | ingest/ingest.go:251-254 | non-string values contribute nothing |
| ReadFile.BytesOfConcat | ingest/ingest.go:253-254 | the bytes of two stretches of documents add up |
| ReadFile.BytesOfSnoc | ingest/ingest.go:253-254 | one more document adds its property bytes to a stretch |
| ReadFile.AddPropertyBytes | ingest/ingest.go:250-256 | `dt` and `totalDt` each grow by `len(s) + len(k)` summed over the string-valued properties |
| ReadFile.SuggestionsFromEligible | ingest/ingest.go:218-230 | suggestions are recorded only for documents with a positive score while an autocompleter is set; each is the lower-cased title with the same positive score; none without an autocompleter; at most one per document |
| ReadFile.Eligible | ingest/ingest.go:218-228 | a document whose suggestion is recorded has a string `title`, and its suggestion has a positive score |
| ReadFile.Panics | ingest/ingest.go:218-228 | the title type assertion panics exactly on a document with a positive score, while an autocompleter is set, that is not eligible |
| ReadFile.SuggestionFor | ingest/ingest.go:227-230 | the suggestion keeps the document's score and the title's length, and has no upper-case ASCII letter |
| ReadFile.Suggestions | ingest/ingest.go:218-231 | at most one suggestion per document, and none without an autocompleter |
| ReadFile.Fix | ingest/ingest.go:246-248 | the forwarded document keeps its `Id` and properties, never has score 0, and keeps any non-zero score |
| ReadFile.FixAll | ingest/ingest.go:246-260 | one forwarded document per input document |
| ReadFile.FixAllAt | ingest/ingest.go:246-260 | forwarding keeps order, `Id` and properties, changes only a score of exactly 0 to 0.0000001, and never forwards score 0 |
| ReadFile.FirstPanic | ingest/ingest.go:218-228 | the number of documents handled, at most all, and the document after them panics the title type assertion |
| ReadFile.FirstPanicIsFirst | ingest/ingest.go:218-228 | no earlier document panics |
| ReadFile.Rem | ingest/ingest.go:231-243 | the cursor after `x` writes is below `chunk` |
| ReadFile.RemNext | ingest/ingest.go:231-243 | `nterms++` then reset at `chunk` moves the cursor to the next slot, or back to 0 from the last |
| ReadFile.RemIsMod | ingest/ingest.go:270 | the wrapped cursor is Go's `x % chunk` |
| ReadFile.Buffer | ingest/ingest.go:192 | `terms` has `chunk * 2` slots |
| ReadFile.BufferUnwritten | ingest/ingest.go:192-243 | the upper `chunk` slots are never written and keep the zero value, as does every slot not yet reached |
| Index.ZeroSuggestion | ingest/ingest.go:192 | the zero `index.Suggestion` that `make` puts in every slot of `terms`: an empty term with score 0 |
| ReadFile.BufferLatest | ingest/ingest.go:227-243 | each of the last `chunk` suggestions is in the buffer at slot `t % chunk` |
| ReadFile.BufferNext | ingest/ingest.go:227-230 | writing a suggestion puts it at the cursor |
| ReadFile.PanickedFirst | ingest/ingest.go:218-228 | a panicking document reached by the loop is the first panicking one |
| ReadFile.ForwardStep | ingest/ingest.go:246-260 | forwarding the fixed document extends the forwarded documents by one, in order |
| ReadFile.RecordStep | ingest/ingest.go:218-243 | recording the suggestion, if any, keeps the suggestions and the cursor in step with the documents handled |
| ReadFile.RecordSuggestion | ingest/ingest.go:218-243 | panics exactly when the score is positive, an autocompleter is set, and `title` is missing or not a string, with nothing changed; otherwise writes the suggestion for an eligible document at the cursor, and the cursor wraps at `chunk` |
| ReadFile.CountStep | ingest/ingest.go:253-276 | after `i++; n++` the counters say the same about `i + 1` documents, with `n` and `dt` reset when `i % chunk == 0` |
| ReadFile.WindowWithinTotal | ingest/ingest.go:253-276 | `0 <= dt <= totalDt` |
| ReadFile.Finish | ingest/ingest.go:214-278 | when the loop stops it has handled the documents before the first panic; cursor, counters and buffer have their closed forms |
| ReadFile.IndexingWorkers | ingest/ingest.go:202-213 | the workers index exactly the forwarded documents with a non-empty `Id`, in order |
| ReadFile.HandleDocument | ingest/ingest.go:214-277 | one turn of the loop: panics exactly on a panicking title, with nothing changed; otherwise moves everything to `i + 1` documents |
| ReadFile.ReadFileLoop | ingest/ingest.go:192-277 | handles the documents before the first panicking one and panics iff there is one; forwards each of them once, in order, score 0 raised to 0.0000001; when it does not panic, the workers index exactly the forwarded documents with an `Id` (after a panic no indexing is reported); `terms` holds the buffer of their suggestions with `0 <= nterms < chunk` and `nterms == |suggestions| % chunk`; `n == i % chunk`; `dt` is the bytes since the last report and 0 right after one; `totalDt` is all bytes; `0 <= dt <= totalDt` |

## Left out

- Goroutines, channels and `sync.WaitGroup` (ingest/ingest.go:79-139, 202-213, 280-282). The stages run one after another over finite sequences.
  - `ReadFile` runs its indexing workers after the loop, over the documents it forwarded, when the loop did not panic.
  - `ReadDir`'s accounting runs the worker filter first and then the `Stats` loop.
  - The order in which the 200 concurrent workers of `ReadFile` index documents is not modelled.
  - The `conns` workers of `ReadDir` are one sequential worker: the latencies reach `countch` in the order of the documents. Concurrent workers deliver them in any order. `ReadDir.StatsLoop` is proved for every latency sequence, so its contract holds whatever the delivery order. `ReadDir.Accounting` feeds the latencies in document order, and its contract speaks only of counts, which do not depend on that order.
- ReadDir.IndexWorker: stands for at least one worker. With `conns <= 0` no worker starts in Go (line 90), so nothing is indexed and the `Stats` loop never receives a latency.
- `ReadDir` never terminates: nothing closes `countch`. The goroutine at lines 89-123 returns after `wg.Wait()` without closing it, and nothing closes `doch` either. So the loop at line 151 never ends and line 171 is unreachable. The `Stats` loop is modelled over a finite prefix of latencies only.
- Wall-clock time (lines 149, 156-157, 162, 195, 271-274). The window test is an oracle. `CurrentWindowDuration` and `CurrentWindowRate` are not fields of the model's `Stats`.
- Floating point: the rates at lines 158, 271-272 and the data rates printed by `fmt.Println`. Scores are reals, and `float64(doc.Score)` is the identity.
- File system, logging and printing:
  - `ioutil.ReadDir` becomes the tree datatype;
  - `os.Open`, `fp.Close`, `DocumentReader.Read` and their errors are not modelled;
  - `log` and `fmt` are not modelled.
  - The file-reader workers of `ReadDir` (lines 125-139) are I/O only and are not modelled.
- `idx.Index`, `ac.AddTerms` and `DocumentReader` are interfaces whose implementations are not part of this model. An index call is a recorded document plus a measured duration.
- `filepath.Match` is a parameter.
- Walk.JoinPath: `filepath.Join` is concatenation with `/`, without Go's path cleaning (`Clean` of the joined path).
- ReadFile.ToLower: lower-cases ASCII letters only, while Go's `strings.ToLower` handles all of Unicode.
- ReadFile.LowerChar: the ASCII rule for one character; Go also lower-cases non-ASCII capitals (`'Ä'` becomes `'ä'`), which the model keeps unchanged.
- ReadFile.ReadFileLoop: after a title panic no indexing is reported. Go leaves `ReadFile` before `close(doch)` and `wg.Wait()` (lines 280-282), and the unrecovered panic ends the process. Which forwarded documents the concurrent workers had already indexed by then is not modelled.
- Ngrams.Ngrams: nil maps are not modelled, because a Dafny `map` has no nil. Go also panics when `count` is nil and at least one window exists, since line 71 assigns to an entry of a nil map. The only callers, in commented-out code (lines 102-105), pass `map[string]uint32{}`.
- ReadFile.AddPropertyBytes: counts `len(s)` and `len(k)` in characters, while Go counts UTF-8 bytes. The two agree on ASCII text.
- ReadFile.Contribution: one property's `len(s) + len(k)` in characters rather than UTF-8 bytes; a non-ASCII character counts 1 where Go counts 2 to 4.
- ReadFile.PropBytes: the sum of `Contribution` over a document's properties, so also in characters rather than UTF-8 bytes.
- ReadFile.ReadFileLoop: `docs` is everything the reader sends on `ch` before closing it. `ReadFile` hands `ch` to `r.Read` (line 188) and never closes it itself, so the loop at line 214 ends only when the reader closes `ch`. A reader that never closes it leaves `ReadFile` blocked at line 214, and then lines 280-283 never run; the model's non-panicking outcome stands for a reader that does close it.
- ReadDir.Accounting: the setup of `ReadDir` is not modelled. `make` panics at line 85 when `chunk < 0`, and at line 86 when `chunk*workers` is negative.
- ReadFile.ReadFileLoop: its `dt` and `totalDt` counters count characters rather than UTF-8 bytes, for the same reason.
- Go's `int` and `int64` overflow of the counters `i`, `n`, `dt`, `totalDt`, `nterms`, `TotalDocs` and `CurrentWindowDocs` is not modelled; they are unbounded. The `int64` latency sums and the `uint32` n-gram counters do wrap as in Go.
- `chunk <= 0` is not modelled; ReadFile.ReadFileLoop requires `chunk >= 1`.
  - A negative `chunk` panics at the `make` calls (lines 186, 192).
  - With `chunk == 0` both `make` calls succeed. If the reader delivers no documents, `ReadFile` closes `doch` and returns nil without a panic. Otherwise it panics at the first document, on `terms[0]` (line 227) or on `i % chunk` (line 270).
- The commented-out code is not modelled: the n-gram suggestion block (lines 101-114), the term-flush block (lines 220-241) and the document batching (lines 216, 261-267). In particular, `terms` is filled but never flushed.
- The order in which a directory listing is returned is taken as given: the datatype holds its entries in listing order.

## Notes

- The published window latency is `totalLatency / (1 + CurrentWindowDocs)`. This divides by one more than the number of latencies in the window, so it is not their mean. The model follows the code as written.
- `offset := int(math.Floor(float64(size / 2)))` divides in integers before the float conversion, so `math.Floor` changes nothing. The model uses Go's truncating division. The conversion to `float64` is exact only while `|size / 2| <= 2^53`; above that it rounds and `offset` can differ from the quotient. This is harmless: such a `size` is larger than any word count, so no window fits and no index passes the guard either way.
- With `size == 0` every word starts an empty window, so `ngrams` adds 0 to the key `""` once per word. This puts `""` in the map whenever there is at least one word, and the key-set clause of the contract says so.
