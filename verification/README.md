# Protocols of the proxy, modelled and proved

This project models seven parts of the proxy that carry real invariants, and proves what they promise. The model
follows the Go code branch by branch; code that changes state is a Dafny class or method, and each such method is
proved against a function or a relation about which the theorems are then stated.

**Request streams** (`RequestHeader`, `RequestMeaning`, `ChunkedBody`, `OrderedConn`, `RequestStreams`, on `Bytes`,
`TextLaws` and `StableOrder`). A wrapped connection buffers each request header, puts its lines in a wanted order, and
forwards a counted or chunked body, for any pipelined stream cut into writes anywhere and over a connection that may
fail short. `OrderedConn.Run` is the one-shot meaning of a stream; the imperative `Write` is tied to it by
`WriteOutcome`. Header names are compared by an arbitrary folding function and the wanted order is an arbitrary
function of method and target. Framing is that of sections 6.3 and 7.1 of RFC 9112. `TextLaws` tells numbers, white
space and parts of a text from what is written, and `RequestMeaning` tells what a header says from the bytes of its
lines.

**Replay caches** (`EvictionOrder`, `ReplayItems`, `Antigravity*`, `Codex*`, `Kimi*`). Three versioned stores with
snapshots, tombstones, branches, expiry and eviction. The local forms are classes whose methods are single critical
sections; the run modules interleave those sections. The shared forms interleave the commands of any number of clients
over one compare-and-swap register. Normalizing an item is an arbitrary function. `AntigravityLaws` writes the steps
of the local form out, and `AntigravityProgress` says when a request of the shared form succeeds and why one is
rejected. `KimiLimits` works out what enforcing the limits of the kimi store costs the entry just stored.

**Configuration merge** (`YamlNodes`, `YamlMerge`, `YamlDefaults`, `YamlLaws`, `YamlAgreement`, `YamlUnchanged`,
`YamlTwice`, `YamlTree`, `YamlGraph`). Saving a configuration merges a generated tree into the file's tree.
`YamlMerge` says what the result is, as a value; `YamlDefaults` writes out which values a save leaves out;
`YamlAgreement`, `YamlUnchanged` and `YamlTwice` prove what that result promises; `YamlTree` carries the merge out in
place on mutable nodes and proves that it leaves exactly that value in the very nodes of the file. `YamlGraph` copies
node graphs that may be shared or cyclic.

**Release flusher** (`ReleaseFlusher`), **dispatch fence** (`DispatchFence`), **bounded cache** (`BoundedLru`) and
**wire protocol** (`Resp`). The first two are interleavings of critical sections, flag operations and foreign calls;
the third refines a recency trace; the fourth is an encoder and a decoder with their round trips. The fence module has
the lock as part of its state, and each load or store of the flag inside a section as a step of its own, so that the
flag may be stored at any point of any section.

Concurrency is modelled as steps, one per critical section, atomic flag operation or store command. Time, freshly
drawn ids and the outcome of foreign calls are parameters; nonces, branch ids and ticket channels are taken to be new
when they are drawn.

## Where the code and its description differ

- A header over the limit makes `Write` fail with a count that leaves out the bytes of that call, although they stay
  in the buffer (`OversizedHeaderIsKept`; `OversizedHeaderExists` is an input); a failure while a rewritten header
  goes out reports every byte as taken. `WriteOutcome` states both.
- A malformed chunk shows how the stream was cut. Written together with its header, nothing of a broken body is sent;
  cut after any good part of it, that part is sent (`MalformedInputShowsBoundaries`, `BrokenTerminator`).
  `SplitIndependence` is therefore an equivalence: every cut is accepted and gives the one-shot result exactly when
  every prefix keeps within the header limit and the chunk syntax. Its right side demands acceptance, so a stream that
  every cut refuses counts as depending on the cut.
- Trimming a replay list before appending is the same as appending and trimming once only under the condition of
  `TrimThenAppend`; `TrimmingFirstShows` is an input at which it fails.
- A kimi store that reports success may leave nothing behind, the new entry included. With entries of distinct age it
  does so exactly when what is left after all but the last batch of oldest entries went is still over the byte limit
  (`StoreKeepsNothingIff`, `StoreKeepsItsEntryIff`; whatever the ages, `SomeEnforcementEmptiesIff` and
  `EveryEnforcementEmptiesIff`); thirty-two entries of the largest size and a thirty-third are such a run
  (`ThirtyThirdStoreLosesAll`). A conditional delete of an absent key stores its tombstone without enforcing the
  limits, and so may pass the entry limit (`DeletePassesTheLimit`).
- A replace or delete that holds the snapshot of a failed read writes exactly when the register is empty, so it may
  write after another client's value came and expired (`NothingComesBack`, `FailedReadWritesAfterExpiry`).
- A store of the dispatch flag can come too late for a section that has loaded it before: that section still builds or
  tracks what it was about to (`BuiltAfterTheStore`; `StoreComesTooLateIff` has the exact condition). The detach of
  the closer, which waits for the lock, takes all of it (`DetachTakesAll`), and from then on nothing is there
  (`FenceIsPermanent`).
- The eviction epoch of the antigravity cache never decides whether a write is admitted (`ReplaceAcceptedIff`).
- Merging drops a blank key of a list element, so a file that already holds the configuration is left alone exactly
  when there is no such key (`UnchangedFile`); `BlankKeyIsLost` is a list that loses a pair.
- Saving twice may differ from saving once: a new list element loses an identity key of default value to pruning, and
  the next save does not recognize it (`DefaultIdentityTakesTwo`). `SavedAgainIff` has the exact condition on what the
  first save left, and `SavingTwice` a condition on the configuration under which every file settles at once.
- An explicit weight of 0 is meant to be kept, but a new mapping that holds nothing else is not added
  (`LoneZeroWeightIsLost`; `NewMappingIsAdded` has the exact condition).
- A nil bulk string reads as an empty one on the queue side and as an error on the certificate side, and a simple
  string survives exactly when it holds no line feed (`BulkRead`, `ReplyRoundTrip`, `SimpleStringRoundTrip`).
- The readers make room for an announced length or count before they read on, and panic when it is too large
  (`ArrayRoundTrip` and `StreamRoundTrip` say exactly when they read a command back).

## Model

| member | source | states |
|---|---|---|
| TextLaws.ParseIntIff | internal/httpwire/ordered_conn.go:163-179 | a decimal or hexadecimal text reads as exactly the 64-bit integer whose sign and digits it writes, letters of either case and leading zeros included |
| TextLaws.TrimSpaceIff | internal/httpwire/ordered_conn.go:163-192 | trimming takes off exactly the white space around a text, by the code points Unicode calls so |
| TextLaws.SplitOnIff | internal/httpwire/ordered_conn.go:181-192 | splitting yields exactly the parts between separators |
| RequestHeader.JoinThenSplit | internal/httpwire/ordered_conn.go:115-156 | splitting the wire form of header lines gives those lines back |
| RequestHeader.TerminatorIffNoBlankLine | internal/httpwire/ordered_conn.go:81-93 | lines written out end at their own terminator exactly when no line after the first is blank |
| RequestHeader.ReorderedIsPermutation | internal/httpwire/ordered_conn.go:130-147 | no header line is lost, invented or repeated |
| RequestHeader.ReorderedIsSorted | internal/httpwire/ordered_conn.go:130-147 | listed names come first in the wanted order; unlisted lines come last in their own order |
| RequestHeader.EqualNamesKeepOrder | internal/httpwire/ordered_conn.go:130-161 | lines of one name keep their relative order, for every name |
| StableOrder.FilterOne | internal/httpwire/ordered_conn.go:143-147 | what a selection of lines does to one line |
| RequestHeader.ReorderedIsIdempotent | internal/httpwire/ordered_conn.go:130-147 | reordering reordered lines changes nothing |
| RequestHeader.ReorderedKeepsFraming | internal/httpwire/ordered_conn.go:163-192 | reordering changes neither the content length nor the chunked decision |
| RequestHeader.OrderHeaderPreservesMeaning | internal/httpwire/ordered_conn.go:115-156 | the rewritten block has the same length, request line, lines, order within a name, terminator and framing, and rewriting it again changes nothing |
| RequestMeaning.NamedIff | internal/httpwire/ordered_conn.go:158-161 | a line has a name exactly when a non-empty text that compares equal, a colon and a value make it up |
| RequestMeaning.ContentLengthIff | internal/httpwire/ordered_conn.go:163-179 | the length is n exactly when the first Content-Length line holds n as a positive 64-bit decimal with white space around it |
| RequestMeaning.PlainLength | internal/httpwire/ordered_conn.go:163-179 | the plain digits of a number between blanks give that number |
| RequestMeaning.UsesChunkedIff | internal/httpwire/ordered_conn.go:181-192 | the body is chunked exactly when a comma-separated part of a Transfer-Encoding line says chunked, white space aside |
| RequestMeaning.TargetIff | internal/httpwire/ordered_conn.go:120-126 | method and target are what precedes the first and the second space |
| RequestMeaning.HeaderIsOrdered | internal/httpwire/ordered_conn.go:115-156 | framing is what the lines announce; lines go out in the order asked for the method and target, unlisted ones in their own; without an order the block goes out as it came |
| RequestHeader.TakeNamed | internal/httpwire/ordered_conn.go:134-142 | one pass over the table of used lines takes exactly the unused lines of one name |
| RequestHeader.SelectLines | internal/httpwire/ordered_conn.go:130-147 | the loops over the table of used lines compute the stable order by rank |
| RequestHeader.OrderRequestHeader | internal/httpwire/ordered_conn.go:115-156 | the imperative rewriting computes the block and framing the theorems are about |
| ChunkedBody.ConsumeComposes | internal/httpwire/ordered_conn.go:220-280 | consuming two pieces is consuming their concatenation |
| ChunkedBody.NoPrefixEnds | internal/httpwire/ordered_conn.go:220-280 | no strict prefix of a completed body completes or is malformed |
| ChunkedBody.EncodingIsTakenExactly | internal/httpwire/ordered_conn.go:194-280 | every encoded body, with extensions and trailers, is consumed exactly to its end whatever follows, and no strict prefix completes or fails |
| ChunkedBody.ChunkSizeIff | internal/httpwire/ordered_conn.go:233-241 | the size taken from a line is the non-negative hexadecimal number it says up to a semicolon |
| ChunkedBody.BadSizeIsRefused | internal/httpwire/ordered_conn.go:233-241 | a size line that says no size is refused at its end |
| ChunkedBody.LongSizeIsRefused | internal/httpwire/ordered_conn.go:224-229 | a size line is refused at the first byte past 1 MiB |
| ChunkedBody.LongTrailersAreRefused | internal/httpwire/ordered_conn.go:264-270 | trailers are refused at the first byte past 1 MiB |
| ChunkedBody.ChunkedRequestTracker.Clone | internal/httpwire/ordered_conn.go:213-218 | the preview starts from the same tracker state |
| ChunkedBody.ChunkedRequestTracker.ConsumeBytes | internal/httpwire/ordered_conn.go:220-280 | the loop over the tracker's fields computes the specified consumption |
| OrderedConn.RunComposes | internal/httpwire/ordered_conn.go:40-113 | resuming after any prefix gives what the uninterrupted stream gives |
| OrderedConn.NothingLostOrAdded | internal/httpwire/ordered_conn.go:40-113 | bytes sent and bytes held back add up to bytes accepted |
| OrderedConn.TakenPart | internal/httpwire/ordered_conn.go:59-79 | committing whatever part of the previewed bytes went out never fails, and all of them is the preview |
| OrderedConn.WriteAll | internal/httpwire/ordered_conn.go:282-296 | what is counted is what went on the wire, and without a failure it is everything |
| OrderedConn.OrderedRequestConn.Write | internal/httpwire/ordered_conn.go:40-113 | whatever the inner connection does, count, error, new state and emitted bytes are those of the counted prefix of the call |
| OrderedConn.OutcomeWithoutFailure | internal/httpwire/ordered_conn.go:40-113 | over a connection that does not fail, success and malformed input are decided by the stream alone |
| RequestStreams.SplitIndependence | internal/httpwire/ordered_conn.go:40-113 | every way of cutting a stream is accepted and gives the one-shot result exactly when every prefix is acceptable |
| RequestStreams.OversizedHeaderIsKept | internal/httpwire/ordered_conn.go:81-90 | a header that grows over the limit is refused with count 0 for the bytes of the call, although all of them are kept |
| RequestStreams.PartialHeaderIsHeld | internal/httpwire/ordered_conn.go:81-90 | up to 1 MiB a header without its blank line is held and all of it counted |
| RequestStreams.BrokenBodyIsRefused | internal/httpwire/ordered_conn.go:59-79 | a header and a malformed body in one write: exactly the rewritten header is sent and counted, and the error is reported |
| RequestStreams.BrokenRestIsRefused | internal/httpwire/ordered_conn.go:59-79 | input that breaks an open chunked body is refused whole, with count 0 and no byte sent |
| RequestStreams.MalformedInputShowsBoundaries | internal/httpwire/ordered_conn.go:59-79 | for every malformed body and every good part of it: one write sends only the header, two writes cut there send the good part as well |
| RequestStreams.BrokenTerminator | internal/httpwire/ordered_conn.go:256-267 | any chunk whose data ends in CR and a byte other than LF is such a body, broken at that byte |
| RequestStreams.PipelineIsRewritten | internal/httpwire/ordered_conn.go:40-113 | any pipeline of requests whose bodies are the ones their header lines announce, cut anywhere, leaves the wire with each header rewritten and each body untouched |
| RequestStreams.WrappingTwiceIsWrappingOnce | internal/httpwire/ordered_conn.go:23-113 | a second wrapper with the same order changes no byte |
| EvictionOrder.OldestKeys | internal/cache/antigravity_reasoning_replay_cache.go:623-645 | eviction picks the wanted number of keys, none of them younger than one that stays |
| AntigravityLocal.NormalizeItems | internal/cache/antigravity_reasoning_replay_cache.go:500-517 | keeps what normalizes, in order, and fails when nothing does |
| AntigravityLocal.ItemsPrefix | internal/cache/antigravity_reasoning_replay_cache.go:456-466 | the item by item comparison decides the prefix relation |
| AntigravityLocal.ReplayCache.Cache | internal/cache/antigravity_reasoning_replay_cache.go:100-143 | stores under a new revision and a new branch, then evicts a batch when over the limit |
| AntigravityLocal.ReplayCache.ReserveAbsent | internal/cache/antigravity_reasoning_replay_cache.go:256-275 | a miss leaves a tombstone whose revision the snapshot holds |
| AntigravityLocal.ReplayCache.Get | internal/cache/antigravity_reasoning_replay_cache.go:170-253 | returns live items with a snapshot of their revision, drops an expired entry, reserves an absent one; an empty key reads nothing |
| AntigravityLocal.ReplayCache.ReplaceIfUnchanged | internal/cache/antigravity_reasoning_replay_cache.go:279-352 | writes exactly when the entry is unchanged or the items extend it on its branch; without a loaded snapshot it stores like Cache |
| AntigravityLocal.ReplayCache.DeleteIfUnchanged | internal/cache/antigravity_reasoning_replay_cache.go:357-386 | leaves a tombstone exactly when the revision is unchanged, or no snapshot was loaded |
| AntigravityLocal.ReplayCache.Delete | internal/cache/antigravity_reasoning_replay_cache.go:389-418 | leaves a tombstone under a new revision; an empty key changes nothing |
| AntigravityLocal.ReplayCache.Clear | internal/cache/antigravity_reasoning_replay_cache.go:478-483 | empties the cache and starts a new eviction epoch |
| AntigravityLocal.ReplayCache.PurgeExpired | internal/cache/antigravity_reasoning_replay_cache.go:647-656 | removes exactly the expired entries |
| AntigravityLaws.GetIs | internal/cache/antigravity_reasoning_replay_cache.go:229-275 | a read refreshes an entry for an hour and hands it out, or makes room and leaves a tombstone; nothing else changes |
| AntigravityLaws.ReplaceIs | internal/cache/antigravity_reasoning_replay_cache.go:333-352 | when a replace writes, and on which branch: its snapshot's when the items extend what it saw |
| AntigravityLaws.CacheIs | internal/cache/antigravity_reasoning_replay_cache.go:100-143 | a store is under the next revision on a new branch, and past 10240 entries the 128 oldest go |
| AntigravityLaws.DeleteIfIs | internal/cache/antigravity_reasoning_replay_cache.go:357-386 | a conditional delete writes exactly when the revision is unchanged |
| AntigravityLaws.RemovalIs | internal/cache/antigravity_reasoning_replay_cache.go:389-483 | what a delete, a clear and a purge leave |
| AntigravityLaws.WriteIsStep | internal/cache/antigravity_reasoning_replay_cache.go:100-418 | what the contracts of the writing operations promise is a step of the runs |
| AntigravityLaws.ReadIsStep | internal/cache/antigravity_reasoning_replay_cache.go:229-275 | what the contract of a read promises is a step of the runs |
| AntigravityLaws.PutIsStored | internal/cache/antigravity_reasoning_replay_cache.go:100-143 | what the contracts call a stored entry is the written-out store |
| AntigravityLaws.CachedIsRead | internal/cache/antigravity_reasoning_replay_cache.go:229-253 | in every run a read within the hour returns what was stored, unless another call touched the key or it was evicted |
| AntigravityLaws.NormalizedIff | internal/cache/antigravity_reasoning_replay_cache.go:500-517 | items are accepted within 4096 items and 16 MiB when some normalize |
| AntigravityRuns.BranchesAreChains | internal/cache/antigravity_reasoning_replay_cache.go:230-275 | in every run, the values one key takes on one branch are ordered by prefix |
| AntigravityRuns.ReplaceAcceptedIff | internal/cache/antigravity_reasoning_replay_cache.go:333-352 | in every run a replace is accepted exactly when the revision is unchanged or its items extend a live entry of its branch |
| AntigravityRuns.ConcurrentTurnIsKept | internal/cache/antigravity_reasoning_replay_cache.go:333-352 | a replace accepted on a changed revision keeps everything the other write stored |
| AntigravityRuns.NoResurrection | internal/cache/antigravity_reasoning_replay_cache.go:253-275 | once a key was deleted, overwritten off its branch, evicted, purged, cleared or dropped as expired, no replace or delete with an older snapshot ever succeeds |
| AntigravityRuns.RunIsBounded | internal/cache/antigravity_reasoning_replay_cache.go:623-645 | no run holds more than the configured number of entries |
| AntigravityShared.ReplaceIsSafe | internal/cache/antigravity_reasoning_replay_cache.go:291-331 | counted over the run since the replace began: success wrote exactly once, rejection never, failure at most once; each write was over its snapshot's value or a live prefix on its branch |
| AntigravityShared.DeleteIsSafe | internal/cache/antigravity_reasoning_replay_cache.go:357-372 | counted over the run since the delete began: success wrote exactly once, rejection never, failure at most once; each write was a tombstone over exactly the value seen |
| AntigravityProgress.RejectionHasCause | internal/cache/antigravity_reasoning_replay_cache.go:303-331 | a replace is rejected only when a reread found no live value on its branch that its items extend, or its fourth swap failed |
| AntigravityProgress.ExtendedIsReplaced | internal/cache/antigravity_reasoning_replay_cache.go:303-331 | a reread that finds such a value, and a swap over that same register, succeed |
| AntigravityProgress.UnchangedIsReplaced | internal/cache/antigravity_reasoning_replay_cache.go:291-309 | a first swap over what the snapshot saw succeeds, on the snapshot's branch when the items extend it |
| AntigravityProgress.DeleteDecides | internal/cache/antigravity_reasoning_replay_cache.go:357-372 | a conditional delete succeeds exactly when the register is as its snapshot saw it |
| AntigravityProgress.ReadYieldsSnapshot | internal/cache/antigravity_reasoning_replay_cache.go:183-228 | what a read hands out for every kind of register value, and that it fences an empty register |
| AntigravityProgress.MissingSnapshotHasCause | internal/cache/antigravity_reasoning_replay_cache.go:183-203 | a read ends without a snapshot only when a command failed or four reservations came too late |
| AntigravityProgress.UnconditionalIs | internal/cache/antigravity_reasoning_replay_cache.go:100-128 | what the unconditional writes and expiry leave in the register |
| AntigravityShared.RegisterIsChain | internal/home/client.go:1069-1100 | the values the register takes on one branch are ordered by prefix |
| AntigravityShared.NothingComesBack | internal/cache/antigravity_reasoning_replay_cache.go:291-372 | once the register left what a snapshot saw, no swap of any client with that snapshot writes; with the snapshot of a failed read a swap writes exactly when the register is empty |
| AntigravityShared.EndingBars | internal/cache/antigravity_reasoning_replay_cache.go:357-418 | overwriting, erasing and an accepted conditional delete bar every snapshot taken before; expiry bars all but those of failed reads |
| AntigravityShared.FailedReadWritesAfterExpiry | internal/cache/antigravity_reasoning_replay_cache.go:183-187 | a run in which the replace of a client whose read failed lands after another value came and expired |
| CodexTurns.TrimItems | internal/cache/codex_reasoning_replay_cache.go:212-230 | the loop ends and computes the specified trimming |
| CodexTurns.FitsIff | internal/cache/codex_reasoning_replay_cache.go:212-224 | a list fits with at most 256 turns and 16 MiB |
| CodexTurns.TrimIsLongestFit | internal/cache/codex_reasoning_replay_cache.go:212-230 | trimming yields the longest suffix from the head or a marker within both bounds, or nothing if there is none |
| CodexTurns.TrimIsIdempotent | internal/cache/codex_reasoning_replay_cache.go:212-230 | trimming twice is trimming once |
| CodexTurns.TrimThenAppend | internal/cache/codex_reasoning_replay_cache.go:190-230 | the exact condition under which trimming before appending loses nothing |
| CodexTurns.TrimmingFirstShows | internal/cache/codex_reasoning_replay_cache.go:190-230 | one turn over the byte bound and an item of the same turn: the two orders of trimming differ |
| CodexTurns.AppendTurn | internal/cache/codex_reasoning_replay_cache.go:190-210 | a list not led by a turn is dropped, a turn whose id is stored leaves the list, any other goes to its end; then the list is trimmed |
| CodexTurns.AppendedIsPresent | internal/cache/codex_reasoning_replay_cache.go:190-210 | an appended turn is stored whole and last, unless the list is led by a turn and a marker with its id is in it |
| CodexTurns.AppendingAgainChangesNothing | internal/cache/codex_reasoning_replay_cache.go:190-210 | appending a stored turn id changes nothing |
| CodexAppendLog.RegisterIsTrimmedLog | internal/cache/codex_reasoning_replay_cache.go:131-167 | in every interleaving the register holds the trimmed concatenation of the accepted turns in commit order, and only a list that was set can be led by anything but a marker |
| CodexAppendLog.AcceptedTurnsStay | internal/cache/codex_reasoning_replay_cache.go:131-194 | until the register is set, deleted or expired, the accepted turns stay a prefix of the accepted turns |
| CodexAppendLog.OnlySetGivesWay | internal/cache/codex_reasoning_replay_cache.go:190-194 | what an append replaces is one list that was set and is led by no marker |
| CodexAppendLog.SuccessfulAppendIsStored | internal/cache/codex_reasoning_replay_cache.go:131-167 | at the step an append reports success its turn ends the register and the accepted turns, unless a marker with its id was there; then nothing changes |
| CodexAppendLog.UnchangedIsAppended | internal/cache/codex_reasoning_replay_cache.go:131-167 | a swap that meets the register as the read before it did succeeds |
| CodexAppendLog.FailureHasCause | internal/cache/codex_reasoning_replay_cache.go:131-167 | an append fails only when it was cancelled, a command failed, or 32 swaps came too late |
| CodexLocal.ReplayCache.Cache | internal/cache/codex_reasoning_replay_cache.go:77-117 | stores the normalized items, or reports that nothing normalizes |
| CodexLocal.ReplayCache.Append | internal/cache/codex_reasoning_replay_cache.go:119-188 | appends to a live entry, or to nothing when it is expired or absent |
| CodexLocal.ReplayCache.Get | internal/cache/codex_reasoning_replay_cache.go:256-297 | returns live items and drops an expired entry |
| CodexLocal.StoreKeepsItsKeyIff | internal/cache/codex_reasoning_replay_cache.go:168-188 | a store keeps its own key, however ties fall, exactly when the cache is within its bound or a whole batch of entries is older |
| CodexLocal.LocalAppendIsStored | internal/cache/codex_reasoning_replay_cache.go:168-188 | a successful append in process is stored whole and last, under that condition for certain |
| CodexLocal.VictimsIff | internal/cache/codex_reasoning_replay_cache.go:180-188 | past 10240 entries 128 go, none younger than one that stays |
| CodexLocal.LiveIs | internal/cache/codex_reasoning_replay_cache.go:168-176 | an entry counts for an hour |
| CodexLocal.NormalizedIs | internal/cache/codex_reasoning_replay_cache.go:347-362 | what is stored is the longest part that fits of the items that normalize |
| KimiLocal.ReplayCache.EvictOldest | internal/cache/kimi_thinking_replay_cache.go:392-415 | removes the oldest entries and takes their lengths off the counter |
| KimiLocal.ReplayCache.EnforceLimits | internal/cache/kimi_thinking_replay_cache.go:382-390 | the loop ends within both limits, having removed whole batches of the oldest, none after the limits were met, and never finds the map empty while over them |
| KimiLocal.ReplayCache.Store | internal/cache/kimi_thinking_replay_cache.go:349-359 | counter and contents agree, and a store ends within the limits even when it starts beyond them |
| KimiLocal.ReplayCache.Cache | internal/cache/kimi_thinking_replay_cache.go:80-111 | stores valid content under a new generation |
| KimiLocal.ReplayCache.Get | internal/cache/kimi_thinking_replay_cache.go:119-171 | returns live content with its generation and touches nothing else; or reserves a generation, with what the limits take |
| KimiLocal.ReplayCache.ReserveAbsent | internal/cache/kimi_thinking_replay_cache.go:342-347 | a miss leaves a tombstone under a new generation, enforced like a store |
| KimiLocal.ReplayCache.ReplaceIfUnchanged | internal/cache/kimi_thinking_replay_cache.go:174-212 | writes exactly when the generation is unchanged, or no snapshot was loaded |
| KimiLocal.ReplayCache.DeleteIfUnchanged | internal/cache/kimi_thinking_replay_cache.go:214-248 | leaves a tombstone exactly when the generation is unchanged, removes the key when no snapshot was loaded, and passes the entry limit exactly for an absent key in a full store |
| KimiLocal.ReplayCache.Delete | internal/cache/kimi_thinking_replay_cache.go:250-273 | removes the entry and takes its length off the counter |
| KimiLocal.ReplayCache.PurgeExpired | internal/cache/kimi_thinking_replay_cache.go:417-426 | removes exactly the expired entries and their lengths |
| KimiLimits.BoundsAre | internal/cache/kimi_thinking_replay_cache.go:20-36 | an hour, 10240 entries, 8 MiB an entry, 256 MiB in all, 128 at a time |
| KimiLimits.CurrentIff | internal/cache/kimi_thinking_replay_cache.go:199-204 | a snapshot is current when the key is still there with its generation, or still missing |
| KimiLimits.BatchesIff | internal/cache/kimi_thinking_replay_cache.go:392-415 | eviction takes whole batches of entries none of which is younger than one that stays |
| KimiLimits.StoreKeepsNothingIff | internal/cache/kimi_thinking_replay_cache.go:382-415 | with distinct ages, a store empties the cache exactly when all but the last batch of oldest entries gone is still over the byte limit |
| KimiLimits.StoreKeepsItsEntryIff | internal/cache/kimi_thinking_replay_cache.go:349-415 | with distinct ages, a store under the newest time keeps its own entry exactly when the last batch fits |
| KimiLimits.SomeEnforcementEmptiesIff | internal/cache/kimi_thinking_replay_cache.go:382-415 | whatever the ages, some choice of the oldest empties the cache exactly when after some choice the last batch alone is over the byte limit |
| KimiLimits.EveryEnforcementEmptiesIff | internal/cache/kimi_thinking_replay_cache.go:382-415 | whatever the ages, every choice of the oldest empties the cache exactly when after every choice the last batch alone is over the byte limit |
| KimiLimits.NewestGoesLast | internal/cache/kimi_thinking_replay_cache.go:382-415 | an entry newer than every other is lost exactly when everything is |
| KimiLimits.WithinIsKept | internal/cache/kimi_thinking_replay_cache.go:382-390 | within the limits nothing goes |
| KimiLimits.OneBatchGoes | internal/cache/kimi_thinking_replay_cache.go:382-415 | over the byte limit with at most one batch of entries, everything goes |
| KimiLimits.ThirtyThirdStoreLosesAll | internal/cache/kimi_thinking_replay_cache.go:80-111 | thirty-two largest entries stay; the thirty-third store succeeds and leaves none |
| KimiLimits.DeletePassesTheLimit | internal/cache/kimi_thinking_replay_cache.go:236-247 | a full store and a conditional delete of an absent key: one entry over the limit |
| KimiRuns.OneWinnerPerGeneration | internal/cache/kimi_thinking_replay_cache.go:199-248 | of all requests that read one generation at most one replace or delete succeeds |
| KimiRuns.StoreIsStep | internal/cache/kimi_thinking_replay_cache.go:80-248 | what the store, replace and delete operations promise on success is a step of those runs |
| KimiRuns.GetIsStep | internal/cache/kimi_thinking_replay_cache.go:152-171 | what a read promises is a step of those runs |
| KimiRuns.FailureIsStep | internal/cache/kimi_thinking_replay_cache.go:174-248 | a store, replace or delete that fails is a step that changes no entry |
| KimiRuns.RemovalIsStep | internal/cache/kimi_thinking_replay_cache.go:250-426 | what a delete, a clear and a purge leave is a step of those runs |
| YamlNodes.FirstIdentityKeyDecides | internal/config/config_yaml.go:550-590 | two list elements with an identity key match exactly when their first such keys and the values agree |
| YamlAgreement.PrunedLookup | internal/config/config_yaml.go:358-392 | pruning a new mapping keeps exactly the pairs that are no default and do not end up empty, each pruned |
| YamlAgreement.MergedLookup | internal/config/config_yaml.go:181-214 | the merge as a map: a generated key holds its merged value, or its pruned copy when new and worth adding; any other key what it held |
| YamlAgreement.MergedKeys | internal/config/config_yaml.go:181-214 | the file's keys stay in place and order, and new keys follow in generated order |
| YamlAgreement.MergedAgrees | internal/config/config_yaml.go:181-283 | whatever the file held, after merging it agrees with the generated tree: a key may be missing only when its value says nothing or it is blank in a list element, and a null may stand for an empty list |
| YamlAgreement.NullStays | internal/config/config_yaml.go:236-240 | a null stays in place of an empty list |
| YamlAgreement.PrunedAgrees | internal/config/config_yaml.go:358-392 | pruning a new value drops nothing but known defaults |
| YamlAgreement.PrunedDefault | internal/config/config_yaml.go:313-392 | pruning never turns a default into something worth adding |
| YamlDefaults.AddsNothingIff | internal/config/config_yaml.go:205-213 | a new key is left out exactly when its value says nothing, by a written-out list of empty and assumed values |
| YamlDefaults.StaysOutIff | internal/config/config_yaml.go:358-392 | a pair is left out of a new mapping exactly when that list says so |
| YamlLaws.NewScalarIff | internal/config/config_yaml.go:205-213 | a scalar under a new key is saved as it is unless it is on the list and no integer weight |
| YamlLaws.NewListIff | internal/config/config_yaml.go:205-213 | a list under a new key is left out exactly when all its elements are hollow once pruned |
| YamlLaws.IdentityIs | internal/config/config_yaml.go:550-590 | the identity of a list element: first identity name with a text, else first scalar pair that is not blank, else none |
| YamlLaws.IdentityKeysAre | internal/config/config_yaml.go:554-554 | the nine identity names in their order |
| YamlLaws.IdentifiedIff | internal/config/config_yaml.go:507-535 | elements match by identity or, for scalars, by their trimmed text |
| YamlLaws.SameStructureIff | internal/config/config_yaml.go:592-640 | trees are structurally equal exactly when they have the same shape, tags and comments aside |
| YamlLaws.MergedKeepsNotes | internal/config/config_yaml.go:220-283 | a merged node keeps its comments, style and position |
| YamlLaws.ListKeepsNotes | internal/config/config_yaml.go:234-268 | a reused list element keeps its comments in its new place, and the others are copies |
| YamlAgreement.OnlyKeysLookup | internal/config/config_yaml.go:720-749 | keeping only generated keys loses nothing held under one that is not blank, and leaves no other key |
| YamlUnchanged.EachElementOnce | internal/config/config_yaml.go:485-548 | no old element is reused twice, a reused one matches, and an unmatched one has no free match |
| YamlUnchanged.UnchangedFile | internal/config/config_yaml.go:181-283 | merging a configuration the file already holds changes nothing, exactly when no list element has a blank key |
| YamlUnchanged.BlankKeyIsLost | internal/config/config_yaml.go:720-749 | a list whose element has a pair under the empty key loses that pair when it is merged with itself |
| YamlTwice.MatchedInOrderIff | internal/config/config_yaml.go:485-548 | a list is matched element by element in order exactly when each element can be told from those after it |
| YamlTwice.SettledFile | internal/config/config_yaml.go:181-283 | a file that agrees with the configuration, its lists in place, is left alone by a save |
| YamlTwice.SavedAgainIff | internal/config/config_yaml.go:181-283 | whatever the file held, a second save changes nothing and moves no list element exactly when the first one left every element recognizable |
| YamlTwice.SavingTwice | internal/config/config_yaml.go:181-283 | saving twice is saving once for every file with plain keys, when each list element is a scalar or identified by a value no merge leaves out |
| YamlTwice.DefaultIdentityTakesTwo | internal/config/config_yaml.go:485-548 | a configuration whose second save differs from the first: an identity key of default value |
| YamlUnchanged.NewMappingIsAdded | internal/config/config_yaml.go:205-213 | exactly when a mapping the file lacks is added |
| YamlUnchanged.LoneZeroWeightIsLost | internal/config/config_yaml.go:314-322 | an explicit weight of 0 alone in a new mapping is lost |
| YamlTree.Prune | internal/config/config_yaml.go:358-392 | pruning in place leaves the pruned tree |
| YamlTree.RemoveMissing | internal/config/config_yaml.go:720-749 | removing keys in place leaves exactly the kept pairs |
| YamlTree.DeepCopy | internal/config/config_yaml.go:439-463 | a copy of a tree is the same tree in fresh nodes |
| YamlTree.Overwrite | internal/config/config_yaml.go:467-483 | the destination node takes over kind, tag, value and copied content |
| YamlTree.MatchElement | internal/config/config_yaml.go:507-548 | the two loops find the first free element by identity, else by structure |
| YamlTree.Reorder | internal/config/config_yaml.go:485-505 | the loop computes the greedy matching |
| YamlTree.MergeMapping | internal/config/config_yaml.go:181-214 | merging in place leaves the merged tree and keeps every node of the file's mapping, in order; unless both are mappings the destination takes over the source |
| YamlTree.MergeSequence | internal/config/config_yaml.go:234-268 | merging in place leaves the merged tree, with the matched old nodes themselves in their new places |
| YamlTree.MergeNode | internal/config/config_yaml.go:220-283 | merging in place changes only the destination's nodes and leaves the merged tree in them |
| YamlGraph.DeepCopySeen | internal/config/config_yaml.go:444-463 | copying ends on any finite graph, touches only fresh nodes, and mirrors every node met exactly once |
| YamlGraph.DeepCopy | internal/config/config_yaml.go:440-442 | the copy is an isomorphic graph of fresh nodes over exactly what is reachable |
| YamlGraph.CopyUnfoldsAlike | internal/config/config_yaml.go:440-463 | no reader can tell copy and original apart at any depth, cycles included |
| ReleaseFlusher.RunKeepsInv | internal/home/concurrency_release.go:77-233 | in every interleaving acked and latest bound the waiters, tickets are closed exactly when covered, and frames of a group never go back |
| ReleaseFlusher.ClosedAfterAccepted | internal/home/concurrency_release.go:212-230 | a ticket is closed only after an accepted frame reached its mark |
| ReleaseFlusher.ClosesOnce | internal/home/concurrency_release.go:216-228 | an acknowledgement closes no closed channel and none twice |
| ReleaseFlusher.NoLostRelease | internal/home/concurrency_release.go:77-233 | a mark beyond what the flush took down leaves its group dirty, whatever else happens |
| ReleaseFlusher.MarkIs | internal/home/concurrency_release.go:77-100 | what a mark leaves by its sequence and names alone: its ticket waits below the latest mark or is closed, and nothing else changes |
| ReleaseFlusher.FlushCompletes | internal/home/concurrency_release.go:187-267 | a flush after the last mark with every send accepted leaves the flusher idle and every ticket closed |
| ReleaseFlusher.OpenIsDirty | internal/home/concurrency_release.go:77-100 | the group of an open ticket still has something to send |
| ReleaseFlusher.CurrentTimings | internal/home/concurrency_release.go:166-185 | the interval is positive and no larger than the maximum |
| ReleaseFlusher.TimingsAre | internal/home/concurrency_release.go:166-185 | a configured positive interval and a maximum no smaller count, and what is missing has its default |
| ReleaseFlusher.DelayDoubles | internal/home/concurrency_release.go:136-149 | after k failures the delay is the interval times two to the k, up to the maximum |
| ReleaseFlusher.DelaySinceSuccess | internal/home/concurrency_release.go:136-149 | a success sets the delay back, and k failures since then double the interval k times up to the maximum |
| ReleaseFlusher.Flusher.MarkDirty | internal/home/concurrency_release.go:77-100 | every sequence above 0 with both names gets a new ticket, closed if acknowledged already and waiting otherwise; any other call changes nothing |
| ReleaseFlusher.Flusher.Begin | internal/home/concurrency_release.go:192-203 | the snapshot holds exactly the dirty groups with their latest marks |
| ReleaseFlusher.Flusher.Acknowledge | internal/home/concurrency_release.go:205-231 | a sent frame is acknowledged and its covered tickets closed; a failed one changes nothing |
| ReleaseFlusher.Flusher.Complete | internal/home/concurrency_release.go:218-228 | the loops close each covered ticket once and drop its entry |
| ReleaseFlusher.Flusher.Idle | internal/home/concurrency_release.go:258-267 | idle means no group has an unacknowledged mark |
| DispatchFence.RunKeepsInv | internal/home/client.go:291-563 | in every interleaving, with the flag stored at any point: one thread has the lock, no pool or connection is lost sight of, and a pool is shut by one thread |
| DispatchFence.FenceIsPermanent | internal/home/client.go:291-384 | once a fenced client was detached it has no pool and no tracked connection, and hands out no command or release pool, ever again |
| DispatchFence.OpenClientServes | internal/home/client.go:475-513 | from every open state whose lock is free a command can be served with the pool in use |
| DispatchFence.ActIs | internal/home/client.go:475-563 | what each section writes, records as handed out and does next |
| DispatchFence.EnsuredIs | internal/home/client.go:475-513 | a section that loaded an unset flag leaves both pools when their options can be made and keeps what it finds |
| DispatchFence.ReleasedIs | internal/home/client.go:1421-1443 | a section that loaded an unset flag keeps or builds the release pool |
| DispatchFence.DialIsTracked | internal/home/client.go:540-563 | an open client tracks a dialed connection and a fenced one gives it back |
| DispatchFence.StoreComesTooLateIff | internal/home/client.go:475-563 | after the store something can still be added exactly when a thread is in a section that loaded the flag before, with a write to do |
| DispatchFence.OnlyOpenSectionAdds | internal/home/client.go:475-563 | whatever is added after the store is added by the section that was open at the store, before the lock is taken again |
| DispatchFence.NothingMoreIsAdded | internal/home/client.go:475-563 | when no such section is open at the store, no run adds a pool or a connection |
| DispatchFence.BuiltAfterTheStore | internal/home/client.go:475-513 | a run in which a pool is built after the store of the flag |
| DispatchFence.NothingOutlivesClose | internal/home/client.go:386-396 | when the closers are done every pool is shut and every connection hung up, untracked ones of a release pool too |
| DispatchFence.Client.Fence | internal/home/client.go:325-331 | the flag stores that open a close or an abort, and nothing else |
| DispatchFence.Client.DetachAll | internal/home/client.go:297-302 | the fields are emptied and everything they held is handed over |
| DispatchFence.Client.EnsureClients | internal/home/client.go:475-513 | success means both pools exist and the flag was not set when the section loaded it, though it may be set by now |
| DispatchFence.Client.CommandClient | internal/home/client.go:668-684 | with others storing, detaching and building between its sections, a pool handed out is the one in use; none is handed out by a client fenced before the call, and none refused unless the client is fenced by the end, has no pool or could not make options |
| DispatchFence.Client.ReleaseClient | internal/home/client.go:1409-1444 | a release pool is handed out exactly when the flag was not set at the load; the section builds at most that pool |
| DispatchFence.Client.Track | internal/home/client.go:540-563 | a dialed connection is tracked, or refused because the flag was set at the load |
| DispatchFence.Client.Forget | internal/home/client.go:565-577 | a closed connection leaves the tracked set |
| BoundedLru.TouchIsLocal | internal/cache/bounded_lru.go:38-77 | the most recent keys after a touch follow from the most recent keys before it |
| BoundedLru.DistinctIs | internal/cache/bounded_lru.go:38-77 | the distinct keys of a trace are its keys, ordered by their latest touch |
| BoundedLru.Cache.constructor | internal/cache/bounded_lru.go:24-34 | a capacity below one becomes one |
| BoundedLru.Cache.GetOrAdd | internal/cache/bounded_lru.go:38-66 | the list keeps the first capacity distinct keys of the reversed trace, the map indexes exactly the list, and each created entry is cached or evicted once |
| BoundedLru.Cache.Get | internal/cache/bounded_lru.go:68-77 | a hit moves its key to the front and a miss changes nothing |
| BoundedLru.Cache.Len | internal/cache/bounded_lru.go:79-83 | the size of the map is the length of the list, within the capacity |
| Resp.AtoiOfItoa | internal/api/redis_queue_protocol.go:425-441 | every int survives the trip through its decimal text |
| Resp.BulkRead | internal/api/redis_queue_protocol.go:441-476 | a bulk string of any bytes is read back and what follows is left unread, exactly when a buffer for it can be made; a nil one reads as empty |
| Resp.ArrayRoundTrip | internal/api/redis_queue_protocol.go:413-439 | an array comes back argument for argument with the rest unread, exactly when every allocation for it is possible |
| Resp.StreamRoundTrip | internal/home/certificate.go:335-348 | commands written back to back are read back as they were, exactly when every allocation for them is possible |
| Resp.CutCommand | internal/api/redis_queue_protocol.go:413-485 | no strict prefix of a command reads as a command or as a protocol error |
| Resp.SimpleStringRoundTrip | internal/api/redis_queue_protocol.go:487-501 | a simple string comes back exactly when it holds no line feed |
| Resp.IntegerRead | internal/api/redis_queue_protocol.go:441-455 | an integer reads as its digits |
| Resp.ReplyRoundTrip | internal/home/certificate.go:350-386 | the certificate client reads the payload written and takes a nil reply for an error |
| Resp.RefusalRead | internal/home/certificate.go:376-382 | an error reply is an error with its text, white space around it aside |
| Resp.BadNumbers | internal/api/redis_queue_protocol.go:425-462 | lengths and counts that are no numbers, and negative counts, are protocol errors; a negative length is nil |
| Resp.BadBulkEnd | internal/api/redis_queue_protocol.go:464-470 | a bulk string without its line end is a protocol error |
| Resp.UnknownPrefix | internal/api/redis_queue_protocol.go:413-455 | what each reader refuses by its first byte |
| Resp.BareLine | internal/api/redis_queue_protocol.go:478-486 | a line ends at its line feed |
| Resp.Reader.NextArray | internal/api/redis_queue_protocol.go:413-439 | the reader's loop returns the decoded array and leaves exactly the rest; a count no slice can be made for is refused before anything is read |
| Resp.Reader.NextBulk | internal/api/redis_queue_protocol.go:457-476 | the reader takes length, payload and line end, with each error of the source and the panic of too large a buffer |
| Resp.Reader.NextLine | internal/api/redis_queue_protocol.go:478-486 | the reader takes one line and strips its end |
| Resp.Writer.WriteBulk | internal/api/redis_queue_protocol.go:511-529 | the pieces written add up to the encoding |
| Resp.Writer.WriteArray | internal/api/redis_queue_protocol.go:531-541 | the loop writes the encoding of the array |
| Resp.Writer.WriteCommand | internal/home/certificate.go:335-348 | the loop writes the encoding of the command |

## Left out

- Sockets, TLS, the redis library, files, OAuth: foreign calls; what is left of them is a writer that may fail short, a
  sender that may refuse, and an atomic register.
- JSON parsing and rewriting, signature inspection, hashing and random drawing: an arbitrary normalizer and new ids.
- Machine integers: revisions, sequences and durations are unbounded; only the decimal and hexadecimal readers keep the
  64-bit limit of the source.
- Memory that runs out: the largest size the run-time system allocates is a parameter of `Resp`, and asking for more is
  one of the outcomes; an allocation within it is taken to succeed.
- The clock of the shared register: its value may expire at any point.
- The kimi and codex caches in the shared form beyond the append log: the same register steps as the antigravity one.
- YAML aliases and anchors in the merge (they are in the graph copy), the style pass over collections, and the rewriting
  of comment indentation; comments, style and position are one opaque part of a node.
- The removal of legacy sections and the pruning of channel maps before the merge: single lookups and removals.
- The holes a reordered list has in the source until its loop fills them: the model fills each place as it comes to it.
- YamlGraph.DeepCopySeen: the table of nodes met is passed along and returned, where the source shares one map.
- YAML text case: lower-casing is an arbitrary function.
- Two flushes at once: the run loop is the only caller, and the end of a send and its acknowledgement are one step,
  before which marks may come at any point.
- The timer, wake and force channels of the release loop, and the wait inside its blocking flush; the steps they start
  are modelled.
- DispatchFence.NothingOutlivesClose: that a closed pool dials no more and hangs up the connections it dialed is taken
  from the redis library.
- The recovery states, the heartbeat flag and the wait for earlier closers of the Home client: they only refuse more.
- Resp.Reader.NextArray: what is unread after an error is not stated, because the connection is given up.
- Write errors of the protocol encoders: a failed writer ends the connection.
- The signature cache, the mux listener and the xai cache: best effort, or weaker copies of what is here.
- Routes, middleware, login commands, plugin synchronisation, log formatting and configuration checks.
