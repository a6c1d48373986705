# Page-level database sync: a model with proofs

The repository is a Go port of `sqlite3_rsync`. Two roles talk over two byte streams: the *origin*
holds the up-to-date database, the *replica* is brought up to it. The replica sends hashes of page
ranges, the origin narrows down the ranges that differ, streams the pages that are missing and sends
a commit message. This project models the two roles, the hash they use and the framing of their
messages, and proves what the whole system does over every run.

How the files build on each other:

- `Prelude`, `Octets`, `Words`, `Ranges`, `Database`: numbers, bytes in 64-bit words, page ranges,
  the tables `badHash` and `sendHash` as maps from first page to count, and a database as its pages.
- `PageHash`: what a range hash absorbs and what a match means. Collision freedom is a hypothesis
  about the pages and page ranges of the two databases (`NoCollision`), never about the hash function.
- `Protocol`: what each role does with one message (`OriginReply`, `ReplicaReply`).
  `OriginSide` and `ReplicaSide` are the loops' bodies as classes whose methods update the run's
  variables and tables in place; each is proved against `Protocol`.
- `Conversation`: the two roles joined by two FIFO streams with write buffers. A run is any sequence
  of steps: a role handles a message, a buffer spills or is flushed, a role sees its stream closed.
  Queries without ORDER BY return rows in an arbitrary order. A handler flushes only where the code
  does; what is written and not flushed may stay in the buffer for ever. That every role reads on
  with an empty buffer is proved, for runs (`Theorems.EmptyBufferAtHead`) and for the loops.
- `Invariant`, `Planning`, `Preservation`: the invariant of honest runs, phase by phase, with a rank
  that every step lowers. `Theorems`, `Outcome`, `PageCount` and `Tallies`: what follows for all runs.
- `WireFormat`, `Framing`: the bytes of every message, their parsing, and the counting reader and
  writer. `Transport`, `Accounting`: the messages of every run survive the streams, and the byte
  counts. `Loops`: both message loops from bytes to bytes against an arbitrary peer. `Refinement`
  and `Permuted`: the runs of the system are runs of those loops, and the loops, fed the bytes of a
  run, do what the run says.
- `Sponge`, `Streaming`, `HashEngine`, `CHash`, `PaddingBits`, `Aggregate`: the block-wise sponge over
  an arbitrary permutation, the Go engine, the C engine it ports (word-at-a-time and big-endian
  variants), and the SQL functions `hash` and `agghash`.

Three hypotheses recur. `Proper`: both page counts are below 2^32 - 1 and each side asks for version
1 or 2. `Compatible`: the replica's file is a database of the origin's page size, or it is
empty and takes on the origin's (at least 512 bytes). `NoCollisions`: no two strings that a run between these databases could compare
by hash collide. An empty replica file first gets a header page. What
SQLite reports about a file with given pages, at every ORIGIN_BEGIN anew, and that header page are
parameters of the scenario.

Two things the code does not do:

- The documentation says (`sqlitersync/README.md:66`, `:139`, `:206`, `:250`) that the replica ends
  with exactly the origin's page count. That holds for files whose page-1 headers hold their own page
  counts, which is what current SQLite writes, unless the origin's last page is the lock-byte page,
  which SQLite does not leave there (`PageCount.CountedFilesConverge`). The code itself does not
  ensure it: when no page is sent the replica commits without truncating, so with header counts that
  are not kept a longer replica can stay longer; and the lock-byte page is never sent.
  `Outcome.Convergence` gives the exact condition, `PageCount.PageCountCanDiffer` and
  `PageCount.PageCountCanFallShort` a run for each case, both under any hash.
- A replica does not answer every malformed stream with an error. Until it accepts an ORIGIN_BEGIN,
  and again after it refuses a newer one, it holds no database connection
  (`sqlitersync/sql.go:104-111`). A message that needs one then makes it panic: it sends nothing and
  returns no error. `Loops.LoopCrashesIff` says exactly when, `Loops.ReadyAloneCrashes` gives the
  shortest input. In runs of two honest roles it never happens (`Theorems.FailsIffIncompatible`).

## Model

| member | source | states |
|---|---|---|
| Theorems.RunInv | sqlitersync/origin.go:171-467 | every state of every run is in some phase of the conversation, and each step used up rank |
| Preservation.Preserve | sqlitersync/replica.go:69-375 | any step of either role leads from a phase's invariant to a phase's invariant of lower rank |
| Theorems.RunsAreBounded | sqlitersync/origin.go:171-467 | every run is finite: at most 16 steps per replica page, 2 per origin page and 21 more |
| Theorems.RoundsAreBounded | sqlitersync/subdivide.go:115-134 | at most 3 hash rounds, 2 up to 1001 replica pages, 1 up to 100 pages or at version 1 |
| Theorems.NoDeadlock | sqlitersync/origin.go:457-463 | until both roles have left, some step can be taken that does not wait for a buffer to spill: the code's own flushes suffice |
| Theorems.EmptyBufferAtHead | sqlitersync/subdivide.go:98-106 | in every run, a role that reads on or finds its stream closed has an empty write buffer |
| Outcome.RunsComplete | sqlitersync/replica.go:69-375 | every run can be continued to one in which both roles have left |
| Theorems.FailsIffIncompatible | sqlitersync/origin.go:247-323 | no role crashes; with one page size neither side ever fails (no duplicate `badHash` key, no missing table or transaction); with two page sizes a run that is over has failed on both sides |
| Outcome.PageSizeDecides | sqlitersync/replica.go:243-255 | a replica file of page size sz: if that is the origin's no side ever fails; otherwise both fail, no page is sent and the file stays as it is |
| Outcome.UnreadableRefused | sqlitersync/replica.go:210-214 | a replica file that is no database is refused and left as it is |
| Outcome.EmptyAdopts | sqlitersync/replica.go:214-226 | an empty replica file takes on the origin's page size from 512 bytes on, and is refused below unless SQLite would choose that size anyway |
| Tallies.Negotiation | sqlitersync/replica.go:117-140 | at most one REPLICA_BEGIN is sent, and once a batch was hashed exactly one if and only if the origin's version is newer; both sides then run at the older version; a run at version 1 or with at most 100 pages carries no REPLICA_CONFIG, ORIGIN_DETAIL or ORIGIN_READY |
| Theorems.HalfDuplex | sqlitersync/subdivide.go:98-106 | at most one direction holds unread messages, buffered or not |
| Theorems.CounterAgreement | sqlitersync/origin.go:232-323 | at every REPLICA_HASH the origin's counter names the row the replica hashed, the digest is that row's, and the 32-bit sum does not wrap, although REPLICA_CONFIG is left out when predicted |
| Theorems.HashOnTheWire | sqlitersync/subdivide.go:14-22 | every REPLICA_HASH of a run, when the origin takes it, is of one page the hash of the replica's content, of several the hash of their hashes one after the other, for the pages the origin's counter names |
| Theorems.VerdictOnTheWire | sqlitersync/origin.go:276-319 | and its range enters `badHash` exactly if the same hash of the origin's own pages, of as many of them as it has, is another one or it has none |
| Theorems.Partition | sqlitersync/origin.go:330-378 | until the page stream the rejected ranges, the rows to hash, the detail requests and the hashes in flight are disjoint ranges of the replica; each rejected one holds a faulty page; without collisions a page outside all of them is equal |
| Tallies.TrafficBound | sqlitersync/subdivide.go:115-134 | the number of REPLICA_HASH messages of a run: beyond 1001 pages 1 + ceil((n-1)/1000) + 64d, up to 1001 pages 1 + ceil((n-1)/30) + 30d, with d pages that differ or lie past the origin's end |
| Tallies.HashesSent | sqlitersync/subdivide.go:76-87 | one REPLICA_HASH is sent for each row hashed |
| Outcome.OnlyMissingTravels | sqlitersync/origin.go:399-433 | at any time the pages sent are missing ones, each at most once, with the origin's content, whatever collides |
| Outcome.Exactness | sqlitersync/origin.go:387-433 | a run that is over has sent exactly the missing pages, each once, and both sides counted them |
| Outcome.ExactlyWhichPages | sqlitersync/origin.go:155-158 | without collisions page p has been sent if and only if the origin has it, byte 2^30 of the file does not lie in it, and the replica had no such page or another content |
| Outcome.Convergence | sqlitersync/replica.go:298-371 | a run that is over has committed the origin's pages (but for the lock-byte page and the WAL bytes of page 1); nothing changed if nothing was missing; the page count is the origin's if and only if `SizeCondition` |
| Outcome.CommittedPage | sqlitersync/replica.go:347-362 | page by page, what a run that is over commits: the origin's content; only on page 1 of a WAL replica, if it was sent with byte 18 at 1, bytes 18 and 19 become 2 |
| PageCount.PageCountCanDiffer | sqlitersync/replica.go:303-308 | between two readable files with uncounted headers, under any hash, a complete run after which the replica has two pages although the origin has one |
| PageCount.NothingMissing | sqlitersync/replica.go:303-308 | if no page is missing the replica keeps every page it has, whatever collides |
| PageCount.LockBytePageLast | sqlitersync/origin.go:398-401 | an origin that ends with its lock-byte page leaves a shorter replica one page short, whatever collides |
| PageCount.PageCountCanFallShort | sqlitersync/origin.go:398-401 | such a run, under any hash |
| PageCount.CountedFilesConverge | sqlitersync/replica.go:298-329 | between files whose headers hold their own page counts the replica ends with exactly the origin's, unless that ends with the lock-byte page |
| Outcome.Confluence | sqlitersync/origin.go:39-45 | any two complete runs between the same databases commit the same pages, however rows were ordered and messages were buffered |
| Outcome.Atomicity | sqlitersync/replica.go:298-329 | cut after any number of steps, the committed database is the initial one or the one the whole run commits |
| Refinement.CutAnywhere | sqlitersync/replica.go:298-329 | cut after any number of bytes of the origin's stream, the replica's loop leaves the initial database or the one the whole run commits |
| Outcome.PagesBeforeCommit | sqlitersync/origin.go:434-456 | while pages are on their way the transaction is open, nothing is committed, and no commit message has been read |
| Tallies.PagesAfterDetails | sqlitersync/origin.go:366-433 | in every run, once a page has been sent no multi-page entry is left in `badHash` |
| Tallies.StatsAgree | sqlitersync/sync.go:64-73 | what both sides report of a complete run: hash messages, rounds, pages, version, and on the replica the origin's page size and page count |
| Tallies.CommitCuts | sqlitersync/replica.go:309-328 | a commit after inserts cuts the file to the count named, below 2^32 - 1, if it is longer |
| Tallies.CommitAlone | sqlitersync/replica.go:303-328 | a commit with no transaction open fails; what was truncated before it stays truncated |
| Outcome.RefusalChangesNothing | sqlitersync/replica.go:243-255 | between two page sizes nothing is committed and no page is sent |
| Outcome.StagedPages | sqlitersync/replica.go:330-371 | staging pages in any order overlays the replica with the origin's pages, blank in between |
| Refinement.LoopFollowsRun | sqlitersync/replica.go:69-375 | the replica's loop, given the bytes an origin wrote in a complete run, reads that run's messages, answers as in the run, ends without error, commits the run's database, and has counted all bytes read and written |
| Refinement.EndToEnd | sqlitersync/replica.go:69-375 | so, without collisions, it commits a synced database, of the origin's page count exactly under `SizeCondition` |
| Refinement.ReplicaOfRun | sqlitersync/replica.go:69-375 | in every run the replica's state and output are those of its loop on the messages it has read |
| Refinement.OriginOfRun | sqlitersync/origin.go:171-467 | the same for the origin, for some order of its query results |
| Permuted.OriginLoopFollowsRun | sqlitersync/origin.go:171-467 | the origin's loop, given the bytes a replica wrote in a complete run, reads that run's messages, ends without error and, whatever order its queries return rows in, sends the run's messages in some order, each page once |
| Permuted.OriginStreamsMissing | sqlitersync/origin.go:399-433 | so, without collisions, it streams exactly the missing pages |
| Permuted.PlayedShuffled | sqlitersync/origin.go:39-45 | whatever the origin is sent, its state does not depend on the order of its query results, and its messages only in their order |
| Permuted.CountersAgree | sqlitersync/sync.go:137-148 | the byte counters both loops report for a complete run: each side's written is the other's read; 7 per ORIGIN_BEGIN, 9 per detail, one per round but the last, 5 + page size per page, 6; and 21 per hash, 9 per config, one per round, 2 per REPLICA_BEGIN |
| Loops.OriginLoop | sqlitersync/origin.go:171-467 | on any input bytes: every reply to the messages in them is delivered and counted, the buffer is empty, every byte of them is counted as read, and the loop ends by the protocol, at the end of the stream, or on bytes that are no message |
| Loops.OriginEndsIff | sqlitersync/origin.go:171-197 | on any input bytes the origin's loop ends without an error if and only if the last message it took is REPLICA_END, or it is still running and its input ends with a whole message |
| Loops.OriginTake | sqlitersync/origin.go:171-467 | one turn of that loop, with flushes only after REPLICA_BEGIN, after REPLICA_READY and with errors: entered with an empty write buffer, it reads on with an empty one |
| Loops.OriginWritesFlushed | sqlitersync/origin.go:222-228 | whatever the origin writes while it runs on is written by a handler that ends with a flush; all else is an error message |
| Loops.ReplicaLoop | sqlitersync/replica.go:69-375 | the same for the replica, with the database it leaves committed, also by inserts and truncations outside a transaction; a batch with a number beyond 32 bits ends in an error, the use of a database connection there is not in a crash |
| Loops.ReplicaEndsIff | sqlitersync/replica.go:69-95 | on any input bytes the replica's loop ends without an error if and only if the last message it took is ORIGIN_END, or it is still running and its input ends with a whole message |
| Loops.LoopCrashesIff | sqlitersync/replica.go:280-343 | on any input bytes the loop crashes if and only if some message they hold finds the replica running and needs a database (ORIGIN_DETAIL, ORIGIN_READY, ORIGIN_TXN, ORIGIN_PAGE) while the last ORIGIN_BEGIN before it, if any, was not accepted; that message is the last one taken and gets no answer |
| Loops.ReadyAloneCrashes | sqlitersync/replica.go:293-297 | the single byte of ORIGIN_READY crashes the replica, with nothing sent |
| Loops.ReplicaTake | sqlitersync/replica.go:69-375 | one turn of that loop, with flushes only after ORIGIN_BEGIN, after ORIGIN_READY and with errors: entered with an empty write buffer, it reads on with an empty one; page data is read only if there is a database to store it in |
| Loops.ReplicaWritesFlushed | sqlitersync/replica.go:130-136 | whatever the replica writes while it runs on is written by a handler that ends with a flush; all else is an error message |
| Transport.BytesCarryTheRun | wire/wire.go:165-217 | at any time of any run every message fits its encoding and each direction's bytes parse to exactly the messages written |
| Transport.NextOnTheWire | sqlitersync/replica.go:105-140 | the page size in the replica's state is the right one at the byte position it has reached: it reads exactly the next message |
| Accounting.ByteTotals | sqlitersync/sync.go:56-63 | the sizes of a complete run's two byte streams, by kinds of messages, with one ORIGIN_BEGIN or, after a downgrade, two; no byte of them is left uncounted by the writers |
| Accounting.OriginTextUncounted | wire/wire.go:344-365 | the bytes of any message sequence exceed the writer's count by one for each text message |
| Accounting.ReplicaTextUncounted | wire/wire.go:344-365 | the same for the replica's direction |
| WireFormat.DownStream | wire/wire.go:269-320 | however a stream is cut, exactly the messages that arrived in full are read, with the page length of the last accepted ORIGIN_BEGIN; the uncut stream gives back all |
| WireFormat.UpStream | wire/wire.go:258-320 | the same for the replica's messages |
| WireFormat.OriginInverse | sqlitersync/origin.go:399-456 | a message followed by anything parses back to itself |
| WireFormat.ReplicaInverse | sqlitersync/subdivide.go:56-88 | a message followed by anything parses back to itself |
| WireFormat.OriginCut | wire/wire.go:150-174 | a stream that ends inside a message is recognised as such |
| WireFormat.ReplicaCut | wire/wire.go:150-174 | a stream that ends inside a message is recognised as such |
| WireFormat.OriginCanonical | wire/wire.go:165-217 | a message that was read, written again, gives the bytes it was read from |
| WireFormat.ReplicaCanonical | wire/wire.go:165-217 | a message that was read, written again, gives the bytes it was read from |
| WireFormat.WritableSizes | wire/wire.go:293-304 | the test v & (v-1) accepts exactly the powers of two up to 65536, and zero |
| WireFormat.SizeOfExponent | wire/wire.go:182-191 | an exponent up to 16 names a page size that is written as that exponent |
| WireFormat.NumberOfUint32 | wire/wire.go:165-174 | a 32-bit number is read back as written |
| WireFormat.Uint32Ordered | wire/wire.go:269-275 | the most significant byte goes first: where the bytes of two numbers first differ, the smaller number has the smaller byte |
| WireFormat.BeginFrame | sqlitersync/origin.go:133-148 | version 2, page size 4096 and a page count, byte by byte |
| WireFormat.OriginFrames | wire/wire.go:92-100 | frames of ORIGIN_END, ORIGIN_PAGE, ORIGIN_TXN and ORIGIN_READY, byte by byte |
| WireFormat.DetailFrame | sqlitersync/origin.go:344-355 | a frame of ORIGIN_DETAIL, byte by byte |
| WireFormat.TextFrames | wire/wire.go:348-366 | frames of the four text messages, byte by byte |
| WireFormat.ReplicaFrames | wire/wire.go:105-114 | one frame of each other replica message, byte by byte |
| WireFormat.TextLimit | wire/wire.go:370-384 | a text of up to 1048576 bytes is read, a longer one refused |
| Framing.Writer.Write | wire/wire.go:246-248 | bytes pass through the 4096-byte buffer in order, none lost; what was delivered stays |
| Framing.Writer.Flush | wire/wire.go:329-331 | afterwards everything written has been delivered |
| Framing.Writer.WriteByte | wire/wire.go:258-265 | one byte is written and counted |
| Framing.Writer.WriteUint32 | wire/wire.go:269-275 | four bytes, most significant first, written and counted |
| Framing.Writer.WritePow2 | wire/wire.go:293-304 | accepts exactly page sizes and zero, writes the exponent (zero as if it were one), otherwise writes and counts nothing |
| Framing.Writer.WriteBytes | wire/wire.go:313-321 | the bytes are written and counted |
| Framing.Writer.WriteMessage | wire/wire.go:348-366 | type, length and text written and flushed; the type byte is not counted |
| Framing.Writer.SendOrigin | sqlitersync/origin.go:337-456 | the fields of each origin message are its encoding |
| Framing.Writer.SendReplica | sqlitersync/subdivide.go:56-88 | the fields of each replica message are its encoding |
| Framing.Reader.ReadFull | wire/wire.go:205-217 | all the bytes asked for, or the end of the stream told apart by whether any byte was left |
| Framing.Reader.ReadByte | wire/wire.go:150-159 | the next byte, counted, or the end of the stream |
| Framing.Reader.ReadUint32 | wire/wire.go:165-174 | the next number; only a full read is counted |
| Framing.Reader.ReadPow2 | wire/wire.go:182-191 | a page size; an exponent above 16 is counted and refused |
| Framing.Reader.ReadBytes | wire/wire.go:205-217 | the next bytes; a negative count is refused unread; only a full read is counted |
| Framing.Reader.ReadMessage | wire/wire.go:375-384 | the text of a text message, refused beyond 1 MiB |
| Framing.Reader.NextOrigin | sqlitersync/replica.go:69-117 | the fields read for each type byte are the parse of the stream |
| Framing.Reader.NextReplica | sqlitersync/origin.go:171-242 | the fields read for each type byte are the parse of the stream |
| OriginSide.Origin.constructor | sqlitersync/origin.go:160-165 | the counter starts at page 1, one page |
| OriginSide.Origin.Handle | sqlitersync/origin.go:171-467 | one message: new state and replies are those of `OriginReply` |
| OriginSide.Origin.OnBegin | sqlitersync/origin.go:198-231 | an older version is adopted and announced again, anything else refused |
| OriginSide.Origin.OnConfig | sqlitersync/origin.go:232-242 | the announced range replaces the counter and nothing else changes |
| OriginSide.Origin.OnHash | sqlitersync/origin.go:243-323 | a mismatch enters `badHash` under a new key or fails; the counter advances modulo 2^32 |
| OriginSide.Origin.OnReady | sqlitersync/origin.go:324-463 | detail requests for the multi-page entries, or the gap filled, the lock-byte page dropped, and the page stream with commit and end |
| OriginSide.Origin.WriteDetails | sqlitersync/origin.go:330-365 | one request per multi-page entry, in some order |
| OriginSide.Origin.FillGap | sqlitersync/origin.go:387-397 | adds the pages never hashed, or reports that one is there already |
| OriginSide.Origin.WritePages | sqlitersync/origin.go:402-433 | one page message per entry that exists, in some order, each counted |
| ReplicaSide.Replica.constructor | sqlitersync/replica.go:23-68 | nothing is open, the file is as found |
| ReplicaSide.Replica.Handle | sqlitersync/replica.go:69-375 | one message: new state and replies are those of `ReplicaReply`; without a database connection the messages that need one crash it |
| ReplicaSide.Replica.OnBegin | sqlitersync/replica.go:96-279 | a newer version is answered by REPLICA_BEGIN, a file of another page size or that is no database refused; otherwise the database is opened, in the journal mode it has now, and the first batch sent |
| ReplicaSide.Replica.FillSendHash | sqlitersync/replica.go:256-275 | single pages at version 1 or up to 100 pages, else page 1 and chunks |
| ReplicaSide.Replica.InsertSingles | sqlitersync/replica.go:256-264 | one row per page, at least one |
| ReplicaSide.Replica.SubdivideHashRange | sqlitersync/subdivide.go:115-134 | the recursive query inserts exactly the chunks of the range |
| ReplicaSide.Replica.WriteRows | sqlitersync/subdivide.go:45-93 | the cursor writes the batch of the table's rows in page order, announcing only unpredicted rows, and counts every row |
| ReplicaSide.Replica.SendHashMessages | sqlitersync/subdivide.go:34-107 | one batch ends with REPLICA_READY and leaves the table empty |
| ReplicaSide.Replica.OnTxn | sqlitersync/replica.go:298-329 | commits as it is when no page came, otherwise truncates first, which fails for zero pages; with no transaction open the truncation stands and the commit fails |
| ReplicaSide.Replica.OnPage | sqlitersync/replica.go:330-371 | stages the page, keeping page 1 in WAL mode |
| ReplicaSide.EmitRow | sqlitersync/subdivide.go:56-90 | a batch is the messages of its first row and the batch of the rest under the advanced counter |
| Preservation.HashVerdict | sqlitersync/origin.go:276-319 | what one verdict says about the range: equal pages if accepted (without collisions), a faulty page if rejected, and never a key that is there already |
| Preservation.GapIsFree | sqlitersync/origin.go:387-397 | the growth tail meets no entry of `badHash` |
| Preservation.MissingIsSwept | sqlitersync/origin.go:387-433 | without collisions every missing page is in the page stream |
| Preservation.ChosenPages | sqlitersync/origin.go:387-433 | the page stream has each page once, only missing ones, every page past the replica's end, and without collisions all missing ones |
| Ranges.SubdivisionTiles | sqlitersync/subdivide.go:115-134 | the chunks of a range are consecutive, disjoint, non-empty and cover it; strictly shorter than a range of several pages; single pages up to 30 |
| Ranges.SubdivisionLengths | sqlitersync/subdivide.go:117-123 | every chunk but the last has 1 page for ranges up to 30, 30 up to 1000, 1000 beyond |
| Ranges.SubdivisionSize | sqlitersync/subdivide.go:115-134 | the number of chunks is the range's length over the chunk size, rounded up |
| Ranges.SubdivisionsCommute | sqlitersync/replica.go:280-292 | any number of detail requests for disjoint ranges, in whatever order they come, build one table |
| Planning.InitialRowsTile | sqlitersync/replica.go:256-275 | the first batch tiles the replica's pages |
| PageHash.RangeCheck | sqlitersync/origin.go:276-313 | without collisions the hash of a replica range is accepted if and only if the range exists on the origin and every page is equal |
| PageHash.EqualRangeMatches | sqlitersync/origin.go:276-313 | a range of equal pages is accepted whatever the hash function |
| PageHash.RowHashIs | sqlitersync/subdivide.go:14-22 | a row's hash: of one page the hash of its content, of several the hash of their hashes one after the other |
| PageHash.MatchesIs | sqlitersync/origin.go:20-30 | the origin accepts exactly the same hash of its own pages, of as many of the range as it has |
| Database.LockByteLies | sqlitersync/origin.go:155-158 | the lock-byte page is the one page in which byte 2^30 of the file lies |
| Database.WritePage | sqlitersync/replica.go:17-17 | one page replaced, the file extended with blank pages if need be |
| Database.Truncate | sqlitersync/replica.go:309-322 | the pages up to n remain |
| Database.KeepWal | sqlitersync/replica.go:347-362 | bytes 18 and 19 of page 1 of a WAL replica become 2 exactly when byte 18 is 1; nothing else changes |
| HashEngine.HashContext.HashInit | hash/hash.go:159-168 | an empty message, rate by size |
| HashEngine.HashContext.HashUpdate | hash/hash.go:176-185 | absorbs the bytes behind those absorbed before, so any split of the input gives one state |
| HashEngine.HashContext.HashFinal | hash/hash.go:198-214 | for 160 bits the digest of all that was absorbed is the block-wise sponge's, in both padding branches; for other sizes none (the source panics) |
| Words.AtIsShift | hash/hash.go:176-178 | a byte goes to bits 8j to 8j + 7 of its lane, spelled out for the eight positions |
| Words.ByteOfIsShift | hash/hash.go:209-212 | and is read from there |
| Streaming.XorBlockBytes | hash/hash.go:176-178 | byte k of a block changes byte k % 8 of lane k / 8 and nothing else |
| Streaming.SqueezeTakesFirst | hash/hash.go:209-212 | the digest is the first 20 bytes of the state |
| Streaming.RateAndCapacity | hash/hash.go:159-168 | of 1600 bits the capacity is twice the hash size, rounded up to 32 bits; 256 for sizes out of range |
| Streaming.HashOfOneBlock | hash/hash.go:198-214 | a message that fits into one block with its padding is permuted once |
| Streaming.AbsorbLast | hash/hash.go:176-185 | absorbing one more block is one more permutation |
| Streaming.StreamNext | hash/hash.go:176-185 | one byte into one lane, with the permutation when the block is full, is absorbing one more byte |
| Streaming.StreamZeros | hash/hash.go:202-208 | moving the count to the last byte of the block is absorbing zero bytes |
| Streaming.StreamHash | hash/hash.go:198-214 | squeezing after message and padding gives the sponge's hash |
| PaddingBits.PaddingIsStandard | hash/hash.go:202-208 | the padding bytes 06..80 or 86, as bits, are 01 followed by pad10*1 of FIPS 202 |
| CHash.HashContext.HashInit | testdata/sqlite3_rsync.c:760-784 | the zeroed union is the empty message, in either byte order |
| CHash.HashContext.HashUpdate | testdata/sqlite3_rsync.c:790-823 | whatever the byte order and the alignment, with or without the word-wise loop: absorbs the bytes behind those absorbed before |
| CHash.HashContext.AbsorbWord | testdata/sqlite3_rsync.c:797-806 | eight bytes taken as one word are eight bytes absorbed |
| CHash.HashContext.AbsorbByte | testdata/sqlite3_rsync.c:808-822 | one byte at the swapped index is one byte absorbed |
| CHash.HashContext.HashFinal | testdata/sqlite3_rsync.c:830-846 | the digest at the copied bytes is the same function of the message as in the Go port |
| CHash.StreamWord | testdata/sqlite3_rsync.c:797-806 | a word of input into a word of the state is eight steps of the byte-wise stream |
| CHash.AddressFlipsLowBits | testdata/sqlite3_rsync.c:809-816 | on a big-endian machine the index has the three low bits of n flipped, which is n ^ 7 |
| CHash.WordsXorByte | testdata/sqlite3_rsync.c:809-816 | exclusive or at index n ^ ixMask changes byte n of the words and nothing else |
| CHash.WordsStored | testdata/sqlite3_rsync.c:842-844 | words stored as bytes in the machine's order are read back |
| Aggregate.HashFunc | hash/sql.go:31-53 | NULL for NULL, the hash of BLOB or TEXT bytes, an error for numbers |
| Aggregate.AgghashAggregate.Step | hash/sql.go:103-124 | skips NULL, absorbs bytes, fails on numbers having started the hash |
| Aggregate.AgghashAggregate.WindowValue | hash/sql.go:138-147 | the hash of the concatenation, NULL if no row counted, the same when asked again |
| Aggregate.RangeQuery | sqlitersync/origin.go:27-30 | the recursive query evaluated row by row, which always visits its first page, is the range hash of the protocol model |
| Aggregate.PageQuery | sqlitersync/origin.go:20-21 | the single-page query evaluated with `hash`: the hash of the page's content, no row without the page |

## Left out

- SQLite itself, beyond what it reports about a file when it is opened: page cache, WAL files, locks, the commit-time rewrite of page-1 counters; a database is its pages and one transaction.
- What SQLite refuses to store beyond page number zero and truncation to zero pages: the lock-byte page, numbers past its limit. Two honest roles never ask for it.
- Opening files, ATTACH and the text-encoding retry, PRAGMAs, the WAL-mode guards (`walOnly`), `writable_schema`.
- Error texts: an error message carries an empty text in the protocol model; the framing is proved for all texts up to 1 MiB.
- Write errors and context cancellation: the connection takes everything that is flushed; stopping early is covered by Outcome.Atomicity.
- The communication check mode, the mapping of options and the assembly of statistics.
- The rounds of `keccakF1600Step`: the permutation is an arbitrary function on 25 lanes.
- The lifetime of the database connection is the status of the role: leaving rolls back an open transaction.
- Dishonest peers beyond what `Loops` says: its contracts are about arbitrary input bytes, the theorems about runs about two honest roles.
- Values of `hash` and `agghash` for numbers and for TEXT with embedded NUL bytes beyond the error and the bytes that arrive.
- Database.KeepWal: leaves pages shorter than 20 bytes alone, where the source would index past their end; real page sizes exclude them.
- Loops.ReplicaLoop: when a number of a batch exceeds 32 bits the model sends one error message; the counters of that failed run are not modelled.
- Sequences of more than 2^64 bytes: byte counters are unbounded.
- Registration of the SQL functions, transport over processes or SSH, and the tools around the C original.
