# Verification of Sombrero's state machines

Sombrero is an SMB2/3 server in front of Sia storage. This project models, in Dafny, the parts of it whose correctness is
not obvious from reading one function, and proves what they promise over every input and every run. Objects the server
changes in place are classes with the same fields and the same steps; each step is proved against a specification on
values, and what holds over whole runs is proved by methods named `Run`, which take any sequence of events and are tied
to them by a reference that is told from the events alone.

- **Uploads** (`UploadQueue`, `UploadParts`, `Upload`, `UploadRun`). A file is a map from offset to byte. Writes arrive in
  any order, are queued, joined, cut into numbered parts that land in any order, truncated and completed; what is stored is
  the file. A write that is queued over an older one is only right under a condition on the queue, which
  `LastWriteWinsExactly` gives exactly; so the model keeps apart the file as the client wrote it and the file as the upload
  has it, and says of every run what becomes of either.
- **Oplocks and leases** (`Lease`, `Oplock`, `Caching`, `CachingView`, `CachingRun`). What a client may cache, how it is asked to give it up,
  and who waits for it. The steps are the sections under the locks of the server, of an open and of a lease; an answer, and
  a notification with what follows at once from it, are one step each. Sections 3.3.5.22.1 and 3.3.5.22.2 of MS-SMB2 cover the
  answers.
- **Byte-range locks** (`Locks`), as in section 3.3.5.14 of MS-SMB2.
- **Object tags and slabs** (`Varint`, `ObjectTag`, `TagCode`, `Slab`). Compression and the checksum are parameters; all that is
  asked of them is that what was deflated inflates again and that a checksum has 32 bits. The largest size of a tag is a
  parameter too.
- **The index of opens** (`OpenIndex`).
- **Credits and channel sequences** (`Credits`, `ChannelSequence`), as in sections 3.3.1.1, 3.3.1.2 and 3.3.5.2.10 of MS-SMB2.
- **Carving and the read cache** (`Walkers`, `Carve`, `LostFound`, `ReadCache`). The patterns of a PDF and the checksum of a PNG are
  parameters of which nothing is asked.

Where the code keeps what one would expect of it only under a condition, the model follows the code and proves exactly what
the condition is, with a concrete case in which it fails:

- A queued write that overlaps an older queued one may be lost or shown through (`UploadQueue.LastWriteWinsExactly`,
  `UploadQueue.OverlapsGoWrong`).
- After a cut at the boundary of a part, the bytes kept of the last part sent may be those of a part cut off, and a read may
  be answered with them; they are exactly if the cut is where that part begins (`Uploading.Upload.CutBackToSent`, `UploadRun.StaleRead`).
- A lease key is tied to a path and not to a share, so that one lease may cover two files; a grant then keeps promises apart
  exactly if it clashes with nothing on the other share (`Caching.Server.GrantLease`, `CachingRun.LeaseOverTwoShares`).
- The comment on `join` says that the table always knows a lease an open holds; it does exactly if no other lease was taken out
  under the key between the look-up and the joining (`Caching.Server.GrantLease`, `CachingRun.LeaseUnknown`).
- Unlocking after a shared lock over a range held exclusively gives the exclusive lock back, as the code says it should
  (`Locks.UnlockUndoesLock`, `Locks.ExclusiveGivenBack`).
- A tag is read back exactly if its pieces are within the reader's bounds, among them that a run starts below 2^63
  (`ObjectTag.PackRoundTrip`, `ObjectTag.TooFarIn`).
- The request counters go wrong when a request is answered a whole round of the 16-bit sequence after it was counted, and only
  then (`ChannelSequence.Open.Release`, `ChannelSequence.RoundAgo`).

The two loops after the search in `encode`, on the other hand, never take a step (`TagCode.Search`).

`dafny verify dfyconfig.toml` checks the whole project.

## Model

| member | source | states |
|---|---|---|
| `UploadQueue.LastWriteWinsExactly` | open.go:2106-2121 | For every queue that shows the file, overlapping chunks included, and every offset not taken yet: queueing a write there leaves the file as the client wrote it, whatever bytes it carries, if and only if no chunk that starts lower reaches past the offset and what the write leaves uncovered of the chunk it replaces the other chunks have |
| `UploadQueue.OlderShowsThrough` | open.go:267-299 | Whenever a chunk that starts lower reaches past the offset, there is a write whose first byte it hides |
| `UploadQueue.OverlapsGoWrong` | open.go:2106-2121 | A concrete queue on which one write loses the end of the older chunk it replaces, and another does not show behind an older one |
| `UploadQueue.QueueingShows` | open.go:2106-2121 | The same for one write and its bytes: the queue shows exactly the file with the write laid over it if and only if the write may be queued |
| `UploadQueue.LaidAsMeant` | open.go:2087-2121 | What the upload makes of the file by a write, laid over it or queued, is what the client meant if and only if the write starts inside what is joined or may be queued |
| `UploadParts.IssuePart` | open.go:354-369 | Giving the next number to the next slab keeps the parts tiling what was sent with no gap and no overlap, in the order of their numbers |
| `UploadParts.LandedAccounted` | open.go:2143-2198 | A part that lands, in any order, keeps every standing part accounted for as on its way or landed |
| `UploadParts.CutParts` | open.go:375-429 | Leaving out the parts past a cut keeps the remaining ones tiling exactly the bytes before the cut |
| `UploadParts.EndsCut` | open.go:403-426 | The landed parts a cut leaves are exactly those that end by it |
| `UploadParts.CompletedIsSent` | open.go:2460-2511 | If every standing part has landed, the landed parts sorted by number and joined are exactly the bytes sent |
| `UploadParts.LastOnBoundary` | open.go:354-369 | Until the last part goes out, the last sent part begins at a multiple of the part size |
| `UploadParts.PartsAre` | open.go:354-369 | How many full parts so many bytes make, how many they go out in, and where the last full one ends are the quotients and the remainder by the part size |
| `UploadParts.CutEnds` | open.go:354-369 | The i-th part cut gets the i-th next number and ends i part sizes on |
| `Uploading.Upload.ReadBuffered` | open.go:130-161 | Exactly when a read is answered from memory, and with which bytes: the head's, or else the kept last part's, or else the file's as the upload has it; as long as that is the client's file, a read inside the size is answered with what the file holds if the head answers, and if another does unless the kept part was cut off |
| `Uploading.Upload.KeepHead` | open.go:243-260 | The kept head is the old one with the write laid over it, grown with zeros and cut off at its limit |
| `Uploading.HeadNextHolds` | open.go:243-260 | So the kept head goes on holding the first bytes of the file as the client writes them, in whatever order |
| `Uploading.Upload.TakePending` | open.go:267-299 | Joins exactly what reaches the buffer, keeps the buffer and the queue an account of the file as the upload has it, and leaves only chunks that start past it |
| `Uploading.Upload.TakeSlabs` | open.go:354-369 | Cuts full parts off the buffer, losing and reordering no byte; which number each of them gets and where it ends |
| `Uploading.Upload.SendPart` | open.go:2143-2150 | Puts a numbered part on its way without changing the account |
| `Uploading.Upload.Land` | open.go:2150-2198 | One part reaches the backend or fails; what is stored under its number is that part, and where the landed parts end |
| `Uploading.Upload.Rewrite` | open.go:2087-2104 | A write that starts inside the buffer replaces those bytes |
| `Uploading.Upload.Write` | open.go:2054-2137 | Exactly which writes are refused and why; one taken leaves the client's file with the write laid over it, and of what the upload has of the file, the queue, the end of what is joined, the parts on their way, the kept part and the kept head exactly what; what is joined then ends at the first byte nobody wrote, or past the write if it started inside; what the upload has is what the client meant if and only if the write started inside what was joined or could be queued |
| `Uploading.Upload.CutTo` | open.go:167-195 | Cutting inside the buffer leaves exactly the first n bytes, and nothing queued past n |
| `Uploading.Upload.CutInsideLast` | open.go:375-402 | Cutting inside the last sent part takes its front back into the buffer and leaves exactly the first n bytes |
| `Uploading.Upload.CutBehindPart` | open.go:403-426 | Cutting where a landed part ends leaves exactly the parts before it; the kept bytes of the last part go stale if and only if that part began right there |
| `Uploading.Upload.CutBackToSent` | open.go:375-429 | With nothing on its way, a cut behind sent parts succeeds exactly if it falls inside the kept part or where a landed part ends, so anywhere less than a part back while the last part is kept; it leaves exactly the first n bytes and the parts that end by it, and otherwise nothing changes; the kept bytes go stale exactly if the cut is where they begin |
| `Uploading.Upload.SetEndOfFile` | open.go:2218-2259 | Every outcome of setting the end and exactly when it comes about, whatever fails: a cut behind sent parts succeeds if and only if it falls inside the kept part or where a part ends that has landed once nothing is on its way; while the last part is kept and none fails, if and only if it is less than a part back or at a multiple of the part size; one that succeeds leaves exactly the first n bytes, any other changes nothing of the file |
| `Uploading.Upload.GapAhead` | open.go:306-324 | The distance to the lowest queued write |
| `Uploading.Upload.FillGap` | open.go:332-348 | Writes zeros over the front of the hole, a part's worth at most, and counts exactly what it wrote |
| `Uploading.Upload.FillHoles` | open.go:2400-2440 | Fills holes until nothing is queued if and only if the file can be filled, and otherwise reports which of the two reasons stands against it; how many parts that sends |
| `Uploading.Upload.Flush` | open.go:2367-2511 | Every way a flush ends, told from what the upload has of the file and the numbers of the parts that fail: refused if and only if byte 0 is missing from a file that is not empty, or the holes come to more than 64 MiB; failed if and only if one of the parts on their way or of those it sends itself fails; and otherwise it stores exactly the file, zeros in the holes, up to the highest byte written |
| `Uploading.FlushMeans` | open.go:2367-2511 | However a flush ends: what it stores is the file with zeros where nobody wrote, up to the last byte written; it stores it whenever it can be filled and no part fails, and never once one has failed |
| `Uploading.FillableMeans` | open.go:2400-2440 | A file can be filled if and only if it is empty, or its first byte is written and below no byte written more than 64 MiB of offsets are not, counted as a set |
| `UploadRun.Run` | open.go:2054-2511 | Over every run of writes, reads, cuts and landings, in any order and whatever fails, told from the events alone: exactly which events take effect, exactly what every read is told, stale answers included, exactly which event calls the run off, and exactly how the flush ends; at every point the upload has had the file as the client wrote it if and only if every write was in order; writes that touch no byte twice always are, and without a failing part such a run gets to its flush |
| `UploadRun.StoredAsWritten` | open.go:2367-2511 | What a run stores of a file the upload has as the client wrote it is that file, zeros in its holes, up to its last byte; without a failing part it is stored if and only if it can be filled |
| `UploadRun.StaleRead` | open.go:403-426 | The run in which a read is answered wrongly: two parts are sent, the end is set where the second begins, the byte there is written anew, and a read of it is told the old one |
| `Leases.LeaseBreakTarget` | lease.go:68-74 | The target never lets the holder write, is never more than it had, and is nothing for one who changes the file |
| `Leases.Lease.StartBreak` | lease.go:309-339 | Nothing to wait for means no more is held than was asked for; otherwise the wait is on the break in flight, which goes at least that far down; the client has to be told exactly if it is to give something up or more than it was last told, and a new epoch starts exactly then |
| `Leases.Lease.FinishBreak` | lease.go:369-380 | Closes the one channel in flight, once, with the lease at or below what every waiter on it demanded |
| `Leases.Lease.ExpireBreak` | lease.go:356-365 | A timer ends the break that was in flight when it was started, and no other |
| `Leases.Lease.Send` | lease.go:402-457 | A client that cannot be reached loses the lease; one that need not answer is done; any other starts a timer for the break in flight |
| `Leases.Lease.Acknowledge` | lease.go:541-576 | Every outcome of an answer: the client keeps what it answered with only if that is within what it was last told, and never the write cache |
| `Leases.Lease.Join` | lease.go:157-172 | Joining sets the state, in the middle of a break or not, and leaves the promise to every waiter standing |
| `Leases.Lease.Leave` | lease.go:178-214 | The last open to leave ends the lease and lets every waiter go; any other changes nothing but the list |
| `Oplocks.OplockBreakTarget` | oplock.go:32-38 | Level II for one who only reads, none for one who changes the file |
| `Oplocks.AnswersBelow` | oplock.go:565-574 | The levels that are answers at all are those below the one held |
| `Oplocks.Open.StartBreak` | oplock.go:54-84 | Nothing to wait for means the level is no higher than was asked for; otherwise the wait is on the break in flight, which goes at least that far down, and the client has to be told exactly if it is to come down or further down than it was last told |
| `Oplocks.Open.FinishBreak` | oplock.go:115-131 | Closes the one channel in flight, once, with the level at or below what every waiter on it demanded |
| `Oplocks.Open.ExpireBreak` | oplock.go:102-111 | A timer ends the break that was in flight when it was started, and no other |
| `Oplocks.Open.Release` | oplock.go:136-146 | The oplock goes, and with it the break in flight |
| `Oplocks.Open.Send` | oplock.go:174-216 | A client that cannot be reached, or holds level II, is done; any other starts a timer for the break in flight |
| `Oplocks.Open.Acknowledge` | oplock.go:547-591 | Every outcome of an answer, error cases included, in the levels themselves: it is taken if and only if it is at or below what the client was last told; it leaves the break standing if it is above that and below what was held; any other costs the oplock |
| `Caching.Server.HoldersIn` | oplock.go:284-318 | Exactly the oplocks and active leases that are not the asker's own |
| `Caching.Server.ExclusiveHeld` | oplock.go:345-365 | Whether any holder has more than a read cache or is giving one up |
| `Caching.Server.StartBreaks` | oplock.go:221-234 | Every holder is at or below the target, or is waited for on a break that goes there; those to be told are exactly those to whom it is news, which are exactly those told to come down, or further down, since they were last told |
| `Caching.Server.StartLeaseBreaks` | lease.go:524-537 | Every lease has nothing the asker minds, or is waited for on a break that goes there; those to be told are exactly those to whom it is news, which are exactly those told to give something up, or more, since they were last told |
| `Caching.Server.BreakHolders` | oplock.go:221-234 | Breaking the promises in somebody's way keeps promises apart and every break in flight attended to, and adds to those to be told exactly the holders to whom it is news; whoever was told to come down further is among them |
| `Caching.Server.StartHolderBreaks` | oplock.go:389-398 | Over all opens of the file: whoever holds more than the asker can live with is waited for, exactly those to whom that is news are to be told, whoever is told to come down further among them; nobody's promise changes by it, and what the asker itself has, or its client if it named no key, is not touched; zero is no client |
| `Caching.CutMeans` | oplock.go:389-398 | Who holds more than a read cache, or anything while the asker changes the file, has a break in flight down to what the asker can live with, and it is waited for |
| `Caching.Server.GrantOplock` | oplock.go:472-543 | Exactly what is granted, and that promises stay apart; where nothing is granted everybody else is on the way to holding nothing, and exactly those to whom that is news are to be told |
| `Caching.Server.WaysAre` | oplock.go:271-281 | The file is its own client's exactly if every other open on it has the client's ID and that is not zero; in the way are the promises of the other opens that are more than a read cache or are being given up |
| `Caching.Server.LeaseFor` | lease.go:110-149 | The lease under a key, made if there is none, refused for another path |
| `Caching.Server.GrantLease` | lease.go:468-519 | Exactly what is granted; promises stay apart if and only if the grant clashes with nothing on the other shares the key was used on; what becomes of the table, which knows the lease if and only if no other one was taken out under the key meanwhile; a refusal tells exactly those to whom it is news |
| `Caching.Server.LeaseWaysAre` | lease.go:468-519 | The same for a lease: only opens under the lease itself are not outside; in the way are other leases, whoever's, and oplocks of another client or of client zero |
| `Caching.Server.JoinLease` | lease.go:157-172 | What joining does to the server, and the same if-and-only-if |
| `Caching.Server.DetachLease` | lease.go:178-184 | An open that lets go of its lease keeps promises apart |
| `Caching.Server.LeaveLease` | lease.go:192-214 | A lease that lost its last open promises nothing and frees its key, and no other key |
| `Caching.Server.LessIsExclusive` | oplock.go:115-146 | Any step that only takes promises away keeps them apart |
| `CachingView.SeesOplock` | oplock.go:472-543 | What the promises at a moment, taken as a value, grant an oplock request is what the server decides |
| `CachingView.SeesLease` | lease.go:468-519 | The same for a lease request |
| `CachingRun.Run` | oplock.go:472-543 | Over every run of registrations, requests, breaks, sends, answers, expiries, closes and departures, in any order, and for every open and every lease the run dealt with, closed ones included: every request is granted exactly what the promises at the time allow, and promises change from event to event only as the event says; two promises on one file that belong to different views never include more than a read cache, breaking ones included, unless a lease key was used on two shares; every channel ever handed out is the one in flight or was closed once, with the holder at or below what its waiter demanded; every break in flight has a client still to be told or a timer that ends it; an open off the table holds nothing |
| `CachingRun.LeaseOverTwoShares` | lease.go:133-136 | The run that breaks the rule: a lease key is tied to a path and not to a share, so a write cache granted on one share is held on another where somebody else reads |
| `CachingRun.LeaseUnknown` | lease.go:151-172 | The run after which the table does not know a lease an open holds: look-up, departure of the last open, another look-up, and then the open joins the lease found first |
| `Locks.OverlapsMeans` | lock.go:19-40 | Two ranges that cover bytes overlap exactly if some offset lies in both saturated ranges; an empty one overlaps what holds its offset without starting there; overlapping is mutual |
| `Locks.TakingKeepsOrder` | lock.go:115-139 | Adding a lock nothing stands in the way of keeps the table in order: of two overlapping locks, an exclusive earlier one is the same open's, and before an exclusive later one there is only an exclusive one of the same open |
| `Locks.RefusedForOrder` | lock.go:115-139 | In a table in order a claim is refused if and only if the table with it would not be in order |
| `Locks.GrantedForOrder` | lock.go:168-208 | As many ranges of a request are granted as are well formed and leave the table in order one after the other, and the next one would not |
| `Locks.FlagsMean` | lock.go:105-112 | A lock may be asked for with exactly four flag words: shared or exclusive, with or without failing at once |
| `Locks.ReleasingKeepsOrder` | lock.go:329-345 | Dropping an open's locks keeps the table in order |
| `Locks.OnlyTheOpens` | lock.go:329-345 | Each lock of another open is there as often as before, and none of the open's |
| `Locks.UnlockingKeepsOrder` | lock.go:278-325 | Giving back ranges keeps the table in order |
| `Locks.UnlockUndoesLock` | lock.go:278-325 | Taking a range and giving it back restores the locks if and only if the lock taken was exclusive or the open did not hold the range exclusively before |
| `Locks.ExclusiveGivenBack` | lock.go:300-318 | The case in which it does not: the open is left with the shared lock |
| `Locks.FileState.LockConflict` | lock.go:115-139 | Exactly whether some lock keeps the claim out, which is exactly if the table would be out of order with it |
| `Locks.FileState.LockRanges` | lock.go:168-208 | Every outcome: all ranges taken, those before a malformed one taken, or nothing taken where one is refused or to be waited for, and one is only where taking it would put the table out of order |
| `Locks.FileState.Await` | lock.go:213-251 | The range is taken if that leaves the table in order; if not, the request sleeps on the channel the next give-back closes |
| `Locks.FileState.LockWaiter` | lock.go:143-149 | The channel waited on is the one kept, made if there is none |
| `Locks.FileState.LockChanged` | lock.go:153-158 | Closes the channel kept, once |
| `Locks.FileState.DropLock` | lock.go:255-273 | Gives back the last lock of that name and no other, and wakes whoever waits exactly if there was one |
| `Locks.FileState.FindLock` | lock.go:300-318 | The first exclusive lock on just that range, or else the first |
| `Locks.FileState.UnlockRanges` | lock.go:278-325 | Every outcome; what was given back stays given back and wakes whoever waits |
| `Locks.FileState.ReleaseLocks` | lock.go:329-345 | Exactly the open's locks go, in place, and whoever waits is woken if any did |
| `Locks.Step` | lock.go:143-345 | Every step of a file is the one the reference on values takes, sleepers and channels included |
| `Locks.Run` | lock.go:143-345 | Over every run the table, the sleepers and the closed channels are what the reference makes of the events one by one; the table stays in order, and a request asleep on a channel not yet closed still has a lock in its way |
| `Varint.UvarintRoundTrip` | client/objecttag.go:140-155 | What was written is read back with what follows it; a number of more than 64 bits is refused |
| `Varint.VarintRoundTrip` | client/objecttag.go:152 | The same for signed numbers |
| `Varint.DistanceRoundTrip` | client/objecttag.go:152 | With 64-bit wrap-around in every step, a start told as a distance comes back as the signed number it is |
| `Varint.UvarintLayout` | client/objecttag.go:140-155 | The bytes written are the number's digits to the base 128, the lowest first, all but the last with the high bit set |
| `Varint.FoldIs` | client/objecttag.go:152 | A signed number is folded into the unsigned one that is twice itself modulo 2^64, with every bit turned if it is negative |
| `ObjectTag.StringRoundTrip` | client/objecttag.go:162-164 | A string comes back if it is within the bound and is refused otherwise |
| `ObjectTag.Shares` | client/objecttag.go:131-138 | Every share of the pieces once, in the order in which they first come up |
| `ObjectTag.PieceRoundTrip` | client/objecttag.go:148-156 | A piece comes back if its path is short enough and its start is below 2^63, and is refused otherwise |
| `ObjectTag.PieceLayout` | client/objecttag.go:148-156 | A piece byte for byte: the place of its share, the path with its length, the offset, the signed distance from where the last piece ended, the length and the size |
| `ObjectTag.TagLayout` | client/objecttag.go:130-159 | A tag byte for byte: how many pieces are left out, the shares, how many pieces follow, and those; the checksum is written high byte first |
| `ObjectTag.NextFromEnd` | client/objecttag.go:148-156 | Each piece is told from where the one before it ends, modulo 2^64 |
| `ObjectTag.PackRoundTrip` | client/objecttag.go:113-265 | For every tag and every n: the packed form, plain or compressed, decodes to exactly the first n pieces in order and the number of the rest, if and only if they are within the reader's bounds; otherwise it is refused |
| `ObjectTag.PackIsSmaller` | client/objecttag.go:113-127 | What is written is never longer than the plain form nor than the compressed one |
| `ObjectTag.TooFarIn` | client/objecttag.go:148-156 | A tag outside the reader's bounds: a run that starts 2^63 bytes in is written and refused |
| `TagCode.ShareTable` | client/objecttag.go:131-138 | The loop builds that table, and the index gives each share its place |
| `TagCode.WriteBody` | client/objecttag.go:130-159 | The loops lay out exactly the body |
| `TagCode.WriteTag` | client/objecttag.go:113-127 | The smaller of the two forms: its length is that of the shorter one |
| `TagCode.ReadStrings` | client/objecttag.go:236-251 | The loop reads exactly the counted list, within the bounds |
| `TagCode.DecodeTag` | client/objecttag.go:168-233 | The loops decode exactly what the layout says, and refuse everything else |
| `TagCode.Search` | client/objecttag.go:91 | The binary search, over a size that need not grow with the number of pieces, ends where that many fit and one more does not |
| `TagCode.HowMany` | client/objecttag.go:86-98 | All pieces if they fit, and otherwise a number that fits while one more does not |
| `TagCode.Encode` | client/objecttag.go:73-104 | Never more than the largest size; everything is named if either form of everything fits, and a piece is dropped only if neither form with one more would fit; a piece that is no catalog is named only if every catalog is; either kind keeps its order |
| `TagCode.SortingKeepsAll` | client/objecttag.go:78-83 | Sorting loses and adds no piece |
| `TagCode.SortingIsStable` | client/objecttag.go:78-83 | The pieces of either kind are those of the list, at ascending places |
| `TagCode.CatalogIs` | client/objecttag.go:106-109 | A catalog is what lies beneath /.sombrero/catalog, separator included |
| `Slab.PackSlab` | client/indexd.go:1533-1543 | In place: the slab is the concatenation of the pieces cut off at the slab size, and each piece is left with the front of it that went in |
| `Slab.TagPieces` | client/objecttag.go:305-328 | The loop lists exactly the runs of the jobs whose files have a name |
| `Slab.RunsAreTruthful` | client/objecttag.go:305-328 | Every run named is where it is said to be in the slab, and the runs come one after the other |
| `Slab.EveryRunNamed` | client/objecttag.go:305-328 | Every job whose file has a name is among the runs, once, in order, with its file's name, offset, place and length |
| `Slab.PackAndTag` | client/indexd.go:1596-1601 | When there is a tag and how many pieces it names; it decodes to exactly those pieces if and only if they are within the reader's bounds, and whoever decodes it learns, of every piece it names, what is where in the slab |
| `OpenIndex.AddingFiles` | openindex.go:47-62 | Filing an open keeps every open in exactly the bucket of its name, and no bucket empty |
| `OpenIndex.DroppingFiles` | openindex.go:83-93 | Dropping an open keeps that, and drops a bucket left empty |
| `OpenIndex.MovingFiles` | openindex.go:107-136 | Moving an open between buckets keeps that |
| `OpenIndex.KeepsTheRest` | openindex.go:141-165 | What lies beneath a folder is named by the folder, a separator and the rest, and renaming the folder keeps the separator and the rest |
| `OpenIndex.BeneathIs` | openindex.go:141-165 | Nothing else lies beneath a folder, and nothing on another share |
| `OpenIndex.TreeMoves` | openindex.go:141-165 | Renaming a folder changes the name of every open beneath it, by the rest of its path, and of no other |
| `OpenIndex.RenamedBack` | openindex.go:141-165 | Renaming a folder there and back restores every name, if nothing lay beneath the new name before |
| `OpenIndex.FileMoves` | openindex.go:249-256 | Renaming a file leaves nobody under the old name and nobody else renamed; renaming it back restores every name if nobody had the new one |
| `OpenIndex.NameIsLast` | utils/utils.go:40-44 | The name kept of a path is what follows its last separator of either kind |
| `OpenIndex.Index.IndexOpen` | openindex.go:47-62 | The open is known under its name, and nothing else changes |
| `OpenIndex.Index.DropFromBucket` | openindex.go:83-93 | One open leaves one bucket |
| `OpenIndex.Index.UnindexOpen` | openindex.go:68-78 | The open is known no more, and nothing else changes |
| `OpenIndex.Index.MoveOpen` | openindex.go:107-136 | Only that open's name changes; one that is closed is not brought back |
| `OpenIndex.Index.OpensOn` | openindex.go:262-284 | Exactly what filtering the whole table by share and path finds |
| `OpenIndex.Index.MoveOpensOnFile` | openindex.go:249-256 | Exactly the opens of the file get the new name |
| `OpenIndex.Index.MoveOpensUnder` | openindex.go:141-165 | Exactly the opens beneath the folder get the new prefix, even where the new name lies beneath the old, and what follows the prefix stays as it was |
| `OpenIndex.Run` | openindex.go:47-284 | Over every run of opens, closes and renames the index agrees with a table kept without one, and so does every look-up by name |
| `Credits.CreditsToGrant` | conn.go:3366-3379 | Never less than the request spent and never more than it asked for beyond that; all it asked for unless the server is behind, and then just what it spent |
| `Credits.Grantable` | conn.go:135-163 | No fewer than the request spends, no more than it asks for beyond that, and fewer than it asks for only if the window is filled to its limit |
| `Credits.Connection.GrantCredits` | conn.go:135-163 | The window grows past its highest ID by what was asked for, within its room, and by no fewer than the request spends, unless the numbers run out |
| `Credits.Connection.RetireMessageID` | conn.go:454-476 | Exactly the IDs the request spent are taken back, the lowest from its own on: with multi-credit as many as charged, one for a charge of zero, and without it just its own |
| `Credits.Connection.AcceptRequest` | conn.go:296-313 | The whole of taking a request in: what it is granted, whether it is turned away, and what the window is then, from which exactly the IDs it was charged for are gone, one for a charge of zero |
| `Credits.Connection.GrantOnResponse` | server.go:343-367 | The first answer takes the grant, and carries no more than it meant to |
| `Credits.AcceptCovers` | conn.go:296-313 | Taking a request in keeps the window one row, no longer than 65536, and long enough for all the client holds, has sent, is about to be told and is owed |
| `Credits.RetiresJust` | conn.go:454-476 | Of a window that holds the IDs from the request's own on, exactly the first it was charged for go, and one for a charge of zero |
| `Credits.TakeIn` | conn.go:296-359 | The IDs of a request within its client's credits were open before it was granted anything; what it is granted; and it is never turned away, only told that the numbers have run out |
| `Credits.Step` | conn.go:135-476 | Every step of the connection is the one the reference takes, which knows the window as a row of IDs only |
| `Credits.Run` | conn.go:135-476 | Over every run of a client within its credits the window, the credits held and the requests taken in are those the reference makes of the events; the IDs of every request were open before its own grant and none is turned away; the window stays in one row, not empty, not above 65536 and no shorter than the credits held, until the 64-bit IDs run out |
| `ChannelSequence.Open.Verify` | conn.go:3504-3561 | The counters stay exact across wrap-around; a replay is counted only if no older request is unanswered, and one that is not counted may not change the file |
| `ChannelSequence.Open.Release` | conn.go:3571-3592 | The counters stay exact if and only if the request is not from a whole round of the sequence ago; a second release does nothing |
| `ChannelSequence.Run` | conn.go:3504-3592 | Over every run in which no request is answered 65536 sequences after it was counted, both counters are exactly the numbers of unanswered requests a reference without wrap-around comes to, and no replay that changes the file overtakes an older one |
| `ChannelSequence.RoundAgo` | conn.go:3585-3591 | A run after which the counters are wrong: the sequence has come round to the number of a request still unanswered |
| `ChannelSequence.DiffIsAhead` | conn.go:3514-3516 | The 16-bit difference is how far the one sequence is ahead of the other, by way of zero if it is the smaller number |
| `Walkers.JpegLength` | client/carve.go:141-215 | A JPEG is at least one byte and no longer than the data |
| `Walkers.JpegEnds` | client/carve.go:141-215 | A JPEG begins with its start marker and ends right behind an end marker, with a frame header and after it a scan in between |
| `Walkers.PngLength` | client/carve.go:238-266 | So is a PNG |
| `Walkers.PngEnds` | client/carve.go:238-266 | A PNG is n long if and only if chunks with the right checksums lead from behind its signature to an end chunk that ends at n, the first of them a header of 13 bytes |
| `Walkers.GifLength` | client/carve.go:269-321 | So is a GIF |
| `Walkers.GifEnds` | client/carve.go:269-321 | A GIF is n long if and only if extensions and images lead from behind its colour table to a trailer, which is its last byte |
| `Walkers.ZipLength` | client/carve.go:343-379 | So is a ZIP |
| `Walkers.ZipEnds` | client/carve.go:343-379 | A ZIP is n long if and only if the first end record whose directory ends right there and begins with an entry ends at n with its comment |
| `Walkers.PdfLength` | client/carve.go:397-436 | So is a PDF, whatever its patterns match |
| `Walkers.PdfEnds` | client/carve.go:397-436 | A PDF is found if and only if its header is there and the first end mark is its own, and it ends behind the newlines after the last of the end marks in a row that are |
| `Walkers.IsoLength` | client/carve.go:452-493 | So is an ISO base media file |
| `Walkers.IsoEnds` | client/carve.go:452-493 | A media file is n long if and only if atoms lead from its start to n, where there is none, and one of them holds the media and one is its index |
| `Walkers.RiffLength` | client/carve.go:522-537 | So is a RIFF file |
| `Walkers.RiffEnds` | client/carve.go:522-569 | A RIFF is n long if and only if chunks that carry it on lead from the end of its first one to n, where none does |
| `Walkers.SelfDelimiting` | client/carve.go:141-379 | A JPEG, PNG, GIF or ZIP is as long as its own structure says: whatever follows it, or is cut off behind it, its length is the same |
| `Walkers.CutOutWhole` | client/carve.go:452-569 | An ISO media file or a RIFF cut out where it ends is by itself a whole file of just that length |
| `Carve.WalkJpeg` | client/carve.go:141-215 | The loop ends, and finds exactly that length |
| `Carve.WalkPng` | client/carve.go:238-266 | The loop ends, and finds exactly that length |
| `Carve.WalkGif` | client/carve.go:269-337 | The loops end, and find exactly that length |
| `Carve.WalkZip` | client/carve.go:343-379 | The loop ends, and finds exactly that length |
| `Carve.WalkPdf` | client/carve.go:397-436 | The loops end, and find exactly that length |
| `Carve.WalkIso` | client/carve.go:452-493 | The loop ends, and finds exactly that length |
| `Carve.WalkRiff` | client/carve.go:522-569 | The loops end, and find exactly that length |
| `Carve.NextMagic` | client/carve.go:106-134 | The first place a file of any format begins, and of two formats at one place the one listed first |
| `Carve.FindsInOrder` | client/carve.go:76-102 | Finds are not empty, in increasing order, disjoint and inside the data |
| `Carve.FindsCarve` | client/carve.go:76-102 | Every find is a whole file as long as its structure says, and no whole file begins outside of the finds |
| `Carve.OnlyCarving` | client/carve.go:76-102 | There is no other list of files in order of which that is true |
| `Carve.CarveData` | client/carve.go:76-102 | Jumping from magic to magic finds exactly what looking at every byte finds: whole files in order, outside of which none begins; lengths and leftover add up to the data |
| `LostFound.ExactlyOnce` | client/lostfound.go:142-195 | Every byte of a tiled run is in exactly one stretch |
| `LostFound.TiledTotal` | client/lostfound.go:142-195 | What was found of a run and what was left of it add up to its length |
| `LostFound.SortRun` | client/lostfound.go:161-180 | The finds and what lies between them tile the run, in order |
| `LostFound.SortObject` | client/lostfound.go:142-195 | If every run can be read, finds and remainder together tile every run exactly once, the stretches found in each run are exactly the carver's finds in its bytes, and the leftover is the length of the remainder |
| `ReadCache.Cache.TouchChunk` | open.go:1875-1883 | A chunk that is there goes to the back of the queue, and the others keep their order; any other changes nothing |
| `ReadCache.FoundAtTheBack` | open.go:1690-1708 | A read that finds all its chunks leaves them at the back of the queue, in order |
| `ReadCache.Cache.EvictChunks` | open.go:1977-1999 | Ends within the limit or with everything left on its way; drops only chunks that are there, the least recently used first, and no more than it has to |
| `ReadCache.OneEvicted` | open.go:1977-1999 | Each chunk dropped is the least recently used of those that are there |
| `ReadCache.Cache.EnsureChunk` | open.go:1887-1908 | The chunk is in the cache and listed once; a new one is never the one dropped |
| `ReadCache.Cache.FinishDownload` | open.go:1910-1941 | A chunk takes its bytes or leaves, and one that is no longer cached changes nothing |
| `ReadCache.Cache.DropOlderGeneration` | open.go:1948-1971 | A file written anew empties the cache |
| `ReadCache.PartAdds` | open.go:1857-1872 | The slices of short chunks never add up to the whole range |
| `ReadCache.Cache.TryReadCached` | open.go:1659-1753 | If every chunk that is there holds a front of the file's bytes, the answer is exactly the bytes of the range, which ends where the read does or at the end of the file, and there is one if and only if every chunk of the range has its part; which chunks are then fetched ahead |
| `ReadCache.HasAllBytes` | open.go:1659-1753 | A range is cached if and only if each of its bytes lies in a chunk that is there |
| `ReadCache.Cache.ListPrefetch` | open.go:1719-1734 | Exactly which chunks: those of the next three inside the file that are not cached, if the read looks sequential, and none otherwise |
| `ReadCache.MissingIs` | open.go:1719-1734 | Every one of the next chunks that is inside the file and not cached is fetched |
| `ReadCache.GoingOnIsSequential` | open.go:1719-1728 | A read that goes on where the last one ended looks sequential; one far from there with nothing cached does not |
| `ReadCache.Step` | open.go:1659-1999 | Every step of the cache is the one the reference takes, the order of the queue included, and a read is answered right |
| `ReadCache.LimitKept` | open.go:1887-1999 | Whenever a run starts a download, the cache is then within its limit or everything in it is on its way |
| `ReadCache.Run` | open.go:1659-1999 | Over every run of reads and downloads, possibly short or failing, cache and queue are what the reference makes of the events; a read is answered if and only if all it asks for was cached by then, and every answer is exact; the queue lists each cached chunk once; and starting a download leaves the cache within its limit or all of it on its way |

## Left out

- Sockets, the HTTP API, the web interface, backups, the ban list, configuration and signals.
- NTLM, SPNEGO, signing, encryption and key derivation.
- The SMB2 messages themselves, the compressors, flate and the checksum: requests are their fields, and the functions are
  parameters.
- The SQL store and the Sia SDK: claims, unpins, requeues, restores and imports.
- `processRequest` beyond the steps named above.
- Time: a timeout is a step that may happen at any moment. Logging and statistics.
- Offsets and lengths of files are numbers without a bound in the upload and in the read cache; sums that pass 2^64 are not
  modelled there. They are in the locks, the tags and the credits.
- Uploading.Upload.Write: the parts a write fills are cut off and put on their way in one step with it, and a write or a flush that fails ends the run, because every caller then calls the upload off. It takes a write of at least one byte and a part size above zero.
- Caching.Server.LeaseFor: the re-keying of a lease whose file is to be deleted on close, and renaming an open's lease, move a promise from one file to another and are not modelled.
- Caching.Server.GrantOplock: an open is granted one promise, as a create does; the opens of a file are taken to be those the index of opens gives.
- CachingRun.Run: what an answer, an expiry or a release leaves of a promise is stated by the steps, and over the run only that it is no more than before; an acknowledgment is delivered to any lease, not only to the one the table gives for its key, which allows more runs than the server has.
- The lock sequence numbers a client may replay (lock.go:44-91) are left out: an open keeps 64 of them, and each is only compared with the next request that names it.
- OpenIndex.Run: joining the table and joining the index are one step; the index of creates that may be replayed is left out.
- Credits.Run: break acknowledgments, answers refused for signing, failed asynchronous writes and the chains of change notifications do not settle their credits through the functions modelled, and the multi-protocol negotiation is left out.
- ChannelSequence.Open.Verify: a request is verified once while it is unanswered, and requests of dialects before 3.x, which are never counted, are left out.
- TagCode.Encode: the stable sort is taken to do what its documentation says; the JSON tags of version 1 are not modelled.
- Carve.CarveData: the extension a find is given is left out: it names the file and has no part in what is found.
- LostFound.SortObject: the database and the naming of the files found are left out; a download that fails is a failure of the whole.
- ReadCache.Cache.EnsureChunk: when a download is started, and what it waits for, is left out.
- ReadCache.Run: the file does not change during the run; that a file written anew empties the cache is stated by ReadCache.Cache.DropOlderGeneration.
