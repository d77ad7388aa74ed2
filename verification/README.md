# A verified model of the DNS relay

The relay answers DNS queries from a cache, from a database of relay records, or by asking an
upstream server. This project models the parts that decide what is answered, in the form the
program has them, and proves what they promise:

- **Names** (`Bytes`, `Names`, `Decompress`): stored names, the stack-based label reversal, and the
  byte-wise reader of compressed names against the label-wise meaning of section 4.1.4 of RFC 1035.
- **Codec** (`Messages`, `Codec`, `Parser`, `Printer`, `Reference`): what a buffer means, the parser with its work
  buffers, the printer with its cursor, when the two undo each other, and compressed messages as section 4.1 of
  RFC 1035 lays them out, byte by byte.
- **Database** (`Levels`, `Trees`, `Database`): levels of linked entries that turn into hash tables, the
  tree of levels under reversed names, and the plain scan of the insertion log it agrees with.
- **Cache** (`CacheModel`, `CacheRuns`, `Cache`): the doubly linked list behind its dummy node, and what
  holds after any history of puts and refresh passes.
- **Worker pool** (`JobQueues`, `Pool`): the ring buffer, and the mutex and condition-variable protocol as
  steps over worker states.
- **Resolution** (`Clients`, `Resolve`, `Upstream`): what a client is to get; a query with at most one question, from
  lookup to the bytes of the reply; and the passing on of whatever the upstream exchange brought.

Conventions. A name is the stored bytes before its zero terminator; a record's `rdlength` is the length of
its rdata; an absent section array is the empty sequence; the record counters of a tree entry are the
lengths of its record lists. The clock is a parameter. Each region under a lock is one step. The program's
objects with mutable fields are classes with real `next`, `last` and `child` pointers; ghost fields hold
the sequences and maps those pointers spell out. Where the program has undefined behaviour (a read past the
buffer, a write past a fixed array, a pointer loop in a name), the model has a precondition that says exactly
what is read or written.

Some properties one would expect are false of the program. They are kept as the program has them, with the
exact condition under which they hold:

- A name is read as meant exactly when no label holds a zero byte or a byte of 0xC0 or more, because every byte is
  taken as a possible pointer (`Decompress.ScanExact`, `Decompress.LabelTakenForPointer`).
- SOA rdata survives printing and parsing exactly when the bytes one name further on repeat the fixed fields, because an
  offset is added twice; everything else in the message survives (`Codec.SoaRoundTrip`, `Codec.EncodedMessage`,
  `Codec.SoaCounterexample`). TXT rdata survives only if it has the form of a name (`Codec.RecordRoundTrip`,
  `Codec.TxtCounterexample`).
- The parser reads names of up to 511 bytes, but the printer drops those over 254 and moves its cursor back by one, so it
  writes the encoding exactly when all names fit (`Printer.PrintsEncodingExact`, `Printer.MessageRoundTrip`); a single question
  with a longer name is printed as 11 bytes that every parse rejects (`Printer.OverlongQuestionLost`,
  `Printer.OverlongCounterexample`, `Resolve.SendFormatError`).
- A record just put into the cache is found by a lookup exactly when no cached record with other rdata passes for it under
  `rr_cmp`; rdata is compared as a C string, so 10.0.0.1 hides 10.0.0.2 (`CacheRuns.PutThenFindAfter`,
  `CacheModel.PutLosesAddress`).
- After a failed upstream exchange the client gets its own id back exactly when fewer than twelve bytes arrived or those
  that arrived happened to carry it, because parsing overwrites the prepared header (`Upstream.RelayUpstream`,
  `Upstream.TruncatedAnswer`, `Upstream.TruncatedDatagram`).
- A record the database accepts is returned from then on exactly when its name is not the root (`Database.AcceptedReturned`).

Where comments and code differ, the model follows the code: `domain_len` gives up above 255 bytes, not above the
512 its comment names (src/storage/message.h:114-117); a record counts as blocked when its first four rdata bytes are zero
whatever its type, not only for the address 0.0.0.0 (src/storage/message.h:133-134); lookups in a hash table use
`rr_hash` whatever hash function the tree was given (src/storage/trees.c:38).

## Model

| member | source | states |
|---|---|---|
| Bytes.StrNEqualSameLength | src/storage/message.c:571 | strncmp over equal lengths decides equality of the bytes before the first zero, in both directions |
| Bytes.StrNEqualTerminated | src/storage/message.c:567 | strncmp of two terminated zero-free names, bounded beyond the first, is equality |
| Names.DomainLen | src/storage/message.c:12-20 | -1 exactly for names of 255 bytes or more, otherwise the stored length with its terminator |
| Names.LabelsOfWire | src/storage/message.h:125-128 | splitting the stored form of a label sequence gives the labels back, so a stored name has one reading |
| Names.PushLabels | src/storage/message.c:542-551 | the first loop leaves on the stack every label followed by its length, in order, and stops at the terminator |
| Names.PopLabels | src/storage/message.c:552-562 | the second loop unwinds such a stack into exactly the stored form of the labels in reverse order |
| Names.DomainRev | src/storage/message.c:541-563 | the destination receives the name with its labels in reverse order and a terminator, and nothing behind it changes |
| Names.ReversedInvolution | src/storage/message.c:541-563 | reversal keeps the length, reverses the label sequence, and reversing twice gives the name back |
| Names.ReversedInjective | src/storage/message.c:541-563 | two names with the same reversal are the same name |
| Decompress.ReadDomain | src/storage/message.c:98-126 | the recursive scan writes exactly the collected name at its place, reports its length plus one, and an offset that ends at the name's end in place |
| Decompress.ScanClean | src/storage/message.c:102-123 | a name the scan returns never holds a zero byte or a byte of 0xC0 or more |
| Decompress.EndsWithinBuffer | src/storage/message.c:103-115 | a scan that ends at all follows at most as many pointers as the buffer has bytes, so bounded readability is exactly termination |
| Decompress.PointsBackEnds | src/storage/message.c:103-115 | if every pointer leads strictly before the start of its name segment, the scan ends |
| Decompress.ScanExact | src/storage/message.c:98-126 | the byte-wise scan yields the label-wise expansion if and only if all expanded labels are clean, and then both end at the same place |
| Decompress.CompressedName | src/storage/message.c:98-126 | a name whose pointers, read label by label, all lead backwards can be expanded, and if its labels are clean the scan ends, gives that name and stops where it ends in place |
| Decompress.LabelTakenForPointer | src/storage/message.c:103-109 | a well-formed four-byte name on which the scan never ends |
| Decompress.ScanPlain | src/storage/message.c:102-123 | an uncompressed clean name is read back as written, wherever it stands |
| Decompress.PointerFollowed | src/storage/message.c:103-115 | the two bytes 0xC0 + t / 256 and t % 256 lead both readings to offset t, for every t below 0x4000, and the name ends in place behind them |
| Decompress.LabelRead | src/storage/message.c:116-122 | a length byte below 0xC0 and its label are expanded as that label, followed by what stands behind |
| Parser.QuestionFromBuf | src/storage/message.c:131-149 | the question read through the zeroed buffer is the one the bytes mean, and the count of bytes reaches its end |
| Parser.RdataFromBuf | src/storage/message.c:171-214 | every branch of the type switch leaves the expanded rdata in the work buffer, SOA with its doubled offset |
| Parser.RrFromBuf | src/storage/message.c:151-228 | the record is the one the bytes mean and the cursor lands where the wire rdlength says, however long the rdata became |
| Parser.MessageFromBuf | src/storage/message.c:229-295 | a short or truncated message is rejected, any other gives header and four sections as the buffer means them; the header left behind is the wire's as soon as twelve bytes are there, rejected or not |
| Codec.ParsedRecord | src/storage/message.c:151-228 | every record the parser produces has a clean name and rdata in the form its type is printed in, SOA being two clean names and twenty bytes |
| Codec.RecordRoundTrip | src/storage/message.c:151-228 | a printed record parses back to itself if and only if it is in that form and, for SOA, its fixed fields recur one first-name length further on; then the cursor ends behind it |
| Codec.RecordFraming | src/storage/message.c:151-228 | whatever its rdata, a printed record the parser can read keeps name, type, class and ttl, and the cursor ends behind it |
| Codec.QuestionRoundTrip | src/storage/message.c:131-149 | a printed question parses back to itself if and only if its name is clean and fits the buffer |
| Codec.HeaderRoundTrip | src/storage/message.c:75-94 | the twelve header bytes read back as the header written |
| Codec.ParsedMessage | src/storage/message.c:229-295 | every message the parser accepts is in parser form: TC clear, counts that match and every part in the form it is printed in, so compression leaves no trace |
| Codec.EncodedMessage | src/storage/message.c:229-295 | a buffer that starts with the encoding of a message in parser form is accepted and agrees with it in everything but SOA rdata, and in those too exactly when all SOA fixed fields recur |
| Codec.EncodingRoundTrip | src/storage/message.c:229-295 | an encoded message reads back as itself if and only if it is in parser form and its SOA fixed fields recur |
| Codec.SlackReachesMessage | src/storage/message.c:173-182 | 512 bytes behind the message are enough for every displaced SOA read |
| Codec.SoaDisplaced | src/storage/message.c:173-182 | printed SOA rdata is read back with its names and the twenty bytes one first-name length behind the right ones |
| Codec.SoaRoundTrip | src/storage/message.c:173-182 | printed SOA rdata parses back if and only if the fixed fields recur one first-name length further on |
| Codec.SoaCounterexample | src/storage/message.c:173-182 | a whole message with one SOA record that is accepted and read back wrong in its rdata, and only there |
| Codec.TxtCounterexample | src/storage/message.c:192-203 | a TXT record that no printed form brings back |
| Reference.CompressedFraming | src/storage/message.c:151-228 | a readable record behind a compressed name has that name and the type, class and ttl whose bytes stand behind it, and ends where its length field says |
| Reference.CompressedRdata | src/storage/message.c:171-214 | NS, CNAME, PTR and TXT rdata become the expanded name, MX its preference and the expanded exchange, and any type but these and SOA the bytes themselves |
| Reference.SoaRdata | src/storage/message.c:173-182 | SOA rdata becomes its two expanded names and the twenty bytes that stand as far behind their place as the first name is long on the wire |
| Reference.QuestionRead | src/storage/message.c:131-149 | a question behind a compressed name has that name, the type and class that stand behind it, and ends behind them |
| Reference.CompressedMessage | src/storage/message.c:229-295 | every message laid out as section 4.1 of RFC 1035 has it, compressed in any way, is accepted and read as meant, up to the rdata of SOA and with TXT rdata taken for a name |
| Reference.SmallAnswerRead | src/storage/message.c:229-295 | 51 bytes with every name compressed and their two records |
| Printer.HeaderToU8 | src/storage/message.c:297-308 | the six header fields are written one after the other as the header encoding |
| Printer.QuestionToU8 | src/storage/message.c:309-319 | writes name, type and class and returns their length, or writes nothing and returns -1 for an overlong name |
| Printer.RrToU8 | src/storage/message.c:320-337 | writes the record's fields and returns their length, or writes nothing and returns -1 for an overlong name |
| Reference.PrintedLayout | src/storage/message.c:297-337 | headers, questions and records are printed byte for byte in that layout |
| Printer.MessageToU8 | src/storage/message.c:338-409 | -1 when a counted section is absent; otherwise the buffer holds every write at the cursor where the returned lengths, the -1 included, put it |
| Printer.ImagePlain | src/storage/message.c:349-407 | without overlong names the writes follow each other without gap or overlap |
| Printer.PrintsCursor | src/storage/message.c:338-409 | with matching counts and names that fit, the returned length is that of the encoding and every write stays inside |
| Printer.PrintsEncoding | src/storage/message.c:338-409 | a message with matching counts and names that fit is printed as its encoding |
| Printer.CursorExact | src/storage/message.c:338-409 | for a message with matching counts the returned length is that of the encoding if and only if all names fit, and less otherwise |
| Printer.PrintsEncodingExact | src/storage/message.c:338-409 | the bytes written are the encoding if and only if all names fit |
| Printer.MessageRoundTrip | src/storage/message.c:229-409 | when all names fit, the bytes the printer leaves parse back to the message if and only if it is in parser form and its SOA fixed fields recur |
| Printer.ParsePrintParse | src/storage/message.c:229-409 | for any accepted, possibly compressed buffer whose names fit, parsing what the printer makes of the parse gives the same message up to SOA rdata, and exactly the same if and only if the SOA fixed fields recur |
| Printer.OverlongQuestionLost | src/storage/message.c:309-313 | a message of one question with a name over 254 bytes is printed as 11 bytes, which every parse rejects |
| Printer.OverlongWritten | src/storage/message.c:309-313 | those 11 bytes are the header without its last byte |
| Printer.OverlongCounterexample | src/storage/message.c:309-313 | such a message in parser form |
| Levels.RrHash | src/storage/trees.c:20-29 | the accumulating loop computes the BKDR hash in 32-bit arithmetic over the length byte and all but the last label byte |
| Levels.LastByteUnhashed | src/storage/trees.c:20-29 | labels of one length that differ only in the last byte share a bucket, and which one ab and ac share |
| Levels.StoredCompare | src/storage/trees.c:41 | strncmp over a stored label's length decides label equality |
| Levels.FindInChain | src/storage/trees.c:48-58 | walking next pointers returns the first entry with the label, or none |
| Levels.Distribute | src/storage/trees.c:96-112 | relinking a list into 1024 chains puts each entry, once, in the chain its hash selects, and every chain ends |
| Levels.SwitchPreservesLookup | src/storage/trees.c:36-73 | for every label a bucket search after the switch finds the node, or none, that a list search found before |
| Levels.Level.Find | src/storage/trees.c:59-73 | in either representation the result is the level's entry for the label, or none |
| Levels.Level.LinkInBucket | src/storage/trees.c:80-84 | the new entry becomes first in the chain its hash selects; all other entries stay findable |
| Levels.Level.LinkInList | src/storage/trees.c:85-88 | the new entry becomes first in the list; all other entries stay findable |
| Levels.Level.SwitchToBuckets | src/storage/trees.c:96-112 | the level becomes a hash table over the same entries |
| Levels.Level.Insert | src/storage/trees.c:74-115 | the level gains exactly this entry, empty and childless, and stays well formed: distinct labels, size counted, hash table exactly above 32 entries |
| Trees.CursorStep | src/storage/trees.c:119 | at the start of label i the buffer holds its length, its bytes, and then the next length or zero |
| Trees.BucketTree.Store | src/storage/trees.c:141-162 | a full slot or a duplicate is refused and nothing changes; otherwise the record is appended to its slot |
| Trees.BucketTree.Step | src/storage/trees.c:164-187 | an iteration before the last label goes down or creates the entry and stays, and stores no record |
| Trees.BucketTree.Finish | src/storage/trees.c:139-182 | the iteration at the last label appends the record or refuses it; a refusal means the entry existed and nothing changed |
| Trees.BucketTree.Insert | src/storage/trees.c:116-191 | terminates though creating an entry does not advance; the stored records change by exactly the accepted record; on -1 every object of the tree is unchanged |
| Trees.BucketTree.Search | src/storage/trees.c:194-234 | returns exactly the records stored under the path and type, and none where the walk leaves the tree |
| Trees.BucketTree.OneParent | src/storage/trees.c:168-186 | no level is the child of two entries |
| Trees.ListedAncestors | src/storage/trees.c:137-189 | the path of every entry leads through levels all the way from the root |
| Database.Store.Insert | src/storage/database.c:97-106 | answers -1 exactly for an overlong name, an unsupported type, a full slot or a duplicate; the tree then holds what replaying the extended log gives |
| Database.Store.Select | src/storage/database.c:107-117 | after any insertions the answer equals the plain scan of the insertion log for that name and type |
| Database.ReplayIsScan | src/storage/database.c:97-117 | the table built under reversed labels agrees with the first four non-duplicate matches in the log, for every name and type |
| Database.DedupedExact | src/storage/trees.c:143-160 | no kept record repeats an earlier one and every dropped record repeats a kept one |
| Database.ScanExact | src/storage/database.c:107-117 | with one rdata length per type: at most four records of that name and type, rdata pairwise distinct, and an inserted rdata missing only when four came back |
| Database.AcceptedExact | src/storage/trees.c:130-160 | a record is accepted if and only if its name has at most 254 bytes, its type is 1, 5 or 28 and, unless the name is the root, fewer than four records are there and none starts with its rdata |
| Database.StoredTypes | src/storage/trees.c:130-132 | the first A, CNAME or AAAA record of a name is accepted and becomes the answer |
| Database.OtherTypes | src/storage/trees.c:130-132 | a record of any other type is refused, and no answer is ever found for one |
| Database.ScanInserted | src/storage/database.c:97-117 | an insertion adds an accepted record to the answer for its own name and type, unless the name is the root, and changes no other answer |
| Database.ScanGrows | src/storage/database.c:97-117 | later insertions only extend an answer |
| Database.AcceptedReturned | src/storage/database.c:97-117 | an accepted record is returned after any further insertions if and only if its name is not the root |
| CacheModel.RrCmpMeaning | src/storage/message.c:565-573 | rr_cmp decides an equivalence, for names of any length: same name, type, class and length, and rdata equal up to the first zero byte |
| CacheModel.RrCmpExact | src/storage/message.c:565-573 | rr_cmp with equal rdata is equality but for the ttl, and rr_cmp alone is that whenever the rdata has no zero byte |
| CacheModel.RrCmpConflates | src/storage/message.c:571 | 10.0.0.1 and 10.0.0.2 of one host compare equal |
| CacheModel.PutThenFind | src/storage/cache.c:29-89 | a lookup for the record just put returns its rdata if and only if no cached record with other rdata compares equal to it |
| CacheModel.PutLosesAddress | src/storage/cache.c:62-75 | with 10.0.0.1 cached, putting 10.0.0.2 changes nothing |
| CacheModel.HitsInOrder | src/storage/cache.c:29-47 | a lookup gives exactly the items with that name, type and class, in cache order |
| CacheModel.RefreshExact | src/storage/cache.c:105-151 | a refresh keeps exactly the first 256 unexpired items, in order, each with a ttl of the seconds it has left |
| CacheModel.HitPermutes | src/socket/resolv.c:79-90 | re-putting the k found records leaves them in front in reverse order, the others in their order, and every item as it was |
| CacheRuns.OrderIsRecency | src/storage/cache.c:60-89 | after any history the order is strictly that of the last put, newest first, and no two items compare equal |
| CacheRuns.EvictsOldest | src/storage/cache.c:130-150 | size-based removal drops only items last put before every kept one, and only when 256 are kept |
| CacheRuns.PutThenFindAfter | src/storage/cache.c:29-89 | the same after any history of puts and refresh passes, and always when the rdata has no zero byte |
| CacheRuns.FoundUntilRefresh | src/storage/cache.c:60-89 | no later put takes away what a lookup finds |
| CacheRuns.SizeBound | src/storage/cache.c:130-150 | the cache never exceeds 256 items plus the puts since the last refresh |
| CacheRuns.ExpiryIsCreation | src/storage/cache.c:12-27 | with a clock that never goes back, each item keeps the expiry of the put that created it, has been cached since, and its ttl never exceeds the original |
| CacheRuns.TtlShrinks | src/storage/cache.c:124-127 | a refresh never raises a stored ttl, and the 32-bit field never truncates |
| CacheRuns.SurvivorsUnexpired | src/storage/cache.c:112-127 | nothing that outlives a refresh pass has expired by then |
| Cache.Unlink | src/storage/cache.c:115-118 | taking a node out keeps next and last inverse on the remaining nodes |
| Cache.LinkFront | src/storage/cache.c:70-75 | linking a node behind the dummy keeps next and last inverse |
| Cache.Truncate | src/storage/cache.c:132-148 | unlinking node after node leaves exactly the first nodes as a proper list and counts the rest |
| Cache.RrCache.constructor | src/storage/cache.c:156-163 | the cache starts as the dummy alone, with no history |
| Cache.RrCache.FindRr | src/storage/cache.c:29-47 | returns the records of the items with that name, type and class, in list order |
| Cache.RrCache.MatchLn | src/storage/cache.c:49-58 | returns the first node equal under rr_cmp, or none |
| Cache.RrCache.PutRr | src/storage/cache.c:60-89 | moves the matching node to the front untouched or adds a new one there; list, size and history stay in step |
| Cache.RrCache.Sweep | src/storage/cache.c:105-151 | the interleaved loop leaves the first 256 unexpired items in order, each with the time it has left |
| Cache.RrCache.RefreshPass | src/storage/cache.c:101-152 | one pass keeps the list well formed and extends the history by one refresh |
| JobQueues.JobQueue.constructor | src/utils/threadpool.c:8-15 | the ring starts empty |
| JobQueues.JobQueue.Push | src/utils/threadpool.c:16-30 | appends to the queue below 128 jobs, otherwise refuses with -1 and changes nothing |
| JobQueues.JobQueue.Front | src/utils/threadpool.c:31-37 | the oldest job, or none |
| JobQueues.JobQueue.Pop | src/utils/threadpool.c:38-45 | removes the oldest job, or nothing from an empty queue |
| JobQueues.JobQueue.Take | src/utils/threadpool.c:59-63 | the job taken was first and the rest keep their order |
| Pool.PushInv | src/utils/threadpool.c:114-119 | adding a job keeps the invariant, in the accepting and the full branch |
| Pool.PullInv | src/utils/threadpool.c:52-66 | pulling a job keeps the invariant |
| Pool.IdleInv | src/utils/threadpool.c:55-57 | blocking on an empty queue and waking spuriously keep the invariant |
| Pool.StartInv | src/utils/threadpool.c:73-76 | the decrement of the 8-bit free count keeps the invariant |
| Pool.FinishInv | src/utils/threadpool.c:83-90 | the increment and its signal keep the invariant |
| Pool.RunInv | src/utils/threadpool.c:52-119 | in every state of every run: no lost wakeup, free count plus running workers is the thread count, accepted jobs are the pulled ones followed by the queued ones, and a busy worker holds the job it pulled last |
| Pool.NeverStuck | src/utils/threadpool.c:52-92 | with jobs queued some worker can always do more than wait |
| Pool.QueueDrains | src/utils/threadpool.c:52-92 | any sequence of worker steps, in any order, empties the queue within a bound given by the state |
| Pool.AddJob | src/utils/threadpool.c:114-119 | threadpool_add_job on the ring buffer is the push step of the protocol and keeps its invariant |
| Pool.PullJob | src/utils/threadpool.c:52-66 | one locked pass of pull_job on the ring buffer is the pull step, or the blocking one when it is empty, and keeps the invariant |
| Resolve.Unblocked | src/socket/resolv.c:99-112 | one record whose rdata starts with four zero bytes empties the answer, otherwise all are kept |
| Resolve.PutFound | src/socket/resolv.c:85-92 | after re-putting the hits the cache is permuted, its history has these puts, and every node is an old or a new one |
| Resolve.FaithfulCache | src/storage/cache.c:60-152 | if only records in parser form were ever put, only such records are cached after any run |
| Resolve.AnswersCarried | src/socket/resolv.c:79-112 | every local answer has the question's own name and a form the wire can carry |
| Resolve.AsksUpstreamExact | src/socket/resolv.c:60-119 | upstream is asked exactly about queries with another opcode and about names of at most 254 bytes that are neither cached nor stored |
| Resolve.EncodingDelivers | src/storage/message.c:229-409 | whoever receives the encoding of a message in parser form gets that message, up to SOA rdata and given 512 bytes to spare where there are any |
| Resolve.DeliveredReply | src/socket/resolv.c:51-155 | what every reader of a local reply gets: the query's id and question, QR and AA set, code 0, no authority or additional records, and as answer the cached records in cache order, else none if a stored one starts with 0.0.0.0, else the stored ones |
| Resolve.ReplyHeader | src/socket/resolv.c:51-57 | the reply has the query's id, QR set, opcode 0, TC clear and the given code |
| Resolve.SendMessage | src/socket/resolv.c:167-171 | the encoding is sent; every receiver gets the message, or rejects it if its TC bit is set |
| Resolve.SendReply | src/socket/resolv.c:134-171 | the bytes sent are the encoding of the reply, and every receiver gets it |
| Resolve.SendFormatError | src/socket/resolv.c:73-77 | an overlong question name makes a reply of the 11 bytes that hold the query's id and code 1, which every receiver rejects |
| Resolve.ResolvHandle | src/socket/resolv.c:44-171 | when a query is refused, passed upstream or answered; every reader of an answer gets the id, flags, question and records due; the hits are put back in the cache, and cache, database and send buffer are valid and apart for the next query |
| Upstream.PutAnswers | src/socket/resolv.c:129-131 | every answer record is put into the cache, in order |
| Upstream.UsableExact | src/socket/client.c:98-108 | an upstream answer is usable if and only if at least twelve bytes arrived, with the id the question was sent under and TC clear |
| Upstream.WireAnswerUsable | src/socket/client.c:98-108 | an answer laid out as RFC 1035 has it under that id is usable, and its records are the ones it means |
| Upstream.RelayUpstream | src/socket/resolv.c:121-171 | every reader gets a usable upstream answer with its flags, counts, question and all three record sections under the client's id, and its answers are put into the cache; otherwise every reader gets the query's questions and the buffered records under the id and flags that arrived, or nothing if those say TC, and the cache is untouched; and exactly when the bytes sent carry the client's id |
| Upstream.Handle | src/socket/resolv.c:44-176 | the whole of resolv_handle for at most one question: the result, what every reader of the reply gets, whose id it carries, what is put into the cache, and that the next query finds everything valid |
| Upstream.TruncatedAnswer | src/socket/client.c:98-108 | a truncated upstream answer under the right id makes a reply under upstream's id that every receiver rejects |
| Upstream.TruncatedDatagram | src/socket/client.c:98-108 | twelve bytes that make the client's id 7 come back as 9 |

## Left out

- Sockets, TLS, timeouts and the sending of the upstream question (src/socket/server.c, src/socket/client.c:16-97): what arrives from upstream is a parameter.
- Resolve.ResolvHandle: covers queries with at most one question; with several, each question restarts at the front of the answer buffer (src/socket/resolv.c:79, 97) and the reply is made of overwritten entries. `Upstream.RelayUpstream` takes what those leave behind as a parameter.
- Upstream.Handle: covers queries with at most one question, as `Resolve.ResolvHandle` does.
- Upstream.RelayUpstream: does not cover replies with names over 254 bytes, which the printer does not write as they were read (see `Printer.MessageToU8`), nor buffered records without a name, which a second cache hit for fewer records can leave.
- Null elements inside a present section array (src/storage/message.c:350, 367, 383, 399): elements are values here; an absent array is modelled.
- Reading the relay file, `format_domain`, `str_lower` and the address conversions (src/storage/database.c:13-96): input and thin wrappers.
- Allocation, freeing and leaks, and the sharing of pointers after a failed copy (src/storage/message.c:47-73): records are values.
- Cache.RrCache.PutRr: requires a name of at most 254 bytes, because a longer one is cached as a shared pointer that is freed elsewhere (src/storage/message.c:57-62).
- Cache.RrCache.Sweep: does not model the 32-bit wrap of the size counter, because a list of four billion nodes does not fit in memory.
- Database.Store.Insert: requires stored rdata no shorter than the new record's, because the duplicate test reads that many bytes (src/storage/trees.c:151-153), and labels of at most 49 bytes, because an entry has room for no more (src/storage/trees.h:9).
- Start-up of the pool and of the refresh thread, and the endless repetition of `refresh_cache`: one pass is modelled, and runs repeat it.
- Logging, the command line and the configuration (src/utils/conf.c, src/utils/logging.c, src/main.c).
