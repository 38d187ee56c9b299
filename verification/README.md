# pdnsd inside Orbot: a model in Dafny

Orbot ships a patched copy of pdnsd, a caching DNS proxy, under
`orbotservice/src/main/jni/pdnsd`. These Dafny files model the parts of it
whose correctness is hardest to see from the C code, and prove what each part
is for. `dafny verify dfyconfig.toml` checks the whole project.

| file | what it models |
|---|---|
| Names | names as sequences of labels, their wire form, ASCII case; rhnlen, rhnsegcnt, rhnicmp, isnormalencdomname, domain_match |
| Decompress, Compress | section 4.1.4 of RFC 1035: decompress_name, compress_name and runs of them |
| Records, RecordIO | add_rr and rrs2cent: how records are written into an answer and parsed out of one |
| RecordData | what the data of each type are, type by type: as they stand in a message, as they are stored, as they go out |
| Answers | compose_answer as a sequence of calls that add records, add addresses of names mentioned before, or add an OPT record |
| CacheLock | the reader/writer lock of the cache with suspension of readers, as a state machine over threads |
| StableOrder, AgeList | the age list as linked nodes: insert_rrl, remove_rrl, listmerge, sort_rrl |
| CacheEntry, CachePolicy | one cache entry and its accounting; ttl limits, time-outs, which types exclude each other |
| CacheLinks | how entries, the links to the age list and the list fit together |
| CachePurge, CacheFresh, CacheMerge, CacheSafety | what eviction, purging, looking up and merging mean, and what they keep |
| Cache | the store itself: add_cache, lookup_cache, purge_cache, purge_cent, del_cache and all they are made of |
| HashTable | the bucket table with chains in order of a second hash |
| DiskImage | the file format of write_disk_cache and read_disk_cache |
| QueryMachine | the outgoing query: p_query_sm, p_exec_query, p_cancel_query, protocol switches, and what happens to its socket and its two blocks of memory |
| BindSocket | how bind_socket picks a port |
| NameText | rhn2str, parsestr2rhn, str2rhn |
| Containers | dynamic arrays and lists (list.c, list.h) |
| Powers, Wrappers | powers of two; the option type |

Code that works step by step is a method with the loops of the original, or a
class whose methods change its fields; each such method is proved equal to a
function on values (or to a statement about the old and the new state), and the
lemmas are about those functions. What a function comes to is said once more on
the data alone, in numbers and fields, by the lemmas that end in Means or Is.
Where the original may run out of memory, the model has a parameter that says so
or an arbitrary choice, and both outcomes are covered.

## What turned out

- compress_name rests on a remark that the first occurrence of a suffix cannot
  itself be compressed there. `Compress.TargetIsLiteral` proves it for every
  run, under the 0x3fff limit on offsets too.
- add_rr takes back an additional record that makes a UDP answer too long, but
  leaves its owner name in the compression list (dns_answer.c:396-397). Every
  answer that compose_answer puts together reads back all the same, because it
  adds addresses only of names that stand in records it has added before
  (`Answers.WholeAnswerReadsBack`). It is not a promise of add_rr alone:
  `Records.TakenBackSafe` says when exactly taking back is harmless, and
  `Answers.TakenBackFails` has two calls, at a limit of 512 bytes, of which the
  second writes a pointer to itself.
- A reply over TCP that announces a length of zero makes p_query_sm call
  realloc with size zero, and free the old block again if null comes back
  (dns_query.c:785-791, 957-963). Where realloc frees the block in that case, a
  buffer kept from an earlier reply is freed twice (`QueryMachine.FreedTwice`).
  In any run no block is ever freed again if and only if this is not such a
  platform, or no length of zero is read while a buffer is held
  (`QueryMachine.AnyRun`).
- No wakeup of the cache lock is lost just when at most two threads use the
  timed lock (`CacheLock.NeverStuckIff`); the program has one. If
  pthread_cond_timedwait can report a time-out after it has consumed a signal,
  which POSIX does not rule out, one such thread is enough to lose a wakeup
  (`CacheLock.NeverStuckLateIff`).
- add_cache can leave a positive entry without a set in the hash table. Such an
  entry is on no list, so that purge_cache never reaches it
  (`CachePurge.HollowsStay`). It comes about if and only if
  `CacheSafety.Emptied` holds (`CacheSafety.HollowsAdded`): all sets of the entry
  have timed out and the input has none; or a local entry deletes its last sets
  for new ones that it then refuses; or memory runs out when all sets of the
  entry are out of the way. `CacheSafety.ThreeEmptied` has an input of each kind.
- add_cache keeps negative input out when the entry there has a local set, but a
  local negative entry, which has no sets, gives way to it. It also becomes
  positive with the first set that is negative or local, since cr_check_add lets
  these pass before it looks at DF_LOCAL. It survives just if the input has
  none of these (`CacheSafety.LocalNegativeAdded`, inputs in
  `CacheSafety.ThreeEndDenial`).

## Model

| member | source | states |
|---|---|---|
| Names.RhnLen | orbotservice/src/main/jni/pdnsd/src/helpers.h:60-69 | the loop yields the length of the wire form, terminator included |
| Names.LitsSplit | orbotservice/src/main/jni/pdnsd/src/helpers.h:72-81 | skipping j labels leaves exactly the wire form of the remaining labels |
| Names.RhnSegCnt | orbotservice/src/main/jni/pdnsd/src/helpers.h:98-109 | the loop yields the number of labels |
| Names.EncodeInjective | orbotservice/src/main/jni/pdnsd/src/helpers.h:60-109 | the wire form determines the labels and where the name ends, so walking length bytes is unambiguous |
| Names.RhnICmp | orbotservice/src/main/jni/pdnsd/src/helpers.h:201-221 | one pass over both byte strings decides equality of the names up to ASCII case, label by label |
| Names.LowerMeans | orbotservice/src/main/jni/pdnsd/src/helpers.h:201-221 | two bytes count as the same if and only if they are, or are the two cases of one ASCII letter |
| Names.SameIsFoldedBytes | orbotservice/src/main/jni/pdnsd/src/helpers.h:201-221 | folding whole wire forms, length bytes and all, compares names correctly, because no length byte is a letter |
| Names.IsNormalEncDomName | orbotservice/src/main/jni/pdnsd/src/helpers.c:369-384 | the loop reads only within the given bytes and decides NormalFrom |
| Names.NormalIsName | orbotservice/src/main/jni/pdnsd/src/helpers.c:369-384 | accepted are exactly the byte strings that begin with an uncompressed name of at most 256 bytes |
| Names.DomainMatch | orbotservice/src/main/jni/pdnsd/src/dns.c:204-238 | the number of trailing labels in common, and both offsets at which that suffix starts, for all names that fit a name buffer |
| Names.CommonSuffixIsLongest | orbotservice/src/main/jni/pdnsd/src/dns.c:204-238 | the suffix counted is the longest common one: the last j labels agree up to case if and only if j is at most the count |
| Decompress.DecompressName | orbotservice/src/main/jni/pdnsd/src/dns.c:44-156 | on any message and any data field the code terminates, reads only inside the message, writes at most 256 bytes, returns the code of the outcome, and moves *src and *sz by what the name occupies in place, only on success |
| Decompress.NearIsMeaning | orbotservice/src/main/jni/pdnsd/src/dns.c:44-130 | it succeeds with a name if and only if the bytes denote that name in the sense of section 4.1.4 of RFC 1035 by at most 255 pointers, the name fits and its in-place encoding lies within the data field |
| Decompress.DenotesUnique | orbotservice/src/main/jni/pdnsd/src/dns.c:44-130 | a position in a message denotes at most one name, with one number of pointers |
| Decompress.FarSound | orbotservice/src/main/jni/pdnsd/src/dns.c:94-130 | whatever the loop after the first jump accepts is the meaning of that position, in bounds and within the hop limit |
| Decompress.FarComplete | orbotservice/src/main/jni/pdnsd/src/dns.c:94-130 | every meaning within the limits is found by that loop |
| Decompress.NearSound | orbotservice/src/main/jni/pdnsd/src/dns.c:44-92 | what the first loop accepts is the meaning of the bytes, and the bytes it uses are those of the in-place encoding |
| Decompress.DecompressLabels | orbotservice/src/main/jni/pdnsd/src/dns.c:54-91 | the first loop copies labels until the terminator, a pointer or an error, keeping what remains to be read |
| Decompress.DecompressJumped | orbotservice/src/main/jni/pdnsd/src/dns.c:94-125 | the second loop writes the labels behind a pointer, never beyond 256 bytes, and ends by the hop limit |
| Compress.CompressionList.CompressName | orbotservice/src/main/jni/pdnsd/src/dns.c:248-300 | the bytes written and the list left behind, for any list; without memory the list is lost and nothing is returned |
| Compress.CompressionList.Longest | orbotservice/src/main/jni/pdnsd/src/dns.c:258-277 | the loop over the list chooses the first entry of each new record length whose offset fits a pointer |
| Compress.EmitNoLonger | orbotservice/src/main/jni/pdnsd/src/dns.c:240-300 | the output is never longer than the input and shorter whenever a pointer is used |
| Compress.TargetIsLiteral | orbotservice/src/main/jni/pdnsd/src/dns.c:263-267 | the label a new pointer leads to was itself written literally, whatever names came before and wherever the limit on offsets cut in |
| Compress.LiteralElsewhere | orbotservice/src/main/jni/pdnsd/src/dns.c:263-267 | a suffix that is not literal in one entry is literal in an earlier one |
| Compress.EarlierWouldWin | orbotservice/src/main/jni/pdnsd/src/dns.c:261-276 | an earlier entry with the suffix literal is never passed over for want of a small enough offset |
| Compress.RunKeeps | orbotservice/src/main/jni/pdnsd/src/dns.c:291-299 | after any run of calls with outputs at advancing places, each entry of the list stands in the message as it was emitted |
| Compress.RunExpands | orbotservice/src/main/jni/pdnsd/src/dns.c:248-300 | every name emitted in any run denotes the original up to ASCII case, through no more pointers than it has labels, so far fewer than 255 |
| Compress.RoundTrip | orbotservice/src/main/jni/pdnsd/src/dns.c:248-300 | decompress_name at the place of any name of any run succeeds, gives the name back up to case and consumes exactly what was emitted |
| Compress.EmittedInPlace | orbotservice/src/main/jni/pdnsd/src/dns.c:278-290 | what an emitted name occupies in a message is exactly the bytes emitted |
| RecordIO.DnsAnswer.Reserve | orbotservice/src/main/jni/pdnsd/src/dns_answer.c:228-243 | the buffer has room for the new size afterwards, or memory has run out and it is unchanged |
| RecordIO.DnsAnswer.WriteOwner | orbotservice/src/main/jni/pdnsd/src/dns_answer.c:221-250 | the compressed owner name is written and there is room for header and data |
| RecordIO.DnsAnswer.WriteData | orbotservice/src/main/jni/pdnsd/src/dns_answer.c:252-394 | the record data of every type go out as GoesOutIs says, each name compressed against the list as it then is, in no more bytes than were reserved; any of the allocations on the way may fail |
| RecordIO.DnsAnswer.Commit | orbotservice/src/main/jni/pdnsd/src/dns_answer.c:398-415 | the header is filled in and exactly one count goes up, modulo 2^16 |
| RecordIO.DnsAnswer.AddRr | orbotservice/src/main/jni/pdnsd/src/dns_answer.c:213-418 | the message, the list and the counts of the header after add_rr, whichever allocation fails: the record is committed, or taken back for want of room, or the message so far and the counts are unchanged |
| Records.RdataNoLonger | orbotservice/src/main/jni/pdnsd/src/dns_answer.c:228-394 | compressed record data never take more room than the stored data, so the reservation suffices |
| RecordData.GoesOutIs | orbotservice/src/main/jni/pdnsd/src/dns_answer.c:252-394 | type by type: the names in NS, CNAME, PTR, MX, SOA, SRV, MINFO, RP, PX, NXT and NAPTR data and their like go out compressed, the second against the list that the first has grown; all other bytes, and all data of other types, as they are |
| Records.HeaderReadsBack | orbotservice/src/main/jni/pdnsd/src/dns_query.c:246-254 | type, class, ttl and data length written by add_rr are the ones rrs2cent reads |
| Records.AddRecordSound | orbotservice/src/main/jni/pdnsd/src/dns_answer.c:213-418 | committing a record keeps the compression list true of the message |
| Records.RecordReadsBack | orbotservice/src/main/jni/pdnsd/src/dns_query.c:230-678 | a committed record of any cached type is parsed with the same owner, type, ttl and data, names up to case, whatever follows it in the message |
| Records.RecordsReadBack | orbotservice/src/main/jni/pdnsd/src/dns_query.c:230-678 | any sequence of records added by add_rr to a message with a true list is read back in full, in order, to the last byte |
| Records.TakenBackSafe | orbotservice/src/main/jni/pdnsd/src/dns_answer.c:396-397 | after an over-long additional record has been taken back, all later records still read back if and only if its owner was already wholly in the list or stood beyond the reach of pointers |
| Answers.WholeAnswerReadsBack | orbotservice/src/main/jni/pdnsd/src/dns_answer.c:752-985 | every answer that compose_answer puts together is read back by rrs2cent from its header on: all records kept, in order, to the last byte, whatever the limit over UDP and whichever addresses were taken back |
| Answers.AnswerReadsBack | orbotservice/src/main/jni/pdnsd/src/dns_answer.c:576-744 | the same for the records added to any message with a true list, each address being one of a name mentioned before |
| Answers.StepKeeps | orbotservice/src/main/jni/pdnsd/src/dns_answer.c:213-455 | each call keeps the list true of the message and the names mentioned so far wholly in the list, also when it takes a record back |
| Answers.QuestionsFine | orbotservice/src/main/jni/pdnsd/src/dns_answer.c:784-811 | the questions, their names compressed, leave a list that is true of the message |
| Answers.OptSkipped | orbotservice/src/main/jni/pdnsd/src/dns_answer.c:423-455 | the OPT record of an answer is passed over by rrs2cent, whatever it holds |
| Answers.TakenBackFails | orbotservice/src/main/jni/pdnsd/src/dns_answer.c:396-397 | add_rr alone does not promise it: at a limit of 512 bytes, after a message of 496, the second of two addresses of one host is written as a pointer to itself |
| Records.SelfPointerMalformed | orbotservice/src/main/jni/pdnsd/src/dns.c:98-112 | a pointer to itself is refused with RC_FORMAT, by the hop limit |
| RecordIO.ReadSealed | orbotservice/src/main/jni/pdnsd/src/dns_query.c:538-649 | IPSECKEY, RRSIG and NSEC data are kept as they are when the name in them is plain, and expanded when it is compressed |
| RecordIO.ReadData | orbotservice/src/main/jni/pdnsd/src/dns_query.c:285-649 | for every type the stored data are those that DataIs describes, if and only if the bytes at pos have that shape; RC_FORMAT otherwise, or RC_SERVFAIL where the buffer is too small for them |
| RecordData.DataIs | orbotservice/src/main/jni/pdnsd/src/dns_query.c:285-649 | type by type: what is stored for a record whose data are the bytes from pos to end: four or sixteen bytes for an address; the wire form of the name that they denote, if it exactly fills them, for NS, CNAME, PTR and the like; two bytes and such a name for MX; two names and twenty bytes for SOA; six bytes and a name for SRV; and so on; nothing if the bytes do not have that shape |
| RecordData.RecordIs | orbotservice/src/main/jni/pdnsd/src/dns_query.c:236-660 | a record is truncated, passed over because of its type or class, or stored with owner, ttl and data as they stand in the message |
| RecordIO.ReadRecord | orbotservice/src/main/jni/pdnsd/src/dns_query.c:236-660 | one turn of the loop: a record taken, passed over, or the code to stop with |
| RecordIO.Rrs2Cent | orbotservice/src/main/jni/pdnsd/src/dns_query.c:230-678 | the loop hands the parsed records to the cache in order, skips what is not cached, and stops with the code of the first error |
| CacheLock.AlwaysConsistent | orbotservice/src/main/jni/pdnsd/src/cache.c:235-365 | in every reachable state, whatever signals, time-outs and spurious wakeups occur, the lock words and both pending counters say exactly what the threads are doing |
| CacheLock.MutualExclusion | orbotservice/src/main/jni/pdnsd/src/cache.c:235-326 | a writer excludes readers and other writers |
| CacheLock.ReaderMeans | orbotservice/src/main/jni/pdnsd/src/cache.c:235-248 | a reader gets in if and only if nobody writes, readers are not suspended and the writers waiting exceed half of the readers waiting by at most two; otherwise he sleeps, and too many writers suspend all readers |
| CacheLock.WriterMeans | orbotservice/src/main/jni/pdnsd/src/cache.c:269-309 | a writer, timed or not, gets in if and only if nobody reads or writes |
| CacheLock.HandOverMeans | orbotservice/src/main/jni/pdnsd/src/cache.c:311-365 | giving up the write lock ends any suspension of readers |
| CacheLock.WakesWhom | orbotservice/src/main/jni/pdnsd/src/cache.c:250-365 | who may be woken when a lock is given up: after writing all readers that sleep, if any waits and few writers do, otherwise one writer, any of them; after reading one writer by the last reader, nobody by the others; the lock is yielded only if somebody waits |
| CacheLock.WokenMeans | orbotservice/src/main/jni/pdnsd/src/cache.c:250-365 | just those go on, and nobody else moves |
| CacheLock.NobodyBlocked | orbotservice/src/main/jni/pdnsd/src/cache.c:235-365 | in every reachable state whoever does not sleep can take his next step, whatever has happened before |
| CacheLock.AlwaysGood | orbotservice/src/main/jni/pdnsd/src/cache.c:201-365 | in runs with at most two users of the timed lock, suspended readers always have an untimed writer ahead of them, and sleeping writers before a free lock somebody who is about to take it |
| CacheLock.NoLostWakeup | orbotservice/src/main/jni/pdnsd/src/cache.c:235-365 | in such runs, whenever the lock is free and somebody waits, some awake thread takes it when it is run next |
| CacheLock.ReadersCoveredStep | orbotservice/src/main/jni/pdnsd/src/cache.c:235-365 | every step keeps an untimed writer ahead of suspended or sleeping readers |
| CacheLock.WritersCoveredStep | orbotservice/src/main/jni/pdnsd/src/cache.c:235-365 | every step keeps somebody awake before a free lock with sleeping writers |
| CacheLock.SuspensionHasWriter | orbotservice/src/main/jni/pdnsd/src/cache.c:235-365 | readers are suspended only while a writer holds the lock or an untimed one waits |
| CacheLock.NeverStuckIff | orbotservice/src/main/jni/pdnsd/src/cache.c:285-309 | without late time-outs, no run loses a wakeup if and only if at most two threads use the timed lock |
| CacheLock.NeverStuckLateIff | orbotservice/src/main/jni/pdnsd/src/cache.c:285-309 | with late time-outs, if and only if no thread does |
| CacheLock.ThreeTimedLoseWakeup | orbotservice/src/main/jni/pdnsd/src/cache.c:235-309 | three timed waiters that give up leave a suspended reader asleep before a free lock, with nobody awake to take it |
| CacheLock.StuckUntilAnother | orbotservice/src/main/jni/pdnsd/src/cache.c:235-365 | in such a state what the threads at the lock do leaves it free and wakes nobody; another thread that comes, or a wakeup for no reason, is needed |
| CacheLock.LateTimeoutLosesWakeup | orbotservice/src/main/jni/pdnsd/src/cache.c:285-309 | a timed waiter that times out after it was signalled leaves a writer asleep before a free lock |
| StableOrder.InsertAllKeeps | orbotservice/src/main/jni/pdnsd/src/cache.c:889-950 | a list built by sorted insertion is in order and keeps equal time stamps in order of arrival |
| StableOrder.StableUnique | orbotservice/src/main/jni/pdnsd/src/cache.c:1012-1055 | only one sequence is sorted and stable, so sort_rrl gives the list insertion would have given |
| StableOrder.MergeStable | orbotservice/src/main/jni/pdnsd/src/cache.c:972-1004 | merging keeps, among equals, the first list before the second |
| StableOrder.InsertAllPermutes | orbotservice/src/main/jni/pdnsd/src/cache.c:1012-1055 | no node is lost or doubled by sorting |
| AgeList.ListMerge | orbotservice/src/main/jni/pdnsd/src/cache.c:972-1004 | relinking the next fields of two chains makes one chain, their merge |
| AgeList.Settle | orbotservice/src/main/jni/pdnsd/src/cache.c:1024-1038 | slot i of the counter array is empty or a sorted run of exactly 2^i nodes; slots at or above fill are not read; the assertion on the number of slots cannot fail below 2^32 nodes |
| AgeList.MergeAll | orbotservice/src/main/jni/pdnsd/src/cache.c:1040-1046 | merging the slots in ascending order gives the stable order of the whole list |
| AgeList.RestoreBack | orbotservice/src/main/jni/pdnsd/src/cache.c:1048-1053 | the back links and the tail fit the new order |
| AgeList.RrList.SortRrl | orbotservice/src/main/jni/pdnsd/src/cache.c:1012-1055 | the list is the stable sorted permutation of the old one, with correct next and back links, head and tail |
| AgeList.RrList.InsertRrl | orbotservice/src/main/jni/pdnsd/src/cache.c:889-950 | the new node stands behind the last one not younger, or at the end when the list is not kept sorted; all links are right; without memory nothing changes |
| AgeList.RrList.RemoveRrl | orbotservice/src/main/jni/pdnsd/src/cache.c:953-965 | the list without that node, all links right |
| CacheEntry.AddEmptySet | orbotservice/src/main/jni/pdnsd/src/cache.c:605-652 | cs and num_rrs stay exact on every exit, also when the second allocation fails; a negative entry becomes positive |
| CacheEntry.AddSetExact | orbotservice/src/main/jni/pdnsd/src/cache.c:605-652 | adding a set keeps cs and num_rrs exact and changes no other set |
| CacheEntry.DelSetExact | orbotservice/src/main/jni/pdnsd/src/cache.c:755-792 | so does deleting one |
| CacheEntry.AppendRrExact | orbotservice/src/main/jni/pdnsd/src/cache.c:668-709 | so does appending a record |
| CacheLinks.MeshExtended | orbotservice/src/main/jni/pdnsd/src/cache.c:889-950 | a new node goes in at its place in time, or at the end, and the list stays in order |
| CachePolicy.ExcludeSymmetric | orbotservice/src/main/jni/pdnsd/src/rr_types.h:464-530 | exclusion between types is symmetric, and no type excludes itself |
| CachePolicy.ExcludeMeans | orbotservice/src/main/jni/pdnsd/src/rr_types.h:464-530 | by type number: CNAME and DNAME, pointers, and address and other data records exclude each other group by group |
| CachePolicy.ClashesMeans | orbotservice/src/main/jni/pdnsd/src/cache.c:1774-1786 | a set stands in the way of one of another type if and only if it is there, no denial, and the types are of different kinds |
| CachePolicy.CheckedAt | orbotservice/src/main/jni/pdnsd/src/cache.c:1759-1814 | what passes cr_check_add leaves no set that excludes the new one; a refusal deletes nothing, and input that is not local deletes nothing local |
| CachePolicy.MayAddMeans | orbotservice/src/main/jni/pdnsd/src/cache.c:1759-1798 | local and negative sets may always be added; others never to a local entry, nor against a local set; otherwise if they last longer than every set that excludes them, and not if each of those lasts at least as long |
| CachePolicy.TimedOutMeans | orbotservice/src/main/jni/pdnsd/src/cache.h:126-135 | data last until ts+ttl or until ts+120, whichever is later |
| CachePolicy.GoneMeans | orbotservice/src/main/jni/pdnsd/src/cache.c:1188-1198 | a set may stay if and only if it is local, kept from purging, or within its time |
| CachePolicy.AdjustTtlMeans | orbotservice/src/main/jni/pdnsd/src/cache.c:1817-1837 | the ttl of a set ends at zero if it is not to be cached, else as it was if within the limits, else at the limit it exceeds; for a negative set the lower limit is the smaller of min_ttl and neg_ttl |
| CachePolicy.AdjustDomTtlMeans | orbotservice/src/main/jni/pdnsd/src/cache.c:1840-1862 | the same for the denial of a name |
| CachePolicy.WithoutClashesAt | orbotservice/src/main/jni/pdnsd/src/cache.c:1800-1809 | of the sets, just those that exclude the new type go, and the entry stays exact |
| CacheLinks.KeySame | orbotservice/src/main/jni/pdnsd/src/hash.c:106-128 | entries are found by name up to ASCII case |
| CacheLinks.MeshInsert | orbotservice/src/main/jni/pdnsd/src/cache.c:889-950 | listing a set keeps nodes and back links one to one |
| CacheLinks.MeshRemove | orbotservice/src/main/jni/pdnsd/src/cache.c:953-965 | so does taking one off |
| Cache.Store.ListedMeans | orbotservice/src/main/jni/pdnsd/src/cache.c:889-965 | in every valid cache the list has exactly one node for each set and each denial that is not local, under its own time, from old to young once it is kept sorted |
| CacheLinks.TotalUpdate | orbotservice/src/main/jni/pdnsd/src/cache.c:1930-1992 | the total size changes by what one entry changes |
| CachePurge.EvictShrinks | orbotservice/src/main/jni/pdnsd/src/cache.c:1352-1365 | evicting what the list stands on removes that place only, and nothing local |
| CachePurge.ExpireAllMeans | orbotservice/src/main/jni/pdnsd/src/cache.c:1318-1340 | visiting any places of an entry table deletes just those that are past their time, an entry with its last set, and leaves everything else as it was |
| CachePurge.NothingPast | orbotservice/src/main/jni/pdnsd/src/cache.c:1318-1340 | when all places were visited, nothing listed is past its time |
| CachePurge.SmallEnough | orbotservice/src/main/jni/pdnsd/src/cache.c:1314-1345 | a lazy purge of a cache that is small enough changes nothing |
| CachePurge.HollowsStay | orbotservice/src/main/jni/pdnsd/src/cache.c:1314-1366 | a purge neither makes a positive entry without sets nor gets rid of one |
| CacheFresh.PurgedAt | orbotservice/src/main/jni/pdnsd/src/cache.c:1207-1245 | just the sets that have timed out, and are neither local nor kept from purging, go; the rest and the accounting stay right; the second array goes when it is empty |
| CacheFresh.PurgedTwice | orbotservice/src/main/jni/pdnsd/src/cache.c:1207-1245 | purging the sets of an entry again finds nothing |
| CacheFresh.SameStale | orbotservice/src/main/jni/pdnsd/src/cache.c:1273-1304 | a purge finds the same stale NS and SOA references before the sets are deleted and after |
| CacheFresh.PurgeMeans | orbotservice/src/main/jni/pdnsd/src/cache.c:1257-1307 | nothing of an entry is left if all its sets have to go, and itself too when it is a denial; else the sets that may stay, each as it was, and of c_ns and c_soa only what is at most the number of labels and leads to a set with records, local or within its time, the name under the last so many labels being in the cache; a reference that led to one before is unchanged |
| CacheFresh.PurgeResultMeans | orbotservice/src/main/jni/pdnsd/src/cache.c:1207-1307 | the number returned is -1 if the entry goes, else that of the sets gone, one more for the array of rarer types when it goes, and one more for each reference set back |
| CacheFresh.StaleMeans | orbotservice/src/main/jni/pdnsd/src/cache.c:1273-1304 | a reference is stale if and only if it is there, in an entry that is not local, and leads to no set that may be used |
| CacheFresh.PurgeIdempotent | orbotservice/src/main/jni/pdnsd/src/cache.c:1257-1307 | a second purge at the same time finds and changes nothing |
| CacheFresh.NothingToPurge | orbotservice/src/main/jni/pdnsd/src/cache.c:1257-1307 | when the test finds nothing to do, the purge would change nothing |
| CacheFresh.PurgedIsFresh | orbotservice/src/main/jni/pdnsd/src/cache.c:1257-1307 | what a purge leaves of an entry is neither timed out nor spent |
| CacheFresh.SpentMeans | orbotservice/src/main/jni/pdnsd/src/cache.c:1265-1269 | an entry may go if and only if no set of it may stay and, when it is a denial, it is neither local nor within its time |
| CacheFresh.FindWildMeans | orbotservice/src/main/jni/pdnsd/src/cache.c:2191-2224 | a wildcard answer comes from the nearest ancestor in the cache |
| CacheFresh.FindWildIs | orbotservice/src/main/jni/pdnsd/src/cache.c:2191-2224 | without an ancestor in the cache nothing is found; the nearest one is the answer if it is a denial, or local and without wildcard; its wildcard entry is if it has one |
| CacheFresh.FindMeans | orbotservice/src/main/jni/pdnsd/src/cache.c:2191-2224 | an entry of that very name is found before any wildcard, and nothing else unless wildcards are asked for |
| CacheMerge.MergeSetKeeps | orbotservice/src/main/jni/pdnsd/src/cache.c:1933-1975 | merging one set keeps an entry exact and free of conflicts, spares local sets, and touches no other set but to delete it |
| CacheMerge.AnswerPrevails | orbotservice/src/main/jni/pdnsd/src/cache.c:1937-1975 | an answer replaces what was there unless local data or an excluding type stands in the way |
| CacheMerge.OutrankedMeans | orbotservice/src/main/jni/pdnsd/src/cache.c:1938-1947 | a set there keeps a new one out just if it is local and the new one is not, or if the new one is additional data and it is within its time and an answer, or from a root server and the new one is not |
| CacheMerge.MergeSetMeans | orbotservice/src/main/jni/pdnsd/src/cache.c:1933-1975 | slot by slot what is there after one set was merged: all as it was, if outranked; else the new set with its ttl within the limits, and those that exclude it gone, if the check lets it in; else its slot is empty |
| CacheMerge.AnswerSurvives | orbotservice/src/main/jni/pdnsd/src/cache.c:1930-1982 | an answer within its time survives any input that has only additional data of its type and nothing that excludes it |
| CacheMerge.MergeSetsSlots | orbotservice/src/main/jni/pdnsd/src/cache.c:1930-1982 | when no type excludes another, each slot after merging any input depends on the set there and the set of the input alone |
| CacheMerge.BetterRefMeans | orbotservice/src/main/jni/pdnsd/src/cache.c:1979-1982 | of two references the longer one stays |
| CacheMerge.MergeSetsKeep | orbotservice/src/main/jni/pdnsd/src/cache.c:1932-1976 | so does merging any number of sets; each slot ends as it was, empty, or with the new set, its ttl adjusted |
| CacheMerge.MergeIsSafe | orbotservice/src/main/jni/pdnsd/src/cache.c:1914-1982 | merging any input into an entry free of conflicts leaves it so, and input without local sets neither removes nor alters a local one |
| CacheMerge.PartialMergeIsSafe | orbotservice/src/main/jni/pdnsd/src/cache.c:1914-2002 | so does a merge that ran out of memory half way |
| CacheMerge.FailedMerge | orbotservice/src/main/jni/pdnsd/src/cache.c:1937-1999 | wherever memory runs out while a set is added, the entry is left positive, without its set of that type and the sets that exclude it, and otherwise as it was |
| CacheMerge.EmptiedIff | orbotservice/src/main/jni/pdnsd/src/cache.c:1914-1982 | merging leaves an entry positive and without sets if and only if it is positive before, nothing in the input is taken, and every set of it is deleted for one of the input |
| CacheMerge.EmptiedShortIff | orbotservice/src/main/jni/pdnsd/src/cache.c:1937-1999 | a merge cut short does so if and only if all sets there are then have to go for the new one |
| CacheMerge.LocalNegativeIff | orbotservice/src/main/jni/pdnsd/src/cache.c:1764-1774 | a merge leaves a local negative entry negative if and only if no set of the input is local or negative; it then is as it was but for marks and references |
| CacheMerge.SparedNeedsNone | orbotservice/src/main/jni/pdnsd/src/cache.c:1937-1949 | such input asks for no memory, so it cannot fail for want of it |
| CacheSafety.StoredSafe | orbotservice/src/main/jni/pdnsd/src/cache.c:1874-1982 | storing any input keeps the cache free of conflicts, and input without local sets leaves every local set as it was |
| CacheSafety.SlotsAdded | orbotservice/src/main/jni/pdnsd/src/cache.c:1874-1999 | slot by slot what is in the entry once any positive input is stored, when no type excludes another |
| CacheSafety.FaceAdded | orbotservice/src/main/jni/pdnsd/src/cache.c:1890-1982 | what else add_cache stores: a new entry, and negative input in place of an old one, keeps its flags, times and references; one that was merged into has DF_WILD if either has it, DF_AUTH if the input has it and only if one of the two has it, and the longer of the two references, where those of the old entry that led nowhere do not count; no other entry changes |
| CacheSafety.AnswerKept | orbotservice/src/main/jni/pdnsd/src/cache.c:1938-1947 | on any exit of add_cache, an answer within its time is still there if the input has only additional data of its type and nothing that excludes it |
| CacheSafety.HollowsAdded | orbotservice/src/main/jni/pdnsd/src/cache.c:1874-2002 | after add_cache, on any exit, the name has a positive entry without sets if and only if the old entry was positive, the input has no set it takes, and every set of it has timed out or is deleted for one of the input; or memory ran out when all its sets had to go; other names keep theirs |
| CacheSafety.ThreeEmptied | orbotservice/src/main/jni/pdnsd/src/cache.c:1927-1999 | an input of each kind: all sets have timed out and the input has none, a refusal in a local entry, memory that runs out |
| CacheSafety.LocalNegativeAdded | orbotservice/src/main/jni/pdnsd/src/cache.c:1874-2002 | after add_cache, on any exit, a local negative entry is still there as one if and only if the input is positive without sets that are local or negative, when it is as it was but for marks, or is itself local and negative and could be stored |
| CacheSafety.ThreeEndDenial | orbotservice/src/main/jni/pdnsd/src/cache.c:1764-1774 | three inputs that end one: negative input, a negative set, a local set |
| Cache.Store.InsertRrl | orbotservice/src/main/jni/pdnsd/src/cache.c:889-950 | exactly what is not local gets a node, linked both ways, in order |
| Cache.Store.DelCentRrset | orbotservice/src/main/jni/pdnsd/src/cache.c:755-792 | the set and its node go, nothing else; the size returned is what was freed |
| Cache.Store.FreeCent | orbotservice/src/main/jni/pdnsd/src/cache.c:813-837 | all nodes of the entry, and no others, leave the list |
| Cache.Store.DelCacheEnt | orbotservice/src/main/jni/pdnsd/src/cache.c:2075-2091 | the entry leaves table, list, size and count |
| Cache.Store.DelCache | orbotservice/src/main/jni/pdnsd/src/cache.c:2094-2103 | just the entry of that name goes and every invariant of the cache holds |
| Cache.Store.PurgeRrset | orbotservice/src/main/jni/pdnsd/src/cache.c:1188-1198 | a set goes if and only if it is neither local nor kept from purging and the time is past ts+ttl and past ts+120; with test=1 nothing changes |
| Cache.Store.PurgeAllRrsets | orbotservice/src/main/jni/pdnsd/src/cache.c:1207-1245 | with test=1 it returns what the purge itself would and changes nothing |
| Cache.Store.PurgeCent | orbotservice/src/main/jni/pdnsd/src/cache.c:1257-1307 | of the entry just that is left which PurgeMeans describes, and the number returned is that of the sets, the array and the references gone; with test=1 nothing changes |
| Cache.Store.EvictNode | orbotservice/src/main/jni/pdnsd/src/cache.c:1352-1365 | a turn of the second loop frees the node it stands on and no other |
| Cache.Store.ExpireNode | orbotservice/src/main/jni/pdnsd/src/cache.c:1322-1340 | a turn of the first loop frees the node it stands on if it is due, and no other |
| Cache.Store.FirstPass | orbotservice/src/main/jni/pdnsd/src/cache.c:1318-1340 | every node is visited once, in order, until a lazy purge has done enough; of the places visited just those past their time are deleted, everything else is as before; when all were visited nothing listed is past its time |
| Cache.Store.SecondPass | orbotservice/src/main/jni/pdnsd/src/cache.c:1341-1365 | a shortest prefix of the list is evicted that brings the cache to size |
| Cache.Store.PurgeCache | orbotservice/src/main/jni/pdnsd/src/cache.c:1314-1366 | afterwards the cache is small enough or holds nothing but local data; local sets are untouched; the second pass takes the oldest, in sorted order, no more than needed, and nothing if the first has done |
| Cache.Store.CrCheckAdd | orbotservice/src/main/jni/pdnsd/src/cache.c:1759-1814 | the answer and the deletions of cr_check_add, the list kept right |
| Cache.Store.AddCentRrset | orbotservice/src/main/jni/pdnsd/src/cache.c:605-652 | an empty set is added and a negative entry loses its node; without memory the sets are as before |
| Cache.Store.FinishSet | orbotservice/src/main/jni/pdnsd/src/cache.c:1960-1974 | the records, the final ttl and the node of a new set, or the set is gone again |
| Cache.Store.MergeSetInto | orbotservice/src/main/jni/pdnsd/src/cache.c:1933-1975 | one turn of the merge loop, memory permitting, leaves what MergeSetMeans says; otherwise exactly what FailedMerge says |
| Cache.Store.MergeEnt | orbotservice/src/main/jni/pdnsd/src/cache.c:1930-1992 | the loop over the sets of the input, complete or cut short at one of them |
| Cache.Store.NewEnt | orbotservice/src/main/jni/pdnsd/src/cache.c:1890-1913 | a copy with adjusted ttls, every set listed, enters the table, or nothing is kept |
| Cache.Store.StoreNew | orbotservice/src/main/jni/pdnsd/src/cache.c:1882-1926 | a new entry, or negative input in place of an old one, is stored whole or not at all |
| Cache.Store.StoreMerged | orbotservice/src/main/jni/pdnsd/src/cache.c:1914-1982 | the entry is purged and merged into, completely or as far as memory went |
| Cache.Store.AddCache | orbotservice/src/main/jni/pdnsd/src/cache.c:1874-2002 | on every exit, also those for want of memory: cache_size, ent_num, cs and num_rrs are exact; negative input is kept out if and only if the entry there has a local set; what is in each slot after a merge that no type exclusion touches, as SlotsAdded says, and what else is stored, as FaceAdded says; an answer that has not timed out survives additional data; what was there before purge_cache is cut down only if it exceeds the limit, from its oldest, and no further than needed; local sets survive input without local sets; a local negative entry survives, and an entry without sets comes about, just under the conditions of LocalNegativeAdded and HollowsAdded |
| Cache.Store.LookupCache | orbotservice/src/main/jni/pdnsd/src/cache.c:2184-2274 | whatever other threads do between the read lock and the write lock: at the moment the last lock was taken, the name is found if and only if an entry for it is there that has not lapsed, and the copy has just those sets that may stay, each as it was; a set may stay if and only if it is local, kept from purging, or the time is not past both ts+ttl and ts+120 |
| Cache.Store.ReadPath | orbotservice/src/main/jni/pdnsd/src/cache.c:2189-2229 | under the read lock nothing is changed |
| Cache.Store.WritePath | orbotservice/src/main/jni/pdnsd/src/cache.c:2231-2271 | under the write lock the entry is purged and what is left is copied |
| Cache.Store.FindEnt | orbotservice/src/main/jni/pdnsd/src/cache.c:2191-2224 | the loop over the ancestors of the name |
| HashTable.DnsHash | orbotservice/src/main/jni/pdnsd/src/hash.c:57-85 | both hashes as computed byte by byte with wrap-around at 32 bits and at the width of a long |
| HashTable.SameHash | orbotservice/src/main/jni/pdnsd/src/hash.c:57-85 | names equal up to case have equal bucket and equal second hash |
| HashTable.NotBeyond | orbotservice/src/main/jni/pdnsd/src/hash.c:106-128 | the early exit on the second hash never misses a name |
| HashTable.Table.DnsLookup | orbotservice/src/main/jni/pdnsd/src/hash.c:106-128 | the table refines a map keyed by folded names; a miss returns the place to insert at |
| HashTable.Table.AddDnsHash | orbotservice/src/main/jni/pdnsd/src/hash.c:137-150 | insertion there keeps the chains in order and without duplicates, and adds to the map |
| HashTable.Table.DelDnsHashEnt | orbotservice/src/main/jni/pdnsd/src/hash.c:155-164 | the entry at a place goes, from chain and map alike |
| HashTable.Table.DelDnsHash | orbotservice/src/main/jni/pdnsd/src/hash.c:170-190 | the entry of a name goes if there is one |
| HashTable.Table.FreeSelected | orbotservice/src/main/jni/pdnsd/src/hash.c:213-245 | of one chain, exactly the entries go whose first matching rule is an include; the others keep their order |
| HashTable.UnselectedMeans | orbotservice/src/main/jni/pdnsd/src/hash.c:213-245 | whether an entry stays depends on its own name alone, and the others keep their order |
| HashTable.SelectedMeans | orbotservice/src/main/jni/pdnsd/src/hash.c:222-233 | a name is selected if and only if the first rule whose domain it ends with, or is in full for an exact rule, is an include |
| HashTable.Table.IsSelected | orbotservice/src/main/jni/pdnsd/src/hash.c:222-233 | the first matching rule decides, an exact rule matching the name only |
| HashTable.Table.FetchFirst | orbotservice/src/main/jni/pdnsd/src/hash.c:275-287 | returns the first entry, with all others still ahead |
| HashTable.Table.FetchNext | orbotservice/src/main/jni/pdnsd/src/hash.c:289-307 | returns the next of the entries still ahead |
| HashTable.Table.Walk | orbotservice/src/main/jni/pdnsd/src/hash.c:275-307 | a walk returns every entry exactly once, though each may be deleted once returned |
| DiskImage.CountsAgree | orbotservice/src/main/jni/pdnsd/src/cache.c:1680-1722 | the number of sets in the header, counted by array index, equals the number written, enumerated by type |
| DiskImage.KeptMeans | orbotservice/src/main/jni/pdnsd/src/cache.c:1680-1700 | an entry is saved if and only if it is a denial that is not local or has a set that is not local |
| DiskImage.KeptOfMeans | orbotservice/src/main/jni/pdnsd/src/cache.c:1680-1722 | each entry is saved or left out on its own account, in the order of the walk |
| DiskImage.LkUpInjective | orbotservice/src/main/jni/pdnsd/src/rr_types.h:109-163 | no two types share an array index |
| DiskImage.WriteDiskCache | orbotservice/src/main/jni/pdnsd/src/cache.c:1597-1726 | the bytes of the file: version, number of entries, and each entry that is not local |
| DiskImage.WriteRrset | orbotservice/src/main/jni/pdnsd/src/cache.c:1554-1584 | the bytes of one set, at most 255 records |
| DiskImage.ReadDiskCache | orbotservice/src/main/jni/pdnsd/src/cache.c:1375-1513 | any file is read up to the first entry that makes no sense; the entries read are those of ParseFile |
| DiskImage.ReadEnt | orbotservice/src/main/jni/pdnsd/src/cache.c:1428-1507 | one entry, or nothing when its name or its sets make no sense |
| DiskImage.ReadSets | orbotservice/src/main/jni/pdnsd/src/cache.c:1458-1505 | sets must come in strictly ascending order of type |
| DiskImage.EntBack | orbotservice/src/main/jni/pdnsd/src/cache.c:1428-1507 | one entry is read back, and reading goes on right behind it |
| DiskImage.SetsBack | orbotservice/src/main/jni/pdnsd/src/cache.c:1458-1505 | all sets of an entry are read back at their indices |
| DiskImage.FileBack | orbotservice/src/main/jni/pdnsd/src/cache.c:1428-1513 | parsing the file written from any exact entries recovers name, flags, references, negative times and all sets that are not local; of a set, the first 255 records without repetitions, and none in a local entry |
| DiskImage.FileBackInFull | orbotservice/src/main/jni/pdnsd/src/cache.c:1428-1513 | entries that are not local and have no record twice come back as they were: of each set the first 255 records, in order |
| DiskImage.SetFlagsBack | orbotservice/src/main/jni/pdnsd/src/cache.h:80-110 | the flag bits are read back as they were |
| CacheEntry.DistinctSame | orbotservice/src/main/jni/pdnsd/src/cache.c:668-709 | records without duplicates come back as they were |
| DiskImage.AddCentRr | orbotservice/src/main/jni/pdnsd/src/cache.c:718-752 | a record that is there already is not added again, nor one that is not local to a local entry |
| QueryMachine.SmKeeps | orbotservice/src/main/jni/pdnsd/src/dns_query.c:848-1093 | whatever the system calls return, p_query_sm either waits, with the socket open and the blocks in place, or is done, with the socket closed; RC_OK means that the query was sent in full and the reply is complete and, over UDP, the answer to this query; a change of protocol uses up a restart that was left |
| QueryMachine.UdpAnswers | orbotservice/src/main/jni/pdnsd/src/dns_query.c:1060-1085 | RC_OK if and only if memory is there and the datagram is ours with at least a header; one that is shorter or not ours leaves socket and state as they are |
| QueryMachine.TcpAnswers | orbotservice/src/main/jni/pdnsd/src/dns_query.c:858-994 | RC_OK over TCP if and only if the rest of the query goes out and length and reply come in, as far as they were outstanding |
| QueryMachine.TcpMustWait | orbotservice/src/main/jni/pdnsd/src/dns_query.c:858-1006 | p_query_sm waits if and only if the connection is not there yet, or query or reply have gone or come in part, and nothing has failed, or else the query has gone out over UDP instead; RC_FATALERR if and only if there is no memory for the reply |
| QueryMachine.UdpSends | orbotservice/src/main/jni/pdnsd/src/dns_query.c:1007-1059 | over UDP the query goes out and is waited for, or fails, in the same call |
| QueryMachine.TcpFallsBack | orbotservice/src/main/jni/pdnsd/src/dns_query.c:858-1006 | UDP is tried instead if and only if it is allowed and was not tried, and the connection is refused, breaks before any of the query is out, or fails or ends while the reply is read |
| QueryMachine.ResizeKeeps | orbotservice/src/main/jni/pdnsd/src/dns_query.c:785-791 | realloc_or_cleanup frees a block again just when its size is zero, one is held, and realloc frees it |
| QueryMachine.TurnRestarts | orbotservice/src/main/jni/pdnsd/src/dns_query.c:1274-1329 | a query is sent anew only for less: without recursion, or without the OPT record |
| QueryMachine.ExecKeeps | orbotservice/src/main/jni/pdnsd/src/dns_query.c:1138-1352 | p_exec_query either waits for its socket, with everything it needs, or is over and holds nothing, whatever the return code; the inner restarts end |
| QueryMachine.StartedMeans | orbotservice/src/main/jni/pdnsd/src/dns_query.c:1145-1196 | a query that starts asks for recursion if and only if there is a name to ask for and the server is trusted, has an OPT record only for a name and where EDNS is used, and begins with the protocol of its method |
| QueryMachine.CancelKeeps | orbotservice/src/main/jni/pdnsd/src/dns_query.c:1928-1942 | cancelling at any moment closes and frees exactly what is held, and nothing twice |
| QueryMachine.RunKeeps | orbotservice/src/main/jni/pdnsd/src/dns_query.c:804-1352 | every step of every run, calls, time-outs, switches and cancelling in any order, keeps the query in order and its restarts within the budget |
| QueryMachine.AnyRun | orbotservice/src/main/jni/pdnsd/src/dns_query.c:785-1352 | in every run: at most four restarts; no reply is ever taken before it is complete or, over UDP, without being the answer to the query; the socket is open exactly in the waiting states; no block or socket is forgotten; no block is freed again if and only if realloc to zero bytes does not free, or no TCP length of zero was read while a buffer was held; cancelling at any moment leaves nothing open or allocated |
| QueryMachine.FreedTwice | orbotservice/src/main/jni/pdnsd/src/dns_query.c:785-791 | a run in which the receive buffer is freed twice: the first reply makes the query give up recursion, the second announces a length of zero |
| QueryMachine.ZeroLength | orbotservice/src/main/jni/pdnsd/src/dns_query.c:953-967 | so it is at any length of zero while a buffer is held, where realloc frees it |
| QueryMachine.ProtocolAllowed | orbotservice/src/main/jni/pdnsd/src/dns_query.c:790-822 | at every moment of every run the protocol in use is one the query was started with, and a switch happens in one direction only |
| QueryMachine.Query.ReallocBuf | orbotservice/src/main/jni/pdnsd/src/dns_query.c:785-791 | the pointer after realloc_or_cleanup, its size included |
| QueryMachine.Query.QuerySm | orbotservice/src/main/jni/pdnsd/src/dns_query.c:848-1093 | the fields after a call are those of Sm, which SmKeeps is about |
| QueryMachine.Query.UdpReceive | orbotservice/src/main/jni/pdnsd/src/dns_query.c:1060-1085 | the fields after a call are those of UdpAnswers: a datagram of at least a header that is ours is a reply; one that is shorter or not ours is ignored and leaves the socket open; a failure closes it |
| QueryMachine.Query.TcpInitial | orbotservice/src/main/jni/pdnsd/src/dns_query.c:858-922 | connecting: waiting, going on to write, or failing over to UDP |
| QueryMachine.Query.TcpWrite | orbotservice/src/main/jni/pdnsd/src/dns_query.c:923-952 | the query is sent in as many pieces as it takes, length field included, before anything is read |
| QueryMachine.Query.TcpRead | orbotservice/src/main/jni/pdnsd/src/dns_query.c:953-994 | the length, the buffer for it, then as many bytes as it announces, in as many pieces as they come |
| QueryMachine.Query.TcpFailed | orbotservice/src/main/jni/pdnsd/src/dns_query.c:995-1006 | UDP is tried instead if it is allowed and was not tried yet |
| QueryMachine.Query.SwitchToUdp | orbotservice/src/main/jni/pdnsd/src/dns_query.c:804-812 | the method becomes UDP only, and the query starts again |
| QueryMachine.Query.Judge | orbotservice/src/main/jni/pdnsd/src/dns_query.c:1229-1325 | exactly which replies are taken and which make the query give up recursion; the OPT record is given up only for the codes that suggest it; everything else is thrown away |
| QueryMachine.JudgeMeans | orbotservice/src/main/jni/pdnsd/src/dns_query.c:1229-1325 | by return code: which replies are taken, which make the query go out again and with what given up, which are thrown away |
| QueryMachine.ConcludedMeans | orbotservice/src/main/jni/pdnsd/src/dns_query.c:1229-1352 | the code that the caller gets for a reply that is taken, and for one that is thrown away |
| QueryMachine.GivenUpMeans | orbotservice/src/main/jni/pdnsd/src/dns_query.c:804-812 | a time-out changes the protocol if and only if UDP is allowed and was not tried, a TCP socket is open, and nothing of the reply has come |
| QueryMachine.Query.WithoutEdns | orbotservice/src/main/jni/pdnsd/src/dns_query.c:1303-1325 | the OPT record is given up, if it could be removed |
| QueryMachine.Query.ExecQuery | orbotservice/src/main/jni/pdnsd/src/dns_query.c:1138-1352 | the fields after a call are those of Exec, which ExecKeeps is about |
| QueryMachine.Query.CancelQuery | orbotservice/src/main/jni/pdnsd/src/dns_query.c:1928-1942 | the fields after it are those of Cancelled, which CancelKeeps is about |
| QueryMachine.Query.TimedOut | orbotservice/src/main/jni/pdnsd/src/dns_query.c:2313-2319 | a TCP connection that does not come about in time is given up for UDP |
| QueryMachine.Query.SwitchToTcp | orbotservice/src/main/jni/pdnsd/src/dns_query.c:815-822 | a truncated reply leads to one more start, over TCP only |
| QueryMachine.SwitchMeans | orbotservice/src/main/jni/pdnsd/src/dns_query.c:815-822 | a query changes to TCP if and only if UDP has given a truncated reply and both protocols may be used |
| BindSocket.Mask | orbotservice/src/main/jni/pdnsd/src/dns_query.c:708-713 | the mask is the smallest that covers the range |
| BindSocket.EveryPortCanBeDrawn | orbotservice/src/main/jni/pdnsd/src/dns_query.c:708-728 | every port of the range comes up for some 16-bit random number |
| BindSocket.Draw | orbotservice/src/main/jni/pdnsd/src/dns_query.c:716-727 | a draw is in range, and gives up rather than loop for ever |
| BindSocket.BindPort | orbotservice/src/main/jni/pdnsd/src/dns_query.c:683-782 | only ports of the range are tried; "Out of ports" means that the last tries were all ports of the range, each found busy once; the number of tries is bounded |
| NameText.Rhn2Str | orbotservice/src/main/jni/pdnsd/src/helpers.c:264-328 | a name whose printed form fits the buffer is printed in full, with escapes; otherwise the beginning is printed and dots mark the cut, always within the buffer |
| NameText.EscapedMeans | orbotservice/src/main/jni/pdnsd/src/helpers.c:287-305 | by character code: which bytes are printed as they are, which after a backslash, and which as three octal digits that make up their value |
| NameText.ShownVisible | orbotservice/src/main/jni/pdnsd/src/helpers.c:264-328 | whatever bytes a name holds, only visible characters are printed |
| NameText.ShownInjective | orbotservice/src/main/jni/pdnsd/src/helpers.c:264-328 | different names are printed differently |
| NameText.ParseStr2Rhn | orbotservice/src/main/jni/pdnsd/src/helpers.c:214-254 | exactly the readable texts are accepted, and the wire form of at most 256 bytes is stored |
| NameText.Str2Rhn | orbotservice/src/main/jni/pdnsd/src/helpers.c:178-212 | the same for texts that end in a dot |
| NameText.LabelsMeans | orbotservice/src/main/jni/pdnsd/src/helpers.c:181-254 | the labels of a text are the ones that, joined by dots, give the text back, its last dot granted |
| NameText.TextRoundTrip | orbotservice/src/main/jni/pdnsd/src/helpers.c:181-328 | a name without special characters fits when printed into a name buffer, and is read back as it was |
| Containers.DArray.Grow1 | orbotservice/src/main/jni/pdnsd/src/list.c:38-55 | the allocation is always that for the number of elements, however arrays are grown |
| Containers.DArray.Resize | orbotservice/src/main/jni/pdnsd/src/list.c:57-84 | so it is after any resizing |
| Containers.AllocNel | orbotservice/src/main/jni/pdnsd/src/list.c:57-60 | there is room for the smallest positive multiple of eight that is enough |
| Containers.DList.Append | orbotservice/src/main/jni/pdnsd/src/list.c:107-131 | the chunk size recomputed from last and lastsz is the real allocation, and the new item stands behind all others |
| Containers.DList.Walk | orbotservice/src/main/jni/pdnsd/src/list.h:85-110 | dlist_first and dlist_next visit exactly the appended items, in order |
| Containers.DList.Apart | orbotservice/src/main/jni/pdnsd/src/list.c:107-131 | no item overlaps another or a link word, and all lie within the allocation |

## Left out

- Entries and the nodes of the age list refer to each other by pointers. In Cache
  an entry is a value under its folded name and a node has a number; aliasing is
  covered for the list alone (AgeList) and the chains stand for a map, which
  HashTable shows they refine.
- Hash chains are sequences held in an array of buckets; a pointer into a chain
  is an index or the number of entries behind it.
- Lists of 2^32 nodes or more, for which the assertion in sort_rrl would fire.
- Sizes of C structures, the width of a long and of time_t, and the clock are
  parameters; time does not go back within a call. Overflow of `long` counters is
  not modelled.
- rr_to_cache: how several records of one reply are merged into sets, its checks of
  RFC 2181 section 5.2, and what an OPT record tells.
- Type-specific code of add_rr and rrs2cent is driven by a table of layouts instead of
  one case per type; RecordData says, type by type, what that comes to.
- add_reverse_cache, which lends sets to a temporary entry without accounting for them.
- invalidate_record, which sets a time to zero without moving the node: age order holds
  in runs without it.
- set_cent_flags, negate_cent, add_cache_rr_add, getlocalowner, dumps and statistics.
- The soft locks used at shutdown, which wake nobody on purpose.
- Recursive resolution (p_recursive_query, auth_ok, server selection), up-tests and the
  configuration.
- compose_answer's choice of records: in Answers it may add any, in any order, as long as an
  address belongs to a name in the data of a record added before.
- In CacheLock a time-out is one step: a thread whose time-out has come but that has not got the
  mutex back still counts as a sleeper that can be signalled. The test of the pending counters
  in yield_lock_cache_rw, made without the mutex, is taken together with what follows it.
- The lists of types that write_disk_cache goes through (rrmuiterlist, rrcachiterlist) are
  replaced by all types in ascending order.
- Sockets, poll, random numbers, files: their results are arbitrary, a byte sequence, or
  a choice.
- Fallback between IPv6 and IPv4, and multi-homed options of bind_socket.
- A dynamic array or list resized to zero bytes, where realloc may free it.
- ReadDiskCache's entries then go through add_cache, which limits their ttls once more;
  the round trip is stated for the entries before that.
- Java, Kotlin and the other native code of the repository.
- RecordIO.DnsAnswer.AddRr: on failure says nothing of what stands behind the message so far or of
  the compression list, because its callers then throw the answer away.
- Cache.Store.LookupCache: what other threads do is a sequence of add_cache, del_cache and purging,
  while the list is shorter than 2^32 nodes.
- Cache.Store.FindEnt: an entry's name is looked up in the map that HashTable refines.
- BindSocket.Draw: says that a draw is in range, not how probable each port is.
