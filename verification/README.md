# A verified model of the Redis data structures and codecs

The Dafny modules here model the data-structure and codec layer of a cut-down
Redis 3.2.10: the ziplist, the incrementally rehashed dictionary with its cursor
scan and its safe iterator, LZF, the skiplist, the replication backlog with
partial resynchronization, the request printer and parser, and the smaller
codecs and indexes around them. Each module follows one source file or one part
of it; loops are loops, objects whose fields change are classes, and what they
compute is tied to plain mathematics: sequences of byte strings, maps, finite
sets, FIPS 180-4.

`dafny verify dfyconfig.toml` checks everything.

| Part | Modules | Main results |
|---|---|---|
| Integer text (`util.c`) | `Util` | `ll2string` and `string2ll` are inverse on all 64-bit integers, and an accepted text is the only text of its value |
| Ziplist (`ziplist.c`) | `ZiplistEntry`, `ZiplistNodes`, `ZiplistBuffer`, `ZiplistCascade`, `ZiplistInsert`, `ZiplistDelete`, `ZiplistMerge`, `ZiplistRead`, `Ziplist` | insert, delete, push, range delete and merge act on the decoded list as the plain sequence operation, cascades included; every entry in the shortest form there is; reads in both directions; length exact beyond the 16-bit counter |
| LZF (`lzf_c.c`, `lzf_d.c`) | `LzfFormat`, `LzfDecompress`, `LzfSize`, `LzfTable`, `LzfCompress`, `Lzf` | decompression of a result of compression gives the input, for every initial hash table; what the table holds, and that known bytes are referred back to; the size of the result as a function, small for runs; when the documented limit on it holds, as an equivalence |
| Dictionary (`dict.c`) | `DictTable`, `Dict` | every operation acts on the union of both tables as on a map; how far a rehash goes, and when it ends, as an equivalence |
| Cursor scan (`dict.c`) | `DictScan`, `DictScanCall`, `DictScanRun`, `DictRev` | exactly what a call emits; when a call emits all that is due, as an equivalence; coverage over whole runs with changes in between; a run on a dictionary that loses a key; the same on 64-bit words |
| Safe iteration (`dict.c`) | `DictIterator`, `DictIterate` | each key present throughout is returned exactly once, whatever is looked up, added or deleted on the way |
| Skiplist (`t_zset.c`) | `SkiplistShape`, `SkiplistLinks`, `Skiplist` | insert and delete keep every level, span and back link exact; range search agrees with linear search |
| Replication (`replication.c`) | `Backlog`, `Psync`, `Propagate` | the ring holds the last bytes of the stream; exactly the replicas that miss no more than it holds are let in, and an accepted partial resynchronization completes the replica's history |
| Requests (`networking.c`) | `RespFormat`, `RespSpelling`, `Resp`, `RespReading` | any chunking of printed commands is dispatched as exactly those commands; of bytes from anyone, exactly the whole requests they start with are dispatched, and an error has a reason |
| Quicklist (`quicklist.c`) | `QuicklistNodes`, `Quicklist` | insertion through every branch on the concatenation of the nodes, with the exact condition under which it is right; deletion, push and lookup; the entry limit |
| Quoting (`sds.c`) | `SdsQuote`, `SdsSplit` | splitting any line, errors included, as a grammar says; quoting and splitting any list of byte strings gives the list back |
| SHA-1 (`sha1.c`) | `Sha1Standard`, `Sha1`, `Sha1Vector` | any split into updates gives the digest of FIPS 180-4; the published digest of "abc" |
| Intset (`intset.c`) | `IntsetWords`, `Intset` | a finite set of integers kept sorted at the current width, widened in place |
| WATCH (`multi.c`) | `Watch` | the two indexes agree and no watcher is missed |
| String objects (`object.c`) | `Objects` | encodings keep the string; equality and comparison are those of the strings |

`Bytes`, `Sequences` and `Options` hold the shared vocabulary.

## Where code and comments differ

The model follows the code.

- dict.c:817-886: a scan during rehashing need not cover everything. The larger
  table's expansions of a cursor are visited in numeric order, while cursors
  order by reversed bits. One call emits all that is due exactly when the bits
  of the cursor between the two masks, plus one, are a power of two
  (`DictScanRun.CallCompleteIff`). Runs in which sizes only grow, or shrink by at
  most a factor of two between calls, meet this (`DictScan.GrowthIsGuarded`). A
  shrink by four in mid-scan loses a key: `DictScanRun.ShrinkLosesAKey` runs a
  scan of a dictionary of 16 buckets, shrunk to 4, to its end without the key.
- ziplist.c:673-675: the merged tail offset assumes that the second list has
  entries. `ZiplistMerge.Merge` gives a well-formed list exactly when the second
  list is non-empty or the first one is empty; otherwise no list of entries makes
  the result well formed.
- lzf.h:20-25 speaks of less than 104 percent of the input. For inputs of t >= 2
  bytes that limit holds, whatever the input, the table and the buffer, if and
  only if 25 * ceil(t / 32) < t (`LzfSize.Below104Iff`): inputs of which no three
  bytes recur take one more byte for each started 32, the most that is possible.
- quicklist.c:760-762: with `after` unset the code moves the entries before the
  offset to the new node and keeps the entry itself; `Quicklist.SplitNode` states
  which half goes where.
- quicklist.c:827: an entry's offset is below its node's count, so the branches
  for `at_tail` are never taken; `Quicklist.Insert` proves it.
- quicklist.c:767-775, 811-819: the first node of an empty list does not get its
  size field updated, and a split copies as many bytes as that field says. An
  insertion that splits such a node hence leaves undefined bytes in the new one.
  Insertion is right, whatever those bytes are, if and only if it needs no split
  or the stored size is the real one (`Quicklist.InsertRightIff`). Two insertions
  into a new list of fill 1 are enough to fail (`Quicklist.UnsizedSplit`).

## Model

| member | source | states |
|---|---|---|
| Util.TextInjective | util.c:73-125 | two integers with the same decimal text are equal |
| Util.Digits10Exact | util.c:129-147 | `digits10` is the number of decimal digits of any natural number |
| Util.Sdigits10Exact | util.c:150-159 | `sdigits10` is the length of the text of any integer, sign included |
| Util.WriteDigits | util.c:101-124 | the two-digits-at-a-time loop writes the text right to left and touches nothing beyond it |
| Util.Ll2String | util.c:73-125 | when the text and its NUL fit, exactly the text is written and its length returned; otherwise 0 is returned and the buffer is unchanged |
| Util.String2Ll | util.c:164-225 | accepts exactly the canonical texts of 64-bit integers, and the value's text is the input byte for byte |
| ZiplistEntry.IntegerRoundTrip | ziplist.c:252-311 | a 64-bit integer saved in the encoding chosen for it loads as itself, in the size of that encoding |
| ZiplistEntry.NarrowestEncoding | ziplist.c:225-249 | whatever encoding and bytes stand for a value, the encoding chosen for it takes no more bytes |
| ZiplistEntry.IntTextIsShort | ziplist.c:225-249 | a text that is an integer has 1 to 31 bytes, so the length test never rejects one |
| ZiplistEntry.ZipTryEncoding | ziplist.c:225-249 | succeeds exactly on integer texts, with the value whose text it is and an encoding that takes no more bytes than any that can hold the value |
| ZiplistEntry.StringHeader | ziplist.c:81-113 | a string length of any of the three header forms reads back as itself |
| ZiplistEntry.BodyRoundTrip | ziplist.c:81-113 | the stored form of any byte string is readable and decodes to that byte string |
| ZiplistEntry.BodyForShortest | ziplist.c:81-113 | what is stored for a byte string is no longer than anything that decodes to it |
| ZiplistEntry.SameHeader | ziplist.c:314-320 | what an entry's header says depends only on the header bytes, wherever they stand in the buffer |
| ZiplistEntry.PrevFieldRead | ziplist.c:159-182 | a previous-length field in either width, the forced wide one included, reads back as its value and width, and never looks like the end mark |
| ZiplistEntry.PrevFieldShortest | ziplist.c:159-182 | no field of a previous length is shorter than the one chosen for it |
| ZiplistNodes.RelinkChains | ziplist.c:361-420 | relinking makes every entry hold the raw length of the one before it and keeps all payloads |
| ZiplistNodes.RelinkStable | ziplist.c:376-377 | relinking entries that are already linked changes nothing, which is why a cascade may stop |
| ZiplistNodes.RelinkWidths | ziplist.c:361-420 | relinking widens the fields whose length needs it, and no others, and narrows none |
| ZiplistNodes.InsertNodesCorrect | ziplist.c:483-579 | insertion at k keeps the links right and the values become `old[..k] + [s] + old[k..]` |
| ZiplistNodes.InsertNodesWidths | ziplist.c:483-579 | after an insertion the bodies and the width of every previous-length field: five bytes from 254 on, or where it was five and may not shrink |
| ZiplistNodes.DeleteNodesCorrect | ziplist.c:423-480 | deletion of k..m keeps the links right and the values become `old[..k] + old[m..]` |
| ZiplistNodes.DeleteNodesWidths | ziplist.c:423-480 | the same after a deletion, where the entry behind the gap gets the width its length needs |
| ZiplistNodes.MergeNodesCorrect | ziplist.c:596-694 | appending a relinked list keeps the links right and the values are those of both lists in order |
| ZiplistBuffer.ReadEntry | ziplist.c:314-320 | all fields read at an entry's offset are those of the entry |
| ZiplistBuffer.RegionRead | ziplist.c:216-221 | reading where a list of entries is serialized finds the first entry and then the rest, or the end mark exactly when there is none |
| ZiplistBuffer.RegionReplace | ziplist.c:397-413 | exchanging a previous-length field, in the same or another width, turns the serialized list into the one with that field exchanged |
| ZiplistBuffer.RegionUnique | ziplist.c:216-221 | bytes serialize at most one list of entries |
| ZiplistBuffer.Resize | ziplist.c:334-339 | the total is updated, the end mark set, and all entry bytes that fit are kept |
| ZiplistCascade.WidenPrev | ziplist.c:379-401 | one cascade step: the field grows to five bytes, the rest moves, and the tail offset moves unless the widened entry is the last |
| ZiplistCascade.RewritePrev | ziplist.c:406-416 | a field that need not grow is rewritten in its own width and nothing else changes |
| ZiplistCascade.CascadeUpdate | ziplist.c:361-420 | the cascade ends, and from the given entry on the list is the fully relinked one, with tail offset and total right and everything before unchanged |
| ZiplistInsert.PrevLenFor | ziplist.c:494-502 | the previous length found for a position is that of the entry before it, or of the tail at the end |
| ZiplistInsert.GapBytes | ziplist.c:528-542 | after resizing, moving and rewriting the next field, the gap, the field and the tail bytes lie where the arithmetic says |
| ZiplistInsert.NextField | ziplist.c:518-542 | the size difference is -4, 0 or 4, a shrink is replaced by a forced wide field when the new entry is under four bytes, and the field holds the new length |
| ZiplistInsert.OpenGap | ziplist.c:518-555 | behind the gap stands the same list with its first entry relinked, tail offset and total right |
| ZiplistInsert.ShiftTail | ziplist.c:544-555 | the tail offset moves by the new length, and by the size difference only when the next entry is not the last |
| ZiplistInsert.WriteEntry | ziplist.c:569-576 | the new entry's bytes are exactly those of its field, header and payload, and nothing else changes |
| ZiplistInsert.IncrLength | ziplist.c:577 | the counter changes only below its maximum and wraps at 16 bits |
| ZiplistInsert.Insert | ziplist.c:483-579 | inserting at an entry's offset, or at the end, yields the well-formed buffer of the list with the string inserted |
| ZiplistDelete.SkipEntries | ziplist.c:429-433 | skips as many entries as asked for or as there are, and ends at the right offset |
| ZiplistDelete.CloseGap | ziplist.c:435-470 | the following entry gets the length before the gap in a field of its own choosing, the bytes close up, and the tail offset is right |
| ZiplistDelete.PullBack | ziplist.c:459-470 | the serialized rest moves to the start of the gap and the buffer shrinks by it |
| ZiplistDelete.DeleteMiddle | ziplist.c:435-477 | with entries left behind the gap, cascade included, the list is the one with the gap removed |
| ZiplistDelete.DeleteTail | ziplist.c:462-471 | with nothing left behind the gap, the tail offset points to the entry before it, or to the header when none is left |
| ZiplistDelete.Delete | ziplist.c:423-480 | deleting n entries yields the well-formed buffer of the list without them, for any n |
| ZiplistMerge.Concatenate | ziplist.c:645-663 | whichever buffer is kept, the bytes are the first list without its end mark and the second without its header |
| ZiplistMerge.MergeHeaders | ziplist.c:633-675 | total, saturating count and tail offset of the joined buffer |
| ZiplistMerge.Merge | ziplist.c:596-694 | the result is well formed and decodes to first ++ second, seam and cascade done, exactly when the second list is non-empty or the first is empty |
| ZiplistMerge.NotWfAtEnd | ziplist.c:673-675 | a non-empty list whose tail offset points to the end mark is well formed for no list of entries |
| ZiplistRead.Index | ziplist.c:705-725 | finds entry `index`, or counted from the tail when negative, exactly when it exists |
| ZiplistRead.Next | ziplist.c:733-749 | gives the following entry's offset exactly when there is one |
| ZiplistRead.Prev | ziplist.c:752-768 | gives the preceding entry's offset exactly when there is one, from the end as well |
| ZiplistRead.Get | ziplist.c:774-791 | yields the payload of the entry, a string or an integer, whose text is the stored element |
| ZiplistRead.Length | ziplist.c:908-922 | the number of entries even when the counter is saturated, which it repairs when the list is short again |
| Ziplist.Ziplist.constructor | ziplist.c:323-331 | a new buffer of 11 bytes is the empty list |
| Ziplist.Ziplist.InsertAt | ziplist.c:794-796 | contents become `old[..k] + [s] + old[k..]` |
| Ziplist.Ziplist.Push | ziplist.c:696-700 | contents get the string at the chosen end |
| Ziplist.Ziplist.DeleteAt | ziplist.c:801-811 | contents lose element k |
| Ziplist.Ziplist.DeleteRange | ziplist.c:814-817 | contents lose up to `num` elements from `index` on, and nothing when there is no such element |
| Ziplist.Ziplist.Length | ziplist.c:908-922 | the number of elements, which stay as they are |
| Ziplist.Ziplist.Merge | ziplist.c:596-694 | contents become those of both lists in order |
| Ziplist.LayoutExample | ziplist.c:483-579 | the 22 bytes of the list of "hello" and "1000", the second one stored as a 16-bit integer |
| LzfFormat.TokenBounds | lzf_d.c:38-145 | a decoded token consumes input, produces output within the capacity, and keeps what was produced before |
| LzfFormat.DecodeAppend | lzf_d.c:20-148 | decoding a stream that continues another is decoding the continuation from the other's output |
| LzfFormat.CopyMatches | lzf_d.c:84-140 | copying a match, overlapping its own output or not, extends the prefix of the input it matched |
| LzfFormat.StreamExample | lzf_d.c:20-148 | a stream with a reference that runs into its own output, in just enough room and in less, and one too far back |
| LzfFormat.LongExample | lzf_d.c:63-83 | a stream with a reference in its long form |
| LzfDecompress.CopyRef | lzf_d.c:84-140 | block copy, doubled octet copy and octet loop all give the octet-by-octet copy |
| LzfDecompress.Decompress | lzf_d.c:20-148 | for every stream: its decoding when that fits the buffer, and otherwise 0 with EINVAL or E2BIG as the first failing token says |
| LzfCompress.StopRun | lzf_c.c:135-136 | closing a run, possibly empty, leaves a stream that decodes to all the input so far |
| LzfCompress.PutLiteral | lzf_c.c:222-232 | one more literal keeps the stream right; a full run is closed and a new one begun |
| LzfSize.MatchLenFits | lzf_c.c:126-168 | three equal bytes extend to a real match within the length limit |
| LzfSize.MatchLenEnds | lzf_c.c:126-168 | and the match ends at the limit, near the input end or at a mismatch |
| LzfSize.SmallMatch | lzf_c.c:135-187 | a back reference keeps the finished stream within 33/32 of its input |
| LzfSize.SizeBound | lzf_c.c:63-254 | the result takes at most one byte more for each started 32, and 33/32 of the input plus four bytes of room always suffice |
| LzfSize.SizeOfFresh | lzf_c.c:63-254 | that many are needed when no three bytes recur |
| LzfSize.Below104Iff | lzf.h:20-25 | for a length t of at least two, every result is below 104 percent if and only if 25 * ceil(t / 32) < t |
| LzfTable.SlotsApart | lzf_c.c:10-20 | three bytes that differ from others in one place have another slot |
| LzfTable.TableHoldsLast | lzf_c.c:106-220 | after any number of turns every slot of the table holds the last position entered with it, or what the table held at the start |
| LzfTable.KnownIsReferenced | lzf_c.c:106-187 | three bytes entered at most 8192 back, whose slot no position took since, are coded as a reference to that place, as long as the bytes agree |
| LzfTable.EqualBytesSize | lzf_c.c:63-254 | t equal bytes, whatever the table held, give a result of at most 10 bytes and 3 more for each started 264 |
| LzfTable.FailsForRoomOnly | lzf_c.c:131-133 | a result that the input has with some room it has with any room of four bytes more than it takes |
| LzfCompress.MatchLength | lzf_c.c:126-168 | the unrolled comparison and the loop find the length of the match |
| LzfCompress.PutRef | lzf_c.c:170-183 | a back reference in its two- or three-byte form extends the decoded stream by the matched bytes |
| LzfCompress.PutMatch | lzf_c.c:125-187 | a found match leaves an open run and a stream that decodes to the input so far, in the size it is to have |
| LzfCompress.PutRest | lzf_c.c:236-253 | the last bytes go out as literals, at exactly the size that leaves, or 0 when three bytes of room are missing |
| LzfCompress.Compress | lzf_c.c:63-254 | for every initial hash table: a result fits, decodes to the input and has the size `SizeOf` gives, at most one byte more for each started 32, and for equal bytes at most 10 and 3 more for each started 264; 33/32 of the input plus four bytes of room always suffice, and so does any result and four bytes |
| Lzf.RoundTrip | lzf_c.c:63-254 | compressing and then decompressing returns the original bytes, and never fails in a roomy buffer |
| DictTable.LinkFacts | dict.c:328-332 | linking a new entry at its bucket keeps the table sound and finds it and all others |
| DictTable.UnlinkFacts | dict.c:391-403 | unlinking an entry anywhere in its chain removes that key only |
| DictTable.SetFacts | dict.c:351-361 | overwriting a value changes that key only |
| DictTable.MoveHead | dict.c:225-239 | moving one entry between the tables leaves the map unchanged |
| DictTable.SwitchTables | dict.c:243-250 | dropping an empty first table leaves the map unchanged |
| DictTable.FreshSecond | dict.c:182-198 | installing an empty table leaves the map unchanged |
| Dict.NextPower | dict.c:913-923 | the smallest table size, a power of two from 4 on, that holds `size` entries |
| Dict.TightUnique | dict.c:913-923 | there is only one such size |
| Dict.CanEndIff | dict.c:210-253 | when a call can end a rehash: the walk to the last entry left passes at most n buckets with entries and fewer than 10 n without |
| Dict.Dict.constructor | dict.c:146-153 | a new dictionary is the empty map |
| Dict.Dict.Expand | dict.c:169-199 | succeeds exactly when no rehash is running, the entries fit and the size changes; installs the smallest table, first or second, and keeps the map |
| Dict.Dict.Resize | dict.c:157-166 | shrinks to the smallest size for the used entries exactly when that is allowed and changes the size |
| Dict.Dict.MoveBucket | dict.c:223-241 | one bucket moves as a whole, used counts and map kept |
| Dict.Dict.Rehash | dict.c:210-253 | n steps keep the map; the call ends the rehash, with the second table as the first, if and only if it can, and otherwise passes exactly n buckets with entries and fewer than 10 n empty ones, or 10 n empty ones and fewer than n others |
| Dict.Dict.RehashStep | dict.c:282-284 | nothing while a safe iterator is open; otherwise past one bucket with entries and fewer than ten empty ones, or past ten empty ones, or to the end exactly when that is in reach |
| Dict.Dict.ExpandIfNeeded | dict.c:891-910 | starts a rehash exactly when the table is full and resizing is allowed or forced, to the smallest size for twice the entries; creates a first table of 4 |
| Dict.Dict.KeyIndex | dict.c:931-953 | -1 exactly when the key is in the map, else its bucket in the table that takes new entries |
| Dict.Dict.Locate | dict.c:464-475 | where the key is, in either table, or that it is in neither |
| Dict.Dict.Add | dict.c:287-337 | adds exactly when the key is absent and leaves the map otherwise unchanged; makes a rehash step first |
| Dict.Dict.Link | dict.c:320-336 | a new entry is linked in the table that takes new ones |
| Dict.Dict.Replace | dict.c:343-362 | the map becomes the old one with the key set; says whether the key was new |
| Dict.Dict.SetValue | dict.c:351-361 | the value of a present key is overwritten in whichever table holds it |
| Dict.Dict.Unlink | dict.c:385-411 | the entry is unlinked from whichever table holds it, if any does |
| Dict.Dict.Remove | dict.c:377-412 | succeeds exactly when the key is present, and the map loses it; makes a rehash step first |
| Dict.Dict.Lookup | dict.c:457-476 | the value of the key in the map, or none; makes a rehash step first |
| DictScan.RevRev | dict.c:723-731 | bit reversal is its own inverse |
| DictScan.RevBits | dict.c:723-731 | bit i of the reversal is bit n-1-i |
| DictScan.NextPos | dict.c:876-883 | advancing a cursor adds one to the reversed masked bits, up to wrapping |
| DictScan.CursorAdvances | dict.c:876-883 | the reversed cursor strictly grows until the scan ends at 0, whatever the mask |
| DictScan.NextLow | dict.c:876-883 | the next cursor is below the table size and depends on the masked bits only |
| DictScan.DueBucket | dict.c:852-857 | every hash that lies between a cursor and its successor falls in the bucket that is emitted |
| DictScan.BumpStep | dict.c:869-873 | the inner loop's step adds one to the bits between the masks and keeps the small mask's bits |
| DictScan.CallCovers | dict.c:859-873 | when the bits between the masks plus one are a power of two, a call visits every due hash of the larger table |
| DictScan.CallMisses | dict.c:859-873 | when they are not, a due hash of the larger table is constructed that the call does not visit |
| DictScan.VisitsDueIff | dict.c:859-873 | a call during rehashing visits all due hashes if and only if the bits between the masks plus one are a power of two |
| DictScan.ScanCoverage | dict.c:740-816 | over a whole run of guarded calls from cursor 0 back to 0, every hash is reached |
| DictScan.GrowthIsGuarded | dict.c:761-816 | runs in which the smaller size at a rehashing call is at least half that of the call before are guarded |
| DictScan.ShrinkMissesAHash | dict.c:761-816 | the cursors and masks of a scan with a shrink by four, none of which visits hash 4 |
| DictRev.ReverseWord | dict.c:723-731 | the shifting loop reverses all 64 bits |
| DictRev.ReversedIsRev | dict.c:723-731 | a word with reversed bits has the value the reversal of `DictScan` gives |
| DictRev.IncValue | dict.c:882 | incrementing a word adds one modulo 2^64 |
| DictRev.OrValue | dict.c:878 | or-ing the complement of a mask sets the unmasked bits of the value |
| DictRev.NextWord | dict.c:876-883 | the cursor arithmetic on words gives the next cursor |
| DictScanCall.Expansions | dict.c:859-873 | the inner loop emits the buckets of the expansions of the cursor from it on, and nothing else |
| DictScanCall.Scan | dict.c:817-886 | an entry is emitted if and only if the smaller table has it in the cursor's bucket or the larger one has it at a visited hash, and no key twice; the next cursor |
| DictScanCall.ScanWord | dict.c:817-886 | the same for a 64-bit cursor and the bit operations on it |
| DictScanRun.CallCompleteIff | dict.c:859-873 | for every pair of tables a call emits all entries that are due if and only if the bits between the masks plus one are a power of two |
| DictScanRun.PresentIsEmitted | dict.c:740-816 | over a run of calls with any changes between them that keep the growth condition, every key present throughout is emitted |
| DictScanRun.ScanAll | dict.c:740-816 | a scan of a dictionary to its end, with additions, deletions, resizes and rehash steps after each call, does that |
| DictScanRun.ShrinkLosesAKey | dict.c:761-816 | a scan of a dictionary of 16 buckets, shrunk to 4 after the first call, ends without emitting its key |
| DictIterator.Iterator.constructor | dict.c:536-541 | a safe iterator starts before the first bucket |
| DictIterator.Iterator.Next | dict.c:543-576 | returns the first key still ahead and leaves the rest ahead, through both tables; nothing when nothing is ahead; counts itself as open from the first call on |
| DictIterator.Iterator.Release | dict.c:578-587 | an iterator is no longer counted as open, if it ever was |
| DictIterator.AllAhead | dict.c:543-576 | at the start each key of the map is ahead once and no other key is |
| DictIterator.InstalledAhead | dict.c:169-199 | starting a rehash during iteration leaves what is ahead unchanged |
| DictIterator.GrownAhead | dict.c:311-337 | adding another key keeps how often a key is ahead |
| DictIterator.DroppedAhead | dict.c:377-412 | deleting the current entry keeps how often any other key is ahead |
| DictIterator.NewKeysAreFresh | dict.c:568-572 | a key that is not in the map is never the remembered next entry |
| DictIterator.EachExactlyOnce | dict.c:543-576 | over any run of calls, finds, adds and deletions of the current entry, each key present from start to end is returned exactly once |
| DictIterate.Iterate | dict.c:543-576 | an iteration of a dictionary to its end, with a list of finds, additions and deletions of the current entry after each call, returns every key exactly once that was there at the start and is not deleted, and leaves no iterator open |
| SkiplistShape.BeforeTotal | t_zset.c:69-71 | the order of objects is total and irreflexive |
| SkiplistShape.BeforeTransitive | t_zset.c:69-71 | and transitive |
| SkiplistShape.BeforeMeans | t_zset.c:69-71 | the first byte that differs decides the order, and if none does, the shorter object is before the longer |
| SkiplistShape.InsertedFacts | t_zset.c:57-111 | sorted insertion keeps the list sorted, adds one element, and removal undoes it |
| SkiplistShape.RemovedFacts | t_zset.c:135-157 | removal keeps the list sorted and takes away that element only |
| SkiplistShape.NextInserted | t_zset.c:89-102 | how a new node of any height changes the next node on any level from any place |
| SkiplistShape.EarlyTest | t_zset.c:169-183 | each early test of the range implies that no element is in it |
| SkiplistShape.FirstCandidate | t_zset.c:202-208 | after the descent the next element exists and is the first in range, or none is |
| SkiplistShape.LastCandidate | t_zset.c:228-233 | the same for the last element in range |
| SkiplistShape.RangeMeans | t_zset.c:159-165 | the first and the last element in range, and that there is none, in comparisons with the bounds, inclusive or exclusive |
| SkiplistLinks.Node.constructor | t_zset.c:4-9 | a new node with its score, object and level array |
| SkiplistLinks.InsertLinked | t_zset.c:89-108 | splicing a node in at all its levels and counting it at the others keeps every link, span and back link exact |
| SkiplistLinks.DeleteLinked | t_zset.c:115-128 | cutting a node out keeps every link, span and back link exact |
| SkiplistLinks.RaiseLevel | t_zset.c:81-88 | a new top level whose header span is the length is exact |
| SkiplistLinks.LowerLevel | t_zset.c:129-130 | a top level with nothing on it can be dropped, and only then |
| Skiplist.RaiseTo | t_zset.c:80-88 | raising the list level extends the search path |
| Skiplist.HookLevel | t_zset.c:90-97 | one level of the insertion: forward pointers and both spans |
| Skiplist.CountLevel | t_zset.c:99-102 | above the new node only the span grows |
| Skiplist.HookBack | t_zset.c:104-108 | the two backward pointers around a new node |
| Skiplist.CutLevel | t_zset.c:116-123 | one level of the deletion, bypassing the node or shortening the span |
| Skiplist.CutOut | t_zset.c:115-123 | all levels of the deletion |
| Skiplist.PassBack | t_zset.c:124-128 | the backward pointer over a deleted node |
| Skiplist.Lower | t_zset.c:129-130 | the level ends as the highest one in use |
| Skiplist.Skiplist.constructor | t_zset.c:11-26 | a new list is empty |
| Skiplist.Skiplist.Walk | t_zset.c:66-74 | the walk on one level ends at the last node of that level before the element, with its exact rank |
| Skiplist.Skiplist.FindPath | t_zset.c:63-75 | update and rank hold these nodes and ranks on every level |
| Skiplist.Skiplist.Insert | t_zset.c:57-111 | for any level 1..32 and a new pair: the sorted insertion, with all links, spans, back links, tail, length and level right |
| Skiplist.Skiplist.DeleteNode | t_zset.c:114-132 | removes the node after a path and keeps all of these right |
| Skiplist.Skiplist.Delete | t_zset.c:135-157 | succeeds exactly when the pair is present, and removes it |
| Skiplist.Skiplist.IsInRange | t_zset.c:169-183 | false only if no element is in range; true gives the two bounds the searches rely on |
| Skiplist.Skiplist.Descend | t_zset.c:194-200 | the descent ends at the last node that passes the bound |
| Skiplist.Skiplist.FirstInRange | t_zset.c:187-209 | the first element whose score is between the bounds, and not at an exclusive one; NULL exactly when there is none |
| Skiplist.Skiplist.LastInRange | t_zset.c:213-234 | the last such element, NULL exactly when there is none |
| Skiplist.LinksExact | t_zset.c:89-108 | in every valid list each forward pointer goes to the next node of its level, each span is the distance, and each back pointer goes to the node before |
| Skiplist.EndsAndOrder | t_zset.c:57-132 | and header, tail, length, level and order are what the nodes are |
| Backlog.FeedChunk | replication.c:107-117 | writing a chunk up to the wrap point makes the ring hold the stream it held, extended by the chunk |
| Backlog.ReadChunk | replication.c:315-324 | the bytes from the computed slot to the wrap point are the next bytes of the stream |
| Backlog.ReadRing | replication.c:311-325 | the reading loop returns exactly the last bytes of the stream |
| Backlog.Seek | replication.c:297-309 | the slot of any offset in the window |
| Backlog.Backlog.constructor | replication.c:46-61 | no backlog at first |
| Backlog.Backlog.Create | replication.c:46-61 | an empty window after the offset was bumped by one |
| Backlog.Backlog.Resize | replication.c:69-88 | the size is clamped to its minimum, and a changed size empties the window |
| Backlog.Backlog.Free | replication.c:90-94 | the window is gone |
| Backlog.Backlog.Feed | replication.c:100-123 | the window becomes the last bytes, up to its size, of itself and the data, and the offset counts them |
| Backlog.Backlog.Accept | replication.c:408-413 | accepts if and only if there is a backlog and the bytes from the offset on, none or up to all of it, are at its end |
| Backlog.Backlog.AddReply | replication.c:278-326 | sends exactly the bytes of the window from the requested offset on |
| Psync.SentCompletes | replication.c:278-326 | in a consistent state an accepted request gets the bytes its copy lacks |
| Psync.StepKeeps | replication.c:142-235 | writes, full and partial synchronizations, deliveries, disconnects, and creating, resizing and freeing the backlog keep the invariant |
| Psync.RunKeeps | replication.c:385-661 | and so does every run |
| Psync.PartialResyncIsSound | replication.c:385-458 | over every run an accepted request for the offset after its own completes the replica's history to the master's, and an online replica has it once its pending bytes arrive |
| Psync.LetInIff | replication.c:408-413 | in any state a disconnected replica is let in if and only if its offset is behind the master's by at most the bytes the backlog holds |
| Psync.CanWrite | replication.c:142-186 | the master can write in every state of every run |
| Psync.ContinuedIsComplete | replication.c:385-458 | over every run such a replica has the whole history once it is let in and as many bytes are delivered as it is behind |
| Psync.FullResyncCompletes | replication.c:461-661 | over every run any replica can be brought to the whole history by a full resynchronization |
| Psync.SharedSnapshotCompletes | replication.c:597-618 | a replica can join the snapshot made for another one exactly while that one waits for it, and then gets the whole history as well |
| Psync.StaleCopy | replication.c:142-150 | a run after which a replica's offset equals the master's although its history is shorter |
| Psync.BumpIsNeeded | replication.c:52-58 | the bump at creation is what rejects such a replica; without it, it would be accepted and sent nothing |
| Propagate.FedTwice | replication.c:100-140 | feeding in pieces is feeding the concatenation |
| Propagate.FeedCommand | replication.c:188-213 | a command of objects in any encoding is fed as its multibulk form |
| RespFormat.StrChr | networking.c:1108 | stops at the first CR, at a NUL or at the end |
| RespFormat.HeaderScan | networking.c:1108-1118 | in a received part of a printed header the search ends at the header's own CR or has too few bytes |
| RespFormat.HeaderRead | networking.c:1119-1133 | a complete printed header is its marker and the text of its number |
| RespFormat.PrintedExample | replication.c:188-213 | the bytes of GET k |
| Resp.Unended | networking.c:1108-1118 | without a line end there is an error exactly when no CR is in sight and the buffer exceeds 64 KB |
| Resp.BadLineMeans | networking.c:1108-1127 | a line is wrong if and only if no CR is in sight in more than 64 KB, or it ends and is not the marker and the text of a 64-bit integer in range |
| Resp.LineVerdict | networking.c:1121-1127 | a complete line is an error exactly when it is no canonical number or out of range |
| Resp.Client.SetProtocolError | networking.c:1087-1096 | the client is to be closed and the buffer trimmed |
| Resp.Client.ReadCount | networking.c:1104-1138 | an error exactly on a bad count line; otherwise the count of the line, or a dropped empty request, or nothing until the line has arrived; never an error for the printer |
| Resp.Client.FindLine | networking.c:1145-1157 | the line end, an error exactly on an overlong unfinished line, or nothing yet |
| Resp.Client.ReadBulkLen | networking.c:1143-1189 | an error exactly on a bad length line; otherwise the length, with the rest of the buffer behind it |
| Resp.Client.SetBulkLen | networking.c:1173-1188 | a big argument is moved to the buffer's front and nothing unread is lost |
| Resp.Client.ReadBulk | networking.c:1191-1218 | an argument is taken exactly when it has arrived with its CRLF, and is the bytes announced, in both the copying and the reusing way |
| Resp.Client.ReadArg | networking.c:1143-1219 | one turn: the bytes consumed spell the length and the argument that are recorded; it stops only where the next part has not arrived or no length can be read |
| Resp.Client.ReadArgs | networking.c:1142-1231 | the bytes consumed spell exactly the arguments read; it ends with the last one, waits where the next part has not arrived, or fails where no length can be read; for the printer it reads its command or waits |
| Resp.Client.ProcessMultibulkBuffer | networking.c:1098-1232 | for bytes from anyone: success exactly with the bytes taken so far spelling the request, an error only where they are misspelt, and otherwise a request in progress, resumed where it stopped |
| Resp.Client.Reset | networking.c:1005-1026 | the parser state of a fresh request |
| Resp.Client.ProcessRequest | networking.c:1262-1279 | a whole request is dispatched unless it is empty, and accounted for; an error accounts for the misspelt bytes |
| Resp.Client.ProcessInputBuffer | networking.c:1234-1285 | whoever sent the bytes, what is dispatched is what they spell, until the next part of a request is missing; for the printer, its commands in order |
| Resp.Client.Read | networking.c:1287-1344 | after any read, the commands dispatched are those of the requests found in all bytes received, the rest being in progress or the reason of an error; an overlong buffer closes the client; for the printer, a further part of its commands |
| Resp.Received | networking.c:1294-1306 | the read-size rule keeps a buffer short or ending with its big argument |
| Resp.LimitsMean | networking.c:1123-1168 | the commands allowed have up to 1048576 arguments of up to 536870912 bytes |
| Resp.Serve | networking.c:1287-1344 | every list of allowed commands, printed and read in any chunks, is dispatched exactly, with no error |
| Resp.NothingOverdue | networking.c:1234-1285 | between reads no command is undispatched whose bytes have all been read |
| RespSpelling.ReadOn | networking.c:1142-1219 | bytes that spell a part of a request and bytes that spell the part behind it spell both together |
| RespSpelling.PrintedIsRequest | networking.c:1098-1232 | a command as it is printed is a request that spells it |
| RespSpelling.RequestUnique | networking.c:1098-1232 | bytes start with at most one request |
| RespSpelling.ReadingsAgree | networking.c:1234-1285 | of two readings of the same bytes as requests one is a part of the other |
| RespReading.AllFound | networking.c:1234-1344 | a client that is neither closed nor at an inline request has found, and dispatched, every request that all bytes received start with, whoever sent them |
| Objects.StringObjectLen | object.c:492-499 | the length of the string in every encoding |
| Objects.TryObjectEncoding | object.c:325-402 | the string is kept; shared or encoded objects stay; an unshared one becomes an integer exactly when its string is one, and stays raw exactly when too long to embed |
| Objects.GetDecodedObject | object.c:406-422 | the same string, not integer encoded |
| Objects.Memcmp | object.c:456-463 | the sign tells the byte order of the first difference |
| Objects.CompareStringObjects | object.c:435-470 | zero exactly for equal strings, negative exactly for a smaller one, whatever the encodings |
| Objects.EqualStringObjects | object.c:481-490 | byte equality of the strings across all encodings |
| SdsQuote.SdsCatRepr | sds.c:827-850 | appends the quoted form |
| SdsQuote.EscapedPrintable | sds.c:819-850 | a quoted form is printable, and printable bytes without quotes and backslashes stand in it as they are |
| SdsQuote.HexDigits | sds.c:853-881 | the hex digits are those printed, in either case; the value of each is that of the digit printed for it, and of any other byte 0 |
| SdsQuote.HexText | sds.c:844-845 | the digit printed for each value |
| SdsQuote.Spaces | sds.c:910 | which bytes separate arguments |
| SdsSplit.TurnDouble | sds.c:919-953 | one turn inside double quotes is one step of the grammar, escapes, closing quote and error included |
| SdsSplit.TurnSingle | sds.c:954-968 | the same inside single quotes |
| SdsSplit.TurnOutside | sds.c:970-989 | the same outside quotes, where a quote may open in the middle of a token |
| SdsSplit.ReadToken | sds.c:913-995 | any token, bare and quoted parts mixed, is read or refused as the grammar says |
| SdsSplit.SdsSplitArgs | sds.c:902-1010 | for every line: NULL exactly when the grammar refuses it, and otherwise its arguments |
| SdsSplit.LineSplits | sds.c:884-901 | a line of bare, single-quoted, double-quoted and mixed words between blanks has exactly these words as arguments |
| SdsSplit.OpenQuoteFails | sds.c:895-901 | a line with a quote that is never closed is refused |
| SdsSplit.QuoteAndSplit | replication.c:255-264 | joining the quoted forms of any list of byte strings and splitting the line returns the list |
| Sha1Standard.ProcessAppend | sha1.c:131-150 | processing a concatenation of blocks is processing one after the other |
| Sha1.SwapIsBig | sha1.c:35-37 | the rotate-and-mask form is the big-endian word |
| Sha1.RoundIsStep | sha1.c:46-51 | the round macros with their constants and shortened Boolean forms are the step of section 6.1.2 of FIPS 180-4 |
| Sha1.NextWord | sha1.c:33-44 | the word computed in the 16-word ring is that of the 80-word schedule |
| Sha1.Transform | sha1.c:56-112 | the compression function of section 6.1.2 |
| Sha1.CountIn | sha1.c:135-139 | the two 32-bit words count the message bits with carry, and the buffer position is the length modulo 64 |
| Sha1.Absorb | sha1.c:139-149 | state and buffer stand for the message extended by the data |
| Sha1.Context.constructor | sha1.c:117-126 | the context of the empty message |
| Sha1.Context.Update | sha1.c:131-150 | the context of the message extended by the data |
| Sha1.Context.Final | sha1.c:155-197 | for messages under 2^61 bytes, the digest of the message padded as in section 5.1.1 of FIPS 180-4; the padding loop ends |
| Sha1Vector.AbcDigest | sha1.c:10-11 | the digest of "abc" under the definitions of FIPS 180-4 as written here is the published one |
| Sha1Vector.HashAbc | sha1.c:10-11 | and it is what the code gives |
| IntsetWords.ValueEncoding | intset.c:15-22 | the narrowest encoding that fits |
| IntsetWords.LoadWord | intset.c:25-64 | a value stored at a width that fits it loads as itself |
| Intset.Intset.constructor | intset.c:67-72 | the empty set |
| Intset.Intset.Get | intset.c:46-48 | the member at a position |
| Intset.Intset.Search | intset.c:85-124 | the position of the value, or the place where it belongs |
| Intset.Intset.Find | intset.c:226-229 | whether the value is a member |
| Intset.Widen | intset.c:138-143 | back-to-front widening in one buffer ends with every old value at its new place |
| Intset.WidenStep | intset.c:141-143 | one step overwrites no byte of an entry that is still to be read |
| Intset.Upgraded | intset.c:145-150 | a value too wide for the set belongs at one end, and adding it keeps the set sorted |
| Intset.Intset.UpgradeAndAdd | intset.c:127-152 | the members with the value in front or behind, at the value's width |
| Intset.MoveTail | intset.c:154-173 | the values from a position to the end stand at another position afterwards, also when the stretches overlap, and all others are kept |
| Intset.Intset.Insert | intset.c:196-202 | the members with the value at its place, sorted |
| Intset.Intset.Add | intset.c:176-203 | succeeds exactly for a new value; the set gains it; the width grows exactly when needed |
| Intset.Intset.Remove | intset.c:206-223 | succeeds exactly for a member; the set loses it; the width stays |
| QuicklistNodes.LinkIn | quicklist.c:322-348 | linking a node before or after another keeps the list doubly linked |
| QuicklistNodes.LinkOut | quicklist.c:549-553 | unlinking a node keeps the list doubly linked |
| Quicklist.MergedParts | quicklist.c:665-693 | one node for two neighbours keeps the concatenation |
| Quicklist.SplitFlat | quicklist.c:767-796 | the two parts of a whole copy with the value between them are the concatenation with the value inserted |
| Quicklist.SplitRightIff | quicklist.c:767-796 | a split is right whatever an incomplete copy leaves if and only if the copy is whole |
| Quicklist.SplitLimit | quicklist.c:767-796 | neither half, with the value, has more entries than the split node |
| Quicklist.LimitsMean | quicklist.c:373-440 | the limits on a node in numbers: 4 to 64 KB for fills of -1 to -5, and otherwise `fill` entries in 8 KB |
| Quicklist.Ranges | quicklist.c:777-790 | the deleted ranges of a split, with -1 as a 32-bit length, leave exactly the two halves |
| Quicklist.Quicklist.constructor | quicklist.c:102-106 | the empty list |
| Quicklist.Quicklist.InsertNode | quicklist.c:322-355 | a node at its place, with head, tail and length right |
| Quicklist.Quicklist.DelNode | quicklist.c:549-573 | a node gone, with head, tail, length and count right |
| Quicklist.Quicklist.ZiplistMerge | quicklist.c:665-693 | two neighbours become one node, elements and count kept, whichever node stays |
| Quicklist.Quicklist.TryMerge | quicklist.c:721-745 | merges exactly when the limits allow, keeping elements, count and the entry limit, and otherwise changes nothing |
| Quicklist.Quicklist.MergeSides | quicklist.c:709-731 | the first two merges keep the elements and the center node |
| Quicklist.Quicklist.MergeCenter | quicklist.c:733-745 | so do the two merges with the center |
| Quicklist.Quicklist.MergeNodes | quicklist.c:703-746 | up to four merges keep elements, count, links and the entry limit; none is made where the limits allow none |
| Quicklist.Quicklist.InsertIn | quicklist.c:846-884 | a value inside a node |
| Quicklist.Quicklist.InsertAlone | quicklist.c:887-894 | a value in a node of its own |
| Quicklist.Quicklist.SplitNode | quicklist.c:767-796 | which entries stay and which go to the new node, for both directions, or that undefined ones do when the stored size is not the real one |
| Quicklist.Quicklist.SplitAndInsert | quicklist.c:895-907 | split, push and merge put the value at the cut, between the two parts |
| Quicklist.Quicklist.Insert | quicklist.c:802-910 | through every branch what the list holds; unless a node of which the size was never stored is split, the value stands right before or after the entry, no node is empty or over the entry limit, and all counts are right |
| Quicklist.InsertRightIff | quicklist.c:802-910 | the value stands at its place whatever undefined bytes are read if and only if the guards lead to no split or the stored size is the real one |
| Quicklist.SizedIsIntact | quicklist.c:802-910 | only insertion into the one node without a stored size can fail |
| Quicklist.UnsizedSplit | quicklist.c:767-819 | two insertions into a new list of fill 1 leave whatever the incomplete copy does behind both values |
| Quicklist.Quicklist.Push | quicklist.c:450-490 | the value at the chosen end; a node is added exactly when the end node has no room |
| Quicklist.Quicklist.DelIndex | quicklist.c:583-598 | the entry is gone, and its node exactly when it was the last one in it |
| Quicklist.CreateFromValues | quicklist.c:512-539 | a list made from the values of a ziplist holds them in order, with all sizes stored |
| Quicklist.Quicklist.Index | quicklist.c:1195-1249 | element `idx` of the concatenation, from the tail when negative, exactly when it exists |
| Watch.Watching | multi.c:187-200 | adding a pair on both sides keeps the two indexes in agreement |
| Watch.Unwatching | multi.c:215-227 | removing a client's first pair on both sides, with a list that becomes empty, keeps the agreement |
| Watch.Server.constructor | multi.c:174-201 | nobody watches anything |
| Watch.Server.WatchForKey | multi.c:174-201 | the client watches the key afterwards, once; references agree |
| Watch.Server.UnwatchAllKeys | multi.c:205-229 | the client watches nothing, and nobody else's watches change |
| Watch.Server.TouchWatchedKey | multi.c:233-250 | exactly the watchers of the key become dirty |
| Watch.Server.TouchOnFlush | multi.c:256-277 | exactly the watchers of an existing key of the flushed databases become dirty |

## Left out

Bounds and abstractions:

- ZiplistInsert.Insert: buffers stay below 2^32 bytes even if every previous-length field widens; the C code does not check this.
- Ziplist.Ziplist.Merge: requires that the result is well formed; ZiplistMerge.Merge states what happens otherwise.
- LzfCompress.Compress: the input has no or at least two bytes, since two are read before any length is tested, and is below 2^32 bytes.
- Dict.Dict.Add: table sizes stay below the C limits; the hash is any function; chains are sequences; dictGetRandomKey and dictRehashMilliseconds are not modelled.
- DictScanRun.ScanAll: the entries together with the changes of the script stay below a quarter of LONG_MAX; the resize policy is fixed during a scan.
- DictIterate.Iterate: the same; the only deletions are those of the current entry, which is what dict.c:568-571 provides for.
- DictIterator.Iterator.Next: safe iterators only; the fingerprint of unsafe ones is not modelled.
- Skiplist.Skiplist.Insert: scores are integers standing for any total order without NaN; the random level is a parameter; spans do not overflow; zslFree and reference counts are not modelled.
- Psync.PartialResyncIsSound: one master whose run id all replicas know, no role change, no timeouts; writes are opaque bytes, with no SELECT context, and a snapshot transfer is one step.
- Resp.Serve: requests in the multibulk form only; the parser stops at an inline request.
- Resp.Client.ProcessInputBuffer: blocked or paused clients are not modelled, and processCommand succeeds and is represented by the list of dispatched argument vectors.
- SdsSplit.SdsSplitArgs: the line is read up to a NUL, as the C string it is.
- SdsQuote.SdsCatRepr: isprint and isspace are those of the C locale.
- Sha1.Context.Update: the buffered rest and the data together stay below 2^32 bytes, beyond which the C comparison wraps; wiping of memory is not modelled.
- Quicklist.Quicklist.Insert: nodes hold ziplists by their contents and two sizes, the real and the stored one, of which the real one is arbitrary; what ziplist operations make of undefined bytes is represented by any entries, although C promises nothing about it; compression depth 0, a non-negative offset, and 16-bit node counts that do not overflow.
- Quicklist.Quicklist.DelIndex: quicklistDelRange, quicklistDup, quicklistRotate and the quicklist iterators are not modelled.
- Watch.Server.WatchForKey: the dictionaries of all databases are one index by key and database; references are counted for each such pair; list order on the database side is not kept.
- Objects.TryObjectEncoding: shared integers are equal objects rather than the same one, and freeing spare room of a string has no effect here.
- Objects.CompareStringObjects: binary comparison only, not strcoll.

Update in place: a ziplist or intset is a byte sequence that the methods replace,
as `zrealloc` may move the buffer; aliasing between two such buffers is not
represented. Memory allocation always succeeds and the host is little-endian.

Not modelled at all:

- Sockets, files, the event loop, logging and server start-up.
- The replica handshake, RDB transfer, role changes and chained replicas.
- Inline requests, and code that is stubbed or commented out.
- Random sampling, hash functions and floating-point formatting.
- Compressed quicklist nodes.
- Plain lists and string headers, which would only add easy members.
