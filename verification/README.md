# A verified model of the WLAN bridge and the libraries it uses

The repository tunnels Ethernet frames over UDP. Its server is a learning bridge: it
learns which peer a source MAC was first heard from, forwards a frame to the peer of its
destination, and floods it to every other peer when the destination is unknown or
multicast. It keeps its tables in uthash, its ring of entries in a utlist circular list,
and is operated through libcli. This project models these parts in Dafny and proves what
they promise. `dafny verify dfyconfig.toml` checks all of it.

## The modules

- `Kmp`: Knuth-Morris-Pratt search of utstring, in both directions, with the optimised
  failure table. Tables are filled in place; correctness rests on border theory, and the
  comparison bounds on an amortised argument across the nested loops.
- `Collections`: what several modules share.
- `Elements`, `ListSort`, `UtList`, `MergeSort`: the linked element record, the in-place
  bottom-up merge sort of utlist and uthash, ring operations, and the safe traversal. The
  pointer code is proved against the sort on sequences, which is proved to be a sorted,
  stable permutation.
- `Bits`, `LoadBound`, `UtHash`, `HashList`, `HashTable`: the hash table. One class holds
  the head pointer and the table record; two views, the list in insertion order and the
  bucket chains, are kept equal by every operation, including the expansion with its
  per-bucket back-off and the rollback of an add that runs out of memory.
- `Dictionary`: the way the bridge uses the table, as a refinement of key-value pairs in
  insertion order, and of a map.
- `BridgeSpec`, `Ledger`: the bridge on values: learning, routing, flooding, counting,
  frame by frame and in bursts, and how the two relate.
- `Fdb`, `Statistics`, `WlanBridge`: the bridge on its real tables, ring and shared peer
  records, each handler proved against the value model. Sends append to a trace; functions
  chosen at construction say which attempts succeed and when errno reads EAGAIN.
- `CommandLine`, `BuildMode`, `Abbreviations`, `Printing`: libcli's tokenising parser and
  quoting extender, the command line that its build mode makes of options, its command
  abbreviations, and its line-buffered printer with filter chains.

## What the code does where its promises are wider

- Quoting and parsing do not undo each other for all words. `CommandLine.Fits` says for
  which they do, and `CommandLine.RoundTrip` proves that it is exactly these.
- Abbreviations are unambiguous for lower-case names. The lengths are computed with
  regard to case and words are tested without, so `Show` and `show` clash
  (`Abbreviations.MixedCaseClash`). `Abbreviations.AmbiguousExactly` says, of the names
  alone, when two commands accept a common word.
- Handling frames one at a time counts only flooded frames; the burst form counts every
  frame (`Ledger.FrameStepCounts`, `Ledger.FramesConserve`).
- A learned MAC never moves to another peer and never ages, unlike in clause 7.8 of IEEE
  802.1D-2004 (`BridgeSpec.FirstPeerForever`).
- The fallback loop of the table builders makes up to 2m-4 comparisons, for `cbcc...c`
  just as many (`Kmp.MostIsReached`); filling the table compares m-1 more times. Both
  together stay within 2m only up to m = 5 (`Kmp.TwoEachUpToFive`).
- A burst's datagrams behind one that fails are attempted only after EAGAIN
  (`BridgeSpec.StopsShort`, `BridgeSpec.SecondIsLost`), and the failing one then twice
  (`BridgeSpec.FailedTwice`). The burst form attempts the unicasts of the frame-by-frame
  form if and only if every queue is attempted as it stands: `BridgeSpec.AsItStands` says
  when, `BridgeSpec.QueueAsItStands` and `BridgeSpec.BurstsRefineFrames` prove it. The
  counters count what was queued in either case.
- Build mode never runs a command with a required argument that applies and may be
  repeated: the search for one more value ends in an error
  (`BuildMode.RepeatedNeverRuns`).
- A line whose first non-space is a pipe parses to an empty word and the pipe, and a backslash
  between words is lost together with the character it escapes (`CommandLine.LeadingPipe`,
  `CommandLine.EscapeBetweenWords`). Of two escapes in a row inside a word only the first
  protects its character (`CommandLine.EscapeInWord`).
- Printing without buffering delivers an extra empty line after a text that ends in a
  line end (`Printing.Cli.Show`, `Printing.RestIsEmpty`).

## Model

| member | source | states |
|---|---|---|
| `Kmp.FailureIsLongest` | src_lib/uthash/include/utstring.h:171-207 | the entry for i is -1 or the longest fallback of the first i characters, and only that value is: for i inside the needle a fallback is a proper border k with needle[k] != needle[i], at the end any proper border |
| `Kmp.BorderOfBorder` | src_lib/uthash/include/utstring.h:181-190 | the borders of a prefix that are shorter than one of its borders are exactly the borders of that border: what following the table entries relies on |
| `Kmp.FallBack` | src_lib/uthash/include/utstring.h:181-185 | after a mismatch the table entry loses no candidate: every border that can still be extended is at most the entry |
| `Kmp.Advance` | src_lib/uthash/include/utstring.h:186-190 | a matching character after exhausted candidates gives the longest proper border of the longer prefix |
| `Kmp.EntryFromLongest` | src_lib/uthash/include/utstring.h:187-196 | the optimised entry stored while scanning is the strong failure value |
| `Kmp.BuildTable` | src_lib/uthash/include/utstring.h:171-207 | the forward table is filled in place with the strong failure values; the comparisons of the fallback loop, counted exactly, are at most 2m-4 for m of 3 or more, and filling makes m-1 more |
| `Kmp.BuildTableR` | src_lib/uthash/include/utstring.h:211-247 | the right-to-left table is the reflection of the forward table of the reversed needle: entry m-k is m-1 minus entry k; comparisons counted and bounded likewise |
| `Kmp.MostIsEnough` | src_lib/uthash/include/utstring.h:171-207 | no needle of m characters makes the fallback loop compare more than 2m-4 times, m-1 times when m is below 3 |
| `Kmp.MostIsReached` | src_lib/uthash/include/utstring.h:171-207 | for every m of 3 or more the needle c b c ... c makes it compare 2m-4 times |
| `Kmp.TwoEachUpToFive` | src_lib/uthash/include/utstring.h:171-207 | both loops together stay within two comparisons a character for every needle of length m if and only if m is at most 5 |
| `Kmp.MatchFallBack` | src_lib/uthash/include/utstring.h:263-268 | in the search, falling back keeps every possible match of the needle's start |
| `Kmp.MatchAdvance` | src_lib/uthash/include/utstring.h:263-272 | after a step the length held is the longest start of the needle that ends here |
| `Kmp.OccurrenceIsMatch` | src_lib/uthash/include/utstring.h:263-277 | no occurrence can begin before the match that is held: why stopping at the first full match gives the least position |
| `Kmp.FindFirst` | src_lib/uthash/include/utstring.h:251-280 | the least position where a non-empty needle occurs, or -1 exactly when it occurs nowhere (early exit included), with at most 2n comparisons, counted exactly |
| `Kmp.FindLast` | src_lib/uthash/include/utstring.h:284-314 | the greatest position where the needle occurs, or -1 exactly when there is none, with at most 2n comparisons, counted exactly |
| `Kmp.OccurrenceReversed` | src_lib/uthash/include/utstring.h:284-314 | the occurrences in a text are the mirrored occurrences of the reversed needle in the reversed text |
| `Kmp.LastIsFirstReversed` | src_lib/uthash/include/utstring.h:284-314 | the last occurrence is the first occurrence of the mirrored search, both directions |
| `Kmp.UTString.Find` | src_lib/uthash/include/utstring.h:318-359 | the first match at or after a start that may count from the end, -1 exactly when there is none or the needle is empty |
| `Kmp.UTString.FindR` | src_lib/uthash/include/utstring.h:363-402 | the last match that ends at or before the start position, -1 exactly when there is none or the needle is empty |
| `MergeSort.SortCorrect` | src_lib/uthash/include/uthash.h:893-975 | the bottom-up merge sort returns a permutation for any comparison, and for a total preorder a sorted and stable one |
| `MergeSort.PassDoublesRuns` | src_lib/uthash/include/utlist.h:240-311 | one pass turns sorted runs of length k into sorted runs of length 2k |
| `MergeSort.MergeStable` | src_lib/uthash/include/utlist.h:240-311 | merging two runs keeps elements that compare equal in their order, those of the first run before those of the second |
| `ListSort.SortStablySorts` | src_lib/uthash/include/uthash.h:893-975 | the same for a comparison function that reads the elements' keys and user fields |
| `ListSort.Pass` | src_lib/uthash/include/utlist.h:177-238 | one pass of the in-place sort relinks the nodes it is given, and no others, into the order of the pass on sequences, and reports at most one merge exactly when two runs cover the list |
| `ListSort.SplitRun` | src_lib/uthash/include/utlist.h:254-262 | stepping off a run counts min(insize, what is left) elements |
| `UtList.CdlSort` | src_lib/uthash/include/utlist.h:240-311 | a ring becomes the ring of a permutation, links in both directions, head first, the old head as end mark; sorted and stable when the comparison function is a total preorder |
| `UtList.DlSort` | src_lib/uthash/include/utlist.h:177-238 | the same for a null-ended list, with the tail in the head's prev |
| `UtList.Prepend` | src_lib/uthash/include/utlist.h:883-896 | the ring with the new element in front |
| `UtList.Delete` | src_lib/uthash/include/utlist.h:932-941 | the ring without the element; the deleted element keeps its own links |
| `UtList.ForeachSafe` | src_lib/uthash/include/utlist.h:961-964 | every original element is visited exactly once and in order although the body may delete the current one; the ring left holds the others |
| `UtList.KeptExactly` | src_lib/uthash/include/utlist.h:961-964 | what is left after the traversal is every element that was not deleted, and no other, in the old order |
| `Bits.ShiftAndMask` | src_lib/uthash/include/uthash.h:822-835 | a number is its shift times 2^k plus its mask, the mask being below 2^k |
| `Bits.ShiftMaskCeilCorrect` | src_lib/uthash/include/uthash.h:847-849 | shift plus a mask test is the rounded-up quotient |
| `Bits.ToBktIs` | src_lib/uthash/include/uthash.h:433-436 | the bucket of a hash value is its remainder modulo the number of buckets |
| `Bits.DoublingMoves` | src_lib/uthash/include/uthash.h:433-436 | with n buckets an item is in bucket hashv % n, with twice as many in hashv % 2n, and that is the old index or the old index plus n |
| `Bits.MaskIsRemainder` | src_lib/uthash/include/uthash.h:433-436 | the mask with a power of two less one is the remainder |
| `LoadBound.NextInBand` | src_lib/uthash/include/uthash.h:858-863 | counting one item keeps (mult-1)*ideal < count <= (mult+1)*ideal for every bucket, and keeps the multiplier exact: 0 up to the ideal, count - 1 for an ideal of 1, 1 for the first surplus item, otherwise the rounded-up quotient of count and ideal |
| `LoadBound.CapsBounded` | src_lib/uthash/include/uthash.h:770-789 | the caps max(count after the expansion, 10*(mult+1)-1) of all buckets add up to at most 40 a bucket |
| `LoadBound.LoadBounded` | src_lib/uthash/include/uthash.h:770-789 | buckets below their caps hold at most 40 items a bucket on average |
| `UtHash.FindInBkt` | src_lib/uthash/include/uthash.h:748-767 | an item of the chain with this hash value and an equal key, or null exactly when the chain has none |
| `UtHash.DelInBkt` | src_lib/uthash/include/uthash.h:792-805 | the chain without the item, one less counted, the multiplier kept; for an item already unlinked the chain stays |
| `UtHash.CountItem` | src_lib/uthash/include/uthash.h:858-863 | the count grows by one, the multiplier by one exactly when the new count exceeds both the ideal and the multiplier times the ideal, the surplus when it exceeds the ideal |
| `UtHash.MoveItem` | src_lib/uthash/include/uthash.h:857-873 | the item joins the front of its new bucket; count, multiplier and the number of surplus items follow |
| `UtHash.Redistribute` | src_lib/uthash/include/uthash.h:853-875 | after all chains every new bucket links and counts exactly the items whose hash value belongs there, and nonideal_items is the sum of max(0, count - ideal) |
| `UtHash.Rebuild` | src_lib/uthash/include/uthash.h:836-875 | twice as many fresh buckets holding the same items, each where its hash value belongs, the ideal length being the rounded-up quotient |
| `UtHash.MovesToPair` | src_lib/uthash/include/uthash.h:836-875 | every item of new bucket b was in old bucket b or b minus the old number of buckets |
| `UtHash.CountsAddUp` | src_lib/uthash/include/uthash.h:519-566 | bucket counts add up to the number of items |
| `HashList.Append` | src_lib/uthash/include/uthash.h:281-287 | the new element after the tail, links both ways |
| `HashList.Unlink` | src_lib/uthash/include/uthash.h:453-480 | the list without one element, head and tail following |
| `HashList.InsertBefore` | src_lib/uthash/include/uthash.h:353-384 | the list with the new element before a given one |
| `HashList.SortList` | src_lib/uthash/include/uthash.h:893-975 | the element list relinked in sorted order with prev the inverse of next, head first and tail last |
| `HashTable.Table.FindByHashValue` | src_lib/uthash/include/uthash.h:156-166 | an item stored under this hash value with an equal key, or null exactly when no item is, for any key comparison |
| `HashTable.Table.Find` | src_lib/uthash/include/uthash.h:168-177 | the same, under the hash value of the key |
| `HashTable.Table.ExpandBuckets` | src_lib/uthash/include/uthash.h:836-889 | doubling keeps exactly the same items; the ideal length is the rounded-up quotient, every multiplier is given by its count alone, and the surplus count, ineff_expands and noexpand are as computed; a failed allocation changes nothing |
| `HashTable.Table.JudgeExpansion` | src_lib/uthash/include/uthash.h:877-883 | an expansion that leaves more than half of the items surplus counts as ineffective, and two in a row inhibit further ones |
| `HashTable.Table.LoadFactor` | src_lib/uthash/include/uthash.h:770-789 | while expansion is not inhibited a table holds at most 40 items a bucket |
| `HashTable.Table.AddToBkt` | src_lib/uthash/include/uthash.h:770-789 | the item joins its bucket; the table doubles exactly when the bucket reaches 10*(mult+1) and expansion is not inhibited; if that allocation fails, buckets and chains are as before |
| `HashTable.Table.RollbackBkt` | src_lib/uthash/include/uthash.h:141-149 | the bucket counts the unlinked item again so that the delete can uncount it |
| `HashTable.Table.DeleteHH` | src_lib/uthash/include/uthash.h:453-480 | list, tail, count and bucket without the element, also for an element that is counted but in no chain; the last one clears the head |
| `HashTable.Table.UndoAdd` | src_lib/uthash/include/uthash.h:316-336 | rolling back restores list, head, tail, all chains, all bucket counts and num_items |
| `HashTable.Table.AddToTable` | src_lib/uthash/include/uthash.h:316-336 | an add that cannot expand is undone completely, otherwise the item is in list and buckets |
| `HashTable.Table.MakeTable` | src_lib/uthash/include/uthash.h:215-245 | an empty table of 32 buckets, or nothing changed |
| `HashTable.Table.AddByHashValue` | src_lib/uthash/include/uthash.h:399-418 | the item is appended in insertion order; the table doubles exactly when bucket hashv % num_buckets then holds ten times its multiplier plus one items and expansion is not inhibited; without an expansion only the count of that bucket changes, with one every number is computed anew, two ineffective ones in a row inhibiting further ones; an add that runs out of memory leaves every field and link of the table as it was, and happens exactly when the first allocation or a due expansion fails |
| `HashTable.Table.Add` | src_lib/uthash/include/uthash.h:420-425 | the same under the hash value of the key |
| `HashTable.Table.AddInorder` | src_lib/uthash/include/uthash.h:353-384 | the item is inserted before the first element that compares greater, which keeps a sorted table sorted; the same complete rollback |
| `HashTable.Table.FindPlace` | src_lib/uthash/include/uthash.h:289-296 | the loop stops at the first element that compares greater than the new one |
| `HashTable.InsertPosRange` | src_lib/uthash/include/uthash.h:289-296 | everything before the insertion place compares at most equal, the element at it greater |
| `HashTable.InorderKeepsSorted` | src_lib/uthash/include/uthash.h:353-384 | ordered insertion keeps a sorted list sorted and puts the new element after everything equal to it |
| `HashTable.InorderByUser` | src_lib/uthash/include/uthash.h:353-384 | the same said of the keys and user fields that the comparison function is given |
| `HashTable.Table.Delete` | src_lib/uthash/include/uthash.h:450-480 | the element leaves list and buckets, all others stay; of the numbers only the count of its bucket hashv % num_buckets changes |
| `HashTable.Table.Sort` | src_lib/uthash/include/uthash.h:893-975 | the element list becomes a permutation, sorted and stable when the comparison function is a total preorder; the buckets are untouched |
| `HashTable.Table.Fsck` | src_lib/uthash/include/uthash.h:519-566 | in every valid table both item counts agree with num_items, there is a power of two of buckets, and each links and counts exactly the items whose hash value leaves its number as remainder |
| `HashTable.Table.AtMostFortyPerBucket` | src_lib/uthash/include/uthash.h:770-789 | num_items <= 40 * num_buckets in every valid state with expansion not inhibited |
| `Dictionary.Dict.Find` | src_lib/uthash/include/uthash.h:168-177 | for any hash function: the item whose key is this one, or null exactly when the key is absent |
| `Dictionary.Dict.Put` | src_lib/uthash/include/uthash.h:399-418 | find before add: a present key keeps its value, an absent one is appended; it is refused exactly when the allocation it needs fails, that of the table for the first key and that of a due expansion later |
| `Dictionary.Dict.Remove` | src_lib/uthash/include/uthash.h:450-480 | the pair of the key leaves the sequence, the order of the others stays |
| `Dictionary.Dict.Run` | src_lib/uthash/include/uthash.h:399-480 | any run of find-before-add inserts, finds and deletes gives the answers, and ends with the contents, of a sequence of key-value pairs in insertion order and of a map |
| `Dictionary.MapAdded` | src_lib/uthash/include/uthash.h:399-418 | the table as a map: adding an absent key updates the map at that key |
| `Dictionary.MapRemoved` | src_lib/uthash/include/uthash.h:450-480 | deleting a key removes exactly that key from the map |
| `Dictionary.RunOnMap` | src_lib/uthash/include/uthash.h:399-480 | a run that the pairs allow is one that their map allows, answer by answer |
| `Dictionary.ReadsLastWrite` | src_lib/uthash/include/uthash.h:399-480 | in every run a lookup answers by the last change of its key before it: the value added, nothing after a delete, what was there at the start when there is none |
| `Fdb.BrFind` | wlan_br_server/wlan_fdb.c:4-9 | the entry of a MAC with its peer, null exactly when the MAC is unknown |
| `Fdb.FdbUpdate` | wlan_br_server/wlan_fdb.c:11-32 | 1 and a new entry for an unknown MAC, 0 and no change for a known one |
| `Statistics.UpdateRx` | wlan_br_server/statistics.c:12-30 | the received counters of one IP grow, all other entries stay |
| `Statistics.UpdateTx` | wlan_br_server/statistics.c:32-49 | the sent counters of one IP grow, all other entries stay |
| `WlanBridge.Bridge.FindPeer` | wlan_br_server/wlan_br_forward.c:190-202 | the shared record with this address, null exactly when no entry uses one |
| `WlanBridge.Bridge.PeerFor` | wlan_br_server/wlan_br_forward.c:187-215 | the record a new entry uses: the sender's own with its count raised, or a new one; one record an address, flags clear, counts right |
| `WlanBridge.Bridge.ListUpdate` | wlan_br_server/wlan_br_forward.c:176-219 | the ring with the new MAC in front and everything a ring has to keep |
| `WlanBridge.SharedExactly` | wlan_br_server/wlan_br_forward.c:190-215 | two entries share a record exactly when their addresses are equal |
| `WlanBridge.Bridge.RingAndDatabaseAgree` | wlan_br_server/wlan_br_forward.c:176-219 | in every valid state each database MAC stands in the ring once with the same address, records are shared exactly by equal address, a record's count is its number of entries modulo 65536, and no flood flag is set |
| `WlanBridge.Bridge.FloodEntry` | wlan_br_server/wlan_br_forward.c:139-161 | one entry: its peer is flagged and sent to unless it is flagged or the sender; sent bytes count only on success |
| `WlanBridge.Bridge.FloodRing` | wlan_br_server/wlan_br_forward.c:137-162 | after the traversal exactly the targets are flagged and sent to, in ring order |
| `WlanBridge.Bridge.ClearFlags` | wlan_br_server/wlan_br_forward.c:164-173 | every flag is 0 again |
| `WlanBridge.Bridge.FloodFrame` | wlan_br_server/wlan_br_forward.c:132-174 | one attempt to each target in ring order, counters for the successful ones, flags 0 before and after |
| `BridgeSpec.TargetsExactly` | wlan_br_server/wlan_br_forward.c:132-174 | the targets are all known peers but the sender, each once however many MACs share it |
| `WlanBridge.Bridge.Forward` | wlan_br_server/wlan_br_forward.c:74-94 | one attempt to the destination's peer; -1 for an unknown destination, 0 for the sender itself, -2 when the send fails; counters untouched |
| `WlanBridge.Bridge.ForwardToArray` | wlan_br_server/wlan_br_forward.c:95-115 | the same decision, queued at slot j with both counters kept, slots before j untouched |
| `WlanBridge.Bridge.LearnSource` | wlan_br_server/wlan_br_forward.c:225-228 | a source is learned exactly when it is unknown |
| `WlanBridge.Bridge.Handle` | wlan_br_server/wlan_br_forward.c:221-241 | after one frame: the knowledge, exactly who was sent the frame (every known peer but the sender when the first destination byte is odd or the destination unknown, otherwise the peer of the destination unless it is the sender), and the counters |
| `WlanBridge.Bridge.BurstTurn` | wlan_br_server/wlan_br_forward.c:250-275 | one frame of a burst: floods at once, a unicast queued at slot j, j raised by at most one |
| `WlanBridge.Bridge.SendMmsg` | wlan_br_server/udp.c:72-72 | the datagrams are attempted in order up to the first that fails |
| `WlanBridge.Bridge.Resend` | wlan_br_server/udp.c:79-84 | exactly the datagrams whose sent length differs from their length, in order |
| `WlanBridge.Bridge.SendQueue` | wlan_br_server/udp.c:54-104 | the queued datagrams go to one sendmmsg, and those it did not send to a second one after EAGAIN |
| `WlanBridge.Bridge.HandleBurst` | wlan_br_server/wlan_br_forward.c:243-280 | after a burst: the knowledge of the frames one by one, all floods and then what is attempted of the queued unicasts, the burst's counters; every attempt belongs to a frame by the same test of its destination, and every flood is attempted; array writes in bounds |
| `WlanBridge.Bridge.HandleEach` | wlan_br_server/main.c:36-51 | a run of frames handled one at a time |
| `WlanBridge.Bridge.HandleBursts` | wlan_br_server/main.c:104-119 | a run cut into bursts ends with the same knowledge as the frames one at a time; its attempts and counters |
| `BridgeSpec.Recipients` | wlan_br_server/wlan_br_forward.c:132-241 | a frame to an unknown destination, or to one with an odd first byte, goes once to every known peer but its sender, any other frame to its destination's peer alone unless that is the sender; both directions for every peer |
| `BridgeSpec.BurstRecipients` | wlan_br_server/wlan_br_forward.c:243-280 | what a burst sends or queues is, for each of its frames, just that, by what is known once the source of the frame has been learned |
| `BridgeSpec.UnsentExactly` | wlan_br_server/udp.c:79-84 | the datagrams tried again are those that are not empty, in their order |
| `BridgeSpec.BurstsRefineFrames` | wlan_br_server/wlan_br_forward.c:221-280 | however a run is cut into bursts, the floods attempted are the same in the same order whatever the network does; the unicasts are too, up to the end of every burst, if and only if every queue is attempted as it stands, and then the attempts are the same multiset |
| `BridgeSpec.SelectFrames` | wlan_br_server/wlan_br_forward.c:221-241 | in the frame-by-frame trace floods and unicasts each stand in their order of arrival |
| `BridgeSpec.SelectRun` | wlan_br_server/wlan_br_forward.c:243-280 | the floods of a run of bursts are those of its frames; its unicasts are those of its frames after every burst if and only if every queue is attempted as it stands |
| `BridgeSpec.QueueSelects` | wlan_br_server/udp.c:54-104 | no attempt of a queue is a flood, and the queue is attempted as it stands exactly under the condition |
| `BridgeSpec.QueueAsItStands` | wlan_br_server/udp.c:54-104 | the condition on one queue, exactly: all accepted; or stopped at the last datagram without EAGAIN; or after EAGAIN the second call tries just what stood behind the one that failed |
| `BridgeSpec.FramesAsTheyStand` | wlan_br_server/udp.c:54-104 | the condition for frames that are never empty, where nothing is skipped by the second call |
| `BridgeSpec.StopsShort` | wlan_br_server/udp.c:92-99 | without EAGAIN nothing behind the datagram that fails is attempted |
| `BridgeSpec.SecondIsLost` | wlan_br_server/udp.c:92-99 | an input that shows it: of two queued unicasts the second is never attempted when the first fails without EAGAIN |
| `BridgeSpec.FailedTwice` | wlan_br_server/udp.c:72-91 | after EAGAIN the datagram that failed is attempted twice in a row |
| `BridgeSpec.KnownAppend` | wlan_br_server/wlan_br_forward.c:221-280 | what is known depends on the frames, not on how they are cut |
| `BridgeSpec.AlwaysConsistent` | wlan_br_server/wlan_br_forward.c:176-219 | ring and database agree in every reachable state |
| `BridgeSpec.FirstPeerForever` | wlan_br_server/wlan_fdb.c:11-32 | a MAC keeps the peer it was first learned from, whatever arrives later |
| `BridgeSpec.FirstSenderIsFirst` | wlan_br_server/wlan_fdb.c:11-32 | the peer of a MAC is that of the first frame from it |
| `Ledger.IpKeyInjective` | wlan_br_server/statistics.c:5-10 | different IP addresses have different keys |
| `Ledger.CountSentRow` | wlan_br_server/wlan_br_forward.c:137-162 | the flood attempts of a frame add exactly the successful ones to their peers' rows |
| `Ledger.BurstStepRow` | wlan_br_server/wlan_br_forward.c:250-275 | a frame of a burst counts once received under its sender, whichever branch it takes, and once sent for each peer reached |
| `Ledger.BurstConserves` | wlan_br_server/wlan_br_forward.c:243-280 | over a burst the row of every IP grows by the frames and bytes received from it and by the queued unicasts and successful floods sent to it, modulo 2^64 |
| `Ledger.RunConserves` | wlan_br_server/wlan_br_forward.c:243-280 | the same over any run of bursts |
| `Ledger.RunTotals` | wlan_br_server/wlan_br_forward.c:243-280 | over any run and any set of IP addresses, the total of each statistic grows by what was received from them or queued and flooded to them if and only if none of their counters wraps |
| `Ledger.ReceivedFromAll` | wlan_br_server/wlan_br_forward.c:243-280 | when the set holds every sender, what it sent is every frame received, with all its bytes |
| `Ledger.SentToAll` | wlan_br_server/wlan_br_forward.c:243-280 | when the set holds every destination, what was sent to it is every queued unicast and every successful flood, with all their bytes |
| `Ledger.RunSentToAll` | wlan_br_server/wlan_br_forward.c:243-280 | the same over any run of bursts |
| `Ledger.FrameStepCounts` | wlan_br_server/wlan_br_forward.c:74-94 | the frame-by-frame form counts as the burst form does if and only if the frame is flooded; other frames it does not count |
| `Ledger.FramesConserve` | wlan_br_server/wlan_br_forward.c:221-241 | over a run of frames handled one at a time the row of every IP grows by the flooded frames and bytes received from it and by the successful floods to it, modulo 2^64 |
| `CommandLine.NewWord` | src_lib/libcli/libcli.c:774-790 | the text without its backslashes |
| `CommandLine.ParseLine` | src_lib/libcli/libcli.c:792-853 | the words of the line for any line and limit, never more than max_words-1; the loop ends |
| `CommandLine.WordsBound` | src_lib/libcli/libcli.c:792-853 | no line yields more than max_words-1 words and no word holds a backslash |
| `CommandLine.LeadingPipe` | src_lib/libcli/libcli.c:797-828 | a line whose first non-space is a pipe yields an empty word before the pipe |
| `CommandLine.EscapeBetweenWords` | src_lib/libcli/libcli.c:805-807 | an escape between words is dropped with the character it escapes |
| `CommandLine.EscapeInWord` | src_lib/libcli/libcli.c:804-850 | inside a word an escape takes the next character literally, but of two escapes in a row only the first does |
| `CommandLine.CutAtSpaces` | src_lib/libcli/libcli.c:804-850 | a plain first word is cut at tab, line feed, vertical tab, form feed, carriage return and space, and at no other character |
| `CommandLine.ExtendCmdline` | src_lib/libcli/libcli.c:2613-2654 | the word is appended after a space in the quotes chosen for it |
| `CommandLine.QuoteForIs` | src_lib/libcli/libcli.c:2621-2642 | a word without backslashes is quoted exactly when it is empty or holds a space or a quote, and the quote chosen occurs in it exactly when both kinds do |
| `CommandLine.QuoteChosen` | src_lib/libcli/libcli.c:2613-2642 | for any word: whichever quote stands first outside its escapes, the other one is chosen; without quotes there the double one for an empty word or a space, otherwise none |
| `CommandLine.CommandName` | src_lib/libcli/libcli.c:204-226 | the full name is the names of the parents and of the command, separated by spaces |
| `BuildMode.OptargValue` | src_lib/libcli/libcli.c:2371-2388 | the first value under the name in any case, or the first behind a given one; none when the given one is not there under that name |
| `BuildMode.ExecuteBuildmode` | src_lib/libcli/libcli.c:2563-2596 | the line is the full name and the words of the options, in order: nothing for an option that privilege or mode excludes, otherwise its first value or all its values in order, each alone for a flag or argument and behind the option's name for any other; it is run if and only if no required argument lacks a value or may be repeated, and else the first such is reported; it is parsed back into these words exactly when they fit |
| `BuildMode.SameNameIs` | src_lib/libcli/libcli.c:2376 | names are compared without regard to the case of letters, and with regard to everything else |
| `BuildMode.RepeatedNeverRuns` | src_lib/libcli/libcli.c:2570-2596 | a required argument that may be repeated counts as missing even with a value |
| `CommandLine.LineIsTail` | src_lib/libcli/libcli.c:2563-2596 | extending word by word is the name followed by one part for each word |
| `CommandLine.PlainFirst` | src_lib/libcli/libcli.c:804-850 | an unquoted text is cut at its first whitespace or pipe |
| `CommandLine.QuotedFirst` | src_lib/libcli/libcli.c:804-850 | a quoted word is cut at the first quote of its kind |
| `CommandLine.GoodFirst` | src_lib/libcli/libcli.c:792-853 | a word that fits is the next word parsed |
| `CommandLine.BadFirst` | src_lib/libcli/libcli.c:792-853 | a word that does not fit is not the next word parsed, whatever follows |
| `CommandLine.RoundTrip` | src_lib/libcli/libcli.c:2563-2654 | the names of a command and its parents and the words come back from the parser if and only if there is room for them and every word fits: no backslash, not both kinds of quote, and in an unquoted word no whitespace and no pipe (a pipe alone excepted) |
| `Abbreviations.ComputeShortest` | src_lib/libcli/libcli.c:316-329 | unique_len is one more than the longest start shared with an eligible command of the same type |
| `Abbreviations.Shortest` | src_lib/libcli/libcli.c:316-329 | longer than every start shared with a rival, and no longer than needed |
| `Abbreviations.BuildShortest` | src_lib/libcli/libcli.c:308-336 | a command that mode or privilege excludes is accepted by its whole name only; any other by its whole name and by exactly the non-empty starts that no other command of its type, not so excluded, begins with; lists below it are built when it is not excluded, and no other lengths are written |
| `Abbreviations.BuiltExactly` | src_lib/libcli/libcli.c:308-336 | the same for every command of a built list, and for the list below it |
| `Abbreviations.ExcludedUntouched` | src_lib/libcli/libcli.c:315-332 | what stands below an excluded command is not reached |
| `Abbreviations.EqualButForCase` | src_lib/libcli/libcli.c:2877-2882 | the comparison of words ignores the 32 between a capital and its small letter, and nothing else |
| `Abbreviations.AcceptsIs` | src_lib/libcli/libcli.c:2877-2882 | the two word tests accept exactly the starts of the name, in any case, that are at least unique_len long or the whole name |
| `Abbreviations.StartAccepted` | src_lib/libcli/libcli.c:2877-2882 | a start of the name is accepted if and only if it is long enough or the whole name |
| `Abbreviations.NoAmbiguity` | src_lib/libcli/libcli.c:308-336 | with lower-case names, two eligible commands of a list and type that accept the same word have equal names |
| `Abbreviations.BuiltIsUnambiguous` | src_lib/libcli/libcli.c:308-336 | the same for any list whose lengths have been built |
| `Abbreviations.AmbiguousExactly` | src_lib/libcli/libcli.c:308-336 | for names in any case and said of the names alone: once the lengths are built, two commands of a list and type that the session may use accept a common word if and only if the longest start their names share but for case is, for each of them, its whole name or a start that no rival begins with |
| `Abbreviations.CommonWord` | src_lib/libcli/libcli.c:2877-2882 | whatever the lengths are: two commands accept a common word if and only if they both accept that start |
| `Abbreviations.MixedCaseClash` | src_lib/libcli/libcli.c:308-336 | the commands Show and show are both accepted for s |
| `Printing.LinesAndRest` | src_lib/libcli/libcli.c:1878-1907 | the complete lines and what follows them are the text, and hold no line end |
| `Printing.LinesAppend` | src_lib/libcli/libcli.c:1861-1909 | lines can be taken before the rest of the text is known |
| `Printing.RestIsEmpty` | src_lib/libcli/libcli.c:1878-1902 | nothing follows the last line end exactly when the text is empty or ends in one: when a print without buffering delivers an empty last line |
| `Printing.Filter.Apply` | src_lib/libcli/libcli.c:2010-2112 | verdict and next state of the match, range and count filters |
| `Printing.Filter.Close` | src_lib/libcli/libcli.c:2010-2112 | the last call, without a line: the count filter reports its count, the others nothing |
| `Printing.MatchKeeps` | src_lib/libcli/libcli.c:2010-2035 | the match filter keeps exactly the lines that are some text, the pattern and some text, or that the regular expression matches, or exactly the others |
| `Printing.PickExactly` | src_lib/libcli/libcli.c:2010-2080 | what is kept is the lines at those positions, in order |
| `Printing.RangeKeeps` | src_lib/libcli/libcli.c:2063-2080 | the range filter keeps a line exactly when some line at or before it contained the start and no line from there up to the one before it contained the end |
| `Printing.CountKeeps` | src_lib/libcli/libcli.c:2095-2112 | the count filter lets nothing through and counts the lines that are not blank |
| `Printing.ChainIsPipeline` | src_lib/libcli/libcli.c:1890-1893 | filtering line by line through the chain gives the same surviving lines and final states as each filter over the whole output of the one before |
| `Printing.Cli.RunFilters` | src_lib/libcli/libcli.c:1890-1893 | the chain stops at the first filter that rejects the line; the filters behind it do not change |
| `Printing.Cli.Show` | src_lib/libcli/libcli.c:1856-1909 | complete lines go through the filters; with buffering the partial line waits, without it that line is delivered too, even when empty |
| `Printing.Cli.ShowAll` | src_lib/libcli/libcli.c:1856-1917 | however a text is cut into buffered calls, lines, filter states and buffer are those of the text in one piece |
| `Printing.NothingLost` | src_lib/libcli/libcli.c:1856-1917 | unfiltered, the delivered lines followed by the buffer reproduce what was printed |

## Left out

- Sockets, epoll, TUN/TAP, threads, the command handlers and the whole client. A send is an attempt in a trace with a chosen outcome, and the handlers run in a single loop.
- The wait of 20 microseconds before a burst is tried again, and logging.
- Frames shorter than an Ethernet header: a frame is already split into destination, source, length and body. The multicast test reads the low bit of the first address byte, as on a little-endian machine.
- Allocation failure, except the two allocations of an add to the hash table. In the bridge every allocation succeeds.
- Null peer records in the ring: the fields are never null here, so the branches that only log them are absent.
- 32-bit overflow of item counts and bucket counts in the hash table, and of the count filter; the 64-bit counters and the 16-bit use count do wrap.
- The Bloom filter, HASH_EMIT_KEYS, HASH_SELECT, the NO_DECLTYPE variants, hash functions themselves (a table works for any), HASH_CLEAR and freeing. The pointer arithmetic between element and hash handle: an element and its handle are one object.
- HashTable.Table.DeleteHH: the table that becomes empty is not freed; its fields mean nothing while head is null.
- utarray, utstack, utringbuffer, the singly linked lists, and the printf part of utstring: easier members.
- Kmp.UTString.Find: a start before the beginning of the buffer is excluded, since the source then reads before it.
- Kmp.UTString.FindR: a start beyond the allocated buffer is excluded, since the source then reads past it.
- Throughput display and the dump functions: clock, floating point and formatting.
- Printing.Filter.Apply: a regular expression is a function from lines to verdicts, because regexec is not part of the repository; strstr is a predicate on strings. Compiling the expression and its flags are left out.
- Printing.Filter.Close: freeing the state.
- BuildMode.ExecuteBuildmode: how the values were found and the run of the finished line; it ends with that line.
- Comparison functions are given the key and the user fields of two elements as values; what they might read elsewhere is left out.
- Printing.Cli.Show: the formatting of arguments and the choice between callback and client stream; every line is appended to one trace.
- Abbreviations.AcceptsIs: only the word tests of the command lookup; mode fallback, help, option arguments and running a command are left out.
- Telnet, authentication, history, completion and configuration files of libcli.
