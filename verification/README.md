# tcpreplay: a verified model of its trees, its replay engine and its option text

This project models the parts of tcpreplay and of the libopts library it ships where most of
the branching, pointer work and arithmetic is, and proves what those parts are for.

* **Balanced trees** (`rb_shape.dfy`, `rb_cost.dfy`, `rb_tree.dfy`, `splay_shape.dfy`,
  `splay_cost.dfy`, `splay_keys.dfy`, `splay_tree.dfy`, `key_sets.dfy`, `sides.dfy`,
  `powers.dfy`, `times.dfy`). Nodes are heap objects with mutable links. A ghost tree and, for
  a place inside it, a ghost path to the root describe what the links say; all reasoning about
  shapes is in lemmas on values, and the methods write pointers one at a time. Left and right
  are a parameter, so each method stands for both mirrored branches of the macros. The turns of
  the loops are counted on the heap and are exactly those of recursive functions of the tree.
  The cost of splaying is measured by a potential, the product of the sizes of all subtrees, so
  that the bounds are statements on natural numbers.
* **The learning bridge** (`bridge.dfy`): one frame at a time over the red-black tree, and
  theorems about every run.
* **The replay engine**: the rate scheduler (`scheduler.dfy`), the unique-IP rewrite and the
  Internet checksum (`unique_ip.dfy`, and on the bytes of IP headers `ip_headers.dfy`), the packet
  cache (`packet_cache.dfy`) and the passes that edit it in place (`cached_edits.dfy`), the merge
  of two files (`dual_merge.dfy`) and the AF_XDP frames and batches (`xdp_batch.dfy`).
* **Printer and parser pairs of libopts** (`quoting.dfy` and `cooking.dfy`, `set_members.dfy`,
  `xml_text.dfy`, with `ctext.dfy`, `numbers.dfy` and `common.dfy`): buffers of bytes, sizes
  computed beforehand, text changed in place, and the round trips.

Clocks, sleeps, the network, the address filter and the packet editor are parameters: an event
or an arrival says what they did, and the theorems hold for all of them. Machine words are
unbounded integers with the wrap-around written out where the code can reach it.

`dafny verify dfyconfig.toml` checks the project.

## Where the code and its description part

* `libopts/ag-char-map.h:106` lists `-` and `!` among the set separators, but the mask at line
  326 does not select them; the model follows the mask.
* A packet number that the `--include` or `--exclude` list leaves out does not drop a packet in
  dual mode: the turn is spent and the same packet is met again under the next number
  (`src/send_packets.c:761-770`). `DualMerge.DualReplay.Run` states this. A list that admits
  fewer numbers than there are packets keeps the loop from ending (`DualMerge.NeverEnds`).
* A nap is computed from the send time of the last packet but slept from the time the clock was
  read (`src/send_packets.c:1200-1201` and `:566`). The rate is therefore reached only up to the
  time lost between packets; `Scheduler.Replay.SendPackets` says how these losses add up, and
  that they do not when each packet takes longer at the given rate than it loses.
* Editing the cached packets step by step agrees with editing from the file only up to a
  limit. `UniqueIp.AgreeLimit` is that limit, `UniqueIp.PassesAgree` and
  `CachedEdits.BytesAgree` are if-and-only-ifs, and `UniqueIp.PassesPart` is a pair for which
  they part in the third pass.
* The size that `string_size` computes is enough if and only if the splice has at least two
  bytes or no newline is followed by another newline or the end (`Quoting.SizeFits`);
  `Quoting.SizeTooSmall` is a text for which it is not.
* Outside keep mode the end of an XML value is trimmed from the end of the whole text when the
  value is empty; `XmlText.SavedLength` says exactly when the length found is right, and
  `XmlText.LengthWrong` gives two strings for which it is not.
* The name of a set member is copied into a buffer of 128 bytes without a look at its length
  (`libopts/enum.c:468-472`). A saved set is read back if and only if the names of its members
  have at most 127 bytes (`SetMembers.SaveLoad`); `SetMembers.LongName` is a set that is not.

## Model

| member | source | states |
|---|---|---|
| `RedBlackShape.RotateHolds` | lib/tree.h:335-371 | the pointer writes of a rotation, in either direction, turn a linked and ordered tree into the rotated one, with the same nodes in the same order |
| `RedBlackShape.InsertRecolored` | lib/tree.h:399-404 | recolouring parent, uncle and grandparent moves the red-red conflict two levels up and keeps black heights |
| `RedBlackShape.InsertStraightened` | lib/tree.h:405-410 | the inner rotation makes the conflict an outer one and keeps black heights |
| `RedBlackShape.InsertRotated` | lib/tree.h:411-412 | swapping the colours and rotating at the grandparent ends the conflict and keeps black heights |
| `RedBlackShape.InsertDone` | lib/tree.h:430-431 | once no conflict is left, blackening the root gives a red-black tree |
| `RedBlackShape.GraftHolds` | lib/tree.h:603-611 | linking a new leaf where the search ended gives an ordered tree with exactly one node more |
| `RedBlackShape.SiblingPresent` | lib/tree.h:440-450 | while a black node is missing on one side the sibling on the other is never null, and a red sibling has two black children, so the guards for a missing sibling never run |
| `RedBlackShape.SiblingRaised` | lib/tree.h:444-448 | with a red sibling, recolouring and rotating gives a black sibling and keeps the deficit where it is |
| `RedBlackShape.SiblingReddened` | lib/tree.h:451-457 | reddening a sibling with black children moves the deficit one level up |
| `RedBlackShape.SiblingStraightened` | lib/tree.h:459-467 | with a red inner nephew, recolouring and rotating gives an outer one |
| `RedBlackShape.SiblingRisen` | lib/tree.h:468-474 | with a red outer nephew, the last rotation removes the deficit |
| `RedBlackShape.RemoveDone` | lib/tree.h:513-515 | the deficit at the root or at a red node ends by blackening it |
| `RedBlackShape.SpliceHolds` | lib/tree.h:567-578 | cutting out a node with at most one child gives the ordered tree without just that node |
| `RedBlackShape.ReplaceHolds` | lib/tree.h:547-558 | a node put into the place of another takes over its links, its colour and its position in the order |
| `RedBlackShape.SuccessorOrdered` | lib/tree.h:527-531 | the leftmost node of the right part may take the place of the removed node without breaking the order |
| `RedBlackShape.OrderedAscending` | lib/tree.h:46-47 | the in-order sequence of an ordered tree is strictly ascending |
| `RedBlackShape.BlackHeightBounds` | lib/tree.h:46-54 | the height is at most twice the black height, plus one below a red root, and there are at least 2^bh - 1 nodes |
| `RedBlackShape.HeightBound` | lib/tree.h:53-54 | 2^height is at most (n+1)^2, which is height <= 2 lg (n+1) |
| `RedBlackTree.RbTree.Rotate` | lib/tree.h:335-371 | the rotation on the heap, in either direction and at any place of the tree |
| `RedBlackTree.RbTree.InsertTurn` | lib/tree.h:392-430 | one turn of the insert fix-up keeps the pending invariant, nodes and order, and comes nearer to the end; the grandparent it needs exists |
| `RedBlackTree.RbTree.InsertColor` | lib/tree.h:388-432 | the fix-up loop ends, restores all red-black conditions and links, and takes exactly the turns that the colours on the way up determine |
| `RedBlackTree.RbTree.Insert` | lib/tree.h:585-614 | a new key adds exactly the given node; an existing key gives its node back and changes nothing; the tree stays valid; the comparisons and the turns of the fix-up are those of the tree and the key |
| `RedBlackTree.RbTree.RemoveTurn` | lib/tree.h:438-513 | one turn of the remove fix-up keeps the deficit invariant, nodes and order, and comes nearer to the end |
| `RedBlackTree.RbTree.RemoveColor` | lib/tree.h:434-516 | the fix-up loop ends, restores all red-black conditions and links, and takes exactly the turns that the colours on the way up determine |
| `RedBlackTree.RbTree.TakeOut` | lib/tree.h:518-578 | the node is unlinked, its successor having taken its place if it had two children; what remains is ordered and lacks at most one black level at a known place |
| `RedBlackTree.RbTree.Remove` | lib/tree.h:518-583 | exactly the given node is removed and the tree stays valid; the turns of the walk to the successor and of the fix-up are those of the tree and the key |
| `RedBlackTree.RbTree.Find` | lib/tree.h:616-632 | a node with the key if and only if there is one; the loop compares the key with as many nodes as lie on its search path, which are at most as many as the tree is high |
| `RedBlackTree.RbTree.Shallow` | lib/tree.h:53-54 | every valid tree with n nodes has 2^height <= (n+1)^2 |
| `RedBlackTree.RbTree.FindCost` | lib/tree.h:53-54 | a search for any key in a valid tree of n nodes makes at most 2 lg (n+1) comparisons |
| `RedBlackTree.RbTree.OperationCost` | lib/tree.h:53-54 | in every valid tree the loops of insertion, removal and walking have at most twice the height turns, and 2^height <= (n+1)^2 |
| `RedBlackCost.StepsBound` | lib/tree.h:388-516 | the turns of all loops are bounded by the height, for every tree and key |
| `RedBlackCost.InsertTurnsBound` | lib/tree.h:388-432 | the insertion fix-up has at most half as many turns as there are levels above the new node |
| `RedBlackCost.RemoveStepsBound` | lib/tree.h:434-583 | the walk to the successor and the removal fix-up together have at most twice as many turns as there are levels |
| `RedBlackCost.PlaceFound` | lib/tree.h:616-632 | in an ordered tree the search for a node's key ends at that node |
| `RedBlackTree.RbTree.Next` | lib/tree.h:634-653 | the node that follows in the order, or null behind the last, and the turns of its loops |
| `RedBlackTree.RbTree.MinMax` | lib/tree.h:655-668 | the first or the last node of the order, null for an empty tree, in as many turns as there are nodes on that edge |
| `RedBlackTree.RbTree.ForEach` | lib/tree.h:680-683 | the walk visits every node exactly once, in ascending order |
| `RedBlackTree.Run` | lib/tree.h:673-678 | over any sequence of inserts, removes and finds the tree answers as a plain finite set does and holds the same keys |
| `RedBlackTree.KeysDiffer` | lib/tree.h:46-47 | different nodes of an ordered tree have different keys |
| `SplayShape.RotateStep` | lib/tree.h:81-91 | a rotation at the root in the middle of a splay keeps the three parts linked and apart |
| `SplayShape.LinkStep` | lib/tree.h:93-103 | hanging the root on the left or right part keeps the three parts linked and apart |
| `SplayShape.AssembledOrder` | lib/tree.h:105-110 | putting the three parts together gives the order of the whole |
| `SplayShape.LinkOrder` | lib/tree.h:93-103 | hanging the root on a part does not change the order of the whole |
| `SplayShape.AssembledCut` | lib/tree.h:105-110 | if the parts are on the right sides of the key, the result is cut at the key |
| `SplayShape.OrderedAscending` | lib/tree.h:211-233 | a tree is ordered if and only if its in-order sequence is strictly ascending |
| `SplayTrees.SplayTree.Splay` | lib/tree.h:202-235 | the order is kept; all left of the root is below the key and all right of it above, and the root has the key if it is there; the keys of the new tree and the turns of the loop are exactly those of the recursive form |
| `SplayTrees.SplayTree.SplayEnd` | lib/tree.h:237-271 | the order is kept and the first or last element becomes the root |
| `SplayTrees.SplayTree.Find` | lib/tree.h:120-130 | an element with the key if and only if there is one, then at the root; order and elements are kept; shape and turns are exactly those of the recursive form |
| `SplayTrees.SplayTree.FindAll` | lib/tree.h:44 | any m searches in a heap tree keep order and elements, and take exactly the total turns of the recursive form, which obey the bound for m accesses |
| `SplayKeys.TurnBecomes` | lib/tree.h:208-233 | a turn of the loop on its three parts is a step of the recursive form: the parts become the same tree in one turn less |
| `SplayKeys.TurnSorted` | lib/tree.h:211-233 | after a turn the side trees are still on their sides of the key and less is left, or the root is cut at the key |
| `SplayKeys.KeysAssembled` | lib/tree.h:105-110 | the keys of the assembled tree are those of its three parts put together |
| `SplayCost.Amortised` | lib/tree.h:202-235 | the turns of a splay are paid by the drop of the potential and a charge by the size of the tree, for every tree and key |
| `SplayCost.SplayBound` | lib/tree.h:44 | 2^turns times the potential afterwards is at most 4 n^3 times the potential before |
| `SplayCost.InsertFee` | lib/tree.h:157-179 | an insertion into any tree is paid by the fee of one operation and adds at most one element |
| `SplayCost.UprootJoined` | lib/tree.h:181-200 | taking out the root and joining the splayed left part with the right one is paid by one more charge |
| `SplayCost.RemoveFee` | lib/tree.h:181-200 | a removal from any tree, with both of its splays, is paid by the fee of one operation |
| `SplayCost.OpFee` | lib/tree.h:120-200 | every call on any tree is paid by the fee of one operation |
| `SplayCost.AccessBound` | lib/tree.h:44 | and at most (4 n^3)^m times over any m accesses |
| `SplayCost.Balance` | lib/tree.h:44 | m accesses to a tree of n elements, of any shape and for any keys, take k turns in all with 2^k <= (4 n^3)^m n^n, an amortised O(lg n) for each |
| `SplayCost.RunPaid` | lib/tree.h:42-43 | a run of calls on a tree that stays below n elements is paid by a fee for each call |
| `SplayCost.RunBalance` | lib/tree.h:42-43 | the Balance Theorem: m inserts, removes and finds on an initially empty tree, n of them inserts, take k turns in all with 2^k <= (16 (n+1)^6)^m, which is k <= m (4 + 6 lg (n+1)) |
| `SplayTrees.SplayTree.Insert` | lib/tree.h:157-179 | a new key adds exactly the element, as the root; an existing one is given back and nothing is added; shape and turns are exactly those of the recursive form |
| `SplayTrees.SplayTree.Remove` | lib/tree.h:181-200 | exactly the element with the key goes, and the answer tells whether it was there; shape and the turns of both splays are exactly those of the recursive form |
| `SplayTrees.SplayTree.Next` | lib/tree.h:132-144 | the element that follows in the order, or null |
| `SplayTrees.SplayTree.MinMax` | lib/tree.h:146-151 | the first or the last element of the order |
| `SplayTrees.Run` | lib/tree.h:276-279 | over any sequence of inserts, removes and finds the tree answers as a plain finite set does and holds the same keys, and its shape and the turns of all its splays are exactly those of the run on the tree of keys |
| `SplayTrees.Balanced` | lib/tree.h:42-43 | the Balance Theorem on the heap: a run on a new tree answers as a plain finite set does, takes exactly the turns of the run on keys, and these obey the bound |
| `Bridge.CompareIsOrder` | src/bridge.c:47-51 | comparing addresses byte by byte is comparing them as numbers, and equal only for equal addresses, at any length |
| `Bridge.SourceIsSource` | src/bridge.c:262-276 | the address a frame is looked up by is the source field of a frame put together from its fields |
| `Bridge.SourceOfShort` | src/bridge.c:262-276 | of a frame that ends inside the source field, the bytes it has and zeros |
| `Bridge.SideKept` | src/bridge.c:278-297 | the recorded side of an address never changes in a run |
| `Bridge.TableMeaning` | src/bridge.c:262-297 | the table holds exactly the foreign addresses seen, each with the side of its first frame |
| `Bridge.ForwardedWhen` | src/bridge.c:262-363 | a frame is forwarded if and only if it may pass, its source is foreign and it came by the side on which the source was first seen; it leaves by the opposite interface |
| `Bridge.OneWay` | src/bridge.c:278-356 | all forwarded frames of one source address leave by the same interface |
| `Bridge.NoEcho` | src/bridge.c:289-297 | a forwarded frame that comes back with its source unchanged is never forwarded again |
| `Bridge.FrameForwarded` | src/bridge.c:262-363 | on frames put together from destination, source and payload: a frame leaves if and only if it may pass, its source is foreign and the first frame with that source came by the same side; then it leaves by the other interface |
| `Bridge.FramesOneWay` | src/bridge.c:278-356 | all frames with one source field that leave do so by one interface, and not by the one they came by |
| `Bridge.FramesNoEcho` | src/bridge.c:289-297 | a frame that comes in by the interface by which another with its source field left is not forwarded |
| `Bridge.LiveBridge.LiveCallback` | src/bridge.c:224-366 | one frame on the heap tree learns and forwards as the table semantics says; packets and bytes sent are counted; a send that fails ends the program before it is counted |
| `Bridge.LiveBridge.LearnSource` | src/bridge.c:280-287 | an unknown source becomes one new tree node, and the tree still mirrors the table |
| `Bridge.LiveBridge.Loop` | src/bridge.c:224-366 | over any sequence of frames, up to one that cannot be sent, the outcomes are those of the run semantics, and the counters are the number and the total length of the frames sent |
| `Bridge.Bridging` | src/bridge.c:224-366 | the same for a bridge from its start on |
| `Scheduler.DueTimeBound` | src/send_packets.c:1186-1198 | the computed due time, in 64 bits and with either product, is early by less than the slack |
| `Scheduler.DueTimeEarly` | src/send_packets.c:1186-1198 | and it is never late, wrapped or not |
| `Scheduler.NapPrompt` | src/send_packets.c:1160-1257 | nobody waits needlessly: units that are due are not waited for, and others not beyond the time at which they are due |
| `Scheduler.SkipBound` | src/send_packets.c:1202-1205 | the bytes that may follow unseen are worth no more time than was lost, and one byte more would be |
| `Scheduler.WithinSkip` | src/send_packets.c:1202-1205 | the bytes that may follow without a clock reading are within the rate, even when the skip product wraps |
| `Scheduler.SkipMost` | src/send_packets.c:1202-1205 | with one byte more than the skip allowance the packets would be ahead of the rate, unless the product wraps |
| `Scheduler.LateMore` | src/send_packets.c:1160-1257 | the delays of two packets add up at worst |
| `Scheduler.LateSame` | src/send_packets.c:1160-1257 | a delay no longer than the time a packet takes at the given rate is made up for by it |
| `Scheduler.MbpsReady` | src/send_packets.c:1160-1208 | after the nap the packet and its skip allowance are within the rate |
| `Scheduler.PacketReady` | src/send_packets.c:1213-1257 | after the nap the packet and its skip allowance are at most pps_multi + 1 packets ahead |
| `Scheduler.Replay.CalcMbps` | src/send_packets.c:1160-1208 | the nap is that of `NapFor` and the skip allowance that of `SkipFor`, which `NapPrompt`, `MbpsReady` and `SkipMost` bound from both sides |
| `Scheduler.Replay.CalcPackets` | src/send_packets.c:1213-1257 | the nap is that of `NapFor`, and a packet that need not wait is followed by one packet more of its burst |
| `Scheduler.Replay.CalcSleepTime` | src/send_packets.c:1116-1287 | the first packet never waits; later ones wait as the mode says, and exactly so many bytes or packets may follow unseen |
| `Scheduler.Replay.Sleep` | src/send_packets.c:1289-1302 | no nap leaves everything as it is; a nap lasts at least as long as asked |
| `Scheduler.Replay.LookAtClock` | src/send_packets.c:517-576 | a packet for which the clock is read is within the rate when it is sent, and is sent at once when it is due; else it leaves no later than its due time and what was lost since the last packet |
| `Scheduler.Replay.AwaitTurn` | src/send_packets.c:513-576 | the same with or without a clock reading: which of the two it is, and what remains of the allowance |
| `Scheduler.Replay.SendOne` | src/send_packets.c:438-651 | one turn of the loop keeps the rate, counts what was sent, and brings the send time forward by no more than the packet lost, or not at all if its own time makes up for that |
| `Scheduler.Replay.Settle` | src/send_packets.c:578-651 | sending a packet that is ready keeps both bounds of the rate and counts it; one that fails leaves them |
| `Scheduler.Replay.SendPackets` | src/send_packets.c:438-678 | over any packets, any clock and any send results the rate is never exceeded, the counters are exact, and the last packet left no later than it was due plus the time lost on the way; if every packet takes at least as long as any loses, that delay does not grow |
| `Scheduler.Replay.BeginPass` | src/send_packets.c:383-436 | a new pass keeps the rate and takes no allowance over |
| `Scheduler.Replay.EndPass` | src/send_packets.c:688-691 | the end of a pass keeps the rate from above, and from below up to the time that passed |
| `Scheduler.Replay.RateLimit` | src/send_packets.c:1160-1257 | spelled out for 128-bit products: after the first packet, bits sent times 10^9 are below bps times (elapsed + 1); packets times 3.6e12 are below pph times (elapsed + 1) plus (pps_multi + 1) times 3.6e12 |
| `Scheduler.Replay.RateReached` | src/send_packets.c:1160-1257 | spelled out: bps times elapsed is at most bits sent times 10^9 plus bps times the delay, and likewise for packets |
| `Scheduler.ReplayOnce` | src/send_packets.c:438-678 | from a new replay on, with every packet sent in full: both bounds, the delay being at most the sum of what the packets lost, or the largest such loss when each packet takes at least that long |
| `UniqueIp.EditMoved` | src/send_packets.c:174-245 | both branches, cached or not, with all four wrap compensations, equal a form without modular arithmetic in which neither, one or both of the addresses wrap |
| `UniqueIp.FreshMoves` | src/send_packets.c:174-245 | without the cache the larger address rises and the smaller falls by the iteration, of equal ones the destination falls, and an address that alone leaves the 32 bits gets one more or one less |
| `UniqueIp.SumKept` | src/send_packets.c:174-245 | the sum of the addresses modulo 65535 is unchanged by every edit |
| `UniqueIp.CachedSumKept` | src/send_packets.c:365-376 | and by any number of passes |
| `UniqueIp.FreshDistinct` | src/send_packets.c:175-245 | uncached edits by iterations that differ modulo 2^32 give different pairs |
| `UniqueIp.PassesAgree` | src/send_packets.c:174-245 | in-place editing and editing from the file agree in all passes up to n if and only if n is within the limit |
| `UniqueIp.PassesPart` | src/send_packets.c:174-245 | addresses 5 and 9 agree in the second pass and differ in the third |
| `UniqueIp.CarryValue` | src/tcpedit/checksum.h:25 | folding the carries in twice and complementing, as in section 1 of RFC 1071, gives 65535 minus the sum modulo 65535, where a non-zero multiple gives 0 and only a zero sum gives 65535 |
| `UniqueIp.Verifies` | src/tcpedit/checksum.c:183-203 | data that holds its own checksum verifies: the checksum over both is zero |
| `UniqueIp.WordSumPadded` | src/tcpedit/checksum.c:183-203 | an odd last byte counts as if a zero followed it |
| `UniqueIp.ChecksumSame` | src/send_packets.c:174-175 | any header or pseudo-header, of odd length too, with another non-zero word has the same checksum for two pairs with the same sum |
| `UniqueIp.ChecksumKept` | src/send_packets.c:496-502 | so it has after any number of passes |
| `UniqueIp.PacketChecksumKept` | src/send_packets.c:249-258 | the checksum over any part of the packet bytes that holds both addresses is unchanged by an edit |
| `UniqueIp.FastEditPacket` | src/send_packets.c:127-263 | both address fields are rewritten in place and no other byte; the error cases change nothing; `IpHeaders.EditV4` and `IpHeaders.EditV6` say which fields these are |
| `UniqueIp.Be32RoundTrip` | src/send_packets.c:153-166 | network byte order is inverted by reading it back |
| `IpHeaders.EditV4` | src/send_packets.c:127-263 | a packet put together from a layer 2 header, the fields of an IPv4 header and a payload becomes the one with just source and destination replaced by the edited pair |
| `IpHeaders.EditV6` | src/send_packets.c:127-263 | the same for IPv6, where the last four bytes of each address are replaced |
| `IpHeaders.EditOther` | src/send_packets.c:127-263 | a packet of another type, or too short for its IP header, is reported and left as it is |
| `IpHeaders.V4ChecksumsKept` | src/send_packets.c:174-245 | the header checksum, with any options, and the TCP or UDP checksum over the IPv4 pseudo-header of section 3.1 of RFC 793 are unchanged by every edit |
| `IpHeaders.V6ChecksumKept` | src/send_packets.c:174-245 | the checksum over the pseudo-header of section 8.1 of RFC 8200 is unchanged by every edit |
| `PacketCache.PacketSource.GetNextPacket` | src/send_packets.c:1000-1073 | from the file, from the file into the cache, or from the cache: the next packet of the pass, or none at its end |
| `PacketCache.PacketSource.NextCached` | src/send_packets.c:1017-1033 | the next packet of the file, out of the cache |
| `PacketCache.PacketSource.NextNode` | src/send_packets.c:1017-1033 | the cursor follows the list and is back at its start behind the end, whatever the buffers hold |
| `PacketCache.PacketSource.Append` | src/send_packets.c:1042-1062 | the new entry holds a copy of the packet in its own buffer, and the list stays acyclic |
| `PacketCache.PacketSource.NextStored` | src/send_packets.c:1034-1063 | the packet read is appended; the list stays acyclic and complete |
| `PacketCache.PacketSource.Preload` | src/send_packets.c:328-363 | afterwards the list holds exactly the file, in new entries with new buffers, and the cursor is at its start |
| `PacketCache.PacketSource.Pass` | src/send_packets.c:438-439 | a pass gives the packets of the file in order, cached or not |
| `PacketCache.PacketSource.Passes` | src/send_packets.c:1000-1073 | any number of passes over the cache give the file each time, and the list is unchanged |
| `PacketCache.Open` | src/send_packets.c:328-363 | a file is opened, or read into a new cache, and is at its first packet |
| `PacketCache.PreloadPasses` | src/send_packets.c:328-363 | a file that is preloaded and replayed any number of times is sent as it is each time |
| `PacketCache.LaterInTime` | src/common/timer.h:169-170 | for stamps with less than a million microseconds in their second part, later is later by the clock, and stamps of the same time are equal |
| `CachedEdits.CachedStep` | src/send_packets.c:496-502 | editing the bytes of pass n - 1 gives those of pass n: the packet with its pair replaced by that of n steps on address pairs |
| `CachedEdits.WithPairRead` | src/send_packets.c:249-258 | the pair put into a packet is the pair read from it, and the bytes around it and the length stay |
| `CachedEdits.BytesAgree` | src/send_packets.c:496-502 | the bytes sent from the cache are those sent from the file in all passes up to n if and only if n is within the limit |
| `CachedEdits.EditEntry` | src/send_packets.c:496-502 | editing one entry in place leaves all other entries of the list as they are |
| `CachedEdits.EditNext` | src/send_packets.c:438-502 | one packet of the cached list is edited in its buffer and the cursor goes on; it is sent unless the edit reports -1 |
| `CachedEdits.EditPass` | src/send_packets.c:438-502 | one pass over the list brings every packet from the previous pass to this one; those that can be edited, or whose layer 2 error is another one, are sent in order, and the others are counted as failed |
| `CachedEdits.EditPasses` | src/send_packets.c:438-502 | any number of editing passes over the preloaded list: pass k sends the file's packets with their pairs replaced by those of pass k |
| `CachedEdits.PreloadEdits` | src/send_packets.c:328-502 | the same from the file on: it is preloaded, and every pass edits the cache in place |
| `DualMerge.MergeComplete` | src/send_packets.c:778-792 | the merge holds every packet of both files exactly once, in its file's order and on its file's interface |
| `DualMerge.MergeOrdered` | src/send_packets.c:778-792 | if both files are ordered by time so is the merge, with ties to the first file |
| `DualMerge.MergeUnique` | src/send_packets.c:778-792 | there is only one such order |
| `DualMerge.MergeByTime` | src/send_packets.c:778-792 | the microseconds of the merge of two files in time order never go back, and at equal times the first file comes first |
| `DualMerge.ByTimeUnique` | src/send_packets.c:778-792 | whatever sends both files in that order is the merge |
| `DualMerge.MergeNext` | src/send_packets.c:778-779 | of any two files the second one is next if and only if the first is done or its packet has more microseconds |
| `DualMerge.DualReplay.SendFrom1` | src/send_packets.c:785-792 | the first file's packet is the next of the merge, and its successor is fetched |
| `DualMerge.DualReplay.SendFrom2` | src/send_packets.c:778-784 | the second file's packet is the next of the merge, and its successor is fetched |
| `DualMerge.DualReplay.SendAll` | src/send_packets.c:751-974 | without list, failures and limits the loop ends and has sent the whole merge; if both files are in time order, so is what was sent, in microseconds, with ties to the first file |
| `DualMerge.Replay` | src/send_packets.c:328-363 | the same from two files on, each preloaded or not: what went out by either interface is its file |
| `DualMerge.DualReplay.Run` | src/send_packets.c:751-974 | in every run, with a list, failures, limits and aborts, what is sent is a prefix of the merge, exactly as long as the successful turns taken; a lost interface, the end of the time and the limit over all passes end it in that very turn, nothing else does, and the limit is not passed |
| `DualMerge.SuccessesAdmitted` | src/send_packets.c:761-770 | a run sends at most as many packets as the list admits numbers, and just as many without failures |
| `DualMerge.NeverEnds` | src/send_packets.c:751-770 | if the list admits fewer numbers than there are packets, no number of turns sends all |
| `DualMerge.EndsWithin` | src/send_packets.c:751-770 | without failures, n turns send all packets if and only if the list admits as many of the first n numbers |
| `XdpBatch.FramesDisjoint` | src/send_packets.c:1435-1436 | packets whose numbers differ by less than the number of frames have disjoint frames |
| `XdpBatch.FrameInside` | src/send_packets.c:1435-1436 | every frame lies inside the umem |
| `XdpBatch.FrameWritten` | src/send_packets.c:1422-1440 | writing a packet leaves the last umem_frame_count packets intact |
| `XdpBatch.XdpSender.Fill` | src/send_packets.c:1409-1440 | the packet is in its frame and described; an oversized one is refused |
| `XdpBatch.XdpSender.FillRest` | src/send_packets.c:1452-1500 | reserved descriptors are the filled plus the cancelled ones, packetnum and the packet counter advance by the number filled, the byte counter is the total of what was filled, and a short batch ends the pass |
| `XdpBatch.XdpSender.Batch` | src/send_packets.c:584-606 | one turn fills between one and batch_size packets, in order, and counts them |
| `XdpBatch.XdpSender.Send` | src/send_packets.c:438-606 | the whole file is sent if and only if no packet is larger than a frame, with just as many descriptors, and the counters are its packets and bytes |
| `XdpBatch.XdpSender.Described` | src/send_packets.c:1435-1440 | the bytes that a descriptor points at are those of its packet, for the last umem_frame_count packets |
| `XdpBatch.SendFile` | src/send_packets.c:438-606 | the same from a file on, preloaded or not, and the last descriptors point at the bytes of the last packets of the file |
| `Quoting.StringSize` | libopts/putshell.c:43-86 | the loop computes the specified size |
| `Quoting.SizeExact` | libopts/putshell.c:43-181 | the output length is the computed size corrected by the newlines that meet another one or the end |
| `Quoting.SizeFits` | libopts/putshell.c:43-181 | the output and its terminator fit if and only if the stated condition on the splice and the newlines holds |
| `Quoting.SizeTooSmall` | libopts/putshell.c:43-181 | a lone newline with a splice of one byte does not fit |
| `Quoting.QuoteString` | libopts/putshell.c:105-181 | the buffer of exactly the computed size holds the quoted text and its terminator |
| `Quoting.QuotedNulFree` | libopts/putshell.c:105-181 | a quoted text holds no NUL before its terminator |
| `Quoting.QuoteNewlines` | libopts/putshell.c:134-153 | a run of newlines is escaped, the last one by the splice unless the text ends |
| `Cooking.CookEscape` | libopts/cook.c:58-131 | every escape gives the specified character and length; the next rows say what these are |
| `Cooking.HexTrip` | libopts/cook.c:83-99 | any byte written as two hexadecimal digits, large or small, is read back |
| `Cooking.HexShort` | libopts/cook.c:83-99 | and one digit with no other behind it is that digit |
| `Cooking.HexNone` | libopts/cook.c:83-99 | an x without a digit is an x |
| `Cooking.OctalDigits` | libopts/cook.c:100-125 | one, two or three octal digits, capped at 255 |
| `Cooking.LetterEscapes` | libopts/cook.c:75-81 | the seven letters |
| `Cooking.ProtectedEscape` | libopts/cook.c:127-130 | any other byte stands for itself |
| `Cooking.LineEscapes` | libopts/cook.c:63-73 | a line end, with a carriage return before it or not, is what the caller asks for; a carriage return alone stands for itself; nothing at all is malformed |
| `Cooking.ContiguousQuote` | libopts/cook.c:151-210 | white space and comments are skipped, lines counted, and the outcome is the specified one |
| `Cooking.FindCommentEnd` | libopts/cook.c:189-193 | the first end of a block comment is found, or its absence |
| `Cooking.CopyOne` | libopts/cook.c:266-309 | one character is cooked in place; the writer stays behind the reader and unread text is untouched |
| `Cooking.CloseQuote` | libopts/cook.c:257-261 | a closing quote ends the text or leads to the next string |
| `Cooking.StringCook` | libopts/cook.c:233-311 | the buffer holds the joined, unescaped text and its terminator, shorter than what was read; the rest is untouched; malformed text is refused exactly when the specification refuses it, which `Cooking.SeriesCook`, `Cooking.SeriesBroken` and `Cooking.SeriesUnclosed` spell out |
| `Cooking.CookLoop` | libopts/cook.c:249-310 | the loop over both branches keeps the specified result as what is written plus what is still to be read |
| `Cooking.OctalTrip` | libopts/cook.c:100-125 | the octal escape of any byte is read back as that byte |
| `Cooking.CookOne` | libopts/cook.c:266-309 | cooking the quoted form of a character gives the character, then the result of the rest |
| `Cooking.QuoteCook` | libopts/putshell.c:105-181 | quoting with the line splice and cooking gives the original text, for every text without NUL, with nothing left over |
| `Cooking.QuoteInPlace` | libopts/cook.c:233-311 | the round trip in one buffer: what is quoted into it and cooked in place is the original text and its terminator, for every text without NUL |
| `Cooking.CookBody` | libopts/cook.c:249-310 | cooking a quoted text gives the text and then whatever comes behind it |
| `Cooking.SeriesCook` | libopts/cook.c:249-261 | any number of strings in a row, each in single quotes, as it is quoted, or in any spelling of its bytes, with any white space, line comments and block comments in each gap and behind the last, are cooked to the concatenation of their texts; the rest begins where the gap behind them ends, and all lines are counted |
| `Cooking.SeriesBroken` | libopts/cook.c:170-196 | such strings are refused when a slash behind them begins no comment, a line comment has no line end or a block comment is open |
| `Cooking.SeriesUnclosed` | libopts/cook.c:266-269 | and when the last string is not closed, with a backslash at its end or without |
| `Cooking.SpelledCook` | libopts/cook.c:58-131 | a text is cooked to itself however its bytes are written: any of them in hexadecimal or octal, and those that need no escape as they are |
| `Cooking.SingleCook` | libopts/cook.c:299-308 | inside single quotes a text with its backslashes and quotes protected is read back |
| `Cooking.SinglePlain` | libopts/cook.c:299-308 | inside single quotes a backslash before any other character stays |
| `Cooking.SingleHidden` | libopts/cook.c:273-308 | a protected number sign is a number sign, and an escaped line end is dropped and counted |
| `Numbers.DecimalRead` | libopts/enum.c:593 | a number written in decimal is read as itself, saturated, and just its digits are used |
| `Numbers.OctalRead` | libopts/enum.c:593 | the same for octal digits behind a zero |
| `Numbers.HexNumberRead` | libopts/enum.c:593 | and for hexadecimal digits behind 0x or 0X |
| `SetMembers.FindKeyword` | libopts/enum.c:189-213 | a full match wins, then a unique partial match |
| `SetMembers.FindName` | libopts/enum.c:159-214 | a number, an inversion or a keyword gives the position it denotes, and anything else none and an error report |
| `SetMembers.PositionNumber` | libopts/enum.c:166-175 | a number in decimal is the position it says, and of no name beyond the last |
| `SetMembers.PositionLast` | libopts/enum.c:176-187 | ~0 and -1 are the last name |
| `SetMembers.KeywordMeaning` | libopts/enum.c:189-213 | among different names a text denotes one if and only if it is that name, or is no name and the beginning of that name alone |
| `SetMembers.SetOption.MemberNames` | libopts/enum.c:344-390 | the names of the set bits, joined, fit the buffer whose length was computed beforehand |
| `SetMembers.SetOption.NamesSize` | libopts/enum.c:354-363 | the computed length |
| `SetMembers.SetOption.FillNames` | libopts/enum.c:372-388 | the buffer is filled with exactly the joined names |
| `SetMembers.NamesOfMembers` | libopts/enum.c:344-390 | the list is the names of just the members, in order, with a plus sign between blanks after each but the last |
| `SetMembers.SetOption.Save` | libopts/save.c:750-761 | an equals sign and the names of the members |
| `SetMembers.SetOption.CheckMembershipStart` | libopts/enum.c:406-451 | where a list begins, what it starts from, whether it is inverted, or its refusal |
| `SetMembers.LeadStart` | libopts/enum.c:406-451 | of any white space, equals sign and caret before a list: a blank text, a comma and a second equals sign are refused, and all else says what the list starts from and whether it is inverted |
| `SetMembers.TokenMeaning` | libopts/enum.c:465-482 | a name stands for the one bit at its position |
| `SetMembers.UpdatedMeaning` | libopts/enum.c:582-603 | what one token does to every bit: all and none set them alike, another token adds the bits it stands for, or removes them behind an inversion sign |
| `SetMembers.NumberUpdates` | libopts/enum.c:588-598 | a number in decimal, octal or hexadecimal is a token of its own and stands for its bits |
| `SetMembers.MemberUpdates` | libopts/enum.c:574-603 | what a name, a number, all or none does to the word, with and without a sign |
| `SetMembers.CommasRefused` | libopts/enum.c:562-566 | a comma or a bar behind a comma refuses the list |
| `SetMembers.SetOption.SetMembers` | libopts/enum.c:547-620 | the option's word after any text, and zero for a refused one; an unknown name gives zero if the report returns, and leaves the word as it was if the report ends the program; a name beyond its buffer is an outcome of its own |
| `SetMembers.ParseJoin` | libopts/enum.c:557-606 | reading names of at most 127 bytes adds just their bits, whatever lower bits are there |
| `SetMembers.JoinOverruns` | libopts/enum.c:465-472 | a list with a longer name overruns the name buffer, wherever the name is |
| `SetMembers.LongName` | libopts/enum.c:465-472 | a member with a name of 128 letters is saved and not read back |
| `SetMembers.SaveLoad` | libopts/save.c:750-761 | a saved set is read back, with its members and no others and for every previous value, if and only if the names of its members have at most 127 bytes |
| `SetMembers.SetOption.SaveInto` | libopts/save.c:750-761 | what one option saves and another one sets is the same set, if and only if the names of its members have at most 127 bytes |
| `SetMembers.ItemsRead` | libopts/enum.c:557-606 | any list of signed names of at most 127 bytes, numbers, all and none, separated by white space or by commas, in any order and with repetitions, is read as a whole |
| `SetMembers.ListMeaning` | libopts/enum.c:550-614 | which members any such list leaves in the set: from the old set or from nothing, each item adding or removing its members in turn, complemented by a caret, and none beyond the known ones |
| `SetMembers.FinishedMeaning` | libopts/enum.c:608-612 | complementing and masking, bit by bit |
| `XmlText.EmitSpecialChar` | libopts/nested.c:879-896 | the entity of a special character |
| `XmlText.PrintString` | libopts/save.c:363-395 | the escaped text between its tags |
| `XmlText.GetSpecialChar` | libopts/nested.c:827-874 | the character an entity denotes and the length used, or a plain ampersand |
| `XmlText.EntityNames` | libopts/nested.c:40-46 | the five named entities and the characters they denote, if the value holds all of them, and a plain ampersand if not |
| `XmlText.DecimalEntity` | libopts/nested.c:827-854 | a number sign, any number in decimal and a semicolon denote the low byte of the number, if the value holds all of them |
| `XmlText.HexadecimalEntity` | libopts/nested.c:835-854 | the same in hexadecimal behind an x |
| `XmlText.CopyValue` | libopts/nested.c:155-166 | the copy loop stores the denoted string within the value's length and reads just what it denotes |
| `XmlText.AddString` | libopts/nested.c:139-179 | the block holds the string and, behind it, the name; without a value just the name; it becomes the last entry of the argument list |
| `XmlText.ArgList.Add` | libopts/stack.c:179-220 | the entry comes behind those that are there, whether the list is new, has room or has to grow |
| `XmlText.PrintAndAdd` | libopts/save.c:363-395 | the round trip through text: a string printed between its tags is found, read back unchanged and stored under its name |
| `XmlText.EscapeTrip` | libopts/nested.c:827-896 | the entity written for a character denotes that character |
| `XmlText.Unescape` | libopts/nested.c:155-166 | reading the escaped form of any string gives the string and uses exactly the escaped form |
| `XmlText.FindEndXml` | libopts/nested.c:473-497 | the first closing tag, the length of the value before it and where the scan goes on |
| `XmlText.TagFound` | libopts/nested.c:485-494 | the first closing tag behind an escaped string is the real one |
| `XmlText.SavedValue` | libopts/nested.c:473-497 | in keep mode a saved value is found and read back unchanged |
| `XmlText.SavedLength` | libopts/ag-char-map.h:505-514 | the length found is that of the saved value if and only if the mode keeps white space, or the string is not empty and does not end in a blank |
| `XmlText.SavedRest` | libopts/nested.c:473-497 | the scan goes on behind the closing tag of a saved value and the white space that follows it, in every mode |
| `XmlText.LengthWrong` | libopts/ag-char-map.h:505-514 | outside keep mode a string that ends in a blank is found too short and an empty one too long |

## Left out

- libpcap, sockets, netmap, the XDP kernel calls, `sendpacket`, `tcpedit_packet`, `flow_decode` and layer-2 parsing are foreign code; what they report is a parameter.
- `select_sleep`, `ioport_sleep` and `--loss` depend on the platform or on random numbers.
- `unique_loops` values other than 1.0: the cached and uncached paths are not comparable step by step there.
- SPLAY_FOREACH: `SplayTrees.SplayTree.Next` and `SplayTrees.SplayTree.MinMax` are the two operations it is made of.
- RB_AUGMENT is empty in this repository and has no counterpart.
- Node memory is never freed: freeing is the caller's business in `lib/tree.h`.
- Scheduler.Replay.CalcSleepTime: does not model the speed multiplier, which is floating point, nor the one-at-a-time mode, which waits for a key; at top speed there is no rate to keep.
- Scheduler.Replay.Sleep: does not model `maxsleep`, an abort during the sleep or the AF_XDP path, under which a nap is not slept in full and the rate is not promised.
- XdpBatch.XdpSender.Fill: takes the captured bytes as the packet; the source uses the length on the wire, which is larger for a packet cut short by the capture.
- XdpBatch.XdpSender.FillRest: counts the captured bytes as those of the packet, as `XdpBatch.XdpSender.Fill` does.
- XdpBatch.XdpSender.Send: does not model packets whose captured length differs from their length on the wire, the include and exclude list, the wrap of ring slots, or a ring that makes no progress.
- SetMembers.FindName: the text of the error report is not modelled, nor whether the usage procedure it calls returns; that is a parameter of `SetMembers.SetOption.SetMembers`.
- SetMembers.SetOption.SetMembers: promises nothing of the option after a name beyond the buffer. For a name of one character that is an inversion sign the source looks at a byte it has not set; the model takes it as not NUL.
- SetMembers.SaveLoad: the saved text is taken as a whole value; the option file line around it is not modelled.
- Quoting.QuoteString: requires the condition of `Quoting.SizeFits`, without which the source writes past its buffer before it notices.
- DualMerge.DualReplay.Run: models any finite number of turns; a run in which failures never stop is all its finite beginnings.
- CachedEdits.EditPass: the layer 2 report of a packet is a parameter that is the same in every pass; the edits change no byte before the addresses.
- Attributes, numbers, booleans and nested values of the XML form, and the load modes except for the end of a value.
- `lib/queue.h`, `lib/strlcpy.c`, `lib/strlcat.c`, `libopts/parse-duration.c`, `src/tcpprep.c`, `src/replay.c`, `src/tcpcapinfo.c` and `src/tcpbridge.c`, and in libopts the usage, version, pager, shell-script, config-file search and environment code.
