# Verification of openiked-portable

A Dafny model of the parts of this IKEv2 daemon whose correctness needs proof, and
proofs of what they promise:

- the ordered indexes of compat/tree.h: the red-black tree behind every index of SAs,
  flows, Child SAs and addresses, and the splay tree, on pointers, against in-order
  sequences (`RedBlackShape`, `RedBlackTree`, `SplayShape`, `SplayTree`);
- the exchange of two blocks of an array by cycles in compat/getopt_long.c (`Permute`);
- the imsg transport between processes: buffers, partial writes, reads of any size and
  framing, as a system of steps (`MsgStream`, `ImsgBuffer`, `Imsg`);
- encrypted messages and fragments (`SecureMessage`, `SecureSend`, `Fragments`,
  `FragmentStore`, `FragmentSend`); section 3.14 of RFC 7296, sections 2.5 and 2.6 of
  RFC 7383;
- the window of message IDs and the cache of responses (`MessageWindow`); sections 2.1
  and 2.2 of RFC 7296;
- the resolution of simultaneous rekeying (`Rekey`); sections 2.8.1 and 2.8.2 of RFC 7296;
- the SA payload, written and read (`SaPayload`, `SaWriter`, `SaReader`), and the walks
  over payloads, selectors and configuration attributes (`PayloadWalk`); sections 3.2,
  3.3, 3.13 and 3.15 of RFC 7296;
- key expansion and the keys of Child SAs (`KeyExpansion`, `KeyMaterial`); sections 2.13
  and 2.17 of RFC 7296;
- the internal address pool (`AddressPool`); section 2.19 of RFC 7296;
- the bookkeeping of the random stream and its unbiased reduction (`Arc4random`).

`Ordering`, `Bytes`, `Options`, `Slices`, `Arith` and `Ikev2` hold what several modules share.
`dafny verify dfyconfig.toml` checks the project.

Code that changes state step by step is modelled by classes and methods, each proved
against a function or a property of values; code that computes is modelled by functions.
Left and right twin branches of compat/tree.h are one branch with a `Side`.  Nodes of the
trees have a ghost shape; `Valid` ties it to the pointers.

What comes from outside is a parameter: bytes taken by the kernel, random bytes, the
functions of the cipher, the checksum and the prf, SPIs from the kernel, tables of key
lengths, the old SA of a peer.  Ciphers and checksums are any functions for which
decryption inverts encryption, lengths of whole blocks are kept, and the checksum has its
length; for `DecryptsOnly` also encryption inverts decryption.  Memory allocation
succeeds.  The memory of the host is little-endian where imsg headers are copied.

Properties that hold only under a condition are stated with the exact one: simultaneous
rekeying is resolved alike if and only if the smallest nonces differ (`IkeRekeyAgrees`,
`ChildRekeyOneDeletes`, with a tie in `TieDisagrees`); prf+ yields T1 | T2 | ... for every
prf if and only if the blocks fit a message buffer and the seed fits behind a block
(`YieldExact`; iked drops what does not fit, `SeedDropped`); both sides report the making
of Child SAs alike if and only if the keys fit the blocks of a buffer (`Negotiate`; short
of keys, as in `ShortOfKeys`, the responder reports success); a reply sent late goes under
the ID of the accepted request if and only if no other was handled since (`LateReply`); a
fragmented message is handed up if and only if it is not empty, fits a buffer, has at most
111 fragments, and these come in one stretch without an SK payload (`GetsThrough`; at the
empty message `EmptyFails`); what the SA payload reader makes of repetitions and of
transform counts divisible by 256 is stated for all payloads (`WrittenRead`); a written
queue is empty if and only if it does not end in an empty buffer (`DrainedEmpty`).  The
size of fragments is chosen for packets of 576 and 1280 bytes, but leaves out two headers:
the packet of a full piece keeps to that if and only if the cipher has large enough blocks
and little padding (`PacketLimit`), which AES-GCM has not (`GcmExceeds`).

## Model

| member | source | states |
|---|---|---|
| `RedBlackTree.Head.Insert` | compat/tree.h:589-618 | an element equal to one in the tree is returned and nothing changes, contents and links included; otherwise the new element is the one difference between the new contents and the old, and all invariants hold: search order, colours, equal black heights, black root, parent links |
| `RedBlackTree.Head.Remove` | compat/tree.h:522-587 | for any member of a valid tree: the contents lose exactly that element, wherever it is, and all invariants hold again |
| `RedBlackTree.Head.InsertColor` | compat/tree.h:402-444 | from a tree that is red-black but for a red node under a red parent to a red-black tree with the same in-order sequence |
| `RedBlackTree.Head.InsertStep` | compat/tree.h:406-442 | one round of the fix-up keeps the sequence and moves the fault up or removes it; a red parent always has a grandparent, which is read without a null check |
| `RedBlackTree.Head.RemoveColor` | compat/tree.h:446-520 | from a tree that lacks one black node below a given place to a red-black tree with the same in-order sequence |
| `RedBlackTree.Head.RemoveStep` | compat/tree.h:450-517 | one round keeps the sequence and either ends with a red-black tree, reaches a red node, or moves the lack up |
| `RedBlackTree.Head.BlackSibling` | compat/tree.h:459-483 | the cases of a black sibling: the lack moves up, or one or two rotations end the fix-up |
| `RedBlackShape.ShortSibling` | compat/tree.h:452-486 | at a place that lacks a black node the sibling that the code dereferences is never missing; a red one has an inner child |
| `RedBlackShape.PushUpBalanced` | compat/tree.h:411-416 | recolouring under a red uncle moves the fault up two levels and keeps black heights and order |
| `RedBlackShape.TurnBalanced` | compat/tree.h:423-424 | the last rotation of insertion restores the invariants and keeps the order |
| `RedBlackShape.AlignBalanced` | compat/tree.h:417-422 | the inner rotation of insertion turns the inner case into the outer one |
| `RedBlackShape.LiftSiblingShort` | compat/tree.h:454-458 | a red sibling is rotated away; the lack stays at the same place and the new sibling is black |
| `RedBlackShape.PaintSiblingShort` | compat/tree.h:459-465 | painting a sibling with black children red moves the lack to the parent |
| `RedBlackShape.TurnNephewShort` | compat/tree.h:467-475 | an inner red nephew becomes an outer one |
| `RedBlackShape.TurnSiblingBalanced` | compat/tree.h:476-482 | an outer red nephew ends the fix-up with a red-black tree of the same order |
| `RedBlackShape.ShortDone` | compat/tree.h:518-519 | painting a red node, or the root, black repairs the lack |
| `RedBlackShape.SpliceShort` | compat/tree.h:571-585 | taking out a node with at most one child leaves a red-black tree if it was red, and a lack of one black node at its place if it was black |
| `RedBlackShape.SuccessorShort` | compat/tree.h:531-585 | the same for a node with two children, which its successor replaces |
| `RedBlackShape.SuccessorInOrder` | compat/tree.h:531-570 | replacing a node by its successor takes exactly that node out of the sequence |
| `RedBlackTree.Head.Rotate` | compat/tree.h:337-375 | the links after a rotation, parent links included, are those of the rotated tree |
| `RedBlackTree.Head.RotateLinks` | compat/tree.h:337-375 | exactly which fields of which nodes a rotation writes, and the root |
| `RedBlackTree.Head.RemoveInner` | compat/tree.h:531-585 | removal of a node with two children, on pointers |
| `RedBlackTree.Head.RemoveOuter` | compat/tree.h:527-585 | removal of a node with at most one child, on pointers |
| `RedBlackTree.Head.Successor` | compat/tree.h:533-535 | the loop finds the leftmost node of the right subtree |
| `RedBlackTree.Head.Find` | compat/tree.h:620-636 | an equal element, and null only if no element is equal |
| `RedBlackTree.Head.NextFind` | compat/tree.h:638-657 | the least element not below the key, and null only if there is none |
| `RedBlackTree.Head.Min` | compat/tree.h:701-714 | the first element in order |
| `RedBlackTree.Head.Next` | compat/tree.h:659-678 | the element after the given one in order, or null after the last |
| `RedBlackTree.Head.Foreach` | compat/tree.h:728-731 | visits exactly the in-order sequence |
| `RedBlackShape.HeightBound` | compat/tree.h:48-56 | a red-black tree of n nodes has height at most 2 lg(n + 1) |
| `SplayTree.Head.Splay` | compat/tree.h:204-237 | keeps the in-order sequence and brings an equal element to the root, or else an element next to the key: nothing lies between them |
| `SplayTree.Head.SplayLoop` | compat/tree.h:210-235 | the loop ends at the key or with no child on the side of the key; every element split off is on its side of the key |
| `SplayTree.Head.SplayRound` | compat/tree.h:214-234 | one round keeps the sequence of the three parts, and the tree that is searched shrinks |
| `SplayTree.Head.Insert` | compat/tree.h:159-181 | for any element, in the tree or not: one equal to an element of the tree gives that element and the contents stay; otherwise it is put in at its sorted place |
| `SplayTree.Head.Remove` | compat/tree.h:183-202 | the contents lose exactly one element, which is equal to the key; null and no change if there is none |
| `SplayTree.Head.Find` | compat/tree.h:122-132 | an equal element, and null only if no element is equal; the contents stay |
| `SplayTree.NoneRight` | compat/tree.h:194-198 | the second splay of a removal leaves a root without a right child, so the join overwrites no link |
| `SplayTree.EndNear` | compat/tree.h:213-236 | where the search ends, the key is at the root or would be next to it |
| `SplayTree.AssembleHolds` | compat/tree.h:107-112 | the four writes of the assembly make one tree of the root and the two spines, also when a spine is empty |
| `SplayTree.LinkHolds` | compat/tree.h:95-105 | linking the root to the end of a spine keeps all three parts |
| `SplayTree.RotateParts` | compat/tree.h:83-93 | a rotation keeps all three parts |
| `SplayShape.AssembleKeeps` | compat/tree.h:107-112 | the assembled tree has the elements of the three parts in the same order |
| `SplayShape.LinkKeeps` | compat/tree.h:95-105 | linking keeps the order of the three parts |
| `Permute.PermuteArgs` | compat/getopt_long.c:121-154 | the array becomes its prefix, the second block, the first block and its suffix, with the order inside each block kept, in place |
| `Permute.Gcd` | compat/getopt_long.c:106-119 | the result divides both numbers, is a combination of them, and is the greatest common divisor |
| `Permute.MoveCycle` | compat/getopt_long.c:143-153 | one round of swaps moves every element of one cycle to its place and touches no other |
| `Permute.TheCycle` | compat/getopt_long.c:143-149 | the places visited from a start are one cycle: it closes after n / gcd steps, repeats no place before, and is the residue class of its start |
| `Permute.PlacesDiffer` | compat/getopt_long.c:144-149 | no place is visited twice before n / gcd steps |
| `Permute.PlacesClose` | compat/getopt_long.c:144-149 | after n / gcd steps the walk is back at its start |
| `Permute.PlacesReach` | compat/getopt_long.c:144-149 | every place congruent to the start modulo the gcd is visited |
| `Permute.NextClass` | compat/getopt_long.c:142-143 | consecutive starts give disjoint cycles, which after gcd rounds cover the whole range |
| `Permute.MovedAll` | compat/getopt_long.c:142-154 | when all places are done the two blocks are exchanged |
| `MsgStream.Delivery` | compat/imsg-buffer.c:652-834 | for every run of composing, partial writes, reads of any size and gets: the frames received so far are a prefix of those composed, fewer than a header of bytes stay unprocessed, no step fails, and nothing is missing once all is read |
| `MsgStream.RunKeeps` | compat/imsg-buffer.c:652-834 | in every state of every run: received frames, partial frame, read buffer, bytes in flight and unsent queue together are exactly what was composed |
| `MsgStream.StepKeeps` | compat/imsg-buffer.c:652-834 | each step keeps that |
| `MsgStream.ProcessSettles` | compat/imsg-buffer.c:754-803 | processing keeps every byte and ends with an open message and nothing left, or with less than a header |
| `MsgStream.FramesPrefix` | compat/imsg-buffer.c:754-803 | frames at the start of a stream are the frames that were sent first, also when a refused header follows them |
| `MsgStream.ProcessNeverFails` | compat/imsg-buffer.c:754-803 | a stream of well-formed frames is never refused |
| `MsgStream.RefusedFails` | compat/imsg-buffer.c:754-803 | for any state of the reader and any cuts between reads: when frames are followed by a header that is refused, reading fails if and only if that whole header has arrived |
| `MsgStream.DrainDrops` | compat/imsg-buffer.c:940-956 | after a write of n bytes the queue holds what it held without its first n bytes |
| `MsgStream.DrainGoes` | compat/imsg-buffer.c:940-956 | exactly the buffers that are reached with bytes left and are covered by them go; the next one loses the bytes left, and the others stay |
| `MsgStream.DrainedEmpty` | compat/imsg-buffer.c:940-956 | a queue that is written in full is empty if and only if it does not end in an empty buffer |
| `Imsg.ImsgDelivery` | compat/imsg.c:111-132 | imsg_get yields exactly a prefix of the messages sent, with type, peer, pid and payload, in order, and all of them in the end |
| `Imsg.FrameDecodes` | compat/imsg.c:353-378 | a message is read back as it was composed; its header is accepted if and only if its size is within the limit |
| `Imsg.FrameFields` | compat/imsg.h:51-56 | type, length, peer and pid are at their places, and the length is that of the frame |
| `Imsg.Compose` | compat/imsg.c:188-204 | a message goes to the queue as one frame, or nothing if it is longer than the limit |
| `Imsg.Close` | compat/imsg.c:335-345 | the length is patched into the header, whatever was there before |
| `Imsg.ComposeBuffer` | compat/imsg.c:234-268 | the two buffers that are queued are together the frame of the message |
| `Imsg.GetMessage` | compat/imsg.c:111-132 | the first frame received, decoded, and its size, and it is gone from the reader, which is otherwise unchanged and valid; 0 and no change if there is none |
| `ImsgBuffer.Ibuf.Reserve` | compat/imsg-buffer.c:99-133 | room at the old write cursor with the old bytes kept; fails exactly when the limit is exceeded, or for no bytes in a buffer without memory; the memory moves only when it grows |
| `ImsgBuffer.Ibuf.Add` | compat/imsg-buffer.c:135-145 | the bytes are appended, or nothing changes: fails exactly when the limit is exceeded, or for no bytes in a buffer without memory |
| `ImsgBuffer.Ibuf.Set` | compat/imsg-buffer.c:242-265 | the bytes are overwritten in place, only inside the valid part; in a buffer without memory it fails even for no bytes |
| `ImsgBuffer.Ibuf.Get` | compat/imsg-buffer.c:408-419 | the first bytes, and the rest stays |
| `ImsgBuffer.Ibuf.Truncate` | compat/imsg-buffer.c:366-379 | shortens, or fills up with zeros |
| `ImsgBuffer.WriteQueue.Write` | compat/imsg-buffer.c:652-683 | what is sent and what stays queued are together what was queued |
| `ImsgBuffer.WriteQueue.DrainQueue` | compat/imsg-buffer.c:940-956 | the loop over the queue drops exactly the bytes written, in whole buffers and one partial one |
| `ImsgBuffer.ReadBuffer.ReadProcess` | compat/imsg-buffer.c:754-803 | the loop over the read buffer computes the processing of the stream, bytes moved to the front included |
| `ImsgBuffer.ReadBuffer.Read` | compat/imsg-buffer.c:805-834 | bytes from the stream are added and processed |
| `SecureMessage.OpenInverts` | iked/ikev2_msg.c:570-717 | for every message and fragment that fits the buffer, any block length up to 256 and AEAD or not: the lengths in both headers are those of the finished datagram, and the opposite role recovers exactly the payload, its type and its place |
| `SecureMessage.DecryptInverts` | iked/ikev2_msg.c:570-717 | decryption with the keys that the other role selects inverts encryption: the same checksum or additional data, the padding stripped |
| `SecureMessage.DatagramLayout` | iked/ikev2.c:1920-1976 | every datagram at its byte positions: both SPIs, version, exchange, the two flags, message ID, lengths, payload types, fragment number and total, IV; then the padded payload encrypted with the key of the role of the sender, and its tag over the headers or the checksum with the other key of that role over all before it |
| `SecureMessage.DecryptsOnly` | iked/ikev2_msg.c:570-717 | conversely, what decrypts is protected in this way with the keys of the opposite role: the checksum or the tag matches, and the payload and padding are those of the ciphertext, for any cipher that decrypts only what it would encrypt |
| `SecureMessage.OwnKeys` | iked/ikev2_msg.c:406-568 | what an initiator sends depends on SK_ei and SK_ai only, what a responder sends on SK_er and SK_ar |
| `SecureMessage.RoundupBounds` | iked/ikev2_msg.c:392-392 | the padded length is the next whole number of blocks |
| `SecureMessage.PrefixFields` | iked/ikev2.c:1920-1976 | the header fields of a message as the receiver reads them |
| `SecureMessage.LocateParts` | iked/ikev2_pld.c:145-215 | the encrypted data is cut where the headers say |
| `SecureSend.SendEncrypt` | iked/ikev2_msg.c:746-809 | the datagram of the payload, or a failure exactly when it does not fit the message buffer |
| `SecureSend.EncryptPrepare` | iked/ikev2_msg.c:374-404 | the headers get the lengths of the finished message before encryption; fails exactly when a payload length does not have 16 bits |
| `SecureSend.Encrypt` | iked/ikev2_msg.c:406-503 | IV, ciphertext of the padded payload, and room for the checksum, or a failure exactly when that does not fit |
| `SecureSend.Integr` | iked/ikev2_msg.c:505-568 | the checksum of all before it, or the tag, over the room left for it |
| `SecureSend.MsgDecrypt` | iked/ikev2_msg.c:570-717 | computes the decryption, error cases included |
| `FragmentSend.SendFragments` | iked/ikev2_msg.c:811-935 | one datagram for each piece of the payload, numbered from 1, with the announced total, and with the first payload type in the first one only; fails exactly when the overhead exceeds the fragment size, where the subtraction wraps and all is one piece, and this piece does not fit a buffer |
| `FragmentSend.PieceFits` | iked/ikev2_msg.c:839-845 | IV, ciphertext and checksum of a piece stay within the fragment limit, and the message within its buffer |
| `FragmentSend.FragmentWithinLimit` | iked/ikev2_msg.c:839-845 | the same for every piece of every payload |
| `FragmentSend.PacketLimit` | iked/ikev2.h:259-262 | the packet of a fragment exceeds 576 or 1280 bytes by at most 8; that of a full piece keeps to it if and only if its padding and 9 bytes more fit one block; a piece a block longer would exceed it further |
| `FragmentSend.GcmExceeds` | iked/ikev2_msg.c:839-845 | with AES-GCM the packet of a full piece has 584 bytes |
| `FragmentSend.FragmentArrives` | iked/ikev2_pld.c:1655-1697 | every datagram of the sender arrives with the opposite role as the fragment it is |
| `FragmentSend.EndToEnd` | iked/ikev2_pld.c:1638-1830 | the datagrams of the sender, opened by the opposite role in any order and with any duplicates, hand up nothing while one is missing; the last missing one hands up the payload and its first type if and only if the payload is not empty, fits a buffer and has at most 111 fragments |
| `Fragments.ChunksJoin` | iked/ikev2_msg.c:852-927 | the pieces in order are the payload |
| `Fragments.ChunksCount` | iked/ikev2_msg.c:847-848 | there are as many pieces as the announced total |
| `Fragments.ExactlyOnce` | iked/ikev2_pld.c:1638-1830 | delivered in any order, with duplicates, fragments that do not decrypt and SK payloads in between: a delivery hands up the original bytes and first type if and only if it is the last missing since the last SK payload and the message is not empty, fits a buffer and has at most 111 fragments; nothing else is handed up |
| `Fragments.GetsThrough` | iked/ikev2_pld.c:1638-1849 | over every run of deliveries: the message is handed up at some point if and only if it is not empty, fits a buffer, has at most 111 fragments, and all its fragments come in one stretch without an SK payload |
| `Fragments.EmptyFails` | iked/ikev2_pld.c:1778-1795 | the empty message is one empty fragment, and its reassembly fails |
| `Fragments.HandsUp` | iked/ikev2_pld.c:1638-1849 | the same over any number of rounds: a delivery completes the message exactly when it completes the set seen since the last time or the last SK payload; an SK payload passes exactly when no fragment is waiting |
| `Fragments.AnotherTotal` | iked/ikev2_pld.c:1667-1728 | over every run: while fragments wait, a fragment of another message empties the store if and only if it announces more than 111, or decrypts and announces another total; what comes then is as if nothing had come before |
| `Fragments.RunHolds` | iked/ikev2_pld.c:1699-1849 | after any deliveries the store holds exactly the pieces seen since the message was last complete or an SK payload came |
| `Fragments.AcceptOwn` | iked/ikev2_pld.c:1699-1752 | one fragment, whatever has been seen: stored, dropped as a duplicate, or the last one, with the outcome of the reassembly |
| `Fragments.TooMany` | iked/ikev2_pld.c:1667-1672 | over every run of deliveries of a message of more than 111 fragments nothing is handed up and nothing is kept |
| `Fragments.EffectiveOnly` | iked/ikev2_pld.c:1667-1849 | over every run the store depends only on the fragments that decrypt, since the last SK payload or the last fragment that announced more than 111, which drops everything even if it does not decrypt |
| `Fragments.FilledAll` | iked/ikev2_pld.c:1744-1745 | the count equals the total exactly when no slot is empty |
| `Fragments.FillSlot` | iked/ikev2_pld.c:1730-1742 | filling an empty slot adds one to the count and the piece to the total size |
| `FragmentStore.FragmentStore.Receive` | iked/ikev2_pld.c:1638-1764 | the array and its counters refine the store of values; the count is always the number of filled slots and the total size their sum |
| `FragmentStore.FragmentStore.Reassemble` | iked/ikev2_pld.c:1766-1830 | the pieces in order, or a failure if they are empty or exceed the message buffer; the store is empty after either |
| `FragmentStore.FragmentStore.ReceiveSk` | iked/ikev2_pld.c:1844-1849 | an SK payload that comes while fragments wait drops them and is refused; otherwise it passes |
| `FragmentStore.FragmentStore.Join` | iked/ikev2_pld.c:1786-1798 | the copying loop fills its buffer exactly; with nothing to copy the first address is NULL and it fails |
| `FragmentStore.FragmentStore.Free` | iked/config.c:98-113 | the store is empty |
| `MessageWindow.EveryRun` | iked/ikev2.c:713-807 | in every run on one SA: the IDs of accepted requests strictly increase, sa_msgid never exceeds sa_msgid_current, and no cached response is older than sa_msgid |
| `MessageWindow.RunIncreases` | iked/ikev2.c:713-807 | the same from any state that keeps the invariant; later requests are above the window |
| `MessageWindow.StepKeeps` | iked/ikev2.c:741-807 | every event keeps the invariant; only an accepted request moves the window, and up |
| `MessageWindow.DuplicateResends` | iked/ikev2.c:766-787 | a duplicate of an answered request changes nothing and sends exactly the cached datagrams, or nothing for a later fragment |
| `MessageWindow.HandledWhen` | iked/ikev2.c:741-791 | exactly which requests are handled, and that only a valid one moves the window, to its own ID |
| `MessageWindow.Answered` | iked/ikev2.c:770-787 | when a request is handled and answered, exactly its replies are cached under its ID and exchange, in order, and the same request again gets exactly them |
| `MessageWindow.StaysAnswered` | iked/ikev2.c:770-787 | the same over every run after it, until the response times out or a later request is accepted |
| `MessageWindow.ReplyKept` | iked/ikev2_msg.c:1197-1221 | a reply sent later is cached behind those before it, under the current ID |
| `MessageWindow.TimeoutForgets` | iked/ikev2_msg.c:1320-1328 | a response that times out is forgotten, and no other |
| `MessageWindow.ResponseKept` | iked/ikev2_msg.c:1197-1233 | a cached response stays, and only gains datagrams, until it times out or a later request is accepted |
| `MessageWindow.LateReply` | iked/ikev2_msg.c:767-767 | in every run: a reply sent later is kept under the ID of the last accepted request if and only if no request was handled without being accepted since |
| `MessageWindow.StrayReply` | iked/ikev2.c:788-788 | a run in which the reply to request 5 is kept under ID 9 |
| `MessageWindow.PrevailCaches` | iked/ikev2_msg.c:1223-1233 | exactly the responses to earlier requests are dropped |
| `MessageWindow.Lookup` | iked/ikev2_msg.c:1261-1275 | the first response with that ID and exchange, or none |
| `MessageWindow.IkeSa.Recv` | iked/ikev2.c:741-807 | the request branch computes the step, state and outcome |
| `MessageWindow.IkeSa.MsgEnqueue` | iked/ikev2_msg.c:1197-1221 | a datagram joins the response of its request, or starts one |
| `MessageWindow.IkeSa.MsgPrevail` | iked/ikev2_msg.c:1223-1233 | the loop over the queue drops the earlier responses |
| `MessageWindow.IkeSa.MsgLookup` | iked/ikev2_msg.c:1261-1275 | the loop finds the first match |
| `Rekey.NonceOrder` | iked/ikev2.c:4434-4447 | the comparison is a strict total order on byte strings |
| `Rekey.NonceCmpIsBefore` | iked/ikev2.c:4434-4447 | it is the lexicographic order with a proper prefix first |
| `Rekey.MinNonceIsLeast` | iked/ikev2.c:4540-4551 | the nonce that is chosen is the smaller one |
| `Rekey.IkeRekeyAgrees` | iked/ikev2.c:4533-4559 | both peers keep the same new IKE SA if and only if the smallest nonces of the two exchanges differ or the exchanges are the same |
| `Rekey.IkeRekeyDropsSmallest` | iked/ikev2.c:4533-4559 | the exchange with the smallest of the four nonces is the one that is dropped |
| `Rekey.ChildRekeyOneDeletes` | iked/ikev2.c:4619-4636 | exactly one initiator deletes its own Child SAs if and only if the smallest nonces differ; never both |
| `Rekey.ChildRekeyDropsSmallest` | iked/ikev2.c:4619-4636 | the one who deletes started the exchange with the smallest of the four nonces |
| `Rekey.TieDisagrees` | iked/ikev2.c:4552-4559 | a peer that repeats one nonce below those of the other side in both exchanges: the peers keep different IKE SAs and nobody deletes Child SAs |
| `Rekey.RepeatedNonce` | iked/ikev2.c:4552-4559 | such nonces exist: one of 16 bytes against those of 32 bytes that iked makes |
| `SaPayload.SentRoundTrip` | iked/ikev2.c:2674-2808 | proposals with distinct numbers and protocols, selected, with DH transforms dropped where the writer drops them, come back from the reader in order |
| `SaPayload.RoundTrip` | iked/ikev2_pld.c:342-458 | number, protocol, SPI size and transforms of every written proposal come back |
| `SaPayload.CarriedSame` | iked/ikev2_pld.c:349-436 | what comes back is the same proposal, with its SPI if it has one |
| `SaPayload.WrittenRead` | iked/ikev2_pld.c:342-458 | what the reader makes of any written payload, whatever its proposals: equal numbers and protocols are merged, equal transforms read once, a proposal with an unknown transform type dropped, and a number of transforms divisible by 256 read as none |
| `SaPayload.ProposalRead` | iked/ikev2_pld.c:355-455 | one proposal among others |
| `SaPayload.ProposalFields` | iked/ikev2.c:2759-2799 | the fields of a written proposal at their places |
| `SaPayload.TransformFields` | iked/ikev2.c:2810-2839 | the fields of a written transform at their places |
| `SaPayload.SpiRead` | iked/ikev2.c:2765-2780 | the SPI has the size announced, most significant byte first, and is read back |
| `SaPayload.TransformsRead` | iked/ikev2_pld.c:489-575 | the transforms of a proposal are read in order, or refused for an unknown type |
| `SaPayload.KindsTaken` | iked/config.c:355-411 | transforms of the five types are taken, ESN among them, and no others |
| `SaPayload.KeyLengthLast` | iked/ikev2_pld.c:593-640 | the last key length attribute of a transform counts |
| `SaPayload.ProposalsTile` | iked/ikev2_pld.c:294-458 | for any bytes: a payload that is taken is tiled by its proposals, each of the length it declares with room for its SPI, and all but the last announce another |
| `SaPayload.TransformsTile` | iked/ikev2_pld.c:460-575 | for any bytes: the same of the transforms of a proposal |
| `SaPayload.PayloadOrderly` | iked/ikev2_pld.c:342-458 | for any bytes: the list of proposals never has two of the same number and protocol, nor one with a transform twice |
| `SaPayload.RoundOrderly` | iked/ikev2_pld.c:409-436 | the same for one proposal; none of its number and protocol stays if and only if a transform type is unknown |
| `SaPayload.AddedOnce` | iked/config.c:355-411 | transforms are added behind those there, in order, each once |
| `SaPayload.AddProposal` | iked/config.c:257-285 | the proposal of that number and protocol gets the SPI, at its place or at the end, and no other changes |
| `SaPayload.WithoutDhKeeps` | iked/ikev2.c:2747-2756 | exactly the DH transforms are dropped |
| `SaPayload.PlaceOf` | iked/config.c:257-267 | the first proposal with that number and protocol, or none |
| `SaWriter.AddProposals` | iked/ikev2.c:2674-2808 | the buffer gets exactly the payload of the selected proposals and the length is its size; fails exactly when that does not fit; the memory of the buffer does not move, so that the pointers kept into it stay good; the SPIs of the selected proposals are set in place and no others |
| `SaWriter.ProposalSent` | iked/ikev2.c:2690-2756 | which proposals are sent, and what of each: its number and protocol, the SPI of the new IKE SA or the one for the new Child SAs or its own, and exactly its transforms but for DH groups, which are left out when asked, and for Child SAs when there is none but NONE |
| `SaWriter.PutProposal` | iked/ikev2.c:2742-2799 | one proposal, with its length patched in after its transforms |
| `SaWriter.PutTransforms` | iked/ikev2.c:2782-2797 | the loop writes the transforms that are sent, and only the last says that none follows |
| `SaWriter.PutTransform` | iked/ikev2.c:2810-2839 | one transform, with a key length attribute if it has a key length |
| `SaWriter.CountKept` | iked/ikev2.c:2747-2756 | the number of transforms that are sent |
| `SaWriter.OnlyNone` | iked/ikev2.c:2731-2740 | whether every DH transform is NONE |
| `SaWriter.LastCleared` | iked/ikev2.c:2802-2803 | clearing the flag where the last proposal begins, if there is one, turns the proposals all marked as followed by another into the payload; with no proposal nothing changes |
| `SaReader.Message.PldSa` | iked/ikev2_pld.c:342-458 | the walk by offsets computes the reading of the payload; every field lies inside the proposal that declares it |
| `SaReader.Message.PldXform` | iked/ikev2_pld.c:460-575 | the same for transforms, with both error returns |
| `SaReader.Message.PldAttr` | iked/ikev2_pld.c:577-643 | the same for attributes; the last key length counts |
| `SaReader.Message.AddTransformTo` | iked/config.c:355-428 | no transform twice, -2 and no change for an unknown type |
| `SaReader.Message.AddProposalTo` | iked/config.c:257-278 | an existing proposal with the same number and protocol is reused |
| `PayloadWalk.WalkTiles` | iked/ikev2_pld.c:184-292 | for any bytes: the payloads of a completed walk are the bytes walked over, each of the length it declares, in order and without gaps |
| `PayloadWalk.ChainWalked` | iked/ikev2_pld.c:184-292 | a chain of payloads is walked as it was made, up to an encrypted one |
| `PayloadWalk.PldPayloads` | iked/ikev2_pld.c:184-292 | the loop, with offset + total == length throughout, ends and accepts exactly the completed walks |
| `PayloadWalk.LocateWalks` | iked/ikev2_pld.c:184-292 | the encrypted payload that is located in a message is the one payload of its walk, behind the fragment header if there is one |
| `PayloadWalk.SelectorsTile` | iked/ikev2_pld.c:1470-1539 | the announced number of selectors tile the bytes that are read, each with two addresses of its type |
| `PayloadWalk.PldTss` | iked/ikev2_pld.c:1470-1539 | the loop accepts exactly those |
| `PayloadWalk.SelectorsBack` | iked/ikev2_pld.c:1470-1539 | selectors of the size of their type are read as they were made |
| `PayloadWalk.SelectorFields` | iked/ikev2_pld.c:1512-1539 | type, protocol, length, ports and addresses of a selector at their places |
| `PayloadWalk.SelectorTaken` | iked/ikev2_pld.c:1512-1539 | exactly which selectors are taken, by type and declared length |
| `PayloadWalk.AttributesTile` | iked/ikev2_pld.c:1903-2079 | the configuration attributes tile the whole payload, and no address is cut short |
| `PayloadWalk.PldCp` | iked/ikev2_pld.c:1903-2079 | the loop takes the first address of each sort, and fails exactly for malformed attributes |
| `PayloadWalk.FirstTaken` | iked/ikev2_pld.c:1945-2070 | an address is that of the first attribute of its sort that is not empty, 4 or 16 bytes of it; both sorts of name servers share a place |
| `PayloadWalk.AttributesBack` | iked/ikev2_pld.c:1903-2079 | attributes whose addresses are not cut short are read as they were made |
| `PayloadWalk.AttributeFields` | iked/ikev2_pld.c:1930-1945 | type and length of an attribute at their places |
| `PayloadWalk.AttributeTaken` | iked/ikev2_pld.c:1930-2070 | exactly which attributes are taken, by type and declared length |
| `KeyExpansion.PrfPlus` | iked/ikev2.c:5985-6054 | for every seed: the key material is what the rounds yield, with all that does not fit a buffer dropped; the concatenation of T1, T2 and so on and as long as asked for if nothing is dropped; more than 255 rounds are refused |
| `KeyExpansion.YieldExact` | iked/ikev2.c:6016-6037 | the key material is the concatenation of T1, T2 and so on for every prf if and only if the blocks fit a buffer, the seed and a byte fit a buffer, and they fit behind a block if there is a second round |
| `KeyExpansion.YieldCut` | iked/ikev2.c:6037-6037 | the key material ends behind the last block that fits whole, and its length |
| `KeyExpansion.YieldIsBlocks` | iked/ikev2.c:6016-6037 | the condition is enough, for each prf |
| `KeyExpansion.Differs` | iked/ikev2.c:6016-6037 | without it there is a prf for which the key material is another |
| `KeyExpansion.SeedDropped` | iked/ikev2.c:6024-6026 | a seed that does not fit behind a block does not enter the second and later rounds |
| `KeyExpansion.LongSeed` | iked/ikev2.c:6016-6037 | a seed of 8180 bytes and two rounds of 32 bytes: the second block is not T2 for some prf |
| `KeyExpansion.RoundsSuffice` | iked/ikev2.c:6012-6014 | the number of rounds is enough, and one less would not be |
| `KeyMaterial.KeyLength` | iked/ikev2.c:6230-6257 | twice the key lengths of all ENCR and INTEGR transforms of the proposals that are not for IKE |
| `KeyMaterial.ValidProposal` | iked/ikev2.c:6793-6838 | the last ENCR and INTEGR transform, whether ESN is on, and whether the protocol has what it needs |
| `KeyMaterial.MaterialSuffices` | iked/ikev2.c:6230-6257 | the keys that are cut never exceed the key material |
| `KeyMaterial.MaterialExact` | iked/ikev2.c:6230-6257 | nor is there more of it, if every proposal that is not for IKE is usable and has at most one ENCR and one INTEGR transform |
| `KeyMaterial.LastIs` | iked/ikev2.c:6793-6838 | of several transforms of a kind the last is taken |
| `KeyMaterial.NegotiateChildren` | iked/ikev2.c:6371-6528 | for key material of any length: the Child SAs of the usable proposals as far as the keys reach; the first proposal that lacks keys ends the loop, with an error at the initiator and without one at the responder |
| `KeyMaterial.MadeCarries` | iked/ikev2.c:6389-6475 | every usable proposal that gets keys has two Child SAs and there are no others: the outbound one with the SPI that the peer allocated, the inbound one with the SPI allocated here, each knowing the other; with the last transforms and keys of their lengths, those of the traffic of the initiator first and encryption before integrity |
| `KeyMaterial.Negotiate` | iked/ikev2.c:6230-6528 | length, expansion and cutting in turn: the Child SAs made, and the result, which is an error exactly at an initiator whose keys exceed the whole blocks of a buffer |
| `KeyMaterial.Reach` | iked/ikev2.c:6429-6475 | the number of proposals that get keys is the largest whose keys fit |
| `KeyMaterial.ShortOfKeys` | iked/ikev2.c:6407-6432 | an input that is short of keys: one ESP proposal with a key length of 32776 bits and a hash of 64 bytes |
| `KeyMaterial.KeysTile` | iked/ikev2.c:6371-6475 | the keys are consecutive slices of the key material from its start: no two share a byte |
| `KeyMaterial.SidesMatch` | iked/ikev2.c:6371-6526 | with equal key material every Child SA of one side has the SPIs, transforms and keys of the one at the other side with the opposite direction |
| `KeyMaterial.ChildKeysMatch` | iked/ikev2.c:6230-6526 | the whole derivation, over the bytes that ikev2_prfplus returns: from equal key, seed and negotiated transforms the two sides make matching Child SAs for the same proposals, whatever is dropped; no proposal lacks keys if and only if all keys fit the whole blocks of a buffer |
| `KeyMaterial.PairMatch` | iked/ikev2.c:6371-6475 | the same for one proposal; the first of the pair is outbound at the initiator |
| `AddressPool.Env.OneOwner` | iked/ikev2.c:7187-7398 | no two SAs own the same address |
| `AddressPool.Env.SetAddr` | iked/ikev2.c:7130-7185 | an SA keeps the address it has; without a request there is none; otherwise it gets the address of the old SA of its peer, or else the one it asks for if that is free and inside a network, or else a free candidate of the first network that has one; it fails if and only if every candidate of every network is taken |
| `AddressPool.Env.TryNetworks` | iked/ikev2.c:7158-7171 | the same for one pass over the networks |
| `AddressPool.Env.SetAddrPool` | iked/ikev2.c:7187-7398 | no address without a request; the address of the old SA, which loses it; or the requested address, exactly if it is inside the prefix and free; or, with none requested, a free candidate, exactly if there is one; the index stays that of the owners and gains this one |
| `AddressPool.CandidateIs` | iked/ikev2.c:7325-7332 | the candidates are the addresses of the network from the configured one up, without the network address if there is another, and without the broadcast address unless it is the configured one or there is no other |
| `AddressPool.InsideIs` | iked/util.c:702-712 | the addresses under a prefix are one block |
| `AddressPool.Env.Search` | iked/ikev2.c:7325-7368 | a free candidate inside the prefix, and none exactly when all candidates are taken |
| `AddressPool.Env.SearchFrom` | iked/ikev2.c:7335-7368 | the cyclic search ends, from any start |
| `AddressPool.Env.Transfer` | iked/ikev2.c:4778-4784 | the address changes its owner and nothing else does |
| `AddressPool.Env.FreeSa` | iked/config.c:130-133 | the address is free again, and no other |
| `AddressPool.HostsInside` | iked/util.c:702-712 | network part and host part make an address inside the prefix, for every prefix length |
| `Arc4random.Rng.RandomBuf` | compat/arc4random.c:147-169 | the bytes handed out are the next ones of the refills in a row, after all handed out before, and after a fork or another stir none of what was left; the 40 bytes that rekey are never among them |
| `Arc4random.Rng.RandomU32` | compat/arc4random.c:171-183 | the same for four bytes |
| `Arc4random.Rng.Rekey` | compat/arc4random.c:124-145 | a refill; its first 40 bytes, with the seed mixed in, make the next context and are cleared |
| `Arc4random.Rng.Stir` | compat/arc4random.c:87-110 | the new context is made of the seed, and mixed with the start of a last refill if there was a context; an empty, cleared buffer and a budget between one and two rekey intervals |
| `Arc4random.Rng.StirIfNeeded` | compat/arc4random.c:112-122 | stirs exactly without a context, after a fork or when the request takes all of the budget: then the seed is in the context and nothing of the stream so far is left to hand out; otherwise only the budget changes |
| `Arc4random.Rng.HandedOut` | compat/arc4random.c:109-122 | between two stirs less than two rekey intervals are handed out, unless a single request alone takes more than one |
| `Arc4random.Keystream.Take` | compat/arc4random.c:156-165 | the bytes that leave the buffer are cleared in it: all bytes before the valid tail are zero |
| `Arc4random.Keystream.Fill` | compat/arc4random.c:130-144 | the tail of the refill is kept, its start given out and cleared |
| `Arc4random.Unbiased` | compat/arc4random_uniform.c:32-56 | every result has exactly floor(2^32 / bound) accepted draws |
| `Arc4random.MoreThanHalf` | compat/arc4random_uniform.c:43-48 | more than half of all draws are accepted |
| `Arc4random.SkippedIsRemainder` | compat/arc4random_uniform.c:40-41 | the 32-bit expression for the threshold is 2^32 modulo the bound |
| `Arc4random.Uniform` | compat/arc4random_uniform.c:32-56 | the result is that of the first accepted draw |

## Left out

- RB_PREV, RB_MAX, SPLAY_NEXT, SPLAY_MINMAX: mirror images or variants of members that are there.
- The running time of splay trees: only contents and order are stated.
- Passing of file descriptors with imsg: it depends on message boundaries of the kernel.
- imsg_composev and imsg_forward: they queue the same frames as imsg_compose.
- The IKE_SA_INIT restart, responses to own requests and send failures in ikev2_recv: they end or leave the window of requests; the state machines for initiator and responder behind it are a parameter of each request.
- MessageWindow.IkeSa.Recv: models the branch for requests; whether a request is valid, and the datagrams sent while it is handled, are part of the event.
- Retransmission of own requests and its timers.
- ikev2_send_informational: it finishes its headers after encryption.
- SecureSend.SendEncrypt: builds the datagram; the parsing of its own message by the sender and the sending are not modelled, and the length a cipher gives is that of its input.
- FragmentSend.SendFragments: requires that IV, block and checksum together do not have exactly the size of a fragment, where the source divides by zero, and are sizes of objects in memory.
- The choice between one message and fragments (ikev2_check_frag_oversize).
- AddressPool.Env.SetAddrPool: IPv4 only; the transfer of an IPv6 address together with an IPv4 one is not modelled.
- AddressPool.Env.SetAddr: with no configured network it does not say what becomes of the requested address, which the source drops if the policy configures anything else.
- The choice of an IPv6 address in the last 32 bits of its prefix: it is the same search.
- SaReader.Message.PldSa: for messages from the peer; on failure it does not say which proposals were stored before the malformed one. The scores of transforms are not modelled.
- SaWriter.AddProposals: for buffers that have all their memory, as ibuf_static makes them for every caller; in one that grows the source would write through pointers to memory that has moved. An SPI from the kernel is a parameter, so its failure is not modelled.
- KeyExpansion.PrfPlus: a hash is not longer than a message buffer, since the source does not look at a failed allocation of one.
- KeyMaterial.NegotiateChildren: the kernel gives an SPI for each proposal; flows, IPComp and the loading of SAs into the kernel are not modelled; the seed with its optional DH secret is a parameter of prf+.
- PayloadWalk.PldPayloads: whether a payload is accepted by its handler is a parameter; handlers other than those for SA, encrypted data, fragments, selectors and configuration are not modelled.
- PayloadWalk.PldCp: for messages from the peer; the type of the payload, which is stored as it is, is not modelled.
- Arc4random.Uniform: draws are given as a sequence, because the loop of the source has no bound.
- Negotiation of proposals, policies, certificates, EAP, OCSP, PF_KEY, ikectl and the configuration parser: not part of this model.
- Cryptographic primitives: uninterpreted.
