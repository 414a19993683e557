# A verified model of the socket library, its trees and its test programs

The repository is a small socket library on top of libuv. Messages are framed by a four-byte size, addresses
are given as URIs, and two test programs drive the library through the event loop. This project models that
code in Dafny 4.11 and proves what the code and its tests rely on. `dafny verify dfyconfig.toml` checks all of it.

## What is modelled

**The intrusive trees of `tree.h`.** `Elements` has the elements, their order, and a finite map as the
reference for whole runs. The red-black tree lives on heap objects with left, right, parent and colour fields
(`RbHeap`), and every rotation and every case of the two fix-up loops rewrites those fields in place
(`RbInsert`, `RbRemove`). A ghost tree with a context (`RbShape`) and a map of the links (`RbMemory`) say which
shape the heap spells out. Disjointness of subtrees follows from their key ranges. `RbQuery` has lookup,
neighbours and the iteration loops, `RbHeight` the height bound of the header's comment, `RbRuns` any run
against the reference. The top-down splay tree (`SplayShape`, `SplayTree`, `SplayOps`, `SplayRuns`) has its
dummy node, the two side trees that grow at their tails, and the final assembly; `SplayDepth` is the law of how far a
splay lifts the nodes of the search path.

**Message framing.** `Endian` is the byte order of the header, `Frames` the wire format with a reference decoder,
`Receiver` the receiver as a function of the bytes of each read, and `SocketUv` the callbacks `alloc_wrap` and
`read_wrap` with the two cursors, the message buffers and a ledger of allocations, proved to follow `Receiver`.
`Disrec` is the one-shot decoder of the test tools, on the files of `Stdio`.

`msg_reader_finished` looks only at the body cursor, and a fresh message announces size 0. A read that ends inside a
header after zero bytes only is therefore taken for an empty message. The theorems say that this is the one thing
that can go wrong: conservation and complete delivery hold if and only if no read ends there
(`Receiver.HeadCondition`), and `Receiver.SplitHeadWitness` is an input on which it does.

**The URI parser.** `CStrings` has NUL-terminated strings in a buffer and the tokenizer that cuts them up in place,
`Ip4` the dotted-quad loop, `UriText` the parser as a function of the text with the exact accepted language,
`UriParser` the parser on its buffer with both allocations, `UriOwner` the calls of `socket.c` that own the result.
The tokenizer follows section K.3.7.3.1 and the number reader section 7.22.1.4 of ISO/IEC 9899:2011. The former
leaves open what the pointer to the rest holds once the string is used up, so that is a parameter (`nullAtEnd`),
and acceptance is proved not to depend on it.

What the accepted language shows: colons in front of the protocol and of the address are skipped; leading zeros are
accepted in an address; anything may stand behind the port number, and white space and a plus sign before it. A
string of colons, in front or behind `tcp://`, makes the parser use a null token as a string
(`UriText.NullTokenExactly`); `UriParser.New` excludes just those inputs.

`sc_socket_connect` and `sc_socket_bind` overwrite a URI that the socket still holds. `UriOwner` proves that a URI
is lost exactly when one of them follows another that parsed, without a close between them.

**The test programs.** `UvLoop` has the handles of an event loop: opened, closed once by `uv_close`, settled later by
their close callback; calls that libuv does not allow are counted as faults. `ServerSteps`, `ClientSteps` and
`ClientRuns` have every callback as a step and prove properties of all interleavings that the loop may choose;
`ServerLaws` and `ClientLaws` say, for every run, what it has done from the list of its events alone; the classes
`Server.Program` and `Client.Program` are the callbacks on real fields and, for the client, on its one message buffer.
`Client.EndToEnd` and `Client.AllArrives` join the client to the receiver.

Two findings about the client. An input whose last line has no newline, and does not end exactly where a buffer of 1023
bytes is full, sets the end-of-file indicator while that line is read; then nothing wakes the async handle, and only a
signal ends the program (`ClientRuns.EndsByItselfExactly`, `ClientSteps.EndsOpenExactly`). A stream that is closed while
a request on it is open makes the request fail, and the callback then calls `fatal` (`ClientRuns.DrainableExactly`); a
signal that comes before the connection stands leads there on every input (`ClientRuns.DoomedWitness`).

`SPLAY_REMOVE` answers its argument, which need not be the element that left the tree; the contract says so.

## Conventions

`cmp` is the order of integer keys. Ghost parameters and ghost fields (`mem`, `tree`, `lo`, `hi`, `Repr`) only serve
the specification. An allocation, a system call or a callback of the loop that may fail takes its outcome as a
parameter. A call of `fatal` sets `exited`, after which no callback runs. A method named after a part of a source
function is that part, split off to keep proofs small. The error codes `SC_ENOMEM`, `SC_EURIPARSE` and `SC_EINVPROTO`
(3193 to 3195) are the constructors of a datatype.

## Model

| member | source | states |
|---|---|---|
| RbRemove.Remove | libs/libuv-1.44.2/include/uv/tree.h:530-595 | removing a member leaves a valid tree (key order, colours, equal black count, black root, parent links); the new in-order sequence is the old one without exactly that node object; all other nodes stay the same objects; the answer is the removed node |
| RbRemove.RemoveColor | libs/libuv-1.44.2/include/uv/tree.h:451-528 | from a tree in which one subtree is short of one black, the fix-up loop ends and gives a red-black tree with a black root and the same in-order sequence |
| RbRemove.RemoveColorStep | libs/libuv-1.44.2/include/uv/tree.h:456-525 | one turn of that loop: either the defect moves one level up, or it is gone; the sequence does not change |
| RbRemove.RedSiblingOnRight | libs/libuv-1.44.2/include/uv/tree.h:460-464 | a red sibling is rotated away; the new sibling is black and exists |
| RbRemove.RedSiblingOnLeft | libs/libuv-1.44.2/include/uv/tree.h:493-497 | the mirror image |
| RbRemove.InnerNephewOnRight | libs/libuv-1.44.2/include/uv/tree.h:473-482 | an inner red nephew is turned into an outer one |
| RbRemove.InnerNephewOnLeft | libs/libuv-1.44.2/include/uv/tree.h:506-515 | the mirror image |
| RbRemove.OuterNephewOnRight | libs/libuv-1.44.2/include/uv/tree.h:483-489 | with an outer red nephew the missing black is made up for and the loop stops |
| RbRemove.OuterNephewOnLeft | libs/libuv-1.44.2/include/uv/tree.h:516-522 | the mirror image |
| RbRemove.UnlinkOne | libs/libuv-1.44.2/include/uv/tree.h:579-590 | a node with at most one child is taken out and its child takes its place |
| RbRemove.UnlinkTwo | libs/libuv-1.44.2/include/uv/tree.h:539-577 | a node with two children is replaced, as an object and not by copying its key, by its in-order successor, also when that is its own right child |
| RbRemove.Leftmost | libs/libuv-1.44.2/include/uv/tree.h:541-543 | the walk to the successor ends at the leftmost node of the right subtree |
| RbRemove.Replace | libs/libuv-1.44.2/include/uv/tree.h:559-570 | the successor takes over colour and links of the removed node, and every neighbour points to it |
| RbShape.ShortHasSibling | libs/libuv-1.44.2/include/uv/tree.h:459-468 | the sibling that the fix-up loop dereferences without a check is never null |
| RbShape.RedHasGrandparent | libs/libuv-1.44.2/include/uv/tree.h:411-414 | the grandparent that the insertion loop dereferences without a check is never null |
| RbInsert.Insert | libs/libuv-1.44.2/include/uv/tree.h:598-626 | an equal element is returned and nothing at all changes; otherwise no key was equal, and exactly the new node joins, in order, in a valid tree |
| RbInsert.FindPlace | libs/libuv-1.44.2/include/uv/tree.h:604-614 | the search ends at the equal element or at the one empty place whose key range admits the new key |
| RbInsert.InsertColor | libs/libuv-1.44.2/include/uv/tree.h:407-449 | from a tree whose only defect is a red node with a red parent, the recolouring loop ends and gives a red-black tree with a black root and the same in-order sequence |
| RbInsert.InsertColorStep | libs/libuv-1.44.2/include/uv/tree.h:413-446 | one turn of that loop: the defect moves up two levels or is gone |
| RbInsert.Recolor | libs/libuv-1.44.2/include/uv/tree.h:416-420 | the case of a red uncle |
| RbInsert.TurnLeft | libs/libuv-1.44.2/include/uv/tree.h:422-429 | the cases of a black uncle on the right: at most two rotations, the last one of the grandparent to the right, and the defect is gone |
| RbInsert.TurnRight | libs/libuv-1.44.2/include/uv/tree.h:438-445 | the mirror image: a black uncle on the left |
| RbHeap.RbHead.RotateLeftAt | libs/libuv-1.44.2/include/uv/tree.h:342-360 | on the heap, the macro turns exactly the two top levels of the subtree at the node to the left, in an unchanged context: all links, parents and the root pointer included |
| RbHeap.RbHead.RotateRightAt | libs/libuv-1.44.2/include/uv/tree.h:362-380 | the mirror image |
| RbMemory.RotateLeftIn | libs/libuv-1.44.2/include/uv/tree.h:342-360 | a left rotation of the links spells out the left-rotated tree in the same context |
| RbMemory.RotateRightIn | libs/libuv-1.44.2/include/uv/tree.h:362-380 | the mirror image |
| RbShape.RotateOrder | libs/libuv-1.44.2/include/uv/tree.h:342-380 | a rotation keeps the in-order sequence |
| RbShape.PlugRb | libs/libuv-1.44.2/include/uv/tree.h:56-61 | a subtree and its context satisfy the red-black conditions together exactly if the whole tree does |
| RbHeight.RbMeansPaths | libs/libuv-1.44.2/include/uv/tree.h:56-61 | the local invariant kept by all operations holds if and only if all search paths have equally many black nodes and no red node has a red parent |
| RbHeight.SizeAtLeast | libs/libuv-1.44.2/include/uv/tree.h:56-61 | black height b needs at least 2^b - 1 nodes |
| RbHeight.HeightBound | libs/libuv-1.44.2/include/uv/tree.h:56-61 | height at most 2 lg (n + 1), as 2^height <= (n + 1)^2 |
| RbQuery.Find | libs/libuv-1.44.2/include/uv/tree.h:629-644 | the element with the equal key, or null exactly if there is none |
| RbQuery.NFind | libs/libuv-1.44.2/include/uv/tree.h:647-665 | the least element not below the search key, or null exactly if all are below it |
| RbQuery.MinMax | libs/libuv-1.44.2/include/uv/tree.h:711-724 | the first or the last element of the in-order sequence, null exactly for the empty tree |
| RbQuery.Next | libs/libuv-1.44.2/include/uv/tree.h:668-687 | the in-order successor, also across parent links; null exactly for the last |
| RbQuery.Prev | libs/libuv-1.44.2/include/uv/tree.h:690-709 | the in-order predecessor; null exactly for the first |
| Elements.NextPrevInverse | libs/libuv-1.44.2/include/uv/tree.h:668-709 | successor and predecessor undo each other |
| RbQuery.Foreach | libs/libuv-1.44.2/include/uv/tree.h:738-741 | every element once, in increasing order |
| RbQuery.ForeachSafe | libs/libuv-1.44.2/include/uv/tree.h:748-751 | while the body removes any chosen elements, every original element is visited once in order, and what remains is the original sequence without the chosen ones |
| RbQuery.SafeBody | libs/libuv-1.44.2/include/uv/tree.h:748-751 | the successor saved before the body is still the successor after the current node was removed |
| RbRuns.Run | libs/libuv-1.44.2/include/uv/tree.h:407-724 | any run of insert, remove, find, minimum and maximum from an empty tree gives the contents and the answers of a finite map (a removal answers the element that left), and keeps the height bound |
| SplayTree.SplayHead.RotateRight | libs/libuv-1.44.2/include/uv/tree.h:88-92 | in the middle of a splay, the rotation of the middle tree; the side trees and the links stay consistent |
| SplayTree.SplayHead.RotateLeft | libs/libuv-1.44.2/include/uv/tree.h:94-98 | the mirror image |
| SplayTree.SplayHead.LinkLeft | libs/libuv-1.44.2/include/uv/tree.h:100-104 | root and right part are hung on the right side tree through its tail; the rest goes on |
| SplayTree.SplayHead.LinkRight | libs/libuv-1.44.2/include/uv/tree.h:106-110 | the mirror image |
| SplayTree.SplayHead.Assemble | libs/libuv-1.44.2/include/uv/tree.h:112-117 | the two side trees and the middle become one tree with the in-order sequence of all three, also when a side is empty and its tail is the dummy node |
| SplayOps.Splay | libs/libuv-1.44.2/include/uv/tree.h:209-242 | the loop ends; node set and in-order sequence are kept; everything left of the new root is below the key and everything right of it above, so the root has the key or is its neighbour; and the tree is partly rebalanced: every node on the old search path, at depth d, is at depth d/2 + 2 or less in the new tree |
| SplayOps.DownLeft | libs/libuv-1.44.2/include/uv/tree.h:219-228 | one turn to the left keeps the combined sequence, with the rotation and both breaks; the right side tree grows by one node for two nodes of the search path, or for one node and a turn to the other side |
| SplayOps.DownRight | libs/libuv-1.44.2/include/uv/tree.h:229-239 | the mirror image, with the left side tree |
| SplayDepth.ZigZigLeft | libs/libuv-1.44.2/include/uv/tree.h:223-228 | two links in one direction: one node is linked for two nodes of the path, which end up at most half as deep, up to two levels, so the rotation is needed |
| SplayDepth.ZigLeft | libs/libuv-1.44.2/include/uv/tree.h:219-228 | one link and a turn: the node is linked without a rotation, and the other side has been paid for |
| SplayDepth.StopsLeft | libs/libuv-1.44.2/include/uv/tree.h:223-227 | the break behind the rotation: the whole path is placed at half its depth, up to two levels |
| SplayDepth.RaisedHalves | libs/libuv-1.44.2/include/uv/tree.h:40-42 | in search trees the places in the side trees are depths: the number of links from the root |
| SplayOps.AssembledNearest | libs/libuv-1.44.2/include/uv/tree.h:218-241 | the side trees hold only smaller and only larger keys, so the assembled root is the nearest to the key |
| SplayOps.SplayMinMax | libs/libuv-1.44.2/include/uv/tree.h:247-278 | on a non-empty tree with a non-zero direction: same sequence, the first or last element ends at the root, and every node of that spine rises to half its depth, up to two levels |
| SplayOps.MinMax | libs/libuv-1.44.2/include/uv/tree.h:153-158 | the first or last element, also at the root; null for the empty tree |
| SplayOps.Find | libs/libuv-1.44.2/include/uv/tree.h:128-137 | the element with the equal key, at the root, or null exactly if there is none; the depth law of a splay holds for the search path |
| SplayOps.Next | libs/libuv-1.44.2/include/uv/tree.h:139-151 | the in-order successor of a member |
| SplayOps.Foreach | libs/libuv-1.44.2/include/uv/tree.h:139-151 | repeated successor steps visit every element once in order, although each step turns the tree |
| SplayOps.Insert | libs/libuv-1.44.2/include/uv/tree.h:164-186 | an equal element is returned, at the root, with the sequence unchanged; otherwise exactly the new node joins, as the root |
| SplayOps.Remove | libs/libuv-1.44.2/include/uv/tree.h:188-207 | exactly the element with the equal key leaves, if there is one; the answer is the argument, not the element that left |
| SplayOps.JoinParts | libs/libuv-1.44.2/include/uv/tree.h:199-202 | the second splay leaves the maximum of the left part at the root without a right child, so hanging the right part there loses no node |
| SplayRuns.Run | libs/libuv-1.44.2/include/uv/tree.h:128-278 | any run of insert, remove, find, minimum and maximum from an empty tree gives the contents and the answers of a finite map (a removal answers its argument) |
| Endian.HeaderIsBigEndian | src/msg.c:23-26 | on hosts of either byte order the size is stored with the most significant byte first |
| Endian.SwapTwice | test/tools/endian.h:6-9 | swapping the bytes twice gives the word back |
| Endian.SizeOfHeader | src/msg.c:23-31 | what one host writes with set_size, any host reads back with get_size |
| Endian.HeaderOfSize | src/msg.c:23-31 | the other direction: get_size, then set_size, gives the same four bytes |
| Endian.SizeRoundTrip | src/msg.c:23-31 | the same for every number below 2^32 |
| Endian.ZeroSize | src/msg.c:28-37 | the size reads as 0 exactly if all four bytes are 0 |
| Frames.DecodeStream | src/backend_uv.c:301-314 | decoding undoes writing: whatever incomplete bytes follow, exactly the written messages come out |
| Frames.DecodeKeeps | test/tools/disrec.c:23-30 | decoding loses no byte and stops only before an incomplete message |
| SocketUv.MsgBuf.SetSize | src/msg.c:23-26 | the four bytes announce exactly the size, and are the header that every host writes for it |
| SocketUv.MsgBuf.Size | src/msg.c:28-31 | the size is the number that the four bytes announce |
| SocketUv.MsgBuf.Init | src/msg.c:33-37 | the four size bytes and the first byte of the body are 0, the rest of the body is untouched |
| SocketUv.SkipPos | src/msg_reader.c:13-18 | the cursor moves by the smaller count, and what is left over is the rest |
| SocketUv.MsgReader.ParseHead | src/msg_reader.c:20-24 | the head cursor moves by the smaller of what was read and what the header lacks |
| SocketUv.MsgReader.ParseBody | src/msg_reader.c:26-30 | the same for the body |
| SocketUv.Socket.AllocWrap | src/backend_uv.c:125-153 | the offered region is non-empty, starts inside the head or the body, and asks for exactly what is still lacking, up to the suggested size; it leaves the block exactly if the announced body is larger than the block and the request reaches that far; a message is allocated only if none is held |
| SocketUv.Socket.ReadWrap | src/backend_uv.c:155-196 | on data the abstract state takes one step of the receiver and what it completes is reported; on end or error the watcher is told once and the held message is freed |
| SocketUv.Socket.Advance | src/backend_uv.c:178-186 | the read lands in the region that was offered; nothing is left over and no unsigned subtraction wraps |
| SocketUv.Socket.ReadAll | src/backend_uv.c:125-196 | any reads of one connection that stay within the block: the socket follows the receiver run, with or without the head condition; allocations minus frees is 1 exactly while a message is held |
| SocketUv.Socket.Connection | src/backend_uv.c:125-196 | a whole connection, ended by end or error at any point, adds exactly the notes of that connection alone and leaves no message held; under the head condition they are a prefix of what was sent |
| SocketUv.Socket.Send | src/backend_uv.c:301-314 | the two write buffers together are the frame of the message |
| Receiver.StepSound | src/backend_uv.c:176-195 | body bytes are held only behind a complete header; what is held is always less than one message |
| Receiver.StepProgress | src/backend_uv.c:176-195 | each read strictly shortens what the current message still lacks, or completes it |
| Receiver.Conservation | src/msg_reader.c:55-58 | delivered frames, the partial frame and nothing else make up the bytes read, if and only if no read ends inside a header whose bytes so far are all zero |
| Receiver.DeliveredPrefix | src/backend_uv.c:155-196 | under that condition the delivered messages are at every moment a prefix of those sent |
| Receiver.DeliveredAll | src/backend_uv.c:155-196 | when all bytes have been read, delivered equals sent and nothing is held, if and only if the condition held; empty messages included |
| Receiver.RunDecodes | src/backend_uv.c:155-196 | the incremental receiver computes what decoding all the bytes at once computes, messages and rest, if and only if the head condition holds |
| Receiver.ChunkingIndependent | src/backend_uv.c:155-196 | any two schedules of reads of the same bytes deliver the same messages |
| Receiver.WholeHeads | src/msg_reader.c:42-58 | headers that arrive whole always meet the condition |
| Receiver.SplitHeadWitness | src/msg_reader.c:55-58 | one zero byte of a header, read alone, is delivered as an empty message that nobody sent |
| Receiver.CapacityKept | src/backend_uv.c:130-137 | if every message sent fits the capacity, so does every size that the receiver meets |
| Receiver.CapacityInBlock | src/backend_uv.c:130-137 | and then, under the head condition, every read of body bytes stays within the block |
| Receiver.ConnectionsIndependent | src/backend_uv.c:161-175 | over any sequence of connections on one socket, what is reported of each depends on its own bytes only |
| Stdio.File.Fread | test/tools/disrec.c:26-28 | as many bytes as asked for, or all that are left and the end-of-file indicator |
| Disrec.DecodeFile | test/tools/disrec.c:23-32 | the loop prints the records of the reference decoder and is fatal exactly if a complete header is left without its body |
| Disrec.ReceiverRefinesDisrec | test/tools/disrec.c:23-32 | the incremental receiver delivers what disrec prints on the same bytes, and holds exactly the rest, if and only if the head condition holds; then disrec is fatal exactly if the receiver still holds a complete header |
| Disrec.AccidentalAgreement | test/tools/disrec.c:23-32 | without the rest the two may agree although the condition fails: a concrete schedule |
| CStrings.StrtokS | src/uri.c:50-52 | the tokenizer on the buffer: the token, the rest behind it, and nothing changed before the start |
| Ip4.CheckIp4 | src/uri.c:117-154 | the loop accepts exactly the strings of four groups; the cursor never leaves the four bytes |
| Ip4.ScanChar | src/uri.c:127-151 | one character: the variables keep saying which groups were read and what the open one is worth, or the string is refused; the exit for more than four octets is not reachable |
| Ip4.Ip4Exactly | src/uri.c:117-154 | the accepted language: four non-empty groups of digits with dots between them, each worth at most 255, leading zeros allowed |
| Ip4.Ip4Superset | src/uri.c:117-154 | every IPv4address of section 3.2.2 of RFC 3986 is accepted, and 01.2.3.4 is accepted without being one |
| Ip4.DecOctetExactly | src/uri.c:131-142 | a group is a dec-octet of the RFC exactly if it has no leading zero |
| UriText.PortExactly | src/uri.c:156-163 | check_port accepts exactly the texts that begin with a number from 1 to 65535, and that number is what the accessor reads |
| UriText.PipeExactly | src/uri.c:32-67 | the accepted pipe addresses, and the path each gives: colons, pipe://, and any non-empty path |
| UriText.TcpExactly | src/uri.c:32-79 | the accepted TCP addresses, and what each gives: colons, tcp://, colons, four groups, a colon, and a port number with anything behind it |
| UriText.InvalidProtocolExactly | src/uri.c:55-59 | SC_EINVPROTO is reported exactly if the first token is some other word |
| UriText.RefusedExactly | src/uri.c:32-84 | the refused texts are those that are no pipe or TCP address and lead to no null token, and each is refused with SC_EINVPROTO exactly if its first token is some other word, with SC_EURIPARSE otherwise, and never with SC_ENOMEM |
| UriText.NullTokenExactly | src/uri.c:52-74 | the inputs on which a null token is used as a string |
| UriText.NullTokenWitness | src/uri.c:52-74 | such inputs: a lone colon, and tcp://: |
| UriText.AcceptanceSettled | src/uri.c:50-75 | whether an address is accepted, and with which parts, does not depend on what strtok_s leaves in its pointer at the end of the string |
| UriText.PipeRoundTrip | src/uri.c:65-68 | parsing pipe:// and a non-empty path gives that path |
| UriText.TcpRoundTrip | src/uri.c:69-76 | parsing tcp://, an address, a colon and a decimal number from 1 to 65535 gives them back |
| UriText.AcceptedPort | src/uri.c:107-110 | every accepted TCP address has a port from 1 to 65535 in the second reading of its text |
| UriParser.New | src/uri.c:32-84 | the parser on the buffer does what the text says, on success and on every refusal: SC_ENOMEM exactly if an allocation failed, SC_EINVPROTO exactly on another first word, SC_EURIPARSE otherwise, which is also what a success leaves behind; two blocks stay allocated exactly on success, and none otherwise |
| UriParser.Uri.CutPath | src/uri.c:61-76 | the part behind the protocol, in place; every refusal is SC_EURIPARSE |
| UriParser.Uri.CutTcp | src/uri.c:71-75 | the second tokenization, in place, leaves the protocol readable; every refusal is SC_EURIPARSE |
| UriParser.Uri.Protocol | src/uri.c:92-98 | the protocol of an accepted address, never PROTO_NOSET |
| UriParser.Uri.PipeFilepath | src/uri.c:100-103 | the path of an accepted pipe address |
| UriParser.Uri.TcpIp4 | src/uri.c:105 | the address of an accepted TCP address |
| UriParser.Uri.TcpPortNumber | src/uri.c:107-110 | the port number of the stored text |
| UriParser.Del | src/uri.c:86-90 | both blocks are freed; freeing a block twice is not possible |
| UriOwner.Socket.Open | src/socket.c:41-58 | connect and bind: the socket owns the new URI or none; what it held before is not freed |
| UriOwner.Socket.Close | src/socket.c:70-79 | the held URI is freed, and the socket holds none |
| UriOwner.Socket.Drop | src/socket.c:34-39 | deletion frees a URI that is still held |
| UriOwner.Lifetime | src/socket.c:34-79 | any calls on a socket and its deletion: no block is freed twice, and two are left over for every URI that was replaced while held |
| UriOwner.FreedOnceExactly | src/socket.c:34-79 | no parsed URI is lost if and only if after every connect or bind that parses the next call is a close |
| UriOwner.LostWitness | src/socket.c:41-58 | two connects in a row lose the first URI |
| ServerSteps.StepInv | test/server.c:65-153 | every callback keeps the shutdown invariant, and the phase stays or goes on by one |
| ServerSteps.RunInv | test/server.c:65-153 | over every interleaving of callbacks the invariant holds at the end and the phase has not gone back |
| ServerSteps.PhaseMonotone | test/server.c:126-153 | between any two moments of any run the phase only moves NOTSET, CLIENT, SERVER |
| ServerSteps.Shutdown | test/server.c:82-153 | in every reachable state: the async handle was signalled only while open, no handle was closed twice or while not open, and phase SERVER finds no active client |
| ServerSteps.DrainedOnce | test/server.c:82-153 | if the loop drains, async, idle, listening socket and both signal handles were each closed exactly once, and the client stream as often as it was opened |
| ServerSteps.AlwaysDrainable | test/server.c:65-153 | whatever has happened without an error, some continuation drains the loop |
| ServerLaws.Account | test/server.c:65-153 | every possible run, by its events alone: as many streams are opened as connections are made before the wake-up; as many are closed as streams ended, plus the messages behind the wake-up; exactly the received messages are printed, in order; the client is active exactly between accept and close; the wake-up is pending, the phase reached, the listening socket and the signal handles closed exactly when the events say so; and fatal is called exactly for an error code, or for a failed accept before the wake-up |
| Server.Program.ServerOnConnection | test/server.c:65-72 | refines the step of the run laws: a connection is accepted exactly before the wake-up, and an error ends the program |
| Server.Program.ClientOnAccept | test/server.c:89-96 | refines the step: the client becomes active, and an accept during termination would be closed at once |
| Server.Program.ClientOnRecv | test/server.c:98-111 | refines the step of the run laws: the message is printed, and the stream is closed at its end and at the first message during termination, and at no other time |
| Server.Program.AsyncCb | test/server.c:126-131 | refines the step: the phase becomes CLIENT and the async handle is closed, never a second time |
| Server.Program.SignalCb | test/server.c:133-140 | refines the step: the async handle is woken only before termination |
| Server.Program.IdleCb | test/server.c:142-153 | refines the step: SERVER follows CLIENT only without an active client, and then the idle handle and the listening socket are closed together |
| Server.Program.CloseCb | test/server.c:82-87 | refines the step: the signal handles are closed when the listening socket has been, and the client is inactive when its stream has been |
| Server.Serve | test/server.c:233-253 | the program over any callbacks reaches the state of the run: connections, printed messages, phases and calls of fatal are those of the events; if its loop has drained, every handle was closed exactly once |
| Stdio.File.Fgets | test/client.c:75-90 | the next piece of text, up to byte 10 or a full buffer, with a NUL behind it, null exactly at the end; the indicator is set exactly if fewer bytes than asked for are left and none is byte 10 |
| ClientSteps.PiecesConcat | test/client.c:76 | the pieces that fgets makes are together the text |
| ClientSteps.PiecesExactly | test/client.c:14-76 | the pieces are the only sequence that concatenates to the text and in which each has from 1 to 1023 bytes, byte 10 at most at its end, and every one but the last ends in byte 10 or has 1023 bytes |
| Stdio.LineExactly | test/client.c:76 | fgets takes n bytes exactly if byte 10 is nowhere before the last of them and it stops there, at a full buffer, or where the text ends |
| ClientSteps.StepInv | test/client.c:40-146 | every callback keeps the invariant of shutdown, stop-and-wait and order |
| ClientSteps.RunInv | test/client.c:40-146 | over every interleaving of callbacks the invariant holds at the end |
| ClientRuns.StopAndWait | test/client.c:63-95 | in every reachable state: ready to send exactly if nothing is in flight; the one write request and the handles are never misused |
| ClientRuns.SentInOrder | test/client.c:73-83 | the payloads sent are, in order, the first pieces of the input up to their NUL; without NUL bytes they are the pieces and together a prefix of the input |
| ClientRuns.PayloadsWhole | test/client.c:56-61 | strlen leaves every piece whole if and only if the input has no NUL byte |
| ClientRuns.DrainedOnce | test/client.c:66-71 | if the loop drains, every handle was closed exactly once and every write was answered |
| ClientRuns.EndsByItselfExactly | test/client.c:73-93 | some run without a signal and without an error ends if and only if the last line does not end open |
| ClientSteps.EndsOpenExactly | test/client.c:76-82 | the last line ends open exactly if its length, counted after the last newline, is not a multiple of 1023 |
| ClientRuns.ShortLineWitness | test/client.c:73-93 | the input of one letter is such: no run without a signal and without an error ends |
| ClientRuns.QuietSendsAll | test/client.c:73-93 | without a signal the client terminates only after it has sent all of its input |
| ClientRuns.DrainableExactly | test/client.c:63-71 | after any run without an error the loop can still drain if and only if no request is open on a stream that is being closed |
| ClientRuns.DoomedWitness | test/client.c:63-71 | every input lets the client get there: a signal before the connection stands |
| ClientLaws.Account | test/client.c:40-153 | every possible run, by its events and the input alone: acked is the number of requests that succeeded; a line is sent for every turn that an idle callback takes before the wake-up, as long as there are lines; the end of the input is noticed, the wake-up pending, and the handles closed exactly when the events say so; and fatal is called exactly for a failed request of either kind, or in an idle callback that reads, if reading or sending fails |
| ClientLaws.DueExactly | test/client.c:73-93 | an idle callback reads exactly if the client was made ready after the last line, no wake-up came, and the end was not met with the last line |
| Client.Program.IdleCb | test/client.c:63-95 | refines the step on the real file and buffer and keeps the invariant: nothing is read or sent while a write is in flight |
| Client.Program.Load | test/client.c:56-61 | the buffers handed to the loop hold the message of the payload |
| Client.Program.SendCb | test/client.c:141-146 | refines the step of the run laws: a failed request ends the program in every phase; what the loop has written from the shared buffer is still the message that was sent, so the wire grows by exactly that frame |
| Client.Program.ConnectCb | test/client.c:124-129 | refines the step: a connection makes the client ready, an error ends it |
| Client.Program.AsyncCb | test/client.c:40-45 | refines the step: termination is set and the async handle closed, never a second time |
| Client.Program.SignalCb | test/client.c:47-54 | refines the step: the async handle is woken only before termination |
| Client.Program.CloseCb | test/client.c:148-153 | refines the step: the signal handles are closed when the socket has been |
| Client.Play | test/client.c:210-229 | the program over any callbacks calls fatal exactly as the events say, and the wire carries, whole and in order, as many messages of the input as requests succeeded: the shared buffer is never refilled too early |
| Client.EndToEnd | test/client.c:73-83 | any reads of the bytes that any run of the client has sent, answered or in flight, deliver the first pieces of its input |
| Client.EndToEndWritten | test/client.c:73-83 | the same for the bytes of the answered messages |
| Client.AllArrives | test/client.c:73-93 | if the client ends without signal and error and all it wrote is read, the receiver delivers exactly the pieces of the input |

## Left out

- libuv itself: the loop is an environment that calls back as its documentation allows, with at most as many bytes as were offered.
- The amortized bound in the splay tree's comment.
- Calls back into the library from inside `on_recv`, and a second accept on a client socket that is still in use: one connection at a time is assumed.
- Closing a socket while a message is held: `buv_close` does not touch that message, so the receive ledger speaks of connections that end by end of file or error.
- Reads that leave the block which `alloc_wrap` allocated, and a suggested size of 0: `SocketUv.Socket.AllocWrap` says exactly when a region that leaves the block is offered, and the runs of the socket have reads that stay within it.
- The loops `RB_FOREACH_FROM` and the reverse ones: `RbQuery.Next` and `RbQuery.Prev` are what they consist of.
- `RB_AUGMENT`, which is empty in this repository, and removal of an element that is not in the tree.
- SplayOps.SplayMinMax: does not cover a direction of 0, for which the loop of the source does not end.
- The flexible block behind `struct sc_msg` and the pointers into it: a message has a four-byte array and a data array, cursors are offsets.
- UriText.Strtol: the sizes of `long` are those of a 64-bit `long`; no result about ports depends on it.
- CStrings.StrtokS: does not model the count of remaining characters, which the parser sets to the length of the string.
- The bodies of the `ctb` functions, which are not part of this model.
- The copy of a block onto itself in `msg_setup`, which is taken to change nothing.
- Read errors in the middle of a file: `fgets` either fails as a whole or not at all.
- `on_recv` of the client and of the listening socket: no reading is started on either stream, so they are never called.
- Error strings, warnings, watchers without a callback, the table of backend functions, the text form of what is printed, command lines, build files and shell scripts.
