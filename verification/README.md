# A verified model of WireGuard for Android

This project models the algorithms at the core of the WireGuard app for Android and of
the tools it ships, and proves what they are for.

* **X25519, twice.** The Java implementation with ten 26-bit limbs (`JavaLimbs`,
  `JavaCurve25519`) and the C implementation with sixteen signed 16-bit limbs
  (`EmbeddableCurve`) are both proved against the formulas of section 5 of RFC 7748
  (`Field25519`), from bytes to bytes, with machine integer ranges checked at every
  operation. Those formulas are tied to the curve itself: doubling, differential addition and the
  first multiples (`MontgomeryLadder`). They give the same public key for every private key (`KeyAgreement`).
  `Bits` and `Positional` hold the two's-complement bit operations and the positional
  number system that both need.
* **Netlink.** The attribute writer and reader (`Netlink`), the WireGuard messages made of
  it (`WgAttributes`), their bytes in the numbers of the interface header (`WireFormat`), the
  effect of a request on the kernel (`WgDevice`), the sender that
  cuts a device of any size into messages of bounded size (`SetDevice`), and the code that
  joins the fragments of a dump (`Coalesce`).
* **syncconf.** The sort-and-scan difference (`SyncConf`) and why it has the effect of a full
  replace (`SyncEffect`).
* **Text.** The branch-free key codecs in C (`KeyCodec`, `HexCodec`) and in Java
  (`JavaKey`, `JavaHex`), the configuration highlighter (`Highlighter`) against a description of
  its lines (`HighlightLines`) and the reasons for every error (`HighlightReasons`), and the round
  trip of `showconf` through the configuration reader (`ConfigText`, `Config`, `ShowConf`), down to
  its effect on the kernel (`RestoreConf`), with the meaning of each line (`ConfigMeaning`);
  `Ascii` has the characters.
* **In-place and interval algorithms.** The ELF dynamic section compaction (`ElfCleaner`), the
  uid ranges of a tunnel (`UserRanges`), the sorted keyed list (`SortedKeyedList`) and its
  comparator (`TunnelComparator`).
* **Tunnel state machines.** The userspace backend over the Go handle table (`GoBackend`) and the
  wg-quick backend with its roll-back (`WgQuickBackend`), over the common `Tunnels`.

Machine integers are subset types of `int`, so an overflow is a failed proof; wrap-around
that the code relies on is written out. Objects and buffers that the code changes in place
are classes and arrays here. What the outside world decides is a parameter: which netlink
messages the kernel accepts, what the running device reports, which steps of a backend
fail and where, in which order a hash map yields its entries, what address and name
lookups and the highlighter's leaf validators answer, and the lower-case mapping.

Some statements turned out to hold only under a condition. Each is given with the exact
condition and an input where it fails.

* The Java code reduces a public key fully, and agrees with the RFC on it, only for the inputs
  named at `UnpackReducedExactly` and `InputMatchesDecodeU`, although a comment in the source says
  that it covers all of them (`AllOnesNotReduced`). For the rest the ladder's first square does
  not fit its limbs (`LargestKeysOverflow`).
* The Java codecs take characters above 255 for characters of the alphabet (`TableExactly`,
  `FromBase64Exactly`, `FromHex`; `WideText`, `WideHexText`).
* Joining the fragments of a dump loses the tail of a list, and may then follow a null pointer,
  after a fragment without allowed IPs (`CoalescePeers`; `BrokenChain`).
* A printed configuration cannot be read when a list of allowed IPs ends with an address of an
  unknown family (`RoundTrip`; `UnknownFamily`). The Linux and userspace readers refuse such an
  address when the device is read (`ipc-linux.h:323`, `ipc-uapi.h:272`), and the FreeBSD one knows
  only the two families; the OpenBSD and Windows readers take over the family that the system
  reports (`ipc-openbsd.h:162`, `ipc-windows.h:320`), so that it can arise there.
* A mark of 2^32 or more is refused only where unsigned long has more than 32 bits (`MarkLine`;
  `LargeMark`).
* The last uid range is lost for a list that ends with 99998 (`CompleteExactly`; `LastUidLost`).
* The name comparator is an order only on names with different tokens (`OrdersExactly`;
  `LeadingZeros`).
* A failed request leaves something new when the failure comes after the change: in the userspace
  backend (`GoBackend.SetState`; `LateSwitch`) and in the wg-quick backend
  (`WgQuickBackend.SetState`; `LateCallback`).
* Synchronising has the effect of replacing unless a section is told to clear what another section
  of the same peer says, or leaves an old route behind (`SyncEqualsReplace`; `LaterSectionFirst`,
  `OldRouteStays`).

`dafny verify dfyconfig.toml` checks the whole project.

## Model

| member | source | states |
|---|---|---|
| KeyAgreement.BothPublicKeys | tunnel/src/main/java/com/wireguard/crypto/Key.java:201-205 | for every 32-byte private key the Java code (with its signed bytes) and the C code produce the same 32 bytes, and these are the encoding of X25519 of the clamped key and u = 9 |
| JavaCurve25519.Curve25519.Eval | tunnel/src/main/java/com/wireguard/crypto/Curve25519.java:101-159 | writes exactly the encoding of X25519(clamped key, u) of section 5 of RFC 7748 at the offset and nothing else, for the base point and for every public key except the nineteen largest 256-bit values; u is the public key modulo p |
| JavaCurve25519.Curve25519.EvalCurve | tunnel/src/main/java/com/wireguard/crypto/Curve25519.java:238-294 | the bit walk over the unclamped bytes, with its deferred swaps, ends in the ladder state of the RFC for the clamped scalar |
| JavaCurve25519.Curve25519.LadderStep | tunnel/src/main/java/com/wireguard/crypto/Curve25519.java:255-273 | one ladder step on limb arrays that share scratch space computes the RFC's step formulas |
| JavaCurve25519.Curve25519.CSwapPoint | tunnel/src/main/java/com/wireguard/crypto/Curve25519.java:83-90 | the masked xor swap exchanges the values of the two points if the swap bit is 1 and keeps all four if it is 0, stated of each array |
| JavaCurve25519.Curve25519.Mul | tunnel/src/main/java/com/wireguard/crypto/Curve25519.java:303-327 | canonical product mod 2^255-19 even when the result aliases a factor, without int or long overflow; keeps t1[19] == 0, which it reads and never writes |
| JavaCurve25519.Curve25519.MulA24 | tunnel/src/main/java/com/wireguard/crypto/Curve25519.java:335-345 | canonical product with 121665, aliasing allowed, no overflow |
| JavaCurve25519.Curve25519.Square | tunnel/src/main/java/com/wireguard/crypto/Curve25519.java:497-499 | canonical square |
| JavaCurve25519.Curve25519.Add | tunnel/src/main/java/com/wireguard/crypto/Curve25519.java:200-207 | canonical sum, for all three arrays possibly the same |
| JavaCurve25519.Curve25519.Sub | tunnel/src/main/java/com/wireguard/crypto/Curve25519.java:168-191 | canonical difference after the two borrow passes, for all three arrays possibly the same |
| JavaCurve25519.Curve25519.Reduce | tunnel/src/main/java/com/wireguard/crypto/Curve25519.java:417-460 | a value below 2^510 in up to twenty limbs is replaced by its canonical remainder mod p; every intermediate fits an int |
| JavaCurve25519.Curve25519.ReduceQuick | tunnel/src/main/java/com/wireguard/crypto/Curve25519.java:468-489 | below 2^256 it takes p away once, exactly when p <= v < 2^256-19, and keeps the digits in range |
| JavaCurve25519.Curve25519.Pow250 | tunnel/src/main/java/com/wireguard/crypto/Curve25519.java:353-383 | the repeated ten-bit pattern reaches the exponent 2^250-1 for every base |
| JavaCurve25519.Curve25519.Recip | tunnel/src/main/java/com/wireguard/crypto/Curve25519.java:391-407 | the result is x^(p-2) |
| JavaCurve25519.Curve25519.Unpack | tunnel/src/main/java/com/wireguard/crypto/Curve25519.java:106-126 | 32 little-endian bytes, straddling 26-bit limbs, are read as their value with two trial subtractions |
| JavaCurve25519.Curve25519.Pack | tunnel/src/main/java/com/wireguard/crypto/Curve25519.java:146-154 | the bytes written are the little-endian digits of the canonical value |
| JavaLimbs.UnpackMatchesDecodeU | tunnel/src/main/java/com/wireguard/crypto/Curve25519.java:107-126 | the element read is the one of the RFC if and only if bit 255 is clear: the code does not mask it |
| JavaLimbs.UnpackReducedExactly | tunnel/src/main/java/com/wireguard/crypto/Curve25519.java:122-126 | the two trial subtractions give a reduced value if and only if the input is below 2^256-19, against the comment that they cover all 256-bit values |
| JavaLimbs.InputMatchesDecodeU | tunnel/src/main/java/com/wireguard/crypto/Curve25519.java:107-126 | hence Eval works on the RFC's u-coordinate if and only if bit 255 is clear |
| JavaLimbs.AllOnesNotReduced | tunnel/src/main/java/com/wireguard/crypto/Curve25519.java:107-126 | thirty-two bytes 255 are read as an element that is not reduced and is not the RFC's |
| JavaLimbs.LargestKeysOverflow | tunnel/src/main/java/com/wireguard/crypto/Curve25519.java:417-460 | for each of the nineteen largest 256-bit keys neither the key nor one more than it is reduced, and the square of the latter, which the first ladder step computes, makes the first pass of reduce exceed its ten limbs |
| Field25519.EagerIsDeferred | tunnel/src/main/java/com/wireguard/crypto/Curve25519.java:238-294 | swapping back after every step (the C code) and deferring the swap to the next step (Java and the RFC) give the same ladder |
| MontgomeryLadder.Doubling | tunnel/src/main/java/com/wireguard/crypto/Curve25519.java:255-273 | one step doubles (x:z): the new pair is proportional to (x^2-z^2)^2 : 4xz(x^2+486662xz+z^2), with the curve's own constant |
| MontgomeryLadder.Adding | tunnel/src/main/java/com/wireguard/crypto/Curve25519.java:255-273 | and adds two points with known difference u: the pair is proportional to (x2*x3-z2*z3)^2 : u(x2*z3-z2*x3)^2 |
| MontgomeryLadder.LadderEven | tunnel/src/main/java/com/wireguard/crypto/Curve25519.java:238-294 | the ladder of an even scalar is that of its half and one step more, which doubles its first point |
| MontgomeryLadder.LadderOdd | tunnel/src/main/java/com/wireguard/crypto/Curve25519.java:238-294 | for an odd scalar the two points change places before and after that step, so that the first becomes their sum |
| MontgomeryLadder.ScalarZero | tunnel/src/main/java/com/wireguard/crypto/Curve25519.java:238-294 | zero times u is the point at infinity, for every u |
| MontgomeryLadder.ScalarOne | tunnel/src/main/java/com/wireguard/crypto/Curve25519.java:238-294 | one times u is u as a fraction, for every u |
| MontgomeryLadder.ScalarOneUnit | tunnel/src/main/java/com/wireguard/crypto/Curve25519.java:238-294 | with a denominator that is invertible if u is, so the quotient is u and not zero |
| MontgomeryLadder.ScalarTwo | tunnel/src/main/java/com/wireguard/crypto/Curve25519.java:238-294 | two times u is (u^2-1)^2 / (4u(u^2+486662u+1)), for every u |
| MontgomeryLadder.FPowIsPow | tunnel/src/main/java/com/wireguard/crypto/Curve25519.java:391-407 | the field power is the integer power reduced |
| MontgomeryLadder.EncodedValue | tunnel/src/main/java/com/wireguard/crypto/Curve25519.java:146-154 | the encoding is thirty-two bytes whose little-endian value is the element |
| MontgomeryLadder.ClampedScalar | tunnel/tools/wireguard-tools/contrib/embeddable-wg-library/wireguard.c:1675-1679 | the clamped scalar is 2^254 + v mod 2^254 - v mod 8 for the little-endian value v of the bytes |
| EmbeddableCurve.GeneratePublicKey | tunnel/tools/wireguard-tools/contrib/embeddable-wg-library/wireguard.c:1681-1727 | writes the RFC 7748 public key for every private key |
| EmbeddableCurve.RunLadder | tunnel/tools/wireguard-tools/contrib/embeddable-wg-library/wireguard.c:1693-1720 | 255 steps over int64 limbs equal the ladder with a swap before and after each step; every product stays inside int64 |
| EmbeddableCurve.MultMod | tunnel/tools/wireguard-tools/contrib/embeddable-wg-library/wireguard.c:1641-1657 | congruent to the product, limbs back in [-38, 65573], no int64 overflow, aliasing allowed |
| EmbeddableCurve.Carry | tunnel/tools/wireguard-tools/contrib/embeddable-wg-library/wireguard.c:1569-1577 | one pass keeps the residue and narrows the limbs |
| EmbeddableCurve.Add | tunnel/tools/wireguard-tools/contrib/embeddable-wg-library/wireguard.c:1625-1631 | limb-wise sum with the residue of the field sum |
| EmbeddableCurve.Subtract | tunnel/tools/wireguard-tools/contrib/embeddable-wg-library/wireguard.c:1633-1639 | limb-wise difference with the residue of the field difference |
| EmbeddableCurve.CSwapLimbs | tunnel/tools/wireguard-tools/contrib/embeddable-wg-library/wireguard.c:1579-1593 | exchanges the limbs exactly when the bit is set |
| EmbeddableCurve.SwapPoint | tunnel/tools/wireguard-tools/contrib/embeddable-wg-library/wireguard.c:1692-1693 | two conditional exchanges swap the residues of the two points if the bit is 1 and keep them if it is 0 |
| EmbeddableCurve.Invert | tunnel/tools/wireguard-tools/contrib/embeddable-wg-library/wireguard.c:1659-1673 | the loop that skips bits 2 and 4 computes the power p-2 |
| EmbeddableCurve.Pack | tunnel/tools/wireguard-tools/contrib/embeddable-wg-library/wireguard.c:1595-1623 | the two trial subtractions leave the unique representative below p, written little-endian |
| EmbeddableCurve.ClampKey | tunnel/tools/wireguard-tools/contrib/embeddable-wg-library/wireguard.c:1675-1679 | the three masked bytes are the RFC's clamping of the scalar |
| Netlink.RoundTrip | tunnel/tools/wireguard-tools/src/netlink.h:159-169 | every attribute tree written to bytes, padding included, is read back as the same tree by the nested walker |
| Netlink.WalkEncodeAll | tunnel/tools/wireguard-tools/src/netlink.h:266-276 | walking one level yields exactly the attributes written to it, in order |
| Netlink.ForEach | tunnel/tools/wireguard-tools/src/netlink.h:254-264 | the loop with attr_ok and attr_next yields the walk of the buffer, for any bytes, well-formed or not |
| Netlink.MsgBuffer.Put | tunnel/tools/wireguard-tools/src/netlink.h:305-319 | appends one attribute to the innermost open nest; every byte and every attribute written before stays |
| Netlink.MsgBuffer.PutCheck | tunnel/tools/wireguard-tools/src/netlink.h:345-352 | appends and says so if and only if the attribute fits; otherwise the message stays as it was; the bytes before are kept either way |
| Netlink.MsgBuffer.NestStart | tunnel/tools/wireguard-tools/src/netlink.h:336-343 | opens a nest at the current end and keeps the bytes before it |
| Netlink.MsgBuffer.NestStartCheck | tunnel/tools/wireguard-tools/src/netlink.h:372-378 | opens a nest if its header fits, otherwise changes nothing; the bytes before are kept either way |
| Netlink.MsgBuffer.NestEnd | tunnel/tools/wireguard-tools/src/netlink.h:380-383 | closing writes the length back: the nest becomes one attribute of its parent, and the bytes before the nest are kept |
| Netlink.MsgBuffer.NestCancel | tunnel/tools/wireguard-tools/src/netlink.h:385-388 | the innermost nest is gone, the length is where it began and the bytes before it are kept |
| Netlink.Abandoned | tunnel/tools/wireguard-tools/src/netlink.h:336-388 | a nest is started, any sequence of attributes and inner nests is written, ended or cancelled, and the nest is cancelled: the message is byte for byte what it was before the start |
| Netlink.MsgBuffer.Finished | tunnel/tools/wireguard-tools/src/netlink.h:380-388 | with no nest open the bytes after the headers are the encoding of the tree built |
| SetDevice.KernelSetDevice | tunnel/tools/wireguard-tools/src/ipc-linux.h:142-276 | for every device and every buffer that fits one peer header and one allowed IP: finitely many messages, each within the buffer and decoding to its request; device scalars and the replace flag only in the first; when all are accepted, applying them in order equals applying the whole device at once, from every kernel state; a refused message is the last, and those before it have the effect of the device cut off at a peer and an allowed IP; the bytes of each, read by a reader of their own, carry what is sent in the numbers of the interface header |
| SetDevice.BuildMessage | tunnel/tools/wireguard-tools/src/ipc-linux.h:155-258 | one message from a cursor: it makes progress, its bytes decode to the fragment, and the cursor after it is where the next must go on |
| SetDevice.PutPeer | tunnel/tools/wireguard-tools/src/ipc-linux.h:178-241 | a peer or its continuation with as many allowed IPs as fit; on overflow of the header the message is as before; the bytes before the peer are kept either way |
| SetDevice.PutIps | tunnel/tools/wireguard-tools/src/ipc-linux.h:216-235 | writes a prefix of the remaining allowed IPs; the one that does not fit is cancelled without trace; the bytes before are kept |
| SetDevice.PutIp | tunnel/tools/wireguard-tools/src/ipc-linux.h:217-234 | one allowed IP is in the tree, or there was too little room and the message is as before, its bytes included |
| SetDevice.PutPeerIps | tunnel/tools/wireguard-tools/src/ipc-linux.h:210-238 | the nest of allowed IPs completes the tree of the fragment that is in the message; a cut at its very beginning means too little room |
| SetDevice.PutPeerHead | tunnel/tools/wireguard-tools/src/ipc-linux.h:183-209 | all header attributes in order, or a buffer too small for any header |
| SetDevice.PutDeviceHead | tunnel/tools/wireguard-tools/src/ipc-linux.h:156-172 | the tree of name, scalars and flags of the request at hand, within the room set aside for it |
| SetDevice.IdealBufferFits | tunnel/tools/wireguard-tools/src/netlink.h:70-80 | the buffer size in use always meets the requirement of KernelSetDevice |
| SetDevice.MessageReadBack | tunnel/tools/wireguard-tools/src/ipc-linux.h:156-258 | reading the bytes of a message by the attribute types of the interface gives the request that was meant |
| WireFormat.MessageWire | tunnel/tools/wireguard-tools/src/uapi/linux/linux/wireguard.h:150-165 | the bytes of a message are a device in the numbers of the header: 2 name, 3 private key, 5 flags, 6 port, 7 mark, 8 peers, each present exactly when it is set, and all peers in order |
| WireFormat.PeerWire | tunnel/tools/wireguard-tools/src/uapi/linux/linux/wireguard.h:168-188 | a peer: 1 public key, 2 preshared key, 3 flags with bit 0 for removal and bit 1 for replacing, 4 endpoint, 5 keepalive in two bytes, 9 allowed IPs |
| WireFormat.IpWire | tunnel/tools/wireguard-tools/src/uapi/linux/linux/wireguard.h:191-202 | an allowed IP: 1 family in two bytes, 2 address, 3 prefix length in one, 4 flags only if there are any |
| WireFormat.FieldsAreRaws | tunnel/tools/wireguard-tools/src/netlink.h:254-264 | the reader that is written out here, with lengths and padding in numbers, and the walk agree on any bytes |
| WireFormat.ReadExample | tunnel/tools/wireguard-tools/src/netlink.h:159-169 | sixteen given bytes are the name wg0 and the port 51820 |
| SetDevice.CutFragment | tunnel/tools/wireguard-tools/src/ipc-linux.h:246-253 | a peer cut at any allowed IP, applied in two messages, has the effect of the uncut peer |
| SetDevice.DoneMore | tunnel/tools/wireguard-tools/src/ipc-linux.h:246-253 | sending one more fragment turns the effect of the device up to a cursor into that of the device up to the next cursor |
| WgDevice.FirstPartThenRest | tunnel/tools/wireguard-tools/src/uapi/linux/linux/wireguard.h:72-130 | by the documented semantics a first fragment followed by its continuation equals the whole peer, replace and remove flags included |
| WgDevice.ContinuationSplits | tunnel/tools/wireguard-tools/src/uapi/linux/linux/wireguard.h:72-130 | a continuation may itself be cut again |
| WgDevice.ApplyPeersConcat | tunnel/tools/wireguard-tools/src/uapi/linux/linux/wireguard.h:72-130 | applying two lists of peers in two requests equals applying them in one |
| WgAttributes.ReadMessage | tunnel/tools/wireguard-tools/src/uapi/linux/linux/wireguard.h:72-130 | a message tree is read back attribute by attribute into the request it encodes |
| WgAttributes.ReadPeerTree | tunnel/tools/wireguard-tools/src/uapi/linux/linux/wireguard.h:95-130 | likewise for one peer with its allowed IPs |
| Coalesce.CoalescePeers | tunnel/tools/wireguard-tools/src/ipc-linux.h:456-476 | relinks the lists in place: a null pointer is followed if and only if a peer with allowed IPs has an empty continuation and then any further entry; otherwise the values are those of the coalesced list, and every last_allowedip is the true tail if and only if no entry with allowed IPs has an empty continuation |
| Coalesce.CoalescedApart | tunnel/tools/wireguard-tools/src/ipc-linux.h:460-475 | no two adjacent peers with one key are left, and the first keeps its scalar fields |
| Coalesce.CoalesceRecovers | tunnel/tools/wireguard-tools/src/ipc-linux.h:456-476 | coalescing any split of peers into fragments gives the original peers back |
| Coalesce.JoinNext | tunnel/tools/wireguard-tools/src/ipc-linux.h:465-474 | one turn of the loop, on lists that may have lost their tail: the next peer's allowed IPs move over and its node leaves the chain, or a null pointer is followed exactly when the tail was lost |
| Coalesce.JoinIps | tunnel/tools/wireguard-tools/src/ipc-linux.h:465-471 | the joined list has its true tail if and only if the first was empty or the second is not; following a null pointer happens exactly when the tail was lost before, and then nothing has changed |
| Coalesce.BrokenChain | tunnel/tools/wireguard-tools/src/ipc-linux.h:460-475 | three entries of one peer with one allowed IP, none and one: the loop follows a null pointer |
| SyncConf.Sync | tunnel/tools/wireguard-tools/src/setconf.c:30-114 | for any keys on both sides: the order of the file is kept, only an unmentioned preshared key or keepalive may be cleared, and only running peers are removed; with each running peer listed once, the removals are exactly the running peers that the file lacks, and exactly the sections that a running peer meets in the sorted array are adjusted |
| SyncEffect.SyncEqualsReplace | tunnel/tools/wireguard-tools/src/setconf.c:30-114 | for any file, repeated keys and incremental allowed IPs included, and any order that the sort may give to equal keys: applied to the kernel that was read, the synchronised request leaves the same scalars, peers, preshared keys, keepalives and allowed IPs as a full replace, but for endpoints that the file leaves open, if and only if no section that a running peer meets is told to clear what an earlier section says last, and the file replaces or mentions every route of its running peers; no peer in both is marked for removal |
| SyncEffect.SyncDevice | tunnel/tools/wireguard-tools/src/setconf.c:30-114 | the same for the operation as a whole, with its early returns, for every file and every kernel state that the running peers report |
| SyncEffect.InOrderPreserves | tunnel/tools/wireguard-tools/src/setconf.c:30-114 | the condition always holds when every section replaces its allowed IPs and sections with one key are sorted in the order of the file |
| SyncEffect.DistinctInOrder | tunnel/tools/wireguard-tools/src/setconf.c:21-28 | with distinct keys there is no other order |
| SyncEffect.LaterSectionFirst | tunnel/tools/wireguard-tools/src/setconf.c:94-110 | two sections of one peer, the first with a preshared key, sorted the other way round, and a running preshared key: the array is a sorted one and the condition fails |
| SyncEffect.OldRouteStays | tunnel/tools/wireguard-tools/src/setconf.c:77-110 | a section that only adds allowed IPs, and a running peer with another route: the condition fails for every order |
| SyncEffect.AttributeKept | tunnel/tools/wireguard-tools/src/setconf.c:94-110 | one attribute, with any number of sections: clearing it in one section gives what a replace gives if and only if nothing said before that section, and not said again after it, is lost |
| SyncEffect.StaleRoute | tunnel/tools/wireguard-tools/src/setconf.c:77-110 | one prefix: a route from before stays to the end if and only if no section touches it, and a touched one might as well not have been there |
| SyncConf.PartnersAdjacent | tunnel/tools/wireguard-tools/src/setconf.c:77-80 | after sorting, the entry right after a running peer is a section with its key, if the file has any: why looking one ahead is enough |
| SyncConf.StaysExactly | tunnel/tools/wireguard-tools/src/setconf.c:80-80 | the look-ahead test is true if and only if the file has the peer, repeated keys or not |
| SyncConf.MetOnce | tunnel/tools/wireguard-tools/src/setconf.c:77-110 | of several sections with one key a running peer meets at most one, and only a running peer meets any |
| SyncConf.MetFirst | tunnel/tools/wireguard-tools/src/setconf.c:77-110 | it is the first one when the sort keeps the order of the file |
| SyncConf.DistinctMet | tunnel/tools/wireguard-tools/src/setconf.c:77-110 | with distinct keys exactly the sections whose peer is running are met |
| SyncConf.Arrange | tunnel/tools/wireguard-tools/src/setconf.c:65-75 | the sorted array has every peer of both sides once |
| SyncConf.PeerCmpTransitive | tunnel/tools/wireguard-tools/src/setconf.c:21-28 | the comparison is transitive |
| SyncConf.CompareTransitive | tunnel/tools/wireguard-tools/src/setconf.c:24-24 | memcmp on keys is transitive, and equal ends make the middle equal |
| SyncConf.CompareExactly | tunnel/tools/wireguard-tools/src/setconf.c:24-24 | the first byte that differs decides, as a number |
| SyncEffect.RemovalsEffect | tunnel/tools/wireguard-tools/src/setconf.c:81-93 | a list of removals takes exactly those peers and their routes away |
| SyncEffect.PeersAfter | tunnel/tools/wireguard-tools/src/uapi/linux/linux/wireguard.h:72-130 | after any sections a peer has what was last said of each attribute, or what it had |
| KeyCodec.KeyFromBase64 | tunnel/tools/wireguard-tools/src/encoding.c:50-72 | accepts a text if and only if it is the base64 of some key, and then returns that key and no other |
| KeyCodec.KeyToBase64 | tunnel/tools/wireguard-tools/src/encoding.c:24-33 | writes the RFC 4648 base64 of the key with its padding, and the terminator |
| KeyCodec.KeyShapeExactly | tunnel/tools/wireguard-tools/src/encoding.c:50-72 | a text is the base64 of a key if and only if it is 43 characters of the alphabet, the last carrying no spare bits, and one padding character |
| KeyCodec.Base64Injective | tunnel/tools/wireguard-tools/src/encoding.c:24-33 | different keys have different texts |
| KeyCodec.DecodeGroup | tunnel/tools/wireguard-tools/src/encoding.c:35-48 | four characters give their 24-bit number, or a negative number if and only if one is not of the alphabet |
| KeyCodec.DecodeCharExactly | tunnel/tools/wireguard-tools/src/encoding.c:40-46 | the branch-free sum of masks is Table 1 of RFC 4648 read backwards, for every signed or unsigned char |
| KeyCodec.EncodeCharExactly | tunnel/tools/wireguard-tools/src/encoding.c:16-20 | the branch-free formula is Table 1 of RFC 4648 |
| JavaKey.DecodeChar16Exactly | tunnel/src/main/java/com/wireguard/crypto/Key.java:49-55 | the Java formula with its unsigned shifts, for every 16-bit character: the table below 256, and above it the table of the low byte cut to as many bits as the high byte ends in zeros |
| JavaKey.TableExactly | tunnel/src/main/java/com/wireguard/crypto/Key.java:49-55 | so it is the table if and only if the character is below 256, its low byte is not of the alphabet, or the cut takes nothing that matters |
| JavaKey.WideCharacter | tunnel/src/main/java/com/wireguard/crypto/Key.java:49-55 | U+022B is not of the alphabet and decodes to zero |
| JavaKey.DecodeGroup16 | tunnel/src/main/java/com/wireguard/crypto/Key.java:45-58 | four characters give the 24-bit number of the characters they are taken for, or a negative number if and only if one is refused |
| JavaKey.FromBase64 | tunnel/src/main/java/com/wireguard/crypto/Key.java:92-120 | the length exception exactly for another length or ending; a key if and only if the characters, as they are taken, are the base64 of one, and then it is that key |
| JavaKey.FromBase64Exactly | tunnel/src/main/java/com/wireguard/crypto/Key.java:92-120 | a text of the right shape is the base64 of a key if and only if it is taken for one and has no character above 255 |
| JavaKey.WideText | tunnel/src/main/java/com/wireguard/crypto/Key.java:92-120 | 43 characters U+022B and the padding are not base64 and are taken for the key of zeros |
| JavaKey.EncodeChar16Exactly | tunnel/src/main/java/com/wireguard/crypto/Key.java:77-81 | the Java formula is the table |
| JavaKey.ToBase64 | tunnel/src/main/java/com/wireguard/crypto/Key.java:240-253 | the base64 of the key, for signed bytes |
| JavaKey.ThereAndBack | tunnel/src/main/java/com/wireguard/crypto/Key.java:92-120 | decoding what was encoded gives every key back |
| JavaHex.NibbleExactly | tunnel/src/main/java/com/wireguard/crypto/Key.java:157-163 | the masks of a 16-bit character: refused are, below 256, exactly what is no digit, and above it exactly U+0130 to U+0139; a digit gives its value |
| JavaHex.FromHex | tunnel/src/main/java/com/wireguard/crypto/Key.java:142-178 | the length exception exactly for another length; a key exactly when no character is refused, and then every byte is that of the values its two characters are taken for; what is taken is hexadecimal if and only if no character is above 255, and then the key is what it spells |
| JavaHex.WideHexText | tunnel/src/main/java/com/wireguard/crypto/Key.java:142-178 | 64 characters U+0100 are taken for the key of zeros |
| JavaHex.ToHex | tunnel/src/main/java/com/wireguard/crypto/Key.java:260-269 | the lower-case digits of every byte, for signed bytes |
| JavaHex.ThereAndBack | tunnel/src/main/java/com/wireguard/crypto/Key.java:142-178 | decoding what was written gives every key back |
| HexCodec.KeyFromHex | tunnel/tools/wireguard-tools/src/encoding.c:85-114 | accepts exactly 64 hexadecimal digits of either case, returns the bytes they spell, and so inverts KeyToHex |
| HexCodec.KeyToHex | tunnel/tools/wireguard-tools/src/encoding.c:74-83 | writes the lower-case digits of every byte |
| HexCodec.HexSpells | tunnel/tools/wireguard-tools/src/encoding.c:74-83 | what is written are digits, never upper case, that spell the key |
| HexCodec.Nibble | tunnel/tools/wireguard-tools/src/encoding.c:94-100 | one character's value by unsigned wrap-around masks, or the failure byte set |
| Highlighter.HighlightConfig | tunnel/tools/wireguard-tools/contrib/highlighter/highlighter.c:574-641 | for every text the spans of the single pass are those of the text taken line by line; they are in order, not empty, inside the text and cover every character but space, tab and newline; each colour is earned by what the span covers; a field is coloured only if it belongs to the section of the last header before it; and a span is an error only if it is a name without an equals sign, an equals sign without a value, a name that is no field of the section in force, a bracketed line that is no header, a comma with nothing after it, or a value that is not accepted for the field before its equals sign |
| Highlighter.ExactlyOne | tunnel/tools/wireguard-tools/contrib/highlighter/highlighter.c:574-641 | hence every such character lies in exactly one span |
| HighlightReasons.ErrorsExcused | tunnel/tools/wireguard-tools/contrib/highlighter/highlighter.c:574-641 | every error of the lines has one of the six reasons, in a line of the text and with the section in force there |
| HighlightReasons.RightSetting | tunnel/tools/wireguard-tools/contrib/highlighter/highlighter.c:584-630 | a name of the section is coloured as a field, and the value by the field that is named, whatever the section |
| HighlightReasons.Example | tunnel/tools/wireguard-tools/contrib/highlighter/highlighter.c:574-641 | "[Interface]", a newline and "ListenPort = " before any accepted port: header, field, delimiter and port |
| HighlightReasons.FieldsExactly | tunnel/tools/wireguard-tools/contrib/highlighter/highlighter.c:373-397 | a name is a field exactly when it is one of the seventeen names, in any case |
| HighlightReasons.SectionsExactly | tunnel/tools/wireguard-tools/contrib/highlighter/highlighter.c:364-406 | which names belong to which section, and which texts are headers |
| HighlightLines.LineOn | tunnel/tools/wireguard-tools/contrib/highlighter/highlighter.c:611-637 | a character inside a line keeps the scan in step with the line |
| HighlightLines.LineOver | tunnel/tools/wireguard-tools/contrib/highlighter/highlighter.c:584-610 | at the end of a line, of the text, or before a comment, what was recorded is what the line should give |
| Highlighter.IsValidKey | tunnel/tools/wireguard-tools/contrib/highlighter/highlighter.c:60-92 | agrees with key_from_base64 on every string |
| Highlighter.HighlightValue | tunnel/tools/wireguard-tools/contrib/highlighter/highlighter.c:510-572 | the value is covered to its end; a single value has the colour of its field if and only if it is valid, for keys: if and only if key_from_base64 would accept it; no span of a value looks like a header or a field; the spans of an endpoint and of a list are exactly those of its parts |
| Highlighter.SingleValue | tunnel/tools/wireguard-tools/contrib/highlighter/highlighter.c:510-572 | the colour of a single value is that of its field if and only if it is valid |
| Highlighter.HighlightMultivalue | tunnel/tools/wireguard-tools/contrib/highlighter/highlighter.c:482-508 | a list that does not end with a blank gives exactly the spans of its entries and commas, with a comma at its end as an error; otherwise pieces, commas and stray blanks are covered, and earlier spans stay but for the colour of the last when nothing is added |
| Highlighter.HighlightMultivalueValue | tunnel/tools/wireguard-tools/contrib/highlighter/highlighter.c:445-480 | one entry of a list gives exactly its spans, covered to its end, and begins with an error if and only if the entry is not valid |
| Highlighter.HighlightNetwork | tunnel/tools/wireguard-tools/contrib/highlighter/highlighter.c:456-476 | address, slash and prefix length, split at the first slash, or one error if and only if the network is not valid |
| Highlighter.HighlightEndpoint | tunnel/tools/wireguard-tools/contrib/highlighter/highlighter.c:548-563 | an invalid endpoint is one error span; a valid one is split at its last colon into host, delimiter and port, and these cover the value |
| Highlighter.IsValidEndpoint | tunnel/tools/wireguard-tools/contrib/highlighter/highlighter.c:272-313 | accepts exactly the endpoints: a host, or an address with an optional scope in brackets, then a colon and a port, each part by its validator |
| Highlighter.IsValidBracketed | tunnel/tools/wireguard-tools/contrib/highlighter/highlighter.c:278-305 | the loop over a bracketed endpoint decides the same |
| Highlighter.EndpointHasColon | tunnel/tools/wireguard-tools/contrib/highlighter/highlighter.c:272-313 | every endpoint has a colon, so the search for the last one cannot fail |
| Highlighter.Flush | tunnel/tools/wireguard-tools/contrib/highlighter/highlighter.c:584-602 | at the end of a line, of the text, or before a comment the pending piece is recorded: a name without an equals sign, an equals sign alone, an equals sign and the spans of the value for the field, a header by its text, a comment; and the section follows the header |
| Highlighter.SpanArray.Append | tunnel/tools/wireguard-tools/contrib/highlighter/highlighter.c:425-443 | empty spans are not recorded; others go to the end |
| ShowConf.RoundTrip | tunnel/tools/wireguard-tools/src/showconf.c:40-97 | the lines printed for a device can be read if and only if no peer's list ends with an address of another family; then, read one by one and finished, they give the same private key, port, mark and ordered peers with keys, allowed IPs of the two families, endpoints and keepalives; platform lookups are assumed inverse |
| ShowConf.UnknownFamily | tunnel/tools/wireguard-tools/src/showconf.c:59-71 | a peer whose only allowed IP is of another family is printed as a line that the reader refuses |
| ShowConf.ListedJoined | tunnel/tools/wireguard-tools/src/showconf.c:59-71 | skipping unknown addresses and deciding on the separator by the next list node still gives a list separated by commas, if the last one is known |
| RestoreConf.SaveRestore | tunnel/tools/wireguard-tools/src/showconf.c:40-97 | applying what was read back to the kernel that was printed changes nothing: keys, port, mark, peers, endpoints, keepalives and every route |
| ShowConf.ReadShown | tunnel/tools/wireguard-tools/src/config.c:506-568 | the reader itself, fed with the printed lines, returns that device, or refuses in the case above |
| ShowConf.IpBack | tunnel/tools/wireguard-tools/src/config.c:369-412 | a printed allowed IP is parsed back with its family, address and prefix and without incremental flags |
| ShowConf.EndpointBack | tunnel/tools/wireguard-tools/src/config.c:195-280 | a printed endpoint, bracketed or not, splits back into its host and service |
| ShowConf.MarkStep | tunnel/tools/wireguard-tools/src/config.c:77-105 | a mark printed in hexadecimal is read back |
| ShowConf.SectionBack | tunnel/tools/wireguard-tools/src/config.c:446-497 | the settings after a peer header fill the section with that peer |
| ConfigText.SplitJoin | tunnel/tools/wireguard-tools/src/config.c:368-369 | splitting at commas undoes joining with them |
| ConfigText.ParseNumber | tunnel/tools/wireguard-tools/src/config.c:402-402 | reading a printed number in its base gives the number |
| Config.ConfigReader.ReadLine | tunnel/tools/wireguard-tools/src/config.c:506-539 | the context after a line is the specified one, and the line is refused exactly when that has none; what the specification means for each line is stated in ConfigMeaning |
| Config.ConfigReader.CleanLine | tunnel/tools/wireguard-tools/src/config.c:513-530 | comment and white space are gone and nothing else |
| Config.ConfigReader.AllowedIps | tunnel/tools/wireguard-tools/src/config.c:354-434 | all entries are appended in order, or the value is refused if one is malformed; what an entry means is stated by Signs, WholeAddress, MaskedAddress and List |
| Config.ConfigReader.ParseKey | tunnel/tools/wireguard-tools/src/config.c:107-115 | yields the key whose base64 the value is, if there is one |
| ConfigMeaning.Signs | tunnel/tools/wireguard-tools/src/config.c:340-352 | for every t without a sign: t, -t and +t are accepted together with one family, address and prefix; the flags are 0, 1 and 0, and only t alone keeps replacing |
| ConfigMeaning.SignedLines | tunnel/tools/wireguard-tools/src/config.c:340-434 | the same of whole lines in any section, carried to the kernel: after -t the peer does not own the prefix, after +t and after t it does |
| ConfigMeaning.WholeAddress | tunnel/tools/wireguard-tools/src/config.c:405-408 | an address without a slash is an IPv6 one exactly if it has a colon, and has prefix 128 or 32 |
| ConfigMeaning.MaskedAddress | tunnel/tools/wireguard-tools/src/config.c:399-404 | with a slash the mask is a decimal number of at most 128 or 32; anything else is refused |
| ConfigMeaning.List | tunnel/tools/wireguard-tools/src/config.c:354-434 | a list is its entries in order, and replaces exactly if none has a sign |
| ConfigMeaning.ListRefused | tunnel/tools/wireguard-tools/src/config.c:354-434 | one refused entry makes the list refused |
| ConfigMeaning.MarkLine | tunnel/tools/wireguard-tools/src/config.c:77-105 | a mark is off, or a decimal or 0x-hexadecimal number below 2^32; a larger number is refused if and only if unsigned long is wider than 32 bits, and is the largest mark elsewhere; anything else is refused |
| ConfigMeaning.LargeMark | tunnel/tools/wireguard-tools/src/config.c:77-105 | the digits of 2^32 on a 32-bit platform: accepted as 0xffffffff |
| ConfigMeaning.KeepaliveLine | tunnel/tools/wireguard-tools/src/config.c:282-306 | a keepalive is off or a decimal number below 2^16; anything else is refused |
| ConfigMeaning.PortLine | tunnel/tools/wireguard-tools/src/config.c:39-75 | a port is what the platform's lookup makes of it, or refused |
| ConfigMeaning.NotAKey | tunnel/tools/wireguard-tools/src/config.c:107-115 | what is not the base64 of a key is refused wherever a key is due |
| ConfigMeaning.EndpointLine | tunnel/tools/wireguard-tools/src/config.c:195-280 | a host in brackets may hold colons, otherwise the last colon ends it; host and service go to the resolver as they are |
| ConfigMeaning.NoService | tunnel/tools/wireguard-tools/src/config.c:195-280 | no colon, or nothing after the last one: refused |
| ConfigMeaning.UnknownInDevice | tunnel/tools/wireguard-tools/src/config.c:436-504 | an interface section knows three names and refuses every other line |
| ConfigMeaning.UnknownInPeer | tunnel/tools/wireguard-tools/src/config.c:436-504 | a peer section knows five |
| ConfigMeaning.BeforeAnySection | tunnel/tools/wireguard-tools/src/config.c:436-504 | a setting before the first header is refused |
| ConfigMeaning.NoPublicKey | tunnel/tools/wireguard-tools/src/config.c:554-568 | a peer section that ends without a public key makes the whole configuration refused |
| ConfigMeaning.NoLines | tunnel/tools/wireguard-tools/src/config.c:541-552 | without lines a replacing configuration clears key, port, mark and peers, and an appended one changes nothing |
| ConfigMeaning.CleanMeans | tunnel/tools/wireguard-tools/src/config.c:513-530 | a comment ends a line, and of the rest the six white space characters go and all others stay |
| ElfCleaner.Clean | tunnel/tools/elf-cleaner/elf-cleaner.cpp:137-188 | for every section with entries, and despite index wrap-around, it ends; no removable tag and no unknown flag is left; the survivors, as a multiset and with flags masked, come first and only DT_NULL after them, with none among them if none was before the last live entry; a settled section is unchanged, so a second run does nothing |
| ElfCleaner.Visit | tunnel/tools/elf-cleaner/elf-cleaner.cpp:146-187 | one turn either keeps the entry or swaps it behind the live ones, and then looks at the same index again |
| ElfCleaner.LastNonNull | tunnel/tools/elf-cleaner/elf-cleaner.cpp:137-144 | the index of the last live entry |
| ElfCleaner.SwappedSurvivors | tunnel/tools/elf-cleaner/elf-cleaner.cpp:166-170 | retagging and swapping leaves the multiset of survivors among the rest unchanged |
| ElfCleaner.SurvivesExactly | tunnel/tools/elf-cleaner/elf-cleaner.cpp:149-161 | by the numbers of the ELF headers: 15 never stays, 29 from level 24, 0x6ffffef5, 0x6ffffff0 and 0x6ffffffc to 0x6fffffff from level 23, and on AArch64 0x70000001, 0x70000003 and 0x70000005 from level 31; only 0x6ffffffb changes its value |
| UserRanges.SetUsers | tunnel/tools/wireguard-tools/src/wg-quick/android.c:787-835 | fails if and only if both lists are given; commands hold 1 to 18 ranges; included uids each once and in order; for excluded ones the ranges are ascending and disjoint |
| UserRanges.Excluding | tunnel/tools/wireguard-tools/src/wg-quick/android.c:801-820 | the ranges cover exactly the uids outside the list, up to 99999 or, when the last range is left out, up to the greatest uid of the list |
| UserRanges.CompleteExactly | tunnel/tools/wireguard-tools/src/wg-quick/android.c:817-820 | for uids up to 99999 the ranges cover the whole complement if and only if the list does not end with 99998 |
| UserRanges.LastUidLost | tunnel/tools/wireguard-tools/src/wg-quick/android.c:817-820 | for the list [99998] the uid 99999 is in no range |
| UserRanges.Including | tunnel/tools/wireguard-tools/src/wg-quick/android.c:821-831 | one range for each uid, in order, in commands of at most 18 |
| SortedKeyedList.SortedKeyedList.IndexOfKey | ui/src/main/java/com/wireguard/android/databinding/ObservableSortedKeyedArrayList.kt:58-61 | the binary search returns what the search from the front of the overridden method would |
| SortedKeyedList.LinearIndex | ui/src/main/java/com/wireguard/android/databinding/ObservableKeyedArrayList.kt:23-31 | the first index with the key, or -1 when there is none |
| SortedKeyedList.SortedKeyedList.BinarySearch | ui/src/main/java/com/wireguard/android/databinding/ObservableSortedKeyedArrayList.kt:56-56 | an index with the key, or the only position where it can go |
| SortedKeyedList.SortedKeyedList.Add | ui/src/main/java/com/wireguard/android/databinding/ObservableSortedKeyedArrayList.kt:22-31 | inserts if and only if the key is new, is silent if and only if the very element is there, and the keys stay strictly ascending |
| SortedKeyedList.SortedKeyedList.AddAt | ui/src/main/java/com/wireguard/android/databinding/ObservableSortedKeyedArrayList.kt:33-38 | inserts if and only if that leaves the keys strictly ascending |
| SortedKeyedList.SortedKeyedList.Set | ui/src/main/java/com/wireguard/android/databinding/ObservableSortedKeyedArrayList.kt:63-72 | replaces if and only if that leaves the keys strictly ascending |
| SortedKeyedList.SortedKeyedList.AddAll | ui/src/main/java/com/wireguard/android/databinding/ObservableSortedKeyedArrayList.kt:40-47 | adds all, or those before the first element whose key is taken by another |
| SortedKeyedList.SortedKeyedList.AddAllAt | ui/src/main/java/com/wireguard/android/databinding/ObservableSortedKeyedArrayList.kt:49-54 | inserts a run at a position as far as it fits in order |
| TunnelComparator.Comparator.OrdersExactly | ui/src/main/java/com/wireguard/android/model/TunnelComparator.kt:49-66 | the comparator is a strict total order on a set of names if and only if any two differ in being favourites or in their tokens, for any favourites |
| TunnelComparator.Comparator.ConsistentExactly | ui/src/main/java/com/wireguard/android/model/TunnelComparator.kt:49-66 | two names are compared consistently both ways if and only if they are so distinguished |
| TunnelComparator.LeadingZeros | ui/src/main/java/com/wireguard/android/model/TunnelComparator.kt:32-40 | "1" and "01" are each after the other |
| TunnelComparator.Comparator.Compare | ui/src/main/java/com/wireguard/android/model/TunnelComparator.kt:49-66 | zero exactly for equal names; a favourite is before any other name; otherwise the first different token decides: the smaller number, a number before a text, a text by its first different character or by being a prefix; and a proper prefix of tokens comes first |
| TunnelComparator.Natural | ui/src/main/java/com/wireguard/android/model/TunnelComparator.kt:49-66 | wg2 comes before wg10, and wg10 after wg2 |
| TunnelComparator.TokensAreRuns | ui/src/main/java/com/wireguard/android/model/TunnelComparator.kt:30-41 | the tokens are the text cut where digits and other characters meet and nowhere else, each a number if it can be read as one |
| TunnelComparator.Comparator.WhiteSpaceAlike | ui/src/main/java/com/wireguard/android/model/TunnelComparator.kt:30-46 | white space characters are all alike |
| TunnelComparator.Tokenize | ui/src/main/java/com/wireguard/android/model/TunnelComparator.kt:30-41 | the tokens are the maximal runs of digits and of other characters, for any notion of digit, number and lower case that the platform has |
| TunnelComparator.TokensTransitive | ui/src/main/java/com/wireguard/android/model/TunnelComparator.kt:58-66 | the comparison of token sequences is transitive |
| TunnelComparator.TokenOrder | ui/src/main/java/com/wireguard/android/model/TunnelComparator.kt:14-27 | tokens are compared antisymmetrically, and equal only to themselves |
| GoBackend.GoBackend.SetState | tunnel/src/main/java/com/wireguard/android/backend/GoBackend.java:218-241 | handle, tunnel and configuration are all set or all unset, the live Go handles are exactly the current one; a normal UP leaves exactly what was asked for; when it throws is stated for every combination of failures, and a failed switch ends with the original tunnel or nothing if and only if the failure did not come after the new tunnel was active |
| GoBackend.LateSwitch | tunnel/src/main/java/com/wireguard/android/backend/GoBackend.java:225-236 | with one tunnel up, a switch that fails after activation throws and leaves the new tunnel up |
| GoBackend.GoBackend.Run | tunnel/src/main/java/com/wireguard/android/backend/GoBackend.java:218-411 | every run of requests and service destructions, with any failures, keeps this, and what is up is what some request asked for |
| GoBackend.GoBackend.BringUp | tunnel/src/main/java/com/wireguard/android/backend/GoBackend.java:247-350 | leaves a tunnel that is up alone; otherwise the tunnel is up exactly when activation was reached |
| GoBackend.GoBackend.TakeDown | tunnel/src/main/java/com/wireguard/android/backend/GoBackend.java:351-364 | nothing is up afterwards, thrown or not |
| GoBackend.GoBackend.OnDestroy | tunnel/src/main/java/com/wireguard/android/backend/GoBackend.java:394-411 | nothing is up afterwards |
| GoBackend.HandleTable.TurnOn | tunnel/tools/libwg-go/api-android.go:133-147 | the lowest free handle is used; without success the table is unchanged |
| GoBackend.HandleTable.TurnOff | tunnel/tools/libwg-go/api-android.go:150-160 | exactly this handle leaves the table |
| WgQuickBackend.WgQuickBackend.SetState | tunnel/src/main/java/com/wireguard/android/backend/WgQuickBackend.java:127-178 | whether it throws, which step throws late and whether every roll-back step works is decided by the request, the running tunnels and the fates of the steps; if they all work, an exception leaves everything as it was if and only if the step that threw late changed nothing that the roll-back does not put back; never anything new; without multiple tunnels an UP from DOWN leaves exactly that tunnel |
| WgQuickBackend.LateCallback | tunnel/src/main/java/com/wireguard/android/backend/WgQuickBackend.java:199-204 | a callback that throws after bringing up: the call throws and the tunnel is running |
| WgQuickBackend.WgQuickBackend.Raise | tunnel/src/main/java/com/wireguard/android/backend/WgQuickBackend.java:137-173 | the same for bringing a tunnel up, at any failure point and any number of running tunnels |
| WgQuickBackend.WgQuickBackend.Lift | tunnel/src/main/java/com/wireguard/android/backend/WgQuickBackend.java:156-173 | the step that brings the tunnel up, and what is left of it when it throws, at once or late |
| WgQuickBackend.WgQuickBackend.FirstFailure | tunnel/src/main/java/com/wireguard/android/backend/WgQuickBackend.java:137-173 | of the planned steps the first that does not work decides which one throws late |
| WgQuickBackend.WgQuickBackend.Clear | tunnel/src/main/java/com/wireguard/android/backend/WgQuickBackend.java:139-157 | before bringing up, the tunnel itself or all others are down, or what was taken down is back, but for a late callback |
| WgQuickBackend.WgQuickBackend.RollBack | tunnel/src/main/java/com/wireguard/android/backend/WgQuickBackend.java:161-171 | the roll-back replays the snapshot unless one of its steps fails, and adds nothing else |
| WgQuickBackend.WgQuickBackend.TakeAllDown | tunnel/src/main/java/com/wireguard/android/backend/WgQuickBackend.java:140-154 | all are down, or those already taken down are brought back, but for the one whose callback threw late |
| WgQuickBackend.WgQuickBackend.BringBack | tunnel/src/main/java/com/wireguard/android/backend/WgQuickBackend.java:147-152 | replaying restores the snapshot unless a step fails, and adds nothing to it |
| WgQuickBackend.WgQuickBackend.Step | tunnel/src/main/java/com/wireguard/android/backend/WgQuickBackend.java:180-205 | one step changes the entry of its tunnel or nothing, and may throw before or after the change |

## Left out

- The Curve25519 code from fiat-crypto and HACL*: machine-verified where it comes from.
- The elliptic-curve group law as such: the ladder formulas of RFC 7748 are the specification, and only their doubling and differential addition are tied to the curve.
- Sockets, ioctls, shell commands, JNI, binder and file access; wiping of secrets and timing.
- Allocation failures and freeing of memory.
- JavaCurve25519.Curve25519.Eval: not for the nineteen largest 256-bit public keys, which the code does not reduce (UnpackReducedExactly) and whose first square overflows its limbs (LargestKeysOverflow); what the code returns for them is not stated.
- EmbeddableCurve: the netlink half of wireguard.c repeats netlink.h and ipc-linux.h and is not modelled a second time.
- SetDevice.KernelSetDevice: the parsing of replies other than accepted or refused is not modelled, and neither are the other platforms' variants.
- SyncEffect.SyncEqualsReplace: the running device lists each of its peers once, and the sections of a file never ask for removal, as the reader makes them.
- Highlighter.HighlightConfig: the validators of addresses, host names, scopes and numbers are parameters, so a colour that they decide is only checked against their answer.
- ElfCleaner.Clean: dry runs and sections without entries.
- ShowConf.RoundTrip: printing an address and looking up a service never fail.
- Config.ConfigReader.ReadLine: the warning about nonzero host bits, key files, the retries of name resolution and the command-line form of a configuration.
- UserRanges.SetUsers: the texts of the commands, and how the sorted list of uids is made from the list of installed applications.
- SortedKeyedList.SortedKeyedList.Set: removal and the observer callbacks are inherited and not modelled.
- GoBackend.GoBackend.SetState: each internal step is atomic; interleavings of threads inside one, and the statistics parser.
- Activities, preferences, the updater, the log viewer and the rest of the user interface; the Java configuration parser.
