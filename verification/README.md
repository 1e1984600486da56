# Verified models of f4

This project states, in Dafny, what the core of f4 promises and proves it: the
elliptic-curve code under `seccure/`, the red-black tree and the operation
index on it, the Kademlia node state of `dht/dht.c`, the bencode library under
`libbenc/`, and the AES counter-mode stream. `dafny verify dfyconfig.toml`
checks everything.

How the pieces are organised:

- **Numbers and curves.** `ModArith`, `Primes` and `Mpi` give residues, primes
  (Fermat, Euler, a polynomial has no more roots than its degree) and the
  `gcry_mpi_*` operations as integers. `NumTheory` is the square root of
  `numtheory.c`, `Curve` the addition of points as functions, `GroupLaw` what that
  addition means (lines, inverses, cancellation), `Ecc` the register code of `ecc.c`
  refining it, `Serialize`, `Protocol`, `Ecdsa` and `EcdsaLaws` what is built on top.
- **Red-black tree.** `RbShape` ties heap nodes with parent pointers to a tree
  value and a path (a zipper), so each rotation is a step between two values;
  `RbBalance` holds the colour invariants; `RbInsert`, `RbErase`, `RbRemove` and
  `RbWalk` the operations; `RbKeyed` the search and insert protocol of
  `rbtree.h`; `Ops` the index of `ops.c`.
- **DHT.** `Ids` (20-byte ids as numbers, `memcmp`), `DhtIds` and `DhtBlocks`
  (bit code against arithmetic), `Bitwise` (the C operators bit by bit), `DhtTiling`,
  `DhtTable`, `DhtBuckets` and `Dht` (routing table), `DhtDistance`, `DhtSearch` and
  `DhtClosest` (XOR metric, searches, packed closest nodes), `DhtStorage` (peers).
  `Counting` describes filters and "the first so many" by counting positions.
- **Bencode and messages.** `Bencode` (encoding and decoding as functions, and
  their round trip), `BencodeGrammar` (the texts the decoder accepts, as a grammar),
  `BencodeBuffer` (the cursor code), `BencodeContainers`
  (dictionaries and lists), `DhtWire`, `DhtMessages` and `DhtSend` (what the
  message printers of `dht.c` put on the wire), `DhtReceived` (what a peer reads).
- **AES-CTR.** `AesCtr`, with the block cipher as an uninterpreted key stream.

Calls into code outside the model become parameters: the values of `random()`,
the clock (`now`), the key stream, the bytes the deterministic nonce generator
yields. Linked lists that the C code splices are sequence fields that methods
reassign; the tree of `rbtree.c`, the search array, the packed node buffer, the
peer arrays and the byte buffers are real heap objects and arrays updated in
place. Ghost parameters named `p`, `t` and `f` in the tree modules are the path,
the subtree and the frame at which an operation stands.

Six properties one would expect are false of the code. For each the condition
under which it does hold is proved, in both directions, and an input that breaks it:

- A bencoded object comes back from `bdec_mem` if and only if no string in it,
  keys included, is empty (`Bencode.RoundTrip`; `Bencode.EmptyStringLost`):
  `benc_bstr_new` refuses length 0.
- A DHT message decodes to the intended dictionary if and only if it is shorter
  than its buffer and no string in it is empty (`DhtMessages.Understood`;
  `DhtReceived.ClippedPing`, `DhtReceived.AnonymousPing`): a last `snprintf` that
  fills the buffer exactly loses the closing `e` to the terminating NUL, and the
  `INC` check lets that pass. With transaction ids of up to 255 bytes, tokens below
  40 and the node buffers of `dht.c` no message gets that long
  (`DhtReceived.FindNodeReceived` and its siblings).
- A call of `new_node` keeps the second bucket list free of addresses other than
  `AF_INET6` if and only if it names one of the two families, or is refused, or
  finds a node heard of in the last 15 minutes and has `confirm` 0
  (`Dht.RoutingTable.NewNode`; `Dht.ThirdFamily`): `find_bucket` sends every family
  but `AF_INET` to that list. The callers in `dht.c` only pass the two families,
  so the breaking call does not arise from them.
- `benc_bstr_compare` orders two strings correctly if and only if they differ
  where both have a character, or the low 32 bits of the difference of their
  lengths, read as an `int`, have its sign (`BencodeContainers.CompareExact`;
  `BencodeContainers.CompareWraps`): its `size_t` difference is returned as `int`.
- A point that was added can be subtracted again if and only if it has a tangent,
  or one summand is neutral, or both are equal (`GroupLaw.AddCancels`;
  `GroupLaw.NoCancellation`): nothing in `ecc.c` excludes singular curves.
- A signature of one digest is accepted for another under the same key if and only
  if the two digests are congruent modulo the order, or are mirrored about -dr, or
  lead to different abscissas that agree modulo the order, which takes a field
  larger than the group (`EcdsaLaws.SignatureServesBoth`, `EcdsaLaws.NoWrap`).

## Model

| member | source | states |
|---|---|---|
| Primes.Fermat | seccure/numtheory.c:44-61 | a^(p-1) is 1 modulo a prime p, the fact the residue test rests on |
| Primes.RootsBound | seccure/numtheory.c:77-78 | a nonzero polynomial has at most as many roots modulo a prime as its degree |
| Primes.SomePowerIsNotOne | seccure/numtheory.c:77-78 | for any exponent below p-1 some base below p does not give 1, so a non-residue exists |
| Primes.EulerPlusMinusOne | seccure/numtheory.c:52-54 | the test power is 1 or -1 for every nonzero residue |
| NumTheory.ModIsSquare | seccure/numtheory.c:45-61 | answers whether a has a square root modulo p, for every odd prime |
| NumTheory.IsSquareIffRoot | seccure/numtheory.c:45-61 | Euler's criterion holds exactly for squares |
| NumTheory.NonResidueExists | seccure/numtheory.c:76-78 | the search for a non-residue stops below p |
| NumTheory.NoRootUnlessEuler | seccure/numtheory.c:72-73 | what fails the test has no square root, so the early 0 is right |
| NumTheory.SplitPowerOfTwo | seccure/numtheory.c:79-82 | p-1 is split into an odd number and a power of two |
| NumTheory.NonResidueGenerates | seccure/numtheory.c:84 | y starts with y^(2^(r-1)) = -1 |
| NumTheory.StartingRoot | seccure/numtheory.c:86-89 | x and b start with x^2 = a b and b^(2^(r-1)) = 1 |
| NumTheory.LeastOrder | seccure/numtheory.c:92-94 | the inner loop finds the least m with b^(2^m) = 1, and m < r |
| NumTheory.RoundKeepsInvariant | seccure/numtheory.c:91-102 | one round keeps x^2 = a b, b^(2^(r-1)) = 1 and y^(2^(r-1)) = -1 with the smaller r |
| NumTheory.InvariantGivesRoot | seccure/numtheory.c:91-102 | repeated rounds from the invariant end in a square root |
| NumTheory.ModRoot | seccure/numtheory.c:64-110 | returns 1 with x^2 = a exactly when a root exists, for every odd prime |
| Curve.DoubleOnCurve | seccure/ecc.c:130-155 | doubling stays on the curve |
| Curve.AddOnCurve | seccure/ecc.c:157-187 | adding stays on the curve |
| Curve.AddCommutes | seccure/ecc.c:157-187 | addition is commutative |
| GroupLaw.AddNeutral | seccure/ecc.c:157-168 | adding (0,0) on either side changes nothing |
| GroupLaw.AddInverse | seccure/ecc.c:157-187 | a sum is (0,0) exactly for mirrored points |
| GroupLaw.ChordLaw | seccure/ecc.c:169-187 | the line through two points over different abscissas meets the curve in them and in the mirrored sum, and nowhere else |
| GroupLaw.TangentLaw | seccure/ecc.c:130-155 | the tangent meets the curve in its point and in the mirrored double, and nowhere else |
| GroupLaw.AddCancels | seccure/ecc.c:130-187 | subtracting what was added gives back the other summand exactly when it has a tangent or the sum is trivial |
| GroupLaw.NoCancellation | seccure/ecc.c:130-187 | a curve and two points where it does not |
| Curve.DoubleCommutes | seccure/ecc.c:231-265 | Jacobian doubling, seen in affine coordinates, is affine doubling |
| Curve.AddAffineCommutes | seccure/ecc.c:267-310 | mixed addition, seen in affine coordinates, is affine addition |
| Curve.ProperDouble | seccure/ecc.c:231-265 | doubling keeps Jacobian points proper: on the curve, zero only with z = 0 |
| Curve.ProperAdd | seccure/ecc.c:267-310 | so does mixed addition |
| Ecc.PointOnCurve | seccure/ecc.c:79-96 | answers whether a point satisfies the curve equation or is zero |
| Ecc.PointDouble | seccure/ecc.c:130-155 | the register code computes the tangent law |
| Ecc.PointAdd | seccure/ecc.c:157-187 | the register code computes the chord law, also where both arguments are one object |
| Ecc.JacobianPointDouble | seccure/ecc.c:231-265 | the register code computes Jacobian doubling |
| Ecc.JacobianAffinePointAdd | seccure/ecc.c:267-310 | the register code computes mixed addition, through doubling and cancellation |
| Ecc.JacobianToAffine | seccure/ecc.c:312-327 | the division by z^2 and z^3, and zero for z = 0 |
| Ecc.JacobianBit | seccure/ecc.c:359-363 | one exponent bit of the Jacobian loop refines the affine one |
| Ecc.PointMulAffine | seccure/ecc.c:335-348 | the disabled version computes double-and-add and its assert holds |
| Ecc.PointMul | seccure/ecc.c:352-368 | the Jacobian version returns the affine version's point for every exponent, (0,0) for 0 and the point itself for 1, and its assert holds |
| Ecc.CompressionDetermines | seccure/ecc.c:98-101 | abscissa and parity determine a finite point |
| Ecc.PointDecompress | seccure/ecc.c:103-128 | finds the point of this abscissa and parity exactly when there is one; otherwise writes nothing |
| Serialize.GetSerializationLen | seccure/serialize.c:82-105 | the least number of digits of the format that holds the number |
| Serialize.LeastLengthUnique | seccure/serialize.c:82-105 | there is one such length |
| Serialize.ValueOfDigits | seccure/serialize.c:129-135 | the digits of fixed length spell the number |
| Serialize.DigitsOfValue | seccure/serialize.c:163-170 | every digit string is the one of its value |
| Serialize.PrintedInjective | seccure/serialize.c:107-145 | different numbers print differently in each format |
| Serialize.PrintedDigit | seccure/serialize.c:107-145 | the i-th character is that of the digit of weight b^(len-1-i) |
| Serialize.SerializeMpi | seccure/serialize.c:107-145 | fills exactly outlen bytes with the digits, in all three formats |
| Serialize.DeserializeMpi | seccure/serialize.c:147-177 | is the inverse: succeeds with x exactly on the print of x |
| Protocol.PrintedKeyInjective | seccure/protocol.c:94-126 | a printed key belongs to one finite curve point |
| Protocol.PrintedKeySays | seccure/protocol.c:94-108 | the printed number is the abscissa modulo m, and m or more exactly for an odd ordinate |
| Protocol.CompressToString | seccure/protocol.c:94-108 | writes the printed form of the point and nothing else |
| Protocol.DecompressFromString | seccure/protocol.c:110-126 | returns the point whose print this is, and fails exactly when there is none |
| Ecdsa.BufToExponent | seccure/protocol.c:51-63 | every nonce lies in [1, order-1] |
| EcdsaLaws.NonceOnto | seccure/protocol.c:51-63 | every value from 1 to order-1 is the nonce of a buffer that is long enough |
| EcdsaLaws.NonceCollision | seccure/protocol.c:51-63 | two buffers give one nonce exactly if they are congruent modulo order-1 |
| EcdsaLaws.DigestDigits | seccure/protocol.c:197-198 | the base-256 digits of the digest are the message |
| EcdsaLaws.DigestInjective | seccure/protocol.c:197-198 | messages of one length have one digest only if they are equal |
| Ecdsa.MultipleAdd | seccure/ecc.c:352-368 | with an associative group law multiples add up |
| Ecdsa.MultipleMul | seccure/ecc.c:352-368 | multiples of multiples multiply |
| Ecdsa.DoubleAndAddIsMultiple | seccure/ecc.c:352-368 | double-and-add is scalar multiplication |
| Ecdsa.ScalarsModOrder | seccure/protocol.c:233-235 | multiples of the base depend on the scalar modulo the order only |
| EcdsaLaws.MultipleNeg | seccure/ecc.c:352-368 | the multiples by k and order-k mirror each other |
| EcdsaLaws.ScalarsOfAbscissa | seccure/ecc.c:352-368 | two scalars lead to one abscissa exactly if they are equal or opposite modulo the order |
| EcdsaLaws.UnusableExactly | seccure/protocol.c:201-212 | a nonce is drawn again exactly if its abscissa r is 0 modulo the order or e + d r is |
| Ecdsa.SignatureEquation | seccure/protocol.c:199-203 | the s computed from k satisfies the signature equation |
| Ecdsa.NonceIsScalar | seccure/protocol.c:231-236 | the scalar the verifier uses gives the signer's point |
| Ecdsa.AcceptedIffSigned | seccure/protocol.c:238-241 | the verifier's comparison holds exactly for signed pairs |
| Ecdsa.EcdsaSign | seccure/protocol.c:172-215 | returns s * order + r made with the first usable nonce |
| Ecdsa.AcceptedPair | seccure/protocol.c:226-241 | for the key dG the check of the standard is passed exactly by signed pairs |
| Ecdsa.EcdsaVerify | seccure/protocol.c:217-248 | the check of the standard for any key on the curve; for the key dG it accepts exactly the packed signatures of d |
| EcdsaLaws.SignatureServesBoth | seccure/protocol.c:172-248 | a signature of one digest serves another exactly if the digests are congruent, or mirrored about -dr, or their abscissas wrap |
| EcdsaLaws.NoWrap | seccure/protocol.c:231-241 | abscissas cannot wrap in a field no larger than the group |
| EcdsaLaws.SignThenVerify | seccure/protocol.c:172-248 | signing one message and verifying another succeeds exactly in these cases, always for the same message |
| AesCtr.Aes256Ctr.Enc | seccure/aes256ctr.c:75-98 | the buffer is xored with the key stream from the current offset, which advances by len |
| AesCtr.Aes256Ctr.FillBuf | seccure/aes256ctr.c:120-124 | the buffer is overwritten with the key stream itself |
| AesCtr.Aes256Ctr.EncMessage | seccure/aes256ctr.c:75-98 | a run of calls on one context, however the message is cut, gives the bytes of one call |
| AesCtr.EncryptThenDecrypt | seccure/aes256ctr.c:75-98 | a second context with the same key decrypts a run of calls under any other cutting |
| Bitwise.XorBit | seccure/aes256ctr.c:79-97 | a bit of `a ^ b` is set where exactly one of the two has it |
| Bitwise.StreamBit | seccure/aes256ctr.c:79-97 | every bit of an encrypted byte is the message bit, flipped where the key stream has a one |
| RbShape.InOrderPlug | rbtree.h:106-119 | the sequence of a tree is what stands before, in and after a position |
| RbShape.RotateLeft | rbtree.c:31-49 | the pointer updates turn one linked tree into its left rotation and touch no other link |
| RbShape.RotateRight | rbtree.c:51-69 | the mirror image |
| RbBalance.RedBlackPlug | rbtree.c:71-134 | a balanced subtree in a balanced surrounding makes a red-black tree |
| RbBalance.RedBlackUnplug | rbtree.c:71-134 | every position of a red-black tree splits it into such parts |
| RbBalance.HeightLogarithmic | rbtree.c:71-134 | height at most 2 log2(n + 1) |
| RbInsert.InsertStep | rbtree.c:75-131 | under a red parent the grandparent exists, and one turn settles the clash or moves it two levels up |
| RbInsert.InsertColor | rbtree.c:71-134 | from a red leaf in a red-black tree: red-black again, same sequence |
| RbErase.SiblingExists | rbtree.c:144-147 | the sibling the fix-up reads is never null |
| RbErase.EraseStepLeft | rbtree.c:144-180 | one turn on the left: done and red-black, or the deficit is nearer its end |
| RbErase.EraseStepRight | rbtree.c:182-219 | one turn on the right |
| RbErase.EraseColor | rbtree.c:137-226 | a deficit of one black node is repaired, the loop ends, the sequence stays |
| RbRemove.SpliceOut | rbtree.c:281-295 | a node with at most one child gives its place to it |
| RbRemove.SpliceSuccessor | rbtree.c:237-279 | the in-order successor is taken out below and put in the place of the erased node |
| RbRemove.ErasedOrder | rbtree.c:229-301 | the unlinked tree lists the old sequence without that node |
| RbRemove.ErasedBalance | rbtree.c:297-300 | a lost red node unbalances nothing, a lost black one leaves a deficit of one |
| RbRemove.ErasedAllRed | rbtree.c:297-300 | in a tree of red nodes the lost colour is red |
| RbRemove.Erase | rbtree.c:229-301 | exactly this node leaves the sequence; red-black and all-red trees stay so |
| RbRemove.ReplaceNode | rbtree.c:377-398 | the new node stands where the victim stood |
| RbWalk.First | rbtree.c:307-318 | the first node in order, or null for an empty tree |
| RbWalk.Last | rbtree.c:320-331 | the last node in order |
| RbWalk.Next | rbtree.c:333-355 | the in-order successor, null exactly at the end |
| RbWalk.Prev | rbtree.c:357-375 | the in-order predecessor, null exactly at the start |
| RbKeyed.LinkNode | rbtree.h:136-144 | writing through the link hangs a red leaf in the hole it stands for |
| RbKeyed.Descend | rbtree.h:54-78 | ends at the node of this id or at the one empty link where it belongs |
| RbKeyed.Search | rbtree.h:34-52 | finds the node of this id exactly when there is one |
| RbKeyed.Insert | rbtree.h:54-90 | search, link, recolour: the sequence gains the node at its place and the tree stays red-black |
| Ops.OpContext.Find | ops.c:53-73 | looks the id up in the map the tree stands for |
| Ops.OpContext.Add | ops.c:21-45 | a new id extends the map by one entry; a present one returns the stored op and changes nothing |
| Ops.OpContext.Remove | ops.c:47-51 | exactly this entry leaves the map and the sequence |
| Ops.OpContext.FreeAll | ops.c:75-91 | every op is removed once, in ascending order of ids, and the tree ends empty |
| Ops.IndexedAscending | ops.c:27-41 | ids ascend strictly along the tree |
| Ids.MemCmp | dht/dht.c:389-394 | compares ids as numbers, 0 exactly for equal ones |
| DhtBlocks.LowBit | dht/dht.c:397-413 | the position of the lowest set bit of the 160-bit number, -1 for zero |
| DhtBlocks.SplitBit | dht/dht.c:545-547 | the higher of the two lowest bits tells the size of an aligned block |
| DhtBlocks.BucketMiddle | dht/dht.c:542-555 | the exact midpoint, failing exactly for a block of one id |
| DhtBlocks.BucketRandom | dht/dht.c:558-577 | lands in the bucket whatever random() yields, at the offset its low bits spell |
| DhtBlocks.RandomOnto | dht/dht.c:558-577 | every id of the bucket is drawn for some values |
| Bitwise.AndBit | dht/dht.c:558-577 | a bit of `a & b` is set where both have it |
| Bitwise.OrBit | dht/dht.c:541-577 | a bit of `a or b` where at least one has it |
| Bitwise.MartianV4 | dht/dht.c:359-370 | refused IPv4 addresses are those without port, of net 0, or from 224.0.0.0 on |
| Bitwise.MartianV6 | dht/dht.c:371-381 | multicast and link-local IPv6 addresses are refused |
| DhtTiling.Unique | dht/dht.c:460-467 | no id is in two buckets |
| DhtTiling.Covered | dht/dht.c:469-484 | every id is in one |
| DhtTiling.SplitTiling | dht/dht.c:655-676 | splitting keeps aligned power-of-two blocks end to end |
| DhtTiling.SplitCounted | dht/dht.c:787-801 | splitting our own bucket halves its block and adds one bucket |
| DhtTiling.AtMost158 | dht/dht.c:696-825 | at most 158 buckets are ever reached |
| DhtTiling.RoomForTen | dht/dht.c:767-801 | a block of ten ids has at least sixteen, so it can be split |
| DhtTable.Rewritten | dht/dht.c:696-825 | a change within one bucket is the same change of the map |
| DhtBuckets.BucketList.InBucket | dht/dht.c:462-467 | answers whether the id is in the bucket's block |
| DhtBuckets.BucketList.FindBucket | dht/dht.c:469-484 | the one bucket whose block holds the id |
| DhtBuckets.BucketList.FindNode | dht/dht.c:504-520 | succeeds exactly when the id is anywhere in the list |
| DhtBuckets.BucketList.SplitBucket | dht/dht.c:647-682 | two halves at the midpoint, the same nodes, each in its range |
| DhtBuckets.RoomToSplit | dht/dht.c:767-801 | a full bucket with our own id and a new one covers at least sixteen ids |
| DhtBuckets.BucketList.MarkPinged | dht/dht.c:685-692 | one node's counter and time move, nothing else; from the third ping on the address cached in its bucket is pinged |
| DhtBuckets.BucketList.NewNode | dht/dht.c:696-825 | a node that replied is good and cannot be known-bad afterwards; one that sent a message keeps its pings; a new one is admitted for at most one known-bad node, or refused only where its bucket is full without bad nodes and not to be split, and then the first due node is pinged; always ends and keeps every invariant |
| DhtBuckets.ReplyMakesGood | dht/dht.c:594-602 | a reply makes a node good for exactly 15 minutes |
| DhtBuckets.MessagesKeepGood | dht/dht.c:594-602 | messages keep it good, but no longer than two hours after its last reply |
| DhtBuckets.SilenceMakesBad | dht/dht.c:685-692 | three unanswered pings make it known-bad after 15 seconds, two do not |
| DhtBuckets.BucketList.NewcomerAt | dht/dht.c:736-824 | the same for an id the table does not hold: refused before means refused after, and only for want of room |
| DhtBuckets.LiveMembers | dht/dht.c:830-864 | the filter keeps exactly the nodes pinged fewer than four times |
| DhtBuckets.LiveCounts | dht/dht.c:830-864 | in their order |
| DhtBuckets.BucketList.ExpireBuckets | dht/dht.c:830-864 | exactly the nodes pinged four times or more go, the others keep their order |
| Dht.RoutingTable.FindNode | dht/dht.c:504-520 | looks in the list of the family |
| Dht.RoutingTable.NewNode | dht/dht.c:696-825 | the same on the list of the family; the second list stays of one family if and only if the call names one of the two or stores no address |
| Dht.ThirdFamily | dht/dht.c:719-733 | refreshing a node of the second list from a third family breaks this |
| DhtDistance.XorCmp | dht/dht.c:440-458 | compares XOR distances as 160-bit numbers |
| Bitwise.DistanceBit | dht/dht.c:440-458 | a bit of the distance is set where exactly one of the two ids has it |
| Bitwise.DistanceMetric | dht/dht.c:440-458 | distances are symmetric and zero exactly for equal ids |
| DhtDistance.DistanceInjective | dht/dht.c:440-458 | different ids are at different distances |
| DhtDistance.OfferNew | dht/dht.c:901-926 | inserting at its place keeps the list the closest of all offered |
| DhtDistance.OfferFar | dht/dht.c:911-912 | so does ignoring an id farther than a full list |
| DhtDistance.ClosestUnique | dht/dht.c:883-886 | the list is determined by what was offered |
| DhtSearch.Search.InsertSearchNode | dht/dht.c:887-945 | the array holds exactly the 14 closest ids offered, in strictly increasing distance; a reply and a token are recorded, all else about a known candidate stays |
| DhtSearch.Search.FlushSearchNode | dht/dht.c:947-954 | one candidate goes, the others keep their order |
| DhtSearch.Search.InsertSearchBucket | dht/dht.c:1128-1138 | every node of the bucket is offered; those of the search's family count |
| DhtSearch.Search.Restart | dht/dht.c:1164-1182 | exactly the candidates not doubtful stay, cleared, in their order |
| DhtSearch.AllRepliedCounts | dht/dht.c:1017-1050 | "the first 8 live candidates", by counting positions below |
| DhtSearch.AskedCounts | dht/dht.c:1077-1085 | queries go to the first 3 candidates that can be asked |
| DhtSearch.AnnouncedCounts | dht/dht.c:1035-1065 | announcements go to those of the first 8 live candidates that have a token and have not acknowledged |
| DhtSearch.Search.SearchStep | dht/dht.c:1012-1092 | done exactly when every live candidate with fewer than 8 live ones before it has replied and acknowledged; otherwise exactly the named candidates are contacted, in order, and marked |
| DhtSearch.StepKeeps | dht/dht.c:1012-1092 | a step changes neither the candidates nor their order |
| DhtSearch.EnergyDrops | dht/dht.c:1012-1092 | every unfinished timely step uses up a request |
| DhtSearch.Search.RunQuietly | dht/dht.c:1012-1092 | without replies a search is done within 3 numnodes + 1 timely steps |
| DhtClosest.InsertClosestNode | dht/dht.c:2652-2697 | the packed bytes hold the 8 closest of what was offered, nearest first |
| DhtClosest.PackedReads | dht/dht.c:2680-2692 | id, address octets and port are read back from a packed node, the port most significant octet first |
| DhtClosest.BufferClosestNodes | dht/dht.c:2699-2710 | offers exactly the good nodes of a bucket |
| DhtClosest.ClosestNodes | dht/dht.c:2725-2751 | per family the 8 closest good nodes of the target's bucket and its two neighbours |
| DhtStorage.HashEntry.Store | dht/dht.c:1266-1296 | refreshes a known peer, appends a new one unless 2048 are stored |
| DhtStorage.StoredMembers | dht/dht.c:1264-1296 | the other peers are as before, and the new one is stored unless 2048 others are |
| DhtStorage.HashEntry.Grow | dht/dht.c:1276-1290 | the array doubles, up to 2048, and keeps its peers |
| DhtStorage.HashEntry.Expire | dht/dht.c:1305-1313 | keeps exactly the peers of the last 32 minutes, as a multiset |
| DhtStorage.SwapWithLast | dht/dht.c:1307-1310 | moving the last peer into the gap loses only the old one |
| DhtStorage.PeerStore.FindStorage | dht/dht.c:1216-1227 | the entry of this hash, if there is one |
| DhtStorage.PeerStore.StorageStore | dht/dht.c:1229-1297 | one hash learns of one peer, its other peers and all other hashes stay; fails exactly without a family or a free slot |
| DhtStorage.IpOfSame | dht/dht.c:1236-1250 | the first 4 or 16 octets identify an address within its family |
| DhtStorage.PeerStore.ExpireStorage | dht/dht.c:1299-1337 | every entry keeps its young peers and exactly the emptied ones are unlinked |
| DhtStorage.AliveCounts | dht/dht.c:1299-1337 | exactly the entries with a peer of the last 32 minutes stay linked, in their order |
| Bencode.DecimalSpells | libbenc/benc_int.c:26-32 | the digits spell the number |
| Bencode.IntTrip | libbenc/benc_int.c:17-96 | a printed integer parses to itself and the cursor stops behind it |
| Bencode.BstrTrip | libbenc/benc_bstr.c:36-104 | a printed string parses to itself exactly when it is not empty |
| Bencode.RoundTrip | libbenc/bencode.c:70-179 | an encoding parses to its object, whatever follows it, exactly when no string in it is empty |
| Bencode.EmptyStringLost | libbenc/benc_bstr.c:36-104 | the empty string is printed and does not come back |
| BencodeGrammar.DecodesGrammar | libbenc/bencode.c:135-179 | the decoder succeeds exactly on the texts of the grammar, with the object they stand for and the cursor behind them |
| BencodeGrammar.EncodingIsText | libbenc/bencode.c:70-90 | an encoding is such a text exactly when no string in it is empty |
| DhtWire.Examples | libbenc/bencode.c:70-90 | the examples of the bencoding section of BEP 3 |
| BencodeBuffer.PseudoLog10 | libbenc/benc_int.c:98-106 | the number of decimal digits |
| BencodeBuffer.Repsize | libbenc/bencode.c:52-68 | exactly the length of the encoding |
| BencodeBuffer.Buf.PutDecimal | libbenc/benc_int.c:25-33 | the backward loop writes the digits forward |
| BencodeBuffer.Buf.EncodeIntAt | libbenc/benc_int.c:17-34 | writes the encoding of the integer and nothing else |
| BencodeBuffer.Buf.EncodeBstrAt | libbenc/benc_bstr.c:36-50 | writes the encoding of the string and nothing else |
| BencodeBuffer.Buf.EncodeListAt | libbenc/benc_list.c:31-41 | writes the encoding of the list |
| BencodeBuffer.Buf.EncodeDictAt | libbenc/benc_dict.c:32-43 | writes the encoding of the dictionary |
| BencodeBuffer.Buf.EncodeAt | libbenc/bencode.c:70-90 | exactly the encoding of the object at the cursor, nothing else changed |
| BencodeBuffer.Buf.DecodeIntAt | libbenc/benc_int.c:36-96 | reads what the integer grammar says |
| BencodeBuffer.Buf.DecodeBstrAt | libbenc/benc_bstr.c:58-104 | reads what the string grammar says |
| BencodeBuffer.Buf.DecodeListAt | libbenc/benc_list.c:43-62 | appends elements until the end letter |
| BencodeBuffer.Buf.DecodeDictAt | libbenc/benc_dict.c:45-70 | appends entries until the end letter |
| BencodeBuffer.Buf.DecodeAt | libbenc/bencode.c:135-179 | dispatch on the first letter; the cursor ends behind the object |
| BencodeBuffer.PrintAndParse | libbenc/bencode.c:52-179 | sized, printed and parsed again, an object comes back exactly when no string in it is empty |
| BencodeContainers.Compare | libbenc/benc_bstr.c:106-116 | signed characters first, then the length difference as an int; right exactly for comparable strings |
| BencodeContainers.CompareExact | libbenc/benc_bstr.c:106-116 | the result orders two strings if and only if they differ within both or the length difference keeps its sign in 32 bits |
| BencodeContainers.CompareWraps | libbenc/benc_bstr.c:106-116 | 2^31 characters compare below none, 2^32 characters as equal to none |
| BencodeContainers.TwosComplement | libbenc/benc_bstr.c:106-116 | characters and the result are read as two's complement |
| BencodeContainers.LessAt | libbenc/benc_bstr.c:106-116 | the first different character decides, a prefix comes first |
| BencodeContainers.LessTransitive | libbenc/benc_bstr.c:106-116 | the order is transitive |
| BencodeContainers.LessTotal | libbenc/benc_bstr.c:106-116 | and total |
| BencodeContainers.FirstEqualIsKey | libbenc/benc_dict.c:96-111 | among comparable keys the first entry called equal is the one of the key, if there is one |
| BencodeContainers.FirstNotBelowFits | libbenc/benc_dict.c:113-136 | among comparable keys the place of an insertion keeps the strict order |
| BencodeContainers.DictObject.Lookup | libbenc/benc_dict.c:96-111 | the first entry called equal; for comparable keys the value of the key, none exactly when it is absent |
| BencodeContainers.DictObject.Insert | libbenc/benc_dict.c:113-136 | inserts before the first entry not below, unless called equal; for comparable keys order is kept and exactly a present key refused |
| BencodeContainers.DictObject.Remove | libbenc/benc_dict.c:138-156 | the first entry called equal goes; for comparable keys exactly the entry of the key |
| BencodeContainers.OrderedTrip | libbenc/benc_dict.c:32-70 | an ordered dictionary comes back in order |
| BencodeContainers.PushThenPop | libbenc/benc_list.c:86-102 | what is pushed is popped in the opposite order, and the list is as before |
| BencodeContainers.ListObject.Pop | libbenc/benc_list.c:91-102 | takes the head away, nothing from an empty list |
| DhtWire.QuerySpelled | dht/dht.c:2522-2529 | the pieces around a query spell its dictionary |
| DhtWire.ReplySpelled | dht/dht.c:2543-2548 | the pieces around a reply spell its dictionary |
| DhtWire.WantSpelled | dht/dht.c:2567-2572 | the optional piece spells the list of wanted families |
| DhtMessages.Printer.Print | dht/dht.c:2476-2481 | one printed piece: its bytes, or the failure of the size check, or the byte lost to the NUL |
| DhtMessages.Printer.Copy | dht/dht.c:2483-2486 | one copied piece |
| DhtMessages.Unclosed | dht/dht.c:2476-2486 | a dictionary whose closing letter is lost does not decode |
| DhtMessages.Understood | dht/dht.c:2476-2515 | a message decodes to its dictionary, all of it consumed, exactly when it is shorter than the buffer and has no empty string |
| DhtSend.SendPing | dht/dht.c:2517-2535 | prints the ping query |
| DhtSend.SendPong | dht/dht.c:2537-2554 | prints the reply that carries our id only |
| DhtSend.SendFindNode | dht/dht.c:2556-2583 | prints the find_node query |
| DhtSend.SendGetPeers | dht/dht.c:2759-2787 | prints the get_peers query |
| DhtSend.SendAnnouncePeer | dht/dht.c:2789-2817 | prints the announce_peer query |
| DhtSend.SendNodesPeers | dht/dht.c:2585-2650 | prints the reply with nodes, token and a slice of peers |
| DhtSend.PrintPeers | dht/dht.c:2621-2638 | the circular loop prints the served slice |
| DhtSend.ServedOnce | dht/dht.c:2616-2638 | each stored peer is served at most once, at most 50, of one family |
| DhtSend.ServedCounts | dht/dht.c:2616-2638 | exactly the first 50 of the family, counted in a circle from the random start |
| DhtSend.PeerReads | dht/dht.c:2624-2630 | address and port are read back from the bytes of a peer |
| DhtSend.SamePeerBytes | dht/dht.c:1264-1268 | peers are the same exactly if they are sent as the same bytes |
| DhtSend.EnvelopeOrdered | dht/dht.c:2517-2838 | top-level keys ascend in every query and reply |
| DhtSend.LookupArgsOrdered | dht/dht.c:2562-2572 | so do the arguments of find_node and get_peers |
| DhtSend.AnnounceArgsOrdered | dht/dht.c:2798-2806 | and of announce_peer |
| DhtSend.NodesArgsOrdered | dht/dht.c:2594-2639 | and of replies with nodes and peers |
| DhtSend.QueryUnderstood | dht/dht.c:2517-2817 | a query decodes to what was meant exactly when it has a transaction id, full arguments and fits |
| DhtSend.ReplyUnderstood | dht/dht.c:2537-2650 | so does a reply |
| DhtSend.AnnounceArgsFull | dht/dht.c:2803-2806 | announcements are full exactly when they have a token |
| DhtSend.NodesArgsFull | dht/dht.c:2594-2639 | replies with nodes and peers always are |
| DhtReceived.PingReceived | dht/dht.c:2517-2535 | a ping arrives exactly with a transaction id of 1 to 455 bytes, 9 fewer with a version |
| DhtReceived.PongReceived | dht/dht.c:2537-2554 | a pong with 1 to 464, 9 fewer with a version |
| DhtReceived.FindNodeReceived | dht/dht.c:2556-2583 | with ids up to 255 bytes every find_node query arrives, unless it has no transaction id |
| DhtReceived.GetPeersReceived | dht/dht.c:2759-2787 | so does every get_peers query |
| DhtReceived.AnnounceReceived | dht/dht.c:2789-2817 | and every announcement, unless transaction id or token is empty |
| DhtReceived.NodesReceived | dht/dht.c:2585-2650 | and every reply with nodes and peers |
| DhtReceived.ClippedPing | dht/dht.c:2517-2535 | a ping that fills the buffer is sent without its last letter and does not decode |
| DhtReceived.AnonymousPing | dht/dht.c:2517-2535 | a ping without a transaction id is sent and does not decode |

## Left out

- Ecdsa.EcdsaSign: the retry loop of the source is unbounded; the model takes the nonce bytes as a finite list and returns -1 when none of them is usable.
- Ecdsa.EcdsaVerify: scalar multiplication in an associative group of prime order is an explicit hypothesis (`ValidGroup`); the associativity of the curve group law is not proved.
- BencodeBuffer.Buf.DecodeIntAt: accumulates an unbounded integer; the overflow of the C type on digit strings beyond 64 bits is not modelled.
- BencodeBuffer.Buf.DecodeBstrAt: length overflow beyond `size_t` is not modelled, and a string of length 0, which the C code dereferences as a null pointer, is a failure here.
- BencodeBuffer.Buf.DecodeAt: the C code reads at and behind the end of a truncated buffer; here such a read yields a byte no token starts with.
- BencodeBuffer.Buf.EncodeAt: integers are above INT64_MIN, the one value whose negation overflows.
- DhtSearch.Search.SearchStep: the marking of asked nodes in the routing table is `BucketList.MarkPinged` and not called from here; the completion callback is the returned flag.
- DhtSend.SendPong: also stands for `send_peer_announced`, which prints the same bytes.
- Linked lists of buckets, nodes, dictionary entries and list elements are sequences that methods reassign; pointer aliasing and the splicing through `prev_p` are not modelled there.
- Lists and dictionaries start as NULL when an empty container is decoded; the C decoder leaves that field unwritten.
- Socket addresses are family, octets and port; `sslen`, `cachedlen` and `sockaddr` layout are left out.
- `f4op_add` never recolours, although the comments of rbtree.h tell callers to; the index of `Ops` is therefore a tree of red nodes, and only its order and contents are claimed.
- The index calls `f4op_free` on removed ops and frees the context; memory release and allocation failure are left out everywhere.
- The receive path of `dht_periodic`, the message parser and query handler of `dht.c`: incomplete in the source, so table, search and storage operations are modelled as steps called directly.
- `send_error`, `common_bits`, `random_node`, `token_bucket`, the blacklist, `new_search` and `expire_searches`, and the bucket maintenance timers: none of the modelled operations depends on them.
- ECIES, Diffie-Hellman, key validation, curve tables, HMAC and the internals of AES and libgcrypt.
- Sockets, libevent, the database, the command-line programs and the dump printers.
