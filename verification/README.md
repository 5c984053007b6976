# pyrxd verification

A Dafny model of the algorithmic core of pyrxd, a Python SDK for the Radiant blockchain, with proofs of
what that core promises. Check everything with `dafny verify dfyconfig.toml`.

One module per component, one file per module:

- **Merkle paths** (`MerkleTree`, `MerkleLookup`, `MerkleBinding`, `MerkleHeight`, `MerkleTrim`, `MerkleRetained`,
  `MerkleTrimLoops`, `MerkleCombine`, `MerkleStandard`, `MerkleCodec`, `MerkleObject`, `MerkleHash`, `VarInt`). A BUMP
  path (BRC-74) is a list of levels of leaves. The reference is a Bitcoin-style Merkle tree over a list of transaction
  ids. A path that agrees with a tree computes that tree's root or fails, and the model says exactly when. When a path
  of any height computes a block's root for a 32-byte txid and no round double-hashes a message that collides with the
  tree's own message at that place, it starts at the node at its position, as far below the root as the path is high:
  a transaction when the path has the height of the tree. A taller path passes a transaction's leaf on its way. No
  hash is assumed injective (none from 64 to 32 bytes is), and for other lengths the statement is false
  (`ShortTxidNotBound`). After `trim`, alone or at the end of `combine`, the model says for every txid exactly when it
  is still proved, and exactly when nothing superfluous is kept; for two ordinary proofs a condition on their offsets
  decides the first and suffices for the second. The binary codec round-trips.
- **Covenant parser** (`CovenantParser`, `LoopParser`, `ScriptNumReadings`). The unrolled, offset-driven Bitcoin
  transaction parser accepts exactly the serializations of small transactions with a paying output. The simple loop
  parser accepts more byte strings, and the model says which; on small transactions the two agree exactly under a
  stated condition.
- **Scripts** (`ScriptWalk`, `Instructions`, `ScriptNumber`, `CovenantBuilder`). Walking opcodes composes over whole
  instructions, so a data push never adds an opcode or a ref; hence the guards of the covenant builders. Number pushes
  decode to their number and no push of that number is shorter; which pushes of a filled template are minimal.
- **Codecs** (`Radix`, `Base58`, `Wif`, `Der`). Both base58 implementations are one bijection; WIF keys and DER
  signatures round-trip.
- **Streaming RIPEMD-160** (`Ripemd160`). Any run of `update` and `digest` calls equals the one-shot hash of the
  padded concatenation.
- **Wallet** (`Wallet`). Greedy selection takes the fewest coins; the fee estimate covers the trial transaction up to
  exactly 65535 inputs; what a payment pays, and when a failed one could have been paid with fewer coins.
- **Number theory** (`ModArith`, `Fermat`, `Ecdsa`, `Signing`, `Curve`, `CurveGroup`, `Secp256k1`). ECDSA with a chosen
  nonce and low s over any group of prime order, down to the DER bytes; square roots modulo p = 3 mod 4, with Fermat's
  little theorem proved here rather than assumed; points of secp256k1 itself for which signing goes wrong.
- **Confusables** (`Confusables`). The transitive closure of the homoglyph table and the skeleton.

Where the source loops over variables or changes an object, the model is a method or a class proved equal to a
function, and the theorems are about that function. Hash functions (double SHA-256), the RIPEMD compression function,
the group and field sizes, the Unicode categories and the sizes of signed inputs are parameters, so every statement
holds for all of them; `Secp256k1` puts in the field and group sizes of the code.

## Findings

Places where the code and what is said about it differ. The model follows the code in each case; each finding names
the lemma at a failing input and, where the code can be right, the theorem with the exact condition.

- `compute_root` never learns the height of the block's tree. The ordinary proof of a node inside the tree, of each one,
  is accepted and computes the block's root for that node's hash: `InteriorNodeIsProved`, `PartIsProved` for paths that
  are too tall. Paths of the tree's height prove transactions only: `HeightDecides`, `RootBindsTxid`.
- `trim` looks for an odd leaf's sibling at offset + 1 and an even leaf's at offset - 1; the true sibling is offset
  xor 1. Leaves 2 and 5 marked with 3 and 4 unmarked lose both proofs: `StraddleLosesBothProofs`, `TrimKeepsMarkedIff`.
  So `combine` of the ordinary proofs of two transactions loses both exactly when one offset is even and the other is
  three more: `CombineStandardIff`. Otherwise what it leaves is minimal: `CombineStandardIsMinimal`.
- `trim` says that it removes all nodes that the txid leaves do not require. It keeps unmarked pairs, such as 6 and 7
  under a stored ancestor when only leaf 0 is marked: `SpareNodesAreKept`, `TrimIsMinimalIff`.
- `_close_transitively` relies on the table having no cycles. That is not enough: with a mapped to xx and x to y,
  a closes to yx and the skeleton is not idempotent: `RepeatIsLost`, `ClosesIff`, `FilteredIdempotentIff`. If x is
  dropped by the filters, the repeat does no harm: `DroppedRepeatIsHarmless`.
- The docstring of `_filter_to_relevant_targets` lists a fourth filter that the code does not have; the docstring's own
  example is kept: `FourthFilterNotCoded`.
- `_sign_custom_k` does not reduce R.x modulo n; the signature verifies exactly when 0 < R.x < n. On secp256k1 n itself
  is the x of a point, so for every secret and every digest but multiples of n some nonce makes a signature with r = n:
  `LargeXFails`, `SignatureVerifies`.
- `sign` promises strict DER, and `_sign_custom_k` writes both numbers with 32 bytes; the result is strict exactly when
  neither is below 2^247. On secp256k1 1 is the x of a point, and some nonce makes it write that: `LooseDerWritten`,
  `SmallNumberNotStrict`, `FixedIsStrictIff`.
- `minimal_num_push` is not minimal for -1, where it differs from `encode_int`: `MinusOneDiffers`,
  `NumPushIsMinimalIff`, `EncodersAgreeIff`.
- The covenant builder warns that a push that is not minimal makes a covenant unspendable, and pushes `refundCsv`
  accordingly, but fills in amounts as data; the pushes of amounts 1 to 16 and -1 are not minimal: `AmountOfTwo`,
  `AmountPushIsMinimalIff`, `FilledIsMinimalIff`.
- `rxd_sim.py` describes its script numbers as sign-magnitude and decodes two's complement. The byte 0x80 is -128 to it
  instead of 0, so a length of zero written that way is refused: `NegativeZeroRefused`, `ReadingsAgreeIff`,
  `LengthByteIff`, `AmountTestIff`. The acceptance theorem holds for every minimum amount, negative ones included.
- `scan_4way` mirrors the covenant's output scan, but reads values as unsigned where the covenant reads them as signed:
  `ParsersDiffer`, `ParsersAgreeIff`. It also accepts strings that are no small transaction, among them outputs that are
  cut short: `LooseAccepted`, `LoopAcceptsIff`.
- `build_send_tx` chooses coins by an estimate and pays by size. It fails on a coin that pays its own transaction
  exactly and a coin worth 1, as it takes both: `AvoidableFailure`, `TwoCoinsIff`, `AvoidableIff`.

## Model

| member | source | states |
|---|---|---|
| MerkleTree.LevelsFormTree | src/pyrxd/merkle_path.py:205-219 | The reference: pairing a list of txids level by level, an odd last node with itself, gives a tree from that list up to its Merkle root. |
| MerkleHash.PairHasherIsBitcoin | src/pyrxd/merkle_path.py:202-203 | Hashing displayed hashes as right then left is, in wire byte order, the double hash of left then right. |
| MerkleHash.PairCollisionIsHashCollision | src/pyrxd/merkle_path.py:202-217 | Two different pairs of byte strings with one parent are two messages with one double hash, and the messages differ when the left hashes are equally long. |
| MerkleLookup.FindAgrees | src/pyrxd/merkle_path.py:221-248 | On a path that agrees with a tree, the lookup never fails, what it returns is the tree's node, and it returns one exactly when the node is stored or both children can be had. |
| MerkleLookup.FirstIsFound | src/pyrxd/merkle_path.py:193-226 | The lookups by offset, for the default hash and by txid take the first leaf of the level that fits. |
| MerkleLookup.ComputedNode | src/pyrxd/merkle_path.py:233-248 | On any path a node that is not stored comes from both children, the left one twice when the right one is a duplicate; there is none when a child is missing or the left one has no hash, and an error when the right one has none. |
| MerkleLookup.RoundRaises | src/pyrxd/merkle_path.py:207-217 | When a round fails, and with which error. |
| MerkleLookup.ClimbAgrees | src/pyrxd/merkle_path.py:205-219 | After k rounds the working hash is the tree's ancestor at height k, and the rounds succeed exactly when every sibling on the way can be had. |
| MerkleLookup.ComputeRootAgrees | src/pyrxd/merkle_path.py:178-219 | For every txid, given or defaulted, compute_root returns the tree's root when the txid is known and climbs, and raises ValueError otherwise, or StopIteration when no leaf has a hash to start from. |
| MerkleLookup.ClimbsMonotone | src/pyrxd/merkle_path.py:205-211 | A path that stores at least what another stores can climb wherever the other can. |
| MerkleLookup.SubtreeStays | src/pyrxd/merkle_path.py:225-248 | A node that could be looked up still can when only nodes below stored ones are lost. |
| MerkleLookup.BareLineIsLost | src/pyrxd/merkle_path.py:225-248 | A missing leaf without a stored ancestor makes every ancestor impossible to look up. |
| MerkleBinding.RootBindsTxid | src/pyrxd/merkle_path.py:192-219 | If any path at all, of any height, duplicates included, computes a block's root for a txid and no round collides in the double hash with the tree's message there: not taller than the tree, it proves a node of the level as far below the root as it is high, exactly when the txid has 32 bytes, and then the node its offset bits lead to, the one at offset mod 2^n if there is one; taller, its working hash at the height of the leaves is the transaction at its position. |
| MerkleBinding.RootBindsUpToCollision | src/pyrxd/merkle_path.py:205-219 | The same for any pair hash, of paths of any height: the working hash is that node, or some round hashes a pair that differs from the tree's and has its hash. |
| MerkleBinding.CollisionIsOfHash | src/pyrxd/merkle_path.py:202-217 | From a 32-byte txid, and after the first round in any case, every collision of pairs is a collision of the double hash. |
| MerkleBinding.ShortTxidNotBound | src/pyrxd/merkle_path.py:192-219 | For every double hash and block of two the constructor accepts a path that computes the block's root for a string of 31 bytes that is no transaction of it, hashing the block's own message. |
| MerkleHeight.InteriorNodeIsProved | src/pyrxd/merkle_path.py:192-219 | For every block, every level below the root and every node of it: the constructor accepts the node's ordinary proof, which computes the block's root for the node's hash, with no collision. |
| MerkleHeight.PartIsProved | src/pyrxd/merkle_path.py:192-219 | In a block whose txids are parents of 32-byte strings each such string is proved by an accepted path one level taller than the tree. |
| MerkleHeight.HeightDecides | src/pyrxd/merkle_path.py:192-219 | Paths of a height up to the tree's prove, of all 32-byte strings and without a collision, only transactions, exactly when every node at that height below the root has the hash of a transaction; at the tree's own height they do. |
| MerkleTree.LevelsAbove | src/pyrxd/merkle_path.py:205-219 | Each level of a block's tree is the bottom of the tree above it, with the same root. |
| MerkleBinding.DescendIsMod | src/pyrxd/merkle_path.py:206-208 | The leaf that the offset bits lead to from the root is the one at offset mod 2^n. |
| MerkleTrim.TrimKeepsMarkedIff | src/pyrxd/merkle_path.py:299-341 | After trim every marked leaf still climbs if and only if the path is covered: each dropped leaf below a sibling that a marked leaf needs has a stored ancestor up to that sibling. |
| MerkleRetained.RootAfterTrimIff | src/pyrxd/merkle_path.py:299-341 | For every txid at all: after trim, compute_root gives the block's root exactly when the first kept leaf with that hash climbs over kept nodes, and fails otherwise. |
| MerkleRetained.TrimKeepsRootsIff | src/pyrxd/merkle_path.py:299-341 | All marked txids keep the block's root exactly when each stays proved in that sense; with distinct hashes, exactly when the path is covered. |
| MerkleRetained.NeededIff | src/pyrxd/merkle_path.py:205-217 | Removing a node breaks the proof of a marked leaf exactly when the node cannot be computed from below and no stored node shields the sibling of a marked leaf's ancestor from it. |
| MerkleRetained.TrimIsMinimalIff | src/pyrxd/merkle_path.py:299-304 | What trim leaves is minimal exactly when every node that it keeps supports a marked leaf over the nodes it keeps. |
| MerkleRetained.SpareNodesAreKept | src/pyrxd/merkle_path.py:327-341 | For every hash and block of eight, an accepted proof of transaction 0 with leaves 6 and 7 and node (1, 2) under a stored ancestor keeps all three, and none is needed. |
| MerkleTrim.NoStraddleIsCovered | src/pyrxd/merkle_path.py:327-334 | Without two unmarked leaves at offsets 2k+1 and 2k+2 the path is covered. |
| MerkleTrim.DroppedAncestorsRecomputed | src/pyrxd/merkle_path.py:336-341 | The ancestors of marked leaves that trim drops are computed from what remains, with the tree's hashes. |
| MerkleTrim.StraddleLosesBothProofs | src/pyrxd/merkle_path.py:327-336 | For every hash and every block of eight, marked leaves 2 and 5 with unmarked 3 and 4 have proofs before trim and none after. |
| MerkleTrimLoops.PushIfNew | src/pyrxd/merkle_path.py:306-308 | Appends a value unless it is already last. |
| MerkleTrimLoops.NextOffsets | src/pyrxd/merkle_path.py:316-320 | The next computed offsets are exactly the halves of the given ones. |
| MerkleTrimLoops.DropOffsets | src/pyrxd/merkle_path.py:310-314 | Removes exactly the leaves at the given offsets and keeps the level ascending. |
| MerkleTrimLoops.ScanBottom | src/pyrxd/merkle_path.py:322-334 | The first pass finds exactly the parents of marked leaves, and to drop exactly the unmarked peers of unmarked leaves. |
| MerkleTrimLoops.SortKeepsLeaves | src/pyrxd/merkle_path.py:324-325 | Sorting keeps the leaves and leaves each level ascending. |
| MerkleTrimLoops.TrimSorted | src/pyrxd/merkle_path.py:322-341 | On sorted levels the code of trim leaves exactly the unmarked-pair-free bottom and the upper leaves that are no ancestor of a marked one. |
| MerkleTrimLoops.TrimLevels | src/pyrxd/merkle_path.py:299-341 | The same for levels in any order: the outcome does not depend on it. |
| MerkleCombine.CombinedAgrees | src/pyrxd/merkle_path.py:285-296 | Merging two paths that agree with a tree gives a path that agrees with it. |
| MerkleCombine.CombinedIncludes | src/pyrxd/merkle_path.py:285-296 | The merged path stores whatever either path stored. |
| MerkleCombine.CombinedIsUnique | src/pyrxd/merkle_path.py:287-289 | Merging repeats no offset. |
| MerkleCombine.CombineKeepsRootsIff | src/pyrxd/merkle_path.py:267-341 | Two paths of one block, merged and trimmed, prove exactly the txids that stay proved in the merged path; for two proofs with distinct hashes all leaves that either marked are proved if and only if the merged path is covered. |
| MerkleCombine.ValidPathProves | src/pyrxd/merkle_path.py:41-74 | A path the constructor accepts and that agrees with a block computes the block's root from every bottom leaf; with distinct hashes and keyed leaves inside the block it is a proof for its txid leaves. |
| MerkleCombine.DefaultRoot | src/pyrxd/merkle_path.py:192-219 | Without a txid such a path computes the block's root. |
| MerkleCombine.CombineAccepts | src/pyrxd/merkle_path.py:277-283 | Two accepted paths for one block pass the root comparison. |
| MerkleStandard.StandardIsValid | src/pyrxd/merkle_path.py:41-74 | The constructor accepts the ordinary proof of any transaction of any block of at least two: its leaf, marked, and its sibling at every height, a duplicate where the level ends. |
| MerkleStandard.StandardProves | src/pyrxd/merkle_path.py:178-219 | It agrees with the block and computes its root from both bottom leaves, when no transaction occurs twice. |
| MerkleStandard.CombineStandardIff | src/pyrxd/merkle_path.py:267-341 | In a block without repeated txids the ordinary proofs of transactions i and j pass the comparison of combine, and then it loses both when one of i and j is even and the other is three more, and otherwise both still compute the root. |
| MerkleStandard.CombineStandardIsMinimal | src/pyrxd/merkle_path.py:299-341 | In the other case every proof node that combine leaves is needed for one of the two transactions. |
| VarInt.VarintRoundTrip | src/pyrxd/utils.py:18-31 | Every number up to 2^64 - 1 has a varint, and reading it back gives the number and leaves exactly what followed. |
| VarInt.VarintBytes | src/pyrxd/utils.py:18-31 | The bytes of a varint by range: the number below 253, else 253, 254 or 255 and the number in 2, 4 or 8 bytes; from 2^64 on OverflowError. |
| VarInt.ShortIsWritten | src/pyrxd/utils.py:570-584 | A varint in its shortest form is what is written for the number it is read as. |
| MerkleCodec.ManyReadBack | src/pyrxd/merkle_path.py:104-119 | Items written one after the other are read back by the same number of reads. |
| MerkleCodec.LeafRoundTrip | src/pyrxd/merkle_path.py:107-118 | A canonical leaf is read back as it was written. |
| MerkleCodec.SortIsStable | src/pyrxd/merkle_path.py:121-121 | The sort after reading orders a level by offset and keeps the leaves of each offset in order. |
| MerkleCodec.SortOfSorted | src/pyrxd/merkle_path.py:121-121 | The sort after reading changes nothing on a sorted level. |
| MerkleCodec.LevelRoundTrip | src/pyrxd/merkle_path.py:104-121 | A canonical sorted level is read back as it was written. |
| MerkleCodec.PathRoundTrip | src/pyrxd/merkle_path.py:139-167 | Decoding the encoding of a canonical path of height up to 255 gives the block height and the path, and leaves what followed unread. |
| MerkleCodec.LeafBytes | src/pyrxd/merkle_path.py:152-165 | The bytes of a leaf: the varint of its offset, a flag byte 0, 1, 2 or 3, and the reversed hash unless it is a duplicate. |
| MerkleCodec.StrictIsEncoded | src/pyrxd/merkle_path.py:90-167 | Bytes whose varints are shortest, whose leaves are 1, or 0 or 2 and 32 bytes, and whose levels are sorted decode to a canonical path, and encoding it gives exactly the bytes that were read. |
| MerkleCodec.StrictIff | src/pyrxd/merkle_path.py:139-167 | Bytes have that form exactly when they start with the encoding of a canonical path. |
| MerkleCodec.DecodeRaises | src/pyrxd/merkle_path.py:90-123 | Whatever ends too early, the error is TypeError. |
| MerkleCodec.BareHeight | src/pyrxd/merkle_path.py:100-123 | Bytes that end behind the height read as that many empty levels. |
| MerkleObject.Reader.Take | src/pyrxd/utils.py:522-524 | Moves the stream by a read of up to k bytes. |
| MerkleObject.Reader.TakeUInt8 | src/pyrxd/utils.py:530-532 | Moves the stream by one byte, None at its end. |
| MerkleObject.Reader.TakeVarint | src/pyrxd/utils.py:570-584 | Moves the stream by one varint. |
| MerkleObject.AddLegal | src/pyrxd/merkle_path.py:57-60 | One bottom leaf adds exactly its legal offsets at every height above. |
| MerkleObject.CheckBottom | src/pyrxd/merkle_path.py:45-60 | Accepts exactly non-empty bottom levels without a repeated offset, and collects exactly the legal offsets of every height. |
| MerkleObject.CheckLevel | src/pyrxd/merkle_path.py:51-67 | Accepts exactly levels of legal, unrepeated offsets. |
| MerkleObject.CheckRoots | src/pyrxd/merkle_path.py:69-74 | Accepts exactly when all bottom leaves compute one root. |
| MerkleObject.RootOf | src/pyrxd/merkle_path.py:178-219 | The loop of compute_root computes the function the theorems are about. |
| MerkleObject.MarkKeyed | src/pyrxd/merkle_path.py:290-294 | Marks exactly the leaves at offsets where the other level carries a txid key. |
| MerkleObject.CombineLevel | src/pyrxd/merkle_path.py:285-295 | One height of combine merges and marks as specified. |
| MerkleObject.TakeLeaf | src/pyrxd/merkle_path.py:107-118 | Reads one leaf off the stream, or fails as the decoder does. |
| MerkleObject.TakeLevel | src/pyrxd/merkle_path.py:105-121 | Reads one level off the stream and sorts it. |
| MerkleObject.TakeLevels | src/pyrxd/merkle_path.py:104-121 | Reads all levels off the stream. |
| MerkleObject.WriteLevels | src/pyrxd/merkle_path.py:151-165 | Writes all levels one after the other. |
| MerkleObject.MerklePath.Make | src/pyrxd/merkle_path.py:41-74 | The constructor succeeds exactly on valid paths and stores them. |
| MerkleObject.MerklePath.FromReader | src/pyrxd/merkle_path.py:90-123 | Reads exactly the bytes of one path and succeeds exactly when they decode to a path that is valid for the given pair hash, which the object keeps. |
| MerkleObject.MerklePath.FromBinary | src/pyrxd/merkle_path.py:126-137 | On the encoding of any valid canonical path it gives back that path, with the given pair hash; it never gives one that is invalid for it. |
| MerkleObject.MerklePath.ComputeRoot | src/pyrxd/merkle_path.py:178-219 | The method computes the root of the object's path and changes nothing. |
| MerkleObject.MerklePath.ToBinary | src/pyrxd/merkle_path.py:139-167 | The method encodes the object's path and changes nothing. |
| MerkleObject.MerklePath.Trim | src/pyrxd/merkle_path.py:299-341 | Replaces the path by its trimmed form and keeps the object valid. |
| MerkleObject.MerklePath.Combine | src/pyrxd/merkle_path.py:267-297 | Succeeds exactly for equal heights of block, equal roots and an other path at least as tall; then the path is the trimmed merge, else it is unchanged. |
| CovenantParser.Parse | docs/brainstorms/gravity-ref-spike/rxd_sim.py:40-116 | The unrolled parser returns True exactly on the byte strings specified position by position. |
| CovenantParser.AcceptedIffPayment | docs/brainstorms/gravity-ref-spike/rxd_sim.py:40-116 | Those are exactly the strings over 64 bytes that serialize 1-4 inputs and 1-4 outputs, every script below 128 bytes, with an output of one of four shapes paying the hash at least the minimum. |
| CovenantParser.PaymentIffAccepted | docs/brainstorms/gravity-ref-spike/rxd_sim.py:40-116 | On the serialization of such a transaction the parser accepts exactly when some output pays: no other reading of the bytes exists. |
| CovenantParser.ScanIsPays | docs/brainstorms/gravity-ref-spike/rxd_sim.py:74-102 | On an output inside the bytes scan returns its script length and whether it pays. |
| CovenantParser.ReadInput | docs/brainstorms/gravity-ref-spike/rxd_sim.py:53-61 | Steps over one input, or fails exactly when its length byte is missing or above 127. |
| CovenantParser.ReadOutput | docs/brainstorms/gravity-ref-spike/rxd_sim.py:74-107 | Steps over one output without changing whether the rest is acceptable. |
| CovenantParser.ParseOutputs | docs/brainstorms/gravity-ref-spike/rxd_sim.py:68-116 | The unrolled output half accepts exactly when the outputs end before the locktime and one pays. |
| CovenantParser.Scan4Way | docs/brainstorms/gravity-ref-spike/validate_anywallet_parse.py:130-155 | The loop parser computes the function compared below, index errors included. |
| CovenantParser.LoopScanOnTx | docs/brainstorms/gravity-ref-spike/validate_anywallet_parse.py:130-155 | On every small transaction it answers whether an output pays, values unsigned. |
| CovenantParser.AcceptedByLoop | docs/brainstorms/gravity-ref-spike/validate_anywallet_parse.py:130-155 | On every input the covenant accepts, the loop parser returns True. |
| CovenantParser.ParsersAgreeIff | docs/brainstorms/gravity-ref-spike/validate_anywallet_parse.py:130-155 | On a small transaction of more than 64 bytes the two agree exactly when an output pays by the covenant's signed reading, or every output to the hash worth 2^63 or more is below the minimum unsigned as well. |
| CovenantParser.ParsersDiffer | docs/brainstorms/gravity-ref-spike/validate_anywallet_parse.py:143-153 | On an 82-byte transaction with one P2WPKH output worth 2^63 the covenant refuses and the loop parser accepts, for every hash and every minimum from 1 - 2^63 to 2^63. |
| LoopParser.LoopAcceptsIff | docs/brainstorms/gravity-ref-spike/validate_anywallet_parse.py:130-155 | On every byte string scan_4way answers exactly when the bytes are up to 255 whole inputs and then the claimed outputs, followed by anything or the last one cut short; it answers True exactly when a whole output pays, unsigned, or the cut one holds a P2WPKH or P2TR prefix and the whole hash. |
| LoopParser.LooseAccepted | docs/brainstorms/gravity-ref-spike/validate_anywallet_parse.py:130-155 | Two strings of 37 bytes without an input, one with a P2TR output that is cut short, are accepted, and not by the covenant. |
| ScriptNumReadings.ReadingsAgreeIff | docs/brainstorms/gravity-ref-spike/rxd_sim.py:16-33 | The coded and the described reading of a script number agree exactly on the empty string, without the sign bit, and for a last byte 0xc0 above zeros. |
| ScriptNumReadings.LengthByteIff | docs/brainstorms/gravity-ref-spike/rxd_sim.py:57-60 | 0x80 is -128 as coded and 0 as described, and the only length byte on which the test for a negative length differs. |
| ScriptNumReadings.NegativeZeroRefused | docs/brainstorms/gravity-ref-spike/rxd_sim.py:53-61 | A small transaction whose first input has an empty script is refused when that length is written 0x80. |
| ScriptNumReadings.AmountTestIff | docs/brainstorms/gravity-ref-spike/rxd_sim.py:76-101 | The test of an eight-byte value against the minimum comes out alike for all values exactly when the minimum is positive or not above -2^63. |
| ScriptWalk.OpcodeBdPositions | docs/brainstorms/gravity-ref-spike/build_htlc_covenant_spk.py:94-124 | Collects the 0xbd opcodes of the instruction stream, or fails where the stream does. |
| ScriptWalk.WalkRefs | docs/brainstorms/gravity-ref-spike/build_covenant.py:98-110 | Collects the refs of the same instruction stream. |
| ScriptWalk.WalkComposes | docs/brainstorms/gravity-ref-spike/build_htlc_covenant_spk.py:94-124 | After whole instructions the walk continues as the walk of what follows, shifted. |
| ScriptWalk.CompleteComposes | docs/brainstorms/gravity-ref-spike/build_htlc_covenant_spk.py:102-123 | Whole instructions joined are whole instructions. |
| ScriptWalk.ReportsCompose | docs/brainstorms/gravity-ref-spike/build_covenant.py:98-110 | The 0xbd positions and refs of joined pieces are those of the first, then those of the second shifted. |
| ScriptWalk.PushIsInert | docs/brainstorms/gravity-ref-spike/build_htlc_covenant_spk.py:67-75 | A push of any data up to 65535 bytes is one instruction, neither 0xbd nor a ref. |
| ScriptWalk.InertReportsNothing | docs/brainstorms/gravity-ref-spike/build_covenant.py:98-110 | Such an instruction adds no 0xbd opcode and no ref. |
| Instructions.InstructionIff | docs/brainstorms/gravity-ref-spike/build_htlc_covenant_spk.py:101-123 | The walker steps from the start of a string to its end exactly when the string is one instruction, the forms written out by byte. |
| Instructions.CompleteIff | docs/brainstorms/gravity-ref-spike/build_htlc_covenant_spk.py:94-124 | The walkers come out at the end of a script exactly when it is instructions put together. |
| Instructions.JoinReports | docs/brainstorms/gravity-ref-spike/build_covenant.py:98-110 | Of any instructions put together the walkers report exactly the 0xbd opcodes and the refs, at their positions, and nothing inside an operand. |
| Instructions.CutShort | docs/brainstorms/gravity-ref-spike/build_covenant.py:98-110 | An instruction that is cut short: an IndexError where a length byte of 0x4c or 0x4d is missing, else the last instruction, with what there is of a ref. |
| Instructions.RefOpcodes | docs/brainstorms/gravity-ref-spike/build_covenant.py:99-105 | 0xd0, 0xd1, 0xd2, 0xd3 and 0xd8 with any 36 bytes are reported as one ref, and no 0xbd in it. |
| Instructions.PlainOpcodes | docs/brainstorms/gravity-ref-spike/build_htlc_covenant_spk.py:101-123 | Of the other opcodes without operand only 0xbd is reported. |
| Instructions.LongPush | docs/brainstorms/gravity-ref-spike/build_htlc_covenant_spk.py:120-122 | 0x4e with the length of any data below 2^32 and the data is one instruction that reports nothing. |
| Instructions.PushedDataIff | src/pyrxd/utils.py:284-301 | Exactly the instructions up to 0x60 other than 0x50 leave data on the stack. |
| Instructions.PushForms | src/pyrxd/utils.py:284-301 | The four kinds of push leave their data, also when a shorter kind would do. |
| Instructions.NumberOpcodes | src/pyrxd/utils.py:284-301 | 0x51 to 0x60 leave 1 to 16, 0x4f leaves -1 and 0x00 leaves 0. |
| ScriptNumber.EncodeScriptNum | docs/brainstorms/gravity-ref-spike/build_htlc_covenant_spk.py:51-64 | The loop computes the script number bytes. |
| ScriptNumber.EncodeIntOctets | src/pyrxd/utils.py:304-316 | The octets of encode_int, signed in another order, are the same bytes. |
| ScriptNumber.NumRoundTrip | docs/brainstorms/gravity-ref-spike/build_htlc_covenant_spk.py:51-64 | Decoding the bytes as sign and magnitude gives the number. |
| ScriptNumber.ShortestData | docs/brainstorms/gravity-ref-spike/build_htlc_covenant_spk.py:51-64 | No shorter data stands for the same number. |
| ScriptNumber.EncodeIntRoundTrip | src/pyrxd/utils.py:304-316 | encode_int is one push whose data decodes to the number. |
| ScriptNumber.EncodeIntIsShortest | src/pyrxd/utils.py:284-316 | No push of the same number is shorter (rules 3 and 4 of BIP 62). |
| ScriptNumber.EncodersAgreeIff | docs/brainstorms/gravity-ref-spike/build_htlc_covenant_spk.py:78-87 | minimal_num_push and encode_int agree exactly on the numbers other than -1 with data up to 65535 bytes. |
| ScriptNumber.MinusOneDiffers | docs/brainstorms/gravity-ref-spike/build_htlc_covenant_spk.py:78-87 | At -1 minimal_num_push writes 01 81 and encode_int writes 4f. |
| ScriptNumber.EncodePushIsMinimal | src/pyrxd/utils.py:284-301 | encode_pushdata pushes its data, and no script of one push with that data is shorter. |
| ScriptNumber.PushIsMinimalIff | docs/brainstorms/gravity-ref-spike/build_htlc_covenant_spk.py:67-75 | push is minimal in that sense exactly for data that no opcode pushes. |
| ScriptNumber.NumPushIsMinimalIff | docs/brainstorms/gravity-ref-spike/build_htlc_covenant_spk.py:78-87 | minimal_num_push is minimal exactly for numbers other than -1. |
| ScriptNumber.AmountPushIsMinimalIff | docs/brainstorms/gravity-ref-spike/build_htlc_covenant_spk.py:223-223 | An amount pushed as data is minimal, and what encode_int writes, exactly when it is neither -1 nor in 1 .. 16. |
| ScriptNumber.AmountOfTwo | docs/brainstorms/gravity-ref-spike/build_htlc_covenant_spk.py:223-223 | An amount of 2 is filled in as 01 02 where 52 would do. |
| ScriptNumber.PushFailsIff | docs/brainstorms/gravity-ref-spike/build_htlc_covenant_spk.py:67-75 | push fails exactly above 65535 bytes, encode_pushdata above 2^32 - 1. |
| ScriptNumber.NumPushIsInert | docs/brainstorms/gravity-ref-spike/build_htlc_covenant_spk.py:78-87 | A number push adds no 0xbd opcode and no ref. |
| CovenantBuilder.FilledReports | docs/brainstorms/gravity-ref-spike/build_htlc_covenant_spk.py:242-246 | A filled template has exactly the 0xbd opcodes of its code and the refs put behind ref opcodes, whatever is filled in. |
| CovenantBuilder.FitsIff | docs/brainstorms/gravity-ref-spike/build_htlc_covenant_spk.py:219-240 | What a template needs to be filled: code of whole instructions, values whose pushes do not fail, and 36 bytes behind a ref opcode. |
| CovenantBuilder.LeadingRefIsOnly | docs/brainstorms/gravity-ref-spike/build_covenant.py:82-114 | The phantom-ref check passes: walking a filled template that is led by its ref and has no other gives exactly that ref, at position 0. |
| CovenantBuilder.FilledIsMinimalIff | docs/brainstorms/gravity-ref-spike/build_htlc_covenant_spk.py:219-246 | All pushes filled into a template are minimal exactly when no data is a byte 1 .. 16 or 0x81 and no number is -1. |
| CovenantBuilder.RxdHolderReports | docs/brainstorms/gravity-ref-spike/build_htlc_covenant_spk.py:135-137 | The native holder script has no 0xbd opcode and no ref. |
| CovenantBuilder.FtHolderReports | docs/brainstorms/gravity-ref-spike/build_htlc_covenant_spk.py:127-128 | The 75-byte FT holder script has one 0xbd opcode, at 25, and its own ref, at 26. |
| CovenantBuilder.NftHolderReports | docs/brainstorms/gravity-ref-spike/build_htlc_covenant_spk.py:131-132 | The 63-byte NFT holder script has no 0xbd opcode and its own ref, in front. |
| CovenantBuilder.EpilogueBytes | docs/brainstorms/gravity-ref-spike/build_htlc_covenant_spk.py:127-249 | The FT holder script and the weld end in the same twelve opcodes. |
| CovenantBuilder.WeldReports | docs/brainstorms/gravity-ref-spike/build_htlc_covenant_spk.py:249-249 | The weld has one 0xbd opcode, first, and one ref, right behind. |
| CovenantBuilder.WeldGuardIff | docs/brainstorms/gravity-ref-spike/build_htlc_covenant_spk.py:248-252 | Guard 1 passes exactly on prologues that are whole instructions without a 0xbd opcode. |
| CovenantBuilder.FilledFtPassesGuard | docs/brainstorms/gravity-ref-spike/build_htlc_covenant_spk.py:242-252 | An FT template whose code has no 0xbd opcode passes guard 1 for every hash lock, amount, key hash and ref. |
| Radix.ConvertBack | src/pyrxd/base58.py:20-25 | Rewriting digits in another base, leading zeros one for one, and back gives the same digits. |
| Radix.DigitCount | src/pyrxd/base58.py:20-24 | A number between b^(k-1) and b^k has k digits in base b. |
| Base58.DecodeOfEncode | src/pyrxd/base58.py:12-25 | Decoding an encoding gives the bytes, for every byte string. |
| Base58.EncodeOfDecode | src/pyrxd/base58.py:53-69 | Encoding a decoding gives the text, for every text over the alphabet. |
| Base58.DecodableIff | src/pyrxd/base58.py:61-67 | Exactly the texts over the alphabet decode. |
| Base58.B58Encode | src/pyrxd/base58.py:12-25 | The loops of b58_encode compute that encoding. |
| Base58.B58Decode | src/pyrxd/base58.py:53-69 | The loops of b58_decode compute that decoding, errors included. |
| Base58.ToBase58 | src/pyrxd/utils.py:393-410 | to_base58 equals b58_encode on every byte string. |
| Base58.FromBase58 | src/pyrxd/utils.py:371-390 | from_base58 equals b58_decode on every non-empty text and refuses the empty one. |
| Base58.AlphabetHolds | src/pyrxd/base58.py:5-5 | Exactly the ASCII digits and letters but 0, O, I and l have a digit. |
| Wif.CheckedBytes | src/pyrxd/base58.py:8-80 | A checked text stands for the payload and the first four bytes of its hash. |
| Wif.CheckDecodeIff | src/pyrxd/base58.py:72-80 | A text is accepted exactly when it stands for a payload and the first four bytes of its hash. |
| Wif.WifBytes | src/pyrxd/keys.py:189-194 | An exported key is 0x80 or, for the test network, 0xef, the key, 0x01 when compressed, and the first four bytes of their hash. |
| Wif.WifRaises | src/pyrxd/utils.py:75-86 | Whatever is wrong with the text, the error is ValueError. |
| Wif.CheckRoundTrip | src/pyrxd/base58.py:72-80 | A checksummed text decodes to its payload. |
| Wif.WifLength | src/pyrxd/utils.py:84-84 | 38 bytes with a WIF prefix always have 52 base58 digits and 37 always 51. |
| Wif.WifRoundTrip | src/pyrxd/keys.py:189-194 | Importing an exported key gives the key, flag and network, also for uncompressed keys ending in 0x01. |
| Ripemd160.Hasher.constructor | src/pyrxd/hash.py:211-215 | A new object has seen no input. |
| Ripemd160.Hasher.Update | src/pyrxd/hash.py:217-223 | Keeps the state the fold over the whole blocks of the input plus the rest, and appends the data. |
| Ripemd160.Hasher.Digest | src/pyrxd/hash.py:225-243 | Equals the one-shot hash of the input so far and changes nothing. |
| Ripemd160.Stream | src/pyrxd/hash.py:207-243 | For any chunks with a digest after each, every digest is the one-shot hash of all chunks so far. |
| Ripemd160.InitialWords | src/pyrxd/hash.py:211-215 | The five initial words. |
| Ripemd160.PadShape | src/pyrxd/hash.py:229-237 | The padding is the message, 0x80, zeros and the bit count in eight bytes, in the fewest blocks that hold them. |
| Ripemd160.DigestWords | src/pyrxd/hash.py:225-243 | The digest has 20 bytes, the five words of the folded padding in order, little-endian. |
| Ripemd160.FoldAppend | src/pyrxd/hash.py:239-241 | Folding over joined blocks is folding over one part and then the other. |
| Ripemd160.PadInjective | src/pyrxd/hash.py:232-237 | Messages below 2^61 bytes with one padding are equal. |
| Wallet.GreedySelectCount | src/pyrxd/wallet.py:44-63 | Stops at the first count that reaches its target, else takes all coins, and fails exactly when they do not cover the amount. |
| Wallet.SelectInline | src/pyrxd/wallet.py:202-224 | The inlined loop makes the same decision, and its selection is the first coins. |
| Wallet.SelectsUnique | src/pyrxd/wallet.py:44-63 | That decision is unique, so both loops select the same count and fail in the same cases. |
| Wallet.GreedyTakesFewest | src/pyrxd/wallet.py:44-63 | Stopping at k, no non-empty choice of fewer coins covers the amount and the fee for its size. |
| Wallet.NeverStopsIff | src/pyrxd/wallet.py:58-63 | Not stopping means exactly that no non-empty choice covers them. |
| Wallet.SortedCoins | src/pyrxd/wallet.py:202-202 | The sorted coins are the same coins in descending order. |
| Wallet.TrialSizeBound | src/pyrxd/wallet.py:211-214 | Up to 65535 inputs of at most 148 bytes and two 34-byte outputs fit the estimate. |
| Wallet.TrialSizeBoundIff | src/pyrxd/wallet.py:211-214 | The bound is tight: with 148-byte inputs it holds exactly up to 65535. |
| Wallet.NoZeroSelected | src/pyrxd/wallet.py:216-221 | A selection that stops at its target for a positive amount holds no coin worth nothing. |
| Wallet.TargetIsFundable | src/pyrxd/wallet.py:216-239 | After stopping at the target for a positive amount with such inputs the error after the fee cannot occur. |
| Wallet.MakeChange | src/pyrxd/wallet.py:238-259 | Succeeds exactly when the inputs cover amount and fee; change is at least 546 and then the fee is exact, else the fee exceeds it by less than 546. |
| Wallet.FeeOfPayment | src/pyrxd/wallet.py:238-259 | Of such a payment: change exactly from 546 photons on, and then the fee is exact, else it exceeds the trial fee by less than 546. |
| Wallet.BuildSendTx | src/pyrxd/wallet.py:171-259 | Succeeds exactly when the request is well-formed and the selected coins are spendable and cover the trial fee; spends exactly those coins and pays as above. |
| Wallet.AvoidableIff | src/pyrxd/wallet.py:202-236 | When a build of up to 65535 coins fails for its selection, no number of largest coins reaches the estimate, and some choice of spendable coins pays the fee of its own trial exactly when some number of largest coins does. |
| Wallet.TwoCoinsIff | src/pyrxd/wallet.py:202-236 | Of two coins with inputs of b bytes the larger alone would have done exactly when it pays 78 + b bytes but not 228, and both do not pay 78 + 2b. |
| Wallet.AvoidableFailure | src/pyrxd/wallet.py:202-236 | For every amount and rate a coin that pays for one 146-byte input exactly and a coin worth 1 are both selected, and the build fails. |
| ModArith.InverseWorks | src/pyrxd/keys.py:253-253 | Every number below a prime times its inverse is 1. |
| Ecdsa.TimesMod | src/pyrxd/curve.py:86-102 | A multiple of the generator depends on the scalar modulo n only. |
| Ecdsa.TimesNeg | src/pyrxd/keys.py:258-259 | The multiple by n - k is the negative of the multiple by k and has its x. |
| Ecdsa.CheckedPoint | src/pyrxd/keys.py:246-253 | The point that verification computes from w is the multiple of the generator by w * (z + r * d). |
| Ecdsa.NonceRecovered | src/pyrxd/keys.py:251-259 | Dividing z + r * d by s gives the nonce, and by n - s its negative. |
| Ecdsa.SignatureVerifies | src/pyrxd/keys.py:232-259 | Every signature has 1 <= s <= n / 2 and r = R.x, and satisfies section 4.1.4 of SEC 1 exactly when 0 < r < n. |
| Ecdsa.SigningFailsIff | src/pyrxd/keys.py:241-255 | Signing fails exactly when k or z + r * d is a multiple of n, with ValueError. |
| Ecdsa.VerifiesIff | src/pyrxd/keys.py:232-259 | Verification accepts exactly the pairs from 1 to n - 1 that some nonce makes: s * k is z + r * d and r is the x-coordinate of k * g, modulo n. |
| CurveGroup.RIsReached | src/pyrxd/keys.py:241-259 | Every affine point's x is the r of some nonce, for any secret d and any digest z with z + x * d not a multiple of n, and that signature verifies exactly when 0 < x < n. |
| Secp256k1.OrderIsX | src/pyrxd/curve.py:19-30 | n is the x of a point of secp256k1, with the y named in the module. |
| Secp256k1.LargeXFails | src/pyrxd/keys.py:245-249 | On secp256k1, for every secret and every digest that is no multiple of n some nonce below n makes signing return r = n, and that signature does not verify. |
| Secp256k1.LooseDerWritten | src/pyrxd/keys.py:261-283 | On secp256k1, for every secret and digest whose sum is no multiple of n some nonce below n makes signing write r = 1, and the bytes are not strict DER. |
| Signing.SignedBytesVerify | src/pyrxd/keys.py:232-283 | The bytes that signing writes decode to a low-s pair that verifies exactly when 0 < R.x < n. |
| Fermat.LittleTheorem | src/pyrxd/curve.py:105-111 | a^(p-1) = 1 for a prime p and 0 < a < p; what the square-root exponent rests on. |
| Curve.RootOfSquare | src/pyrxd/curve.py:109-110 | The power (p + 1) / 4 of a square is a root of it. |
| Curve.GetYOnCurveIff | src/pyrxd/curve.py:105-111 | The point with the computed y is on the curve exactly when some point has that x. |
| Curve.GetYRecovers | src/pyrxd/curve.py:105-111 | Every point of the curve is recovered from its x and the parity of its y (section 2.3.4 of SEC 1). |
| Curve.GetYParityIff | src/pyrxd/curve.py:111-111 | Over any field of this kind the requested parity is met exactly unless an odd root of zero is asked for. |
| Curve.OddRootOfZero | src/pyrxd/curve.py:105-111 | On y^2 = x^3 + 1 modulo 7, a curve the code does not have, asking for the odd y at x = 3 gives 0. |
| CurveGroup.YSquareIsNotZero | src/pyrxd/curve.py:105-110 | Where the points of a curve are the multiples of a generator in a group of odd order whose negatives are those of curve_negative, x^3 + ax + b is never zero. |
| CurveGroup.ParityAlwaysMet | src/pyrxd/curve.py:105-111 | On such a curve curve_get_y always gives the requested parity. |
| CurveGroup.TinyIsGroupOf | src/pyrxd/curve.py:44-57 | That hypothesis has an instance: the three points of y^2 = x^3 + 4x + 2 modulo 5. |
| Secp256k1.ParityIsMet | src/pyrxd/curve.py:105-111 | With the constants of the code, and its points the multiples of its generator, curve_get_y always gives the requested parity. |
| Curve.OnCurveIffSquare | src/pyrxd/curve.py:33-41 | on_curve says that y is a square root of x^3 + ax + b. |
| Curve.NegativeAccepts | src/pyrxd/curve.py:44-57 | Negation accepts exactly the points of the curve and raises ValidationError for others, stays on it, and its second check never fails. |
| Curve.NegativeOfPoint | src/pyrxd/curve.py:44-57 | The negative has the opposite parity unless y is zero, is the only other point with that x, and negates back. |
| Der.DeserializeFrame | src/pyrxd/utils.py:89-143 | The decoder reads back both integers of every frame. |
| Der.AcceptedIsFrame | src/pyrxd/utils.py:89-143 | The decoder accepts nothing but frames of two non-empty integers. |
| Der.DeserializeRaises | src/pyrxd/utils.py:105-143 | Whatever is wrong with the bytes, the error is ValueError. |
| Der.MinimalIff | src/pyrxd/utils.py:154-157 | An integer is encoded exactly for 0 < n < 2^256, strictly and with its value; zero is an IndexError, any other an OverflowError. |
| Der.StrictIsMinimal | src/pyrxd/utils.py:154-157 | There is one strict integer of each value. |
| Der.SerializeRoundTrip | src/pyrxd/utils.py:146-164 | Exactly the pairs in range are encoded; the encoding is strict (BIP 66) and decodes to r and the low s. |
| Der.SignatureRoundTrip | src/pyrxd/utils.py:146-164 | For 1 <= r < 2^256 and 1 <= s < n decoding the encoding gives r and the smaller of s and n - s. |
| Der.StrictIsSerialized | src/pyrxd/utils.py:89-143 | Encoding what a strict low-s signature decodes to gives the same bytes. |
| Der.FixedRoundTrip | src/pyrxd/keys.py:261-283 | The fixed-width encoding decodes to its own r and s, for all below 2^256. |
| Der.SmallNumberNotStrict | src/pyrxd/keys.py:261-283 | With r = 1 it is not strict, whatever s. |
| Der.FixedIsStrictIff | src/pyrxd/keys.py:261-283 | It is strict exactly when neither number is below 2^247. |
| Confusables.ExpandRound | scripts/vendor-confusables.py:175-188 | One pass expands each mapped character the first time it is met. |
| Confusables.CloseOne | scripts/vendor-confusables.py:159-191 | The loop computes the closed target; it warns exactly when 50 passes changed something, never on a table of at most 50 entries. |
| Confusables.CloseTransitively | scripts/vendor-confusables.py:155-192 | Closes every source of the table, in any order. |
| Confusables.SettleBound | scripts/vendor-confusables.py:166-190 | Without the cap, too, the passes end: at most one changing pass for each source not yet seen. |
| Confusables.RoundsSettle | scripts/vendor-confusables.py:166-190 | The cap changes nothing unless more passes than it allows change something. |
| Confusables.SmallTableSettles | scripts/vendor-confusables.py:166-190 | Fewer changing passes than entries; the cap cannot matter up to 51 entries. |
| Confusables.ClosesIff | scripts/vendor-confusables.py:155-192 | A closed target holds no mapped character if and only if expanding the source all the way meets no mapped character twice and takes at most 50 changing rounds; then it is the full expansion. |
| Confusables.NoRepeatIsShallow | scripts/vendor-confusables.py:166-190 | An expansion without repeats takes fewer rounds than the table has entries. |
| Confusables.SmallTableClosesIff | scripts/vendor-confusables.py:155-192 | In a table of at most 51 entries a closed target holds no mapped character exactly when no mapped character is met twice. |
| Confusables.RepeatIsLost | scripts/vendor-confusables.py:177-190 | a to xx and x to y closes to yx, survives the filters, and makes the skeleton not idempotent. |
| Confusables.FilterToRelevant | scripts/vendor-confusables.py:195-251 | Keeps exactly the entries that pass the three coded filters, unchanged. |
| Confusables.KeptIff | scripts/vendor-confusables.py:238-250 | An entry is kept, unchanged, exactly when its source is not printable ASCII, some target character is a letter, numeral or punctuation, and none is of category Cc or Cf. |
| Confusables.FourthFilterIff | scripts/vendor-confusables.py:226-234 | A remark on the filters: kept entries meet the fourth filter of the docstring exactly when no entry that passes the other three has a letter outside Latin in its target. |
| Confusables.FourthFilterNotCoded | scripts/vendor-confusables.py:226-251 | The docstring's example, fullwidth K to Cyrillic Ka, is kept. |
| Confusables.IdempotentIff | scripts/vendor-confusables.py:311-325 | The skeleton over any table is idempotent exactly when it leaves every target alone. |
| Confusables.OwnSkeletonIff | scripts/vendor-confusables.py:311-325 | Over a table without empty targets a text is its own skeleton exactly when each of its mapped characters stands for itself. |
| Confusables.FilteredIdempotentIff | scripts/vendor-confusables.py:195-251 | Over whatever the filters keep, the skeleton is idempotent exactly when every kept source that occurs in a kept target stands for itself. |
| Confusables.VendoredIsIdempotent | scripts/vendor-confusables.py:311-325 | Over the closed and filtered table that is exact in terms of closed targets; it is so when every kept source is repeat-free and needs at most 50 rounds. |
| Confusables.DroppedRepeatIsHarmless | scripts/vendor-confusables.py:195-251 | a to xx and x to y with an ASCII x: the target yx of a is kept, the source is not repeat-free, and the skeleton is idempotent. |
| Confusables.PrintableUnchanged | scripts/vendor-confusables.py:239-243 | Text from 0x20 to 0x7e is its own skeleton over what the filters keep. |
| Confusables.AsciiUnchanged | scripts/vendor-confusables.py:318-325 | Printable ASCII text is its own skeleton. |

## Left out

- MerklePath.verify: a network call around compute_root.
- Aliasing of leaf dictionaries between the two paths of combine (`src/pyrxd/merkle_path.py:287-294` marks leaves the
  other path may share): leaves are values, paths are reassigned.
- Hex text: hashes are byte strings. A key that is present with value None, and a leaf whose hash is the empty string,
  are not told apart from an absent key where the code would distinguish them.
- Negative offsets and block heights.
- MerkleObject.MerklePath.Make: which exception a refused path raises is not stated, only that it is refused.
- RIPEMD-160's compression function (the 80 rounds and their tables) is a parameter: what is proved about buffering,
  padding and folding holds for each one.
- SHA-256 and double SHA-256 are parameters.
- Template text: a compiled covenant is a list of code pieces and placeholders, not hex text with `<NAME>` replaced;
  the artifacts themselves and `count_input_refs` (in pyrxd.glyph) are not part of this model.
- Sorting uses insertion sort as the specification of Python's stable sort.
- Transaction and Script internals: a transaction's size follows from its input and output sizes, which are given by a
  function of the input's position and 34 bytes for each output; address validation is a Boolean.
- `Wallet.build_send_max_tx` and everything that talks to a server.
- `curve_add`, `curve_multiply`, deterministic nonces and the library's own signing: foreign code. The group laws are
  hypotheses of the signing theorems. That the curve's points are the multiples of its generator is a hypothesis of
  `ParityAlwaysMet`, `ParityIsMet`, `LargeXFails` and `LooseDerWritten`, and so is, where they need it, that
  secp256k1's p and n are prime.
- `encode_pushdata` without the minimal rule, `from_base58check` prefixes, recoverable signatures.
- Fetching, parsing and printing of the confusables file.
- The swap coordinator and watchtowers, glyph and dMint code, SPV, HD wallet, AES, network and command line.
