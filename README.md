# Uplift refunds: Merkle whitelist tree and script utilities in Dafny

The repository's refund accounting lives in Solidity contracts: the vesting curve, the KPI refund requester and the refund claimer. This project models its TypeScript tooling instead, namely the two utility files those contracts' deployment and test scripts rely on:

- `utils/merkle-tree.ts`, the sorted-pair Merkle tree behind the sale whitelist. The class keeps the list of leaves and the list of layers. Its constructor drops missing leaves, sorts the rest by `Buffer.compare`, removes neighbouring duplicates and builds the layers. `getProof` walks the layers and collects one sibling per layer. In the model these are the class `Merkle.MerkleTree`, whose fields `elements` and `layers` are sequences, and the pure functions beside it. Keccak-256 is a function-valued parameter `hash` with no known properties. Every property below holds for any hash function.
- `utils/utilities.ts`, the pure helpers: 18-decimal and UQ112x112 scaling, millisecond to second timestamps, the JSON fix-up `formatJson`, the Tron endpoint table `tronDetails`, and `decodeParams`, which validates the length of the hex payload and rewrites decoded addresses. The ABI decoder that `decodeParams` calls is a function-valued parameter.

Modules:

- `Wrappers` (`wrappers.dfy`) provides `Option` (JavaScript's `null`/`undefined`) and `Result` (a value or the error a call throws).
- `ByteOrder` (`byte_order.dfy`) provides bytes, the lexicographic order of `Buffer.compare`, sorting, the neighbour de-duplication of `bufDedup`, and `0x` hex rendering with its inverse.
- `Merkle` (`merkle_tree.dfy`) provides pair hashing, layers, proofs and the `MerkleTree` class.
- `Utilities` (`utilities.dfy`) holds the helpers of `utils/utilities.ts`.

The main results:

- The constructor leaves `elements` strictly ascending, holding exactly the leaves that were given. Whatever algorithm the JavaScript engine sorts with, the outcome is the one sorted permutation (`ByteOrder.SortedPermutationUnique`).
- Each layer holds (n + 1) / 2 nodes when the layer below holds n. Node k of a layer is the pair hash of nodes 2k and 2k + 1 of the layer below, or node 2k unchanged when it has no partner.
- The layers end in a single node, and that node is the root.
- The pair hash is symmetric.
- A proof has at most one element per layer below the root.
- Hashing the located leaf with each proof element in turn gives back the root (`Merkle.ProofReproducesRoot`).

`FoldProof` is that folding step. It is the check an on-chain verifier makes, and it is not code from the repository. It is the reference that `getProof` is proved against.

`decodeParams`, as written, shifts its arguments when `output` is missing, empty or a boolean. The shift puts the `types` array where the hex text belongs, so the next `output.replace(...)` throws a `TypeError`. The model returns `Err(NotAString)` for every such call.

## Model

Small fragments of a source expression that carry no contract of their own are covered by the row of the member that uses them: `Merkle.NodeHash` (the `keccak256(sortAndConcat(...))` of utils/merkle-tree.ts:57) by `Merkle.CombinedHash`, `Merkle.Sibling` and `Merkle.Parent` (the push and the `Math.floor(idx / 2)` at :76-82) by `Merkle.ProofFrom` and `Merkle.CollectProof`, and `ByteOrder.KeptAt` (the filter test at :125) by `ByteOrder.DedupFrom`.

| member | source | states |
|---|---|---|
| `Merkle.Present` | utils/merkle-tree.ts:11 | `filter(el => el)` keeps exactly the leaves that are present (every buffer, even an empty one, is truthy). |
| `ByteOrder.CompareAntisymmetric` | utils/merkle-tree.ts:137-139 | `Buffer.compare` with its operands swapped gives the opposite result. |
| `ByteOrder.CompareZeroIffEqual` | utils/merkle-tree.ts:123-127 | `Buffer.compare` returns 0 exactly when the buffers are equal (what `equals` tests). |
| `ByteOrder.LeTransitive` | utils/merkle-tree.ts:14 | The order `sort(Buffer.compare)` sorts by is transitive, strictly so when one step is strict. |
| `ByteOrder.Sort` | utils/merkle-tree.ts:14 | The sorted result is ascending under `Buffer.compare` and is a permutation of the input. |
| `ByteOrder.SortedPermutationUnique` | utils/merkle-tree.ts:14 | Two ascending permutations of the same buffers are equal, so any sorting algorithm produces `Sort`'s result. |
| `ByteOrder.Compare` | utils/merkle-tree.ts:14 | `Buffer.compare` returns -1, 0 or 1; its order properties are the lemmas below. |
| `ByteOrder.DedupFrom` | utils/merkle-tree.ts:123-127 | The filter from index i on keeps at most the elements from i on. |
| `ByteOrder.Dedup` | utils/merkle-tree.ts:123-127 | `bufDedup` never lengthens the list and always keeps the first element of a non-empty list. |
| `ByteOrder.DedupSameValues` | utils/merkle-tree.ts:123-127 | `bufDedup` keeps every value of its input and adds none. |
| `ByteOrder.DedupFromAbove` | utils/merkle-tree.ts:123-127 | On sorted input, everything kept after index i - 1 lies strictly above element i - 1. |
| `ByteOrder.DedupFromStrictlySorted` | utils/merkle-tree.ts:123-127 | On sorted input, what `bufDedup` keeps is strictly ascending. |
| `ByteOrder.DedupSorted` | utils/merkle-tree.ts:123-127 | On sorted input, `bufDedup` yields a strictly ascending list of exactly the input's values. |
| `Merkle.Leaves` | utils/merkle-tree.ts:8-16 | The constructor's `elements` are strictly ascending (no equal neighbours) and hold exactly the present input leaves. |
| `Merkle.MerkleTree.constructor` | utils/merkle-tree.ts:8-20 | After construction `elements` is `Leaves(input)` and `layers` are built from it (the object invariant `Valid` holds). |
| `Merkle.SortAndConcat` | utils/merkle-tree.ts:137-139 | The two operands are concatenated with the one that is not above the other first. |
| `Merkle.SortAndConcatSymmetric` | utils/merkle-tree.ts:137-139 | `sortAndConcat(a, b) == sortAndConcat(b, a)`. |
| `Merkle.CombinedHash` | utils/merkle-tree.ts:49-58 | A missing first operand yields the second, a missing second operand yields the first, and two present operands yield the hash of their sorted concatenation; so the result is missing only when both are. |
| `Merkle.CombinedHashSymmetric` | utils/merkle-tree.ts:49-58 | `combinedHash(a, b) == combinedHash(b, a)` for present and missing operands alike. |
| `Merkle.NextLayer` | utils/merkle-tree.ts:38-47 | The next layer has (n + 1) / 2 nodes for a layer of n. |
| `Merkle.NextLayerNode` | utils/merkle-tree.ts:38-47 | Node k of the next layer is the pair hash of nodes 2k and 2k + 1, or node 2k itself when 2k + 1 is past the end. |
| `Merkle.BuildLayers` | utils/merkle-tree.ts:27-33 | The layers from a non-empty list start with that list and end with a layer of one node. |
| `Merkle.LayersOf` | utils/merkle-tree.ts:22-36 | No elements give the single layer `[[empty buffer]]`; otherwise the first layer is the element list; the last layer always has one node. |
| `Merkle.LayersShape` | utils/merkle-tree.ts:27-33 | Every layer below the last has more than one node and is followed by its next layer, of half its size rounded up. |
| `Merkle.MerkleTree.GetLayers` | utils/merkle-tree.ts:22-36 | The while loop terminates with exactly the layers `LayersOf` describes. |
| `Merkle.MerkleTree.Root` | utils/merkle-tree.ts:60-62 | The root is the only node of the last layer; it is the empty buffer for no elements and the element itself for one. |
| `Merkle.MerkleTree.HexRoot` | utils/merkle-tree.ts:64-66 | The hex root reads back as the root. |
| `Merkle.GetPairElement` | utils/merkle-tree.ts:94-102 | The pair element is another node of the layer with the same parent index; null exactly when no such node exists. |
| `Merkle.ProofFrom` | utils/merkle-tree.ts:75-85 | The `reduce` over the layers adds at most one sibling per layer. |
| `Merkle.FoldSibling` | utils/merkle-tree.ts:75-85 | Folding in the sibling collected at one layer turns a node into its parent in the next layer. |
| `Merkle.ProofReproducesRoot` | utils/merkle-tree.ts:68-86 | For a leaf at index idx, folding the collected proof reproduces the root, and the proof has at most layers − 1 elements. |
| `Merkle.ProofOfLeaf` | utils/merkle-tree.ts:68-86 | For the layers `getLayers` builds from any element list and every valid leaf index, the proof collected for that leaf is at most layers − 1 long and folds from the leaf back to the root. |
| `Merkle.CollectProof` | utils/merkle-tree.ts:75-85 | The `reduce` loop, pushing each pair element and halving the index, returns exactly `ProofFrom` of the layers and the leaf index. |
| `Merkle.SearchKey` | utils/merkle-tree.ts:107-112 | A 32-byte element is searched for as it is; any other element is hashed first. |
| `Merkle.IndexOf` | utils/merkle-tree.ts:114-120 | The first index holding the key, or −1 exactly when the key is absent. |
| `Merkle.MerkleTree.BufIndexOf` | utils/merkle-tree.ts:104-121 | The `for` loop returns `IndexOf` of the element, hashed first unless it is exactly 32 bytes long. |
| `Merkle.MerkleTree.GetProof` | utils/merkle-tree.ts:68-86 | Fails with "Element does not exist in Merkle tree" exactly when the leaf is absent. Otherwise it returns one sibling per layer where the index has one, halving the index each layer. The proof is at most layers − 1 long and folds back to the single node of the top layer, which `getRoot()` returns. |
| `Merkle.MerkleTree.GetHexProof` | utils/merkle-tree.ts:88-92 | Fails exactly as `getProof` does; otherwise it is `bufArrToHexArr` of exactly the proof `getProof` collects, and that proof folds to the root. |
| `Merkle.BufArrToHexArr` | utils/merkle-tree.ts:129-135 | One `0x` hex string per buffer, each reading back as that buffer. |
| `ByteOrder.ToHex` | utils/merkle-tree.ts:134 | `'0x' + toString('hex')` has two digits per byte after the `0x`. |
| `ByteOrder.HexDigits` | utils/merkle-tree.ts:134 | `toString('hex')` yields two characters per byte, each a lower-case hex digit. |
| `ByteOrder.ToHexRoundTrip` | utils/merkle-tree.ts:134 | Parsing the hex rendering of a buffer gives back the buffer. |
| `Utilities.ScaleValues` | utils/utilities.ts:123-127 | 10^18 is 1000000000000000000, and `Q112` = 2^112 is 5192296858534827628530496329220096. |
| `Utilities.ExpandTo18Decimals` | utils/utilities.ts:15-17 | The result is a whole multiple of 10^18, and dividing it by 10^18 gives n back. |
| `Utilities.ToUQ112` | utils/utilities.ts:125-127 | The result is a whole multiple of 2^112 whose quotient by 2^112 is the value. |
| `Utilities.GetUnixTimestamp` | utils/utilities.ts:98-100 | The result is the floor of milliseconds / 1000: r·1000 ≤ ms < r·1000 + 1000. |
| `Utilities.StripTrailingNewline` | utils/utilities.ts:116 | `replace(/\n$/, '')` removes the final character exactly when it is a newline, and otherwise leaves the text unchanged. |
| `Utilities.DropLast` | utils/utilities.ts:116 | `slice(0, -1)` returns the text without its last character, and the empty text unchanged. |
| `Utilities.FormatJson` | utils/utilities.ts:114-121 | Text starting with `[` is returned unchanged. Any other text (the empty string gives `[]`) becomes `[` + its prefix without one final newline and then without its last character + `]`. |
| `Utilities.FormatJsonIdempotent` | utils/utilities.ts:114-121 | Applying `formatJson` to its own result changes nothing. |
| `Utilities.GetTronDetails` | utils/utilities.ts:136-147 | All three endpoints are equal. They are `https://api.trongrid.io` exactly for `mainnetTron` and `https://api.shasta.trongrid.io` otherwise. |
| `Utilities.StripHexPrefix` | utils/utilities.ts:161-167 | `replace(/^0x/, '')` removes a leading `0x` exactly when the text starts with it, and otherwise leaves the text unchanged. |
| `Utilities.StripMethodHash` | utils/utilities.ts:161-163 | Only with `ignoreMethodHash` set and a hex length ≡ 8 (mod 64) after `0x` is the text replaced, by `0x` followed by the digits after the first 8; otherwise the text is unchanged. |
| `Utilities.StripMethodHashAligns` | utils/utilities.ts:161-168 | After the selector is removed, the length check always passes. |
| `Utilities.LowerChar` | utils/utilities.ts:171 | An ASCII upper-case letter becomes the lower-case letter at the same place in the alphabet; every other character is kept. |
| `Utilities.ToLower` | utils/utilities.ts:171 | `toLowerCase()` on ASCII text: the same length, with each character mapped by `LowerChar`. |
| `Utilities.Drop2` | utils/utilities.ts:171 | `substr(2)`: the text after its first two characters, or the empty text when it is shorter than two. |
| `Utilities.TronAddress` | utils/utilities.ts:171 | A decoded address becomes `41` followed by its characters after the first two, in lower case, with its length kept; text shorter than two characters becomes just `41`. |
| `Utilities.TronAddressOfLowerHex` | utils/utilities.ts:171 | For `0x` + lower-case digits, the rewrite only replaces `0x` by `41`. |
| `Utilities.RewriteAddresses` | utils/utilities.ts:169-174 | The `reduce` loop returns one value per decoded value, in order, each `address` rewritten by `TronAddress` and every other value unchanged. |
| `Utilities.DecodeParams` | utils/utilities.ts:155-175 | A missing, empty or boolean `output` fails. Otherwise the call fails with the "multiple of 64" message exactly when the hex length (after the optional selector removal) is not a multiple of 64. On success it returns the decoder's values in order, each `address` rewritten by `TronAddress`. |

## Left out

- The Solidity contracts (release-curve vesting, KPI refund requester, refund claimer) are not part of this model. The scripts under `test/` only reach them through a local chain.
- keccak256 is a parameter (`hash`) with no known properties. The proofs therefore need neither collision resistance nor 32-byte outputs.
- `Merkle.MerkleTree.constructor`: the in-place `this.elements.sort(Buffer.compare)` is modelled as a value computed by `ByteOrder.Sort`; the engine's sorting algorithm and its in-place mutation are not modelled. `SortedPermutationUnique` shows the outcome is the same for any sorting algorithm.
- `Merkle.MerkleTree.BufIndexOf`: the `!Buffer.isBuffer(el)` test is always false for the typed input and is not modelled.
- `Merkle.BufArrToHexArr`: the "Array is not an array of buffers" error cannot arise for a sequence of byte strings and is not modelled.
- `Utilities.ExpandTo18Decimals`: takes an unbounded integer. `BigNumber.from` rejects fractional numbers and numbers beyond the safe-integer range; that rejection is library code and is not modelled.
- `Utilities.ToUQ112`: takes an integer. `BigNumberish` parsing of strings and hex is not modelled.
- `Utilities.GetUnixTimestamp`: takes the instant as integer milliseconds. An invalid `Date` (`NaN`) is not modelled.
- `Utilities.DecodeParams`: `AbiCoder.decode` is a parameter returning the decoded values as strings, and its own decoding errors are not modelled. `toLowerCase` is modelled for ASCII letters only. Of the possible argument types, only a string, a boolean or nothing is modelled for `output`, and only an array for `types`.
- The `console.log` inside `formatJson` is not modelled.
- `Utilities.FormatJson`: strings are sequences of Unicode scalar values, whereas JavaScript indexes, slices and measures strings in UTF-16 code units. For text outside the Basic Multilingual Plane the two differ: `slice(0, -1)` on `"x😀"` leaves a lone surrogate in JavaScript but drops the whole character in the model.
- `Utilities.DecodeParams`: for the same reason the `length % 64` tests count Unicode scalar values rather than UTF-16 code units, so they agree with the source only on text inside the Basic Multilingual Plane (hex text always is).
- The network, RPC, timer and prompt helpers of `utils/utilities.ts` are not modelled. These are `deploy`, `transaction`, `latestBlockTimestamp`, `impersonate`, `mineBlocks`, `mineBlockAtTime`, `increaseTime`, `setAutomine`, `callMethod`, `trySendTransaction`, `waitForTx`, `requestConfirmation` and `delay`.
- The console helpers `logTitle`, `logAddress` and `logTxResult` are not modelled.
- `merkleHash`, `whitelistSignatureIDO` and `tronAddressToValidETHAddress` are not modelled. They are calls into hashing, signing and tronWeb libraries.
- `utils/idoUtils.ts` (constant tables) and `hardhat.config.ts` (build configuration) have no behaviour to model.
