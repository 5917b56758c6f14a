# Adaptive Huffman codec (FGK) in Dafny

This project models the core of an adaptive Huffman codec and proves its
properties. The codec follows the FGK scheme: the encoder and decoder each
start from a tree holding only the not-yet-transmitted (NYT) leaf. Both update
their trees identically after every symbol, so the decoder always reads codes
with the tree the encoder wrote them with.

The model covers the following:

- **The code tree** (`HuffmanTree`). Node records sit in an index-addressed
  arena and are threaded through three structures:
  - the binary tree (`parent`/`left`/`right`);
  - the list ordered by weight, kept as the sequence it encodes plus each
    node's position;
  - the shared block-head cells ("linkers"), which come from a LIFO pool of
    free cells.

  It models the operations `new_symbol`, `increse_weight`, `swap_in_tree`,
  `swap_in_list`, `push_head`, `get_linker`/`put_linker`, the constructor,
  `update`/`operator<<`, and the `Cursor` navigation.
- **The pointer surgery of `swap_in_list`** on real `next`/`prev` links
  (`ListLinks`). It is proved to exchange exactly two list positions.
  `ListOrder` keeps each node's recorded position the inverse of the list
  through `push_head` and `swap_in_list`. While it does, the tree's `next`
  and `prev` are those of the pointer list, and the tree's swap is the
  pointer surgery (`ListOrder.AgreesWithLinks`).
- **The list invariant that `check_rank` asserts** (`Blocks`, `Linkers`):
  - weights never decrease along the list;
  - every node's block cell is live and names a node of its own weight;
  - neighbours share a cell exactly when they weigh the same.

  The model's invariant `Blocks.Ranked` implies all three. It also keeps the
  free pool clean, and it holds for the fresh tree. `new_symbol`
  (`NewSymbolOrder`) and `increse_weight` (`PromoteOrder`, `NytOrder`,
  `RankedIncrement`) preserve it, along with the tree's link structure.
  Every runtime `assert` on their way holds.
- **Totality** (`Totality`). From the fresh tree, no `update` fails, no
  `encode` walk fails, and `encode_to` encodes every input. So the round trip
  holds for every input shorter than 2^64 characters.
- **The link structure** that the code walks rely on (`TreeShape`), and its
  preservation by every tree operation that succeeds.
- **The older revision's wire format** (`BitStream`):
  - the MSB-first 256-byte bit buffer of `put_bit`/`get_bit`;
  - `flush`;
  - the raw eight-bit emission of new symbols;
  - the 64-bit big-endian symbol count that `put_tail` writes and the
    decoder's constructor reads back.
- **The encoder and decoder** (`HuffmanEncoder`, `HuffmanDecoder`):
  - `put`, `put_symbol`, `encode`, `put_tail` and `encode_to`;
  - `get`, `get_symbol` and `decode_from`;
  - the signed-character mapping (`Symbols`).
- **The weights** (`TreeWeights`, `SymbolCounts`). Every internal node
  weighs its children's total and NYT leaves weigh nothing; every update
  preserves this. Each update adds one to its symbol's leaf and to every node
  above it in the tree it leaves, and to no other node (`Ancestry`). So after
  encoding an input each symbol's leaf weight is its number of occurrences.
- **The round trip** (`Codec.RoundTrip`, `Totality.RoundTripTotal`):
  `decode_from` of what `encode_to` wrote gives the input back.
- **The bit helpers of `bit_math.hpp`** (`BitMath`), at the 8-bit width.
  This module stands alone. The bit stream keeps each byte as its eight bits
  and does its own bit addressing, as `adaptive_huffman.cpp` does without
  calling these helpers.

Modelling choices:

- **Failures.** Every pointer the source dereferences is checked, and so is
  every `assert` it makes. A null pointer, a failed assertion or an exhausted
  walk becomes a `Failure` of `Wrappers.Result`. That makes every operation
  total.
- **Fuel.** Recursive walks (the encoder's climb to the root, the decoder's
  descent, the weight increment) take a fuel bound equal to the number of
  nodes in the list.
- **Tree layout.** The tree algorithm is the same, statement for statement, in
  `adaptive_huffman.cpp` and `adaptive_huffman_codec.hpp`. It is modelled once.
  Where the two differ, the model follows `adaptive_huffman_codec.hpp`:
  `new_symbol` checks that the old NYT leaf has no children
  (adaptive_huffman_codec.hpp:265), which `add_symbol` in the older file does
  not.
- **Framing.** The framing is that of `adaptive_huffman.cpp`, whose bit I/O is
  fully visible.
- **Block leader.** Each block cell names the last node of a run of
  equal-weight nodes in list order, the one nearest the root. This follows the
  code: `push_head` gives a new head the old head's cell, and the increment
  promotes a node to its cell's target, which must lie after it. The
  declaration's comment calls the cell's target the "highest ranked node in
  block" (adaptive_huffman.hpp:32).

## Model

| member | source | states |
|---|---|---|
| Symbols.ReservedMarkers | adaptive_huffman.hpp:119-122 | NYT and the internal marker are distinct and outside the real alphabet `[0, 256)`; the alphabet, character range, buffer capacity and counter width agree with `1 << 8`, `256 * 8` and eight bytes of eight bits |
| Symbols.NextCount | adaptive_huffman.cpp:295 | `++symbol_count` on the unsigned 64-bit counter is the successor modulo 2^64 |
| Symbols.AddCountMod | adaptive_huffman.cpp:294-299 | `n` calls of `put` advance the counter by `n` modulo 2^64 |
| Symbols.ToInternal | adaptive_huffman_codec.hpp:25-27 | `to_internal` lands in the real alphabet and is congruent to the character modulo 256 |
| Symbols.ToExternal | adaptive_huffman_codec.hpp:29-31 | `to_external` yields the signed character congruent to the symbol modulo 256 |
| Symbols.ExternalOfInternal | adaptive_huffman_codec.hpp:25-31 | `to_external(to_internal(c)) == c` for every character |
| Symbols.InternalOfExternal | adaptive_huffman_codec.hpp:25-31 | `to_internal(to_external(s)) == s` for every real symbol |
| Symbols.EncodeChar | adaptive_huffman.cpp:437-441 | the symbol `encode_to` sends for a character is a real symbol, and it is `to_internal` of the character |
| Symbols.DecodeChar | adaptive_huffman.cpp:452-456 | the character `decode_from` writes for a real symbol is `to_external` of it |
| Symbols.CharMappingRoundTrip | adaptive_huffman.cpp:437-456 | the character mappings of `encode_to` and `decode_from` are mutual inverses |
| BitMath.LowBit | bit_math.hpp:9-11 | `low_bit(v)` is zero for zero; otherwise it is a single set bit of `v` below which `v` has no set bits |
| BitMath.BitAt | bit_math.hpp:14-16 | `bit_at(v, i)` is one exactly when bit `i` of `v` is set |
| BitMath.AppendBit | bit_math.hpp:19-21 | `v << bit` is `2v + bit` modulo 256; its bit 0 is `bit` and bit `i` is bit `i - 1` of `v` |
| BitMath.AppendBitAssign | bit_math.hpp:24-26 | `v <<= bit` stores `2v + bit` modulo 256 and returns the stored value |
| BitMath.SetBit | bit_math.hpp:29-31 | `set_bit` with zero leaves `v` alone; with one it sets bit `i`; no other bit moves and no set bit is cleared |
| BitMath.SetBitIdempotent | bit_math.hpp:29-31 | setting the same bit twice equals setting it once |
| BitMath.SetThenRead | bit_math.hpp:14-16 | after `set_bit(v, i, one)`, `bit_at` gives one at `i` and the old bit everywhere else |
| ListLinks.SwapEncodes | adaptive_huffman_codec.hpp:351-374 | on a well-linked list, the `next`/`prev` surgery for two distinct positions, adjacent or not, links the list whose order has those two positions exchanged |
| ListLinks.SwapInListExchanges | adaptive_huffman_codec.hpp:351-378 | `swap_in_list` exchanges two positions, leaves every other node in place, keeps `next`/`prev` mutually consistent, and makes no node its own successor, so the closing assertions hold |
| HuffmanTree.GetNode | adaptive_huffman_codec.hpp:174-182 | a fresh node has weight 0, no links, no cell and a new id; nothing else changes |
| HuffmanTree.GetLinker | adaptive_huffman_codec.hpp:184-194 | `get_linker` reuses the most recently freed cell when there is one, else allocates a new cell; the cell holds the given node |
| HuffmanTree.PutLinker | adaptive_huffman_codec.hpp:196-199 | `put_linker` retires the cell and pushes it on top of the free pool; a null cell is a fault |
| HuffmanTree.InitialLocation | adaptive_huffman_codec.hpp:133-136 | the location table has one slot per real symbol plus NYT, and only NYT's slot is filled |
| HuffmanTree.NewTree | adaptive_huffman_codec.hpp:132-138 | a fresh tree is one NYT leaf of weight 0; it is the root, the list and `location[NYT]`, and its block cell points at itself |
| HuffmanTree.PushHead | adaptive_huffman_codec.hpp:201-206 | `push_head` puts the node in front of the list, shifts every other position by one, and gives the node the old head's cell |
| HuffmanTree.UpAfterDown | adaptive_huffman.hpp:92-105 | where child links are answered by parent links, `up` after `down_left`/`down_right` returns to the start, and the child is the left or right child respectively |
| HuffmanTree.ReplaceChild | adaptive_huffman_codec.hpp:324-341 | the child-slot rewrite of `swap_in_tree` succeeds exactly when the parent holds the old node in one of its slots |
| ListOrder.NewTreeListed | adaptive_huffman_codec.hpp:132-138 | the fresh tree's list holds exactly its one node, at position 0 |
| ListOrder.PushHeadInverse | adaptive_huffman_codec.hpp:201-206 | `push_head` of a node not yet listed keeps every recorded position the node's place in the list, adds exactly that node to the list, and adds no node to the arena |
| ListOrder.SwapInListExchanges | adaptive_huffman_codec.hpp:351-378 | `swap_in_list` of two listed nodes never fails; each takes the other's position, every other node keeps its own, and recorded positions still match the list |
| ListOrder.AgreesWithLinks | adaptive_huffman_codec.hpp:351-378 | for a pointer list that runs through the tree's list, every node's `next` and `prev` are the tree's, and the pointer surgery of `swap_in_list` yields the tree's swapped list |
| Linkers.NewTreeFresh | adaptive_huffman_codec.hpp:132-138 | in the fresh tree no pooled or unallocated cell is live |
| Linkers.GetLinkerFresh | adaptive_huffman_codec.hpp:184-194 | `get_linker` hands out a cell that was not live; that cell alone becomes live, holding the given node; the free pool stays clean |
| Linkers.PutLinkerFresh | adaptive_huffman_codec.hpp:196-199 | `put_linker` of a live cell makes that cell alone not live and puts it on top of the pool; the pool stays clean |
| Linkers.PutThenGet | adaptive_huffman_codec.hpp:184-199 | the pool is a stack: a cell put back is the next one handed out, and the pool and allocator return to what they were |
| Blocks.RankedChecks | adaptive_huffman.cpp:216-229 | every assertion of `check_rank` holds on a tree that keeps the list invariant |
| Blocks.NewTreeRanked | adaptive_huffman_codec.hpp:132-138 | the fresh tree keeps the list invariant |
| Blocks.ReblockSteps | adaptive_huffman_codec.hpp:291-304 | on a node already last of its run, leaving the block, `++weight` and joining or starting a block never fail; they add one to that node's weight, change no other node, and restore the list invariant |
| PromoteOrder.PromoteReady | adaptive_huffman_codec.hpp:280-289 | on a tree ready for a node's increment, the promotion's asserts hold; the node ends last of its run, no nearer the front, with the tree still well linked and in order |
| RankedIncrement.FixUpActive | adaptive_huffman_codec.hpp:306-313 | when the node is the NYT leaf's sibling with its parent ahead of it, the fix-up never fails, turns the front back the normal way round, and keeps the list invariant |
| RankedIncrement.IncrementRanked | adaptive_huffman_codec.hpp:276-315 | `increse_weight` from a node ready for it never fails; it keeps the list invariant, the NYT leaf at the front, every parent after its children, and only the NYT leaf weightless |
| NewSymbolOrder.NewSymbolPoised | adaptive_huffman_codec.hpp:255-274 | on a tree in order, `new_symbol` never fails; the list gains the new NYT leaf and the symbol's leaf at its front, and the tree is ready for the increment of the symbol's leaf |
| Totality.NewTreeGood | adaptive_huffman_codec.hpp:132-138 | the fresh tree keeps every invariant of the tree between updates |
| Totality.UpdateGood | adaptive_huffman_codec.hpp:159-166 | `operator<<` of a real symbol never fails on a tree that keeps the invariants, and it leaves them in place |
| Totality.PathCodeSucceeds | adaptive_huffman.cpp:347-359 | the walk of `encode` from any node reaches the root within the list's length |
| Totality.EncodeToSucceeds | adaptive_huffman.cpp:430-445 | `encode_to` encodes every input without a fault |
| Totality.RoundTripTotal | adaptive_huffman.cpp:430-459 | every input shorter than 2^64 characters comes back from `decode_from` of `encode_to`'s output |
| Ancestry.IncrementLineage | adaptive_huffman_codec.hpp:276-315 | `increse_weight` from a node ready for it adds one to that node and to each of its ancestors in the tree it leaves, and changes no other weight |
| Ancestry.UpdateSeenAncestors | adaptive_huffman_codec.hpp:159-166 | `operator<<` of a symbol seen before adds one to its leaf and to each ancestor of that leaf, and changes no other weight |
| Ancestry.UpdateNewAncestors | adaptive_huffman_codec.hpp:159-166 | `operator<<` of a new symbol adds one to the leaf `new_symbol` made and to each of that leaf's ancestors, and changes no other weight of the tree `new_symbol` left |
| HuffmanTree.PushLeaves | adaptive_huffman_codec.hpp:258-262 | `new_symbol` first pushes a fresh symbol leaf, then a fresh NYT leaf, in front of the list; both get weight 0 and the old head's cell |
| HuffmanTree.Split | adaptive_huffman_codec.hpp:264-273 | the second half of `new_symbol` succeeds exactly when `location[NYT]` is a childless node |
| TreeShape.NewTreeShaped | adaptive_huffman_codec.hpp:132-138 | a fresh tree is well linked, and its root is the NYT leaf |
| TreeShape.SwapInTreeFrame | adaptive_huffman_codec.hpp:318-348 | `swap_in_tree` exchanges the two nodes' parents and moves the root to whichever node takes the root's place; every other parent, every symbol and which child slots are filled stay the same |
| TreeShape.SwapInTreeShape | adaptive_huffman_codec.hpp:318-348 | `swap_in_tree` keeps the tree well linked |
| TreeShape.PromoteShape | adaptive_huffman_codec.hpp:280-289 | moving a node into its block leader's slot keeps the tree well linked and the location table unchanged |
| TreeShape.DetachShape | adaptive_huffman_codec.hpp:291-296 | leaving a block changes no tree link, no symbol, the root or the location table |
| TreeShape.AttachShape | adaptive_huffman_codec.hpp:300-304 | joining a block changes no tree link, no symbol, the root or the location table |
| TreeShape.FixUpShape | adaptive_huffman_codec.hpp:308-313 | the list fix-up with the parent changes no tree link, no symbol, the root or the location table |
| TreeShape.ReweighShape | adaptive_huffman_codec.hpp:280-304 | the per-node part of `increse_weight` keeps the tree well linked and the location table unchanged |
| TreeShape.IncrementShape | adaptive_huffman_codec.hpp:276-315 | every `increse_weight` that succeeds keeps the tree well linked and the location table unchanged |
| TreeShape.SplitEffect | adaptive_huffman_codec.hpp:264-273 | the split rewires exactly the old NYT leaf (now internal, with the new NYT on the left and the symbol's leaf on the right) and the two new leaves' parents |
| TreeShape.NewSymbolSucceeds | adaptive_huffman_codec.hpp:255-274 | in a well-linked tree, `new_symbol` succeeds exactly when the list head is NYT and the NYT leaf has no children |
| TreeShape.SplitFresh | adaptive_huffman_codec.hpp:255-274 | after `new_symbol`, the list is the new NYT, then the symbol's leaf, then the old list; both new leaves have weight 0 and hang under the old NYT; `location` points the symbol and NYT at them; no other node changes |
| TreeShape.NewSymbolShape | adaptive_huffman_codec.hpp:255-274 | `new_symbol` keeps the tree well linked, gives the symbol a leaf and removes no symbol's leaf |
| TreeShape.UpdateShape | adaptive_huffman_codec.hpp:159-166 | `operator<<` keeps the tree well linked; afterwards the symbol has a leaf, and every symbol that had a leaf still has one |
| BitStream.PutBitsAppend | adaptive_huffman.cpp:362-370 | putting two bit strings one after the other is putting their concatenation |
| BitStream.HoldsPutBit | adaptive_huffman.cpp:362-370 | `put_bit` appends its bit to what the writer holds: bit `k` goes to bit `7 - k % 8` of byte `k / 8`, and a full buffer is written out and cleared first |
| BitStream.HoldsPutBits | adaptive_huffman.cpp:362-370 | a whole bit string put bit by bit is appended to what the writer holds |
| BitStream.FlushPacks | adaptive_huffman.cpp:312-315 | `flush` writes exactly the held bits, packed MSB-first into `ceil(n / 8)` bytes with the last one zero-padded |
| BitStream.GetBitReads | adaptive_huffman.cpp:420-428 | a reader positioned at stream bit `k` delivers bit `7 - k % 8` of byte `k / 8` and moves to bit `k + 1`, refilling its buffer when every bit is used |
| BitStream.ReadsAtStart | adaptive_huffman.cpp:373 | the decoder's constructor leaves the reader at stream bit 0, with the buffer marked used so the first read fills it |
| BitStream.StreamDelivers | adaptive_huffman.cpp:420-428 | from stream bit `k` on, `get_bit` delivers the stream's bits in order |
| BitStream.DeliversRaw | adaptive_huffman.cpp:397-399 | `symbol = symbol << 1 \| get_bit()` over delivered bits yields the number those bits spell, big-endian |
| BitStream.MsbRoundTrip | adaptive_huffman.cpp:338-340 | a value below `2^n`, written as `(v >> i) & 1` for `i` from `n - 1` down to 0 and read back big-endian, is unchanged |
| BitStream.RawSymbolRoundTrip | adaptive_huffman.cpp:338-340 | every real symbol survives its eight raw bits |
| BitStream.RawSymbolDelivered | adaptive_huffman.cpp:395-399 | the raw read after NYT returns the symbol whose raw bits come next and stops right after them |
| BitStream.TailByte | adaptive_huffman.cpp:381 | `(CHAR_NUM ^ c) & (CHAR_NUM - 1)` on a sign-extended byte is the byte's unsigned value |
| BitStream.TailCountIsBigEndian | adaptive_huffman.cpp:380-382 | the constructor's shift-and-OR fold over at most eight bytes computes their big-endian value, without losing bits from the 64-bit counter |
| BitStream.TrailerRoundTrip | adaptive_huffman.cpp:304-307 | the bytes packing the count's 64 bits are exactly eight, and the constructor's fold reads them back as the count |
| BitStream.FlushCountFlush | adaptive_huffman.cpp:302-309 | flush, 64 count bits, flush: the held bits packed and padded, followed by eight bytes whose big-endian value is the count |
| HuffmanEncoder.NewEncoder | adaptive_huffman.cpp:289-291 | the encoder starts with a zero count and an empty, cleared buffer |
| HuffmanEncoder.PathCode | adaptive_huffman.cpp:347-359 | `encode(cursor)` emits one bit per edge from the root down to the node, so the root's code is empty |
| HuffmanEncoder.SymbolCode | adaptive_huffman.cpp:334-344 | a symbol without a leaf is sent as NYT's path followed by its eight bits, most significant first |
| HuffmanEncoder.Put | adaptive_huffman.cpp:294-299 | `put` advances the count by one modulo 2^64, and it fails only where sending the symbol or updating the tree does |
| HuffmanEncoder.PutHolds | adaptive_huffman.cpp:294-299 | after `put`, the writer holds what it held before, followed by the symbol's code |
| HuffmanEncoder.EncodeAll | adaptive_huffman.cpp:433-443 | `encode_to`'s loop leaves the count advanced by the input length modulo 2^64 |
| HuffmanEncoder.EncodeAllEmits | adaptive_huffman.cpp:433-443 | the encoder's loop puts exactly the concatenated codes of the input's symbols, each taken from the tree as updated by the symbols before it |
| HuffmanEncoder.PutTailFrames | adaptive_huffman.cpp:302-309 | after `put_tail`, the stream is the held bits packed and padded, followed by the eight-byte big-endian count |
| HuffmanEncoder.EncodeToFrames | adaptive_huffman.cpp:430-445 | the stream `encode_to` writes is the bits of every symbol, packed, followed by the eight-byte input length |
| HuffmanDecoder.NewDecoder | adaptive_huffman.cpp:373-385 | the decoder's count is the big-endian value of the stream's last eight bytes, and its reader starts at the front with an empty buffer; a stream shorter than eight bytes is a fault |
| HuffmanDecoder.GetSymbol | adaptive_huffman.cpp:406-417 | the descent ends on a leaf, so what it returns is never the internal marker, and the reader stays on the same stream |
| HuffmanDecoder.Receive | adaptive_huffman.cpp:393-400 | the symbol part of `get` never yields NYT or the internal marker |
| HuffmanDecoder.GetNext | adaptive_huffman.cpp:393-404 | `get` returns a symbol other than NYT, and it decrements the count, wrapping below zero as the unsigned counter does |
| HuffmanDecoder.DecodeAll | adaptive_huffman.cpp:450-458 | `decode_from`'s loop, when it succeeds, emits exactly as many characters as the count said |
| HuffmanDecoder.DecodeFrom | adaptive_huffman.cpp:447-459 | `decode_from` yields as many characters as the trailer's big-endian count |
| Codec.WalkDown | adaptive_huffman.cpp:406-417 | following the bits `encode` emitted for a node, `get_symbol`'s descent from the root arrives at that node having read exactly those bits |
| Codec.WalkArrives | adaptive_huffman.cpp:406-417 | the descent over a leaf's code returns the leaf's symbol and stops right after the code |
| Codec.ReceiveDecodes | adaptive_huffman.cpp:393-400 | the symbol part of `get` reads back what `put_symbol` wrote from the same tree, a path or NYT's path plus eight raw bits, and stops right after it |
| Codec.StepDecodes | adaptive_huffman.cpp:393-404 | one `get` after one `put` returns the same symbol, applies the same tree update and decrements the count |
| Codec.DecodesEmitted | adaptive_huffman.cpp:450-458 | from a tree shared with the encoder, decoding the encoder's bits for `count` symbols gives those symbols back |
| Codec.FrameStarts | adaptive_huffman.cpp:373-385 | on a stream framed by `put_tail`, the decoder starts with the framed count and reads the framed bits from the front |
| Codec.RoundTrip | adaptive_huffman.cpp:430-459 | for every input shorter than 2^64 characters that `encode_to` encodes, `decode_from` of the output gives the input back |
| TreeWeights.NewTreeWeighted | adaptive_huffman_codec.hpp:132-138 | a fresh tree, a lone NYT leaf of weight 0, satisfies the weight invariant: every link answered, every internal node as heavy as its two children together, every NYT leaf weightless |
| TreeWeights.SwapApartEffect | adaptive_huffman_codec.hpp:318-348 | `swap_in_tree` of two nodes, neither the other's parent and not siblings, puts each node in the other's child slot and gives it the other's parent; no other node changes |
| TreeWeights.SwapSiblingsEffect | adaptive_huffman_codec.hpp:318-348 | `swap_in_tree` of two children of the same node leaves `node1` on the left and `node2` on the right, whichever side each started on, and changes nothing else |
| TreeWeights.SwapInTreeWeights | adaptive_huffman_codec.hpp:318-348 | `swap_in_tree` of two equal-weight nodes keeps every link answered and changes no weight, no symbol and no node's total of child weights |
| TreeWeights.PromoteWeights | adaptive_huffman_codec.hpp:280-289 | the promotion of a node to its block leader's place keeps every link answered and changes no weight and no node's total of child weights |
| TreeWeights.BumpWeights | adaptive_huffman_codec.hpp:298 | `++node->weight` on a node that is one short of its children makes it level with them, changes no other weight, and leaves its parent (if any) exactly one short |
| TreeWeights.ReweighWeights | adaptive_huffman_codec.hpp:280-304 | the per-node part of `increse_weight` adds one to the node and to no other leaf, and leaves the tree waiting only for the node's parent |
| TreeWeights.IncrementWeights | adaptive_huffman_codec.hpp:276-315 | `increse_weight` on a node one short of its children (or a leaf) restores the weight invariant all the way to the root; of all leaves only that node, if a leaf, gains one |
| TreeWeights.NewSymbolWeights | adaptive_huffman_codec.hpp:255-274 | `new_symbol` keeps the weight invariant and gives the symbol a leaf of weight 0 |
| TreeWeights.UpdateWeights | adaptive_huffman_codec.hpp:159-166 | `operator<<` (`update` at adaptive_huffman.cpp:63-68) keeps the weight invariant; the symbol's leaf gains exactly one, a new symbol's leaf ends at one, and every other symbol keeps its leaf and that leaf's weight |
| TreeWeights.UpdateLeafWeights | adaptive_huffman.cpp:63-68 | counted per symbol, `update(symbol)` adds one to that symbol's leaf weight and nothing to any other; afterwards a symbol has a leaf exactly when it had one before or is the symbol updated |
| SymbolCounts.OccursIff | adaptive_huffman.cpp:437-441 | a symbol has a positive count in the input exactly when some character of the input maps to it |
| SymbolCounts.EncodeAllCounts | adaptive_huffman.cpp:294-298 | over a run of `put`s from a weighted tree, each real symbol's leaf weight grows by its number of occurrences, and a symbol has a leaf afterwards exactly when it had one or occurred |
| SymbolCounts.EncodedCounts | adaptive_huffman.cpp:431-441 | after `encode_to`'s loop from a fresh encoder, each real symbol's leaf weight is the number of times its character occurs in the input, and the symbols with a leaf are exactly those that occur |

## Left out

- Stream I/O is left out: `ostream.write`, `istream.read`, `seekg`/`tellg` and the file-name overloads. Streams are byte sequences, and the output is the concatenation of what is written.
- A short `istream.read` is left out. At the end of the input, the reader keeps the old buffer contents beyond what was read, as a short read does. Bits past the end of the stream are never needed by the round trip.
- `codec.hpp` is not part of this model, and neither is the newer revision's framing (`encode_and_put`, `put_plain`/`get_plain`, native-endian count). Only the older revision's framing is modelled.
- `encoder.cpp` and `decoder.cpp` are not part of this model. They are command-line front ends, and they pair the two revisions, whose wire formats differ.
- Destructors and the dumps `dump_tree`/`dump_list` are left out. They free memory or print. `check_rank` is modelled as `Blocks.CheckRank` and proved to hold (`Blocks.RankedChecks`). Its copy in `adaptive_huffman_codec.hpp` (384-396) is compiled only under `NDEBUG` and spells `nullptr` as `nullpter`; the model follows the copy in `adaptive_huffman.cpp` (216-229), which is the same check.
- Node weights and symbols are unbounded naturals. Wrap-around of the 64-bit weight counter after 2^64 increments is not modelled.
- Fuel: the increment and both code walks are bounded by the number of nodes in the list. A walk that runs out of fuel fails. The source would loop only on a cyclic tree. On trees that keep the invariants, the bound is proved to suffice for the increment and the encoder's walk (`RankedIncrement.IncrementRanked`, `Totality.PathCodeSucceeds`).
- Codec.RoundTrip: it is stated for inputs that `encode_to` encodes without a fault. `Totality.RoundTripTotal` removes that premise.
- TreeWeights.IncrementWeights: it states the weights of leaves only, under weaker invariants. The weight of every node, ancestors included, is stated by `Ancestry.IncrementLineage` on trees that keep the list invariant.
- The root's weight equalling the number of symbols encoded is not stated. It would need the total of the leaf weights under the root, which the model does not define.
- HuffmanDecoder.NewDecoder: a stream shorter than eight bytes is reported as a fault. The source reads the trailer without checking the length.
