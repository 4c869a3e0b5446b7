# Proofs about the UPMEM runtime and kernels

A Dafny 4.11 model of the parts of this repository whose correctness is hardest to see
by reading: the limb arithmetic of the authenticator, the packing, decryption and loading
of sub-kernels, four concurrent protocols, and the data-parallel kernels whose blocked
form has to agree with a plain definition. `dafny verify dfyconfig.toml` checks it all.

| file | what it models |
|---|---|
| `Words.dfy`, `Bytes.dfy`, `Slices.dfy`, `Shares.dfy`, `Ranks.dfy` | 32-bit words, bit operations, little-endian byte strings, slices, equal shares of work, sums of steps left |
| `Poly1305.dfy` | `src/poly`: five-limb arithmetic modulo 2^130 - 5 with lazy reduction, against section 2.5 of RFC 8439 |
| `Aead.dfy` | the packer `tools/sk/main.py` and the loader's `src/core/aead.c`, against section 2.8 of RFC 8439 |
| `Loader.dfy`, `Admission.dfy` | `ime_replace_sk`: save, decrypt, scan, copy to WRAM and IRAM, restore; and what it admits, from the fields of instructions and the words of the image |
| `Bakery.dfy` | the bakery lock, one shared access a step |
| `ImeBarrier.dfy` | the enter/wait/leave barrier of `src/ime-rt`, over any number of reuses |
| `SenseBarrier.dfy` | the sense-reversing barrier and the epoch mailbox chain of `src/MLP`, together |
| `TransposeCycles.dfy`, `TransposeIndex.dfy`, `TransposeRun.dfy` | `src/TRNS`: concurrent cycle following, the two index maps in wrapping arithmetic, and both kernels as concurrent runs |
| `NeedlemanWunsch.dfy`, `WavefrontRun.dfy`, `AlignmentPaths.dfy` | the blocked wavefront of `src/NW`: one diagonal, the tasklets' rounds with their barriers, and the best alignment path they compute |
| `Sparse.dfy` | `coo2csr` and the SpMV kernel |
| `Bfs.dfy` | the rounds of the bitmap-frontier search, all interleavings |
| `Gemv.dfy`, `BinarySearch.dfy` | matrix times vector with misaligned rows, block-wise search |
| `Unique.dfy`, `UniqueRun.dfy` | block-wise removal of duplicates, tasklets in index order and in every order |

Concurrent code is a step system: a state holds the shared memory and a program counter
per tasklet, `Step` is one shared access (or one section guarded by a mutex), a run is any
sequence of steps of any tasklets, and an invariant is kept by every step. The number of
tasklets, block sides and sizes are parameters. Code that works in place is a method over
arrays or a class, proved against a function of the old contents.

Findings about the code, each with the exact condition:

- The tag computed by `src/poly` is the RFC 8439 tag if and only if the product for the last
  block is below 2^130 (`Poly1305.TagExactIff`); `Poly1305.LazyReductionVisible` is an input
  where it is not. The comment at `src/poly/poly.c:13` says "larger than" 2^130 - 5, but the
  code also answers for 2^130 - 5 itself; the model follows the code.
- The bakery lock needs its 16-bit tickets not to wrap. A draw with maximum 65535 can always be
  continued to two tasklets in the critical section, for any number of tasklets and from any
  state (`Bakery.WrapIsFatal`, `Bakery.DrawExact`). Counted from a moment when nobody is at the
  lock, calls are safe if and only if they are fewer than 65536 (`Bakery.SafeCallsExact`).
- The copy loop of the loader, which runs before anything is authenticated, stops if and only if
  the header's size is a multiple of 8, and for size 0 only after 2^29 rounds
  (`Loader.StopsExactly`).
- The loader admits texts of 1 to 15 chunks (`src/core/core_iram.s:24-27`), but behind the start of
  user code at byte 0x2000 (`ld/core.ld:62`) the 4096 instructions of IRAM have room for 12. On the
  device a text passes that part if and only if it has 1 to 12 chunks and runs past the end of IRAM
  if and only if it has 13 to 15 (`Loader.DeviceTextExact`); `Loader.ThirteenChunksOverrun` is an
  image of harmless zero words that gets that far unless its last product is lazy. Other devices are a
  parameter.
- The loader never compares text_size and data_size with the size that the tag covers. The tag
  decides the text if and only if the text is empty or ends within the authenticated chunks
  (`Loader.TextDecidedExactly`), as it does in every packed image (`Loader.PackedTextDecided`).
- The unique kernel drops the first element when it equals the sentinel 0xFFFFFFFF, and is right
  in every other case (`Unique.ExactIff`). Nothing keeps its reads of the shared count apart from
  the last tasklet's update: a read takes the right position if and only if it comes first
  (`UniqueRun.TakeExact`). In every run the output is right if and only if all reads do, save where
  memory already held what belongs there (`UniqueRun.RunExact`); `UniqueRun.LateReadMisplaces` is
  a run with wrong output. The count itself is right in every run.

## Model

| member | source | states |
|---|---|---|
| Poly1305.AddChain | src/poly/poly.S:2-6 | five add/addc instructions add two 160-bit numbers, dropping only the last carry |
| Poly1305.AddReduce | src/poly/poly.S:1-19 | the macro subtracts 2^130 - 5 exactly when the signed top limb exceeds 3, with every borrow right |
| Poly1305.MulWord | src/poly/poly.S:127-135 | one 32-iteration loop is 32 double-and-add steps for the bits of one key word, lowest first |
| Poly1305.PolyMulAssign | src/poly/poly.S:99-182 | the four loops together are all 128 steps on the whole key, stored back in place |
| Poly1305.PolyAddReduce | src/poly/poly.S:76-97 | adds the block with 2^128 set and reduces once |
| Poly1305.ReductionReq | src/poly/poly.c:14-21 | all ones exactly for numbers in [p, 2^130), over every five-limb number |
| Poly1305.PolyMaskedReduce | src/poly/poly.S:51-74 | subtracts p modulo 2^160 under a full mask and leaves the limbs alone under a zero mask |
| Poly1305.PolyAdd128 | src/poly/poly.S:28-49 | the tag addition is addition modulo 2^128 |
| Poly1305.ClampIsRfcClamp | src/poly/poly.c:36-43 | masking word by word is the 128-bit clamp of section 2.5.1 of RFC 8439, and leaves less than 2^124 |
| Poly1305.ClampBits | src/poly/poly.c:36-43 | of every number the mask clears the top four bits of bytes 3, 7, 11 and 15 and the low two of bytes 4, 8 and 12, and keeps all other bits below 128 |
| Poly1305.PolyContext.constructor | src/poly/poly.c:36-48 | poly_init: clamped r, s, and a zero accumulator in separate arrays |
| Poly1305.PolyContext.MulKeyStep | src/poly/poly.c:23-29 | multiplication followed by one conditional subtraction, as numbers |
| Poly1305.PolyContext.FeedBlock | src/poly/poly.c:31-34 | the accumulator moves by the specification of one block |
| Poly1305.PolyContext.Finalize | src/poly/poly.c:50-53 | the tag is accumulator plus s modulo 2^128, and the context is wiped |
| Poly1305.MulBitsInvariant | src/poly/poly.S:127-171 | before doubling i both numbers are at most p + 4 * 2^i, and the product is the true one less a multiple of p |
| Poly1305.FeedCongruent | src/poly/poly.c:31-34 | each block multiplies out modulo p, the addition returns to at most p + 4, the product stays below p + 2^126 |
| Poly1305.AccumulatorInvariant | src/poly/poly.c:23-34 | for every key and block sequence the accumulator is congruent to the RFC's, never overflows, and differs from it by exactly 0 or p |
| Poly1305.TagExactIff | src/poly/poly.c:13-53 | the tag is the RFC 8439 tag if and only if the last product was below 2^130 |
| Poly1305.LazyReductionVisible | src/poly/poly.c:13-21 | a block of all ones with r = 6 ends at p + 9 unreduced, and the tags differ |
| Poly1305.Authenticate | src/poly/poly.c:31-53 | running init, feed and finalize on the limbs gives the RFC tag exactly under that condition |
| Aead.PaddedExact | tools/sk/main.py:19-23 | padding is zeros, less than one chunk of them, and only behind the section |
| Aead.SubKernel.constructor | tools/sk/main.py:15-40 | sections padded to the next multiple of 2048 bytes, so many chunks each, size_aad for each of the three modes, zero tag and nonce |
| Aead.Create | tools/sk/main.py:15-17 | encrypting text but not data is the only refused combination |
| Aead.SubKernel.Crypt | tools/sk/main.py:57-74 | the three errors in order and nothing changed on them; otherwise tag, nonce and returned image of section 2.8 of RFC 8439, for a given or a drawn nonce |
| Aead.ModesExact | tools/sk/main.py:25-40 | in the packed image text and data stand in plain, only the data encrypted, or both encrypted as one, as the mode says |
| Aead.FeedChunks | src/core/aead.c:65-80 | a fetch loop feeds exactly the chunks of its range, in order, none when the range is empty |
| Aead.ComputeTag | src/core/aead.c:54-84 | the limb code, fed header constants, both loops and the length block, computes the loader's tag function |
| Aead.XorChunk | src/core/aead.c:16-27 | one 64-byte chunk is combined with the key block, the rest of memory is untouched |
| Aead.DecryptChunks | src/core/aead.c:97-100 | counters from 1 on the chunks from size_aad to size, nothing else changed |
| Aead.DecryptVerify | src/core/aead.c:29-103 | accepts exactly when the stored tag is the computed one; memory is decrypted then and only then |
| Aead.LeRoundTrip | tools/sk/main.py:47-50 | a number written in enough little-endian bytes is read back |
| Aead.LoaderBlockAt | src/core/aead.c:57-83 | block i the loader feeds is words 4i to 4i+3 of the authenticated input |
| Aead.LoaderFeedsRfcInput | src/core/aead.c:57-83 | for every aligned image the fed blocks are padded data, padded ciphertext and lengths over the header with blank tag and nonce |
| Aead.LoaderKeys | src/core/aead.c:54-55 | the words given to poly_init are the two halves of the RFC's one-time key |
| Aead.LoaderTagIsRfcTag | src/core/aead.c:54-84 | on every aligned image, honest or not, loader tag equals RFC tag if and only if the last product is small |
| Aead.SealedHeader | tools/sk/main.py:42-55 | the loader finds size_aad, size, nonce and tag of the packer at the offsets it reads |
| Aead.SealedBlanked | tools/sk/main.py:62-74 | blanking a packed image gives back the bytes crypt authenticated |
| Aead.SealedAccepted | src/core/aead.c:86-91 | every packed image is accepted, for all modes and contents, exactly under the lazy-reduction condition |
| Aead.SealedRecovered | src/core/aead.c:97-100 | decrypting a packed image yields its header and the padded text and data, byte for byte |
| Aead.PackAndLoad | src/core/aead.c:29-103 | create, crypt and verify-and-decrypt composed: the identity on text and data, neighbours in memory untouched |
| Aead.HostAccepts | tools/sk/main.py:85-102 | the packer's own check of an image is equality of its tag with the RFC tag |
| Aead.HostAndLoaderAgree | tools/sk/main.py:85-102 | host and loader decide alike on every aligned image if the last product is small, and never both accept otherwise |
| Loader.StopsExactly | src/core/core_util.s:35-42 | in 32-bit arithmetic the loop is left after exactly size / 8 rounds, after 2^29 for size 0, and never for a size that is no multiple of 8 |
| Loader.Machine.CopySk | src/core/core_util.s:27-47 | for every size and place: whether the copy ends inside memory, and if so what it leaves, overlap included, with WRAM as it was |
| Loader.WithCopyIs | src/core/core_util.s:27-47 | between regions that do not meet the copy is the image's bytes and nothing else |
| Loader.SavedSize | src/core/core_util.s:49-57 | the copy back goes by the image's own size exactly when that is at least 40, whatever scratch held |
| Loader.Machine.PushSk | src/core/core_util.s:49-51 | the image is saved to scratch, or the copy leaves memory, for every size |
| Loader.Machine.PopSk | src/core/core_util.s:53-57 | what scratch holds goes back, by the size found there, for every size |
| Loader.Machine.DecryptSk | src/core/core_crypt.c:4-19 | passes when the expected tag, if any, and the computed tag both match, and decrypts only then; Admission.WrongTagFaults says what a mismatch does |
| Loader.Machine.ScanSk | src/core/core_scan.c:34-55 | passes if and only if no instruction of the whole text section is banned, faults on the first that is, for every text_size |
| Admission.SingleExact | src/core/core_scan.c:24-28 | an instruction put together with destination register r below 24 in bits 39 to 43 is banned for it if and only if r is 20 or 21 |
| Admission.PairExact | src/core/core_scan.c:30-31 | one with bits 42 and 43 set is banned if and only if bits 44 and 45 and bits 39 to 41 together name register 20 or 21 |
| Admission.LdmaiExact | src/core/core_scan.c:7-13 | an instruction put together from its fields is taken for ldmai if and only if opcode, zero field and suffix are those of ldmai |
| Admission.ThreadExact | src/core/core_scan.c:15-21 | and for thread control if and only if opcode, a nonzero kind and the operation say so |
| Admission.BannedExact | src/core/core_scan.c:7-53 | the scan refuses a 64-bit word if and only if it can be read as one of those forbidden instructions |
| Admission.ScanExact | src/core/core_scan.c:34-55 | for every header: the scan passes if and only if the whole text is there and holds no forbidden instruction, and faults if and only if one it can read is |
| Loader.Machine.LoadWram | src/core/core_wram.s:4-32 | the magic word is checked, then WRAM holds the data section from address 0, or the header when there is none, or a transfer would leave image or WRAM |
| Loader.Machine.LoadIram | src/core/core_iram.s:4-126 | fault unless text_size is 1 to 15; otherwise IRAM gets exactly that many chunks, or an overrun and the chunks there is room for; WRAM is preserved |
| Loader.Machine.Admit | src/core/core_load.S:43-73 | the middle part passes exactly for an authentic, clean image with the stack canary intact, and WRAM is then as the C routines left it |
| Loader.Machine.ReplaceSk | src/core/core_load.S:39-78 | the outcome for every memory, header and IRAM; IRAM gets text that was scanned clean or stays as it was; what MRAM holds after every started load, and that it is encrypted again for an image of at least 40 bytes apart from scratch |
| Admission.LoadsExactly | src/core/core_load.S:39-78 | for every memory, header and device: everything but the copy back passes if and only if tag, authenticity, instructions, canary, magic word, data and text sizes are all as listed |
| Admission.WrongTagFaults | src/core/core_crypt.c:7-14 | an expected tag other than the image's own ends every load in a fault with IRAM untouched, whatever the image |
| Admission.FaultsExactly | src/core/core_load.S:39-78 | which fault a load ends in when a check fails, in their order, IRAM untouched: forged or harmful or no canary, no magic word, data too large, text of no or more than 15 chunks |
| Loader.LoadsReaches | src/core/core_load.S:63-78 | a load that passes has put its whole text, clean and of 1 to 15 chunks, into IRAM |
| Loader.Restored | src/core/core_load.S:39-78 | writing the copy back undoes the in-place decryption bit for bit, for every size from 40 on |
| Loader.PackedImageLoads | tools/sk/main.py:30-55 | a packed image decrypts to one whose fields and sections are the packer's, so what runs is what was packed |
| Loader.PackedPasses | src/core/core_load.S:39-78 | a packed image passes exactly when the expected tag, if any, is its own, its last product is small, its text clean, of 1 to 15 chunks and within IRAM, its data fits WRAM and the canary survives |
| Loader.PackAndStart | src/core/core_load.S:39-78 | pack, deploy and load composed: started exactly under that condition, with the padded text in IRAM, the padded data in WRAM, or the header when there is none, and the image in MRAM |
| Loader.AgreeAccepted | src/core/aead.c:54-91 | images with the same header and the same authenticated blocks are accepted or refused alike |
| Loader.TextDecidedExactly | src/core/core_load.S:43-73 | for every image: all images that agree with it have its text section if and only if the text is empty or ends within the authenticated chunks |
| Loader.PackedTextDecided | tools/sk/main.py:30-55 | the text of every packed image is covered by its tag |
| Loader.DeviceTextExact | src/core/core_iram.s:24-34 | with 4096 instructions and user code at instruction 1024 a text passes if and only if it has 1 to 12 chunks, and overruns if and only if it has 13 to 15 |
| Loader.ThirteenChunksOverrun | src/core/core_load.S:39-78 | on the device a packed image of n chunks of zero words, unless its last product is lazy, reaches IRAM for n from 1 to 15, and the load passes exactly for n up to 12 |
| Bakery.StepKeepsInv | src/HST-L/support/memclave_mutex.h:30-64 | every single read or write of any tasklet keeps the doorway and ordering invariant |
| Bakery.RunKeepsInv | src/HST-L/support/memclave_mutex.h:30-64 | it holds throughout every run in which no ticket wraps |
| Bakery.MutualExclusion | src/HST-L/support/memclave_mutex.h:39-64 | at most one tasklet between lock and unlock, in every interleaving including the non-atomic maximum scan |
| Bakery.FirstComeFirstServed | src/HST-L/support/memclave_mutex.h:39-59 | whoever clears its choosing flag before another sets its own enters first |
| Bakery.NoDeadlock | src/HST-L/support/memclave_mutex.h:46-57 | someone who wants or holds the lock can always make a step that is not a spin |
| Bakery.RunKeepsWeakInv | src/HST-L/support/memclave_mutex.h:30-64 | what still holds in every run when tickets may wrap |
| Bakery.WrapIsFatal | src/HST-L/support/memclave_mutex.h:42-57 | from any such state, with any number of tasklets from two on, a draw that wraps can be continued to two critical tasklets |
| Bakery.DrawExact | src/HST-L/support/memclave_mutex.h:42-43 | one draw keeps the exclusion invariant if its maximum is below 65535, and has a violating continuation if it is 65535 |
| Bakery.FewCallsNeverWrap | src/HST-L/support/memclave_mutex.h:39-44 | no run with fewer than 65536 calls wraps a ticket |
| Bakery.WrapBreaksExclusion | src/HST-L/support/memclave_mutex.h:42-43 | for any number of tasklets from two on there is a run with exactly 65536 calls and two critical tasklets |
| Bakery.SafeCallsExact | src/HST-L/support/memclave_mutex.h:39-64 | counted from when nobody is at the lock, calls are safe if and only if they are fewer than 65536 |
| ImeBarrier.StepKeepsInv | src/ime-rt/barrier.c:10-86 | every critical section of any caller keeps the episode invariant |
| ImeBarrier.RunKeepsInv | src/ime-rt/barrier.c:10-92 | it holds throughout every run, over unboundedly many reuses |
| ImeBarrier.BarrierCorrect | src/ime-rt/barrier.c:88-92 | nobody returns from an episode before exactly init callers entered it, and exactly one of them returns true |
| ImeBarrier.FullBarrierAdvances | src/ime-rt/barrier.c:37-83 | once full, some caller inside always has a step that brings the reset closer |
| ImeBarrier.FullBarrierNeverRetreats | src/ime-rt/barrier.c:10-86 | and no step of anyone takes that back or changes count before the reset |
| ImeBarrier.EntersUnlessFull | src/ime-rt/barrier.c:10-31 | a caller gets in if and only if the barrier is not full |
| ImeBarrier.EpisodesGoOn | src/ime-rt/barrier.c:10-92 | with at least init tasklets every state of every run can go on to fill the barrier, return true to one and open the next episode |
| ImeBarrier.FullBarrierResets | src/ime-rt/barrier.c:10-86 | from any full barrier at most Rank steps of callers inside lead to the reset and the next, empty episode |
| SenseBarrier.StepKeepsInv | src/MLP/support/mc_sync.h:53-120 | every access to arrive, sense, epoch and mailbox slots keeps the joint invariant |
| SenseBarrier.RunKeepsInv | src/MLP/support/mc_sync.h:53-120 | it holds throughout every run of bump, barrier, handshake, barrier |
| SenseBarrier.BarrierSafe | src/MLP/support/mc_sync.h:53-69 | nobody has left its k-th wait before everybody has entered it |
| SenseBarrier.PollSeesThisRound | src/MLP/support/mc_sync.h:105-108 | a poll succeeds only on this round's message, never on a stale slot |
| SenseBarrier.PrefixIsSum | src/MLP/support/mc_sync.h:111-117 | adding along the chain with wrapping is the wrapped sum |
| SenseBarrier.MailboxSums | src/MLP/support/mc_sync.h:100-120 | tasklet t receives the sum of the counts below it and the last one the total, every round of every run |
| SenseBarrier.NoDeadlock | src/MLP/support/mc_sync.h:53-120 | some tasklet's next access is never a spin |
| TransposeCycles.StepKeepsInv | src/TRNS/main.c:119-143 | every word moved and every done bit tested keeps the claim and chain invariant |
| TransposeCycles.RunKeepsInv | src/TRNS/main.c:119-143 | it holds in every interleaving from a zero done array |
| TransposeCycles.TilesPermuted | src/TRNS/main.c:119-143 | when all tasklets have finished every tile is at its permuted place |
| TransposeCycles.StoresAreOriginal | src/TRNS/main.c:130-141 | every store to a position writes the original content of its predecessor, on a claimed position, with no other tasklet storing there |
| TransposeCycles.ClaimedOnce | src/TRNS/main.c:133-137 | no position is claimed twice in a run |
| TransposeCycles.WrittenOnce | src/TRNS/main.c:135-137 | no word of a position is written twice in a run |
| TransposeCycles.EveryStepCounts | src/TRNS/main.c:121-143 | each step of an unfinished tasklet lowers a rank, a continued walk by using up a done bit |
| TransposeCycles.RunsEnd | src/TRNS/main.c:121-143 | so every run is no longer than the rank it starts from |
| TransposeIndex.WrappedMap | src/TRNS/main.c:82 | evaluating the map with wrapping multiplications and subtraction is its exact value modulo 2^32 |
| TransposeIndex.MapTransposes | src/TRNS/main.c:79-85 | with at most 2^32 elements it sends row a, column b to row b, column a |
| TransposeIndex.MapInjective | src/TRNS/main.c:122-130 | no two positions share a destination |
| TransposeIndex.MapEnds | src/TRNS/main.c:109-122 | the first and the last position are fixed |
| TransposeIndex.DestinationsArePermutation | src/TRNS/main.c:109-130 | step 3's map is the kind of permutation the cycle walk relies on |
| TransposeIndex.TransposeTile | src/TRNS/main.c:81-83 | the inner loop transposes one tile |
| TransposeIndex.TransposeInPlace | src/TRNS/main.c:80-84 | read, transpose, write back, and nothing outside the tile changed |
| TransposeIndex.StepsTranspose | src/TRNS/main.c:62-150 | the two steps together transpose the whole matrix |
| TransposeIndex.KernelsTranspose | src/TRNS/main.c:62-150 | kernel 1's result and any finished concurrent run of kernel 2 move entry (row, col) to (col, row) |
| TransposeRun.StepKeepsInv | src/TRNS/main.c:79-85 | every word transfer of kernel 1 by any tasklet keeps the tiles either untouched, being written or transposed |
| TransposeRun.TilesTransposed | src/TRNS/main.c:79-85 | in every interleaving, when all tasklets are through every tile is transposed in its place |
| TransposeRun.EveryStepCounts | src/TRNS/main.c:79-85 | every step of a tasklet that is not through lowers a rank |
| TransposeRun.RunsEnd | src/TRNS/main.c:79-85 | so every run of kernel 1 is no longer than the rank it starts from |
| TransposeRun.RunsTranspose | src/TRNS/main.c:62-150 | any finished run of kernel 1 and then of kernel 2, any numbers of tasklets: the whole matrix is transposed |
| NeedlemanWunsch.Maximum | src/NW/support/common.h:20-33 | the result is one of the three and none exceeds it |
| NeedlemanWunsch.ComputeBlock | src/NW/main.c:175-182 | the in-place double loop fills a cached sub-block by the local recurrence and leaves its spare column |
| NeedlemanWunsch.BlockIsRecurrence | src/NW/main.c:144-182 | a sub-block loaded with final top row and left column computes the global recurrence |
| NeedlemanWunsch.StoreKeepsCell | src/NW/main.c:184-198 | storing a row, stale sixth column included, spoils only cells of a later diagonal |
| NeedlemanWunsch.StepKeepsInv | src/NW/main.c:140-199 | every row transfer of any sub-block keeps the wavefront invariant |
| NeedlemanWunsch.AllFinishedSettles | src/NW/main.c:121-202 | with every sub-block of a diagonal stored, in whatever order, the diagonal is final |
| WavefrontRun.BlockInMatrix | src/NW/main.c:141-142 | every sub-block of every chunk lies in the matrix, on the diagonal its round number tells |
| WavefrontRun.WorkSimulated | src/NW/main.c:140-199 | a row transfer by a tasklet working through its chunk is a step of that diagonal |
| WavefrontRun.BarrierKeepsInv | src/NW/main.c:201-202 | when all tasklets are at the barrier the diagonal is final, so the next round may start |
| WavefrontRun.KernelIsRecurrence | src/NW/main.c:118-285 | any run of any number of tasklets through the rounds of both phases computes the row-major recurrence, borders unchanged |
| WavefrontRun.RoundsEnd | src/NW/main.c:121-202 | between two barriers a run makes no more steps than the rank it starts from |
| AlignmentPaths.ToInt32Exact | src/NW/main.c:178-180 | conversion to int32_t gives the one number in range that is equal modulo 2^32 |
| AlignmentPaths.BestPath | src/NW/main.c:175-182 | some alignment path from the border to a cell has the value of the recurrence |
| AlignmentPaths.NoBetterPath | src/NW/main.c:175-182 | and none has a greater one, while no path leaves int32_t |
| AlignmentPaths.ModerateIsEnough | src/NW/main.c:178-180 | bounds on border, scores and penalty under which no path leaves int32_t |
| AlignmentPaths.KernelFindsBestPath | src/NW/main.c:118-285 | any run of any number of tasklets leaves in every cell the greatest value of any path to it |
| NeedlemanWunsch.ChunksPartition | src/NW/main.c:123-137 | the chunk arithmetic gives every index of a round to exactly one tasklet |
| NeedlemanWunsch.RoundOnDiagonal | src/NW/main.c:141-142 | all sub-blocks of a round lie on its diagonal, so their three predecessors are earlier |
| NeedlemanWunsch.EachBlockOnce | src/NW/main.c:121-224 | the two phases visit every sub-block exactly once |
| Sparse.Histogram | src/SpMV/support/matrix.h:74-79 | rowPtrs counts the entries of each row |
| Sparse.PrefixSum | src/SpMV/support/matrix.h:81-88 | in place, rowPtrs becomes the number of entries in lower rows |
| Sparse.Bin | src/SpMV/support/matrix.h:90-95 | each row's room is filled in list order and its cursor ends at the next row |
| Sparse.Restore | src/SpMV/support/matrix.h:97-101 | the downward shift brings the row pointers back |
| Sparse.BinStep | src/SpMV/support/matrix.h:91-94 | one store extends its own row and disturbs no other |
| Sparse.Coo2Csr | src/SpMV/support/matrix.h:63-105 | stable, nothing lost, monotone row pointers from 0 to the number of entries |
| Sparse.MultiplyRow | src/SpMV/main.c:108-132 | the tile cache never serves a stale element; the row is the left fold in storage order |
| Sparse.Emit | src/SpMV/main.c:134-141 | the output tile and the flushed part together are always the values so far |
| Sparse.SpmvRows | src/SpMV/main.c:67-143 | a tasklet's rows are written once each and nothing else is |
| Sparse.RowOwned | src/SpMV/main.c:51-64 | every row belongs to exactly one tasklet |
| Sparse.Spmv | src/SpMV/main.c:51-145 | the tasklets in any order produce the whole product |
| Sparse.CooTimesVector | src/SpMV/support/matrix.h:63-105 | conversion and kernel on any slice of rows: each result is the fold over the row's entries in their original order |
| Bfs.LoopMeetsEdges | src/BFS/main.c:148-151 | the loop from ptr to nxt meets exactly the entries that nodePtrs, less its offset, gives the node |
| Bfs.StepKeepsInv | src/BFS/main.c:99-164 | every load, store and mutex operation of any tasklet keeps the round invariant |
| Bfs.ExpandKeepsInv | src/BFS/main.c:126 | at the first barrier all tiles are merged |
| Bfs.FrontierComplete | src/BFS/main.c:141-165 | at the second barrier the next frontier is exactly the next distance, no bit lost to concurrent stores |
| Bfs.NextRoundKeepsInv | src/BFS/main.c:66-94 | the host's next level starts the next round in the invariant |
| Bfs.RunKeepsInv | src/BFS/main.c:66-166 | it holds throughout every run of any number of rounds |
| Bfs.RoundComputesDistances | src/BFS/main.c:99-165 | after round k visited is distance at most k, nextFrontier distance k + 1, levels the start level plus distance |
| Bfs.EmptyFrontierEndsSearch | src/BFS/main.c:99-165 | an empty next frontier means every reachable node has its final level |
| Bfs.NodesShared | src/BFS/main.c:129-139 | every node is in the range of exactly one tasklet |
| Bfs.NoDeadlock | src/BFS/main.c:99-165 | some action is always possible |
| Bfs.EveryStepCounts | src/BFS/main.c:99-165 | every step of every tasklet lowers a rank |
| Bfs.PhasesEnd | src/BFS/main.c:99-165 | so between two barriers a run makes no more steps than that |
| Bfs.Predecessor | src/BFS/main.c:150-161 | a node at distance d + 1 has a neighbour at distance d, what makes one level per round enough |
| Gemv.LoadBlock | src/gemv/main.c:175-185 | rounding down, shifting and the auxiliary word rebuild the block of a misaligned row |
| Gemv.Row | src/gemv/main.c:171-207 | one result element for every size from 1 up, and the address where the next row starts |
| Gemv.Pair | src/gemv/main.c:156-210 | offset is set exactly while the current row's address is misaligned |
| Gemv.RangesAdjacent | src/gemv/main.c:107-130 | the tasklets' ranges are even and follow one another |
| Gemv.RowOwned | src/gemv/main.c:107-130 | every row belongs to exactly one tasklet |
| Gemv.TaskletRows | src/gemv/main.c:154-214 | a tasklet writes its rows and nothing else |
| Gemv.Kernel | src/gemv/main.c:107-214 | the tasklets in any order compute every row and leave matrix and vector alone |
| Gemv.FoldIsDot | src/gemv/main.c:71-75 | accumulating with wrapping is the integer inner product modulo 2^32 |
| Gemv.ValueIsDot | src/gemv/main.c:154-214 | what is stored for row r is the inner product of row r and the vector modulo 2^32 |
| BinarySearch.Search | src/BS/main.c:36-50 | first index of the key, or why there is none |
| BinarySearch.Remainder | src/BS/main.c:102-124 | the last one or two blocks are searched, and the second fits the one-block buffer |
| BinarySearch.MaskedMiddle | src/BS/main.c:99-100 | masking the low bits of the byte middle is halving in elements, for all addresses whose sum fits 32 bits |
| BinarySearch.GapKept | src/BS/main.c:96-137 | for any block size the bounds stay a block apart and get closer, every block read is between them, and the remainder is shorter than a block so its subtraction cannot wrap |
| BinarySearch.Query | src/BS/main.c:89-138 | on sorted input a present key is found at an index holding it, an absent one leaves the result; on any input a stored index holds the key |
| BinarySearch.Tasklet | src/BS/main.c:83-139 | the stored result answers the last query that occurs |
| Unique.DedupBlock | src/UNI/main.c:36-48 | a block's distinct neighbours, compacted in place |
| Unique.DedupConcat | src/UNI/main.c:58-83 | deduplicating two inputs in a row is deduplicating each and dropping one repeated element at the seam |
| Unique.Messages.Handshake | src/UNI/main.c:54-83 | once the epoch is there: the counts returned, the message left for the right neighbour with its epoch, all other slots unchanged |
| Unique.Messages.Step | src/UNI/main.c:123-160 | after any block, fully absorbed ones included, the output is the deduplication so far and the next tasklet is told right |
| Unique.Kernel | src/UNI/main.c:112-160 | in index order: over all rounds output and message_partial_count are the deduplication of the whole input behind the sentinel |
| Unique.ExactIff | src/UNI/main.c:112-117 | that is the deduplication of the input if and only if it does not start with 0xFFFFFFFF |
| UniqueRun.StepKeepsInv | src/UNI/main.c:58-155 | in every interleaving the epochs let each tasklet hear only its neighbour's message of this round |
| UniqueRun.EveryAccessCounts | src/UNI/main.c:58-155 | every access but a poll for an epoch not there yet brings the end of the round closer, and that poll changes nothing |
| UniqueRun.RunCanEnd | src/UNI/main.c:112-160 | every run, whatever it has done so far, can be continued to the end of the last round |
| UniqueRun.CountAlwaysRight | src/UNI/main.c:148-155 | in every run message_partial_count ends each round as the length of the deduplication |
| UniqueRun.TakeExact | src/UNI/main.c:141-146 | the position a tasklet with something new takes is right if and only if the last one has not updated the count yet, and otherwise behind all output of the round |
| UniqueRun.StepPlaces | src/UNI/main.c:141-146 | in every run a write fills its own place or disturbs none, late ones included |
| UniqueRun.StepKeepsOut | src/UNI/main.c:141-155 | every step whose read, if any, is in time or finds its output in memory keeps all output so far in place |
| UniqueRun.LateReadLoses | src/UNI/main.c:141-146 | after a late read of new elements not already there, their place does not hold them |
| UniqueRun.StepKeepsLost | src/UNI/main.c:141-155 | and nothing any tasklet does in this or a later round puts them there |
| UniqueRun.RunExact | src/UNI/main.c:112-160 | any run: at the end of a round output and count are the deduplication of all blocks so far if and only if every read was in time or found its output in memory |
| UniqueRun.RunDeduplicates | src/UNI/main.c:123-160 | every run whose reads are in time, in any order otherwise, leaves the deduplication of all blocks so far |
| UniqueRun.RunRemovesDuplicates | src/UNI/main.c:112-160 | such a run leaves the input without adjacent duplicates if and only if that does not start with 0xFFFFFFFF |
| UniqueRun.LateReadMisplaces | src/UNI/main.c:141-155 | a run with a late read: count right, output wrong |

## Left out

- The ChaCha20 block function: a parameter, the same on both sides; `src/core/chacha.S` and its thread are not part of this model.
- The system key (`user_key` NULL), `ime_check_threads`, `ime_wipe_user`, `ime_check_system`, register wiping, `resume` and the statistics build: hardware and thread control.
- The file parts of `tools/sk/main.py` (`extract_sections_from`, `main`): input and output; a random nonce is a parameter.
- Loader.Machine.ReplaceSk: what the C routines do to WRAM below their stack is a parameter with arbitrary contents; where a DMA transfer would leave its memory the model stops with the outcome Overrun, the hardware deciding what happens.
- Memory is sequentially consistent, and a section guarded by a mutex is one step (BFS excepted, where the guarded load and store are two).
- `mc_mutex_init` and the initialisation of barriers and mailboxes: runs start from their result; line 23 of the former names a field its type does not have.
- Bakery.MutualExclusion: assumes no 16-bit ticket wraps in the run; SafeCallsExact says when that is so.
- TransposeCycles.TilesPermuted: a done bit is one bit per tile, its address arithmetic is not modelled, nor is a wrap of curr_tile.
- The 2048-byte pieces in which TRNS reads and writes a large tile.
- WavefrontRun.KernelIsRecurrence: signed overflow is taken to wrap (AlignmentPaths excludes it); one matrix, the loop over matrices adding nothing; the barrier is one action, proved for itself in ImeBarrier.
- Sparse.CooTimesVector: float addition and multiplication are uninterpreted functions; an odd number of rows, which breaks DMA alignment on the device, is not excluded.
- Bfs.RoundComputesDistances: one DPU holds the whole graph, a multiple of 64 nodes, and the host raises the level by one; merging the frontiers of several DPUs is host code that is not part of this model. Levels are unbounded.
- Bfs.StepKeepsInv: merging a tile in the first phase is one step, no other tasklet touching its words.
- Gemv.Kernel: matrix, vector and result start at multiples of 8 bytes and a block is an even number of elements, as DMA requires; address arithmetic does not wrap.
- BinarySearch.Query: at least one block of input, as its first read demands.
- Unique.Kernel: tasklets run in index order and the size is a whole number of rounds; UniqueRun has every other order.
- Unique.Messages.Handshake: starts when the wait for the epoch is over; UniqueRun has the wait.
- UniqueRun.RunDeduplicates: a tasklet's three slot words are written in one step, as nobody reads them before their epoch; so is one write of output.
- The `mybarrier` copies that initialise arrive slots to 1, whose first wait does not synchronise.
- `mc_lock_for_bin`, VA, RED, HST-S, mbench, add and dma: easy members; TS, SCAN and SEL: no clear specification or the race above.
- Key exchange, mbedtls, DMA timing, host mailboxes, timers and build files.
