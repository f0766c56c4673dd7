# Frame-buffer upload and word validation, modelled in Dafny

This project models the data path of the 256 MB memory-access demo for the
VGA frame-buffer controller (`demo_256_MB_memory_access.c`):

* `validate`: takes a 32-bit word as the processor reads it from SDRAM and
  reverses its byte order, which gives the word in the big-endian order in
  which it was stored on disk. It then counts the set bits among positions
  0-29 in an 8-bit accumulator and accepts the word when that count, modulo 4,
  equals the 2-bit check value in bits 30-31.
* The upload part of `main`, in four steps:
  1. It asserts that both frame buffers (2 x 640 x 480 words) fit the bridge
     span and are a whole number of 4096-word chunks.
  2. Unless SDRAM word 0 already holds the marker `0x40010594`, it reads the
     frame-buffer file chunk by chunk straight into SDRAM, without byte
     conversion.
  3. It counts the failing words of each chunk as that chunk arrives.
  4. Finally it counts the failing words of the whole region once more.

The project has two modules:

* `Validator` (`validator.dfy`):
  * Words are `bv32`.
  * `ByteSwap` uses the same masks and shifts as the C code.
  * The 8-bit `sum` is kept as a number that wraps modulo 256. The loop
    invariant shows that it never wraps, because it stays equal to the bit
    count so far, which is at most 30.
  * `Validate` is the loop itself. It is proved equal to the predicate
    `IsValid`.
  * Further lemmas cover the check convention:
    * the byte swap reverses the bytes and undoes itself;
    * there is an encoder whose words are always accepted, and decoding an
      encoded word returns its payload;
    * every single-bit flip of an accepted word is rejected.
* `Transfer` (`transfer.dfy`):
  * SDRAM is an `array<Word>`.
  * The file is a `WordStream` object, a word sequence with a read position.
    Its `Read` method models `fread`, including the short read at the end of
    the file.
  * The chunk loop, the per-chunk count and the whole-region count are
    methods with loop invariants. They are proved against these specification
    functions:
    * `Loaded`: the SDRAM contents after the first `n` words came from the
      file;
    * `FailureCount`: the number of words that `validate` rejects;
    * `ChunkErrors`: the per-chunk reports.
  * Lemmas relate these functions: the per-chunk reports add up to the
    whole-region count, report `i` covers exactly chunk `i`, words past the
    region are untouched, and a complete file is copied verbatim.

## Points worth knowing

* **Short files.** The code does not check what `fread` returns, and the
  model follows the code: a short read fills only the words the file still
  holds, leaves the rest of the chunk as it was, and the loop goes on.
* **Single-bit flips.** A 2-bit check value might be expected to miss some
  single-bit flips; under this convention it catches every one:
  * flipping a payload bit moves the bit count by one, so the count modulo 4
    changes while the check value stays;
  * flipping bit 30 or 31 changes only the check value.

  `Validator.SingleBitFlipDetected` proves that `validate` rejects every word
  that differs from an accepted word in exactly one bit.

## Model

| member | source | states |
|---|---|---|
| Validator.ByteSwapReversesBytes | VGA/sw/nios/VGAController/demo_256_MB_memory_access.c:52-55 | `ByteSwap`, the swap at the head of `validate`, moves input byte k to result byte 3 - k, for each of the four bytes |
| Validator.ByteSwapInvolutive | VGA/sw/nios/VGAController/demo_256_MB_memory_access.c:52-55 | Applying `ByteSwap` twice gives back the original word |
| Validator.Bit | VGA/sw/nios/VGAController/demo_256_MB_memory_access.c:60 | `(in >> j) & 0b1` is 0 or 1 |
| Validator.PopCount | VGA/sw/nios/VGAController/demo_256_MB_memory_access.c:57-61 | The count of set bits among the first n positions is at most n, so after 30 steps `sum` is at most 30 |
| Validator.Tag | VGA/sw/nios/VGAController/demo_256_MB_memory_access.c:63 | `in >> 30` is a value in 0..3 |
| Validator.Validate | VGA/sw/nios/VGAController/demo_256_MB_memory_access.c:51-64 | The loop returns exactly `IsValid(input)`: true when the bit count of positions 0-29 of the byte-swapped word, modulo 4, equals its bits 30-31. The invariant keeps the wrapping 8-bit `sum` equal to the count so far, at most 30, so it never wraps |
| Validator.PopCountAgree | VGA/sw/nios/VGAController/demo_256_MB_memory_access.c:59-61 | Two words that agree on the counted positions have the same count |
| Validator.FlipBit | VGA/sw/nios/VGAController/demo_256_MB_memory_access.c:60 | Inverting bit j inverts that bit and leaves every other bit alone |
| Validator.PopCountFlip | VGA/sw/nios/VGAController/demo_256_MB_memory_access.c:59-61 | Inverting a counted bit moves the count by exactly one; inverting an uncounted bit leaves it unchanged |
| Validator.TagBits | VGA/sw/nios/VGAController/demo_256_MB_memory_access.c:63 | The check value is bits 31 and 30 read as a two-digit binary number |
| Validator.FlipTag | VGA/sw/nios/VGAController/demo_256_MB_memory_access.c:63 | Inverting a bit changes the check value exactly when the bit is 30 or 31 |
| Validator.FlipBreaksCheck | VGA/sw/nios/VGAController/demo_256_MB_memory_access.c:59-63 | A word in disk order that meets the convention fails it once any one of its 32 bits is inverted |
| Validator.ByteSwapFlip | VGA/sw/nios/VGAController/demo_256_MB_memory_access.c:52-55 | Inverting bit j of a memory word inverts bit j xor 24 of the byte-swapped word |
| Validator.SingleBitFlipDetected | VGA/sw/nios/VGAController/demo_256_MB_memory_access.c:51-64 | `validate` rejects every word that differs in exactly one bit from a word it accepts |
| Validator.CheckBitsPlaced | VGA/sw/nios/VGAController/demo_256_MB_memory_access.c:63 | A check value placed in bits 30-31 above a 30-bit payload reads back unchanged and leaves the payload intact |
| Validator.PayloadCountKept | VGA/sw/nios/VGAController/demo_256_MB_memory_access.c:59-61 | Placing the check bits does not change the count over positions 0-29 |
| Validator.EncodeValid | VGA/sw/nios/VGAController/demo_256_MB_memory_access.c:51-64 | A word built from any 30-bit payload with its bit count modulo 4 as check value, stored big-endian, passes `validate` |
| Validator.DecodeEncode | VGA/sw/nios/VGAController/demo_256_MB_memory_access.c:52-55 | Swapping back an encoded word and masking bits 0-29 gives back the payload |
| Transfer.ProgramConfiguration | VGA/sw/nios/VGAController/demo_256_MB_memory_access.c:82-86 | With the constants of lines 45-47 both assertions hold, and the region is 150 chunks |
| Transfer.ChunkCount | VGA/sw/nios/VGAController/demo_256_MB_memory_access.c:83-86 | When the chunk size divides the total, `num_chunks` chunks cover the region exactly |
| Transfer.ChunkWithinRegion | VGA/sw/nios/VGAController/demo_256_MB_memory_access.c:86-91 | Word j of chunk i, for i below `num_chunks` and j below 4096, lies inside the region |
| Transfer.FailureCount | VGA/sw/nios/VGAController/demo_256_MB_memory_access.c:110-114 | The number of rejected words is at most the number of words checked |
| Transfer.FailureCountAppend | VGA/sw/nios/VGAController/demo_256_MB_memory_access.c:108-114 | The failures of two adjacent stretches of words add up |
| Transfer.FailureCountZero | VGA/sw/nios/VGAController/demo_256_MB_memory_access.c:108-116 | A count of 0 is reported exactly when every word validates |
| Transfer.CountFailures | VGA/sw/nios/VGAController/demo_256_MB_memory_access.c:93-97 | The counting loop returns the number of words in `mem[base..base+len)` that `validate` rejects |
| Transfer.ChunkErrors | VGA/sw/nios/VGAController/demo_256_MB_memory_access.c:89-97 | Every per-chunk count is at most the chunk size, 4096 |
| Transfer.ChunkErrorsLength | VGA/sw/nios/VGAController/demo_256_MB_memory_access.c:86-88 | A region of k chunks yields k reports |
| Transfer.ChunkErrorsAt | VGA/sw/nios/VGAController/demo_256_MB_memory_access.c:89-97 | Report i equals the number of rejected words among words i*4096 .. i*4096+4095 |
| Transfer.SumChunkErrors | VGA/sw/nios/VGAController/demo_256_MB_memory_access.c:88-114 | The per-chunk counts add up to the whole-region count |
| Transfer.WordStream.Open | VGA/sw/nios/VGAController/demo_256_MB_memory_access.c:76 | An opened file starts at its first word |
| Transfer.WordStream.Read | VGA/sw/nios/VGAController/demo_256_MB_memory_access.c:91 | `fread` copies min(count, words left) words verbatim to the destination offset, advances the position by that many, and changes no other word |
| Transfer.LoadedStep | VGA/sw/nios/VGAController/demo_256_MB_memory_access.c:88-91 | One more chunk read extends the loaded prefix by one chunk |
| Transfer.LoadedKeepsRest | VGA/sw/nios/VGAController/demo_256_MB_memory_access.c:88-91 | In `Loaded`, the SDRAM contents after the `fread` calls, words at and beyond the region keep their old values |
| Transfer.LoadedFromCompleteFile | VGA/sw/nios/VGAController/demo_256_MB_memory_access.c:88-91 | In `Loaded`, with a file of at least `total` words, the region is the file's first `total` words, copied verbatim |
| Transfer.TransferChunk | VGA/sw/nios/VGAController/demo_256_MB_memory_access.c:89-97 | One loop iteration loads the next chunk, leaves the earlier chunks alone, advances the file, and returns that chunk's failure count |
| Transfer.TransferChunks | VGA/sw/nios/VGAController/demo_256_MB_memory_access.c:86-100 | After the chunk loop, SDRAM holds the loaded region, the file sits after it, and the reports are the per-chunk failure counts |
| Transfer.Upload | VGA/sw/nios/VGAController/demo_256_MB_memory_access.c:82-116 | The transfer happens exactly when word 0 is not the marker; otherwise SDRAM and the file are untouched. `sram_errors` counts the failing words of the region; after a transfer there are `total / 4096` reports, which sum to `sram_errors` |
| Transfer.UploadFramebuffers | VGA/sw/nios/VGAController/demo_256_MB_memory_access.c:82-116 | With the program's own constants the preconditions hold; with the marker present nothing is read, otherwise a transfer yields 150 reports summing to `sram_errors` |
| Transfer.UploadLeavesMarker | VGA/sw/nios/VGAController/demo_256_MB_memory_access.c:85 | A file that starts with the marker leaves it in word 0, so the next run skips the transfer |

## Left out

* The register map and register traffic (lines 10-41, 73, 118-131) are left out. These are memory-mapped hardware accesses: the program reads the state register, pulses the init register and writes fixed configuration values (frame-buffer base 0, frame-buffer id 0, next-frame 1).
* The endless polling loop (lines 136-148) is left out. It reads hardware debug registers forever and never terminates.
* `printf` output (lines 79, 99, 106, 116) is left out. The values it prints are each method's outputs instead: the per-chunk counts `txErrors` and the region count `sramErrors`.
* A failed `fopen` is left out. The program only prints a message and then goes on to read and close a NULL file, which is undefined behaviour. `WordStream.Open` models a file that opened.
* `fclose` (line 103) is left out. It has no effect on the modelled state.
* The file is modelled as a sequence of whole 32-bit words. A trailing partial word of a file whose length is not a multiple of 4 bytes is not modelled.
* SDRAM is an array of at least `total` words. Its absolute address 0x0 (line 49) is not modelled.
* The `uint32_t` loop counters and error counters are modelled as unbounded numbers. This is exact, because `total` is asserted to be at most the bridge span, which is below 2^32.
* The span assertion compares a count of words against `HPS_0_BRIDGES_SPAN`, a size in bytes. The model keeps the comparison as written. For the program's constants it holds either way.
* The chunk size is the program's constant 4096 throughout. The region size `total` is a parameter of `Upload`, to which `UploadFramebuffers` passes the program's value.
