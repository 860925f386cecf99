# LZ4P container decoder, modelled in Dafny

This project models `unlz4_read` from `unlz4p.c`. It is the decoder for the
LZ4P container, which has three parts:

- a 32-byte header: the tag `LZ4P`, the original size, the compressed size,
  the block size, the block count and three reserved words;
- a table of compressed block lengths, one 32-bit word per block;
- the LZ4-compressed blocks, back to back.

The decoder checks the tag and loads the table. It then decodes the blocks
in order:

- every block but the last goes to the "fast" LZ4 codec, which must read
  exactly the table's length for that block;
- the last block goes to the "safe" codec;
- each block is written `block_size` bytes after the previous one.

Before each of these steps, the refill macro `unlz4_check_input_size` calls
the caller's `fill` until enough bytes are buffered. A negative `fill`
result ends the call with -4. A bad tag returns -6, a fast-codec failure or
length mismatch returns -8, and a safe-codec failure returns -9. Otherwise
the function returns its running total `ret`.

The model has seven modules, one per file.

- `Bytes` (`bytes.dfy`) has bytes, little-endian 32-bit words and
  `Int32`. `Int32` is the two's-complement wrap C applies when a
  `uint32_t` lands in an `int` or an `int` sum leaves the range.
- `Lz4pHeader` (`header.dfy`) has the header record, the block-size table,
  `unlz4_get_decompsize`, and encoders used as their round-trip partners.
- `InputRefill` (`refill.dfy`) models the refill macro.
  - `Refill` is its meaning.
  - `CheckInputSize` is the loop, proved equal to `Refill`.
  - Lemmas state when it fails, what it adds up, and what it leaves in `ret`.
- `BlockCodec` (`codec.dfy`) holds the two LZ4 primitives. They are
  function parameters constrained by contracts:
  - the fast codec writes exactly `size` bytes when it succeeds, and its
    report depends only on the bytes it says it read;
  - the safe codec reports how many bytes it wrote, never exceeds its
    capacity, and reads no byte past the compressed size it is given.
  Each codec call is given only the bytes buffered at the input offset,
  never bytes `fill` has not yet reported.
- `Unlz4` (`unlz4.dfy`) is the decoder.
  - `Decode` (with `LoadTable`, `BlocksFrom`, `Blocks` and `BlockStep`) says
    step by step what one call does.
  - `Read`, `ReadBlocks` and `ReadBlock` are the imperative decoder over an
    output `array`, with the source's cursors and counters. They are proved
    to return the status and leave the output that `Decode` gives.
- `Unlz4Properties` (`unlz4_props.dfy`) proves what a whole call does:
  - which block each codec call reads and where it writes;
  - which error code comes back, and when;
  - what the output holds afterwards;
  - what is returned when all the input is already buffered.
- `Unlz4Chunking` (`chunking.dfy`) compares two calls that feed the same
  input in different pieces, when neither call runs out of input. Both take
  the same exit and make as many codec calls. They make the same calls and
  leave the same output, except after a failing fast decode: that decoder
  may have read past the buffered bytes, so only the calls before it agree.
  The returned value can differ too, because `fill`'s count lands in `ret`.

Modelling choices:

- **`fill`.** `fill` is a script: the sequence of integers it will return.
  `input` is every byte the buffer will ever hold. The caller must not claim
  more bytes than it appends, so the starting count plus all the script's
  non-negative results stays within `input`.
- **Script exhaustion.** When the script runs out while more input is still
  needed, the model stops with exit `ScriptEnded` and status `Incomplete`.
  The source would call `fill` again.
- **Byte order.** Header and table words are read little-endian. The source
  casts the buffer to the header struct, so it uses the platform's byte
  order.
- **Behaviour of the code the model keeps:**
  - `fill` is called with no null check, although `main` passes `NULL`
    for it (unlz4p.c:196). There is no path that fails at once when no
    `fill` is given.
  - A failed table refill returns -4 like every other refill (unlz4p.c:104).
  - **`ret` is reused.** The refill macro assigns `fill`'s result to `ret`
    (unlz4p.c:49), the same variable that accumulates the decoded length
    (unlz4p.c:123, 134). So a refill inside the block loop replaces the
    running total with the count `fill` just returned.
    `RefillCountsTowardResult` shows a call that returns 3 after writing
    2 bytes.
  - When the script reports no bytes at all (as for `main`'s call, which
    passes the whole file as `in_len`), `FullyBuffered` shows the result is
    `(nblock - 1) * block_size` plus the final block's decoded length.

## Model

| member | source | states |
|---|---|---|
| Bytes.U32At | unlz4p.c:55-62 | a header or table word is a 32-bit unsigned value (below 2^32) |
| Bytes.LE32 | unlz4p.c:55-62 | the four bytes of a 32-bit word read back as that word |
| Bytes.Int32 | unlz4p.c:110 | a 32-bit value stored in an `int` is in the signed range; values already in range are unchanged, and non-negative values never grow |
| Bytes.Int32Mod | unlz4p.c:110 | the conversion to `int` is reduction modulo 2^32 into [-2^31, 2^31) |
| Bytes.Int32Add | unlz4p.c:123 | wrapping `ret` at each `+= block_size` gives the same as wrapping the exact total once |
| Bytes.Int32OfWord | unlz4p.c:110-117 | comparing the codec's result with `next_size` (a table word read as `int`) rejects exactly the results that differ from the word; the word reads as non-negative exactly when it is below 2^31 |
| Lz4pHeader.ParseHeader | unlz4p.c:55-62 | the header read from the first 32 bytes has 32-bit fields and three reserved words; the byte-wise tag check passes exactly when the tag field is `LZ4P` |
| Lz4pHeader.MagicOk | unlz4p.c:90-94 | the tag check: the buffer holds at least four bytes and they are `L`, `Z`, `4`, `P` |
| Lz4pHeader.Memcmp | unlz4p.c:91 | `memcmp` of two byte strings of one length returns 0 exactly when they match |
| Lz4pHeader.MagicIsMemcmp | unlz4p.c:91 | the tag check passes exactly when `memcmp` of the first four bytes against `LZ4P` returns 0 |
| Lz4pHeader.ParseEncodeHeader | unlz4p.c:55-62 | parsing an encoded header gives back that header, whatever follows it |
| Lz4pHeader.GetDecompSize | unlz4p.c:64-68 | the original-size field, read without checking the tag, is the header's `osize` |
| Lz4pHeader.DecompSizeOfEncoded | unlz4p.c:64-68 | the original size of any encoded header comes back, whatever its tag |
| Lz4pHeader.TableBytes | unlz4p.c:101 | the table's byte length is computed modulo 2^32, and is exactly 4 * nblock when that does not wrap |
| Lz4pHeader.Table | unlz4p.c:105 | the copied table has one entry per block, each a 32-bit word |
| Lz4pHeader.TableAt | unlz4p.c:105-110 | table entry `n` is the word at offset 32 + 4n |
| Lz4pHeader.TableEncodeTable | unlz4p.c:105 | reading an encoded table back gives the table |
| InputRefill.Refill | unlz4p.c:46-53 | a successful refill leaves at least `size` bytes buffered and only moves forward through the `fill` results |
| InputRefill.CheckInputSize | unlz4p.c:46-53 | the refill loop ends exactly as `Refill` says: buffered count, value left in `ret`, next `fill` result, or failure |
| InputRefill.RefillConserves | unlz4p.c:46-53 | a refill only moves bytes `fill` reports into the buffered count |
| InputRefill.RefillOverrunIff | unlz4p.c:47-51 | a refill fails exactly when some `fill` call returns a negative value while every earlier call succeeded and the threshold was still unmet |
| InputRefill.RefillUses | unlz4p.c:47-49 | no `fill` call is made when the threshold is already met; otherwise every result used was non-negative and `ret` holds the last one |
| InputRefill.RefillReady | unlz4p.c:47-52 | a successful refill adds every result used to the count, and `fill` was called only while the count was below the threshold |
| InputRefill.NothingSupplied | unlz4p.c:47-49 | when `fill` will report no more bytes, a refill that succeeds made no `fill` call: the count, `ret` and the script position are unchanged |
| BlockCodec.FastContract | unlz4p.c:115-117 | `LZ4_decompress_fast` returns a 32-bit `int`, writes at most `block_size` bytes and exactly `block_size` when it succeeds, and its result and output depend only on the bytes its result says it read |
| BlockCodec.SafeContract | unlz4p.c:126-129 | `LZ4_decompress_safe` returns a 32-bit `int`, writes at most its capacity, returns the count written when it succeeds, and reads no byte past the compressed size it is given |
| Unlz4.Patch | unlz4p.c:115-128 | a codec's bytes land at the output offset and the output keeps its length |
| Unlz4.Window | unlz4p.c:111-116 | the bytes a codec call sees are exactly those buffered at the input offset after the refill, at least the block's table length, and all of them lie in the input |
| Unlz4.BlockStep | unlz4p.c:110-140 | one pass of the loop keeps the output's length; when it moves on, the next block's cursors stay within the input and the output still has room for the remaining blocks |
| Unlz4.Blocks | unlz4p.c:109-142 | the block loop leaves the output's length unchanged |
| Unlz4.Decode | unlz4p.c:70-147 | a whole call leaves the output's length unchanged |
| Unlz4.LoadTable | unlz4p.c:101-107 | loading the table and running the blocks leaves the output's length unchanged |
| Unlz4.BlocksFrom | unlz4p.c:106-109 | the loop started after the table leaves the output's length unchanged |
| Unlz4.TableRoom | unlz4p.c:104-107 | after a successful table refill the whole table is buffered, and the bytes past the header stay within the input |
| Unlz4.TableLoaded | unlz4p.c:104-109 | once the table refill succeeds, the call continues with the block loop |
| Unlz4.Start | unlz4p.c:95-107 | the block loop starts at block 0 and output offset 0, at input offset 32 + 4 * nblock just past the table; the buffered bytes still end where the table refill left them, and `ret` and the next `fill` result carry over |
| Unlz4.DecodeLoaded | unlz4p.c:87-109 | a call past the header and the table runs the block loop from block 0, at input offset 32 + 4 * nblock and output offset 0, with the output big enough for every block |
| Unlz4.Store | unlz4p.c:115-128 | writing a codec's bytes into the output array changes it as `Patch` says |
| Unlz4.Read | unlz4p.c:70-147 | the decoder returns the status, and leaves the output contents, that `Decode` gives for the same input, script, codecs and initial output |
| Unlz4.ReadBlocks | unlz4p.c:109-146 | the block loop returns what `Blocks` gives from the starting cursors, and leaves the output it gives |
| Unlz4.ReadBlock | unlz4p.c:110-140 | one pass of the loop stops with `BlockStep`'s run, or moves on to exactly its next cursors and output |
| Unlz4Properties.TraceCall | unlz4p.c:113-128 | the call made for block n uses the codec the source picks for it, decodes the bytes buffered at the block's input offset (at least the block's table length of them) and writes at n * block_size |
| Unlz4Properties.FastFailTrace | unlz4p.c:113-122 | a non-final block whose fast decode did not read `table[n]` bytes stops the loop with -8, after recording its call |
| Unlz4Properties.FastGoesTrace | unlz4p.c:113-123 | a non-final block whose fast decode read exactly `table[n]` bytes hands on to block n + 1 |
| Unlz4Properties.NextOnTrace | unlz4p.c:138-140 | after such a block, the next one starts `table[n]` bytes further into the input and `block_size` bytes further into the output |
| Unlz4Properties.SafeTrace | unlz4p.c:124-136 | the final block's safe decode is recorded at its offsets, with capacity `block_size`, and ends the loop |
| Unlz4Properties.StepTrace | unlz4p.c:109-140 | one pass either stops with the exit its codec report calls for, or read exactly `table[n]` bytes and hands on |
| Unlz4Properties.BlocksTrace | unlz4p.c:109-142 | call n decodes the bytes buffered from 32 + 4 * nblock + (lengths of blocks before n), at least `table[n]` of them, and writes at n * block_size; -8 exactly when a non-final block's read count differs from its table entry; -9 when the safe decode fails; -4 only before all blocks ran; a finished loop made one call per block |
| Unlz4Properties.DecodeTrace | unlz4p.c:87-142 | every call either stops before the blocks (refill failure, or -6 for a bad tag) with no codec call and the output untouched, or runs the block loop as `BlocksTrace` describes |
| Unlz4Properties.LoadedTrace | unlz4p.c:104-142 | `DecodeTrace` for a call that got past the header and the table |
| Unlz4Properties.StartOnTrace | unlz4p.c:95-109 | the table read from the buffer is a table of 32-bit words, and the loop's starting cursor sits where block 0 begins, with no codec call made yet |
| Unlz4Properties.BadMagicDecodesNothing | unlz4p.c:88-94 | with a bad tag nothing is decoded or written, and the call returns -6 whenever the header refill succeeded, which it does at once when 32 bytes are already buffered |
| Unlz4Properties.FillFailureBeforeHeader | unlz4p.c:46-53 | a `fill` failure before 32 bytes are buffered returns -4 with nothing decoded or written |
| Unlz4Properties.EmptyContainer | unlz4p.c:99-146 | a good header with no blocks, already buffered, returns 0 and writes nothing |
| Unlz4Properties.ImageCall | unlz4p.c:115-128 | writing block n's output at n * block_size keeps the earlier blocks' output and what lies past block n |
| Unlz4Properties.FastImage | unlz4p.c:113-123 | a non-final block's fast output lands at its offset and the rest of the output is kept |
| Unlz4Properties.SafeImage | unlz4p.c:124-136 | the final block's safe output lands at its offset and the rest of the output is kept |
| Unlz4Properties.StepImage | unlz4p.c:110-140 | one pass writes only block n's own slot |
| Unlz4Properties.BlocksImage | unlz4p.c:109-142 | after the loop each call's bytes sit at n * block_size, and the output past the last block reached is as the caller left it |
| Unlz4Properties.DecodeImage | unlz4p.c:70-147 | after a call the output holds each codec call's bytes at its block's offset, is untouched past the blocks reached, and is unchanged when no block was decoded |
| Unlz4Properties.LoadedImage | unlz4p.c:104-142 | `DecodeImage` for a call that got past the header and the table |
| Unlz4Properties.MiddleNoRefill | unlz4p.c:111-123 | when the refill makes no `fill` call, `ret` moves on by `block_size` exactly as the output offset does (both in 32-bit arithmetic), and the script position stays put |
| Unlz4Properties.FinalNoRefill | unlz4p.c:124-136 | when the refill makes no `fill` call, the final block returns its output offset plus its decoded length |
| Unlz4Properties.StepNoRefill | unlz4p.c:110-136 | when `fill` will report no more bytes, every pass keeps `ret` equal to the output offset and the script position unchanged, and the final one returns offset plus length |
| Unlz4Properties.BlocksNoRefill | unlz4p.c:109-142 | when `fill` will report no more bytes, a finished loop returns the last call's output offset plus its decoded length |
| Unlz4Properties.FinishedCode | unlz4p.c:134-146 | a finished loop with `ret` tracking the output returns (nblock - 1) * block_size plus the final length, and that length is at most `block_size` |
| Unlz4Properties.BlocksFromStart | unlz4p.c:109-146 | the loop from block 0 with `ret` at 0, when `fill` will report no more bytes, returns as `FinishedCode` says |
| Unlz4Properties.FullyBuffered | unlz4p.c:70-147 | when `fill` reports no bytes at all (every byte buffered on entry), a finished call returns 0 for no blocks, and otherwise (nblock - 1) * block_size plus the final block's decoded length (at most `block_size`), as a 32-bit `int` |
| Unlz4Properties.LoadedNoRefill | unlz4p.c:104-146 | `FullyBuffered` for a call that got past the header and the table |
| Unlz4Properties.ParseContainer | unlz4p.c:87-107 | a container built from an encoded header, table and block bytes reads back its header, tag, table and block bytes |
| Unlz4Properties.RefillCountsTowardResult | unlz4p.c:49 | one block of size 2 whose one compressed byte comes from `fill`: the call finishes, writes 2 bytes, and returns 3, because the refill left 1 in `ret` |
| Unlz4Chunking.FastChunking | unlz4p.c:113-123 | a non-final block under two refill histories, once both refills succeeded, stops in both or in neither; going on, both decode the same bytes to the same output; stopping, both record the same earlier calls |
| Unlz4Chunking.SafeChunking | unlz4p.c:124-136 | the final block, once both refills succeeded, makes the same call and leaves the same output whatever the refill history, because the safe codec reads no byte past the block's length |
| Unlz4Chunking.StepChunking | unlz4p.c:110-140 | one pass under two refill histories either ends the same way (same exit; same calls and output unless the fast decode failed), or moves both on to the same place and output; or one of them ran out of input |
| Unlz4Chunking.BlocksChunking | unlz4p.c:109-142 | the block loop under two refill histories, when neither runs out of input, takes the same exit with as many calls; calls and output agree, except that after a failing fast decode only the earlier calls do |
| Unlz4Chunking.TableStarved | unlz4p.c:104 | a failed table refill ends the call for want of input |
| Unlz4Chunking.LoadedChunking | unlz4p.c:104-142 | `DecodeChunking` for two calls that both got past the header and the table |
| Unlz4Chunking.HeaderChunking | unlz4p.c:101-142 | `DecodeChunking` for two calls that both got a good header |
| Unlz4Chunking.DecodeChunking | unlz4p.c:70-147 | feeding the same container in any pieces or all at once, when neither call runs out of input, gives the same exit and as many codec calls; calls and output agree, except that after a failing fast decode only the earlier calls do |

## Left out

- `main` (file reading, output buffer allocation, writing the result) is
  not part of this model. Nor are `stderr` messages, the `malloc` of the
  table (whose result is not checked) or the `free` that the early returns
  skip.
- The LZ4 codecs are not part of this model. They enter only through the
  contracts in `BlockCodec`.
- `fill` and its data pointer are modelled as a finite script of results.
  A script that runs out stops the model with `ScriptEnded`, a path the
  source does not have. Because of this the model cannot show the endless
  loop of a `fill` that keeps returning 0.
- Unlz4.Decode requires that the starting count and every `fill` count
  stay within the buffer, and that the buffer is shorter than 2^31 bytes.
  `in_len` is a C `int`, and the source does not check either.
- Unlz4.Decode requires `nblock < 2^30`. At or above that, the table's byte
  length wraps and the loop reads past the table copy, which is undefined
  behaviour.
- Unlz4.Decode requires the output to have room for `nblock * block_size`
  bytes. This is the capacity the decoder promises each codec call; the
  source does not check it. `main` does not meet it: it allocates only
  `osize` bytes (unlz4p.c:190), which is less when the final block is
  short, and so promises the safe codec `block_size` bytes of room at the
  last block (unlz4p.c:127-128) where fewer are allocated. The model does
  not cover such a call.
- Unlz4Chunking.DecodeChunking promises, after a failing fast decode, only
  the same exit, as many calls and the same earlier calls. The C fast
  decoder trusts the block and may read past `in_len` into bytes `fill`
  has not yet supplied, so its own report and output can differ between
  two refill histories.
- Unlz4.BlockStep wraps `ret` modulo 2^32 after adding the safe codec's
  result. In C, overflowing that signed addition is undefined behaviour.
- Bytes.U32At reads words little-endian. The source uses the platform's
  byte order.
