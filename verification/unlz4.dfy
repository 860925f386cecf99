/** `unlz4_read`: check the header, load the block size table, then decode
    the blocks one after another, refilling the input before each step.

    `Decode` and `Blocks` state what a call does, step for step; `Read` is
    the imperative decoder, with the source's cursors and counters, proved to
    compute exactly that. */
module Unlz4 {
  import opened Bytes
  import opened Lz4pHeader
  import opened InputRefill
  import opened BlockCodec

  /** The return codes of `unlz4_read`'s failure paths. */
  const INPUT_OVERRUN: int := -4
  const BAD_MAGIC: int := -6
  const FAST_FAILED: int := -8
  const SAFE_FAILED: int := -9

  /** Everything outside the decoder: the input buffer (every byte the
      caller has placed or will place in it), the results `fill` will
      return, and the two block codecs. */
  datatype Env = Env(input: seq<byte>, fills: seq<int>, fast: FastCodec, safe: SafeCodec)

  ghost predicate Codecs(env: Env) {
    FastContract(env.fast) && SafeContract(env.safe)
  }

  /** What the caller must provide. The starting count is not negative;
      `fill` reports only bytes that are really appended to the buffer; the
      buffer's length fits the `int` counter; and when the header is good,
      the table's byte length does not wrap in 32 bits and the output has
      room for `block_size` bytes at every block's offset (the capacity the
      decoder promises the codec). */
  ghost predicate Admissible(env: Env, inLen: int, outLen: nat) {
    0 <= inLen && inLen + Supplied(env.fills, 0) <= |env.input| < TWO_31
    && (|env.input| >= HEADER_SIZE && MagicOk(env.input) ==>
          var h := ParseHeader(env.input);
          h.nblock < TWO_32 / 4 && h.nblock * h.bsize <= outLen)
  }

  /** The block loop's state: block index, input and output offsets, the
      buffered count, the shared `ret` variable, and the next `fill` result
      to use. */
  datatype Cursor = Cursor(n: nat, pos: nat, out: nat, inLen: int, ret: int, next: nat)

  /** The buffered bytes, and all that `fill` will still report, lie in the buffer. */
  ghost predicate InBounds(env: Env, c: Cursor) {
    c.next <= |env.fills| && 0 <= c.inLen
    && c.pos + c.inLen + Supplied(env.fills, c.next) <= |env.input|
  }

  predicate Words(table: seq<nat>) {
    forall i :: 0 <= i < |table| ==> table[i] < TWO_32
  }

  /** An output of `len` bytes has room for `k` more blocks of `bsize` bytes
      from offset `out` on. */
  predicate Fits(k: nat, bsize: nat, out: int, len: int)
    decreases k
  {
    k == 0 || (0 <= out && out + bsize <= len && Fits(k - 1, bsize, out + bsize, len))
  }

  lemma {:induction false} FitsOfProduct(k: nat, bsize: nat, out: int, len: int)
    requires 0 <= out && out + k * bsize <= len
    ensures Fits(k, bsize, out, len)
    decreases k
  {
    if k > 0 {
      MulSucc(k - 1, bsize);
      MulNonNeg(k - 1, bsize);
      FitsOfProduct(k - 1, bsize, out + bsize, len);
    }
  }

  /** Which way a call left. `ScriptEnded` is not a path of the source: the
      source would call `fill` again, past the results the model was given. */
  datatype Exit = Finished | ScriptEnded | InputOverrun | BadMagic
                | FastFailed(block: nat) | SafeFailed(block: nat)

  /** One codec call: block index, input and output offsets, and its report. */
  datatype Call = Call(block: nat, src: nat, dst: nat, d: Decoded)

  datatype Status = Returned(code: int) | Incomplete

  /** A whole call: its exit, the value returned, the output buffer's
      contents afterwards, and the codec calls made on the way. */
  datatype Run = Run(exit: Exit, code: int, image: seq<byte>, calls: seq<Call>) {
    function Status(): Status {
      if exit.ScriptEnded? then Incomplete else Returned(code)
    }
  }

  /** The output buffer after `bytes` are written at offset `at`. */
  function Patch(image: seq<byte>, at: nat, bytes: seq<byte>): (r: seq<byte>)
    requires at + |bytes| <= |image|
    ensures |r| == |image| && r[at..at + |bytes|] == bytes
  {
    image[..at] + bytes + image[at + |bytes|..]
  }

  /** The bytes buffered from block `c`'s offset once its refill to `size`
      succeeded: all a codec call at that point can rely on. */
  function Window(env: Env, c: Cursor, size: int): (w: seq<byte>)
    requires InBounds(env, c) && Refill(env.fills, c.next, c.inLen, size, c.ret).Ready?
    ensures |w| == Refill(env.fills, c.next, c.inLen, size, c.ret).inLen && |w| >= size
    ensures c.pos + |w| <= |env.input| && w == env.input[c.pos..c.pos + |w|]
  {
    var rf := Refill(env.fills, c.next, c.inLen, size, c.ret);
    RefillConserves(env.fills, c.next, c.inLen, size, c.ret);
    env.input[c.pos..c.pos + rf.inLen]
  }

  /** How one block leaves the loop: stopped with the call's outcome, or
      moved on to the next block with new cursors, output and calls. */
  datatype Step = Stop(run: Run) | Continue(c: Cursor, image: seq<byte>, calls: seq<Call>)

  /** One pass of the block loop, for block `c.n`. A non-final block goes to
      the fast codec, which must read exactly `table[n]` bytes; the final
      block goes to the safe codec with capacity `bsize`. Each block is
      written at the output offset, which then moves on by `bsize`. A refill
      here overwrites `ret`, which also accumulates the decoded length. */
  function BlockStep(env: Env, bsize: nat, table: seq<nat>, c: Cursor,
                     image: seq<byte>, calls: seq<Call>): (s: Step)
    requires Codecs(env) && InBounds(env, c) && c.n < |table|
    requires Fits(|table| - c.n, bsize, c.out, |image|)
    ensures s.Stop? ==> |s.run.image| == |image|
    ensures s.Continue? ==> c.n < |table| - 1 && s.c.n == c.n + 1 && InBounds(env, s.c)
                            && |s.image| == |image| && Fits(|table| - s.c.n, bsize, s.c.out, |s.image|)
  {
    var size := Int32(table[c.n]);
    var rf := Refill(env.fills, c.next, c.inLen, size, c.ret);
    if rf.Exhausted? then Stop(Run(ScriptEnded, 0, image, calls))
    else if rf.Overrun? then Stop(Run(InputOverrun, INPUT_OVERRUN, image, calls))
    else
      RefillConserves(env.fills, c.next, c.inLen, size, c.ret);
      var src := Window(env, c, size);
      if c.n < |table| - 1 then
        var d := env.fast(src, Int32(bsize));
        assert FastOk(d, Int32(bsize));
        var out, made := Patch(image, c.out, d.bytes), calls + [Call(c.n, c.pos, c.out, d)];
        if d.result < 0 || d.result != size then Stop(Run(FastFailed(c.n), FAST_FAILED, out, made))
        else
          Continue(Cursor(c.n + 1, c.pos + size, c.out + bsize, rf.inLen - size, Int32(rf.ret + bsize), rf.next),
                   out, made)
      else
        var d := env.safe(src, size, Int32(bsize));
        assert SafeOk(d, Int32(bsize));
        var out, made := Patch(image, c.out, d.bytes), calls + [Call(c.n, c.pos, c.out, d)];
        if d.result < 0 then Stop(Run(SafeFailed(c.n), SAFE_FAILED, out, made))
        else Stop(Run(Finished, Int32(rf.ret + d.result), out, made))
  }

  /** The block loop from block `c.n` on, until a block stops it or the
      table is used up. */
  function Blocks(env: Env, bsize: nat, table: seq<nat>, c: Cursor,
                  image: seq<byte>, calls: seq<Call>): (r: Run)
    requires Codecs(env) && InBounds(env, c) && c.n <= |table|
    requires Fits(|table| - c.n, bsize, c.out, |image|)
    ensures |r.image| == |image|
    decreases |table| - c.n
  {
    if c.n == |table| then Run(Finished, c.ret, image, calls)
    else
      match BlockStep(env, bsize, table, c, image, calls)
      case Stop(r) => r
      case Continue(next, out, made) => Blocks(env, bsize, table, next, out, made)
  }

  /** A whole call of `unlz4_read` on output contents `image`. */
  function Decode(env: Env, inLen: int, image: seq<byte>): (r: Run)
    requires Codecs(env) && Admissible(env, inLen, |image|)
    ensures |r.image| == |image|
  {
    var rh := Refill(env.fills, 0, inLen, HEADER_SIZE, 0);
    if rh.Exhausted? then Run(ScriptEnded, 0, image, [])
    else if rh.Overrun? then Run(InputOverrun, INPUT_OVERRUN, image, [])
    else if !MagicOk(env.input) then Run(BadMagic, BAD_MAGIC, image, [])
    else
      RefillConserves(env.fills, 0, inLen, HEADER_SIZE, 0);
      LoadTable(env, ParseHeader(env.input), rh, image)
  }

  /** The rest of a call once the header `h` is in and checked; `rh` is the
      header refill's report. */
  function LoadTable(env: Env, h: Header, rh: Refilled, image: seq<byte>): (r: Run)
    requires Codecs(env)
    requires rh.Ready? && rh.inLen >= HEADER_SIZE
    requires InBounds(env, Cursor(0, HEADER_SIZE, 0, rh.inLen - HEADER_SIZE, rh.ret, rh.next))
    requires h.nblock < TWO_32 / 4 && h.nblock * h.bsize <= |image|
    ensures |r.image| == |image|
  {
    var rt := Refill(env.fills, rh.next, rh.inLen - HEADER_SIZE, TableBytes(h.nblock), rh.ret);
    if rt.Exhausted? then Run(ScriptEnded, 0, image, [])
    else if rt.Overrun? then Run(InputOverrun, INPUT_OVERRUN, image, [])
    else
      RefillConserves(env.fills, rh.next, rh.inLen - HEADER_SIZE, TableBytes(h.nblock), rh.ret);
      BlocksFrom(env, h, rt, image)
  }

  /** The cursor the block loop starts from, once the table is buffered;
      `rt` is the table refill's report. */
  function Start(h: Header, rt: Refilled): (c: Cursor)
    requires rt.Ready?
    ensures c.n == 0 && c.out == 0 && c.pos == HEADER_SIZE + 4 * h.nblock
    ensures c.pos + c.inLen == HEADER_SIZE + rt.inLen
    ensures c.ret == rt.ret && c.next == rt.next
  {
    Cursor(0, HEADER_SIZE + 4 * h.nblock, 0, rt.inLen - 4 * h.nblock, rt.ret, rt.next)
  }

  /** The block loop once the table is buffered. */
  function BlocksFrom(env: Env, h: Header, rt: Refilled, image: seq<byte>): (r: Run)
    requires Codecs(env)
    requires h.nblock * h.bsize <= |image|
    requires rt.Ready? && rt.inLen >= 4 * h.nblock
    requires InBounds(env, Cursor(0, HEADER_SIZE, 0, rt.inLen, rt.ret, rt.next))
    ensures |r.image| == |image|
  {
    FitsOfProduct(h.nblock, h.bsize, 0, |image|);
    Blocks(env, h.bsize, Table(env.input, HEADER_SIZE, h.nblock), Start(h, rt), image, [])
  }

  /** A successful table refill leaves the whole table buffered, and the
      bytes after the header still within the input. */
  lemma TableRoom(env: Env, h: Header, rh: Refilled, rt: Refilled)
    requires rh.Ready? && rh.inLen >= HEADER_SIZE
    requires InBounds(env, Cursor(0, HEADER_SIZE, 0, rh.inLen - HEADER_SIZE, rh.ret, rh.next))
    requires h.nblock < TWO_32 / 4
    requires rt == Refill(env.fills, rh.next, rh.inLen - HEADER_SIZE, TableBytes(h.nblock), rh.ret) && rt.Ready?
    ensures rt.inLen >= 4 * h.nblock && InBounds(env, Cursor(0, HEADER_SIZE, 0, rt.inLen, rt.ret, rt.next))
  {
    RefillConserves(env.fills, rh.next, rh.inLen - HEADER_SIZE, TableBytes(h.nblock), rh.ret);
  }

  /** The table refill succeeded with report `rt`: the blocks run next. */
  lemma TableLoaded(env: Env, h: Header, rh: Refilled, rt: Refilled, image: seq<byte>)
    requires Codecs(env)
    requires rh.Ready? && rh.inLen >= HEADER_SIZE
    requires InBounds(env, Cursor(0, HEADER_SIZE, 0, rh.inLen - HEADER_SIZE, rh.ret, rh.next))
    requires h.nblock < TWO_32 / 4 && h.nblock * h.bsize <= |image|
    requires rt == Refill(env.fills, rh.next, rh.inLen - HEADER_SIZE, TableBytes(h.nblock), rh.ret) && rt.Ready?
    ensures rt.inLen >= 4 * h.nblock && InBounds(env, Cursor(0, HEADER_SIZE, 0, rt.inLen, rt.ret, rt.next))
    ensures LoadTable(env, h, rh, image) == BlocksFrom(env, h, rt, image)
  {
    TableRoom(env, h, rh, rt);
  }

  /** A call that got past the header and the table, unfolded: `rh` and `rt`
      are the reports of the two refills. */
  lemma DecodeLoaded(env: Env, inLen: int, image: seq<byte>, rh: Refilled, rt: Refilled, h: Header)
    requires Codecs(env) && Admissible(env, inLen, |image|)
    requires rh == Refill(env.fills, 0, inLen, HEADER_SIZE, 0) && rh.Ready? && MagicOk(env.input)
    requires |env.input| >= HEADER_SIZE && h == ParseHeader(env.input)
    requires rt == Refill(env.fills, rh.next, rh.inLen - HEADER_SIZE, TableBytes(h.nblock), rh.ret)
    requires rt.Ready?
    ensures HEADER_SIZE + 4 * h.nblock <= |env.input| && TableBytes(h.nblock) == 4 * h.nblock
    ensures h.nblock * h.bsize <= |image| && Fits(h.nblock, h.bsize, 0, |image|)
    ensures InBounds(env, Start(h, rt))
    ensures Decode(env, inLen, image)
            == Blocks(env, h.bsize, Table(env.input, HEADER_SIZE, h.nblock), Start(h, rt), image, [])
  {
    RefillConserves(env.fills, 0, inLen, HEADER_SIZE, 0);
    assert TableBytes(h.nblock) == 4 * h.nblock;
    assert Decode(env, inLen, image) == LoadTable(env, h, rh, image);
    TableLoaded(env, h, rh, rt, image);
    FitsOfProduct(h.nblock, h.bsize, 0, |image|);
  }

  /** What a codec call does to the output buffer. */
  method Store(output: array<byte>, at: nat, bytes: seq<byte>)
    requires at + |bytes| <= output.Length
    modifies output
    ensures output[..] == Patch(old(output[..]), at, bytes)
  {
    forall i | 0 <= i < |bytes| {
      output[at + i] := bytes[i];
    }
  }

  /** The decoder. `input` and `inLen` are the buffer and its initial count,
      `fills` the results the caller's `fill` returns in turn, and `output`
      the caller's output buffer, written in place. */
  method Read(input: seq<byte>, inLen: int, fills: seq<int>, fast: FastCodec, safe: SafeCodec,
              output: array<byte>) returns (status: Status)
    requires Codecs(Env(input, fills, fast, safe))
    requires Admissible(Env(input, fills, fast, safe), inLen, output.Length)
    modifies output
    ensures var r := Decode(Env(input, fills, fast, safe), inLen, old(output[..]));
            status == r.Status() && output[..] == r.image
  {
    ghost var env, image := Env(input, fills, fast, safe), output[..];
    ghost var spec := Decode(env, inLen, image);
    var pos: nat, avail: int, ret: int, next: nat := 0, inLen, 0, 0;

    // the header
    var rf := CheckInputSize(fills, next, avail, HEADER_SIZE, ret);
    if rf.Exhausted? {
      return Incomplete;
    }
    if rf.Overrun? {
      return Returned(INPUT_OVERRUN);
    }
    RefillConserves(fills, next, avail, HEADER_SIZE, ret);
    avail, ret, next := rf.inLen, rf.ret, rf.next;
    ghost var headerRefill := rf;
    if !MagicOk(input) {
      return Returned(BAD_MAGIC);
    }
    assert |input| >= HEADER_SIZE;
    var header := ParseHeader(input);
    pos, avail := pos + HEADER_SIZE, avail - HEADER_SIZE;
    var blockSize, blockCount := header.bsize, header.nblock;

    // the block size table
    var tableBytes := TableBytes(blockCount);
    rf := CheckInputSize(fills, next, avail, tableBytes, ret);
    if rf.Exhausted? {
      return Incomplete;
    }
    if rf.Overrun? {
      return Returned(INPUT_OVERRUN);
    }
    DecodeLoaded(env, inLen, image, headerRefill, rf, header);
    var table := Table(input, pos, blockCount);
    assert tableBytes == 4 * blockCount;
    pos, avail, ret, next := pos + tableBytes, rf.inLen - tableBytes, rf.ret, rf.next;
    assert Cursor(0, pos, 0, avail, ret, next) == Start(header, rf);
    assert output[..] == image;
    status := ReadBlocks(input, fills, fast, safe, blockSize, table, Cursor(0, pos, 0, avail, ret, next), output);
  }

  /** The block loop of `unlz4_read`, from block 0 with the cursors `start`
      the table load left. */
  method ReadBlocks(input: seq<byte>, fills: seq<int>, fast: FastCodec, safe: SafeCodec,
                    blockSize: nat, table: seq<nat>, start: Cursor, output: array<byte>)
    returns (status: Status)
    requires Codecs(Env(input, fills, fast, safe))
    requires InBounds(Env(input, fills, fast, safe), start) && start.n == 0
    requires Fits(|table|, blockSize, start.out, output.Length)
    modifies output
    ensures var r := Blocks(Env(input, fills, fast, safe), blockSize, table, start, old(output[..]), []);
            status == r.Status() && output[..] == r.image
  {
    ghost var env := Env(input, fills, fast, safe);
    ghost var spec := Blocks(env, blockSize, table, start, output[..], []);
    var c, blockCount := start, |table|;
    ghost var calls: seq<Call> := [];
    while c.n < blockCount
      invariant c.n <= blockCount && InBounds(env, c)
      invariant Fits(blockCount - c.n, blockSize, c.out, output.Length)
      invariant Blocks(env, blockSize, table, c, output[..], calls) == spec
      decreases blockCount - c.n
    {
      var done, result;
      done, result, c, calls := ReadBlock(input, fills, fast, safe, blockSize, table, c, calls, output);
      if done {
        return result;
      }
    }
    return Returned(c.ret);
  }

  /** One pass of the block loop: refill for block `c.n`, decode it into the
      output at `c.out`, and either leave with `status` (`done`) or move the
      cursors on. */
  method ReadBlock(input: seq<byte>, fills: seq<int>, fast: FastCodec, safe: SafeCodec,
                   blockSize: nat, table: seq<nat>, c: Cursor, ghost calls: seq<Call>, output: array<byte>)
    returns (done: bool, status: Status, c': Cursor, ghost calls': seq<Call>)
    requires Codecs(Env(input, fills, fast, safe))
    requires InBounds(Env(input, fills, fast, safe), c) && c.n < |table|
    requires Fits(|table| - c.n, blockSize, c.out, output.Length)
    modifies output
    ensures var s := BlockStep(Env(input, fills, fast, safe), blockSize, table, c, old(output[..]), calls);
            if done then s.Stop? && status == s.run.Status() && output[..] == s.run.image
            else s == Continue(c', output[..], calls')
  {
    ghost var image := output[..];
    ghost var s := BlockStep(Env(input, fills, fast, safe), blockSize, table, c, image, calls);
    var n, pos, outPos, avail, ret, next := c.n, c.pos, c.out, c.inLen, c.ret, c.next;
    var nextSize := Int32(table[n]);
    var rf := CheckInputSize(fills, next, avail, nextSize, ret);
    if rf.Exhausted? {
      assert s == Stop(Run(ScriptEnded, 0, image, calls));
      return true, Incomplete, c, calls;
    }
    if rf.Overrun? {
      assert s == Stop(Run(InputOverrun, INPUT_OVERRUN, image, calls));
      return true, Returned(INPUT_OVERRUN), c, calls;
    }
    RefillConserves(fills, next, avail, nextSize, ret);
    if n < |table| - 1 {
      var d := fast(input[pos..pos + rf.inLen], Int32(blockSize));
      assert FastOk(d, Int32(blockSize));
      Store(output, outPos, d.bytes);
      calls' := calls + [Call(n, pos, outPos, d)];
      if d.result < 0 || d.result != nextSize {
        assert s == Stop(Run(FastFailed(n), FAST_FAILED, output[..], calls'));
        return true, Returned(FAST_FAILED), c, calls';
      }
      n, pos, outPos := n + 1, pos + nextSize, outPos + blockSize;
      avail, ret, next := rf.inLen - nextSize, Int32(rf.ret + blockSize), rf.next;
      assert s == Continue(Cursor(n, pos, outPos, avail, ret, next), output[..], calls');
      return false, Returned(ret), Cursor(n, pos, outPos, avail, ret, next), calls';
    } else {
      var d := safe(input[pos..pos + rf.inLen], nextSize, Int32(blockSize));
      assert SafeOk(d, Int32(blockSize));
      Store(output, outPos, d.bytes);
      calls' := calls + [Call(n, pos, outPos, d)];
      if d.result < 0 {
        assert s == Stop(Run(SafeFailed(n), SAFE_FAILED, output[..], calls'));
        return true, Returned(SAFE_FAILED), c, calls';
      }
      assert s == Stop(Run(Finished, Int32(rf.ret + d.result), output[..], calls'));
      return true, Returned(Int32(rf.ret + d.result)), c, calls';
    }
  }
}
