/** What a call of `unlz4_read` does, stated over whole runs: where each
    block is read from and written to, when each error code comes back,
    what ends up in the output buffer, and what is returned. */
module Unlz4Properties {
  import opened Bytes
  import opened Lz4pHeader
  import opened InputRefill
  import opened BlockCodec
  import opened Unlz4

  /** Input offset of block `i`: past the header, the table, and the
      compressed lengths of the blocks before it. */
  function BlockStart(table: seq<nat>, i: nat): int
    requires i <= |table|
  {
    HEADER_SIZE + 4 * |table| + Sum(table[..i])
  }

  /** Call `c`, for block `i`, reports what the codec the source picks for
      that block gives on the `a` bytes buffered from the block's offset:
      at least the block's compressed length, and within the input. */
  ghost predicate FromWindow(env: Env, bsize: nat, table: seq<nat>, i: nat, c: Call, a: nat)
    requires i < |table|
  {
    c.src + a <= |env.input| && Int32(table[i]) <= a
    && c.d == (if i < |table| - 1 then env.fast(env.input[c.src..c.src + a], Int32(bsize))
               else env.safe(env.input[c.src..c.src + a], Int32(table[i]), Int32(bsize)))
  }

  /** Codec call `i` decodes block `i` from its input offset into output
      offset `i * bsize`, with the codec the source picks for it, on the
      bytes buffered at that point. */
  ghost predicate CallOk(env: Env, bsize: nat, table: seq<nat>, calls: seq<Call>, i: nat)
    requires i < |calls|
  {
    var c := calls[i];
    i < |table| && c.block == i && c.dst == i * bsize
    && c.src == BlockStart(table, i) && c.src <= |env.input|
    && exists a: nat :: FromWindow(env, bsize, table, i, c, a)
  }

  ghost predicate Trace(env: Env, bsize: nat, table: seq<nat>, calls: seq<Call>) {
    forall i :: 0 <= i < |calls| ==> CallOk(env, bsize, table, calls, i)
  }

  /** The first `k` calls read exactly their block's compressed length. */
  ghost predicate Succeeded(table: seq<nat>, calls: seq<Call>, k: nat)
    requires k <= |calls| <= |table|
  {
    forall i :: 0 <= i < k ==> calls[i].d.result == table[i]
  }

  /** How the block loop ended, in terms of the codec calls it made. */
  ghost predicate BlockExit(table: seq<nat>, r: Run) {
    |r.calls| <= |table|
    && (r.calls != [] ==> Succeeded(table, r.calls, |r.calls| - 1))
    && match r.exit
       case Finished =>
         |r.calls| == |table| && (|table| > 0 ==> r.calls[|table| - 1].d.result >= 0)
       case FastFailed(b) =>
         b + 1 == |r.calls| && b < |table| - 1 && r.calls[b].d.result != table[b]
         && r.code == FAST_FAILED
       case SafeFailed(b) =>
         b + 1 == |r.calls| == |table| && r.calls[b].d.result < 0 && r.code == SAFE_FAILED
       case InputOverrun =>
         |r.calls| < |table| && Succeeded(table, r.calls, |r.calls|) && r.code == INPUT_OVERRUN
       case ScriptEnded =>
         |r.calls| < |table| && Succeeded(table, r.calls, |r.calls|)
       case BadMagic => false
  }

  lemma TraceSnoc(env: Env, bsize: nat, table: seq<nat>, calls: seq<Call>, call: Call)
    requires Trace(env, bsize, table, calls)
    requires CallOk(env, bsize, table, calls + [call], |calls|)
    ensures Trace(env, bsize, table, calls + [call])
  {
    var made := calls + [call];
    forall i | 0 <= i < |made|
      ensures CallOk(env, bsize, table, made, i)
    {
      if i < |calls| {
        assert made[i] == calls[i];
        assert CallOk(env, bsize, table, calls, i);
      }
    }
  }

  /** Where one more call leaves the trace: the call itself is right. */
  lemma TraceCall(env: Env, bsize: nat, table: seq<nat>, c: Cursor, calls: seq<Call>, d: Decoded, a: nat)
    requires Codecs(env) && InBounds(env, c) && c.n < |table|
    requires |calls| == c.n && Trace(env, bsize, table, calls)
    requires c.pos == BlockStart(table, c.n) && c.out == c.n * bsize
    requires c.pos + a <= |env.input| && Int32(table[c.n]) <= a
    requires d == (if c.n < |table| - 1 then env.fast(env.input[c.pos..c.pos + a], Int32(bsize))
                   else env.safe(env.input[c.pos..c.pos + a], Int32(table[c.n]), Int32(bsize)))
    ensures Trace(env, bsize, table, calls + [Call(c.n, c.pos, c.out, d)])
    ensures (calls + [Call(c.n, c.pos, c.out, d)])[..|calls|] == calls
  {
    var call := Call(c.n, c.pos, c.out, d);
    assert FromWindow(env, bsize, table, c.n, call, a);
    assert CallOk(env, bsize, table, calls + [call], |calls|);
    TraceSnoc(env, bsize, table, calls, call);
  }

  /** The trace facts the block loop keeps from block to block. */
  ghost predicate OnTrace(env: Env, bsize: nat, table: seq<nat>, c: Cursor, calls: seq<Call>) {
    c.n <= |table| && |calls| == c.n && Trace(env, bsize, table, calls) && Succeeded(table, calls, c.n)
    && c.pos == BlockStart(table, c.n) && c.out == c.n * bsize
  }

  /** The trace facts a pass of the block loop hands on: a stopped run with
      its exit, or the next block's trace. */
  ghost predicate StepOnTrace(env: Env, bsize: nat, table: seq<nat>, calls: seq<Call>, s: Step) {
    match s
    case Stop(r) =>
      Trace(env, bsize, table, r.calls) && |calls| <= |r.calls| && r.calls[..|calls|] == calls
      && BlockExit(table, r)
    case Continue(c', _, made) =>
      OnTrace(env, bsize, table, c', made) && |calls| <= |made| && made[..|calls|] == calls
  }

  /** A non-final block whose refill succeeded and whose fast decode did
      not read `table[c.n]` bytes: the call is recorded and the loop stops
      with -8. */
  lemma FastFailTrace(env: Env, bsize: nat, table: seq<nat>, c: Cursor, image: seq<byte>, calls: seq<Call>)
    requires Codecs(env) && InBounds(env, c) && c.n < |table| - 1
    requires Fits(|table| - c.n, bsize, c.out, |image|)
    requires Words(table) && OnTrace(env, bsize, table, c, calls)
    requires Refill(env.fills, c.next, c.inLen, Int32(table[c.n]), c.ret).Ready?
    requires env.fast(Window(env, c, Int32(table[c.n])), Int32(bsize)).result != table[c.n]
    ensures StepOnTrace(env, bsize, table, calls, BlockStep(env, bsize, table, c, image, calls))
  {
    var w := Window(env, c, Int32(table[c.n]));
    var d := env.fast(w, Int32(bsize));
    assert FastOk(d, Int32(bsize));
    TraceCall(env, bsize, table, c, calls, d, |w|);
    Int32OfWord(table[c.n], d.result);
    var s := BlockStep(env, bsize, table, c, image, calls);
    assert s.Stop? && s.run.exit == FastFailed(c.n) && s.run.calls == calls + [Call(c.n, c.pos, c.out, d)];
  }

  /** A non-final block whose fast decode read exactly `table[c.n]` bytes:
      the call is recorded and the loop goes on at the next block's offsets. */
  lemma FastGoesTrace(env: Env, bsize: nat, table: seq<nat>, c: Cursor, image: seq<byte>, calls: seq<Call>)
    requires Codecs(env) && InBounds(env, c) && c.n < |table| - 1
    requires Fits(|table| - c.n, bsize, c.out, |image|)
    requires Words(table) && OnTrace(env, bsize, table, c, calls)
    requires Refill(env.fills, c.next, c.inLen, Int32(table[c.n]), c.ret).Ready?
    requires env.fast(Window(env, c, Int32(table[c.n])), Int32(bsize)).result == table[c.n]
    ensures StepOnTrace(env, bsize, table, calls, BlockStep(env, bsize, table, c, image, calls))
  {
    var w := Window(env, c, Int32(table[c.n]));
    var d := env.fast(w, Int32(bsize));
    assert FastOk(d, Int32(bsize));
    Int32OfWord(table[c.n], d.result);
    var s := BlockStep(env, bsize, table, c, image, calls);
    assert s.Continue? && s.calls == calls + [Call(c.n, c.pos, c.out, d)];
    assert s.c.n == c.n + 1 && s.c.pos == c.pos + table[c.n] && s.c.out == c.out + bsize;
    NextOnTrace(env, bsize, table, c, calls, d, |w|, s.c);
  }

  /** After a non-final block that read exactly `table[c.n]` bytes, the next
      block starts where that one ended, in the input and in the output. */
  lemma NextOnTrace(env: Env, bsize: nat, table: seq<nat>, c: Cursor, calls: seq<Call>,
                    d: Decoded, a: nat, c': Cursor)
    requires Codecs(env) && InBounds(env, c) && c.n < |table| - 1
    requires OnTrace(env, bsize, table, c, calls)
    requires c.pos + a <= |env.input| && Int32(table[c.n]) <= a
    requires d == env.fast(env.input[c.pos..c.pos + a], Int32(bsize)) && d.result == table[c.n]
    requires c'.n == c.n + 1 && c'.pos == c.pos + table[c.n] && c'.out == c.out + bsize
    ensures var made := calls + [Call(c.n, c.pos, c.out, d)];
            OnTrace(env, bsize, table, c', made) && |calls| <= |made| && made[..|calls|] == calls
  {
    TraceCall(env, bsize, table, c, calls, d, a);
    var made := calls + [Call(c.n, c.pos, c.out, d)];
    SumSnoc(table, c.n);
    MulSucc(c.n, bsize);
    forall i | 0 <= i < c.n + 1
      ensures made[i].d.result == table[i]
    {
      if i < c.n {
        assert made[i] == calls[i];
      }
    }
  }

  /** The final block, its refill done: the safe decode is recorded at the
      block's offsets and ends the loop. */
  lemma SafeTrace(env: Env, bsize: nat, table: seq<nat>, c: Cursor, image: seq<byte>, calls: seq<Call>)
    requires Codecs(env) && InBounds(env, c) && c.n == |table| - 1
    requires Fits(|table| - c.n, bsize, c.out, |image|)
    requires Words(table) && OnTrace(env, bsize, table, c, calls)
    requires Refill(env.fills, c.next, c.inLen, Int32(table[c.n]), c.ret).Ready?
    ensures StepOnTrace(env, bsize, table, calls, BlockStep(env, bsize, table, c, image, calls))
  {
    var w := Window(env, c, Int32(table[c.n]));
    var d := env.safe(w, Int32(table[c.n]), Int32(bsize));
    TraceCall(env, bsize, table, c, calls, d, |w|);
    var s := BlockStep(env, bsize, table, c, image, calls);
    assert s.Stop? && s.run.calls == calls + [Call(c.n, c.pos, c.out, d)];
  }

  /** One pass of the block loop keeps the trace: block `c.n` is read at its
      input offset and written at `c.n * bsize`; it either ends the loop
      with the exit its codec report calls for, or read exactly `table[c.n]`
      bytes and hands on to block `c.n + 1`. */
  lemma StepTrace(env: Env, bsize: nat, table: seq<nat>, c: Cursor, image: seq<byte>, calls: seq<Call>)
    requires Codecs(env) && InBounds(env, c) && c.n < |table|
    requires Fits(|table| - c.n, bsize, c.out, |image|)
    requires Words(table) && OnTrace(env, bsize, table, c, calls)
    ensures StepOnTrace(env, bsize, table, calls, BlockStep(env, bsize, table, c, image, calls))
  {
    var rf := Refill(env.fills, c.next, c.inLen, Int32(table[c.n]), c.ret);
    if !rf.Ready? {
      var s := BlockStep(env, bsize, table, c, image, calls);
      assert s.Stop? && s.run.calls == calls;
    } else if c.n < |table| - 1 {
      if env.fast(Window(env, c, Int32(table[c.n])), Int32(bsize)).result == table[c.n] {
        FastGoesTrace(env, bsize, table, c, image, calls);
      } else {
        FastFailTrace(env, bsize, table, c, image, calls);
      }
    } else {
      SafeTrace(env, bsize, table, c, image, calls);
    }
  }

  /** The block loop decodes the blocks in order: call `n` reads block `n`
      at its input offset and writes at `n * bsize`; a non-final block
      fails with -8 exactly when the fast codec does not read `table[n]`
      bytes; the final block fails with -9 when the safe codec fails, and
      otherwise the loop is done. */
  lemma {:induction false} BlocksTrace(env: Env, bsize: nat, table: seq<nat>, c: Cursor,
                                       image: seq<byte>, calls: seq<Call>)
    requires Codecs(env) && InBounds(env, c) && c.n <= |table|
    requires Fits(|table| - c.n, bsize, c.out, |image|)
    requires Words(table) && OnTrace(env, bsize, table, c, calls)
    ensures var r := Blocks(env, bsize, table, c, image, calls);
            Trace(env, bsize, table, r.calls) && |calls| <= |r.calls| && r.calls[..|calls|] == calls
            && BlockExit(table, r)
    decreases |table| - c.n
  {
    var r := Blocks(env, bsize, table, c, image, calls);
    if c.n == |table| {
      assert r == Run(Finished, c.ret, image, calls);
      return;
    }
    StepTrace(env, bsize, table, c, image, calls);
    var s := BlockStep(env, bsize, table, c, image, calls);
    if s.Stop? {
      assert r == s.run;
    } else {
      assert r == Blocks(env, bsize, table, s.c, s.image, s.calls);
      BlocksTrace(env, bsize, table, s.c, s.image, s.calls);
      assert r.calls[..|calls|] == r.calls[..|s.calls|][..|calls|];
    }
  }

  /** The header is good and the table lies in the buffer. */
  ghost predicate Loaded(env: Env) {
    |env.input| >= HEADER_SIZE && MagicOk(env.input)
    && HEADER_SIZE + 4 * ParseHeader(env.input).nblock <= |env.input|
  }

  function TableOf(env: Env): (t: seq<nat>)
    requires Loaded(env)
    ensures |t| == ParseHeader(env.input).nblock
  {
    Table(env.input, HEADER_SIZE, ParseHeader(env.input).nblock)
  }

  /** A run that ended before the block loop: nothing decoded, nothing written. */
  ghost predicate StoppedEarly(env: Env, r: Run, image: seq<byte>) {
    r.calls == [] && r.image == image
    && (r.exit.ScriptEnded?
        || (r.exit.InputOverrun? && r.code == INPUT_OVERRUN)
        || (r.exit.BadMagic? && r.code == BAD_MAGIC && !MagicOk(env.input)))
  }

  /** Run `r` went through the block loop over the table read from offset
      32, as `BlocksTrace` describes. */
  ghost predicate LoopTraced(env: Env, r: Run) {
    Loaded(env) && Trace(env, ParseHeader(env.input).bsize, TableOf(env), r.calls)
    && BlockExit(TableOf(env), r)
  }

  /** Every call either stops before the block loop (a failed refill, or
      -6 for a bad tag) or runs the block loop over the table read from
      offset 32, as `BlocksTrace` describes. */
  lemma DecodeTrace(env: Env, inLen: int, image: seq<byte>)
    requires Codecs(env) && Admissible(env, inLen, |image|)
    ensures var r := Decode(env, inLen, image);
            StoppedEarly(env, r, image) || LoopTraced(env, r)
  {
    var r := Decode(env, inLen, image);
    var rh := Refill(env.fills, 0, inLen, HEADER_SIZE, 0);
    RefillConserves(env.fills, 0, inLen, HEADER_SIZE, 0);
    if !rh.Ready? || !MagicOk(env.input) {
      assert r.calls == [] && r.image == image;
    } else {
      var h := ParseHeader(env.input);
      var rt := Refill(env.fills, rh.next, rh.inLen - HEADER_SIZE, TableBytes(h.nblock), rh.ret);
      assert r == LoadTable(env, h, rh, image);
      if rt.Ready? {
        LoadedTrace(env, inLen, image, rh, rt, h);
      }
    }
  }

  /** `DecodeTrace` once the header and the table are in. */
  lemma LoadedTrace(env: Env, inLen: int, image: seq<byte>, rh: Refilled, rt: Refilled, h: Header)
    requires Codecs(env) && Admissible(env, inLen, |image|)
    requires rh == Refill(env.fills, 0, inLen, HEADER_SIZE, 0) && rh.Ready? && MagicOk(env.input)
    requires |env.input| >= HEADER_SIZE && h == ParseHeader(env.input)
    requires rt == Refill(env.fills, rh.next, rh.inLen - HEADER_SIZE, TableBytes(h.nblock), rh.ret)
    requires rt.Ready?
    ensures LoopTraced(env, Decode(env, inLen, image))
  {
    DecodeLoaded(env, inLen, image, rh, rt, h);
    var table := TableOf(env);
    StartOnTrace(env, h, rt);
    BlocksTrace(env, h.bsize, table, Start(h, rt), image, []);
  }

  /** The block loop starts on the trace: block 0 at offset 32 + 4 * nblock. */
  lemma StartOnTrace(env: Env, h: Header, rt: Refilled)
    requires Loaded(env) && h == ParseHeader(env.input) && rt.Ready?
    ensures Words(TableOf(env)) && OnTrace(env, h.bsize, TableOf(env), Start(h, rt), [])
  {
    assert TableOf(env)[..0] == [];
  }

  /** With a bad tag nothing is decoded and nothing written; once the
      header refill succeeded (at once when the header is already
      buffered) the result is -6. */
  lemma BadMagicDecodesNothing(env: Env, inLen: int, image: seq<byte>)
    requires Codecs(env) && Admissible(env, inLen, |image|) && !MagicOk(env.input)
    ensures var r := Decode(env, inLen, image);
            r.calls == [] && r.image == image
            && (r.exit.BadMagic? || r.exit.InputOverrun? || r.exit.ScriptEnded?)
            && (Refill(env.fills, 0, inLen, HEADER_SIZE, 0).Ready? ==> r == Run(BadMagic, BAD_MAGIC, image, []))
            && (inLen >= HEADER_SIZE ==> Refill(env.fills, 0, inLen, HEADER_SIZE, 0).Ready?)
  {
  }

  /** A `fill` that fails before the header is buffered ends the call with
      -4 and nothing else happens. */
  lemma FillFailureBeforeHeader(env: Env, inLen: int, image: seq<byte>, j: nat)
    requires Codecs(env) && Admissible(env, inLen, |image|)
    requires j < |env.fills| && FailsAt(env.fills, 0, inLen, HEADER_SIZE, j)
    ensures Decode(env, inLen, image) == Run(InputOverrun, INPUT_OVERRUN, image, [])
  {
    RefillOverrunIff(env.fills, 0, inLen, HEADER_SIZE, 0);
  }

  /** A good header with no blocks, already buffered (a header-only input
      included): the loop body never runs and the result is 0. */
  lemma EmptyContainer(env: Env, inLen: int, image: seq<byte>)
    requires Codecs(env) && Admissible(env, inLen, |image|)
    requires |env.input| >= HEADER_SIZE && MagicOk(env.input) && ParseHeader(env.input).nblock == 0
    requires inLen >= HEADER_SIZE
    ensures Decode(env, inLen, image) == Run(Finished, 0, image, [])
  {
    RefillUses(env.fills, 0, inLen, HEADER_SIZE, 0);
    RefillUses(env.fills, 0, inLen - HEADER_SIZE, 0, 0);
  }

  /** Where block calls land and what they wrote. */
  ghost predicate Placed(calls: seq<Call>, bsize: nat) {
    forall i :: 0 <= i < |calls| ==> calls[i].dst == i * bsize && |calls[i].d.bytes| <= bsize
  }

  ghost predicate Written(image: seq<byte>, calls: seq<Call>) {
    forall i :: 0 <= i < |calls| ==>
      calls[i].dst + |calls[i].d.bytes| <= |image|
      && image[calls[i].dst..calls[i].dst + |calls[i].d.bytes|] == calls[i].d.bytes
  }

  /** `image` agrees with `image0` from offset `from` on. */
  ghost predicate SameFrom(image: seq<byte>, image0: seq<byte>, from: int) {
    |image| == |image0| && 0 <= from <= |image| && image[from..] == image0[from..]
  }

  lemma PatchKeeps(image: seq<byte>, at: nat, bytes: seq<byte>, lo: nat, hi: nat)
    requires at + |bytes| <= |image| && lo <= hi <= |image|
    requires hi <= at || at + |bytes| <= lo
    ensures Patch(image, at, bytes)[lo..hi] == image[lo..hi]
  {
    var r := Patch(image, at, bytes);
    forall k | lo <= k < hi
      ensures r[k] == image[k]
    {
      if k < at {
        assert r[k] == image[..at][k];
      } else {
        assert r[k] == image[at + |bytes|..][k - at - |bytes|];
      }
    }
  }

  /** Writing block `n`'s report at `n * bsize` keeps the earlier blocks'
      output and what lies past block `n`. */
  lemma ImageCall(bsize: nat, n: nat, image: seq<byte>, calls: seq<Call>, image0: seq<byte>, call: Call)
    requires n * bsize + bsize <= |image| && |calls| == n
    requires Placed(calls, bsize) && Written(image, calls) && SameFrom(image, image0, n * bsize)
    requires call.dst == n * bsize && |call.d.bytes| <= bsize
    ensures var out := Patch(image, n * bsize, call.d.bytes);
            Placed(calls + [call], bsize) && Written(out, calls + [call])
            && SameFrom(out, image0, (n + 1) * bsize)
  {
    MulSucc(n, bsize);
    MulNonNeg(n, bsize);
    var dst := n * bsize;
    var out := Patch(image, dst, call.d.bytes);
    var made := calls + [call];
    forall i | 0 <= i < |made|
      ensures made[i].dst == i * bsize && |made[i].d.bytes| <= bsize
      ensures made[i].dst + |made[i].d.bytes| <= |out|
      ensures out[made[i].dst..made[i].dst + |made[i].d.bytes|] == made[i].d.bytes
    {
      if i < |calls| {
        assert made[i] == calls[i];
        MulLe(i + 1, n, bsize);
        MulSucc(i, bsize);
        PatchKeeps(image, dst, call.d.bytes, calls[i].dst, calls[i].dst + |calls[i].d.bytes|);
      }
    }
    assert out[dst + |call.d.bytes|..] == image[dst + |call.d.bytes|..];
    assert out[dst + bsize..] == out[dst + |call.d.bytes|..][bsize - |call.d.bytes|..];
    assert image[dst + bsize..] == image[dst + |call.d.bytes|..][bsize - |call.d.bytes|..];
  }

  /** The calls of run `r` landed at their offsets, their output is in
      `r.image`, and past them `r.image` is `image0`. */
  ghost predicate ImageOk(r: Run, bsize: nat, image0: seq<byte>) {
    Placed(r.calls, bsize) && Written(r.image, r.calls) && SameFrom(r.image, image0, |r.calls| * bsize)
  }

  /** The image facts the block loop keeps from block to block. */
  ghost predicate OnImage(bsize: nat, c: Cursor, image: seq<byte>, calls: seq<Call>, image0: seq<byte>) {
    |calls| == c.n && c.out == c.n * bsize && ImageOk(Run(Finished, 0, image, calls), bsize, image0)
  }

  /** One pass of the block loop writes block `c.n`'s codec output at
      `c.n * bsize`, keeps the earlier blocks' output, and leaves the rest
      of the output as it was. */
  lemma StepImage(env: Env, bsize: nat, table: seq<nat>, c: Cursor,
                  image: seq<byte>, calls: seq<Call>, image0: seq<byte>)
    requires Codecs(env) && InBounds(env, c) && c.n < |table|
    requires Fits(|table| - c.n, bsize, c.out, |image|) && OnImage(bsize, c, image, calls, image0)
    ensures var s := BlockStep(env, bsize, table, c, image, calls);
            (s.Stop? ==> ImageOk(s.run, bsize, image0))
            && (s.Continue? ==> OnImage(bsize, s.c, s.image, s.calls, image0))
  {
    if !Refill(env.fills, c.next, c.inLen, Int32(table[c.n]), c.ret).Ready? {
    } else if c.n < |table| - 1 {
      FastImage(env, bsize, table, c, image, calls, image0);
    } else {
      SafeImage(env, bsize, table, c, image, calls, image0);
    }
  }

  /** `StepImage` for a non-final block whose refill succeeded. */
  lemma FastImage(env: Env, bsize: nat, table: seq<nat>, c: Cursor,
                  image: seq<byte>, calls: seq<Call>, image0: seq<byte>)
    requires Codecs(env) && InBounds(env, c) && c.n < |table| - 1
    requires Fits(|table| - c.n, bsize, c.out, |image|) && OnImage(bsize, c, image, calls, image0)
    requires Refill(env.fills, c.next, c.inLen, Int32(table[c.n]), c.ret).Ready?
    ensures var s := BlockStep(env, bsize, table, c, image, calls);
            (s.Stop? ==> ImageOk(s.run, bsize, image0))
            && (s.Continue? ==> OnImage(bsize, s.c, s.image, s.calls, image0))
  {
    var d := env.fast(Window(env, c, Int32(table[c.n])), Int32(bsize));
    assert FastOk(d, Int32(bsize));
    ImageCall(bsize, c.n, image, calls, image0, Call(c.n, c.pos, c.out, d));
    MulSucc(c.n, bsize);
  }

  /** `StepImage` for the final block once its refill succeeded. */
  lemma SafeImage(env: Env, bsize: nat, table: seq<nat>, c: Cursor,
                  image: seq<byte>, calls: seq<Call>, image0: seq<byte>)
    requires Codecs(env) && InBounds(env, c) && c.n == |table| - 1
    requires Fits(|table| - c.n, bsize, c.out, |image|) && OnImage(bsize, c, image, calls, image0)
    requires Refill(env.fills, c.next, c.inLen, Int32(table[c.n]), c.ret).Ready?
    ensures var s := BlockStep(env, bsize, table, c, image, calls);
            s.Stop? && ImageOk(s.run, bsize, image0)
  {
    var d := env.safe(Window(env, c, Int32(table[c.n])), Int32(table[c.n]), Int32(bsize));
    assert SafeOk(d, Int32(bsize));
    ImageCall(bsize, c.n, image, calls, image0, Call(c.n, c.pos, c.out, d));
    MulSucc(c.n, bsize);
  }

  /** Each block's codec output sits at its own offset in the output, and
      the output past the last block touched is as the caller left it. */
  lemma {:induction false} BlocksImage(env: Env, bsize: nat, table: seq<nat>, c: Cursor,
                                       image: seq<byte>, calls: seq<Call>, image0: seq<byte>)
    requires Codecs(env) && InBounds(env, c) && c.n <= |table|
    requires Fits(|table| - c.n, bsize, c.out, |image|) && OnImage(bsize, c, image, calls, image0)
    ensures ImageOk(Blocks(env, bsize, table, c, image, calls), bsize, image0)
    decreases |table| - c.n
  {
    if c.n < |table| {
      StepImage(env, bsize, table, c, image, calls, image0);
      var s := BlockStep(env, bsize, table, c, image, calls);
      if s.Continue? {
        BlocksImage(env, bsize, table, s.c, s.image, s.calls, image0);
      }
    }
  }

  /** The output buffer after a call holds each block's codec output at
      that block's offset, and is untouched past the blocks reached. */
  lemma DecodeImage(env: Env, inLen: int, image: seq<byte>)
    requires Codecs(env) && Admissible(env, inLen, |image|)
    ensures var r := Decode(env, inLen, image);
            Written(r.image, r.calls)
            && (Loaded(env) ==> SameFrom(r.image, image, |r.calls| * ParseHeader(env.input).bsize))
            && (r.calls == [] ==> r.image == image)
  {
    var r := Decode(env, inLen, image);
    var rh := Refill(env.fills, 0, inLen, HEADER_SIZE, 0);
    RefillConserves(env.fills, 0, inLen, HEADER_SIZE, 0);
    if rh.Ready? && MagicOk(env.input) {
      var h := ParseHeader(env.input);
      var rt := Refill(env.fills, rh.next, rh.inLen - HEADER_SIZE, TableBytes(h.nblock), rh.ret);
      assert r == LoadTable(env, h, rh, image);
      if rt.Ready? {
        LoadedImage(env, inLen, image, rh, rt, h);
      } else {
        assert r.calls == [] && r.image == image;
      }
    } else {
      assert r.calls == [] && r.image == image;
    }
  }

  /** `DecodeImage` once the header and the table are in. */
  lemma LoadedImage(env: Env, inLen: int, image: seq<byte>, rh: Refilled, rt: Refilled, h: Header)
    requires Codecs(env) && Admissible(env, inLen, |image|)
    requires rh == Refill(env.fills, 0, inLen, HEADER_SIZE, 0) && rh.Ready? && MagicOk(env.input)
    requires |env.input| >= HEADER_SIZE && h == ParseHeader(env.input)
    requires rt == Refill(env.fills, rh.next, rh.inLen - HEADER_SIZE, TableBytes(h.nblock), rh.ret)
    requires rt.Ready?
    ensures var r := Decode(env, inLen, image);
            Written(r.image, r.calls) && SameFrom(r.image, image, |r.calls| * h.bsize)
            && (r.calls == [] ==> r.image == image)
  {
    DecodeLoaded(env, inLen, image, rh, rt, h);
    var r := Blocks(env, h.bsize, TableOf(env), Start(h, rt), image, []);
    assert Decode(env, inLen, image) == r;
    assert OnImage(h.bsize, Start(h, rt), image, [], image);
    BlocksImage(env, h.bsize, TableOf(env), Start(h, rt), image, [], image);
    assert ImageOk(r, h.bsize, image);
  }

  /** A finished run returned the last call's output offset plus the
      length that call reported, read as a 32-bit `int`. */
  ghost predicate ReturnsEnd(r: Run) {
    r.exit.Finished? && r.calls != [] ==>
      r.code == Int32(r.calls[|r.calls| - 1].dst + r.calls[|r.calls| - 1].d.result)
  }

  /** One pass of the block loop when the script reports no more bytes:
      no refill calls `fill`, so `ret` moves on by `bsize` exactly as the
      output offset does, and the final block's length is added to it, all
      in 32-bit arithmetic. */
  lemma StepNoRefill(env: Env, bsize: nat, table: seq<nat>, c: Cursor, image: seq<byte>, calls: seq<Call>)
    requires Codecs(env) && InBounds(env, c) && c.n < |table|
    requires Fits(|table| - c.n, bsize, c.out, |image|)
    requires Supplied(env.fills, c.next) == 0 && c.ret == Int32(c.out)
    ensures var s := BlockStep(env, bsize, table, c, image, calls);
            (s.Continue? ==> s.c.next == c.next && s.c.ret == Int32(s.c.out))
            && (s.Stop? ==> ReturnsEnd(s.run))
  {
    NothingSupplied(env.fills, c.next, c.inLen, Int32(table[c.n]), c.ret);
    if c.n < |table| - 1 {
      MiddleNoRefill(env, bsize, table, c, image, calls);
    } else {
      FinalNoRefill(env, bsize, table, c, image, calls);
    }
  }

  lemma MiddleNoRefill(env: Env, bsize: nat, table: seq<nat>, c: Cursor, image: seq<byte>, calls: seq<Call>)
    requires Codecs(env) && InBounds(env, c) && c.n < |table| - 1
    requires Fits(|table| - c.n, bsize, c.out, |image|)
    requires c.ret == Int32(c.out)
    requires Refill(env.fills, c.next, c.inLen, Int32(table[c.n]), c.ret).Ready? ==>
               Refill(env.fills, c.next, c.inLen, Int32(table[c.n]), c.ret) == Ready(c.inLen, c.ret, c.next)
    ensures var s := BlockStep(env, bsize, table, c, image, calls);
            (s.Continue? ==> s.c.next == c.next && s.c.ret == Int32(s.c.out))
            && (s.Stop? ==> ReturnsEnd(s.run))
  {
    Int32Add(c.out, bsize);
  }

  lemma FinalNoRefill(env: Env, bsize: nat, table: seq<nat>, c: Cursor, image: seq<byte>, calls: seq<Call>)
    requires Codecs(env) && InBounds(env, c) && c.n == |table| - 1
    requires Fits(|table| - c.n, bsize, c.out, |image|)
    requires c.ret == Int32(c.out)
    requires Refill(env.fills, c.next, c.inLen, Int32(table[c.n]), c.ret).Ready? ==>
               Refill(env.fills, c.next, c.inLen, Int32(table[c.n]), c.ret) == Ready(c.inLen, c.ret, c.next)
    ensures var s := BlockStep(env, bsize, table, c, image, calls);
            s.Stop? && ReturnsEnd(s.run)
  {
    if Refill(env.fills, c.next, c.inLen, Int32(table[c.n]), c.ret).Ready? {
      var d := env.safe(Window(env, c, Int32(table[c.n])), Int32(table[c.n]), Int32(bsize));
      Int32Add(c.out, d.result);
    }
  }

  /** When the script reports no more bytes (in particular when the whole
      input is buffered on entry) `ret` only accumulates: `bsize` per
      non-final block and the final block's length, in 32-bit arithmetic;
      so a finished loop returns the final block's output offset plus its
      length. */
  lemma {:induction false} BlocksNoRefill(env: Env, bsize: nat, table: seq<nat>, c: Cursor,
                                          image: seq<byte>, calls: seq<Call>)
    requires Codecs(env) && InBounds(env, c) && c.n < |table|
    requires Fits(|table| - c.n, bsize, c.out, |image|)
    requires Supplied(env.fills, c.next) == 0 && c.ret == Int32(c.out)
    ensures ReturnsEnd(Blocks(env, bsize, table, c, image, calls))
    decreases |table| - c.n
  {
    StepNoRefill(env, bsize, table, c, image, calls);
    var s := BlockStep(env, bsize, table, c, image, calls);
    if s.Continue? {
      BlocksNoRefill(env, bsize, table, s.c, s.image, s.calls);
    }
  }

  /** What a finished run over `n` blocks of `bsize` returned: 0 for no
      blocks, and otherwise `(n - 1) * bsize` plus the final block's decoded
      length, read as a 32-bit `int`; that length is at most `bsize`. */
  ghost predicate EndsAtLastBlock(r: Run, n: nat, bsize: nat) {
    |r.calls| == n
    && (n == 0 ==> r.code == 0)
    && (n > 0 ==> 0 <= r.calls[n - 1].d.result <= bsize
                  && r.code == Int32((n - 1) * bsize + r.calls[n - 1].d.result))
  }

  /** Fully buffered input (the script reports no bytes, as when `inLen`
      is the whole input): a successful call returns what
      `EndsAtLastBlock` describes for the header's block count and size. */
  lemma FullyBuffered(env: Env, inLen: int, image: seq<byte>)
    requires Codecs(env) && Admissible(env, inLen, |image|) && Supplied(env.fills, 0) == 0
    ensures var r := Decode(env, inLen, image);
            r.exit.Finished? ==>
              Loaded(env)
              && EndsAtLastBlock(r, ParseHeader(env.input).nblock, ParseHeader(env.input).bsize)
  {
    var r := Decode(env, inLen, image);
    var rh := Refill(env.fills, 0, inLen, HEADER_SIZE, 0);
    NothingSupplied(env.fills, 0, inLen, HEADER_SIZE, 0);
    if rh.Ready? && MagicOk(env.input) {
      var h := ParseHeader(env.input);
      var rt := Refill(env.fills, rh.next, rh.inLen - HEADER_SIZE, TableBytes(h.nblock), rh.ret);
      if rt.Ready? {
        LoadedNoRefill(env, inLen, image, rh, rt, h);
      } else {
        assert r == LoadTable(env, h, rh, image);
      }
    }
  }

  /** `FullyBuffered` once the header and the table are in. */
  lemma LoadedNoRefill(env: Env, inLen: int, image: seq<byte>, rh: Refilled, rt: Refilled, h: Header)
    requires Codecs(env) && Admissible(env, inLen, |image|) && Supplied(env.fills, 0) == 0
    requires rh == Refill(env.fills, 0, inLen, HEADER_SIZE, 0) && rh.Ready? && MagicOk(env.input)
    requires |env.input| >= HEADER_SIZE && h == ParseHeader(env.input)
    requires rt == Refill(env.fills, rh.next, rh.inLen - HEADER_SIZE, TableBytes(h.nblock), rh.ret)
    requires rt.Ready?
    ensures var r := Decode(env, inLen, image);
            r.exit.Finished? ==> Loaded(env) && EndsAtLastBlock(r, h.nblock, h.bsize)
  {
    NothingSupplied(env.fills, 0, inLen, HEADER_SIZE, 0);
    NothingSupplied(env.fills, rh.next, rh.inLen - HEADER_SIZE, TableBytes(h.nblock), rh.ret);
    assert rt.ret == 0 && rt.next == 0;
    DecodeLoaded(env, inLen, image, rh, rt, h);
    var table := TableOf(env);
    assert table[..0] == [];
    BlocksFromStart(env, h.bsize, table, Start(h, rt), image);
  }

  /** The block loop run from block 0 with `ret` at 0 and no bytes left in
      the script ends as `EndsAtLastBlock` says when it finishes. */
  lemma BlocksFromStart(env: Env, bsize: nat, table: seq<nat>, c: Cursor, image: seq<byte>)
    requires Codecs(env) && InBounds(env, c) && Fits(|table|, bsize, c.out, |image|)
    requires Words(table) && OnTrace(env, bsize, table, c, [])
    requires Supplied(env.fills, c.next) == 0 && c.ret == 0
    ensures var r := Blocks(env, bsize, table, c, image, []);
            r.exit.Finished? ==> EndsAtLastBlock(r, |table|, bsize)
  {
    var r := Blocks(env, bsize, table, c, image, []);
    BlocksTrace(env, bsize, table, c, image, []);
    if |table| == 0 {
      assert r == Run(Finished, c.ret, image, []);
    } else {
      assert Int32(0) == 0;
      BlocksNoRefill(env, bsize, table, c, image, []);
      if r.exit.Finished? {
        FinishedCode(env, bsize, table, r);
      }
    }
  }

  /** A finished block loop over a non-empty table that returned the final
      block's offset plus its length ends as `EndsAtLastBlock` says. */
  lemma FinishedCode(env: Env, bsize: nat, table: seq<nat>, r: Run)
    requires Codecs(env) && |table| > 0 && r.exit.Finished?
    requires Trace(env, bsize, table, r.calls) && BlockExit(table, r) && ReturnsEnd(r)
    ensures EndsAtLastBlock(r, |table|, bsize)
  {
    var last := |table| - 1;
    assert CallOk(env, bsize, table, r.calls, last);
    assert SafeOk(r.calls[last].d, Int32(bsize));
  }

  /** A fast decoder that rejects every block. */
  const RejectAll: FastCodec := (src: seq<byte>, size: int) => Decoded(-1, [])

  /** A safe decoder that turns any block into the two bytes 7, 7 when it
      has room for them. */
  const TwoSevens: SafeCodec :=
    (src: seq<byte>, len: int, capacity: int) => if capacity >= 2 then Decoded(2, [7, 7]) else Decoded(-1, [])

  /** The count `fill` returns lands in the same variable that accumulates
      the result. Take any container of one block of size 2 whose one
      compressed byte is not yet buffered: the refill stores 1 in `ret`, the
      block decodes to 2 bytes, and the call returns 1 + 2 = 3 although 2
      bytes were written. */
  lemma RefillCountsTowardResult(h: Header, b: byte)
    requires WellFormed(h) && h.magic == MAGIC && h.bsize == 2 && h.nblock == 1
    ensures var env := Env(EncodeHeader(h) + EncodeTable([1]) + [b], [1], RejectAll, TwoSevens);
            Codecs(env) && Admissible(env, 36, 2)
            && var r := Decode(env, 36, [0, 0]);
               r.exit == Finished && r.code == 3 && r.image == [7, 7]
               && |r.calls| == 1 && r.calls[0].d.result == 2
  {
    var input := EncodeHeader(h) + EncodeTable([1]) + [b];
    var env := Env(input, [1], RejectAll, TwoSevens);
    ParseContainer(h, [1], [b]);
    ExampleCodecs(env);
    assert Supplied([1], 1) == 0;
    assert Admissible(env, 36, 2);
    var rh := Refill(env.fills, 0, 36, HEADER_SIZE, 0);
    assert rh == Ready(36, 0, 0);
    var rt := Refill(env.fills, 0, 4, TableBytes(1), 0);
    assert rt == Ready(4, 0, 0);
    DecodeLoaded(env, 36, [0, 0], rh, rt, h);
    var c := Start(h, rt);
    assert c == Cursor(0, 36, 0, 0, 0, 0);
    assert Decode(env, 36, [0, 0]) == Blocks(env, 2, [1], c, [0, 0], []);
    ExampleBlock(env, c);
  }

  /** A container laid out as an encoded header, an encoded table and the
      block bytes reads back: the header, its tag, the table and the bytes
      after the table. */
  lemma ParseContainer(h: Header, t: seq<nat>, rest: seq<byte>)
    requires WellFormed(h) && h.magic == MAGIC
    requires forall i :: 0 <= i < |t| ==> t[i] < TWO_32
    ensures var input := EncodeHeader(h) + EncodeTable(t) + rest;
            ParseHeader(input) == h && MagicOk(input)
            && Table(input, HEADER_SIZE, |t|) == t && input[HEADER_SIZE + 4 * |t|..] == rest
  {
    var eh, et := EncodeHeader(h), EncodeTable(t);
    ContainerParts(eh, et, rest);
    ParseEncodeHeader(h, et + rest);
    TableEncodeTable(eh + et + rest, HEADER_SIZE, t);
  }

  /** Where the three parts of a container sit in it. */
  lemma ContainerParts(eh: seq<byte>, et: seq<byte>, rest: seq<byte>)
    requires |eh| == HEADER_SIZE
    ensures var input := eh + et + rest;
            input == eh + (et + rest) && input[..4] == eh[..4]
            && input[HEADER_SIZE..HEADER_SIZE + |et|] == et && input[HEADER_SIZE + |et|..] == rest
  {
  }

  lemma ExampleCodecs(env: Env)
    requires env.fast == RejectAll && env.safe == TwoSevens
    ensures Codecs(env)
  {
    forall src, size ensures FastOk(RejectAll(src, size), size) {
    }
    forall src, len, capacity ensures SafeOk(TwoSevens(src, len, capacity), capacity) {
    }
  }

  /** The example's one block: the refill returns 1 into `ret`, and the safe
      decode adds its 2 bytes. */
  lemma ExampleBlock(env: Env, c: Cursor)
    requires env.fills == [1] && env.safe == TwoSevens && |env.input| == 37
    requires Codecs(env) && c == Cursor(0, 36, 0, 0, 0, 0)
    ensures InBounds(env, c) && Fits(1, 2, 0, 2)
    ensures var r := Blocks(env, 2, [1], c, [0, 0], []);
            r.exit == Finished && r.code == 3 && r.image == [7, 7]
            && |r.calls| == 1 && r.calls[0].d.result == 2
  {
    assert Supplied([1], 1) == 0;
    assert Fits(0, 2, 2, 2);
    assert Refill(env.fills, 0, 0, Int32(1), 0) == Ready(1, 1, 1);
    assert env.safe(env.input[36..37], 1, 2) == Decoded(2, [7, 7]);
    var s := BlockStep(env, 2, [1], c, [0, 0], []);
    assert s.Stop? && s.run.code == 3;
    assert Blocks(env, 2, [1], c, [0, 0], []) == s.run;
    assert Patch([0, 0], 0, [7, 7]) == [7, 7];
  }
}
