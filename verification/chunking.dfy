/** How the input arrives does not change what is decoded. Two calls over
    the same buffer and codecs that differ only in the starting count and
    in what `fill` reports take the same exit, as long as neither ran out of
    input. The codecs see only the bytes buffered at each call; because
    they read no further than a well-formed block, the two calls make the
    same codec calls and leave the same output, except that a fast decode
    that fails may have read past what was buffered, so its own report and
    output can differ. The returned value can differ as well, because
    `fill`'s count lands in `ret`. */
module Unlz4Chunking {
  import opened Bytes
  import opened Lz4pHeader
  import opened InputRefill
  import opened BlockCodec
  import opened Unlz4

  /** The run did not end for want of input. */
  predicate Fed(r: Run) {
    !r.exit.ScriptEnded? && !r.exit.InputOverrun?
  }

  /** The same buffer and the same codecs; `fill` may differ. */
  ghost predicate SameSource(e1: Env, e2: Env) {
    e1.input == e2.input && e1.fast == e2.fast && e1.safe == e2.safe
  }

  /** Two runs take the same exit and make as many codec calls. They
      agree on every call and on the output, except after a fast-decode
      failure, where only the calls before the failing one agree. */
  predicate SameOutcome(r1: Run, r2: Run) {
    r1.exit == r2.exit && |r1.calls| == |r2.calls|
    && if r1.exit.FastFailed? then
         |r1.calls| > 0 && r1.calls[..|r1.calls| - 1] == r2.calls[..|r2.calls| - 1]
       else r1.image == r2.image && r1.calls == r2.calls
  }

  /** Two cursors at the same block and the same input and output offsets. */
  predicate SamePlace(c1: Cursor, c2: Cursor) {
    c1.n == c2.n && c1.pos == c2.pos && c1.out == c2.out
  }

  /** One pass of the block loop, run under two refill histories. */
  lemma StepChunking(e1: Env, e2: Env, bsize: nat, table: seq<nat>, c1: Cursor, c2: Cursor,
                     image: seq<byte>, calls: seq<Call>)
    requires Codecs(e1) && Codecs(e2) && SameSource(e1, e2)
    requires InBounds(e1, c1) && InBounds(e2, c2) && SamePlace(c1, c2) && |calls| == c1.n && c1.n < |table|
    requires Fits(|table| - c1.n, bsize, c1.out, |image|)
    ensures var s1, s2 := BlockStep(e1, bsize, table, c1, image, calls), BlockStep(e2, bsize, table, c2, image, calls);
            (s1.Stop? && s2.Stop? && Fed(s1.run) && Fed(s2.run) ==> SameOutcome(s1.run, s2.run))
            && (s1.Continue? && s2.Continue? ==>
                  SamePlace(s1.c, s2.c) && s1.image == s2.image && s1.calls == s2.calls
                  && |s1.calls| == s1.c.n)
            && (s1.Continue? && s2.Stop? ==> !Fed(s2.run))
            && (s1.Stop? && s2.Continue? ==> !Fed(s1.run))
  {
    var size := Int32(table[c1.n]);
    var f1 := Refill(e1.fills, c1.next, c1.inLen, size, c1.ret);
    var f2 := Refill(e2.fills, c2.next, c2.inLen, size, c2.ret);
    if f1.Ready? && f2.Ready? {
      if c1.n < |table| - 1 {
        FastChunking(e1, e2, bsize, table, c1, c2, image, calls);
      } else {
        SafeChunking(e1, e2, bsize, table, c1, c2, image, calls);
      }
    }
  }

  /** `StepChunking` for a non-final block whose refills both succeeded. */
  lemma FastChunking(e1: Env, e2: Env, bsize: nat, table: seq<nat>, c1: Cursor, c2: Cursor,
                     image: seq<byte>, calls: seq<Call>)
    requires Codecs(e1) && Codecs(e2) && SameSource(e1, e2)
    requires InBounds(e1, c1) && InBounds(e2, c2) && SamePlace(c1, c2) && |calls| == c1.n && c1.n < |table| - 1
    requires Fits(|table| - c1.n, bsize, c1.out, |image|)
    requires Refill(e1.fills, c1.next, c1.inLen, Int32(table[c1.n]), c1.ret).Ready?
    requires Refill(e2.fills, c2.next, c2.inLen, Int32(table[c2.n]), c2.ret).Ready?
    ensures var s1, s2 := BlockStep(e1, bsize, table, c1, image, calls), BlockStep(e2, bsize, table, c2, image, calls);
            s1.Stop? == s2.Stop?
            && (s1.Stop? ==> SameOutcome(s1.run, s2.run))
            && (s1.Continue? ==>
                  SamePlace(s1.c, s2.c) && s1.image == s2.image && s1.calls == s2.calls
                  && |s1.calls| == s1.c.n)
  {
    var size := Int32(table[c1.n]);
    var w1, w2 := Window(e1, c1, size), Window(e2, c2, size);
    var d1, d2 := e1.fast(w1, Int32(bsize)), e1.fast(w2, Int32(bsize));
    var s1 := BlockStep(e1, bsize, table, c1, image, calls);
    var s2 := BlockStep(e2, bsize, table, c2, image, calls);
    assert s1.Stop? <==> d1.result < 0 || d1.result != size;
    assert s2.Stop? <==> d2.result < 0 || d2.result != size;
    if 0 <= size {
      PrefixOfWindows(e1.input, c1.pos, |w1|, |w2|, size);
    }
    assert FastReads(e1.fast, w1, w2, Int32(bsize)) && FastReads(e1.fast, w2, w1, Int32(bsize));
    if !s1.Stop? {
      assert d2 == d1;
      assert s1.c.pos == s2.c.pos == c1.pos + size;
      assert s1.image == s2.image == Patch(image, c1.out, d1.bytes);
    } else {
      assert s1.run.calls == calls + [Call(c1.n, c1.pos, c1.out, d1)];
      assert s2.run.calls == calls + [Call(c1.n, c1.pos, c1.out, d2)];
      assert s1.run.calls[..|calls|] == calls == s2.run.calls[..|calls|];
    }
  }

  /** `StepChunking` for the final block once its refills both succeeded. */
  lemma SafeChunking(e1: Env, e2: Env, bsize: nat, table: seq<nat>, c1: Cursor, c2: Cursor,
                     image: seq<byte>, calls: seq<Call>)
    requires Codecs(e1) && Codecs(e2) && SameSource(e1, e2)
    requires InBounds(e1, c1) && InBounds(e2, c2) && SamePlace(c1, c2) && |calls| == c1.n && c1.n == |table| - 1
    requires Fits(|table| - c1.n, bsize, c1.out, |image|)
    requires Refill(e1.fills, c1.next, c1.inLen, Int32(table[c1.n]), c1.ret).Ready?
    requires Refill(e2.fills, c2.next, c2.inLen, Int32(table[c2.n]), c2.ret).Ready?
    ensures var s1, s2 := BlockStep(e1, bsize, table, c1, image, calls), BlockStep(e2, bsize, table, c2, image, calls);
            s1.Stop? && s2.Stop? && SameOutcome(s1.run, s2.run)
  {
    var size := Int32(table[c1.n]);
    var w1, w2 := Window(e1, c1, size), Window(e2, c2, size);
    PrefixOfWindows(e1.input, c1.pos, |w1|, |w2|, Room(size));
    assert SafeReads(e1.safe, w1, w2, size, Int32(bsize));
    var d := e1.safe(w1, size, Int32(bsize));
    assert e1.safe(w2, size, Int32(bsize)) == d;
    var s1 := BlockStep(e1, bsize, table, c1, image, calls);
    var s2 := BlockStep(e2, bsize, table, c2, image, calls);
    assert s1.run.calls == s2.run.calls == calls + [Call(c1.n, c1.pos, c1.out, d)];
    assert s1.run.image == s2.run.image == Patch(image, c1.out, d.bytes);
  }

  /** Two windows on the input from the same offset agree on any prefix
      both hold. */
  lemma PrefixOfWindows(input: seq<byte>, pos: nat, a1: nat, a2: nat, k: nat)
    requires pos + a1 <= |input| && pos + a2 <= |input| && k <= a1 && k <= a2
    ensures Agree(k, input[pos..pos + a1], input[pos..pos + a2])
  {
    assert input[pos..pos + a1][..k] == input[pos..pos + k];
    assert input[pos..pos + a2][..k] == input[pos..pos + k];
  }

  /** The block loop, run under two refill histories from the same place. */
  lemma {:induction false} BlocksChunking(e1: Env, e2: Env, bsize: nat, table: seq<nat>,
                                          c1: Cursor, c2: Cursor, image: seq<byte>, calls: seq<Call>)
    requires Codecs(e1) && Codecs(e2) && SameSource(e1, e2)
    requires InBounds(e1, c1) && InBounds(e2, c2) && SamePlace(c1, c2) && |calls| == c1.n && c1.n <= |table|
    requires Fits(|table| - c1.n, bsize, c1.out, |image|)
    ensures var r1, r2 := Blocks(e1, bsize, table, c1, image, calls), Blocks(e2, bsize, table, c2, image, calls);
            Fed(r1) && Fed(r2) ==> SameOutcome(r1, r2)
    decreases |table| - c1.n
  {
    if c1.n < |table| {
      StepChunking(e1, e2, bsize, table, c1, c2, image, calls);
      var s1 := BlockStep(e1, bsize, table, c1, image, calls);
      var s2 := BlockStep(e2, bsize, table, c2, image, calls);
      if s1.Continue? && s2.Continue? {
        BlocksChunking(e1, e2, bsize, table, s1.c, s2.c, s1.image, s1.calls);
      }
    }
  }

  /** Feeding the container in any pieces, or all at once, decodes the same:
      two calls over the same buffer and codecs that both got all the input
      they asked for take the same exit and make as many codec calls; they
      make the same calls and leave the same output, except after a failing
      fast decode, where only the calls before it agree. */
  lemma DecodeChunking(e1: Env, e2: Env, inLen1: int, inLen2: int, image: seq<byte>)
    requires Codecs(e1) && Codecs(e2) && SameSource(e1, e2)
    requires Admissible(e1, inLen1, |image|) && Admissible(e2, inLen2, |image|)
    ensures var r1, r2 := Decode(e1, inLen1, image), Decode(e2, inLen2, image);
            Fed(r1) && Fed(r2) ==> SameOutcome(r1, r2)
  {
    var h1 := Refill(e1.fills, 0, inLen1, HEADER_SIZE, 0);
    var h2 := Refill(e2.fills, 0, inLen2, HEADER_SIZE, 0);
    if h1.Ready? && h2.Ready? && MagicOk(e1.input) {
      HeaderChunking(e1, e2, inLen1, inLen2, image, h1, h2);
    } else if h1.Ready? && h2.Ready? {
      assert Decode(e1, inLen1, image) == Run(BadMagic, BAD_MAGIC, image, []);
      assert Decode(e2, inLen2, image) == Run(BadMagic, BAD_MAGIC, image, []);
    } else if !h1.Ready? {
      assert !Fed(Decode(e1, inLen1, image));
    } else {
      assert !Fed(Decode(e2, inLen2, image));
    }
  }

  /** `DecodeChunking` once both calls have a good header in. */
  lemma HeaderChunking(e1: Env, e2: Env, inLen1: int, inLen2: int, image: seq<byte>, h1: Refilled, h2: Refilled)
    requires Codecs(e1) && Codecs(e2) && SameSource(e1, e2)
    requires Admissible(e1, inLen1, |image|) && Admissible(e2, inLen2, |image|)
    requires h1 == Refill(e1.fills, 0, inLen1, HEADER_SIZE, 0) && h1.Ready?
    requires h2 == Refill(e2.fills, 0, inLen2, HEADER_SIZE, 0) && h2.Ready?
    requires MagicOk(e1.input)
    ensures var r1, r2 := Decode(e1, inLen1, image), Decode(e2, inLen2, image);
            Fed(r1) && Fed(r2) ==> SameOutcome(r1, r2)
  {
    RefillConserves(e1.fills, 0, inLen1, HEADER_SIZE, 0);
    var h := ParseHeader(e1.input);
    var t1 := Refill(e1.fills, h1.next, h1.inLen - HEADER_SIZE, TableBytes(h.nblock), h1.ret);
    var t2 := Refill(e2.fills, h2.next, h2.inLen - HEADER_SIZE, TableBytes(h.nblock), h2.ret);
    if t1.Ready? && t2.Ready? {
      LoadedChunking(e1, e2, inLen1, inLen2, image, h1, h2, t1, t2, h);
    } else if !t1.Ready? {
      TableStarved(e1, inLen1, image, h1);
    } else {
      TableStarved(e2, inLen2, image, h2);
    }
  }

  /** A call whose table refill fails ends for want of input. */
  lemma TableStarved(e: Env, inLen: int, image: seq<byte>, rh: Refilled)
    requires Codecs(e) && Admissible(e, inLen, |image|)
    requires rh == Refill(e.fills, 0, inLen, HEADER_SIZE, 0) && rh.Ready? && MagicOk(e.input)
    requires |e.input| >= HEADER_SIZE
    requires !Refill(e.fills, rh.next, rh.inLen - HEADER_SIZE, TableBytes(ParseHeader(e.input).nblock), rh.ret).Ready?
    ensures !Fed(Decode(e, inLen, image))
  {
    RefillConserves(e.fills, 0, inLen, HEADER_SIZE, 0);
    assert Decode(e, inLen, image) == LoadTable(e, ParseHeader(e.input), rh, image);
  }

  /** `DecodeChunking` once both calls have the header and the table in. */
  lemma LoadedChunking(e1: Env, e2: Env, inLen1: int, inLen2: int, image: seq<byte>,
                       h1: Refilled, h2: Refilled, t1: Refilled, t2: Refilled, h: Header)
    requires Codecs(e1) && Codecs(e2) && SameSource(e1, e2)
    requires Admissible(e1, inLen1, |image|) && Admissible(e2, inLen2, |image|)
    requires h1 == Refill(e1.fills, 0, inLen1, HEADER_SIZE, 0) && h1.Ready?
    requires h2 == Refill(e2.fills, 0, inLen2, HEADER_SIZE, 0) && h2.Ready?
    requires MagicOk(e1.input) && |e1.input| >= HEADER_SIZE && h == ParseHeader(e1.input)
    requires t1 == Refill(e1.fills, h1.next, h1.inLen - HEADER_SIZE, TableBytes(h.nblock), h1.ret) && t1.Ready?
    requires t2 == Refill(e2.fills, h2.next, h2.inLen - HEADER_SIZE, TableBytes(h.nblock), h2.ret) && t2.Ready?
    ensures var r1, r2 := Decode(e1, inLen1, image), Decode(e2, inLen2, image);
            Fed(r1) && Fed(r2) ==> SameOutcome(r1, r2)
  {
    DecodeLoaded(e1, inLen1, image, h1, t1, h);
    DecodeLoaded(e2, inLen2, image, h2, t2, h);
    var table := Table(e1.input, HEADER_SIZE, h.nblock);
    BlocksChunking(e1, e2, h.bsize, table, Start(h, t1), Start(h, t2), image, []);
  }
}
