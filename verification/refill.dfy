/** The refill guard run before each parsing step: while fewer than `size`
    bytes are buffered, ask the caller's `fill` for more. The opaque `fill`
    callback is modelled by the successive integer results it returns, a
    finite script `fills`; `next` is the index of the next result to use. */
module InputRefill {
  import opened Bytes

  /** How a refill ends: the threshold is met (with the new buffered count,
      the value left in the shared `ret` variable and the next script index),
      `fill` reported failure, or the script ran out while more was needed. */
  datatype Refilled = Ready(inLen: int, ret: int, next: nat) | Overrun | Exhausted

  /** The bytes the script reports from entry `from` on, up to its first failure. */
  function Supplied(fills: seq<int>, from: nat): nat
    decreases |fills| - from
  {
    if from >= |fills| || fills[from] < 0 then 0 else fills[from] + Supplied(fills, from + 1)
  }

  /** The refill loop: `fill` is called only while `inLen < size`; each
      result lands in `ret`; a negative one ends the loop in failure, any
      other is added to `inLen`. */
  function Refill(fills: seq<int>, next: nat, inLen: int, size: int, ret: int): (r: Refilled)
    requires next <= |fills|
    ensures r.Ready? ==> r.inLen >= size && r.inLen >= inLen && next <= r.next <= |fills|
    decreases |fills| - next
  {
    if inLen >= size then Ready(inLen, ret, next)
    else if next == |fills| then Exhausted
    else if fills[next] < 0 then Overrun
    else Refill(fills, next + 1, inLen + fills[next], size, fills[next])
  }

  /** A refill only moves bytes from what the script still reports into the
      buffered count. */
  lemma {:induction false} RefillConserves(fills: seq<int>, next: nat, inLen: int, size: int, ret: int)
    requires next <= |fills|
    ensures var r := Refill(fills, next, inLen, size, ret);
            r.Ready? ==> r.inLen + Supplied(fills, r.next) == inLen + Supplied(fills, next)
    decreases |fills| - next
  {
    if inLen < size && next < |fills| && fills[next] >= 0 {
      RefillConserves(fills, next + 1, inLen + fills[next], size, fills[next]);
    }
  }

  /** When the script reports no more bytes, a refill that succeeds found
      the threshold already met and asked nothing of `fill`. */
  lemma {:induction false} NothingSupplied(fills: seq<int>, next: nat, inLen: int, size: int, ret: int)
    requires next <= |fills| && Supplied(fills, next) == 0
    ensures Refill(fills, next, inLen, size, ret).Ready? ==>
              Refill(fills, next, inLen, size, ret) == Ready(inLen, ret, next)
    decreases |fills| - next
  {
    if inLen < size && next < |fills| && fills[next] >= 0 {
      NothingSupplied(fills, next + 1, inLen + fills[next], size, fills[next]);
    }
  }

  /** The refill macro as a loop over the script. */
  method CheckInputSize(fills: seq<int>, next: nat, inLen: int, size: int, ret: int)
    returns (r: Refilled)
    requires next <= |fills|
    ensures r == Refill(fills, next, inLen, size, ret)
  {
    var k, avail, last := next, inLen, ret;
    while avail < size
      invariant next <= k <= |fills|
      invariant Refill(fills, k, avail, size, last) == Refill(fills, next, inLen, size, ret)
      decreases |fills| - k
    {
      if k == |fills| {
        return Exhausted;
      }
      last := fills[k];
      k := k + 1;
      if last < 0 {
        return Overrun;
      }
      avail := avail + last;
    }
    return Ready(avail, last, k);
  }

  /** Before script entry `j` is used, the buffered count is the initial one
      plus everything `fill` returned so far. */
  ghost predicate FailsAt(fills: seq<int>, next: nat, inLen: int, size: int, j: nat)
    requires next <= j < |fills|
  {
    fills[j] < 0 && (forall i :: next <= i < j ==> fills[i] >= 0)
    && inLen + Sum(fills[next..j]) < size
  }

  /** The refill fails exactly when some call of `fill` returns a negative
      value while every earlier call succeeded and the threshold was still
      unmet. */
  lemma {:induction false} RefillOverrunIff(fills: seq<int>, next: nat, inLen: int, size: int, ret: int)
    requires next <= |fills|
    ensures Refill(fills, next, inLen, size, ret).Overrun?
        <==> exists j :: next <= j < |fills| && FailsAt(fills, next, inLen, size, j)
    decreases |fills| - next
  {
    if inLen >= size {
      forall j | next <= j < |fills|
        ensures !FailsAt(fills, next, inLen, size, j)
      {
        MetNeverFails(fills, next, inLen, size, j);
      }
    } else if next == |fills| {
    } else if fills[next] < 0 {
      assert fills[next..next] == [];
      assert FailsAt(fills, next, inLen, size, next);
    } else {
      var f := fills[next];
      var later, after := inLen + f, next + 1;
      RefillOverrunIff(fills, after, later, size, f);
      assert Refill(fills, next, inLen, size, ret) == Refill(fills, after, later, size, f);
      if Refill(fills, after, later, size, f).Overrun? {
        var j :| after <= j < |fills| && FailsAt(fills, after, later, size, j);
        FailsAtShift(fills, next, inLen, size, j);
        assert FailsAt(fills, next, inLen, size, j);
      } else {
        forall j | next <= j < |fills|
          ensures !FailsAt(fills, next, inLen, size, j)
        {
          FailsAtShift(fills, next, inLen, size, j);
        }
      }
    }
  }

  /** Once the threshold is met no later failure can be reached. */
  lemma MetNeverFails(fills: seq<int>, next: nat, inLen: int, size: int, j: nat)
    requires next <= j < |fills| && inLen >= size
    ensures !FailsAt(fills, next, inLen, size, j)
  {
    if forall i :: next <= i < j ==> fills[i] >= 0 {
      assert forall i :: 0 <= i < |fills[next..j]| ==> fills[next..j][i] == fills[next + i];
      assert Sum(fills[next..j]) >= 0;
    }
  }

  /** Using one successful result moves the failure point's bookkeeping along. */
  lemma FailsAtShift(fills: seq<int>, next: nat, inLen: int, size: int, j: nat)
    requires next <= j < |fills| && fills[next] >= 0
    ensures FailsAt(fills, next, inLen, size, j) ==> j > next
    ensures j > next ==> (FailsAt(fills, next, inLen, size, j)
                          <==> FailsAt(fills, next + 1, inLen + fills[next], size, j))
  {
    if j > next {
      SumFront(fills[next..j]);
      assert fills[next..j][1..] == fills[next + 1..j];
    }
  }

  /** Nothing is asked of `fill` when the threshold is already met. When the
      refill succeeds otherwise, every result used was non-negative and `ret`
      holds the last of them. */
  lemma {:induction false} RefillUses(fills: seq<int>, next: nat, inLen: int, size: int, ret: int)
    requires next <= |fills|
    ensures inLen >= size <==> Refill(fills, next, inLen, size, ret) == Ready(inLen, ret, next)
    ensures var r := Refill(fills, next, inLen, size, ret);
      r.Ready? ==> (forall i :: next <= i < r.next ==> fills[i] >= 0)
                   && (r.next == next ==> r.ret == ret)
                   && (r.next > next ==> r.ret == fills[r.next - 1])
    decreases |fills| - next
  {
    if inLen < size && next < |fills| && fills[next] >= 0 {
      RefillUses(fills, next + 1, inLen + fills[next], size, fills[next]);
    }
  }

  /** When the refill succeeds, the new count is the old one plus every
      result used, and `fill` was called only while the count was below the
      threshold. */
  lemma {:induction false} RefillReady(fills: seq<int>, next: nat, inLen: int, size: int, ret: int)
    requires next <= |fills|
    ensures var r := Refill(fills, next, inLen, size, ret);
      r.Ready? ==> r.inLen == inLen + Sum(fills[next..r.next])
                   && forall i :: next <= i < r.next ==> inLen + Sum(fills[next..i]) < size
    decreases |fills| - next
  {
    var r := Refill(fills, next, inLen, size, ret);
    if inLen < size && next < |fills| && fills[next] >= 0 {
      var f := fills[next];
      RefillReady(fills, next + 1, inLen + f, size, f);
      if r.Ready? {
        SumFront(fills[next..r.next]);
        assert fills[next..r.next][1..] == fills[next + 1..r.next];
        forall i | next <= i < r.next
          ensures inLen + Sum(fills[next..i]) < size
        {
          if i > next {
            SumFront(fills[next..i]);
            assert fills[next..i][1..] == fills[next + 1..i];
          } else {
            assert fills[next..i] == [];
          }
        }
      }
    }
  }
}
