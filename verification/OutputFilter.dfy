/** The output stage: what the evaluator writes is gathered in a buffer, full buffers become buckets of a
    pending brigade, and brigades are passed on to the next filter. Buckets refer to memory of a pool that
    is cleared in mid-run. */
module OutputFilter {
  import opened Bytes

  const BUFSIZE := 8000
  const MAX_TRANSIENT_BUCKETS := 50

  /** A bucket refers to the first size bytes of mem; it does not own them. */
  datatype Bucket = Bucket(mem: array<byte>, size: nat)

  /** The buckets' bytes, in order. */
  function Flat(datas: seq<seq<byte>>): seq<byte> {
    if datas == [] then [] else Flat(datas[..|datas| - 1]) + datas[|datas| - 1]
  }

  lemma FlatSnoc(datas: seq<seq<byte>>, data: seq<byte>)
    ensures Flat(datas + [data]) == Flat(datas) + data
  {
    assert (datas + [data])[..|datas + [data]| - 1] == datas;
  }

  /** The bucket refers to memory the pool still has, and holds what it held when it was made. */
  ghost predicate Sound(b: Bucket, data: seq<byte>, live: set<array<byte>>)
    reads b.mem
  {
    b.mem in live && b.size <= b.mem.Length && b.mem[..b.size] == data
  }

  ghost predicate AllSound(bb: seq<Bucket>, datas: seq<seq<byte>>, live: set<array<byte>>)
    reads set b | b in bb :: b.mem
  {
    |bb| == |datas| && forall i :: 0 <= i < |bb| ==> Sound(bb[i], datas[i], live)
  }

  /** The next filter's view of a brigade. */
  method ReadBuckets(bb: seq<Bucket>, ghost datas: seq<seq<byte>>, ghost live: set<array<byte>>) returns (p: seq<byte>)
    requires AllSound(bb, datas, live)
    ensures p == Flat(datas)
  {
    p := [];
    var i := 0;
    while i < |bb|
      invariant 0 <= i <= |bb| && p == Flat(datas[..i])
    {
      assert Sound(bb[i], datas[i], live);
      assert datas[..i + 1] == datas[..i] + [datas[i]];
      FlatSnoc(datas[..i], datas[i]);
      p := p + bb[i].mem[..bb[i].size];
      i := i + 1;
    }
    assert datas[..i] == datas;
  }

  /** What a caller does with the filter. */
  datatype Op = Write(buf: seq<byte>) | Flush | Finish

  function BytesOf(op: Op): seq<byte> {
    if op.Write? then op.buf else []
  }

  /** Everything written, in order. */
  function Written(ops: seq<Op>): seq<byte>
    decreases |ops|
  {
    if ops == [] then [] else BytesOf(ops[0]) + Written(ops[1..])
  }

  /** What the first n operations have written up to the end of a call has been passed on. */
  predicate AllPassed(start: seq<byte>, ops: seq<Op>, n: nat, passed: seq<byte>)
    requires n <= |ops|
  {
    forall k :: 0 <= k < n && ops[k].Finish? ==> start + Written(ops[..k + 1]) <= passed
  }

  lemma PassedMore(start: seq<byte>, ops: seq<Op>, n: nat, passed: seq<byte>, passed2: seq<byte>)
    requires n < |ops| && AllPassed(start, ops, n, passed) && passed <= passed2
    requires ops[n].Finish? ==> passed2 == start + Written(ops[..n + 1])
    ensures AllPassed(start, ops, n + 1, passed2)
  {
  }

  lemma {:induction false} WrittenSnoc(ops: seq<Op>, i: nat)
    requires i < |ops|
    ensures Written(ops[..i + 1]) == Written(ops[..i]) + BytesOf(ops[i])
    decreases |ops|
  {
    if i == 0 {
      assert ops[..1][1..] == [] && ops[..0] == [];
      Assoc([], [], BytesOf(ops[0]));
    } else {
      var rest := ops[1..];
      WrittenSnoc(rest, i - 1);
      assert ops[..i + 1][1..] == rest[..i] && ops[..i][1..] == rest[..i - 1];
      Assoc(BytesOf(ops[0]), Written(rest[..i - 1]), BytesOf(rest[i - 1]));
    }
  }

  lemma Regrouped(total: seq<byte>, held: seq<byte>, buf: seq<byte>, n: nat)
    requires n <= |buf|
    ensures (total + (held + buf[..n])) + buf[n..] == (total + held) + buf
  {
    assert buf == buf[..n] + buf[n..];
  }

  class Filter {
    const transient: bool            // the pool is the filter's own
    var outbuf: array?<byte>
    var cur: nat                     // curoutbuf - outbuf
    var bb: seq<Bucket>
    var numbuckets: nat
    var passed: seq<byte>            // what the next filter has received
    ghost var live: set<array<byte>> // the pool's memory
    ghost var datas: seq<seq<byte>>  // what the pending buckets held when they were made

    ghost predicate Buckets()
      reads this, set b | b in bb :: b.mem
    {
      AllSound(bb, datas, live) && numbuckets == (if transient then |bb| else 0) && numbuckets < MAX_TRANSIENT_BUCKETS
    }

    /** The buffer is the pool's, no bucket refers to it, and it is never full. */
    ghost predicate Buffer()
      reads this
    {
      if outbuf == null then cur == 0
      else cur < BUFSIZE && outbuf.Length == BUFSIZE + 1 && outbuf in live && forall b :: b in bb ==> b.mem != outbuf
    }

    ghost predicate Valid()
      reads this, set b | b in bb :: b.mem
    {
      Buckets() && Buffer()
    }

    ghost function Held(): seq<byte>
      reads this, outbuf
      requires outbuf != null ==> cur <= outbuf.Length
    {
      if outbuf == null then [] else outbuf[..cur]
    }

    /** Bytes passed on, bytes in the pending brigade, bytes in the buffer. */
    ghost function Total(): seq<byte>
      reads this, outbuf
      requires outbuf != null ==> cur <= outbuf.Length
    {
      (passed + Flat(datas)) + Held()
    }

    constructor (transient: bool)
      ensures Valid() && Total() == [] && outbuf != null && fresh(outbuf)
    {
      this.transient := transient;
      bb, datas, numbuckets, passed, live, cur := [], [], 0, [], {}, 0;
      new;
      AllocOutbuf();
    }

    /** Memory from the pool. */
    method Alloc(n: nat) returns (mem: array<byte>)
      modifies this`live
      ensures fresh(mem) && mem.Length == n && live == old(live) + {mem}
    {
      mem := new byte[n](_ => 0);
      live := live + {mem};
    }

    method AllocOutbuf()
      requires Buckets()
      modifies this`live, this`outbuf, this`cur
      ensures Valid() && outbuf != null && fresh(outbuf) && cur == 0 && Held() == []
    {
      var mem := Alloc(BUFSIZE + 1);
      outbuf, cur := mem, 0;
    }

    /** The pool's memory is gone. */
    method ClearPool()
      requires bb == [] && datas == []
      modifies this`live, this`outbuf, this`cur, this`numbuckets
      ensures Valid() && outbuf == null && numbuckets == 0
    {
      live, outbuf, cur, numbuckets := {}, null, 0, 0;
    }

    /** The next filter reads the buckets, all of which are still in memory, and the brigade is emptied. */
    method Pass()
      requires AllSound(bb, datas, live)
      modifies this`passed, this`bb, this`datas
      ensures bb == [] && datas == [] && passed == old(passed + Flat(datas))
    {
      var p := ReadBuckets(bb, datas, live);
      passed, bb, datas := passed + p, [], [];
    }

    /** A bucket for sz bytes of the pool's memory. With the filter's own pool, the brigade is passed on and
        the pool cleared when there are too many. */
    method AppendBucket(mem: array<byte>, sz: nat)
      requires Buckets() && mem in live && sz <= mem.Length
      modifies this`passed, this`bb, this`datas, this`numbuckets, this`live, this`outbuf, this`cur
      ensures Buckets() && passed + Flat(datas) == old(passed + Flat(datas)) + old(mem[..sz])
      ensures if transient && old(numbuckets) + 1 >= MAX_TRANSIENT_BUCKETS then Valid() && outbuf == null && bb == []
              else bb == old(bb) + [Bucket(mem, sz)] && outbuf == old(outbuf) && cur == old(cur) && live == old(live)
      ensures old(passed) <= passed
    {
      FlatSnoc(datas, mem[..sz]);
      Assoc(passed, Flat(datas), mem[..sz]);
      bb, datas := bb + [Bucket(mem, sz)], datas + [mem[..sz]];
      assert forall i :: 0 <= i < |old(bb)| ==> bb[i] == old(bb)[i] && Sound(old(bb)[i], datas[i], live);
      if transient {
        numbuckets := numbuckets + 1;
        if numbuckets >= MAX_TRANSIENT_BUCKETS {
          Pass();
          ClearPool();
        }
      }
    }

    /** Copy into the buffer. */
    method Fill(s: seq<byte>)
      requires Valid() && outbuf != null && cur + |s| <= BUFSIZE
      modifies this`cur, outbuf
      ensures Buckets() && cur == old(cur) + |s| && cur < outbuf.Length && Held() == old(Held()) + s
    {
      ghost var before := Held();
      Put(outbuf, cur, s);
      cur := cur + |s|;
      assert outbuf[..cur] == before + s;
      assert forall i :: 0 <= i < |bb| ==> bb[i] in bb && Sound(bb[i], datas[i], live);
    }

    /** flush_output_buffer: the buffer's bytes become a bucket of their own, and it is used anew. */
    method FlushBuffer()
      requires Valid()
      modifies this, outbuf
      ensures Valid() && cur == 0 && passed + Flat(datas) == old(Total()) && (outbuf == null || outbuf == old(outbuf))
      ensures old(passed) <= passed
    {
      if outbuf == null || cur == 0 {
        assert (passed + Flat(datas)) + [] == passed + Flat(datas);
        return;
      }
      var out := CopyOut();
      AppendBucket(out, cur);
      cur := 0;
    }

    /** The buffer's bytes in memory of their own. */
    method CopyOut() returns (out: array<byte>)
      requires Valid() && outbuf != null
      modifies this`live
      ensures Valid() && fresh(out) && out in live && out.Length == cur && out[..cur] == Held()
    {
      out := Alloc(cur);
      Put(out, 0, outbuf[..cur]);
      assert out[..cur] == out[0..0 + cur];
    }

    /** A full buffer becomes a bucket, and a new one is allocated. */
    method TurnOver()
      requires Buckets() && outbuf != null && cur == BUFSIZE && outbuf.Length == BUFSIZE + 1 && outbuf in live
      modifies this
      ensures Valid() && outbuf != null && fresh(outbuf) && cur == 0 && passed + Flat(datas) == old(Total())
      ensures old(passed) <= passed
    {
      AppendBucket(outbuf, BUFSIZE);
      AllocOutbuf();
    }

    /** A piece larger than the buffer becomes a bucket at once. */
    method AppendLarge(s: seq<byte>)
      requires Valid() && outbuf != null && cur == 0
      modifies this
      ensures Valid() && outbuf != null && cur == 0 && (outbuf == old(outbuf) || fresh(outbuf))
      ensures passed + Flat(datas) == old(passed + Flat(datas)) + s
      ensures old(passed) <= passed
    {
      var mem := Alloc(|s|);
      Put(mem, 0, s);
      assert mem[..|s|] == mem[0..0 + |s|];
      AppendBucket(mem, |s|);
      if outbuf == null {
        AllocOutbuf();
      }
    }

    /** sed_write_output. */
    method WriteOutput(buf: seq<byte>)
      requires Valid()
      modifies this, outbuf
      ensures Valid() && outbuf != null && (outbuf == old(outbuf) || fresh(outbuf)) && Total() == old(Total()) + buf
      ensures old(passed) <= passed
    {
      if outbuf == null {
        AllocOutbuf();
      }
      if |buf| < BUFSIZE - cur {
        Assoc(passed + Flat(datas), Held(), buf);
        Fill(buf);
      } else {
        FillUp(buf);
      }
    }

    /** The bytes fill the buffer: it becomes a bucket, and what is left goes to a new one or, if it is
        large, to a bucket of its own. */
    method FillUp(buf: seq<byte>)
      requires Valid() && outbuf != null && |buf| >= BUFSIZE - cur
      modifies this, outbuf
      ensures Valid() && outbuf != null && fresh(outbuf) && Total() == old(Total()) + buf
      ensures old(passed) <= passed
    {
      var remain := BUFSIZE - cur;
      var rest := buf[remain..];
      Regrouped(passed + Flat(datas), Held(), buf, remain);
      Fill(buf[..remain]);
      TurnOver();
      Assoc([], [], rest);
      if |rest| >= BUFSIZE {
        AppendLarge(rest);
        Assoc([], [], passed + Flat(datas));
      } else {
        Fill(rest);
      }
    }

    /** The end of one call of the output filter, which has its own pool: everything written has been passed on. */
    method FinishCall()
      requires Valid() && transient
      modifies this, outbuf
      ensures Valid() && outbuf == null && bb == [] && passed == Total() == old(Total())
      ensures old(passed) <= passed
    {
      FlushBuffer();
      if bb != [] {
        Pass();
      }
      assert datas == [] && passed + [] == passed;
      ClearPool();
    }

    method Perform(op: Op)
      requires Valid() && (transient || !op.Finish?)
      modifies this, outbuf
      ensures Valid() && (outbuf == null || outbuf == old(outbuf) || fresh(outbuf))
      ensures Total() == old(Total()) + BytesOf(op)
      ensures old(passed) <= passed
      ensures (op.Flush? ==> cur == 0) && (op.Finish? ==> passed == Total() && outbuf == null)
    {
      Assoc([], [], Total());
      if op.Write? {
        WriteOutput(op.buf);
      } else if op.Flush? {
        FlushBuffer();
        Assoc([], [], passed + Flat(datas));
      } else {
        FinishCall();
      }
    }

    /** The first n operations have been performed since the bytes start had been written. */
    ghost predicate Upto(start: seq<byte>, ops: seq<Op>, n: nat)
      reads this, outbuf, set b | b in bb :: b.mem
    {
      && Valid() && n <= |ops| && Total() == start + Written(ops[..n]) && AllPassed(start, ops, n, passed)
      && (n > 0 && ops[n - 1].Finish? ==> passed == Total() && outbuf == null)
      && (n > 0 && ops[n - 1].Flush? ==> cur == 0)
    }

    method Turn(ops: seq<Op>, n: nat, ghost start: seq<byte>)
      requires n < |ops| && Upto(start, ops, n) && (transient || !ops[n].Finish?)
      modifies this, outbuf
      ensures Upto(start, ops, n + 1) && old(passed) <= passed
      ensures outbuf == null || outbuf == old(outbuf) || fresh(outbuf)
    {
      WrittenSnoc(ops, n);
      Assoc(start, Written(ops[..n]), BytesOf(ops[n]));
      Perform(ops[n]);
      PassedMore(start, ops, n, old(passed), passed);
    }

    /** Any sequence of writes, flushes and ends of calls. What was written before a call ended has been passed
        on, in order; behind a flush nothing is left in the buffer. */
    method Use(ops: seq<Op>)
      requires Valid() && (transient || Finish !in ops)
      modifies this, outbuf
      ensures Valid() && Total() == old(Total()) + Written(ops) && old(passed) <= passed
      ensures AllPassed(old(Total()), ops, |ops|, passed)
      ensures ops != [] && ops[|ops| - 1].Finish? ==> passed == Total() && outbuf == null
      ensures ops != [] && ops[|ops| - 1].Flush? ==> cur == 0
    {
      var i := 0;
      ghost var start := Total();
      Assoc([], [], start);
      assert ops[..0] == [];
      while i < |ops|
        invariant 0 <= i <= |ops| && Upto(start, ops, i) && old(passed) <= passed
        invariant outbuf == null || outbuf == old(outbuf) || fresh(outbuf)
      {
        Turn(ops, i, start);
        i := i + 1;
      }
      assert ops[..i] == ops;
    }
  }
}
