/** Concrete traces run through CacheSpec.Play, worked out record by record. */
module Scenarios {
  import opened AddressDecode
  import opened Rows
  import opened CacheSpec
  import CacheProperties

  const NoCounts := Counters(0, 0, 0)

  /** A run on one set passes through `states`, with `counts`, when each record takes one state
      to the next. */
  lemma {:induction false} SetPlayThrough(s0: SetState, t: seq<Record>, numSets: nat, rp: Replacement, wp: WritePolicy,
                                          states: seq<SetState>, counts: seq<Counters>)
    requires WellShaped(s0) && numSets >= 1
    requires |states| == |t| + 1 && |counts| == |t| + 1 && states[0] == s0 && counts[0] == NoCounts
    requires forall k :: 0 <= k <= |t| ==> WellShaped(states[k])
    requires forall k :: 0 <= k < |t| ==>
               Access(states[k], counts[k], t[k].op, Tag(t[k].address, numSets), rp, wp) == (states[k + 1], counts[k + 1])
    ensures SetPlay(s0, NoCounts, t, numSets, rp, wp) == (states[|t|], counts[|t|])
    decreases |t|
  {
    if t != [] {
      var n := |t| - 1;
      SetPlayThrough(s0, t[..n], numSets, rp, wp, states[..n + 1], counts[..n + 1]);
    }
  }

  /** W 0x0, R 0x0, W 0x400 on a direct-mapped 1024-byte cache (16 sets of one way). Both
      addresses fall into set 0, with tags 0 and 1. Tag 0 is the empty marker, so the first two
      records hit the empty way; only the third misses, filling the way that is still marked
      empty. Under write-back no dirty block is ever evicted, so memory is never written; under
      write-through both 'W' records write it. */
  lemma DirectMappedRun(rp: Replacement, wp: WritePolicy)
    ensures 1024 / BlockSize / 1 == 16
    ensures var r := Play(seq(16, i => EmptySet(1)), NoCounts, [Record(Write, 0x0), Record(Read, 0x0), Record(Write, 0x400)], rp, wp);
      && r.1 == Counters(1, 1, if wp == WriteThrough then 2 else 0)
      && r.0[0].tags == [1] && r.0[0].dirty == [wp == WriteBack]
      && forall i :: 1 <= i < 16 ==> r.0[i] == EmptySet(1)
  {
    var t := [Record(Write, 0x0), Record(Read, 0x0), Record(Write, 0x400)];
    var sets := seq(16, i => EmptySet(1));
    DirectMappedOnSetZero(t, sets, rp, wp);
    DirectMappedSetPlay(t, EmptySet(1), rp, wp);
    DirectMappedSteps(rp, wp);
  }

  /** The records of DirectMappedRun all fall into set 0, so the run is their run on set 0. */
  lemma DirectMappedOnSetZero(t: seq<Record>, sets: seq<SetState>, rp: Replacement, wp: WritePolicy)
    requires t == [Record(Write, 0x0), Record(Read, 0x0), Record(Write, 0x400)]
    requires sets == seq(16, i => EmptySet(1))
    ensures AllWellShaped(sets) && sets[0] == EmptySet(1)
    ensures var a := SetPlay(sets[0], NoCounts, t, 16, rp, wp);
      Play(sets, NoCounts, t, rp, wp) == (sets[0 := a.0], a.1)
  {
    assert |sets| == 16 && sets[0] == EmptySet(1);
    assert AllWellShaped(sets);
    forall k | 0 <= k < |t|
      ensures SetIndex(t[k].address, |sets|) == 0
    {
      assert t[k].address == 0x0 || t[k].address == 0x400;
    }
    CacheProperties.PlayOnOneSet(sets, NoCounts, t, 0, rp, wp);
  }

  /** The records of DirectMappedRun applied to set 0 in turn. */
  lemma DirectMappedSetPlay(t: seq<Record>, e: SetState, rp: Replacement, wp: WritePolicy)
    requires t == [Record(Write, 0x0), Record(Read, 0x0), Record(Write, 0x400)] && e == EmptySet(1)
    ensures var r1 := Access(e, NoCounts, Write, 0, rp, wp);
      var r2 := Access(r1.0, r1.1, Read, 0, rp, wp);
      var r3 := Access(r2.0, r2.1, Write, 1, rp, wp);
      SetPlay(e, NoCounts, t, 16, rp, wp) == r3
  {
    var r1 := Access(e, NoCounts, Write, 0, rp, wp);
    var r2 := Access(r1.0, r1.1, Read, 0, rp, wp);
    var r3 := Access(r2.0, r2.1, Write, 1, rp, wp);
    var states, counts := [e, r1.0, r2.0, r3.0], [NoCounts, r1.1, r2.1, r3.1];
    forall k | 0 <= k < 3
      ensures Access(states[k], counts[k], t[k].op, Tag(t[k].address, 16), rp, wp) == (states[k + 1], counts[k + 1])
    {
      if k == 0 {
        assert t[k] == Record(Write, 0x0) && Tag(0x0, 16) == 0;
        assert states[k] == e && counts[k] == NoCounts && states[k + 1] == r1.0 && counts[k + 1] == r1.1;
      } else if k == 1 {
        assert t[k] == Record(Read, 0x0) && Tag(0x0, 16) == 0;
        assert states[k] == r1.0 && counts[k] == r1.1 && states[k + 1] == r2.0 && counts[k + 1] == r2.1;
      } else if k == 2 {
        assert t[k] == Record(Write, 0x400) && Tag(0x400, 16) == 1;
        assert states[k] == r2.0 && counts[k] == r2.1 && states[k + 1] == r3.0 && counts[k + 1] == r3.1;
      }
    }
    SetPlayThrough(e, t, 16, rp, wp, states, counts);
  }

  /** The three accesses of DirectMappedRun, on set 0, one by one. */
  lemma DirectMappedSteps(rp: Replacement, wp: WritePolicy)
    ensures var r1 := Access(EmptySet(1), NoCounts, Write, 0, rp, wp);
      var r2 := Access(r1.0, r1.1, Read, 0, rp, wp);
      var r3 := Access(r2.0, r2.1, Write, 1, rp, wp);
      && r1.0.tags == [0] && r1.0.dirty == [wp == WriteBack]
      && r1.1 == Counters(0, 0, if wp == WriteThrough then 1 else 0)
      && r2.0.tags == [0] && r2.0.dirty == r1.0.dirty && r2.1 == r1.1
      && r3.0.tags == [1] && r3.0.dirty == r1.0.dirty
      && r3.1 == Counters(1, 1, if wp == WriteThrough then 2 else 0)
  {
    var e := EmptySet(1);
    assert e.tags == [0] && e.dirty == [false];
    WriteOnEmptyWay(e, NoCounts, rp, wp);
    var r1 := Access(e, NoCounts, Write, 0, rp, wp);
    IndexOfIs(r1.0.tags, 0, 0);
    var r2 := Access(r1.0, r1.1, Read, 0, rp, wp);
    WriteFillsEmptyWay(r2.0, r2.1, 1, rp, wp);
  }

  /** A 'W' of tag 0 to a one-way set whose way is empty counts as a hit on that way. */
  lemma WriteOnEmptyWay(s: SetState, c: Counters, rp: Replacement, wp: WritePolicy)
    requires WellShaped(s) && s.tags == [0]
    ensures var r := Access(s, c, Write, 0, rp, wp);
      && r.0.tags == [0] && r.0.dirty == (if wp == WriteBack then [true] else s.dirty)
      && r.1 == c.(memoryWrites := c.memoryWrites + (if wp == WriteThrough then 1 else 0))
  {
    IndexOfIs(s.tags, 0, 0);
    assert s.dirty[0 := true] == [true];
  }

  /** A 'W' of a tag other than 0 to a one-way set whose way is empty fills that way. */
  lemma WriteFillsEmptyWay(s: SetState, c: Counters, tag: nat, rp: Replacement, wp: WritePolicy)
    requires WellShaped(s) && s.tags == [0] && tag != 0
    ensures var r := Access(s, c, Write, tag, rp, wp);
      && r.0.tags == [tag] && r.0.dirty == (if wp == WriteBack then [true] else s.dirty)
      && r.1 == Counters(c.misses + 1, c.memoryReads + 1, c.memoryWrites + (if wp == WriteThrough then 1 else 0))
  {
    IndexOfIs(s.tags, tag, 1);
    IndexOfIs(s.tags, 0, 0);
    assert s.dirty[0 := true] == [true];
  }

  /** Reads of blocks 1, 2, 1, 3, 2, 4 on a 128-byte 2-way cache, which has a single set:
      each address is its block number times 64. */
  const Reads124: seq<Record> :=
    [Record(Read, 0x40), Record(Read, 0x80), Record(Read, 0x40), Record(Read, 0xC0), Record(Read, 0x80), Record(Read, 0x100)]

  /** A set holding tags t with lru stamps l and fifo stamps f, and no dirty way. */
  function Two(t: seq<nat>, l: seq<nat>, f: seq<nat>): (s: SetState)
    requires |t| == 2 && |l| == 2 && |f| == 2
    ensures WellShaped(s) && s.tags == t
  {
    SetState(t, l, f, [false, false])
  }

  /** The refresh stamp of a 2-way set: one above the larger stamp. */
  lemma TouchPair(a: nat, b: nat, way: nat)
    requires way < 2
    ensures Touch([a, b], way) == [a, b][way := (if a >= b then a else b) + 1]
  {
    assert MaxOfFirst([a, b], 1) == a;
  }

  /** Under Fifo, both evictions take way 0 (the victim comes from the never-stamped lru row),
      so block 3, the newest block, is the one block 4 evicts; four misses, ending with tags
      [4, 2]. */
  lemma FifoRun()
    ensures 128 / BlockSize / 2 == 1
    ensures Play([EmptySet(2)], NoCounts, Reads124, Fifo, WriteThrough)
            == ([Two([4, 2], [0, 0], [3, 2])], Counters(4, 4, 0))
  {
    var t, e := Reads124, EmptySet(2);
    var s4 := Two([4, 2], [0, 0], [3, 2]);
    FifoSetPlay(t, e);
    CacheProperties.PlayOnOneSet([e], NoCounts, t, 0, Fifo, WriteThrough);
    assert [e][0 := s4] == [s4];
  }

  /** The records of Reads124, one by one, on the single Fifo set. */
  lemma FifoSetPlay(t: seq<Record>, e: SetState)
    requires t == Reads124 && e == EmptySet(2)
    ensures SetPlay(e, NoCounts, t, 1, Fifo, WriteThrough) == (Two([4, 2], [0, 0], [3, 2]), Counters(4, 4, 0))
  {
    var s1, s2 := Two([1, 0], [0, 0], [1, 0]), Two([1, 2], [0, 0], [1, 2]);
    var s3, s4 := Two([3, 2], [0, 0], [3, 2]), Two([4, 2], [0, 0], [3, 2]);
    var states := [e, s1, s2, s2, s3, s3, s4];
    var counts := [NoCounts, Counters(1, 1, 0), Counters(2, 2, 0), Counters(2, 2, 0), Counters(3, 3, 0), Counters(3, 3, 0), Counters(4, 4, 0)];
    forall k | 0 <= k < 6
      ensures Access(states[k], counts[k], t[k].op, Tag(t[k].address, 1), Fifo, WriteThrough) == (states[k + 1], counts[k + 1])
    {
      if k == 0 {
        assert states[k] == e && counts[k] == NoCounts && states[k + 1] == s1 && counts[k + 1] == Counters(1, 1, 0);
        assert t[k] == Record(Read, 0x40) && Tag(0x40, 1) == 1;
        FillFirst(1, NoCounts, Fifo);
      } else if k == 1 {
        assert states[k] == s1 && counts[k] == Counters(1, 1, 0) && states[k + 1] == s2 && counts[k + 1] == Counters(2, 2, 0);
        assert t[k] == Record(Read, 0x80) && Tag(0x80, 1) == 2;
        FillSecond(1, 2, Counters(1, 1, 0), Fifo);
      } else if k == 2 {
        assert states[k] == s2 && counts[k] == Counters(2, 2, 0) && states[k + 1] == s2 && counts[k + 1] == Counters(2, 2, 0);
        assert t[k] == Record(Read, 0x40) && Tag(0x40, 1) == 1;
        FifoEvicts(1, 2, 1, 3, Counters(2, 2, 0));
      } else if k == 3 {
        assert states[k] == s2 && counts[k] == Counters(2, 2, 0) && states[k + 1] == s3 && counts[k + 1] == Counters(3, 3, 0);
        assert t[k] == Record(Read, 0xC0) && Tag(0xC0, 1) == 3;
        FifoEvicts(1, 2, 1, 3, Counters(2, 2, 0));
      } else if k == 4 {
        assert states[k] == s3 && counts[k] == Counters(3, 3, 0) && states[k + 1] == s3 && counts[k + 1] == Counters(3, 3, 0);
        assert t[k] == Record(Read, 0x80) && Tag(0x80, 1) == 2;
        FifoEvicts(3, 2, 3, 4, Counters(3, 3, 0));
      } else if k == 5 {
        assert states[k] == s3 && counts[k] == Counters(3, 3, 0) && states[k + 1] == s4 && counts[k + 1] == Counters(4, 4, 0);
        assert t[k] == Record(Read, 0x100) && Tag(0x100, 1) == 4;
        FifoEvicts(3, 2, 3, 4, Counters(3, 3, 0));
      }
    }
    SetPlayThrough(e, t, 1, Fifo, WriteThrough, states, counts);
  }

  /** On the full Fifo set with tags [t0, t1] and fifo stamps [f, 2] (lru all zero), a read of
      a resident block changes nothing, and a read of an absent block evicts way 0. */
  lemma FifoEvicts(t0: nat, t1: nat, f: nat, tag: nat, c: Counters)
    requires t0 != 0 && t1 != 0 && t0 != t1 && tag != 0 && t0 != tag && t1 != tag
    ensures Access(Two([t0, t1], [0, 0], [f, 2]), c, Read, t0, Fifo, WriteThrough) == (Two([t0, t1], [0, 0], [f, 2]), c)
    ensures Access(Two([t0, t1], [0, 0], [f, 2]), c, Read, t1, Fifo, WriteThrough) == (Two([t0, t1], [0, 0], [f, 2]), c)
    ensures Access(Two([t0, t1], [0, 0], [f, 2]), c, Read, tag, Fifo, WriteThrough)
            == (Two([tag, t1], [0, 0], [3, 2]), c.(misses := c.misses + 1, memoryReads := c.memoryReads + 1))
  {
    var s := Two([t0, t1], [0, 0], [f, 2]);
    ReadHit(s, t0, 0, c, Fifo);
    ReadHit(s, t1, 1, c, Fifo);
    FirstMinOfConstant(s.lru, 0);
    TouchPair(0, 2, 0);
    ReadEvict(s, tag, c, Fifo);
    var r := Access(s, c, Read, tag, Fifo, WriteThrough);
    assert r.0.tags == [tag, t1] && r.0.fifo == [3, 2];
  }

  /** Under Lru the hit on block 1 protects it, so block 3 evicts block 2, block 2 then evicts
      block 1 and block 4 evicts block 3: five misses, ending with tags [2, 4]. */
  lemma LruRun()
    ensures Play([EmptySet(2)], NoCounts, Reads124, Lru, WriteThrough)
            == ([Two([2, 4], [5, 6], [0, 0])], Counters(5, 5, 0))
  {
    var t, e := Reads124, EmptySet(2);
    var s6 := Two([2, 4], [5, 6], [0, 0]);
    LruSetPlay(t, e);
    CacheProperties.PlayOnOneSet([e], NoCounts, t, 0, Lru, WriteThrough);
    assert [e][0 := s6] == [s6];
  }

  /** The records of Reads124, one by one, on the single Lru set. */
  lemma LruSetPlay(t: seq<Record>, e: SetState)
    requires t == Reads124 && e == EmptySet(2)
    ensures SetPlay(e, NoCounts, t, 1, Lru, WriteThrough) == (Two([2, 4], [5, 6], [0, 0]), Counters(5, 5, 0))
  {
    var s1, s2 := Two([1, 0], [1, 0], [0, 0]), Two([1, 2], [1, 2], [0, 0]);
    var s3, s4 := Two([1, 2], [3, 2], [0, 0]), Two([1, 3], [3, 4], [0, 0]);
    var s5, s6 := Two([2, 3], [5, 4], [0, 0]), Two([2, 4], [5, 6], [0, 0]);
    var states := [e, s1, s2, s3, s4, s5, s6];
    var counts := [NoCounts, Counters(1, 1, 0), Counters(2, 2, 0), Counters(2, 2, 0), Counters(3, 3, 0), Counters(4, 4, 0), Counters(5, 5, 0)];
    forall k | 0 <= k < 6
      ensures Access(states[k], counts[k], t[k].op, Tag(t[k].address, 1), Lru, WriteThrough) == (states[k + 1], counts[k + 1])
    {
      if k == 0 {
        assert states[k] == e && counts[k] == NoCounts && states[k + 1] == s1 && counts[k + 1] == Counters(1, 1, 0);
        assert t[k] == Record(Read, 0x40) && Tag(0x40, 1) == 1;
        FillFirst(1, NoCounts, Lru);
      } else if k == 1 {
        assert states[k] == s1 && counts[k] == Counters(1, 1, 0) && states[k + 1] == s2 && counts[k + 1] == Counters(2, 2, 0);
        assert t[k] == Record(Read, 0x80) && Tag(0x80, 1) == 2;
        FillSecond(1, 2, Counters(1, 1, 0), Lru);
      } else if k == 2 {
        assert states[k] == s2 && counts[k] == Counters(2, 2, 0) && states[k + 1] == s3 && counts[k + 1] == Counters(2, 2, 0);
        assert t[k] == Record(Read, 0x40) && Tag(0x40, 1) == 1;
        LruHitFirst(1, 2, 1, 2, Counters(2, 2, 0));
      } else if k == 3 {
        assert states[k] == s3 && counts[k] == Counters(2, 2, 0) && states[k + 1] == s4 && counts[k + 1] == Counters(3, 3, 0);
        assert t[k] == Record(Read, 0xC0) && Tag(0xC0, 1) == 3;
        LruEvict(1, 2, 3, 2, 3, Counters(2, 2, 0));
      } else if k == 4 {
        assert states[k] == s4 && counts[k] == Counters(3, 3, 0) && states[k + 1] == s5 && counts[k + 1] == Counters(4, 4, 0);
        assert t[k] == Record(Read, 0x80) && Tag(0x80, 1) == 2;
        LruEvict(1, 3, 3, 4, 2, Counters(3, 3, 0));
      } else if k == 5 {
        assert states[k] == s5 && counts[k] == Counters(4, 4, 0) && states[k + 1] == s6 && counts[k + 1] == Counters(5, 5, 0);
        assert t[k] == Record(Read, 0x100) && Tag(0x100, 1) == 4;
        LruEvict(2, 3, 5, 4, 4, Counters(4, 4, 0));
      }
    }
    SetPlayThrough(e, t, 1, Lru, WriteThrough, states, counts);
  }

  /** On a full, clean 2-way Lru set with tags [t0, t1] and stamps [a, b], a read of an absent
      block evicts way 1 when b < a and way 0 otherwise, and stamps it one above the larger stamp. */
  lemma LruEvict(t0: nat, t1: nat, a: nat, b: nat, tag: nat, c: Counters)
    requires t0 != 0 && t1 != 0 && tag != 0 && t0 != tag && t1 != tag
    ensures var top := (if a >= b then a else b) + 1;
      Access(Two([t0, t1], [a, b], [0, 0]), c, Read, tag, Lru, WriteThrough)
      == (if b < a then Two([t0, tag], [a, top], [0, 0]) else Two([tag, t1], [top, b], [0, 0]),
          c.(misses := c.misses + 1, memoryReads := c.memoryReads + 1))
  {
    var s := Two([t0, t1], [a, b], [0, 0]);
    var v := if b < a then 1 else 0;
    assert FirstMin(s.lru) == v;
    TouchPair(a, b, v);
    ReadEvict(s, tag, c, Lru);
    var r := Access(s, c, Read, tag, Lru, WriteThrough);
    if b < a {
      assert r.0.tags == [t0, tag] && r.0.lru == [a, a + 1];
    } else {
      assert r.0.tags == [tag, t1] && r.0.lru == [b + 1, b];
    }
  }

  /** The first read of a block other than 0 on an empty 2-way set fills way 0 and stamps it 1
      in the policy's own array. */
  lemma FillFirst(tag: nat, c: Counters, rp: Replacement)
    requires tag != 0
    ensures Access(EmptySet(2), c, Read, tag, rp, WriteThrough)
            == (Two([tag, 0], if rp == Lru then [1, 0] else [0, 0], if rp == Fifo then [1, 0] else [0, 0]),
                c.(misses := c.misses + 1, memoryReads := c.memoryReads + 1))
  {
    var s0 := EmptySet(2);
    assert s0 == Two([0, 0], [0, 0], [0, 0]);
    TouchPair(0, 0, 0);
    ReadFill(s0, tag, 0, c, rp);
    assert [0, 0][0 := tag] == [tag, 0] && [0, 0][0 := 1] == [1, 0];
  }

  /** A read of a second block then fills way 1 and stamps it 2. */
  lemma FillSecond(t0: nat, tag: nat, c: Counters, rp: Replacement)
    requires t0 != 0 && tag != 0 && tag != t0
    ensures Access(Two([t0, 0], if rp == Lru then [1, 0] else [0, 0], if rp == Fifo then [1, 0] else [0, 0]), c, Read, tag, rp, WriteThrough)
            == (Two([t0, tag], if rp == Lru then [1, 2] else [0, 0], if rp == Fifo then [1, 2] else [0, 0]),
                c.(misses := c.misses + 1, memoryReads := c.memoryReads + 1))
  {
    var s := Two([t0, 0], if rp == Lru then [1, 0] else [0, 0], if rp == Fifo then [1, 0] else [0, 0]);
    TouchPair(1, 0, 1);
    ReadFill(s, tag, 1, c, rp);
    assert [t0, 0][1 := tag] == [t0, tag] && [1, 0][1 := 2] == [1, 2];
  }

  /** Under Lru a read of the block in way 0 of a full 2-way set gives way 0 the newest stamp. */
  lemma LruHitFirst(t0: nat, t1: nat, a: nat, b: nat, c: Counters)
    ensures Access(Two([t0, t1], [a, b], [0, 0]), c, Read, t0, Lru, WriteThrough)
            == (Two([t0, t1], [(if a >= b then a else b) + 1, b], [0, 0]), c)
  {
    TouchPair(a, b, 0);
    ReadHit(Two([t0, t1], [a, b], [0, 0]), t0, 0, c, Lru);
    var top := (if a >= b then a else b) + 1;
    assert [a, b][0 := top] == [top, b];
  }

  /** A read of a block no way holds, while `way` is the lowest empty way: it fills that way. */
  lemma ReadFill(s: SetState, tag: nat, way: nat, c: Counters, rp: Replacement)
    requires WellShaped(s) && tag != 0 && way < |s.tags| && s.tags[way] == 0
    requires forall j :: 0 <= j < way ==> s.tags[j] != 0
    requires forall j :: 0 <= j < |s.tags| ==> s.tags[j] != tag
    ensures var r := Access(s, c, Read, tag, rp, WriteThrough);
      && r.0.tags == s.tags[way := tag]
      && r.0.lru == (if rp == Lru then Touch(s.lru, way) else s.lru)
      && r.0.fifo == (if rp == Fifo then Touch(s.fifo, way) else s.fifo)
      && r.0.dirty == s.dirty
      && r.1 == c.(misses := c.misses + 1, memoryReads := c.memoryReads + 1)
  {
    IndexOfIs(s.tags, tag, |s.tags|);
    IndexOfIs(s.tags, 0, way);
  }

  /** A read of a block held in `way`: only the Lru stamp of that way changes. */
  lemma ReadHit(s: SetState, tag: nat, way: nat, c: Counters, rp: Replacement)
    requires WellShaped(s) && way < |s.tags| && s.tags[way] == tag
    requires forall j :: 0 <= j < way ==> s.tags[j] != tag
    ensures var r := Access(s, c, Read, tag, rp, WriteThrough);
      && r.0.tags == s.tags
      && r.0.lru == (if rp == Lru then Touch(s.lru, way) else s.lru)
      && r.0.fifo == s.fifo && r.0.dirty == s.dirty
      && r.1 == c
  {
    IndexOfIs(s.tags, tag, way);
  }

  /** A read of a block no way of a full, clean set holds: the first way with the smallest lru
      stamp takes it and a fresh stamp. */
  lemma ReadEvict(s: SetState, tag: nat, c: Counters, rp: Replacement)
    requires WellShaped(s) && tag != 0
    requires forall j :: 0 <= j < |s.tags| ==> s.tags[j] != tag && s.tags[j] != 0
    requires forall j :: 0 <= j < |s.dirty| ==> !s.dirty[j]
    ensures var r := Access(s, c, Read, tag, rp, WriteThrough);
      var v := FirstMin(s.lru);
      && r.0.tags == s.tags[v := tag]
      && r.0.lru == (if rp == Lru then Touch(s.lru, v) else s.lru)
      && r.0.fifo == (if rp == Fifo then Touch(s.fifo[v := 0], v) else s.fifo)
      && r.0.dirty == s.dirty
      && r.1 == c.(misses := c.misses + 1, memoryReads := c.memoryReads + 1)
  {
    IndexOfIs(s.tags, tag, |s.tags|);
    IndexOfIs(s.tags, 0, |s.tags|);
    var v := FirstMin(s.lru);
    assert s.dirty[v := false] == s.dirty;
  }
}
