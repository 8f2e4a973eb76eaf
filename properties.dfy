/** What one access does to a set and to the counters, stated against CacheSpec.Access. */
module CacheProperties {
  import opened AddressDecode
  import opened Rows
  import opened CacheSpec

  /** Every miss reads exactly one block from memory and a hit reads none, so the two
      counters move together and memoryReads == misses is kept. */
  lemma MissesAndReads(s: SetState, c: Counters, op: char, tag: nat, rp: Replacement, wp: WritePolicy)
    requires WellShaped(s)
    ensures var r := Access(s, c, op, tag, rp, wp).1;
      && r.misses == c.misses + (if IsMiss(s, op, tag) then 1 else 0)
      && r.memoryReads == c.memoryReads + (if IsMiss(s, op, tag) then 1 else 0)
  {
  }

  /** A hit (on the first way holding the tag) keeps every tag and the fifo row, counts no miss,
      and under Lru makes that way the strict maximum of the lru row while the other stamps stay. */
  lemma AccessHit(s: SetState, c: Counters, op: char, tag: nat, rp: Replacement, wp: WritePolicy)
    requires WellShaped(s) && (op == Read || op == Write)
    requires !IsMiss(s, op, tag)
    ensures var r := Access(s, c, op, tag, rp, wp);
      var i := IndexOf(s.tags, tag);
      && i < |s.tags| && s.tags[i] == tag
      && r.0.tags == s.tags
      && r.0.fifo == s.fifo
      && r.1.misses == c.misses && r.1.memoryReads == c.memoryReads
      && (rp == Lru ==> forall j :: 0 <= j < |s.lru| && j != i ==> r.0.lru[j] == s.lru[j] && r.0.lru[j] < r.0.lru[i])
      && (rp == Fifo ==> r.0.lru == s.lru)
      && r.0.dirty == (if op == Write && wp == WriteBack then s.dirty[i := true] else s.dirty)
      && r.1.memoryWrites == c.memoryWrites + (if op == Write && wp == WriteThrough then 1 else 0)
  {
  }

  /** A miss on a set with an empty way puts the tag into the lowest empty way, leaves the other
      tags alone and stamps that way in the policy's own array. It counts one miss and one read;
      the dirty row changes only by a write-back 'W' marking that way, so a bit the way already
      had survives the fill. */
  lemma AccessFill(s: SetState, c: Counters, op: char, tag: nat, rp: Replacement, wp: WritePolicy)
    requires WellShaped(s) && IsMiss(s, op, tag)
    requires IndexOf(s.tags, 0) < |s.tags|
    ensures var r := Access(s, c, op, tag, rp, wp);
      var e := IndexOf(s.tags, 0);
      && s.tags[e] == 0 && (forall j :: 0 <= j < e ==> s.tags[j] != 0)
      && r.0.tags == s.tags[e := tag]
      && (rp == Lru ==> r.0.lru == Touch(s.lru, e) && r.0.fifo == s.fifo)
      && (rp == Fifo ==> r.0.fifo == Touch(s.fifo, e) && r.0.lru == s.lru)
      && r.0.dirty == (if op == Write && wp == WriteBack then s.dirty[e := true] else s.dirty)
      && r.1 == Counters(c.misses + 1, c.memoryReads + 1,
                         c.memoryWrites + (if op == Write && wp == WriteThrough then 1 else 0))
  {
  }

  /** A miss on a full set replaces the first way holding the smallest lru stamp. Its dirty bit is
      cleared (and set again only by a write under write-back), the other dirty bits stay, and it
      gets a stamp above every other one in the policy's own array. */
  lemma AccessEvict(s: SetState, c: Counters, op: char, tag: nat, rp: Replacement, wp: WritePolicy)
    requires WellShaped(s) && IsMiss(s, op, tag)
    requires IndexOf(s.tags, 0) == |s.tags|
    ensures var r := Access(s, c, op, tag, rp, wp);
      var v := Way(s, tag);
      && (forall j :: 0 <= j < |s.lru| ==> s.lru[v] <= s.lru[j])
      && (forall j :: 0 <= j < v ==> s.lru[v] < s.lru[j])
      && r.0.tags == s.tags[v := tag]
      && r.0.dirty == s.dirty[v := op == Write && wp == WriteBack]
      && r.1.misses == c.misses + 1 && r.1.memoryReads == c.memoryReads + 1
      && r.1.memoryWrites == c.memoryWrites + (if wp == WriteBack && s.dirty[v] then 1 else 0)
                                            + (if wp == WriteThrough && op == Write then 1 else 0)
      && (rp == Lru ==> r.0.lru == Touch(s.lru, v) && r.0.fifo == s.fifo)
      && (rp == Fifo ==> r.0.fifo == Touch(s.fifo[v := 0], v) && r.0.lru == s.lru)
  {
    var v := Way(s, tag);
    var c1 := c.(misses := c.misses + 1, memoryReads := c.memoryReads + 1);
    var c2 := if wp == WriteBack && s.dirty[v] then c1.(memoryWrites := c1.memoryWrites + 1) else c1;
    var s1 := s.(dirty := s.dirty[v := false]);
    var s2 := if rp == Lru then s1.(lru := Touch(s1.lru, v)) else s1.(fifo := Touch(s1.fifo[v := 0], v));
    var s3 := s2.(tags := s2.tags[v := tag]);
    assert Access(s, c, op, tag, rp, wp) == ApplyWrite(s3, c2, op, v, wp);
    assert s1.dirty[v := true] == s.dirty[v := true];
  }

  /** The Fifo eviction reads the lru row, which Fifo never stamps: the victim is always way 0. */
  lemma FifoEvictsWayZero(s: SetState, c: Counters, op: char, tag: nat, wp: WritePolicy)
    requires SetInvariant(s, Fifo, wp) && IsMiss(s, op, tag)
    requires IndexOf(s.tags, 0) == |s.tags|
    ensures Way(s, tag) == 0
    ensures Access(s, c, op, tag, Fifo, wp).0.tags == s.tags[0 := tag]
  {
    FirstMinOfConstant(s.lru, 0);
  }

  /** Under write-through every 'W' access, hit or miss, writes memory once; nothing else does,
      evictions included, and no way is ever dirty. */
  lemma WriteThroughCountsEveryWrite(s: SetState, c: Counters, op: char, tag: nat, rp: Replacement)
    requires SetInvariant(s, rp, WriteThrough)
    ensures var r := Access(s, c, op, tag, rp, WriteThrough);
      && r.1.memoryWrites == c.memoryWrites + (if op == Write then 1 else 0)
      && forall j :: 0 <= j < |r.0.dirty| ==> !r.0.dirty[j]
  {
  }

  /** Under write-back memory is written only when a dirty victim is evicted, and the way a 'W'
      access lands in ends up dirty. */
  lemma WriteBackDefersWrites(s: SetState, c: Counters, op: char, tag: nat, rp: Replacement)
    requires WellShaped(s)
    ensures var r := Access(s, c, op, tag, rp, WriteBack);
      var evictsDirty := IsMiss(s, op, tag) && IndexOf(s.tags, 0) == |s.tags| && s.dirty[Victim(s)];
      && r.1.memoryWrites == c.memoryWrites + (if evictsDirty then 1 else 0)
      && (op == Write ==> r.0.dirty[Way(s, tag)])
  {
  }

  /** No access cleans a dirty way other than the victim it evicts: a hit or a fill keeps every
      dirty bit, so the block is still written back when it is later evicted. */
  lemma DirtyBitKept(s: SetState, c: Counters, op: char, tag: nat, rp: Replacement, wp: WritePolicy, j: nat)
    requires WellShaped(s) && j < |s.dirty| && s.dirty[j]
    requires !(IsMiss(s, op, tag) && IndexOf(s.tags, 0) == |s.tags| && j == Victim(s))
    ensures Access(s, c, op, tag, rp, wp).0.dirty[j]
  {
    if IsMiss(s, op, tag) && IndexOf(s.tags, 0) == |s.tags| {
      AccessEvict(s, c, op, tag, rp, wp);
    }
  }

  /** Under write-back a 'W' of tag 0 hits an empty way and marks it dirty while it stays
      empty; a later 'R' that fills that way keeps the stale bit, so evicting it then writes
      memory although the block read was never written. */
  lemma StaleDirtyBitOnEmptyWay(s: SetState, c: Counters, tag: nat, rp: Replacement)
    requires WellShaped(s) && tag != 0 && IndexOf(s.tags, 0) < |s.tags|
    requires forall j :: 0 <= j < |s.tags| ==> s.tags[j] != tag
    ensures var e := IndexOf(s.tags, 0);
      var r1 := Access(s, c, Write, 0, rp, WriteBack);
      var r2 := Access(r1.0, r1.1, Read, tag, rp, WriteBack);
      && r1.0.tags == s.tags && r1.0.dirty[e] && r1.1 == c
      && r2.0.tags == s.tags[e := tag] && r2.0.dirty[e]
      && r2.1 == Counters(c.misses + 1, c.memoryReads + 1, c.memoryWrites)
  {
    var e := IndexOf(s.tags, 0);
    AccessHit(s, c, Write, 0, rp, WriteBack);
    var r1 := Access(s, c, Write, 0, rp, WriteBack);
    IndexOfIs(r1.0.tags, tag, |s.tags|);
    AccessFill(r1.0, r1.1, Read, tag, rp, WriteBack);
  }

  /** A 'R' access never sets a dirty bit, under either policy. */
  lemma ReadSetsNoDirtyBit(s: SetState, c: Counters, tag: nat, rp: Replacement, wp: WritePolicy)
    requires WellShaped(s)
    ensures var r := Access(s, c, Read, tag, rp, wp);
      forall j :: 0 <= j < |s.dirty| && r.0.dirty[j] ==> s.dirty[j]
  {
  }

  /** After an 'R' or 'W' access the first way holding the tag is the way the access landed in. */
  lemma AccessLeavesTagResident(s: SetState, c: Counters, op: char, tag: nat, rp: Replacement, wp: WritePolicy)
    requires WellShaped(s) && (op == Read || op == Write)
    ensures IndexOf(Access(s, c, op, tag, rp, wp).0.tags, tag) == Way(s, tag)
  {
    var r := Access(s, c, op, tag, rp, wp);
    var w := Way(s, tag);
    if IsMiss(s, op, tag) {
      assert r.0.tags == s.tags[w := tag];
    } else {
      assert r.0.tags == s.tags;
    }
    IndexOfIs(r.0.tags, tag, w);
  }

  /** Repeating an access to the same block right away hits: it never adds a miss. */
  lemma RepeatedAccessHits(s: SetState, c: Counters, op: char, op2: char, tag: nat, rp: Replacement, wp: WritePolicy)
    requires WellShaped(s) && (op == Read || op == Write)
    ensures var r := Access(s, c, op, tag, rp, wp);
      && !IsMiss(r.0, op2, tag)
      && Access(r.0, r.1, op2, tag, rp, wp).1.misses == r.1.misses
  {
    AccessLeavesTagResident(s, c, op, tag, rp, wp);
  }

  /** Writing a tag that no way holds into one way keeps the non-empty tags distinct. */
  lemma InstallKeepsTagsDistinct(tags: seq<nat>, w: nat, tag: nat)
    requires w < |tags| && NoDuplicateTags(tags)
    requires forall j :: 0 <= j < |tags| ==> tags[j] != tag
    ensures NoDuplicateTags(tags[w := tag])
  {
    var t := tags[w := tag];
    forall i, j | 0 <= i < j < |t| && t[i] != 0
      ensures t[i] != t[j]
    {
      if i == w {
        assert t[j] == tags[j];
      } else if j == w {
        assert t[i] == tags[i];
      }
    }
  }

  /** Every access keeps the set invariant: no duplicate residency, Fifo leaves lru at zero,
      write-through leaves every way clean. */
  lemma AccessPreservesInvariant(s: SetState, c: Counters, op: char, tag: nat, rp: Replacement, wp: WritePolicy)
    requires SetInvariant(s, rp, wp)
    ensures SetInvariant(Access(s, c, op, tag, rp, wp).0, rp, wp)
  {
    if IsMiss(s, op, tag) {
      var w := Way(s, tag);
      InstallKeepsTagsDistinct(s.tags, w, tag);
      if IndexOf(s.tags, 0) == |s.tags| {
        AccessEvict(s, c, op, tag, rp, wp);
      } else {
        AccessFill(s, c, op, tag, rp, wp);
      }
    }
  }

  /** The run of the first k + 1 records is the run of the first k followed by record k. */
  lemma PlayPrefix(sets: seq<SetState>, c: Counters, trace: seq<Record>, k: nat, rp: Replacement, wp: WritePolicy)
    requires AllWellShaped(sets) && k < |trace|
    ensures var p := Play(sets, c, trace[..k], rp, wp);
      Play(sets, c, trace[..k + 1], rp, wp) == Step(p.0, p.1, trace[k], rp, wp)
  {
    assert trace[..k + 1][..k] == trace[..k];
  }

  /** Over any trace every set keeps the set invariant, each record adds at most one miss, and
      memory is read exactly once per miss. */
  lemma {:induction false} PlayKeepsInvariant(sets: seq<SetState>, c: Counters, trace: seq<Record>,
                                              rp: Replacement, wp: WritePolicy)
    requires AllWellShaped(sets)
    requires forall i :: 0 <= i < |sets| ==> SetInvariant(sets[i], rp, wp)
    ensures var r := Play(sets, c, trace, rp, wp);
      && (forall i :: 0 <= i < |sets| ==> SetInvariant(r.0[i], rp, wp))
      && c.misses <= r.1.misses <= c.misses + |trace|
      && r.1.memoryReads - r.1.misses == c.memoryReads - c.misses
    decreases |trace|
  {
    if trace != [] {
      var front := trace[..|trace| - 1];
      var p := Play(sets, c, front, rp, wp);
      PlayKeepsInvariant(sets, c, front, rp, wp);
      var rec := trace[|trace| - 1];
      var index := SetIndex(rec.address, |sets|);
      var tag := Tag(rec.address, |sets|);
      AccessPreservesInvariant(p.0[index], p.1, rec.op, tag, rp, wp);
      MissesAndReads(p.0[index], p.1, rec.op, tag, rp, wp);
    }
  }

  /** When every record of a trace maps to set i, playing it on the cache changes only set i,
      and that set goes through the same accesses as SetPlay applies. */
  lemma {:induction false} PlayOnOneSet(sets: seq<SetState>, c: Counters, trace: seq<Record>, i: nat,
                                        rp: Replacement, wp: WritePolicy)
    requires AllWellShaped(sets) && i < |sets|
    requires forall k :: 0 <= k < |trace| ==> SetIndex(trace[k].address, |sets|) == i
    ensures var p := Play(sets, c, trace, rp, wp);
      var a := SetPlay(sets[i], c, trace, |sets|, rp, wp);
      p == (sets[i := a.0], a.1)
    decreases |trace|
  {
    if trace != [] {
      var front := trace[..|trace| - 1];
      PlayOnOneSet(sets, c, front, i, rp, wp);
      var a := SetPlay(sets[i], c, front, |sets|, rp, wp);
      var rec := trace[|trace| - 1];
      assert SetIndex(rec.address, |sets|) == i;
      var b := Access(a.0, a.1, rec.op, Tag(rec.address, |sets|), rp, wp);
      assert sets[i := a.0][i := b.0] == sets[i := b.0];
    } else {
      assert sets[i := sets[i]] == sets;
    }
  }
}
