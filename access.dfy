/** One access to one set, as a function on values: what simulate does to the
    row `index` of the four arrays and to the three memory counters. */
module CacheSpec {
  import opened AddressDecode
  import opened Rows

  /** The two operation letters of a trace record. */
  const Read: char := 'R'
  const Write: char := 'W'

  /** replace == 0 selects Lru, replace == 1 selects Fifo. */
  datatype Replacement = Lru | Fifo

  /** wb == 0 selects WriteThrough, wb == 1 selects WriteBack. */
  datatype WritePolicy = WriteThrough | WriteBack

  /** One set: row `index` of cache_array, lru, fifo and dirty. A tag of 0 marks an empty way;
      a dirty entry of true stands for the source's 1. */
  datatype SetState = SetState(tags: seq<nat>, lru: seq<nat>, fifo: seq<nat>, dirty: seq<bool>)

  /** The counters simulate updates: misses, memoryReads (reads) and memoryWrites (writes). */
  datatype Counters = Counters(misses: nat, memoryReads: nat, memoryWrites: nat)

  /** The four rows have one entry per way, and there is at least one way. */
  predicate WellShaped(s: SetState)
  {
    |s.tags| >= 1 && |s.lru| == |s.tags| && |s.fifo| == |s.tags| && |s.dirty| == |s.tags|
  }

  /** An access misses when its operation is 'R' or 'W' and no way holds its tag.
      Because 0 marks an empty way, a tag of 0 "hits" any empty way. */
  predicate IsMiss(s: SetState, op: char, tag: nat)
  {
    (op == Read || op == Write) && IndexOf(s.tags, tag) == |s.tags|
  }

  /** The way evicted from a full set. Both policies take the first minimum of the lru row,
      so under Fifo (which never stamps lru) it is way 0. */
  function Victim(s: SetState): (v: nat)
    requires WellShaped(s)
    ensures v < |s.tags|
    ensures forall j :: 0 <= j < |s.lru| ==> s.lru[v] <= s.lru[j]
    ensures forall j :: 0 <= j < v ==> s.lru[v] < s.lru[j]
  {
    FirstMin(s.lru)
  }

  /** The way an access ends up in: the first way holding the tag, else the lowest empty way,
      else the victim. */
  function Way(s: SetState, tag: nat): (w: nat)
    requires WellShaped(s)
    ensures w < |s.tags|
    ensures IndexOf(s.tags, tag) < |s.tags| ==> w == IndexOf(s.tags, tag) && s.tags[w] == tag
    ensures IndexOf(s.tags, tag) == |s.tags| && IndexOf(s.tags, 0) < |s.tags| ==>
              s.tags[w] == 0 && forall j :: 0 <= j < w ==> s.tags[j] != 0
    ensures IndexOf(s.tags, tag) == |s.tags| && IndexOf(s.tags, 0) == |s.tags| ==> w == Victim(s)
  {
    var hit := IndexOf(s.tags, tag);
    if hit < |s.tags| then hit
    else
      var empty := IndexOf(s.tags, 0);
      if empty < |s.tags| then empty else Victim(s)
  }

  /** The write policy applied to the way an operation 'W' touched: write-through counts one
      memory write, write-back marks the way dirty. A read does neither. */
  function ApplyWrite(s: SetState, c: Counters, op: char, way: nat, wp: WritePolicy): (r: (SetState, Counters))
    requires way < |s.dirty|
    ensures r.0.tags == s.tags && r.0.lru == s.lru && r.0.fifo == s.fifo
    ensures r.1.misses == c.misses && r.1.memoryReads == c.memoryReads
    ensures r.1.memoryWrites == c.memoryWrites + (if op == Write && wp == WriteThrough then 1 else 0)
    ensures r.0.dirty == if op == Write && wp == WriteBack then s.dirty[way := true] else s.dirty
  {
    if op != Write then (s, c)
    else
      match wp
      case WriteThrough => (s, c.(memoryWrites := c.memoryWrites + 1))
      case WriteBack => (s.(dirty := s.dirty[way := true]), c)
  }

  /** A hit on `way`: Lru refreshes the way's stamp, Fifo changes nothing; then the write policy. */
  function Hit(s: SetState, c: Counters, op: char, way: nat, rp: Replacement, wp: WritePolicy): (r: (SetState, Counters))
    requires WellShaped(s) && way < |s.tags|
    ensures WellShaped(r.0) && |r.0.tags| == |s.tags|
  {
    var s1 := if rp == Lru then s.(lru := Touch(s.lru, way)) else s;
    ApplyWrite(s1, c, op, way, wp)
  }

  /** A miss filling the empty `way`: it takes the tag, one miss and one memory read are counted,
      the way gets a fresh stamp in the policy's own array; then the write policy. */
  function Fill(s: SetState, c: Counters, op: char, tag: nat, way: nat, rp: Replacement, wp: WritePolicy): (r: (SetState, Counters))
    requires WellShaped(s) && way < |s.tags|
    ensures WellShaped(r.0) && |r.0.tags| == |s.tags|
  {
    var c1 := c.(misses := c.misses + 1, memoryReads := c.memoryReads + 1);
    var s1 := s.(tags := s.tags[way := tag]);
    var s2 := if rp == Lru then s1.(lru := Touch(s1.lru, way)) else s1.(fifo := Touch(s1.fifo, way));
    ApplyWrite(s2, c1, op, way, wp)
  }

  /** A miss on a full set: one miss and one memory read; the victim is written back if it is
      dirty under write-back, its dirty bit is cleared, it gets a fresh stamp (under Fifo after
      its fifo entry is zeroed) and takes the tag; then the write policy. */
  function Replace(s: SetState, c: Counters, op: char, tag: nat, rp: Replacement, wp: WritePolicy): (r: (SetState, Counters))
    requires WellShaped(s)
    ensures WellShaped(r.0) && |r.0.tags| == |s.tags|
  {
    var v := Victim(s);
    var c1 := c.(misses := c.misses + 1, memoryReads := c.memoryReads + 1);
    var c2 := if wp == WriteBack && s.dirty[v] then c1.(memoryWrites := c1.memoryWrites + 1) else c1;
    var s1 := s.(dirty := s.dirty[v := false]);
    var s2 := if rp == Lru then s1.(lru := Touch(s1.lru, v)) else s1.(fifo := Touch(s1.fifo[v := 0], v));
    ApplyWrite(s2.(tags := s2.tags[v := tag]), c2, op, v, wp)
  }

  /** One call of simulate restricted to the set the address maps to. An operation other than
      'R' or 'W' matches no branch and changes nothing; otherwise the first way holding the tag
      is hit, or else the lowest empty way is filled, or else the victim is evicted. */
  function Access(s: SetState, c: Counters, op: char, tag: nat, rp: Replacement, wp: WritePolicy): (r: (SetState, Counters))
    requires WellShaped(s)
    ensures WellShaped(r.0) && |r.0.tags| == |s.tags|
  {
    if op != Read && op != Write then (s, c)
    else if IndexOf(s.tags, tag) < |s.tags| then Hit(s, c, op, IndexOf(s.tags, tag), rp, wp)
    else if IndexOf(s.tags, 0) < |s.tags| then Fill(s, c, op, tag, IndexOf(s.tags, 0), rp, wp)
    else Replace(s, c, op, tag, rp, wp)
  }

  /** One line of the trace: the operation letter and the address. */
  datatype Record = Record(op: char, address: nat)

  /** The sets of a cache: at least one, each well shaped. */
  predicate AllWellShaped(sets: seq<SetState>)
  {
    |sets| >= 1 && forall i :: 0 <= i < |sets| ==> WellShaped(sets[i])
  }

  /** One call of simulate on the whole cache: the record's address picks the set and the tag,
      and only that set changes. */
  function Step(sets: seq<SetState>, c: Counters, rec: Record, rp: Replacement, wp: WritePolicy)
    : (r: (seq<SetState>, Counters))
    requires AllWellShaped(sets)
    ensures AllWellShaped(r.0) && |r.0| == |sets|
    ensures forall i :: 0 <= i < |sets| ==> |r.0[i].tags| == |sets[i].tags|
    ensures forall i :: 0 <= i < |sets| && i != SetIndex(rec.address, |sets|) ==> r.0[i] == sets[i]
  {
    var index := SetIndex(rec.address, |sets|);
    var a := Access(sets[index], c, rec.op, Tag(rec.address, |sets|), rp, wp);
    (sets[index := a.0], a.1)
  }

  /** main's loop: simulate called on every record of the trace in order. */
  function Play(sets: seq<SetState>, c: Counters, trace: seq<Record>, rp: Replacement, wp: WritePolicy)
    : (r: (seq<SetState>, Counters))
    requires AllWellShaped(sets)
    ensures AllWellShaped(r.0) && |r.0| == |sets|
    ensures forall i :: 0 <= i < |sets| ==> |r.0[i].tags| == |sets[i].tags|
    decreases |trace|
  {
    if trace == [] then (sets, c)
    else
      var p := Play(sets, c, trace[..|trace| - 1], rp, wp);
      Step(p.0, p.1, trace[|trace| - 1], rp, wp)
  }

  /** The records of a trace that all fall into one set, applied to that set alone. */
  function SetPlay(s: SetState, c: Counters, trace: seq<Record>, numSets: nat, rp: Replacement, wp: WritePolicy)
    : (r: (SetState, Counters))
    requires WellShaped(s) && numSets >= 1
    ensures WellShaped(r.0) && |r.0.tags| == |s.tags|
    decreases |trace|
  {
    if trace == [] then (s, c)
    else
      var p := SetPlay(s, c, trace[..|trace| - 1], numSets, rp, wp);
      var rec := trace[|trace| - 1];
      Access(p.0, p.1, rec.op, Tag(rec.address, numSets), rp, wp)
  }

  /** A set straight after create_cache / create_array: every entry 0. */
  function EmptySet(assoc: nat): (s: SetState)
    ensures |s.tags| == assoc && (WellShaped(s) <==> assoc >= 1)
    ensures forall w :: 0 <= w < assoc ==> s.tags[w] == 0 && s.lru[w] == 0 && s.fifo[w] == 0 && !s.dirty[w]
  {
    SetState(seq(assoc, w => 0), seq(assoc, w => 0), seq(assoc, w => 0), seq(assoc, w => false))
  }

  /** No tag other than the empty marker 0 is resident in two ways of a set. */
  predicate NoDuplicateTags(tags: seq<nat>)
  {
    forall i, j :: 0 <= i < j < |tags| && tags[i] != 0 ==> tags[i] != tags[j]
  }

  /** What every set of the simulator satisfies between accesses: no duplicate residency,
      an lru row that Fifo never stamps, and no dirty way under write-through. */
  predicate SetInvariant(s: SetState, rp: Replacement, wp: WritePolicy)
  {
    && WellShaped(s)
    && NoDuplicateTags(s.tags)
    && (rp == Fifo ==> forall j :: 0 <= j < |s.lru| ==> s.lru[j] == 0)
    && (wp == WriteThrough ==> forall j :: 0 <= j < |s.dirty| ==> !s.dirty[j])
  }
}
