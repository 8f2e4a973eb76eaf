/** The simulator's state and its per-access step: four numSets x assoc arrays
    (tags, lru stamps, fifo stamps, dirty bits) and the counters, updated in place. */
module Simulator {
  import opened AddressDecode
  import opened Rows
  import opened CacheSpec
  import CacheProperties

  /** The two operations of update_lru / update_fifo: 1 refreshes a way's stamp, 2 evicts. */
  datatype StampOp = Refresh | Evict

  /** Row r of the 2-D array a holds the sequence s, way by way. */
  ghost predicate RowIs<T>(a: array2<T>, r: nat, s: seq<T>)
    reads a
  {
    r < a.Length0 && |s| == a.Length1 && forall w :: 0 <= w < a.Length1 ==> a[r, w] == s[w]
  }

  class Cache {
    const cacheSize: nat
    const assoc: nat
    const numSets: nat
    const replace: Replacement
    const wb: WritePolicy

    /** cache_array: the tag of each way, 0 when the way is empty. */
    const tags: array2<nat>
    const lru: array2<nat>
    const fifo: array2<nat>
    const dirty: array2<bool>

    var misses: nat
    var memoryReads: nat
    var memoryWrites: nat
    var accesses: nat

    /** The abstract value: set r holds row r of the four arrays. */
    ghost var sets: seq<SetState>

    /** The geometry: at least one set of at least one way, and four separate arrays of that shape. */
    ghost predicate Shape()
    {
      && numSets >= 1 && assoc >= 1
      && tags.Length0 == numSets && tags.Length1 == assoc
      && lru.Length0 == numSets && lru.Length1 == assoc
      && fifo.Length0 == numSets && fifo.Length1 == assoc
      && dirty.Length0 == numSets && dirty.Length1 == assoc
      && tags != lru && tags != fifo && lru != fifo
    }

    ghost function Counts(): Counters
      reads this
    {
      Counters(misses, memoryReads, memoryWrites)
    }

    /** Row `index` of the four arrays holds the set s. */
    ghost predicate Holds(index: nat, s: SetState)
      reads tags, lru, fifo, dirty
    {
      && WellShaped(s)
      && RowIs(tags, index, s.tags) && RowIs(lru, index, s.lru)
      && RowIs(fifo, index, s.fifo) && RowIs(dirty, index, s.dirty)
    }

    /** The arrays hold, way by way, the sets of `sets`. */
    ghost predicate Coupled()
      reads this, tags, lru, fifo, dirty
    {
      && Shape()
      && |sets| == numSets
      && (forall r :: 0 <= r < numSets ==> |sets[r].tags| == assoc && WellShaped(sets[r]))
      && (forall r, w :: 0 <= r < numSets && 0 <= w < assoc ==> tags[r, w] == sets[r].tags[w])
      && (forall r, w :: 0 <= r < numSets && 0 <= w < assoc ==> lru[r, w] == sets[r].lru[w])
      && (forall r, w :: 0 <= r < numSets && 0 <= w < assoc ==> fifo[r, w] == sets[r].fifo[w])
      && (forall r, w :: 0 <= r < numSets && 0 <= w < assoc ==> dirty[r, w] == sets[r].dirty[w])
    }

    /** Every set keeps the set invariant, and memory is read once per miss. */
    ghost predicate Valid()
      reads this, tags, lru, fifo, dirty
    {
      && Coupled()
      && memoryReads == misses
      && (forall r :: 0 <= r < numSets ==> SetInvariant(sets[r], replace, wb))
    }

    /** main's setup: numSets = cacheSize / 64 / assoc, and all four arrays zero. */
    constructor (cacheSize: nat, assoc: nat, replace: Replacement, wb: WritePolicy)
      requires assoc >= 1 && cacheSize / BlockSize / assoc >= 1
      ensures Valid()
      ensures this.cacheSize == cacheSize && this.assoc == assoc
      ensures numSets == cacheSize / BlockSize / assoc
      ensures this.replace == replace && this.wb == wb
      ensures fresh(tags) && fresh(lru) && fresh(fifo) && fresh(dirty)
      ensures forall r, w :: 0 <= r < numSets && 0 <= w < assoc ==>
                tags[r, w] == 0 && lru[r, w] == 0 && fifo[r, w] == 0 && !dirty[r, w]
      ensures misses == 0 && memoryReads == 0 && memoryWrites == 0 && accesses == 0
      ensures |sets| == numSets && forall r :: 0 <= r < numSets ==> sets[r] == EmptySet(assoc)
    {
      var numSets := cacheSize / BlockSize / assoc;
      this.cacheSize := cacheSize;
      this.assoc := assoc;
      this.numSets := numSets;
      this.replace := replace;
      this.wb := wb;
      tags := new nat[numSets, assoc]((r, w) => 0);
      lru := new nat[numSets, assoc]((r, w) => 0);
      fifo := new nat[numSets, assoc]((r, w) => 0);
      dirty := new bool[numSets, assoc]((r, w) => false);
      misses, memoryReads, memoryWrites, accesses := 0, 0, 0, 0;
      sets := seq(numSets, r => EmptySet(assoc));
    }

    /** find_max: the largest stamp in row `row`, or 0. The ghost `stamps` names the row's contents. */
    method FindMax(arr: array2<nat>, row: nat, ghost stamps: seq<nat>) returns (max: nat)
      requires RowIs(arr, row, stamps) && arr.Length1 == assoc
      ensures forall j :: 0 <= j < assoc ==> arr[row, j] <= max
      ensures max == 0 || exists j :: 0 <= j < assoc && arr[row, j] == max
      ensures max == Max(stamps)
    {
      max := 0;
      for i := 0 to assoc
        invariant max == MaxOfFirst(stamps, i)
      {
        if arr[row, i] > max {
          max := arr[row, i];
        }
      }
    }

    /** find_min: the lowest way holding the smallest stamp of row `row`. */
    method FindMin(arr: array2<nat>, row: nat, ghost stamps: seq<nat>) returns (block: nat)
      requires RowIs(arr, row, stamps) && arr.Length1 == assoc && assoc >= 1
      ensures block < assoc
      ensures forall j :: 0 <= j < assoc ==> arr[row, block] <= arr[row, j]
      ensures forall j :: 0 <= j < block ==> arr[row, block] < arr[row, j]
      ensures block == FirstMin(stamps)
    {
      // The source seeds the running minimum with INT_MAX, so its first iteration always
      // takes way 0; with unbounded stamps the seed is way 0 itself.
      var min := arr[row, 0];
      block := 0;
      for i := 1 to assoc
        invariant block == FirstMinOfFirst(stamps, i)
        invariant min == arr[row, block]
      {
        if arr[row, i] < min {
          min := arr[row, i];
          block := i;
        }
      }
    }

    /** update_lru: Refresh gives `column` the newest stamp of its set; Evict picks the first way
        with the oldest stamp, writes it back if it is dirty under write-back, cleans it and gives
        it the newest stamp. Only row `row` of lru and dirty changes. The ghost parameters name
        that row of lru and of dirty on entry. */
    method UpdateLru(row: nat, column: nat, operation: StampOp, ghost stamps: seq<nat>, ghost flags: seq<bool>)
      returns (evicted: nat)
      requires Shape() && RowIs(lru, row, stamps) && RowIs(dirty, row, flags)
      requires operation == Refresh ==> column < assoc
      modifies this`memoryWrites, lru, dirty
      ensures forall r, w :: 0 <= r < numSets && 0 <= w < assoc && r != row ==>
                lru[r, w] == old(lru[r, w]) && dirty[r, w] == old(dirty[r, w])
      ensures operation == Refresh ==>
                && evicted == 0
                && memoryWrites == old(memoryWrites)
                && RowIs(dirty, row, flags)
                && RowIs(lru, row, Touch(stamps, column))
      ensures operation == Evict ==>
                && evicted == FirstMin(stamps)
                && memoryWrites == old(memoryWrites) + (if wb == WriteBack && flags[evicted] then 1 else 0)
                && RowIs(dirty, row, flags[evicted := false])
                && RowIs(lru, row, Touch(stamps, evicted))
    {
      if operation == Refresh {
        var max := FindMax(lru, row, stamps);
        lru[row, column] := max + 1;
        return 0;
      }
      evicted := FindMin(lru, row, stamps);
      if wb == WriteBack {
        if dirty[row, evicted] {
          memoryWrites := memoryWrites + 1;
        }
      }
      dirty[row, evicted] := false;
      var max := FindMax(lru, row, stamps);
      lru[row, evicted] := max + 1;
    }

    /** update_fifo: Refresh gives `column` the newest fifo stamp of its set. Evict picks its
        victim from the lru array (not from fifo), writes it back if it is dirty under write-back,
        cleans it, zeroes its fifo stamp and then gives it the newest one.
        Only row `row` of fifo and dirty changes. */
    method UpdateFifo(row: nat, column: nat, operation: StampOp,
                      ghost stamps: seq<nat>, ghost lruStamps: seq<nat>, ghost flags: seq<bool>)
      returns (evicted: nat)
      requires Shape() && RowIs(fifo, row, stamps) && RowIs(lru, row, lruStamps) && RowIs(dirty, row, flags)
      requires operation == Refresh ==> column < assoc
      modifies this`memoryWrites, fifo, dirty
      ensures forall r, w :: 0 <= r < numSets && 0 <= w < assoc && r != row ==>
                fifo[r, w] == old(fifo[r, w]) && dirty[r, w] == old(dirty[r, w])
      ensures operation == Refresh ==>
                && evicted == 0
                && memoryWrites == old(memoryWrites)
                && RowIs(dirty, row, flags)
                && RowIs(fifo, row, Touch(stamps, column))
      ensures operation == Evict ==>
                && evicted == FirstMin(lruStamps)
                && memoryWrites == old(memoryWrites) + (if wb == WriteBack && flags[evicted] then 1 else 0)
                && RowIs(dirty, row, flags[evicted := false])
                && RowIs(fifo, row, Touch(stamps[evicted := 0], evicted))
    {
      if operation == Refresh {
        var max := FindMax(fifo, row, stamps);
        fifo[row, column] := max + 1;
        return 0;
      }
      evicted := FindMin(lru, row, lruStamps);
      if wb == WriteBack {
        if dirty[row, evicted] {
          memoryWrites := memoryWrites + 1;
        }
      }
      dirty[row, evicted] := false;
      fifo[row, evicted] := 0;
      var max := FindMax(fifo, row, stamps[evicted := 0]);
      fifo[row, evicted] := max + 1;
    }

    /** The end of every block of simulate: a 'W' counts one memory write under write-through
        and marks the way dirty under write-back; anything else changes nothing. */
    method WritePolicyTail(index: nat, way: nat, op: char, ghost s: SetState)
      requires Shape() && index < numSets && way < assoc && Holds(index, s)
      modifies this`memoryWrites, dirty
      ensures forall r, w :: 0 <= r < numSets && 0 <= w < assoc && r != index ==> dirty[r, w] == old(dirty[r, w])
      ensures misses == old(misses) && memoryReads == old(memoryReads)
      ensures var r := ApplyWrite(s, old(Counts()), op, way, wb);
        Holds(index, r.0) && Counts() == r.1
    {
      if op == Write {
        if wb == WriteThrough {
          memoryWrites := memoryWrites + 1;
        } else {
          dirty[index, way] := true;
        }
      }
    }

    /** The hit block of simulate: Lru refreshes the way, then the write policy. */
    method SimulateHit(index: nat, way: nat, op: char, ghost s: SetState)
      requires Shape() && index < numSets && way < assoc && Holds(index, s)
      modifies this`memoryWrites, lru, dirty
      ensures forall r, w :: 0 <= r < numSets && 0 <= w < assoc && r != index ==>
                lru[r, w] == old(lru[r, w]) && dirty[r, w] == old(dirty[r, w])
      ensures var r := Hit(s, old(Counts()), op, way, replace, wb);
        Holds(index, r.0) && Counts() == r.1
    {
      if replace == Lru {
        var _ := UpdateLru(index, way, Refresh, s.lru, s.dirty);
      }
      WritePolicyTail(index, way, op, if replace == Lru then s.(lru := Touch(s.lru, way)) else s);
    }

    /** The empty-way block of simulate: install the tag, count the miss and the read,
        stamp the way, then the write policy. */
    method SimulateFill(index: nat, way: nat, op: char, tag: nat, ghost s: SetState)
      requires Shape() && index < numSets && way < assoc && Holds(index, s)
      modifies this`misses, this`memoryReads, this`memoryWrites, tags, lru, fifo, dirty
      ensures forall r, w :: 0 <= r < numSets && 0 <= w < assoc && r != index ==>
                && tags[r, w] == old(tags[r, w]) && lru[r, w] == old(lru[r, w])
                && fifo[r, w] == old(fifo[r, w]) && dirty[r, w] == old(dirty[r, w])
      ensures var r := Fill(s, old(Counts()), op, tag, way, replace, wb);
        Holds(index, r.0) && Counts() == r.1
    {
      tags[index, way] := tag;
      misses := misses + 1;
      memoryReads := memoryReads + 1;
      ghost var s1 := s.(tags := s.tags[way := tag]);
      if replace == Lru {
        var _ := UpdateLru(index, way, Refresh, s.lru, s.dirty);
        s1 := s1.(lru := Touch(s.lru, way));
      } else {
        var _ := UpdateFifo(index, way, Refresh, s.fifo, s.lru, s.dirty);
        s1 := s1.(fifo := Touch(s.fifo, way));
      }
      WritePolicyTail(index, way, op, s1);
    }

    /** The policy branch of the full-set block: update_lru or update_fifo evicts a victim
        (counting its write-back), and the victim's way takes the tag. */
    method EvictAndInstall(index: nat, tag: nat, ghost s: SetState) returns (column: nat)
      requires Shape() && index < numSets && Holds(index, s)
      modifies this`memoryWrites, tags, lru, fifo, dirty
      ensures forall r, w :: 0 <= r < numSets && 0 <= w < assoc && r != index ==>
                && tags[r, w] == old(tags[r, w]) && lru[r, w] == old(lru[r, w])
                && fifo[r, w] == old(fifo[r, w]) && dirty[r, w] == old(dirty[r, w])
      ensures column == Victim(s)
      ensures memoryWrites == old(memoryWrites) + (if wb == WriteBack && s.dirty[column] then 1 else 0)
      ensures var stamped := if replace == Lru then s.(lru := Touch(s.lru, column))
                             else s.(fifo := Touch(s.fifo[column := 0], column));
        Holds(index, stamped.(tags := s.tags[column := tag], dirty := s.dirty[column := false]))
    {
      if replace == Lru {
        column := UpdateLru(index, 0, Evict, s.lru, s.dirty);
      } else {
        column := UpdateFifo(index, assoc, Evict, s.fifo, s.lru, s.dirty);
      }
      tags[index, column] := tag;
    }

    /** The full-set block of simulate: count the miss and the read, let the policy evict a
        victim and install the tag there, then the write policy. */
    method SimulateEvict(index: nat, op: char, tag: nat, ghost s: SetState)
      requires Shape() && index < numSets && Holds(index, s)
      modifies this`misses, this`memoryReads, this`memoryWrites, tags, lru, fifo, dirty
      ensures forall r, w :: 0 <= r < numSets && 0 <= w < assoc && r != index ==>
                && tags[r, w] == old(tags[r, w]) && lru[r, w] == old(lru[r, w])
                && fifo[r, w] == old(fifo[r, w]) && dirty[r, w] == old(dirty[r, w])
      ensures var r := Replace(s, old(Counts()), op, tag, replace, wb);
        Holds(index, r.0) && Counts() == r.1
    {
      misses := misses + 1;
      memoryReads := memoryReads + 1;
      var column := EvictAndInstall(index, tag, s);
      ghost var stamped := if replace == Lru then s.(lru := Touch(s.lru, column))
                           else s.(fifo := Touch(s.fifo[column := 0], column));
      WritePolicyTail(index, column, op, stamped.(tags := s.tags[column := tag], dirty := s.dirty[column := false]));
    }

    /** The body of simulate after the decode: look for the tag in set `index`, else for an
        empty way, else evict; the set becomes what CacheSpec.Access says. */
    method AccessSet(index: nat, op: char, tag: nat, ghost s: SetState)
      requires Shape() && index < numSets && Holds(index, s)
      modifies this`misses, this`memoryReads, this`memoryWrites, tags, lru, fifo, dirty
      ensures forall r, w :: 0 <= r < numSets && 0 <= w < assoc && r != index ==>
                && tags[r, w] == old(tags[r, w]) && lru[r, w] == old(lru[r, w])
                && fifo[r, w] == old(fifo[r, w]) && dirty[r, w] == old(dirty[r, w])
      ensures var r := Access(s, old(Counts()), op, tag, replace, wb);
        Holds(index, r.0) && Counts() == r.1
    {
      if op == Read || op == Write {
        // Look for the tag.
        var i := 0;
        while i < assoc && tags[index, i] != tag
          invariant 0 <= i <= assoc
          invariant forall j :: 0 <= j < i ==> s.tags[j] != tag
        {
          i := i + 1;
        }
        IndexOfIs(s.tags, tag, i);
        if i < assoc {
          SimulateHit(index, i, op, s);
          return;
        }
        // Look for an empty way.
        i := 0;
        while i < assoc && tags[index, i] != 0
          invariant 0 <= i <= assoc
          invariant forall j :: 0 <= j < i ==> s.tags[j] != 0
        {
          i := i + 1;
        }
        IndexOfIs(s.tags, 0, i);
        if i < assoc {
          SimulateFill(index, i, op, tag, s);
        } else {
          SimulateEvict(index, op, tag, s);
        }
      }
    }

    /** simulate: one access. Set SetIndex(address) and the counters become what CacheSpec.Access
        says of them; every other set is left as it was. */
    method Simulate(op: char, address: nat)
      requires Valid()
      modifies this, tags, lru, fifo, dirty
      ensures Valid()
      ensures accesses == old(accesses)
      ensures var index := SetIndex(address, numSets);
        var r := Access(old(sets[index]), old(Counts()), op, Tag(address, numSets), replace, wb);
        sets == old(sets)[index := r.0] && Counts() == r.1
    {
      var index := address / BlockSize % numSets;
      var tag := address / BlockSize / numSets;
      ghost var s0 := sets[index];
      ghost var r := Access(s0, Counts(), op, tag, replace, wb);
      CacheProperties.AccessPreservesInvariant(s0, Counts(), op, tag, replace, wb);
      CacheProperties.MissesAndReads(s0, Counts(), op, tag, replace, wb);
      assert Holds(index, s0);
      AccessSet(index, op, tag, s0);
      sets := sets[index := r.0];
    }

    /** main's loop without the file: one access counted and simulated per record. The sets
        and counters end as CacheSpec.Play says; hence every record adds at most one miss. */
    method Run(trace: seq<Record>)
      requires Valid()
      modifies this, tags, lru, fifo, dirty
      ensures Valid()
      ensures accesses == old(accesses) + |trace|
      ensures (sets, Counts()) == Play(old(sets), old(Counts()), trace, replace, wb)
      ensures old(misses) <= misses <= old(misses) + |trace|
    {
      ghost var sets0, counts0 := sets, Counts();
      assert AllWellShaped(sets0);
      for k := 0 to |trace|
        invariant Valid()
        invariant accesses == old(accesses) + k
        invariant (sets, Counts()) == Play(sets0, counts0, trace[..k], replace, wb)
      {
        CacheProperties.PlayPrefix(sets0, counts0, trace, k, replace, wb);
        accesses := accesses + 1;
        Simulate(trace[k].op, trace[k].address);
      }
      assert trace[..|trace|] == trace;
      CacheProperties.PlayKeepsInvariant(sets0, counts0, trace, replace, wb);
    }
  }
}
