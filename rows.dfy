/** The scans the simulator runs over one set (one row of a 2-D array):
    the running maximum of find_max, the first minimum of find_min, the first
    matching way of the lookup scans, and the timestamp refresh of
    update_lru / update_fifo. */
module Rows {

  /** find_max after its first n iterations: the largest of 0 and row[0..n). */
  function MaxOfFirst(row: seq<nat>, n: nat): (m: nat)
    requires n <= |row|
    ensures forall j :: 0 <= j < n ==> row[j] <= m
    ensures m == 0 || exists j :: 0 <= j < n && row[j] == m
  {
    if n == 0 then 0
    else
      var m := MaxOfFirst(row, n - 1);
      if row[n - 1] > m then row[n - 1] else m
  }

  /** The value find_max returns: the largest stamp of the row, or 0 when there is none above 0. */
  function Max(row: seq<nat>): (m: nat)
    ensures forall j :: 0 <= j < |row| ==> row[j] <= m
    ensures m == 0 || exists j :: 0 <= j < |row| && row[j] == m
  {
    MaxOfFirst(row, |row|)
  }

  /** find_min after its first n iterations: the index of the first smallest entry of row[0..n).
      The comparison is strict, so a later equal entry never displaces an earlier one. */
  function FirstMinOfFirst(row: seq<nat>, n: nat): (k: nat)
    requires 1 <= n <= |row|
    ensures k < n
    ensures forall j :: 0 <= j < n ==> row[k] <= row[j]
    ensures forall j :: 0 <= j < k ==> row[k] < row[j]
  {
    if n == 1 then 0
    else
      var k := FirstMinOfFirst(row, n - 1);
      if row[n - 1] < row[k] then n - 1 else k
  }

  /** The way find_min returns: the lowest index holding the minimum of the row. */
  function FirstMin(row: seq<nat>): (k: nat)
    requires |row| >= 1
    ensures k < |row|
    ensures forall j :: 0 <= j < |row| ==> row[k] <= row[j]
    ensures forall j :: 0 <= j < k ==> row[k] < row[j]
  {
    FirstMinOfFirst(row, |row|)
  }

  /** The first way holding t, or |row| when no way does (the lookup loops of simulate). */
  function IndexOf(row: seq<nat>, t: nat): (k: nat)
    ensures k <= |row|
    ensures k < |row| ==> row[k] == t
    ensures forall j :: 0 <= j < k ==> row[j] != t
  {
    if row == [] then 0
    else if row[0] == t then 0
    else 1 + IndexOf(row[1..], t)
  }

  /** The three ensures of IndexOf pin its value down: a scan that stops at k computed it. */
  lemma IndexOfIs(row: seq<nat>, t: nat, k: nat)
    requires k <= |row|
    requires k < |row| ==> row[k] == t
    requires forall j :: 0 <= j < k ==> row[j] != t
    ensures IndexOf(row, t) == k
  {
  }

  /** Operation 1 of update_lru / update_fifo: the way gets max(0, largest stamp) + 1. */
  function Touch(stamps: seq<nat>, way: nat): (r: seq<nat>)
    requires way < |stamps|
    ensures |r| == |stamps|
    ensures forall j :: 0 <= j < |stamps| && j != way ==> r[j] == stamps[j]
    ensures forall j :: 0 <= j < |stamps| ==> stamps[j] < r[way]
  {
    stamps[way := Max(stamps) + 1]
  }

  /** After a refresh the touched way holds the unique maximum of the row. */
  lemma TouchIsUniqueMax(stamps: seq<nat>, way: nat)
    requires way < |stamps|
    ensures forall j :: 0 <= j < |stamps| && j != way ==> Touch(stamps, way)[j] < Touch(stamps, way)[way]
    ensures FirstMin(Touch(stamps, way)) != way || |stamps| == 1
  {
    var r := Touch(stamps, way);
    if |stamps| > 1 {
      var other := if way == 0 then 1 else 0;
      assert r[other] < r[way];
    }
  }

  /** A row of equal stamps (such as the all-zero row) always yields way 0 as its first minimum. */
  lemma FirstMinOfConstant(row: seq<nat>, c: nat)
    requires |row| >= 1
    requires forall j :: 0 <= j < |row| ==> row[j] == c
    ensures FirstMin(row) == 0
  {
    assert row[0] == c;
  }
}
