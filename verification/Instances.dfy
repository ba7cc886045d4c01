/** Instance numbers of the port rows: the search for a free number, with
    wrap-around, and the list of rows kept in order of their numbers. */
module Instances {
  import opened Basics
  import Decimal
  import PortTable

  /** Instance numbers are unsigned and wrap round; `space` is how many there are
      (2^32 or 2^64), so they are the numbers below it, 0 being no instance. */
  datatype Row = Row(number: nat, name: string)

  // ----- the list

  ghost predicate Sorted(rows: seq<Row>) {
    forall i, j :: 0 <= i < j < |rows| ==> rows[i].number < rows[j].number
  }

  predicate InUse(rows: seq<Row>, n: nat) {
    exists i :: 0 <= i < |rows| && rows[i].number == n
  }

  function Numbers(rows: seq<Row>): set<nat> {
    set r | r in rows :: r.number
  }

  function Lookup(rows: seq<Row>, n: nat): (r: Option<Row>)
    ensures r.Some? <==> InUse(rows, n)
    ensures r.Some? ==> r.value in rows && r.value.number == n
  {
    if rows == [] then None
    else if rows[0].number == n then Some(rows[0])
    else
      var r := Lookup(rows[1..], n);
      assert InUse(rows, n) ==> InUse(rows[1..], n) by {
        if InUse(rows, n) {
          var i :| 0 <= i < |rows| && rows[i].number == n;
          assert rows[1..][i - 1] == rows[i];
        }
      }
      r
  }

  /** Where a row with number n is inserted: before the first greater one. */
  function Place(rows: seq<Row>, n: nat): (k: nat)
    ensures k <= |rows|
    ensures forall i :: 0 <= i < k ==> rows[i].number <= n
    ensures k < |rows| ==> n < rows[k].number
  {
    if rows == [] || n < rows[0].number then 0 else 1 + Place(rows[1..], n)
  }

  function Insert(rows: seq<Row>, r: Row): seq<Row> {
    var k := Place(rows, r.number);
    rows[..k] + [r] + rows[k..]
  }

  lemma PlaceSplits(rows: seq<Row>, n: nat, i: nat)
    requires Sorted(rows) && !InUse(rows, n) && i < |rows|
    ensures if i < Place(rows, n) then rows[i].number < n else n < rows[i].number
  {
    var k := Place(rows, n);
    assert rows[i].number != n;
    if k < i { assert rows[k].number < rows[i].number; }
  }

  /** The row at position i of the list after an insertion. */
  lemma InsertAt(rows: seq<Row>, r: Row, i: nat)
    requires i <= |rows|
    ensures var k := Place(rows, r.number);
      |Insert(rows, r)| == |rows| + 1
      && Insert(rows, r)[i] == if i < k then rows[i] else if i == k then r else rows[i - 1]
  {
  }

  /** Inserting a row with a free number keeps the list strictly sorted. */
  lemma InsertSorted(rows: seq<Row>, r: Row)
    requires Sorted(rows) && !InUse(rows, r.number)
    ensures Sorted(Insert(rows, r))
  {
    var k, q := Place(rows, r.number), Insert(rows, r);
    assert |q| == |rows| + 1;
    forall i, j | 0 <= i < j < |q|
      ensures q[i].number < q[j].number
    {
      InsertAt(rows, r, i);
      InsertAt(rows, r, j);
      if i < |rows| { PlaceSplits(rows, r.number, i); }
      if j > 0 { PlaceSplits(rows, r.number, j - 1); }
    }
  }

  lemma SortedLookup(rows: seq<Row>, i: nat)
    requires Sorted(rows) && i < |rows|
    ensures Lookup(rows, rows[i].number) == Some(rows[i])
  {
    assert InUse(rows, rows[i].number);
    var r := Lookup(rows, rows[i].number).value;
    var j :| 0 <= j < |rows| && rows[j] == r;
    assert i == j;
  }

  /** Lookup then finds the new row under its number, and every other row as before. */
  lemma InsertLookup(rows: seq<Row>, r: Row, n: nat)
    requires Sorted(rows) && !InUse(rows, r.number)
    ensures Lookup(Insert(rows, r), n) == if n == r.number then Some(r) else Lookup(rows, n)
  {
    var q, k := Insert(rows, r), Place(rows, r.number);
    InsertSorted(rows, r);
    if n == r.number {
      InsertAt(rows, r, k);
      SortedLookup(q, k);
    } else if InUse(rows, n) {
      var i :| 0 <= i < |rows| && rows[i].number == n;
      var j := if i < k then i else i + 1;
      InsertAt(rows, r, j);
      SortedLookup(rows, i);
      SortedLookup(q, j);
    } else {
      InsertUnused(rows, r, n);
    }
  }

  lemma InsertUnused(rows: seq<Row>, r: Row, n: nat)
    requires !InUse(rows, n) && n != r.number
    ensures Lookup(Insert(rows, r), n).None? && Lookup(rows, n).None?
  {
    var q := Insert(rows, r);
    forall i | 0 <= i < |q|
      ensures q[i].number != n
    {
      InsertAt(rows, r, i);
    }
  }

  // ----- the search

  /** The numbers in use, counted against all non-zero numbers. */
  lemma {:induction false} AllNumbers(space: nat, s: set<nat>)
    requires space > 0 && forall x: nat :: 0 < x < space ==> x in s
    ensures |s| >= space - 1
    decreases space
  {
    if space > 1 {
      var t := s - {space - 1};
      AllNumbers(space - 1, t);
      assert |s| == |t| + 1;
    }
  }

  lemma {:induction false} NumbersBound(rows: seq<Row>)
    ensures |Numbers(rows)| <= |rows|
  {
    if rows == [] {
      assert Numbers(rows) == {};
    } else {
      NumbersBound(rows[1..]);
      assert rows == [rows[0]] + rows[1..];
      assert Numbers(rows) == {rows[0].number} + Numbers(rows[1..]);
    }
  }

  lemma NotAllInUse(rows: seq<Row>, space: nat)
    requires space > 0 && |rows| < space - 1
    ensures exists x: nat :: 0 < x < space && !InUse(rows, x)
  {
    if forall x: nat :: 0 < x < space ==> InUse(rows, x) {
      forall x: nat | 0 < x < space
        ensures x in Numbers(rows)
      {
        assert InUse(rows, x);
      }
      AllNumbers(space, Numbers(rows));
      NumbersBound(rows);
    }
  }

  /** How many numbers the search passes from start before it comes to x; it
      starts at 1 instead of 0 and skips 0 when it wraps round. */
  function Steps(start: nat, x: nat, space: nat): int {
    var s := if start == 0 then 1 else start;
    if x >= s then x - s else x - s + space - 1
  }

  /** One more, in unsigned arithmetic with `space` values. */
  function Increment(n: nat, space: nat): nat {
    if n + 1 == space then 0 else n + 1
  }

  lemma IncrementWraps(n: nat, space: nat)
    requires n < space
    ensures Increment(n, space) == (n + 1) % space
  {
    if n + 1 < space { SmallMod(n + 1, space); }
  }

  lemma SmallMod(n: nat, space: nat)
    requires n < space
    ensures n % space == n
  {
  }

  function SkipZero(n: nat): nat {
    if n == 0 then 1 else n
  }

  lemma StepsAdvance(start: nat, n: nat, last: nat, space: nat)
    requires start < space && 0 < n < space && 0 < last < space
    requires Steps(start, n, space) < Steps(start, last, space)
    ensures var m := SkipZero(Increment(n, space));
      0 < m < space && Steps(start, m, space) == Steps(start, n, space) + 1
  {
  }

  lemma StepsInjective(start: nat, x: nat, y: nat, space: nat)
    requires start < space && 0 < x < space && 0 < y < space
    requires Steps(start, x, space) == Steps(start, y, space)
    ensures x == y
  {
  }

  /** All numbers the search passes before it comes to n are in use. */
  ghost predicate Passed(rows: seq<Row>, start: nat, n: nat, space: nat) {
    forall x: nat :: 0 < x < space && Steps(start, x, space) < Steps(start, n, space) ==> InUse(rows, x)
  }

  lemma PassOne(rows: seq<Row>, start: nat, n: nat, last: nat, space: nat)
    requires start < space && 0 < n < space && 0 < last < space
    requires Steps(start, n, space) < Steps(start, last, space)
    requires Passed(rows, start, n, space) && InUse(rows, n)
    ensures Passed(rows, start, SkipZero(Increment(n, space)), space)
  {
    StepsAdvance(start, n, last, space);
    forall x: nat | 0 < x < space && Steps(start, x, space) < Steps(start, n, space) + 1
      ensures InUse(rows, x)
    {
      if Steps(start, x, space) == Steps(start, n, space) { StepsInjective(start, x, n, space); }
    }
  }

  /** The first free number the search meets. */
  ghost predicate FirstFree(rows: seq<Row>, start: nat, n: nat, space: nat) {
    0 < n < space && !InUse(rows, n) && Passed(rows, start, n, space)
  }

  predicate Free(rows: seq<Row>, n: nat, space: nat) {
    0 < n < space && !InUse(rows, n)
  }

  ghost predicate LeastFree(rows: seq<Row>, from: nat, n: nat, space: nat) {
    from <= n && Free(rows, n, space) && forall x: nat :: from <= x < n ==> !Free(rows, x, space)
  }

  ghost predicate FreeFrom(rows: seq<Row>, start: nat, space: nat) {
    exists x: nat :: start <= x && Free(rows, x, space)
  }

  lemma FirstIsLeast(rows: seq<Row>, start: nat, n: nat, space: nat)
    requires start < space && FirstFree(rows, start, n, space)
    ensures LeastFree(rows, if FreeFrom(rows, start, space) then start else 0, n, space)
  {
    var from := if FreeFrom(rows, start, space) then start else 0;
    if FreeFrom(rows, start, space) {
      var x: nat :| start <= x && Free(rows, x, space);
      assert Steps(start, n, space) <= Steps(start, x, space);
    }
    forall x: nat | from <= x < n
      ensures !Free(rows, x, space)
    {
      assert Free(rows, n, space);
      assert Free(rows, x, space) ==> Steps(start, n, space) <= Steps(start, x, space);
      assert Free(rows, x, space) && !FreeFrom(rows, start, space) ==> x < start && n < start;
    }
  }

  lemma LeastIsFirst(rows: seq<Row>, start: nat, n: nat, space: nat)
    requires start < space
    requires LeastFree(rows, if FreeFrom(rows, start, space) then start else 0, n, space)
    ensures FirstFree(rows, start, n, space)
  {
    forall x: nat | 0 < x < space && Steps(start, x, space) < Steps(start, n, space)
      ensures InUse(rows, x)
    {
      assert Free(rows, x, space) <==> !InUse(rows, x);
    }
  }

  /** That is the least free number from start on, and when there is none, the least of
      all. */
  lemma FirstFreeIff(rows: seq<Row>, start: nat, n: nat, space: nat)
    requires start < space
    ensures FirstFree(rows, start, n, space)
        <==> LeastFree(rows, if FreeFrom(rows, start, space) then start else 0, n, space)
  {
    if FirstFree(rows, start, n, space) { FirstIsLeast(rows, start, n, space); }
    if LeastFree(rows, if FreeFrom(rows, start, space) then start else 0, n, space) {
      LeastIsFirst(rows, start, n, space);
    }
  }

  class PortRows {
    var rows: seq<Row>
    var next: nat
    const space: nat

    ghost predicate Valid()
      reads this
    {
      1 < space && next < space && Sorted(rows)
      && forall i :: 0 <= i < |rows| ==> 0 < rows[i].number < space
    }

    constructor (space: nat)
      requires space > 1
      ensures Valid() && rows == [] && next == 1 && this.space == space
    {
      this.space := space;
      rows, next := [], 1;
    }

    /** CosaSListGetEntryByInsNum */
    method GetEntry(n: nat) returns (r: Option<Row>)
      ensures r == Lookup(rows, n)
    {
      for i := 0 to |rows|
        invariant Lookup(rows, n) == Lookup(rows[i..], n)
      {
        if rows[i].number == n {
          return Some(rows[i]);
        }
        assert rows[i..][1..] == rows[i + 1..];
      }
      return None;
    }

    /** CosaSListPushEntryByInsNum */
    method PushEntry(r: Row)
      modifies this`rows
      ensures rows == Insert(old(rows), r)
    {
      for i := 0 to |rows|
        invariant rows == old(rows) && i + Place(rows[i..], r.number) == Place(rows, r.number)
      {
        if r.number < rows[i].number {
          rows := rows[..i] + [r] + rows[i..];
          return;
        }
        assert rows[i..][1..] == rows[i + 1..];
      }
      rows := rows + [r];
      assert old(rows) == old(rows)[..|old(rows)|];
    }

    /** The do-while loop of InitEthIfaceEntry: it ends even across the wrap-around
        because the rows cannot occupy every number. */
    method NextFree() returns (n: nat)
      requires Valid() && |rows| < space - 1
      modifies this`next
      ensures next == n
      ensures FirstFree(rows, old(next), n, space)
    {
      ghost var start := next;
      NotAllInUse(rows, space);
      ghost var free: nat :| 0 < free < space && !InUse(rows, free);
      while true
        invariant next < space && Steps(start, SkipZero(next), space) <= Steps(start, free, space)
        invariant Passed(rows, start, SkipZero(next), space)
        decreases Steps(start, free, space) - Steps(start, SkipZero(next), space)
      {
        if next == 0 {
          next := 1;
        }
        var r := GetEntry(next);
        if r.None? {
          break;
        }
        assert next != free;
        if Steps(start, next, space) == Steps(start, free, space) { StepsInjective(start, next, free, space); }
        StepsAdvance(start, next, free, space);
        PassOne(rows, start, next, free, space);
        next := Increment(next, space);
      }
      n := next;
    }

    /** InitEthIfaceEntry and EthRdkInterface_AddEntry, without the port table. */
    method AddEntry() returns (n: nat)
      requires Valid() && |rows| < space - 1
      modifies this
      ensures Valid()
      ensures 0 < n && !InUse(old(rows), n) && FirstFree(old(rows), old(next), n, space)
      ensures rows == Insert(old(rows), Row(n, RowName(n)))
      ensures next == Increment(n, space)
    {
      n := NextFree();
      var row := Row(n, "eth" + Decimal.Print(n - 1));
      InsertSorted(rows, row);
      next := Increment(next, space);
      PushEntry(row);
    }
  }

  /** The port name a new row is given. */
  function RowName(n: nat): string
    requires n > 0
  {
    "eth" + Decimal.Print(n - 1)
  }

  /** The row and the port table entry made for it in one call carry the same name
      if and only if the row's number is one more than the length of the table. */
  lemma RowNamesPortIff(n: nat, total: nat)
    requires 0 < n < 0x1_0000_0000 && total < 0x1_0000_0000
    ensures RowName(n) == PortTable.Fresh(total).name <==> n == total + 1
  {
    Decimal.PrintLength32(n - 1);
    PortTable.EthNameInjective(n - 1, total);
  }
}
