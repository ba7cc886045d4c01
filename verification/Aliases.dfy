/** The rows of Device.Ethernet.Interface: aliases are set, validated against all
    other rows, and then committed or rolled back (SetParameterValues is atomic,
    section A.3.2.1 of TR-069). */
module Aliases {
  import Decimal

  /** COSA_DML_IF_NAME_LENGTH */
  const NAME_LENGTH: nat := 512

  /** A row of the data model and the entry it was loaded from. */
  datatype Row = Row(instance: nat, alias: string)

  datatype Set = Set(row: nat, alias: string)

  ghost predicate DistinctAliases(rows: seq<Row>) {
    forall i, j :: 0 <= i < |rows| && 0 <= j < |rows| && rows[i].alias == rows[j].alias ==> i == j
  }

  ghost predicate DistinctInstances(rows: seq<Row>) {
    forall i, j :: 0 <= i < |rows| && 0 <= j < |rows| && rows[i].instance == rows[j].instance ==> i == j
  }

  /** The entry of an instance number, or -1. */
  function EntryOf(entries: seq<Row>, instance: nat): (i: int)
    ensures -1 <= i < |entries|
    ensures i >= 0 ==> entries[i].instance == instance
    ensures i == -1 ==> forall k :: 0 <= k < |entries| ==> entries[k].instance != instance
  {
    if entries == [] then -1
    else if EntryOf(entries[..|entries| - 1], instance) >= 0 then EntryOf(entries[..|entries| - 1], instance)
    else if entries[|entries| - 1].instance == instance then |entries| - 1
    else -1
  }

  lemma EntryOfDistinct(entries: seq<Row>, i: nat)
    requires DistinctInstances(entries) && i < |entries|
    ensures EntryOf(entries, entries[i].instance) == i
  {
  }

  // ----- specification of a transaction

  predicate Accepts(alias: string) {
    |alias| < NAME_LENGTH - 1
  }

  function Assign(rows: seq<Row>, s: Set): seq<Row> {
    if s.row < |rows| && Accepts(s.alias) then rows[s.row := rows[s.row].(alias := s.alias)] else rows
  }

  function AssignAll(rows: seq<Row>, sets: seq<Set>): seq<Row> {
    if sets == [] then rows
    else Assign(AssignAll(rows, sets[..|sets| - 1]), sets[|sets| - 1])
  }

  predicate Validates(rows: seq<Row>, i: nat)
    requires i < |rows|
  {
    forall k :: 0 <= k < |rows| && k != i ==> rows[k].alias != rows[i].alias
  }

  predicate Touched(sets: seq<Set>, i: nat) {
    exists s :: s in sets && s.row == i
  }

  /** Every set is accepted and every touched row validates afterwards. */
  ghost predicate Succeeds(rows: seq<Row>, sets: seq<Set>) {
    var after := AssignAll(rows, sets);
    && (forall s :: s in sets ==> s.row < |rows| && Accepts(s.alias))
    && (forall i :: 0 <= i < |after| && Touched(sets, i) ==> Validates(after, i))
  }

  // ----- the code

  class Interfaces {
    /** EthernetPortFullTable[..].Cfg and g_EthEntries */
    var rows: seq<Row>
    var entries: seq<Row>

    /** The rows show what is committed, and nothing is ambiguous. */
    ghost predicate Settled()
      reads this
    {
      rows == entries && DistinctInstances(entries) && DistinctAliases(entries)
    }

    /** CosaEthInterfaceInitialize: no loaded row carries an instance number, so
        all are numbered and named in order. */
    constructor (total: nat)
      requires total < 0x1_0000_0000
      ensures Settled() && |rows| == total
      ensures forall i :: 0 <= i < total ==> rows[i] == Row(i + 1, "Interface" + Decimal.Print(i + 1))
    {
      rows := [];
      entries := [];
      new;
      var next := 1;
      for i := 0 to total
        invariant next == i + 1 && |rows| == i && rows == entries
        invariant forall k :: 0 <= k < i ==> rows[k] == Row(k + 1, "Interface" + Decimal.Print(k + 1))
      {
        rows := rows + [Row(next, "Interface" + Decimal.Print(next))];
        entries := entries + [Row(next, "Interface" + Decimal.Print(next))];
        next := next + 1;
      }
      forall i, j | 0 <= i < total && 0 <= j < total && rows[i].alias == rows[j].alias
        ensures i == j
      {
        assert rows[i].alias[9..] == Decimal.Print(i + 1) && rows[j].alias[9..] == Decimal.Print(j + 1);
        Decimal.PrintInjective(i + 1, j + 1);
      }
    }

    /** Interface_SetParamStringValue for Alias */
    method SetAlias(s: Set) returns (ok: bool)
      requires s.row < |rows|
      modifies this`rows
      ensures ok == Accepts(s.alias) && rows == Assign(old(rows), s)
    {
      if |s.alias| < NAME_LENGTH - 1 {
        rows := rows[s.row := rows[s.row].(alias := s.alias)];
        return true;
      }
      return false;
    }

    /** Interface_Validate */
    method Validate(i: nat) returns (ok: bool)
      requires i < |rows|
      ensures ok == Validates(rows, i)
    {
      for k := 0 to |rows|
        invariant forall j :: 0 <= j < k && j != i ==> rows[j].alias != rows[i].alias
      {
        if k != i && rows[i].alias == rows[k].alias {
          return false;
        }
      }
      return true;
    }

    /** getIF */
    method GetEntry(instance: nat) returns (i: int)
      ensures i == EntryOf(entries, instance)
    {
      for k := 0 to |entries|
        invariant EntryOf(entries[..k], instance) == -1
      {
        if entries[k].instance == instance {
          FirstEntry(entries, k, instance);
          return k;
        }
        assert entries[..k + 1][..k] == entries[..k];
      }
      assert entries[..|entries|] == entries;
      return -1;
    }

    /** Interface_Commit, the alias part of CosaDmlEthPortSetCfg */
    method Commit(i: nat)
      requires i < |rows|
      modifies this`entries
      ensures entries == CommitRow(rows, old(entries), i)
    {
      var e := GetEntry(rows[i].instance);
      if e == -1 {
        return;
      }
      if rows[i].alias != entries[e].alias {
        entries := entries[e := entries[e].(alias := rows[i].alias)];
      }
    }

    /** Interface_Rollback, the alias part of CosaDmlEthPortGetCfg */
    method Rollback(i: nat)
      requires i < |rows|
      modifies this`rows
      ensures rows == RollbackRow(old(rows), entries, i)
    {
      var e := GetEntry(rows[i].instance);
      if e == -1 {
        return;
      }
      rows := rows[i := Row(entries[e].instance, entries[e].alias)];
    }

    method SetAll(sets: seq<Set>) returns (ok: bool)
      requires forall s :: s in sets ==> s.row < |rows|
      modifies this`rows
      ensures rows == AssignAll(old(rows), sets)
      ensures ok <==> forall s :: s in sets ==> Accepts(s.alias)
    {
      ok := true;
      for n := 0 to |sets|
        invariant rows == AssignAll(old(rows), sets[..n]) && |rows| == |old(rows)|
        invariant ok <==> forall s :: s in sets[..n] ==> Accepts(s.alias)
      {
        assert sets[..n + 1][..n] == sets[..n] && sets[n] in sets;
        assert forall s :: s in sets[..n + 1] <==> s in sets[..n] || s == sets[n];
        var accepted := SetAlias(sets[n]);
        ok := ok && accepted;
      }
      assert sets[..|sets|] == sets;
    }

    method ValidateAll(sets: seq<Set>) returns (ok: bool)
      requires forall s :: s in sets ==> s.row < |rows|
      ensures ok <==> forall i :: 0 <= i < |rows| && Touched(sets, i) ==> Validates(rows, i)
    {
      ok := true;
      for n := 0 to |sets|
        invariant ok <==> forall k :: 0 <= k < n ==> Validates(rows, sets[k].row)
      {
        assert sets[n] in sets;
        var valid := Validate(sets[n].row);
        ok := ok && valid;
      }
      TouchedRows(sets, rows);
    }

    method CommitAll(sets: seq<Set>)
      requires SameInstances(entries, rows) && DistinctInstances(entries)
      requires forall s :: s in sets ==> s.row < |rows|
      modifies this`entries
      ensures entries == Merge(old(entries), rows, sets, |sets|)
    {
      for n := 0 to |sets|
        invariant |entries| == |rows| && entries == Merge(old(entries), rows, sets, n)
      {
        assert sets[n] in sets;
        CommitMerges(old(entries), rows, sets, n);
        Commit(sets[n].row);
      }
    }

    method RollbackAll(sets: seq<Set>)
      requires SameInstances(entries, rows) && DistinctInstances(entries)
      requires forall s :: s in sets ==> s.row < |rows|
      modifies this`rows
      ensures rows == Merge(old(rows), entries, sets, |sets|)
    {
      for n := 0 to |sets|
        invariant |entries| == |rows| && rows == Merge(old(rows), entries, sets, n)
      {
        assert sets[n] in sets;
        RollbackMerges(entries, old(rows), sets, n);
        Rollback(sets[n].row);
      }
    }

    /** One SetParameterValues request: set, validate every touched row, then
        commit all of them or roll all of them back. */
    method Transact(sets: seq<Set>) returns (ok: bool)
      requires Settled() && forall s :: s in sets ==> s.row < |rows|
      modifies this
      ensures Settled()
      ensures ok <==> Succeeds(old(rows), sets)
      ensures rows == if ok then AssignAll(old(rows), sets) else old(rows)
      ensures |entries| == |old(rows)|
      ensures forall i :: 0 <= i < |entries| ==>
        entries[i].instance == old(rows)[i].instance
        && entries[i].alias == if ok then LastAlias(sets, i, old(rows)[i].alias) else old(rows)[i].alias
    {
      ghost var start := rows;
      AssignShape(start, sets);
      var accepted := SetAll(sets);
      var valid := ValidateAll(sets);
      ok := accepted && valid;
      if ok {
        CommitAll(sets);
        MergeAll(start, rows, sets);
        SuccessDistinct(start, sets);
        forall i | 0 <= i < |start|
          ensures rows[i].alias == LastAlias(sets, i, start[i].alias)
        {
          AssignMeaning(start, sets, i);
        }
      } else {
        MergeBack(start, rows, sets);
        RollbackAll(sets);
      }
    }
  }

  lemma FirstEntry(entries: seq<Row>, k: nat, instance: nat)
    requires k < |entries| && EntryOf(entries[..k], instance) == -1 && entries[k].instance == instance
    ensures EntryOf(entries, instance) == k
    decreases |entries|
  {
    var n := |entries| - 1;
    if k < n {
      assert entries[..n][..k] == entries[..k];
      FirstEntry(entries[..n], k, instance);
    }
  }

  function CommitRow(rows: seq<Row>, entries: seq<Row>, i: nat): seq<Row>
    requires i < |rows|
  {
    var e := EntryOf(entries, rows[i].instance);
    if e == -1 then entries else entries[e := entries[e].(alias := rows[i].alias)]
  }

  function RollbackRow(rows: seq<Row>, entries: seq<Row>, i: nat): seq<Row>
    requires i < |rows|
  {
    var e := EntryOf(entries, rows[i].instance);
    if e == -1 then rows else rows[i := entries[e]]
  }

  // ----- what a transaction does

  /** Assigning changes only aliases, and only of touched rows. */
  lemma {:induction false} AssignShape(rows: seq<Row>, sets: seq<Set>)
    ensures var after := AssignAll(rows, sets);
      && |after| == |rows|
      && (forall i :: 0 <= i < |rows| ==> after[i].instance == rows[i].instance)
      && (forall i :: 0 <= i < |rows| && !Touched(sets, i) ==> after[i] == rows[i])
  {
    if sets != [] {
      var n := |sets| - 1;
      AssignShape(rows, sets[..n]);
      assert sets[n] in sets;
      assert forall s :: s in sets[..n] ==> s in sets;
    }
  }

  /** The alias of a row after the sets: the last one that names it, or the one before. */
  function LastAlias(sets: seq<Set>, i: nat, before: string): string {
    if sets == [] then before
    else if sets[|sets| - 1].row == i then sets[|sets| - 1].alias
    else LastAlias(sets[..|sets| - 1], i, before)
  }

  /** When all sets are accepted and in range, each row ends with the last alias set. */
  lemma {:induction false} AssignMeaning(rows: seq<Row>, sets: seq<Set>, i: nat)
    requires i < |rows| && forall s :: s in sets ==> s.row < |rows| && Accepts(s.alias)
    ensures i < |AssignAll(rows, sets)| && AssignAll(rows, sets)[i].alias == LastAlias(sets, i, rows[i].alias)
  {
    if sets != [] {
      var n := |sets| - 1;
      assert sets[n] in sets;
      AssignMeaning(rows, sets[..n], i);
      AssignShape(rows, sets[..n]);
    }
  }

  /** An alias that is too long changes nothing. */
  lemma {:induction false} RefusedChangesNothing(rows: seq<Row>, sets: seq<Set>)
    requires forall s :: s in sets ==> !Accepts(s.alias)
    ensures AssignAll(rows, sets) == rows
  {
    if sets != [] {
      var n := |sets| - 1;
      assert sets[n] in sets;
      RefusedChangesNothing(rows, sets[..n]);
    }
  }

  lemma TouchedRows(sets: seq<Set>, rows: seq<Row>)
    requires forall s :: s in sets ==> s.row < |rows|
    ensures (forall k :: 0 <= k < |sets| ==> Validates(rows, sets[k].row))
        <==> (forall i :: 0 <= i < |rows| && Touched(sets, i) ==> Validates(rows, i))
  {
    if forall k :: 0 <= k < |sets| ==> Validates(rows, sets[k].row) {
      forall i | 0 <= i < |rows| && Touched(sets, i)
        ensures Validates(rows, i)
      {
        var s :| s in sets && s.row == i;
        var k :| 0 <= k < |sets| && sets[k] == s;
        assert Validates(rows, sets[k].row);
      }
    }
    if forall i :: 0 <= i < |rows| && Touched(sets, i) ==> Validates(rows, i) {
      forall k | 0 <= k < |sets|
        ensures Validates(rows, sets[k].row)
      {
        assert sets[k] in sets && Touched(sets, sets[k].row);
      }
    }
  }

  /** The rows of b for the first n sets, the rows of a elsewhere. */
  function Merge(a: seq<Row>, b: seq<Row>, sets: seq<Set>, n: nat): (r: seq<Row>)
    requires |a| == |b| && n <= |sets|
    ensures |r| == |a| && forall i :: 0 <= i < |r| ==> r[i] == if Touched(sets[..n], i) then b[i] else a[i]
  {
    seq(|a|, i requires 0 <= i < |a| => if Touched(sets[..n], i) then b[i] else a[i])
  }

  ghost predicate SameInstances(a: seq<Row>, b: seq<Row>) {
    |a| == |b| && forall i :: 0 <= i < |a| ==> a[i].instance == b[i].instance
  }

  lemma TouchedNext(sets: seq<Set>, n: nat, i: nat)
    requires n < |sets|
    ensures Touched(sets[..n + 1], i) <==> Touched(sets[..n], i) || i == sets[n].row
  {
    assert sets[..n + 1] == sets[..n] + [sets[n]];
    if Touched(sets[..n], i) {
      var s :| s in sets[..n] && s.row == i;
      assert s in sets[..n + 1];
    }
    assert sets[n] in sets[..n + 1];
  }

  lemma MergeNext(a: seq<Row>, b: seq<Row>, sets: seq<Set>, n: nat)
    requires |a| == |b| && n < |sets| && sets[n].row < |a|
    ensures Merge(a, b, sets, n + 1) == Merge(a, b, sets, n)[sets[n].row := b[sets[n].row]]
  {
    var r, q := Merge(a, b, sets, n + 1), Merge(a, b, sets, n)[sets[n].row := b[sets[n].row]];
    forall i | 0 <= i < |r|
      ensures r[i] == q[i]
    {
      TouchedNext(sets, n, i);
    }
  }

  lemma CommitMerges(start: seq<Row>, after: seq<Row>, sets: seq<Set>, n: nat)
    requires SameInstances(start, after) && DistinctInstances(start)
    requires n < |sets| && sets[n].row < |start|
    ensures CommitRow(after, Merge(start, after, sets, n), sets[n].row) == Merge(start, after, sets, n + 1)
  {
    var m, i := Merge(start, after, sets, n), sets[n].row;
    assert DistinctInstances(m) by {
      forall j, k | 0 <= j < |m| && 0 <= k < |m| && m[j].instance == m[k].instance
        ensures j == k
      {
        assert start[j].instance == start[k].instance;
      }
    }
    EntryOfDistinct(m, i);
    MergeNext(start, after, sets, n);
  }

  lemma RollbackMerges(start: seq<Row>, after: seq<Row>, sets: seq<Set>, n: nat)
    requires SameInstances(start, after) && DistinctInstances(start)
    requires n < |sets| && sets[n].row < |start|
    ensures RollbackRow(Merge(after, start, sets, n), start, sets[n].row) == Merge(after, start, sets, n + 1)
  {
    var i := sets[n].row;
    EntryOfDistinct(start, i);
    MergeNext(after, start, sets, n);
  }

  lemma MergeAll(start: seq<Row>, after: seq<Row>, sets: seq<Set>)
    requires after == AssignAll(start, sets) && |after| == |start|
    ensures Merge(start, after, sets, |sets|) == after
  {
    AssignShape(start, sets);
    assert sets[..|sets|] == sets;
  }

  lemma MergeBack(start: seq<Row>, after: seq<Row>, sets: seq<Set>)
    requires after == AssignAll(start, sets) && |after| == |start|
    ensures Merge(after, start, sets, |sets|) == start
  {
    AssignShape(start, sets);
    assert sets[..|sets|] == sets;
  }

  /** Validating the touched rows is enough to keep all aliases distinct. */
  lemma SuccessDistinct(start: seq<Row>, sets: seq<Set>)
    requires DistinctAliases(start) && DistinctInstances(start) && Succeeds(start, sets)
    ensures DistinctAliases(AssignAll(start, sets)) && DistinctInstances(AssignAll(start, sets))
  {
    var after := AssignAll(start, sets);
    AssignShape(start, sets);
    forall i, j | 0 <= i < |after| && 0 <= j < |after| && after[i].alias == after[j].alias
      ensures i == j
    {
      assert Touched(sets, i) || after[i] == start[i];
      assert Touched(sets, j) || after[j] == start[j];
    }
    forall i, j | 0 <= i < |after| && 0 <= j < |after| && after[i].instance == after[j].instance
      ensures i == j
    {
      assert start[i].instance == start[j].instance;
    }
  }

  // ----- runs

  /** The committed rows after a sequence of requests. */
  ghost function Requests(rows: seq<Row>, requests: seq<seq<Set>>): seq<Row>
    decreases requests
  {
    if requests == [] then rows
    else Requests(if Succeeds(rows, requests[0]) then AssignAll(rows, requests[0]) else rows, requests[1..])
  }

  /** Over every sequence of requests the committed aliases stay distinct and the
      instance numbers never change. */
  lemma {:induction false} RequestsStayDistinct(rows: seq<Row>, requests: seq<seq<Set>>)
    requires DistinctAliases(rows) && DistinctInstances(rows)
    ensures DistinctAliases(Requests(rows, requests)) && SameInstances(rows, Requests(rows, requests))
    decreases requests
  {
    if requests != [] {
      AssignShape(rows, requests[0]);
      if Succeeds(rows, requests[0]) {
        SuccessDistinct(rows, requests[0]);
        RequestsStayDistinct(AssignAll(rows, requests[0]), requests[1..]);
      } else {
        RequestsStayDistinct(rows, requests[1..]);
      }
    }
  }

  /** After a sequence of requests each row has the last alias that the last request sets
      for it if that request succeeds, and otherwise the alias it had before. */
  lemma {:induction false} LastRequest(rows: seq<Row>, requests: seq<seq<Set>>, last: seq<Set>, i: nat)
    requires i < |rows|
    ensures var before, after := Requests(rows, requests), Requests(rows, requests + [last]);
      && |before| == |after| == |rows|
      && after[i].alias == if Succeeds(before, last) then LastAlias(last, i, before[i].alias) else before[i].alias
    decreases requests
  {
    var all := requests + [last];
    if requests == [] {
      assert all[0] == last && all[1..] == [];
      AssignShape(rows, last);
      if Succeeds(rows, last) { AssignMeaning(rows, last, i); }
    } else {
      assert all[0] == requests[0] && all[1..] == requests[1..] + [last];
      AssignShape(rows, requests[0]);
      LastRequest(if Succeeds(rows, requests[0]) then AssignAll(rows, requests[0]) else rows, requests[1..], last, i);
    }
  }
}
