/** The space-separated list of LAN bridge members: removing a name from it in
    place, and adding and removing ports over time. */
module LanMembers {
  import opened Splitting

  /** Size of the buffer that holds the list. */
  const STR_SIZE: nat := 512

  /** Size of the buffer that the stored list is read into. */
  const READ_SIZE: nat := 128

  /** The trim after the loop reads before the start of an empty text; the read writes
      past the end of its buffer. */
  datatype Outcome = Text(s: string) | OutOfBounds | Overrun

  /** The tokens that do not contain the name, in order. */
  function Without(ws: seq<string>, sub: string): seq<string> {
    if ws == [] then []
    else Without(ws[..|ws| - 1], sub) + if Contains(ws[|ws| - 1], sub) then [] else [ws[|ws| - 1]]
  }

  /** Every token followed by a space. */
  function Spaced(ws: seq<string>): string {
    if ws == [] then "" else Spaced(ws[..|ws| - 1]) + ws[|ws| - 1] + " "
  }

  /** strncat with a budget of n characters. */
  function Append(s: string, t: string, n: nat): string {
    s + if |t| <= n then t else t[..n]
  }

  lemma {:induction false} SpacedIsJoined(ws: seq<string>)
    requires ws != []
    ensures Spaced(ws) == Join(ws, ' ') + " "
  {
    var n := |ws| - 1;
    if n > 0 {
      SpacedIsJoined(ws[..n]);
      JoinSnoc(ws[..n], ws[n]);
      assert ws[..n] + [ws[n]] == ws;
    }
  }

  lemma {:induction false} JoinSnoc(ws: seq<string>, w: string)
    requires ws != []
    ensures Join(ws + [w], ' ') == Join(ws, ' ') + " " + w
  {
    if |ws| == 1 {
      assert (ws + [w])[1..] == [w];
    } else {
      assert (ws + [w])[1..] == ws[1..] + [w];
      JoinSnoc(ws[1..], w);
    }
  }

  lemma WithoutSnoc(ws: seq<string>, w: string, sub: string)
    ensures Without(ws + [w], sub) == Without(ws, sub) + if Contains(w, sub) then [] else [w]
  {
    assert (ws + [w])[..|ws|] == ws;
  }

  lemma SpacedSnoc(ws: seq<string>, w: string)
    ensures Spaced(ws + [w]) == Spaced(ws) + w + " "
  {
    assert (ws + [w])[..|ws|] == ws;
  }

  lemma {:induction false} WithoutMember(ws: seq<string>, sub: string, w: string)
    ensures w in Without(ws, sub) <==> w in ws && !Contains(w, sub)
  {
    if ws != [] {
      var n := |ws| - 1;
      WithoutMember(ws[..n], sub, w);
      assert ws == ws[..n] + [ws[n]];
    }
  }

  /** Each token is kept or dropped by itself: none is moved, merged or repeated. */
  lemma {:induction false} WithoutConcat(a: seq<string>, b: seq<string>, sub: string)
    ensures Without(a + b, sub) == Without(a, sub) + Without(b, sub)
  {
    if b == [] {
      assert a + b == a;
    } else {
      var n := |b| - 1;
      assert a + b == a + b[..n] + [b[n]];
      WithoutSnoc(a + b[..n], b[n], sub);
      WithoutConcat(a, b[..n], sub);
    }
  }

  lemma WithoutOne(w: string, sub: string)
    ensures Without([w], sub) == if Contains(w, sub) then [] else [w]
  {
    assert [w][..0] == [];
  }

  /** What the buffer holds after the kept tokens ws, the scan being at pos: all of
      them with their spaces, or, at the end, all but the very last space. */
  ghost predicate Holds(tmp: string, ws: seq<string>, pos: nat, end: nat) {
    || (tmp == Spaced(ws) && |tmp| <= pos)
    || (pos == end && ws != [] && (tmp == Spaced(ws) || tmp + " " == Spaced(ws)))
  }

  /** Appending a token within the shrinking budget never cuts it. */
  lemma KeepToken(tmp: string, ws: seq<string>, w: string, pos: nat, next: nat, end: nat)
    requires tmp == Spaced(ws) && |tmp| <= pos
    requires pos + |w| <= next <= end && (next == pos + |w| ==> next == end)
    ensures var t := Append(tmp, w, end - |tmp|);
      |t| <= end && Holds(Append(t, " ", end - |t|), ws + [w], next, end)
  {
    SpacedSnoc(ws, w);
    assert Append(tmp, w, end - |tmp|) == tmp + w;
  }

  lemma Trim(tmp: string, ws: seq<string>)
    requires ws != [] && (forall w :: w in ws ==> IsToken(w, ' '))
    requires tmp == Spaced(ws) || tmp + " " == Spaced(ws)
    ensures tmp != ""
    ensures (if tmp[|tmp| - 1] == ' ' then tmp[..|tmp| - 1] else tmp) == Join(ws, ' ')
  {
    SpacedIsJoined(ws);
    var j, last := Join(ws, ' '), ws[|ws| - 1];
    JoinEndsWithToken(ws);
    if tmp + " " == Spaced(ws) {
      assert tmp == (tmp + " ")[..|tmp|] == j;
    } else {
      assert tmp[..|tmp| - 1] == j;
    }
  }

  lemma {:induction false} JoinEndsWithToken(ws: seq<string>)
    requires ws != [] && (forall w :: w in ws ==> IsToken(w, ' '))
    ensures var j := Join(ws, ' '); j != "" && j[|j| - 1] != ' '
  {
    if |ws| == 1 {
      assert ws[0] in ws;
      assert ws[0][|ws[0]| - 1] in ws[0];
    } else {
      JoinEndsWithToken(ws[1..]);
    }
  }

  /** The loop over the tokens, with its budget that shrinks as the text grows. */
  method Collect(s: string, sub: string) returns (tmp: string)
    ensures |tmp| <= |s| && Holds(tmp, Without(Tokens(s, ' '), sub), |s|, |s|)
  {
    var pos := 0;
    tmp := "";
    ghost var done: seq<string> := [];
    assert s[0..] == s;
    while true
      invariant pos <= |s| && |tmp| <= |s|
      invariant Tokens(s, ' ') == done + Tokens(s[pos..], ' ')
      invariant Holds(tmp, Without(done, sub), pos, |s|)
      decreases |s| - pos
    {
      var token, next := NextToken(s, pos, ' ');
      if token.None? {
        assert done == Tokens(s, ' ');
        break;
      }
      var w := token.value;
      WithoutSnoc(done, w, sub);
      assert Without(done, sub) + [] == Without(done, sub);
      if !Contains(w, sub) {
        KeepToken(tmp, Without(done, sub), w, pos, next, |s|);
        tmp := Append(tmp, w, |s| - |tmp|);
        tmp := Append(tmp, " ", |s| - |tmp|);
      }
      done, pos := done + [w], next;
    }
  }

  /** removeSubStrWithSpace: the tokens that do not contain the name, in order and
      single-spaced; out of bounds exactly when none remains. */
  method RemoveSubStr(s: string, sub: string) returns (r: Outcome)
    requires |s| < STR_SIZE
    ensures var kept := Without(Tokens(s, ' '), sub);
      r == if kept == [] then OutOfBounds else Text(Join(kept, ' '))
  {
    // No longer than s, so the copy back into the buffer of STR_SIZE keeps it whole.
    var text := Collect(s, sub);
    ghost var kept := Without(Tokens(s, ' '), sub);
    TokensShape(s, ' ');
    KeptShape(Tokens(s, ' '), sub);
    if kept != [] { Trim(text, kept); }
    if text == "" {
      return OutOfBounds;
    }
    if text[|text| - 1] == ' ' {
      text := text[..|text| - 1];
    }
    return Text(text);
  }

  lemma KeptShape(ws: seq<string>, sub: string)
    requires forall w :: w in ws ==> IsToken(w, ' ')
    ensures forall w :: w in Without(ws, sub) ==> IsToken(w, ' ')
  {
    forall w | w in Without(ws, sub)
      ensures IsToken(w, ' ')
    {
      WithoutMember(ws, sub, w);
    }
  }

  // ----- the list over time

  /** What fits into a port's name field. */
  type PortName = s: string | |s| < 64

  /** A call of EthMgr_AddPortToLanBridge. */
  datatype Call = Call(name: PortName, add: bool)

  /** The list after the call. */
  function Update(list: string, call: Call): Outcome {
    if |list| >= READ_SIZE then Overrun
    else if call.add then Text(if Contains(list, call.name) then list else list + " " + call.name)
    else if !Contains(list, call.name) then Text(list)
    else
      var kept := Without(Tokens(list, ' '), call.name);
      if kept == [] then OutOfBounds else Text(Join(kept, ' '))
  }

  /** EthMgr_AddPortToLanBridge with the settings store answering. */
  method AddPortToLanBridge(list: string, call: Call) returns (r: Outcome)
    ensures r == Update(list, call)
  {
    if |list| + 1 > READ_SIZE {
      return Overrun;
    }
    if call.add {
      if Contains(list, call.name) {
        return Text(list);
      }
      // 127 + 1 + 63 characters at most, so the buffer of STR_SIZE takes them whole.
      return Text(list + " " + call.name);
    }
    if Contains(list, call.name) {
      r := RemoveSubStr(list, call.name);
      return r;
    }
    return Text(list);
  }

  /** The list after the calls, up to the first that fails. */
  function RunCalls(list: string, calls: seq<Call>): Outcome {
    if calls == [] then Text(list)
    else
      var r := RunCalls(list, calls[..|calls| - 1]);
      if r.Text? then Update(r.s, calls[|calls| - 1]) else r
  }

  // ----- the list as names

  predicate Occurs(ws: seq<string>, name: string) {
    exists w :: w in ws && Contains(w, name)
  }

  /** Length of the names with one separator each. */
  function Total(ws: seq<string>): nat {
    if ws == [] then 0 else Total(ws[..|ws| - 1]) + |ws[|ws| - 1]| + 1
  }

  /** The listed names, and how much longer the text is than they need. */
  datatype Names = Names(ws: seq<string>, slack: int)

  function NamesOf(list: string): Names {
    var ws := Tokens(list, ' ');
    Names(ws, |list| + 1 - Total(ws))
  }

  /** An add is refused when the name occurs inside a listed one; a removal drops every
      name it occurs in, and the blanks to spare. */
  function Change(l: Names, call: Call): Names {
    if call.add then (if Occurs(l.ws, call.name) then l else Names(l.ws + [call.name], l.slack))
    else if Occurs(l.ws, call.name) then Names(Without(l.ws, call.name), 0)
    else l
  }

  function Changes(l: Names, calls: seq<Call>): Names {
    if calls == [] then l else Change(Changes(l, calls[..|calls| - 1]), calls[|calls| - 1])
  }

  predicate TooLong(l: Names) {
    Total(l.ws) + l.slack > READ_SIZE
  }

  /** The call takes away every name there is. */
  predicate Empties(l: Names, call: Call) {
    !call.add && l.ws != [] && forall w :: w in l.ws ==> Contains(w, call.name)
  }

  ghost predicate Proper(calls: seq<Call>) {
    forall call :: call in calls ==> IsToken(call.name, ' ')
  }

  lemma {:induction false} JoinLength(ws: seq<string>)
    requires ws != []
    ensures |Join(ws, ' ')| + 1 == Total(ws)
  {
    var n := |ws| - 1;
    if n > 0 {
      JoinLength(ws[..n]);
      JoinSnoc(ws[..n], ws[n]);
      assert ws[..n] + [ws[n]] == ws;
    } else {
      assert ws[..0] == [];
    }
  }

  lemma WithoutAllIff(ws: seq<string>, sub: string)
    ensures Without(ws, sub) == [] <==> forall w :: w in ws ==> Contains(w, sub)
  {
    var kept := Without(ws, sub);
    if kept != [] {
      WithoutMember(ws, sub, kept[0]);
    }
    forall w | w in ws && kept == []
      ensures Contains(w, sub)
    {
      WithoutMember(ws, sub, w);
    }
  }

  /** The exact effect of one call, whatever the names: it fails if and only if the
      text is too long to read or the last name goes, and otherwise changes the
      listed names and the length as described. */
  lemma UpdateMeaning(list: string, call: Call)
    requires IsToken(call.name, ' ')
    ensures var l, r := NamesOf(list), Update(list, call);
      && (r.Overrun? <==> TooLong(l))
      && (r.OutOfBounds? <==> !TooLong(l) && Empties(l, call))
      && (r.Text? ==> NamesOf(r.s) == Change(l, call))
  {
    var ws, kept := Tokens(list, ' '), Without(Tokens(list, ' '), call.name);
    ContainsInToken(list, call.name, ' ');
    WithoutAllIff(ws, call.name);
    TokensShape(list, ' ');
    if call.add && !Contains(list, call.name) {
      TokensConcat(list, ' ', call.name);
      TokensWhole(call.name, ' ');
      assert (ws + [call.name])[..|ws|] == ws;
    } else if !call.add && Contains(list, call.name) && kept != [] {
      KeptShape(ws, call.name);
      TokensJoin(kept, ' ');
      JoinLength(kept);
    }
  }

  /** Over every run the text stands for the names the calls leave. */
  lemma {:induction false} RunMeaning(list: string, calls: seq<Call>)
    requires Proper(calls)
    ensures var r := RunCalls(list, calls);
      r.Text? ==> NamesOf(r.s) == Changes(NamesOf(list), calls)
  {
    if calls != [] {
      var n := |calls| - 1;
      assert calls[n] in calls;
      RunMeaning(list, calls[..n]);
      var before := RunCalls(list, calls[..n]);
      if before.Text? { UpdateMeaning(before.s, calls[n]); }
    }
  }

  ghost predicate Fails(l: Names, calls: seq<Call>, n: nat)
    requires n < |calls|
  {
    var now := Changes(l, calls[..n]);
    TooLong(now) || Empties(now, calls[n])
  }

  /** A run fails if and only if, at some call, the listed names with their separators
      have become too long to read or the call takes away all of them. */
  lemma {:induction false} RunFailsIff(list: string, calls: seq<Call>)
    requires Proper(calls)
    ensures !RunCalls(list, calls).Text? <==> exists n :: 0 <= n < |calls| && Fails(NamesOf(list), calls, n)
  {
    if calls != [] {
      var n, l := |calls| - 1, NamesOf(list);
      var p := calls[..n];
      RunFailsIff(list, p);
      FailsPrefix(l, calls, n);
      if RunCalls(list, p).Text? {
        RunMeaning(list, p);
        assert calls[n] in calls;
        UpdateMeaning(RunCalls(list, p).s, calls[n]);
        assert Fails(l, calls, n) <==> !RunCalls(list, calls).Text?;
      }
    }
  }

  lemma FailsPrefix(l: Names, calls: seq<Call>, n: nat)
    requires n <= |calls|
    ensures forall k :: 0 <= k < n ==> (Fails(l, calls[..n], k) <==> Fails(l, calls, k))
  {
    forall k | 0 <= k < n
      ensures Fails(l, calls[..n], k) <==> Fails(l, calls, k)
    {
      assert calls[..n][..k] == calls[..k];
    }
  }

  // ----- adds that make the list too long to read

  function Adds(names: seq<PortName>): (calls: seq<Call>)
    ensures |calls| == |names| && forall i :: 0 <= i < |names| ==> calls[i] == Call(names[i], true)
  {
    seq(|names|, i requires 0 <= i < |names| => Call(names[i], true))
  }

  /** No name occurs inside an earlier one. */
  ghost predicate Fresh(names: seq<PortName>) {
    && (forall i :: 0 <= i < |names| ==> IsToken(names[i], ' '))
    && (forall i, j :: 0 <= i < j < |names| ==> !Contains(names[i], names[j]))
  }

  lemma {:induction false} AddsList(names: seq<PortName>)
    requires Fresh(names)
    ensures Changes(NamesOf(""), Adds(names)) == Names(names, 1)
  {
    if names == [] {
      assert Adds(names) == [];
    } else {
      var n := |names| - 1;
      AddsList(names[..n]);
      assert Adds(names)[..n] == Adds(names[..n]);
      assert names[..n] + [names[n]] == names;
    }
  }

  lemma {:induction false} AddsNeverEmpty(list: string, names: seq<PortName>)
    ensures !RunCalls(list, Adds(names)).OutOfBounds?
  {
    if names != [] {
      var n := |names| - 1;
      AddsNeverEmpty(list, names[..n]);
      assert Adds(names)[..n] == Adds(names[..n]);
    }
  }

  /** Starting from an empty list, adding names of 128 characters in all, separators
      included, makes the next call overrun the buffer, whatever it asks for. */
  lemma AddsOverrun(names: seq<PortName>, next: Call)
    requires Fresh(names) && Total(names) >= READ_SIZE && IsToken(next.name, ' ')
    ensures RunCalls("", Adds(names) + [next]) == Overrun
  {
    var calls := Adds(names) + [next];
    var n := |names|;
    assert calls[..n] == Adds(names) && calls[n] == next;
    AddsList(names);
    AddsNeverEmpty("", names);
    assert Proper(Adds(names));
    RunMeaning("", Adds(names));
    var before := RunCalls("", Adds(names));
    if before.Text? { UpdateMeaning(before.s, next); }
  }

  lemma NotInside(s: string, sub: string)
    requires sub != "" && sub[0] !in s
    ensures !Contains(s, sub)
  {
    forall i: nat | i + |sub| <= |s|
      ensures !OccursAt(s, sub, i)
    {
      assert s[i..i + |sub|][0] == s[i];
    }
  }

  function Repeat(c: char): PortName {
    seq(63, _ => c)
  }

  /** Two ports with names of full length suffice. */
  lemma TwoNamesOverrun(next: Call)
    requires IsToken(next.name, ' ')
    ensures RunCalls("", [Call(Repeat('a'), true), Call(Repeat('b'), true), next]) == Overrun
  {
    var a, b := Repeat('a'), Repeat('b');
    NotInside(a, b);
    assert [a, b][..1] == [a] && [a][..0] == [];
    assert Total([a]) == |a| + 1;
    assert Total([a, b]) == Total([a]) + |b| + 1;
    AddsOverrun([a, b], next);
    assert Adds([a, b]) + [next] == [Call(a, true), Call(b, true), next];
  }

  // ----- names that are not part of one another

  /** No port name is part of another. */
  ghost predicate Unrelated(names: set<PortName>) {
    forall a, b :: a in names && b in names && Contains(a, b) ==> a == b
  }

  ghost predicate Among(ws: seq<string>, names: set<PortName>) {
    forall w :: w in ws ==> w in names
  }

  ghost predicate Over(calls: seq<Call>, names: set<PortName>) {
    forall call :: call in calls ==> call.name in names
  }

  ghost predicate AllTokens(names: set<PortName>) {
    forall a :: a in names ==> IsToken(a, ' ')
  }

  lemma ContainsItself(a: string)
    ensures Contains(a, a)
  {
    assert OccursAt(a, a, 0);
  }

  /** What the last call about the name said, or what held before any. */
  predicate LastSaid(calls: seq<Call>, name: string, before: bool) {
    if calls == [] then before
    else if calls[|calls| - 1].name == name then calls[|calls| - 1].add
    else LastSaid(calls[..|calls| - 1], name, before)
  }

  /** Among unrelated names a call puts its name in or out and leaves the others alone. */
  lemma ChangeUnrelated(l: Names, names: set<PortName>, call: Call, name: PortName)
    requires Unrelated(names) && Among(l.ws, names) && call.name in names && name in names
    ensures Among(Change(l, call).ws, names)
    ensures name in Change(l, call).ws <==> if name == call.name then call.add else name in l.ws
  {
    ContainsItself(call.name);
    ContainsItself(name);
    forall w
      ensures w in Without(l.ws, call.name) <==> w in l.ws && !Contains(w, call.name)
    {
      WithoutMember(l.ws, call.name, w);
    }
  }

  /** Over every run that does not fail, for unrelated names, the list has a name if and
      only if the last call about it added it. */
  lemma {:induction false} RunMembership(l: Names, names: set<PortName>, calls: seq<Call>, name: PortName)
    requires Unrelated(names) && Among(l.ws, names) && Over(calls, names) && name in names
    ensures Among(Changes(l, calls).ws, names)
    ensures name in Changes(l, calls).ws <==> LastSaid(calls, name, name in l.ws)
  {
    if calls != [] {
      var n := |calls| - 1;
      assert calls[n] in calls;
      RunMembership(l, names, calls[..n], name);
      ChangeUnrelated(Changes(l, calls[..n]), names, calls[n], name);
    }
  }

  /** The last call about a name decides whether the list has it, over every run that
      does not fail and starts from an empty list. */
  ghost predicate LastCallDecides(names: set<PortName>) {
    forall calls, name ::
      Over(calls, names) && name in names && RunCalls("", calls).Text? ==>
        (name in Tokens(RunCalls("", calls).s, ' ') <==> LastSaid(calls, name, false))
  }

  /** That is so if and only if no name is part of another. */
  lemma LastCallDecidesIff(names: set<PortName>)
    requires AllTokens(names)
    ensures LastCallDecides(names) <==> Unrelated(names)
  {
    if Unrelated(names) {
      forall calls, name | Over(calls, names) && name in names && RunCalls("", calls).Text?
        ensures name in Tokens(RunCalls("", calls).s, ' ') <==> LastSaid(calls, name, false)
      {
        assert Proper(calls);
        RunMeaning("", calls);
        RunMembership(NamesOf(""), names, calls, name);
      }
    } else {
      var a, b :| a in names && b in names && Contains(a, b) && a != b;
      AddPartRefused(a, b);
    }
  }

  /** Adding a name that is part of a listed one is refused. */
  lemma AddPartRefused(a: PortName, b: PortName)
    requires IsToken(a, ' ') && IsToken(b, ' ') && Contains(a, b) && a != b
    ensures var calls, r := [Call(a, true), Call(b, true)], RunCalls("", [Call(a, true), Call(b, true)]);
      r.Text? && b !in Tokens(r.s, ' ') && LastSaid(calls, b, false)
  {
    var one := [Call(a, true)];
    var calls := [Call(a, true), Call(b, true)];
    assert calls[..1] == one && one[..0] == [] && [a][..0] == [];
    var r1 := Update("", one[0]);
    UpdateMeaning("", one[0]);
    assert RunCalls("", one) == r1;
    assert NamesOf(r1.s).ws == [a] && NamesOf(r1.s).slack == 1;
    assert Total([a]) == |a| + 1;
    assert Occurs([a], b) by { assert a in [a]; }
    UpdateMeaning(r1.s, calls[1]);
    assert RunCalls("", calls) == Update(r1.s, calls[1]);
  }
}
