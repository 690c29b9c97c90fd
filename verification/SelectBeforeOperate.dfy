/**
 * Select before operate with several connections: the lock regions of command_handler.c as steps that can be taken in
 * any order, except that one connection handles one command after the other.
 */
module SelectBeforeOperate {
  import opened SelectTable

  /** C_SC_NA_1 and C_SE_NC_1; the table does not tell them apart. */
  datatype Command = Single | SetPoint

  /** Where a connection is in its command. */
  datatype Phase =
    | Idle
      /** isPreviouslySelected has read the clock, at `now`. */
    | Checking(ioa: int, command: Command, now: nat)
      /** The test has succeeded, and the entry has not been cleared; `select` tells which select was found. */
    | Clearing(ioa: int, command: Command, now: nat, select: nat)

  /** What happened, in order. */
  datatype Event =
    | Selected(connection: Connection, ioa: int, command: Command, time: nat)
    | Executed(connection: Connection, ioa: int, command: Command, time: nat)
    | Refused(connection: Connection, ioa: int, command: Command, time: nat)

  /**
   * The table, the clock and the phases; and, for the proof only, the history, for each entry the number of the select
   * that wrote it, and for each executed command the number of the select that it used.
   */
  datatype State = State(
    table: seq<Entry>,
    clock: nat,
    phases: map<Connection, Phase>,
    history: seq<Event>,
    origin: seq<nat>,
    used: map<nat, nat>)

  function PhaseOf(s: State, c: Connection): Phase {
    if c in s.phases then s.phases[c] else Idle
  }

  datatype Action =
    | Tick(d: nat)
    | Select(c: Connection, ioa: int, command: Command)
    | StartExecute(c: Connection, ioa: int, command: Command)
    | Check(c: Connection)
    | Clear(c: Connection)

  predicate Enabled(s: State, a: Action) {
    match a
    case Tick(d) => s.clock + d < WORD
    case Select(c, _, _) => PhaseOf(s, c).Idle?
    case StartExecute(c, _, _) => PhaseOf(s, c).Idle?
    case Check(c) => PhaseOf(s, c).Checking?
    case Clear(c) => PhaseOf(s, c).Clearing?
  }

  function Step(s: State, a: Action): State
    requires Enabled(s, a) && |s.table| == |s.origin|
  {
    match a
    case Tick(d) => s.(clock := s.clock + d)
    case Select(c, ioa, command) =>
      var k := Slot(s.table, ioa);
      s.(table := Stored(s.table, ioa, c, s.clock),
         origin := if k < |s.table| then s.origin[k := |s.history|] else s.origin,
         history := s.history + [Selected(c, ioa, command, s.clock)])
    case StartExecute(c, ioa, command) => s.(phases := s.phases[c := Checking(ioa, command, s.clock)])
    case Check(c) =>
      var p := PhaseOf(s, c);
      var k := FirstMatch(s.table, p.ioa, c);
      var r := s.(table := Checked(s.table, p.ioa, c, p.now));
      if InTime(s.table, p.ioa, c, p.now) then
        r.(phases := s.phases[c := Clearing(p.ioa, p.command, p.now, s.origin[k])])
      else
        r.(phases := s.phases[c := Idle], history := s.history + [Refused(c, p.ioa, p.command, p.now)])
    case Clear(c) =>
      var p := PhaseOf(s, c);
      s.(table := Cleared(s.table, p.ioa, c),
         phases := s.phases[c := Idle],
         used := s.used[|s.history| := p.select],
         history := s.history + [Executed(c, p.ioa, p.command, p.now)])
  }

  predicate Init(s: State) {
    && |s.table| == |s.origin| == MAX_SELECT_ENTRIES && (forall i :: 0 <= i < |s.table| ==> !s.table[i].isSelected)
    && s.clock < WORD && s.phases == map[] && s.history == [] && s.used == map[]
  }

  /** What a run ends with, or nothing when one of its steps is not possible. */
  datatype Outcome = Stuck | Reached(s: State)

  function Run(s: State, actions: seq<Action>): Outcome
    requires |s.table| == |s.origin|
    decreases |actions|
  {
    if actions == [] then Reached(s)
    else if !Enabled(s, actions[0]) then Stuck
    else Run(Step(s, actions[0]), actions[1..])
  }

  // ----- the invariant -----

  predicate Live(s: State, i: int) { 0 <= i < |s.table| && s.table[i].isSelected }

  /** Event `n` is a select of this point by this connection, at this time. */
  predicate IsSelect(history: seq<Event>, n: nat, c: Connection, ioa: int, time: nat) {
    n < |history| && history[n].Selected? && history[n].connection == c && history[n].ioa == ioa && history[n].time == time
  }

  /** Each entry in use comes from the select that its number says, and of entries for one point the first is the newest. */
  ghost predicate EntriesOk(s: State) {
    && |s.table| == |s.origin| == MAX_SELECT_ENTRIES && s.clock < WORD
    && (forall i :: Live(s, i) ==>
          && s.table[i].timestamp <= s.clock
          && IsSelect(s.history, s.origin[i], s.table[i].connection, s.table[i].ioa, s.table[i].timestamp))
    && (forall i, j :: i < j && Live(s, i) && Live(s, j) && s.table[i].ioa == s.table[j].ioa ==> s.origin[i] > s.origin[j])
  }

  /** The select was made before the clock was read, and less than the timeout before. */
  predicate Recent(history: seq<Event>, n: nat, now: nat) {
    n < |history| && history[n].Selected? && history[n].time <= now < history[n].time + SELECT_TIMEOUT_MS
  }

  /** What holds while connection `c` is in phase `p`. */
  ghost predicate PhaseOk(s: State, c: Connection, p: Phase) {
    match p
    case Idle => true
    case Checking(ioa, command, now) =>
      now <= s.clock && forall i :: Live(s, i) && s.table[i].connection == c ==> s.table[i].timestamp <= now
    case Clearing(ioa, command, now, select) =>
      && Recent(s.history, select, now) && s.history[select].connection == c && s.history[select].ioa == ioa
      && select !in s.used.Values
      && forall i :: 0 <= i < |s.table| && |s.table| == |s.origin| && Matches(s.table[i], ioa, c) ==> s.origin[i] <= select
  }

  /** Event `k` is an executed command that used select `n`, which was recent and of the same point and connection. */
  predicate Justified(history: seq<Event>, k: nat, n: nat) {
    && k < |history| && history[k].Executed? && n < k
    && Recent(history, n, history[k].time)
    && history[n].connection == history[k].connection && history[n].ioa == history[k].ioa
  }

  /** Every executed command is justified by a select, no two by the same one, and a used select is gone. */
  ghost predicate UsedOk(s: State) {
    && (forall k :: 0 <= k < |s.history| && s.history[k].Executed? ==> k in s.used)
    && (forall k :: k in s.used ==> Justified(s.history, k, s.used[k]))
    && (forall k, l :: k in s.used && l in s.used && k != l ==> s.used[k] != s.used[l])
    && (forall i, k :: Live(s, i) && i < |s.origin| && k in s.used ==> s.origin[i] != s.used[k])
  }

  ghost predicate Inv(s: State) {
    EntriesOk(s) && UsedOk(s) && forall c :: c in s.phases ==> PhaseOk(s, c, s.phases[c])
  }

  // ----- every step keeps it -----

  lemma HistoryGrows(h: seq<Event>, e: Event, k: nat, n: nat)
    requires Justified(h, k, n)
    ensures Justified(h + [e], k, n)
  {
  }

  /** A select changes at most one entry. */
  lemma SelectEntry(s: State, c: Connection, ioa: int, command: Command, i: int)
    requires EntriesOk(s) && Enabled(s, Select(c, ioa, command)) && Live(Step(s, Select(c, ioa, command)), i)
    ensures
      var s' := Step(s, Select(c, ioa, command));
      && IsSelect(s'.history, s'.origin[i], s'.table[i].connection, s'.table[i].ioa, s'.table[i].timestamp)
      && s'.table[i].timestamp <= s.clock
      && if i == Slot(s.table, ioa) then s'.table[i].ioa == ioa && s'.origin[i] == |s.history|
         else Live(s, i) && s'.table[i] == s.table[i] && s'.origin[i] == s.origin[i] && s.origin[i] < |s.history|
  {
    if i != Slot(s.table, ioa) {
      assert Live(s, i);
      assert IsSelect(s.history, s.origin[i], s.table[i].connection, s.table[i].ioa, s.table[i].timestamp);
    }
  }

  lemma SelectOrder(s: State, c: Connection, ioa: int, command: Command, i: int, j: int)
    requires EntriesOk(s) && Enabled(s, Select(c, ioa, command)) && i < j
    requires
      var s' := Step(s, Select(c, ioa, command));
      Live(s', i) && Live(s', j) && s'.table[i].ioa == s'.table[j].ioa
    ensures var s' := Step(s, Select(c, ioa, command)); s'.origin[i] > s'.origin[j]
  {
    SelectEntry(s, c, ioa, command, i);
    SelectEntry(s, c, ioa, command, j);
    assert i < Slot(s.table, ioa) ==> !Usable(s.table[i], ioa);
    hide Stored, FirstMatch, IsSelect;
  }

  lemma SelectEntries(s: State, c: Connection, ioa: int, command: Command)
    requires EntriesOk(s) && Enabled(s, Select(c, ioa, command))
    ensures
      var s' := Step(s, Select(c, ioa, command));
      && EntriesOk(s')
      && forall i :: Live(s', i) && i != Slot(s.table, ioa) ==>
           Live(s, i) && s'.table[i] == s.table[i] && s'.origin[i] == s.origin[i]
  {
    var s' := Step(s, Select(c, ioa, command));
    assert |s'.table| == |s'.origin| == MAX_SELECT_ENTRIES && s'.clock == s.clock;
    hide Step, Stored, IsSelect, Slot;
    forall i | Live(s', i)
      ensures s'.table[i].timestamp <= s'.clock
      ensures IsSelect(s'.history, s'.origin[i], s'.table[i].connection, s'.table[i].ioa, s'.table[i].timestamp)
      ensures i != Slot(s.table, ioa) ==> Live(s, i) && s'.table[i] == s.table[i] && s'.origin[i] == s.origin[i]
    {
      SelectEntry(s, c, ioa, command, i);
    }
    forall i, j | i < j && Live(s', i) && Live(s', j) && s'.table[i].ioa == s'.table[j].ioa
      ensures s'.origin[i] > s'.origin[j]
    {
      SelectOrder(s, c, ioa, command, i, j);
    }
  }

  lemma SelectKeeps(s: State, c: Connection, ioa: int, command: Command)
    requires Inv(s) && Enabled(s, Select(c, ioa, command))
    ensures Inv(Step(s, Select(c, ioa, command)))
  {
    var s' := Step(s, Select(c, ioa, command));
    SelectEntries(s, c, ioa, command);
    assert |s.table| == |s.origin|;
    hide EntriesOk, Stored, IsSelect;
    forall d | d in s'.phases ensures PhaseOk(s', d, s'.phases[d]) {
      assert PhaseOk(s, d, s.phases[d]);
      assert s.phases[d].Idle? || d != c;
    }
    forall n | n in s'.used ensures Justified(s'.history, n, s'.used[n]) {
      HistoryGrows(s.history, Selected(c, ioa, command, s.clock), n, s.used[n]);
    }
  }

  /** The entry that the test finds is a recent select, and the newest of this point and connection. */
  lemma CheckFound(s: State, c: Connection)
    requires Inv(s) && Enabled(s, Check(c)) && InTime(s.table, PhaseOf(s, c).ioa, c, PhaseOf(s, c).now)
    ensures
      var p := PhaseOf(s, c);
      var k := FirstMatch(s.table, p.ioa, c);
      PhaseOk(s, c, Clearing(p.ioa, p.command, p.now, s.origin[k]))
  {
    var p := PhaseOf(s, c);
    var k := FirstMatch(s.table, p.ioa, c);
    assert PhaseOk(s, c, p);
    assert Live(s, k);
    assert Recent(s.history, s.origin[k], p.now);
    forall i | 0 <= i < |s.table| && Matches(s.table[i], p.ioa, c) ensures s.origin[i] <= s.origin[k] {
      assert Live(s, i);
      assert k <= i;
    }
  }

  lemma CheckAccepts(s: State, c: Connection)
    requires Inv(s) && Enabled(s, Check(c)) && InTime(s.table, PhaseOf(s, c).ioa, c, PhaseOf(s, c).now)
    ensures Inv(Step(s, Check(c)))
  {
    var s' := Step(s, Check(c));
    CheckFound(s, c);
    assert s'.table == s.table && s'.origin == s.origin && s'.history == s.history && s'.used == s.used;
    hide InTime, Checked;
    forall d | d in s'.phases ensures PhaseOk(s', d, s'.phases[d]) {
      if d != c { assert PhaseOk(s, d, s.phases[d]); }
    }
  }

  lemma CheckRefuses(s: State, c: Connection)
    requires Inv(s) && Enabled(s, Check(c)) && !InTime(s.table, PhaseOf(s, c).ioa, c, PhaseOf(s, c).now)
    ensures Inv(Step(s, Check(c)))
  {
    var s' := Step(s, Check(c));
    var p := PhaseOf(s, c);
    assert forall i :: Live(s', i) ==> Live(s, i) && s'.table[i] == s.table[i];
    assert forall i :: 0 <= i < |s.table| && s'.table[i].isSelected ==> s'.table[i] == s.table[i];
    hide InTime, Checked, Cleared;
    assert EntriesOk(s');
    forall n | n in s'.used ensures Justified(s'.history, n, s'.used[n]) {
      HistoryGrows(s.history, Refused(c, p.ioa, p.command, p.now), n, s.used[n]);
    }
    forall d | d in s'.phases ensures PhaseOk(s', d, s'.phases[d]) {
      if d != c { assert PhaseOk(s, d, s.phases[d]); }
    }
  }

  lemma CheckKeeps(s: State, c: Connection)
    requires Inv(s) && Enabled(s, Check(c))
    ensures Inv(Step(s, Check(c)))
  {
    hide Inv, Step, InTime;
    if InTime(s.table, PhaseOf(s, c).ioa, c, PhaseOf(s, c).now) { CheckAccepts(s, c); } else { CheckRefuses(s, c); }
  }

  /** After clearing, the select that was found is no longer in the table. */
  lemma SelectIsGone(s: State, c: Connection, i: nat)
    requires Inv(s) && Enabled(s, Clear(c))
    requires i < |s.table| && Cleared(s.table, PhaseOf(s, c).ioa, c)[i].isSelected
    ensures s.origin[i] != PhaseOf(s, c).select
  {
    var p := PhaseOf(s, c);
    var k := FirstMatch(s.table, p.ioa, c);
    assert PhaseOk(s, c, p);
    assert Live(s, i);
    if s.origin[i] == p.select {
      assert IsSelect(s.history, s.origin[i], s.table[i].connection, s.table[i].ioa, s.table[i].timestamp);
      assert Matches(s.table[i], p.ioa, c);
      assert k <= i && Live(s, k);
    }
  }

  lemma ClearEntries(s: State, c: Connection)
    requires Inv(s) && Enabled(s, Clear(c))
    ensures EntriesOk(Step(s, Clear(c)))
    ensures forall i :: Live(Step(s, Clear(c)), i) ==> Live(s, i)
  {
    hide PhaseOk, UsedOk;
    var s' := Step(s, Clear(c));
    assert forall i :: Live(s', i) ==> Live(s, i) && s'.table[i] == s.table[i];
  }

  lemma ClearUsed(s: State, c: Connection)
    requires Inv(s) && Enabled(s, Clear(c))
    ensures UsedOk(Step(s, Clear(c)))
  {
    hide EntriesOk;
    LengthKept(s);
    var s' := Step(s, Clear(c));
    var p := PhaseOf(s, c);
    assert PhaseOk(s, c, p);
    var e := Executed(c, p.ioa, p.command, p.now);
    ClearEntries(s, c);
    assert forall n :: n in s.used ==> Justified(s.history, n, s.used[n]) && n < |s.history|;
    forall n | n in s'.used ensures Justified(s'.history, n, s'.used[n]) {
      if n != |s.history| { HistoryGrows(s.history, e, n, s.used[n]); }
    }
    forall n | n in s.used ensures s.used[n] != p.select {
      assert s.used[n] in s.used.Values;
    }
    forall i, n | Live(s', i) && i < |s'.origin| && n in s'.used ensures s'.origin[i] != s'.used[n] {
      if n == |s.history| { SelectIsGone(s, c, i); }
    }
  }

  lemma ClearKeeps(s: State, c: Connection)
    requires Inv(s) && Enabled(s, Clear(c))
    ensures Inv(Step(s, Clear(c)))
  {
    hide EntriesOk, UsedOk, PhaseOk;
    LengthKept(s);
    ClearEntries(s, c);
    ClearUsed(s, c);
    ClearIdles(s, c);
    var s' := Step(s, Clear(c));
    forall d | d in s'.phases ensures PhaseOk(s', d, s'.phases[d]) {
      if d != c { OtherPhase(s, c, d); }
    }
  }

  lemma ClearIdles(s: State, c: Connection)
    requires Inv(s) && Enabled(s, Clear(c))
    ensures PhaseOk(Step(s, Clear(c)), c, Idle)
  {
  }

  /** Clearing does not touch what other connections are about to clear. */
  lemma OtherPhase(s: State, c: Connection, d: Connection)
    requires Inv(s) && Enabled(s, Clear(c)) && d in s.phases && d != c
    ensures PhaseOk(Step(s, Clear(c)), d, s.phases[d])
  {
    var s' := Step(s, Clear(c));
    var p, q := PhaseOf(s, c), s.phases[d];
    assert PhaseOk(s, c, p) && PhaseOk(s, d, q);
    if q.Clearing? {
      forall n | n in s'.used ensures s'.used[n] != q.select {
        if n != |s.history| { assert s.used[n] in s.used.Values; }
      }
    }
  }

  lemma StepKeeps(s: State, a: Action)
    requires Inv(s) && Enabled(s, a)
    ensures Inv(Step(s, a))
  {
    match a
    case Tick(d) =>
      forall c | c in s.phases ensures PhaseOk(Step(s, a), c, s.phases[c]) { assert PhaseOk(s, c, s.phases[c]); }
    case Select(c, ioa, command) => SelectKeeps(s, c, ioa, command);
    case StartExecute(c, ioa, command) =>
      var s' := Step(s, a);
      forall d | d in s'.phases ensures PhaseOk(s', d, s'.phases[d]) {
        if d != c { assert PhaseOk(s, d, s.phases[d]); }
      }
    case Check(c) => CheckKeeps(s, c);
    case Clear(c) => ClearKeeps(s, c);
  }

  lemma {:induction false} RunKeeps(s: State, actions: seq<Action>)
    requires Inv(s) && Run(s, actions).Reached?
    ensures Inv(Run(s, actions).s)
    decreases |actions|
  {
    if actions != [] {
      StepKeeps(s, actions[0]);
      RunKeeps(Step(s, actions[0]), actions[1..]);
    }
  }

  /**
   * In every run there is an injection from executed commands to selects that came before: of the same point, by the
   * same connection, and less than the timeout before the execute read the clock.
   */
  lemma ExecutesInject(s: State, actions: seq<Action>) returns (used: map<nat, nat>)
    requires Init(s) && Run(s, actions).Reached?
    ensures
      var h := Run(s, actions).s.history;
      && (forall k :: 0 <= k < |h| && h[k].Executed? ==> k in used && Justified(h, k, used[k]))
      && (forall k, l :: k in used && l in used && k != l ==> used[k] != used[l])
  {
    RunKeeps(s, actions);
    used := Run(s, actions).s.used;
  }

  // ----- a select is honoured -----

  /** The select that event `n` is stands in the table. */
  predicate Holds(s: State, c: Connection, ioa: int, n: nat) {
    |s.table| == |s.origin| && exists i :: 0 <= i < |s.table| && Matches(s.table[i], ioa, c) && s.origin[i] == n
  }

  /** Steps that may touch what one connection has selected of one point. */
  predicate Interferes(a: Action, c: Connection, ioa: int) {
    || (a.Select? && a.ioa == ioa)
    || (a.StartExecute? && a.c == c && a.ioa == ioa)
  }

  /** The connection is not executing this point, or not yet at the test. */
  predicate Away(p: Phase, ioa: int) {
    p.Idle? || p.ioa != ioa
  }

  /** A step that does not interfere leaves the entries of this point and connection alone. */
  lemma MatchesStep(s: State, a: Action, c: Connection, ioa: int, i: nat)
    requires |s.table| == |s.origin| && Enabled(s, a) && !Interferes(a, c, ioa) && i < |s.table|
    requires Away(PhaseOf(s, c), ioa) || (a.Tick? || a.c != c)
    ensures |Step(s, a).table| == |Step(s, a).origin| == |s.table|
    ensures Matches(Step(s, a).table[i], ioa, c) <==> Matches(s.table[i], ioa, c)
    ensures Matches(s.table[i], ioa, c) ==> Step(s, a).origin[i] == s.origin[i]
  {
  }

  /** A step that does not interfere keeps the select, and makes no other one stand for it. */
  lemma HoldsStep(s: State, a: Action, c: Connection, ioa: int, n: nat)
    requires Inv(s) && Enabled(s, a) && !Interferes(a, c, ioa)
    requires Away(PhaseOf(s, c), ioa) || (a.Tick? || a.c != c)
    ensures Holds(Step(s, a), c, ioa, n) <==> Holds(s, c, ioa, n)
    ensures a.Tick? || a.c != c ==> PhaseOf(Step(s, a), c) == PhaseOf(s, c)
    ensures s.history <= Step(s, a).history
    ensures Away(PhaseOf(s, c), ioa) ==> Away(PhaseOf(Step(s, a), c), ioa)
  {
    assert |s.table| == |s.origin| && |Step(s, a).table| == |s.table|;
    hide Inv, Stored, Checked, Cleared, InTime, Matches;
    forall i: nat | i < |s.table|
      ensures Matches(Step(s, a).table[i], ioa, c) <==> Matches(s.table[i], ioa, c)
      ensures Matches(s.table[i], ioa, c) ==> Step(s, a).origin[i] == s.origin[i]
    {
      MatchesStep(s, a, c, ioa, i);
    }
  }

  predicate Quiet(actions: seq<Action>, c: Connection, ioa: int) {
    forall a :: a in actions ==> !Interferes(a, c, ioa)
  }

  predicate OnlyOthers(actions: seq<Action>, c: Connection) {
    forall a :: a in actions ==> a.Tick? || a.c != c
  }

  lemma {:induction false} HoldsRun(s: State, actions: seq<Action>, c: Connection, ioa: int, n: nat)
    requires Inv(s) && Run(s, actions).Reached? && Quiet(actions, c, ioa)
    requires Away(PhaseOf(s, c), ioa) || OnlyOthers(actions, c)
    ensures
      var s' := Run(s, actions).s;
      && Inv(s') && s.history <= s'.history
      && (Holds(s', c, ioa, n) <==> Holds(s, c, ioa, n))
      && (OnlyOthers(actions, c) ==> PhaseOf(s', c) == PhaseOf(s, c))
    decreases |actions|
  {
    if actions != [] {
      hide Inv, Step, Holds, PhaseOf;
      assert actions[0] in actions && forall a :: a in actions[1..] ==> a in actions;
      StepKeepsLength(s, actions[0]);
      HoldsStep(s, actions[0], c, ioa, n);
      StepKeeps(s, actions[0]);
      HoldsRun(Step(s, actions[0]), actions[1..], c, ioa, n);
    }
  }

  lemma StepKeepsLength(s: State, a: Action)
    requires Inv(s) && Enabled(s, a)
    ensures |s.table| == |s.origin| && |Step(s, a).table| == |Step(s, a).origin|
  {
  }

  /** Right after a select its entry is there if there was a usable one, and otherwise none of this point is. */
  lemma AfterSelect(s: State, c: Connection, ioa: int, command: Command, n: nat)
    requires Inv(s) && Enabled(s, Select(c, ioa, command))
    ensures
      var s' := Step(s, Select(c, ioa, command));
      && (Slot(s.table, ioa) < |s.table| ==> Holds(s', c, ioa, |s.history|) && (Holds(s', c, ioa, n) ==> n <= |s.history|))
      && (Slot(s.table, ioa) == |s.table| ==> !Holds(s', c, ioa, n))
      && Inv(s') && s'.history == s.history + [Selected(c, ioa, command, s.clock)] && PhaseOf(s', c) == PhaseOf(s, c)
  {
    var s' := Step(s, Select(c, ioa, command));
    SelectKeeps(s, c, ioa, command);
    var k := Slot(s.table, ioa);
    if k < |s.table| {
      assert Matches(s'.table[k], ioa, c) && s'.origin[k] == |s.history|;
    }
    if Holds(s', c, ioa, n) {
      var i :| 0 <= i < |s'.table| && Matches(s'.table[i], ioa, c) && s'.origin[i] == n;
      assert Live(s', i);
    }
  }

  /** What the test finds, when the newest select that stands for this point and connection is event `n`. */
  lemma CheckFinds(s: State, c: Connection, ioa: int, n: nat, now: nat, time: nat)
    requires Inv(s) && Holds(s, c, ioa, n) && IsSelect(s.history, n, c, ioa, time) && time <= now < WORD
    requires var k := FirstMatch(s.table, ioa, c); k < |s.table| ==> s.origin[k] <= n
    ensures InTime(s.table, ioa, c, now) <==> now - time < SELECT_TIMEOUT_MS
  {
    var i :| 0 <= i < |s.table| && Matches(s.table[i], ioa, c) && s.origin[i] == n;
    var k := FirstMatch(s.table, ioa, c);
    assert k <= i && Live(s, i) && Live(s, k);
    assert IsSelect(s.history, s.origin[k], c, ioa, s.table[k].timestamp);
  }

  /** From right after the select to the test nothing changes about what stands for this point and connection. */
  lemma Stands(s1: State, c: Connection, ioa: int, second: Command,
      middle: seq<Action>, s2: State, wait: seq<Action>, s4: State, m: nat)
    requires Inv(s1) && PhaseOf(s1, c).Idle?
    requires Quiet(middle, c, ioa) && Run(s1, middle) == Reached(s2)
    requires |s2.table| == |s2.origin| && Enabled(s2, StartExecute(c, ioa, second))
    requires Quiet(wait, c, ioa) && OnlyOthers(wait, c) && Run(Step(s2, StartExecute(c, ioa, second)), wait) == Reached(s4)
    ensures Inv(s4) && |s4.table| == |s4.origin| && s1.history <= s4.history && s1.clock <= s2.clock < WORD
    ensures PhaseOf(s4, c) == Checking(ioa, second, s2.clock)
    ensures Holds(s4, c, ioa, m) <==> Holds(s1, c, ioa, m)
  {
    LengthKept(s1);
    ClockRuns(s1, middle);
    HoldsRun(s1, middle, c, ioa, m);
    AfterStart(s2, c, ioa, second, m);
    HoldsRun(Step(s2, StartExecute(c, ioa, second)), wait, c, ioa, m);
    LengthKept(s4);
    hide *;
  }

  /**
   * A connection selects a point and then executes it; in between, and until the test, anything may happen except
   * another select of that point, by anyone, or another execute of it by this connection. The execute is accepted
   * exactly when the select found a usable one of the 100 entries, and the clock was read less than 5000 ms after it; the
   * types of the two commands do not matter.
   */
  lemma SelectThenExecute(s: State, c: Connection, ioa: int, first: Command, second: Command,
      middle: seq<Action>, s2: State, wait: seq<Action>, s4: State)
    requires Inv(s) && Enabled(s, Select(c, ioa, first))
    requires Quiet(middle, c, ioa) && Run(Step(s, Select(c, ioa, first)), middle) == Reached(s2)
    requires |s2.table| == |s2.origin| && Enabled(s2, StartExecute(c, ioa, second))
    requires Quiet(wait, c, ioa) && OnlyOthers(wait, c) && Run(Step(s2, StartExecute(c, ioa, second)), wait) == Reached(s4)
    ensures |s4.table| == |s4.origin| && Enabled(s4, Check(c)) && s.clock <= s2.clock
    ensures PhaseOf(Step(s4, Check(c)), c).Clearing?
      <==> Slot(s.table, ioa) < 100 && s2.clock - s.clock < 5000
  {
    var n, s1 := |s.history|, Step(s, Select(c, ioa, first));
    AfterSelect(s, c, ioa, first, n);
    Stands(s1, c, ioa, second, middle, s2, wait, s4, n);
    assert s1.clock == s.clock;
    CheckOutcome(s4, c);
    var k := FirstMatch(s4.table, ioa, c);
    if k < |s4.table| {
      MatchHolds(s4, c, ioa, k);
      AfterSelect(s, c, ioa, first, s4.origin[k]);
      Stands(s1, c, ioa, second, middle, s2, wait, s4, s4.origin[k]);
    } else {
      NoMatch(s4, ioa, c, s2.clock);
    }
    hide Step, Inv, Holds, Run, Quiet, OnlyOthers, InTime, Slot;
    if Slot(s.table, ioa) < |s.table| {
      assert s1.history[n] == s4.history[n];
      CheckFinds(s4, c, ioa, n, s2.clock, s.clock);
    }
  }

  lemma LengthKept(s: State)
    requires Inv(s)
    ensures |s.table| == |s.origin| && s.clock < WORD
  {
  }

  lemma MatchHolds(s: State, c: Connection, ioa: int, k: nat)
    requires |s.table| == |s.origin| && k < |s.table| && Matches(s.table[k], ioa, c)
    ensures Holds(s, c, ioa, s.origin[k])
  {
  }

  lemma NoMatch(s: State, ioa: int, c: Connection, now: nat)
    requires FirstMatch(s.table, ioa, c) == |s.table|
    ensures !InTime(s.table, ioa, c, now)
  {
  }

  /** Starting to execute reads the clock and changes nothing else. */
  lemma AfterStart(s: State, c: Connection, ioa: int, command: Command, n: nat)
    requires Inv(s) && Enabled(s, StartExecute(c, ioa, command))
    ensures
      var s' := Step(s, StartExecute(c, ioa, command));
      && Inv(s') && s'.history == s.history && PhaseOf(s', c) == Checking(ioa, command, s.clock)
      && (Holds(s', c, ioa, n) <==> Holds(s, c, ioa, n)) && s.clock < WORD
  {
    StepKeeps(s, StartExecute(c, ioa, command));
  }

  lemma CheckOutcome(s: State, c: Connection)
    requires |s.table| == |s.origin| && Enabled(s, Check(c))
    ensures
      var p := PhaseOf(s, c);
      PhaseOf(Step(s, Check(c)), c).Clearing? <==> InTime(s.table, p.ioa, c, p.now)
  {
  }

  lemma {:induction false} ClockRuns(s: State, actions: seq<Action>)
    requires |s.table| == |s.origin| && Run(s, actions).Reached?
    ensures s.clock <= Run(s, actions).s.clock
    decreases |actions|
  {
    if actions != [] { ClockRuns(Step(s, actions[0]), actions[1..]); }
  }

  // ----- and carried out -----

  /** The events of one connection, in order. */
  function EventsOf(h: seq<Event>, c: Connection): seq<Event> {
    if h == [] then []
    else EventsOf(h[..|h| - 1], c) + if h[|h| - 1].connection == c then [h[|h| - 1]] else []
  }

  lemma EventsMore(h: seq<Event>, e: Event, c: Connection)
    ensures EventsOf(h + [e], c) == EventsOf(h, c) + if e.connection == c then [e] else []
  {
    assert (h + [e])[..|h|] == h;
  }

  /** What others do leaves the connection where it is, and adds no event of it. */
  lemma OthersStep(s: State, a: Action, c: Connection)
    requires |s.table| == |s.origin| && Enabled(s, a) && (a.Tick? || a.c != c)
    ensures
      var s' := Step(s, a);
      && |s'.table| == |s'.origin| && PhaseOf(s', c) == PhaseOf(s, c)
      && s.history <= s'.history && EventsOf(s'.history, c) == EventsOf(s.history, c)
  {
    var h := Step(s, a).history;
    hide EventsOf, Stored, Checked, Cleared, InTime;
    if h != s.history { EventsMore(s.history, h[|s.history|], c); }
  }

  lemma {:induction false} OthersRun(s: State, actions: seq<Action>, c: Connection)
    requires |s.table| == |s.origin| && OnlyOthers(actions, c) && Run(s, actions).Reached?
    ensures
      var s' := Run(s, actions).s;
      && |s'.table| == |s'.origin| && PhaseOf(s', c) == PhaseOf(s, c)
      && s.history <= s'.history && EventsOf(s'.history, c) == EventsOf(s.history, c)
    decreases |actions|
  {
    if actions != [] {
      hide Step, PhaseOf, EventsOf;
      assert actions[0] in actions && forall a :: a in actions[1..] ==> a in actions;
      OthersStep(s, actions[0], c);
      OthersRun(Step(s, actions[0]), actions[1..], c);
    }
  }

  /** The test ends the command with a refusal, or lets it go on to clearing, which carries it out. */
  lemma CheckEvents(s: State, c: Connection)
    requires |s.table| == |s.origin| && Enabled(s, Check(c))
    ensures
      var p, s' := PhaseOf(s, c), Step(s, Check(c));
      && |s'.table| == |s'.origin|
      && if PhaseOf(s', c).Clearing? then
           && s'.history == s.history && PhaseOf(s', c).ioa == p.ioa
           && PhaseOf(s', c).command == p.command && PhaseOf(s', c).now == p.now
         else
           && PhaseOf(s', c).Idle?
           && EventsOf(s'.history, c) == EventsOf(s.history, c) + [Refused(c, p.ioa, p.command, p.now)]
  {
    var p := PhaseOf(s, c);
    EventsMore(s.history, Refused(c, p.ioa, p.command, p.now), c);
    hide EventsOf, Checked, InTime;
  }

  lemma ClearEvents(s: State, c: Connection)
    requires |s.table| == |s.origin| && Enabled(s, Clear(c))
    ensures
      var p, s' := PhaseOf(s, c), Step(s, Clear(c));
      && PhaseOf(s', c).Idle? && |s'.table| == |s'.origin|
      && EventsOf(s'.history, c) == EventsOf(s.history, c) + [Executed(c, p.ioa, p.command, p.now)]
  {
    var p := PhaseOf(s, c);
    EventsMore(s.history, Executed(c, p.ioa, p.command, p.now), c);
    hide EventsOf, Cleared;
  }

  /**
   * The whole command, from where SelectThenExecute starts, with anything that others do before the entry is cleared: it
   * adds exactly one event of this connection, which tells that the command was executed if the select found a usable
   * entry and was not too old, and that it was refused otherwise; after that the connection is idle again.
   */
  lemma SelectThenOutcome(s: State, c: Connection, ioa: int, first: Command, second: Command,
      middle: seq<Action>, s2: State, wait: seq<Action>, s4: State, rest: seq<Action>, s6: State)
    requires Inv(s) && Enabled(s, Select(c, ioa, first))
    requires Quiet(middle, c, ioa) && Run(Step(s, Select(c, ioa, first)), middle) == Reached(s2)
    requires |s2.table| == |s2.origin| && Enabled(s2, StartExecute(c, ioa, second))
    requires Quiet(wait, c, ioa) && OnlyOthers(wait, c) && Run(Step(s2, StartExecute(c, ioa, second)), wait) == Reached(s4)
    requires |s4.table| == |s4.origin| && Enabled(s4, Check(c))
    requires OnlyOthers(rest, c) && Run(Step(s4, Check(c)), rest) == Reached(s6)
    ensures
      if Slot(s.table, ioa) < 100 && s2.clock - s.clock < 5000 then
        && |s6.table| == |s6.origin| && Enabled(s6, Clear(c))
        && var s7 := Step(s6, Clear(c));
           PhaseOf(s7, c).Idle? && EventsOf(s7.history, c) == EventsOf(s2.history, c) + [Executed(c, ioa, second, s2.clock)]
      else
        PhaseOf(s6, c).Idle? && EventsOf(s6.history, c) == EventsOf(s2.history, c) + [Refused(c, ioa, second, s2.clock)]
  {
    SelectThenExecute(s, c, ioa, first, second, middle, s2, wait, s4);
    StartEvents(s2, c, ioa, second);
    var s3 := Step(s2, StartExecute(c, ioa, second));
    hide Inv, Step, PhaseOf, EventsOf, Slot, Quiet, Run;
    OthersRun(s3, wait, c);
    CheckEvents(s4, c);
    OthersRun(Step(s4, Check(c)), rest, c);
    if PhaseOf(s6, c).Clearing? { ClearEvents(s6, c); }
  }

  lemma StartEvents(s: State, c: Connection, ioa: int, command: Command)
    requires |s.table| == |s.origin| && Enabled(s, StartExecute(c, ioa, command))
    ensures
      var s' := Step(s, StartExecute(c, ioa, command));
      && |s'.table| == |s'.origin| && s'.history == s.history && PhaseOf(s', c) == Checking(ioa, command, s.clock)
  {
  }

  // ----- with nobody in between, the steps are the handler -----

  /** The steps of a command that nobody interrupts. */
  function Uninterrupted(s: State, c: Connection, ioa: int, command: Command, select: bool): seq<Action> {
    if select then [Select(c, ioa, command)]
    else if InTime(s.table, ioa, c, s.clock) then [StartExecute(c, ioa, command), Check(c), Clear(c)]
    else [StartExecute(c, ioa, command), Check(c)]
  }

  /** What they do, in terms of the table. */
  lemma UninterruptedRun(s: State, c: Connection, ioa: int, command: Command, select: bool)
    requires |s.table| == |s.origin| && PhaseOf(s, c).Idle?
    ensures
      var executes := InTime(s.table, ioa, c, s.clock);
      var r := Run(s, Uninterrupted(s, c, ioa, command, select));
      && r.Reached? && PhaseOf(r.s, c).Idle?
      && r.s.table == (if select then Stored(s.table, ioa, c, s.clock) else Cleared(s.table, ioa, c))
      && r.s.history == s.history +
           [if select then Selected(c, ioa, command, s.clock)
            else if executes then Executed(c, ioa, command, s.clock) else Refused(c, ioa, command, s.clock)]
  {
    hide Stored, InTime, Cleared;
    var a := Uninterrupted(s, c, ioa, command, select);
    var s1 := Step(s, a[0]);
    assert Run(s, a) == Run(s1, a[1..]);
    if select {
      assert a[1..] == [];
    } else {
      assert a[1..][0] == Check(c) && PhaseOf(s1, c) == Checking(ioa, command, s.clock);
      var s2 := Step(s1, Check(c));
      assert Run(s1, a[1..]) == Run(s2, a[1..][1..]);
      if InTime(s.table, ioa, c, s.clock) {
        assert a[1..][1..] == [Clear(c)] && [Clear(c)][1..] == [];
        assert Run(s2, [Clear(c)]) == Run(Step(s2, Clear(c)), []);
      } else {
        assert a[1..][1..] == [];
      }
    }
  }

  /** handle_single_command outside direct mode leaves the same table, and executes exactly when the steps do. */
  method HandleAlone(selects: Selects, s: State, c: Connection, ioa: int, command: Command, select: bool)
    returns (executed: bool, sent: seq<Response>)
    requires |s.table| == |s.origin| && PhaseOf(s, c).Idle? && selects.entries[..] == s.table
    modifies selects.entries
    ensures
      var r := Run(s, Uninterrupted(s, c, ioa, command, select));
      && r.Reached? && selects.entries[..] == r.s.table && |r.s.history| == |s.history| + 1
      && (executed <==> r.s.history[|s.history|] == Executed(c, ioa, command, s.clock))
      && (ActivationTermination in sent <==> executed) && (NegativeTermination in sent <==> !select && !executed)
  {
    UninterruptedRun(s, c, ioa, command, select);
    hide Run, Uninterrupted, InTime, Stored, Cleared;
    executed, sent := selects.HandleCommand(false, c, ioa, select, s.clock);
  }
}
