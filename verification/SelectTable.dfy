/** The table of selects that all connections share (command_handler.c). */
module SelectTable {

  const MAX_SELECT_ENTRIES: nat := 100
  const SELECT_TIMEOUT_MS: nat := 5000
  /** Timestamps are unsigned 64 bit numbers. */
  const WORD: nat := 0x1_0000_0000_0000_0000

  type Connection = nat

  datatype Entry = Entry(ioa: int, connection: Connection, timestamp: nat, isSelected: bool)

  /** currentTime - timestamp, as an unsigned number. */
  function Age(now: nat, timestamp: nat): nat {
    (now - timestamp) % WORD
  }

  /** The entry holds a select of this point by this connection. */
  predicate Matches(e: Entry, ioa: int, connection: Connection) {
    e.isSelected && e.ioa == ioa && e.connection == connection
  }

  /** The first entry that matches, or the number of entries. */
  function FirstMatch(table: seq<Entry>, ioa: int, connection: Connection): (k: nat)
    ensures k <= |table|
    ensures k < |table| ==> Matches(table[k], ioa, connection)
    ensures forall i :: 0 <= i < k ==> !Matches(table[i], ioa, connection)
  {
    if table == [] || Matches(table[0], ioa, connection) then 0 else 1 + FirstMatch(table[1..], ioa, connection)
  }

  /** An entry that a select of this point may overwrite, whoever made it. */
  predicate Usable(e: Entry, ioa: int) {
    !e.isSelected || e.ioa == ioa
  }

  /** The first usable entry, or the number of entries. */
  function Slot(table: seq<Entry>, ioa: int): (k: nat)
    ensures k <= |table|
    ensures k < |table| ==> Usable(table[k], ioa)
    ensures forall i :: 0 <= i < k ==> !Usable(table[i], ioa)
  {
    if table == [] || Usable(table[0], ioa) then 0 else 1 + Slot(table[1..], ioa)
  }

  /** The table after a select; it is unchanged when there is no usable entry. */
  function Stored(table: seq<Entry>, ioa: int, connection: Connection, now: nat): (r: seq<Entry>)
    ensures |r| == |table|
  {
    var k := Slot(table, ioa);
    if k < |table| then table[k := Entry(ioa, connection, now, true)] else table
  }

  /** Whether an execute finds its select, and has found it in time. */
  predicate InTime(table: seq<Entry>, ioa: int, connection: Connection, now: nat) {
    var k := FirstMatch(table, ioa, connection);
    k < |table| && Age(now, table[k].timestamp) < SELECT_TIMEOUT_MS
  }

  /** The table without the first entry that matches. */
  function Cleared(table: seq<Entry>, ioa: int, connection: Connection): (r: seq<Entry>)
    ensures |r| == |table|
  {
    var k := FirstMatch(table, ioa, connection);
    if k < |table| then table[k := table[k].(isSelected := false)] else table
  }

  /** The table after the test of an execute: a select that is too old is dropped. */
  function Checked(table: seq<Entry>, ioa: int, connection: Connection, now: nat): (r: seq<Entry>)
    ensures |r| == |table|
  {
    if InTime(table, ioa, connection, now) then table else Cleared(table, ioa, connection)
  }

  lemma FirstMatchIs(table: seq<Entry>, ioa: int, connection: Connection, k: nat)
    requires k <= |table| && (k < |table| ==> Matches(table[k], ioa, connection))
    requires forall i :: 0 <= i < k ==> !Matches(table[i], ioa, connection)
    ensures FirstMatch(table, ioa, connection) == k
  {
  }

  lemma SlotIs(table: seq<Entry>, ioa: int, k: nat)
    requires k <= |table| && (k < |table| ==> Usable(table[k], ioa))
    requires forall i :: 0 <= i < k ==> !Usable(table[i], ioa)
    ensures Slot(table, ioa) == k
  {
  }

  /** What is sent to the master. */
  datatype Response = ActivationCon | ActivationTermination | NegativeTermination

  /** selectTable, with the functions that work on it under its mutex, and the handler that calls them. */
  class Selects {
    const entries: array<Entry>

    constructor ()
      ensures fresh(entries) && entries.Length == MAX_SELECT_ENTRIES
      ensures forall i :: 0 <= i < MAX_SELECT_ENTRIES ==> !entries[i].isSelected
    {
      entries := new Entry[MAX_SELECT_ENTRIES](_ => Entry(0, 0, 0, false));
    }

    /** storeSelectState. */
    method StoreSelectState(ioa: int, connection: Connection, now: nat)
      modifies entries
      ensures entries[..] == Stored(old(entries[..]), ioa, connection, now)
    {
      var freeIndex := -1;
      var i := 0;
      while i < entries.Length
        invariant 0 <= i <= entries.Length && freeIndex == -1
        invariant forall j :: 0 <= j < i ==> !Usable(entries[j], ioa)
      {
        if !entries[i].isSelected {
          freeIndex := i;
          break;
        }
        if entries[i].ioa == ioa {
          freeIndex := i;
          break;
        }
        i := i + 1;
      }
      SlotIs(entries[..], ioa, i);
      if freeIndex >= 0 {
        entries[freeIndex] := Entry(ioa, connection, now, true);
      }
    }

    /** isPreviouslySelected. */
    method IsPreviouslySelected(ioa: int, connection: Connection, now: nat) returns (result: bool)
      modifies entries
      ensures result <==> InTime(old(entries[..]), ioa, connection, now)
      ensures entries[..] == Checked(old(entries[..]), ioa, connection, now)
    {
      result := false;
      var i := 0;
      while i < entries.Length
        invariant 0 <= i <= entries.Length
        invariant forall j :: 0 <= j < i ==> !Matches(entries[j], ioa, connection)
      {
        if Matches(entries[i], ioa, connection) {
          FirstMatchIs(entries[..], ioa, connection, i);
          if Age(now, entries[i].timestamp) < SELECT_TIMEOUT_MS {
            result := true;
          } else {
            entries[i] := entries[i].(isSelected := false);
          }
          return;
        }
        i := i + 1;
      }
      FirstMatchIs(entries[..], ioa, connection, i);
    }

    /** clearSelectState. */
    method ClearSelectState(ioa: int, connection: Connection)
      modifies entries
      ensures entries[..] == Cleared(old(entries[..]), ioa, connection)
    {
      var i := 0;
      while i < entries.Length
        invariant 0 <= i <= entries.Length
        invariant forall j :: 0 <= j < i ==> !Matches(entries[j], ioa, connection)
      {
        if Matches(entries[i], ioa, connection) {
          FirstMatchIs(entries[..], ioa, connection, i);
          entries[i] := entries[i].(isSelected := false);
          return;
        }
        i := i + 1;
      }
      FirstMatchIs(entries[..], ioa, connection, i);
    }

    /**
     * handle_single_command and handle_set_point_command, when no other connection comes in between: in direct mode
     * every execute is carried out; otherwise exactly those that find a select in time, which they use up.
     */
    method HandleCommand(direct: bool, connection: Connection, ioa: int, select: bool, now: nat)
      returns (executed: bool, sent: seq<Response>)
      modifies entries
      ensures executed <==> !select && (direct || InTime(old(entries[..]), ioa, connection, now))
      ensures sent == if select then [ActivationCon]
                      else if executed then [ActivationCon, ActivationTermination] else [NegativeTermination]
      ensures entries[..] ==
        if select then Stored(old(entries[..]), ioa, connection, now)
        else if direct then old(entries[..])
        else Cleared(old(entries[..]), ioa, connection)
    {
      executed := false;
      if direct {
        if !select {
          executed := true;
          sent := [ActivationCon] + [ActivationTermination];
        } else {
          StoreSelectState(ioa, connection, now);
          sent := [ActivationCon];
        }
      } else if select {
        StoreSelectState(ioa, connection, now);
        sent := [ActivationCon];
      } else {
        var selected := IsPreviouslySelected(ioa, connection, now);
        if selected {
          ClearSelectState(ioa, connection);
          executed := true;
          sent := [ActivationCon] + [ActivationTermination];
        } else {
          sent := [NegativeTermination];
        }
      }
    }
  }
}
