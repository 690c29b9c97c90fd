/** Input values as they are handled (input_handler.c, data_manager.c): the shared data, searched and updated in place. */
module InputHandler {
  import opened Options
  import opened OfflineThrottle

  /** find_ioa_index: -1 when the address is not configured. */
  method FindIoaIndex(ioas: seq<int>, ioa: int) returns (index: int)
    ensures index == if FindIoa(ioas, ioa) < |ioas| then FindIoa(ioas, ioa) else -1
  {
    var i := 0;
    while i < |ioas|
      invariant i <= |ioas| && forall j :: 0 <= j < i ==> ioas[j] != ioa
    {
      if ioas[i] == ioa {
        IoaFound(ioas, ioa, i);
        return i;
      }
      i := i + 1;
    }
    IoaFound(ioas, ioa, i);
    return -1;
  }

  lemma IoaFound(ioas: seq<int>, ioa: int, i: nat)
    requires i <= |ioas| && (i < |ioas| ==> ioas[i] == ioa) && forall j :: 0 <= j < i ==> ioas[j] != ioa
    ensures FindIoa(ioas, ioa) == i
  {
  }

  lemma SlotFound(slots: seq<Slot>, typeId: nat, i: nat)
    requires i <= |slots| && (i < |slots| ==> slots[i].typeId == typeId || slots[i].typeId == 0)
    requires forall j :: 0 <= j < i ==> slots[j].typeId != typeId && slots[j].typeId != 0
    ensures FindSlot(slots, typeId) == i
  {
  }

  class Handler {
    const limits: Limits
    /** g_data_contexts */
    var contexts: seq<Context>
    /** offline_tracking */
    var slots: seq<Slot>
    /** What was enqueued. */
    var queue: seq<Queued>

    function Data(): State
      reads this
    {
      State(contexts, slots, limits, queue)
    }

    predicate Valid()
      reads this
    {
      StateOk(Data())
    }

    constructor (contexts: seq<Context>, limits: Limits)
      requires StateOk(State(contexts, [], limits, []))
      requires forall n :: 0 <= n < |contexts| && contexts[n].lastOfflineUpdate.Some? ==>
        contexts[n].lastOfflineUpdate.value == Zeros(|contexts[n].ioas|)
      ensures Valid() && Init(Data()) && this.contexts == contexts && this.limits == limits
    {
      this.contexts, this.limits := contexts, limits;
      slots, queue := seq(10, _ => Slot(0, [])), [];
      new;
      forall n | 0 <= n < |contexts| ensures contexts[n].info.typeId != 0 {
        ContextKnown(State(contexts, [], limits, []), n);
      }
    }

    /** get_data_context: -1 when there is none. */
    method GetDataContext(typeId: nat) returns (n: int)
      ensures n == if FindContext(contexts, typeId) < |contexts| then FindContext(contexts, typeId) else -1
    {
      var i := 0;
      while i < |contexts|
        invariant i <= |contexts| && forall j :: 0 <= j < i ==> contexts[j].info.typeId != typeId
      {
        if contexts[i].info.typeId == typeId {
          ContextAt(contexts, typeId, i);
          return i;
        }
        i := i + 1;
      }
      ContextAt(contexts, typeId, i);
      return -1;
    }

    /** allow_offline_update, which also sets the time. */
    method AllowUpdate(n: nat, idx: nat, now: nat) returns (allowed: bool)
      requires n < |contexts|
      requires contexts[n].lastOfflineUpdate.Some? ==> idx < |contexts[n].lastOfflineUpdate.value|
      modifies this`contexts
      ensures
        var (last, ok) := AllowOfflineUpdate(old(contexts[n].lastOfflineUpdate), idx, limits.offlineUdtTime, now);
        allowed == ok && contexts == old(contexts)[n := old(contexts[n]).(lastOfflineUpdate := last)]
    {
      var c := contexts[n];
      if c.lastOfflineUpdate.None? { return true; }
      if Elapsed(now, c.lastOfflineUpdate.value[idx], limits.offlineUdtTime) {
        contexts := contexts[n := c.(lastOfflineUpdate := Some(c.lastOfflineUpdate.value[idx := now]))];
        return true;
      }
      return false;
    }

    /** update_data: stores the value if it differs, and tells whether to send it now. */
    method Update(n: nat, ioa: int, newValue: DataValue, connected: bool, now: nat) returns (rc: bool)
      requires n < |contexts| && ContextOk(contexts[n])
      modifies this`contexts
      ensures
        var (d, send) := UpdateData(old(contexts[n]), ioa, newValue, connected, limits, now);
        rc == send && contexts == old(contexts)[n := d]
    {
      hide ValuesEqual, Elapsed;
      var c := contexts[n];
      var idx := FindIoaIndex(c.ioas, ioa);
      if idx < 0 { return false; }
      var changed := !ValuesEqual(c.data[idx], newValue, c.info.typeId, limits.deadbandPercent);
      if changed {
        contexts := contexts[n := c.(data := c.data[idx := newValue])];
      }
      rc := false;
      if changed {
        var shouldSend := connected;
        if !shouldSend && c.lastOfflineUpdate.Some? {
          shouldSend := AllowUpdate(n, idx, now);
        }
        rc := shouldSend;
      }
    }

    /** Finds the slot of a type, or takes the first free one; -1 when there is neither. */
    method FindTracking(c: Context) returns (k: int)
      modifies this`slots
      ensures k == if FindSlot(old(slots), c.info.typeId) < |slots| then FindSlot(old(slots), c.info.typeId) else -1
      ensures slots == OpenSlot(old(slots), c)
    {
      k := -1;
      var i := 0;
      while i < |slots|
        invariant i <= |slots| && slots == old(slots) && k == -1
        invariant forall j :: 0 <= j < i ==> slots[j].typeId != c.info.typeId && slots[j].typeId != 0
      {
        if slots[i].typeId == c.info.typeId {
          k := i;
          break;
        }
        if slots[i].typeId == 0 {
          k := i;
          break;
        }
        i := i + 1;
      }
      SlotFound(slots, c.info.typeId, i);
      if k >= 0 && slots[k].typeId == 0 {
        slots := slots[k := Slot(c.info.typeId, Zeros(|c.ioas|))];
      }
    }

    /** The part of input_handler_process_line for values without a time tag while no client is connected. */
    method TrackOffline(n: nat, idx: nat, value: DataValue, now: nat) returns (offlineEnqueue: bool)
      requires Valid() && n < |contexts| && idx < |contexts[n].ioas|
      modifies this`slots
      ensures
        var (s, ok) := Track(old(slots), contexts[n], idx, value, limits, now);
        offlineEnqueue == ok && slots == s
    {
      hide DeadbandPassed, Elapsed, SlotsOk;
      offlineEnqueue := false;
      var c := contexts[n];
      var k := FindTracking(c);
      if k >= 0 {
        var passed := DeadbandPassed(c.info.valueType, c.data[idx], value, limits.deadbandPercent);
        if passed {
          if Elapsed(now, slots[k].timestamps[idx], limits.offlineUdtTime) {
            slots := slots[k := slots[k].(timestamps := slots[k].timestamps[idx := now])];
            offlineEnqueue := true;
          }
        }
      }
    }

    /** input_handler_process_line, from the parsed values on. */
    method ProcessValue(i: Input)
      requires Valid() && i.Line?
      modifies this
      ensures Valid() && Data() == ProcessLine(old(Data()), i)
    {
      LineLast(Data(), i, 0, 0);
      hide Track, UpdateData, StateOk;
      var n := GetDataContext(i.typeId);
      if n < 0 { return; }
      var c := contexts[n];
      ContextKnown(Data(), n);
      var offlineEnqueue := false;
      if !c.info.hasTimeTag && !i.connectedFirst && c.info.offlineEquivalent != 0 {
        var idx := FindIoaIndex(c.ioas, i.ioa);
        if idx >= 0 {
          offlineEnqueue := TrackOffline(n, idx, i.value, i.now);
        }
      }
      var shouldSend := Update(n, i.ioa, i.value, i.connectedThen, i.now);
      if shouldSend || offlineEnqueue {
        var sentAs := if offlineEnqueue then c.info.offlineEquivalent else i.typeId;
        queue := queue + [Queued(i.typeId, i.ioa, sentAs, i.value, i.now, offlineEnqueue || !i.connectedThen)];
      }
    }

    /** reset_all_data. */
    method ResetAllData()
      requires Valid()
      modifies this`contexts
      ensures Valid() && Data() == ResetAll(old(Data()))
    {
      ResetKeeps(Data(), 0, 0);
      var i := 0;
      while i < |contexts|
        invariant i <= |contexts| == |old(contexts)|
        invariant forall n :: 0 <= n < i ==> contexts[n] == ResetAll(old(Data())).contexts[n]
        invariant forall n :: i <= n < |contexts| ==> contexts[n] == old(contexts)[n]
      {
        contexts := contexts[i := contexts[i].(data := seq(|contexts[i].data|, _ => BoolValue(false)))];
        i := i + 1;
      }
      assert contexts == ResetAll(old(Data())).contexts;
    }
  }
}
