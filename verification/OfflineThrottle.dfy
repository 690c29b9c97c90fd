/**
 * What happens to one input value (input_handler.c, data_manager.c): whether it is stored, and whether it is queued for
 * masters that may not be connected; and that queueing while nobody is connected is throttled for each point.
 */
module OfflineThrottle {
  import opened Options

  /** uint64_t and uint32_t arithmetic. */
  const WORD64: nat := 0x1_0000_0000_0000_0000
  const WORD32: nat := 0x1_0000_0000

  type UInt32 = x: int | 0 <= x < 0x1_0000_0000

  datatype ValueType = BoolType | DoublePointType | Int16Type | UInt32Type | FloatType

  /** The value of a point; floats are taken for reals. */
  datatype DataValue = BoolValue(b: bool) | DoublePoint(n: int) | Int16Value(i: int) | UInt32Value(u: nat) | FloatValue(r: real)

  /** A row of DATA_TYPE_TABLE. */
  datatype TypeInfo = TypeInfo(typeId: nat, valueType: ValueType, hasTimeTag: bool, offlineEquivalent: nat)

  const M_ME_NC_1: nat := 13

  const DATA_TYPE_TABLE: seq<TypeInfo> := [
    TypeInfo(30, BoolType, true, 30), TypeInfo(31, DoublePointType, true, 31), TypeInfo(34, FloatType, true, 34),
    TypeInfo(37, UInt32Type, true, 37), TypeInfo(1, BoolType, false, 30), TypeInfo(3, DoublePointType, false, 31),
    TypeInfo(9, FloatType, false, 34), TypeInfo(11, Int16Type, false, 12), TypeInfo(13, FloatType, false, 36),
    TypeInfo(21, FloatType, false, 0)]

  /** DataTypeContext: the configured addresses, their values, and for types with a time tag when each was last queued. */
  datatype Context = Context(info: TypeInfo, ioas: seq<int>, data: seq<DataValue>, lastOfflineUpdate: Option<seq<nat>>)

  /** A tracking slot of input_handler_process_line; free when its type is 0. */
  datatype Slot = Slot(typeId: nat, timestamps: seq<nat>)

  /** An ASDU that was put into the queue; `offline` when this was done although no client was connected. */
  datatype Queued = Queued(typeId: nat, ioa: int, sentAs: nat, value: DataValue, time: nat, offline: bool)

  /** The configured limits: seconds between offline entries of a point, and the deadband. */
  datatype Limits = Limits(offlineUdtTime: UInt32, deadbandPercent: real)

  datatype State = State(contexts: seq<Context>, slots: seq<Slot>, limits: Limits, queue: seq<Queued>)

  /** One value from the input; whether a client is connected is looked up twice. */
  datatype Input =
    | Line(typeId: nat, ioa: int, value: DataValue, connectedFirst: bool, connectedThen: bool, now: nat)
      /** reset_all_data. */
    | Reset

  // ----- finding things -----

  /** find_ioa_index: the first position, or the number of addresses. */
  function FindIoa(ioas: seq<int>, ioa: int): (i: nat)
    ensures i <= |ioas| && (i < |ioas| ==> ioas[i] == ioa)
    ensures forall j :: 0 <= j < i ==> ioas[j] != ioa
  {
    if ioas == [] || ioas[0] == ioa then 0 else 1 + FindIoa(ioas[1..], ioa)
  }

  /** get_data_context. */
  function FindContext(contexts: seq<Context>, typeId: nat): (i: nat)
    ensures i <= |contexts| && (i < |contexts| ==> contexts[i].info.typeId == typeId)
    ensures forall j :: 0 <= j < i ==> contexts[j].info.typeId != typeId
  {
    if contexts == [] || contexts[0].info.typeId == typeId then 0 else 1 + FindContext(contexts[1..], typeId)
  }

  /** The slot of the type, or else the first free one. */
  function FindSlot(slots: seq<Slot>, typeId: nat): (k: nat)
    ensures k <= |slots| && (k < |slots| ==> slots[k].typeId == typeId || slots[k].typeId == 0)
    ensures forall j :: 0 <= j < k ==> slots[j].typeId != typeId && slots[j].typeId != 0
  {
    if slots == [] || slots[0].typeId == typeId || slots[0].typeId == 0 then 0 else 1 + FindSlot(slots[1..], typeId)
  }

  function Zeros(n: nat): (z: seq<nat>)
    ensures |z| == n && forall i :: 0 <= i < n ==> z[i] == 0
  {
    seq(n, _ => 0)
  }

  // ----- comparing values -----

  function Abs(x: real): real { if x < 0.0 then -x else x }

  /** float_val of a value; of a value that was reset it is 0. */
  function FloatOf(v: DataValue): real { if v.FloatValue? then v.r else 0.0 }

  /** values_equal. */
  predicate ValuesEqual(before: DataValue, after: DataValue, typeId: nat, deadbandPercent: real) {
    match (before, after)
    case (FloatValue(x), FloatValue(y)) =>
      if typeId == M_ME_NC_1 && deadbandPercent > 0.0 then Abs(x - y) <= Abs(x) * (deadbandPercent / 100.0)
      else Abs(x - y) < 0.0001
    case _ => before == after
  }

  /** By how many percent a float differs from the stored one. */
  function PercentOff(oldVal: real, diff: real): real {
    if Abs(oldVal) > 0.0001 then diff / Abs(oldVal) * 100.0 else if diff > 0.0001 then 100.0 else 0.0
  }

  /** The deadband of offline values; types that are not floats always pass. */
  predicate DeadbandPassed(valueType: ValueType, before: DataValue, after: DataValue, deadbandPercent: real) {
    valueType == FloatType ==>
      var diff := Abs(FloatOf(before) - FloatOf(after));
      PercentOff(FloatOf(before), diff) >= deadbandPercent && diff > 0.0001
  }

  // ----- throttling -----

  /** offline_udt_time * 1000, which is computed with 32 bits. */
  function Threshold(offlineUdtTime: UInt32): nat {
    (offlineUdtTime * 1000) % WORD32
  }

  predicate Elapsed(now: nat, last: nat, offlineUdtTime: UInt32) {
    (now - last) % WORD64 >= Threshold(offlineUdtTime)
  }

  /** allow_offline_update on entry `idx`, when there are timestamps. */
  function AllowOfflineUpdate(last: Option<seq<nat>>, idx: nat, offlineUdtTime: UInt32, now: nat): (Option<seq<nat>>, bool)
    requires last.Some? ==> idx < |last.value|
  {
    if last.None? then (last, true)
    else if Elapsed(now, last.value[idx], offlineUdtTime) then (Some(last.value[idx := now]), true)
    else (last, false)
  }

  /** update_data: the context afterwards, and whether to send now. */
  function UpdateData(c: Context, ioa: int, v: DataValue, connected: bool, l: Limits, now: nat): (Context, bool)
    requires ContextOk(c)
  {
    var idx := FindIoa(c.ioas, ioa);
    if idx == |c.ioas| || ValuesEqual(c.data[idx], v, c.info.typeId, l.deadbandPercent) then (c, false)
    else
      var d := c.(data := c.data[idx := v]);
      if connected then (d, true)
      else if d.lastOfflineUpdate.None? then (d, false)
      else
        var (last, ok) := AllowOfflineUpdate(d.lastOfflineUpdate, idx, l.offlineUdtTime, now);
        (d.(lastOfflineUpdate := last), ok)
  }

  /** The slot for a type, made if needed. */
  function OpenSlot(slots: seq<Slot>, c: Context): (r: seq<Slot>)
    ensures |r| == |slots|
  {
    var k := FindSlot(slots, c.info.typeId);
    if k < |slots| && slots[k].typeId == 0 then slots[k := Slot(c.info.typeId, Zeros(|c.ioas|))] else slots
  }

  /** The offline handling of values without a time tag: the slots afterwards, and whether to queue. */
  function Track(slots: seq<Slot>, c: Context, idx: nat, v: DataValue, l: Limits, now: nat): (r: (seq<Slot>, bool))
    requires idx < |c.ioas| && ContextOk(c)
    requires forall k :: 0 <= k < |slots| && slots[k].typeId == c.info.typeId ==> |slots[k].timestamps| == |c.ioas|
    ensures |r.0| == |slots|
  {
    var k := FindSlot(slots, c.info.typeId);
    var made := OpenSlot(slots, c);
    if k == |slots| then (slots, false)
    else if DeadbandPassed(c.info.valueType, c.data[idx], v, l.deadbandPercent)
        && Elapsed(now, made[k].timestamps[idx], l.offlineUdtTime) then
      (made[k := made[k].(timestamps := made[k].timestamps[idx := now])], true)
    else (made, false)
  }

  /** Whether the value takes the offline path. */
  predicate TriesOffline(c: Context, ioa: int, connected: bool) {
    !c.info.hasTimeTag && !connected && c.info.offlineEquivalent != 0 && FindIoa(c.ioas, ioa) < |c.ioas|
  }

  function ProcessLine(s: State, i: Input): State
    requires StateOk(s) && i.Line?
  {
    var n := FindContext(s.contexts, i.typeId);
    if n == |s.contexts| then s
    else
      var c := s.contexts[n];
      var (slots, offline) :=
        if TriesOffline(c, i.ioa, i.connectedFirst)
        then Track(s.slots, c, FindIoa(c.ioas, i.ioa), i.value, s.limits, i.now) else (s.slots, false);
      var (d, send) := UpdateData(c, i.ioa, i.value, i.connectedThen, s.limits, i.now);
      var t := s.(contexts := s.contexts[n := d], slots := slots);
      if send || offline then
        t.(queue := s.queue + [Queued(i.typeId, i.ioa, if offline then c.info.offlineEquivalent else i.typeId, i.value,
                                      i.now, offline || !i.connectedThen)])
      else t

  }

  /** memset of all values; a value type of 0 is that of booleans. */
  function ResetAll(s: State): State {
    s.(contexts := seq(|s.contexts|, n requires 0 <= n < |s.contexts| =>
      s.contexts[n].(data := seq(|s.contexts[n].data|, _ => BoolValue(false)))))
  }

  function Step(s: State, i: Input): (r: State)
    requires StateOk(s)
    ensures StateOk(r)
  {
    if i.Line? then
      LineLast(s, i, 0, 0);
      ProcessLine(s, i)
    else
      ResetKeeps(s, 0, 0);
      ResetAll(s)
  }

  function Run(s: State, inputs: seq<Input>): (r: State)
    requires StateOk(s)
    ensures StateOk(r)
    decreases |inputs|
  {
    if inputs == [] then s else Run(Step(s, inputs[0]), inputs[1..])
  }

  // ----- the invariant of the data -----

  /** As config_parser.c sets a context up: timestamps exactly for the types with a time tag. */
  predicate ContextOk(c: Context) {
    && c.info in DATA_TYPE_TABLE && |c.data| == |c.ioas|
    && (c.info.hasTimeTag <==> c.lastOfflineUpdate.Some?)
    && (c.lastOfflineUpdate.Some? ==> |c.lastOfflineUpdate.value| == |c.ioas|)
  }

  /** Slots are taken in order, one for each type. */
  predicate SlotsOk(slots: seq<Slot>) {
    && (forall i, j :: 0 <= i < j < |slots| && slots[i].typeId == 0 ==> slots[j].typeId == 0)
    && (forall i, j :: 0 <= i < j < |slots| && slots[i].typeId == slots[j].typeId ==> slots[i].typeId == 0)
  }

  predicate StateOk(s: State) {
    && (forall n :: 0 <= n < |s.contexts| ==> ContextOk(s.contexts[n]))
    && (forall m, n :: 0 <= m < n < |s.contexts| ==> s.contexts[m].info.typeId != s.contexts[n].info.typeId)
    && SlotsOk(s.slots)
    && (forall n, k :: 0 <= n < |s.contexts| && 0 <= k < |s.slots| && s.slots[k].typeId == s.contexts[n].info.typeId ==>
          |s.slots[k].timestamps| == |s.contexts[n].ioas|)
  }

  // ----- the throttle -----

  /** The position of the slot that the type has, or the number of slots. */
  function SlotOf(slots: seq<Slot>, typeId: nat): (k: nat)
    ensures k <= |slots| && (k < |slots| ==> slots[k].typeId == typeId)
    ensures forall j :: 0 <= j < k ==> slots[j].typeId != typeId
  {
    if slots == [] || slots[0].typeId == typeId then 0 else 1 + SlotOf(slots[1..], typeId)
  }

  lemma SlotOfIs(slots: seq<Slot>, typeId: nat, k: nat)
    requires k <= |slots| && (k < |slots| ==> slots[k].typeId == typeId)
    requires forall j :: 0 <= j < k ==> slots[j].typeId != typeId
    ensures SlotOf(slots, typeId) == k
  {
  }

  /** Filling in the slot of a type, or taking a free one for it, keeps the slots in order and the others in place. */
  lemma SlotSet(slots: seq<Slot>, x: Slot)
    requires SlotsOk(slots) && x.typeId != 0 && FindSlot(slots, x.typeId) < |slots|
    ensures
      var k := FindSlot(slots, x.typeId);
      var r := slots[k := x];
      && SlotsOk(r) && SlotOf(r, x.typeId) == k
      && (slots[k].typeId == 0 <==> SlotOf(slots, x.typeId) == |slots|)
      && (slots[k].typeId != 0 ==> SlotOf(slots, x.typeId) == k)
      && forall t :: t != 0 && t != x.typeId ==> SlotOf(r, t) == SlotOf(slots, t)
  {
    var k := FindSlot(slots, x.typeId);
    var r := slots[k := x];
    assert forall j :: 0 <= j < |r| && j != k ==> r[j] == slots[j];
    assert forall i, j :: 0 <= i < j < |r| && r[i].typeId == r[j].typeId ==> r[i].typeId == 0;
    SlotOfIs(r, x.typeId, k);
    SlotOfIs(slots, x.typeId, if slots[k].typeId == 0 then |slots| else k);
    forall t | t != 0 && t != x.typeId ensures SlotOf(r, t) == SlotOf(slots, t) {
      SlotOfIs(r, t, SlotOf(slots, t));
    }
  }

  /** When the point was last queued offline, or 0. */
  function LastOf(s: State, typeId: nat, ioa: int): nat
    requires StateOk(s)
  {
    var n := FindContext(s.contexts, typeId);
    if n == |s.contexts| then 0
    else
      var c := s.contexts[n];
      var idx, k := FindIoa(c.ioas, ioa), SlotOf(s.slots, typeId);
      if idx == |c.ioas| then 0
      else if c.info.hasTimeTag then c.lastOfflineUpdate.value[idx]
      else if k < |s.slots| then s.slots[k].timestamps[idx]
      else 0
  }

  /** Two offline entries of one point are that far apart. */
  predicate Apart(a: Queued, b: Queued, gap: nat) {
    a.offline && b.offline && a.typeId == b.typeId && a.ioa == b.ioa ==> a.time + gap <= b.time
  }

  ghost predicate Throttled(queue: seq<Queued>, gap: nat) {
    forall i, j :: 0 <= i < j < |queue| ==> Apart(queue[i], queue[j], gap)
  }

  /** The timestamps are those of the last offline entries, and none is in the future. */
  ghost predicate Inv(s: State, clock: nat) {
    && StateOk(s) && clock < WORD64
    && Throttled(s.queue, Threshold(s.limits.offlineUdtTime))
    && (forall e :: e in s.queue && e.offline ==> e.time <= LastOf(s, e.typeId, e.ioa))
    && (forall t: nat, a: int :: LastOf(s, t, a) <= clock)
  }

  lemma UpdateKeeps(s: State, n: nat, ioa: int, v: DataValue, connected: bool, now: nat)
    requires StateOk(s) && n < |s.contexts|
    ensures
      var d := UpdateData(s.contexts[n], ioa, v, connected, s.limits, now).0;
      && d.info == s.contexts[n].info && d.ioas == s.contexts[n].ioas && ContextOk(d)
      && StateOk(s.(contexts := s.contexts[n := d]))
  {
  }

  /** What Track leaves: the slot that it found or made, with at most the one time changed. */
  lemma TrackSets(slots: seq<Slot>, c: Context, idx: nat, v: DataValue, l: Limits, now: nat)
    requires idx < |c.ioas| && ContextOk(c)
    requires forall k :: 0 <= k < |slots| && slots[k].typeId == c.info.typeId ==> |slots[k].timestamps| == |c.ioas|
    ensures
      var k, (r, ok) := FindSlot(slots, c.info.typeId), Track(slots, c, idx, v, l, now);
      if k == |slots| then r == slots && !ok
      else
        var was := if slots[k].typeId == 0 then Zeros(|c.ioas|) else slots[k].timestamps;
        && idx < |was| == |c.ioas|
        && r == slots[k := Slot(c.info.typeId, if ok then was[idx := now] else was)]
        && (ok ==> Elapsed(now, was[idx], l.offlineUdtTime))
  {
  }

  lemma SlotStateOk(s: State, n: nat, x: Slot)
    requires StateOk(s) && n < |s.contexts|
    requires x.typeId == s.contexts[n].info.typeId && |x.timestamps| == |s.contexts[n].ioas|
    requires FindSlot(s.slots, x.typeId) < |s.slots|
    ensures StateOk(s.(slots := s.slots[FindSlot(s.slots, x.typeId) := x])) && x.typeId != 0
  {
    assert x.typeId != 0;
    SlotSet(s.slots, x);
    hide SlotsOk, ContextOk, FindSlot;
    var r := s.slots[FindSlot(s.slots, x.typeId) := x];
    forall m, k | 0 <= m < |s.contexts| && 0 <= k < |r| && r[k].typeId == s.contexts[m].info.typeId
      ensures |r[k].timestamps| == |s.contexts[m].ioas|
    {
      if k == FindSlot(s.slots, x.typeId) { assert m == n; }
    }
  }

  lemma ContextKnown(s: State, n: nat)
    requires StateOk(s) && n < |s.contexts|
    ensures ContextOk(s.contexts[n]) && s.contexts[n].info.typeId != 0
    ensures FindContext(s.contexts, s.contexts[n].info.typeId) == n
  {
  }

  /** Setting the slot of a type sets the last times of its points, and of no others. */
  lemma SlotLast(s: State, n: nat, x: Slot, s': State, t: nat, a: int)
    requires StateOk(s) && n < |s.contexts| && !s.contexts[n].info.hasTimeTag
    requires x.typeId == s.contexts[n].info.typeId && |x.timestamps| == |s.contexts[n].ioas|
    requires FindSlot(s.slots, x.typeId) < |s.slots|
    requires StateOk(s') && s' == s.(slots := s.slots[FindSlot(s.slots, x.typeId) := x])
    ensures
      var c, idx := s.contexts[n], FindIoa(s.contexts[n].ioas, a);
      LastOf(s', t, a) == if t == c.info.typeId && idx < |c.ioas| then x.timestamps[idx] else LastOf(s, t, a)
  {
    assert SlotsOk(s.slots);
    hide StateOk, SlotsOk, ContextOk;
    ContextKnown(s, n);
    SlotSet(s.slots, x);
    var m := FindContext(s.contexts, t);
    if m < |s.contexts| { ContextKnown(s, m); }
  }

  lemma IoaAt(ioas: seq<int>, idx: nat, a: int)
    requires idx < |ioas| && idx == FindIoa(ioas, ioas[idx])
    ensures FindIoa(ioas, a) == idx <==> a == ioas[idx]
  {
  }

  /** Before, the last times were those of the slot, or 0 when there was none. */
  lemma SlotWas(s: State, n: nat, a: int)
    requires StateOk(s) && n < |s.contexts| && !s.contexts[n].info.hasTimeTag
    requires FindIoa(s.contexts[n].ioas, a) < |s.contexts[n].ioas|
    ensures
      var c := s.contexts[n];
      var k, idx := FindSlot(s.slots, c.info.typeId), FindIoa(c.ioas, a);
      && (k < |s.slots| && s.slots[k].typeId != 0 ==> LastOf(s, c.info.typeId, a) == s.slots[k].timestamps[idx])
      && (k == |s.slots| || s.slots[k].typeId == 0 ==> LastOf(s, c.info.typeId, a) == 0)
  {
    var c := s.contexts[n];
    var k := FindSlot(s.slots, c.info.typeId);
    assert c.info.typeId != 0;
    assert FindContext(s.contexts, c.info.typeId) == n;
    SlotOfIs(s.slots, c.info.typeId, if k < |s.slots| && s.slots[k].typeId != 0 then k else |s.slots|);
  }

  /** Tracking changes the last time of this point, if it queues, and of no other. */
  lemma TrackKeeps(s: State, n: nat, idx: nat, v: DataValue, now: nat, t: nat, a: int)
    requires StateOk(s) && n < |s.contexts| && !s.contexts[n].info.hasTimeTag
    requires idx < |s.contexts[n].ioas| && idx == FindIoa(s.contexts[n].ioas, s.contexts[n].ioas[idx])
    ensures
      var c := s.contexts[n];
      var (r, ok) := Track(s.slots, c, idx, v, s.limits, now);
      var s' := s.(slots := r);
      && StateOk(s')
      && (ok ==> Elapsed(now, LastOf(s, c.info.typeId, c.ioas[idx]), s.limits.offlineUdtTime))
      && LastOf(s', t, a) == if ok && t == c.info.typeId && a == c.ioas[idx] then now else LastOf(s, t, a)
  {
    var c := s.contexts[n];
    var k := FindSlot(s.slots, c.info.typeId);
    TrackSets(s.slots, c, idx, v, s.limits, now);
    SlotWas(s, n, c.ioas[idx]);
    var (r, ok) := Track(s.slots, c, idx, v, s.limits, now);
    hide Track, StateOk, LastOf, Elapsed;
    if k < |s.slots| {
      SlotStateOk(s, n, r[k]);
      SlotLast(s, n, r[k], s.(slots := r), t, a);
      IoaAt(c.ioas, idx, a);
      if t == c.info.typeId && FindIoa(c.ioas, a) < |c.ioas| { SlotWas(s, n, a); }
    }
  }

  /** What update_data does to the times of a context. */
  lemma UpdateTimes(c: Context, ioa: int, v: DataValue, connected: bool, l: Limits, now: nat)
    requires ContextOk(c)
    ensures
      var (d, send) := UpdateData(c, ioa, v, connected, l, now);
      var idx := FindIoa(c.ioas, ioa);
      && d.info == c.info && d.ioas == c.ioas
      && (send ==> idx < |c.ioas|)
      && (send && !connected ==>
            && c.info.hasTimeTag && Elapsed(now, c.lastOfflineUpdate.value[idx], l.offlineUdtTime)
            && d.lastOfflineUpdate == Some(c.lastOfflineUpdate.value[idx := now]))
      && (!send || connected ==> d.lastOfflineUpdate == c.lastOfflineUpdate)
  {
    hide ValuesEqual, Elapsed;
  }

  /** Setting the times of a context sets the last times of its points, and of no others. */
  lemma ContextLast(s: State, n: nat, d: Context, s': State, t: nat, a: int)
    requires StateOk(s) && n < |s.contexts| && d.info == s.contexts[n].info && d.ioas == s.contexts[n].ioas
    requires StateOk(s') && s' == s.(contexts := s.contexts[n := d]) && ContextOk(d)
    ensures
      var idx := FindIoa(d.ioas, a);
      LastOf(s', t, a) ==
        if t == d.info.typeId && idx < |d.ioas| && d.info.hasTimeTag then d.lastOfflineUpdate.value[idx] else LastOf(s, t, a)
  {
    hide StateOk, ContextOk, SlotOf;
    ContextKnown(s, n);
    SameContexts(s.contexts, n, d, t);
    var m := FindContext(s.contexts, t);
    if m < |s.contexts| { ContextKnown(s, m); }
    hide FindContext;
  }

  /** Updating the data changes the last time of this point, if it has a time tag and is queued offline, and of no other. */
  lemma UpdateLast(s: State, n: nat, ioa: int, v: DataValue, connected: bool, now: nat, t: nat, a: int)
    requires StateOk(s) && n < |s.contexts|
    ensures
      var c := s.contexts[n];
      var (d, send) := UpdateData(c, ioa, v, connected, s.limits, now);
      var s' := s.(contexts := s.contexts[n := d]);
      && StateOk(s')
      && (send ==> FindIoa(c.ioas, ioa) < |c.ioas|)
      && (send && !connected ==> c.info.hasTimeTag && Elapsed(now, LastOf(s, c.info.typeId, ioa), s.limits.offlineUdtTime))
      && LastOf(s', t, a) == if send && !connected && t == c.info.typeId && a == ioa then now else LastOf(s, t, a)
  {
    var c := s.contexts[n];
    var (d, send) := UpdateData(c, ioa, v, connected, s.limits, now);
    UpdateKeeps(s, n, ioa, v, connected, now);
    ContextKnown(s, n);
    UpdateTimes(c, ioa, v, connected, s.limits, now);
    ContextLast(s, n, d, s.(contexts := s.contexts[n := d]), t, a);
    TaggedLast(s, n, ioa);
    TaggedLast(s, n, a);
    hide StateOk, LastOf, UpdateData, Elapsed;
    if send {
      IoaAt(c.ioas, FindIoa(c.ioas, ioa), a);
    }
  }

  lemma TaggedLast(s: State, n: nat, a: int)
    requires StateOk(s) && n < |s.contexts|
    ensures
      var c := s.contexts[n];
      var idx := FindIoa(c.ioas, a);
      ContextOk(c) && (c.info.hasTimeTag && idx < |c.ioas| ==> LastOf(s, c.info.typeId, a) == c.lastOfflineUpdate.value[idx])
  {
    ContextKnown(s, n);
    hide StateOk, SlotOf;
  }

  lemma SameContexts(contexts: seq<Context>, n: nat, d: Context, t: nat)
    requires n < |contexts| && d.info == contexts[n].info
    ensures FindContext(contexts[n := d], t) == FindContext(contexts, t)
  {
    var f, r := FindContext(contexts, t), contexts[n := d];
    ContextAt(r, t, f);
  }

  lemma ContextAt(contexts: seq<Context>, t: nat, f: nat)
    requires f <= |contexts| && (f < |contexts| ==> contexts[f].info.typeId == t)
    requires forall j :: 0 <= j < f ==> contexts[j].info.typeId != t
    ensures FindContext(contexts, t) == f
  {
  }

  /** The entry that a line adds to the queue, if it does. */
  function Added(s: State, s': State): Option<Queued> {
    if |s'.queue| > |s.queue| then Some(s'.queue[|s.queue|]) else None
  }

  predicate AddedOffline(s: State, s': State) {
    Added(s, s').Some? && Added(s, s').value.offline
  }

  /** A line that queues a point offline comes late enough after the last time, and sets the last time of this point alone. */
  lemma LineLast(s: State, i: Input, t: nat, a: int)
    requires StateOk(s) && i.Line?
    ensures
      var s' := ProcessLine(s, i);
      && StateOk(s')
      && (AddedOffline(s, s') ==> Elapsed(i.now, LastOf(s, i.typeId, i.ioa), s.limits.offlineUdtTime))
      && LastOf(s', t, a) == if AddedOffline(s, s') && t == i.typeId && a == i.ioa then i.now else LastOf(s, t, a)
  {
    var n := FindContext(s.contexts, i.typeId);
    if n == |s.contexts| { return; }
    var c := s.contexts[n];
    ContextKnown(s, n);
    var idx := FindIoa(c.ioas, i.ioa);
    var (slots, offline) :=
      if TriesOffline(c, i.ioa, i.connectedFirst) then Track(s.slots, c, idx, i.value, s.limits, i.now) else (s.slots, false);
    if TriesOffline(c, i.ioa, i.connectedFirst) { TrackKeeps(s, n, idx, i.value, i.now, t, a); }
    var s1 := s.(slots := slots);
    UpdateLast(s1, n, i.ioa, i.value, i.connectedThen, i.now, t, a);
    hide Track, UpdateData, FindContext, FindIoa, Elapsed, StateOk;
    var (d, send) := UpdateData(c, i.ioa, i.value, i.connectedThen, s.limits, i.now);
    SameQueue(s1.(contexts := s.contexts[n := d]), ProcessLine(s, i).queue, t, a);
  }

  // ----- what a line stores and queues -----

  /** The stored value of a point, if the point is configured. */
  function ValueOf(s: State, typeId: nat, ioa: int): Option<DataValue>
    requires StateOk(s)
  {
    var n := FindContext(s.contexts, typeId);
    if n == |s.contexts| then None
    else
      var c := s.contexts[n];
      var idx := FindIoa(c.ioas, ioa);
      if idx == |c.ioas| then None else Some(c.data[idx])
  }

  /** How far apart two numbers are. */
  function Distance(x: real, y: real): real { if x <= y then y - x else x - y }

  /**
   * A value that does not count as a change of the stored one. Floats may differ by less than 0.0001, or, for type 13
   * with a deadband, by up to that percentage of the stored value; all others must be the same.
   */
  predicate WithinTolerance(stored: DataValue, v: DataValue, typeId: nat, deadbandPercent: real) {
    if !stored.FloatValue? || !v.FloatValue? then stored == v
    else if typeId == 13 && deadbandPercent > 0.0 then
      100.0 * Distance(stored.r, v.r) <= deadbandPercent * Distance(stored.r, 0.0)
    else Distance(stored.r, v.r) < 0.0001
  }

  lemma PercentOf(x: real, percent: real)
    ensures x * (percent / 100.0) * 100.0 == percent * x
  {
    var p := percent / 100.0;
    assert percent == p * 100.0;
    assert x * p * 100.0 == (p * 100.0) * x;
  }

  /** This is what values_equal decides. */
  lemma ToleranceExactly(stored: DataValue, v: DataValue, typeId: nat, deadbandPercent: real)
    ensures ValuesEqual(stored, v, typeId, deadbandPercent) <==> WithinTolerance(stored, v, typeId, deadbandPercent)
  {
    if stored.FloatValue? && v.FloatValue? {
      PercentOf(Abs(stored.r), deadbandPercent);
    }
  }

  /**
   * A value that is worth an offline entry: any, unless it is a float. That must differ by more than 0.0001, and by at
   * least the percentage of the stored value, which counts as 100 percent off where the stored value is nearly 0.
   */
  predicate BeyondDeadband(valueType: ValueType, stored: DataValue, v: DataValue, deadbandPercent: real) {
    valueType == FloatType ==>
      var x := if stored.FloatValue? then stored.r else 0.0;
      var y := if v.FloatValue? then v.r else 0.0;
      && Distance(x, y) > 0.0001
      && AtLeastPercent(Distance(x, 0.0), Distance(x, y), deadbandPercent)
  }

  predicate AtLeastPercent(size: real, diff: real, percent: real) {
    if size > 0.0001 then 100.0 * diff >= percent * size else percent <= 100.0
  }

  lemma PercentAtLeast(oldVal: real, diff: real, percent: real)
    requires diff > 0.0001
    ensures PercentOff(oldVal, diff) >= percent <==> AtLeastPercent(Abs(oldVal), diff, percent)
  {
    if Abs(oldVal) > 0.0001 { QuotientAtLeast(diff, Abs(oldVal), percent); }
  }

  lemma QuotientAtLeast(x: real, y: real, percent: real)
    requires y > 0.0
    ensures x / y * 100.0 >= percent <==> 100.0 * x >= percent * y
  {
    var q := x / y;
    assert q * y == x;
    if q * 100.0 >= percent {
      assert (q * 100.0 - percent) * y >= 0.0;
      assert (q * 100.0 - percent) * y == 100.0 * (q * y) - percent * y;
    } else {
      assert (percent - q * 100.0) * y > 0.0;
      assert (percent - q * 100.0) * y == percent * y - 100.0 * (q * y);
    }
  }

  lemma AbsDistance(x: real, y: real)
    ensures Abs(x - y) == Distance(x, y)
  {
  }

  lemma DeadbandExactly(valueType: ValueType, stored: DataValue, v: DataValue, deadbandPercent: real)
    ensures DeadbandPassed(valueType, stored, v, deadbandPercent) <==> BeyondDeadband(valueType, stored, v, deadbandPercent)
  {
    var x, y := FloatOf(stored), FloatOf(v);
    AbsDistance(x, y);
    AbsDistance(x, 0.0);
    assert x - 0.0 == x;
    hide Abs, Distance;
    hide PercentOff, AtLeastPercent;
    if Abs(x - y) > 0.0001 { PercentAtLeast(x, Abs(x - y), deadbandPercent); }
  }

  /** The point of the line is configured, and its stored value is not within tolerance of the new one. */
  predicate Differs(s: State, i: Input)
    requires StateOk(s) && i.Line?
  {
    var v := ValueOf(s, i.typeId, i.ioa);
    v.Some? && !WithinTolerance(v.value, i.value, i.typeId, s.limits.deadbandPercent)
  }

  /** The row of the type of a configured point. */
  function InfoOf(s: State, typeId: nat): TypeInfo
    requires StateOk(s) && FindContext(s.contexts, typeId) < |s.contexts|
  {
    s.contexts[FindContext(s.contexts, typeId)].info
  }

  /** The time since the point was last queued offline has elapsed. */
  predicate Late(s: State, i: Input)
    requires StateOk(s) && i.Line?
  {
    Elapsed(i.now, LastOf(s, i.typeId, i.ioa), s.limits.offlineUdtTime)
  }

  /** Nobody is connected, and the point, which has no time tag, is due for its form with a time tag. */
  predicate OfflineDue(s: State, i: Input)
    requires StateOk(s) && i.Line?
  {
    var v := ValueOf(s, i.typeId, i.ioa);
    && v.Some? && !i.connectedFirst && HasSlot(s.slots, i.typeId)
    && !InfoOf(s, i.typeId).hasTimeTag && InfoOf(s, i.typeId).offlineEquivalent != 0
    && BeyondDeadband(InfoOf(s, i.typeId).valueType, v.value, i.value, s.limits.deadbandPercent)
    && Late(s, i)
  }

  /** The value is new, and there is somebody to send it to, or the point has a time tag and is due. */
  predicate SendDue(s: State, i: Input)
    requires StateOk(s) && i.Line?
  {
    Differs(s, i) && (i.connectedThen || (InfoOf(s, i.typeId).hasTimeTag && Late(s, i)))
  }

  predicate HasSlot(slots: seq<Slot>, typeId: nat) {
    exists k :: 0 <= k < |slots| && (slots[k].typeId == typeId || slots[k].typeId == 0)
  }

  /** A line changes the stored value of its point if that differs, and no other. */
  lemma StoredExactly(s: State, i: Input, t: nat, a: int)
    requires StateOk(s) && i.Line?
    ensures StateOk(ProcessLine(s, i))
    ensures ValueOf(ProcessLine(s, i), t, a) ==
      if Differs(s, i) && t == i.typeId && a == i.ioa then Some(i.value) else ValueOf(s, t, a)
  {
    LineLast(s, i, t, a);
    var n := FindContext(s.contexts, i.typeId);
    if n < |s.contexts| {
      ContextKnown(s, n);
      var c := s.contexts[n];
      LineContexts(s, i);
      UpdateValue(c, i.ioa, i.value, i.connectedThen, s.limits, i.now);
      hide UpdateData, ProcessLine, ValuesEqual, StateOk;
      ContextValue(s, n, UpdateData(c, i.ioa, i.value, i.connectedThen, s.limits, i.now).0, ProcessLine(s, i), t, a);
      if FindIoa(c.ioas, i.ioa) < |c.ioas| {
        IoaAt(c.ioas, FindIoa(c.ioas, i.ioa), a);
        hide WithinTolerance;
        ToleranceExactly(c.data[FindIoa(c.ioas, i.ioa)], i.value, i.typeId, s.limits.deadbandPercent);
      }
    }
  }

  lemma LineContexts(s: State, i: Input)
    requires StateOk(s) && i.Line?
    ensures
      var n := FindContext(s.contexts, i.typeId);
      ProcessLine(s, i).contexts ==
        if n == |s.contexts| then s.contexts
        else s.contexts[n := UpdateData(s.contexts[n], i.ioa, i.value, i.connectedThen, s.limits, i.now).0]
  {
    hide UpdateData, Track, StateOk;
  }

  /** Setting the data of a context sets the values of its points, and of no others. */
  lemma ContextValue(s: State, n: nat, d: Context, s': State, t: nat, a: int)
    requires StateOk(s) && n < |s.contexts| && d.info == s.contexts[n].info && d.ioas == s.contexts[n].ioas
    requires StateOk(s') && s'.contexts == s.contexts[n := d] && |d.data| == |d.ioas|
    ensures
      var idx := FindIoa(d.ioas, a);
      ValueOf(s', t, a) ==
        if t == d.info.typeId then (if idx < |d.ioas| then Some(d.data[idx]) else None) else ValueOf(s, t, a)
  {
    ContextKnown(s, n);
    SameContexts(s.contexts, n, d, t);
    hide StateOk, ContextOk, FindContext;
  }

  /** What update_data does to the values of a context, and when it sends. */
  lemma UpdateValue(c: Context, ioa: int, v: DataValue, connected: bool, l: Limits, now: nat)
    requires ContextOk(c)
    ensures
      var (d, send) := UpdateData(c, ioa, v, connected, l, now);
      var idx := FindIoa(c.ioas, ioa);
      && d.info == c.info && d.ioas == c.ioas && |d.data| == |c.data|
      && if idx < |c.ioas| && !ValuesEqual(c.data[idx], v, c.info.typeId, l.deadbandPercent) then
           && d.data == c.data[idx := v]
           && (send <==> connected || (c.info.hasTimeTag && Elapsed(now, c.lastOfflineUpdate.value[idx], l.offlineUdtTime)))
         else d == c && !send
  {
    hide ValuesEqual, Elapsed;
  }

  /** Tracking queues exactly what is due. */
  lemma TrackExactly(s: State, n: nat, idx: nat, v: DataValue, now: nat)
    requires StateOk(s) && n < |s.contexts| && !s.contexts[n].info.hasTimeTag
    requires idx < |s.contexts[n].ioas| && idx == FindIoa(s.contexts[n].ioas, s.contexts[n].ioas[idx])
    ensures
      var c := s.contexts[n];
      Track(s.slots, c, idx, v, s.limits, now).1 <==>
        && HasSlot(s.slots, c.info.typeId)
        && DeadbandPassed(c.info.valueType, c.data[idx], v, s.limits.deadbandPercent)
        && Elapsed(now, LastOf(s, c.info.typeId, c.ioas[idx]), s.limits.offlineUdtTime)
  {
    SlotWas(s, n, s.contexts[n].ioas[idx]);
    hide LastOf, DeadbandPassed, Elapsed, SlotsOk;
    var k := FindSlot(s.slots, s.contexts[n].info.typeId);
    assert HasSlot(s.slots, s.contexts[n].info.typeId) <==> k < |s.slots|;
  }

  /** What a line adds to the queue: the form with a time tag if that is due, or else the value itself if it is to be sent. */
  lemma QueuedExactly(s: State, i: Input)
    requires StateOk(s) && i.Line?
    ensures
      Added(s, ProcessLine(s, i)) ==
        if OfflineDue(s, i) then
          Some(Queued(i.typeId, i.ioa, InfoOf(s, i.typeId).offlineEquivalent, i.value, i.now, true))
        else if SendDue(s, i) then Some(Queued(i.typeId, i.ioa, i.typeId, i.value, i.now, !i.connectedThen))
        else None
  {
    var n := FindContext(s.contexts, i.typeId);
    if n < |s.contexts| {
      ContextKnown(s, n);
      var c := s.contexts[n];
      var idx := FindIoa(c.ioas, i.ioa);
      UpdateValue(c, i.ioa, i.value, i.connectedThen, s.limits, i.now);
      TaggedLast(s, n, i.ioa);
      if TriesOffline(c, i.ioa, i.connectedFirst) { TrackExactly(s, n, idx, i.value, i.now); }
      hide WithinTolerance, BeyondDeadband;
      if idx < |c.ioas| {
        ToleranceExactly(c.data[idx], i.value, i.typeId, s.limits.deadbandPercent);
        DeadbandExactly(c.info.valueType, c.data[idx], i.value, s.limits.deadbandPercent);
      }
      hide UpdateData, Track, ValuesEqual, StateOk, LastOf, HasSlot, DeadbandPassed, Elapsed;
    }
  }

  /** After a line for a configured point its stored value is within tolerance of that of the line. */
  lemma StoredWithin(s: State, i: Input)
    requires StateOk(s) && i.Line? && ValueOf(s, i.typeId, i.ioa).Some?
    ensures StateOk(ProcessLine(s, i)) && ValueOf(ProcessLine(s, i), i.typeId, i.ioa).Some?
    ensures WithinTolerance(ValueOf(ProcessLine(s, i), i.typeId, i.ioa).value, i.value, i.typeId, s.limits.deadbandPercent)
  {
    StoredExactly(s, i, i.typeId, i.ioa);
    SelfWithin(i.value, i.typeId, s.limits.deadbandPercent);
    hide ProcessLine, ValueOf, StateOk, WithinTolerance;
  }

  lemma SelfWithin(v: DataValue, typeId: nat, deadbandPercent: real)
    ensures WithinTolerance(v, v, typeId, deadbandPercent)
  {
    if v.FloatValue? {
      NotNegative(deadbandPercent, Distance(v.r, 0.0));
      assert Distance(v.r, v.r) == 0.0;
    }
  }

  lemma NotNegative(x: real, y: real)
    requires y >= 0.0
    ensures x > 0.0 ==> x * y >= 0.0
  {
  }

  /** A value within tolerance changes nothing, and one that is not is sent to a connected client as it is. */
  lemma SentExactly(s: State, i: Input)
    requires StateOk(s) && i.Line? && ValueOf(s, i.typeId, i.ioa).Some? && i.connectedFirst && i.connectedThen
    ensures
      var v := ValueOf(s, i.typeId, i.ioa).value;
      if WithinTolerance(v, i.value, i.typeId, s.limits.deadbandPercent) then ProcessLine(s, i) == s
      else ProcessLine(s, i).queue == s.queue + [Queued(i.typeId, i.ioa, i.typeId, i.value, i.now, false)]
  {
    QueuedExactly(s, i);
    QueueGrows(s, i);
    var n := FindContext(s.contexts, i.typeId);
    var c := s.contexts[n];
    var idx := FindIoa(c.ioas, i.ioa);
    ToleranceExactly(c.data[idx], i.value, i.typeId, s.limits.deadbandPercent);
    hide WithinTolerance, ValuesEqual, Track, StateOk, BeyondDeadband;
    assert s.contexts[n := c] == s.contexts;
  }

  lemma SameQueue(s: State, queue: seq<Queued>, t: nat, a: int)
    requires StateOk(s)
    ensures StateOk(s.(queue := queue)) && LastOf(s.(queue := queue), t, a) == LastOf(s, t, a)
  {
  }

  lemma ResetKeeps(s: State, t: nat, a: int)
    requires StateOk(s)
    ensures StateOk(ResetAll(s)) && LastOf(ResetAll(s), t, a) == LastOf(s, t, a)
  {
    ContextAt(ResetAll(s).contexts, t, FindContext(s.contexts, t));
  }

  /** A reset clears the values of all points. */
  lemma ResetClears(s: State, t: nat, a: int)
    requires StateOk(s)
    ensures StateOk(ResetAll(s))
    ensures ValueOf(ResetAll(s), t, a) == if ValueOf(s, t, a).Some? then Some(BoolValue(false)) else None
  {
    ResetKeeps(s, t, a);
    ContextAt(ResetAll(s).contexts, t, FindContext(s.contexts, t));
  }

  /** A time that is far enough from the last one. */
  lemma ElapsedMeans(now: nat, last: nat, offlineUdtTime: UInt32)
    requires last <= now < WORD64
    ensures Elapsed(now, last, offlineUdtTime) <==> now - last >= Threshold(offlineUdtTime)
  {
  }

  lemma ThrottledAppend(queue: seq<Queued>, e: Queued, gap: nat)
    requires Throttled(queue, gap) && forall d :: d in queue ==> Apart(d, e, gap)
    ensures Throttled(queue + [e], gap)
  {
  }

  lemma LineKeeps(s: State, i: Input, clock: nat)
    requires Inv(s, clock) && i.Line? && clock <= i.now < WORD64
    ensures Inv(ProcessLine(s, i), i.now)
  {
    var s' := ProcessLine(s, i);
    LineLast(s, i, i.typeId, i.ioa);
    forall t: nat, a: int
      ensures LastOf(s', t, a) == if AddedOffline(s, s') && t == i.typeId && a == i.ioa then i.now else LastOf(s, t, a)
    {
      LineLast(s, i, t, a);
    }
    QueueGrows(s, i);
    hide ProcessLine, LastOf, StateOk, Elapsed, Threshold;
    if s'.queue != s.queue {
      var e := s'.queue[|s.queue|];
      assert s'.queue == s.queue + [e];
      forall d | d in s.queue ensures Apart(d, e, Threshold(s.limits.offlineUdtTime)) {
        if e.offline { ElapsedMeans(i.now, LastOf(s, i.typeId, i.ioa), s.limits.offlineUdtTime); }
      }
      ThrottledAppend(s.queue, e, Threshold(s.limits.offlineUdtTime));
    }
  }

  lemma QueueGrows(s: State, i: Input)
    requires StateOk(s) && i.Line?
    ensures
      var s' := ProcessLine(s, i);
      && s'.limits == s.limits
      && (s'.queue == s.queue
          || (s'.queue == s.queue + [s'.queue[|s.queue|]] && s'.queue[|s.queue|].typeId == i.typeId
              && s'.queue[|s.queue|].ioa == i.ioa && s'.queue[|s.queue|].time == i.now))
  {
  }

  lemma StepKeeps(s: State, i: Input, clock: nat)
    requires Inv(s, clock) && (i.Line? ==> clock <= i.now < WORD64)
    ensures Inv(Step(s, i), if i.Line? then i.now else clock) && Step(s, i).limits == s.limits
  {
    if i.Line? {
      LineKeeps(s, i, clock);
      QueueGrows(s, i);
    } else {
      forall t: nat, a: int ensures LastOf(ResetAll(s), t, a) == LastOf(s, t, a) { ResetKeeps(s, t, a); }
      ResetKeeps(s, 0, 0);
    }
  }

  /** The clock does not go back. */
  predicate InOrder(inputs: seq<Input>, clock: nat) {
    inputs != [] ==>
      && (inputs[0].Line? ==> clock <= inputs[0].now < WORD64)
      && InOrder(inputs[1..], if inputs[0].Line? then inputs[0].now else clock)
  }

  lemma {:induction false} RunKeeps(s: State, inputs: seq<Input>, clock: nat)
    requires Inv(s, clock) && InOrder(inputs, clock)
    ensures Throttled(Run(s, inputs).queue, Threshold(s.limits.offlineUdtTime)) && SlotsOk(Run(s, inputs).slots)
    decreases |inputs|
  {
    if inputs != [] {
      StepKeeps(s, inputs[0], clock);
      RunKeeps(Step(s, inputs[0]), inputs[1..], if inputs[0].Line? then inputs[0].now else clock);
    }
  }

  /** Before the first input: all slots are free, and all times are 0. */
  predicate Init(s: State) {
    && StateOk(s) && s.queue == [] && |s.slots| == 10 && (forall k :: 0 <= k < 10 ==> s.slots[k] == Slot(0, []))
    && forall n :: 0 <= n < |s.contexts| && s.contexts[n].lastOfflineUpdate.Some? ==>
         s.contexts[n].lastOfflineUpdate.value == Zeros(|s.contexts[n].ioas|)
  }

  lemma InitInv(s: State)
    requires Init(s)
    ensures Inv(s, 0)
  {
    forall t: nat, a: int ensures LastOf(s, t, a) == 0 {
      var n := FindContext(s.contexts, t);
      if n < |s.contexts| { ContextKnown(s, n); }
    }
  }

  /**
   * In every run two offline entries of one point are at least the threshold apart, on the path for values with a time
   * tag as well as on the one for values without, and each type has at most one slot.
   */
  lemma OfflineIsThrottled(s: State, inputs: seq<Input>)
    requires Init(s) && InOrder(inputs, 0)
    ensures Throttled(Run(s, inputs).queue, Threshold(s.limits.offlineUdtTime)) && SlotsOk(Run(s, inputs).slots)
  {
    InitInv(s);
    RunKeeps(s, inputs, 0);
  }

  // ----- there are enough slots -----

  /** The types without a time tag. */
  const UNTAGGED: set<nat> := {1, 3, 9, 11, 13, 21}

  /** Only such types take slots. */
  predicate SlotTypes(slots: seq<Slot>) {
    |slots| == 10 && forall k :: 0 <= k < 10 && slots[k].typeId != 0 ==> slots[k].typeId in UNTAGGED
  }

  function TypesOf(slots: seq<Slot>): set<nat> {
    if slots == [] then {} else TypesOf(slots[1..]) + {slots[0].typeId}
  }

  lemma {:induction false} DistinctTypes(slots: seq<Slot>)
    requires forall i, j :: 0 <= i < j < |slots| ==> slots[i].typeId != slots[j].typeId
    ensures |TypesOf(slots)| == |slots|
    ensures forall t :: t in TypesOf(slots) ==> exists k :: 0 <= k < |slots| && slots[k].typeId == t
  {
    if slots != [] {
      DistinctTypes(slots[1..]);
      forall t | t in TypesOf(slots[1..]) ensures exists k :: 0 < k < |slots| && slots[k].typeId == t {
        var k :| 0 <= k < |slots[1..]| && slots[1..][k].typeId == t;
        assert slots[k + 1].typeId == t;
      }
    }
  }

  /** Ten slots do not run out: the last one is never taken. */
  lemma LastSlotFree(slots: seq<Slot>)
    requires SlotsOk(slots) && SlotTypes(slots)
    ensures slots[9].typeId == 0
  {
    if slots[9].typeId != 0 {
      assert forall i, j :: 0 <= i < j < 10 ==> slots[i].typeId != slots[j].typeId;
      DistinctTypes(slots);
      assert forall t :: t in TypesOf(slots) ==> t in UNTAGGED;
      SubsetSize(TypesOf(slots), UNTAGGED);
      assert false;
    }
  }

  lemma {:induction false} SubsetSize(a: set<nat>, b: set<nat>)
    requires a <= b
    ensures |a| <= |b|
  {
    if a != {} {
      var x :| x in a;
      SubsetSize(a - {x}, b - {x});
    }
  }

  lemma TrackSlotTypes(s: State, n: nat, idx: nat, v: DataValue, now: nat)
    requires StateOk(s) && n < |s.contexts| && idx < |s.contexts[n].ioas| && !s.contexts[n].info.hasTimeTag
    requires SlotTypes(s.slots)
    ensures SlotTypes(Track(s.slots, s.contexts[n], idx, v, s.limits, now).0)
  {
    ContextKnown(s, n);
    TrackSets(s.slots, s.contexts[n], idx, v, s.limits, now);
    hide Track, SlotsOk;
  }

  lemma StepSlotTypes(s: State, i: Input)
    requires StateOk(s) && SlotTypes(s.slots)
    ensures SlotTypes(Step(s, i).slots)
  {
    if i.Line? {
      var n := FindContext(s.contexts, i.typeId);
      if n < |s.contexts| && TriesOffline(s.contexts[n], i.ioa, i.connectedFirst) {
        TrackSlotTypes(s, n, FindIoa(s.contexts[n].ioas, i.ioa), i.value, i.now);
      }
    }
    hide Track, UpdateData, StateOk, SlotTypes;
  }

  /** In every run each type without a time tag finds a slot. */
  lemma {:induction false} SlotsSuffice(s: State, inputs: seq<Input>, t: nat)
    requires StateOk(s) && SlotTypes(s.slots)
    ensures HasSlot(Run(s, inputs).slots, t)
    decreases |inputs|
  {
    if inputs == [] {
      LastSlotFree(s.slots);
    } else {
      StepSlotTypes(s, inputs[0]);
      SlotsSuffice(Step(s, inputs[0]), inputs[1..], t);
    }
  }

  /** So after any run nobody has to wait for a slot. */
  lemma SlotAlways(s: State, inputs: seq<Input>, t: nat)
    requires Init(s)
    ensures HasSlot(Run(s, inputs).slots, t)
  {
    SlotsSuffice(s, inputs, t);
  }

  // ----- the threshold is the configured time only if it fits into 32 bits -----

  /** A server with one single point, and two changes while nobody is connected. */
  function OnePoint(offlineUdtTime: UInt32): State {
    State([Context(DATA_TYPE_TABLE[4], [1], [BoolValue(false)], None)], seq(10, _ => Slot(0, [])),
          Limits(offlineUdtTime, 0.0), [])
  }

  function Change(now: nat): Input { Line(1, 1, BoolValue(true), false, false, now) }

  /** Two values of the point that come exactly the threshold apart are both queued. */
  lemma ChangesQueued(offlineUdtTime: UInt32)
    ensures
      var gap := Threshold(offlineUdtTime);
      var s, i := OnePoint(offlineUdtTime), [Change(gap), Change(2 * gap)];
      && Init(s) && InOrder(i, 0)
      && |Run(s, i).queue| == 2 && !Apart(Run(s, i).queue[0], Run(s, i).queue[1], gap + 1)
  {
    var gap := Threshold(offlineUdtTime);
    var s, i := OnePoint(offlineUdtTime), [Change(gap), Change(2 * gap)];
    assert Init(s);
    assert i[1..] == [Change(2 * gap)] && i[1..][1..] == [];
    assert InOrder(i[1..], gap);
    FirstChange(s, gap);
    var s1 := Step(s, i[0]);
    SecondChange(s1, gap, 2 * gap);
    assert Run(s, i) == Step(s1, i[1]) by {
      assert Run(s1, i[1..]) == Run(Step(s1, i[1]), []);
    }
  }

  lemma FirstChange(s: State, now: nat)
    requires s == OnePoint(s.limits.offlineUdtTime) && StateOk(s) && now < WORD64 && Threshold(s.limits.offlineUdtTime) <= now
    ensures
      var r := Step(s, Change(now));
      && |r.slots| == 10 && r.slots[0] == Slot(1, [now]) && r.limits == s.limits
      && |r.contexts| == 1 && r.contexts[0] == s.contexts[0].(data := [BoolValue(true)])
      && r.queue == [Queued(1, 1, 30, BoolValue(true), now, true)]
  {
    assert Zeros(1) == [0] && [0][0 := now] == [now];
    assert Elapsed(now, 0, s.limits.offlineUdtTime);
    hide Threshold, Elapsed, StateOk, SlotsOk, ContextOk;
    assert FindSlot(s.slots, 1) == 0 && OpenSlot(s.slots, s.contexts[0])[0] == Slot(1, [0]);
  }

  lemma SecondChange(s: State, before: nat, now: nat)
    requires StateOk(s) && |s.slots| == 10 && s.slots[0] == Slot(1, [before]) && before <= now < WORD64
    requires now - before >= Threshold(s.limits.offlineUdtTime) && |s.queue| == 1 && |s.contexts| == 1
    requires s.contexts[0].info == DATA_TYPE_TABLE[4] && s.contexts[0].ioas == [1]
    ensures Step(s, Change(now)).queue == s.queue + [Queued(1, 1, 30, BoolValue(true), now, true)]
  {
  }

  /** The configured time is kept in all runs exactly when its milliseconds fit into 32 bits. */
  lemma ThrottleExactly(offlineUdtTime: UInt32)
    ensures offlineUdtTime * 1000 < WORD32 <==>
      forall s: State, inputs: seq<Input> ::
        Init(s) && s.limits.offlineUdtTime == offlineUdtTime && InOrder(inputs, 0) ==>
          Throttled(Run(s, inputs).queue, offlineUdtTime * 1000)
  {
    hide Run, InOrder, StateOk;
    if offlineUdtTime * 1000 < WORD32 {
      assert Threshold(offlineUdtTime) == offlineUdtTime * 1000;
      hide Threshold, Throttled;
      forall s: State, inputs: seq<Input> | Init(s) && s.limits.offlineUdtTime == offlineUdtTime && InOrder(inputs, 0)
        ensures Throttled(Run(s, inputs).queue, offlineUdtTime * 1000)
      {
        OfflineIsThrottled(s, inputs);
      }
    } else {
      TooEarly(offlineUdtTime);
    }
  }

  lemma TooEarly(offlineUdtTime: UInt32)
    requires offlineUdtTime * 1000 >= WORD32
    ensures
      var gap := Threshold(offlineUdtTime);
      var s, i := OnePoint(offlineUdtTime), [Change(gap), Change(2 * gap)];
      Init(s) && InOrder(i, 0) && !Throttled(Run(s, i).queue, offlineUdtTime * 1000)
  {
    ChangesQueued(offlineUdtTime);
    var gap := Threshold(offlineUdtTime);
    var q := Run(OnePoint(offlineUdtTime), [Change(gap), Change(2 * gap)]).queue;
    hide Run, Init, InOrder;
    assert gap + 1 <= offlineUdtTime * 1000;
    assert !Apart(q[0], q[1], offlineUdtTime * 1000);
  }
}
