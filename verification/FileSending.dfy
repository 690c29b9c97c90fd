/** A whole file that the master fetches, from its selection to the acknowledgement of the file. */
module FileSending {
  import opened Bytes
  import opened Options
  import opened FileService
  import opened FileAnswers
  import FileTransfer
  import FileReception

  // ----- what the master sends -----

  /** A message that comes before the timeout since `last`. */
  predicate InTime(i: Input, last: nat, timeout: nat) { i.Received? && i.now <= last + timeout }

  /** A call (SCQ) of the file at that address. */
  predicate CallsFor(i: Input, scq: byte, a: FileAddress) {
    && i.Received? && i.asdu.m.Call? && i.asdu.m.cot == FileTransfer && i.asdu.m.scq == scq
    && i.asdu.ca == a.ca && i.asdu.m.ioa == a.ioa
  }

  /** One section: it is called, `runTask` is called until it is sent, and the master acknowledges it. */
  datatype Turn = Turn(call: Input, ticks: seq<Input>, ack: Input)

  function Inputs(t: Turn): seq<Input> { [t.call] + t.ticks + [t.ack] }

  function AllInputs(turns: seq<Turn>): seq<Input> {
    if turns == [] then [] else Inputs(turns[0]) + AllInputs(turns[1..])
  }

  /** The transfer: by which connection, of which file, at which address; and two settings of the server. */
  datatype Transfer = Transfer(to: Connection, f: File, a: FileAddress, timeout: nat, maxSegmentSize: int)

  /** The section is fetched with as many ticks as it takes, each in time. */
  predicate Fetches(t: Turn, x: Transfer, nos: byte, last: nat)
    requires x.maxSegmentSize > 0
  {
    && CallsFor(t.call, 6, x.a) && t.call.asdu.m.nos == nos && !t.call.asdu.negative && InTime(t.call, last, x.timeout)
    && Ticks(t.ticks, x.to, x.timeout) && |t.ticks| == Segments(|Section(x.f, nos)|, x.maxSegmentSize) + 1
    && t.ack.Received? && t.ack.asdu.m.Ack? && t.ack.asdu.m.afq % 16 == 3
    && InTime(t.ack, t.ticks[|t.ticks| - 1].now, x.timeout)
  }

  /** The sections from `nos` on, as far as they are not empty; their names are bytes. */
  function Leading(f: File, nos: nat): (n: nat)
    ensures n > 0 ==> nos + n <= 256
    decreases 256 - nos
  {
    if nos > 255 || Section(f, nos) == [] then 0 else 1 + Leading(f, nos + 1)
  }

  /** These are all sections of a file with at most 255, none of which is empty. */
  lemma {:induction false} LeadingAll(f: File, nos: nat)
    requires |f.sections| <= 255 && 1 <= nos <= |f.sections| + 1
    requires forall i :: 0 <= i < |f.sections| ==> f.sections[i] != []
    ensures Leading(f, nos) == |f.sections| - (nos - 1)
    decreases |f.sections| + 1 - nos
  {
    if nos <= |f.sections| { LeadingAll(f, nos + 1); }
  }

  predicate FetchesAll(turns: seq<Turn>, x: Transfer, nos: nat, last: nat)
    requires x.maxSegmentSize > 0
    decreases |turns|
  {
    && |turns| == Leading(x.f, nos)
    && (turns != [] ==>
          Fetches(turns[0], x, nos, last) && FetchesAll(turns[1..], x, nos + 1, turns[0].ack.later))
  }

  // ----- where the server is -----

  /** What an observer has seen: what was accepted, nothing refused, and how much was cut off before. */
  predicate Saw(v: FileTransfer.View, phase: Phase, accepted: bytes, cut: bytes) {
    && v.accepted == accepted && v.refused == []
    && v.spoilt + v.stale + (if phase == TransmitSection then [] else v.current) == cut
  }

  /** The transfer goes on, in this state. */
  predicate Serves(s: Server, phase: Phase, x: Transfer) {
    && s.phase == phase && s.file == Some(x.f) && s.connection == Some(x.to) && Current(s) == x.a
    && s.timeout == x.timeout && s.maxSegmentSize == x.maxSegmentSize > 0
  }

  ghost predicate At(s: Server, phase: Phase, x: Transfer, accepted: bytes, cut: bytes) {
    FileTransfer.Inv(s) && Serves(s, phase, x) && Saw(FileTransfer.Seen(s.out), phase, accepted, cut)
  }

  lemma CallServed(s: Server, i: Input, x: Transfer)
    requires Serves(s, WaitingForSectionCall, x) && InTime(i, s.lastSendTime, s.timeout)
    requires CallsFor(i, 6, x.a) && !i.asdu.negative && Section(x.f, i.asdu.m.nos) != []
    ensures
      var t := Step(s, i);
      && Serves(t, TransmitSection, x) && t.out == s.out + [SectionStarted(i.asdu.m.nos)]
      && t.nos == i.asdu.m.nos && t.offset == 0 && t.size == |Section(x.f, t.nos)|
  {
    hide Section;
  }

  lemma SectionCalled(s: Server, i: Input, x: Transfer, accepted: bytes, cut: bytes)
    requires At(s, WaitingForSectionCall, x, accepted, cut) && InTime(i, s.lastSendTime, s.timeout)
    requires CallsFor(i, 6, x.a) && !i.asdu.negative && Section(x.f, i.asdu.m.nos) != []
    ensures
      var t := Step(s, i);
      && At(t, TransmitSection, x, accepted, cut)
      && t.nos == i.asdu.m.nos && t.offset == 0 && t.size == |Section(x.f, t.nos)|
  {
    FileTransfer.StepKeeps(s, i);
    CallServed(s, i, x);
    hide FileTransfer.Inv, FileTransfer.Seen, FileTransfer.Next, Saw, Section, Step, Serves, CallsFor, InTime;
    FileTransfer.SeenPut(s.out, SectionStarted(i.asdu.m.nos));
    SawCall(FileTransfer.Seen(s.out), i.asdu.m.nos, accepted, cut);
  }

  lemma SawCall(v: FileTransfer.View, nos: byte, accepted: bytes, cut: bytes)
    requires Saw(v, WaitingForSectionCall, accepted, cut)
    ensures Saw(FileTransfer.Next(v, SectionStarted(nos)), TransmitSection, accepted, cut)
  {
    assert v.spoilt + (v.stale + v.current) == v.spoilt + v.stale + v.current;
  }

  /** One tick, as far as it concerns the transfer. */
  lemma SegmentTicked(s: Server, i: Input, x: Transfer, accepted: bytes, cut: bytes)
    requires At(s, TransmitSection, x, accepted, cut) && Ticks([i], x.to, x.timeout)
    ensures
      var t := Step(s, i);
      && Forward(s, t) && At(t, if s.offset < s.size then TransmitSection else WaitingForSectionAck, x, accepted, cut)
      && t.lastSendTime == i.now
  {
    assert [i][0] == i;
    hide FileTransfer.Inv, FileTransfer.Seen, Step, Ticks, Underway, Forward, Saw;
    TickForward(s, x.to, i);
    InvUnderway(s);
    TickSends(s, x.to, i.now, i.later);
    TickKeeps(s, i, x);
    TickSaw(s, i, x, accepted, cut);
    ForwardPhase(s, Step(s, i));
  }

  lemma ForwardPhase(s: Server, t: Server)
    requires Forward(s, t)
    ensures t.file == s.file && t.phase == if s.offset < s.size then TransmitSection else WaitingForSectionAck
  {
  }

  lemma TickKeeps(s: Server, i: Input, x: Transfer)
    requires Underway(s) && s.connection == Some(x.to) && Ticks([i], x.to, s.timeout)
    ensures
      var t := Step(s, i);
      && i.Tick? && i.from == x.to
      && Current(t) == Current(s) && t.connection == s.connection && t.timeout == s.timeout && t.lastSendTime == i.now
      && t.maxSegmentSize == s.maxSegmentSize
  {
    assert [i][0] == i;
    hide Section, NextSegment, Sum;
  }

  lemma TickSaw(s: Server, i: Input, x: Transfer, accepted: bytes, cut: bytes)
    requires Serves(s, TransmitSection, x) && Saw(FileTransfer.Seen(s.out), TransmitSection, accepted, cut) && Underway(s)
    requires var seen := FileTransfer.Seen(s.out).current;
      seen == Section(x.f, s.nos)[..s.offset]
      && Step(s, i).out == s.out + [Sent(x.to, s.oa, s.ca, s.ioa, s.nof, Due(s, |seen|))]
    ensures
      Saw(FileTransfer.Seen(Step(s, i).out), if s.offset < s.size then TransmitSection else WaitingForSectionAck,
          accepted, cut)
  {
    var v := FileTransfer.Seen(s.out);
    var o := Sent(x.to, s.oa, s.ca, s.ioa, s.nof, Due(s, |v.current|));
    assert |v.current| == s.offset;
    FileTransfer.SeenPut(s.out, o);
    hide FileTransfer.Seen, Section, Step;
    assert v.spoilt + v.stale + [] == v.spoilt + v.stale;
  }

  lemma {:induction false} SectionTicked(s: Server, ticks: seq<Input>, x: Transfer, accepted: bytes, cut: bytes)
    requires At(s, TransmitSection, x, accepted, cut) && Ticks(ticks, x.to, x.timeout)
    requires |ticks| == Segments(s.size - s.offset, x.maxSegmentSize) + 1
    ensures
      var t := Run(s, ticks);
      && At(t, WaitingForSectionAck, x, accepted, cut) && t.nos == s.nos && t.lastSendTime == ticks[|ticks| - 1].now
    decreases |ticks|
  {
    hide FileTransfer.Inv, FileTransfer.Seen, Saw, Step, Run, Section;
    RunTail(s, ticks);
    FirstTick(ticks, x.to, x.timeout);
    SegmentTicked(s, ticks[0], x, accepted, cut);
    if s.offset < s.size {
      hide Segments, At, Ticks;
      SectionTicked(Step(s, ticks[0]), ticks[1..], x, accepted, cut);
    }
  }

  // ----- the acknowledgements -----

  /** The message that goes on with the transfer when section `nos` was accepted. */
  function Continued(s: Server, x: Transfer, nos: byte): Reply {
    var next: byte := (nos + 1) % 256;
    if Section(x.f, next) == [] then LastSection(next, s.fileChecksum) else SectionIsReady(next, |Section(x.f, next)|)
  }

  lemma AckServed(s: Server, i: Input, x: Transfer)
    requires Serves(s, WaitingForSectionAck, x) && InTime(i, s.lastSendTime, s.timeout)
    requires i.asdu.m.Ack? && i.asdu.m.afq % 16 == 3
    ensures
      var t, next := Step(s, i), (s.nos + 1) % 256;
      && Serves(t, if Section(x.f, next) == [] then WaitingForFileAck else WaitingForSectionCall, x)
      && t.out == s.out + [SectionAccepted] + [FileReception.Tell(i.from, i.asdu.oa, x.a, Continued(s, x, s.nos))]
      && t.lastSendTime == i.later && t.nos == next
  {
    hide Section;
  }

  lemma SawAck(v: FileTransfer.View, section: bytes, r: Output, phase: Phase, accepted: bytes, cut: bytes)
    requires Saw(v, WaitingForSectionAck, accepted, cut) && v.pending == section && phase != TransmitSection
    requires r.Sent? && (r.reply.LastSection? || r.reply.SectionIsReady?)
    ensures
      var w := FileTransfer.Next(v, SectionAccepted);
      && Saw(w, phase, accepted + section, cut) && FileTransfer.Next(w, r) == w
      && w.stale == v.stale && w.current == v.current
  {
  }

  lemma AwaitedAlone(s: Server)
    requires FileTransfer.Inv(s) && s.phase == WaitingForSectionAck
    ensures FileTransfer.Seen(s.out).stale == [] && FileTransfer.Seen(s.out).current == []
  {
    hide FileTransfer.Seen, FileTransfer.AllGood, Section, Sum;
  }

  /** An accepted section counts, and the next one is announced, or the end of the file. */
  lemma SectionAcknowledged(s: Server, i: Input, x: Transfer, accepted: bytes, cut: bytes)
    requires At(s, WaitingForSectionAck, x, accepted, cut) && InTime(i, s.lastSendTime, s.timeout)
    requires i.asdu.m.Ack? && i.asdu.m.afq % 16 == 3
    ensures
      var t, next := Step(s, i), (s.nos + 1) % 256;
      && At(t, if Section(x.f, next) == [] then WaitingForFileAck else WaitingForSectionCall, x,
            accepted + Section(x.f, s.nos), cut)
      && t.out == s.out + [SectionAccepted] + [FileReception.Tell(i.from, i.asdu.oa, x.a, Continued(s, x, s.nos))]
      && t.lastSendTime == i.later && t.nos == next
      && FileTransfer.Seen(t.out) == FileTransfer.Seen(s.out + [SectionAccepted])
      && FileTransfer.Seen(t.out).stale == [] && FileTransfer.Seen(t.out).current == []
  {
    FileTransfer.StepKeeps(s, i);
    AwaitedSection(s);
    AwaitedAlone(s);
    AckServed(s, i, x);
    var r := FileReception.Tell(i.from, i.asdu.oa, x.a, Continued(s, x, s.nos));
    var phase := if Section(x.f, (s.nos + 1) % 256) == [] then WaitingForFileAck else WaitingForSectionCall;
    SawAck(FileTransfer.Seen(s.out), Section(x.f, s.nos), r, phase, accepted, cut);
    hide FileTransfer.Inv, FileTransfer.Seen, FileTransfer.Next, Saw, Section, Step, InTime;
    FileTransfer.SeenPut(s.out, SectionAccepted);
    FileTransfer.SeenPut(s.out + [SectionAccepted], r);
  }

  // ----- a section, and all of them -----

  lemma SectionFetched(s: Server, turn: Turn, x: Transfer, nos: byte, accepted: bytes, cut: bytes)
    requires At(s, WaitingForSectionCall, x, accepted, cut) && Section(x.f, nos) != []
    requires Fetches(turn, x, nos, s.lastSendTime)
    ensures
      var t, next := Run(s, Inputs(turn)), (nos + 1) % 256;
      && At(t, if Section(x.f, next) == [] then WaitingForFileAck else WaitingForSectionCall, x,
            accepted + Section(x.f, nos), cut)
      && t.lastSendTime == turn.ack.later
      && (Section(x.f, next) == [] ==> EndsFile(t, x, next))
  {
    hide FileTransfer.Inv, FileTransfer.Seen, Saw, Step, Run, Section, InTime, CallsFor, Ticks, Segments;
    SectionCalled(s, turn.call, x, accepted, cut);
    var s1 := Step(s, turn.call);
    SectionTicked(s1, turn.ticks, x, accepted, cut);
    var s2 := Run(s1, turn.ticks);
    SectionAcknowledged(s2, turn.ack, x, accepted, cut);
    FileReception.RunThree(s, turn.call, turn.ticks, turn.ack);
    hide At;
    if Section(x.f, (nos + 1) % 256) == [] { FileEnds(s2, turn.ack, x); }
  }

  /** The end of the file has been announced, and nothing else since the last section was accepted. */
  ghost predicate EndsFile(t: Server, x: Transfer, next: byte) {
    && |t.out| >= 1
    && var k := |t.out| - 1;
       && t.out[k].Sent? && t.out[k].reply.LastSection? && t.out[k].reply.nos == next
       && FileTransfer.Seen(t.out) == FileTransfer.Seen(t.out[..k])
       && FileTransfer.Seen(t.out).stale == [] && FileTransfer.Seen(t.out).current == []
  }

  lemma FileEnds(s: Server, i: Input, x: Transfer)
    requires
      var t, next := Step(s, i), (s.nos + 1) % 256;
      && i.Received? && Section(x.f, next) == []
      && t.out == s.out + [SectionAccepted] + [FileReception.Tell(i.from, i.asdu.oa, x.a, Continued(s, x, s.nos))]
      && FileTransfer.Seen(t.out) == FileTransfer.Seen(s.out + [SectionAccepted])
      && FileTransfer.Seen(t.out).stale == [] && FileTransfer.Seen(t.out).current == []
    ensures EndsFile(Step(s, i), x, (s.nos + 1) % 256)
  {
    hide FileTransfer.Seen, Section, Step;
    var t := Step(s, i);
    assert t.out[..|t.out| - 1] == s.out + [SectionAccepted];
  }

  lemma JoinedMore(f: File, n: nat)
    requires n < |f.sections|
    ensures FileReception.Joined(f.sections[..n + 1]) == FileReception.Joined(f.sections[..n]) + f.sections[n]
  {
    JoinedAppend(f.sections[..n], f.sections[n]);
    assert f.sections[..n + 1] == f.sections[..n] + [f.sections[n]];
  }

  lemma {:induction false} JoinedAppend(a: seq<bytes>, b: bytes)
    ensures FileReception.Joined(a + [b]) == FileReception.Joined(a) + b
    decreases |a|
  {
    if a == [] {
      assert [] + [b] == [b] && [b][1..] == [];
    } else {
      JoinedAppend(a[1..], b);
      assert (a + [b])[1..] == a[1..] + [b];
    }
  }

  /** The sections from `nos` on are fetched one after the other. */
  lemma {:induction false} SectionsFetched(s: Server, turns: seq<Turn>, x: Transfer, nos: byte, cut: bytes)
    requires 1 <= nos <= |x.f.sections|
    requires At(s, WaitingForSectionCall, x, FileReception.Joined(x.f.sections[..nos - 1]), cut)
    requires turns != [] && FetchesAll(turns, x, nos, s.lastSendTime)
    ensures
      var t, n := Run(s, AllInputs(turns)), nos - 1 + Leading(x.f, nos);
      && n <= |x.f.sections| && n < 256
      && At(t, WaitingForFileAck, x, FileReception.Joined(x.f.sections[..n]), cut)
      && EndsFile(t, x, (n + 1) % 256)
      && turns[|turns| - 1].ack.Received? && t.lastSendTime == turns[|turns| - 1].ack.later
    decreases |turns|
  {
    hide FileTransfer.Inv, FileTransfer.Seen, Saw, Step, Run, At, EndsFile, Inputs;
    var accepted := FileReception.Joined(x.f.sections[..nos - 1]);
    SectionFetched(s, turns[0], x, nos, accepted, cut);
    JoinedMore(x.f, nos - 1);
    var s1 := Run(s, Inputs(turns[0]));
    FileTransfer.RunConcat(s, Inputs(turns[0]), AllInputs(turns[1..]));
    if turns[1..] == [] {
      assert AllInputs([]) == [] && Inputs(turns[0]) + [] == Inputs(turns[0]);
    } else {
      SectionsFetched(s1, turns[1..], x, nos + 1, cut);
    }
  }

  // ----- the beginning and the end -----

  lemma FileSelected(s: Server, i: Input, x: Transfer)
    requires FileTransfer.Inv(s) && i.Received? && Selects(Expired(s, i.now), i.asdu) && i.asdu.m.found == Found(x.f)
    requires x == Transfer(i.from, x.f, Named(i.asdu), s.timeout, s.maxSegmentSize)
    ensures
      var t := Step(s, i);
      && FileTransfer.Inv(t) && Serves(t, WaitingForFileCall, x) && t.lastSendTime == i.later
      && FileTransfer.Seen(t.out).stale == FileTransfer.Seen(s.out).stale
      && FileTransfer.Seen(t.out).current == FileTransfer.Seen(s.out).current
  {
    FileTransfer.StepKeeps(s, i);
    assert s.maxSegmentSize > 0;
    var o, r := FileOpened(x.f), FileReception.Tell(i.from, i.asdu.oa, x.a, FileIsReady(x.f.size, true));
    hide FileTransfer.Inv, FileTransfer.Seen;
    assert Step(s, i).out == s.out + [o] + [r];
    FileTransfer.SeenPut(s.out, o);
    FileTransfer.SeenPut(s.out + [o], r);
  }

  lemma FileCalled(s: Server, i: Input, x: Transfer)
    requires FileTransfer.Inv(s) && Serves(s, WaitingForFileCall, x)
    requires CallsFor(i, 2, x.a) && InTime(i, s.lastSendTime, s.timeout)
    ensures
      var t, v := Step(s, i), FileTransfer.Seen(s.out);
      At(t, WaitingForSectionCall, x, [], v.stale + v.current) && t.lastSendTime == i.later
  {
    FileTransfer.StepKeeps(s, i);
    var v := FileTransfer.Seen(s.out);
    var r := FileReception.Tell(i.from, i.asdu.oa, x.a, SectionIsReady(1, SizeOf(s, 1)));
    CalledServed(s, i, x);
    hide FileTransfer.Inv, FileTransfer.Seen, FileTransfer.Next, Saw, Section, Step, Serves, CallsFor, InTime;
    FileTransfer.SeenPut(s.out, FileStarted);
    FileTransfer.SeenPut(s.out + [FileStarted], r);
    SawStart(v, r);
  }

  lemma CalledServed(s: Server, i: Input, x: Transfer)
    requires Serves(s, WaitingForFileCall, x) && CallsFor(i, 2, x.a) && InTime(i, s.lastSendTime, s.timeout)
    ensures
      var t := Step(s, i);
      && Serves(t, WaitingForSectionCall, x) && t.lastSendTime == i.later
      && t.out == s.out + [FileStarted] + [FileReception.Tell(i.from, i.asdu.oa, x.a, SectionIsReady(1, SizeOf(s, 1)))]
  {
    hide Section;
  }

  lemma SawStart(v: FileTransfer.View, r: Output)
    requires r.Sent? && r.reply.SectionIsReady?
    ensures
      var w := FileTransfer.Next(v, FileStarted);
      FileTransfer.Next(w, r) == w && Saw(w, WaitingForSectionCall, [], v.stale + v.current)
  {
    assert [] + v.stale + v.current == v.stale + v.current;
  }

  lemma FileAcknowledged(s: Server, i: Input, x: Transfer)
    requires Serves(s, WaitingForFileAck, x) && InTime(i, s.lastSendTime, s.timeout)
    requires i.asdu.m.Ack? && i.asdu.m.afq == 1
    ensures
      var t := Step(s, i);
      t.phase == UnselectedIdle && t.file == None && t.connection == None && t.out == s.out + [TransferComplete(true)]
  {
  }

  /** The checksum that ends the file. */
  lemma EndChecksum(s: Server, x: Transfer, next: byte, accepted: bytes, cut: bytes)
    requires At(s, WaitingForFileAck, x, accepted, cut) && EndsFile(s, x, next)
    ensures
      var k := |s.out| - 1;
      && FileTransfer.Seen(s.out[..k]).accepted == accepted
      && (s.out[k].reply.chs == Sum(accepted) % 256 <==> Sum(cut) % 256 == 0)
  {
    var k := |s.out| - 1;
    FileTransfer.FileChecksum(s.out, s.maxSegmentSize, k);
    var v := FileTransfer.Seen(s.out[..k]);
    hide FileTransfer.Inv, FileTransfer.Seen, Serves;
    assert v.spoilt + [] + [] == v.spoilt;
    FileTransfer.EmptySum();
  }

  /**
   * A master that selects a file while the server is idle, calls it, fetches one section after the other, with as many
   * ticks as each takes, and acknowledges every section and the file, all in time, has got all sections up to the first
   * empty one, or the first 255: this is what was accepted when the end of the file was announced, its checksum is right
   * exactly when what was cut off before sums up to 0, and the transfer is reported complete.
   */
  lemma FileIsSent(s: Server, select: Input, call: Input, turns: seq<Turn>, ack: Input, x: Transfer)
    requires FileTransfer.Inv(s) && select.Received? && Selects(Expired(s, select.now), select.asdu)
    requires select.asdu.m.found == Found(x.f)
    requires x == Transfer(select.from, x.f, Named(select.asdu), s.timeout, s.maxSegmentSize) && x.maxSegmentSize > 0
    requires CallsFor(call, 2, x.a) && InTime(call, select.later, s.timeout)
    requires turns != [] && FetchesAll(turns, x, 1, call.later)
    requires turns[|turns| - 1].ack.Received? && InTime(ack, turns[|turns| - 1].ack.later, s.timeout)
    requires ack.asdu.m.Ack? && ack.asdu.m.afq == 1
    ensures
      var t, n, v := Run(s, [select, call] + AllInputs(turns) + [ack]), Leading(x.f, 1), FileTransfer.Seen(s.out);
      var k := |t.out| - 2;
      && t.phase == UnselectedIdle && t.file == None && n <= |x.f.sections|
      && k >= 0 && t.out[k + 1] == TransferComplete(true)
      && t.out[k].Sent? && t.out[k].reply.LastSection? && t.out[k].reply.nos == (n + 1) % 256
      && FileTransfer.Seen(t.out[..k]).accepted == FileReception.Joined(x.f.sections[..n])
      && (t.out[k].reply.chs == Sum(FileReception.Joined(x.f.sections[..n])) % 256 <==> Sum(v.stale + v.current) % 256 == 0)
  {
    hide FileTransfer.Inv, FileTransfer.Seen, Step, At, EndsFile, Run, CallsFor, InTime, Fetches, Serves, Selects, Expired, Sum;
    var v, n := FileTransfer.Seen(s.out), Leading(x.f, 1);
    FileSelected(s, select, x);
    var s1 := Step(s, select);
    ServesTimeout(s1, WaitingForFileCall, x);
    FileCalled(s1, call, x);
    var s2 := Step(s1, call);
    assert x.f.sections != [] && x.f.sections[..0] == [];
    hide Section;
    SectionsFetched(s2, turns, x, 1, v.stale + v.current);
    var s3 := Run(s2, AllInputs(turns));
    Finishing(s3, ack, x, (n + 1) % 256, FileReception.Joined(x.f.sections[..n]), v.stale + v.current);
    RunFour(s, select, call, AllInputs(turns), ack);
  }

  lemma ServesTimeout(s: Server, phase: Phase, x: Transfer)
    requires Serves(s, phase, x)
    ensures s.timeout == x.timeout
  {
  }

  lemma Finishing(s: Server, ack: Input, x: Transfer, next: byte, accepted: bytes, cut: bytes)
    requires At(s, WaitingForFileAck, x, accepted, cut) && EndsFile(s, x, next)
    requires InTime(ack, s.lastSendTime, x.timeout) && ack.asdu.m.Ack? && ack.asdu.m.afq == 1
    ensures
      var t := Step(s, ack);
      var k := |t.out| - 2;
      && t.phase == UnselectedIdle && t.file == None && k >= 0 && t.out[k + 1] == TransferComplete(true)
      && t.out[k].Sent? && t.out[k].reply.LastSection? && t.out[k].reply.nos == next
      && FileTransfer.Seen(t.out[..k]).accepted == accepted
      && (t.out[k].reply.chs == Sum(accepted) % 256 <==> Sum(cut) % 256 == 0)
  {
    EndChecksum(s, x, next, accepted, cut);
    FileAcknowledged(s, ack, x);
    var t := Step(s, ack);
    hide FileTransfer.Inv, FileTransfer.Seen, Step, Sum, Saw;
    assert t.out[..|t.out| - 2] == s.out[..|s.out| - 1];
  }

  lemma RunFour(s: Server, a: Input, b: Input, c: seq<Input>, d: Input)
    ensures Run(s, [a, b] + c + [d]) == Step(Run(Step(Step(s, a), b), c), d)
  {
    hide Step;
    FileTransfer.RunConcat(s, [a, b], c + [d]);
    FileTransfer.RunConcat(Step(Step(s, a), b), c, [d]);
    assert [a, b] + c + [d] == [a, b] + (c + [d]);
    assert [a, b][1..] == [b] && [b][1..] == [] && [d][1..] == [];
    assert Run(Step(s, a), [b]) == Step(Step(s, a), b);
  }

  /** Every transfer can be made like that, at any time. */
  lemma {:induction false} CanFetch(x: Transfer, nos: nat, now: nat) returns (turns: seq<Turn>)
    requires x.maxSegmentSize > 0
    ensures FetchesAll(turns, x, nos, now)
    decreases 256 - nos
  {
    turns := [];
    if Leading(x.f, nos) > 0 {
      var call := Call(FileTransfer, x.a.ioa, x.a.nof, 6, nos, Found(x.f));
      var ticks := seq(Segments(|Section(x.f, nos)|, x.maxSegmentSize) + 1, _ => Tick(x.to, now, now));
      var turn := Turn(Received(x.to, Asdu(0, x.a.ca, false, call), now, now), ticks,
                       Received(x.to, Asdu(0, x.a.ca, false, Ack(3)), now, now));
      assert Fetches(turn, x, nos, now) by { hide Section, Segments; }
      var rest := CanFetch(x, nos + 1, now);
      turns := [turn] + rest;
    }
  }
}
