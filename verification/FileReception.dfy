/** A whole file that the master sends, from the announcement to the last acknowledgement. */
module FileReception {
  import opened Bytes
  import opened Options
  import opened FileService
  import opened FileAnswers
  import FileTransfer

  /** A section as the master sends it, cut into any segments. */
  datatype Part = Part(nos: byte, segments: seq<bytes>)

  function Joined(segments: seq<bytes>): bytes {
    if segments == [] then [] else segments[0] + Joined(segments[1..])
  }

  // ----- what the master sends -----

  /** A message that comes before the timeout since `last`. */
  predicate Carries(i: Input, from: Connection, oa: nat, m: Message, last: nat, timeout: nat) {
    i.Received? && i.from == from && i.asdu.oa == oa && i.asdu.m == m && i.now <= last + timeout
  }

  predicate CarrySegments(inputs: seq<Input>, from: Connection, oa: nat, p: Part, last: nat, timeout: nat) {
    |inputs| == |p.segments|
    && (inputs != [] ==>
          && Carries(inputs[0], from, oa, Segment(p.nos, p.segments[0]), last, timeout)
          && CarrySegments(inputs[1..], from, oa, p.(segments := p.segments[1..]), inputs[0].later, timeout))
  }

  /** When the last of the inputs had been handled, if they were messages. */
  function EndTime(inputs: seq<Input>, last: nat): nat {
    if inputs == [] then last else EndTime(inputs[1..], inputs[0].later)
  }

  /** The messages of one section: it is announced, its segments come, and the last one is told. */
  datatype Delivery = Delivery(ready: Input, segments: seq<Input>, last: Input)

  function Inputs(d: Delivery): seq<Input> { [d.ready] + d.segments + [d.last] }

  predicate Delivers(d: Delivery, from: Connection, oa: nat, p: Part, last: nat, timeout: nat) {
    && Carries(d.ready, from, oa, SectionReady(p.nos, |Joined(p.segments)|), last, timeout)
    && CarrySegments(d.segments, from, oa, p, d.ready.later, timeout)
    && Carries(d.last, from, oa, Last(p.nos, 3), EndTime(d.segments, d.ready.later), timeout)
  }

  /** The messages of all sections, and the one that ends the file. */
  predicate DeliverAll(ds: seq<Delivery>, end: Input, from: Connection, oa: nat, parts: seq<Part>, nos: byte,
      last: nat, timeout: nat)
    decreases |parts|
  {
    |ds| == |parts|
    && if parts == [] then Carries(end, from, oa, Last(nos, 1), last, timeout)
       else
         && Delivers(ds[0], from, oa, parts[0], last, timeout)
         && DeliverAll(ds[1..], end, from, oa, parts[1..], nos, ds[0].last.later, timeout)
  }

  function AllInputs(ds: seq<Delivery>, end: Input): seq<Input> {
    if ds == [] then [end] else Inputs(ds[0]) + AllInputs(ds[1..], end)
  }

  // ----- what the server makes of it -----

  /** The receiver gets the segments one after the other. */
  function Handed(receiver: nat, nos: byte, offset: int, segments: seq<bytes>): seq<Output>
    decreases |segments|
  {
    if segments == [] then []
    else
      [SegmentReceived(receiver, nos, offset, segments[0])]
      + Handed(receiver, nos, offset + |segments[0]|, segments[1..])
  }

  /** A message about the file at that address. */
  function Tell(to: Connection, oa: nat, a: FileAddress, r: Reply): Output { Sent(to, oa, a.ca, a.ioa, a.nof, r) }

  /** What one section makes it put out. */
  function PartOutputs(from: Connection, oa: nat, a: FileAddress, receiver: nat, p: Part): seq<Output> {
    [Tell(from, oa, a, CallSection(p.nos))] + Handed(receiver, p.nos, 0, p.segments) + [Tell(from, oa, a, FileAck(p.nos, 3))]
  }

  /** ... and what all sections and the end of the file do. */
  function FileOutputs(from: Connection, oa: nat, a: FileAddress, receiver: nat, parts: seq<Part>, nos: byte): seq<Output>
    decreases |parts|
  {
    if parts == [] then [Tell(from, oa, a, FileAck(nos, 1)), Finished(receiver, Success)]
    else PartOutputs(from, oa, a, receiver, parts[0]) + FileOutputs(from, oa, a, receiver, parts[1..], nos)
  }

  /** The file at this address is received for that receiver. */
  predicate Receives(s: Server, receiver: nat, a: FileAddress, timeout: nat) {
    s.receiver == Some(receiver) && Current(s) == a && s.timeout == timeout
  }

  lemma {:induction false} SegmentsReceived(s: Server, inputs: seq<Input>, from: Connection, oa: nat,
      receiver: nat, a: FileAddress, p: Part)
    requires s.phase == ReceiveSection && Receives(s, receiver, a, s.timeout)
    requires CarrySegments(inputs, from, oa, p, s.lastSendTime, s.timeout)
    ensures
      var t := Run(s, inputs);
      && Receives(t, receiver, a, s.timeout) && t.phase == ReceiveSection && t.lastSendTime == EndTime(inputs, s.lastSendTime)
      && t.out == s.out + Handed(receiver, p.nos, s.offset, p.segments)
    decreases |inputs|
  {
    if inputs != [] {
      var s1 := Step(s, inputs[0]);
      SegmentsReceived(s1, inputs[1..], from, oa, receiver, a, p.(segments := p.segments[1..]));
    }
  }

  lemma PartReceived(s: Server, d: Delivery, from: Connection, oa: nat, receiver: nat, a: FileAddress, p: Part)
    requires s.phase == WaitingForSectionReady && Receives(s, receiver, a, s.timeout)
    requires Delivers(d, from, oa, p, s.lastSendTime, s.timeout)
    ensures
      var t := Run(s, Inputs(d));
      && Receives(t, receiver, a, s.timeout) && t.phase == WaitingForSectionReady && t.lastSendTime == d.last.later
      && t.out == s.out + PartOutputs(from, oa, a, receiver, p)
  {
    var s1 := Step(s, d.ready);
    assert s1.phase == ReceiveSection && s1.offset == 0 && s1.lastSendTime == d.ready.later;
    SegmentsReceived(s1, d.segments, from, oa, receiver, a, p);
    RunThree(s, d.ready, d.segments, d.last);
  }

  lemma RunThree(s: Server, a: Input, b: seq<Input>, c: Input)
    ensures Run(s, [a] + b + [c]) == Step(Run(Step(s, a), b), c)
  {
    hide Step;
    FileTransfer.RunConcat(s, [a], b + [c]);
    FileTransfer.RunConcat(Step(s, a), b, [c]);
    assert [a] + b + [c] == [a] + (b + [c]) && [a][1..] == [] && [c][1..] == [];
  }

  lemma LastReceived(s: Server, end: Input, from: Connection, oa: nat, receiver: nat, a: FileAddress, nos: byte)
    requires s.phase == WaitingForSectionReady && Receives(s, receiver, a, s.timeout)
    requires Carries(end, from, oa, Last(nos, 1), s.lastSendTime, s.timeout)
    ensures
      var t := Run(s, [end]);
      t.phase == UnselectedIdle && t.out == s.out + FileOutputs(from, oa, a, receiver, [], nos)
  {
    assert [end][1..] == [] && Run(s, [end]) == Step(s, end);
  }

  lemma {:induction false} PartsReceived(s: Server, ds: seq<Delivery>, end: Input, from: Connection, oa: nat,
      receiver: nat, a: FileAddress, parts: seq<Part>, nos: byte)
    requires s.phase == WaitingForSectionReady && Receives(s, receiver, a, s.timeout)
    requires DeliverAll(ds, end, from, oa, parts, nos, s.lastSendTime, s.timeout)
    ensures
      var t := Run(s, AllInputs(ds, end));
      t.phase == UnselectedIdle && t.out == s.out + FileOutputs(from, oa, a, receiver, parts, nos)
    decreases |parts|
  {
    hide Run, Step, Delivers, Carries, Receives, PartOutputs;
    if parts == [] {
      LastReceived(s, end, from, oa, receiver, a, nos);
    } else {
      PartReceived(s, ds[0], from, oa, receiver, a, parts[0]);
      var s1 := Run(s, Inputs(ds[0]));
      assert s1.timeout == s.timeout by { SameTimeout(s1, receiver, a, s.timeout); }
      PartsReceived(s1, ds[1..], end, from, oa, receiver, a, parts[1..], nos);
      FileTransfer.RunConcat(s, Inputs(ds[0]), AllInputs(ds[1..], end));
    }
  }

  lemma SameTimeout(s: Server, receiver: nat, a: FileAddress, timeout: nat)
    requires Receives(s, receiver, a, timeout)
    ensures s.timeout == timeout
  {
  }

  /**
   * Whatever the server is doing: when a handler accepts a file, and the master sends it in any sections that are cut into
   * any segments, each message before the timeout, then the receiver gets exactly these segments, in order and at offsets
   * that count the bytes of each section, and then learns that the file is finished. Each section is called and
   * acknowledged, and so is the file; nothing else is put out.
   */
  lemma FileIsReceived(s: Server, ready: Input, ds: seq<Delivery>, end: Input, from: Connection, oa: nat, receiver: nat,
      parts: seq<Part>, nos: byte)
    requires ready.Received? && ready.from == from && ready.asdu.oa == oa
    requires ready.asdu.m.FileReady? && ready.asdu.m.answer == Accepted(receiver)
    requires DeliverAll(ds, end, from, oa, parts, nos, ready.later, s.timeout)
    ensures
      var t, a := Run(s, [ready] + AllInputs(ds, end)), Named(ready.asdu);
      && t.phase == UnselectedIdle
      && t.out == s.out + [TransferAccepted(receiver), Tell(from, oa, a, CallFile)]
                  + FileOutputs(from, oa, a, receiver, parts, nos)
  {
    var s1 := Step(s, ready);
    FileAccepted(s, ready, receiver);
    hide Step, Receives, FileOutputs, DeliverAll;
    PartsReceived(s1, ds, end, from, oa, receiver, Named(ready.asdu), parts, nos);
    FileTransfer.RunConcat(s, [ready], AllInputs(ds, end));
    assert [ready][1..] == [];
  }

  lemma FileAccepted(s: Server, ready: Input, receiver: nat)
    requires ready.Received? && ready.asdu.m.FileReady? && ready.asdu.m.answer == Accepted(receiver)
    ensures
      var t := Step(s, ready);
      && t.phase == WaitingForSectionReady && Receives(t, receiver, Named(ready.asdu), s.timeout)
      && t.lastSendTime == ready.later && t.timeout == s.timeout
      && t.out == s.out + [TransferAccepted(receiver), Tell(ready.from, ready.asdu.oa, Named(ready.asdu), CallFile)]
  {
  }

  /** The segments that were handed over, joined, are the section, each at the place where it stands in it. */
  lemma {:induction false} HandedInPlace(receiver: nat, nos: byte, offset: int, segments: seq<bytes>, k: nat)
    requires k < |segments|
    ensures
      var h := Handed(receiver, nos, offset, segments);
      && |h| == |segments| && |Joined(segments[..k])| + |segments[k]| <= |Joined(segments)|
      && h[k] == SegmentReceived(receiver, nos, offset + |Joined(segments[..k])|, segments[k])
      && Joined(segments)[|Joined(segments[..k])|..|Joined(segments[..k])| + |segments[k]|] == segments[k]
    decreases |segments|
  {
    if k > 0 {
      HandedInPlace(receiver, nos, offset + |segments[0]|, segments[1..], k - 1);
      assert segments[..k][1..] == segments[1..][..k - 1];
    } else {
      assert segments[..0] == [];
      HandedLength(receiver, nos, offset, segments);
    }
  }

  lemma {:induction false} HandedLength(receiver: nat, nos: byte, offset: int, segments: seq<bytes>)
    ensures |Handed(receiver, nos, offset, segments)| == |segments|
    decreases |segments|
  {
    if segments != [] { HandedLength(receiver, nos, offset + |segments[0]|, segments[1..]); }
  }

  /** Every file can be delivered like that, at any time. */
  lemma {:induction false} CanDeliver(from: Connection, oa: nat, parts: seq<Part>, nos: byte, now: nat, timeout: nat)
    returns (ds: seq<Delivery>, end: Input)
    ensures DeliverAll(ds, end, from, oa, parts, nos, now, timeout)
    decreases |parts|
  {
    if parts == [] {
      ds, end := [], Received(from, Asdu(oa, 0, false, Last(nos, 1)), now, now);
    } else {
      var p := parts[0];
      var segments := CanCarry(from, oa, p, now, timeout);
      var d := Delivery(Received(from, Asdu(oa, 0, false, SectionReady(p.nos, |Joined(p.segments)|)), now, now), segments,
                        Received(from, Asdu(oa, 0, false, Last(p.nos, 3)), now, now));
      var rest;
      rest, end := CanDeliver(from, oa, parts[1..], nos, now, timeout);
      ds := [d] + rest;
    }
  }

  lemma {:induction false} CanCarry(from: Connection, oa: nat, p: Part, now: nat, timeout: nat)
    returns (inputs: seq<Input>)
    ensures CarrySegments(inputs, from, oa, p, now, timeout) && EndTime(inputs, now) == now
    ensures forall i :: i in inputs ==> i.Received?
    decreases |p.segments|
  {
    inputs := [];
    if p.segments != [] {
      var rest := CanCarry(from, oa, p.(segments := p.segments[1..]), now, timeout);
      inputs := [Received(from, Asdu(oa, 0, false, Segment(p.nos, p.segments[0])), now, now)] + rest;
    }
  }
}
