/** What every run of the file server keeps: files are sent without loss, and users' interfaces are called in order. */
module FileTransfer {
  import opened Bytes
  import opened Options
  import opened FileService

  /** What an observer of the outputs knows. */
  datatype View = View(
    /** The file that was opened last, and whether its transfer has not been reported complete. */
    file: Option<File>,
    open: bool,
    /**
     * The section whose transmission began last, what of it was sent since, and what was sent of sections that were cut
     * off, both after the last LastSegment.
     */
    nos: byte,
    current: bytes,
    stale: bytes,
    /**
     * Since the file was started: the sum of the checksums of the sections that were sent; these sections, as far as the
     * master accepted them, refused them or has not answered; and what of the stale bytes these checksums count.
     */
    total: nat,
    accepted: bytes,
    refused: bytes,
    pending: bytes,
    spoilt: bytes,
    /** Whether a file is being received, and how much of the section called last. */
    receiving: bool,
    received: nat)

  const NOTHING: View := View(None, false, 0, [], [], 0, [], [], [], [], false, 0)

  function Next(v: View, o: Output): View {
    match o
    case FileOpened(f) => v.(file := Some(f), open := true)
    case FileStarted => v.(total := 0, accepted := [], refused := [], pending := [], spoilt := [])
    case SectionStarted(nos) => v.(nos := nos, stale := v.stale + v.current, current := [])
    case SectionAccepted => v.(accepted := v.accepted + v.pending, pending := [])
    case SectionRefused => v.(refused := v.refused + v.pending, pending := [])
    case TransferComplete(_) => v.(open := false)
    case TransferAccepted(_) => v.(receiving := true)
    case Finished(_, _) => v.(receiving := false)
    case SegmentReceived(_, _, _, data) => v.(received := v.received + |data|)
    case Sent(_, _, _, _, _, SegmentOf(_, data)) => v.(current := v.current + data)
    case Sent(_, _, _, _, _, LastSegment(_, chs)) =>
      v.(total := v.total + chs, pending := v.pending + v.current, spoilt := v.spoilt + v.stale, current := [], stale := [])
    case Sent(_, _, _, _, _, CallSection(_)) => v.(received := 0)
    case _ => v
  }

  function Seen(out: seq<Output>): View {
    if out == [] then NOTHING else Next(Seen(out[..|out| - 1]), out[|out| - 1])
  }

  /** What may be put out next. */
  predicate Good(v: View, o: Output, maxSegmentSize: int) {
    match o
    case Sent(_, _, _, _, _, SectionIsReady(nos, size)) => v.file.Some? && size == |Section(v.file.value, nos)|
    case Sent(_, _, _, _, _, SegmentOf(nos, data)) =>
      v.file.Some? && nos == v.nos && 1 <= |data| <= maxSegmentSize && v.current + data <= Section(v.file.value, nos)
    case Sent(_, _, _, _, _, LastSegment(nos, chs)) =>
      v.file.Some? && nos == v.nos && v.current == Section(v.file.value, nos) && chs == Sum(v.stale + v.current) % 256
      && v.pending == []
    case Sent(_, _, _, _, _, LastSection(_, chs)) => v.file.Some? && chs == v.total % 256 && v.pending == []
    case SectionAccepted => v.file.Some? && v.pending == Section(v.file.value, v.nos)
    case SectionRefused => v.file.Some? && v.pending == Section(v.file.value, v.nos)
    case TransferComplete(_) => v.open
    case Finished(_, _) => v.receiving
    case SegmentReceived(_, _, offset, _) => v.receiving && offset == v.received
    case _ => true
  }

  /** Every output was in order when it was put out. */
  ghost predicate AllGood(out: seq<Output>, maxSegmentSize: int) {
    forall k :: 0 <= k < |out| ==> Good(Seen(out[..k]), out[k], maxSegmentSize)
  }

  lemma SeenPut(out: seq<Output>, o: Output)
    ensures Seen(out + [o]) == Next(Seen(out), o)
  {
    assert (out + [o])[..|out|] == out;
  }

  lemma GoodPut(out: seq<Output>, o: Output, maxSegmentSize: int)
    requires AllGood(out, maxSegmentSize) && Good(Seen(out), o, maxSegmentSize)
    ensures AllGood(out + [o], maxSegmentSize)
  {
    forall k | 0 <= k < |out + [o]| ensures Good(Seen((out + [o])[..k]), (out + [o])[k], maxSegmentSize) {
      if k < |out| { assert (out + [o])[..k] == out[..k]; } else { assert (out + [o])[..k] == out; }
    }
  }

  // ----- the invariant -----

  /** The states in which a file is being sent. */
  predicate Sending(p: Phase) {
    p == WaitingForFileCall || p == WaitingForFileAck || Started(p)
  }

  /** ... after it was called. */
  predicate Started(p: Phase) {
    p == WaitingForSectionCall || p == TransmitSection || p == WaitingForSectionAck
  }

  predicate Receiving(p: Phase) { p == WaitingForSectionReady || p == ReceiveSection }

  /** How the fields of the server go with what was put out. */
  predicate Agrees(s: Server, v: View) {
    && 1 <= s.maxSegmentSize <= 255
    && (Sending(s.phase) ==> s.file.Some?)
    && (s.file.Some? ==> v.file == s.file && v.open)
    && s.sectionChecksum == Sum(v.stale + v.current) % 256
    && (Started(s.phase) ==> s.fileChecksum == v.total % 256)
    && (s.phase == TransmitSection || s.phase == WaitingForSectionAck ==> s.size == |Section(s.file.value, s.nos)|)
    && (s.phase == TransmitSection ==>
          && s.nos == v.nos && 0 <= s.offset <= s.size
          && v.current == Section(s.file.value, s.nos)[..s.offset])
    && (s.phase == WaitingForSectionCall || s.phase == TransmitSection ==> v.pending == [])
    && (s.phase == WaitingForSectionAck ==>
          s.nos == v.nos && v.pending == Section(s.file.value, s.nos) && v.stale == [] && v.current == [])
    && (Receiving(s.phase) ==> v.receiving)
    && (s.phase == ReceiveSection && s.receiver.Some? ==> s.offset == v.received)
    && s.phase != TransferCompleted
  }

  ghost predicate Inv(s: Server) {
    AllGood(s.out, s.maxSegmentSize) && Agrees(s, Seen(s.out))
  }

  /** One output keeps the history in order. */
  lemma PutGood(s: Server, o: Output)
    requires AllGood(s.out, s.maxSegmentSize) && Good(Seen(s.out), o, s.maxSegmentSize)
    ensures AllGood(Put(s, o).out, s.maxSegmentSize) && Seen(Put(s, o).out) == Next(Seen(s.out), o)
  {
    SeenPut(s.out, o);
    GoodPut(s.out, o, s.maxSegmentSize);
  }

  lemma ExpiredKeeps(s: Server, now: nat)
    requires Inv(s)
    ensures Inv(Expired(s, now))
  {
  }

  lemma DenyKeeps(s: Server, from: Connection, asdu: Asdu, errCode: int, ioa: int, nof: nat)
    requires Inv(s)
    ensures Inv(Deny(s, from, asdu, errCode, ioa, nof))
  {
    hide Seen, AllGood;
    if errCode == 1 {
      PutGood(s, Echo(from, UnknownCa, true));
    } else if errCode == 2 {
      PutGood(s, Echo(from, UnknownIoa, true));
    } else {
      var t := s.(ca := asdu.ca, ioa := ioa, nof := nof);
      PutGood(t, Sent(from, asdu.oa, t.ca, t.ioa, t.nof, FileIsReady(0, false)));
    }
  }

  lemma FileReadyKeeps(s: Server, from: Connection, asdu: Asdu, ioa: int, nof: nat, answer: Answer, later: nat)
    requires Inv(s)
    ensures Inv(OnFileReady(s, from, asdu, ioa, nof, answer, later))
  {
    hide Seen, AllGood;
    match answer
    case NoHandler => PutGood(s, Echo(from, UnknownIoa, true));
    case Refused(errCode) => DenyKeeps(s.(receiver := None), from, asdu, errCode, ioa, nof);
    case Accepted(r) =>
      PutGood(s, TransferAccepted(r));
      var t := Put(s, TransferAccepted(r))
        .(receiver := Some(r), ca := asdu.ca, ioa := ioa, oa := asdu.oa, nof := nof, fileChecksum := 0);
      PutGood(t, Sent(from, asdu.oa, t.ca, t.ioa, t.nof, CallFile));
  }

  lemma SectionReadyKeeps(s: Server, from: Connection, asdu: Asdu, nos: byte, los: nat, later: nat)
    requires Inv(s)
    ensures Inv(OnSectionReady(s, from, asdu, nos, los, later))
  {
    hide Seen, AllGood;
    PutGood(s, Sent(from, asdu.oa, s.ca, s.ioa, s.nof, CallSection(nos)));
  }

  lemma SegmentKeeps(s: Server, nos: byte, data: bytes, later: nat)
    requires Inv(s)
    ensures Inv(OnSegment(s, nos, data, later))
  {
    hide Seen, AllGood;
    if s.phase == ReceiveSection && s.receiver.Some? {
      PutGood(s, SegmentReceived(s.receiver.value, nos, s.offset, data));
    }
  }

  lemma FinishKeeps(s: Server, result: FileResult)
    requires Inv(s) && Receiving(s.phase)
    ensures Inv(Finish(s, result))
  {
    hide Seen, AllGood;
    if s.receiver.Some? { PutGood(s, Finished(s.receiver.value, result)); }
  }

  lemma LastKeeps(s: Server, from: Connection, asdu: Asdu, nos: byte, lsq: byte, later: nat)
    requires Inv(s)
    ensures Inv(OnLast(s, from, asdu, nos, lsq, later))
  {
    hide Seen, AllGood;
    if s.phase == ReceiveSection && lsq == 3 {
      PutGood(s, Sent(from, asdu.oa, s.ca, s.ioa, s.nof, FileAck(nos, 3)));
    } else if s.phase == WaitingForSectionReady && lsq == 1 {
      PutGood(s, Sent(from, asdu.oa, s.ca, s.ioa, s.nof, FileAck(nos, 1)));
      FinishKeeps(Reply1(s, from, asdu.oa, FileAck(nos, 1)).(lastSendTime := later), Success);
    } else if (s.phase == ReceiveSection || s.phase == WaitingForSectionReady) && lsq == 2 {
      FinishKeeps(s, AbortedByRemote);
    }
  }

  lemma NextSectionKeeps(s: Server, from: Connection, oa: nat, later: nat)
    requires Inv(s) && s.phase == WaitingForSectionCall
    ensures Inv(NextSection(s, from, oa, later))
  {
    hide Seen, AllGood;
    var nos: byte := (s.nos + 1) % 256;
    var size := SizeOf(s, nos);
    PutGood(s, Sent(from, oa, s.ca, s.ioa, s.nof,
      if size <= 0 then LastSection(nos, s.fileChecksum) else SectionIsReady(nos, size)));
  }

  lemma AckKeeps(s: Server, from: Connection, asdu: Asdu, afq: byte, later: nat)
    requires Inv(s)
    ensures Inv(OnAck(s, from, asdu, afq, later))
  {
    hide Seen, AllGood;
    if s.phase == UnselectedIdle {
      PutGood(s, Echo(from, UnknownCa, asdu.negative));
    } else if s.phase == WaitingForFileAck && (afq == 1 || afq % 16 == 2) {
      PutGood(s, TransferComplete(afq == 1));
    } else if s.phase == WaitingForSectionAck && afq != 1 && afq % 16 == 4 {
      RefusalKeeps(s, from, asdu.oa, later);
    } else if s.phase == WaitingForSectionAck && afq != 1 && afq % 16 == 3 {
      AcceptanceKeeps(s, from, asdu.oa, later);
    }
  }

  lemma RefusalKeeps(s: Server, from: Connection, oa: nat, later: nat)
    requires Inv(s) && s.phase == WaitingForSectionAck
    ensures
      var t := Put(Put(s.(offset := 0, sectionChecksum := 0), SectionRefused), SectionStarted(s.nos));
      Inv(Await(t, from, oa, SectionIsReady(s.nos, s.size), later, TransmitSection))
  {
    hide Seen, AllGood;
    var t := s.(offset := 0, sectionChecksum := 0);
    PutGood(t, SectionRefused);
    var u := Put(t, SectionRefused);
    PutGood(u, SectionStarted(s.nos));
    PutGood(Put(u, SectionStarted(s.nos)), Sent(from, oa, s.ca, s.ioa, s.nof, SectionIsReady(s.nos, s.size)));
  }

  /** The next section does not depend on the state and the checksum of the one before. */
  lemma SameNext(s: Server, from: Connection, oa: nat, later: nat)
    ensures
      NextSection(s.(phase := WaitingForSectionCall, sectionChecksum := 0), from, oa, later)
      == NextSection(s, from, oa, later).(sectionChecksum := 0)
  {
    hide Section;
  }

  lemma AcceptanceKeeps(s: Server, from: Connection, oa: nat, later: nat)
    requires Inv(s) && s.phase == WaitingForSectionAck
    ensures Inv(NextSection(Put(s, SectionAccepted), from, oa, later).(sectionChecksum := 0))
  {
    hide Seen, AllGood, Section;
    var t := Put(s, SectionAccepted).(phase := WaitingForSectionCall, sectionChecksum := 0);
    PutGood(s, SectionAccepted);
    assert Inv(t) by { hide Good, Sum; }
    hide *;
    NextSectionKeeps(t, from, oa, later);
    SameNext(Put(s, SectionAccepted), from, oa, later);
  }

  lemma SelectKeeps(s: Server, from: Connection, asdu: Asdu, ioa: int, nof: nat, found: Lookup, later: nat)
    requires Inv(s)
    ensures Inv(OnSelect(s, from, asdu, ioa, nof, found, later))
  {
    hide Seen, AllGood;
    if s.phase == UnselectedIdle {
      match found
      case Missing(errCode) => DenyKeeps(s, from, asdu, errCode, ioa, nof);
      case Found(f) =>
        PutGood(s, FileOpened(f));
        PutGood(Put(s, FileOpened(f)), Sent(from, asdu.oa, asdu.ca, ioa, nof, FileIsReady(f.size, true)));
    }
  }

  lemma CallFileKeeps(s: Server, from: Connection, asdu: Asdu, ioa: int, later: nat)
    requires Inv(s)
    ensures Inv(OnCallFile(s, from, asdu, ioa, later))
  {
    hide Seen, AllGood;
    if s.phase == WaitingForFileCall {
      if ioa != s.ioa || asdu.ca != s.ca {
        PutGood(s, Echo(from, if asdu.ca != s.ca then UnknownCa else UnknownIoa, true));
      } else {
        PutGood(s, FileStarted);
        PutGood(Put(s, FileStarted), Sent(from, asdu.oa, s.ca, s.ioa, s.nof, SectionIsReady(1, SizeOf(s, 1))));
      }
    }
  }

  lemma CallSectionKeeps(s: Server, from: Connection, asdu: Asdu, ioa: int, nos: byte, later: nat)
    requires Inv(s)
    ensures Inv(OnCallSection(s, from, asdu, ioa, nos, later))
  {
    hide Seen, AllGood;
    if s.phase == WaitingForSectionCall {
      if ioa != s.ioa || asdu.ca != s.ca {
        PutGood(s, Echo(from, if asdu.ca != s.ca then UnknownCa else UnknownIoa, true));
      } else if asdu.negative {
        NextSectionKeeps(s, from, asdu.oa, later);
      } else if SizeOf(s, nos) > 0 {
        PutGood(s, SectionStarted(nos));
        var v := Seen(s.out);
        assert v.stale + v.current + [] == v.stale + v.current;
      } else {
        PutGood(s, Echo(from, SameCause, true));
      }
    }
  }

  lemma {:induction false} SumConcat(a: bytes, b: bytes)
    ensures Sum(a + b) == Sum(a) + Sum(b)
  {
    if b == [] {
      assert a + b == a;
    } else {
      SumConcat(a, b[..|b| - 1]);
      assert (a + b)[..|a + b| - 1] == a + b[..|b| - 1];
    }
  }

  /** One more segment extends what was sent of the section. */
  lemma SegmentExtends(s: Server, v: View, data: bytes)
    requires Agrees(s, v) && s.phase == TransmitSection && s.size - s.offset > 0 && data == NextSegment(s)
    ensures
      var section := Section(s.file.value, s.nos);
      && 1 <= |data| <= s.maxSegmentSize && |data| == SegmentSize(s)
      && v.current + data == section[..s.offset + SegmentSize(s)] && v.current + data <= section
  {
    hide Sum, Section;
    SlicesJoin(Section(s.file.value, s.nos), s.offset, s.offset + SegmentSize(s));
  }

  lemma SlicesJoin(a: bytes, i: nat, j: nat)
    requires i <= j <= |a|
    ensures a[..i] + a[i..j] == a[..j] && a[..j] <= a
  {
  }

  lemma ChecksumExtends(checksum: byte, a: bytes, b: bytes, data: bytes)
    requires checksum == Sum(a + b) % 256
    ensures Plus(checksum, Sum(data)) == Sum(a + (b + data)) % 256
  {
    hide Sum;
    assert a + (b + data) == a + b + data;
    SumConcat(a + b, data);
  }

  lemma TransmitSegmentKeeps(s: Server, to: Connection, later: nat)
    requires Inv(s) && s.phase == TransmitSection && s.size - s.offset > 0
    ensures Inv(Transmit(s, to, later))
  {
    hide Seen, AllGood, Sum, NextSegment, SegmentSize;
    var data := NextSegment(s);
    SegmentExtends(s, Seen(s.out), data);
    ChecksumExtends(s.sectionChecksum, Seen(s.out).stale, Seen(s.out).current, data);
    PutGood(s, Sent(to, s.oa, s.ca, s.ioa, s.nof, SegmentOf(s.nos, data)));
  }

  lemma LastSegmentKeeps(s: Server, to: Connection, later: nat)
    requires Inv(s) && s.phase == TransmitSection && s.size - s.offset <= 0
    ensures Inv(Transmit(s, to, later))
  {
    hide Seen, AllGood, NextSegment, SegmentSize;
    var v := Seen(s.out);
    SectionComplete(s, v);
    hide Section;
    PutGood(s, Sent(to, s.oa, s.ca, s.ioa, s.nof, LastSegment(s.nos, s.sectionChecksum)));
  }

  lemma SectionComplete(s: Server, v: View)
    requires Agrees(s, v) && s.phase == TransmitSection && s.size - s.offset <= 0
    ensures v.current == Section(s.file.value, s.nos)
  {
  }

  lemma TransmitKeeps(s: Server, to: Connection, later: nat)
    requires Inv(s) && s.phase == TransmitSection
    ensures Inv(Transmit(s, to, later))
  {
    hide *;
    if s.size - s.offset > 0 {
      TransmitSegmentKeeps(s, to, later);
    } else {
      LastSegmentKeeps(s, to, later);
    }
  }

  lemma StepKeeps(s: Server, i: Input)
    requires Inv(s)
    ensures Inv(Step(s, i))
  {
    hide Inv, Deny, NextSection, Finish, Complete, Transmit, Expired, OnFileReady, OnSectionReady, OnSegment, OnLast,
      OnAck, OnSelect, OnCallFile, OnCallSection;
    match i
    case Tick(from, now, later) =>
      if s.phase == TransmitSection && s.connection == Some(from) && s.file.Some? { TransmitKeeps(s, from, now); }
      ExpiredKeeps(
        if s.phase == TransmitSection && s.connection == Some(from) && s.file.Some? then Transmit(s, from, now) else s, later);
    case Received(from, asdu, now, later) =>
      ExpiredKeeps(s, now);
      var t := Expired(s, now);
      match asdu.m {
        case FileReady(ioa, nof, answer) => FileReadyKeeps(t, from, asdu, ioa, nof, answer, later);
        case SectionReady(nos, los) => SectionReadyKeeps(t, from, asdu, nos, los, later);
        case Segment(nos, data) => SegmentKeeps(t, nos, data, later);
        case Last(nos, lsq) => LastKeeps(t, from, asdu, nos, lsq, later);
        case Ack(afq) => AckKeeps(t, from, asdu, afq, later);
        case Call(_, ioa, nof, _, nos, found) =>
          SelectKeeps(t, from, asdu, ioa, nof, found, later);
          DeactivateKeeps(t);
          CallFileKeeps(t, from, asdu, ioa, later);
          CallSectionKeeps(t, from, asdu, ioa, nos, later);
        case OtherFileType =>
      }
  }

  lemma DeactivateKeeps(s: Server)
    requires Inv(s)
    ensures s.phase == UnselectedIdle ==> Inv(s.(file := None, connection := None))
  {
  }

  lemma {:induction false} RunKeeps(s: Server, inputs: seq<Input>)
    requires Inv(s)
    ensures Inv(Run(s, inputs))
    decreases |inputs|
  {
    if inputs != [] {
      StepKeeps(s, inputs[0]);
      RunKeeps(Step(s, inputs[0]), inputs[1..]);
    }
  }

  // ----- what this says -----

  lemma CreatedInv(s: Server)
    requires Created(s)
    ensures Inv(s)
  {
  }

  /**
   * In every run: segments are pieces of 1 to maxSegmentSize bytes of the called section, in order; a LastSegment comes
   * when they make up the whole section, and carries the sum of all segments since the last one; a LastSection carries
   * the sum of the checksums since the file was called; transferComplete comes at most once after a file was opened,
   * finished at most once after a file from the master was accepted and segmentReceived only in between, with offsets
   * that continue from 0 in each section. And a server that is sending has a file.
   */
  lemma EveryRunIsGood(s: Server, inputs: seq<Input>)
    requires Created(s)
    ensures
      var t := Run(s, inputs);
      AllGood(t.out, s.maxSegmentSize) && (Sending(t.phase) ==> t.file.Some?)
  {
    CreatedInv(s);
    RunKeeps(s, inputs);
    SameSegmentSize(s, inputs);
  }

  lemma {:induction false} SameSegmentSize(s: Server, inputs: seq<Input>)
    ensures Run(s, inputs).maxSegmentSize == s.maxSegmentSize
    decreases |inputs|
  {
    if inputs != [] {
      SameSegmentSize(Step(s, inputs[0]), inputs[1..]);
      StepSegmentSize(s, inputs[0]);
    }
  }

  lemma StepSegmentSize(s: Server, i: Input)
    ensures Step(s, i).maxSegmentSize == s.maxSegmentSize
  {
    hide SizeOf, Section, NextSegment;
  }

  predicate IsLastSegment(o: Output) { o.Sent? && o.reply.LastSegment? }

  /**
   * The checksum of a LastSegment is that of its section exactly when the sections that were cut off since the last one
   * sum up to 0.
   */
  lemma SectionChecksum(out: seq<Output>, maxSegmentSize: int, k: nat)
    requires AllGood(out, maxSegmentSize) && k < |out| && IsLastSegment(out[k])
    ensures
      var v, r := Seen(out[..k]), out[k].reply;
      v.file.Some? && (r.chs == Sum(Section(v.file.value, r.nos)) % 256 <==> Sum(v.stale) % 256 == 0)
  {
    var v := Seen(out[..k]);
    assert Good(v, out[k], maxSegmentSize);
    hide Seen, AllGood, Sum, Section;
    SumConcat(v.stale, v.current);
    RemainderShift(Sum(v.stale), Sum(v.current));
  }

  lemma RemainderShift(a: nat, b: nat)
    ensures (a + b) % 256 == b % 256 <==> a % 256 == 0
  {
  }

  /** No section was begun while another one, or the same one, was not finished. */
  ghost predicate Uncut(out: seq<Output>) {
    forall k :: 0 <= k < |out| && out[k].SectionStarted? ==> Seen(out[..k]).current == []
  }

  lemma PrefixGood(out: seq<Output>, maxSegmentSize: int, k: nat)
    requires AllGood(out, maxSegmentSize) && k <= |out|
    ensures AllGood(out[..k], maxSegmentSize)
  {
    hide Seen, Good;
    forall j | 0 <= j < k ensures Good(Seen(out[..k][..j]), out[..k][j], maxSegmentSize) {
      assert out[..k][..j] == out[..j];
      assert Good(Seen(out[..j]), out[j], maxSegmentSize);
    }
  }

  // ----- the checksum of the file -----

  /** The checksums count all sections that were sent, and what was cut off. */
  predicate Balanced(v: View) {
    v.total % 256 == (Sum(v.accepted) + Sum(v.refused) + Sum(v.pending) + Sum(v.spoilt)) % 256
  }

  lemma NothingBalanced()
    ensures Balanced(NOTHING)
  {
    EmptySum();
  }

  lemma BalancedStep(v: View, o: Output, maxSegmentSize: int)
    requires Balanced(v) && Good(v, o, maxSegmentSize)
    ensures Balanced(Next(v, o))
  {
    hide Sum, Section;
    EmptySum();
    SumConcat(v.accepted, v.pending);
    SumConcat(v.refused, v.pending);
    SumConcat(v.pending, v.current);
    SumConcat(v.spoilt, v.stale);
    SumConcat(v.stale, v.current);
    if IsLastSegment(o) {
      RemainderAdds(v.total, Sum(v.accepted) + Sum(v.refused) + Sum(v.pending) + Sum(v.spoilt),
                    Sum(v.stale) + Sum(v.current));
    }
  }

  lemma RemainderAdds(a: nat, b: nat, c: nat)
    requires a % 256 == b % 256
    ensures (a + c % 256) % 256 == (b + c) % 256
  {
  }

  lemma EmptySum()
    ensures Sum([]) == 0
  {
  }

  /** In whatever order sections are sent, cut off, accepted and refused, nothing is lost of their checksums. */
  lemma {:induction false} SumsBalance(out: seq<Output>, maxSegmentSize: int)
    requires AllGood(out, maxSegmentSize)
    ensures Balanced(Seen(out))
  {
    hide Good, Next, Sum, AllGood, Balanced;
    if out == [] {
      NothingBalanced();
    } else {
      var k := |out| - 1;
      PrefixGood(out, maxSegmentSize, k);
      SumsBalance(out[..k], maxSegmentSize);
      GoodAt(out, maxSegmentSize, k);
      BalancedStep(Seen(out[..k]), out[k], maxSegmentSize);
    }
  }

  /**
   * The checksum of a LastSection is that of the sections that the master accepted exactly when those that it refused,
   * and what was cut off before, sum up to 0.
   */
  lemma FileChecksum(out: seq<Output>, maxSegmentSize: int, k: nat)
    requires AllGood(out, maxSegmentSize) && k < |out| && out[k].Sent? && out[k].reply.LastSection?
    ensures
      var v := Seen(out[..k]);
      out[k].reply.chs == Sum(v.accepted) % 256 <==> (Sum(v.refused) + Sum(v.spoilt)) % 256 == 0
  {
    var v := Seen(out[..k]);
    hide Seen, AllGood, Sum, Section;
    PrefixGood(out, maxSegmentSize, k);
    GoodAt(out, maxSegmentSize, k);
    SumsBalance(out[..k], maxSegmentSize);
    EmptySum();
    RemainderShift(Sum(v.refused) + Sum(v.spoilt), Sum(v.accepted));
  }

  lemma GoodAt(out: seq<Output>, maxSegmentSize: int, k: nat)
    requires AllGood(out, maxSegmentSize) && k < |out|
    ensures Good(Seen(out[..k]), out[k], maxSegmentSize)
  {
  }

  lemma NotStaleStep(v: View, o: Output)
    requires v.stale == [] && v.spoilt == [] && (o.SectionStarted? ==> v.current == [])
    ensures Next(v, o).stale == [] && Next(v, o).spoilt == []
  {
  }

  /** Without sections that were cut off there are no stale bytes. */
  lemma {:induction false} UncutNotStale(out: seq<Output>)
    requires Uncut(out)
    ensures Seen(out).stale == [] && Seen(out).spoilt == []
  {
    if out != [] {
      var k := |out| - 1;
      forall j | 0 <= j < k && out[..k][j].SectionStarted? ensures Seen(out[..k][..j]).current == [] {
        assert out[..k][..j] == out[..j];
      }
      UncutNotStale(out[..k]);
      hide Uncut;
      NotStaleStep(Seen(out[..k]), out[k]);
    }
  }

  /** Then each checksum is that of its section, and a LastSection is right exactly when the refused ones sum up to 0. */
  lemma UncutChecksums(out: seq<Output>, maxSegmentSize: int, k: nat)
    requires AllGood(out, maxSegmentSize) && Uncut(out) && k < |out| && out[k].Sent?
    ensures
      var v := Seen(out[..k]);
      match out[k].reply
      case LastSegment(nos, chs) => v.file.Some? && chs == Sum(Section(v.file.value, nos)) % 256
      case LastSection(_, chs) => chs == Sum(v.accepted) % 256 <==> Sum(v.refused) % 256 == 0
      case _ => true
  {
    forall j | 0 <= j < k && out[..k][j].SectionStarted? ensures Seen(out[..k][..j]).current == [] {
      assert out[..k][..j] == out[..j];
    }
    UncutNotStale(out[..k]);
    hide Seen, AllGood, Good, Section;
    EmptySum();
    if out[k].reply.LastSegment? { SectionChecksum(out, maxSegmentSize, k); }
    if out[k].reply.LastSection? { FileChecksum(out, maxSegmentSize, k); }
  }

  // ----- a section that was cut off spoils the next checksum -----

  const ONE_BYTE: File := File(1, [[1]])

  function CallOf(scq: byte, nos: byte, now: nat): Input {
    Received(0, Asdu(0, 1, false, Call(FileTransfer, 7, 1, scq, nos, Found(ONE_BYTE))), now, now)
  }

  /** Selects the file, calls it, calls its section, and lets runTask send a segment. */
  function SendOne(now: nat): seq<Input> {
    [CallOf(1, 0, now), CallOf(2, 0, now), CallOf(6, 1, now), Tick(0, now, now)]
  }

  /** What these four do to a server that is idle, or whose transfer has expired. */
  lemma SendsOne(s: Server, now: nat)
    requires s.maxSegmentSize >= 1 && Expired(s, now).phase == UnselectedIdle && s.sectionChecksum < 255
    ensures
      var t := Run(s, SendOne(now));
      && t.phase == TransmitSection && t.offset == t.size == 1 && t.nos == 1
      && t.file == Some(ONE_BYTE) && t.connection == Some(0) && t.lastSendTime == now
      && t.sectionChecksum == s.sectionChecksum + 1 && t.fileChecksum == 0
      && t.timeout == s.timeout && t.maxSegmentSize == s.maxSegmentSize
  {
    var i := SendOne(now);
    var s1 := Step(s, i[0]);
    assert s1.phase == WaitingForFileCall && s1.ioa == 7 && s1.ca == 1 && s1.lastSendTime == now;
    var s2 := Step(s1, i[1]);
    assert Section(ONE_BYTE, 1) == [1];
    assert s2.phase == WaitingForSectionCall && s2.ioa == 7 && s2.ca == 1 && s2.lastSendTime == now;
    var s3 := Step(s2, i[2]);
    assert s3.phase == TransmitSection && s3.offset == 0 && s3.size == 1 && s3.nos == 1;
    var s4 := Step(s3, i[3]);
    assert NextSegment(s3) == [1] && Sum([1]) == 1 by { assert [1][..0] == []; EmptySum(); }
    RunFour(s, i[0], i[1], i[2], i[3]);
  }

  lemma RunFour(s: Server, a: Input, b: Input, c: Input, d: Input)
    ensures Run(s, [a, b, c, d]) == Step(Step(Step(Step(s, a), b), c), d)
  {
    hide Step;
    assert [a, b, c, d][1..] == [b, c, d] && [b, c, d][1..] == [c, d] && [c, d][1..] == [d] && [d][1..] == [];
    assert Run(Step(s, a), [b, c, d]) == Run(Step(Step(s, a), b), [c, d]);
    assert Run(Step(Step(Step(s, a), b), c), [d]) == Step(Step(Step(Step(s, a), b), c), d);
  }

  lemma {:induction false} RunConcat(s: Server, a: seq<Input>, b: seq<Input>)
    ensures Run(s, a + b) == Run(Run(s, a), b)
    decreases |a|
  {
    if a == [] {
      assert a + b == b;
    } else {
      RunConcat(Step(s, a[0]), a[1..], b);
      assert (a + b)[1..] == a[1..] + b;
    }
  }

  /** After a timeout in the middle of a section, the same section is sent whole, but with the checksum 2 instead of 1. */
  lemma StaleChecksum(s: Server)
    requires Created(s)
    ensures
      var t := Run(s, SendOne(0) + SendOne(4000) + [Tick(0, 4000, 4000)]);
      && Sum(Section(ONE_BYTE, 1)) == 1
      && t.out != [] && t.out[|t.out| - 1].Sent? && t.out[|t.out| - 1].reply == LastSegment(1, 2)
  {
    SendsOne(s, 0);
    var t := Run(s, SendOne(0));
    SendsOne(t, 4000);
    RunConcat(s, SendOne(0), SendOne(4000));
    var last := [Tick(0, 4000, 4000)];
    RunConcat(s, SendOne(0) + SendOne(4000), last);
    var u := Run(t, SendOne(4000));
    assert last[1..] == [] && Run(u, last) == Step(u, last[0]);
    assert Section(ONE_BYTE, 1) == [1] && Sum([1]) == 1 by { assert [1][..0] == []; EmptySum(); }
  }

  // ----- a section that was refused spoils the checksum of the file -----

  function AckOf(afq: byte): Input { Received(0, Asdu(0, 1, false, Ack(afq)), 0, 0) }

  /** The last segment is due, the section is refused, sent again, and accepted. */
  function RefuseOnce(): seq<Input> {
    [Tick(0, 0, 0), AckOf(4), Tick(0, 0, 0), Tick(0, 0, 0), AckOf(3)]
  }

  /** The byte of the section was sent, and waits for its last segment or for the acknowledgement. */
  predicate OneSent(s: Server, phase: Phase) {
    && s.maxSegmentSize >= 1 && s.phase == phase && s.offset == s.size == 1 && s.nos == 1
    && s.file == Some(ONE_BYTE) && s.connection == Some(0) && s.lastSendTime == 0
    && s.sectionChecksum == if phase == TransmitSection then 1 else 0
  }

  lemma EndsOne(s: Server)
    requires OneSent(s, TransmitSection) && s.fileChecksum < 255
    ensures
      var t := Step(s, Tick(0, 0, 0));
      OneSent(t, WaitingForSectionAck) && t.fileChecksum == s.fileChecksum + 1
  {
  }

  lemma RefusesOne(s: Server)
    requires OneSent(s, WaitingForSectionAck)
    ensures
      var t := Step(Step(s, AckOf(4)), Tick(0, 0, 0));
      OneSent(t, TransmitSection) && t.fileChecksum == s.fileChecksum
  {
    assert Section(ONE_BYTE, 1) == [1];
    assert Sum([1]) == 1 by { assert [1][..0] == []; EmptySum(); }
    var t := Step(s, AckOf(4));
    assert t.phase == TransmitSection && t.offset == 0 && t.size == 1 && t.sectionChecksum == 0;
    hide Sum;
    assert NextSegment(t) == [1];
  }

  lemma AcceptsOne(s: Server)
    requires OneSent(s, WaitingForSectionAck)
    ensures
      var t := Step(s, AckOf(3));
      t.out != [] && t.out[|t.out| - 1].Sent? && t.out[|t.out| - 1].reply == LastSection(2, s.fileChecksum)
  {
    assert SizeOf(Put(s, SectionAccepted), 2) == 0;
  }

  lemma RefusesOnce(s: Server)
    requires OneSent(s, TransmitSection) && s.fileChecksum == 0
    ensures
      var t := Run(s, RefuseOnce());
      && t.out != [] && t.out[|t.out| - 1].Sent? && t.out[|t.out| - 1].reply == LastSection(2, 2)
  {
    hide Step, OneSent;
    var i := RefuseOnce();
    EndsOne(s);
    var s1 := Step(s, i[0]);
    RefusesOne(s1);
    var s3 := Step(Step(s1, i[1]), i[2]);
    EndsOne(s3);
    var s4 := Step(s3, i[3]);
    AcceptsOne(s4);
    RunFour(s, i[0], i[1], i[2], i[3]);
    RunConcat(s, [i[0], i[1], i[2], i[3]], [i[4]]);
    assert i == [i[0], i[1], i[2], i[3]] + [i[4]];
    assert [i[4]][1..] == [] && Run(s4, [i[4]]) == Step(s4, i[4]);
  }

  /** A file of one byte, whose section is refused once: the LastSection has the checksum 2 instead of 1. */
  lemma RefusedChecksum(s: Server)
    requires Created(s)
    ensures
      var t := Run(s, SendOne(0) + RefuseOnce());
      && Sum(Section(ONE_BYTE, 1)) == 1
      && t.out != [] && t.out[|t.out| - 1].Sent? && t.out[|t.out| - 1].reply == LastSection(2, 2)
  {
    SendsOne(s, 0);
    RunConcat(s, SendOne(0), RefuseOnce());
    assert Section(ONE_BYTE, 1) == [1] && Sum([1]) == 1 by { assert [1][..0] == []; EmptySum(); }
    hide *;
    RefusesOnce(Run(s, SendOne(0)));
  }
}
