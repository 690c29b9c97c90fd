/** What the file server puts out in one step, told by the kind of output instead of by the message that comes in. */
module FileAnswers {
  import opened Bytes
  import opened Options
  import opened FileService
  import FileTransfer

  // ----- what a message is -----

  /** An acknowledgement (AFQ) in the state that waits for it; only that of a whole file compares all bits. */
  predicate Acks(t: Server, asdu: Asdu, phase: Phase, afq: byte) {
    t.phase == phase && asdu.m.Ack? && if afq == 1 then asdu.m.afq == 1 else asdu.m.afq % 16 == afq
  }

  /** A call or selection (SCQ) in the state that waits for it. */
  predicate Calls(t: Server, asdu: Asdu, phase: Phase, scq: byte) {
    t.phase == phase && asdu.m.Call? && asdu.m.cot == FileTransfer && asdu.m.scq == scq
  }

  predicate Selects(t: Server, asdu: Asdu) { Calls(t, asdu, UnselectedIdle, 1) }

  predicate CallsFileOrSection(t: Server, asdu: Asdu) {
    Calls(t, asdu, WaitingForFileCall, 2) || Calls(t, asdu, WaitingForSectionCall, 6)
  }

  /** The call is for the selected file. */
  predicate OfSelected(t: Server, asdu: Asdu) {
    asdu.m.Call? && asdu.m.ioa == t.ioa && asdu.ca == t.ca
  }

  /** The section was accepted, or its call was negative. */
  predicate GoesOn(t: Server, asdu: Asdu) {
    || Acks(t, asdu, WaitingForSectionAck, 3)
    || (Calls(t, asdu, WaitingForSectionCall, 6) && OfSelected(t, asdu) && asdu.negative)
  }

  /** The error code of the user's interface, when it has no file, or does not take one. */
  function Denied(t: Server, asdu: Asdu): Option<int> {
    if asdu.m.FileReady? && asdu.m.answer.Refused? then Some(asdu.m.answer.errCode)
    else if Selects(t, asdu) && asdu.m.found.Missing? then Some(asdu.m.found.errCode)
    else None
  }

  // ----- what it makes the server put out -----

  /** Whether an output answers a message in a state. */
  predicate Answers(t: Server, from: Connection, asdu: Asdu, o: Output) {
    match o
    case FileOpened(f) => Selects(t, asdu) && asdu.m.found == Found(f)
    case FileStarted => Calls(t, asdu, WaitingForFileCall, 2) && OfSelected(t, asdu)
    case SectionStarted(nos) =>
      || (Acks(t, asdu, WaitingForSectionAck, 4) && nos == t.nos)
      || (Calls(t, asdu, WaitingForSectionCall, 6) && OfSelected(t, asdu) && !asdu.negative
          && nos == asdu.m.nos && SizeOf(t, nos) > 0)
    case SectionAccepted => Acks(t, asdu, WaitingForSectionAck, 3)
    case SectionRefused => Acks(t, asdu, WaitingForSectionAck, 4)
    case TransferComplete(success) => t.file.Some? && Acks(t, asdu, WaitingForFileAck, if success then 1 else 2)
    case TransferAccepted(r) => asdu.m.FileReady? && asdu.m.answer == Accepted(r)
    case Finished(r, result) =>
      && t.receiver == Some(r) && asdu.m.Last?
      && if result == Success then t.phase == WaitingForSectionReady && asdu.m.lsq == 1
         else FileTransfer.Receiving(t.phase) && asdu.m.lsq == 2
    case SegmentReceived(r, nos, offset, data) =>
      t.phase == ReceiveSection && t.receiver == Some(r) && asdu.m == Segment(nos, data) && offset == t.offset
    case Echo(to, cause, negative) => to == from && EchoAnswers(t, asdu, cause, negative)
    case Sent(to, oa, ca, ioa, nof, reply) =>
      to == from && oa == asdu.oa && ReplyAnswers(t, asdu, Address(ca, ioa, nof), reply)
  }

  /** The message is sent back with another cause. */
  predicate EchoAnswers(t: Server, asdu: Asdu, cause: EchoCause, negative: bool) {
    match cause
    case SameCause =>
      && negative && Calls(t, asdu, WaitingForSectionCall, 6) && OfSelected(t, asdu) && !asdu.negative
      && SizeOf(t, asdu.m.nos) == 0
    case UnknownCa =>
      || (asdu.m.Ack? && t.phase == UnselectedIdle && negative == asdu.negative)
      || (negative && Denied(t, asdu) == Some(1))
      || (negative && CallsFileOrSection(t, asdu) && asdu.ca != t.ca)
    case UnknownIoa =>
      && negative
      && (|| (asdu.m.FileReady? && asdu.m.answer.NoHandler?)
          || Denied(t, asdu) == Some(2)
          || (CallsFileOrSection(t, asdu) && asdu.ca == t.ca && asdu.m.ioa != t.ioa))
  }

  datatype FileAddress = Address(ca: int, ioa: int, nof: nat)

  /** The address of the message, or that of the current file. */
  function Named(asdu: Asdu): FileAddress
    requires asdu.m.FileReady? || asdu.m.Call?
  {
    Address(asdu.ca, asdu.m.ioa, asdu.m.nof)
  }

  function Current(t: Server): FileAddress { Address(t.ca, t.ioa, t.nof) }

  predicate ReplyAnswers(t: Server, asdu: Asdu, a: FileAddress, reply: Reply) {
    match reply
    case FileIsReady(size, positive) =>
      if positive then Selects(t, asdu) && asdu.m.found.Found? && size == asdu.m.found.file.size && a == Named(asdu)
      else size == 0 && Denied(t, asdu).Some? && Denied(t, asdu).value !in {1, 2} && a == Named(asdu)
    case SectionIsReady(nos, size) =>
      && a == Current(t)
      && (|| (Calls(t, asdu, WaitingForFileCall, 2) && OfSelected(t, asdu) && nos == 1 && size == SizeOf(t, 1))
          || (Acks(t, asdu, WaitingForSectionAck, 4) && nos == t.nos && size == t.size)
          || (GoesOn(t, asdu) && nos == (t.nos + 1) % 256 && size == SizeOf(t, nos) > 0))
    case LastSection(nos, chs) =>
      a == Current(t) && GoesOn(t, asdu) && nos == (t.nos + 1) % 256 && SizeOf(t, nos) == 0 && chs == t.fileChecksum
    case CallFile => asdu.m.FileReady? && asdu.m.answer.Accepted? && a == Named(asdu)
    case CallSection(nos) =>
      a == Current(t) && t.phase == WaitingForSectionReady && asdu.m.SectionReady? && nos == asdu.m.nos
    case FileAck(nos, afq) =>
      && a == Current(t) && asdu.m.Last? && nos == asdu.m.nos
      && if t.phase == ReceiveSection then asdu.m.lsq == 3 == afq
         else t.phase == WaitingForSectionReady && asdu.m.lsq == 1 == afq
    case SegmentOf(_, _) => false
    case LastSegment(_, _) => false
  }

  /** What is put out for a message goes behind what was. */
  predicate Adds(s: Server, t: Server, o: Output) {
    s.out <= t.out && o in t.out[|s.out|..]
  }

  // ----- each message -----

  lemma PutAdds(s: Server, t: Server, xs: seq<Output>, o: Output)
    requires t.out == s.out + xs
    ensures s.out <= t.out && t.out[|s.out|..] == xs
    ensures Adds(s, t, o) <==> o in xs
  {
  }

  lemma FileReadyAnswers(s: Server, from: Connection, asdu: Asdu, later: nat, o: Output)
    requires asdu.m.FileReady?
    ensures
      var t := OnFileReady(s, from, asdu, asdu.m.ioa, asdu.m.nof, asdu.m.answer, later);
      s.out <= t.out && (Adds(s, t, o) <==> Answers(s, from, asdu, o))
  {
    hide Adds;
    var t := OnFileReady(s, from, asdu, asdu.m.ioa, asdu.m.nof, asdu.m.answer, later);
    PutAdds(s, t,
      match asdu.m.answer
      case NoHandler => [Echo(from, UnknownIoa, true)]
      case Refused(errCode) => [Denial(from, asdu, errCode)]
      case Accepted(r) => [TransferAccepted(r), Sent(from, asdu.oa, asdu.ca, asdu.m.ioa, asdu.m.nof, CallFile)], o);
  }

  function Denial(from: Connection, asdu: Asdu, errCode: int): Output
    requires asdu.m.FileReady? || asdu.m.Call?
  {
    if errCode == 1 then Echo(from, UnknownCa, true)
    else if errCode == 2 then Echo(from, UnknownIoa, true)
    else Sent(from, asdu.oa, asdu.ca, asdu.m.ioa, asdu.m.nof, FileIsReady(0, false))
  }

  lemma SectionReadyAnswers(s: Server, from: Connection, asdu: Asdu, later: nat, o: Output)
    requires asdu.m.SectionReady?
    ensures
      var t := OnSectionReady(s, from, asdu, asdu.m.nos, asdu.m.los, later);
      s.out <= t.out && (Adds(s, t, o) <==> Answers(s, from, asdu, o))
  {
    hide Adds;
    PutAdds(s, OnSectionReady(s, from, asdu, asdu.m.nos, asdu.m.los, later),
      if s.phase == WaitingForSectionReady then [Sent(from, asdu.oa, s.ca, s.ioa, s.nof, CallSection(asdu.m.nos))] else [], o);
  }

  lemma SegmentAnswers(s: Server, from: Connection, asdu: Asdu, later: nat, o: Output)
    requires asdu.m.Segment?
    ensures
      var t := OnSegment(s, asdu.m.nos, asdu.m.data, later);
      s.out <= t.out && (Adds(s, t, o) <==> Answers(s, from, asdu, o))
  {
    hide Adds;
    PutAdds(s, OnSegment(s, asdu.m.nos, asdu.m.data, later),
      if s.phase == ReceiveSection && s.receiver.Some?
      then [SegmentReceived(s.receiver.value, asdu.m.nos, s.offset, asdu.m.data)] else [], o);
  }

  lemma LastAnswers(s: Server, from: Connection, asdu: Asdu, later: nat, o: Output)
    requires asdu.m.Last?
    ensures
      var t := OnLast(s, from, asdu, asdu.m.nos, asdu.m.lsq, later);
      s.out <= t.out && (Adds(s, t, o) <==> Answers(s, from, asdu, o))
  {
    var t := OnLast(s, from, asdu, asdu.m.nos, asdu.m.lsq, later);
    hide Adds;
    PutAdds(s, t, LastPuts(s, from, asdu), o) by { hide Answers; }
    hide OnLast;
    LastMeans(s, from, asdu, o);
  }

  /** What the last segment or section of the master makes the server put out. */
  function LastPuts(s: Server, from: Connection, asdu: Asdu): seq<Output>
    requires asdu.m.Last?
  {
    var ack := Sent(from, asdu.oa, s.ca, s.ioa, s.nof, FileAck(asdu.m.nos, asdu.m.lsq));
    if s.phase == ReceiveSection && asdu.m.lsq == 3 then [ack]
    else if s.phase == WaitingForSectionReady && asdu.m.lsq == 1 then
      if s.receiver.Some? then [ack, Finished(s.receiver.value, Success)] else [ack]
    else if FileTransfer.Receiving(s.phase) && asdu.m.lsq == 2 && s.receiver.Some? then
      [Finished(s.receiver.value, AbortedByRemote)]
    else []
  }

  lemma LastMeans(s: Server, from: Connection, asdu: Asdu, o: Output)
    requires asdu.m.Last?
    ensures o in LastPuts(s, from, asdu) <==> Answers(s, from, asdu, o)
  {
    hide Denied, SizeOf, GoesOn;
    assert !Selects(s, asdu) && !CallsFileOrSection(s, asdu) && !GoesOn(s, asdu) && Denied(s, asdu) == None by {
      NoCall(s, asdu);
    }
  }

  lemma NoCall(s: Server, asdu: Asdu)
    requires asdu.m.Last?
    ensures !Selects(s, asdu) && !CallsFileOrSection(s, asdu) && !GoesOn(s, asdu) && Denied(s, asdu) == None
  {
  }

  /** What is sent when the transfer goes on with the next section. */
  function Onward(s: Server, from: Connection, oa: nat): Output {
    var nos: byte := (s.nos + 1) % 256;
    Sent(from, oa, s.ca, s.ioa, s.nof,
         if SizeOf(s, nos) <= 0 then LastSection(nos, s.fileChecksum) else SectionIsReady(nos, SizeOf(s, nos)))
  }

  lemma AckAnswers(s: Server, from: Connection, asdu: Asdu, later: nat, o: Output)
    requires asdu.m.Ack?
    ensures
      var t := OnAck(s, from, asdu, asdu.m.afq, later);
      s.out <= t.out && (Adds(s, t, o) <==> Answers(s, from, asdu, o))
  {
    var t := OnAck(s, from, asdu, asdu.m.afq, later);
    hide Adds, SizeOf;
    PutAdds(s, t, AckPuts(s, from, asdu), o) by { hide Answers; }
    hide OnAck;
    AckMeans(s, from, asdu, o);
  }

  /** What an acknowledgement makes the server put out. */
  function AckPuts(s: Server, from: Connection, asdu: Asdu): seq<Output>
    requires asdu.m.Ack?
  {
    var afq := asdu.m.afq;
    if s.phase == UnselectedIdle then [Echo(from, UnknownCa, asdu.negative)]
    else if s.phase == WaitingForFileAck && (afq == 1 || afq % 16 == 2) then
      if s.file.Some? then [TransferComplete(afq == 1)] else []
    else if s.phase == WaitingForSectionAck && afq % 16 == 4 then
      [SectionRefused, SectionStarted(s.nos), Sent(from, asdu.oa, s.ca, s.ioa, s.nof, SectionIsReady(s.nos, s.size))]
    else if s.phase == WaitingForSectionAck && afq % 16 == 3 then [SectionAccepted, Onward(s, from, asdu.oa)]
    else []
  }

  lemma AckMeans(s: Server, from: Connection, asdu: Asdu, o: Output)
    requires asdu.m.Ack?
    ensures o in AckPuts(s, from, asdu) <==> Answers(s, from, asdu, o)
  {
    hide SizeOf;
    if s.phase == WaitingForSectionAck && o.Sent? {
      ReplyMeans(s, from, asdu, o);
    }
  }

  lemma ReplyMeans(s: Server, from: Connection, asdu: Asdu, o: Output)
    requires asdu.m.Ack? && s.phase == WaitingForSectionAck && o.Sent?
    ensures o in AckPuts(s, from, asdu) <==> Answers(s, from, asdu, o)
  {
    hide Section;
  }

  lemma SelectAnswers(s: Server, from: Connection, asdu: Asdu, later: nat, o: Output)
    requires asdu.m.Call? && asdu.m.cot == FileTransfer && asdu.m.scq == 1
    ensures
      var t := OnSelect(s, from, asdu, asdu.m.ioa, asdu.m.nof, asdu.m.found, later);
      s.out <= t.out && (Adds(s, t, o) <==> Answers(s, from, asdu, o))
  {
    var t := OnSelect(s, from, asdu, asdu.m.ioa, asdu.m.nof, asdu.m.found, later);
    hide Adds;
    PutAdds(s, t, SelectPuts(s, from, asdu), o) by { hide Answers; }
    hide OnSelect;
    SelectMeans(s, from, asdu, o);
  }

  /** What a selection makes the server put out. */
  function SelectPuts(s: Server, from: Connection, asdu: Asdu): seq<Output>
    requires asdu.m.Call?
  {
    if s.phase != UnselectedIdle then []
    else
      match asdu.m.found
      case Missing(errCode) => [Denial(from, asdu, errCode)]
      case Found(f) => [FileOpened(f), Sent(from, asdu.oa, asdu.ca, asdu.m.ioa, asdu.m.nof, FileIsReady(f.size, true))]
  }

  lemma SelectMeans(s: Server, from: Connection, asdu: Asdu, o: Output)
    requires asdu.m.Call? && asdu.m.cot == FileTransfer && asdu.m.scq == 1
    ensures o in SelectPuts(s, from, asdu) <==> Answers(s, from, asdu, o)
  {
    hide SizeOf;
  }

  /** The answer to a call of another file. */
  function Wrong(s: Server, from: Connection, asdu: Asdu): Output {
    Echo(from, if asdu.ca != s.ca then UnknownCa else UnknownIoa, true)
  }

  lemma CallFileAnswers(s: Server, from: Connection, asdu: Asdu, later: nat, o: Output)
    requires asdu.m.Call? && asdu.m.cot == FileTransfer && asdu.m.scq == 2
    ensures
      var t := OnCallFile(s, from, asdu, asdu.m.ioa, later);
      s.out <= t.out && (Adds(s, t, o) <==> Answers(s, from, asdu, o))
  {
    hide Adds, Section;
    PutAdds(s, OnCallFile(s, from, asdu, asdu.m.ioa, later),
      if s.phase != WaitingForFileCall then []
      else if !OfSelected(s, asdu) then [Wrong(s, from, asdu)]
      else [FileStarted, Sent(from, asdu.oa, s.ca, s.ioa, s.nof, SectionIsReady(1, SizeOf(s, 1)))], o);
  }

  lemma CallSectionAnswers(s: Server, from: Connection, asdu: Asdu, later: nat, o: Output)
    requires asdu.m.Call? && asdu.m.cot == FileTransfer && asdu.m.scq == 6
    ensures
      var t := OnCallSection(s, from, asdu, asdu.m.ioa, asdu.m.nos, later);
      s.out <= t.out && (Adds(s, t, o) <==> Answers(s, from, asdu, o))
  {
    hide Adds, Section;
    PutAdds(s, OnCallSection(s, from, asdu, asdu.m.ioa, asdu.m.nos, later),
      if s.phase != WaitingForSectionCall then []
      else if !OfSelected(s, asdu) then [Wrong(s, from, asdu)]
      else if asdu.negative then [Onward(s, from, asdu.oa)]
      else if SizeOf(s, asdu.m.nos) > 0 then [SectionStarted(asdu.m.nos)]
      else [Echo(from, SameCause, true)], o);
  }

  lemma CallAnswers(s: Server, from: Connection, asdu: Asdu, later: nat, o: Output)
    requires asdu.m.Call?
    ensures
      var t := OnCall(s, from, asdu, asdu.m, later);
      s.out <= t.out && (Adds(s, t, o) <==> Answers(s, from, asdu, o))
  {
    hide Adds, OnSelect, OnCallFile, OnCallSection, SizeOf;
    if asdu.m.cot == FileTransfer && asdu.m.scq == 1 {
      SelectAnswers(s, from, asdu, later, o);
    } else if asdu.m.cot == FileTransfer && asdu.m.scq == 2 {
      CallFileAnswers(s, from, asdu, later, o);
    } else if asdu.m.cot == FileTransfer && asdu.m.scq == 6 {
      CallSectionAnswers(s, from, asdu, later, o);
    } else {
      PutAdds(s, OnCall(s, from, asdu, asdu.m, later), [], o);
    }
  }

  /** A message makes the server put out exactly what answers it, in the state after the check for a timeout. */
  lemma AnsweredExactly(s: Server, from: Connection, asdu: Asdu, now: nat, later: nat, o: Output)
    ensures
      var t := Step(s, Received(from, asdu, now, later));
      s.out <= t.out && (Adds(s, t, o) <==> Answers(Expired(s, now), from, asdu, o))
  {
    var t := Expired(s, now);
    assert t.out == s.out;
    hide OnFileReady, OnSectionReady, OnSegment, OnLast, OnAck, OnCall, Expired;
    match asdu.m {
      case FileReady(_, _, _) => FileReadyAnswers(t, from, asdu, later, o);
      case SectionReady(_, _) => SectionReadyAnswers(t, from, asdu, later, o);
      case Segment(_, _) => SegmentAnswers(t, from, asdu, later, o);
      case Last(_, _) => LastAnswers(t, from, asdu, later, o);
      case Ack(_) => AckAnswers(t, from, asdu, later, o);
      case Call(_, _, _, _, _, _) => CallAnswers(t, from, asdu, later, o);
      case OtherFileType => PutAdds(t, t, [], o);
    }
  }

  // ----- which state follows -----

  function NextSize(t: Server): int { SizeOf(t, (t.nos + 1) % 256) }

  /** Whether a message leads to a state, told by that state. */
  predicate Enters(t: Server, asdu: Asdu, p: Phase) {
    match p
    case UnselectedIdle =>
      || Acks(t, asdu, WaitingForFileAck, 1) || Acks(t, asdu, WaitingForFileAck, 2)
      || (t.phase == WaitingForSectionReady && asdu.m.Last? && asdu.m.lsq == 1)
      || (FileTransfer.Receiving(t.phase) && asdu.m.Last? && asdu.m.lsq == 2)
    case WaitingForFileCall => Selects(t, asdu) && asdu.m.found.Found?
    case WaitingForSectionCall =>
      || (Calls(t, asdu, WaitingForFileCall, 2) && OfSelected(t, asdu))
      || (GoesOn(t, asdu) && NextSize(t) > 0)
    case TransmitSection =>
      || Acks(t, asdu, WaitingForSectionAck, 4)
      || (Calls(t, asdu, WaitingForSectionCall, 6) && OfSelected(t, asdu) && !asdu.negative && SizeOf(t, asdu.m.nos) > 0)
    case WaitingForFileAck => GoesOn(t, asdu) && NextSize(t) == 0
    case SendAbort =>
      && asdu.m.Ack? && t.phase != UnselectedIdle
      && (|| (t.phase != WaitingForFileAck && (asdu.m.afq == 1 || asdu.m.afq % 16 == 2))
          || (t.phase != WaitingForSectionAck && (asdu.m.afq % 16 == 3 || asdu.m.afq % 16 == 4)))
    case WaitingForSectionReady =>
      || (asdu.m.FileReady? && asdu.m.answer.Accepted?)
      || (t.phase == ReceiveSection && asdu.m.Last? && asdu.m.lsq == 3)
    case ReceiveSection => t.phase == WaitingForSectionReady && asdu.m.SectionReady?
    case _ => false
  }

  /** The state in which no other state is entered stays. */
  predicate Reaches(t: Server, asdu: Asdu, p: Phase) {
    Enters(t, asdu, p) || (t.phase == p && forall q :: !Enters(t, asdu, q))
  }

  /** A message leads to no more than one state. */
  lemma EntersOne(t: Server, asdu: Asdu, p: Phase, q: Phase)
    ensures Enters(t, asdu, p) && Enters(t, asdu, q) ==> p == q
  {
    hide SizeOf;
  }

  lemma PhaseAfterAck(s: Server, from: Connection, asdu: Asdu, later: nat)
    requires asdu.m.Ack?
    ensures Reaches(s, asdu, OnAck(s, from, asdu, asdu.m.afq, later).phase)
  {
    hide Section;
  }

  lemma PhaseAfterReception(s: Server, from: Connection, asdu: Asdu, later: nat)
    requires asdu.m.FileReady? || asdu.m.SectionReady? || asdu.m.Segment? || asdu.m.Last? || asdu.m.OtherFileType?
    ensures
      match asdu.m
      case FileReady(ioa, nof, answer) => Reaches(s, asdu, OnFileReady(s, from, asdu, ioa, nof, answer, later).phase)
      case SectionReady(nos, los) => Reaches(s, asdu, OnSectionReady(s, from, asdu, nos, los, later).phase)
      case Segment(nos, data) => Reaches(s, asdu, OnSegment(s, nos, data, later).phase)
      case Last(nos, lsq) => Reaches(s, asdu, OnLast(s, from, asdu, nos, lsq, later).phase)
      case _ => Reaches(s, asdu, s.phase)
  {
    hide SizeOf;
  }

  lemma PhaseAfterCall(s: Server, from: Connection, asdu: Asdu, later: nat)
    requires asdu.m.Call?
    ensures Reaches(s, asdu, OnCall(s, from, asdu, asdu.m, later).phase)
  {
    hide Section;
  }

  /**
   * What a message leaves of the current address, of the originator that the segments of a sent file are told with, of the
   * file that is selected, and of the receiver. The originator is that of the last master whose file was accepted, not
   * that of the one which fetches a file.
   */
  lemma HoldsExactly(s: Server, from: Connection, asdu: Asdu, now: nat, later: nat)
    ensures
      var t, r := Expired(s, now), Step(s, Received(from, asdu, now, later));
      var accepts, opens := asdu.m.FileReady? && asdu.m.answer.Accepted?, Selects(t, asdu) && asdu.m.found.Found?;
      var refuses := Denied(t, asdu).Some? && Denied(t, asdu).value !in {1, 2};
      var ends :=
        Acks(t, asdu, WaitingForFileAck, 1) || Acks(t, asdu, WaitingForFileAck, 2) || Calls(t, asdu, UnselectedIdle, 3);
      && Current(r) == (if accepts || opens || refuses then Named(asdu) else Current(s))
      && r.oa == (if accepts then asdu.oa else s.oa)
      && r.file == (if opens then Some(asdu.m.found.file) else if ends then None else s.file)
      && r.connection == (if opens then Some(from) else if ends then None else s.connection)
      && r.receiver == (
           if accepts then Some(asdu.m.answer.receiver)
           else if asdu.m.FileReady? && asdu.m.answer.Refused? then None else s.receiver)
  {
    hide SizeOf;
    match asdu.m {
      case FileReady(_, _, _) =>
      case Ack(_) =>
      case Call(_, _, _, _, _, _) =>
      case _ =>
    }
  }

  /** The messages from which on the timeout counts again. */
  predicate Renews(t: Server, asdu: Asdu) {
    || (asdu.m.FileReady? && asdu.m.answer.Accepted?)
    || (t.phase == WaitingForSectionReady && (asdu.m.SectionReady? || (asdu.m.Last? && asdu.m.lsq == 1)))
    || (t.phase == ReceiveSection && (asdu.m.Segment? || (asdu.m.Last? && asdu.m.lsq == 3)))
    || GoesOn(t, asdu) || Acks(t, asdu, WaitingForSectionAck, 4)
    || (Selects(t, asdu) && asdu.m.found.Found?)
    || (Calls(t, asdu, WaitingForFileCall, 2) && OfSelected(t, asdu))
    || (Calls(t, asdu, WaitingForSectionCall, 6) && OfSelected(t, asdu) && SizeOf(t, asdu.m.nos) == 0)
  }

  /** After these the time is that of the message; the call of a section that has bytes does not count. */
  lemma RenewedExactly(s: Server, from: Connection, asdu: Asdu, now: nat, later: nat)
    ensures Step(s, Received(from, asdu, now, later)).lastSendTime ==
      if Renews(Expired(s, now), asdu) then later else s.lastSendTime
  {
    hide Section;
    match asdu.m {
      case Ack(_) =>
      case Call(_, _, _, _, _, _) =>
      case _ =>
    }
  }

  /** What a tick leaves: it takes the transfer to its next state, or ends it when the timeout is exceeded. */
  lemma TickLeaves(s: Server, from: Connection, now: nat, later: nat)
    ensures
      var t := Step(s, Tick(from, now, later));
      var sends := s.phase == TransmitSection && s.connection == Some(from) && s.file.Some?;
      && t.lastSendTime == (if sends then now else s.lastSendTime)
      && t.phase == (
           if later - t.lastSendTime > s.timeout then UnselectedIdle
           else if sends && s.offset >= s.size then WaitingForSectionAck
           else s.phase)
      && Current(t) == Current(s) && t.oa == s.oa && t.file == s.file && t.connection == s.connection
  {
    hide NextSegment, SegmentSize, Sum;
  }

  /** A message that is no part of a transfer shows what time alone does: a transfer ends when its timeout is exceeded. */
  lemma TimeoutExactly(s: Server, from: Connection, asdu: Asdu, now: nat, later: nat)
    requires asdu.m.OtherFileType?
    ensures Step(s, Received(from, asdu, now, later)) ==
      s.(phase := if now - s.lastSendTime > s.timeout then UnselectedIdle else s.phase)
  {
  }

  /** Which state follows a message: exactly the one that it leads to, or else the state does not change. */
  lemma PhaseExactly(s: Server, from: Connection, asdu: Asdu, now: nat, later: nat, p: Phase)
    ensures Step(s, Received(from, asdu, now, later)).phase == p <==> Reaches(Expired(s, now), asdu, p)
  {
    var t := Expired(s, now);
    var q := Step(s, Received(from, asdu, now, later)).phase;
    assert Reaches(t, asdu, q) by {
      hide OnFileReady, OnSectionReady, OnSegment, OnLast, OnAck, OnCall, Expired, Reaches;
      if asdu.m.Ack? { PhaseAfterAck(t, from, asdu, later); }
      else if asdu.m.Call? { PhaseAfterCall(t, from, asdu, later); }
      else { PhaseAfterReception(t, from, asdu, later); }
    }
    hide Step, Expired, Enters;
    EntersOne(t, asdu, p, q);
  }

  // ----- ticks -----

  /** The message that is due while a section is sent: the next bytes of it, or that there are no more. */
  function Due(s: Server, sent: nat): Reply
    requires s.file.Some? && sent <= |Section(s.file.value, s.nos)|
  {
    var section := Section(s.file.value, s.nos);
    if sent == |section| then LastSegment(s.nos, s.sectionChecksum)
    else if |section| - sent > s.maxSegmentSize > 0 then SegmentOf(s.nos, section[sent..sent + s.maxSegmentSize])
    else SegmentOf(s.nos, section[sent..])
  }

  /** What is known of a section that is being sent. */
  predicate Underway(s: Server) {
    && s.phase == TransmitSection && s.file.Some? && 1 <= s.maxSegmentSize <= 255
    && 0 <= s.offset <= s.size == |Section(s.file.value, s.nos)|
  }

  lemma InvUnderway(s: Server)
    requires FileTransfer.Inv(s) && s.phase == TransmitSection
    ensures Underway(s) && FileTransfer.Seen(s.out).current == Section(s.file.value, s.nos)[..s.offset]
  {
    hide FileTransfer.Seen, FileTransfer.AllGood, Sum, Section;
  }

  lemma TransmitPuts(s: Server, to: Connection, now: nat)
    requires Underway(s)
    ensures Transmit(s, to, now).out == s.out + [Sent(to, s.oa, s.ca, s.ioa, s.nof, Due(s, s.offset))]
  {
    hide Sum, Section;
    var section := Section(s.file.value, s.nos);
    assert section[s.offset..] == section[s.offset..|section|];
  }

  /**
   * Only a tick of the connection that selected the file, while a section is sent, puts something out: the last segment
   * if the observer has seen the whole section, and otherwise as much of the rest as fits into a segment.
   */
  lemma TickSends(s: Server, from: Connection, now: nat, later: nat)
    requires FileTransfer.Inv(s)
    ensures
      var t, seen := Step(s, Tick(from, now, later)), FileTransfer.Seen(s.out).current;
      if s.phase == TransmitSection && s.connection == Some(from) then
        && s.file.Some? && seen <= Section(s.file.value, s.nos)
        && t.out == s.out + [Sent(from, s.oa, s.ca, s.ioa, s.nof, Due(s, |seen|))]
      else t.out == s.out
  {
    hide FileTransfer.Inv, FileTransfer.Seen, Section, Transmit, Due;
    if s.phase == TransmitSection && s.connection == Some(from) {
      InvUnderway(s);
      TransmitPuts(s, from, now);
    }
  }

  /** How many segments of that size the bytes make that are left. */
  function Segments(left: int, size: int): nat
    requires size > 0
    decreases if left > 0 then left else 0
  {
    if left <= 0 then 0 else 1 + Segments(left - size, size)
  }

  /** This is the smallest number of segments that hold them. */
  lemma {:induction false} SegmentsFit(left: nat, size: int)
    requires size > 0
    ensures
      var n := Segments(left, size);
      left <= n * size && (left > 0 ==> (n - 1) * size < left)
    decreases left
  {
    if left > size {
      SegmentsFit(left - size, size);
      var n := Segments(left - size, size);
      assert (n + 1) * size == n * size + size && n * size == (n - 1) * size + size;
    } else if left > 0 {
      assert Segments(left - size, size) == 0;
    }
  }

  lemma SegmentsStep(left: int, size: int)
    requires left > 0 && size > 0
    ensures Segments(left, size) == 1 + Segments(left - if left > size then size else left, size)
  {
    assert Segments(left - size, size) == 0 || left > size;
    assert Segments(0, size) == 0;
  }

  /** Ticks of a connection, each of which takes less time than the timeout. */
  predicate Ticks(ticks: seq<Input>, from: Connection, timeout: nat) {
    forall k :: 0 <= k < |ticks| ==> ticks[k].Tick? && ticks[k].from == from && ticks[k].later <= ticks[k].now + timeout
  }

  /** How such a tick brings the section forward. */
  predicate Forward(s: Server, t: Server) {
    && |t.out| == |s.out| + 1 && t.file == s.file && t.nos == s.nos && t.connection == s.connection
    && t.timeout == s.timeout && t.maxSegmentSize == s.maxSegmentSize >= 1
    && if s.offset < s.size then
         && t.phase == TransmitSection
         && Segments(s.size - s.offset, s.maxSegmentSize) == 1 + Segments(t.size - t.offset, s.maxSegmentSize)
       else t.phase == WaitingForSectionAck
  }

  lemma TransmitForward(s: Server, to: Connection, now: nat)
    requires Underway(s)
    ensures Forward(s, Transmit(s, to, now)) && Transmit(s, to, now).lastSendTime == now
  {
    hide Sum, Section, NextSegment, Segments;
    if s.offset < s.size { SegmentsStep(s.size - s.offset, s.maxSegmentSize); }
  }

  lemma TickForward(s: Server, from: Connection, i: Input)
    requires FileTransfer.Inv(s) && s.phase == TransmitSection && s.connection == Some(from) && Ticks([i], from, s.timeout)
    ensures FileTransfer.Inv(Step(s, i)) && Forward(s, Step(s, i))
  {
    FileTransfer.StepKeeps(s, i);
    InvUnderway(s);
    assert [i][0] == i;
    hide FileTransfer.Inv, Transmit, Section, Underway, Segments;
    TransmitForward(s, from, i.now);
  }

  lemma AwaitedSection(s: Server)
    requires FileTransfer.Inv(s) && s.phase == WaitingForSectionAck
    ensures s.file.Some? && FileTransfer.Seen(s.out).pending == Section(s.file.value, s.nos)
  {
    hide FileTransfer.Seen, FileTransfer.AllGood, Sum, Section;
  }

  lemma FirstTick(ticks: seq<Input>, from: Connection, timeout: nat)
    requires Ticks(ticks, from, timeout) && ticks != []
    ensures Ticks([ticks[0]], from, timeout) && Ticks(ticks[1..], from, timeout)
  {
  }

  lemma RunTail(s: Server, inputs: seq<Input>)
    requires inputs != []
    ensures Run(s, inputs) == Run(Step(s, inputs[0]), inputs[1..])
    ensures |inputs| == 1 ==> Run(s, inputs) == Step(s, inputs[0])
  {
    hide Step;
  }

  /** What so many ticks do to a section that is being sent. */
  ghost predicate Advanced(s: Server, t: Server, ticks: nat)
    requires s.maxSegmentSize > 0
  {
    && |t.out| == |s.out| + ticks
    && if ticks <= Segments(s.size - s.offset, s.maxSegmentSize) then t.phase == TransmitSection
       else t.phase == WaitingForSectionAck && s.file.Some?
            && FileTransfer.Seen(t.out).pending == Section(s.file.value, s.nos)
  }

  lemma AdvancedMore(s: Server, t: Server, u: Server, ticks: nat)
    requires Forward(s, t) && s.offset < s.size && Advanced(t, u, ticks)
    ensures Advanced(s, u, ticks + 1)
  {
    hide Segments, FileTransfer.Seen, Section;
  }

  lemma AdvancedLast(s: Server, t: Server)
    requires Forward(s, t) && s.offset >= s.size && FileTransfer.Inv(t)
    ensures Advanced(s, t, 1)
  {
    AwaitedSection(t);
    hide FileTransfer.Inv, FileTransfer.Seen, Section;
  }

  /**
   * A section is sent completely, and its last segment with it, by exactly as many ticks as it has segments, and one
   * more: with fewer it is still being sent.
   */
  lemma {:induction false} TicksSend(s: Server, from: Connection, ticks: seq<Input>)
    requires FileTransfer.Inv(s) && s.phase == TransmitSection && s.connection == Some(from)
    requires Ticks(ticks, from, s.timeout) && s.maxSegmentSize > 0
    requires |ticks| <= Segments(s.size - s.offset, s.maxSegmentSize) + 1
    ensures Advanced(s, Run(s, ticks), |ticks|)
    decreases |ticks|
  {
    hide FileTransfer.Inv, Step, Ticks, FileTransfer.Seen, Section, Segments, Advanced;
    if ticks == [] {
      AdvancedNone(s);
    } else {
      hide Run;
      RunTail(s, ticks);
      FirstTick(ticks, from, s.timeout);
      TickForward(s, from, ticks[0]);
      var t := Step(s, ticks[0]);
      if s.offset < s.size {
        TicksSend(t, from, ticks[1..]);
        AdvancedMore(s, t, Run(s, ticks), |ticks| - 1);
      } else {
        NoneLeft(s);
        AdvancedLast(s, t);
      }
    }
  }

  lemma AdvancedNone(s: Server)
    requires s.phase == TransmitSection && s.maxSegmentSize > 0
    ensures Advanced(s, s, 0)
  {
  }

  lemma NoneLeft(s: Server)
    requires s.offset >= s.size && s.maxSegmentSize > 0
    ensures Segments(s.size - s.offset, s.maxSegmentSize) == 0
  {
  }
}
