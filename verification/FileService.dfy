/** The file server of lib60870 (file_server.c) as a state machine: what one message, or one tick of its task, does. */
module FileService {
  import opened Bytes
  import opened Options

  type Connection = nat

  /** A CS101_IFileProvider that always gives the same answers; sections are numbered from 1. */
  datatype File = File(size: int, sections: seq<bytes>)

  /** The section of that name, which is empty when there is none. */
  function Section(f: File, nos: byte): bytes {
    if 1 <= nos <= |f.sections| then f.sections[nos - 1] else []
  }

  /** FileServerState. */
  datatype Phase =
    | UnselectedIdle | WaitingForFileCall | WaitingForSectionCall | TransmitSection | WaitingForSectionAck
    | WaitingForFileAck | SendAbort | TransferCompleted | WaitingForSectionReady | ReceiveSection

  // ----- what comes in -----

  datatype Cause = FileTransfer | Request | OtherCause

  /** What getFile answers. */
  datatype Lookup = Found(file: File) | Missing(errCode: int)

  /** What the handler for files from the master answers, if there is one. */
  datatype Answer = NoHandler | Refused(errCode: int) | Accepted(receiver: nat)

  datatype Message =
    | FileReady(ioa: int, nof: nat, answer: Answer)
    | SectionReady(nos: byte, los: nat)
    | Segment(nos: byte, data: bytes)
    | Last(nos: byte, lsq: byte)
    | Ack(afq: byte)
    | Call(cot: Cause, ioa: int, nof: nat, scq: byte, nos: byte, found: Lookup)
    | OtherFileType

  datatype Asdu = Asdu(oa: nat, ca: int, negative: bool, m: Message)

  /**
   * A message that came over a connection, or a tick of runTask for a connection. The clock is read first for the
   * timeout of a message and last for that of a tick; `now` and `later` are these two readings.
   */
  datatype Input =
    | Received(from: Connection, asdu: Asdu, now: nat, later: nat)
    | Tick(from: Connection, now: nat, later: nat)

  // ----- what goes out -----

  datatype Reply =
    | CallFile
    | CallSection(nos: byte)
    | FileAck(nos: byte, afq: byte)
    | SectionIsReady(nos: byte, size: int)
    | LastSection(nos: byte, chs: byte)
    | FileIsReady(size: int, positive: bool)
    | SegmentOf(nos: byte, data: bytes)
    | LastSegment(nos: byte, chs: byte)

  datatype EchoCause = SameCause | UnknownCa | UnknownIoa

  datatype FileResult = Success | AbortedByRemote

  /** Messages, calls of the user's interfaces, and marks that tell where a transfer begins. */
  datatype Output =
    | Sent(to: Connection, oa: nat, ca: int, ioa: int, nof: nat, reply: Reply)
    | Echo(to: Connection, cause: EchoCause, negative: bool)
    | SegmentReceived(receiver: nat, nos: byte, offset: int, data: bytes)
    | Finished(receiver: nat, result: FileResult)
    | TransferComplete(success: bool)
      /** getFile returned a file that is now selected. */
    | FileOpened(file: File)
      /** The selected file was called. */
    | FileStarted
      /** Transmission of a section begins, or begins again. */
    | SectionStarted(nos: byte)
      /** The master acknowledged the section that was sent, or refused it. */
    | SectionAccepted
    | SectionRefused
      /** The handler took a file that the master wants to send. */
    | TransferAccepted(receiver: nat)

  /** struct sCS101_FileServer, and everything it has put out. */
  datatype Server = Server(
    maxSegmentSize: int, timeout: nat,
    receiver: Option<nat>, ca: int, ioa: int, oa: nat, nof: nat,
    lastSendTime: nat, phase: Phase,
    nos: byte, offset: int, size: int, sectionChecksum: byte, fileChecksum: byte,
    file: Option<File>, connection: Option<Connection>,
    out: seq<Output>)

  /** The sum of the bytes; checksums are sums modulo 256. */
  function Sum(data: bytes): nat {
    if data == [] then 0 else Sum(data[..|data| - 1]) + data[|data| - 1]
  }

  function Plus(a: byte, b: int): byte
    requires b >= 0
  {
    (a + b) % 256
  }

  function Put(s: Server, o: Output): Server { s.(out := s.out + [o]) }

  function Reply1(s: Server, to: Connection, oa: nat, r: Reply): Server {
    Put(s, Sent(to, oa, s.ca, s.ioa, s.nof, r))
  }

  /** Sends a reply, and waits for the next message in another state. */
  function Await(s: Server, to: Connection, oa: nat, r: Reply, later: nat, phase: Phase): Server {
    Reply1(s, to, oa, r).(lastSendTime := later, phase := phase)
  }

  function Expired(s: Server, now: nat): Server {
    if s.phase != UnselectedIdle && now > s.lastSendTime + s.timeout then s.(phase := UnselectedIdle) else s
  }

  /** A negative answer for an error code of the user's interface. */
  function Deny(s: Server, from: Connection, asdu: Asdu, errCode: int, ioa: int, nof: nat): Server {
    if errCode == 1 then Put(s, Echo(from, UnknownCa, true))
    else if errCode == 2 then Put(s, Echo(from, UnknownIoa, true))
    else Reply1(s.(ca := asdu.ca, ioa := ioa, nof := nof), from, asdu.oa, FileIsReady(0, false))
  }

  // ----- receiving a file -----

  function OnFileReady(s: Server, from: Connection, asdu: Asdu, ioa: int, nof: nat, answer: Answer, later: nat): Server {
    match answer
    case NoHandler => Put(s, Echo(from, UnknownIoa, true))
    case Refused(errCode) => Deny(s.(receiver := None), from, asdu, errCode, ioa, nof)
    case Accepted(r) =>
      var t := Put(s, TransferAccepted(r))
        .(receiver := Some(r), ca := asdu.ca, ioa := ioa, oa := asdu.oa, nof := nof, fileChecksum := 0);
      Await(t, from, asdu.oa, CallFile, later, WaitingForSectionReady)
  }

  function OnSectionReady(s: Server, from: Connection, asdu: Asdu, nos: byte, los: nat, later: nat): Server {
    if s.phase == WaitingForSectionReady then
      Await(s.(nos := nos, offset := 0, size := los), from, asdu.oa, CallSection(nos), later, ReceiveSection)
    else s
  }

  function OnSegment(s: Server, nos: byte, data: bytes, later: nat): Server {
    if s.phase != ReceiveSection then s
    else
      var t := if s.receiver.Some? then Put(s, SegmentReceived(s.receiver.value, nos, s.offset, data)) else s;
      t.(offset := s.offset + |data|, lastSendTime := later)
  }

  /** The receiver learns the result, and the transfer is over. */
  function Finish(s: Server, result: FileResult): Server {
    (if s.receiver.Some? then Put(s, Finished(s.receiver.value, result)) else s).(phase := UnselectedIdle)
  }

  function OnLast(s: Server, from: Connection, asdu: Asdu, nos: byte, lsq: byte, later: nat): Server {
    if s.phase == ReceiveSection && lsq == 3 then
      Await(s, from, asdu.oa, FileAck(nos, 3), later, WaitingForSectionReady)
    else if s.phase == WaitingForSectionReady && lsq == 1 then
      Finish(Reply1(s, from, asdu.oa, FileAck(nos, 1)).(lastSendTime := later), Success)
    else if (s.phase == ReceiveSection || s.phase == WaitingForSectionReady) && lsq == 2 then
      Finish(s, AbortedByRemote)
    else s
  }

  // ----- sending a file -----

  function Complete(s: Server, success: bool): Server {
    (if s.file.Some? then Put(s, TransferComplete(success)) else s)
      .(file := None, connection := None, phase := UnselectedIdle)
  }

  function SizeOf(s: Server, nos: byte): int {
    if s.file.Some? then |Section(s.file.value, nos)| else 0
  }

  /** Announces the next section, or the end of the file when there is none. */
  function NextSection(s: Server, from: Connection, oa: nat, later: nat): Server {
    var nos: byte := (s.nos + 1) % 256;
    var size := SizeOf(s, nos);
    var t := s.(nos := nos, offset := 0);
    if size <= 0 then Await(t, from, oa, LastSection(nos, t.fileChecksum), later, WaitingForFileAck)
    else Await(t.(size := size), from, oa, SectionIsReady(nos, size), later, WaitingForSectionCall)
  }

  function OnAck(s: Server, from: Connection, asdu: Asdu, afq: byte, later: nat): Server {
    if s.phase == UnselectedIdle then Put(s, Echo(from, UnknownCa, asdu.negative))
    else if afq == 1 then
      if s.phase == WaitingForFileAck then Complete(s, true) else s.(phase := SendAbort)
    else if afq % 16 == 2 then
      if s.phase == WaitingForFileAck then Complete(s, false) else s.(phase := SendAbort)
    else if afq % 16 == 4 then
      if s.phase == WaitingForSectionAck then
        Await(Put(Put(s.(offset := 0, sectionChecksum := 0), SectionRefused), SectionStarted(s.nos)),
              from, asdu.oa, SectionIsReady(s.nos, s.size), later, TransmitSection)
      else s.(phase := SendAbort)
    else if afq % 16 == 3 then
      if s.phase == WaitingForSectionAck then
        NextSection(Put(s, SectionAccepted), from, asdu.oa, later).(sectionChecksum := 0)
      else s.(phase := SendAbort)
    else s
  }

  function OnSelect(s: Server, from: Connection, asdu: Asdu, ioa: int, nof: nat, found: Lookup, later: nat): Server {
    if s.phase != UnselectedIdle then s
    else
      match found
      case Missing(errCode) => Deny(s, from, asdu, errCode, ioa, nof)
      case Found(f) =>
        var t := Put(s, FileOpened(f)).(file := Some(f), connection := Some(from), ioa := ioa, ca := asdu.ca, nof := nof);
        Await(t, from, asdu.oa, FileIsReady(f.size, true), later, WaitingForFileCall)
  }

  /** The call is for another file than the selected one. */
  function WrongFile(s: Server, from: Connection, asdu: Asdu): Server {
    Put(s, Echo(from, if asdu.ca != s.ca then UnknownCa else UnknownIoa, true))
  }

  function OnCallFile(s: Server, from: Connection, asdu: Asdu, ioa: int, later: nat): Server {
    if s.phase != WaitingForFileCall then s
    else if ioa != s.ioa || asdu.ca != s.ca then WrongFile(s, from, asdu)
    else
      var size := SizeOf(s, 1);
      Await(Put(s.(nos := 1, offset := 0, fileChecksum := 0, size := size), FileStarted),
            from, asdu.oa, SectionIsReady(1, size), later, WaitingForSectionCall)
  }

  function OnCallSection(s: Server, from: Connection, asdu: Asdu, ioa: int, nos: byte, later: nat): Server {
    if s.phase != WaitingForSectionCall then s
    else if ioa != s.ioa || asdu.ca != s.ca then WrongFile(s, from, asdu)
    else if asdu.negative then
      var t := NextSection(s, from, asdu.oa, later);
      t.(size := SizeOf(s, t.nos))
    else
      var size := SizeOf(s, nos);
      if size > 0 then
        Put(s.(size := size, nos := nos, offset := 0), SectionStarted(nos)).(phase := TransmitSection)
      else Put(s.(size := size), Echo(from, SameCause, true)).(lastSendTime := later)
  }

  function OnCall(s: Server, from: Connection, asdu: Asdu, c: Message, later: nat): Server
    requires c.Call?
  {
    if c.cot != FileTransfer then s
    else if c.scq == 1 then OnSelect(s, from, asdu, c.ioa, c.nof, c.found, later)
    else if c.scq == 3 then (if s.phase == UnselectedIdle then s.(file := None, connection := None) else s)
    else if c.scq == 2 then OnCallFile(s, from, asdu, c.ioa, later)
    else if c.scq == 6 then OnCallSection(s, from, asdu, c.ioa, c.nos, later)
    else s
  }

  /** CS101_FileServer_handleAsdu, for the types of file transfer. */
  function Handle(s: Server, from: Connection, asdu: Asdu, now: nat, later: nat): Server {
    var t := Expired(s, now);
    match asdu.m
    case FileReady(ioa, nof, answer) => OnFileReady(t, from, asdu, ioa, nof, answer, later)
    case SectionReady(nos, los) => OnSectionReady(t, from, asdu, nos, los, later)
    case Segment(nos, data) => OnSegment(t, nos, data, later)
    case Last(nos, lsq) => OnLast(t, from, asdu, nos, lsq, later)
    case Ack(afq) => OnAck(t, from, asdu, afq, later)
    case Call(_, _, _, _, _, _) => OnCall(t, from, asdu, asdu.m, later)
    case OtherFileType => t
  }

  // ----- runTask -----

  function SegmentSize(s: Server): int {
    var left := s.size - s.offset;
    if left > s.maxSegmentSize then s.maxSegmentSize else left
  }

  /** The next segment of the section; the answer of getSegmentData. */
  function NextSegment(s: Server): bytes {
    if s.file.Some? && 0 <= s.offset && 0 < SegmentSize(s) && s.offset + SegmentSize(s) <= |Section(s.file.value, s.nos)|
    then Section(s.file.value, s.nos)[s.offset..s.offset + SegmentSize(s)]
    else []
  }

  function Transmit(s: Server, to: Connection, later: nat): Server {
    if s.size - s.offset > 0 then
      var data := NextSegment(s);
      var t := Reply1(s, to, s.oa, SegmentOf(s.nos, data));
      t.(offset := s.offset + SegmentSize(s), lastSendTime := later,
         sectionChecksum := Plus(s.sectionChecksum, Sum(data)))
    else
      var t := s.(fileChecksum := Plus(s.fileChecksum, s.sectionChecksum), sectionChecksum := 0);
      Await(t, to, s.oa, LastSegment(s.nos, s.sectionChecksum), later, WaitingForSectionAck)
  }

  /** CS101_FileServer_runTask. */
  function Task(s: Server, connection: Connection, now: nat, later: nat): Server {
    var t :=
      if s.phase == TransmitSection && s.connection == Some(connection) && s.file.Some?
      then Transmit(s, connection, now) else s;
    Expired(t, later)
  }

  function Step(s: Server, i: Input): Server {
    match i
    case Received(from, asdu, now, later) => Handle(s, from, asdu, now, later)
    case Tick(from, now, later) => Task(s, from, now, later)
  }

  function Run(s: Server, inputs: seq<Input>): Server
    decreases |inputs|
  {
    if inputs == [] then s else Run(Step(s, inputs[0]), inputs[1..])
  }

  /** CS101_FileServer_create; segments fit into the buffer of 255 bytes, and hold at least one. */
  predicate Created(s: Server) {
    && 1 <= s.maxSegmentSize <= 255 && s.timeout == 3000
    && s == Server(s.maxSegmentSize, s.timeout, None, 0, 0, 0, 0, 0, UnselectedIdle, 0, 0, 0, 0, 0, None, None, [])
  }
}
