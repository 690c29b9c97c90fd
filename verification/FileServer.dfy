/** The file server as it is written (file_server.c): an object whose fields the message handler and runTask update. */
module FileServer {
  import opened Bytes
  import opened Options
  import opened FileService
  import FileTransfer

  /** calculateChecksum. */
  method CalculateChecksum(data: array<byte>, size: nat) returns (checksum: byte)
    requires size <= data.Length
    ensures checksum == Sum(data[..size]) % 256
  {
    checksum := 0;
    for i := 0 to size
      invariant checksum == Sum(data[..i]) % 256
    {
      assert data[..i + 1][..i] == data[..i];
      checksum := (checksum + data[i]) % 256;
    }
  }

  class CS101FileServer {
    const maxSegmentSize: int
    const timeout: nat
    var fileReceiver: Option<nat>
    var ca: int
    var ioa: int
    var oa: nat
    var nof: nat
    var lastSendTime: nat
    var state: Phase
    var currentSectionNumber: byte
    var currentSectionOffset: int
    var currentSectionSize: int
    var sectionChecksum: byte
    var fileChecksum: byte
    var selectedFile: Option<File>
    var selectedConnection: Option<Connection>
    /** The messages that were sent and the interfaces that were called. */
    var out: seq<Output>

    function State(): Server
      reads this
    {
      Server(maxSegmentSize, timeout, fileReceiver, ca, ioa, oa, nof, lastSendTime, state,
        currentSectionNumber, currentSectionOffset, currentSectionSize, sectionChecksum, fileChecksum,
        selectedFile, selectedConnection, out)
    }

    /** The fields go with what was put out, which was in order. */
    ghost predicate Valid()
      reads this
    {
      FileTransfer.Inv(State())
    }

    constructor (maxSegmentSize: int)
      requires 1 <= maxSegmentSize <= 255
      ensures Valid() && Created(State()) && State().maxSegmentSize == maxSegmentSize
    {
      this.maxSegmentSize, timeout := maxSegmentSize, 3000;
      fileReceiver, selectedFile, selectedConnection := None, None, None;
      ca, ioa, oa, nof, lastSendTime := 0, 0, 0, 0, 0;
      state := UnselectedIdle;
      currentSectionNumber, currentSectionOffset, currentSectionSize := 0, 0, 0;
      sectionChecksum, fileChecksum := 0, 0;
      out := [];
      new;
      FileTransfer.CreatedInv(State());
    }

    /** The message of sendCallFile, sendSectionReady and the like, with the address of the file. */
    function Addressed(to: Connection, oa: nat, r: Reply): Output
      reads this
    {
      Sent(to, oa, ca, ioa, nof, r)
    }

    /** The address of the file of which the messages speak. */
    method SetAddress(newCa: int, newIoa: int, newNof: nat)
      modifies this`ca, this`ioa, this`nof
      ensures State() == old(State()).(ca := newCa, ioa := newIoa, nof := newNof)
    {
      ca := newCa;
      ioa := newIoa;
      nof := newNof;
    }

    method GoToSection(nos: byte)
      modifies this`currentSectionNumber, this`currentSectionOffset
      ensures State() == old(State()).(nos := nos, offset := 0)
    {
      currentSectionNumber := nos;
      currentSectionOffset := 0;
    }

    /** Sends a message, and waits for the answer in another state. */
    method SendAndWait(to: Connection, oa: nat, r: Reply, later: nat, next: Phase)
      modifies this`out, this`lastSendTime, this`state
      ensures State() == Await(old(State()), to, oa, r, later, next)
    {
      out := out + [Addressed(to, oa, r)];
      lastSendTime := later;
      state := next;
    }

    /** getSectionSize of the selected file. */
    function SectionSize(nos: byte): int
      reads this
      ensures SectionSize(nos) == SizeOf(State(), nos)
    {
      if selectedFile.Some? then |Section(selectedFile.value, nos)| else 0
    }

    /** getSegmentData of the selected file. */
    method GetSegmentData(offset: nat, size: nat, data: array<byte>)
      requires selectedFile.Some? && size <= data.Length
      requires offset + size <= |Section(selectedFile.value, currentSectionNumber)|
      modifies data
      ensures data[..size] == Section(selectedFile.value, currentSectionNumber)[offset..offset + size]
    {
      var section := Section(selectedFile.value, currentSectionNumber);
      for i := 0 to size
        invariant data[..i] == section[offset..offset + i]
      {
        data[i] := section[offset + i];
      }
    }

    /** The section that is being sent is that of the file. */
    predicate SendingSection()
      reads this
    {
      selectedFile.Some? ==>
        0 <= currentSectionOffset <= currentSectionSize == |Section(selectedFile.value, currentSectionNumber)|
    }

    /** The segment of that size, and its checksum. */
    method FetchSegment(size: nat) returns (data: bytes, checksum: byte)
      requires selectedFile.Some? && 0 < size <= 255 && 0 <= currentSectionOffset
      requires currentSectionOffset + size <= |Section(selectedFile.value, currentSectionNumber)|
      ensures data == Section(selectedFile.value, currentSectionNumber)[currentSectionOffset..currentSectionOffset + size]
      ensures checksum == Sum(data) % 256
    {
      var segmentData := new byte[255];
      GetSegmentData(currentSectionOffset, size, segmentData);
      data := segmentData[..size];
      checksum := CalculateChecksum(segmentData, size);
    }

    /** sendSegment. */
    method SendSegment(connection: Connection, oa: nat, now: nat) returns (sent: bool)
      requires 1 <= maxSegmentSize <= 255 && selectedFile.Some? && SendingSection() && oa == this.oa
      modifies this
      ensures sent <==> old(currentSectionSize - currentSectionOffset) > 0
      ensures sent ==> State() == Transmit(old(State()), connection, now)
      ensures !sent ==> State() == old(State())
    {
      hide Sum, Section;
      var currentSegmentSize := currentSectionSize - currentSectionOffset;
      if currentSegmentSize > 0 {
        if currentSegmentSize > maxSegmentSize {
          currentSegmentSize := maxSegmentSize;
        }
        var data, checksum := FetchSegment(currentSegmentSize);
        assert data == NextSegment(State());
        out := out + [Addressed(connection, oa, SegmentOf(currentSectionNumber, data))];
        currentSectionOffset := currentSectionOffset + currentSegmentSize;
        lastSendTime := now;
        AddRemainder(sectionChecksum, Sum(data));
        sectionChecksum := (sectionChecksum + checksum) % 256;
        return true;
      } else {
        return false;
      }
    }

    /** sendLastSegment. */
    method SendLastSegment(connection: Connection, oa: nat)
      modifies this
      ensures State() ==
        Reply1(old(State()).(fileChecksum := (old(fileChecksum) + old(sectionChecksum)) % 256, sectionChecksum := 0),
               connection, oa, LastSegment(currentSectionNumber, old(sectionChecksum)))
    {
      var chs := sectionChecksum;
      fileChecksum := (fileChecksum + sectionChecksum) % 256;
      sectionChecksum := 0;
      out := out + [Addressed(connection, oa, LastSegment(currentSectionNumber, chs))];
    }

    /** When there is no segment left; the checksum that is added here is 0 already. */
    method FinishSection(connection: Connection, now: nat)
      requires currentSectionSize - currentSectionOffset <= 0
      modifies this
      ensures State() == Transmit(old(State()), connection, now)
    {
      SendLastSegment(connection, oa);
      fileChecksum := (fileChecksum + sectionChecksum) % 256;
      sectionChecksum := 0;
      lastSendTime := now;
      state := WaitingForSectionAck;
    }

    method CheckTimeout(now: nat)
      modifies this`state
      ensures State() == Expired(old(State()), now)
    {
      if now > lastSendTime + timeout {
        state := UnselectedIdle;
      }
    }

    /** CS101_FileServer_runTask; the clock shows `now` when something is sent, and `later` in the end. */
    method RunTask(connection: Connection, now: nat, later: nat)
      requires Valid()
      modifies this
      ensures Valid() && State() == Task(old(State()), connection, now, later)
    {
      ghost var s := State();
      ServerValid(s, Tick(connection, now, later));
      hide *;
      DoTask(connection, now, later);
    }

    method DoTask(connection: Connection, now: nat, later: nat)
      requires 1 <= maxSegmentSize <= 255 && (state == TransmitSection ==> SendingSection())
      modifies this
      ensures State() == Task(old(State()), connection, now, later)
    {
      hide Transmit, Section;
      if state != UnselectedIdle {
        if state == TransmitSection {
          if selectedConnection == Some(connection) {
            if selectedFile.Some? {
              var sent := SendSegment(connection, oa, now);
              if !sent {
                FinishSection(connection, now);
              }
            }
          }
        }
        CheckTimeout(later);
      }
    }

    /** What is answered when the user's interface has no file. */
    method SendDenial(from: Connection, asdu: Asdu, errCode: int, fileIoa: int, fileNof: nat)
      modifies this
      ensures State() == Deny(old(State()), from, asdu, errCode, fileIoa, fileNof)
    {
      if errCode == 1 {
        out := out + [Echo(from, UnknownCa, true)];
      } else if errCode == 2 {
        out := out + [Echo(from, UnknownIoa, true)];
      } else {
        SetAddress(asdu.ca, fileIoa, fileNof);
        out := out + [Addressed(from, asdu.oa, FileIsReady(0, false))];
      }
    }

    method AcceptFile(from: Connection, asdu: Asdu, fileIoa: int, fileNof: nat, later: nat)
      requires fileReceiver.Some?
      modifies this
      ensures State() ==
        Await(old(State()).(ca := asdu.ca, ioa := fileIoa, oa := asdu.oa, nof := fileNof, fileChecksum := 0),
              from, asdu.oa, CallFile, later, WaitingForSectionReady)
    {
      SetAddress(asdu.ca, fileIoa, fileNof);
      oa := asdu.oa;
      fileChecksum := 0;
      SendAndWait(from, asdu.oa, CallFile, later, WaitingForSectionReady);
    }

    /** F_FR_NA_1. */
    method HandleFileReady(from: Connection, asdu: Asdu, fileIoa: int, fileNof: nat, answer: Answer, later: nat)
      modifies this
      ensures State() == OnFileReady(old(State()), from, asdu, fileIoa, fileNof, answer, later)
    {
      hide Deny, Await;
      if answer.NoHandler? {
        out := out + [Echo(from, UnknownIoa, true)];
      } else {
        fileReceiver := None;
        if answer.Accepted? {
          fileReceiver := Some(answer.receiver);
          out := out + [TransferAccepted(answer.receiver)];
        }
        if fileReceiver.Some? {
          AcceptFile(from, asdu, fileIoa, fileNof, later);
        } else {
          SendDenial(from, asdu, answer.errCode, fileIoa, fileNof);
        }
      }
    }

    /** F_SR_NA_1. */
    method HandleSectionReady(from: Connection, asdu: Asdu, nos: byte, los: nat, later: nat)
      modifies this
      ensures State() == OnSectionReady(old(State()), from, asdu, nos, los, later)
    {
      if state == WaitingForSectionReady {
        GoToSection(nos);
        currentSectionSize := los;
        SendAndWait(from, asdu.oa, CallSection(currentSectionNumber), later, ReceiveSection);
      }
    }

    /** F_SG_NA_1. */
    method HandleSegment(nos: byte, data: bytes, later: nat)
      modifies this
      ensures State() == OnSegment(old(State()), nos, data, later)
    {
      if state == ReceiveSection {
        if fileReceiver.Some? {
          out := out + [SegmentReceived(fileReceiver.value, nos, currentSectionOffset, data)];
        }
        currentSectionOffset := currentSectionOffset + |data|;
        lastSendTime := later;
      }
    }

    /** F_LS_NA_1. */
    method HandleLast(from: Connection, asdu: Asdu, nos: byte, lsq: byte, later: nat)
      modifies this
      ensures State() == OnLast(old(State()), from, asdu, nos, lsq, later)
    {
      if state == ReceiveSection {
        if lsq == 3 {
          SendAndWait(from, asdu.oa, FileAck(nos, 3), later, WaitingForSectionReady);
        } else if lsq == 2 {
          if fileReceiver.Some? {
            out := out + [Finished(fileReceiver.value, AbortedByRemote)];
          }
          state := UnselectedIdle;
        }
      } else if state == WaitingForSectionReady {
        if lsq == 1 {
          out := out + [Addressed(from, asdu.oa, FileAck(nos, 1))];
          lastSendTime := later;
          if fileReceiver.Some? {
            out := out + [Finished(fileReceiver.value, Success)];
          }
          state := UnselectedIdle;
        } else if lsq == 2 {
          if fileReceiver.Some? {
            out := out + [Finished(fileReceiver.value, AbortedByRemote)];
          }
          state := UnselectedIdle;
        }
      }
    }

    method CompleteTransfer(success: bool)
      modifies this
      ensures State() == Complete(old(State()), success)
    {
      if selectedFile.Some? {
        out := out + [TransferComplete(success)];
      }
      selectedFile := None;
      selectedConnection := None;
      state := UnselectedIdle;
    }

    /** NEG_ACK_SECTION. */
    method RepeatSection(from: Connection, oa: nat, later: nat)
      modifies this
      ensures State() ==
        Await(Put(Put(old(State()).(offset := 0, sectionChecksum := 0), SectionRefused),
                  SectionStarted(old(currentSectionNumber))),
              from, oa, SectionIsReady(old(currentSectionNumber), old(currentSectionSize)), later, TransmitSection)
    {
      currentSectionOffset := 0;
      sectionChecksum := 0;
      out := out + [SectionRefused];
      out := out + [SectionStarted(currentSectionNumber)];
      SendAndWait(from, oa, SectionIsReady(currentSectionNumber, currentSectionSize), later, TransmitSection);
    }

    /** POS_ACK_SECTION. */
    method SendNextSection(from: Connection, oa: nat, later: nat)
      modifies this
      ensures State() == NextSection(Put(old(State()), SectionAccepted), from, oa, later).(sectionChecksum := 0)
    {
      hide Section;
      out := out + [SectionAccepted];
      GoToSection((currentSectionNumber + 1) % 256);
      var nextSectionSize := SectionSize(currentSectionNumber);
      if nextSectionSize <= 0 {
        SendAndWait(from, oa, LastSection(currentSectionNumber, fileChecksum), later, WaitingForFileAck);
      } else {
        currentSectionSize := nextSectionSize;
        SendAndWait(from, oa, SectionIsReady(currentSectionNumber, currentSectionSize), later, WaitingForSectionCall);
      }
      sectionChecksum := 0;
    }

    /** F_AF_NA_1. */
    method HandleAck(from: Connection, asdu: Asdu, afq: byte, later: nat)
      modifies this
      ensures State() == OnAck(old(State()), from, asdu, afq, later)
    {
      hide Complete, Await, NextSection;
      if state != UnselectedIdle {
        if afq == 1 {
          if state == WaitingForFileAck {
            CompleteTransfer(true);
          } else {
            state := SendAbort;
          }
        } else if afq % 16 == 2 {
          if state == WaitingForFileAck {
            CompleteTransfer(false);
          } else {
            state := SendAbort;
          }
        } else if afq % 16 == 4 {
          if state == WaitingForSectionAck {
            RepeatSection(from, asdu.oa, later);
          } else {
            state := SendAbort;
          }
        } else if afq % 16 == 3 {
          if state == WaitingForSectionAck {
            SendNextSection(from, asdu.oa, later);
          } else {
            state := SendAbort;
          }
        }
      } else {
        out := out + [Echo(from, UnknownCa, asdu.negative)];
      }
    }

    /** SELECT_FILE. */
    method HandleSelect(from: Connection, asdu: Asdu, fileIoa: int, fileNof: nat, found: Lookup, later: nat)
      modifies this
      ensures State() == OnSelect(old(State()), from, asdu, fileIoa, fileNof, found, later)
    {
      hide Deny, Await;
      if state == UnselectedIdle {
        if found.Missing? {
          SendDenial(from, asdu, found.errCode, fileIoa, fileNof);
        } else {
          OpenFile(from, asdu, fileIoa, fileNof, found.file, later);
        }
      }
    }

    method OpenFile(from: Connection, asdu: Asdu, fileIoa: int, fileNof: nat, file: File, later: nat)
      modifies this
      ensures State() ==
        Await(Put(old(State()), FileOpened(file))
                .(file := Some(file), connection := Some(from), ioa := fileIoa, ca := asdu.ca, nof := fileNof),
              from, asdu.oa, FileIsReady(file.size, true), later, WaitingForFileCall)
    {
      out := out + [FileOpened(file)];
      selectedFile := Some(file);
      selectedConnection := Some(from);
      SetAddress(asdu.ca, fileIoa, fileNof);
      SendAndWait(from, asdu.oa, FileIsReady(file.size, true), later, WaitingForFileCall);
    }

    method SendWrongFile(from: Connection, asdu: Asdu)
      modifies this`out
      ensures State() == WrongFile(old(State()), from, asdu)
    {
      if asdu.ca != ca {
        out := out + [Echo(from, UnknownCa, true)];
      } else {
        out := out + [Echo(from, UnknownIoa, true)];
      }
    }

    /** REQUEST_FILE. */
    method HandleCallFile(from: Connection, asdu: Asdu, fileIoa: int, later: nat)
      modifies this
      ensures State() == OnCallFile(old(State()), from, asdu, fileIoa, later)
    {
      hide Await, WrongFile;
      if state == WaitingForFileCall {
        if fileIoa != ioa || asdu.ca != ca {
          SendWrongFile(from, asdu);
        } else {
          StartFile(from, asdu.oa, later);
        }
      }
    }

    method StartFile(from: Connection, oa: nat, later: nat)
      modifies this
      ensures
        var size := SizeOf(old(State()), 1);
        State() ==
          Await(Put(old(State()).(nos := 1, offset := 0, fileChecksum := 0, size := size), FileStarted),
                from, oa, SectionIsReady(1, size), later, WaitingForSectionCall)
    {
      hide Section;
      GoToSection(1);
      fileChecksum := 0;
      currentSectionSize := SectionSize(1);
      out := out + [FileStarted];
      SendAndWait(from, oa, SectionIsReady(currentSectionNumber, currentSectionSize), later, WaitingForSectionCall);
    }

    /** A negative call: the master does not want this section. */
    method SkipSection(from: Connection, oa: nat, later: nat)
      modifies this
      ensures
        var t := NextSection(old(State()), from, oa, later);
        State() == t.(size := SizeOf(old(State()), t.nos))
    {
      hide Section;
      GoToSection((currentSectionNumber + 1) % 256);
      currentSectionSize := SectionSize(currentSectionNumber);
      if currentSectionSize > 0 {
        SendAndWait(from, oa, SectionIsReady(currentSectionNumber, currentSectionSize), later, WaitingForSectionCall);
      } else {
        SendAndWait(from, oa, LastSection(currentSectionNumber, fileChecksum), later, WaitingForFileAck);
      }
    }

    /** REQUEST_SECTION. */
    method HandleCallSection(from: Connection, asdu: Asdu, fileIoa: int, nos: byte, later: nat)
      modifies this
      ensures State() == OnCallSection(old(State()), from, asdu, fileIoa, nos, later)
    {
      hide Section, WrongFile, NextSection;
      if state == WaitingForSectionCall {
        if fileIoa != ioa || asdu.ca != ca {
          SendWrongFile(from, asdu);
        } else if asdu.negative {
          SkipSection(from, asdu.oa, later);
        } else {
          currentSectionSize := SectionSize(nos);
          if currentSectionSize > 0 {
            GoToSection(nos);
            out := out + [SectionStarted(nos)];
            state := TransmitSection;
          } else {
            out := out + [Echo(from, SameCause, true)];
            lastSendTime := later;
          }
        }
      }
    }

    /** F_SC_NA_1. */
    method HandleCall(from: Connection, asdu: Asdu, c: Message, later: nat)
      requires c.Call?
      modifies this
      ensures State() == OnCall(old(State()), from, asdu, c, later)
    {
      if c.cot == FileTransfer {
        if c.scq == 1 {
          HandleSelect(from, asdu, c.ioa, c.nof, c.found, later);
        } else if c.scq == 3 {
          if state == UnselectedIdle {
            selectedFile := None;
            selectedConnection := None;
            state := UnselectedIdle;
          }
        } else if c.scq == 2 {
          HandleCallFile(from, asdu, c.ioa, later);
        } else if c.scq == 6 {
          HandleCallSection(from, asdu, c.ioa, c.nos, later);
        }
      }
    }

    /** CS101_FileServer_handleAsdu, for a message of one of the file types. */
    method HandleAsdu(from: Connection, asdu: Asdu, now: nat, later: nat)
      requires Valid()
      modifies this
      ensures Valid() && State() == Handle(old(State()), from, asdu, now, later)
    {
      ghost var s := State();
      ServerValid(s, Received(from, asdu, now, later));
      hide *;
      DoHandleAsdu(from, asdu, now, later);
    }

    method DoHandleAsdu(from: Connection, asdu: Asdu, now: nat, later: nat)
      modifies this
      ensures State() == Handle(old(State()), from, asdu, now, later)
    {
      hide OnFileReady, OnSectionReady, OnSegment, OnLast, OnAck, OnCall;
      if state != UnselectedIdle {
        CheckTimeout(now);
      }
      match asdu.m
      case FileReady(fileIoa, fileNof, answer) => HandleFileReady(from, asdu, fileIoa, fileNof, answer, later);
      case SectionReady(nos, los) => HandleSectionReady(from, asdu, nos, los, later);
      case Segment(nos, data) => HandleSegment(nos, data, later);
      case Last(nos, lsq) => HandleLast(from, asdu, nos, lsq, later);
      case Ack(afq) => HandleAck(from, asdu, afq, later);
      case Call(_, _, _, _, _, _) => HandleCall(from, asdu, asdu.m, later);
      case OtherFileType =>
    }
  }

  /** What was put out stays in order, and in the sending state the offset is in the section of the file. */
  lemma ServerValid(s: Server, i: Input)
    requires FileTransfer.Inv(s)
    ensures FileTransfer.Inv(match i case Received(from, asdu, now, later) => Handle(s, from, asdu, now, later)
                                    case Tick(from, now, later) => Task(s, from, now, later))
    ensures 1 <= s.maxSegmentSize <= 255
    ensures s.phase == TransmitSection && s.file.Some? ==>
      0 <= s.offset <= s.size == |Section(s.file.value, s.nos)|
  {
    FileTransfer.StepKeeps(s, i);
  }

  lemma AddRemainder(a: byte, b: nat)
    ensures (a + b % 256) % 256 == Plus(a, b)
  {
  }
}
