/** The firmware-update state machine of ModbusLoader (src/modbusloader.cpp).

    A load runs Idle -> EraseFlash -> ProgramFlash (once per chunk) ->
    VerifyFlash -> ResetDevice -> Finished. Each completion of the client
    runs one step: a first switch reads the device's reply and decides the
    next state, a second switch issues the single request for that state.

    The step is specified by pure functions over a Session value (Decide,
    Issue, Execute, Load, ClientFinished); the class ModbusLoader updates its
    fields in place, as the source does, and each of its methods is proved to
    leave the fields equal to the specifying function of their old values. */
module Loader {
  import opened Wire
  import CC = CustomClient

  /** 256-byte RTU ADU, less server address (1), CRC (2), function code (1),
      subfunction (1) and offset header (4), is 247, rounded down. */
  const CHUNK_SIZE: nat := 246
  const MAX_RTU_ADU: nat := 256

  const ERASE_FAILED: string := "Erasing flash failed"
  const PROGRAM_FAILED: string := "Programming flash failed"
  const VERIFY_FAILED: string := "Verifying flash failed"
  const RESET_FAILED: string := "Resetting device failed"

  datatype State = Idle | EraseFlash | ProgramFlash | VerifyFlash | ResetDevice | Finished

  /** One call of modbusCustomFunction: the subfunction and its payload. */
  datatype Request = Request(sub: CC.Subfunction, payload: seq<byte>)

  /** The progress messages (newMessageAvailable), with their arguments. */
  datatype Message =
    | Erasing | Erased
    | Programming(pos: nat, size: nat) | Programmed(size: nat)
    | Verifying | Verified(checksum: byte)
    | Resetting | ResetDone

  /** The firmware file: its contents, whether opening or reading fails, and
      the error string QFile reports then. */
  datatype Firmware = Firmware(contents: seq<byte>, openFails: bool, readFails: bool, errorText: string)

  /** The loader's fields, and the logs of what it issued and emitted during
      the current load. */
  datatype Session = Session(
    state: State,
    checksum: byte,
    errorStr: string,
    file: Firmware,
    pos: nat,
    requests: seq<Request>,
    finishes: seq<bool>,
    messages: seq<Message>)

  /** A freshly constructed loader (fields as initialised in the header). */
  function Fresh(): Session {
    Session(Idle, 0, "", Firmware([], false, false, ""), 0, [], [], [])
  }

  /** The states in which the first switch reads getResult().front(). */
  predicate ReadsResult(st: State) {
    !st.Idle? && !st.Finished?
  }

  /** QFile::read(buffer, 246) at `pos`: -1 on a read error, otherwise how many
      bytes were copied (0 at end of file). */
  function ReadResult(readFails: bool, size: nat, pos: nat): (r: int)
    ensures r == -1 <==> readFails
    ensures r != -1 ==> 0 <= r <= CHUNK_SIZE && (r == 0 || pos + r <= size)
    ensures !readFails && pos < size ==> r >= 1
    ensures !readFails && pos + CHUNK_SIZE <= size ==> r == CHUNK_SIZE
    ensures !readFails && pos < size < pos + CHUNK_SIZE ==> pos + r == size
  {
    if readFails then -1
    else if pos >= size then 0
    else if size - pos < CHUNK_SIZE then size - pos
    else CHUNK_SIZE
  }

  function Fail(s: Session, text: string): Session {
    s.(errorStr := text, finishes := s.finishes + [false])
  }

  /** The first switch: consume the reply's first value, pick the next state.
      Device-reported failures emit finished(false) and keep the state. */
  function Decide(s: Session, result: seq<word>): Session
    requires ReadsResult(s.state) ==> |result| > 0
  {
    match s.state
    case Idle => s.(errorStr := "", checksum := 0, state := EraseFlash)
    case EraseFlash =>
      if result[0] == 0 then s.(state := ProgramFlash, messages := s.messages + [Erased])
      else Fail(s, ERASE_FAILED)
    case ProgramFlash =>
      if result[0] != 0 then Fail(s, PROGRAM_FAILED)
      else if s.pos >= |s.file.contents| then
        s.(messages := s.messages + [Programmed(|s.file.contents|)], state := VerifyFlash)
      else s
    case VerifyFlash =>
      if s.checksum == result[0] then
        s.(messages := s.messages + [Verified(s.checksum)], state := ResetDevice)
      else Fail(s, VERIFY_FAILED)
    case ResetDevice =>
      if result[0] == 0 then s.(state := Finished, messages := s.messages + [ResetDone])
      else Fail(s, RESET_FAILED)
    case Finished => s
  }

  function Send(s: Session, m: Message, r: Request): Session {
    s.(messages := s.messages + [m], requests := s.requests + [r])
  }

  /** The second switch: issue the one request the (new) state calls for. In
      ProgramFlash this reads the next chunk, adds it into the checksum and
      sends it behind its offset header; a read error reports the file's
      error, and an empty read sends nothing. */
  function Issue(s: Session): Session {
    match s.state
    case Idle => s
    case EraseFlash => Send(s, Erasing, Request(CC.EraseFlash, []))
    case ProgramFlash =>
      var s1 := s.(messages := s.messages + [Programming(s.pos, |s.file.contents|)]);
      var readCount := ReadResult(s.file.readFails, |s.file.contents|, s.pos);
      if readCount == -1 then Fail(s1, s.file.errorText)
      else if readCount == 0 then s1
      else
        var chunk := s.file.contents[s.pos..s.pos + readCount];
        s1.(checksum := (s.checksum + Sum(chunk)) % 0x100,
            requests := s.requests + [Request(CC.ProgramFlash, Le32(s.pos) + chunk)],
            pos := s.pos + readCount)
    case VerifyFlash => Send(s, Verifying, Request(CC.GetChecksumFlash, []))
    case ResetDevice => Send(s, Resetting, Request(CC.ResetDevice, []))
    case Finished => s.(finishes := s.finishes + [true])
  }

  /** One run of executeStateMachine: both switches. */
  function Execute(s: Session, result: seq<word>): Session
    requires ReadsResult(s.state) ==> |result| > 0
  {
    Issue(Decide(s, result))
  }

  /** program(): open the file; on failure report its error, otherwise start
      a new load from Idle at position 0 and run one step. */
  function Load(s: Session, f: Firmware): Session {
    if f.openFails then Fail(s, f.errorText)
    else Execute(s.(file := f, pos := 0, state := Idle, requests := [], finishes := [], messages := []), [])
  }

  /** The slot connected to the client's finished(success) signal. */
  function ClientFinished(s: Session, success: bool, clientError: string, result: seq<word>): Session
    requires success && ReadsResult(s.state) ==> |result| > 0
  {
    if !success then Fail(s, clientError) else Execute(s, result)
  }

  // The checksum loop as written: each byte is a signed char added into a quint8.

  function SignedFold(c: byte, s: seq<byte>): byte {
    if s == [] then c else ToQuint8(SignedFold(c, s[..|s| - 1]) + SignedChar(s[|s| - 1]))
  }

  /** Adding signed chars into a quint8 gives the unsigned sum modulo 256. */
  lemma {:induction false} SignedFoldIsUnsignedSum(c: byte, s: seq<byte>)
    ensures SignedFold(c, s) == (c + Sum(s)) % 0x100
    decreases |s|
  {
    if s != [] {
      var s' := s[..|s| - 1];
      SignedFoldIsUnsignedSum(c, s');
      SignedStep(c + Sum(s'), s[|s| - 1]);
    }
  }

  /** Adding one signed char to a residue is adding its unsigned byte. */
  lemma SignedStep(x: nat, b: byte)
    ensures ToQuint8(x % 0x100 + SignedChar(b)) == (x + b) % 0x100
  {
    assert SignedChar(b) == b as int || SignedChar(b) == b as int - 0x100;
  }

  /** The checksum loop: every byte read is added, as a signed char, into the
      8-bit running checksum. */
  method AccumulateChecksum(checksum: byte, chunk: seq<byte>) returns (r: byte)
    ensures r == SignedFold(checksum, chunk)
    ensures r == (checksum + Sum(chunk)) % 0x100
  {
    r := checksum;
    var i := 0;
    while i < |chunk|
      invariant 0 <= i <= |chunk|
      invariant r == SignedFold(checksum, chunk[..i])
    {
      assert chunk[..i + 1][..i] == chunk[..i];
      r := ToQuint8(r + SignedChar(chunk[i]));
      i := i + 1;
    }
    assert chunk[..i] == chunk;
    SignedFoldIsUnsignedSum(checksum, chunk);
  }

  /** The header loop: lane i of the position's low 32 bits goes to byte i
      of a 4-byte buffer. */
  method OffsetHeader(filePos: nat) returns (header: seq<byte>)
    ensures header == Le32(filePos)
    ensures DecodeLe32(header) == filePos % TWO_TO_32
  {
    var pos := filePos % TWO_TO_32;
    var offsetTemp := new byte[4];
    var i := 0;
    while i < 4
      invariant 0 <= i <= 4
      invariant forall k :: 0 <= k < i ==> offsetTemp[k] == pos / Pow256(k) % 0x100
    {
      offsetTemp[i] := pos / Pow256(i) % 0x100;
      i := i + 1;
    }
    header := offsetTemp[..];
    assert Pow256(0) == 1 && Pow256(1) == 0x100 && Pow256(2) == 0x1_0000 && Pow256(3) == 0x100_0000;
    Le32RoundTrip(filePos);
  }

  class ModbusLoader {
    var state: State
    var checksum: byte
    var errorStr: string
    var file: Firmware
    var pos: nat
    var requests: seq<Request>
    var finishes: seq<bool>
    var messages: seq<Message>

    function Snapshot(): Session
      reads this
    {
      Session(state, checksum, errorStr, file, pos, requests, finishes, messages)
    }

    constructor ()
      ensures Snapshot() == Fresh()
    {
      state, checksum, errorStr := Idle, 0, "";
      file, pos := Firmware([], false, false, ""), 0;
      requests, finishes, messages := [], [], [];
    }

    method Program(f: Firmware)
      modifies this
      ensures Snapshot() == Load(old(Snapshot()), f)
    {
      if f.openFails {
        errorStr := f.errorText;
        finishes := finishes + [false];
        return;
      }
      file, pos := f, 0;
      requests, finishes, messages := [], [], [];
      state := Idle;
      ExecuteStateMachine([]);
    }

    /** The lambda connected to the client's finished signal. */
    method OnClientFinished(success: bool, clientError: string, clientResult: seq<word>)
      requires success && ReadsResult(state) ==> |clientResult| > 0
      modifies this
      ensures Snapshot() == ClientFinished(old(Snapshot()), success, clientError, clientResult)
    {
      if !success {
        errorStr := clientError;
        finishes := finishes + [false];
      } else {
        ExecuteStateMachine(clientResult);
      }
    }

    /** executeStateMachine: the first switch, then the second. */
    method ExecuteStateMachine(result: seq<word>)
      requires ReadsResult(state) ==> |result| > 0
      modifies this
      ensures Snapshot() == Execute(old(Snapshot()), result)
    {
      DecideNext(result);
      IssueRequest();
    }

    /** The first switch of executeStateMachine. */
    method DecideNext(result: seq<word>)
      requires ReadsResult(state) ==> |result| > 0
      modifies this
      ensures Snapshot() == Decide(old(Snapshot()), result)
    {
      match state {
        case Idle =>
          errorStr := "";
          checksum := 0;
          state := EraseFlash;
        case EraseFlash =>
          if result[0] == 0 {
            state := ProgramFlash;
            messages := messages + [Erased];
          } else {
            errorStr := ERASE_FAILED;
            finishes := finishes + [false];
          }
        case ProgramFlash =>
          if result[0] != 0 {
            errorStr := PROGRAM_FAILED;
            finishes := finishes + [false];
          } else if pos >= |file.contents| {
            messages := messages + [Programmed(|file.contents|)];
            state := VerifyFlash;
          }
        case VerifyFlash =>
          if checksum == result[0] {
            messages := messages + [Verified(checksum)];
            state := ResetDevice;
          } else {
            errorStr := VERIFY_FAILED;
            finishes := finishes + [false];
          }
        case ResetDevice =>
          if result[0] == 0 {
            state := Finished;
            messages := messages + [ResetDone];
          } else {
            errorStr := RESET_FAILED;
            finishes := finishes + [false];
          }
        case Finished =>
      }
    }

    /** The ProgramFlash case of the second switch: read the next chunk at
        the current position, add it into the checksum and send it behind
        its offset header. */
    method ProgramNextChunk()
      requires state.ProgramFlash?
      modifies this
      ensures Snapshot() == Issue(old(Snapshot()))
    {
      messages := messages + [Programming(pos, |file.contents|)];
      var offsetTemp := OffsetHeader(pos);
      var readCount := ReadResult(file.readFails, |file.contents|, pos);
      if readCount == -1 {
        errorStr := file.errorText;
        finishes := finishes + [false];
        return;
      } else if readCount == 0 {
        return;
      }
      var firmwareTemp := file.contents[pos..pos + readCount];
      checksum := AccumulateChecksum(checksum, firmwareTemp);
      requests := requests + [Request(CC.ProgramFlash, offsetTemp + firmwareTemp)];
      pos := pos + readCount;
    }

    /** The second switch of executeStateMachine. */
    method IssueRequest()
      modifies this
      ensures Snapshot() == Issue(old(Snapshot()))
    {
      match state {
        case Idle =>
        case EraseFlash =>
          messages := messages + [Erasing];
          requests := requests + [Request(CC.EraseFlash, [])];
        case ProgramFlash =>
          ProgramNextChunk();
        case VerifyFlash =>
          messages := messages + [Verifying];
          requests := requests + [Request(CC.GetChecksumFlash, [])];
        case ResetDevice =>
          messages := messages + [Resetting];
          requests := requests + [Request(CC.ResetDevice, [])];
        case Finished =>
          finishes := finishes + [true];
      }
    }
  }
}
