/** The vendor function-code PDU used by the loader (src/modbuscustomclient.cpp):
    a one-byte subfunction tag prepended to the payload under function code
    0x6c, the decoding of the device's echo, and the classification of how a
    reply finished. */
module CustomClient {
  import opened Wire

  /** The four subfunctions, with tags 0..3 in declaration order. */
  datatype Subfunction = EraseFlash | ProgramFlash | GetChecksumFlash | ResetDevice

  /** 0x6c lies in the user-defined range 100..110 of section 5 of the
      Modbus Application Protocol Specification V1.1b3. */
  const CUSTOM_FUNCTION_CODE: int := 0x6c

  /** An exception response sets the top bit of the function code
      (section 7 of the same specification). */
  const EXCEPTION_BIT: int := 0x80

  const EXCEPTION_CODE_LABEL: string := " Exception code: 0x"
  const BROADCAST_NOT_SUPPORTED: string := "Broadcast is not supported"

  predicate IsUserDefinedFunctionCode(fc: int) {
    65 <= fc <= 72 || 100 <= fc <= 110
  }

  function Tag(sub: Subfunction): byte {
    match sub
    case EraseFlash => 0
    case ProgramFlash => 1
    case GetChecksumFlash => 2
    case ResetDevice => 3
  }

  /** Reading an echoed first byte as a subfunction; only the four declared
      tags name one. */
  function SubfunctionOf(b: byte): (r: Option<Subfunction>)
    ensures r.Some? <==> b < 4
    ensures r.Some? ==> Tag(r.value) == b
  {
    if b == 0 then Some(EraseFlash)
    else if b == 1 then Some(ProgramFlash)
    else if b == 2 then Some(GetChecksumFlash)
    else if b == 3 then Some(ResetDevice)
    else None
  }

  lemma TagRoundTrip(sub: Subfunction)
    ensures SubfunctionOf(Tag(sub)) == Some(sub)
  {
  }

  datatype Pdu = Pdu(functionCode: int, data: seq<byte>)

  /** The request built by modbusCustomFunction: the tag, then the payload
      untouched, under the vendor function code. */
  function EncodeRequest(sub: Subfunction, payload: seq<byte>): (p: Pdu)
    ensures IsUserDefinedFunctionCode(p.functionCode)
    ensures p.functionCode + EXCEPTION_BIT < 0x100
    ensures |p.data| == |payload| + 1
    ensures SubfunctionOf(p.data[0]) == Some(sub)
    ensures p.data[1..] == payload
  {
    Pdu(CUSTOM_FUNCTION_CODE, [Tag(sub)] + payload)
  }

  /** One decoded reply value, tagged with the subfunction the device echoed. */
  datatype Reply = Reply(sub: Subfunction, value: word)

  /** Q_ASSERT(dataSize == 2) in every recognised case. */
  predicate WellSized(data: seq<byte>) {
    |data| >= 1 && data[0] < 4 ==> |data| == 2
  }

  /** processPrivateResponse: the response data (after the function code) is
      decoded into at most one register value. Erase and Program cast the
      char straight to quint16; GetChecksum and Reset go through quint8
      first. The model takes char to be signed, as on x86 targets; where it
      is unsigned, Erase and Program give the byte itself, so only the
      0xFF80 clause depends on it. */
  function DecodeResponse(data: seq<byte>): (r: Option<Reply>)
    requires WellSized(data)
    ensures r.None? <==> |data| < 1 || data[0] >= 4
    ensures r.Some? ==> SubfunctionOf(data[0]) == Some(r.value.sub)
    ensures r.Some? ==> (r.value.value != 0 <==> data[1] != 0)
    ensures r.Some? ==> r.value.value % 0x100 == data[1]
    ensures r.Some? && (r.value.sub == GetChecksumFlash || r.value.sub == ResetDevice) ==>
              r.value.value == data[1]
    ensures r.Some? && (r.value.sub == EraseFlash || r.value.sub == ProgramFlash) ==>
              (r.value.value >= 0xFF80 <==> data[1] >= 0x80)
  {
    if |data| < 1 then None
    else
      match SubfunctionOf(data[0])
      case None => None
      case Some(sub) =>
        match sub
        case EraseFlash => Some(Reply(sub, ToQuint16(SignedChar(data[1]))))
        case ProgramFlash => Some(Reply(sub, ToQuint16(SignedChar(data[1]))))
        case GetChecksumFlash => Some(Reply(sub, ToQuint8(SignedChar(data[1]))))
        case ResetDevice => Some(Reply(sub, ToQuint8(SignedChar(data[1]))))
  }

  /** A device that echoes the first byte of the request it received is
      decoded as the subfunction that was encoded. */
  lemma EchoRoundTrip(sub: Subfunction, payload: seq<byte>, status: byte)
    ensures var req := EncodeRequest(sub, payload);
            var r := DecodeResponse([req.data[0], status]);
            r.Some? && r.value.sub == sub
  {
  }

  // Lower-case hexadecimal, as QString::arg(n, -1, 16) writes it.

  const HEX_DIGITS: string := "0123456789abcdef"

  predicate IsHexDigit(c: char) {
    '0' <= c <= '9' || 'a' <= c <= 'f'
  }

  function DigitValue(c: char): (d: nat)
    requires IsHexDigit(c)
    ensures d < 16 && HEX_DIGITS[d] == c
  {
    if c <= '9' then (c - '0') as nat else (c - 'a') as nat + 10
  }

  /** The hexadecimal text of n, without leading zeros. */
  function Hex(n: nat): (s: string)
    ensures |s| >= 1
    ensures forall i :: 0 <= i < |s| ==> IsHexDigit(s[i])
    ensures s[0] == '0' ==> n == 0
    decreases n
  {
    if n < 16 then [HEX_DIGITS[n]] else Hex(n / 16) + [HEX_DIGITS[n % 16]]
  }

  function ParseHex(s: string): nat
    requires forall i :: 0 <= i < |s| ==> IsHexDigit(s[i])
  {
    if s == [] then 0 else 16 * ParseHex(s[..|s| - 1]) + DigitValue(s[|s| - 1])
  }

  /** Each digit reads back as its own value. */
  lemma DigitRoundTrip(d: nat)
    requires d < 16
    ensures IsHexDigit(HEX_DIGITS[d]) && DigitValue(HEX_DIGITS[d]) == d
  {
  }

  lemma {:induction false} HexRoundTrip(n: nat)
    ensures ParseHex(Hex(n)) == n
    decreases n
  {
    var s := Hex(n);
    DigitRoundTrip(n % 16);
    if n < 16 {
      assert s[..0] == [];
    } else {
      HexRoundTrip(n / 16);
      assert s[..|s| - 1] == Hex(n / 16);
      assert s[|s| - 1] == HEX_DIGITS[n % 16];
    }
  }

  /** The exception text: the reply's own text, the label, then hex digits
      that read back as the exception code. */
  lemma ExceptionTextParses(text: string, code: byte)
    ensures var msg, k := text + EXCEPTION_CODE_LABEL + Hex(code), |text| + |EXCEPTION_CODE_LABEL|;
            && |msg| > k
            && msg[..|text|] == text
            && msg[|text|..k] == EXCEPTION_CODE_LABEL
            && msg[k..] == Hex(code)
            && (forall i :: k <= i < |msg| ==> IsHexDigit(msg[i]))
            && ParseHex(msg[k..]) == code
  {
    var msg, k := text + EXCEPTION_CODE_LABEL + Hex(code), |text| + |EXCEPTION_CODE_LABEL|;
    assert msg[k..] == Hex(code);
    HexRoundTrip(code);
  }

  /** How a pending reply finished, as QModbusReply reports it. */
  datatype ReplyStatus =
    | NoError(values: seq<word>)
    | ProtocolError(errorText: string, exceptionCode: byte)
    | OtherError(errorText: string)

  datatype Completion = Succeeded(values: seq<word>) | Failed(errorText: string)

  /** The reply-finished handler of modbusCustomFunction: success carries the
      result values; a protocol error appends the device's exception code in
      hexadecimal to the reply's text; any other error keeps the text. */
  function Classify(status: ReplyStatus): (c: Completion)
    ensures c.Succeeded? <==> status.NoError?
    ensures status.NoError? ==> c.values == status.values
    ensures status.OtherError? ==> c.errorText == status.errorText
    ensures status.ProtocolError? ==>
              var t, k := status.errorText, |status.errorText| + |EXCEPTION_CODE_LABEL|;
              && |c.errorText| > k
              && c.errorText[..|t|] == t
              && c.errorText[|t|..k] == EXCEPTION_CODE_LABEL
              && (forall i :: k <= i < |c.errorText| ==> IsHexDigit(c.errorText[i]))
              && ParseHex(c.errorText[k..]) == status.exceptionCode
  {
    match status
    case NoError(values) => Succeeded(values)
    case ProtocolError(text, code) =>
      ExceptionTextParses(text, code);
      Failed(text + EXCEPTION_CODE_LABEL + Hex(code))
    case OtherError(text) => Failed(text)
  }

  /** What sendRawRequest handed back: a reply still pending, a reply that is
      already finished (a broadcast), or no reply at all (with the device's
      error string). */
  datatype Dispatch = Pending | AlreadyFinished | NoReply(deviceError: string)

  /** One emission of finished(success), with the error string a directly
      connected slot reads from getErrorString() at that moment. */
  datatype Emission = Emission(success: bool, errorSeen: string)

  class ModbusCustomClient {
    var errorStr: string
    var result: seq<word>
    /** Every PDU handed to the transport, oldest first. */
    var submitted: seq<Pdu>
    /** Every finished(success) emitted, oldest first. */
    var emitted: seq<Emission>

    constructor ()
      ensures errorStr == [] && result == [] && submitted == [] && emitted == []
    {
      errorStr, result, submitted, emitted := [], [], [], [];
    }

    /** modbusCustomFunction: prepend the tag, submit the request, and report
        at once when no pending reply came back. A broadcast emits
        finished(false) before it sets its error text, so the emission still
        carries the previous text. */
    method CustomFunction(sub: Subfunction, data: seq<byte>, dispatch: Dispatch)
      modifies this
      ensures submitted == old(submitted) + [EncodeRequest(sub, data)]
      ensures result == old(result)
      ensures dispatch.Pending? ==> errorStr == old(errorStr) && emitted == old(emitted)
      ensures dispatch.AlreadyFinished? ==>
                && emitted == old(emitted) + [Emission(false, old(errorStr))]
                && errorStr == BROADCAST_NOT_SUPPORTED
      ensures dispatch.NoReply? ==>
                && errorStr == dispatch.deviceError
                && emitted == old(emitted) + [Emission(false, dispatch.deviceError)]
    {
      submitted := submitted + [EncodeRequest(sub, data)];
      match dispatch
      case Pending =>
      case AlreadyFinished =>
        emitted := emitted + [Emission(false, errorStr)];
        errorStr := BROADCAST_NOT_SUPPORTED;
      case NoReply(deviceError) =>
        errorStr := deviceError;
        emitted := emitted + [Emission(false, errorStr)];
    }

    /** The slot run when a pending reply finishes. */
    method ReplyFinished(status: ReplyStatus)
      modifies this
      ensures submitted == old(submitted)
      ensures status.NoError? ==>
                && result == status.values
                && errorStr == old(errorStr)
                && emitted == old(emitted) + [Emission(true, old(errorStr))]
      ensures !status.NoError? ==>
                && result == old(result)
                && errorStr == Classify(status).errorText
                && emitted == old(emitted) + [Emission(false, errorStr)]
    {
      match Classify(status)
      case Succeeded(values) =>
        result := values;
        emitted := emitted + [Emission(true, errorStr)];
      case Failed(text) =>
        errorStr := text;
        emitted := emitted + [Emission(false, errorStr)];
    }
  }
}
