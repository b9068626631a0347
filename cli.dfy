/** The checks main() makes before a load starts (src/main.cpp): the
    command-line shape, the firmware file name, the parity letter, and the
    validation of the connection settings against the declared values of
    Qt 6's QSerialPort enumerations. */
module Cli {
  import opened Wire

  /** QSerialPort::BaudRate, in declaration order. */
  const BAUD_RATES: seq<int> := [1200, 2400, 4800, 9600, 19200, 38400, 57600, 115200]
  /** QSerialPort::DataBits. */
  const DATA_BITS: seq<int> := [5, 6, 7, 8]
  /** QSerialPort::Parity: NoParity, EvenParity, OddParity, SpaceParity, MarkParity. */
  const PARITIES: seq<int> := [0, 2, 3, 4, 5]
  /** QSerialPort::StopBits: OneStop, OneAndHalfStop, TwoStop. */
  const STOP_BITS: seq<int> := [1, 3, 2]

  const FIRMWARE_SUFFIX: string := ".bin"

  datatype Parity = NoParity | EvenParity | OddParity | SpaceParity | MarkParity

  function ParityValue(p: Parity): int {
    match p
    case NoParity => 0
    case EvenParity => 2
    case OddParity => 3
    case SpaceParity => 4
    case MarkParity => 5
  }

  /** The letter that selects each parity on the command line. */
  function ParityLetter(p: Parity): char {
    match p
    case NoParity => 'N'
    case EvenParity => 'E'
    case OddParity => 'O'
    case SpaceParity => 'S'
    case MarkParity => 'M'
  }

  /** The parity switch: only the first character counts; an unknown letter
      falls back to no parity. */
  function ParityFromOption(option: string): (p: Parity)
    requires |option| > 0
    ensures ParityValue(p) in PARITIES
    ensures ParityLetter(p) == option[0] || (p == NoParity && option[0] !in "EOMS")
  {
    match option[0]
    case 'N' => NoParity
    case 'E' => EvenParity
    case 'O' => OddParity
    case 'M' => MarkParity
    case 'S' => SpaceParity
    case _ => NoParity
  }

  /** Every parity is selected by its letter, whatever follows it. */
  lemma {:induction false} ParityLetterSelects(p: Parity, rest: string)
    ensures ParityFromOption([ParityLetter(p)] + rest) == p
  {
    match p
    case NoParity =>
    case EvenParity =>
    case OddParity =>
    case SpaceParity =>
    case MarkParity =>
  }

  datatype Settings = Settings(
    name: string,
    baudRate: int,
    dataBits: int,
    parity: int,
    stopBits: int,
    serverAddress: int)

  /** validateEnum: scan the declared key values, stopping at the first match. */
  method ValidateEnum(value: int, keys: seq<int>) returns (ok: bool)
    ensures ok <==> value in keys
  {
    var i := 0;
    while i < |keys|
      invariant 0 <= i <= |keys|
      invariant value !in keys[..i]
    {
      if value == keys[i] {
        return true;
      }
      i := i + 1;
    }
    assert keys[..i] == keys;
    return false;
  }

  /** validateClientSettings: every enumerated field is a declared value, the
      port name is given, and the server address is a unicast one (1..255). */
  method ValidateClientSettings(settings: Settings) returns (ok: bool)
    ensures ok <==>
              && settings.baudRate in BAUD_RATES
              && settings.dataBits in DATA_BITS
              && settings.parity in PARITIES
              && settings.stopBits in STOP_BITS
              && |settings.name| > 0
              && 1 <= settings.serverAddress <= 255
    ensures settings.serverAddress == 0 ==> !ok
  {
    ok := ValidateEnum(settings.baudRate, BAUD_RATES);
    if !ok { return; }
    ok := ValidateEnum(settings.dataBits, DATA_BITS);
    if !ok { return; }
    ok := ValidateEnum(settings.parity, PARITIES);
    if !ok { return; }
    ok := ValidateEnum(settings.stopBits, STOP_BITS);
    if !ok { return; }
    if |settings.name| == 0 {
      return false;
    }
    if settings.serverAddress < 1 || settings.serverAddress > 255 {
      return false;
    }
    return true;
  }

  /** QString::endsWith, case-sensitive. The model compares the last
      characters and recurses on what precedes them. */
  function EndsWith(s: string, suffix: string): (r: bool)
    ensures r <==> |suffix| <= |s| && s[|s| - |suffix|..] == suffix
    decreases |suffix|
  {
    if |suffix| == 0 then true
    else if |s| == 0 then false
    else
      s[|s| - 1] == suffix[|suffix| - 1] &&
      EndsWith(s[..|s| - 1], suffix[..|suffix| - 1])
  }

  /** Which options were given, and the positional arguments in order. */
  datatype CommandLine = CommandLine(portSet: bool, addressSet: bool, positional: seq<string>)

  datatype CliError =
    | NoPortName
    | NoServerAddress
    | NoFirmwareFile
    | SeveralFirmwareFiles
    | NotBinFile

  /** The checks main() makes in order, each exiting on failure; success
      yields the one firmware file name. */
  function CheckCommandLine(c: CommandLine): (r: Result<string, CliError>)
    ensures r.Ok? <==>
              c.portSet && c.addressSet && |c.positional| == 1 &&
              |c.positional[0]| >= 4 && c.positional[0][|c.positional[0]| - 4..] == ".bin"
    ensures r.Ok? ==> r.value == c.positional[0]
    ensures !c.portSet ==> r == Err(NoPortName)
    ensures c.portSet && !c.addressSet ==> r == Err(NoServerAddress)
    ensures c.portSet && c.addressSet && |c.positional| > 1 ==> r == Err(SeveralFirmwareFiles)
  {
    if !c.portSet then Err(NoPortName)
    else if !c.addressSet then Err(NoServerAddress)
    else if |c.positional| == 0 then Err(NoFirmwareFile)
    else if |c.positional| > 1 then Err(SeveralFirmwareFiles)
    else if !EndsWith(c.positional[0], FIRMWARE_SUFFIX) then Err(NotBinFile)
    else Ok(c.positional[0])
  }
}
