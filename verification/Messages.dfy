/** Command constructors, response checks and payload readers
    (crates/razer-proto/src/cmd.rs, parse.rs and the value types of report.rs). */
module Messages {
  import opened Wrappers
  import opened Sequences
  import opened Checksum
  import opened ReportCodec

  datatype Reason =
    | ProtocolTypeNotZero
    | ReservedNotZero
    | NoValidatedResponse
    | SerialNotAscii
    | NoLegacyEncoding
    | UnknownLegacyCode
    | UnknownV2Code

  /** A mismatch is one constructor per routing field, each value in that field's own width. */
  datatype ProtoError =
    | DataSizeTooLarge(size: byte)
    | PacketsMismatch(expectedPackets: bv16, gotPackets: bv16)
    | ClassMismatch(expected: byte, got: byte)
    | IdMismatch(expected: byte, got: byte)
    | DeviceStatus(status: Status)
    | Malformed(reason: Reason)

  // ------------------------------------------------------------- value types

  datatype DeviceMode = Normal | Driver

  function ModeByte(m: DeviceMode): byte {
    match m
    case Normal => 0x00
    case Driver => 0x03
  }

  datatype Rgb = Rgb(r: byte, g: byte, b: byte)

  datatype LedId = Zero | ScrollWheel | Logo | Backlight

  function LedByte(led: LedId): byte {
    match led
    case Zero => 0x00
    case ScrollWheel => 0x01
    case Logo => 0x04
    case Backlight => 0x05
  }

  /** `Storage::VarStore`, the only storage the session asks for. */
  const VAR_STORE: byte := 0x01

  datatype PollRate = Hz125 | Hz250 | Hz500 | Hz1000 | Hz2000 | Hz4000 | Hz8000

  function LegacyCode(rate: PollRate): Option<byte> {
    match rate
    case Hz1000 => Some(0x01)
    case Hz500 => Some(0x02)
    case Hz125 => Some(0x08)
    case _ => None
  }

  function FromLegacyCode(code: byte): Option<PollRate> {
    if code == 0x01 then Some(Hz1000)
    else if code == 0x02 then Some(Hz500)
    else if code == 0x08 then Some(Hz125)
    else None
  }

  function V2Code(rate: PollRate): byte {
    match rate
    case Hz8000 => 0x01
    case Hz4000 => 0x02
    case Hz2000 => 0x04
    case Hz1000 => 0x08
    case Hz500 => 0x10
    case Hz250 => 0x20
    case Hz125 => 0x40
  }

  function FromV2Code(code: byte): Option<PollRate> {
    if code == 0x01 then Some(Hz8000)
    else if code == 0x02 then Some(Hz4000)
    else if code == 0x04 then Some(Hz2000)
    else if code == 0x08 then Some(Hz1000)
    else if code == 0x10 then Some(Hz500)
    else if code == 0x20 then Some(Hz250)
    else if code == 0x40 then Some(Hz125)
    else None
  }

  // ---------------------------------------------------------------- commands

  /** A zeroed argument array with `prefix` at the front. */
  function Padded(prefix: seq<byte>): Args
    requires |prefix| <= ARGS_LEN
  {
    prefix + NoArgs()[|prefix|..]
  }

  function Command(commandClass: byte, commandId: byte, dataSize: byte, args: seq<byte>): Report
    requires |args| <= ARGS_LEN
  {
    Blank(commandClass, commandId, dataSize).(arguments := Padded(args))
  }

  function SetDeviceModeCommand(mode: DeviceMode): Report {
    Command(0x00, 0x04, 0x02, [ModeByte(mode), 0x00])
  }

  function GetDeviceModeCommand(): Report {
    Command(0x00, 0x84, 0x02, [])
  }

  function GetFirmwareVersionCommand(): Report {
    Command(0x00, 0x81, 0x02, [])
  }

  function GetSerialCommand(): Report {
    Command(0x00, 0x82, 0x16, [])
  }

  function SetBrightnessCommand(led: LedId, level: byte): Report {
    Command(0x0F, 0x04, 0x03, [VAR_STORE, LedByte(led), level])
  }

  function GetBrightnessCommand(led: LedId): Report {
    Command(0x0F, 0x84, 0x03, [VAR_STORE, LedByte(led)])
  }

  function SetStaticEffectCommand(led: LedId, rgb: Rgb): Report {
    Command(0x0F, 0x02, 0x09, [VAR_STORE, LedByte(led), 0x01, 0x00, 0x00, 0x01, rgb.r, rgb.g, rgb.b])
  }

  function SetPollRateLegacyCommand(rate: PollRate): Result<Report, ProtoError> {
    match LegacyCode(rate)
    case Some(code) => Success(Command(0x00, 0x05, 0x01, [code]))
    case None => Failure(Malformed(NoLegacyEncoding))
  }

  function GetPollRateLegacyCommand(): Report {
    Command(0x00, 0x85, 0x01, [])
  }

  function SetPollRateV2Command(rate: PollRate, argument: byte): Report {
    Command(0x00, 0x40, 0x02, [argument, V2Code(rate)])
  }

  function GetPollRateV2Command(): Report {
    Command(0x00, 0xC0, 0x01, [])
  }

  // ------------------------------------------------------------------ checks

  /** What must hold before anything is put on the wire. */
  function CheckRequest(request: Report): Result<(), ProtoError> {
    if request.dataSize > 80 then Failure(DataSizeTooLarge(request.dataSize))
    else if request.protocolType != 0 then Failure(Malformed(ProtocolTypeNotZero))
    else if request.reserved != 0 then Failure(Malformed(ReservedNotZero))
    else Success(())
  }

  function CheckResponse(request: Report, response: Report): Result<(), ProtoError> {
    if request.dataSize > 80 then Failure(DataSizeTooLarge(request.dataSize))
    else if response.dataSize > 80 then Failure(DataSizeTooLarge(response.dataSize))
    else if response.remainingPackets != request.remainingPackets then
      Failure(PacketsMismatch(request.remainingPackets, response.remainingPackets))
    else if response.commandClass != request.commandClass then
      Failure(ClassMismatch(request.commandClass, response.commandClass))
    else if response.commandId != request.commandId then
      Failure(IdMismatch(request.commandId, response.commandId))
    else if Accepted(response.status) then Success(())
    else Failure(DeviceStatus(response.status))
  }

  /** The response answers this request: its routing fields echo and its size is sane. */
  predicate Echoes(request: Report, response: Report) {
    && request.dataSize <= 80 && response.dataSize <= 80
    && response.remainingPackets == request.remainingPackets
    && response.commandClass == request.commandClass
    && response.commandId == request.commandId
  }

  /** The acceptance test, both ways: a device status is reported only by an echoing
      response, acceptance needs a good status on top, and nothing else is consulted. */
  lemma CheckResponseCharacterised(request: Report, response: Report)
    ensures CheckResponse(request, response).Success? <==> Echoes(request, response) && Accepted(response.status)
    ensures forall s :: CheckResponse(request, response) == Failure(DeviceStatus(s)) <==>
              Echoes(request, response) && s == response.status && !Accepted(s)
    ensures CheckResponse(request, response).Failure? ==> !CheckResponse(request, response).error.Malformed?
  {
  }

  // ----------------------------------------------------------------- readers

  const SERIAL_LEN := 22

  predicate IsAscii(s: seq<byte>) {
    forall i :: 0 <= i < |s| ==> s[i] < 0x80
  }

  /** White space among the ASCII characters: tab, LF, VT, FF, CR and space. */
  predicate IsSpace(b: byte) {
    0x09 <= b <= 0x0D || b == 0x20
  }

  function TrimEnd(s: seq<byte>): seq<byte> {
    if s != [] && IsSpace(s[|s| - 1]) then TrimEnd(s[..|s| - 1]) else s
  }

  /** The serial as ASCII bytes. */
  function ReadSerial(response: Report): Result<seq<byte>, ProtoError> {
    var raw := response.arguments[..SERIAL_LEN];
    IndexOfBound(raw, 0);
    var trimmed := raw[..IndexOf(raw, 0)];
    if IsAscii(trimmed) then Success(TrimEnd(trimmed)) else Failure(Malformed(SerialNotAscii))
  }

  function ReadPair(response: Report): (byte, byte) {
    (response.arguments[0], response.arguments[1])
  }

  function ReadBrightness(response: Report): byte {
    response.arguments[2]
  }

  function ReadPollRateLegacy(response: Report): Result<PollRate, ProtoError> {
    match FromLegacyCode(response.arguments[0])
    case Some(rate) => Success(rate)
    case None => Failure(Malformed(UnknownLegacyCode))
  }

  function ReadPollRateV2(response: Report): Result<PollRate, ProtoError> {
    match FromV2Code(response.arguments[1])
    case Some(rate) => Success(rate)
    case None => Failure(Malformed(UnknownV2Code))
  }

  // ------------------------------------------------------------- serial laws

  /** Text a device can hold in the field and hand back unchanged. */
  predicate SerialText(t: seq<byte>) {
    && |t| <= SERIAL_LEN && IsAscii(t)
    && (forall i :: 0 <= i < |t| ==> t[i] != 0)
    && (t != [] ==> !IsSpace(t[|t| - 1]))
  }

  lemma {:induction false} TrimEndCharacterised(s: seq<byte>)
    ensures |TrimEnd(s)| <= |s| && TrimEnd(s) == s[..|TrimEnd(s)|]
    ensures TrimEnd(s) != [] ==> !IsSpace(TrimEnd(s)[|TrimEnd(s)| - 1])
    ensures forall i :: |TrimEnd(s)| <= i < |s| ==> IsSpace(s[i])
  {
    if s != [] && IsSpace(s[|s| - 1]) {
      TrimEndCharacterised(s[..|s| - 1]);
    }
  }

  /** Every serial read is text of the documented shape and a prefix of the field; the
      read fails exactly when a non-ASCII byte stands before the first NUL. */
  lemma SerialCharacterised(response: Report)
    ensures var r := ReadSerial(response);
            r.Success? ==> SerialText(r.value) && r.value == response.arguments[..|r.value|]
    ensures ReadSerial(response).Failure? <==>
            exists i :: 0 <= i < SERIAL_LEN && response.arguments[i] >= 0x80
                        && forall j :: 0 <= j < i ==> response.arguments[j] != 0
  {
    var raw := response.arguments[..SERIAL_LEN];
    var end := IndexOf(raw, 0);
    IndexOfBound(raw, 0);
    TrimEndCharacterised(raw[..end]);
    if i :| 0 <= i < SERIAL_LEN && response.arguments[i] >= 0x80
            && forall j :: 0 <= j < i ==> response.arguments[j] != 0 {
      assert forall j :: 0 <= j < i ==> raw[j] == response.arguments[j];
      assert i < end;
      assert raw[..end][i] >= 0x80;
    }
    if !IsAscii(raw[..end]) {
      var i :| 0 <= i < end && !(raw[..end][i] < 0x80);
      assert response.arguments[i] >= 0x80;
      assert forall j :: 0 <= j < i ==> response.arguments[j] == raw[j] != 0;
    }
  }

  /** Where the text of a successful read ends: nothing but white space stands between it and
      the field's end or first NUL. */
  lemma SerialEnd(response: Report) returns (end: nat)
    requires ReadSerial(response).Success?
    ensures var n := |ReadSerial(response).value|;
            n <= end <= SERIAL_LEN && forall i :: n <= i < end ==> IsSpace(response.arguments[i])
    ensures end < SERIAL_LEN ==> response.arguments[end] == 0
  {
    var raw := response.arguments[..SERIAL_LEN];
    end := IndexOf(raw, 0);
    IndexOfBound(raw, 0);
    TrimEndCharacterised(raw[..end]);
  }

  /** NUL-padding any serial text into the field and reading it back, through the wire
      form, returns the text; whatever follows byte 22 is ignored. */
  lemma SerialInvertsPadding(response: Report, text: seq<byte>, tail: seq<byte>)
    requires SerialText(text) && |tail| == ARGS_LEN - SERIAL_LEN
    requires response.arguments == Padded(text)[..SERIAL_LEN] + tail
    ensures ReadSerial(Decode(Encode(response))) == Success(text)
  {
    DecodeEncode(response);
    var raw := response.arguments[..SERIAL_LEN];
    IndexOfBound(raw, 0);
    assert raw[..|text|] == text;
    assert forall i :: 0 <= i < |text| ==> raw[i] == text[i] != 0;
    assert |text| < SERIAL_LEN ==> raw[|text|] == 0;
    assert IndexOf(raw, 0) == |text|;
    assert raw[..IndexOf(raw, 0)] == text;
  }
}
