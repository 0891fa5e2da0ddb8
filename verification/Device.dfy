/** Errors, the device table entry, and the device as the session sees it: a thing that
    accepts or refuses each SET and answers each GET (crates/razer-hid/src/error.rs and
    transport.rs, crates/razer-devices/src). */
module Device {
  import opened Wrappers
  import opened Checksum
  import opened ReportCodec
  import opened Messages

  // ------------------------------------------------------------------ errors

  datatype IoOp = SetFeatureCall | GetFeatureCall | ReadDirectory

  datatype Feature =
    | DeviceModeFeature
    | FirmwareVersionFeature
    | SerialFeature
    | BrightnessFeature
    | StaticEffectFeature
    | PollRateFeature
    | ThisLedId

  datatype HidError =
    | DeviceNotFound(vid: bv16, wanted: bv16, interface: byte)
    | Unsupported(pid: bv16, what: Feature)
    | Io(op: IoOp, errno: int)
    | ShortRead(got: nat)
    | Sysfs(message: string)
    | Proto(error: ProtoError)
    | RetriesExhausted(last: ProtoError)

  /** The device's own last word, when there was one. */
  function TerminalStatus(e: HidError): Option<Status> {
    match e
    case RetriesExhausted(DeviceStatus(status)) => Some(status)
    case Proto(DeviceStatus(status)) => Some(status)
    case _ => None
  }

  predicate IsReceiverIdle(e: HidError) {
    TerminalStatus(e) == Some(Timeout)
  }

  // ------------------------------------------------------------ device table

  type Capabilities = bv32

  const DEVICE_MODE: Capabilities := 1
  const FIRMWARE_VERSION: Capabilities := 2
  const SERIAL: Capabilities := 4
  const BRIGHTNESS: Capabilities := 8
  const STATIC_EFFECT: Capabilities := 16
  const POLL_RATE: Capabilities := 32

  predicate Contains(have: Capabilities, cap: Capabilities) {
    have & cap == cap
  }

  datatype PollRateKind = Legacy | V2

  /** `wait` is in microseconds. */
  datatype DeviceEntry = DeviceEntry(
    pid: bv16,
    transactionId: byte,
    wait: nat,
    capabilities: Capabilities,
    defaultLed: byte,
    pollRateKind: PollRateKind)

  function Require(entry: DeviceEntry, cap: Capabilities, what: Feature): Result<(), HidError> {
    if Contains(entry.capabilities, cap) then Success(()) else Failure(Unsupported(entry.pid, what))
  }

  function DefaultLed(entry: DeviceEntry): Result<LedId, HidError> {
    if entry.defaultLed == 0x00 then Success(Zero)
    else if entry.defaultLed == 0x01 then Success(ScrollWheel)
    else if entry.defaultLed == 0x04 then Success(Logo)
    else if entry.defaultLed == 0x05 then Success(Backlight)
    else Failure(Unsupported(entry.pid, ThisLedId))
  }

  // --------------------------------------------------- transport and history

  const HIDRAW_BUF_LEN := 91

  /** One report-id byte and the 90-byte report. */
  type Buffer = s: seq<byte> | |s| == HIDRAW_BUF_LEN witness seq(HIDRAW_BUF_LEN, _ => 0)

  /** What one GET_REPORT (section 7.2.1 of the USB HID Device Class Definition 1.11)
      yields: a byte count with the buffer it left behind, or an errno. */
  datatype Reply = Data(got: nat, buffer: Buffer) | Fault(errno: int)

  /** Everything the session does to the outside world, in order. */
  datatype Event =
    | Set(frame: Buffer)
    | SetRefused(frame: Buffer, errno: int)
    | Sleep(micros: nat)
    | Get(reply: Reply)

  type Log = seq<Event>

  /** A device: it accepts a SET_REPORT (section 7.2.2) or fails it with an errno, and
      answers a GET_REPORT, each as a function of everything that happened before. Every
      deterministic device, every reply script and every timing-dependent device is one of
      these, and a theorem about all of them is a theorem about any transport. */
  datatype Device = Device(accept: (Log, Buffer) -> Option<int>, reply: Log -> Reply)

  // ------------------------------------------------------------ measurements

  function CountSets(log: Log): nat {
    if log == [] then 0
    else CountSets(log[..|log| - 1]) + if log[|log| - 1].Set? then 1 else 0
  }

  function CountGets(log: Log): nat {
    if log == [] then 0
    else CountGets(log[..|log| - 1]) + if log[|log| - 1].Get? then 1 else 0
  }

  /** Microseconds slept. */
  function TotalSleep(log: Log): nat {
    if log == [] then 0
    else TotalSleep(log[..|log| - 1]) + if log[|log| - 1].Sleep? then log[|log| - 1].micros else 0
  }

  lemma CountOne(log: Log, e: Event)
    ensures CountSets(log + [e]) == CountSets(log) + if e.Set? then 1 else 0
    ensures CountGets(log + [e]) == CountGets(log) + if e.Get? then 1 else 0
    ensures TotalSleep(log + [e]) == TotalSleep(log) + if e.Sleep? then e.micros else 0
  {
    assert (log + [e])[..|log + [e]| - 1] == log;
  }
}
