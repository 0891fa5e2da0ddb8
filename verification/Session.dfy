/** The session over a transport and a clock, in the imperative form of
    crates/razer-hid/src/session.rs. Every method is proved equal to its function in
    `Protocol`. */
module Session {
  import opened Wrappers
  import opened Checksum
  import opened ReportCodec
  import opened Messages
  import opened Device
  import P = Protocol

  /** The history shared by the transport and the clock of one session. */
  class EventLog {
    var events: Log

    constructor ()
      ensures events == []
    {
      events := [];
    }
  }

  class Transport {
    const device: Device
    const log: EventLog

    constructor (device: Device, log: EventLog)
      ensures this.device == device && this.log == log
    {
      this.device, this.log := device, log;
    }

    /** Section 7.2.2 (Set_Report) of the USB HID Device Class Definition 1.11. */
    method SetFeature(buf: array<byte>) returns (r: Result<(), HidError>)
      requires buf.Length == HIDRAW_BUF_LEN
      modifies log
      ensures var refusal := device.accept(old(log.events), buf[..]);
              && r == (if refusal.Some? then Failure(Io(SetFeatureCall, refusal.value)) else Success(()))
              && log.events == old(log.events)
                   + [if refusal.Some? then SetRefused(buf[..], refusal.value) else Set(buf[..])]
    {
      match device.accept(log.events, buf[..])
      case Some(errno) =>
        log.events := log.events + [SetRefused(buf[..], errno)];
        r := Failure(Io(SetFeatureCall, errno));
      case None =>
        log.events := log.events + [Set(buf[..])];
        r := Success(());
    }

    /** Section 7.2.1 (Get_Report): fills `buf` in place and returns the byte count. */
    method GetFeature(buf: array<byte>) returns (r: Result<nat, HidError>)
      requires buf.Length == HIDRAW_BUF_LEN
      modifies log, buf
      ensures var reply := device.reply(old(log.events));
              && log.events == old(log.events) + [Get(reply)]
              && r == (if reply.Data? then Success(reply.got) else Failure(Io(GetFeatureCall, reply.errno)))
              && buf[..] == (if reply.Data? then reply.buffer else old(buf[..]))
    {
      var reply := device.reply(log.events);
      log.events := log.events + [Get(reply)];
      match reply
      case Fault(errno) =>
        r := Failure(Io(GetFeatureCall, errno));
      case Data(got, buffer) =>
        forall i | 0 <= i < HIDRAW_BUF_LEN {
          buf[i] := buffer[i];
        }
        r := Success(got);
    }
  }

  class Clock {
    const log: EventLog

    constructor (log: EventLog)
      ensures this.log == log
    {
      this.log := log;
    }

    method Sleep(micros: nat)
      modifies log
      ensures log.events == old(log.events) + [Event.Sleep(micros)]
    {
      log.events := log.events + [Event.Sleep(micros)];
    }
  }

  /** A typed result as the uniform answer of `Protocol.Perform`. */
  function Lift<T>(r: Result<T, HidError>, f: T -> P.Value): Result<P.Value, HidError> {
    match r
    case Success(v) => Success(f(v))
    case Failure(e) => Failure(e)
  }

  class Session {
    const entry: DeviceEntry
    const transport: Transport
    const clock: Clock
    var transactionId: byte
    var lastAttempts: nat
    var lastResponseTransactionId: Option<byte>

    /** The transport and the clock belong to the same bench. */
    ghost predicate Valid() {
      transport.log == clock.log
    }

    function Config(): P.Config
      reads this
    {
      P.Config(entry, transactionId, transport.device)
    }

    function State(): P.State
      reads this, transport.log
    {
      P.State(transport.log.events, lastAttempts, lastResponseTransactionId)
    }

    /** The transaction id starts as the device table's. */
    constructor (entry: DeviceEntry, transport: Transport, clock: Clock)
      requires transport.log == clock.log
      ensures Valid() && this.entry == entry && this.transport == transport && this.clock == clock
      ensures Config() == P.Config(entry, entry.transactionId, transport.device)
      ensures State() == P.State(transport.log.events, 0, None)
    {
      this.entry, this.transport, this.clock := entry, transport, clock;
      transactionId := entry.transactionId;
      lastAttempts := 0;
      lastResponseTransactionId := None;
    }

    method OverrideTransactionId(tid: byte)
      modifies this`transactionId
      ensures Config() == old(Config()).(tid := tid)
    {
      transactionId := tid;
    }

    method Send(request: Report) returns (r: Result<(), HidError>)
      requires Valid()
      modifies transport.log
      ensures (r, transport.log.events) == P.Send(Config(), old(transport.log.events), request)
    {
      hide Encode, CheckRequest;
      var checked := CheckRequest(request);
      if checked.Failure? {
        return Failure(Proto(checked.error));
      }
      var report := request.(transactionId := transactionId);
      var bytes := ToBytes(report);
      var buf := new byte[HIDRAW_BUF_LEN](_ => 0);
      forall i | 1 <= i < HIDRAW_BUF_LEN {
        buf[i] := bytes[i - 1];
      }
      assert buf[..] == P.Frame(transactionId, request);
      r := transport.SetFeature(buf);
      if r.Success? {
        clock.Sleep(entry.wait);
      }
    }

    method TransactRaw(request: Report) returns (r: Result<Report, HidError>)
      requires Valid()
      modifies transport.log
      ensures (r, transport.log.events) == P.TransactRaw(Config(), old(transport.log.events), request)
    {
      hide P.Send, Decode;
      var sent := Send(request);
      if sent.Failure? {
        return Failure(sent.error);
      }
      var buf := new byte[HIDRAW_BUF_LEN](_ => 0);
      var got := transport.GetFeature(buf);
      if got.Failure? {
        return Failure(got.error);
      }
      if got.value < HIDRAW_BUF_LEN {
        return Failure(ShortRead(got.value));
      }
      assert buf[1..] == buf[..][1..];
      var report := FromBytes(buf[1..]);
      r := Success(report);
    }

    method Transact(request: Report) returns (r: Result<Report, HidError>)
      requires Valid()
      modifies this`lastAttempts, this`lastResponseTransactionId, transport.log
      ensures (r, State()) == P.Transact(Config(), old(State()), request)
    {
      hide P.TransactRaw, CheckResponse;
      var last: Option<ProtoError> := None;
      for attempt := 0 to P.MAX_ATTEMPTS
        invariant P.Retry(Config(), State(), request, attempt, last) == P.Transact(Config(), old(State()), request)
      {
        if attempt > 0 {
          clock.Sleep(P.RETRY_DELAY);
        }
        lastAttempts := attempt + 1;
        var response := TransactRaw(request);
        if response.Failure? {
          return Failure(response.error);
        }
        lastResponseTransactionId := Some(response.value.transactionId);
        var checked := CheckResponse(request, response.value);
        if checked.Success? {
          return response;
        }
        last := Some(checked.error);
      }
      r := Failure(RetriesExhausted(last.GetOr(Malformed(NoValidatedResponse))));
    }

    // ------------------------------------------------------ typed operations

    method SetDeviceMode(mode: DeviceMode) returns (r: Result<(), HidError>)
      requires Valid()
      modifies this`lastAttempts, this`lastResponseTransactionId, transport.log
      ensures (Lift(r, _ => P.Done), State()) == P.Perform(Config(), old(State()), P.SetDeviceMode(mode))
    {
      hide P.Transact;
      var _ :- Require(entry, DEVICE_MODE, DeviceModeFeature);
      var _ :- Transact(SetDeviceModeCommand(mode));
      r := Success(());
    }

    method GetDeviceMode() returns (r: Result<(byte, byte), HidError>)
      requires Valid()
      modifies this`lastAttempts, this`lastResponseTransactionId, transport.log
      ensures (Lift(r, (p: (byte, byte)) => P.Pair(p.0, p.1)), State())
           == P.Perform(Config(), old(State()), P.GetDeviceMode)
    {
      hide P.Transact;
      var _ :- Require(entry, DEVICE_MODE, DeviceModeFeature);
      var response :- Transact(GetDeviceModeCommand());
      r := Success(ReadPair(response));
    }

    method FirmwareVersion() returns (r: Result<(byte, byte), HidError>)
      requires Valid()
      modifies this`lastAttempts, this`lastResponseTransactionId, transport.log
      ensures (Lift(r, (p: (byte, byte)) => P.Pair(p.0, p.1)), State())
           == P.Perform(Config(), old(State()), P.FirmwareVersion)
    {
      hide P.Transact;
      var _ :- Require(entry, FIRMWARE_VERSION, FirmwareVersionFeature);
      var response :- Transact(GetFirmwareVersionCommand());
      r := Success(ReadPair(response));
    }

    method Serial() returns (r: Result<seq<byte>, HidError>)
      requires Valid()
      modifies this`lastAttempts, this`lastResponseTransactionId, transport.log
      ensures (Lift(r, (t: seq<byte>) => P.Text(t)), State()) == P.Perform(Config(), old(State()), P.Serial)
    {
      hide P.Transact, ReadSerial;
      var _ :- Require(entry, SERIAL, SerialFeature);
      var response :- Transact(GetSerialCommand());
      match ReadSerial(response)
      case Success(text) => r := Success(text);
      case Failure(e) => r := Failure(Proto(e));
    }

    method SetBrightness(level: byte) returns (r: Result<(), HidError>)
      requires Valid()
      modifies this`lastAttempts, this`lastResponseTransactionId, transport.log
      ensures (Lift(r, _ => P.Done), State()) == P.Perform(Config(), old(State()), P.SetBrightness(level))
    {
      hide P.Transact;
      var _ :- Require(entry, BRIGHTNESS, BrightnessFeature);
      var led :- DefaultLed(entry);
      var _ :- Transact(SetBrightnessCommand(led, level));
      r := Success(());
    }

    method GetBrightness() returns (r: Result<byte, HidError>)
      requires Valid()
      modifies this`lastAttempts, this`lastResponseTransactionId, transport.log
      ensures (Lift(r, b => P.Level(b)), State()) == P.Perform(Config(), old(State()), P.GetBrightness)
    {
      hide P.Transact;
      var _ :- Require(entry, BRIGHTNESS, BrightnessFeature);
      var led :- DefaultLed(entry);
      var response :- Transact(GetBrightnessCommand(led));
      r := Success(ReadBrightness(response));
    }

    method SetStaticEffect(rgb: Rgb) returns (r: Result<(), HidError>)
      requires Valid()
      modifies this`lastAttempts, this`lastResponseTransactionId, transport.log
      ensures (Lift(r, _ => P.Done), State()) == P.Perform(Config(), old(State()), P.SetStaticEffect(rgb))
    {
      hide P.Transact;
      var _ :- Require(entry, STATIC_EFFECT, StaticEffectFeature);
      var led :- DefaultLed(entry);
      var _ :- Transact(SetStaticEffectCommand(led, rgb));
      r := Success(());
    }

    method SetPollRate(rate: PollRate) returns (r: Result<(), HidError>)
      requires Valid()
      modifies this`lastAttempts, this`lastResponseTransactionId, transport.log
      ensures (Lift(r, _ => P.Done), State()) == P.Perform(Config(), old(State()), P.SetPollRate(rate))
    {
      hide P.Transact;
      var _ :- Require(entry, POLL_RATE, PollRateFeature);
      var request;
      match entry.pollRateKind {
        case V2 =>
          request := SetPollRateV2Command(rate, 0x00);
        case Legacy =>
          var legacy := SetPollRateLegacyCommand(rate);
          if legacy.Failure? {
            return Failure(Proto(legacy.error));
          }
          request := legacy.value;
      }
      var _ :- Transact(request);
      r := Success(());
    }

    method GetPollRate() returns (r: Result<PollRate, HidError>)
      requires Valid()
      modifies this`lastAttempts, this`lastResponseTransactionId, transport.log
      ensures (Lift(r, p => P.Rate(p)), State()) == P.Perform(Config(), old(State()), P.GetPollRate)
    {
      hide P.Transact;
      var _ :- Require(entry, POLL_RATE, PollRateFeature);
      var rate;
      match entry.pollRateKind {
        case V2 =>
          var response :- Transact(GetPollRateV2Command());
          rate := ReadPollRateV2(response);
        case Legacy =>
          var response :- Transact(GetPollRateLegacyCommand());
          rate := ReadPollRateLegacy(response);
      }
      match rate
      case Success(p) => r := Success(p);
      case Failure(e) => r := Failure(Proto(e));
    }
  }
}
