/** Which expositions a reader of the format gets back whole: those in which no text shown holds
    a carriage return, since the escaper writes one as an escape the format does not define. */
module Legibility {
  import opened Wrappers
  import opened Sequences
  import opened Labels
  import opened Metrics
  import opened SampleFormat
  import opened Rendering
  import opened Exposition

  predicate Clean(s: string) {
    '\r' !in s
  }

  predicate CleanDevice(l: DeviceLabels) {
    Clean(l.device) && Clean(l.pid)
  }

  predicate CleanKey(k: Key) {
    CleanDevice(k.0) && Clean(k.1)
  }

  predicate CleanOption(v: Option<string>) {
    v.Some? ==> Clean(v.value)
  }

  /** The shown texts of a device hold no carriage return. */
  predicate CleanState(o: Options, s: DeviceState) {
    CleanOption(s.firmware) && CleanOption(s.kernelDriver) && (o.exposeSerial ==> CleanOption(s.serial))
  }

  /** No text the registry would show as a label value holds a carriage return. */
  ghost predicate NoCarriageReturns(r: Registry, o: Options) {
    && Clean(o.version)
    && (forall l :: l in r.devices ==> CleanDevice(l) && CleanState(o, r.devices[l]))
    && (forall k :: k in r.transactions ==> CleanKey(k)) && (forall k :: k in r.attempts ==> CleanKey(k))
    && (forall k :: k in r.errors ==> CleanKey(k)) && (forall k :: k in r.latency ==> CleanKey(k))
  }

  ghost predicate AllFree(items: seq<Item>) {
    forall item :: item in items ==> CarriageFree(item)
  }

  lemma {:induction false} EachFree<K(!new)>(keys: seq<K>, f: K -> seq<Item>)
    ensures AllFree(Each(keys, f)) <==> forall k :: k in keys ==> AllFree(f(k))
    decreases |keys|
  {
    hide CarriageFree;
    if keys != [] {
      var most, last := keys[..|keys| - 1], keys[|keys| - 1];
      EachFree(most, f);
      assert AllFree(Each(most, f) + f(last)) <==> AllFree(Each(most, f)) && AllFree(f(last)) by {
        FreeConcat(Each(most, f), f(last));
      }
      assert forall k :: k in keys <==> k in most || k == last;
    }
  }

  lemma FreeConcat(a: seq<Item>, b: seq<Item>)
    ensures AllFree(a + b) <==> AllFree(a) && AllFree(b)
  {
    hide CarriageFree;
    assert forall item :: item in a + b <==> item in a || item in b;
  }

  lemma SingleFree(m: Metric, ls: seq<Label>, value: string)
    ensures AllFree(Single(m, ls, value)) <==> forall i :: 0 <= i < |ls| ==> Clean(ls[i].value)
  {
    assert Single(m, ls, value)[0] in Single(m, ls, value);
  }

  lemma InfoLabelsFree(o: Options, l: DeviceLabels, s: DeviceState)
    ensures (forall i :: 0 <= i < |InfoLabels(o, l, s)| ==> Clean(InfoLabels(o, l, s)[i].value)) <==>
            CleanDevice(l) && CleanOption(s.firmware) && (o.exposeSerial ==> CleanOption(s.serial))
  {
    hide Clean;
    var ls := InfoLabels(o, l, s);
    if s.transactionId.Some? {
      HexByteIsPlain(s.transactionId.value);
      PlainIsClean(HexByte(s.transactionId.value));
    }
    assert ls[0].value == l.device && ls[1].value == l.pid;
    if s.firmware.Some? {
      assert ls[2].value == s.firmware.value;
    }
    if o.exposeSerial && s.serial.Some? {
      assert ls[|ls| - 1].value == s.serial.value;
    }
  }

  lemma PlainIsClean(s: string)
    requires Plain(s)
    ensures Clean(s)
  {
  }

  /** What one device must hold for its lines in a family to be free of carriage returns. */
  predicate DeviceFree(o: Options, m: Metric, l: DeviceLabels, s: DeviceState) {
    match m
    case DeviceInfo => CleanDevice(l) && CleanOption(s.firmware) && (o.exposeSerial ==> CleanOption(s.serial))
    case Present => CleanDevice(l)
    case UsbDevnum => s.usbDevnum.Some? ==> CleanDevice(l)
    case KernelDriver => s.kernelDriver.Some? ==> CleanDevice(l) && CleanOption(s.kernelDriver)
    case Mode => s.deviceMode.Some? ==> CleanDevice(l)
    case PollRateHz => s.pollRateHz.Some? ==> CleanDevice(l)
    case BrightnessRatio => s.brightness.Some? ==> CleanDevice(l)
    case _ => true
  }

  lemma DeviceItemsFree(o: Options, m: Metric, l: DeviceLabels, s: DeviceState)
    ensures AllFree(DeviceItems(o, m, l, s)) <==> DeviceFree(o, m, l, s)
  {
    hide Clean, InfoLabels, CarriageFree, AllFree, Single, Base, CleanDevice;
    NothingFree();
    if m.DeviceInfo? {
      InfoLabelsFree(o, l, s);
      SingleFree(m, InfoLabels(o, l, s), "1");
    } else if m.KernelDriver? && s.kernelDriver.Some? {
      DriverLineFree(l, s.kernelDriver.value);
    } else {
      forall value ensures AllFree(Single(m, Base(l), value)) <==> CleanDevice(l) {
        BaseLineFree(m, l, value);
      }
    }
  }

  lemma BaseLineFree(m: Metric, l: DeviceLabels, value: string)
    ensures AllFree(Single(m, Base(l), value)) <==> CleanDevice(l)
  {
    hide Clean, AllFree, Single;
    SingleFree(m, Base(l), value);
    assert Base(l)[0].value == l.device && Base(l)[1].value == l.pid;
  }

  lemma DriverLineFree(l: DeviceLabels, driver: string)
    ensures AllFree(Single(KernelDriver, Base(l) + [Label("driver", driver)], "1")) <==> CleanDevice(l) && Clean(driver)
  {
    hide Clean, AllFree, Single;
    var ls := Base(l) + [Label("driver", driver)];
    SingleFree(KernelDriver, ls, "1");
    assert ls[0].value == l.device && ls[1].value == l.pid && ls[2].value == driver;
  }

  lemma NothingFree()
    ensures AllFree([])
  {
  }

  lemma ForDevicesFree(r: Registry, o: Options, m: Metric)
    ensures AllFree(ForDevices(r, o, m)) <==> forall l :: l in r.devices ==> DeviceFree(o, m, l, r.devices[l])
  {
    hide DeviceItems, DeviceFree, LabelsLe, AllFree;
    LabelsLeTotal();
    InOrderVisitsOnce(r.devices.Keys, LabelsLe);
    var f := (l: DeviceLabels) => if l in r.devices then DeviceItems(o, m, l, r.devices[l]) else [];
    forall l | l in r.devices ensures AllFree(f(l)) <==> DeviceFree(o, m, l, r.devices[l]) {
      DeviceItemsFree(o, m, l, r.devices[l]);
    }
    EachFree(DeviceKeys(r.devices), f);
  }

  lemma KeyLineFree(m: Metric, k: Key, name: string, value: string)
    ensures AllFree(Single(m, KeyLabels(k, name), value)) <==> CleanKey(k)
  {
    hide Clean, AllFree;
    SingleFree(m, KeyLabels(k, name), value);
    assert KeyLabels(k, name)[0].value == k.0.device && KeyLabels(k, name)[1].value == k.0.pid;
    assert KeyLabels(k, name)[2].value == k.1;
  }

  lemma ForCountersFree(o: Options, m: Metric, name: string, counters: map<Key, nat>)
    ensures AllFree(ForCounters(o, m, name, counters)) <==> forall k :: k in counters ==> CleanKey(k)
  {
    hide AllFree, CleanKey, KeyLe, KeyLabels, Single;
    KeyLeTotal();
    InOrderVisitsOnce(counters.Keys, KeyLe);
    var f := (k: Key) => if k in counters then Single(m, KeyLabels(k, name), o.format.integer(counters[k])) else [];
    forall k | k in counters ensures AllFree(f(k)) <==> CleanKey(k) {
      KeyLineFree(m, k, name, o.format.integer(counters[k]));
    }
    EachFree(Keys(counters), f);
  }

  lemma BucketLineFree(k: Key, bound: string, value: string)
    requires CleanKey(k) && Plain(bound)
    ensures AllFree(Single(DurationBucket, BucketLabels(k, bound), value))
  {
    hide Clean, AllFree, Plain;
    PlainIsClean(bound);
    SingleFree(DurationBucket, BucketLabels(k, bound), value);
  }

  lemma {:induction false} BucketItemsFree(o: Options, k: Key, h: HistogramView, n: nat)
    requires CleanKey(k) && n <= BUCKET_COUNT
    ensures AllFree(BucketItems(o, k, h, n))
  {
    hide AllFree, CleanKey, KeyLabels, Single, BoundText, Plain;
    if n == 0 {
      NothingFree();
    } else {
      BucketItemsFree(o, k, h, n - 1);
      BoundTextIsPlain(n - 1);
      BucketLineFree(k, BoundText(n - 1), o.format.integer(h.counts[n - 1]));
      FreeConcat(
        BucketItems(o, k, h, n - 1),
        Single(DurationBucket, BucketLabels(k, BoundText(n - 1)), o.format.integer(h.counts[n - 1])));
    }
  }

  lemma HistogramItemsFree(o: Options, k: Key, h: HistogramView)
    ensures AllFree(HistogramItems(o, k, h)) <==> CleanKey(k)
  {
    hide AllFree, CleanKey, KeyLabels, Single, BucketItems, Plain;
    var buckets := BucketItems(o, k, h, BUCKET_COUNT);
    var inf := Single(DurationBucket, BucketLabels(k, "+Inf"), o.format.integer(h.total));
    var sum := Single(DurationSum, KeyLabels(k, "command"), o.format.seconds(h.sum));
    var count := Single(DurationCount, KeyLabels(k, "command"), o.format.integer(h.total));
    KeyLineFree(DurationSum, k, "command", o.format.seconds(h.sum));
    KeyLineFree(DurationCount, k, "command", o.format.integer(h.total));
    FreeConcat(buckets, inf);
    FreeConcat(buckets + inf, sum);
    FreeConcat(buckets + inf + sum, count);
    assert HistogramItems(o, k, h) == buckets + inf + sum + count;
    if CleanKey(k) {
      BucketItemsFree(o, k, h, BUCKET_COUNT);
      InfIsPlain();
      BucketLineFree(k, "+Inf", o.format.integer(h.total));
    }
  }

  lemma ForHistogramsFree(r: Registry, o: Options)
    ensures AllFree(ForHistograms(r, o)) <==> forall k :: k in r.latency ==> CleanKey(k)
  {
    hide AllFree, CleanKey, KeyLe, HistogramItems;
    KeyLeTotal();
    InOrderVisitsOnce(r.latency.Keys, KeyLe);
    var f := (k: Key) => if k in r.latency then HistogramItems(o, k, r.latency[k]) else [];
    forall k | k in r.latency ensures AllFree(f(k)) <==> CleanKey(k) {
      HistogramItemsFree(o, k, r.latency[k]);
    }
    EachFree(Keys(r.latency), f);
  }

  lemma ScalarsFree(r: Registry, o: Options)
    ensures AllFree(Body(r, o, 0)) <==> Clean(o.version)
    ensures AllFree(Body(r, o, 1)) && AllFree(Body(r, o, 13)) && AllFree(Body(r, o, 14)) && AllFree(Body(r, o, 15))
  {
    hide Clean, AllFree, Single;
    SingleFree(BuildInfo, [Label("version", o.version)], "1");
    assert [Label("version", o.version)][0].value == o.version;
    SingleFree(Uptime, [], o.uptime);
    SingleFree(Polls, [], o.format.integer(r.polls));
    SingleFree(PollFailures, [], o.format.integer(r.pollFailures));
    SingleFree(PollDuration, [], o.format.seconds(r.lastPollDuration));
  }

  lemma BodyFree(r: Registry, o: Options, n: nat)
    requires n < FAMILIES && NoCarriageReturns(r, o)
    ensures AllFree(Body(r, o, n))
  {
    hide AllFree, Clean, CleanKey, CleanDevice, CleanState, ForDevices, ForCounters, ForHistograms, Single, DeviceFree;
    if 2 <= n <= 8 {
      ForDevicesFree(r, o, Lead(n));
      forall l | l in r.devices ensures DeviceFree(o, Lead(n), l, r.devices[l]) {
        CleanIsFree(o, Lead(n), l, r.devices[l]);
      }
    } else {
      match n
      case 9 => ForCountersFree(o, Transactions, "command", r.transactions);
      case 10 => ForCountersFree(o, Attempts, "command", r.attempts);
      case 11 => ForCountersFree(o, Errors, "reason", r.errors);
      case 12 => ForHistogramsFree(r, o);
      case _ => ScalarsFree(r, o);
    }
  }

  /** Every family is free of carriage returns exactly when the registry is. */
  lemma BodiesFree(r: Registry, o: Options)
    ensures (forall n: nat :: n < FAMILIES ==> AllFree(Body(r, o, n))) <==> NoCarriageReturns(r, o)
  {
    hide AllFree, Clean, CleanKey, CleanDevice, CleanOption, ForDevices, ForCounters, ForHistograms, Single;
    if forall n: nat :: n < FAMILIES ==> AllFree(Body(r, o, n)) {
      assert AllFree(Body(r, o, 0)) && AllFree(Body(r, o, 2)) && AllFree(Body(r, o, 5));
      assert AllFree(Body(r, o, 9)) && AllFree(Body(r, o, 10)) && AllFree(Body(r, o, 11)) && AllFree(Body(r, o, 12));
      ScalarsFree(r, o);
      ForDevicesFree(r, o, DeviceInfo);
      ForDevicesFree(r, o, KernelDriver);
      ForCountersFree(o, Transactions, "command", r.transactions);
      ForCountersFree(o, Attempts, "command", r.attempts);
      ForCountersFree(o, Errors, "reason", r.errors);
      ForHistogramsFree(r, o);
      forall l | l in r.devices ensures CleanDevice(l) && CleanState(o, r.devices[l]) {
        assert DeviceFree(o, DeviceInfo, l, r.devices[l]) && DeviceFree(o, KernelDriver, l, r.devices[l]);
        NoText();
      }
    }
    if NoCarriageReturns(r, o) {
      forall n: nat | n < FAMILIES ensures AllFree(Body(r, o, n)) {
        BodyFree(r, o, n);
      }
    }
  }

  lemma NoText()
    ensures CleanOption(None)
  {
  }

  lemma CleanIsFree(o: Options, m: Metric, l: DeviceLabels, s: DeviceState)
    requires CleanDevice(l) && CleanState(o, s)
    ensures DeviceFree(o, m, l, s)
  {
    hide Clean, CleanDevice;
  }

  lemma {:induction false} FamiliesFree(r: Registry, o: Options, n: nat)
    requires n <= FAMILIES
    ensures AllFree(Families(r, o, n)) <==> forall m: nat :: m < n ==> AllFree(Body(r, o, m))
  {
    hide AllFree, Body, FamilyName, Kind;
    if n == 0 {
      NothingFree();
    } else {
      FamiliesFree(r, o, n - 1);
      HeaderFree(o, n - 1);
      FreeConcat(Header(o, n - 1), Body(r, o, n - 1));
      FreeConcat(Families(r, o, n - 1), Header(o, n - 1) + Body(r, o, n - 1));
    }
  }

  lemma HeaderFree(o: Options, n: nat)
    requires n < FAMILIES
    ensures AllFree(Header(o, n))
  {
    hide FamilyName, Kind;
  }

  /** For any registry contents, every line reads back to its name, labels and value if and
      only if the reader undoes the escaper's own carriage return escape, or no text shown
      holds a carriage return. */
  lemma ExpositionParsesBack(reader: Reader, r: Registry, o: Options)
    requires OptionsOk(o)
    ensures ParseText(reader, TextOf(Document(r, o))) == Meanings(Document(r, o))
            <==> reader.Own? || NoCarriageReturns(r, o)
  {
    hide Families, TextOf, ParseText, Meanings, ItemOk, OptionsOk, CarriageFree, NoCarriageReturns, AllWellFormed, Grouped, Body;
    DocumentOk(r, o);
    TextParsesBack(reader, Document(r, o));
    FamiliesFree(r, o, FAMILIES);
    BodiesFree(r, o);
    assert AllFree(Document(r, o)) <==> forall i :: 0 <= i < |Document(r, o)| ==> CarriageFree(Document(r, o)[i]);
  }

  const NOTHING_READ := DeviceState(true, None, None, None, None, None, None, None, None)

  /** Such a registry: one device, whose serial has a carriage return inside. */
  lemma InnerCarriageReturn(o: Options)
    requires OptionsOk(o) && o.exposeSerial
    ensures var state := NOTHING_READ.(serial := Some("A\rB"));
            var r := EMPTY.(devices := map[DeviceLabels("Razer", "0x028D") := state]);
            ParseText(Standard, TextOf(Document(r, o))) != Meanings(Document(r, o))
  {
    hide Document, TextOf, ParseText, Meanings, OptionsOk;
    var state := NOTHING_READ.(serial := Some("A\rB"));
    var l := DeviceLabels("Razer", "0x028D");
    var r := EMPTY.(devices := map[l := state]);
    assert "A\rB"[1] == '\r';
    assert l in r.devices && !CleanState(o, r.devices[l]);
    ExpositionParsesBack(Standard, r, o);
  }
}
