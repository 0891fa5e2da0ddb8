/** `Metrics::render` (crates/razerd/src/metrics.rs): the whole exposition of a registry. */
module Rendering {
  import opened Wrappers
  import opened Sequences
  import opened Metrics
  import opened SampleFormat

  // -------------------------------------------------------------- the document

  /** Number formats are left open; the program's own never contain a newline. */
  datatype Printer = Printer(integer: nat -> string, seconds: nat -> string, ratio: U8 -> string)

  /** The crate version, the uptime as printed, whether serials are exposed, the help text
      of each family, and the number formats. */
  datatype Options = Options(version: string, uptime: string, exposeSerial: bool, help: nat -> string, format: Printer)

  ghost predicate OptionsOk(o: Options) {
    && '\n' !in o.uptime
    && (forall n :: '\n' !in o.help(n))
    && (forall n :: '\n' !in o.format.integer(n)) && (forall n :: '\n' !in o.format.seconds(n))
    && (forall b :: '\n' !in o.format.ratio(b))
  }

  // Iteration order of the ordered maps.

  predicate LabelsLe(a: DeviceLabels, b: DeviceLabels) {
    if a.device != b.device then TextLe(a.device, b.device) else TextLe(a.pid, b.pid)
  }

  predicate KeyLe(a: Key, b: Key) {
    if a.0 != b.0 then LabelsLe(a.0, b.0) else TextLe(a.1, b.1)
  }

  lemma LabelsLeTotal()
    ensures TotalOrder(LabelsLe)
  {
    hide TextLe;
    forall a: DeviceLabels, b: DeviceLabels ensures LabelsLe(a, b) || LabelsLe(b, a) ensures LabelsLe(a, b) && LabelsLe(b, a) ==> a == b {
      TextLeTotal(a.device, b.device);
      TextLeTotal(a.pid, b.pid);
    }
    forall a: DeviceLabels, b: DeviceLabels, c: DeviceLabels | LabelsLe(a, b) && LabelsLe(b, c) ensures LabelsLe(a, c) {
      TextLeTotal(a.device, b.device);
      TextLeTotal(b.device, c.device);
      TextLeTotal(a.device, c.device);
      if TextLe(a.device, b.device) && TextLe(b.device, c.device) {
        TextLeTransitive(a.device, b.device, c.device);
      }
      if TextLe(a.pid, b.pid) && TextLe(b.pid, c.pid) {
        TextLeTransitive(a.pid, b.pid, c.pid);
      }
    }
  }

  lemma KeyLeTotal()
    ensures TotalOrder(KeyLe)
  {
    hide TextLe, LabelsLe;
    LabelsLeTotal();
    forall a: Key, b: Key ensures KeyLe(a, b) || KeyLe(b, a) ensures KeyLe(a, b) && KeyLe(b, a) ==> a == b {
      assert LabelsLe(a.0, b.0) || LabelsLe(b.0, a.0);
      assert LabelsLe(a.0, b.0) && LabelsLe(b.0, a.0) ==> a.0 == b.0;
      TextLeTotal(a.1, b.1);
    }
    forall a: Key, b: Key, c: Key | KeyLe(a, b) && KeyLe(b, c) ensures KeyLe(a, c) {
      assert LabelsLe(a.0, b.0) && LabelsLe(b.0, c.0) ==> LabelsLe(a.0, c.0);
      assert LabelsLe(a.0, b.0) && LabelsLe(b.0, a.0) ==> a.0 == b.0;
      if TextLe(a.1, b.1) && TextLe(b.1, c.1) {
        TextLeTransitive(a.1, b.1, c.1);
      }
    }
  }

  function DeviceKeys<V>(m: map<DeviceLabels, V>): seq<DeviceLabels> {
    LabelsLeTotal();
    InOrder(m.Keys, LabelsLe)
  }

  function Keys<V>(m: map<Key, V>): seq<Key> {
    KeyLeTotal();
    InOrder(m.Keys, KeyLe)
  }

  // The lines of each family.

  function HexDigit(n: nat): char
    requires n < 16
  {
    "0123456789ABCDEF"[n]
  }

  /** `0x{:02X}`. */
  function HexByte(n: U8): string {
    "0x" + [HexDigit(n / 16), HexDigit(n % 16)]
  }

  function Base(l: DeviceLabels): seq<Label> {
    [Label("device", l.device), Label("pid", l.pid)]
  }

  function Single(m: Metric, labels: seq<Label>, value: string): seq<Item> {
    [Line(Sample(m, labels, value))]
  }

  function Optional(key: string, value: Option<string>): seq<Label> {
    match value
    case Some(v) => [Label(key, v)]
    case None => []
  }

  function InfoLabels(o: Options, l: DeviceLabels, s: DeviceState): seq<Label> {
    Base(l) + Optional("firmware", s.firmware)
    + (if s.transactionId.Some? then [Label("transaction_id", HexByte(s.transactionId.value))] else [])
    + (if o.exposeSerial then Optional("serial", s.serial) else [])
  }

  /** What one device contributes to one of the device families. */
  function DeviceItems(o: Options, m: Metric, l: DeviceLabels, s: DeviceState): seq<Item> {
    match m
    case DeviceInfo => Single(m, InfoLabels(o, l, s), "1")
    case Present => Single(m, Base(l), if s.present then "1" else "0")
    case UsbDevnum => if s.usbDevnum.Some? then Single(m, Base(l), o.format.integer(s.usbDevnum.value)) else []
    case KernelDriver => if s.kernelDriver.Some? then Single(m, Base(l) + [Label("driver", s.kernelDriver.value)], "1") else []
    case Mode => if s.deviceMode.Some? then Single(m, Base(l), o.format.integer(s.deviceMode.value)) else []
    case PollRateHz => if s.pollRateHz.Some? then Single(m, Base(l), o.format.integer(s.pollRateHz.value)) else []
    case BrightnessRatio => if s.brightness.Some? then Single(m, Base(l), o.format.ratio(s.brightness.value)) else []
    case _ => []
  }

  function KeyLabels(k: Key, name: string): seq<Label> {
    Base(k.0) + [Label(name, k.1)]
  }

  /** The bucket bounds as printed. */
  function BoundText(i: nat): string
    requires i < BUCKET_COUNT
  {
    ["0.0005", "0.001", "0.002", "0.005", "0.01", "0.025", "0.05", "0.1", "0.25", "0.5", "1"][i]
  }

  function BucketItems(o: Options, k: Key, h: HistogramView, n: nat): seq<Item>
    requires n <= BUCKET_COUNT
  {
    if n == 0 then []
    else
      BucketItems(o, k, h, n - 1)
      + Single(DurationBucket, KeyLabels(k, "command") + [Label("le", BoundText(n - 1))], o.format.integer(h.counts[n - 1]))
  }

  function HistogramItems(o: Options, k: Key, h: HistogramView): seq<Item> {
    BucketItems(o, k, h, BUCKET_COUNT)
    + Single(DurationBucket, KeyLabels(k, "command") + [Label("le", "+Inf")], o.format.integer(h.total))
    + Single(DurationSum, KeyLabels(k, "command"), o.format.seconds(h.sum))
    + Single(DurationCount, KeyLabels(k, "command"), o.format.integer(h.total))
  }

  /** The items of every key, in order. */
  function Each<K>(keys: seq<K>, f: K -> seq<Item>): seq<Item> {
    if keys == [] then [] else Each(keys[..|keys| - 1], f) + f(keys[|keys| - 1])
  }

  function ForDevices(r: Registry, o: Options, m: Metric): seq<Item> {
    Each(DeviceKeys(r.devices), l => if l in r.devices then DeviceItems(o, m, l, r.devices[l]) else [])
  }

  function ForCounters(o: Options, m: Metric, name: string, counters: map<Key, nat>): seq<Item> {
    Each(Keys(counters), k => if k in counters then Single(m, KeyLabels(k, name), o.format.integer(counters[k])) else [])
  }

  function ForHistograms(r: Registry, o: Options): seq<Item> {
    Each(Keys(r.latency), k => if k in r.latency then HistogramItems(o, k, r.latency[k]) else [])
  }

  /** The metric of family `n`; the histogram has three. */
  function Lead(n: nat): (m: Metric)
    requires n < FAMILIES
    ensures Family(m) == n
  {
    match n
    case 0 => BuildInfo
    case 1 => Uptime
    case 2 => DeviceInfo
    case 3 => Present
    case 4 => UsbDevnum
    case 5 => KernelDriver
    case 6 => Mode
    case 7 => PollRateHz
    case 8 => BrightnessRatio
    case 9 => Transactions
    case 10 => Attempts
    case 11 => Errors
    case 12 => DurationBucket
    case 13 => Polls
    case 14 => PollFailures
    case 15 => PollDuration
  }

  const HISTOGRAM_FAMILY := 12
  const HISTOGRAM_NAME := "razer_transaction_duration_seconds"

  function FamilyName(n: nat): string
    requires n < FAMILIES
  {
    if n == HISTOGRAM_FAMILY then HISTOGRAM_NAME else Name(Lead(n))
  }

  function Kind(n: nat): string {
    if n == HISTOGRAM_FAMILY then "histogram" else if 9 <= n <= 14 then "counter" else "gauge"
  }

  function Header(o: Options, n: nat): seq<Item>
    requires n < FAMILIES
  {
    [Help(FamilyName(n), o.help(n)), Type(FamilyName(n), Kind(n))]
  }

  /** The samples of family `n`. */
  function Body(r: Registry, o: Options, n: nat): seq<Item>
    requires n < FAMILIES
  {
    if 2 <= n <= 8 then ForDevices(r, o, Lead(n))
    else
      match n
      case 0 => Single(BuildInfo, [Label("version", o.version)], "1")
      case 1 => Single(Uptime, [], o.uptime)
      case 9 => ForCounters(o, Transactions, "command", r.transactions)
      case 10 => ForCounters(o, Attempts, "command", r.attempts)
      case 11 => ForCounters(o, Errors, "reason", r.errors)
      case 12 => ForHistograms(r, o)
      case 13 => Single(Polls, [], o.format.integer(r.polls))
      case 14 => Single(PollFailures, [], o.format.integer(r.pollFailures))
      case 15 => Single(PollDuration, [], o.format.seconds(r.lastPollDuration))
  }

  /** The first `n` families. */
  function Families(r: Registry, o: Options, n: nat): seq<Item>
    requires n <= FAMILIES
    decreases n, r
  {
    if n == 0 then [] else Families(r, o, n - 1) + (Header(o, n - 1) + Body(r, o, n - 1))
  }

  function Document(r: Registry, o: Options): seq<Item> {
    Families(r, o, FAMILIES)
  }

  // ------------------------------------------------------------------- privacy

  function WithoutSerials(r: Registry): Registry {
    r.(devices := map l | l in r.devices :: r.devices[l].(serial := None))
  }

  lemma {:induction false} EachSame<K(!new)>(keys: seq<K>, f: K -> seq<Item>, g: K -> seq<Item>)
    requires forall k :: k in keys ==> f(k) == g(k)
    ensures Each(keys, f) == Each(keys, g)
    decreases |keys|
  {
    if keys != [] {
      EachSame(keys[..|keys| - 1], f, g);
    }
  }

  lemma DeviceItemsWithoutSerial(o: Options, m: Metric, l: DeviceLabels, s: DeviceState)
    requires !o.exposeSerial
    ensures DeviceItems(o, m, l, s) == DeviceItems(o, m, l, s.(serial := None))
  {
  }

  lemma ForDevicesWithoutSerials(r: Registry, o: Options, m: Metric)
    requires !o.exposeSerial
    ensures ForDevices(r, o, m) == ForDevices(WithoutSerials(r), o, m)
  {
    hide LabelsLe, DeviceItems;
    var bare := WithoutSerials(r);
    assert r.devices.Keys == bare.devices.Keys;
    forall l | l in r.devices ensures DeviceItems(o, m, l, r.devices[l]) == DeviceItems(o, m, l, bare.devices[l]) {
      DeviceItemsWithoutSerial(o, m, l, r.devices[l]);
    }
    EachSame(
      DeviceKeys(r.devices),
      (l: DeviceLabels) => if l in r.devices then DeviceItems(o, m, l, r.devices[l]) else [],
      (l: DeviceLabels) => if l in bare.devices then DeviceItems(o, m, l, bare.devices[l]) else []);
  }

  lemma BodyWithoutSerials(r: Registry, o: Options, n: nat)
    requires !o.exposeSerial && n < FAMILIES
    ensures Body(r, o, n) == Body(WithoutSerials(r), o, n)
  {
    hide ForDevices;
    forall m ensures ForDevices(r, o, m) == ForDevices(WithoutSerials(r), o, m) {
      ForDevicesWithoutSerials(r, o, m);
    }
  }

  lemma {:induction false} FamiliesWithoutSerials(r: Registry, o: Options, n: nat)
    requires !o.exposeSerial && n <= FAMILIES
    ensures Families(r, o, n) == Families(WithoutSerials(r), o, n)
  {
    hide Body, Header;
    if n > 0 {
      FamiliesWithoutSerials(r, o, n - 1);
      BodyWithoutSerials(r, o, n - 1);
    }
  }

  /** Unless serials are opted in, the exposition does not depend on them at all: it is the
      one a registry that never learned any serial would render. */
  lemma SerialsStayPrivate(r: Registry, o: Options)
    requires !o.exposeSerial
    ensures Document(r, o) == Document(WithoutSerials(r), o)
  {
    hide Families;
    FamiliesWithoutSerials(r, o, FAMILIES);
  }

  // --------------------------------------------------------------- the renderer

  lemma EachStep<K>(keys: seq<K>, f: K -> seq<Item>, i: nat)
    requires i < |keys|
    ensures Each(keys[..i + 1], f) == Each(keys[..i], f) + f(keys[i])
  {
    assert keys[..i + 1][..i] == keys[..i];
  }

  /** One `for` loop of the renderer: the lines of every key, appended. */
  method AppendEach<K>(text: string, keys: seq<K>, f: K -> seq<Item>) returns (o: string)
    ensures o == text + TextOf(Each(keys, f))
  {
    hide TextOf;
    o := text;
    EmptyText();
    assert keys[..0] == [];
    for i := 0 to |keys|
      invariant o == text + TextOf(Each(keys[..i], f))
    {
      EachStep(keys, f, i);
      TextOfConcat(Each(keys[..i], f), f(keys[i]));
      o := AppendItems(o, f(keys[i]));
    }
    assert keys[..|keys|] == keys;
  }

  method AppendItems(text: string, items: seq<Item>) returns (o: string)
    ensures o == text + TextOf(items)
  {
    hide RenderItem;
    o := text;
    for i := 0 to |items|
      invariant o == text + TextOf(items[..i])
    {
      assert items[..i + 1][..i] == items[..i];
      o := o + RenderItem(items[i]) + "\n";
    }
    assert items[..|items|] == items;
  }

  method AppendDevices(text: string, r: Registry, opts: Options, m: Metric) returns (o: string)
    ensures o == text + TextOf(ForDevices(r, opts, m))
  {
    hide DeviceItems, TextOf;
    o := AppendEach(text, DeviceKeys(r.devices), l => if l in r.devices then DeviceItems(opts, m, l, r.devices[l]) else []);
  }

  method AppendCounters(text: string, opts: Options, m: Metric, name: string, counters: map<Key, nat>) returns (o: string)
    ensures o == text + TextOf(ForCounters(opts, m, name, counters))
  {
    hide TextOf;
    o := AppendEach(text, Keys(counters),
      k => if k in counters then Single(m, KeyLabels(k, name), opts.format.integer(counters[k])) else []);
  }

  method AppendHistograms(text: string, r: Registry, opts: Options) returns (o: string)
    ensures o == text + TextOf(ForHistograms(r, opts))
  {
    hide HistogramItems, TextOf;
    o := AppendEach(text, Keys(r.latency), k => if k in r.latency then HistogramItems(opts, k, r.latency[k]) else []);
  }

  method AppendBody(text: string, r: Registry, opts: Options, n: nat) returns (o: string)
    requires n < FAMILIES
    ensures o == text + TextOf(Body(r, opts, n))
  {
    hide ForDevices, ForCounters, ForHistograms, TextOf, Single;
    match n {
      case 9 => o := AppendCounters(text, opts, Transactions, "command", r.transactions);
      case 10 => o := AppendCounters(text, opts, Attempts, "command", r.attempts);
      case 11 => o := AppendCounters(text, opts, Errors, "reason", r.errors);
      case 12 => o := AppendHistograms(text, r, opts);
      case _ =>
        if 2 <= n <= 8 {
          o := AppendDevices(text, r, opts, Lead(n));
        } else {
          o := AppendItems(text, Body(r, opts, n));
        }
    }
  }

  /** The section of `render` that writes family `n`, appended to the sections before it. */
  method AppendFamily(text: string, r: Registry, opts: Options, n: nat) returns (o: string)
    requires n < FAMILIES && text == TextOf(Families(r, opts, n))
    ensures o == TextOf(Families(r, opts, n + 1))
  {
    hide Body, TextOf, Header;
    TextOfConcat(Families(r, opts, n), Header(opts, n) + Body(r, opts, n));
    TextOfConcat(Header(opts, n), Body(r, opts, n));
    o := AppendItems(text, Header(opts, n));
    o := AppendBody(o, r, opts, n);
  }

  /** `render`, on the registry the lock protects. */
  method Render(metrics: Metrics, opts: Options) returns (o: string)
    requires metrics.Valid()
    ensures o == TextOf(Document(metrics.View(), opts))
  {
    hide Document, TextOf;
    o := RenderRegistry(metrics.View(), opts);
  }

  /** Section after section, appended to one string. */
  method RenderRegistry(r: Registry, opts: Options) returns (o: string)
    ensures o == TextOf(Document(r, opts))
  {
    hide Families, TextOf;
    NoFamilies(r, opts);
    o := AppendFamily([], r, opts, 0);
    o := AppendFamily(o, r, opts, 1);
    o := AppendFamily(o, r, opts, 2);
    o := AppendFamily(o, r, opts, 3);
    o := AppendFamily(o, r, opts, 4);
    o := AppendFamily(o, r, opts, 5);
    o := AppendFamily(o, r, opts, 6);
    o := AppendFamily(o, r, opts, 7);
    o := AppendFamily(o, r, opts, 8);
    o := AppendFamily(o, r, opts, 9);
    o := AppendFamily(o, r, opts, 10);
    o := AppendFamily(o, r, opts, 11);
    o := AppendFamily(o, r, opts, 12);
    o := AppendFamily(o, r, opts, 13);
    o := AppendFamily(o, r, opts, 14);
    o := AppendFamily(o, r, opts, 15);
  }

  lemma EmptyText()
    ensures TextOf([]) == []
  {
  }

  lemma NoFamilies(r: Registry, opts: Options)
    ensures TextOf(Families(r, opts, 0)) == []
  {
  }
}
