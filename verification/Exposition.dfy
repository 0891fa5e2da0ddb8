/** What the rendered exposition says to whoever reads it: which lines read back, which series
    they show, and how they are grouped (text exposition format 0.0.4). */
module Exposition {
  import opened Wrappers
  import opened Sequences
  import opened Labels
  import opened Metrics
  import opened SampleFormat
  import opened Rendering
  import Enumeration
  import HexText

  // ------------------------------------------------------ label names in order

  /** The order in which label names occur; no line has two names of one rank. */
  function KeyRank(key: string): nat {
    if key == "device" then 0
    else if key == "pid" then 1
    else if key == "firmware" then 2
    else if key == "transaction_id" then 3
    else if key == "serial" then 4
    else if key == "le" then 6
    else 5
  }

  lemma KeyRanks()
    ensures KeyRank("device") == 0 && KeyRank("pid") == 1 && KeyRank("firmware") == 2
    ensures KeyRank("transaction_id") == 3 && KeyRank("serial") == 4 && KeyRank("le") == 6
    ensures KeyRank("driver") == 5 && KeyRank("command") == 5 && KeyRank("reason") == 5
  {
    assert "serial"[0] != "device"[0];
    assert "driver"[1] != "device"[1] && "driver"[0] != "serial"[0];
    assert "reason"[0] != "device"[0] && "reason"[0] != "serial"[0];
  }

  predicate Ascending(ls: seq<Label>) {
    forall i, j :: 0 <= i < j < |ls| ==> KeyRank(ls[i].key) < KeyRank(ls[j].key)
  }

  function LabelSet(ls: seq<Label>): set<Label> {
    set l | l in ls
  }

  /** In one fixed order of names, a label set determines its sequence. */
  lemma {:induction false} AscendingDetermined(a: seq<Label>, b: seq<Label>)
    requires Ascending(a) && Ascending(b) && LabelSet(a) == LabelSet(b)
    ensures a == b
    decreases |a|
  {
    hide KeyRank;
    EmptySet(a);
    EmptySet(b);
    if a != [] {
      assert a[0] in LabelSet(b);
      assert b[0] in LabelSet(a);
      assert a[0] == b[0];
      forall l ensures l in LabelSet(a[1..]) <==> l in LabelSet(b[1..]) {
        assert l in LabelSet(a[1..]) <==> l in LabelSet(a) && l != a[0] by { TailSet(a, l); }
        assert l in LabelSet(b[1..]) <==> l in LabelSet(b) && l != b[0] by { TailSet(b, l); }
      }
      AscendingDetermined(a[1..], b[1..]);
      assert a == [a[0]] + a[1..] && b == [b[0]] + b[1..];
    }
  }

  lemma EmptySet(a: seq<Label>)
    ensures LabelSet(a) == {} <==> a == []
  {
    if a != [] {
      assert a[0] in LabelSet(a);
    }
  }

  lemma TailSet(a: seq<Label>, l: Label)
    requires Ascending(a) && a != []
    ensures l in a[1..] <==> l in a && l != a[0]
  {
    hide KeyRank;
    if l in a && l != a[0] {
      var i :| 0 <= i < |a| && a[i] == l;
      assert a[1..][i - 1] == l;
    }
  }

  ghost predicate KeysOk(ls: seq<Label>) {
    (forall i :: 0 <= i < |ls| ==> KeyOk(ls[i].key)) && Ascending(ls)
  }

  /** Labels that may follow those of the device. */
  ghost predicate MayFollow(more: seq<Label>) {
    KeysOk(more) && forall i :: 0 <= i < |more| ==> KeyRank(more[i].key) > 1
  }

  lemma BaseKeysOk(l: DeviceLabels, more: seq<Label>)
    requires MayFollow(more)
    ensures KeysOk(Base(l) + more)
  {
    hide KeyRank;
    KeyRanks();
  }

  lemma InfoLabelsOk(o: Options, l: DeviceLabels, s: DeviceState) returns (more: seq<Label>)
    ensures MayFollow(more) && InfoLabels(o, l, s) == Base(l) + more
  {
    hide HexByte, KeyRank, KeyOk, Base;
    var firmware := Optional("firmware", s.firmware);
    var id := if s.transactionId.Some? then [Label("transaction_id", HexByte(s.transactionId.value))] else [];
    var serial := if o.exposeSerial then Optional("serial", s.serial) else [];
    more := firmware + id + serial;
    KeyRanks();
    InfoKeysOk();
    assert InfoLabels(o, l, s) == Base(l) + more;
  }

  lemma InfoKeysOk()
    ensures KeyOk("firmware") && KeyOk("transaction_id") && KeyOk("serial")
  {
  }

  lemma OneMayFollow(key: string, value: string)
    requires key == "driver" || key == "command" || key == "reason"
    ensures MayFollow([Label(key, value)])
  {
    hide KeyRank;
    KeyRanks();
  }

  lemma BoundMayFollow(command: string, bound: string)
    ensures MayFollow([Label("command", command), Label("le", bound)])
  {
    hide KeyRank;
    KeyRanks();
  }

  // ----------------------------------------------------- one series, one line

  predicate WellFormed(item: Item) {
    ItemOk(item) && (item.Line? ==> Ascending(item.sample.labels))
  }

  /** Two lines in which the reader sees one metric with one label list. */
  predicate SameSeries(reader: Reader, a: Item, b: Item) {
    && a.Line? && b.Line? && a.sample.metric == b.sample.metric
    && LegibleLabels(reader, a.sample.labels) && LegibleLabels(reader, b.sample.labels)
    && ShownLabels(reader, a.sample.labels) == ShownLabels(reader, b.sample.labels)
  }

  ghost predicate NoDuplicates(reader: Reader, items: seq<Item>) {
    forall i, j :: 0 <= i < j < |items| ==> !SameSeries(reader, items[i], items[j])
  }

  ghost predicate AllLines(n: nat, items: seq<Item>) {
    forall i :: 0 <= i < |items| ==> items[i].Line? && WellFormed(items[i]) && Family(items[i].sample.metric) == n
  }

  /** Well-formed samples of one family, no two of them for the same series. */
  ghost predicate BlockOk(reader: Reader, n: nat, items: seq<Item>) {
    AllLines(n, items) && NoDuplicates(reader, items)
  }

  lemma BlockOkConcat(reader: Reader, n: nat, a: seq<Item>, b: seq<Item>)
    requires BlockOk(reader, n, a) && BlockOk(reader, n, b)
    requires forall x, y :: x in a && y in b ==> !SameSeries(reader, x, y)
    ensures BlockOk(reader, n, a + b)
  {
    hide WellFormed, Family, SameSeries;
    var ab := a + b;
    forall i, j | 0 <= i < j < |ab| ensures !SameSeries(reader, ab[i], ab[j]) {
      if i < |a| <= j {
        assert ab[i] in a && ab[j] in b;
      }
    }
  }

  /** Every legible line shows labels that tell whose it is. */
  ghost predicate Owned<T(!new)>(reader: Reader, items: seq<Item>, owner: seq<Label> -> Option<T>, whose: T) {
    forall item :: item in items && item.Line? && LegibleLabels(reader, item.sample.labels) ==>
                     owner(ShownLabels(reader, item.sample.labels)) == Some(whose)
  }

  /** Blocks per key make a block when the labels shown tell the keys apart. */
  lemma {:induction false} EachOk<K(!new), T(!new)>(
      reader: Reader, n: nat, keys: seq<K>, f: K -> seq<Item>, owner: seq<Label> -> Option<T>, tag: K -> T)
    requires forall i, j :: 0 <= i < j < |keys| ==> tag(keys[i]) != tag(keys[j])
    requires forall k :: k in keys ==> BlockOk(reader, n, f(k)) && Owned(reader, f(k), owner, tag(k))
    ensures BlockOk(reader, n, Each(keys, f))
    ensures forall item :: item in Each(keys, f) && item.Line? && LegibleLabels(reader, item.sample.labels) ==>
              exists k :: k in keys && owner(ShownLabels(reader, item.sample.labels)) == Some(tag(k))
    decreases |keys|
  {
    hide BlockOk, LegibleLabels, ShownLabels;
    if keys == [] {
      NothingOk(reader, n);
    } else {
      var most, last := keys[..|keys| - 1], keys[|keys| - 1];
      EachOk(reader, n, most, f, owner, tag);
      forall k | k in most ensures tag(k) != tag(last) {
        var i :| 0 <= i < |most| && most[i] == k;
        assert keys[i] == k;
      }
      assert forall x, y :: x in Each(most, f) && y in f(last) ==> !SameSeries(reader, x, y);
      BlockOkConcat(reader, n, Each(most, f), f(last));
    }
  }

  lemma NothingOk(reader: Reader, n: nat)
    ensures BlockOk(reader, n, [])
  {
  }

  lemma SingleOk(reader: Reader, m: Metric, ls: seq<Label>, value: string)
    requires KeysOk(ls) && '\n' !in value
    ensures BlockOk(reader, Family(m), Single(m, ls, value))
  {
    hide KeyRank, KeyOk;
  }

  // Whose line it is, as the reader sees it.

  function ShownDevice(reader: Reader, l: DeviceLabels): DeviceLabels {
    DeviceLabels(Shown(reader, l.device), Shown(reader, l.pid))
  }

  function ShownKey(reader: Reader, k: Key): Key {
    (ShownDevice(reader, k.0), Shown(reader, k.1))
  }

  function DeviceOwner(ls: seq<Label>): Option<DeviceLabels> {
    if |ls| >= 2 then Some(DeviceLabels(ls[0].value, ls[1].value)) else None
  }

  function KeyOwner(ls: seq<Label>): Option<Key> {
    if |ls| >= 3 then Some((DeviceLabels(ls[0].value, ls[1].value), ls[2].value)) else None
  }

  lemma DeviceOwns(reader: Reader, m: Metric, l: DeviceLabels, more: seq<Label>, value: string)
    ensures Owned(reader, Single(m, Base(l) + more, value), DeviceOwner, ShownDevice(reader, l))
  {
    hide Shown, LegibleLabels;
  }

  lemma KeyOwns(reader: Reader, m: Metric, k: Key, name: string, more: seq<Label>, value: string)
    ensures Owned(reader, Single(m, KeyLabels(k, name) + more, value), KeyOwner, ShownKey(reader, k))
  {
    hide Shown, LegibleLabels;
  }

  /** Distinct keys stay distinct as the reader shows them. A carriage return is the only thing
      that can blur two keys, and only for the lenient reader. */
  ghost predicate DevicesApart(reader: Reader, devices: set<DeviceLabels>) {
    forall a, b :: a in devices && b in devices && a != b ==> ShownDevice(reader, a) != ShownDevice(reader, b)
  }

  ghost predicate KeysApart(reader: Reader, keys: set<Key>) {
    forall a, b :: a in keys && b in keys && a != b ==> ShownKey(reader, a) != ShownKey(reader, b)
  }

  ghost predicate Apart(reader: Reader, r: Registry) {
    && DevicesApart(reader, r.devices.Keys)
    && KeysApart(reader, r.transactions.Keys) && KeysApart(reader, r.attempts.Keys)
    && KeysApart(reader, r.errors.Keys) && KeysApart(reader, r.latency.Keys)
  }

  lemma ApartUnlessLenient(reader: Reader, r: Registry)
    requires !reader.Lenient?
    ensures Apart(reader, r)
  {
    forall l: DeviceLabels ensures ShownDevice(reader, l) == l {
      assert l == DeviceLabels(l.device, l.pid);
    }
    forall k: Key ensures ShownKey(reader, k) == k {
      assert k == (k.0, k.1);
    }
  }

  // ------------------------------------------------------------- the families

  lemma DeviceItemsOk(reader: Reader, o: Options, m: Metric, l: DeviceLabels, s: DeviceState)
    requires OptionsOk(o)
    ensures BlockOk(reader, Family(m), DeviceItems(o, m, l, s))
    ensures Owned(reader, DeviceItems(o, m, l, s), DeviceOwner, ShownDevice(reader, l))
  {
    hide BlockOk, InfoLabels, Base, DeviceOwner, ShownDevice, MayFollow, KeysOk;
    NothingOk(reader, Family(m));
    NothingFollows();
    assert Base(l) + [] == Base(l);
    if DeviceItems(o, m, l, s) != [] {
      var value := DeviceItems(o, m, l, s)[0].sample.value;
      if m.DeviceInfo? {
        var more := InfoLabelsOk(o, l, s);
        DeviceLineOk(reader, m, l, more, value);
      } else if m.KernelDriver? {
        OneMayFollow("driver", s.kernelDriver.value);
        DeviceLineOk(reader, m, l, [Label("driver", s.kernelDriver.value)], value);
      } else {
        DeviceLineOk(reader, m, l, [], value);
      }
    }
  }

  lemma NothingFollows()
    ensures MayFollow([])
  {
  }

  lemma DeviceLineOk(reader: Reader, m: Metric, l: DeviceLabels, more: seq<Label>, value: string)
    requires MayFollow(more) && '\n' !in value
    ensures BlockOk(reader, Family(m), Single(m, Base(l) + more, value))
    ensures Owned(reader, Single(m, Base(l) + more, value), DeviceOwner, ShownDevice(reader, l))
  {
    hide BlockOk, Base, DeviceOwner, ShownDevice, MayFollow, KeysOk;
    BaseKeysOk(l, more);
    SingleOk(reader, m, Base(l) + more, value);
    DeviceOwns(reader, m, l, more, value);
  }

  lemma ForDevicesOk(reader: Reader, r: Registry, o: Options, m: Metric)
    requires OptionsOk(o) && DevicesApart(reader, r.devices.Keys)
    ensures BlockOk(reader, Family(m), ForDevices(r, o, m))
  {
    hide DeviceItems, BlockOk, LabelsLe, OptionsOk, ShownDevice, DeviceOwner, Owned;
    LabelsLeTotal();
    InOrderVisitsOnce(r.devices.Keys, LabelsLe);
    var f := (l: DeviceLabels) => if l in r.devices then DeviceItems(o, m, l, r.devices[l]) else [];
    forall l | l in DeviceKeys(r.devices)
      ensures BlockOk(reader, Family(m), f(l)) && Owned(reader, f(l), DeviceOwner, ShownDevice(reader, l))
    {
      DeviceItemsOk(reader, o, m, l, r.devices[l]);
    }
    EachOk(reader, Family(m), DeviceKeys(r.devices), f, DeviceOwner, (l: DeviceLabels) => ShownDevice(reader, l));
  }

  lemma KeyLineOk(reader: Reader, m: Metric, k: Key, name: string, value: string)
    requires (name == "command" || name == "reason") && '\n' !in value
    ensures var items := Single(m, KeyLabels(k, name), value);
            BlockOk(reader, Family(m), items) && Owned(reader, items, KeyOwner, ShownKey(reader, k))
  {
    hide BlockOk, Base, KeyOwner, ShownKey, MayFollow, KeysOk;
    OneMayFollow(name, k.1);
    BaseKeysOk(k.0, [Label(name, k.1)]);
    SingleOk(reader, m, KeyLabels(k, name), value);
    KeyOwns(reader, m, k, name, [], value);
    assert KeyLabels(k, name) + [] == KeyLabels(k, name);
  }

  lemma ForCountersOk(reader: Reader, o: Options, m: Metric, name: string, counters: map<Key, nat>)
    requires OptionsOk(o) && (name == "command" || name == "reason") && KeysApart(reader, counters.Keys)
    ensures BlockOk(reader, Family(m), ForCounters(o, m, name, counters))
  {
    hide BlockOk, KeyLe, KeyLabels, KeyOwner, ShownKey, Owned, OptionsOk;
    KeyLeTotal();
    InOrderVisitsOnce(counters.Keys, KeyLe);
    var f := (k: Key) => if k in counters then Single(m, KeyLabels(k, name), o.format.integer(counters[k])) else [];
    forall k | k in Keys(counters)
      ensures BlockOk(reader, Family(m), f(k)) && Owned(reader, f(k), KeyOwner, ShownKey(reader, k))
    {
      FormatsOk(o, counters[k]);
      KeyLineOk(reader, m, k, name, o.format.integer(counters[k]));
    }
    EachOk(reader, Family(m), Keys(counters), f, KeyOwner, (k: Key) => ShownKey(reader, k));
  }

  lemma FormatsOk(o: Options, n: nat)
    requires OptionsOk(o)
    ensures '\n' !in o.format.integer(n) && '\n' !in o.format.seconds(n)
  {
  }

  lemma BoundTextsDiffer(i: nat, j: nat)
    requires i < j < BUCKET_COUNT
    ensures BoundText(i) != BoundText(j)
  {
  }

  lemma BoundTextIsPlain(i: nat)
    requires i < BUCKET_COUNT
    ensures Plain(BoundText(i)) && BoundText(i) != "+Inf"
  {
  }

  /** The identifier and the bucket bounds, which the original writes without escaping them,
      are the same text escaped. */
  lemma WrittenUnescaped(id: U8, i: nat)
    requires i < BUCKET_COUNT
    ensures Escape(HexByte(id)) == HexByte(id)
    ensures Escape(BoundText(i)) == BoundText(i)
    ensures Escape("+Inf") == "+Inf"
  {
    hide Escape, BoundText;
    HexByteIsPlain(id);
    PlainIsItsOwnEscape(HexByte(id));
    BoundTextIsPlain(i);
    PlainIsItsOwnEscape(BoundText(i));
    PlainIsItsOwnEscape("+Inf");
  }

  /** The printed id means the byte: `0x` and two upper-case digits, the higher first. */
  lemma HexByteMeans(id: U8)
    ensures HexText.Denotes(HexByte(id), "0x", HexByte(id)[2..], id)
    ensures |HexByte(id)| == 4 && forall i :: 2 <= i < 4 ==> '0' <= HexByte(id)[i] <= '9' || 'A' <= HexByte(id)[i] <= 'F'
  {
    hide HexText.DigitValue, HexDigit;
    var digits := [HexDigit(id / 16), HexDigit(id % 16)];
    HexDigitMeans(id / 16);
    HexDigitMeans(id % 16);
    assert digits[..1] == [digits[0]] && digits[..1][..0] == [];
    assert HexText.HexValue(digits[..1]) == id / 16;
    assert HexByte(id)[2..] == digits;
  }

  lemma HexDigitMeans(n: nat)
    requires n < 16
    ensures HexText.DigitValue(HexDigit(n)) == Some(n)
    ensures '0' <= HexDigit(n) <= '9' || 'A' <= HexDigit(n) <= 'F'
  {
    HexText.DigitsExactly(HexDigit(n), n);
  }

  function TenTo(n: nat): nat {
    if n == 0 then 1 else 10 * TenTo(n - 1)
  }

  /** Decimal seconds, with at most nine digits after the point, as nanoseconds. */
  ghost predicate MeansSeconds(text: string, whole: string, fraction: string, nanos: nat) {
    && text == whole + (if fraction == "" then "" else "." + fraction)
    && whole != "" && Enumeration.IsDigits(whole) && Enumeration.IsDigits(fraction) && |fraction| <= 9
    && nanos == Enumeration.Decimal(whole) * 1_000_000_000 + Enumeration.Decimal(fraction) * TenTo(9 - |fraction|)
  }

  lemma DecimalShort(s: string)
    requires Enumeration.IsDigits(s) && |s| <= 4
    ensures Enumeration.Decimal(s) ==
            match |s|
            case 0 => 0
            case 1 => Digit(s, 0)
            case 2 => Digit(s, 0) * 10 + Digit(s, 1)
            case 3 => Digit(s, 0) * 100 + Digit(s, 1) * 10 + Digit(s, 2)
            case 4 => Digit(s, 0) * 1000 + Digit(s, 1) * 100 + Digit(s, 2) * 10 + Digit(s, 3)
  {
    if |s| > 0 {
      DecimalShort(s[..|s| - 1]);
    }
  }

  function Digit(s: string, i: nat): nat
    requires Enumeration.IsDigits(s) && i < |s|
  {
    (s[i] - '0') as nat
  }

  lemma Tens()
    ensures TenTo(9) == 1_000_000_000 && TenTo(8) == 100_000_000 && TenTo(7) == 10_000_000
    ensures TenTo(6) == 1_000_000 && TenTo(5) == 100_000
  {
    assert TenTo(3) == 1000;
    assert TenTo(6) == 1_000_000;
  }

  /** A fraction of a second, digit by digit. */
  lemma FractionMeans(s: string)
    requires Enumeration.IsDigits(s) && 1 <= |s| <= 4
    ensures Enumeration.Decimal(s) * TenTo(9 - |s|) ==
            Digit(s, 0) * 100_000_000 + (if |s| > 1 then Digit(s, 1) * 10_000_000 else 0)
            + (if |s| > 2 then Digit(s, 2) * 1_000_000 else 0) + (if |s| > 3 then Digit(s, 3) * 100_000 else 0)
  {
    hide TenTo, Enumeration.Decimal;
    Tens();
    DecimalShort(s);
  }

  /** What follows `0.` in a bound below one second. */
  function BoundFraction(i: nat): string
    requires i < 10
  {
    ["0005", "001", "002", "005", "01", "025", "05", "1", "25", "5"][i]
  }

  lemma BoundFractionMeans(i: nat)
    requires i < 10
    ensures var s := BoundFraction(i);
            && 1 <= |s| <= 4 && Enumeration.IsDigits(s) && BoundText(i) == "0." + s
            && Digit(s, 0) * 100_000_000 + (if |s| > 1 then Digit(s, 1) * 10_000_000 else 0)
               + (if |s| > 2 then Digit(s, 2) * 1_000_000 else 0) + (if |s| > 3 then Digit(s, 3) * 100_000 else 0) == Bound(i)
  {
  }

  /** The printed bucket bounds mean the numeric ones. */
  lemma BoundTextMeans(i: nat) returns (whole: string, fraction: string)
    requires i < BUCKET_COUNT
    ensures MeansSeconds(BoundText(i), whole, fraction, Bound(i))
  {
    hide TenTo, Enumeration.Decimal, Enumeration.IsDigits;
    if i == 10 {
      whole, fraction := "1", "";
      LastBoundMeans();
    } else {
      whole, fraction := "0", BoundFraction(i);
      hide BoundFraction, BoundText, Bound;
      BoundFractionMeans(i);
      FractionMeans(fraction);
      ZeroMeans();
      assert "0." + fraction == "0" + ("." + fraction);
    }
  }

  lemma LastBoundMeans()
    ensures MeansSeconds(BoundText(10), "1", "", Bound(10))
  {
  }

  lemma ZeroMeans()
    ensures Enumeration.IsDigits("0") && Enumeration.Decimal("0") == 0
  {
  }

  lemma HexByteIsPlain(id: U8)
    ensures Plain(HexByte(id))
  {
    HexDigitIsPlain(id / 16);
    HexDigitIsPlain(id % 16);
  }

  lemma HexDigitIsPlain(n: nat)
    requires n < 16
    ensures '0' <= HexDigit(n) <= 'F'
  {
  }

  /** The labels of a bucket. */
  function BucketLabels(k: Key, bound: string): seq<Label> {
    KeyLabels(k, "command") + [Label("le", bound)]
  }

  lemma BucketLineOk(reader: Reader, k: Key, bound: string, value: string)
    requires '\n' !in value
    ensures var items := Single(DurationBucket, BucketLabels(k, bound), value);
            BlockOk(reader, 12, items) && Owned(reader, items, KeyOwner, ShownKey(reader, k))
  {
    hide BlockOk, Base, KeyOwner, ShownKey, MayFollow, KeysOk;
    BoundMayFollow(k.1, bound);
    BaseKeysOk(k.0, [Label("command", k.1), Label("le", bound)]);
    assert BucketLabels(k, bound) == Base(k.0) + [Label("command", k.1), Label("le", bound)];
    SingleOk(reader, DurationBucket, BucketLabels(k, bound), value);
    KeyOwns(reader, DurationBucket, k, "command", [Label("le", bound)], value);
  }

  lemma BucketsDiffer(reader: Reader, k: Key, a: string, b: string, v: string, w: string)
    requires Plain(a) && Plain(b) && a != b
    ensures !SameSeries(reader, Line(Sample(DurationBucket, BucketLabels(k, a), v)), Line(Sample(DurationBucket, BucketLabels(k, b), w)))
  {
    hide Replace, LegibleLabels;
    var la, lb := BucketLabels(k, a), BucketLabels(k, b);
    assert la[3].value == a && lb[3].value == b;
    NoneLeft(a);
    NoneLeft(b);
    assert ShownLabels(reader, la)[3].value == a && ShownLabels(reader, lb)[3].value == b;
  }

  lemma {:induction false} BucketItemsOk(reader: Reader, o: Options, k: Key, h: HistogramView, n: nat)
    requires OptionsOk(o) && n <= BUCKET_COUNT
    ensures BlockOk(reader, 12, BucketItems(o, k, h, n))
    ensures Owned(reader, BucketItems(o, k, h, n), KeyOwner, ShownKey(reader, k))
    ensures forall item :: item in BucketItems(o, k, h, n) ==>
              exists i: nat :: i < n && item == Line(Sample(DurationBucket, BucketLabels(k, BoundText(i)), o.format.integer(h.counts[i])))
  {
    hide BlockOk, BoundText, KeyLabels, KeyOwner, ShownKey, SameSeries, LegibleLabels, ShownLabels, Plain;
    if n == 0 {
      NothingOk(reader, 12);
    } else {
      BucketItemsOk(reader, o, k, h, n - 1);
      var most := BucketItems(o, k, h, n - 1);
      var one := Single(DurationBucket, BucketLabels(k, BoundText(n - 1)), o.format.integer(h.counts[n - 1]));
      BucketLineOk(reader, k, BoundText(n - 1), o.format.integer(h.counts[n - 1]));
      forall x, y | x in most && y in one ensures !SameSeries(reader, x, y) {
        var i: nat :| i < n - 1 && x == Line(Sample(DurationBucket, BucketLabels(k, BoundText(i)), o.format.integer(h.counts[i])));
        BoundTextsDiffer(i, n - 1);
        BoundTextIsPlain(i);
        BoundTextIsPlain(n - 1);
        BucketsDiffer(reader, k, BoundText(i), BoundText(n - 1), x.sample.value, y.sample.value);
      }
      BlockOkConcat(reader, 12, most, one);
      assert BucketItems(o, k, h, n) == most + one;
    }
  }

  lemma HistogramItemsOk(reader: Reader, o: Options, k: Key, h: HistogramView)
    requires OptionsOk(o)
    ensures BlockOk(reader, 12, HistogramItems(o, k, h))
    ensures Owned(reader, HistogramItems(o, k, h), KeyOwner, ShownKey(reader, k))
  {
    hide BlockOk, BoundText, KeyOwner, KeyLabels, ShownKey, LegibleLabels, ShownLabels, Plain, OptionsOk;
    FormatsOk(o, h.total);
    FormatsOk(o, h.sum);
    var buckets := BucketItems(o, k, h, BUCKET_COUNT);
    var inf := Single(DurationBucket, BucketLabels(k, "+Inf"), o.format.integer(h.total));
    var sum := Single(DurationSum, KeyLabels(k, "command"), o.format.seconds(h.sum));
    var count := Single(DurationCount, KeyLabels(k, "command"), o.format.integer(h.total));
    BucketItemsOk(reader, o, k, h, BUCKET_COUNT);
    BucketLineOk(reader, k, "+Inf", o.format.integer(h.total));
    KeyLineOk(reader, DurationSum, k, "command", o.format.seconds(h.sum));
    KeyLineOk(reader, DurationCount, k, "command", o.format.integer(h.total));
    forall x, y | x in buckets && y in inf ensures !SameSeries(reader, x, y) {
      var i: nat :| i < BUCKET_COUNT && x == Line(Sample(DurationBucket, BucketLabels(k, BoundText(i)), o.format.integer(h.counts[i])));
      BoundTextIsPlain(i);
      InfIsPlain();
      BucketsDiffer(reader, k, BoundText(i), "+Inf", x.sample.value, y.sample.value);
    }
    BlockOkConcat(reader, 12, buckets, inf);
    BlockOkConcat(reader, 12, buckets + inf, sum);
    BlockOkConcat(reader, 12, buckets + inf + sum, count);
    assert HistogramItems(o, k, h) == buckets + inf + sum + count;
  }

  lemma InfIsPlain()
    ensures Plain("+Inf")
  {
  }

  lemma ForHistogramsOk(reader: Reader, r: Registry, o: Options)
    requires OptionsOk(o) && KeysApart(reader, r.latency.Keys)
    ensures BlockOk(reader, 12, ForHistograms(r, o))
  {
    hide BlockOk, KeyLe, HistogramItems, OptionsOk, KeyOwner, ShownKey, Owned;
    KeyLeTotal();
    InOrderVisitsOnce(r.latency.Keys, KeyLe);
    var f := (k: Key) => if k in r.latency then HistogramItems(o, k, r.latency[k]) else [];
    forall k | k in Keys(r.latency)
      ensures BlockOk(reader, 12, f(k)) && Owned(reader, f(k), KeyOwner, ShownKey(reader, k))
    {
      HistogramItemsOk(reader, o, k, r.latency[k]);
    }
    EachOk(reader, 12, Keys(r.latency), f, KeyOwner, (k: Key) => ShownKey(reader, k));
  }

  lemma BodyOk(reader: Reader, r: Registry, o: Options, n: nat)
    requires OptionsOk(o) && Apart(reader, r) && n < FAMILIES
    ensures BlockOk(reader, n, Body(r, o, n))
  {
    hide BlockOk, ForDevices, ForCounters, ForHistograms, Single, KeysOk, DevicesApart, KeysApart;
    ScalarKeysOk(o.version);
    if 2 <= n <= 8 {
      ForDevicesOk(reader, r, o, Lead(n));
    } else {
      match n
      case 0 => SingleOk(reader, BuildInfo, [Label("version", o.version)], "1");
      case 1 => SingleOk(reader, Uptime, [], o.uptime);
      case 9 => ForCountersOk(reader, o, Transactions, "command", r.transactions);
      case 10 => ForCountersOk(reader, o, Attempts, "command", r.attempts);
      case 11 => ForCountersOk(reader, o, Errors, "reason", r.errors);
      case 12 => ForHistogramsOk(reader, r, o);
      case 13 => SingleOk(reader, Polls, [], o.format.integer(r.polls));
      case 14 => SingleOk(reader, PollFailures, [], o.format.integer(r.pollFailures));
      case 15 => SingleOk(reader, PollDuration, [], o.format.seconds(r.lastPollDuration));
    }
  }

  lemma ScalarKeysOk(version: string)
    ensures KeysOk([]) && KeysOk([Label("version", version)])
  {
  }

  // ------------------------------------------------------- the whole document

  /** The name a sample line may carry in a family: the family's own, or one of a histogram's
      three. */
  predicate Belongs(series: string, family: string, kind: string) {
    series == family
    || (kind == "histogram" && (series == family + "_bucket" || series == family + "_sum" || series == family + "_count"))
  }

  lemma SamplesBelong(m: Metric)
    ensures Family(m) < FAMILIES && Belongs(Name(m), FamilyName(Family(m)), Kind(Family(m)))
  {
    hide Name;
    if Family(m) == HISTOGRAM_FAMILY {
      HistogramNames();
    } else {
      assert Lead(Family(m)) == m;
    }
  }

  lemma HistogramNames()
    ensures Name(DurationBucket) == HISTOGRAM_NAME + "_bucket"
    ensures Name(DurationSum) == HISTOGRAM_NAME + "_sum"
    ensures Name(DurationCount) == HISTOGRAM_NAME + "_count"
  {
  }

  lemma NameInjective(a: Metric, b: Metric)
    requires Name(a) == Name(b)
    ensures a == b
  {
    NameShape(a);
    NameShape(b);
  }

  /** Length, and the two characters that tell names of equal length apart. */
  lemma NameShape(m: Metric)
    ensures var name := Name(m);
            && |name| > 13
            && |name| == (match m
                case BuildInfo => 16 case Uptime => 20 case DeviceInfo => 17 case Present => 20 case UsbDevnum => 23
                case KernelDriver => 26 case Mode => 17 case PollRateHz => 25 case BrightnessRatio => 29
                case Transactions => 24 case Attempts => 32 case Errors => 30 case DurationBucket => 41
                case DurationSum => 38 case DurationCount => 40 case Polls => 17 case PollFailures => 25 case PollDuration => 27)
            && (m.DeviceInfo? || m.Mode? || m.Present? || m.PollRateHz? ==> name[6] == 'd')
            && (m.Polls? || m.PollFailures? ==> name[6] == 'p')
            && (m.Uptime? ==> name[6] == 'u')
            && (m.DeviceInfo? ==> name[13] == 'i') && (m.Mode? ==> name[13] == 'm')
  {
  }

  lemma FamilyNameInjective(a: nat, b: nat)
    requires a < FAMILIES && b < FAMILIES && FamilyName(a) == FamilyName(b)
    ensures a == b
  {
    hide Name;
    assert |HISTOGRAM_NAME| == 34;
    NameShape(Lead(a));
    NameShape(Lead(b));
    if a != HISTOGRAM_FAMILY && b != HISTOGRAM_FAMILY {
      NameInjective(Lead(a), Lead(b));
    }
  }

  lemma HeaderOk(o: Options, n: nat)
    requires OptionsOk(o) && n < FAMILIES
    ensures forall i :: 0 <= i < 2 ==> WellFormed(Header(o, n)[i])
  {
    hide Name, NameOk;
    NamesAreOk(Lead(n));
    HistogramNameOk();
    assert '\n' !in "gauge" && '\n' !in "counter" && '\n' !in "histogram";
  }

  lemma HistogramNameOk()
    ensures NameOk(HISTOGRAM_NAME)
  {
  }

  ghost predicate AllWellFormed(items: seq<Item>) {
    forall i :: 0 <= i < |items| ==> WellFormed(items[i])
  }

  /** Samples of the first `n` families only, grouped by family in ascending order. */
  ghost predicate Grouped(n: nat, items: seq<Item>) {
    && (forall i :: 0 <= i < |items| && items[i].Line? ==> Family(items[i].sample.metric) < n)
    && (forall i, j :: 0 <= i < j < |items| && items[i].Line? && items[j].Line? ==>
          Family(items[i].sample.metric) <= Family(items[j].sample.metric))
  }

  lemma AppendFamilyOk(reader: Reader, n: nat, items: seq<Item>, header: seq<Item>, body: seq<Item>)
    requires AllWellFormed(items) && NoDuplicates(reader, items) && Grouped(n, items)
    requires |header| == 2 && AllWellFormed(header) && header[0].Help? && header[1].Type?
    requires BlockOk(reader, n, body)
    ensures var all := items + (header + body);
            AllWellFormed(all) && NoDuplicates(reader, all) && Grouped(n + 1, all)
  {
    hide WellFormed, Family, LegibleLabels, ShownLabels;
  }

  lemma {:induction false} FamiliesOk(reader: Reader, r: Registry, o: Options, n: nat)
    requires OptionsOk(o) && Apart(reader, r) && n <= FAMILIES
    ensures var items := Families(r, o, n);
            AllWellFormed(items) && NoDuplicates(reader, items) && Grouped(n, items)
  {
    hide Body, BlockOk, OptionsOk, WellFormed, Apart, FamilyName, Kind;
    if n > 0 {
      FamiliesOk(reader, r, o, n - 1);
      HeaderOk(o, n - 1);
      BodyOk(reader, r, o, n - 1);
      AppendFamilyOk(reader, n - 1, Families(r, o, n - 1), Header(o, n - 1), Body(r, o, n - 1));
    }
  }

  lemma DocumentOk(r: Registry, o: Options)
    requires OptionsOk(o)
    ensures AllWellFormed(Document(r, o)) && Grouped(FAMILIES, Document(r, o))
    ensures forall i :: 0 <= i < |Document(r, o)| ==> ItemOk(Document(r, o)[i])
  {
    hide Families, ItemOk, OptionsOk, Apart, NoDuplicates, Ascending;
    ApartUnlessLenient(Own, r);
    FamiliesOk(Own, r, o, FAMILIES);
  }

  /** The rendered text, line for line, as any of the readers sees it. */
  lemma ExpositionReads(reader: Reader, r: Registry, o: Options)
    requires OptionsOk(o)
    ensures ParseText(reader, TextOf(Document(r, o))) == Readings(reader, Document(r, o))
  {
    hide Document, TextOf, ParseText, ItemOk, OptionsOk, AllWellFormed, Grouped;
    DocumentOk(r, o);
    TextReads(reader, Document(r, o));
  }
}
