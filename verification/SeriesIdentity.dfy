/** Which series a reader of the exposition sees: each at most once, grouped under the header of
    its family, and none left out. */
module SeriesIdentity {
  import opened Sequences
  import opened Labels
  import opened Metrics
  import opened SampleFormat
  import opened Rendering
  import opened Exposition

  // --------------------------------------------------------- no series twice

  /** No two lines have one name and one label set, in whatever order. */
  ghost predicate Distinct(parsed: seq<Parsed>) {
    forall i, j :: 0 <= i < j < |parsed| && parsed[i].Series? && parsed[j].Series? ==>
      parsed[i].name != parsed[j].name || LabelSet(parsed[i].labels) != LabelSet(parsed[j].labels)
  }

  lemma ShownLabelsAscend(reader: Reader, ls: seq<Label>)
    requires Ascending(ls)
    ensures Ascending(ShownLabels(reader, ls))
  {
    hide KeyRank, Shown;
  }

  lemma LineReads(reader: Reader, r: Registry, o: Options, i: nat)
    requires OptionsOk(o) && i < |Document(r, o)|
    ensures var parsed := ParseText(reader, TextOf(Document(r, o)));
            i < |parsed| && parsed[i] == Reading(reader, Document(r, o)[i]) && WellFormed(Document(r, o)[i])
  {
    hide Document, TextOf, ParseText, Reading, WellFormed, OptionsOk;
    ExpositionReads(reader, r, o);
    DocumentOk(r, o);
  }

  /** No line gives a label name twice. */
  lemma LabelNamesDistinct(reader: Reader, r: Registry, o: Options, line: nat, i: nat, j: nat)
    requires OptionsOk(o)
    requires var parsed := ParseText(reader, TextOf(Document(r, o)));
             line < |parsed| && parsed[line].Series? && i < j < |parsed[line].labels|
    ensures var labels := ParseText(reader, TextOf(Document(r, o)))[line].labels;
            labels[i].key != labels[j].key
  {
    hide Document, TextOf, ParseText, OptionsOk, ItemOk, KeyRank, Shown, Name;
    ExpositionReads(reader, r, o);
    LineReads(reader, r, o, line);
    ShownLabelsAscend(reader, Document(r, o)[line].sample.labels);
  }

  /** Two lines that read as one metric with one label set are two items for one series. */
  lemma SameSetSameSeries(reader: Reader, a: Item, b: Item)
    requires WellFormed(a) && WellFormed(b) && Reading(reader, a).Series? && Reading(reader, b).Series?
    requires Reading(reader, a).name == Reading(reader, b).name
    requires LabelSet(Reading(reader, a).labels) == LabelSet(Reading(reader, b).labels)
    ensures SameSeries(reader, a, b)
  {
    hide Name, ItemOk, KeyRank, LegibleLabels, ShownLabels;
    NameInjective(a.sample.metric, b.sample.metric);
    ShownLabelsAscend(reader, a.sample.labels);
    ShownLabelsAscend(reader, b.sample.labels);
    AscendingDetermined(ShownLabels(reader, a.sample.labels), ShownLabels(reader, b.sample.labels));
  }

  lemma DistinctWhenApart(reader: Reader, r: Registry, o: Options)
    requires OptionsOk(o) && Apart(reader, r)
    ensures Distinct(ParseText(reader, TextOf(Document(r, o))))
  {
    hide Families, TextOf, ParseText, OptionsOk, WellFormed, SameSeries, Apart, Reading, LabelSet;
    FamiliesOk(reader, r, o, FAMILIES);
    ExpositionReads(reader, r, o);
    var items, parsed := Document(r, o), ParseText(reader, TextOf(Document(r, o)));
    forall i, j | 0 <= i < j < |parsed| && parsed[i].Series? && parsed[j].Series?
      ensures parsed[i].name != parsed[j].name || LabelSet(parsed[i].labels) != LabelSet(parsed[j].labels)
    {
      if parsed[i].name == parsed[j].name && LabelSet(parsed[i].labels) == LabelSet(parsed[j].labels) {
        SameSetSameSeries(reader, items[i], items[j]);
      }
    }
  }

  /** Two different lines of the document for one series break the distinctness. */
  lemma ClashShows(reader: Reader, r: Registry, o: Options, a: Item, b: Item)
    requires OptionsOk(o) && a in Document(r, o) && b in Document(r, o) && a != b && SameSeries(reader, a, b)
    ensures !Distinct(ParseText(reader, TextOf(Document(r, o))))
  {
    hide Document, TextOf, ParseText, OptionsOk, LegibleLabels, ShownLabels, Name;
    ExpositionReads(reader, r, o);
    var items, parsed := Document(r, o), ParseText(reader, TextOf(Document(r, o)));
    var i :| 0 <= i < |items| && items[i] == a;
    var j :| 0 <= j < |items| && items[j] == b;
    assert parsed[i] == Reading(reader, a) && parsed[j] == Reading(reader, b);
    assert parsed[i].name == parsed[j].name && parsed[i].labels == parsed[j].labels;
  }

  lemma DevicesClash(reader: Reader, r: Registry, o: Options, a: DeviceLabels, b: DeviceLabels)
    requires OptionsOk(o) && reader.Lenient?
    requires a in r.devices && b in r.devices && a != b && ShownDevice(reader, a) == ShownDevice(reader, b)
    ensures !Distinct(ParseText(reader, TextOf(Document(r, o))))
  {
    hide Document, TextOf, ParseText, OptionsOk, Shown, Body, Distinct;
    var x := Line(Sample(Present, Base(a), if r.devices[a].present then "1" else "0"));
    var y := Line(Sample(Present, Base(b), if r.devices[b].present then "1" else "0"));
    PresentInBody(r, o, a);
    PresentInBody(r, o, b);
    BodyInDocument(r, o, 3, x);
    BodyInDocument(r, o, 3, y);
    assert Base(a)[0].value == a.device && Base(a)[1].value == a.pid;
    assert Base(b)[0].value == b.device && Base(b)[1].value == b.pid;
    assert ShownLabels(reader, Base(a)) == ShownLabels(reader, Base(b));
    ClashShows(reader, r, o, x, y);
  }

  lemma KeysClash(reader: Reader, r: Registry, o: Options, n: nat, m: Metric, name: string, a: Key, b: Key, v: string, w: string)
    requires OptionsOk(o) && reader.Lenient? && n < FAMILIES && a != b && ShownKey(reader, a) == ShownKey(reader, b)
    requires Line(Sample(m, KeyLabels(a, name), v)) in Body(r, o, n) && Line(Sample(m, KeyLabels(b, name), w)) in Body(r, o, n)
    ensures !Distinct(ParseText(reader, TextOf(Document(r, o))))
  {
    hide Document, TextOf, ParseText, OptionsOk, Shown, Body, Distinct;
    var la, lb := KeyLabels(a, name), KeyLabels(b, name);
    BodyInDocument(r, o, n, Line(Sample(m, la, v)));
    BodyInDocument(r, o, n, Line(Sample(m, lb, w)));
    assert la[0].value == a.0.device && la[1].value == a.0.pid && la[2].value == a.1;
    assert lb[0].value == b.0.device && lb[1].value == b.0.pid && lb[2].value == b.1;
    assert ShownLabels(reader, la) == ShownLabels(reader, lb);
    ClashShows(reader, r, o, Line(Sample(m, la, v)), Line(Sample(m, lb, w)));
  }

  lemma CountersClash(reader: Reader, r: Registry, o: Options)
    requires OptionsOk(o) && reader.Lenient? && Distinct(ParseText(reader, TextOf(Document(r, o))))
    ensures KeysApart(reader, r.transactions.Keys) && KeysApart(reader, r.attempts.Keys) && KeysApart(reader, r.errors.Keys)
  {
    hide Document, TextOf, ParseText, OptionsOk, ShownKey, KeyLabels, ForCounters, Distinct;
    forall a, b | a in r.transactions && b in r.transactions && a != b ensures ShownKey(reader, a) != ShownKey(reader, b) {
      if ShownKey(reader, a) == ShownKey(reader, b) {
        CounterInBody(o, Transactions, "command", r.transactions, a);
        CounterInBody(o, Transactions, "command", r.transactions, b);
        KeysClash(reader, r, o, 9, Transactions, "command", a, b, o.format.integer(r.transactions[a]), o.format.integer(r.transactions[b]));
      }
    }
    forall a, b | a in r.attempts && b in r.attempts && a != b ensures ShownKey(reader, a) != ShownKey(reader, b) {
      if ShownKey(reader, a) == ShownKey(reader, b) {
        CounterInBody(o, Attempts, "command", r.attempts, a);
        CounterInBody(o, Attempts, "command", r.attempts, b);
        KeysClash(reader, r, o, 10, Attempts, "command", a, b, o.format.integer(r.attempts[a]), o.format.integer(r.attempts[b]));
      }
    }
    forall a, b | a in r.errors && b in r.errors && a != b ensures ShownKey(reader, a) != ShownKey(reader, b) {
      if ShownKey(reader, a) == ShownKey(reader, b) {
        CounterInBody(o, Errors, "reason", r.errors, a);
        CounterInBody(o, Errors, "reason", r.errors, b);
        KeysClash(reader, r, o, 11, Errors, "reason", a, b, o.format.integer(r.errors[a]), o.format.integer(r.errors[b]));
      }
    }
  }

  lemma HistogramsClash(reader: Reader, r: Registry, o: Options)
    requires OptionsOk(o) && reader.Lenient? && Distinct(ParseText(reader, TextOf(Document(r, o))))
    ensures KeysApart(reader, r.latency.Keys)
  {
    hide Document, TextOf, ParseText, OptionsOk, ShownKey, KeyLabels, ForHistograms, BucketItems, Distinct;
    forall a, b | a in r.latency && b in r.latency && a != b ensures ShownKey(reader, a) != ShownKey(reader, b) {
      if ShownKey(reader, a) == ShownKey(reader, b) {
        forall k | k == a || k == b
          ensures Line(Sample(DurationCount, KeyLabels(k, "command"), o.format.integer(r.latency[k].total))) in Body(r, o, 12)
        {
          HistogramInBody(r, o, k, Line(Sample(DurationCount, KeyLabels(k, "command"), o.format.integer(r.latency[k].total))));
        }
        KeysClash(reader, r, o, 12, DurationCount, "command", a, b,
          o.format.integer(r.latency[a].total), o.format.integer(r.latency[b].total));
      }
    }
  }

  /** A reader sees no series twice if and only if the registry's keys stay apart as it shows
      them. They always do for the standard reader and for the escaper's own inverse; the
      lenient one takes a carriage return for a backslash and an r. */
  lemma NoDuplicateSeries(reader: Reader, r: Registry, o: Options)
    requires OptionsOk(o)
    ensures Distinct(ParseText(reader, TextOf(Document(r, o)))) <==> Apart(reader, r)
    ensures !reader.Lenient? ==> Apart(reader, r)
  {
    hide Document, TextOf, ParseText, OptionsOk, Distinct, ShownKey, ShownDevice;
    if Apart(reader, r) {
      DistinctWhenApart(reader, r, o);
    }
    if !reader.Lenient? {
      ApartUnlessLenient(reader, r);
    } else if Distinct(ParseText(reader, TextOf(Document(r, o)))) {
      forall a, b | a in r.devices && b in r.devices && a != b ensures ShownDevice(reader, a) != ShownDevice(reader, b) {
        if ShownDevice(reader, a) == ShownDevice(reader, b) {
          DevicesClash(reader, r, o, a, b);
        }
      }
      CountersClash(reader, r, o);
      HistogramsClash(reader, r, o);
    }
  }

  /** Such a registry: two devices whose names differ, one by a carriage return and the other
      by a backslash and an r. */
  lemma TwoDevicesOneSeries(o: Options, state: DeviceState)
    requires OptionsOk(o)
    ensures var r := EMPTY.(devices := map[DeviceLabels("\r", "") := state, DeviceLabels("\\r", "") := state]);
            !Distinct(ParseText(Lenient, TextOf(Document(r, o))))
  {
    hide Document, TextOf, ParseText, OptionsOk, Distinct, Shown;
    var a, b := DeviceLabels("\r", ""), DeviceLabels("\\r", "");
    var r := EMPTY.(devices := map[a := state, b := state]);
    CarriageReturnShown();
    assert a in r.devices.Keys && b in r.devices.Keys && a != b && ShownDevice(Lenient, a) == ShownDevice(Lenient, b);
    NoDuplicateSeries(Lenient, r, o);
  }

  // ---------------------------------------------------------------- grouping

  /** Every sample stands in the run of samples after its family's type line, which follows
      the family's help line, and no family has two type lines. */
  ghost predicate Headed(parsed: seq<Parsed>) {
    && (forall i, j :: 0 <= i < j < |parsed| && parsed[i].TypeOf? && parsed[j].TypeOf? ==> parsed[i].name != parsed[j].name)
    && (forall i :: 0 <= i < |parsed| && parsed[i].TypeOf? ==> i > 0 && parsed[i - 1] == HelpOf(parsed[i].name))
    && (forall i :: 0 <= i < |parsed| && parsed[i].Series? ==> exists h :: Heads(parsed, h, i))
  }

  /** Line `h` is the type line of sample `i`, with only samples in between. */
  predicate Heads(parsed: seq<Parsed>, h: int, i: int)
    requires 0 <= i < |parsed| && parsed[i].Series?
  {
    && 0 <= h < i && parsed[h].TypeOf? && Belongs(parsed[i].name, parsed[h].name, parsed[h].kind)
    && forall k :: h < k <= i ==> parsed[k].Series? || parsed[k].Broken?
  }

  lemma {:induction false} FamiliesHeaded(reader: Reader, r: Registry, o: Options, n: nat)
    requires OptionsOk(o) && n <= FAMILIES
    ensures var parsed := Readings(reader, Families(r, o, n));
            Headed(parsed)
            && forall i :: 0 <= i < |parsed| && parsed[i].TypeOf? ==> exists m: nat :: m < n && parsed[i].name == FamilyName(m)
  {
    hide Body, FamilyName, Kind, OptionsOk, Headed, Reading;
    if n == 0 {
      NothingHeaded();
    } else {
      FamiliesHeaded(reader, r, o, n - 1);
      var before, header, body := Families(r, o, n - 1), Header(o, n - 1), Body(r, o, n - 1);
      HeaderReadings(reader, o, n - 1);
      BodyReadings(reader, r, o, n - 1);
      assert Readings(reader, before + (header + body)) ==
             Readings(reader, before) + Readings(reader, header) + Readings(reader, body);
      NewName(Readings(reader, before), n - 1);
      AppendHeaded(Readings(reader, before), FamilyName(n - 1), Kind(n - 1), Readings(reader, body));
    }
  }

  lemma NothingHeaded()
    ensures Headed([])
  {
  }

  lemma HeaderReadings(reader: Reader, o: Options, n: nat)
    requires n < FAMILIES
    ensures Readings(reader, Header(o, n)) == [HelpOf(FamilyName(n)), TypeOf(FamilyName(n), Kind(n))]
  {
    hide FamilyName, Kind;
  }

  /** The samples of a family are samples, and carry a name of the family. */
  lemma BodyReadings(reader: Reader, r: Registry, o: Options, n: nat)
    requires OptionsOk(o) && n < FAMILIES
    ensures var parsed := Readings(reader, Body(r, o, n));
            forall i :: 0 <= i < |parsed| ==>
              parsed[i].Broken? || (parsed[i].Series? && Belongs(parsed[i].name, FamilyName(n), Kind(n)))
  {
    hide Body, FamilyName, Kind, OptionsOk, WellFormed, Name, Belongs, Apart, Family, LegibleLabels, ShownLabels;
    ApartUnlessLenient(Own, r);
    BodyOk(Own, r, o, n);
    var items := Body(r, o, n);
    forall i | 0 <= i < |items| ensures Belongs(Name(items[i].sample.metric), FamilyName(n), Kind(n)) {
      SamplesBelong(items[i].sample.metric);
    }
  }

  lemma NewName(parsed: seq<Parsed>, n: nat)
    requires n < FAMILIES
    requires forall i :: 0 <= i < |parsed| && parsed[i].TypeOf? ==> exists m: nat :: m < n && parsed[i].name == FamilyName(m)
    ensures forall i :: 0 <= i < |parsed| && parsed[i].TypeOf? ==> parsed[i].name != FamilyName(n)
  {
    hide FamilyName;
    forall i | 0 <= i < |parsed| && parsed[i].TypeOf? ensures parsed[i].name != FamilyName(n) {
      var m: nat :| m < n && parsed[i].name == FamilyName(m);
      if FamilyName(m) == FamilyName(n) {
        FamilyNameInjective(m, n);
      }
    }
  }

  lemma AppendHeaded(before: seq<Parsed>, name: string, kind: string, body: seq<Parsed>)
    requires Headed(before)
    requires forall i :: 0 <= i < |before| && before[i].TypeOf? ==> before[i].name != name
    requires forall i :: 0 <= i < |body| ==> body[i].Broken? || (body[i].Series? && Belongs(body[i].name, name, kind))
    ensures Headed(before + [HelpOf(name), TypeOf(name, kind)] + body)
  {
    hide Belongs;
    var all := before + [HelpOf(name), TypeOf(name, kind)] + body;
    var here := |before| + 1;
    assert all[here] == TypeOf(name, kind) && all[here - 1] == HelpOf(name);
    forall i | 0 <= i < |all| && all[i].Series? ensures exists h :: Heads(all, h, i) {
      if i < |before| {
        var h :| Heads(before, h, i);
        assert all[h] == before[h] && all[i] == before[i];
        assert Heads(all, h, i);
      } else {
        assert Heads(all, here, i);
      }
    }
  }

  /** Each family has one type line, which follows its help line, precedes its samples and is
      separated from none of them by another family. */
  lemma FamiliesAreGrouped(reader: Reader, r: Registry, o: Options)
    requires OptionsOk(o)
    ensures Headed(ParseText(reader, TextOf(Document(r, o))))
    ensures Grouped(FAMILIES, Document(r, o))
  {
    hide Families, TextOf, ParseText, OptionsOk, Headed, Readings, Grouped, AllWellFormed, ItemOk;
    ExpositionReads(reader, r, o);
    FamiliesHeaded(reader, r, o, FAMILIES);
    DocumentOk(r, o);
  }

  // -------------------------------------------------------- nothing is left out

  lemma {:induction false} EachContains<K(!new)>(keys: seq<K>, f: K -> seq<Item>, k: K, item: Item)
    requires k in keys && item in f(k)
    ensures item in Each(keys, f)
    decreases |keys|
  {
    var n := |keys| - 1;
    if keys[n] != k {
      EachContains(keys[..n], f, k, item);
    }
  }

  lemma {:induction false} FamiliesContain(r: Registry, o: Options, n: nat, family: nat, item: Item)
    requires family < n <= FAMILIES && item in Body(r, o, family)
    ensures item in Families(r, o, n)
  {
    hide Body, Header;
    if family < n - 1 {
      FamiliesContain(r, o, n - 1, family, item);
    }
  }

  lemma BodyInDocument(r: Registry, o: Options, family: nat, item: Item)
    requires family < FAMILIES && item in Body(r, o, family)
    ensures item in Document(r, o)
  {
    hide Body, Families;
    FamiliesContain(r, o, FAMILIES, family, item);
  }

  /** The reader finds this sample in the rendered text, as it reads it. */
  ghost predicate Shows(reader: Reader, r: Registry, o: Options, m: Metric, labels: seq<Label>, value: string) {
    Reading(reader, Line(Sample(m, labels, value))) in ParseText(reader, TextOf(Document(r, o)))
  }

  lemma ItemShown(reader: Reader, r: Registry, o: Options, family: nat, m: Metric, labels: seq<Label>, value: string)
    requires OptionsOk(o) && family < FAMILIES && Line(Sample(m, labels, value)) in Body(r, o, family)
    ensures Shows(reader, r, o, m, labels, value)
  {
    hide Body, Document, TextOf, ParseText, OptionsOk, Reading;
    BodyInDocument(r, o, family, Line(Sample(m, labels, value)));
    ExpositionReads(reader, r, o);
    var items := Document(r, o);
    var i :| 0 <= i < |items| && items[i] == Line(Sample(m, labels, value));
    assert Readings(reader, items)[i] == Reading(reader, items[i]);
  }

  lemma CounterInBody(o: Options, m: Metric, name: string, counters: map<Key, nat>, k: Key)
    requires k in counters
    ensures Line(Sample(m, KeyLabels(k, name), o.format.integer(counters[k]))) in ForCounters(o, m, name, counters)
  {
    hide KeyLabels, KeyLe;
    KeyLeTotal();
    InOrderVisitsOnce(counters.Keys, KeyLe);
    var f := (k: Key) => if k in counters then Single(m, KeyLabels(k, name), o.format.integer(counters[k])) else [];
    EachContains(Keys(counters), f, k, Line(Sample(m, KeyLabels(k, name), o.format.integer(counters[k]))));
  }

  lemma DeviceLabelsSpelled(l: DeviceLabels)
    ensures Base(l) == [Label("device", l.device), Label("pid", l.pid)]
  {
  }

  lemma KeyLabelsSpelled(k: Key, name: string)
    ensures KeyLabels(k, name) == [Label("device", k.0.device), Label("pid", k.0.pid), Label(name, k.1)]
  {
  }

  lemma BucketLabelsSpelled(k: Key, bound: string)
    ensures BucketLabels(k, bound) ==
            [Label("device", k.0.device), Label("pid", k.0.pid), Label("command", k.1), Label("le", bound)]
  {
  }

  /** Every counter is shown, under its device and command (or reason), with its value. */
  lemma CountersShown(reader: Reader, r: Registry, o: Options, k: Key)
    requires OptionsOk(o)
    ensures var device, pid := Label("device", k.0.device), Label("pid", k.0.pid);
            && (k in r.transactions ==>
                  Shows(reader, r, o, Transactions, [device, pid, Label("command", k.1)], o.format.integer(r.transactions[k])))
            && (k in r.attempts ==>
                  Shows(reader, r, o, Attempts, [device, pid, Label("command", k.1)], o.format.integer(r.attempts[k])))
            && (k in r.errors ==>
                  Shows(reader, r, o, Errors, [device, pid, Label("reason", k.1)], o.format.integer(r.errors[k])))
  {
    hide Shows, OptionsOk, KeyLabels, ForCounters;
    KeyLabelsSpelled(k, "command");
    KeyLabelsSpelled(k, "reason");
    if k in r.transactions {
      CounterInBody(o, Transactions, "command", r.transactions, k);
      ItemShown(reader, r, o, 9, Transactions, KeyLabels(k, "command"), o.format.integer(r.transactions[k]));
    }
    if k in r.attempts {
      CounterInBody(o, Attempts, "command", r.attempts, k);
      ItemShown(reader, r, o, 10, Attempts, KeyLabels(k, "command"), o.format.integer(r.attempts[k]));
    }
    if k in r.errors {
      CounterInBody(o, Errors, "reason", r.errors, k);
      ItemShown(reader, r, o, 11, Errors, KeyLabels(k, "reason"), o.format.integer(r.errors[k]));
    }
  }

  /** The version, the uptime and what is known of the polls are shown. */
  lemma ScalarsShown(reader: Reader, r: Registry, o: Options)
    requires OptionsOk(o)
    ensures Shows(reader, r, o, BuildInfo, [Label("version", o.version)], "1")
    ensures Shows(reader, r, o, Uptime, [], o.uptime)
    ensures Shows(reader, r, o, Polls, [], o.format.integer(r.polls))
    ensures Shows(reader, r, o, PollFailures, [], o.format.integer(r.pollFailures))
    ensures Shows(reader, r, o, PollDuration, [], o.format.seconds(r.lastPollDuration))
  {
    hide Shows, OptionsOk;
    ItemShown(reader, r, o, 0, BuildInfo, [Label("version", o.version)], "1");
    ItemShown(reader, r, o, 1, Uptime, [], o.uptime);
    ItemShown(reader, r, o, 13, Polls, [], o.format.integer(r.polls));
    ItemShown(reader, r, o, 14, PollFailures, [], o.format.integer(r.pollFailures));
    ItemShown(reader, r, o, 15, PollDuration, [], o.format.seconds(r.lastPollDuration));
  }

  lemma {:induction false} BucketInItems(o: Options, k: Key, h: HistogramView, n: nat, i: nat)
    requires i < n <= BUCKET_COUNT
    ensures Line(Sample(DurationBucket, BucketLabels(k, BoundText(i)), o.format.integer(h.counts[i]))) in BucketItems(o, k, h, n)
  {
    hide BoundText;
    if i < n - 1 {
      BucketInItems(o, k, h, n - 1, i);
    }
  }

  lemma HistogramInBody(r: Registry, o: Options, k: Key, item: Item)
    requires k in r.latency && item in HistogramItems(o, k, r.latency[k])
    ensures item in ForHistograms(r, o)
  {
    hide HistogramItems, KeyLe;
    KeyLeTotal();
    InOrderVisitsOnce(r.latency.Keys, KeyLe);
    var f := (k: Key) => if k in r.latency then HistogramItems(o, k, r.latency[k]) else [];
    EachContains(Keys(r.latency), f, k, item);
  }

  /** Every histogram is shown: each bucket under a bound that means the numeric one, `+Inf` and
      the count with the total, and the sum. */
  lemma HistogramsShown(reader: Reader, r: Registry, o: Options, k: Key, i: nat)
    returns (bound: string, whole: string, fraction: string)
    requires OptionsOk(o) && k in r.latency && i < BUCKET_COUNT
    ensures MeansSeconds(bound, whole, fraction, Bound(i))
    ensures var h := r.latency[k];
            var labels := [Label("device", k.0.device), Label("pid", k.0.pid), Label("command", k.1)];
            && Shows(reader, r, o, DurationBucket, labels + [Label("le", bound)], o.format.integer(h.counts[i]))
            && Shows(reader, r, o, DurationBucket, labels + [Label("le", "+Inf")], o.format.integer(h.total))
            && Shows(reader, r, o, DurationSum, labels, o.format.seconds(h.sum))
            && Shows(reader, r, o, DurationCount, labels, o.format.integer(h.total))
  {
    hide Shows, OptionsOk, KeyLabels, ForHistograms, BoundText, Bound, BucketItems, MeansSeconds;
    whole, fraction := BoundTextMeans(i);
    bound := BoundText(i);
    KeyLabelsSpelled(k, "command");
    var h := r.latency[k];
    BucketInItems(o, k, h, BUCKET_COUNT, i);
    var bucket := Sample(DurationBucket, BucketLabels(k, bound), o.format.integer(h.counts[i]));
    var inf := Sample(DurationBucket, BucketLabels(k, "+Inf"), o.format.integer(h.total));
    var sum := Sample(DurationSum, KeyLabels(k, "command"), o.format.seconds(h.sum));
    var count := Sample(DurationCount, KeyLabels(k, "command"), o.format.integer(h.total));
    forall s | s == bucket || s == inf || s == sum || s == count ensures Shows(reader, r, o, s.metric, s.labels, s.value) {
      assert Line(s) in HistogramItems(o, k, h);
      HistogramInBody(r, o, k, Line(s));
      ItemShown(reader, r, o, 12, s.metric, s.labels, s.value);
    }
    assert Shows(reader, r, o, bucket.metric, bucket.labels, bucket.value) && Shows(reader, r, o, inf.metric, inf.labels, inf.value);
    assert Shows(reader, r, o, sum.metric, sum.labels, sum.value) && Shows(reader, r, o, count.metric, count.labels, count.value);
  }

  lemma DeviceInBody(r: Registry, o: Options, m: Metric, l: DeviceLabels, item: Item)
    requires l in r.devices && item in DeviceItems(o, m, l, r.devices[l])
    ensures item in ForDevices(r, o, m)
  {
    hide DeviceItems, LabelsLe;
    LabelsLeTotal();
    InOrderVisitsOnce(r.devices.Keys, LabelsLe);
    var f := (l: DeviceLabels) => if l in r.devices then DeviceItems(o, m, l, r.devices[l]) else [];
    EachContains(DeviceKeys(r.devices), f, l, item);
  }

  lemma PresentInBody(r: Registry, o: Options, l: DeviceLabels)
    requires l in r.devices
    ensures Line(Sample(Present, Base(l), if r.devices[l].present then "1" else "0")) in Body(r, o, 3)
  {
    hide ForDevices, Base;
    DeviceInBody(r, o, Present, l, Line(Sample(Present, Base(l), if r.devices[l].present then "1" else "0")));
  }

  lemma DeviceItemShown(reader: Reader, r: Registry, o: Options, m: Metric, l: DeviceLabels, labels: seq<Label>, value: string)
    requires OptionsOk(o) && l in r.devices && 2 <= Family(m) <= 8
    requires Line(Sample(m, labels, value)) in DeviceItems(o, m, l, r.devices[l])
    ensures Shows(reader, r, o, m, labels, value)
  {
    hide Shows, OptionsOk, DeviceItems, ForDevices;
    DeviceInBody(r, o, m, l, Line(Sample(m, labels, value)));
    assert Lead(Family(m)) == m;
    ItemShown(reader, r, o, Family(m), m, labels, value);
  }

  /** The identity of a device as it is shown: its name and product id, then what is known of
      firmware, transaction id (as `id`) and, when exposed, serial. */
  function Identity(o: Options, l: DeviceLabels, s: DeviceState, id: string): seq<Label> {
    [Label("device", l.device), Label("pid", l.pid)]
    + (match s.firmware case Some(v) => [Label("firmware", v)] case None => [])
    + (match s.transactionId case Some(_) => [Label("transaction_id", id)] case None => [])
    + (match s.serial case Some(v) => if o.exposeSerial then [Label("serial", v)] else [] case None => [])
  }

  lemma IdentityIsInfo(o: Options, l: DeviceLabels, s: DeviceState)
    ensures InfoLabels(o, l, s) == Identity(o, l, s, if s.transactionId.Some? then HexByte(s.transactionId.value) else "")
  {
    hide HexByte;
  }

  /** Every device is shown with its identity and presence, and every known reading of it. The
      transaction id is shown as text that means it. */
  lemma DevicesShown(reader: Reader, r: Registry, o: Options, l: DeviceLabels) returns (id: string)
    requires OptionsOk(o) && l in r.devices
    ensures var s := r.devices[l];
            s.transactionId.Some? ==> |id| == 4 && HexText.Denotes(id, "0x", id[2..], s.transactionId.value)
    ensures var s, base := r.devices[l], [Label("device", l.device), Label("pid", l.pid)];
            && Shows(reader, r, o, DeviceInfo, Identity(o, l, s, id), "1")
            && Shows(reader, r, o, Present, base, if s.present then "1" else "0")
            && (s.usbDevnum.Some? ==> Shows(reader, r, o, UsbDevnum, base, o.format.integer(s.usbDevnum.value)))
            && (s.kernelDriver.Some? ==>
                  Shows(reader, r, o, KernelDriver, base + [Label("driver", s.kernelDriver.value)], "1"))
            && (s.deviceMode.Some? ==> Shows(reader, r, o, Mode, base, o.format.integer(s.deviceMode.value)))
            && (s.pollRateHz.Some? ==> Shows(reader, r, o, PollRateHz, base, o.format.integer(s.pollRateHz.value)))
            && (s.brightness.Some? ==> Shows(reader, r, o, BrightnessRatio, base, o.format.ratio(s.brightness.value)))
  {
    hide Shows, OptionsOk, InfoLabels, Base, HexByte, HexText.Denotes, Identity;
    var s := r.devices[l];
    id := if s.transactionId.Some? then HexByte(s.transactionId.value) else "";
    if s.transactionId.Some? {
      HexByteMeans(s.transactionId.value);
    }
    DeviceLabelsSpelled(l);
    IdentityIsInfo(o, l, s);
    DeviceItemShown(reader, r, o, DeviceInfo, l, InfoLabels(o, l, s), "1");
    DeviceItemShown(reader, r, o, Present, l, Base(l), if s.present then "1" else "0");
    if s.usbDevnum.Some? { DeviceItemShown(reader, r, o, UsbDevnum, l, Base(l), o.format.integer(s.usbDevnum.value)); }
    if s.kernelDriver.Some? {
      DeviceItemShown(reader, r, o, KernelDriver, l, Base(l) + [Label("driver", s.kernelDriver.value)], "1");
    }
    if s.deviceMode.Some? { DeviceItemShown(reader, r, o, Mode, l, Base(l), o.format.integer(s.deviceMode.value)); }
    if s.pollRateHz.Some? { DeviceItemShown(reader, r, o, PollRateHz, l, Base(l), o.format.integer(s.pollRateHz.value)); }
    if s.brightness.Some? { DeviceItemShown(reader, r, o, BrightnessRatio, l, Base(l), o.format.ratio(s.brightness.value)); }
  }

  // ----------------------------------------------------------- names and kinds

  /** The families by name, in the order they are written. */
  const FAMILY_NAMES: seq<string> := [
    "razer_build_info", "razer_uptime_seconds",
    "razer_device_info", "razer_device_present", "razer_device_usb_devnum", "razer_device_kernel_driver",
    "razer_device_mode", "razer_device_poll_rate_hz", "razer_device_brightness_ratio",
    "razer_transactions_total", "razer_transaction_attempts_total", "razer_transaction_errors_total",
    "razer_transaction_duration_seconds",
    "razer_polls_total", "razer_poll_failures_total", "razer_poll_duration_seconds"]

  lemma NamesByFamily(m: Metric)
    ensures Family(m) != HISTOGRAM_FAMILY ==> Name(m) == FAMILY_NAMES[Family(m)]
  {
  }

  lemma FamilyNamesSpelled(n: nat)
    requires n < FAMILIES
    ensures FamilyName(n) == FAMILY_NAMES[n]
  {
    hide Name;
    NamesByFamily(Lead(n));
  }

  lemma {:induction false} HeaderAt(r: Registry, o: Options, n: nat, family: nat)
    requires family < n <= FAMILIES
    ensures Type(FamilyName(family), Kind(family)) in Families(r, o, n)
  {
    hide Body, FamilyName, Kind;
    if family < n - 1 {
      HeaderAt(r, o, n - 1, family);
    } else {
      assert Header(o, family)[1] == Type(FamilyName(family), Kind(family));
    }
  }

  /** Every family is declared under its name with its type: the transaction counters and the
      poll counters are counters, the durations of transactions a histogram, the rest gauges. */
  lemma TypesShown(reader: Reader, r: Registry, o: Options, n: nat)
    requires OptionsOk(o) && n < FAMILIES
    ensures TypeOf(FAMILY_NAMES[n], if n == 12 then "histogram" else if n in {9, 10, 11, 13, 14} then "counter" else "gauge")
            in ParseText(reader, TextOf(Document(r, o)))
  {
    hide Families, TextOf, ParseText, OptionsOk, Reading, FamilyName;
    HeaderAt(r, o, FAMILIES, n);
    FamilyNamesSpelled(n);
    ExpositionReads(reader, r, o);
    var items, item := Document(r, o), Type(FamilyName(n), Kind(n));
    var i :| 0 <= i < |items| && items[i] == item;
    TypeReading(reader, item);
    assert Readings(reader, items)[i] == Reading(reader, item);
  }

  lemma TypeReading(reader: Reader, item: Item)
    requires item.Type?
    ensures Reading(reader, item) == TypeOf(item.name, item.kind)
  {
  }

  lemma {:induction false} HeaderInFamilies(r: Registry, o: Options, n: nat, family: nat, item: Item)
    requires family < n <= FAMILIES && item in Header(o, family)
    ensures item in Families(r, o, n)
  {
    hide Body, Header;
    if family < n - 1 {
      HeaderInFamilies(r, o, n - 1, family, item);
    }
  }

  lemma HeaderSpelled(o: Options, n: nat)
    requires n < FAMILIES
    ensures |Header(o, n)| == 2
    ensures RenderItem(Header(o, n)[0]) == "# HELP " + FAMILY_NAMES[n] + " " + o.help(n)
    ensures RenderItem(Header(o, n)[1]) == "# TYPE " + FAMILY_NAMES[n] + " " + Kind(n)
  {
    hide FamilyName;
    FamilyNamesSpelled(n);
  }

  /** Each family has its own help text and its type on lines of their own, as the format spells
      them. */
  lemma HeadersWritten(r: Registry, o: Options, n: nat)
    requires OptionsOk(o) && n < FAMILIES
    ensures "# HELP " + FAMILY_NAMES[n] + " " + o.help(n) in Lines(TextOf(Document(r, o)))
    ensures "# TYPE " + FAMILY_NAMES[n] + " " + Kind(n) in Lines(TextOf(Document(r, o)))
  {
    hide Families, TextOf, Lines, OptionsOk, Header, RenderItem, ItemOk, AllWellFormed, Grouped;
    var items := Document(r, o);
    DocumentOk(r, o);
    LinesOfText(items);
    HeaderSpelled(o, n);
    forall i: nat | i < 2 ensures RenderItem(Header(o, n)[i]) in Lines(TextOf(items)) {
      HeaderInFamilies(r, o, FAMILIES, n, Header(o, n)[i]);
      var k :| 0 <= k < |items| && items[k] == Header(o, n)[i];
      assert Lines(TextOf(items))[k] == RenderItem(items[k]);
    }
  }

  // -------------------------------------------------------------- line order

  lemma {:induction false} BucketAt(o: Options, k: Key, h: HistogramView, n: nat, i: nat)
    requires i < n <= BUCKET_COUNT
    ensures |BucketItems(o, k, h, n)| == n
    ensures BucketItems(o, k, h, n)[i] == Line(Sample(DurationBucket, BucketLabels(k, BoundText(i)), o.format.integer(h.counts[i])))
  {
    hide BoundText, KeyLabels;
    if i < n - 1 {
      BucketAt(o, k, h, n - 1, i);
    } else if n > 1 {
      BucketAt(o, k, h, n - 1, 0);
    }
  }

  lemma BoundsAscend(i: nat)
    requires i < BUCKET_COUNT - 1
    ensures Bound(i) < Bound(i + 1)
  {
  }

  /** A histogram is written in the order the format asks for: its buckets by ascending bound,
      `+Inf` last of them, then the sum and the count. */
  lemma HistogramInOrder(o: Options, k: Key, h: HistogramView, i: nat)
    requires i < BUCKET_COUNT
    ensures i < BUCKET_COUNT - 1 ==> Bound(i) < Bound(i + 1)
    ensures var items := HistogramItems(o, k, h);
            && |items| == 14
            && items[i] == Line(Sample(DurationBucket, BucketLabels(k, BoundText(i)), o.format.integer(h.counts[i])))
            && items[11] == Line(Sample(DurationBucket, BucketLabels(k, "+Inf"), o.format.integer(h.total)))
            && items[12].sample.metric == DurationSum && items[13].sample.metric == DurationCount
  {
    hide BucketItems, BoundText, Bound, KeyLabels;
    BucketAt(o, k, h, BUCKET_COUNT, i);
    if i < BUCKET_COUNT - 1 {
      BoundsAscend(i);
    }
  }

  /** First by device name, then by product id. */
  predicate DeviceBefore(a: DeviceLabels, b: DeviceLabels) {
    if a.device == b.device then a.pid != b.pid && TextLe(a.pid, b.pid) else TextLe(a.device, b.device)
  }

  /** First by device, then by command or reason. */
  predicate KeyBefore(a: Key, b: Key) {
    if a.0 == b.0 then a.1 != b.1 && TextLe(a.1, b.1) else DeviceBefore(a.0, b.0)
  }

  /** The devices are visited in order. */
  lemma DevicesInOrder<V>(m: map<DeviceLabels, V>, i: nat, j: nat)
    requires i < j < |DeviceKeys(m)|
    ensures DeviceBefore(DeviceKeys(m)[i], DeviceKeys(m)[j])
  {
    hide TextLe;
    LabelsLeTotal();
    InOrderVisitsOnce(m.Keys, LabelsLe);
  }

  lemma {:induction false} EachSingle<K(!new)>(keys: seq<K>, f: K -> seq<Item>, i: nat)
    requires i < |keys| && forall k :: k in keys ==> |f(k)| == 1
    ensures |Each(keys, f)| == |keys| && Each(keys, f)[i] == f(keys[i])[0]
    decreases |keys|
  {
    var n := |keys| - 1;
    if i < n {
      EachSingle(keys[..n], f, i);
    } else if n > 0 {
      EachSingle(keys[..n], f, 0);
    }
  }

  lemma KeysInOrder<V>(m: map<Key, V>, i: nat, j: nat)
    requires i < j < |Keys(m)|
    ensures KeyBefore(Keys(m)[i], Keys(m)[j])
  {
    hide TextLe;
    KeyLeTotal();
    InOrderVisitsOnce(m.Keys, KeyLe);
    assert KeyLe(Keys(m)[i], Keys(m)[j]) && Keys(m)[i] != Keys(m)[j];
  }

  /** The lines of a counter family come one per key, in the order of the keys. */
  lemma CountersByKey(o: Options, m: Metric, name: string, counters: map<Key, nat>, i: nat)
    requires i < |Keys(counters)|
    ensures |ForCounters(o, m, name, counters)| == |Keys(counters)| && Keys(counters)[i] in counters
    ensures ForCounters(o, m, name, counters)[i] ==
            Line(Sample(m, KeyLabels(Keys(counters)[i], name), o.format.integer(counters[Keys(counters)[i]])))
  {
    hide KeyLe, KeyLabels, Each;
    KeyLeTotal();
    InOrderVisitsOnce(counters.Keys, KeyLe);
    var f := (k: Key) => if k in counters then Single(m, KeyLabels(k, name), o.format.integer(counters[k])) else [];
    forall k | k in Keys(counters) ensures k in counters && |f(k)| == 1 {
      assert k in counters.Keys;
      assert f(k) == Single(m, KeyLabels(k, name), o.format.integer(counters[k]));
    }
    EachSingle(Keys(counters), f, i);
    var k := Keys(counters)[i];
    assert f(k)[0] == Line(Sample(m, KeyLabels(k, name), o.format.integer(counters[k])));
  }
}
