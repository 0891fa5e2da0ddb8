/** The metric registry (crates/razerd/src/metrics.rs): counters and cumulative histograms
    per device and command, as mutable maps. Durations are in nanoseconds. */
module Metrics {
  import opened Wrappers

  /** Whose counter it is: the model name and the product id as printed. */
  datatype DeviceLabels = DeviceLabels(device: string, pid: string)

  /** A device and a command name, or a device and an error reason. */
  type Key = (DeviceLabels, string)

  type U8 = n: nat | n < 256

  datatype DeviceState = DeviceState(
    present: bool,
    usbDevnum: Option<nat>,
    kernelDriver: Option<string>,
    firmware: Option<string>,
    serial: Option<string>,
    deviceMode: Option<U8>,
    pollRateHz: Option<nat>,
    brightness: Option<U8>,
    transactionId: Option<U8>)

  const BUCKET_COUNT := 11

  /** The upper bound of bucket `i`. */
  function Bound(i: nat): nat
    requires i < BUCKET_COUNT
  {
    [500_000, 1_000_000, 2_000_000, 5_000_000, 10_000_000, 25_000_000, 50_000_000, 100_000_000,
     250_000_000, 500_000_000, 1_000_000_000][i]
  }

  type Counts = s: seq<nat> | |s| == BUCKET_COUNT witness seq(BUCKET_COUNT, _ => 0)

  datatype HistogramView = HistogramView(counts: Counts, sum: nat, total: nat)

  function NewHistogram(): HistogramView {
    HistogramView(seq(BUCKET_COUNT, _ => 0), 0, 0)
  }

  /** Bucket `i` after an observation: buckets are cumulative. */
  function Tallied(count: nat, v: nat, i: nat): nat
    requires i < BUCKET_COUNT
  {
    if v <= Bound(i) then count + 1 else count
  }

  function Observed(h: HistogramView, v: nat): HistogramView {
    HistogramView(
      seq(BUCKET_COUNT, i requires 0 <= i < BUCKET_COUNT => Tallied(h.counts[i], v, i)),
      h.sum + v,
      h.total + 1)
  }

  class Histogram {
    var counts: Counts
    var sum: nat
    var total: nat

    function View(): HistogramView
      reads this
    {
      HistogramView(counts, sum, total)
    }

    constructor ()
      ensures View() == NewHistogram()
    {
      counts := NewHistogram().counts;
      sum, total := 0, 0;
    }

    method Observe(v: nat)
      modifies this
      ensures View() == Observed(old(View()), v)
    {
      hide Bound;
      for i := 0 to BUCKET_COUNT
        invariant sum == old(sum) && total == old(total)
        invariant forall k :: 0 <= k < BUCKET_COUNT ==>
                    counts[k] == old(counts)[k] + if k < i && v <= Bound(k) then 1 else 0
      {
        if v <= Bound(i) {
          counts := counts[i := counts[i] + 1];
        }
      }
      sum := sum + v;
      total := total + 1;
      assert counts == Observed(old(View()), v).counts;
    }
  }

  // ------------------------------------------------------------- the registry

  datatype Registry = Registry(
    devices: map<DeviceLabels, DeviceState>,
    transactions: map<Key, nat>,
    attempts: map<Key, nat>,
    errors: map<Key, nat>,
    latency: map<Key, HistogramView>,
    polls: nat,
    pollFailures: nat,
    lastPollDuration: nat)

  const EMPTY := Registry(map[], map[], map[], map[], map[], 0, 0, 0)

  /** One call of the registry. */
  datatype Call =
    | RecordTransaction(labels: DeviceLabels, command: string, attempts: nat, duration: nat, error: Option<string>)
    | SetDeviceState(device: DeviceLabels, state: DeviceState)
    | RecordPoll(elapsed: nat, failed: bool)

  function Counter(m: map<Key, nat>, key: Key): nat {
    if key in m then m[key] else 0
  }

  function HistogramAt(m: map<Key, HistogramView>, key: Key): HistogramView {
    if key in m then m[key] else NewHistogram()
  }

  /** `entry(key).or_default() += n`. */
  function Bumped(m: map<Key, nat>, key: Key, n: nat): map<Key, nat> {
    m[key := Counter(m, key) + n]
  }

  function Recorded(r: Registry, c: Call): Registry {
    match c
    case RecordTransaction(labels, command, attempts, duration, error) =>
      var key := (labels, command);
      r.(transactions := Bumped(r.transactions, key, 1),
         attempts := Bumped(r.attempts, key, attempts),
         latency := r.latency[key := Observed(HistogramAt(r.latency, key), duration)],
         errors := if error.Some? then Bumped(r.errors, (labels, error.value), 1) else r.errors)
    case SetDeviceState(device, state) => r.(devices := r.devices[device := state])
    case RecordPoll(elapsed, failed) =>
      r.(polls := r.polls + 1, lastPollDuration := elapsed,
         pollFailures := r.pollFailures + if failed then 1 else 0)
  }

  class Metrics {
    var devices: map<DeviceLabels, DeviceState>
    var transactions: map<Key, nat>
    var attempts: map<Key, nat>
    var errors: map<Key, nat>
    var latency: map<Key, Histogram>
    var polls: nat
    var pollFailures: nat
    var lastPollDuration: nat

    /** Each key owns its histogram. */
    ghost predicate Valid()
      reads this`latency
    {
      forall j, k :: j in latency && k in latency && j != k ==> latency[j] != latency[k]
    }

    function LatencyView(): map<Key, HistogramView>
      reads this`latency, latency.Values
    {
      map k | k in latency :: latency[k].View()
    }

    function View(): Registry
      reads this, latency.Values
    {
      Registry(devices, transactions, attempts, errors, LatencyView(), polls, pollFailures, lastPollDuration)
    }

    constructor ()
      ensures Valid() && View() == EMPTY && latency == map[]
    {
      devices, transactions, attempts, errors, latency := map[], map[], map[], map[], map[];
      polls, pollFailures, lastPollDuration := 0, 0, 0;
    }

    /** `entry(key).or_insert_with(Histogram::new)`. */
    method HistogramOf(key: Key) returns (h: Histogram)
      requires Valid()
      modifies this`latency
      ensures Valid() && key in latency && latency[key] == h
      ensures old(key in latency) ==> latency == old(latency)
      ensures old(key !in latency) ==> fresh(h) && h.View() == NewHistogram() && latency == old(latency)[key := h]
    {
      if key !in latency {
        var made := new Histogram();
        latency := latency[key := made];
      }
      h := latency[key];
    }

    method ObserveLatency(key: Key, duration: nat)
      requires Valid()
      modifies this`latency, latency.Values
      ensures Valid() && fresh(latency.Values - old(latency.Values))
      ensures LatencyView() == old(LatencyView())[key := Observed(HistogramAt(old(LatencyView()), key), duration)]
    {
      hide Observed;
      ghost var before := LatencyView();
      var h := HistogramOf(key);
      assert h.View() == HistogramAt(before, key);
      assert forall k :: k in latency && k != key ==> k in before && latency[k] != h && latency[k].View() == before[k];
      h.Observe(duration);
      assert LatencyView() == before[key := Observed(HistogramAt(before, key), duration)];
    }

    method BumpCounters(labels: DeviceLabels, command: string, attempts: nat, error: Option<string>)
      modifies this`transactions, this`attempts, this`errors
      ensures transactions == Bumped(old(transactions), (labels, command), 1)
      ensures this.attempts == Bumped(old(this.attempts), (labels, command), attempts)
      ensures errors == if error.Some? then Bumped(old(errors), (labels, error.value), 1) else old(errors)
    {
      var key := (labels, command);
      transactions := Bumped(transactions, key, 1);
      this.attempts := Bumped(this.attempts, key, attempts);
      if error.Some? {
        errors := Bumped(errors, (labels, error.value), 1);
      }
    }

    method RecordTransaction(labels: DeviceLabels, command: string, attempts: nat, duration: nat, error: Option<string>)
      requires Valid()
      modifies this, latency.Values
      ensures Valid() && fresh(latency.Values - old(latency.Values))
      ensures View() == Recorded(old(View()), Call.RecordTransaction(labels, command, attempts, duration, error))
    {
      hide Observed, Bumped, LatencyView;
      BumpCounters(labels, command, attempts, error);
      ObserveLatency((labels, command), duration);
    }

    method SetDeviceState(labels: DeviceLabels, state: DeviceState)
      requires Valid()
      modifies this`devices
      ensures Valid() && latency == old(latency)
      ensures View() == Recorded(old(View()), Call.SetDeviceState(labels, state))
    {
      devices := devices[labels := state];
    }

    method RecordPoll(duration: nat, failed: bool)
      requires Valid()
      modifies this`polls, this`pollFailures, this`lastPollDuration
      ensures Valid() && latency == old(latency)
      ensures View() == Recorded(old(View()), Call.RecordPoll(duration, failed))
    {
      polls := polls + 1;
      lastPollDuration := duration;
      if failed {
        pollFailures := pollFailures + 1;
      }
    }
  }

  // ----------------------------------------------- the registry and its call log

  /** The registry after a log of calls. */
  function Replay(calls: seq<Call>): Registry {
    if calls == [] then EMPTY else Recorded(Replay(calls[..|calls| - 1]), calls[|calls| - 1])
  }

  /** A registry that has received the calls, in order, is their replay. */
  method Receive(calls: seq<Call>) returns (m: Metrics)
    ensures fresh(m) && m.Valid() && m.View() == Replay(calls)
  {
    hide Recorded;
    m := new Metrics();
    assert calls[..0] == [];
    for i := 0 to |calls|
      invariant fresh(m) && m.Valid() && fresh(m.latency.Values)
      invariant m.View() == Replay(calls[..i])
    {
      assert calls[..i + 1][..i] == calls[..i];
      match calls[i] {
        case RecordTransaction(labels, command, attempts, duration, error) =>
          m.RecordTransaction(labels, command, attempts, duration, error);
        case SetDeviceState(device, state) => m.SetDeviceState(device, state);
        case RecordPoll(elapsed, failed) => m.RecordPoll(elapsed, failed);
      }
    }
    assert calls[..|calls|] == calls;
  }

  predicate IsTransaction(c: Call, key: Key) {
    c.RecordTransaction? && (c.labels, c.command) == key
  }

  // What the log says, independently of the registry.

  /** The durations recorded for one device and command. */
  function Durations(calls: seq<Call>, key: Key): seq<nat> {
    if calls == [] then []
    else
      var c := calls[|calls| - 1];
      Durations(calls[..|calls| - 1], key) + if IsTransaction(c, key) then [c.duration] else []
  }

  function AttemptSum(calls: seq<Call>, key: Key): nat {
    if calls == [] then 0
    else
      var c := calls[|calls| - 1];
      AttemptSum(calls[..|calls| - 1], key) + if IsTransaction(c, key) then c.attempts else 0
  }

  /** Failures of one device for one reason, over all its commands. */
  function ErrorCount(calls: seq<Call>, key: Key): nat {
    if calls == [] then 0
    else
      var c := calls[|calls| - 1];
      ErrorCount(calls[..|calls| - 1], key)
      + if c.RecordTransaction? && c.error.Some? && (c.labels, c.error.value) == key then 1 else 0
  }

  function PollCount(calls: seq<Call>, onlyFailed: bool): nat {
    if calls == [] then 0
    else
      var c := calls[|calls| - 1];
      PollCount(calls[..|calls| - 1], onlyFailed) + if c.RecordPoll? && (onlyFailed ==> c.failed) then 1 else 0
  }

  /** The state of the last poll of a device. */
  function LastState(calls: seq<Call>, device: DeviceLabels): Option<DeviceState> {
    if calls == [] then None
    else
      var c := calls[|calls| - 1];
      if c.SetDeviceState? && c.device == device then Some(c.state) else LastState(calls[..|calls| - 1], device)
  }

  /** How long the last poll took; zero before the first. */
  function LastDuration(calls: seq<Call>): nat {
    if calls == [] then 0
    else
      var c := calls[|calls| - 1];
      if c.RecordPoll? then c.elapsed else LastDuration(calls[..|calls| - 1])
  }

  function Sum(values: seq<nat>): nat {
    if values == [] then 0 else Sum(values[..|values| - 1]) + values[|values| - 1]
  }

  function CountAtMost(values: seq<nat>, bound: nat): nat {
    if values == [] then 0
    else CountAtMost(values[..|values| - 1], bound) + if values[|values| - 1] <= bound then 1 else 0
  }

  /** A histogram is what a list of observations makes it. */
  predicate Summarises(h: HistogramView, values: seq<nat>) {
    && h.total == |values| && h.sum == Sum(values)
    && forall i :: 0 <= i < BUCKET_COUNT ==> h.counts[i] == CountAtMost(values, Bound(i))
  }

  lemma ObservedSummarises(h: HistogramView, values: seq<nat>, v: nat)
    requires Summarises(h, values)
    ensures Summarises(Observed(h, v), values + [v])
  {
    hide Bound;
    assert (values + [v])[..|values + [v]| - 1] == values;
  }

  /** The counters of the registry are totals over its call log: transactions counts the
      records, attempts sums theirs, latency has the same keys, its total is the number of
      records, its sum their durations and bucket `i` exactly those at or below bound `i`;
      errors counts per reason. */
  lemma {:induction false} RegistryTotals(calls: seq<Call>, key: Key)
    ensures var r, durations := Replay(calls), Durations(calls, key);
            && Counter(r.transactions, key) == |durations|
            && (key in r.transactions <==> durations != [])
            && (key in r.attempts <==> durations != [])
            && (key in r.latency <==> durations != [])
            && Counter(r.attempts, key) == AttemptSum(calls, key)
            && Summarises(HistogramAt(r.latency, key), durations)
            && Counter(r.errors, key) == ErrorCount(calls, key)
            && (key in r.errors <==> ErrorCount(calls, key) > 0)
  {
    hide Observed, Summarises;
    if calls == [] {
      assert Summarises(NewHistogram(), []) by { NothingSummarised(); }
    } else {
      var before, c := calls[..|calls| - 1], calls[|calls| - 1];
      RegistryTotals(before, key);
      if IsTransaction(c, key) {
        ObservedSummarises(HistogramAt(Replay(before).latency, key), Durations(before, key), c.duration);
        assert HistogramAt(Replay(calls).latency, key) == Observed(HistogramAt(Replay(before).latency, key), c.duration);
      } else {
        assert Durations(calls, key) == Durations(before, key);
        assert HistogramAt(Replay(calls).latency, key) == HistogramAt(Replay(before).latency, key);
      }
    }
  }

  lemma NothingSummarised()
    ensures Summarises(NewHistogram(), [])
  {
  }

  /** Polls are counted, failures never exceed them, the last duration is kept, and each device
      shows its last state. */
  lemma {:induction false} PollTotals(calls: seq<Call>, device: DeviceLabels)
    ensures var r := Replay(calls);
            && r.polls == PollCount(calls, false) && r.pollFailures == PollCount(calls, true)
            && r.pollFailures <= r.polls && r.lastPollDuration == LastDuration(calls)
            && (device in r.devices <==> LastState(calls, device).Some?)
            && (device in r.devices ==> r.devices[device] == LastState(calls, device).value)
  {
    hide Observed, Bumped, HistogramAt;
    if calls != [] {
      var before, c := calls[..|calls| - 1], calls[|calls| - 1];
      PollTotals(before, device);
      match c
      case SetDeviceState(other, _) =>
        assert Replay(calls).devices == Replay(before).devices[other := c.state];
      case RecordPoll(_, _) =>
      case RecordTransaction(_, _, _, _, _) =>
        assert Replay(calls).devices == Replay(before).devices;
    }
  }

  lemma {:induction false} CountAtMostMonotone(values: seq<nat>, a: nat, b: nat)
    requires a <= b
    ensures CountAtMost(values, a) <= CountAtMost(values, b) <= |values|
  {
    if values != [] {
      CountAtMostMonotone(values[..|values| - 1], a, b);
    }
  }

  /** Rendered buckets never decrease and never exceed `+Inf`. */
  lemma BucketsAreCumulative(calls: seq<Call>, key: Key, i: nat, j: nat)
    requires i <= j < BUCKET_COUNT && key in Replay(calls).latency
    ensures var h := Replay(calls).latency[key];
            h.counts[i] <= h.counts[j] <= h.total && h.total == Counter(Replay(calls).transactions, key)
  {
    RegistryTotals(calls, key);
    CountAtMostMonotone(Durations(calls, key), Bound(i), Bound(j));
  }

  /** When every record counts one to five attempts, so does the rendered ratio. */
  lemma {:induction false} AttemptsPerTransaction(calls: seq<Call>, key: Key)
    requires forall i :: 0 <= i < |calls| && calls[i].RecordTransaction? ==> 1 <= calls[i].attempts <= 5
    ensures var r := Replay(calls);
            Counter(r.transactions, key) <= Counter(r.attempts, key) <= 5 * Counter(r.transactions, key)
  {
    hide Observed;
    if calls != [] {
      AttemptsPerTransaction(calls[..|calls| - 1], key);
    }
  }
}
