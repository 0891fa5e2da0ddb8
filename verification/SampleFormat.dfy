/** Lines of the Prometheus text exposition format 0.0.4 as crates/razerd/src/metrics.rs writes
    them, and readers of that format. */
module SampleFormat {
  import opened Wrappers
  import opened Sequences
  import opened Labels

  // ------------------------------------------------------------------ samples

  datatype Metric =
    | BuildInfo | Uptime
    | DeviceInfo | Present | UsbDevnum | KernelDriver | Mode | PollRateHz | BrightnessRatio
    | Transactions | Attempts | Errors
    | DurationBucket | DurationSum | DurationCount
    | Polls | PollFailures | PollDuration

  function Name(m: Metric): string {
    match m
    case BuildInfo => "razer_build_info"
    case Uptime => "razer_uptime_seconds"
    case DeviceInfo => "razer_device_info"
    case Present => "razer_device_present"
    case UsbDevnum => "razer_device_usb_devnum"
    case KernelDriver => "razer_device_kernel_driver"
    case Mode => "razer_device_mode"
    case PollRateHz => "razer_device_poll_rate_hz"
    case BrightnessRatio => "razer_device_brightness_ratio"
    case Transactions => "razer_transactions_total"
    case Attempts => "razer_transaction_attempts_total"
    case Errors => "razer_transaction_errors_total"
    case DurationBucket => "razer_transaction_duration_seconds_bucket"
    case DurationSum => "razer_transaction_duration_seconds_sum"
    case DurationCount => "razer_transaction_duration_seconds_count"
    case Polls => "razer_polls_total"
    case PollFailures => "razer_poll_failures_total"
    case PollDuration => "razer_poll_duration_seconds"
  }

  const FAMILIES := 16

  /** The family a metric belongs to, families being numbered in output order. */
  function Family(m: Metric): nat {
    match m
    case BuildInfo => 0
    case Uptime => 1
    case DeviceInfo => 2
    case Present => 3
    case UsbDevnum => 4
    case KernelDriver => 5
    case Mode => 6
    case PollRateHz => 7
    case BrightnessRatio => 8
    case Transactions => 9
    case Attempts => 10
    case Errors => 11
    case DurationBucket => 12
    case DurationSum => 12
    case DurationCount => 12
    case Polls => 13
    case PollFailures => 14
    case PollDuration => 15
  }

  datatype Label = Label(key: string, value: string)

  datatype Sample = Sample(metric: Metric, labels: seq<Label>, value: string)

  /** A line: the help text or the type of a family, or a sample. */
  datatype Item = Help(name: string, text: string) | Type(name: string, kind: string) | Line(sample: Sample)

  // ---------------------------------------------------------------- rendering

  function RenderLabel(l: Label): string {
    l.key + "=\"" + Escape(l.value) + "\""
  }

  function RenderLabels(ls: seq<Label>): string {
    if ls == [] then []
    else if |ls| == 1 then RenderLabel(ls[0])
    else RenderLabel(ls[0]) + "," + RenderLabels(ls[1..])
  }

  function RenderSample(s: Sample): string {
    Name(s.metric) + (if s.labels == [] then [] else "{" + RenderLabels(s.labels) + "}") + " " + s.value
  }

  const HELP := "# HELP "
  const TYPE := "# TYPE "

  function RenderItem(item: Item): string {
    match item
    case Help(name, text) => HELP + name + " " + text
    case Type(name, kind) => TYPE + name + " " + kind
    case Line(sample) => RenderSample(sample)
  }

  /** One line per item, each ended by a newline. */
  function TextOf(items: seq<Item>): string {
    if items == [] then [] else TextOf(items[..|items| - 1]) + RenderItem(items[|items| - 1]) + "\n"
  }

  // ------------------------------------------------------------------ reading

  datatype Parsed =
    | Skipped
    | Broken
    | HelpOf(name: string)
    | TypeOf(name: string, kind: string)
    | Series(name: string, labels: seq<Label>, value: string)

  /** Labels up to the closing brace, and what follows it. */
  function ParseLabels(reader: Reader, s: string): Option<(seq<Label>, string)>
    decreases |s|
  {
    var e := IndexOf(s, '=');
    if e + 1 >= |s| || s[e + 1] != '"' then None
    else
      match ScanValue(reader, s[e + 2..])
      case None => None
      case Some((value, rest)) =>
        var first := Label(s[..e], value);
        if rest == [] then None
        else if rest[0] == '}' then Some(([first], rest[1..]))
        else if rest[0] != ',' then None
        else
          match ParseLabels(reader, rest[1..])
          case None => None
          case Some((labels, tail)) => Some(([first] + labels, tail))
  }

  function ParseSample(reader: Reader, line: string): Parsed {
    var brace, space := IndexOf(line, '{'), IndexOf(line, ' ');
    if brace < space && brace < |line| then
      match ParseLabels(reader, line[brace + 1..])
      case Some((labels, rest)) =>
        if rest != [] && rest[0] == ' ' then Series(line[..brace], labels, rest[1..]) else Broken
      case None => Broken
    else if space < |line| then Series(line[..space], [], line[space + 1..])
    else Broken
  }

  /** What follows `# HELP ` or `# TYPE `: a name, a space, and the rest of the line. */
  function ParseHeader(text: string): Option<(string, string)> {
    var space := IndexOf(text, ' ');
    if space < |text| then Some((text[..space], text[space + 1..])) else None
  }

  function ParseLine(reader: Reader, line: string): Parsed {
    if line == [] then Skipped
    else if HELP <= line then
      match ParseHeader(line[|HELP|..])
      case Some((name, _)) => HelpOf(name)
      case None => Broken
    else if TYPE <= line then
      match ParseHeader(line[|TYPE|..])
      case Some((name, kind)) => TypeOf(name, kind)
      case None => Broken
    else if line[0] == '#' then Skipped
    else ParseSample(reader, line)
  }

  /** The lines of a text: what stands before each newline, and what is left at the end. */
  function Lines(text: string): seq<string>
    decreases |text|
  {
    if text == [] then []
    else
      var end := IndexOf(text, '\n');
      if end < |text| then [text[..end]] + Lines(text[end + 1..]) else [text]
  }

  function ParseText(reader: Reader, text: string): seq<Parsed> {
    var lines := Lines(text);
    seq(|lines|, i requires 0 <= i < |lines| => ParseLine(reader, lines[i]))
  }

  /** What an item says. */
  function Meaning(item: Item): Parsed {
    match item
    case Help(name, _) => HelpOf(name)
    case Type(name, kind) => TypeOf(name, kind)
    case Line(sample) => Series(Name(sample.metric), sample.labels, sample.value)
  }

  function Meanings(items: seq<Item>): seq<Parsed> {
    seq(|items|, i requires 0 <= i < |items| => Meaning(items[i]))
  }

  // What a reader of the format makes of it.

  predicate LegibleLabels(reader: Reader, ls: seq<Label>) {
    forall i :: 0 <= i < |ls| ==> Legible(reader, ls[i].value)
  }

  function ShownLabels(reader: Reader, ls: seq<Label>): seq<Label> {
    seq(|ls|, i requires 0 <= i < |ls| => Label(ls[i].key, Shown(reader, ls[i].value)))
  }

  function Reading(reader: Reader, item: Item): Parsed {
    if !item.Line? then Meaning(item)
    else if !LegibleLabels(reader, item.sample.labels) then Broken
    else Series(Name(item.sample.metric), ShownLabels(reader, item.sample.labels), item.sample.value)
  }

  function Readings(reader: Reader, items: seq<Item>): seq<Parsed> {
    seq(|items|, i requires 0 <= i < |items| => Reading(reader, items[i]))
  }

  // -------------------------------------------------------------- round trips

  predicate KeyOk(key: string) {
    '=' !in key && '\n' !in key
  }

  predicate ItemOk(item: Item) {
    match item
    case Help(name, text) => NameOk(name) && '\n' !in text
    case Type(name, kind) => NameOk(name) && '\n' !in kind
    case Line(sample) =>
      '\n' !in sample.value && forall i :: 0 <= i < |sample.labels| ==> KeyOk(sample.labels[i].key)
  }

  lemma ParseOneLabel(reader: Reader, l: Label, rest: string)
    requires KeyOk(l.key)
    ensures var s := RenderLabel(l) + rest;
            && IndexOf(s, '=') == |l.key| && |l.key| + 2 <= |s| && s[|l.key| + 1] == '"'
            && s[..|l.key|] == l.key
            && ScanValue(reader, s[|l.key| + 2..]) ==
               if Legible(reader, l.value) then Some((Shown(reader, l.value), rest)) else None
  {
    hide Escape, ScanValue, Shown, Legible;
    var s := RenderLabel(l) + rest;
    var tail := "=\"" + Escape(l.value) + "\"" + rest;
    assert s == l.key + tail;
    IndexOfSkips(l.key, '=', tail);
    assert s[|l.key| + 2..] == Escape(l.value) + "\"" + rest;
    ScanEscaped(reader, l.value, rest);
  }

  lemma ParseFirstLabel(reader: Reader, l: Label, next: char, rest: string)
    requires KeyOk(l.key) && (next == '}' || next == ',')
    ensures ParseLabels(reader, RenderLabel(l) + [next] + rest) ==
            if !Legible(reader, l.value) then None
            else
              var first := Label(l.key, Shown(reader, l.value));
              if next == '}' then Some(([first], rest))
              else match ParseLabels(reader, rest)
                   case None => None
                   case Some((labels, tail)) => Some(([first] + labels, tail))
  {
    hide RenderLabel, ScanValue, KeyOk, Shown, Legible;
    var after := [next] + rest;
    ParseOneLabel(reader, l, after);
    assert RenderLabel(l) + [next] + rest == RenderLabel(l) + after;
    assert after[1..] == rest;
  }

  /** What a rendered label set reads back as: every value as that reader shows it, or
      nothing at all when one of them is illegible. */
  lemma {:induction false} ParseLabelsInverts(reader: Reader, ls: seq<Label>, tail: string)
    requires ls != [] && forall i :: 0 <= i < |ls| ==> KeyOk(ls[i].key)
    ensures ParseLabels(reader, RenderLabels(ls) + "}" + tail) ==
            if LegibleLabels(reader, ls) then Some((ShownLabels(reader, ls), tail)) else None
    decreases |ls|
  {
    hide RenderLabel, ParseLabels, KeyOk, Shown, Legible;
    if |ls| == 1 {
      ParseFirstLabel(reader, ls[0], '}', tail);
      assert [Label(ls[0].key, Shown(reader, ls[0].value))] == ShownLabels(reader, ls);
    } else {
      var more := RenderLabels(ls[1..]) + "}" + tail;
      ParseLabelsInverts(reader, ls[1..], tail);
      ParseFirstLabel(reader, ls[0], ',', more);
      assert RenderLabels(ls) + "}" + tail == RenderLabel(ls[0]) + "," + more;
      assert LegibleLabels(reader, ls) <==> Legible(reader, ls[0].value) && LegibleLabels(reader, ls[1..]) by {
        assert forall i :: 0 < i < |ls| ==> ls[i] == ls[1..][i - 1];
      }
      assert [Label(ls[0].key, Shown(reader, ls[0].value))] + ShownLabels(reader, ls[1..]) == ShownLabels(reader, ls);
    }
  }

  lemma OwnLabels(ls: seq<Label>)
    ensures LegibleLabels(Own, ls) && ShownLabels(Own, ls) == ls
  {
  }

  /** Label rendering is injective. */
  lemma RenderLabelsInjective(a: seq<Label>, b: seq<Label>)
    requires a != [] && b != []
    requires forall i :: 0 <= i < |a| ==> KeyOk(a[i].key)
    requires forall i :: 0 <= i < |b| ==> KeyOk(b[i].key)
    ensures RenderLabels(a) == RenderLabels(b) <==> a == b
  {
    hide RenderLabels, ParseLabels, ShownLabels;
    ParseLabelsInverts(Own, a, []);
    ParseLabelsInverts(Own, b, []);
    OwnLabels(a);
    OwnLabels(b);
  }

  /** No delimiter occurs in a metric name. */
  predicate NameOk(name: string) {
    name != [] && name[0] != '#' && forall i :: 0 <= i < |name| ==> name[i] != '{' && name[i] != ' ' && name[i] != '\n'
  }

  lemma NamesAreOk(m: Metric)
    ensures NameOk(Name(m))
  {
    hide Name, NameOk;
    IdentityNamesOk(m);
    UsbNamesOk(m);
    SettingNamesOk(m);
    TransactionNamesOk(m);
    BucketNameOk(m);
    SumNameOk(m);
    CountNameOk(m);
    BuildNamesOk(m);
    PollNamesOk(m);
  }

  lemma IdentityNamesOk(m: Metric)
    ensures 2 <= Family(m) <= 4 ==> NameOk(Name(m))
  {
  }

  lemma UsbNamesOk(m: Metric)
    ensures 5 <= Family(m) <= 6 ==> NameOk(Name(m))
  {
  }

  lemma SettingNamesOk(m: Metric)
    ensures 7 <= Family(m) <= 8 ==> NameOk(Name(m))
  {
  }

  lemma TransactionNamesOk(m: Metric)
    ensures 9 <= Family(m) <= 11 ==> NameOk(Name(m))
  {
  }

  lemma BucketNameOk(m: Metric)
    ensures m.DurationBucket? ==> NameOk(Name(m))
  {
  }

  lemma SumNameOk(m: Metric)
    ensures m.DurationSum? ==> NameOk(Name(m))
  {
  }

  lemma CountNameOk(m: Metric)
    ensures m.DurationCount? ==> NameOk(Name(m))
  {
  }

  lemma BuildNamesOk(m: Metric)
    ensures Family(m) < 2 ==> NameOk(Name(m))
  {
  }

  lemma PollNamesOk(m: Metric)
    ensures Family(m) > 12 ==> NameOk(Name(m))
  {
  }

  lemma ParsePlainLine(reader: Reader, name: string, value: string)
    requires NameOk(name)
    ensures ParseSample(reader, name + " " + value) == Series(name, [], value)
  {
    hide NameOk;
    NameDelimiters(name);
    var tail := " " + value;
    var line := name + " " + value;
    assert line == name + tail;
    IndexOfSkips(name, '{', tail);
    IndexOfSkips(name, ' ', tail);
    IndexOfBound(tail, '{');
    assert line[..|name|] == name && line[|name| + 1..] == value;
  }

  lemma ParseAtBrace(reader: Reader, name: string, body: string)
    requires NameOk(name)
    ensures ParseSample(reader, name + "{" + body) ==
            match ParseLabels(reader, body)
            case Some((labels, rest)) => if rest != [] && rest[0] == ' ' then Series(name, labels, rest[1..]) else Broken
            case None => Broken
  {
    hide NameOk, ParseLabels;
    NameDelimiters(name);
    var tail := "{" + body;
    var line := name + "{" + body;
    assert line == name + tail;
    IndexOfSkips(name, '{', tail);
    IndexOfSkips(name, ' ', tail);
    assert line[..|name|] == name && line[|name| + 1..] == body;
  }

  lemma Regroup(name: string, labels: string, value: string)
    ensures name + ("{" + labels + "}") + " " + value == name + "{" + (labels + "}" + (" " + value))
  {
  }

  lemma ParseLabelledLine(reader: Reader, name: string, labels: seq<Label>, value: string)
    requires NameOk(name) && labels != [] && forall i :: 0 <= i < |labels| ==> KeyOk(labels[i].key)
    ensures ParseSample(reader, name + ("{" + RenderLabels(labels) + "}") + " " + value) ==
            if LegibleLabels(reader, labels) then Series(name, ShownLabels(reader, labels), value) else Broken
  {
    hide NameOk, RenderLabels, ParseLabels, ParseSample, KeyOk, LegibleLabels, ShownLabels;
    var rest := " " + value;
    var body := RenderLabels(labels) + "}" + rest;
    Regroup(name, RenderLabels(labels), value);
    ParseAtBrace(reader, name, body);
    ParseLabelsInverts(reader, labels, rest);
    assert rest[1..] == value;
  }

  lemma SampleLine(reader: Reader, line: string)
    requires line != [] && line[0] != '#'
    ensures ParseLine(reader, line) == ParseSample(reader, line)
  {
    hide ParseSample;
    assert HELP[0] == '#' && TYPE[0] == '#';
  }

  lemma SampleReads(reader: Reader, s: Sample)
    requires ItemOk(Line(s))
    ensures ParseLine(reader, RenderSample(s)) == Reading(reader, Line(s))
  {
    hide Name, RenderLabels, ParseSample, ParseLine, NameOk, LegibleLabels;
    var name := Name(s.metric);
    NamesAreOk(s.metric);
    NameDelimiters(name);
    assert RenderSample(s)[0] == name[0];
    SampleLine(reader, RenderSample(s));
    if s.labels == [] {
      assert RenderSample(s) == name + " " + s.value;
      ParsePlainLine(reader, name, s.value);
      NoLabels(reader);
    } else {
      ParseLabelledLine(reader, name, s.labels, s.value);
    }
  }

  lemma NoLabels(reader: Reader)
    ensures LegibleLabels(reader, []) && ShownLabels(reader, []) == []
  {
  }

  lemma HeaderReads(name: string, text: string)
    requires NameOk(name)
    ensures ParseHeader(name + " " + text) == Some((name, text))
  {
    hide NameOk;
    NameDelimiters(name);
    IndexOfSkips(name, ' ', " " + text);
    assert name + " " + text == name + (" " + text);
    assert (name + " " + text)[..|name|] == name && (name + " " + text)[|name| + 1..] == text;
  }

  lemma HelpReads(reader: Reader, name: string, text: string)
    requires NameOk(name)
    ensures ParseLine(reader, HELP + name + " " + text) == HelpOf(name)
  {
    hide NameOk, ParseHeader;
    var line := HELP + name + " " + text;
    HeaderReads(name, text);
    assert HELP <= line && line[|HELP|..] == name + " " + text;
  }

  lemma TypeReads(reader: Reader, name: string, kind: string)
    requires NameOk(name)
    ensures ParseLine(reader, TYPE + name + " " + kind) == TypeOf(name, kind)
  {
    hide NameOk, ParseHeader;
    var line := TYPE + name + " " + kind;
    HeaderReads(name, kind);
    assert TYPE <= line && line[|TYPE|..] == name + " " + kind;
    assert line[2] == 'T' && HELP[2] == 'H';
  }

  lemma NameDelimiters(name: string)
    requires NameOk(name)
    ensures name != [] && name[0] != '#' && '{' !in name && ' ' !in name && '\n' !in name
  {
  }

  /** No item can break into two lines. */
  lemma OneLineEach(item: Item)
    requires ItemOk(item)
    ensures '\n' !in RenderItem(item)
  {
    hide Name, RenderLabels, NameOk;
    match item
    case Help(name, _) => NameDelimiters(name);
    case Type(name, _) => NameDelimiters(name);
    case Line(sample) =>
      NamesAreOk(sample.metric);
      NameDelimiters(Name(sample.metric));
      LabelsStayOnLine(sample.labels);
  }

  lemma {:induction false} LabelsStayOnLine(ls: seq<Label>)
    requires forall i :: 0 <= i < |ls| ==> KeyOk(ls[i].key)
    ensures '\n' !in RenderLabels(ls)
    decreases |ls|
  {
    hide Escape;
    if ls != [] {
      EscapeShape(ls[0].value);
      LabelsStayOnLine(ls[1..]);
    }
  }

  lemma {:induction false} TextOfConcat(a: seq<Item>, b: seq<Item>)
    ensures TextOf(a + b) == TextOf(a) + TextOf(b)
    decreases |b|
  {
    hide RenderItem;
    if b == [] {
      assert a + b == a;
    } else {
      assert (a + b)[..|a + b| - 1] == a + b[..|b| - 1];
      TextOfConcat(a, b[..|b| - 1]);
    }
  }

  lemma LinesStep(line: string, rest: string)
    requires '\n' !in line
    ensures Lines(line + "\n" + rest) == [line] + Lines(rest)
  {
    var text := line + "\n" + rest;
    assert text == line + ("\n" + rest);
    IndexOfSkips(line, '\n', "\n" + rest);
    assert text[..|line|] == line && text[|line| + 1..] == rest;
  }

  lemma {:induction false} LinesOfText(items: seq<Item>)
    requires forall i :: 0 <= i < |items| ==> ItemOk(items[i])
    ensures |Lines(TextOf(items))| == |items|
    ensures forall i :: 0 <= i < |items| ==> Lines(TextOf(items))[i] == RenderItem(items[i])
    decreases |items|
  {
    hide RenderItem, Lines, ItemOk;
    if items == [] {
      NoLines();
    } else {
      var first, rest := items[0], items[1..];
      LinesOfText(rest);
      assert items == [first] + rest;
      TextOfConcat([first], rest);
      assert TextOf([first]) == RenderItem(first) + "\n" by {
        assert [first][..0] == [];
      }
      OneLineEach(first);
      LinesStep(RenderItem(first), TextOf(rest));
    }
  }

  lemma NoLines()
    ensures Lines([]) == []
  {
  }

  /** Any well-formed item list reads line for line, one line each, whichever the reader. */
  lemma TextReads(reader: Reader, items: seq<Item>)
    requires forall i :: 0 <= i < |items| ==> ItemOk(items[i])
    ensures ParseText(reader, TextOf(items)) == Readings(reader, items)
  {
    hide ParseLine, RenderItem, Reading, Lines, TextOf, ItemOk;
    LinesOfText(items);
    forall i | 0 <= i < |items| ensures ParseLine(reader, RenderItem(items[i])) == Reading(reader, items[i]) {
      ItemReads(reader, items[i]);
    }
  }

  lemma ItemReads(reader: Reader, item: Item)
    requires ItemOk(item)
    ensures ParseLine(reader, RenderItem(item)) == Reading(reader, item)
  {
    hide RenderSample, ParseLine, NameOk, LegibleLabels, ShownLabels;
    match item
    case Help(name, text) => HelpReads(reader, name, text);
    case Type(name, kind) => TypeReads(reader, name, kind);
    case Line(sample) => SampleReads(reader, sample);
  }

  /** A sample without carriage returns in its label values. */
  predicate CarriageFree(item: Item) {
    item.Line? ==> forall i :: 0 <= i < |item.sample.labels| ==> '\r' !in item.sample.labels[i].value
  }

  /** Which lines say to a reader what they are meant to say: all of them to the escaper's own
      inverse, and those free of carriage returns to a reader of the format. */
  lemma ReadingIsMeaning(reader: Reader, item: Item)
    ensures Reading(reader, item) == Meaning(item) <==> reader.Own? || CarriageFree(item)
  {
    hide Name, Replace;
    if item.Line? {
      var ls := item.sample.labels;
      forall i | 0 <= i < |ls| ensures Shown(reader, ls[i].value) == ls[i].value <==> !reader.Lenient? || '\r' !in ls[i].value {
        NoneLeft(ls[i].value);
      }
      assert ShownLabels(reader, ls) == ls <==> forall i :: 0 <= i < |ls| ==> Shown(reader, ls[i].value) == ls[i].value by {
        if ShownLabels(reader, ls) == ls {
          forall i | 0 <= i < |ls| ensures Shown(reader, ls[i].value) == ls[i].value {
            assert ShownLabels(reader, ls)[i] == ls[i];
          }
        }
      }
    }
  }

  /** Any well-formed item list is read back as it was meant if and only if the reader is the
      escaper's own inverse or no label value holds a carriage return. */
  lemma TextParsesBack(reader: Reader, items: seq<Item>)
    requires forall i :: 0 <= i < |items| ==> ItemOk(items[i])
    ensures ParseText(reader, TextOf(items)) == Meanings(items)
            <==> reader.Own? || forall i :: 0 <= i < |items| ==> CarriageFree(items[i])
  {
    hide ParseText, TextOf, Reading, Meaning, ItemOk, CarriageFree;
    TextReads(reader, items);
    var readings, meanings := Readings(reader, items), Meanings(items);
    forall i | 0 <= i < |items| ensures readings[i] == meanings[i] <==> reader.Own? || CarriageFree(items[i]) {
      ReadingIsMeaning(reader, items[i]);
    }
  }
}
