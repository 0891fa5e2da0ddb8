/** Picking the hidraw node (crates/razer-hid/src/enumerate.rs): an in-place sort by a
    composite key, then a scan that stops at the first match or lookup error. */
module Enumeration {
  import opened Wrappers
  import opened Sequences
  import opened Checksum
  import opened Device

  const RAZER_VID: bv16 := 0x1532
  const U32_MAX := 0xFFFF_FFFF

  datatype UsbInterfaceInfo = UsbInterfaceInfo(vendorId: bv16, productId: bv16, interfaceNumber: byte, interfaceProtocol: byte)

  datatype HidrawNode = HidrawNode(name: string, path: string, info: UsbInterfaceInfo)

  /** A source of metadata: a listing in any order, a lookup per name that may find no USB
      parent or fail, and the device path of a name. */
  datatype Sysfs = Sysfs(
    names: Result<seq<string>, HidError>,
    info: string -> Result<Option<UsbInterfaceInfo>, HidError>,
    path: string -> string)

  // ------------------------------------------------------------ the sort key

  predicate IsDigits(s: string) {
    forall i :: 0 <= i < |s| ==> '0' <= s[i] <= '9'
  }

  function Decimal(s: string): nat
    requires IsDigits(s)
  {
    if s == [] then 0 else Decimal(s[..|s| - 1]) * 10 + (s[|s| - 1] - '0') as nat
  }

  /** `str::parse::<u32>`: an optional plus sign, at least one digit, no overflow. */
  function ParseU32(s: string): Option<nat> {
    var digits := if s != [] && s[0] == '+' then s[1..] else s;
    if digits == [] || !IsDigits(digits) || Decimal(digits) > U32_MAX then None else Some(Decimal(digits))
  }

  const PREFIX := "hidraw"

  function HidrawIndex(name: string): Option<nat> {
    if PREFIX <= name then ParseU32(name[|PREFIX|..]) else None
  }

  function Rank(name: string): nat {
    HidrawIndex(name).GetOr(U32_MAX)
  }

  /** The order of the sort: by index, ties and unrecognised names by name. */
  predicate KeyLe(a: string, b: string) {
    Rank(a) < Rank(b) || (Rank(a) == Rank(b) && TextLe(a, b))
  }

  predicate Sorted(s: seq<string>) {
    forall i, j :: 0 <= i < j < |s| ==> KeyLe(s[i], s[j])
  }

  /** The key is a total order on names, so the sorted form of a listing is unique. */
  lemma KeyLeTotalOrder(a: string, b: string, d: string)
    ensures KeyLe(a, b) || KeyLe(b, a)
    ensures KeyLe(a, b) && KeyLe(b, a) ==> a == b
    ensures KeyLe(a, b) && KeyLe(b, d) ==> KeyLe(a, d)
  {
    TextLeTotal(a, b);
    if TextLe(a, b) && TextLe(b, d) {
      TextLeTransitive(a, b, d);
    }
  }

  /** Recognised nodes come before anything unrecognised, whatever its name; the one
      exception is index 2^32 - 1, which ties with them and falls back to the name. */
  lemma RecognisedFirst(a: string, b: string)
    requires HidrawIndex(a).Some? && HidrawIndex(b).None?
    ensures HidrawIndex(a).value < U32_MAX ==> KeyLe(a, b) && !KeyLe(b, a)
    ensures HidrawIndex(a).value == U32_MAX ==> (KeyLe(a, b) <==> TextLe(a, b))
  {
    assert HidrawIndex(a).value <= U32_MAX;
  }

  lemma DecimalSnoc(s: string, c: char)
    requires IsDigits(s) && '0' <= c <= '9'
    ensures IsDigits(s + [c]) && Decimal(s + [c]) == Decimal(s) * 10 + (c - '0') as nat
  {
    assert (s + [c])[..|s + [c]| - 1] == s;
  }

  lemma FirstDigits()
    ensures IsDigits("42949") && Decimal("42949") == 42949
  {
    DecimalSnoc("", '4');
    DecimalSnoc("4", '2');
    DecimalSnoc("42", '9');
    DecimalSnoc("429", '4');
    DecimalSnoc("4294", '9');
    assert "" + ['4'] == "4" && "4" + ['2'] == "42" && "42" + ['9'] == "429";
    assert "429" + ['4'] == "4294" && "4294" + ['9'] == "42949";
  }

  lemma AllDigits()
    ensures IsDigits("4294967295") && Decimal("4294967295") == U32_MAX
  {
    hide Decimal, IsDigits;
    FirstDigits();
    DecimalSnoc("42949", '6');
    DecimalSnoc("429496", '7');
    DecimalSnoc("4294967", '2');
    DecimalSnoc("42949672", '9');
    DecimalSnoc("429496729", '5');
    assert "42949" + ['6'] == "429496" && "429496" + ['7'] == "4294967" && "4294967" + ['2'] == "42949672";
    assert "42949672" + ['9'] == "429496729" && "429496729" + ['5'] == "4294967295";
  }

  /** Such a pair: an unrecognised name sorts before the last recognised one. */
  lemma UnrecognisedBeforeTheLastIndex()
    ensures HidrawIndex("hidraw4294967295") == Some(U32_MAX) && HidrawIndex("event0").None?
    ensures KeyLe("event0", "hidraw4294967295") && !KeyLe("hidraw4294967295", "event0")
  {
    hide Decimal, IsDigits;
    AllDigits();
    var name := "hidraw4294967295";
    assert name[|PREFIX|..] == "4294967295" && name[..|PREFIX|] == PREFIX;
    assert PREFIX <= name;
    assert "event0"[0] == 'e' && PREFIX[0] == 'h';
  }

  /** The order without the key: by index, a missing index counting as the last one, and by
      name where that does not decide. */
  predicate Earlier(a: string, b: string) {
    match (HidrawIndex(a), HidrawIndex(b))
    case (Some(i), Some(j)) => i < j || (i == j && TextLe(a, b))
    case (Some(i), None) => i < 4_294_967_295 || TextLe(a, b)
    case (None, Some(j)) => j == 4_294_967_295 && TextLe(a, b)
    case (None, None) => TextLe(a, b)
  }

  lemma IndexBound(name: string)
    ensures HidrawIndex(name).Some? ==> HidrawIndex(name).value <= 4_294_967_295
  {
  }

  lemma KeyLeIsEarlier(a: string, b: string)
    ensures KeyLe(a, b) <==> Earlier(a, b)
  {
    hide HidrawIndex, TextLe;
    IndexBound(a);
    IndexBound(b);
  }

  /** A smaller index always sorts first, whatever the names look like as text. */
  lemma SmallerIndexFirst(a: string, b: string)
    requires HidrawIndex(a).Some? && HidrawIndex(b).Some? && HidrawIndex(a).value < HidrawIndex(b).value
    ensures KeyLe(a, b) && !KeyLe(b, a)
  {
  }

  /** Decimal text without leading zeros. */
  function DecimalText(n: nat): string {
    (if n < 10 then [] else DecimalText(n / 10)) + [ "0123456789"[n % 10] ]
  }

  lemma {:induction false} DecimalTextReads(n: nat)
    ensures DecimalText(n) != [] && IsDigits(DecimalText(n)) && Decimal(DecimalText(n)) == n && DecimalText(n)[0] != '+'
  {
    hide Decimal, IsDigits;
    var last := "0123456789"[n % 10];
    DigitReads(n % 10);
    if n < 10 {
      assert [] + [last] == [last];
      NoDigits();
      DecimalSnoc([], last);
    } else {
      DecimalTextReads(n / 10);
      DecimalSnoc(DecimalText(n / 10), last);
    }
  }

  lemma DigitReads(d: nat)
    requires d < 10
    ensures '0' <= "0123456789"[d] <= '9' && ("0123456789"[d] - '0') as nat == d
  {
  }

  lemma NoDigits()
    ensures IsDigits([]) && Decimal([]) == 0
  {
  }

  /** The kernel's own names: `hidraw` and the decimal number, for every 32-bit number. */
  lemma KernelNames(n: nat)
    requires n <= 4_294_967_295
    ensures HidrawIndex("hidraw" + DecimalText(n)) == Some(n)
  {
    hide Decimal, IsDigits, DecimalText;
    DecimalTextReads(n);
    var name := "hidraw" + DecimalText(n);
    assert PREFIX <= name && name[|PREFIX|..] == DecimalText(n);
  }

  /** Exactly which names are recognised, and as what: the prefix, an optional plus sign, and
      digits whose value fits 32 bits. */
  lemma RecognisedExactly(name: string, n: nat)
    ensures HidrawIndex(name) == Some(n) <==> exists digits :: Spells(name, digits, n)
  {
    hide Decimal;
    if HidrawIndex(name) == Some(n) {
      var rest := name[|PREFIX|..];
      var digits := if rest[0] == '+' then rest[1..] else rest;
      assert name == "hidraw" + rest;
      assert rest[0] == '+' ==> name == "hidraw+" + digits;
      assert Spells(name, digits, n);
    }
    if digits :| Spells(name, digits, n) {
      if name == "hidraw" + digits {
        assert PREFIX <= name && name[|PREFIX|..] == digits;
      } else {
        assert name == "hidraw" + ("+" + digits);
        assert PREFIX <= name && name[|PREFIX|..] == "+" + digits;
      }
    }
  }

  ghost predicate Spells(name: string, digits: string, n: nat) {
    && (name == "hidraw" + digits || name == "hidraw+" + digits)
    && digits != [] && IsDigits(digits) && Decimal(digits) == n && n <= 4_294_967_295
  }

  // -------------------------------------------------------------- the sorting

  /** The sorted form of a listing. */
  function Insert(x: string, s: seq<string>): seq<string> {
    if s == [] || KeyLe(x, s[0]) then [x] + s else [s[0]] + Insert(x, s[1..])
  }

  function SortNames(s: seq<string>): seq<string> {
    if s == [] then [] else Insert(s[0], SortNames(s[1..]))
  }

  /** `s` with `x` put in at position `j`. */
  function PutAt(s: seq<string>, j: nat, x: string): seq<string>
    requires j <= |s|
  {
    s[..j] + [x] + s[j..]
  }

  lemma SortedAt(s: seq<string>, p: nat, q: nat)
    requires Sorted(s) && p <= q < |s|
    ensures KeyLe(s[p], s[q])
  {
    hide KeyLe;
    KeyLeReflexive(s[p]);
  }

  lemma PutAtPair(s: seq<string>, j: nat, x: string, p: nat, q: nat)
    requires j <= |s| && Sorted(s) && p < q <= |s|
    requires j < |s| ==> KeyLe(x, s[j])
    requires j > 0 ==> KeyLe(s[j - 1], x)
    ensures KeyLe(PutAt(s, j, x)[p], PutAt(s, j, x)[q])
  {
    hide KeyLe, Sorted;
    if q == j {
      SortedAt(s, p, j - 1);
      KeyLeTotalOrder(s[p], s[j - 1], x);
    } else if p == j {
      SortedAt(s, j, q - 1);
      KeyLeTotalOrder(x, s[j], s[q - 1]);
    } else {
      SortedAt(s, if p < j then p else p - 1, if q < j then q else q - 1);
    }
  }

  lemma PutAtPlace(s: seq<string>, j: nat, x: string)
    requires j <= |s| && Sorted(s)
    requires j < |s| ==> KeyLe(x, s[j])
    requires j > 0 ==> KeyLe(s[j - 1], x)
    ensures Sorted(PutAt(s, j, x)) && multiset(PutAt(s, j, x)) == multiset(s) + multiset{x}
  {
    hide KeyLe, PutAt;
    forall p, q | 0 <= p < q < |PutAt(s, j, x)|
      ensures KeyLe(PutAt(s, j, x)[p], PutAt(s, j, x)[q])
    {
      PutAtContents(s, j, x);
      PutAtPair(s, j, x, p, q);
    }
    PutAtContents(s, j, x);
  }

  lemma PutAtContents(s: seq<string>, j: nat, x: string)
    requires j <= |s|
    ensures |PutAt(s, j, x)| == |s| + 1 && multiset(PutAt(s, j, x)) == multiset(s) + multiset{x}
  {
    assert s == s[..j] + s[j..];
  }

  lemma {:induction false} InsertPlace(x: string, s: seq<string>) returns (j: nat)
    requires Sorted(s)
    ensures j <= |s| && Insert(x, s) == PutAt(s, j, x)
    ensures j < |s| ==> KeyLe(x, s[j])
    ensures j > 0 ==> KeyLe(s[j - 1], x)
  {
    hide KeyLe;
    j := 0;
    if s != [] && !KeyLe(x, s[0]) {
      KeyLeTotalOrder(x, s[0], x);
      var k := InsertPlace(x, s[1..]);
      j := k + 1;
      assert PutAt(s, j, x) == [s[0]] + PutAt(s[1..], k, x);
    }
  }

  lemma InsertSorts(x: string, s: seq<string>)
    requires Sorted(s)
    ensures Sorted(Insert(x, s)) && multiset(Insert(x, s)) == multiset{x} + multiset(s)
  {
    hide KeyLe, Sorted, Insert;
    var j := InsertPlace(x, s);
    PutAtPlace(s, j, x);
  }

  lemma {:induction false} SortNamesSorts(s: seq<string>)
    ensures Sorted(SortNames(s)) && multiset(SortNames(s)) == multiset(s)
  {
    hide KeyLe;
    if s != [] {
      SortNamesSorts(s[1..]);
      InsertSorts(s[0], SortNames(s[1..]));
      assert s == [s[0]] + s[1..];
    }
  }

  lemma SameLeast(a: seq<string>, b: seq<string>)
    requires Sorted(a) && Sorted(b) && multiset(a) == multiset(b) && a != [] && b != []
    ensures a[0] == b[0]
  {
    hide KeyLe, Sorted;
    assert a[0] in multiset(b) && b[0] in multiset(a);
    var i :| 0 <= i < |b| && b[i] == a[0];
    var j :| 0 <= j < |a| && a[j] == b[0];
    SortedAt(a, 0, j);
    SortedAt(b, 0, i);
    KeyLeTotalOrder(a[0], b[0], a[0]);
  }

  lemma SortedTail(s: seq<string>)
    requires Sorted(s) && s != []
    ensures Sorted(s[1..])
  {
    hide KeyLe;
  }

  lemma MultisetTail(s: seq<string>)
    requires s != []
    ensures multiset(s[1..]) == multiset(s) - multiset{s[0]}
  {
    assert s == [s[0]] + s[1..];
  }

  lemma {:induction false} SortedUnique(a: seq<string>, b: seq<string>)
    requires Sorted(a) && Sorted(b) && multiset(a) == multiset(b)
    ensures a == b
  {
    hide KeyLe, Sorted;
    assert |a| == |multiset(a)| == |multiset(b)| == |b|;
    if a != [] {
      SameLeast(a, b);
      SortedTail(a);
      SortedTail(b);
      MultisetTail(a);
      MultisetTail(b);
      SortedUnique(a[1..], b[1..]);
      assert a == [a[0]] + a[1..] && b == [b[0]] + b[1..];
    }
  }

  lemma PutAtStepDown(s: seq<string>, j: nat, x: string, rest: seq<string>)
    requires 0 < j <= |s|
    ensures var t := PutAt(s, j, x) + rest;
            t[j] == x && t[j - 1] == s[j - 1] && t[j - 1 := x][j := s[j - 1]] == PutAt(s, j - 1, x) + rest
  {
  }

  /** Move `names[i]` down to its place among the sorted names before it. */
  method SinkIntoPlace(names: array<string>, i: nat)
    requires i < names.Length && Sorted(names[..i])
    modifies names
    ensures Sorted(names[..i + 1]) && multiset(names[..]) == multiset(old(names[..]))
  {
    hide KeyLe, Sorted, PutAt;
    ghost var before, x, rest := names[..i], names[i], names[i + 1..];
    PutAtEnd(before, x);
    assert names[..] == before + [x] + rest;
    var j := i;
    while j > 0 && !KeyLe(names[j - 1], names[j])
      invariant 0 <= j <= i
      invariant names[..] == PutAt(before, j, x) + rest
      invariant j < i ==> KeyLe(x, before[j])
    {
      PutAtStepDown(before, j, x, rest);
      assert names[j] == names[..][j] && names[j - 1] == names[..][j - 1];
      KeyLeTotalOrder(before[j - 1], x, x);
      ghost var t := names[..];
      names[j - 1], names[j] := names[j], names[j - 1];
      assert names[..] == t[j - 1 := x][j := before[j - 1]];
      j := j - 1;
    }
    if j > 0 {
      PutAtStepDown(before, j, x, rest);
      assert names[j] == names[..][j] && names[j - 1] == names[..][j - 1];
    }
    PutAtPlace(before, j, x);
    PutAtContents(before, j, x);
    assert names[..i + 1] == names[..][..i + 1] == PutAt(before, j, x);
  }

  lemma PutAtEnd(s: seq<string>, x: string)
    ensures PutAt(s, |s|, x) == s + [x]
  {
  }

  lemma SortedNothing()
    ensures Sorted([])
  {
  }

  lemma KeyLeReflexive(a: string)
    ensures KeyLe(a, a)
  {
    KeyLeTotalOrder(a, a, a);
  }

  /** `sort_by`: the listing ends in its unique sorted form. */
  method SortByIndex(names: array<string>)
    modifies names
    ensures names[..] == SortNames(old(names[..]))
  {
    hide Sorted;
    for i := 0 to names.Length
      invariant i == 0 || Sorted(names[..i])
      invariant multiset(names[..]) == multiset(old(names[..]))
    {
      SortedNothing();
      SinkIntoPlace(names, i);
    }
    SortedNothing();
    assert names[..names.Length] == names[..];
    SortNamesSorts(old(names[..]));
    SortedUnique(names[..], SortNames(old(names[..])));
  }

  // ---------------------------------------------------------------- the scans

  predicate Matches(info: UsbInterfaceInfo, vid: bv16, pid: bv16, interface: byte) {
    info.vendorId == vid && info.productId == pid && info.interfaceNumber == interface
  }

  /** The scan for one control node over names already in order. */
  function Scan(sysfs: Sysfs, names: seq<string>, vid: bv16, pid: bv16, interface: byte): Result<HidrawNode, HidError> {
    if names == [] then Failure(DeviceNotFound(vid, pid, interface))
    else
      match sysfs.info(names[0])
      case Failure(e) => Failure(e)
      case Success(None) => Scan(sysfs, names[1..], vid, pid, interface)
      case Success(Some(info)) =>
        if Matches(info, vid, pid, interface) then Success(HidrawNode(names[0], sysfs.path(names[0]), info))
        else Scan(sysfs, names[1..], vid, pid, interface)
  }

  /** Every Razer node over names already in order, or the first lookup error. */
  function Collect(sysfs: Sysfs, names: seq<string>): Result<seq<HidrawNode>, HidError> {
    if names == [] then Success([])
    else
      var found :- sysfs.info(names[0]);
      var rest :- Collect(sysfs, names[1..]);
      match found
      case Some(info) =>
        Success((if info.vendorId == RAZER_VID then [HidrawNode(names[0], sysfs.path(names[0]), info)] else []) + rest)
      case None => Success(rest)
  }

  function Find(sysfs: Sysfs, vid: bv16, pid: bv16, interface: byte): Result<HidrawNode, HidError> {
    var names :- sysfs.names;
    Scan(sysfs, SortNames(names), vid, pid, interface)
  }

  function List(sysfs: Sysfs): Result<seq<HidrawNode>, HidError> {
    var names :- sysfs.names;
    Collect(sysfs, SortNames(names))
  }

  method FindDevice(sysfs: Sysfs, vid: bv16, pid: bv16, interface: byte) returns (r: Result<HidrawNode, HidError>)
    ensures r == Find(sysfs, vid, pid, interface)
  {
    hide Sorted, KeyLe, SortNames;
    var listing :- sysfs.names;
    var names := new string[|listing|](i requires 0 <= i < |listing| => listing[i]);
    assert names[..] == listing;
    SortByIndex(names);
    for i := 0 to names.Length
      invariant Scan(sysfs, names[i..], vid, pid, interface) == Find(sysfs, vid, pid, interface)
    {
      var name := names[i];
      assert names[i..][1..] == names[i + 1..];
      var found :- sysfs.info(name);
      match found {
        case None =>
        case Some(info) =>
          if Matches(info, vid, pid, interface) {
            return Success(HidrawNode(name, sysfs.path(name), info));
          }
      }
    }
    r := Failure(DeviceNotFound(vid, pid, interface));
  }

  /** `Collect` with the nodes found so far in front. */
  function Prepend(out: seq<HidrawNode>, rest: Result<seq<HidrawNode>, HidError>): Result<seq<HidrawNode>, HidError> {
    match rest
    case Success(nodes) => Success(out + nodes)
    case Failure(e) => Failure(e)
  }

  method ListRazerNodes(sysfs: Sysfs) returns (r: Result<seq<HidrawNode>, HidError>)
    ensures r == List(sysfs)
  {
    hide Sorted, KeyLe, SortNames;
    var listing :- sysfs.names;
    var names := new string[|listing|](i requires 0 <= i < |listing| => listing[i]);
    assert names[..] == listing;
    SortByIndex(names);
    var out: seq<HidrawNode> := [];
    PrependNothing(Collect(sysfs, names[..]));
    assert names[0..] == names[..];
    for i := 0 to names.Length
      invariant Prepend(out, Collect(sysfs, names[i..])) == List(sysfs)
    {
      var name := names[i];
      assert names[i..][1..] == names[i + 1..];
      ghost var rest := Collect(sysfs, names[i + 1..]);
      ghost var before := out;
      var found :- sysfs.info(name);
      match found {
        case None =>
        case Some(info) =>
          if info.vendorId == RAZER_VID {
            out := out + [HidrawNode(name, sysfs.path(name), info)];
          }
          assert rest.Success? ==>
            out + rest.value ==
              before + ((if info.vendorId == RAZER_VID then [HidrawNode(name, sysfs.path(name), info)] else []) + rest.value);
      }
    }
    assert out + [] == out;
    r := Success(out);
  }

  lemma PrependNothing(rest: Result<seq<HidrawNode>, HidError>)
    ensures Prepend([], rest) == rest
  {
    if rest.Success? {
      assert [] + rest.value == rest.value;
    }
  }

  // ------------------------------------------------------------- determinism

  /** Neither result depends on the order the source lists the names in. */
  lemma ListingOrderIrrelevant(sysfs: Sysfs, shuffled: seq<string>, vid: bv16, pid: bv16, interface: byte)
    requires sysfs.names.Success? && multiset(shuffled) == multiset(sysfs.names.value)
    ensures Find(sysfs.(names := Success(shuffled)), vid, pid, interface) == Find(sysfs, vid, pid, interface)
    ensures List(sysfs.(names := Success(shuffled))) == List(sysfs)
  {
    hide Scan, Collect;
    var other := sysfs.(names := Success(shuffled));
    SortNamesSorts(shuffled);
    SortNamesSorts(sysfs.names.value);
    SortedUnique(SortNames(shuffled), SortNames(sysfs.names.value));
    SameScan(sysfs, other, SortNames(shuffled), vid, pid, interface);
  }

  lemma {:induction false} SameScan(a: Sysfs, b: Sysfs, names: seq<string>, vid: bv16, pid: bv16, interface: byte)
    requires a.info == b.info && a.path == b.path
    ensures Scan(a, names, vid, pid, interface) == Scan(b, names, vid, pid, interface)
    ensures Collect(a, names) == Collect(b, names)
  {
    if names != [] {
      SameScan(a, b, names[1..], vid, pid, interface);
    }
  }

  /** The scan cannot pass this name: its lookup fails or it is the node wanted. */
  predicate Stops(sysfs: Sysfs, name: string, vid: bv16, pid: bv16, interface: byte) {
    match sysfs.info(name)
    case Failure(_) => true
    case Success(None) => false
    case Success(Some(info)) => Matches(info, vid, pid, interface)
  }

  /** What a name the scan stops at makes of it. */
  function Verdict(sysfs: Sysfs, name: string): Result<HidrawNode, HidError>
    requires sysfs.info(name) != Success(None)
  {
    match sysfs.info(name)
    case Failure(e) => Failure(e)
    case Success(Some(info)) => Success(HidrawNode(name, sysfs.path(name), info))
  }

  lemma {:induction false} ScanStopsAtLeast(sysfs: Sysfs, names: seq<string>, vid: bv16, pid: bv16, interface: byte, least: string)
    requires Sorted(names) && least in names && Stops(sysfs, least, vid, pid, interface)
    requires forall name :: name in names && Stops(sysfs, name, vid, pid, interface) ==> KeyLe(least, name)
    ensures Scan(sysfs, names, vid, pid, interface) == Verdict(sysfs, least)
  {
    hide KeyLe;
    if Stops(sysfs, names[0], vid, pid, interface) {
      KeyLeTotalOrder(least, names[0], least);
      assert names[0] == least by {
        var i :| 0 <= i < |names| && names[i] == least;
        assert i > 0 ==> KeyLe(names[0], names[i]);
      }
    } else {
      assert least in names[1..];
      ScanStopsAtLeast(sysfs, names[1..], vid, pid, interface, least);
    }
  }

  lemma {:induction false} ScanFindsNothing(sysfs: Sysfs, names: seq<string>, vid: bv16, pid: bv16, interface: byte)
    requires forall name :: name in names ==> !Stops(sysfs, name, vid, pid, interface)
    ensures Scan(sysfs, names, vid, pid, interface) == Failure(DeviceNotFound(vid, pid, interface))
  {
    if names != [] {
      assert names[0] in names;
      ScanFindsNothing(sysfs, names[1..], vid, pid, interface);
    }
  }

  /** The search without its sort: among the names that match or whose lookup fails, the
      key-least decides (its node, or its error); with no such name the device is not
      found. Such a least name exists whenever any name stops the scan. */
  lemma FindCharacterised(sysfs: Sysfs, vid: bv16, pid: bv16, interface: byte) returns (least: Option<string>)
    requires sysfs.names.Success?
    ensures least.None? ==>
              (forall name :: name in sysfs.names.value ==> !Stops(sysfs, name, vid, pid, interface))
              && Find(sysfs, vid, pid, interface) == Failure(DeviceNotFound(vid, pid, interface))
    ensures least.Some? ==>
              least.value in sysfs.names.value && Stops(sysfs, least.value, vid, pid, interface)
              && (forall name :: name in sysfs.names.value && Stops(sysfs, name, vid, pid, interface) ==> KeyLe(least.value, name))
              && Find(sysfs, vid, pid, interface) == Verdict(sysfs, least.value)
  {
    hide KeyLe, Verdict;
    var names := SortNames(sysfs.names.value);
    SortNamesSorts(sysfs.names.value);
    forall name ensures name in names <==> name in sysfs.names.value {
      assert name in names <==> name in multiset(names);
      assert name in sysfs.names.value <==> name in multiset(sysfs.names.value);
    }
    least := FirstStop(sysfs, names, vid, pid, interface);
    if least.Some? {
      ScanStopsAtLeast(sysfs, names, vid, pid, interface, least.value);
    } else {
      ScanFindsNothing(sysfs, names, vid, pid, interface);
    }
  }

  lemma {:induction false} FirstStop(sysfs: Sysfs, names: seq<string>, vid: bv16, pid: bv16, interface: byte)
    returns (least: Option<string>)
    requires Sorted(names)
    ensures least.None? ==> forall name :: name in names ==> !Stops(sysfs, name, vid, pid, interface)
    ensures least.Some? ==> least.value in names && Stops(sysfs, least.value, vid, pid, interface)
    ensures least.Some? ==>
              forall name :: name in names && Stops(sysfs, name, vid, pid, interface) ==> KeyLe(least.value, name)
  {
    hide KeyLe, Stops;
    if names == [] {
      least := None;
    } else if Stops(sysfs, names[0], vid, pid, interface) {
      least := Some(names[0]);
      KeyLeReflexive(names[0]);
    } else {
      least := FirstStop(sysfs, names[1..], vid, pid, interface);
    }
  }

  // ------------------------------------------------- the listing and the find

  /** The first listed node for this product and interface. */
  function FirstListed(nodes: seq<HidrawNode>, pid: bv16, interface: byte): Option<HidrawNode> {
    if nodes == [] then None
    else if nodes[0].info.productId == pid && nodes[0].info.interfaceNumber == interface then Some(nodes[0])
    else FirstListed(nodes[1..], pid, interface)
  }

  lemma {:induction false} ScanOfListed(sysfs: Sysfs, names: seq<string>, pid: bv16, interface: byte)
    requires Collect(sysfs, names).Success?
    ensures Scan(sysfs, names, RAZER_VID, pid, interface) ==
            match FirstListed(Collect(sysfs, names).value, pid, interface)
            case Some(node) => Success(node)
            case None => Failure(DeviceNotFound(RAZER_VID, pid, interface))
  {
    if names != [] {
      ScanOfListed(sysfs, names[1..], pid, interface);
      var rest := Collect(sysfs, names[1..]).value;
      match sysfs.info(names[0]).value
      case None =>
      case Some(info) =>
        var node := HidrawNode(names[0], sysfs.path(names[0]), info);
        assert ([node] + rest)[1..] == rest;
        assert [] + rest == rest;
    }
  }

  /** Whenever the listing succeeds, the control node of a Razer product is the first listed
      node with that product id and interface, and it is not found exactly when none is listed. */
  lemma FindAgreesWithList(sysfs: Sysfs, pid: bv16, interface: byte)
    requires List(sysfs).Success?
    ensures Find(sysfs, RAZER_VID, pid, interface) ==
            match FirstListed(List(sysfs).value, pid, interface)
            case Some(node) => Success(node)
            case None => Failure(DeviceNotFound(RAZER_VID, pid, interface))
  {
    hide Scan, Collect, FirstListed, SortNames;
    ScanOfListed(sysfs, SortNames(sysfs.names.value), pid, interface);
  }

  predicate Listable(sysfs: Sysfs, name: string) {
    match sysfs.info(name)
    case Success(Some(info)) => info.vendorId == RAZER_VID
    case _ => false
  }

  lemma CollectStep(sysfs: Sysfs, names: seq<string>)
    requires names != [] && Collect(sysfs, names).Success?
    ensures Collect(sysfs, names[1..]).Success?
    ensures var rest, nodes := Collect(sysfs, names[1..]).value, Collect(sysfs, names).value;
            if Listable(sysfs, names[0]) then
              nodes != [] && nodes[1..] == rest && nodes[0].name == names[0] && Success(nodes[0]) == Verdict(sysfs, names[0])
            else nodes == rest
  {
  }

  lemma {:induction false} CollectTakes(sysfs: Sysfs, names: seq<string>)
    requires Collect(sysfs, names).Success?
    ensures var nodes := Collect(sysfs, names).value;
            forall k :: 0 <= k < |nodes| ==>
              nodes[k].name in names && Listable(sysfs, nodes[k].name) && Success(nodes[k]) == Verdict(sysfs, nodes[k].name)
  {
    hide Collect, Verdict;
    if names == [] {
      NothingCollected(sysfs);
    } else {
      CollectStep(sysfs, names);
      CollectTakes(sysfs, names[1..]);
      var nodes := Collect(sysfs, names).value;
      forall k | 0 <= k < |nodes|
        ensures nodes[k].name in names && Listable(sysfs, nodes[k].name) && Success(nodes[k]) == Verdict(sysfs, nodes[k].name)
      {
        if Listable(sysfs, names[0]) && k > 0 {
          assert nodes[k] == nodes[1..][k - 1];
        }
      }
    }
  }

  lemma NothingCollected(sysfs: Sysfs)
    ensures Collect(sysfs, []) == Success([])
  {
  }

  lemma {:induction false} CollectMisses(sysfs: Sysfs, names: seq<string>, name: string)
    requires Collect(sysfs, names).Success? && name in names && Listable(sysfs, name)
    ensures exists k :: 0 <= k < |Collect(sysfs, names).value| && Collect(sysfs, names).value[k].name == name
  {
    hide Collect, Listable, Verdict;
    CollectStep(sysfs, names);
    var nodes := Collect(sysfs, names).value;
    if name == names[0] {
      assert nodes[0].name == name;
    } else {
      CollectMisses(sysfs, names[1..], name);
      var rest := Collect(sysfs, names[1..]).value;
      var k :| 0 <= k < |rest| && rest[k].name == name;
      assert if Listable(sysfs, names[0]) then nodes[k + 1] == rest[k] else nodes[k] == rest[k];
    }
  }

  lemma {:induction false} CollectAscends(sysfs: Sysfs, names: seq<string>)
    requires Collect(sysfs, names).Success? && Sorted(names)
    ensures var nodes := Collect(sysfs, names).value;
            forall j, k :: 0 <= j < k < |nodes| ==> KeyLe(nodes[j].name, nodes[k].name)
  {
    hide KeyLe, Collect, Listable, Verdict;
    if names == [] {
      NothingCollected(sysfs);
    } else {
      CollectStep(sysfs, names);
      CollectAscends(sysfs, names[1..]);
      CollectTakes(sysfs, names[1..]);
      var nodes, rest := Collect(sysfs, names).value, Collect(sysfs, names[1..]).value;
      if Listable(sysfs, names[0]) {
        forall j, k | 0 <= j < k < |nodes| ensures KeyLe(nodes[j].name, nodes[k].name) {
          assert nodes[k] == rest[k - 1] && rest[k - 1].name in names[1..];
          if j > 0 {
            assert nodes[j] == rest[j - 1];
          }
        }
      }
    }
  }

  lemma CollectKeeps(sysfs: Sysfs, names: seq<string>)
    requires Collect(sysfs, names).Success? && Sorted(names)
    ensures var nodes := Collect(sysfs, names).value;
            && (forall k :: 0 <= k < |nodes| ==> nodes[k].name in names && Listable(sysfs, nodes[k].name))
            && (forall k :: 0 <= k < |nodes| ==> Success(nodes[k]) == Verdict(sysfs, nodes[k].name))
            && (forall name :: name in names && Listable(sysfs, name) ==> exists k :: 0 <= k < |nodes| && nodes[k].name == name)
            && (forall j, k :: 0 <= j < k < |nodes| ==> KeyLe(nodes[j].name, nodes[k].name))
  {
    hide KeyLe, Collect, Listable, Verdict;
    CollectTakes(sysfs, names);
    CollectAscends(sysfs, names);
    forall name | name in names && Listable(sysfs, name)
      ensures exists k :: 0 <= k < |Collect(sysfs, names).value| && Collect(sysfs, names).value[k].name == name
    {
      CollectMisses(sysfs, names, name);
    }
  }

  lemma {:induction false} FirstFailure(sysfs: Sysfs, names: seq<string>) returns (least: Option<string>)
    requires Sorted(names)
    ensures least.None? ==> Collect(sysfs, names).Success? && forall name :: name in names ==> sysfs.info(name).Success?
    ensures least.Some? ==>
              && least.value in names && sysfs.info(least.value).Failure?
              && (forall name :: name in names && sysfs.info(name).Failure? ==> KeyLe(least.value, name))
              && Collect(sysfs, names) == Failure(sysfs.info(least.value).error)
  {
    hide KeyLe;
    if names == [] {
      least := None;
    } else if sysfs.info(names[0]).Failure? {
      least := Some(names[0]);
      KeyLeReflexive(names[0]);
    } else {
      least := FirstFailure(sysfs, names[1..]);
    }
  }

  /** A listing fails exactly when the directory cannot be read or some lookup fails; the error
      is then the directory's, or that of the key-least failing name, which `least` is. */
  lemma ListFails(sysfs: Sysfs) returns (least: Option<string>)
    ensures sysfs.names.Failure? ==> least.None? && List(sysfs) == Failure(sysfs.names.error)
    ensures sysfs.names.Success? ==>
              (least.None? <==> forall name :: name in sysfs.names.value ==> sysfs.info(name).Success?)
    ensures sysfs.names.Success? ==> (least.None? <==> List(sysfs).Success?)
    ensures least.Some? ==>
              && sysfs.names.Success? && least.value in sysfs.names.value && sysfs.info(least.value).Failure?
              && (forall name :: name in sysfs.names.value && sysfs.info(name).Failure? ==> KeyLe(least.value, name))
              && List(sysfs) == Failure(sysfs.info(least.value).error)
  {
    hide KeyLe, Collect;
    if sysfs.names.Failure? {
      least := None;
    } else {
      var names := SortNames(sysfs.names.value);
      SortNamesSorts(sysfs.names.value);
      forall name ensures name in names <==> name in sysfs.names.value {
        assert name in names <==> name in multiset(names);
        assert name in sysfs.names.value <==> name in multiset(sysfs.names.value);
      }
      least := FirstFailure(sysfs, names);
    }
  }

  /** A successful listing holds exactly the Razer nodes, in key order. */
  lemma ListCharacterised(sysfs: Sysfs)
    requires List(sysfs).Success?
    ensures var nodes := List(sysfs).value;
            && (forall k :: 0 <= k < |nodes| ==> nodes[k].name in sysfs.names.value && Listable(sysfs, nodes[k].name))
            && (forall k :: 0 <= k < |nodes| ==> Success(nodes[k]) == Verdict(sysfs, nodes[k].name))
            && (forall name :: name in sysfs.names.value && Listable(sysfs, name) ==> exists k :: 0 <= k < |nodes| && nodes[k].name == name)
            && (forall j, k :: 0 <= j < k < |nodes| ==> KeyLe(nodes[j].name, nodes[k].name))
  {
    hide KeyLe, Verdict, Collect;
    var names := SortNames(sysfs.names.value);
    SortNamesSorts(sysfs.names.value);
    CollectKeeps(sysfs, names);
    forall name ensures name in names <==> name in sysfs.names.value {
      assert name in names <==> name in multiset(names);
      assert name in sysfs.names.value <==> name in multiset(sysfs.names.value);
    }
  }

  // ------------------------------------------------ the results in plain terms

  /** The name belongs to the wanted interface, or its lookup fails. */
  predicate Wanted(sysfs: Sysfs, name: string, vid: bv16, pid: bv16, interface: byte) {
    match sysfs.info(name)
    case Failure(_) => true
    case Success(None) => false
    case Success(Some(info)) => info.vendorId == vid && info.productId == pid && info.interfaceNumber == interface
  }

  /** A node as its source describes it. */
  predicate Describes(sysfs: Sysfs, node: HidrawNode) {
    sysfs.info(node.name) == Success(Some(node.info)) && node.path == sysfs.path(node.name)
  }

  lemma WantedStops(sysfs: Sysfs, name: string, vid: bv16, pid: bv16, interface: byte)
    ensures Wanted(sysfs, name, vid, pid, interface) <==> Stops(sysfs, name, vid, pid, interface)
  {
  }

  /** The search: the wanted name that comes first by index decides. It is found with its own
      description, or its lookup error is returned; with no wanted name nothing is found. */
  lemma FindPicksFirst(sysfs: Sysfs, vid: bv16, pid: bv16, interface: byte) returns (first: Option<string>)
    requires sysfs.names.Success?
    ensures first.None? ==>
              && (forall name :: name in sysfs.names.value ==> !Wanted(sysfs, name, vid, pid, interface))
              && Find(sysfs, vid, pid, interface) == Failure(DeviceNotFound(vid, pid, interface))
    ensures first.Some? ==>
              && first.value in sysfs.names.value && Wanted(sysfs, first.value, vid, pid, interface)
              && (forall name :: name in sysfs.names.value && Wanted(sysfs, name, vid, pid, interface) ==> Earlier(first.value, name))
              && match Find(sysfs, vid, pid, interface)
                 case Success(node) => node.name == first.value && Describes(sysfs, node)
                 case Failure(e) => sysfs.info(first.value) == Failure(e)
  {
    hide KeyLe, Earlier, Wanted, Stops, Find;
    first := FindCharacterised(sysfs, vid, pid, interface);
    forall name ensures Wanted(sysfs, name, vid, pid, interface) <==> Stops(sysfs, name, vid, pid, interface) {
      WantedStops(sysfs, name, vid, pid, interface);
    }
    if first.Some? {
      forall name ensures KeyLe(first.value, name) <==> Earlier(first.value, name) {
        KeyLeIsEarlier(first.value, name);
      }
      StopsVerdict(sysfs, first.value, vid, pid, interface);
    }
  }

  lemma StopsVerdict(sysfs: Sysfs, name: string, vid: bv16, pid: bv16, interface: byte)
    requires Stops(sysfs, name, vid, pid, interface)
    ensures match Verdict(sysfs, name)
            case Success(node) => node.name == name && Describes(sysfs, node)
            case Failure(e) => sysfs.info(name) == Failure(e)
  {
  }

  /** Among recognised names of the wanted interface the smallest index wins. */
  lemma SmallestIndexWins(sysfs: Sysfs, vid: bv16, pid: bv16, interface: byte, name: string)
    requires Find(sysfs, vid, pid, interface).Success? && name in sysfs.names.value
    requires Wanted(sysfs, name, vid, pid, interface) && HidrawIndex(name).Some?
    ensures var node := Find(sysfs, vid, pid, interface).value;
            && (HidrawIndex(node.name).Some? ==> HidrawIndex(node.name).value <= HidrawIndex(name).value)
            && (HidrawIndex(name).value < 4_294_967_295 ==> HidrawIndex(node.name).Some?)
  {
    hide HidrawIndex, TextLe, Scan, SortNames, Wanted;
    var first := FindPicksFirst(sysfs, vid, pid, interface);
    IndexBound(name);
  }

  /** A listing shows each Razer node as its source describes it, in ascending order of index,
      the unrecognised names after all indices below the last. */
  lemma ListedIndicesAscend(sysfs: Sysfs)
    requires List(sysfs).Success?
    ensures var nodes := List(sysfs).value;
            && (forall k :: 0 <= k < |nodes| ==> Describes(sysfs, nodes[k]) && nodes[k].info.vendorId == 0x1532)
            && (forall j, k :: 0 <= j < k < |nodes| ==> Earlier(nodes[j].name, nodes[k].name))
            && (forall name :: name in sysfs.names.value && sysfs.info(name).Success? && sysfs.info(name).value.Some?
                               && sysfs.info(name).value.value.vendorId == 0x1532 ==>
                  exists k :: 0 <= k < |nodes| && nodes[k].name == name)
  {
    hide KeyLe, Earlier, Collect, SortNames;
    ListCharacterised(sysfs);
    var nodes := List(sysfs).value;
    forall j, k | 0 <= j < k < |nodes| ensures Earlier(nodes[j].name, nodes[k].name) {
      KeyLeIsEarlier(nodes[j].name, nodes[k].name);
    }
    forall name | name in sysfs.names.value && sysfs.info(name).Success? && sysfs.info(name).value.Some?
                  && sysfs.info(name).value.value.vendorId == 0x1532
      ensures Listable(sysfs, name)
    {
    }
  }
}
