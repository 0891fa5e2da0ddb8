/** The 90-byte report and its codec (crates/razer-proto/src/report.rs). */
module ReportCodec {
  import opened Checksum

  const ARGS_LEN := 80

  /** The fixed-length argument array. */
  type Args = s: seq<byte> | |s| == ARGS_LEN witness seq(ARGS_LEN, _ => 0)

  function NoArgs(): Args {
    seq(ARGS_LEN, _ => 0)
  }

  /** `Unknown(0)` to `Unknown(5)` are constructible but never decoded: see `Canonical`. */
  datatype Status = New | Busy | Successful | CommandFailure | Timeout | NotSupported | Unknown(code: byte)

  function StatusFromByte(v: byte): Status {
    match v
    case 0 => New
    case 1 => Busy
    case 2 => Successful
    case 3 => CommandFailure
    case 4 => Timeout
    case 5 => NotSupported
    case other => Unknown(other)
  }

  function StatusToByte(s: Status): byte {
    match s
    case New => 0
    case Busy => 1
    case Successful => 2
    case CommandFailure => 3
    case Timeout => 4
    case NotSupported => 5
    case Unknown(other) => other
  }

  predicate Accepted(s: Status) {
    s.Successful? || s.Busy?
  }

  /** A status the decoder can produce. */
  predicate Canonical(s: Status) {
    s.Unknown? ==> s.code > 5
  }

  lemma StatusRoundTrip(s: Status)
    ensures StatusFromByte(StatusToByte(s)) == s <==> Canonical(s)
  {
  }

  datatype Report = Report(
    status: Status,
    transactionId: byte,
    remainingPackets: bv16,
    protocolType: byte,
    dataSize: byte,
    commandClass: byte,
    commandId: byte,
    arguments: Args,
    crc: byte,
    reserved: byte)

  function Blank(commandClass: byte, commandId: byte, dataSize: byte): Report {
    Report(New, 0, 0, 0, dataSize, commandClass, commandId, NoArgs(), 0, 0)
  }

  /** Bit 7 of the command id: a device-to-host command. */
  predicate IsGet(commandId: byte) {
    commandId & 0x80 != 0
  }

  // Big-endian halves of the packet counter.

  function HighByte(v: bv16): byte {
    (v >> 8) as byte
  }

  function LowByte(v: bv16): byte {
    (v & 0xFF) as byte
  }

  function FromBigEndian(high: byte, low: byte): bv16 {
    ((high as bv16) << 8) | (low as bv16)
  }

  lemma BigEndianRoundTrip(v: bv16, high: byte, low: byte)
    ensures FromBigEndian(HighByte(v), LowByte(v)) == v
    ensures HighByte(FromBigEndian(high, low)) == high
    ensures LowByte(FromBigEndian(high, low)) == low
  {
  }

  // ------------------------------------------------ the wire form, as a value

  /** Bytes 2..=7. */
  function Routing(r: Report): seq<byte> {
    [HighByte(r.remainingPackets), LowByte(r.remainingPackets), r.protocolType, r.dataSize,
     r.commandClass, r.commandId]
  }

  /** The checksum `ToBytes` stamps, as a function of the fields. */
  function ChecksumOf(r: Report): byte {
    XorAll(Routing(r) + r.arguments)
  }

  function Encode(r: Report): Wire {
    [StatusToByte(r.status), r.transactionId] + Routing(r) + r.arguments + [ChecksumOf(r), r.reserved]
  }

  function Decode(b: Wire): Report {
    Report(StatusFromByte(b[0]), b[1], FromBigEndian(b[2], b[3]), b[4], b[5], b[6], b[7],
           b[8..88], b[88], b[89])
  }

  // ------------------------------------------------------------- the methods

  /** `with_args`: the slice replaces as many leading arguments, and the rest stay. A longer
      slice panics in the original. */
  method WithArgs(r: Report, args: seq<byte>) returns (r': Report)
    requires |args| <= ARGS_LEN
    ensures r' == r.(arguments := args + r.arguments[|args|..])
  {
    var arguments := new byte[ARGS_LEN](i requires 0 <= i < ARGS_LEN => r.arguments[i]);
    for i := 0 to |args|
      invariant arguments[..] == args[..i] + r.arguments[i..]
    {
      arguments[i] := args[i];
    }
    assert args[..|args|] == args;
    r' := r.(arguments := arguments[..]);
  }

  /** `crc` as the loop that computes it, over a buffer still being filled. */
  method ComputeCrc(bytes: array<byte>) returns (acc: byte)
    requires bytes.Length == REPORT_LEN
    ensures acc == XorAll(bytes[2..88])
  {
    acc := 0;
    for i := 2 to 88
      invariant acc == XorAll(bytes[2..i])
    {
      assert bytes[2..i + 1][..i - 2] == bytes[2..i];
      acc := acc ^ bytes[i];
    }
  }

  lemma EncodedFrom(s: Wire, r: Report)
    requires s[0] == StatusToByte(r.status) && s[1] == r.transactionId
    requires s[2..88] == Routing(r) + r.arguments
    requires s[88] == ChecksumOf(r) && s[89] == r.reserved
    ensures s == Encode(r)
  {
    assert s == [s[0], s[1]] + s[2..88] + [s[88], s[89]];
  }

  method WriteHeader(out: array<byte>, r: Report)
    requires out.Length == REPORT_LEN
    modifies out
    ensures out[0] == StatusToByte(r.status) && out[1] == r.transactionId
    ensures out[2] == HighByte(r.remainingPackets) && out[3] == LowByte(r.remainingPackets)
    ensures out[4] == r.protocolType && out[5] == r.dataSize && out[6] == r.commandClass && out[7] == r.commandId
    ensures forall i :: 8 <= i < REPORT_LEN ==> out[i] == old(out[i])
  {
    hide HighByte, LowByte, StatusToByte;
    out[0], out[1] := StatusToByte(r.status), r.transactionId;
    out[2], out[3] := HighByte(r.remainingPackets), LowByte(r.remainingPackets);
    out[4], out[5], out[6], out[7] := r.protocolType, r.dataSize, r.commandClass, r.commandId;
  }

  method WriteArguments(out: array<byte>, args: Args)
    requires out.Length == REPORT_LEN
    modifies out
    ensures out[..8] == old(out[..8]) && out[8..88] == args && out[88..] == old(out[88..])
  {
    forall i | 8 <= i < 88 {
      out[i] := args[i - 8];
    }
  }

  method ToBytes(r: Report) returns (bytes: Wire)
    ensures bytes == Encode(r)
  {
    var out := new byte[REPORT_LEN](_ => 0);
    hide HighByte, LowByte, StatusToByte, ChecksumOf;
    WriteHeader(out, r);
    assert out[..8] == [StatusToByte(r.status), r.transactionId] + Routing(r);
    WriteArguments(out, r.arguments);
    out[89] := r.reserved;
    assert out[..][..8] == out[..8] && out[..][8..88] == out[8..88];
    CoveredRange(out[..], r);
    assert out[..][2..88] == out[2..88];
    var crc := ComputeCrc(out);
    ghost var unsummed := out[..];
    out[88] := crc;
    bytes := out[..];
    assert bytes == unsummed[88 := crc];
    assert bytes[2..88] == unsummed[2..88];
    ChecksumIsCovered(r);
    EncodedFrom(bytes, r);
  }

  lemma CoveredRange(s: Wire, r: Report)
    requires s[..8] == [StatusToByte(r.status), r.transactionId] + Routing(r) && s[8..88] == r.arguments
    ensures s[2..88] == Routing(r) + r.arguments
    ensures s[0] == StatusToByte(r.status) && s[1] == r.transactionId
  {
    hide Routing, StatusToByte;
    assert s[0] == s[..8][0] && s[1] == s[..8][1];
    assert s[2..88] == s[..8][2..] + s[8..88];
    RoutingLength(r);
  }

  lemma RoutingLength(r: Report)
    ensures |Routing(r)| == 6
  {
  }

  lemma ChecksumIsCovered(r: Report)
    ensures ChecksumOf(r) == XorAll(Routing(r) + r.arguments)
  {
  }

  method FromBytes(bytes: Wire) returns (r: Report)
    ensures r == Decode(bytes)
  {
    var arguments := new byte[ARGS_LEN](_ => 0);
    forall i | 0 <= i < ARGS_LEN {
      arguments[i] := bytes[8 + i];
    }
    assert arguments[..] == bytes[8..88];
    r := Report(StatusFromByte(bytes[0]), bytes[1], FromBigEndian(bytes[2], bytes[3]), bytes[4],
                bytes[5], bytes[6], bytes[7], arguments[..], bytes[88], bytes[89]);
  }

  // -------------------------------------------------------------- codec laws

  lemma EncodedBytes(r: Report)
    ensures var b := Encode(r);
            && b[0] == StatusToByte(r.status) && b[1] == r.transactionId
            && b[2] == HighByte(r.remainingPackets) && b[3] == LowByte(r.remainingPackets)
            && b[4] == r.protocolType && b[5] == r.dataSize
            && b[6] == r.commandClass && b[7] == r.commandId
            && b[8..88] == r.arguments && b[88] == ChecksumOf(r) && b[89] == r.reserved
            && b[2..88] == Routing(r) + r.arguments
  {
  }

  /** Every encoded frame carries a valid checksum, whatever `r.crc` said. */
  lemma EncodeVerifies(r: Report)
    ensures VerifyCrc(Encode(r)) && Encode(r)[88] == ChecksumOf(r)
  {
    EncodedBytes(r);
  }

  /** Decoding an encoded report restores every field, with the checksum stamped in and
      the status brought to canonical form. */
  lemma DecodeEncode(r: Report)
    ensures Decode(Encode(r)) == r.(status := StatusFromByte(StatusToByte(r.status)), crc := ChecksumOf(r))
    ensures Decode(Encode(r)) == r.(crc := ChecksumOf(r)) <==> Canonical(r.status)
    ensures Decode(Encode(r)) == r <==> Canonical(r.status) && r.crc == ChecksumOf(r)
  {
    EncodedBytes(r);
    BigEndianRoundTrip(r.remainingPackets, 0, 0);
    StatusRoundTrip(r.status);
  }

  /** Re-encoding a decoded buffer changes byte 88 and nothing else; it restores the
      buffer exactly when the checksum verified. */
  lemma EncodeDecode(b: Wire)
    ensures Encode(Decode(b)) == b[88 := Crc(b)]
    ensures Encode(Decode(b)) == b <==> VerifyCrc(b)
  {
    var r := Decode(b);
    DecodedFields(b);
    EncodedFrom(b[88 := Crc(b)], r);
  }

  lemma DecodedFields(b: Wire)
    ensures var r := Decode(b);
            && b[2..88] == Routing(r) + r.arguments && Crc(b) == ChecksumOf(r)
            && b[0] == StatusToByte(r.status)
  {
    hide XorAll;
    BigEndianRoundTrip(0, b[2], b[3]);
    assert b[2..88] == b[2..8] + b[8..88];
    assert b[2..8] == Routing(Decode(b));
  }

  /** Two reports have the same wire form exactly when they agree on every field but the
      stored checksum, statuses being compared by byte. */
  lemma EncodeInjective(r: Report, s: Report)
    ensures Encode(r) == Encode(s) <==>
            s == r.(status := s.status, crc := s.crc) && StatusToByte(r.status) == StatusToByte(s.status)
  {
    if Encode(r) == Encode(s) {
      hide Encode, Decode;
      DecodeEncode(r);
      DecodeEncode(s);
      EncodedStatus(r);
      EncodedStatus(s);
    }
  }

  lemma EncodedStatus(r: Report)
    ensures Encode(r)[0] == StatusToByte(r.status)
  {
  }

  /** Restamping byte 1 rewrites that byte of the wire form only; the checksum stays valid. */
  lemma RestampedFrame(r: Report, tid: byte)
    ensures Encode(r.(transactionId := tid)) == Encode(r)[1 := tid]
    ensures ChecksumOf(r.(transactionId := tid)) == ChecksumOf(r)
  {
  }
}
