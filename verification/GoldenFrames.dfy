/** The frames of crates/razer-proto/tests/fixtures/golden_vectors.txt, byte for byte, from
    the layout every command shares. */
module GoldenFrames {
  import opened Checksum
  import opened ReportCodec
  import opened Messages

  function Zeros(n: nat): seq<byte> {
    seq(n, _ => 0)
  }

  /** A frame given by what stands before its zero padding, and its checksum. */
  function PaddedFrame(front: seq<byte>, crc: byte): Wire
    requires |front| <= 88
  {
    front + Zeros(88 - |front|) + [crc, 0]
  }

  lemma {:induction false} XorAllZeros(n: nat)
    ensures XorAll(Zeros(n)) == 0
  {
    if n > 0 {
      XorAllZeros(n - 1);
      assert Zeros(n)[..n - 1] == Zeros(n - 1);
    }
  }

  lemma RoutingOf(r: Report)
    requires r.remainingPackets == 0 && r.protocolType == 0
    ensures Routing(r) == [0, 0, 0, r.dataSize, r.commandClass, r.commandId]
  {
  }

  lemma PaddedChecksum(front: seq<byte>, payload: seq<byte>, n: nat)
    ensures XorAll(front + (payload + Zeros(n))) == XorAll(front) ^ XorAll(payload)
  {
    hide XorAll;
    XorAllConcat(front, payload + Zeros(n));
    XorAllConcat(payload, Zeros(n));
    XorAllZeros(n);
  }

  lemma Regroup(a: seq<byte>, b: seq<byte>, c: seq<byte>, d: seq<byte>, e: seq<byte>)
    ensures a + b + (c + d) + e == a + b + c + d + e
  {
  }

  lemma PaddedArguments(payload: seq<byte>)
    requires |payload| <= ARGS_LEN
    ensures Padded(payload) == payload + Zeros(80 - |payload|)
  {
  }

  lemma CommandChecksum(r: Report, payload: seq<byte>, n: nat)
    requires r.remainingPackets == 0 && r.protocolType == 0 && r.arguments == payload + Zeros(n)
    ensures ChecksumOf(r) == r.dataSize ^ r.commandClass ^ r.commandId ^ XorAll(payload)
  {
    hide XorAll, Routing, Zeros;
    RoutingOf(r);
    PaddedChecksum(Routing(r), payload, n);
    FirstSix(r.dataSize, r.commandClass, r.commandId);
  }

  lemma CommandLayout(r: Report, payload: seq<byte>)
    requires r.status == New && r.remainingPackets == 0 && r.protocolType == 0 && r.reserved == 0
    requires |payload| <= ARGS_LEN && r.arguments == payload + Zeros(80 - |payload|)
    ensures Encode(r) == PaddedFrame([0, r.transactionId, 0, 0, 0, r.dataSize, r.commandClass, r.commandId] + payload,
                                     ChecksumOf(r))
  {
    hide Routing, ChecksumOf;
    RoutingOf(r);
    Regroup([0, r.transactionId], Routing(r), payload, Zeros(80 - |payload|), [ChecksumOf(r), 0]);
    assert [0, r.transactionId] + Routing(r) == [0, r.transactionId, 0, 0, 0, r.dataSize, r.commandClass, r.commandId];
  }

  /** Every command frame: a fresh status, the id, no packets to follow, protocol 0, the
      declared size, class and command, the payload, zeros, and the XOR of what is not zero. */
  lemma CommandFrame(tid: byte, commandClass: byte, commandId: byte, dataSize: byte, payload: seq<byte>)
    requires |payload| <= ARGS_LEN
    ensures Encode(Command(commandClass, commandId, dataSize, payload).(transactionId := tid)) ==
            PaddedFrame([0, tid, 0, 0, 0, dataSize, commandClass, commandId] + payload,
                        dataSize ^ commandClass ^ commandId ^ XorAll(payload))
  {
    hide XorAll, Encode, PaddedFrame, ChecksumOf, Padded, Zeros;
    var r := Command(commandClass, commandId, dataSize, payload).(transactionId := tid);
    PaddedArguments(payload);
    CommandChecksum(r, payload, 80 - |payload|);
    CommandLayout(r, payload);
  }

  lemma FirstSix(a: byte, b: byte, c: byte)
    ensures XorAll([0, 0, 0, a, b, c]) == a ^ b ^ c
  {
    XorAllConcat([0, 0, 0, a, b], [c]);
    XorAllConcat([0, 0, 0, a], [b]);
    XorAllConcat([0, 0, 0], [a]);
    XorAllConcat([0, 0], [0]);
    XorAllConcat([0], [0]);
    assert [0, 0, 0, a, b] + [c] == [0, 0, 0, a, b, c] && [0, 0, 0, a] + [b] == [0, 0, 0, a, b];
    assert [0, 0, 0] + [a] == [0, 0, 0, a] && [0, 0] + [0] == [0, 0, 0 as byte] && [0] + [0] == [0, 0 as byte];
    XorAllOne(0);
    XorAllOne(a);
    XorAllOne(b);
    XorAllOne(c);
  }

  lemma XorAllTwo(a: byte, b: byte)
    ensures XorAll([a, b]) == a ^ b
  {
    XorAllConcat([a], [b]);
    assert [a] + [b] == [a, b];
    XorAllOne(a);
    XorAllOne(b);
  }

  lemma XorAllNothing()
    ensures XorAll([]) == 0
  {
  }

  /** The five vectors. The correct and the faulty driver-mode frame differ in byte 1 only,
      and carry the same checksum. */
  lemma GoldenVectors()
    ensures Encode(GetFirmwareVersionCommand().(transactionId := 0x1F))
         == PaddedFrame([0x00, 0x1F, 0x00, 0x00, 0x00, 0x02, 0x00, 0x81], 0x83)
    ensures Encode(GetSerialCommand().(transactionId := 0x1F))
         == PaddedFrame([0x00, 0x1F, 0x00, 0x00, 0x00, 0x16, 0x00, 0x82], 0x94)
    ensures Encode(SetDeviceModeCommand(Driver).(transactionId := 0x1F))
         == PaddedFrame([0x00, 0x1F, 0x00, 0x00, 0x00, 0x02, 0x00, 0x04, 0x03, 0x00], 0x05)
    ensures Encode(SetDeviceModeCommand(Driver).(transactionId := 0xFF))
         == PaddedFrame([0x00, 0xFF, 0x00, 0x00, 0x00, 0x02, 0x00, 0x04, 0x03, 0x00], 0x05)
    ensures Encode(SetDeviceModeCommand(Normal).(transactionId := 0x1F))
         == PaddedFrame([0x00, 0x1F, 0x00, 0x00, 0x00, 0x02, 0x00, 0x04, 0x00, 0x00], 0x06)
  {
    hide Encode, Command, PaddedFrame, XorAll;
    XorAllNothing();
    CommandFrame(0x1F, 0x00, 0x81, 0x02, []);
    CommandFrame(0x1F, 0x00, 0x82, 0x16, []);
    XorAllTwo(0x03, 0x00);
    XorAllTwo(0x00, 0x00);
    CommandFrame(0x1F, 0x00, 0x04, 0x02, [0x03, 0x00]);
    CommandFrame(0xFF, 0x00, 0x04, 0x02, [0x03, 0x00]);
    CommandFrame(0x1F, 0x00, 0x04, 0x02, [0x00, 0x00]);
    assert [0x00, 0x1F, 0x00, 0x00, 0x00, 0x02, 0x00, 0x81 as byte] + [] == [0x00, 0x1F, 0x00, 0x00, 0x00, 0x02, 0x00, 0x81];
    assert [0x00, 0x1F, 0x00, 0x00, 0x00, 0x16, 0x00, 0x82 as byte] + [] == [0x00, 0x1F, 0x00, 0x00, 0x00, 0x16, 0x00, 0x82];
    Joined(0x1F, 0x03);
    Joined(0xFF, 0x03);
    Joined(0x1F, 0x00);
  }

  lemma Joined(tid: byte, mode: byte)
    ensures [0x00, tid, 0x00, 0x00, 0x00, 0x02, 0x00, 0x04] + [mode, 0x00] == [0x00, tid, 0x00, 0x00, 0x00, 0x02, 0x00, 0x04, mode, 0x00]
  {
  }
}
