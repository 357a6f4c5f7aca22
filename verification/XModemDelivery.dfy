/**
  File delivery between two adapters of src/xmodem.cpp, one sending and one receiving, over a channel
  that may damage any data packet detectably and turn any ACK into a NAK.
*/
module XModemDelivery {
  import opened Words
  import opened Crc16
  import opened XModem

  // ---------------------------------------------------------------- chunks

  /** The first `n` chunks of a file. */
  function Prefix(f: seq<byte>, n: nat): seq<byte> { f[..Min(n * BUFFER_SIZE, |f|)] }

  /** Chunk `k`, counted from 1: 128 bytes, or what is left. */
  function Chunk(f: seq<byte>, k: nat): Bytes
    requires k >= 1
  {
    f[Min((k - 1) * BUFFER_SIZE, |f|)..Min(k * BUFFER_SIZE, |f|)]
  }

  lemma PrefixGrows(f: seq<byte>, k: nat)
    requires k >= 1
    ensures Prefix(f, k - 1) + Chunk(f, k) == Prefix(f, k)
  {
  }

  /** Chunks of a file, the last one short (possibly empty). */
  function Chunks(f: seq<byte>): nat { |f| / BUFFER_SIZE + 1 }

  // ---------------------------------------------------------------- the sender

  /** The sender's invariant at chunk `k`: the handle stands right after it, the outgoing packet
      carries it, and the end is flagged exactly for a short chunk - or for the first one, when
      the flag was left over (`stale`) from an earlier transfer. */
  ghost predicate Sending(a: Adapter, f: seq<byte>, k: nat, stale: bool) {
    && a.isTransmitting && !a.isReceiving
    && 1 <= k <= Chunks(f)
    && a.packetno == k % TWO_16
    && a.file == Reading(f, Min(k * BUFFER_SIZE, |f|))
    && a.xmodemStore == DataPacket(k % TWO_16, Chunk(f, k))
    && (stale ==> k == 1)
    && (a.isEOT <==> k == Chunks(f) || stale)
  }

  lemma StartSends(a: Adapter, p: Packet, disk: Disk)
    requires !a.isReceiving && !a.isTransmitting && p.control == STX && p.seqno == 0 && disk.openOk
    requires var name := CString(p.buffer, BUFFER_SIZE - 1); ValidFilename(name) && name in a.fs
    ensures var name := CString(p.buffer, BUFFER_SIZE - 1);
            Sending(Handle(a, p, disk), a.fs[name], 1, a.isEOT) && Handle(a, p, disk).fs == a.fs
  {
  }

  /** ACK: the last chunk is followed by EOT, any other by the next chunk with a fresh retry budget. */
  lemma AckAdvances(a: Adapter, f: seq<byte>, k: nat, stale: bool, p: Packet, disk: Disk)
    requires Sending(a, f, k, stale) && p.control == ACK
    ensures var b := Handle(a, p, disk);
            if a.isEOT then b.xmodemStore == ControlPacket(EOT) && !b.isTransmitting && !b.isEOT
            else Sending(b, f, k + 1, stale) && b.retrans == 25
    ensures Handle(a, p, disk).notified == a.notified + 1
  {
    var b := Handle(a, p, disk);
    if !a.isEOT {
      assert |NextBytes(a.file)| < BUFFER_SIZE <==> k + 1 == Chunks(f);
    }
  }

  /** NAK, with retries left: the same chunk again, found by seeking, up to packet number 65535. */
  lemma NakRepeats(a: Adapter, f: seq<byte>, k: nat, stale: bool, p: Packet, disk: Disk)
    requires Sending(a, f, k, stale) && p.control == NAK && k < TWO_16
    ensures var b := Handle(a, p, disk);
            if a.retrans <= 1 then b.xmodemStore == ControlPacket(CAN) && !b.isTransmitting
            else Sending(b, f, k, stale) && b.retrans == a.retrans - 1
    ensures Handle(a, p, disk).notified == a.notified + 1
  {
  }

  /** The packet number is 16 bits wide, and so is the seek: past chunk 65535 a NAK makes the sender
      read from the wrong place. The read starts at the chunk's own offset exactly below the wrap
      (or when the chunk asked for again is the empty one at a multiple of 65536). */
  lemma NakSeeksRightIff(a: Adapter, f: seq<byte>, k: nat, stale: bool)
    requires Sending(a, f, k, stale)
    ensures SeekTo(a.file, a.packetno).pos == (k - 1) * BUFFER_SIZE
            <==> k < TWO_16 || (k % TWO_16 == 0 && |f| == (k - 1) * BUFFER_SIZE)
  {
  }

  /** Replies the sender can still take: chunks left first, retries second. */
  ghost function Budget(a: Adapter): nat {
    if a.isTransmitting && a.file.Reading? && a.packetno <= Chunks(a.file.content)
    then (Chunks(a.file.content) - a.packetno) * (MAXRETRANS + 1) + (if a.retrans > 0 then a.retrans else 0) + 1
    else 0
  }

  /** Every reply strictly uses up the budget. */
  lemma ReplyUsesBudget(a: Adapter, f: seq<byte>, k: nat, stale: bool, p: Packet, disk: Disk)
    requires Sending(a, f, k, stale) && (p.control == ACK || p.control == NAK)
    requires Chunks(f) < TWO_16
    ensures Budget(Handle(a, p, disk)) < Budget(a)
  {
    if p.control == ACK {
      AckAdvances(a, f, k, stale, p, disk);
    } else {
      NakRepeats(a, f, k, stale, p, disk);
    }
  }

  /** One reply: on to the next chunk, the same one again, or the end. */
  lemma ReplyStep(a: Adapter, f: seq<byte>, k: nat, stale: bool, p: Packet, disk: Disk) returns (k': nat)
    requires Sending(a, f, k, stale) && (p.control == ACK || p.control == NAK) && Chunks(f) < TWO_16
    ensures var b := Handle(a, p, disk);
            && Budget(b) < Budget(a)
            && if b.isTransmitting then Sending(b, f, k', stale)
               else b.xmodemStore == ControlPacket(EOT) || b.xmodemStore == ControlPacket(CAN)
  {
    ReplyUsesBudget(a, f, k, stale, p, disk);
    if p.control == ACK {
      AckAdvances(a, f, k, stale, p, disk);
      k' := k + 1;
    } else {
      NakRepeats(a, f, k, stale, p, disk);
      k' := k;
    }
  }

  /** However the replies fall, the transfer ends in EOT or CAN within `Budget(a)` of them. */
  lemma {:induction false} SenderStops(a: Adapter, f: seq<byte>, k: nat, stale: bool, replies: seq<Packet>, disk: Disk)
      returns (n: nat)
    requires Sending(a, f, k, stale) && Chunks(f) < TWO_16
    requires forall i :: 0 <= i < |replies| ==> replies[i].control == ACK || replies[i].control == NAK
    requires |replies| >= Budget(a)
    ensures 1 <= n <= Budget(a) && n <= |replies|
    ensures var end := HandleAll(a, replies[..n], disk);
            !end.isTransmitting && (end.xmodemStore == ControlPacket(EOT) || end.xmodemStore == ControlPacket(CAN))
    decreases Budget(a)
  {
    assert Budget(a) > 0;
    hide Handle, Budget, Sending;
    var b := Handle(a, replies[0], disk);
    var k' := ReplyStep(a, f, k, stale, replies[0], disk);
    if b.isTransmitting {
      var m := SenderStops(b, f, k', stale, replies[1..], disk);
      n := m + 1;
      assert replies[..n][1..] == replies[1..][..m];
    } else {
      n := 1;
      assert replies[..1][1..] == [];
    }
  }

  ghost function HandleAll(a: Adapter, ps: seq<Packet>, disk: Disk): Adapter
    decreases |ps|
  {
    if ps == [] then a else HandleAll(Handle(a, ps[0], disk), ps[1..], disk)
  }

  // ---------------------------------------------------------------- the receiver

  /** The receiver's invariant: it waits for chunk `n` and has stored the ones before it. */
  ghost predicate Receiving(r: Adapter, name: Name, f: seq<byte>, n: nat) {
    && r.isReceiving && !r.isTransmitting
    && r.file == Writing(name) && r.filename == name
    && name in r.fs && n >= 1
    && r.fs[name] == Prefix(f, n - 1)
    && r.packetno == n % TWO_16
  }

  lemma StartReceives(r: Adapter, p: Packet, disk: Disk, f: seq<byte>)
    requires !r.isReceiving && !r.isTransmitting && p.control == SOH && p.seqno == 0 && disk.openOk
    requires ValidFilename(CString(p.buffer, BUFFER_SIZE - 1))
    ensures Receiving(Handle(r, p, disk), CString(p.buffer, BUFFER_SIZE - 1), f, 1)
  {
  }

  /** The acceptance rule: the expected number and a matching checksum. */
  predicate Accepts(r: Adapter, p: Packet) {
    p.seqno == r.packetno && Check(p.buffer, p.crc16)
  }

  /** A data packet is either the one chunk the receiver waits for, which it stores and acknowledges,
      or is refused with no effect on the file. */
  lemma DataPacketHandled(r: Adapter, name: Name, f: seq<byte>, n: nat, p: Packet, disk: Disk)
    requires Receiving(r, name, f, n) && (p.control == SOH || p.control == STX) && disk.room >= |p.buffer|
    requires Accepts(r, p) ==> p.buffer == Chunk(f, n)
    ensures var q := Handle(r, p, disk);
            if Accepts(r, p) then Receiving(q, name, f, n + 1) && q.xmodemStore == ControlPacket(ACK)
            else Receiving(q, name, f, n) && q.xmodemStore == ControlPacket(NAK)
    ensures Handle(r, p, disk).notified == r.notified + 1
  {
    if Accepts(r, p) {
      PrefixGrows(f, n);
    }
  }

  /** A write that the disk cuts short is acknowledged like any other: the sender moves on, the bytes
      stay missing and later ones close up, exactly when the packet had more bytes than room. */
  lemma ShortWriteIsAcknowledged(r: Adapter, name: Name, f: seq<byte>, n: nat, p: Packet, disk: Disk)
    requires Receiving(r, name, f, n) && (p.control == SOH || p.control == STX) && Accepts(r, p) && p.buffer == Chunk(f, n)
    ensures Handle(r, p, disk).xmodemStore == ControlPacket(ACK)
    ensures Receiving(Handle(r, p, disk), name, f, n + 1) <==> disk.room >= |p.buffer|
  {
    PrefixGrows(f, n);
    var q := Handle(r, p, disk);
    assert |q.fs[name]| == |Prefix(f, n - 1)| + Min(|p.buffer|, disk.room);
  }

  // ---------------------------------------------------------------- both ends and the channel

  datatype Phase = ToReceiver | ToSender | Finished

  datatype System = System(sender: Adapter, receiver: Adapter, phase: Phase)

  /** What the channel does: deliver `arrived` to the receiver, or return the receiver's reply
      intact or turned into a NAK. */
  datatype Event = Deliver(arrived: Packet, room: nat) | ReturnReply | GarbleReply

  /** Damage is detectable when the receiver refuses the packet; control packets arrive intact, and
      writes have room. */
  ghost predicate Legal(s: System, e: Event) {
    match s.phase
    case Finished => false
    case ToReceiver =>
      && e.Deliver? && e.room >= |e.arrived.buffer|
      && (e.arrived == s.sender.xmodemStore ||
          (s.sender.xmodemStore.control == SOH && (e.arrived.control == SOH || e.arrived.control == STX)
           && !Accepts(s.receiver, e.arrived)))
    case ToSender => e.ReturnReply? || e.GarbleReply?
  }

  ghost function Step(s: System, e: Event): System {
    match e
    case Deliver(arrived, room) =>
      System(s.sender, Handle(s.receiver, arrived, Disk(true, room)),
             if s.sender.xmodemStore.control == SOH then ToSender else Finished)
    case ReturnReply => System(Handle(s.sender, s.receiver.xmodemStore, Disk(true, 0)), s.receiver, ToReceiver)
    case GarbleReply => System(Handle(s.sender, ControlPacket(NAK), Disk(true, 0)), s.receiver, ToReceiver)
  }

  ghost predicate LegalRun(s: System, events: seq<Event>)
    decreases |events|
  {
    events != [] ==> Legal(s, events[0]) && LegalRun(Step(s, events[0]), events[1..])
  }

  ghost function Run(s: System, events: seq<Event>): System
    decreases |events|
  {
    if events == [] then s else Run(Step(s, events[0]), events[1..])
  }

  /** What a completed transfer delivers: the file, or only its first chunk when the end flag was
      left over from an earlier transfer. */
  function Target(f: seq<byte>, stale: bool): seq<byte> {
    if stale then Prefix(f, 1) else f
  }

  /** The receiver is at the sender's chunk, or one past it when the ACK got lost. */
  ghost predicate InStep(s: System, name: Name, f: seq<byte>, stale: bool, k: nat, n: nat) {
    && Sending(s.sender, f, k, stale) && Receiving(s.receiver, name, f, n) && k <= n <= k + 1
    && (s.phase == ToSender ==>
          (s.receiver.xmodemStore == ControlPacket(ACK) && n == k + 1) || s.receiver.xmodemStore == ControlPacket(NAK))
  }

  ghost predicate Invariant(s: System, name: Name, f: seq<byte>, stale: bool) {
    match s.phase
    case ToSender => exists k, n :: InStep(s, name, f, stale, k, n)
    case ToReceiver =>
      || (exists k, n :: InStep(s, name, f, stale, k, n))
      || (!s.sender.isTransmitting && (
            || (s.sender.xmodemStore == ControlPacket(EOT) && Delivering(s.receiver, name, f, stale))
            || (s.sender.xmodemStore == ControlPacket(CAN) && exists n :: Receiving(s.receiver, name, f, n))))
    case Finished =>
      && !s.receiver.isReceiving && !s.sender.isTransmitting
      && if s.sender.xmodemStore == ControlPacket(EOT) then Delivered(s.receiver, name, f, stale)
         else s.sender.xmodemStore == ControlPacket(CAN) && name !in s.receiver.fs
  }

  ghost predicate Delivering(r: Adapter, name: Name, f: seq<byte>, stale: bool) {
    Delivered(r, name, f, stale) && exists n :: Receiving(r, name, f, n)
  }

  ghost predicate Delivered(r: Adapter, name: Name, f: seq<byte>, stale: bool) {
    name in r.fs && r.fs[name] == Target(f, stale)
  }

  lemma WholeFile(f: seq<byte>, k: nat)
    requires k >= Chunks(f)
    ensures Prefix(f, k) == f
  {
  }

  /** Delivery of a data packet, in either relative position of the two ends. */
  lemma DeliverKeepsInvariant(s: System, e: Event, name: Name, f: seq<byte>, stale: bool, k: nat, n: nat)
    requires s.phase == ToReceiver && InStep(s, name, f, stale, k, n) && Legal(s, e) && Chunks(f) < TWO_16
    ensures Invariant(Step(s, e), name, f, stale)
  {
    DataPacketHandled(s.receiver, name, f, n, e.arrived, Disk(true, e.room));
    var n' := if Accepts(s.receiver, e.arrived) then n + 1 else n;
    assert InStep(Step(s, e), name, f, stale, k, n');
  }

  lemma ReplyKeepsInvariant(s: System, e: Event, name: Name, f: seq<byte>, stale: bool, k: nat, n: nat)
    requires s.phase == ToSender && InStep(s, name, f, stale, k, n) && Legal(s, e) && Chunks(f) < TWO_16
    ensures Invariant(Step(s, e), name, f, stale)
  {
    var s' := Step(s, e);
    var reply := if e.ReturnReply? then s.receiver.xmodemStore else ControlPacket(NAK);
    assert Receiving(s'.receiver, name, f, n);
    if reply.control == ACK {
      AckAdvances(s.sender, f, k, stale, reply, Disk(true, 0));
      if s.sender.isEOT {
        if k == Chunks(f) { WholeFile(f, k); WholeFile(f, 1 + k); }
        assert Delivering(s'.receiver, name, f, stale);
      } else {
        assert InStep(s', name, f, stale, k + 1, n);
      }
    } else {
      NakRepeats(s.sender, f, k, stale, reply, Disk(true, 0));
      if s.sender.retrans > 1 {
        assert InStep(s', name, f, stale, k, n);
      }
    }
  }

  lemma StepKeepsInvariant(s: System, e: Event, name: Name, f: seq<byte>, stale: bool)
    requires Invariant(s, name, f, stale) && Legal(s, e) && Chunks(f) < TWO_16
    ensures Invariant(Step(s, e), name, f, stale)
  {
    if k, n :| InStep(s, name, f, stale, k, n) {
      if s.phase == ToReceiver {
        DeliverKeepsInvariant(s, e, name, f, stale, k, n);
      } else {
        ReplyKeepsInvariant(s, e, name, f, stale, k, n);
      }
    }
  }

  /** A transfer just started on both ends. */
  ghost predicate Started(s: System, name: Name, f: seq<byte>, stale: bool) {
    s.phase == ToReceiver && Sending(s.sender, f, 1, stale) && Receiving(s.receiver, name, f, 1)
  }

  lemma {:induction false} RunKeepsInvariant(s: System, events: seq<Event>, name: Name, f: seq<byte>, stale: bool)
    requires Invariant(s, name, f, stale) && LegalRun(s, events) && Chunks(f) < TWO_16
    ensures Invariant(Run(s, events), name, f, stale)
    decreases |events|
  {
    hide Invariant, Step, Legal;
    if events != [] {
      StepKeepsInvariant(s, events[0], name, f, stale);
      RunKeepsInvariant(Step(s, events[0]), events[1..], name, f, stale);
    }
  }

  /** Safety over every run of a file below 65535 chunks: the receiver's file is always a prefix of
      the sender's on a chunk boundary (or removed by a cancel); and when the receiver has handled
      the EOT it is the whole file - or its first chunk, if the end flag was stale at the start. */
  lemma FileDelivery(s: System, events: seq<Event>, name: Name, f: seq<byte>, stale: bool)
    requires Started(s, name, f, stale) && LegalRun(s, events) && Chunks(f) < TWO_16
    ensures var t := Run(s, events);
            && (name in t.receiver.fs ==> exists n: nat :: t.receiver.fs[name] == Prefix(f, n))
            && (t.phase == Finished ==>
                  if t.sender.xmodemStore == ControlPacket(EOT)
                  then name in t.receiver.fs && t.receiver.fs[name] == Target(f, stale)
                  else t.sender.xmodemStore == ControlPacket(CAN) && name !in t.receiver.fs)
  {
    hide Run, LegalRun;
    assert InStep(s, name, f, stale, 1, 1);
    RunKeepsInvariant(s, events, name, f, stale);
    WhatInvariantMeans(Run(s, events), name, f, stale);
  }

  lemma WhatInvariantMeans(t: System, name: Name, f: seq<byte>, stale: bool)
    requires Invariant(t, name, f, stale)
    ensures name in t.receiver.fs ==> exists n: nat :: t.receiver.fs[name] == Prefix(f, n)
    ensures t.phase == Finished ==>
              if t.sender.xmodemStore == ControlPacket(EOT)
              then name in t.receiver.fs && t.receiver.fs[name] == Target(f, stale)
              else t.sender.xmodemStore == ControlPacket(CAN) && name !in t.receiver.fs
  {
    if n: nat :| Receiving(t.receiver, name, f, n) {
      assert t.receiver.fs[name] == Prefix(f, n - 1);
    } else if name in t.receiver.fs {
      assert Delivered(t.receiver, name, f, stale);
      WholeFile(f, Chunks(f));
      assert t.receiver.fs[name] == Prefix(f, if stale then 1 else Chunks(f));
    }
  }

  /** A completed transfer is faithful exactly when the end flag was clear at the start or the file
      fits one chunk. */
  lemma FaithfulIff(s: System, events: seq<Event>, name: Name, f: seq<byte>, stale: bool)
    requires Started(s, name, f, stale) && LegalRun(s, events) && Chunks(f) < TWO_16
    requires Run(s, events).phase == Finished && Run(s, events).sender.xmodemStore == ControlPacket(EOT)
    ensures var fs := Run(s, events).receiver.fs;
            name in fs && (fs[name] == f <==> !stale || |f| <= BUFFER_SIZE)
  {
    hide Run, LegalRun, Started;
    FileDelivery(s, events, name, f, stale);
  }

  /** Where a stale flag comes from: a sender that gives up, or is sent a data packet, on its last
      chunk stops with the flag still set, and starting again does not clear it. */
  lemma CancelLeavesStaleFlag(a: Adapter, f: seq<byte>, k: nat, p: Packet, disk: Disk)
    requires Sending(a, f, k, false) && k == Chunks(f)
    requires (p.control == NAK && a.retrans <= 1) || p.control == SOH || p.control == STX
    ensures !Handle(a, p, disk).isTransmitting && Handle(a, p, disk).isEOT
  {
  }

  /** Starting does not renew the retry budget either: the first NAK of a transfer ends it exactly when
      the transfer before left at most one retry - as one that gave up always does. */
  lemma FirstNakEndsIff(a: Adapter, start: Packet, disk: Disk, nak: Packet, disk': Disk)
    requires !a.isReceiving && !a.isTransmitting && start.control == STX && start.seqno == 0 && disk.openOk
    requires var name := CString(start.buffer, BUFFER_SIZE - 1); ValidFilename(name) && name in a.fs
    requires nak.control == NAK
    ensures var b := Handle(Handle(a, start, disk), nak, disk');
            (b.xmodemStore == ControlPacket(CAN) && !b.isTransmitting) <==> a.retrans <= 1
  {
    var f := a.fs[CString(start.buffer, BUFFER_SIZE - 1)];
    StartSends(a, start, disk);
    NakRepeats(Handle(a, start, disk), f, 1, a.isEOT, nak, disk');
  }

  lemma GivingUpSpendsBudget(a: Adapter, f: seq<byte>, k: nat, stale: bool, nak: Packet, disk: Disk)
    requires Sending(a, f, k, stale) && nak.control == NAK && a.retrans <= 1
    ensures var b := Handle(a, nak, disk);
            b.xmodemStore == ControlPacket(CAN) && b.retrans <= 0 && !b.isTransmitting && !b.isReceiving && b.fs == a.fs
  {
  }

  /** So a transfer that gives up takes the next one down with it, at its first NAK. */
  lemma GivingUpEndsTheNext(a: Adapter, f: seq<byte>, k: nat, stale: bool, nak: Packet, start: Packet, disk: Disk)
    requires Sending(a, f, k, stale) && nak.control == NAK && a.retrans <= 1
    requires start.control == STX && start.seqno == 0 && disk.openOk
    requires var name := CString(start.buffer, BUFFER_SIZE - 1); ValidFilename(name) && name in a.fs
    ensures var b := Handle(Handle(a, nak, disk), start, disk);
            b.isTransmitting && Handle(b, nak, disk).xmodemStore == ControlPacket(CAN) && !Handle(b, nak, disk).isTransmitting
  {
    hide Handle;
    GivingUpSpendsBudget(a, f, k, stale, nak, disk);
    StartSends(Handle(a, nak, disk), start, disk);
    FirstNakEndsIff(Handle(a, nak, disk), start, disk, nak, disk);
  }

  // ---------------------------------------------------------------- every transfer ends

  ghost function Measure(s: System): nat {
    match s.phase
    case Finished => 0
    case ToReceiver => if s.sender.isTransmitting then 2 * Budget(s.sender) + 2 else 1
    case ToSender => 2 * Budget(s.sender) + 1
  }

  lemma StepDecreases(s: System, e: Event, name: Name, f: seq<byte>, stale: bool)
    requires Invariant(s, name, f, stale) && Legal(s, e) && Chunks(f) < TWO_16
    ensures Measure(Step(s, e)) < Measure(s)
  {
    if k, n :| InStep(s, name, f, stale, k, n) {
      if s.phase == ToSender {
        var reply := if e.ReturnReply? then s.receiver.xmodemStore else ControlPacket(NAK);
        ReplyUsesBudget(s.sender, f, k, stale, reply, Disk(true, 0));
      }
    }
  }

  /** No legal run is longer than the measure of its start: every transfer is over by then, delivered or
      cancelled. */
  lemma {:induction false} RunsAreBounded(s: System, events: seq<Event>, name: Name, f: seq<byte>, stale: bool)
    requires Invariant(s, name, f, stale) && LegalRun(s, events) && Chunks(f) < TWO_16
    ensures |events| + Measure(Run(s, events)) <= Measure(s)
    decreases |events|
  {
    hide Invariant, Step, Legal, Measure;
    if events != [] {
      StepKeepsInvariant(s, events[0], name, f, stale);
      StepDecreases(s, events[0], name, f, stale);
      RunsAreBounded(Step(s, events[0]), events[1..], name, f, stale);
    }
  }

  /** The event of a channel that damages nothing. */
  ghost function Clean(s: System): Event {
    if s.phase == ToReceiver then Deliver(s.sender.xmodemStore, BUFFER_SIZE) else ReturnReply
  }

  ghost function CleanRun(s: System, n: nat): System
    decreases n
  {
    if n == 0 || s.phase == Finished then s else CleanRun(Step(s, Clean(s)), n - 1)
  }

  /** A packet delivered and its reply returned: the next chunk is under way, or the EOT is. */
  lemma CleanRound(s: System, name: Name, f: seq<byte>, k: nat)
    requires s.phase == ToReceiver && InStep(s, name, f, false, k, k) && Chunks(f) < TWO_16
    ensures var s1 := Step(s, Clean(s));
            var s2 := Step(s1, Clean(s1));
            s1.phase == ToSender &&
            if k < Chunks(f) then s2.phase == ToReceiver && InStep(s2, name, f, false, k + 1, k + 1)
            else s2.phase == ToReceiver && s2.sender.xmodemStore == ControlPacket(EOT) && Receiving(s2.receiver, name, f, k + 1)
  {
    var s1 := Step(s, Clean(s));
    DataPacketHandled(s.receiver, name, f, k, s.sender.xmodemStore, Disk(true, BUFFER_SIZE));
    AckAdvances(s1.sender, f, k, false, s1.receiver.xmodemStore, Disk(true, 0));
  }

  lemma CleanEnd(s: System, name: Name, f: seq<byte>, n: nat)
    requires s.phase == ToReceiver && s.sender.xmodemStore == ControlPacket(EOT) && Receiving(s.receiver, name, f, n)
    ensures var t := Step(s, Clean(s));
            && t.phase == Finished && t.sender.xmodemStore == ControlPacket(EOT)
            && name in t.receiver.fs && t.receiver.fs[name] == Prefix(f, n - 1)
  {
  }

  lemma CleanRunUnfolds(s: System, n: nat)
    ensures s.phase != Finished ==> CleanRun(s, n + 1) == CleanRun(Step(s, Clean(s)), n)
    ensures CleanRun(s, 0) == s
  {
  }

  lemma InStepBound(s: System, name: Name, f: seq<byte>, k: nat)
    requires InStep(s, name, f, false, k, k)
    ensures k <= Chunks(f)
  {
  }

  /** Over a clean channel the whole file arrives, in two steps a chunk and one for the EOT. */
  lemma {:induction false} CleanDelivery(s: System, name: Name, f: seq<byte>, k: nat)
    requires s.phase == ToReceiver && InStep(s, name, f, false, k, k) && Chunks(f) < TWO_16
    ensures var t := CleanRun(s, 2 * (Chunks(f) - k) + 3);
            t.phase == Finished && t.sender.xmodemStore == ControlPacket(EOT) &&
            name in t.receiver.fs && t.receiver.fs[name] == f
    decreases Chunks(f) - k
  {
    hide *;
    InStepBound(s, name, f, k);
    CleanRound(s, name, f, k);
    var s1 := Step(s, Clean(s));
    var s2 := Step(s1, Clean(s1));
    var n := 2 * (Chunks(f) - k) + 1;
    CleanRunUnfolds(s, n + 1);
    CleanRunUnfolds(s1, n);
    if k == Chunks(f) {
      CleanEnd(s2, name, f, k + 1);
      WholeFile(f, k);
      CleanRunUnfolds(s2, 0);
      CleanRunUnfolds(Step(s2, Clean(s2)), 0);
    } else {
      CleanDelivery(s2, name, f, k + 1);
    }
  }

  /** With the end flag left over, a clean channel completes the transfer with the first chunk alone. */
  lemma StaleFlagTruncates(s: System, name: Name, f: seq<byte>)
    requires Started(s, name, f, true) && Chunks(f) < TWO_16
    ensures var t := CleanRun(s, 3);
            && t.phase == Finished && t.sender.xmodemStore == ControlPacket(EOT)
            && name in t.receiver.fs && t.receiver.fs[name] == Prefix(f, 1)
  {
    hide CleanRun, Handle, Accepts, Prefix;
    var s1 := Step(s, Clean(s));
    var s2 := Step(s1, Clean(s1));
    StaleRound(s, name, f);
    CleanEnd(s2, name, f, 2);
    hide *;
    CleanRunUnfolds(s, 2);
    CleanRunUnfolds(s1, 1);
    CleanRunUnfolds(s2, 0);
    CleanRunUnfolds(Step(s2, Clean(s2)), 0);
  }

  lemma StaleRound(s: System, name: Name, f: seq<byte>)
    requires Started(s, name, f, true) && Chunks(f) < TWO_16
    ensures var s1 := Step(s, Clean(s));
            var s2 := Step(s1, Clean(s1));
            && s1.phase == ToSender && s2.phase == ToReceiver
            && s2.sender.xmodemStore == ControlPacket(EOT) && Receiving(s2.receiver, name, f, 2)
  {
    var s1 := Step(s, Clean(s));
    DataPacketHandled(s.receiver, name, f, 1, s.sender.xmodemStore, Disk(true, BUFFER_SIZE));
    AckAdvances(s1.sender, f, 1, true, s1.receiver.xmodemStore, Disk(true, 0));
  }

  /** The events of a clean run, which are legal ones. */
  ghost function CleanEvents(s: System, n: nat): seq<Event>
    decreases n
  {
    if n == 0 || s.phase == Finished then [] else [Clean(s)] + CleanEvents(Step(s, Clean(s)), n - 1)
  }

  lemma {:induction false} CleanEventsAreLegal(s: System, n: nat)
    ensures LegalRun(s, CleanEvents(s, n))
    ensures Run(s, CleanEvents(s, n)) == CleanRun(s, n)
    decreases n
  {
    hide Step;
    if n > 0 && s.phase != Finished {
      CleanEventsAreLegal(Step(s, Clean(s)), n - 1);
      assert CleanEvents(s, n)[1..] == CleanEvents(Step(s, Clean(s)), n - 1);
    }
  }

  // ---------------------------------------------------------------- which runs deliver

  /** The receiver waits for the chunk after the sender's. */
  ghost predicate Ahead(s: System, name: Name, f: seq<byte>, stale: bool, k: nat) {
    InStep(s, name, f, stale, k, k + 1)
  }

  ghost predicate NakedInStep(s: System, name: Name, f: seq<byte>, stale: bool, k: nat, n: nat) {
    InStep(s, name, f, stale, k, n) && s.receiver.xmodemStore == ControlPacket(NAK)
  }

  /** No way back: the receiver has gone one chunk ahead and refuses every repeat, or the sender has had
      its last NAK. */
  ghost predicate Doomed(s: System, name: Name, f: seq<byte>, stale: bool) {
    match s.phase
    case ToReceiver =>
      || (exists k: nat :: Ahead(s, name, f, stale, k))
      || (!s.sender.isTransmitting && s.sender.xmodemStore == ControlPacket(CAN)
          && exists n: nat :: Receiving(s.receiver, name, f, n))
    case ToSender =>
      exists k: nat, n: nat :: NakedInStep(s, name, f, stale, k, n) && (n == k + 1 || s.sender.retrans <= 1)
    case Finished => s.sender.xmodemStore == ControlPacket(CAN) && name !in s.receiver.fs
  }

  lemma AheadRefuses(s: System, e: Event, name: Name, f: seq<byte>, stale: bool, k: nat)
    requires s.phase == ToReceiver && InStep(s, name, f, stale, k, k + 1) && Legal(s, e) && Chunks(f) < TWO_16
    ensures Step(s, e).phase == ToSender && NakedInStep(Step(s, e), name, f, stale, k, k + 1)
  {
    assert !Accepts(s.receiver, e.arrived);
    DataPacketHandled(s.receiver, name, f, k + 1, e.arrived, Disk(true, e.room));
  }

  /** A NAK, whether the receiver's own or made of an ACK. */
  lemma NakReturned(s: System, e: Event, name: Name, f: seq<byte>, stale: bool, k: nat, n: nat)
    requires s.phase == ToSender && InStep(s, name, f, stale, k, n) && Legal(s, e) && Chunks(f) < TWO_16
    requires e.GarbleReply? || s.receiver.xmodemStore == ControlPacket(NAK)
    ensures var s' := Step(s, e);
            && s'.phase == ToReceiver && s'.receiver == s.receiver
            && if s.sender.retrans <= 1 then !s'.sender.isTransmitting && s'.sender.xmodemStore == ControlPacket(CAN)
               else InStep(s', name, f, stale, k, n) && s'.sender.retrans == s.sender.retrans - 1
  {
    NakRepeats(s.sender, f, k, stale, ControlPacket(NAK), Disk(true, 0));
  }

  lemma CancelDelivered(s: System, e: Event, name: Name, f: seq<byte>, n: nat)
    requires s.phase == ToReceiver && s.sender.xmodemStore == ControlPacket(CAN) && Receiving(s.receiver, name, f, n)
    requires Legal(s, e)
    ensures var t := Step(s, e);
            t.phase == Finished && t.sender.xmodemStore == ControlPacket(CAN) && name !in t.receiver.fs
  {
  }

  lemma DoomedStays(s: System, e: Event, name: Name, f: seq<byte>, stale: bool)
    requires Doomed(s, name, f, stale) && Legal(s, e) && Chunks(f) < TWO_16
    ensures Doomed(Step(s, e), name, f, stale)
  {
    hide Step, Legal, InStep, Receiving;
    if s.phase == ToReceiver {
      if k: nat :| Ahead(s, name, f, stale, k) {
        AheadRefuses(s, e, name, f, stale, k);
      } else {
        var n: nat :| Receiving(s.receiver, name, f, n);
        CancelDelivered(s, e, name, f, n);
      }
    } else if s.phase == ToSender {
      var k: nat, n: nat :| NakedInStep(s, name, f, stale, k, n) && (n == k + 1 || s.sender.retrans <= 1);
      NakReturned(s, e, name, f, stale, k, n);
      InStepParts(s, name, f, stale, k, n);
      if s.sender.retrans > 1 { assert Ahead(Step(s, e), name, f, stale, k); }
    } else {
      FinishedIsOver(s, e);
    }
  }

  lemma InStepParts(s: System, name: Name, f: seq<byte>, stale: bool, k: nat, n: nat)
    requires InStep(s, name, f, stale, k, n)
    ensures Receiving(s.receiver, name, f, n)
  {
  }

  lemma FinishedIsOver(s: System, e: Event)
    requires Legal(s, e)
    ensures s.phase != Finished
  {
  }

  lemma {:induction false} DoomedIsCancelled(s: System, events: seq<Event>, name: Name, f: seq<byte>, stale: bool)
    requires Doomed(s, name, f, stale) && LegalRun(s, events) && Run(s, events).phase == Finished && Chunks(f) < TWO_16
    ensures var t := Run(s, events); t.sender.xmodemStore == ControlPacket(CAN) && name !in t.receiver.fs
    decreases |events|
  {
    hide Step, Legal, InStep, Receiving;
    if events != [] {
      DoomedStays(s, events[0], name, f, stale);
      DoomedIsCancelled(Step(s, events[0]), events[1..], name, f, stale);
    }
  }

  /** What the channel did to break a run: it damaged the ACK of a chunk, or a chunk arrived damaged as
      often as there were retries left for it - `left` of them for the chunk under way, 25 for each
      later one. */
  ghost predicate Broken(s: System, events: seq<Event>, left: int)
    decreases |events|
  {
    events != [] &&
    var e, after := events[0], Step(s, events[0]);
    match s.phase
    case Finished => false
    case ToReceiver =>
      if e.Deliver? && s.sender.xmodemStore.control == SOH && !Accepts(s.receiver, e.arrived)
      then left <= 1 || Broken(after, events[1..], left - 1)
      else Broken(after, events[1..], left)
    case ToSender =>
      if s.receiver.xmodemStore.control == ACK
      then e.GarbleReply? || Broken(after, events[1..], MAXRETRANS)
      else Broken(after, events[1..], left)
  }

  /** Both ends at the same chunk, with `left` retries for it. */
  ghost predicate InSync(s: System, name: Name, f: seq<byte>, stale: bool, k: nat, left: int) {
    match s.phase
    case ToReceiver => InStep(s, name, f, stale, k, k) && left == s.sender.retrans
    case ToSender =>
      || (InStep(s, name, f, stale, k, k + 1) && s.receiver.xmodemStore == ControlPacket(ACK) && left == s.sender.retrans)
      || (NakedInStep(s, name, f, stale, k, k) && left == s.sender.retrans - 1 && left >= 1)
    case Finished => false
  }

  /** The EOT is on its way, or has been handled. */
  ghost predicate Closing(s: System) {
    s.phase != ToSender && s.sender.xmodemStore == ControlPacket(EOT)
  }

  lemma {:induction false} ClosingEnds(s: System, events: seq<Event>, left: int)
    requires Closing(s) && LegalRun(s, events)
    ensures Run(s, events).sender.xmodemStore == ControlPacket(EOT) && !Broken(s, events, left)
    decreases |events|
  {
    if events != [] { ClosingEnds(Step(s, events[0]), events[1..], left); }
  }

  lemma SyncedDelivery(s: System, e: Event, name: Name, f: seq<byte>, stale: bool, k: nat, left: int)
    requires s.phase == ToReceiver && InSync(s, name, f, stale, k, left) && Legal(s, e) && Chunks(f) < TWO_16
    ensures e.Deliver? && s.sender.xmodemStore.control == SOH
    ensures var t := Step(s, e);
            if Accepts(s.receiver, e.arrived) then InSync(t, name, f, stale, k, left)
            else if left <= 1 then Doomed(t, name, f, stale)
            else InSync(t, name, f, stale, k, left - 1)
  {
    DataPacketHandled(s.receiver, name, f, k, e.arrived, Disk(true, e.room));
    if !Accepts(s.receiver, e.arrived) { assert NakedInStep(Step(s, e), name, f, stale, k, k); }
  }

  lemma SyncedReply(s: System, e: Event, name: Name, f: seq<byte>, stale: bool, k: nat, left: int)
    requires s.phase == ToSender && InSync(s, name, f, stale, k, left) && Legal(s, e) && Chunks(f) < TWO_16
    ensures var t := Step(s, e);
            if s.receiver.xmodemStore.control != ACK then InSync(t, name, f, stale, k, left)
            else if e.GarbleReply? then Doomed(t, name, f, stale)
            else Closing(t) || InSync(t, name, f, stale, k + 1, MAXRETRANS)
  {
    if s.receiver.xmodemStore.control != ACK {
      NakReturned(s, e, name, f, stale, k, k);
    } else if e.GarbleReply? {
      NakReturned(s, e, name, f, stale, k, k + 1);
      InStepParts(s, name, f, stale, k, k + 1);
      if s.sender.retrans > 1 { assert Ahead(Step(s, e), name, f, stale, k); }
    } else {
      AckAdvances(s.sender, f, k, stale, s.receiver.xmodemStore, Disk(true, 0));
    }
  }

  lemma {:induction false} SyncedEndsIff(s: System, events: seq<Event>, name: Name, f: seq<byte>, stale: bool, k: nat, left: int)
    requires InSync(s, name, f, stale, k, left) && LegalRun(s, events) && Run(s, events).phase == Finished
    requires Chunks(f) < TWO_16
    ensures Run(s, events).sender.xmodemStore == ControlPacket(EOT) <==> !Broken(s, events, left)
    ensures Broken(s, events, left) ==> name !in Run(s, events).receiver.fs
    decreases |events|
  {
    hide Step, Legal, InStep, Receiving, Doomed, Closing, Accepts, InSync;
    SyncedIsNotFinished(s, name, f, stale, k, left);
    assert events != [];
    var e, rest := events[0], events[1..];
    var t := Step(s, e);
    if s.phase == ToReceiver {
      SyncedDelivery(s, e, name, f, stale, k, left);
      if Accepts(s.receiver, e.arrived) {
        SyncedEndsIff(t, rest, name, f, stale, k, left);
      } else if left <= 1 {
        DoomedIsCancelled(t, rest, name, f, stale);
      } else {
        SyncedEndsIff(t, rest, name, f, stale, k, left - 1);
      }
    } else {
      SyncedReply(s, e, name, f, stale, k, left);
      if s.receiver.xmodemStore.control != ACK {
        SyncedEndsIff(t, rest, name, f, stale, k, left);
      } else if e.GarbleReply? {
        DoomedIsCancelled(t, rest, name, f, stale);
      } else if Closing(t) {
        ClosingEnds(t, rest, MAXRETRANS);
      } else {
        SyncedEndsIff(t, rest, name, f, stale, k + 1, MAXRETRANS);
      }
    }
  }

  lemma SyncedIsNotFinished(s: System, name: Name, f: seq<byte>, stale: bool, k: nat, left: int)
    requires InSync(s, name, f, stale, k, left)
    ensures s.phase != Finished
  {
  }

  /** Exactly which runs deliver: a finished run ends in EOT, with the file (its first chunk, if the end
      flag was stale) in place, if and only if the channel damaged no ACK and no chunk as often as it had
      retries; otherwise it ends in CAN and the file is removed. */
  lemma DeliveredIff(s: System, events: seq<Event>, name: Name, f: seq<byte>, stale: bool)
    requires Started(s, name, f, stale) && LegalRun(s, events) && Run(s, events).phase == Finished
    requires Chunks(f) < TWO_16
    ensures var t := Run(s, events);
            if Broken(s, events, s.sender.retrans)
            then t.sender.xmodemStore == ControlPacket(CAN) && name !in t.receiver.fs
            else t.sender.xmodemStore == ControlPacket(EOT) && name in t.receiver.fs && t.receiver.fs[name] == Target(f, stale)
  {
    assert InSync(s, name, f, stale, 1, s.sender.retrans);
    hide *;
    SyncedEndsIff(s, events, name, f, stale, 1, s.sender.retrans);
    FileDelivery(s, events, name, f, stale);
  }
}
