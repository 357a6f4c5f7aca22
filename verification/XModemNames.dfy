/**
  What the adapter of src/xmodem.cpp answers off the path of a transfer, and which files it can touch:
  unsafe names are refused, over every sequence of packets.
*/
module XModemNames {
  import opened Crc16
  import opened XModem

  // ---------------------------------------------------------------- names

  /** The name in a packet: its bytes up to the first NUL, but no more than 127. */
  lemma {:induction false} NameMeaning(bytes: seq<byte>, n: nat)
    ensures var name := CString(bytes, n);
            && |name| <= n && name <= bytes && 0 !in name
            && (|name| < n && |name| < |bytes| ==> bytes[|name|] == 0)
    decreases n
  {
    if bytes != [] && n > 0 && bytes[0] != 0 {
      var rest := CString(bytes[1..], n - 1);
      assert CString(bytes, n) == [bytes[0]] + rest;
      hide CString;
      NameMeaning(bytes[1..], n - 1);
      assert bytes[..1 + |rest|] == [bytes[0]] + bytes[1..][..|rest|];
    }
  }

  /** A slash (47) or a backslash (92), or the end of the name. */
  predicate EndsOrSeparates(name: Name, i: int) {
    i < 0 || i >= |name| || name[i] == 47 || name[i] == 92
  }

  /** Exactly the unsafe names: the empty one, those that start with a letter and a colon, and those with
      two dots between separators or the ends of the name. */
  lemma UnsafeIff(name: Name)
    ensures !ValidFilename(name) <==>
              || name == []
              || (|name| >= 2 && (65 <= name[0] <= 90 || 97 <= name[0] <= 122) && name[1] == 58)
              || exists i :: 0 <= i < |name| - 1 && TwoDots(name, i)
  {
    if i :| 0 <= i < |name| && DotDotAt(name, i) { assert TwoDots(name, i); }
    if i :| 0 <= i < |name| - 1 && TwoDots(name, i) { assert DotDotAt(name, i); }
  }

  predicate TwoDots(name: Name, i: int) {
    0 <= i < |name| - 1 && name[i] == 46 && name[i + 1] == 46 && EndsOrSeparates(name, i - 1) && EndsOrSeparates(name, i + 2)
  }

  // ---------------------------------------------------------------- single answers

  /** The packet that would start a transfer. */
  predicate Names(a: Adapter, p: Packet) {
    (p.control == SOH || p.control == STX) && p.seqno == 0 && !a.isReceiving && !a.isTransmitting
  }

  function NameIn(p: Packet): Name { CString(p.buffer, BUFFER_SIZE - 1) }

  /** An unsafe name is refused: NAK, no transfer, no file opened, removed or changed. It is remembered. */
  lemma UnsafeNameRefused(a: Adapter, p: Packet, disk: Disk)
    requires Names(a, p) && !ValidFilename(NameIn(p))
    ensures var b := Handle(a, p, disk);
            && b.xmodemStore == Packet(NAK, 0, 0, []) && !b.isReceiving && !b.isTransmitting
            && b.fs == a.fs && b.file == a.file && b.filename == NameIn(p)
  {
  }

  /** A file that cannot be opened: NAK, no transfer. One to be received is gone then, whatever it held. */
  lemma OpenFailureRefused(a: Adapter, p: Packet, disk: Disk)
    requires Names(a, p) && ValidFilename(NameIn(p)) && (!disk.openOk || (p.control == STX && NameIn(p) !in a.fs))
    ensures var b := Handle(a, p, disk);
            && b.xmodemStore.control == NAK && !b.isReceiving && !b.isTransmitting && b.file == Closed
            && b.fs == if p.control == SOH then a.fs - {NameIn(p)} else a.fs
  {
  }

  /** A safe name that opens: a new, empty file and an ACK, or the first chunk; and the transfer is on. */
  lemma SafeNameStarts(a: Adapter, p: Packet, disk: Disk)
    requires Names(a, p) && ValidFilename(NameIn(p)) && disk.openOk && (p.control == STX ==> NameIn(p) in a.fs)
    ensures var b := Handle(a, p, disk);
            && b.filename == NameIn(p) && b.packetno == 1
            && b.isReceiving == (p.control == SOH) && b.isTransmitting == (p.control == STX)
            && (p.control == SOH ==>
                  b.xmodemStore.control == ACK && b.fs == a.fs[NameIn(p) := []] && b.file == Writing(NameIn(p)))
            && (p.control == STX ==>
                  var content := a.fs[NameIn(p)];
                  && b.fs == a.fs && b.xmodemStore.control == SOH && b.xmodemStore.seqno == 1
                  && b.xmodemStore.buffer == content[..Min(128, |content|)])
  {
  }

  /** EOT and CAN are acknowledged in any state, close the file and end receiving; CAN removes the file
      named last. Neither ends sending. */
  lemma ClosingPackets(a: Adapter, p: Packet, disk: Disk)
    requires p.control == EOT || p.control == CAN
    ensures var b := Handle(a, p, disk);
            && b.xmodemStore.control == ACK && b.file == Closed && !b.isReceiving
            && b.isTransmitting == a.isTransmitting && b.filename == a.filename
            && b.fs == if p.control == CAN then a.fs - {a.filename} else a.fs
  {
  }

  /** What makes no sense in the present state: a reply while not sending and a data packet while sending
      are answered CAN, which ends sending; data for no transfer and other controls are ignored. */
  lemma UnexpectedPackets(a: Adapter, p: Packet, disk: Disk)
    ensures (p.control == ACK || p.control == NAK) && !a.isTransmitting ==>
              var b := Handle(a, p, disk);
              b.xmodemStore.control == CAN && b == a.(xmodemStore := b.xmodemStore, notified := a.notified + 1)
    ensures (p.control == SOH || p.control == STX) && a.isTransmitting && !a.isReceiving ==>
              var b := Handle(a, p, disk);
              && b.xmodemStore.control == CAN && !b.isTransmitting && b.isEOT == a.isEOT && b.file == a.file && b.fs == a.fs
    ensures (p.control == SOH || p.control == STX) && !a.isTransmitting && !a.isReceiving && p.seqno != 0 ==>
              Handle(a, p, disk) == a
    ensures (p.control == NUL || p.control == CTRLZ) ==> Handle(a, p, disk) == a
  {
  }

  // ---------------------------------------------------------------- runs

  /** A packet, and what the file system does for it. */
  datatype Input = Input(packet: Packet, disk: Disk)

  ghost function Run(a: Adapter, inputs: seq<Input>): Adapter {
    if inputs == [] then a
    else Handle(Run(a, inputs[..|inputs| - 1]), inputs[|inputs| - 1].packet, inputs[|inputs| - 1].disk)
  }

  ghost function FromBoot(files: map<Name, seq<byte>>, inputs: seq<Input>): Adapter {
    Run(BOOT.(fs := files), inputs)
  }

  /** A transfer that is on has a safe name, and so has a file open for writing. */
  ghost predicate SafeNames(a: Adapter) {
    && (a.isReceiving || a.isTransmitting ==> ValidFilename(a.filename))
    && (a.file.Writing? ==> ValidFilename(a.file.name))
  }

  lemma HandleKeepsSafe(a: Adapter, p: Packet, disk: Disk)
    requires SafeNames(a)
    ensures SafeNames(Handle(a, p, disk))
  {
    hide ValidFilename;
  }

  /** One packet creates, changes or removes no file of an unsafe name - but for a CAN while that name is
      the one named last. */
  lemma HandleLeavesUnsafe(a: Adapter, p: Packet, disk: Disk, x: Name)
    requires SafeNames(a) && !ValidFilename(x)
    ensures var b := Handle(a, p, disk);
            && (x in b.fs <==> x in a.fs && !(p.control == CAN && a.filename == x))
            && (x in b.fs ==> b.fs[x] == a.fs[x])
  {
    hide ValidFilename;
  }

  /** A cancel arrives while the name named last is x. */
  ghost predicate CancelledAs(files: map<Name, seq<byte>>, inputs: seq<Input>, x: Name) {
    exists k :: 0 <= k < |inputs| && inputs[k].packet.control == CAN && FromBoot(files, inputs[..k]).filename == x
  }

  lemma CancelledSnoc(files: map<Name, seq<byte>>, inputs: seq<Input>, i: Input, x: Name)
    ensures CancelledAs(files, inputs + [i], x)
            <==> CancelledAs(files, inputs, x) || (i.packet.control == CAN && FromBoot(files, inputs).filename == x)
  {
    hide FromBoot;
    var longer := inputs + [i];
    assert longer[..|inputs|] == inputs && longer[|inputs|] == i;
    if k :| 0 <= k < |inputs| && inputs[k].packet.control == CAN && FromBoot(files, inputs[..k]).filename == x {
      assert longer[..k] == inputs[..k] && longer[k] == inputs[k];
    }
    if k :| 0 <= k < |longer| && longer[k].packet.control == CAN && FromBoot(files, longer[..k]).filename == x {
      if k < |inputs| { assert longer[..k] == inputs[..k] && longer[k] == inputs[k]; }
    }
  }

  /** Over every sequence of packets: no transfer is ever on, and no file open for writing, under an unsafe
      name; no such file is created or changed; and one that was there is removed if and only if a CAN
      arrives while its name is the one named last. The refusal remembers the name it refuses, so that
      can happen. */
  lemma {:induction false} UnsafeFilesOverRuns(files: map<Name, seq<byte>>, inputs: seq<Input>, x: Name)
    requires !ValidFilename(x)
    ensures var t := FromBoot(files, inputs);
            && SafeNames(t)
            && (x in t.fs <==> x in files && !CancelledAs(files, inputs, x))
            && (x in t.fs ==> t.fs[x] == files[x])
    decreases |inputs|
  {
    hide Handle, SafeNames, CancelledAs, ValidFilename;
    if inputs == [] {
      NothingYet(files, x);
    } else {
      var before, i := inputs[..|inputs| - 1], inputs[|inputs| - 1];
      assert before + [i] == inputs;
      UnsafeFilesOverRuns(files, before, x);
      HandleKeepsSafe(FromBoot(files, before), i.packet, i.disk);
      HandleLeavesUnsafe(FromBoot(files, before), i.packet, i.disk, x);
      CancelledSnoc(files, before, i, x);
    }
  }

  lemma NothingYet(files: map<Name, seq<byte>>, x: Name)
    ensures SafeNames(FromBoot(files, [])) && FromBoot(files, []).fs == files && !CancelledAs(files, [], x)
  {
  }

  /** So every file that was not there at the start has a safe name. */
  lemma NewFilesAreSafe(files: map<Name, seq<byte>>, inputs: seq<Input>, x: Name)
    requires x in FromBoot(files, inputs).fs && x !in files
    ensures ValidFilename(x)
  {
    if !ValidFilename(x) { UnsafeFilesOverRuns(files, inputs, x); }
  }

  /** The remembered name at work: refused, then removed by the CAN that follows. */
  lemma RefusedNameRemovedByCancel(files: map<Name, seq<byte>>, p: Packet, disk: Disk, can: Packet)
    requires Names(BOOT, p) && !ValidFilename(NameIn(p)) && NameIn(p) in files && can.control == CAN
    ensures var one, two := [Input(p, disk)], [Input(p, disk), Input(can, disk)];
            && FromBoot(files, one).xmodemStore.control == NAK && NameIn(p) in FromBoot(files, one).fs
            && NameIn(p) !in FromBoot(files, two).fs
  {
    var start := BOOT.(fs := files);
    var one, two := [Input(p, disk)], [Input(p, disk), Input(can, disk)];
    assert one[..0] == [] && two[..1] == one;
    assert Run(start, []) == start && Run(start, one) == Handle(start, p, disk);
    UnsafeNameRefused(start, p, disk);
    ClosingPackets(Handle(start, p, disk), can, disk);
    assert Run(start, two) == Handle(Run(start, one), can, disk);
  }
}
