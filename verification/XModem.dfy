/**
  The file-transfer adapter of src/xmodem.cpp: one state machine that receives files packet by
  packet, or sends them stop-and-wait with retransmission by seeking.
*/
module XModem {
  import opened Words
  import opened Crc16

  const BUFFER_SIZE := 128
  const MAXRETRANS := 25

  type Bytes = s: seq<byte> | |s| <= BUFFER_SIZE
  type Name = seq<byte>

  datatype Control = NUL | SOH | STX | EOT | ACK | NAK | CAN | CTRLZ

  datatype Packet = Packet(control: Control, seqno: u16, crc16: bv16, buffer: Bytes)

  /** The open file handle: appending to a named file, or at a position of one being read. */
  datatype File = Closed | Writing(name: Name) | Reading(content: seq<byte>, pos: nat)

  /** What the file system does for the packet at hand: whether an open succeeds, and how many bytes
      a write can still store. */
  datatype Disk = Disk(openOk: bool, room: nat)

  datatype Adapter = Adapter(
    isReceiving: bool, isTransmitting: bool, isEOT: bool,
    retrans: int, packetno: u16,
    file: File, filename: Name,
    xmodemStore: Packet, notified: nat,
    fs: map<Name, seq<byte>>)

  function ControlPacket(c: Control): Packet { Packet(c, 0, 0, []) }

  function DataPacket(seqno: u16, bytes: Bytes): Packet { Packet(SOH, seqno, Crc(bytes), bytes) }

  // ---------------------------------------------------------------- file names

  const NUL_BYTE: byte := 0
  const DOT: byte := 46
  const COLON: byte := 58

  predicate IsSeparator(b: byte) { b == 47 || b == 92 }

  predicate IsLetter(b: byte) { 65 <= b <= 90 || 97 <= b <= 122 }

  /** The C string at the front of a buffer of at most `n` bytes. */
  function CString(bytes: seq<byte>, n: nat): Name {
    if bytes == [] || n == 0 || bytes[0] == NUL_BYTE then [] else [bytes[0]] + CString(bytes[1..], n - 1)
  }

  lemma CStringAt(bytes: seq<byte>, i: nat, n: nat)
    requires i <= |bytes| && i <= n
    ensures CString(bytes[i..], n - i) ==
            if i == |bytes| || i == n || bytes[i] == NUL_BYTE then [] else [bytes[i]] + CString(bytes[i + 1..], n - i - 1)
  {
    if i < |bytes| { assert bytes[i..][1..] == bytes[i + 1..]; }
  }

  /** A ".." component spans i and i + 1. */
  ghost predicate DotDotAt(name: Name, i: nat) {
    && i + 2 <= |name| && name[i] == DOT && name[i + 1] == DOT
    && (i == 0 || IsSeparator(name[i - 1]))
    && (i + 2 == |name| || IsSeparator(name[i + 2]))
  }

  /** Not empty, no drive letter, no ".." component. */
  ghost predicate ValidFilename(name: Name) {
    && name != []
    && !(|name| > 1 && IsLetter(name[0]) && name[1] == COLON)
    && forall i :: 0 <= i < |name| ==> !DotDotAt(name, i)
  }

  method IsValidFilename(name: Name) returns (valid: bool)
    ensures valid <==> ValidFilename(name)
  {
    if name == [] {
      return false;
    }
    if IsLetter(name[0]) && |name| > 1 && name[1] == COLON {
      return false;
    }
    var start := 0;
    while start < |name|
      invariant 0 <= start <= |name|
      invariant start == 0 || IsSeparator(name[start - 1])
      invariant forall i :: 0 <= i < start ==> !DotDotAt(name, i)
    {
      var slash := start;
      while slash < |name| && !IsSeparator(name[slash])
        invariant start <= slash <= |name|
        invariant forall j :: start <= j < slash ==> !IsSeparator(name[j])
      {
        slash := slash + 1;
      }
      if slash - start == 2 && name[start] == DOT && name[start + 1] == DOT {
        assert DotDotAt(name, start);
        return false;
      }
      if slash == |name| {
        break;
      }
      start := slash + 1;
    }
    return true;
  }

  // ---------------------------------------------------------------- the state machine

  function Min(a: int, b: int): int { if a <= b then a else b }

  /** The bytes the next read of up to one buffer returns. */
  function NextBytes(f: File): Bytes {
    if f.Reading? && f.pos < |f.content| then f.content[f.pos..Min(f.pos + BUFFER_SIZE, |f.content|)] else []
  }

  function Advance(f: File): File {
    if f.Reading? then f.(pos := f.pos + |NextBytes(f)|) else f
  }

  /** Seek to the start of packet `packetno`; with packet 0 the offset is negative and the seek fails. */
  function SeekTo(f: File, packetno: u16): File {
    if f.Reading? && packetno > 0 then f.(pos := (packetno - 1) * BUFFER_SIZE) else f
  }

  function SendControl(a: Adapter, c: Control): Adapter {
    a.(xmodemStore := ControlPacket(c), notified := a.notified + 1)
  }

  /** Read the next chunk and offer it as packet `packetno`; a short one is the last. */
  function SendChunk(a: Adapter): Adapter {
    var bytes := NextBytes(a.file);
    a.(xmodemStore := DataPacket(a.packetno, bytes), file := Advance(a.file),
       isEOT := a.isEOT || |bytes| < BUFFER_SIZE, notified := a.notified + 1)
  }

  /** Receive into a fresh file of that name: an old one is removed even when the open fails. */
  function StartReceiving(a: Adapter, disk: Disk): Adapter {
    var removed := a.(fs := a.fs - {a.filename}, file := Closed);
    if disk.openOk then
      SendControl(removed, ACK).(fs := removed.fs[a.filename := []], file := Writing(a.filename),
                                 isReceiving := true, packetno := 1)
    else SendControl(removed, NAK).(isReceiving := false)
  }

  function StartSending(a: Adapter, disk: Disk): Adapter {
    if disk.openOk && a.filename in a.fs then
      SendChunk(a.(file := Reading(a.fs[a.filename], 0), packetno := 1, isTransmitting := true))
    else SendControl(a, NAK).(file := Closed, isTransmitting := false)
  }

  ghost function Start(a0: Adapter, p: Packet, disk: Disk): Adapter {
    var a := a0.(filename := CString(p.buffer, BUFFER_SIZE - 1));
    if !ValidFilename(a.filename) then SendControl(a, NAK)
    else if p.control == SOH then StartReceiving(a, disk)
    else StartSending(a, disk)
  }

  function Append(a: Adapter, bytes: seq<byte>, room: nat): Adapter {
    if a.file.Writing? && a.file.name in a.fs
    then a.(fs := a.fs[a.file.name := a.fs[a.file.name] + bytes[..Min(|bytes|, room)]])
    else a
  }

  function Receive(a: Adapter, p: Packet, disk: Disk): Adapter {
    if p.seqno == a.packetno && Check(p.buffer, p.crc16)
    then SendControl(Append(a, p.buffer, disk.room), ACK).(packetno := (a.packetno + 1) % TWO_16)
    else SendControl(a, NAK)
  }

  function Acknowledged(a: Adapter): Adapter {
    if !a.isTransmitting then SendControl(a, CAN)
    else if a.isEOT then SendControl(a, EOT).(file := Closed, isTransmitting := false, isEOT := false)
    else SendChunk(a.(retrans := MAXRETRANS, packetno := (a.packetno + 1) % TWO_16))
  }

  function NotAcknowledged(a0: Adapter): Adapter {
    if !a0.isTransmitting then SendControl(a0, CAN)
    else
      var a := a0.(retrans := a0.retrans - 1);
      if a.retrans <= 0 then SendControl(a, CAN).(file := Closed, isTransmitting := false)
      else SendChunk(a.(file := SeekTo(a.file, a.packetno)))
  }

  ghost function Handle(a: Adapter, p: Packet, disk: Disk): Adapter {
    match p.control
    case SOH | STX =>
      if p.seqno == 0 && !a.isReceiving && !a.isTransmitting then Start(a, p, disk)
      else if a.isReceiving then Receive(a, p, disk)
      else if a.isTransmitting then SendControl(a, CAN).(isTransmitting := false)
      else a
    case EOT => SendControl(a, ACK).(file := Closed, isReceiving := false)
    case CAN => SendControl(a, ACK).(file := Closed, fs := a.fs - {a.filename}, isReceiving := false)
    case ACK => Acknowledged(a)
    case NAK => NotAcknowledged(a)
    case _ => a
  }

  const BOOT :=
    Adapter(false, false, false, MAXRETRANS, 0, Closed, [], ControlPacket(NUL), 0, map[])

  // ---------------------------------------------------------------- the code

  class XModemAdapter {
    var isReceiving: bool
    var isTransmitting: bool
    var isEOT: bool
    var retrans: int
    var packetno: u16
    var file: File
    var filename: Name
    var xmodemStore: Packet
    var notified: nat
    var fs: map<Name, seq<byte>>

    function State(): Adapter
      reads this
    {
      Adapter(isReceiving, isTransmitting, isEOT, retrans, packetno, file, filename, xmodemStore, notified, fs)
    }

    constructor (files: map<Name, seq<byte>>)
      ensures State() == BOOT.(fs := files)
    {
      isReceiving, isTransmitting, isEOT := false, false, false;
      retrans, packetno := MAXRETRANS, 0;
      file, filename := Closed, [];
      xmodemStore, notified := ControlPacket(NUL), 0;
      fs := files;
    }

    method SendControlPacket(c: Control)
      modifies this
      ensures State() == SendControl(old(State()), c)
    {
      xmodemStore := ControlPacket(c);
      notified := notified + 1;
    }

    method SendNextChunk()
      modifies this
      ensures State() == SendChunk(old(State()))
    {
      var bytes := NextBytes(file);
      file := Advance(file);
      var crc := Crc16Ccitt(bytes);
      xmodemStore := Packet(SOH, packetno, crc, bytes);
      if |bytes| < BUFFER_SIZE {
        isEOT := true;
      }
      notified := notified + 1;
    }

    method CopyName(bytes: Bytes)
      modifies this`filename
      ensures filename == CString(bytes, BUFFER_SIZE - 1)
    {
      hide CString;
      filename := [];
      var i := 0;
      assert bytes[0..] == bytes;
      while i < |bytes| && i < BUFFER_SIZE - 1 && bytes[i] != NUL_BYTE
        invariant 0 <= i <= |bytes| && i <= BUFFER_SIZE - 1
        invariant filename + CString(bytes[i..], BUFFER_SIZE - 1 - i) == CString(bytes, BUFFER_SIZE - 1)
      {
        CStringAt(bytes, i, BUFFER_SIZE - 1);
        filename := filename + [bytes[i]];
        i := i + 1;
      }
      CStringAt(bytes, i, BUFFER_SIZE - 1);
    }

    /** The NULL packet: seq 0 names the file and picks the direction. */
    method StartTransfer(p: Packet, disk: Disk)
      requires p.control == SOH || p.control == STX
      modifies this
      ensures State() == Start(old(State()), p, disk)
    {
      CopyName(p.buffer);
      var valid := IsValidFilename(filename);
      if !valid {
        SendControlPacket(NAK);
        return;
      }
      if p.control == SOH {
        OpenToReceive(disk);
      } else {
        OpenToSend(disk);
      }
    }

    method OpenToReceive(disk: Disk)
      modifies this
      ensures State() == StartReceiving(old(State()), disk)
    {
      fs := fs - {filename};
      file := Closed;
      if disk.openOk {
        fs := fs[filename := []];
        file := Writing(filename);
        SendControlPacket(ACK);
        isReceiving := true;
        packetno := 1;
        return;
      }
      SendControlPacket(NAK);
      isReceiving := false;
    }

    method OpenToSend(disk: Disk)
      modifies this
      ensures State() == StartSending(old(State()), disk)
    {
      file := if disk.openOk && filename in fs then Reading(fs[filename], 0) else Closed;
      if file.Reading? {
        packetno := 1;
        isTransmitting := true;
        SendNextChunk();
        return;
      }
      SendControlPacket(NAK);
      isTransmitting := false;
    }

    /** A data packet of the file being received. */
    method ReceiveData(p: Packet, disk: Disk)
      modifies this
      ensures State() == Receive(old(State()), p, disk)
    {
      var crc := Crc16Ccitt(p.buffer);
      if p.seqno == packetno && crc == p.crc16 {
        if file.Writing? && file.name in fs {
          fs := fs[file.name := fs[file.name] + p.buffer[..Min(|p.buffer|, disk.room)]];
        }
        SendControlPacket(ACK);
        packetno := (packetno + 1) % TWO_16;
        return;
      }
      SendControlPacket(NAK);
    }

    /** ACK: finish after the last chunk, else send the next one. */
    method OnAck()
      modifies this
      ensures State() == Acknowledged(old(State()))
    {
      if isTransmitting {
        if isEOT {
          SendControlPacket(EOT);
          file := Closed;
          isTransmitting := false;
          isEOT := false;
          return;
        }
        retrans := MAXRETRANS;
        packetno := (packetno + 1) % TWO_16;
        SendNextChunk();
      } else {
        SendControlPacket(CAN);
      }
    }

    /** NAK: seek back and send the same chunk, or give up. */
    method OnNak()
      modifies this
      ensures State() == NotAcknowledged(old(State()))
    {
      if isTransmitting {
        retrans := retrans - 1;
        if retrans <= 0 {
          SendControlPacket(CAN);
          file := Closed;
          isTransmitting := false;
          return;
        }
        file := SeekTo(file, packetno);
        SendNextChunk();
      } else {
        SendControlPacket(CAN);
      }
    }

    method HandlePacket(p: Packet, disk: Disk)
      modifies this
      ensures State() == Handle(old(State()), p, disk)
    {
      match p.control
      case SOH | STX =>
        if p.seqno == 0 && !isReceiving && !isTransmitting {
          StartTransfer(p, disk);
        } else if isReceiving {
          ReceiveData(p, disk);
        } else if isTransmitting {
          SendControlPacket(CAN);
          isTransmitting := false;
        }
      case EOT =>
        SendControlPacket(ACK);
        file := Closed;
        isReceiving := false;
      case CAN =>
        SendControlPacket(ACK);
        file := Closed;
        fs := fs - {filename};
        isReceiving := false;
      case ACK =>
        OnAck();
      case NAK =>
        OnNak();
      case _ =>
    }
  }
}
