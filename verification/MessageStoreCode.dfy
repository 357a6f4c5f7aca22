/** The message store as the firmware runs it: the pool written in place, the queue pushed, popped
    and erased in place. Each method is tied to the store's specification. */
module MessageStoreCode {
  import opened Words
  import opened MessagePool
  import Spec = MessageStore
  import File = MessageFile

  type StoredMessage = Spec.StoredMessage

  class MessageStore {
    const maxMessages: nat
    var messagePool: array?<byte>
    var poolWritePos: nat
    var liveMessages: seq<StoredMessage>

    ghost predicate Valid()
      reads this
    {
      maxMessages >= 1 && (messagePool != null ==> messagePool.Length == PoolSize(maxMessages) && poolWritePos <= messagePool.Length)
    }

    ghost function PoolState(): (p: Pool)
      requires Valid()
      reads this, messagePool
      ensures PoolOk(p)
    {
      if messagePool == null then Pool([], poolWritePos) else Pool(messagePool[..], poolWritePos)
    }

    ghost function State(): Spec.Store
      requires Valid()
      reads this, messagePool
    {
      Spec.Store(PoolState(), liveMessages)
    }

    /** On boot; `mallocOk` says whether the pool could be allocated. */
    constructor (n: nat, mallocOk: bool)
      requires n >= 1
      ensures Valid() && maxMessages == n && (messagePool != null ==> fresh(messagePool))
      ensures State() == Spec.Store(if mallocOk then Fresh(n) else Pool([], 0), [])
    {
      maxMessages := n;
      messagePool := null;
      poolWritePos := 0;
      liveMessages := [];
      new;
      ResetMessagePool(mallocOk);
    }

    /** Allocates the pool the first time, and clears it every time. */
    method ResetMessagePool(canAllocate: bool)
      requires Valid()
      modifies this`messagePool, this`poolWritePos, messagePool
      ensures Valid() && if old(messagePool) == null && canAllocate then fresh(messagePool) else messagePool == old(messagePool)
      ensures old(messagePool) == null && !canAllocate ==> PoolState() == old(PoolState())
      ensures old(messagePool) != null || canAllocate ==> PoolState() == Fresh(maxMessages)
      ensures old(messagePool) != null || canAllocate ==>
                messagePool != null && messagePool.Length == maxMessages * 220 && poolWritePos == 0
                && forall i :: 0 <= i < messagePool.Length ==> messagePool[i] == 0
    {
      if messagePool == null {
        if !canAllocate {
          return;
        }
        messagePool := new byte[PoolSize(maxMessages)](_ => 0);
      }
      poolWritePos := 0;
      forall i | 0 <= i < messagePool.Length { messagePool[i] := 0; }
    }

    method StoreTextInPool(src: seq<byte>) returns (offset: u16)
      requires Valid()
      modifies this`poolWritePos, messagePool
      ensures Valid() && messagePool == old(messagePool)
      ensures PoolState() == Stored(old(PoolState()), src)
      ensures offset == StoredAt(old(PoolState()), src) && (messagePool == null ==> offset == 0)
    {
      if messagePool == null {
        return 0;
      }
      var len := |src|;
      if len >= MAX_MESSAGE_SIZE {
        len := MAX_MESSAGE_SIZE - 1;
      }
      assert src[..len] == Capped(src);
      if poolWritePos + len + 1 >= messagePool.Length {
        poolWritePos := 0;
      }
      offset := poolWritePos % TWO_16;
      CopyText(poolWritePos, src[..len]);
      poolWritePos := poolWritePos + len + 1;
    }

    /** `memcpy` and the terminator. */
    method CopyText(at: nat, text: seq<byte>)
      requires messagePool != null && at + |text| + 1 <= messagePool.Length
      modifies messagePool
      ensures messagePool[..] == Write(old(messagePool[..]), at, text)
    {
      forall i | 0 <= i < |text| { messagePool[at + i] := text[i]; }
      messagePool[at + |text|] := 0;
    }

    method GetText(m: StoredMessage) returns (text: seq<byte>)
      requires Valid()
      ensures text == TextAt(PoolState(), m.textOffset)
    {
      if messagePool == null || m.textOffset >= messagePool.Length {
        return [];
      }
      text := [];
      var i: nat := m.textOffset;
      while i < messagePool.Length && messagePool[i] != 0
        invariant m.textOffset <= i <= messagePool.Length
        invariant text + CString(messagePool[i..]) == CString(messagePool[m.textOffset..])
      {
        assert messagePool[i..][1..] == messagePool[i + 1..];
        text := text + [messagePool[i]];
        i := i + 1;
      }
    }

    method AddLiveMessage(m: StoredMessage)
      requires Valid()
      modifies this`liveMessages
      ensures liveMessages == Spec.PushWithLimit(maxMessages, old(liveMessages), m)
    {
      if |liveMessages| >= maxMessages && liveMessages != [] {
        liveMessages := liveMessages[1..];
      }
      liveMessages := liveMessages + [m];
    }

    /** `strnlen` */
    method StrnLen(s: seq<byte>, max: nat) returns (len: nat)
      requires max <= |s|
      ensures len <= max && s[..len] == CString(s[..max])
    {
      len := 0;
      while len < max && s[len] != 0
        invariant 0 <= len <= max
        invariant s[..len] + CString(s[len..max]) == CString(s[..max])
      {
        assert s[len..max][1..] == s[len + 1..max];
        assert s[..len + 1] == s[..len] + [s[len]];
        len := len + 1;
      }
    }

    method TryAddFromPacket(db: Spec.NodeDB, packet: Spec.MeshPacket, stamp: Spec.Stamp) returns (stored: bool)
      requires Valid()
      modifies this`poolWritePos, this`liveMessages, messagePool
      ensures Valid() && stored == Spec.ShouldStore(db, packet)
      ensures State() == Spec.TryAdd(maxMessages, old(State()), db, packet, stamp)
      ensures !stored ==> State() == old(State())
      ensures stored ==> liveMessages != [] && Spec.Describes(liveMessages[|liveMessages| - 1], db, packet, stamp)
    {
      if !Spec.ShouldStore(db, packet) {
        return false;
      }
      var avail := |packet.payload|;
      if avail > MAX_MESSAGE_SIZE - 1 {
        avail := MAX_MESSAGE_SIZE - 1;
      }
      var len := StrnLen(packet.payload, avail);
      var offset := StoreTextInPool(packet.payload[..len]);
      AddLiveMessage(Spec.MessageFor(db, packet, stamp, offset));
      Spec.MessageDescribes(db, packet, stamp, offset);
      return true;
    }

    method EraseFirstMatch(pred: StoredMessage -> bool) returns (found: bool)
      modifies this`liveMessages
      ensures liveMessages == Spec.EraseFirst(old(liveMessages), pred)
      ensures found <==> exists i :: 0 <= i < |old(liveMessages)| && pred(old(liveMessages)[i])
      ensures Spec.OldestErased(old(liveMessages), liveMessages, pred)
    {
      hide Spec.OldestErased;
      Spec.EraseFirstMeaning(liveMessages, pred);
      var i := 0;
      while i < |liveMessages|
        invariant 0 <= i <= |liveMessages|
        invariant liveMessages == old(liveMessages)
        invariant forall j :: 0 <= j < i ==> !pred(liveMessages[j])
        invariant Spec.EraseFirst(liveMessages, pred) == liveMessages[..i] + Spec.EraseFirst(liveMessages[i..], pred)
      {
        if pred(liveMessages[i]) {
          assert liveMessages[i..][1..] == liveMessages[i + 1..];
          liveMessages := liveMessages[..i] + liveMessages[i + 1..];
          return true;
        }
        assert liveMessages[i..][1..] == liveMessages[i + 1..];
        assert liveMessages[..i + 1] == liveMessages[..i] + [liveMessages[i]];
        i := i + 1;
      }
      return false;
    }

    /** Dropping a match, or stepping over a message, leaves the outcome the same. */
    lemma EraseStep(live: seq<StoredMessage>, i: nat, pred: StoredMessage -> bool)
      requires i < |live|
      ensures pred(live[i]) ==>
                var shorter := live[..i] + live[i + 1..];
                shorter[..i] + Spec.EraseAll(shorter[i..], pred) == live[..i] + Spec.EraseAll(live[i..], pred)
      ensures !pred(live[i]) ==>
                live[..i + 1] + Spec.EraseAll(live[i + 1..], pred) == live[..i] + Spec.EraseAll(live[i..], pred)
    {
      assert live[i..][1..] == live[i + 1..];
      if pred(live[i]) {
        var shorter := live[..i] + live[i + 1..];
        assert shorter[i..] == live[i + 1..] && shorter[..i] == live[..i];
      } else {
        assert live[..i + 1] == live[..i] + [live[i]];
      }
    }

    method EraseAllMatches(pred: StoredMessage -> bool)
      modifies this`liveMessages
      ensures liveMessages == Spec.EraseAll(old(liveMessages), pred)
      ensures forall m :: m in liveMessages <==> m in old(liveMessages) && !pred(m)
    {
      Spec.EraseAllMeaning(liveMessages, pred);
      var i := 0;
      while i < |liveMessages|
        invariant 0 <= i <= |liveMessages|
        invariant liveMessages[..i] + Spec.EraseAll(liveMessages[i..], pred) == Spec.EraseAll(old(liveMessages), pred)
        decreases |liveMessages| - i
      {
        EraseStep(liveMessages, i, pred);
        if pred(liveMessages[i]) {
          liveMessages := liveMessages[..i] + liveMessages[i + 1..];
        } else {
          i := i + 1;
        }
      }
      assert liveMessages[..i] == liveMessages;
    }

    method PruneHiddenMessages(db: Spec.NodeDB) returns (changed: bool)
      requires Valid()
      modifies this`liveMessages
      ensures State() == File.Prune(db, old(State()))
      ensures forall m :: m in liveMessages <==> m in old(liveMessages) && Spec.IsVisible(db, m)
      ensures changed <==> |liveMessages| != |old(liveMessages)|
    {
      var before := |liveMessages|;
      EraseAllMatches(m => !Spec.IsVisible(db, m));
      return |liveMessages| != before;
    }

    /** The bytes written to the save file. */
    method SaveToFlash() returns (file: seq<byte>)
      requires Valid()
      ensures file == File.Saved(maxMessages, State())
    {
      hide File.Encode, File.EncodeAll, TextAt;
      var count := |liveMessages| % 256;
      if count > maxMessages {
        count := maxMessages;
      }
      var records := WriteRecords(count);
      file := [count] + records;
    }

    method WriteRecords(count: nat) returns (records: seq<byte>)
      requires Valid() && count <= |liveMessages|
      ensures records == File.EncodeAll(PoolState(), liveMessages[..count])
    {
      records := [];
      var i := 0;
      while i < count
        invariant 0 <= i <= count
        invariant records == File.EncodeAll(PoolState(), liveMessages[..i])
      {
        hide File.Encode, File.EncodeAll, TextAt;
        var text := GetText(liveMessages[i]);
        File.EncodeAllSnoc(PoolState(), liveMessages, i);
        records := records + File.Encode(liveMessages[i], text);
        i := i + 1;
      }
    }

    method ReadRecords(bytes: seq<byte>, count: nat)
      requires Valid()
      modifies this`poolWritePos, this`liveMessages, messagePool
      ensures Valid() && messagePool == old(messagePool)
      ensures State() == File.LoadRecords(old(State()), bytes, count)
    {
      hide Stored, StoredAt, File.DecodeText, File.DecodeHeader;
      var i := 0;
      var rest := bytes;
      while i < count && |rest| >= File.RECORD_SIZE
        invariant 0 <= i <= count && Valid() && messagePool == old(messagePool)
        invariant File.LoadRecords(State(), rest, count - i) == old(File.LoadRecords(State(), bytes, count))
      {
        var r := rest[..File.RECORD_SIZE];
        var offset := StoreTextInPool(File.DecodeText(r));
        liveMessages := liveMessages + [File.DecodeHeader(r, offset)];
        rest := rest[File.RECORD_SIZE..];
        i := i + 1;
      }
    }

    /** Load the save file; hidden messages are pruned, and then the file is written anew. */
    method LoadFromFlash(db: Spec.NodeDB, file: seq<byte>, canAllocate: bool) returns (rewritten: bool, newFile: seq<byte>)
      requires Valid()
      modifies this`poolWritePos, this`liveMessages, this`messagePool, messagePool
      ensures Valid()
      ensures old(messagePool) != null || canAllocate ==> State() == File.Loaded(maxMessages, db, file)
      ensures old(messagePool) == null && !canAllocate ==>
                State() == File.Prune(db, File.LoadInto(maxMessages, old(PoolState()), file))
      ensures newFile == if rewritten then File.Saved(maxMessages, State()) else file
    {
      liveMessages := [];
      ResetMessagePool(canAllocate);
      if file != [] {
        var count: nat := file[0];
        if count > maxMessages {
          count := maxMessages;
        }
        ReadRecords(file[1..], count);
      }
      rewritten := PruneHiddenMessages(db);
      newFile := file;
      if rewritten {
        newFile := SaveToFlash();
      }
    }

    method DeleteOldestMessage() returns (file: seq<byte>)
      requires Valid()
      modifies this`liveMessages
      ensures liveMessages == if old(liveMessages) == [] then [] else old(liveMessages)[1..]
      ensures file == File.Saved(maxMessages, State())
    {
      if liveMessages != [] {
        liveMessages := liveMessages[1..];
      }
      file := SaveToFlash();
    }

    method DeleteAllMessagesInChannel(channel: byte) returns (file: seq<byte>)
      requires Valid()
      modifies this`liveMessages
      ensures liveMessages == Spec.EraseAll(old(liveMessages), (m: StoredMessage) => m.kind == Spec.BROADCAST && m.channelIndex == channel)
      ensures file == File.Saved(maxMessages, State())
    {
      EraseAllMatches((m: StoredMessage) => m.kind == Spec.BROADCAST && m.channelIndex == channel);
      file := SaveToFlash();
    }

    method DeleteOldestMessageWithPeer(db: Spec.NodeDB, peer: u32) returns (file: seq<byte>)
      requires Valid()
      modifies this`liveMessages
      ensures liveMessages == Spec.EraseFirst(old(liveMessages), Spec.WithPeer(db, peer))
      ensures Spec.OldestErased(old(liveMessages), liveMessages,
                                (m: StoredMessage) => m.kind == 1 && ((m.sender == db.local && m.dest == peer)
                                                                      || (m.sender != db.local && m.sender == peer)))
      ensures file == File.Saved(maxMessages, State())
    {
      var found := EraseFirstMatch(Spec.WithPeer(db, peer));
      Spec.SameErased(old(liveMessages), liveMessages, Spec.WithPeer(db, peer),
                      (m: StoredMessage) => m.kind == 1 && ((m.sender == db.local && m.dest == peer)
                                                            || (m.sender != db.local && m.sender == peer)));
      file := SaveToFlash();
    }
  }
}
