/**
  The message store of src/MessageStore.cpp: a bounded queue of messages whose texts live in the
  shared pool.
*/
module MessageStore {
  import opened Words
  import opened MessagePool

  const NODENUM_BROADCAST: u32 := 0xFFFF_FFFF
  const BROADCAST: byte := 0
  const DM_TO_US: byte := 1
  const ACK_NONE: byte := 0
  const ACK_ACKED: byte := 1

  datatype StoredMessage = StoredMessage(
    timestamp: u32, sender: u32, channelIndex: byte, dest: u32,
    kind: byte, isBootRelative: bool, ackStatus: byte,
    textOffset: u16, textLength: u16, xeddsaSigned: bool)

  /** What the store asks of the node database: our own number and which nodes are ignored. */
  datatype NodeDB = NodeDB(local: u32, ignored: set<u32>)

  /** The parts of a mesh packet the store reads. */
  datatype MeshPacket = MeshPacket(from: u32, to: u32, channel: byte, payload: seq<byte>, signed: bool)

  /** The time source's answer: RTC seconds, or uptime seconds flagged as boot-relative. */
  datatype Stamp = Stamp(seconds: u32, bootRelative: bool)

  datatype Store = Store(pool: Pool, live: seq<StoredMessage>)

  predicate IsIgnored(db: NodeDB, node: u32) {
    node != 0 && node != NODENUM_BROADCAST && node in db.ignored
  }

  predicate ShouldStore(db: NodeDB, p: MeshPacket) {
    if p.to != 0 && p.to != NODENUM_BROADCAST then
      !IsIgnored(db, if p.from == 0 || p.from == db.local then p.to else p.from)
    else p.from != 0 && p.from != db.local ==> !IsIgnored(db, p.from)
  }

  predicate IsVisible(db: NodeDB, m: StoredMessage) {
    if m.kind == DM_TO_US then !IsIgnored(db, if m.sender == db.local then m.dest else m.sender)
    else m.sender != 0 && m.sender != db.local ==> !IsIgnored(db, m.sender)
  }

  /** The text of a packet: up to 219 payload bytes, cut at the first NUL. */
  function TextOf(p: MeshPacket): seq<byte> { CString(Capped(p.payload)) }

  function MessageFor(db: NodeDB, p: MeshPacket, stamp: Stamp, offset: u16): StoredMessage
  {
    StoredMessage(stamp.seconds, if p.from == 0 then db.local else p.from, p.channel, p.to,
                  if p.to != 0 && p.to != NODENUM_BROADCAST then DM_TO_US else BROADCAST,
                  stamp.bootRelative, if p.from == 0 then ACK_NONE else ACK_ACKED,
                  offset, TextLength(p), p.signed)
  }

  function TextLength(p: MeshPacket): (len: u16)
    ensures len == |TextOf(p)|
  {
    CStringShort(Capped(p.payload));
    |TextOf(p)|
  }

  /** What a stored message says of its packet: 0 stands for ourselves, a destination other than 0 and
      0xFFFF_FFFF makes it a direct message, and only what others sent is acknowledged already. */
  ghost predicate Describes(m: StoredMessage, db: NodeDB, p: MeshPacket, stamp: Stamp) {
    && m.sender == (if p.from == 0 then db.local else p.from) && m.dest == p.to
    && m.channelIndex == p.channel && m.xeddsaSigned == p.signed
    && m.timestamp == stamp.seconds && m.isBootRelative == stamp.bootRelative
    && (m.kind == 1 <==> p.to != 0 && p.to != 0xFFFF_FFFF) && (m.kind == 0 <==> p.to == 0 || p.to == 0xFFFF_FFFF)
    && (m.ackStatus == 0 <==> p.from == 0) && (m.ackStatus == 1 <==> p.from != 0)
  }

  lemma MessageDescribes(db: NodeDB, p: MeshPacket, stamp: Stamp, offset: u16)
    ensures Describes(MessageFor(db, p, stamp, offset), db, p, stamp)
  {
  }

  /** A packet is kept out exactly when its other party is an ignored node: of a direct message the one we
      talk to, of a broadcast whoever else sent it. */
  lemma KeptOutIff(db: NodeDB, p: MeshPacket)
    ensures !ShouldStore(db, p) <==>
              exists other :: other in db.ignored && other != 0 && other != 0xFFFF_FFFF && OtherParty(db, p, other)
  {
    if !ShouldStore(db, p) {
      var other := if p.from == 0 || p.from == db.local then p.to else p.from;
      assert OtherParty(db, p, other);
    }
  }

  /** We sent it to the node, or the node sent it. */
  ghost predicate OtherParty(db: NodeDB, p: MeshPacket, other: u32) {
    var ours := p.from == 0 || p.from == db.local;
    if ours then p.to == other && p.to != 0 && p.to != 0xFFFF_FFFF else p.from == other
  }

  /** What is stored is visible, and stays so exactly while the packet would be stored. */
  lemma StoredIsVisible(db: NodeDB, p: MeshPacket, stamp: Stamp, m: StoredMessage)
    requires Describes(m, db, p, stamp)
    ensures IsVisible(db, m) <==> ShouldStore(db, p)
  {
  }

  /** A direct message counts as exchanged with its other party, a broadcast with nobody. */
  lemma PeerOfPacket(db: NodeDB, p: MeshPacket, stamp: Stamp, m: StoredMessage, peer: u32)
    requires Describes(m, db, p, stamp)
    ensures WithPeer(db, peer)(m) <==> p.to != 0 && p.to != 0xFFFF_FFFF && OtherParty(db, p, peer)
  {
  }

  lemma CStringShort(s: seq<byte>)
    ensures |CString(s)| <= |s| && 0 !in CString(s) && CString(s) == s[..|CString(s)|]
    ensures 0 !in s ==> CString(s) == s
  {
  }

  function PushWithLimit(n: nat, live: seq<StoredMessage>, m: StoredMessage): seq<StoredMessage> {
    (if |live| >= n && live != [] then live[1..] else live) + [m]
  }

  function TryAdd(n: nat, s: Store, db: NodeDB, p: MeshPacket, stamp: Stamp): Store
    requires PoolOk(s.pool)
  {
    if !ShouldStore(db, p) then s
    else
      var text := TextOf(p);
      Store(Stored(s.pool, text), PushWithLimit(n, s.live, MessageFor(db, p, stamp, StoredAt(s.pool, text))))
  }

  /** The messages for which `pred` fails, in order. */
  function EraseAll(live: seq<StoredMessage>, pred: StoredMessage -> bool): seq<StoredMessage> {
    if live == [] then []
    else if pred(live[0]) then EraseAll(live[1..], pred)
    else [live[0]] + EraseAll(live[1..], pred)
  }

  /** Without the oldest message for which `pred` holds. */
  function EraseFirst(live: seq<StoredMessage>, pred: StoredMessage -> bool): seq<StoredMessage> {
    if live == [] then []
    else if pred(live[0]) then live[1..]
    else [live[0]] + EraseFirst(live[1..], pred)
  }

  /** One message is gone, the oldest that `pred` holds of; or there is none. */
  ghost predicate OldestErased(was: seq<StoredMessage>, now: seq<StoredMessage>, pred: StoredMessage -> bool) {
    || (now == was && forall m :: m in was ==> !pred(m))
    || exists i :: 0 <= i < |was| && IsOldest(was, i, pred) && now == was[..i] + was[i + 1..]
  }

  ghost predicate IsOldest(live: seq<StoredMessage>, i: nat, pred: StoredMessage -> bool)
    requires i < |live|
  {
    pred(live[i]) && forall j :: 0 <= j < i ==> !pred(live[j])
  }

  /** The index of the oldest match, or the number of messages. */
  function FirstMatch(live: seq<StoredMessage>, pred: StoredMessage -> bool): (i: nat)
    ensures i <= |live| && (i < |live| ==> pred(live[i]))
    ensures forall j :: 0 <= j < i ==> !pred(live[j])
  {
    if live == [] || pred(live[0]) then 0 else FirstMatch(live[1..], pred) + 1
  }

  lemma DropShifted(live: seq<StoredMessage>, i: nat)
    requires i + 1 < |live|
    ensures [live[0]] + (live[1..][..i] + live[1..][i + 1..]) == live[..i + 1] + live[i + 2..]
  {
  }

  lemma {:induction false} EraseFirstAt(live: seq<StoredMessage>, pred: StoredMessage -> bool)
    ensures var i := FirstMatch(live, pred);
            EraseFirst(live, pred) == if i < |live| then live[..i] + live[i + 1..] else live
    decreases |live|
  {
    if live != [] && !pred(live[0]) {
      EraseFirstAt(live[1..], pred);
      var i := FirstMatch(live[1..], pred);
      if i < |live| - 1 { DropShifted(live, i); }
    }
  }

  lemma EraseFirstMeaning(live: seq<StoredMessage>, pred: StoredMessage -> bool)
    ensures OldestErased(live, EraseFirst(live, pred), pred)
  {
    hide EraseFirst;
    EraseFirstAt(live, pred);
    var i := FirstMatch(live, pred);
    if i < |live| { assert IsOldest(live, i, pred); }
  }

  lemma SameErased(was: seq<StoredMessage>, now: seq<StoredMessage>, p: StoredMessage -> bool, q: StoredMessage -> bool)
    requires OldestErased(was, now, p) && forall m :: p(m) == q(m)
    ensures OldestErased(was, now, q)
  {
    if i: nat :| i < |was| && IsOldest(was, i, p) && now == was[..i] + was[i + 1..] {
      assert IsOldest(was, i, q);
    }
  }

  lemma {:induction false} EraseAllMeaning(live: seq<StoredMessage>, pred: StoredMessage -> bool)
    ensures forall m :: m in EraseAll(live, pred) <==> m in live && !pred(m)
    decreases |live|
  {
    if live != [] { EraseAllMeaning(live[1..], pred); }
  }

  /** Direct messages exchanged with one node. */
  function WithPeer(db: NodeDB, peer: u32): StoredMessage -> bool {
    (m: StoredMessage) => m.kind == DM_TO_US && (if m.sender == db.local then m.dest else m.sender) == peer
  }

  // ---------------------------------------------------------------- texts of live messages

  /** An event in the life of a store with texts of at most N messages. */
  datatype Op =
    | Add(db: NodeDB, packet: MeshPacket, stamp: Stamp)
    | Foreign(src: seq<byte>)
    | RemoveAll(pred: StoredMessage -> bool)
    | RemoveFirst(pred: StoredMessage -> bool)
    | RemoveOldest

  function Apply(n: nat, s: Store, op: Op): (s': Store)
    requires PoolOk(s.pool)
    ensures PoolOk(s'.pool)
  {
    match op
    case Add(db, p, stamp) => TryAdd(n, s, db, p, stamp)
    case Foreign(src) => s.(pool := Stored(s.pool, src))
    case RemoveAll(pred) => s.(live := EraseAll(s.live, pred))
    case RemoveFirst(pred) => s.(live := EraseFirst(s.live, pred))
    case RemoveOldest => s.(live := if s.live == [] then [] else s.live[1..])
  }

  function Run(n: nat, ops: seq<Op>): (s: Store)
    requires n >= 1
    ensures PoolOk(s.pool)
  {
    if ops == [] then Store(Fresh(n), []) else Apply(n, Run(n, ops[..|ops| - 1]), ops[|ops| - 1])
  }

  /** The texts an event puts into the pool. */
  function TextsOf(op: Op): seq<seq<byte>> {
    match op
    case Add(db, p, _) => if ShouldStore(db, p) then [TextOf(p)] else []
    case Foreign(src) => [src]
    case _ => []
  }

  function AllTexts(ops: seq<Op>): seq<seq<byte>> {
    if ops == [] then [] else AllTexts(ops[..|ops| - 1]) + TextsOf(ops[|ops| - 1])
  }

  /** Message i was created with the pool's text number ids[i]; messages are in the order of their
      texts. */
  ghost predicate Backed(live: seq<StoredMessage>, ids: seq<nat>, hist: seq<Entry>) {
    && |ids| == |live|
    && (forall i :: 0 <= i < |ids| ==>
          ids[i] < |hist| && live[i].textOffset == hist[ids[i]].off && live[i].textLength == |hist[ids[i]].text|
          && 0 !in hist[ids[i]].text)
    && (forall i, j :: 0 <= i < j < |ids| ==> ids[i] < ids[j])
  }

  lemma BackedTail(live: seq<StoredMessage>, ids: seq<nat>, hist: seq<Entry>)
    requires Backed(live, ids, hist) && live != []
    ensures Backed([live[0]], [ids[0]], hist) && Backed(live[1..], ids[1..], hist)
    ensures forall id :: id in ids[1..] ==> ids[0] < id
  {
  }

  lemma BackedCons(m: StoredMessage, id: nat, live: seq<StoredMessage>, ids: seq<nat>, hist: seq<Entry>)
    requires Backed([m], [id], hist) && Backed(live, ids, hist) && (ids != [] ==> id < ids[0])
    ensures Backed([m] + live, [id] + ids, hist)
  {
    var all := [id] + ids;
    forall i, j | 0 <= i < j < |all| ensures all[i] < all[j] {
      if i == 0 && j > 1 { assert ids[0] < ids[j - 1]; }
    }
  }

  /** `EraseAll` and `EraseFirst` on the text numbers that go with the messages. */
  function KeepAll(live: seq<StoredMessage>, ids: seq<nat>, pred: StoredMessage -> bool): seq<nat>
    requires |live| == |ids|
  {
    if live == [] then []
    else (if pred(live[0]) then [] else [ids[0]]) + KeepAll(live[1..], ids[1..], pred)
  }

  function KeepFirst(live: seq<StoredMessage>, ids: seq<nat>, pred: StoredMessage -> bool): seq<nat>
    requires |live| == |ids|
  {
    if live == [] then []
    else if pred(live[0]) then ids[1..]
    else [ids[0]] + KeepFirst(live[1..], ids[1..], pred)
  }

  /** For each live message, the number of the text it was created with. */
  function IdsAfter(n: nat, live: seq<StoredMessage>, ids: seq<nat>, texts: nat, op: Op): seq<nat>
    requires |live| == |ids|
  {
    match op
    case Add(db, p, _) =>
      if ShouldStore(db, p) then (if |ids| >= n && ids != [] then ids[1..] else ids) + [texts] else ids
    case Foreign(_) => ids
    case RemoveAll(pred) => KeepAll(live, ids, pred)
    case RemoveFirst(pred) => KeepFirst(live, ids, pred)
    case RemoveOldest => if ids == [] then [] else ids[1..]
  }

  lemma KeepLengths(live: seq<StoredMessage>, ids: seq<nat>, pred: StoredMessage -> bool)
    requires |live| == |ids|
    ensures |KeepAll(live, ids, pred)| == |EraseAll(live, pred)| <= |live|
    ensures |KeepFirst(live, ids, pred)| == |EraseFirst(live, pred)| <= |live|
  {
  }

  function IdsOf(n: nat, ops: seq<Op>): (ids: seq<nat>)
    requires n >= 1
    ensures |ids| == |Run(n, ops).live|
  {
    if ops == [] then []
    else
      var before, op := ops[..|ops| - 1], ops[|ops| - 1];
      var live, ids := Run(n, before).live, IdsOf(n, before);
      assert |IdsAfter(n, live, ids, |AllTexts(before)|, op)| == |Run(n, ops).live| by {
        if op.RemoveAll? || op.RemoveFirst? { KeepLengths(live, ids, op.pred); }
      }
      IdsAfter(n, live, ids, |AllTexts(before)|, op)
  }

  /** Erasing keeps messages and texts matched. */
  lemma {:induction false} EraseAllKeepsBacked(live: seq<StoredMessage>, ids: seq<nat>, hist: seq<Entry>,
                                               pred: StoredMessage -> bool)
    requires Backed(live, ids, hist)
    ensures Backed(EraseAll(live, pred), KeepAll(live, ids, pred), hist)
    ensures forall id :: id in KeepAll(live, ids, pred) ==> id in ids
    decreases |live|
  {
    if live != [] {
      BackedTail(live, ids, hist);
      hide Backed;
      EraseAllKeepsBacked(live[1..], ids[1..], hist, pred);
      if pred(live[0]) {
        assert KeepAll(live, ids, pred) == KeepAll(live[1..], ids[1..], pred);
      } else {
        var kept := KeepAll(live[1..], ids[1..], pred);
        if kept != [] { assert kept[0] in ids[1..]; }
        BackedCons(live[0], ids[0], EraseAll(live[1..], pred), kept, hist);
      }
    }
  }

  lemma {:induction false} EraseFirstKeepsBacked(live: seq<StoredMessage>, ids: seq<nat>, hist: seq<Entry>,
                                                 pred: StoredMessage -> bool)
    requires Backed(live, ids, hist)
    ensures Backed(EraseFirst(live, pred), KeepFirst(live, ids, pred), hist)
    ensures forall id :: id in KeepFirst(live, ids, pred) ==> id in ids
    decreases |live|
  {
    if live != [] {
      BackedTail(live, ids, hist);
      hide Backed;
      if !pred(live[0]) {
        EraseFirstKeepsBacked(live[1..], ids[1..], hist, pred);
        var kept := KeepFirst(live[1..], ids[1..], pred);
        if kept != [] { assert kept[0] in ids[1..]; }
        BackedCons(live[0], ids[0], EraseFirst(live[1..], pred), kept, hist);
      }
    }
  }

  lemma BackedLater(live: seq<StoredMessage>, ids: seq<nat>, hist: seq<Entry>, e: Entry)
    requires Backed(live, ids, hist)
    ensures Backed(live, ids, hist + [e])
  {
  }

  lemma BackedPush(live: seq<StoredMessage>, ids: seq<nat>, hist: seq<Entry>, e: Entry, m: StoredMessage)
    requires Backed(live, ids, hist) && 0 !in e.text
    requires m.textOffset == e.off && m.textLength == |e.text|
    ensures Backed(live + [m], ids + [|hist|], hist + [e])
  {
  }

  lemma AddKeepsBacked(n: nat, s: Store, ids: seq<nat>, t: Tracked, db: NodeDB, p: MeshPacket, stamp: Stamp)
    requires Inv(n, t) && PoolSize(n) <= TWO_16 && s.pool == t.pool && Backed(s.live, ids, t.hist) && ShouldStore(db, p)
    ensures Backed(TryAdd(n, s, db, p, stamp).live, IdsAfter(n, s.live, ids, |t.hist|, Add(db, p, stamp)),
                   MessagePool.Store(t, TextOf(p)).hist)
  {
    var text := TextOf(p);
    CStringShort(Capped(p.payload));
    var hist' := MessagePool.Store(t, text).hist;
    assert Capped(text) == text;
    OffsetIsExact(n, t, text);
    hide Stored, StoredAt, Place, CString, Backed, Inv;
    var drop := |s.live| >= n && s.live != [];
    var live := if drop then s.live[1..] else s.live;
    var older := if drop then ids[1..] else ids;
    if drop { BackedTail(s.live, ids, t.hist); }
    BackedPush(live, older, t.hist, hist'[|t.hist|], MessageFor(db, p, stamp, StoredAt(s.pool, text)));
  }

  /** One event keeps the matching. */
  lemma ApplyKeepsBacked(n: nat, s: Store, ids: seq<nat>, t: Tracked, op: Op, t': Tracked)
    requires Inv(n, t) && PoolSize(n) <= TWO_16 && s.pool == t.pool && Backed(s.live, ids, t.hist) && |s.live| <= n
    requires t' == if TextsOf(op) == [] then t else MessagePool.Store(t, TextsOf(op)[0])
    ensures Apply(n, s, op).pool == t'.pool && |Apply(n, s, op).live| <= n
    ensures Backed(Apply(n, s, op).live, IdsAfter(n, s.live, ids, |t.hist|, op), t'.hist)
  {
    match op
    case Add(db, p, stamp) =>
      if ShouldStore(db, p) { AddKeepsBacked(n, s, ids, t, db, p, stamp); }
    case Foreign(src) =>
      BackedLater(s.live, ids, t.hist, t'.hist[|t.hist|]);
    case RemoveAll(pred) =>
      KeepLengths(s.live, ids, pred);
      EraseAllKeepsBacked(s.live, ids, t.hist, pred);
    case RemoveFirst(pred) =>
      KeepLengths(s.live, ids, pred);
      EraseFirstKeepsBacked(s.live, ids, t.hist, pred);
    case RemoveOldest =>
      if s.live != [] { BackedTail(s.live, ids, t.hist); }
  }

  lemma TextsSnoc(n: nat, ops: seq<Op>)
    requires n >= 1 && ops != []
    ensures var before, op := AllTexts(ops[..|ops| - 1]), ops[|ops| - 1];
            StoreAll(n, AllTexts(ops)) ==
            if TextsOf(op) == [] then StoreAll(n, before) else MessagePool.Store(StoreAll(n, before), TextsOf(op)[0])
  {
    var before, op := AllTexts(ops[..|ops| - 1]), ops[|ops| - 1];
    if TextsOf(op) == [] {
      assert AllTexts(ops) == before;
    } else {
      assert AllTexts(ops) == before + [TextsOf(op)[0]];
      assert AllTexts(ops)[..|before|] == before;
    }
  }

  /** Over every run the live messages are matched to the texts they were created with. */
  lemma {:induction false} RunIsBacked(n: nat, ops: seq<Op>)
    requires n >= 2 && PoolSize(n) <= TWO_16
    ensures var t := StoreAll(n, AllTexts(ops));
            && Run(n, ops).pool == t.pool && |Run(n, ops).live| <= n
            && Backed(Run(n, ops).live, IdsOf(n, ops), t.hist)
    decreases |ops|
  {
    if ops != [] {
      var before, op := ops[..|ops| - 1], ops[|ops| - 1];
      RunIsBacked(n, before);
      StoreAllInv(n, AllTexts(before));
      TextsSnoc(n, ops);
      hide AllTexts, StoreAll, TextsOf, Backed, Inv, IdsAfter, Apply;
      ApplyKeepsBacked(n, Run(n, before), IdsOf(n, before), StoreAll(n, AllTexts(before)), op, StoreAll(n, AllTexts(ops)));
    }
  }

  /** What becomes of text i, whatever its age: it reads back as stored while it is clear of later texts;
      it is clear exactly while no text of a later lap ends beyond its start, so always before N - 1
      newer texts were stored, and for the N-th newest exactly while the pool's write position has not
      passed it again. */
  ghost predicate TextFate(n: nat, t: Tracked, texts: seq<seq<byte>>, i: nat) {
    && i < |t.hist| == |texts| && t.hist[i].text == Capped(texts[i])
    && (Clear(t.hist, i) && 0 !in Capped(texts[i]) ==> TextAt(t.pool, t.hist[i].off) == Capped(texts[i]))
    && (Clear(t.hist, i) <==> LaterLapsEndBefore(t.hist, i))
    && (|texts| - i < n ==> Clear(t.hist, i))
    && (|texts| - i == n ==> (Clear(t.hist, i) <==> t.lap == t.hist[i].lap || t.pool.pos <= t.hist[i].off))
  }

  lemma EveryTextsFate(n: nat, texts: seq<seq<byte>>, i: nat)
    requires n >= 2 && i < |texts|
    ensures TextFate(n, StoreAll(n, texts), texts, i)
  {
    hide StoreAll, Inv, Clear, LaterLapsEndBefore, TextAt, Intact;
    StoreAllInv(n, texts);
    ClearIff(n, texts, i);
    if Clear(StoreAll(n, texts).hist, i) {
      ClearIsIntact(n, texts, i);
      if 0 !in Capped(texts[i]) { IntactReadsBack(StoreAll(n, texts).pool, StoreAll(n, texts).hist[i]); }
    }
    if |texts| - i < n { NewestAreClear(n, texts, i); }
    if |texts| - i == n { NthNewestSurvivesIff(n, texts); }
  }

  /** Over every run of additions, foreign texts and erasures, each live message points at the NUL-free
      text it was created with, whose fate is that of `TextFate`. */
  lemma LiveTextsSurvive(n: nat, ops: seq<Op>)
    requires n >= 2 && PoolSize(n) <= TWO_16
    ensures var s, texts, ids, t := Run(n, ops), AllTexts(ops), IdsOf(n, ops), StoreAll(n, AllTexts(ops));
            && |s.live| == |ids| <= n && s.pool == t.pool
            && (forall i, j :: 0 <= i < j < |ids| ==> ids[i] < ids[j])
            && (forall i :: 0 <= i < |ids| ==> PointsAt(t, texts, s.live[i], ids[i]) && TextFate(n, t, texts, ids[i]))
  {
    RunIsBacked(n, ops);
    var texts, ids := AllTexts(ops), IdsOf(n, ops);
    StoreAllInv(n, texts);
    hide Run, AllTexts, IdsOf, StoreAll, Inv, TextFate;
    forall i | 0 <= i < |ids| ensures TextFate(n, StoreAll(n, texts), texts, ids[i]) {
      EveryTextsFate(n, texts, ids[i]);
    }
  }

  ghost predicate PointsAt(t: Tracked, texts: seq<seq<byte>>, m: StoredMessage, id: nat) {
    && id < |t.hist| == |texts| && m.textOffset == t.hist[id].off
    && m.textLength == |Capped(texts[id])| && 0 !in Capped(texts[id])
  }

  /** With additions only, the live messages are those of the newest texts, so the newest N - 1
      messages on screen always read back right. */
  lemma {:induction false} AdditionsKeepNewest(n: nat, ops: seq<Op>)
    requires n >= 2 && forall i :: 0 <= i < |ops| ==> ops[i].Add?
    ensures var ids, texts := IdsOf(n, ops), AllTexts(ops);
            && |ids| == Min(n, |texts|)
            && forall i :: 0 <= i < |ids| ==> ids[i] == |texts| - |ids| + i
    decreases |ops|
  {
    hide Run, Apply, TextOf, ShouldStore;
    if ops != [] {
      var before, op := ops[..|ops| - 1], ops[|ops| - 1];
      AdditionsKeepNewest(n, before);
      AddShiftsIds(n, Run(n, before).live, IdsOf(n, before), |AllTexts(before)|, op);
    }
  }

  lemma AddShiftsIds(n: nat, live: seq<StoredMessage>, ids: seq<nat>, texts: nat, op: Op)
    requires n >= 2 && op.Add? && |live| == |ids| == Min(n, texts)
    requires forall i :: 0 <= i < |ids| ==> ids[i] == texts - |ids| + i
    ensures var ids' := IdsAfter(n, live, ids, texts, op);
            var texts' := texts + |TextsOf(op)|;
            |ids'| == Min(n, texts') && forall i :: 0 <= i < |ids'| ==> ids'[i] == texts' - |ids'| + i
  {
  }
}
