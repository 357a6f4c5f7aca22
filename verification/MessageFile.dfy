/**
  The save file of src/MessageStore.cpp: a count byte and packed 239-byte records, each with its text
  inline; loading puts the texts back into a fresh pool.
*/
module MessageFile {
  import opened Words
  import opened MessagePool
  import opened MessageStore

  const RECORD_SIZE := 239
  const HEADER_SIZE := 19

  // ---------------------------------------------------------------- records

  /** One on-flash record: the metadata and the text field's bytes up to its padding. */
  function EncodeHeader(m: StoredMessage): seq<byte> {
    var t, s, d, l := m.timestamp, m.sender, m.dest, m.textLength;
    [t % 256, t / 256 % 256, t / 0x1_0000 % 256, t / 0x100_0000,
     s % 256, s / 256 % 256, s / 0x1_0000 % 256, s / 0x100_0000,
     m.channelIndex,
     d % 256, d / 256 % 256, d / 0x1_0000 % 256, d / 0x100_0000,
     if m.isBootRelative then 1 else 0, m.ackStatus, m.kind, if m.xeddsaSigned then 1 else 0,
     l % 256, l / 256]
  }

  function Padding(n: nat): seq<byte> { seq(n, _ => 0) }

  /** `strncpy` of at most 219 bytes into a zeroed field of 220. */
  function TextField(text: seq<byte>): seq<byte> {
    Capped(text) + Padding(MAX_MESSAGE_SIZE - |Capped(text)|)
  }

  function Encode(m: StoredMessage, text: seq<byte>): (r: seq<byte>)
    ensures |r| == RECORD_SIZE
  {
    EncodeHeader(m) + TextField(text)
  }

  /** A record byte by byte, as the packed structure lays it out, little-endian: 239 bytes, the text field
      filled up with zeros. */
  lemma RecordLayout(m: StoredMessage, text: seq<byte>)
    ensures var r := Encode(m, text);
            && |r| == 239
            && Le32(r, 0) == m.timestamp && Le32(r, 4) == m.sender && r[8] == m.channelIndex && Le32(r, 9) == m.dest
            && r[13] == (if m.isBootRelative then 1 else 0) && r[14] == m.ackStatus && r[15] == m.kind
            && r[16] == (if m.xeddsaSigned then 1 else 0) && r[17] + 256 * (r[18] as int) == m.textLength
    ensures forall i :: 0 <= i < 220 ==> Encode(m, text)[19 + i] == if i < |text| && i < 219 then text[i] else 0
  {
    var r := Encode(m, text);
    assert r[..19] == EncodeHeader(m) && r[19..] == TextField(text);
    assert forall i :: 0 <= i < 19 ==> r[i] == EncodeHeader(m)[i];
    forall i | 0 <= i < 220 ensures r[19 + i] == if i < |text| && i < 219 then text[i] else 0 {
      assert r[19 + i] == TextField(text)[i];
    }
    LittleEndian(m.timestamp);
    LittleEndian(m.sender);
    LittleEndian(m.dest);
  }

  function Le32(r: seq<byte>, i: nat): u32
    requires i + 4 <= |r|
  {
    var b0: int, b1: int, b2: int, b3: int := r[i], r[i + 1], r[i + 2], r[i + 3];
    b0 + 256 * b1 + 0x1_0000 * b2 + 0x100_0000 * b3
  }

  /** The record's text: the C string in the field, at most 219 bytes. */
  function DecodeText(r: seq<byte>): seq<byte>
    requires |r| == RECORD_SIZE
  {
    CString(r[HEADER_SIZE..RECORD_SIZE - 1])
  }

  /** The record's metadata, with the length recounted and the text at its new place. */
  function DecodeHeader(r: seq<byte>, offset: u16): StoredMessage
    requires |r| == RECORD_SIZE
  {
    CStringShort(r[HEADER_SIZE..RECORD_SIZE - 1]);
    StoredMessage(Le32(r, 0), Le32(r, 4), r[8], Le32(r, 9), r[15], r[13] != 0, r[14],
                  offset, |DecodeText(r)|, r[16] != 0)
  }

  lemma FieldString(text: seq<byte>)
    requires 0 !in text && |text| < MAX_MESSAGE_SIZE
    ensures CString(TextField(text)[..MAX_MESSAGE_SIZE - 1]) == text
  {
    assert Capped(text) == text;
    if |text| == MAX_MESSAGE_SIZE - 1 {
      assert TextField(text)[..MAX_MESSAGE_SIZE - 1] == text;
      CStringShort(text);
    } else {
      var pad := Padding(MAX_MESSAGE_SIZE - |text| - 2);
      assert TextField(text)[..MAX_MESSAGE_SIZE - 1] == text + [0] + pad;
      CStringOf(text, pad);
    }
  }

  lemma TextRoundTrip(m: StoredMessage, text: seq<byte>)
    requires 0 !in text && |text| < MAX_MESSAGE_SIZE
    ensures DecodeText(Encode(m, text)) == text
  {
    hide CString, TextField;
    FieldString(text);
    assert Encode(m, text)[HEADER_SIZE..RECORD_SIZE - 1] == TextField(text)[..MAX_MESSAGE_SIZE - 1];
  }

  lemma HeaderRoundTrip(m: StoredMessage, text: seq<byte>, offset: u16)
    requires 0 !in text && m.textLength == |text| < MAX_MESSAGE_SIZE
    ensures DecodeText(Encode(m, text)) == text
    ensures DecodeHeader(Encode(m, text), offset) == m.(textOffset := offset)
  {
    hide Encode, DecodeText, Le32;
    TextRoundTrip(m, text);
    RecordLayout(m, text);
  }

  lemma LittleEndian(x: u32)
    ensures x % 256 + 256 * (x / 256 % 256) + 0x1_0000 * (x / 0x1_0000 % 256) + 0x100_0000 * (x / 0x100_0000) == x
  {
    assert x / 256 == x / 0x1_0000 * 256 + x / 256 % 256;
    assert x / 0x1_0000 == x / 0x100_0000 * 256 + x / 0x1_0000 % 256;
  }

  // ---------------------------------------------------------------- saving

  function EncodeAll(pool: Pool, live: seq<StoredMessage>): seq<byte> {
    if live == [] then []
    else EncodeAll(pool, live[..|live| - 1]) + Encode(live[|live| - 1], TextAt(pool, live[|live| - 1].textOffset))
  }

  /** The count fits one byte and is cut to N. */
  function SavedCount(n: nat, s: Store): (count: nat)
    ensures count <= |s.live| && count < 256
  {
    Min(|s.live| % 256, n)
  }

  function Saved(n: nat, s: Store): seq<byte> {
    [SavedCount(n, s)] + EncodeAll(s.pool, s.live[..SavedCount(n, s)])
  }

  // ---------------------------------------------------------------- loading

  /** Read up to `count` records; a short one ends the load. */
  function LoadRecords(s: Store, bytes: seq<byte>, count: nat): Store
    requires PoolOk(s.pool)
    decreases count
  {
    if count == 0 || |bytes| < RECORD_SIZE then s
    else
      var r := bytes[..RECORD_SIZE];
      var text := DecodeText(r);
      LoadRecords(Store(Stored(s.pool, text), s.live + [DecodeHeader(r, StoredAt(s.pool, text))]),
                  bytes[RECORD_SIZE..], count - 1)
  }

  /** Loading a file into an empty queue and the given pool. */
  function LoadInto(n: nat, pool: Pool, file: seq<byte>): Store
    requires PoolOk(pool)
  {
    if file == [] then Store(pool, []) else LoadRecords(Store(pool, []), file[1..], Min(file[0], n))
  }

  /** What is in RAM after loading a file, before hidden messages are pruned. */
  function LoadedRaw(n: nat, file: seq<byte>): Store
    requires n >= 1
  {
    LoadInto(n, Fresh(n), file)
  }

  function Prune(db: NodeDB, s: Store): Store {
    s.(live := EraseAll(s.live, m => !IsVisible(db, m)))
  }

  function Loaded(n: nat, db: NodeDB, file: seq<byte>): Store
    requires n >= 1
  {
    Prune(db, LoadedRaw(n, file))
  }

  // ---------------------------------------------------------------- the round trip

  /** A message as it means something to its reader: metadata and text, without the place. */
  datatype Letter = Letter(meta: StoredMessage, text: seq<byte>)

  function LetterOf(pool: Pool, m: StoredMessage): Letter {
    Letter(m.(textOffset := 0), TextAt(pool, m.textOffset))
  }

  function Letters(s: Store): seq<Letter> {
    seq(|s.live|, i requires 0 <= i < |s.live| => LetterOf(s.pool, s.live[i]))
  }

  /** The stored length is that of the text in the pool. */
  ghost predicate TextsOk(s: Store) {
    forall i :: 0 <= i < |s.live| ==>
      s.live[i].textLength == |TextAt(s.pool, s.live[i].textOffset)| < MAX_MESSAGE_SIZE
  }

  lemma NoNulInText(p: Pool, offset: nat)
    ensures 0 !in TextAt(p, offset)
  {
    if offset < |p.mem| {
      CStringShort(p.mem[offset..]);
    }
  }

  function TextsIn(s: Store): seq<seq<byte>> {
    seq(|s.live|, i requires 0 <= i < |s.live| => TextAt(s.pool, s.live[i].textOffset))
  }

  lemma {:induction false} EncodeAllSnoc(pool: Pool, live: seq<StoredMessage>, i: nat)
    requires i < |live|
    ensures EncodeAll(pool, live[..i + 1]) == EncodeAll(pool, live[..i]) + Encode(live[i], TextAt(pool, live[i].textOffset))
  {
    assert live[..i + 1][..i] == live[..i];
  }

  lemma {:induction false} EncodeAllTail(pool: Pool, live: seq<StoredMessage>)
    requires live != []
    ensures EncodeAll(pool, live) == Encode(live[0], TextAt(pool, live[0].textOffset)) + EncodeAll(pool, live[1..])
    decreases |live|
  {
    hide Encode, TextAt;
    var init := live[..|live| - 1];
    if |live| == 1 {
      assert EncodeAll(pool, init) == [];
      assert EncodeAll(pool, live[1..]) == [];
    } else {
      EncodeAllTail(pool, init);
      assert live[1..][..|live| - 2] == init[1..];
      assert live[1..] != [] && live[1..][|live| - 2] == live[|live| - 1];
    }
  }

  /** The loading pool after the texts of the records read so far, with their messages. */
  ghost predicate LoadedSoFar(n: nat, s: Store, t: Tracked, source: Store, k: nat)
    requires k <= |source.live|
  {
    && n >= 2 && t == StoreAll(n, TextsIn(source)[..k]) && Inv(n, t) && s.pool == t.pool
    && |s.live| == |t.hist| == k
    && forall i :: 0 <= i < k ==>
         && t.hist[i].text == TextAt(source.pool, source.live[i].textOffset)
         && s.live[i] == source.live[i].(textOffset := s.live[i].textOffset)
         && s.live[i].textOffset == t.hist[i].off
  }

  lemma {:induction false} TextsSnoc(n: nat, source: Store, k: nat)
    requires k < |source.live| && n >= 2
    ensures StoreAll(n, TextsIn(source)[..k + 1]) ==
            MessagePool.Store(StoreAll(n, TextsIn(source)[..k]), TextAt(source.pool, source.live[k].textOffset))
  {
    hide TextAt;
    var texts := TextsIn(source);
    assert texts[..k + 1][..k] == texts[..k];
  }

  lemma {:induction false} LoadStep(n: nat, s: Store, t: Tracked, source: Store, k: nat)
    requires k < |source.live| && LoadedSoFar(n, s, t, source, k) && TextsOk(source) && PoolSize(n) <= TWO_16
    ensures var text := TextAt(source.pool, source.live[k].textOffset);
            var r := Encode(source.live[k], text);
            DecodeText(r) == text &&
            LoadedSoFar(n, Store(Stored(s.pool, text), s.live + [DecodeHeader(r, StoredAt(s.pool, text))]),
                        MessagePool.Store(t, text), source, k + 1)
  {
    var m := source.live[k];
    var text := TextAt(source.pool, m.textOffset);
    NoNulInText(source.pool, m.textOffset);
    assert Capped(text) == text;
    TextsSnoc(n, source, k);
    hide Inv, Encode, Stored, StoredAt, TextAt, DecodeHeader, DecodeText, Capped, PoolOk, StoreAll, TextsIn;
    HeaderRoundTrip(m, text, StoredAt(s.pool, text));
    StoreKeepsInv(n, t, text);
    OffsetIsExact(n, t, text);
  }

  lemma {:induction false} LoadRest(n: nat, s: Store, t: Tracked, source: Store, k: nat) returns (t': Tracked)
    requires k <= |source.live| && LoadedSoFar(n, s, t, source, k) && TextsOk(source) && PoolSize(n) <= TWO_16
    ensures LoadedSoFar(n, LoadRecords(s, EncodeAll(source.pool, source.live[k..]), |source.live| - k), t', source, |source.live|)
    decreases |source.live| - k
  {
    if k == |source.live| {
      t' := t;
    } else {
      var m := source.live[k];
      var text := TextAt(source.pool, m.textOffset);
      var r := Encode(m, text);
      LoadStep(n, s, t, source, k);
      EncodeAllTail(source.pool, source.live[k..]);
      var bytes := EncodeAll(source.pool, source.live[k..]);
      assert source.live[k..][1..] == source.live[k + 1..];
      assert bytes[..RECORD_SIZE] == r && bytes[RECORD_SIZE..] == EncodeAll(source.pool, source.live[k + 1..]);
      hide LoadedSoFar, Encode, EncodeAll, Stored, DecodeText, DecodeHeader, TextsOk;
      t' := LoadRest(n, Store(Stored(s.pool, text), s.live + [DecodeHeader(r, StoredAt(s.pool, text))]),
                     MessagePool.Store(t, text), source, k + 1);
    }
  }

  lemma LettersCons(pool: Pool, m: StoredMessage, live: seq<StoredMessage>)
    ensures Letters(Store(pool, [m] + live)) == [LetterOf(pool, m)] + Letters(Store(pool, live))
    ensures Letters(Store(pool, [])) == []
  {
    hide LetterOf;
  }

  lemma PruneCons(db: NodeDB, pool: Pool, m: StoredMessage, live: seq<StoredMessage>)
    ensures var rest := Prune(db, Store(pool, live));
            Prune(db, Store(pool, [m] + live)) == Store(pool, if IsVisible(db, m) then [m] + rest.live else rest.live)
    ensures Prune(db, Store(pool, [])) == Store(pool, [])
  {
    hide IsVisible;
    assert ([m] + live)[1..] == live;
  }

  lemma VisibleCons(db: NodeDB, x: Letter, letters: seq<Letter>)
    ensures VisibleLetters(db, [x] + letters) == (if IsVisible(db, x.meta) then [x] else []) + VisibleLetters(db, letters)
    ensures VisibleLetters(db, []) == []
  {
    hide IsVisible;
    assert ([x] + letters)[1..] == letters;
  }

  lemma VisibleLetter(db: NodeDB, pool: Pool, m: StoredMessage)
    ensures IsVisible(db, LetterOf(pool, m).meta) == IsVisible(db, m)
  {
  }

  /** Pruning commutes with forgetting places: visibility does not look at them. */
  lemma {:induction false} PruneLetters(db: NodeDB, s: Store)
    ensures Letters(Prune(db, s)) == VisibleLetters(db, Letters(s))
    decreases |s.live|
  {
    hide *;
    if s.live == [] {
      assert s == Store(s.pool, []);
      PruneNothing(db, s.pool);
    } else {
      var m, live := s.live[0], s.live[1..];
      assert s == Store(s.pool, [m] + live);
      PruneLetters(db, Store(s.pool, live));
      PruneCons(db, s.pool, m, live);
      LettersCons(s.pool, m, live);
      LettersCons(s.pool, m, Prune(db, Store(s.pool, live)).live);
      PruneKeepsPool(db, Store(s.pool, live));
      VisibleCons(db, LetterOf(s.pool, m), Letters(Store(s.pool, live)));
      VisibleLetter(db, s.pool, m);
      assert [] + VisibleLetters(db, Letters(Store(s.pool, live))) == VisibleLetters(db, Letters(Store(s.pool, live)));
    }
  }

  lemma PruneNothing(db: NodeDB, pool: Pool)
    ensures Letters(Prune(db, Store(pool, []))) == VisibleLetters(db, Letters(Store(pool, [])))
  {
  }

  lemma PruneKeepsPool(db: NodeDB, s: Store)
    ensures Prune(db, s) == Store(s.pool, Prune(db, s).live)
  {
  }

  /** The letters whose messages are visible, in order. */
  function VisibleLetters(db: NodeDB, letters: seq<Letter>): seq<Letter> {
    if letters == [] then []
    else (if IsVisible(db, letters[0].meta) then [letters[0]] else []) + VisibleLetters(db, letters[1..])
  }

  lemma NothingLoaded(n: nat, s: Store)
    requires n >= 2
    ensures LoadedSoFar(n, Store(Fresh(n), []), Tracked(Fresh(n), [], 0), s, 0)
  {
  }

  lemma LoadOfSaved(n: nat, s: Store)
    requires n >= 1 && |s.live| <= n && |s.live| < 256
    ensures LoadedRaw(n, Saved(n, s)) == LoadRecords(Store(Fresh(n), []), EncodeAll(s.pool, s.live[0..]), |s.live|)
  {
    hide LoadRecords, EncodeAll;
    assert SavedCount(n, s) == |s.live| && s.live[..|s.live|] == s.live == s.live[0..];
    assert Saved(n, s)[1..] == EncodeAll(s.pool, s.live);
  }

  /** What a saved file loads into: the same metadata, the texts stored one by one. */
  lemma LoadSaved(n: nat, s: Store) returns (t: Tracked)
    requires n >= 2 && PoolSize(n) <= TWO_16 && |s.live| <= n && |s.live| < 256 && TextsOk(s)
    ensures LoadedSoFar(n, LoadedRaw(n, Saved(n, s)), t, s, |s.live|)
  {
    hide *;
    NothingLoaded(n, s);
    LoadOfSaved(n, s);
    t := LoadRest(n, Store(Fresh(n), []), Tracked(Fresh(n), [], 0), s, 0);
  }

  // ---------------------------------------------------------------- what comes back

  ghost predicate SomeTextShort(s: Store) {
    exists i :: 0 <= i < |s.live| && s.live[i].textLength < MAX_MESSAGE_SIZE - 1
  }

  lemma ShortTexts(s: Store)
    requires TextsOk(s)
    ensures SomeTextShort(s) <==> SomeShort(TextsIn(s))
  {
    var texts := TextsIn(s);
    hide TextAt;
    if i :| 0 <= i < |s.live| && s.live[i].textLength < MAX_MESSAGE_SIZE - 1 {
      assert |Capped(texts[i])| < MAX_MESSAGE_SIZE - 1;
    }
    if i :| 0 <= i < |texts| && |Capped(texts[i])| < MAX_MESSAGE_SIZE - 1 {
      assert s.live[i].textLength < MAX_MESSAGE_SIZE - 1;
    }
  }

  /** Unless the queue is full and so is every text, the loaded messages' texts are never touched. */
  lemma LoadedTextsClear(n: nat, s: Store, t: Tracked, i: nat)
    requires n >= 2 && LoadedSoFar(n, LoadedRaw(n, Saved(n, s)), t, s, |s.live|) && TextsOk(s) && |s.live| <= n && i < |s.live|
    requires |s.live| < n || i > 0 || SomeTextShort(s)
    ensures Clear(t.hist, i)
  {
    ShortTexts(s);
    assert TextsIn(s)[..|s.live|] == TextsIn(s);
    if |s.live| < n || i > 0 {
      NewestAreClear(n, TextsIn(s), i);
    } else {
      FirstNDisjointIff(n, TextsIn(s));
    }
  }

  lemma LoadedLetter(n: nat, s: Store, t: Tracked, i: nat)
    requires n >= 2 && LoadedSoFar(n, LoadedRaw(n, Saved(n, s)), t, s, |s.live|) && TextsOk(s) && |s.live| <= n && i < |s.live|
    requires |s.live| < n || i > 0 || SomeTextShort(s)
    ensures var raw := LoadedRaw(n, Saved(n, s));
            |raw.live| == |s.live| && LetterOf(raw.pool, raw.live[i]) == LetterOf(s.pool, s.live[i])
  {
    LoadedTextsClear(n, s, t, i);
    assert TextsIn(s)[..|s.live|] == TextsIn(s);
    hide LoadedRaw, Saved, TextAt, Intact, Inv, Clear, StoreAll;
    ClearIsIntact(n, TextsIn(s), i);
    NoNulInText(s.pool, s.live[i].textOffset);
    IntactReadsBack(t.pool, t.hist[i]);
  }

  /** Of N saved messages with full 219-byte texts, the oldest comes back with the newest one's text. */
  lemma SaveThenLoadLosesNth(n: nat, s: Store)
    requires n >= 2 && PoolSize(n) <= TWO_16 && |s.live| == n < 256 && TextsOk(s) && !SomeTextShort(s)
    ensures var raw := LoadedRaw(n, Saved(n, s));
            |raw.live| == n &&
            LetterOf(raw.pool, raw.live[0]) == LetterOf(s.pool, s.live[0]).(text := TextAt(s.pool, s.live[n - 1].textOffset))
  {
    var t := LoadSaved(n, s);
    assert TextsIn(s)[..n] == TextsIn(s);
    NoNulInText(s.pool, s.live[n - 1].textOffset);
    ShortTexts(s);
    hide LoadedRaw, Saved, TextAt, Inv, StoreAll;
    NthNewestIsLost(n, TextsIn(s));
    assert Capped(TextsIn(s)[n - 1]) == TextsIn(s)[n - 1];
  }

  /** All letters come back, but for the oldest text of a queue full of full texts. */
  function Returned(n: nat, s: Store): seq<Letter>
    requires |s.live| == n && n > 0
  {
    Letters(s)[0 := LetterOf(s.pool, s.live[0]).(text := TextAt(s.pool, s.live[n - 1].textOffset))]
  }

  lemma LoadedLetters(n: nat, s: Store)
    requires n >= 2 && PoolSize(n) <= TWO_16 && |s.live| <= n && |s.live| < 256 && TextsOk(s)
    ensures Letters(LoadedRaw(n, Saved(n, s))) ==
            if |s.live| < n || SomeTextShort(s) then Letters(s) else Returned(n, s)
  {
    var t := LoadSaved(n, s);
    var raw := LoadedRaw(n, Saved(n, s));
    assert |raw.live| == |s.live|;
    hide LoadedRaw, Saved, LoadedSoFar, TextsOk, LetterOf, SomeTextShort;
    forall i: nat | i < |s.live| && (|s.live| < n || i > 0 || SomeTextShort(s))
      ensures LetterOf(raw.pool, raw.live[i]) == LetterOf(s.pool, s.live[i])
    {
      LoadedLetter(n, s, t, i);
    }
    if |s.live| == n && !SomeTextShort(s) { SaveThenLoadLosesNth(n, s); }
  }

  lemma VisibleHead(db: NodeDB, letters: seq<Letter>, x: Letter)
    requires letters != [] && IsVisible(db, x.meta) == IsVisible(db, letters[0].meta)
    ensures VisibleLetters(db, letters[0 := x]) == VisibleLetters(db, letters)
            <==> !IsVisible(db, x.meta) || x == letters[0]
  {
    assert letters[0 := x][1..] == letters[1..];
    var rest := VisibleLetters(db, letters[1..]);
    if IsVisible(db, x.meta) {
      assert ([x] + rest)[0] == x && ([letters[0]] + rest)[0] == letters[0];
    }
  }

  /** Save, then load: for every store whose lengths match its texts, the same visible messages come
      back, in the same order, with the same metadata and texts, exactly when the queue is not full, or
      some text is short of 219 bytes, or the oldest message would not be missed: it is hidden, or has
      the newest one's text. */
  lemma SaveThenLoad(n: nat, db: NodeDB, s: Store)
    requires n >= 2 && PoolSize(n) <= TWO_16 && |s.live| <= n && |s.live| < 256 && TextsOk(s)
    ensures Letters(Loaded(n, db, Saved(n, s))) == VisibleLetters(db, Letters(s))
            <==> || |s.live| < n || SomeTextShort(s) || !IsVisible(db, s.live[0])
                 || TextAt(s.pool, s.live[0].textOffset) == TextAt(s.pool, s.live[n - 1].textOffset)
  {
    hide LoadedRaw, Saved, TextsOk, SomeTextShort, VisibleLetters, TextAt, EraseAll;
    LoadedLetters(n, s);
    PruneLetters(db, LoadedRaw(n, Saved(n, s)));
    if |s.live| == n && !SomeTextShort(s) {
      VisibleHead(db, Letters(s), Returned(n, s)[0]);
    }
  }

  // ---------------------------------------------------------------- from packets to the file and back

  /** No live message's text has been reached into by a later one. */
  ghost predicate AllClear(n: nat, ops: seq<Op>)
    requires n >= 1
  {
    forall id :: id in IdsOf(n, ops) ==> id < |StoreAll(n, AllTexts(ops)).hist| && Clear(StoreAll(n, AllTexts(ops)).hist, id)
  }

  /** The live messages with the texts they were created with. */
  ghost function Written(n: nat, ops: seq<Op>): seq<Letter>
    requires n >= 1 && forall id :: id in IdsOf(n, ops) ==> id < |AllTexts(ops)|
  {
    var live, ids := Run(n, ops).live, IdsOf(n, ops);
    seq(|live|, i requires 0 <= i < |live| =>
      assert ids[i] in ids;
      Letter(live[i].(textOffset := 0), Capped(AllTexts(ops)[ids[i]])))
  }

  /** One live message of such a store. */
  lemma LiveLetter(n: nat, ops: seq<Op>, i: nat)
    requires n >= 2 && PoolSize(n) <= TWO_16 && AllClear(n, ops) && i < |Run(n, ops).live|
    ensures var s, texts, ids := Run(n, ops), AllTexts(ops), IdsOf(n, ops);
            && ids[i] < |texts| && TextAt(s.pool, s.live[i].textOffset) == Capped(texts[ids[i]])
            && s.live[i].textLength == |Capped(texts[ids[i]])| < MAX_MESSAGE_SIZE
  {
    hide Run, IdsOf, AllTexts, StoreAll, Inv, TextAt, Clear, LaterLapsEndBefore;
    LiveTextsSurvive(n, ops);
    var ids, t := IdsOf(n, ops), StoreAll(n, AllTexts(ops));
    assert ids[i] in ids;
    assert PointsAt(t, AllTexts(ops), Run(n, ops).live[i], ids[i]) && TextFate(n, t, AllTexts(ops), ids[i]);
  }

  /** A store reached by any run has lengths that match its texts, and reads back what was written, while
      all live texts are clear. */
  lemma RunTextsOk(n: nat, ops: seq<Op>)
    requires n >= 2 && PoolSize(n) <= TWO_16 && AllClear(n, ops)
    ensures forall id :: id in IdsOf(n, ops) ==> id < |AllTexts(ops)|
    ensures TextsOk(Run(n, ops)) && Letters(Run(n, ops)) == Written(n, ops)
  {
    hide Run, IdsOf, AllTexts, StoreAll, TextAt, Clear, AllClear, Capped;
    var s, ids := Run(n, ops), IdsOf(n, ops);
    forall i | 0 <= i < |s.live|
      ensures ids[i] < |AllTexts(ops)|
      ensures TextAt(s.pool, s.live[i].textOffset) == Capped(AllTexts(ops)[ids[i]])
      ensures s.live[i].textLength == |Capped(AllTexts(ops)[ids[i]])| < MAX_MESSAGE_SIZE
    {
      LiveLetter(n, ops, i);
    }
  }

  lemma LettersAre(s: Store)
    requires TextsOk(s)
    ensures |Letters(s)| == |s.live|
    ensures SomeTextShort(s) <==> exists x :: x in Letters(s) && |x.text| < MAX_MESSAGE_SIZE - 1
    ensures s.live != [] ==>
              var first, last := Letters(s)[0], Letters(s)[|s.live| - 1];
              && first.text == TextAt(s.pool, s.live[0].textOffset)
              && last.text == TextAt(s.pool, s.live[|s.live| - 1].textOffset)
  {
    hide TextAt;
    if i :| 0 <= i < |s.live| && s.live[i].textLength < MAX_MESSAGE_SIZE - 1 {
      assert Letters(s)[i] in Letters(s) && |Letters(s)[i].text| < MAX_MESSAGE_SIZE - 1;
    }
    if x :| x in Letters(s) && |x.text| < MAX_MESSAGE_SIZE - 1 {
      var i :| 0 <= i < |s.live| && Letters(s)[i] == x;
      assert s.live[i].textLength < MAX_MESSAGE_SIZE - 1;
    }
  }

  lemma SameVisibility(db: NodeDB, s: Store)
    requires s.live != []
    ensures |Letters(s)| == |s.live| && IsVisible(db, Letters(s)[0].meta) == IsVisible(db, s.live[0])
  {
  }

  /** From packets through save and load: whatever was added, erased and pushed out before, the visible
      messages come back with the texts they were created with, exactly under the condition of
      `SaveThenLoad`. */
  lemma PacketsSaveAndLoad(n: nat, db: NodeDB, ops: seq<Op>)
    requires n >= 2 && PoolSize(n) <= TWO_16 && |Run(n, ops).live| < 256 && AllClear(n, ops)
    ensures forall id :: id in IdsOf(n, ops) ==> id < |AllTexts(ops)|
    ensures var written := Written(n, ops);
            && |written| <= n
            && (Letters(Loaded(n, db, Saved(n, Run(n, ops)))) == VisibleLetters(db, written)
                <==> || |written| < n || (exists x :: x in written && |x.text| < MAX_MESSAGE_SIZE - 1)
                     || !IsVisible(db, written[0].meta) || written[0].text == written[n - 1].text)
  {
    hide *;
    RunTextsOk(n, ops);
    LiveCount(n, ops);
    var s := Run(n, ops);
    SaveThenLoad(n, db, s);
    LettersAre(s);
    if s.live != [] { SameVisibility(db, s); }
  }

  lemma LiveCount(n: nat, ops: seq<Op>)
    requires n >= 2 && PoolSize(n) <= TWO_16
    ensures |Run(n, ops).live| <= n
  {
    RunIsBacked(n, ops);
  }
}
