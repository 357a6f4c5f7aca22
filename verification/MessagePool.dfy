/**
  The text pool of src/MessageStore.cpp: a bump allocator that wraps around inside one byte array.
  N is MAX_MESSAGES_SAVED; the pool has room for N texts of the largest size.
*/
module MessagePool {
  import opened Words

  const MAX_MESSAGE_SIZE := 220

  type byte = x: int | 0 <= x < 256

  /** The pool's bytes and write position; no bytes at all when its allocation failed. */
  datatype Pool = Pool(mem: seq<byte>, pos: nat)

  function PoolSize(n: nat): nat { n * MAX_MESSAGE_SIZE }

  function Fresh(n: nat): Pool { Pool(seq(PoolSize(n), _ => 0), 0) }

  function Min(a: nat, b: nat): nat { if a <= b then a else b }

  /** A text as stored: at most 219 bytes. */
  function Capped(src: seq<byte>): seq<byte> { src[..Min(|src|, MAX_MESSAGE_SIZE - 1)] }

  /** Where the next text of `len` bytes and its terminator go. */
  function Place(p: Pool, len: nat): nat {
    if p.pos + len + 1 >= |p.mem| then 0 else p.pos
  }

  function Write(mem: seq<byte>, at: nat, text: seq<byte>): seq<byte>
    requires at + |text| + 1 <= |mem|
  {
    mem[..at] + text + [0] + mem[at + |text| + 1..]
  }

  ghost predicate PoolOk(p: Pool) { p.mem == [] || |p.mem| >= MAX_MESSAGE_SIZE }

  function Stored(p: Pool, src: seq<byte>): Pool
    requires PoolOk(p)
  {
    if p.mem == [] then p
    else
      var text := Capped(src);
      var at := Place(p, |text|);
      Pool(Write(p.mem, at, text), at + |text| + 1)
  }

  /** The offset handed out, cut to 16 bits. */
  function StoredAt(p: Pool, src: seq<byte>): u16
    requires PoolOk(p)
  {
    if p.mem == [] then 0 else Place(p, |Capped(src)|) % TWO_16
  }

  /** The C string at the front of a byte sequence. */
  function CString(s: seq<byte>): seq<byte> {
    if s == [] || s[0] == 0 then [] else [s[0]] + CString(s[1..])
  }

  function TextAt(p: Pool, offset: nat): seq<byte> {
    if offset >= |p.mem| then [] else CString(p.mem[offset..])
  }

  lemma CStringOf(text: seq<byte>, rest: seq<byte>)
    requires 0 !in text
    ensures CString(text + [0] + rest) == text
  {
    var s := text + [0] + rest;
    if text != [] {
      assert s[1..] == text[1..] + [0] + rest;
      CStringOf(text[1..], rest);
    }
  }

  // ---------------------------------------------------------------- which texts survive

  /** A text handed to the pool: where it was put, and in which lap around the pool. */
  datatype Entry = Entry(off: nat, text: seq<byte>, lap: nat)

  /** The pool with the history of everything stored in it. */
  datatype Tracked = Tracked(pool: Pool, hist: seq<Entry>, lap: nat)

  function Store(t: Tracked, src: seq<byte>): Tracked
    requires PoolOk(t.pool)
  {
    var text := Capped(src);
    var at := Place(t.pool, |text|);
    var lap := if at < t.pool.pos then t.lap + 1 else t.lap;
    Tracked(Stored(t.pool, src), t.hist + [Entry(at, text, lap)], lap)
  }

  function End(e: Entry): nat { e.off + |e.text| + 1 }

  /** The entry's bytes and terminator are in place. */
  ghost predicate Intact(p: Pool, e: Entry) {
    End(e) <= |p.mem| && p.mem[e.off..End(e)] == e.text + [0]
  }

  /** Entry of age `age` (1 is the newest): this lap's entries end before the write position and
      last lap's start after it, no further away than their age allows. */
  ghost predicate Placed(n: nat, t: Tracked, e: Entry, age: nat) {
    && |e.text| < MAX_MESSAGE_SIZE && Intact(t.pool, e)
    && if e.lap == t.lap then
         End(e) <= t.pool.pos <= e.off + MAX_MESSAGE_SIZE * age
       else
         && e.lap + 1 == t.lap && age >= 2
         && t.pool.pos <= MAX_MESSAGE_SIZE * (age - 1)
         && t.pool.pos + PoolSize(n) <= e.off + MAX_MESSAGE_SIZE * (age + 1)
  }

  ghost predicate Recent(n: nat, hist: seq<Entry>, i: int) {
    0 <= i < |hist| && |hist| - i <= n - 1
  }

  ghost predicate Before(a: Entry, b: Entry) {
    a.lap < b.lap || (a.lap == b.lap && End(a) <= b.off)
  }

  /** The newest N - 1 entries are placed, and in order within each lap. */
  ghost predicate Inv(n: nat, t: Tracked) {
    && n >= 2 && |t.pool.mem| == PoolSize(n) && t.pool.pos < PoolSize(n)
    && (forall i :: Recent(n, t.hist, i) ==> Placed(n, t, t.hist[i], |t.hist| - i))
    && (forall i, j :: Recent(n, t.hist, i) && i < j < |t.hist| ==> Before(t.hist[i], t.hist[j]))
  }

  /** Writing elsewhere leaves an entry's bytes alone. */
  lemma WriteElsewhere(p: Pool, at: nat, text: seq<byte>, pos: nat, e: Entry)
    requires Intact(p, e) && at + |text| + 1 <= |p.mem|
    requires End(e) <= at || at + |text| + 1 <= e.off
    ensures Intact(Pool(Write(p.mem, at, text), pos), e)
  {
    var mem := Write(p.mem, at, text);
    assert mem[e.off..End(e)] == p.mem[e.off..End(e)];
  }

  lemma WriteHere(p: Pool, at: nat, text: seq<byte>, pos: nat, lap: nat)
    requires at + |text| + 1 <= |p.mem|
    ensures Intact(Pool(Write(p.mem, at, text), pos), Entry(at, text, lap))
  {
  }

  /** An entry that stays among the newest N - 1 is not touched by the next store. */
  lemma StoreKeepsPlaced(n: nat, t: Tracked, src: seq<byte>, e: Entry, age: nat)
    requires n >= 2 && |t.pool.mem| == PoolSize(n) && t.pool.pos < PoolSize(n)
    requires 1 <= age && age + 1 <= n - 1 && Placed(n, t, e, age)
    ensures Placed(n, Store(t, src), e, age + 1)
  {
    var text := Capped(src);
    var at := Place(t.pool, |text|);
    WriteElsewhere(t.pool, at, text, at + |text| + 1, e);
  }

  /** The newest entry is placed. */
  lemma NewIsPlaced(n: nat, t: Tracked, src: seq<byte>)
    requires Inv(n, t)
    ensures var t' := Store(t, src); Placed(n, t', t'.hist[|t.hist|], 1) && t'.pool.pos < PoolSize(n)
  {
    var text := Capped(src);
    var at := Place(t.pool, |text|);
    WriteHere(t.pool, at, text, at + |text| + 1, Store(t, src).lap);
  }

  /** Whatever is placed before the store comes before it in the pool, or belongs to an earlier lap. */
  lemma NewComesAfter(n: nat, t: Tracked, src: seq<byte>, e: Entry, age: nat)
    requires Inv(n, t) && 1 <= age <= n - 2 && Placed(n, t, e, age)
    ensures Before(e, Store(t, src).hist[|t.hist|])
  {
  }

  lemma {:induction false} StoreKeepsInv(n: nat, t: Tracked, src: seq<byte>)
    requires Inv(n, t)
    ensures Inv(n, Store(t, src))
  {
    var t' := Store(t, src);
    var last := |t.hist|;
    NewIsPlaced(n, t, src);
    hide Placed, Place, Write, Before;
    forall i | Recent(n, t'.hist, i) ensures Placed(n, t', t'.hist[i], |t'.hist| - i) {
      if i < last {
        assert Recent(n, t.hist, i);
        StoreKeepsPlaced(n, t, src, t.hist[i], last - i);
      }
    }
    forall i, j | Recent(n, t'.hist, i) && i < j < |t'.hist| ensures Before(t'.hist[i], t'.hist[j]) {
      assert Recent(n, t.hist, i);
      if j == last {
        NewComesAfter(n, t, src, t.hist[i], last - i);
      }
    }
  }

  /** A pool just reset, and what it has after a series of stores. */
  function StoreAll(n: nat, srcs: seq<seq<byte>>): (t: Tracked)
    requires n >= 1
    ensures PoolOk(t.pool)
  {
    if srcs == [] then Tracked(Fresh(n), [], 0)
    else Store(StoreAll(n, srcs[..|srcs| - 1]), srcs[|srcs| - 1])
  }

  lemma {:induction false} StoreAllInv(n: nat, srcs: seq<seq<byte>>)
    requires n >= 2
    ensures Inv(n, StoreAll(n, srcs))
    ensures |StoreAll(n, srcs).hist| == |srcs|
    ensures forall i :: 0 <= i < |srcs| ==> StoreAll(n, srcs).hist[i].text == Capped(srcs[i])
  {
    if srcs != [] {
      var before := srcs[..|srcs| - 1];
      StoreAllInv(n, before);
      StoreKeepsInv(n, StoreAll(n, before), srcs[|srcs| - 1]);
    }
  }

  lemma IntactReadsBack(p: Pool, e: Entry)
    requires Intact(p, e) && 0 !in e.text
    ensures TextAt(p, e.off) == e.text
  {
    assert p.mem[e.off..] == e.text + [0] + p.mem[End(e)..];
    CStringOf(e.text, p.mem[End(e)..]);
  }

  /** For any series of texts of any lengths, through every wrap: the newest N - 1 lie in disjoint
      stretches of the pool with every byte intact, and each NUL-free one reads back as stored. */
  lemma NewestTextsSurvive(n: nat, srcs: seq<seq<byte>>)
    requires n >= 2
    ensures var t := StoreAll(n, srcs);
            && |t.hist| == |srcs|
            && (forall i :: 0 <= i < |srcs| && |srcs| - i <= n - 1 ==>
                  t.hist[i].text == Capped(srcs[i]) && Intact(t.pool, t.hist[i]))
            && (forall i, j :: 0 <= i < j < |srcs| && |srcs| - i <= n - 1 ==>
                  End(t.hist[i]) <= t.hist[j].off || End(t.hist[j]) <= t.hist[i].off)
            && (forall i :: 0 <= i < |srcs| && |srcs| - i <= n - 1 && 0 !in Capped(srcs[i]) ==>
                  TextAt(t.pool, t.hist[i].off) == Capped(srcs[i]))
  {
    StoreAllInv(n, srcs);
    var t := StoreAll(n, srcs);
    forall i | 0 <= i < |srcs| && |srcs| - i <= n - 1
      ensures Intact(t.pool, t.hist[i])
      ensures 0 !in Capped(srcs[i]) ==> TextAt(t.pool, t.hist[i].off) == Capped(srcs[i])
    {
      assert Recent(n, t.hist, i) && Placed(n, t, t.hist[i], |t.hist| - i);
      if 0 !in t.hist[i].text {
        IntactReadsBack(t.pool, t.hist[i]);
      }
    }
    forall i, j | 0 <= i < j < |srcs| && |srcs| - i <= n - 1
      ensures End(t.hist[i]) <= t.hist[j].off || End(t.hist[j]) <= t.hist[i].off
    {
      assert Recent(n, t.hist, i) && Placed(n, t, t.hist[i], |t.hist| - i);
      assert Recent(n, t.hist, j) && Placed(n, t, t.hist[j], |t.hist| - j);
    }
  }

  // ---------------------------------------------------------------- which texts are never touched

  ghost predicate Apart(a: Entry, b: Entry) { End(a) <= b.off || End(b) <= a.off }

  /** No later store reached into entry i's stretch. */
  ghost predicate Clear(hist: seq<Entry>, i: nat)
    requires i < |hist|
  {
    forall j :: i < j < |hist| ==> Apart(hist[i], hist[j])
  }

  /** No text of a later lap ends beyond entry i's start. */
  ghost predicate LaterLapsEndBefore(hist: seq<Entry>, i: nat)
    requires i < |hist|
  {
    forall j :: i < j < |hist| && hist[j].lap != hist[i].lap ==> End(hist[j]) <= hist[i].off
  }

  /** A lap's texts are packed one after the other, from offset 0. */
  ghost predicate Packed(t: Tracked) {
    && (forall j :: 0 < j < |t.hist| && t.hist[j].off != 0 ==>
          t.hist[j].lap == t.hist[j - 1].lap && t.hist[j].off == End(t.hist[j - 1]))
    && (t.hist != [] ==> t.hist[0].off == 0)
    && (forall i, j :: 0 <= i < j < |t.hist| ==> Before(t.hist[i], t.hist[j]))
    && if t.hist == [] then t.pool.pos == 0
       else t.hist[|t.hist| - 1].lap == t.lap && End(t.hist[|t.hist| - 1]) == t.pool.pos
  }

  lemma BeforeLast(a: Entry, last: Entry, b: Entry)
    requires a == last || Before(a, last)
    requires b.lap > last.lap || (b.lap == last.lap && b.off == End(last))
    ensures Before(a, b)
  {
  }

  lemma StoreKeepsPacked(t: Tracked, src: seq<byte>)
    requires PoolOk(t.pool) && t.pool.mem != [] && Packed(t)
    ensures Packed(Store(t, src))
  {
    var t' := Store(t, src);
    hide Before, Capped, Write;
    if t.hist != [] {
      var last := |t.hist| - 1;
      forall i | 0 <= i <= last ensures Before(t'.hist[i], t'.hist[last + 1]) {
        BeforeLast(t.hist[i], t.hist[last], t'.hist[last + 1]);
      }
    }
  }

  lemma {:induction false} StoreAllPacked(n: nat, srcs: seq<seq<byte>>)
    requires n >= 2
    ensures Packed(StoreAll(n, srcs))
  {
    hide Packed, Inv, Store;
    if srcs == [] {
      NothingPacked(n);
    } else {
      StoreAllPacked(n, srcs[..|srcs| - 1]);
      StoreAllInv(n, srcs[..|srcs| - 1]);
      PoolOfInv(n, StoreAll(n, srcs[..|srcs| - 1]));
      StoreKeepsPacked(StoreAll(n, srcs[..|srcs| - 1]), srcs[|srcs| - 1]);
    }
  }

  lemma NothingPacked(n: nat)
    requires n >= 2
    ensures Packed(StoreAll(n, []))
  {
  }

  lemma PoolOfInv(n: nat, t: Tracked)
    requires Inv(n, t)
    ensures t.pool.mem != []
  {
  }

  /** Where later texts go past an entry's start, one of them lands on that start. */
  lemma {:induction false} SomeTextHits(t: Tracked, i: nat, j: nat) returns (k: nat)
    requires Packed(t) && i < j < |t.hist| && t.hist[j].lap != t.hist[i].lap && End(t.hist[j]) > t.hist[i].off
    ensures i < k <= j && !Apart(t.hist[i], t.hist[k])
    decreases j
  {
    if t.hist[j].off <= t.hist[i].off {
      k := j;
    } else {
      k := SomeTextHits(t, i, j - 1);
    }
  }

  /** Of any age: a text's stretch is never touched again exactly while no text of a later lap ends
      beyond its start. */
  lemma ClearIff(n: nat, srcs: seq<seq<byte>>, i: nat)
    requires n >= 2 && i < |srcs|
    ensures |StoreAll(n, srcs).hist| == |srcs|
    ensures Clear(StoreAll(n, srcs).hist, i) <==> LaterLapsEndBefore(StoreAll(n, srcs).hist, i)
  {
    StoreAllInv(n, srcs);
    StoreAllPacked(n, srcs);
    var t := StoreAll(n, srcs);
    if Clear(t.hist, i) {
      forall j | i < j < |t.hist| && t.hist[j].lap != t.hist[i].lap ensures End(t.hist[j]) <= t.hist[i].off {
        if End(t.hist[j]) > t.hist[i].off { var k := SomeTextHits(t, i, j); }
      }
    } else {
      var j :| i < j < |t.hist| && !Apart(t.hist[i], t.hist[j]);
      assert Before(t.hist[i], t.hist[j]);
    }
  }

  /** A text never touched is intact. */
  lemma {:induction false} ClearIsIntact(n: nat, srcs: seq<seq<byte>>, i: nat)
    requires n >= 2 && i < |srcs| == |StoreAll(n, srcs).hist| && Clear(StoreAll(n, srcs).hist, i)
    ensures Intact(StoreAll(n, srcs).pool, StoreAll(n, srcs).hist[i])
    decreases |srcs|
  {
    hide Inv, Intact, Write, Capped;
    var before, src := srcs[..|srcs| - 1], srcs[|srcs| - 1];
    var t, t' := StoreAll(n, before), StoreAll(n, srcs);
    StoreAllInv(n, before);
    NewIsPlaced(n, t, src);
    if i == |before| {
      assert Placed(n, t', t'.hist[i], 1);
    } else {
      forall j | i < j < |t.hist| ensures Apart(t.hist[i], t.hist[j]) {
        assert t.hist[i] == t'.hist[i] && t.hist[j] == t'.hist[j];
      }
      ClearIsIntact(n, before, i);
      StoreElsewhere(n, t, src, t.hist[i]);
    }
  }

  lemma StoreElsewhere(n: nat, t: Tracked, src: seq<byte>, e: Entry)
    requires Inv(n, t) && Intact(t.pool, e) && Apart(e, Store(t, src).hist[|t.hist|])
    ensures Intact(Store(t, src).pool, e)
  {
    var text := Capped(src);
    var at := Place(t.pool, |text|);
    WriteElsewhere(t.pool, at, text, at + |text| + 1, e);
  }

  /** The newest N - 1 are never touched. */
  lemma NewestAreClear(n: nat, srcs: seq<seq<byte>>, i: nat)
    requires n >= 2 && i < |srcs| && |srcs| - i <= n - 1
    ensures |StoreAll(n, srcs).hist| == |srcs| && Clear(StoreAll(n, srcs).hist, i)
  {
    NewestTextsSurvive(n, srcs);
  }

  // ---------------------------------------------------------------- the N-th newest text

  /** In any lap, the store that makes a text the N-th newest stays clear of it exactly when it is in
      the text's own lap or ends before the text's start. */
  lemma NextStoreClearIff(n: nat, t: Tracked, src: seq<byte>, e: Entry)
    requires Inv(n, t) && Placed(n, t, e, n - 1)
    ensures var t' := Store(t, src);
            Apart(e, t'.hist[|t.hist|]) <==> t'.lap == e.lap || t'.pool.pos <= e.off
  {
  }

  lemma ClearSnoc(hist: seq<Entry>, e: Entry, i: nat)
    requires i < |hist|
    ensures Clear(hist + [e], i) <==> Clear(hist, i) && Apart(hist[i], e)
  {
    var longer := hist + [e];
    assert longer[|hist|] == e;
    if Clear(longer, i) {
      forall j | i < j < |hist| ensures Apart(hist[i], hist[j]) { assert Apart(longer[i], longer[j]); }
    }
  }

  lemma RecentIsPlaced(n: nat, t: Tracked, i: nat)
    requires Inv(n, t) && i < |t.hist| && |t.hist| - i <= n - 1
    ensures Placed(n, t, t.hist[i], |t.hist| - i)
  {
    assert Recent(n, t.hist, i);
  }

  lemma StoreExtends(t: Tracked, src: seq<byte>)
    requires PoolOk(t.pool)
    ensures |Store(t, src).hist| == |t.hist| + 1 && Store(t, src).hist == t.hist + [Store(t, src).hist[|t.hist|]]
  {
  }

  lemma LastStore(n: nat, srcs: seq<seq<byte>>)
    requires n >= 1 && srcs != []
    ensures StoreAll(n, srcs) == Store(StoreAll(n, srcs[..|srcs| - 1]), srcs[|srcs| - 1])
  {
  }

  /** So the N-th newest text of any run survives exactly then. */
  lemma NthNewestSurvivesIff(n: nat, srcs: seq<seq<byte>>)
    requires n >= 2 && |srcs| >= n
    ensures var t, i := StoreAll(n, srcs), |srcs| - n;
            && |t.hist| == |srcs|
            && (Clear(t.hist, i) <==> t.lap == t.hist[i].lap || t.pool.pos <= t.hist[i].off)
            && (Clear(t.hist, i) ==> Intact(t.pool, t.hist[i]))
  {
    hide *;
    var before, src, i := srcs[..|srcs| - 1], srcs[|srcs| - 1], |srcs| - n;
    var t, t' := StoreAll(n, before), StoreAll(n, srcs);
    StoreAllInv(n, before);
    StoreAllInv(n, srcs);
    LastStore(n, srcs);
    StoreExtends(t, src);
    RecentIsPlaced(n, t, i);
    NextStoreClearIff(n, t, src, t.hist[i]);
    NewestAreClear(n, before, i);
    ClearSnoc(t.hist, t'.hist[|t.hist|], i);
    if Clear(t'.hist, i) { ClearIsIntact(n, srcs, i); }
  }

  // ---------------------------------------------------------------- the first N texts

  /** Pool bytes that the texts take, terminators included. */
  function Total(srcs: seq<seq<byte>>): nat {
    if srcs == [] then 0 else Total(srcs[..|srcs| - 1]) + |Capped(srcs[|srcs| - 1])| + 1
  }

  ghost predicate SomeShort(srcs: seq<seq<byte>>) {
    exists i :: 0 <= i < |srcs| && |Capped(srcs[i])| < MAX_MESSAGE_SIZE - 1
  }

  lemma {:induction false} FullIffNoneShort(srcs: seq<seq<byte>>)
    ensures Total(srcs) <= MAX_MESSAGE_SIZE * |srcs|
    ensures Total(srcs) == MAX_MESSAGE_SIZE * |srcs| <==> !SomeShort(srcs)
  {
    if srcs != [] {
      var before, src := srcs[..|srcs| - 1], srcs[|srcs| - 1];
      FullIffNoneShort(before);
      if SomeShort(before) {
        var i :| 0 <= i < |before| && |Capped(before[i])| < MAX_MESSAGE_SIZE - 1;
        assert srcs[i] == before[i];
      } else if !SomeShort(srcs) {
        assert |Capped(srcs[|srcs| - 1])| >= MAX_MESSAGE_SIZE - 1;
      }
    }
  }

  /** While they fit with a byte to spare, texts go one after the other without a wrap. */
  lemma {:induction false} FirstLap(n: nat, srcs: seq<seq<byte>>)
    requires n >= 2 && Total(srcs) < PoolSize(n)
    ensures var t := StoreAll(n, srcs);
            && |t.hist| == |srcs| && t.pool.pos == Total(srcs) && t.lap == 0
            && forall i :: 0 <= i < |srcs| ==> t.hist[i].lap == 0
  {
    StoreAllInv(n, srcs);
    if srcs != [] {
      var before := srcs[..|srcs| - 1];
      FirstLap(n, before);
      StoreAllInv(n, before);
      hide Capped, Write, Inv;
      PoolLength(n, StoreAll(n, before));
    }
  }

  lemma PoolLength(n: nat, t: Tracked)
    requires Inv(n, t)
    ensures |t.pool.mem| == PoolSize(n) && t.pool.mem != []
  {
  }

  /** The first N texts of a reset pool lie in disjoint stretches exactly when one of them is shorter
      than the full 219 bytes: the wrap test is >=, not >. */
  lemma FirstNDisjointIff(n: nat, srcs: seq<seq<byte>>)
    requires n >= 2 && |srcs| == n
    ensures var t := StoreAll(n, srcs);
            && |t.hist| == n
            && ((forall i, j :: 0 <= i < j < n ==> Apart(t.hist[i], t.hist[j])) <==> SomeShort(srcs))
            && (SomeShort(srcs) ==> forall i :: 0 <= i < n ==> Clear(t.hist, i))
            && (!SomeShort(srcs) ==> t.hist[0].off == t.hist[n - 1].off == 0)
  {
    StoreAllInv(n, srcs);
    StoreAllPacked(n, srcs);
    FullIffNoneShort(srcs);
    var t := StoreAll(n, srcs);
    if SomeShort(srcs) {
      FirstLap(n, srcs);
      forall i, j | 0 <= i < j < n ensures Apart(t.hist[i], t.hist[j]) {
        assert Before(t.hist[i], t.hist[j]);
      }
    } else {
      LastWraps(n, srcs);
      assert !Apart(t.hist[0], t.hist[n - 1]);
    }
  }

  lemma LastWraps(n: nat, srcs: seq<seq<byte>>)
    requires n >= 2 && |srcs| == n && Total(srcs) == PoolSize(n)
    ensures |StoreAll(n, srcs).hist| == n && StoreAll(n, srcs).hist[n - 1].off == 0
  {
    var before := srcs[..n - 1];
    FirstLap(n, before);
    StoreAllInv(n, before);
    hide Capped, Write, Inv;
    PoolLength(n, StoreAll(n, before));
  }

  /** When none of the first N is short, the oldest reads back as the newest. */
  lemma NthNewestIsLost(n: nat, srcs: seq<seq<byte>>)
    requires n >= 2 && |srcs| == n && !SomeShort(srcs) && 0 !in Capped(srcs[n - 1])
    ensures var t := StoreAll(n, srcs);
            |t.hist| == n && TextAt(t.pool, t.hist[0].off) == Capped(srcs[n - 1])
  {
    FirstNDisjointIff(n, srcs);
    StoreAllInv(n, srcs);
    var t := StoreAll(n, srcs);
    assert Recent(n, t.hist, n - 1) && Placed(n, t, t.hist[n - 1], 1);
    IntactReadsBack(t.pool, t.hist[n - 1]);
  }

  /** A pool of up to 65536 bytes fits the 16-bit offsets; in a larger one they wrap. */
  lemma OffsetIsExact(n: nat, t: Tracked, src: seq<byte>)
    requires Inv(n, t)
    ensures StoredAt(t.pool, src) == Store(t, src).hist[|t.hist|].off
            <==> Place(t.pool, |Capped(src)|) < TWO_16
    ensures PoolSize(n) <= TWO_16 ==> Place(t.pool, |Capped(src)|) < TWO_16
  {
  }
}
