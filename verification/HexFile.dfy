/**
  Intel HEX from the writer's side: how an image is put into records, and that the reader of
  bin/uf2conv.py gets exactly that image back.
*/
module HexFile {
  import opened Uf2

  // ---------------------------------------------------------------- writing records

  function SumOf(bytes: seq<byte>): nat {
    if bytes == [] then 0 else SumOf(bytes[..|bytes| - 1]) + bytes[|bytes| - 1]
  }

  /** A record's bytes and the checksum that makes their sum a multiple of 256. */
  function Line(body: seq<byte>): Record {
    body + [(256 - SumOf(body) % 256) % 256]
  }

  lemma LineSumsToZero(body: seq<byte>)
    ensures SumOf(Line(body)) % 256 == 0
  {
    assert Line(body)[..|body|] == body;
  }

  /** Type 0: data at a 16-bit offset, high byte first. */
  function DataLine(offset: nat, data: seq<byte>): Record
    requires offset < 0x1_0000 && |data| < 256
  {
    Line([|data|, offset / 256, offset % 256, 0] + data)
  }

  /** Type 4: the upper half of the addresses that follow. */
  function LinearLine(upper: nat): Record
    requires upper < 0x1_0000
  {
    Line([2, 0, 0, 4, upper / 256, upper % 256])
  }

  /** Type 2: a sixteenth of the base of the addresses that follow. */
  function SegmentLine(segment: nat): Record
    requires segment < 0x1_0000
  {
    Line([2, 0, 0, 2, segment / 256, segment % 256])
  }

  /** Type 1: the end of the file. */
  function EndLine(): Record { Line([0, 0, 0, 1]) }

  /** Data inside one 64 KiB window. */
  datatype Group = Linear(upper: nat, offset: nat, data: seq<byte>) | Segment(segment: nat, offset: nat, data: seq<byte>)

  predicate Fits(g: Group) {
    (if g.Linear? then g.upper else g.segment) < 0x1_0000 && g.offset + |g.data| <= 0x1_0000
  }

  /** The address of a group's first byte. */
  function StartOf(g: Group): nat {
    if g.Linear? then 0x1_0000 * g.upper + g.offset else 16 * g.segment + g.offset
  }

  /** Data in records of 16 bytes, the last one shorter. */
  function DataLines(offset: nat, data: seq<byte>): seq<Record>
    requires offset + |data| <= 0x1_0000
    decreases |data|
  {
    if data == [] then []
    else
      var n := if |data| < 16 then |data| else 16;
      [DataLine(offset, data[..n])] + DataLines(offset + n, data[n..])
  }

  /** The record that sets the upper address of a group. */
  function HeadLine(g: Group): Record
    requires Fits(g)
  {
    if g.Linear? then LinearLine(g.upper) else SegmentLine(g.segment)
  }

  function GroupLines(g: Group): seq<Record>
    requires Fits(g)
  {
    [HeadLine(g)] + DataLines(g.offset, g.data)
  }

  function HexFile(groups: seq<Group>): seq<Record>
    requires forall g :: g in groups ==> Fits(g)
  {
    if groups == [] then [EndLine()] else GroupLines(groups[0]) + HexFile(groups[1..])
  }

  /** What the groups place: byte i of the data at i past the start. */
  function Placed(groups: seq<Group>): seq<Write> {
    if groups == [] then []
    else
      var g := groups[0];
      seq(|g.data|, i requires 0 <= i < |g.data| => Write(StartOf(g) + i, g.data[i])) + Placed(groups[1..])
  }

  // ---------------------------------------------------------------- reading them back

  lemma HalvesOf(x: nat)
    requires x < 0x1_0000
    ensures x / 256 < 256 && x / 256 * 256 + x % 256 == x
  {
  }

  /** One record in front of others. */
  lemma ConsMeans(rec: Record, rest: seq<Record>, upper: nat)
    ensures Acceptable([rec] + rest) <==> RecordOk(rec) && (rec[3] == 1 || Acceptable(rest))
    ensures Acceptable([rec] + rest) ==>
              Meaning([rec] + rest, upper) ==
              if rec[3] == 1 then [] else Effect(rec, upper).1 + Meaning(rest, Effect(rec, upper).0)
  {
    assert ([rec] + rest)[1..] == rest;
  }

  /** Which records the script refuses: ones too short to have a type, or their address; and segments whose
      base is no multiple of 65536. */
  lemma RefusedIff(rec: Record)
    ensures !RecordOk(rec) <==> || |rec| < 4 || ((rec[3] == 2 || rec[3] == 4) && |rec| < 6)
                                || (rec[3] == 2 && !(rec[4] % 16 == 0 && rec[5] == 0))
  {
    if |rec| >= 6 { SegmentMultiple((rec[4] as int) * 256 + rec[5] as int); }
  }

  /** Records of other types change nothing. */
  lemma OtherTypesIgnored(rec: Record, rest: seq<Record>, upper: nat)
    requires |rec| >= 4 && rec[3] != 0 && rec[3] != 1 && rec[3] != 2 && rec[3] != 4
    ensures Acceptable([rec] + rest) <==> Acceptable(rest)
    ensures Acceptable(rest) ==> Meaning([rec] + rest, upper) == Meaning(rest, upper)
  {
    ConsMeans(rec, rest, upper);
    if Acceptable(rest) { assert [] + Meaning(rest, upper) == Meaning(rest, upper); }
  }

  lemma DataLineMeans(offset: nat, data: seq<byte>, upper: nat)
    requires offset < 0x1_0000 && |data| < 256
    ensures var rec := DataLine(offset, data);
            RecordOk(rec) && rec[3] == 0 && Effect(rec, upper) == (upper, WritesAt(upper + offset, data))
  {
    var body := [|data|, offset / 256, offset % 256, 0] + data;
    var rec := DataLine(offset, data);
    assert rec[..|body|] == body;
    assert rec[4..|rec| - 1] == data;
    HalvesOf(offset);
  }

  lemma WritesSplit(addr: nat, data: seq<byte>, n: nat)
    requires n <= |data|
    ensures WritesAt(addr, data) == WritesAt(addr, data[..n]) + WritesAt(addr + n, data[n..])
  {
  }

  lemma Regroup(a: seq<Write>, b: seq<Write>, c: seq<Write>)
    ensures a + (b + c) == (a + b) + c
  {
  }

  lemma {:induction false} DataLinesUnfold(offset: nat, data: seq<byte>, rest: seq<Record>) returns (n: nat)
    requires offset + |data| <= 0x1_0000 && data != []
    ensures 0 < n <= |data| && n <= 16 && offset < 0x1_0000
    ensures DataLines(offset, data) + rest == [DataLine(offset, data[..n])] + (DataLines(offset + n, data[n..]) + rest)
  {
    n := if |data| < 16 then |data| else 16;
  }

  lemma NoDataLines(offset: nat, upper: nat, rest: seq<Record>)
    requires offset <= 0x1_0000
    ensures DataLines(offset, []) + rest == rest && WritesAt(upper + offset, []) == []
  {
  }

  lemma {:induction false} DataLinesMean(offset: nat, data: seq<byte>, upper: nat, rest: seq<Record>)
    requires offset + |data| <= 0x1_0000
    ensures Acceptable(DataLines(offset, data) + rest) <==> Acceptable(rest)
    ensures Acceptable(rest) ==>
              Meaning(DataLines(offset, data) + rest, upper) == WritesAt(upper + offset, data) + Meaning(rest, upper)
    decreases |data|
  {
    hide *;
    if data == [] {
      NoDataLines(offset, upper, rest);
      if Acceptable(rest) { assert [] + Meaning(rest, upper) == Meaning(rest, upper); }
    } else {
      var n := DataLinesUnfold(offset, data, rest);
      var line, after := DataLine(offset, data[..n]), DataLines(offset + n, data[n..]) + rest;
      DataLineMeans(offset, data[..n], upper);
      ConsMeans(line, after, upper);
      DataLinesMean(offset + n, data[n..], upper, rest);
      if Acceptable(rest) {
        WritesSplit(upper + offset, data, n);
        Regroup(WritesAt(upper + offset, data[..n]), WritesAt(upper + offset + n, data[n..]), Meaning(rest, upper));
      }
    }
  }

  /** The script's assertion on segments: the base must be a multiple of 65536. */
  predicate SegmentOk(g: Group) { g.Segment? ==> g.segment % 4096 == 0 }

  lemma LinearLineMeans(upper: nat, before: nat)
    requires upper < 0x1_0000
    ensures var rec := LinearLine(upper); |rec| >= 4 && RecordOk(rec) && rec[3] == 4 && Effect(rec, before) == (0x1_0000 * upper, [])
  {
    hide SumOf;
    HalvesOf(upper);
  }

  lemma SegmentLineMeans(segment: nat, before: nat)
    requires segment < 0x1_0000
    ensures var rec := SegmentLine(segment);
            && |rec| >= 4 && rec[3] == 2 && (RecordOk(rec) <==> segment % 4096 == 0)
            && (RecordOk(rec) ==> Effect(rec, before) == (16 * segment, []))
  {
    hide SumOf;
    HalvesOf(segment);
    SegmentMultiple(segment);
    var rec := SegmentLine(segment);
    assert rec[4] == segment / 256 && rec[5] == segment % 256;
    assert SegmentBase(rec) == 16 * segment;
    hide SegmentLine, SegmentBase;
  }

  lemma SegmentMultiple(segment: nat)
    ensures 16 * segment % 0x1_0000 == 0 <==> segment % 4096 == 0
  {
  }

  lemma HeadLineMeans(g: Group, upper: nat)
    requires Fits(g)
    ensures var rec := HeadLine(g);
            && |rec| >= 4 && rec[3] != 1 && (RecordOk(rec) <==> SegmentOk(g)) && StartOf(g) >= g.offset
            && (RecordOk(rec) ==> Effect(rec, upper) == (StartOf(g) - g.offset, []))
  {
    hide LinearLine, SegmentLine, RecordOk, Effect;
    if g.Linear? { LinearLineMeans(g.upper, upper); } else { SegmentLineMeans(g.segment, upper); }
  }

  lemma {:induction false} GroupUnfolds(g: Group, rest: seq<Record>)
    requires Fits(g)
    ensures GroupLines(g) + rest == [HeadLine(g)] + (DataLines(g.offset, g.data) + rest)
  {
    hide DataLines, LinearLine, SegmentLine;
  }

  lemma FitsOffset(g: Group)
    requires Fits(g)
    ensures g.offset + |g.data| <= 0x1_0000
  {
  }

  lemma {:induction false} GroupMeans(g: Group, upper: nat, rest: seq<Record>)
    requires Fits(g)
    ensures StartOf(g) >= g.offset
    ensures Acceptable(GroupLines(g) + rest) <==> SegmentOk(g) && Acceptable(rest)
    ensures SegmentOk(g) && Acceptable(rest) ==>
              Meaning(GroupLines(g) + rest, upper) == WritesAt(StartOf(g), g.data) + Meaning(rest, StartOf(g) - g.offset)
  {
    hide *;
    GroupUnfolds(g, rest);
    HeadLineMeans(g, upper);
    FitsOffset(g);
    var window := StartOf(g) - g.offset;
    var after := DataLines(g.offset, g.data) + rest;
    ConsMeans(HeadLine(g), after, upper);
    DataLinesMean(g.offset, g.data, window, rest);
    if SegmentOk(g) && Acceptable(rest) {
      assert [] + Meaning(after, window) == Meaning(after, window);
    }
  }

  lemma EndMeans(upper: nat, rest: seq<Record>)
    ensures Acceptable([EndLine()] + rest) && Meaning([EndLine()] + rest, upper) == []
  {
  }

  lemma RegroupLines(a: seq<Record>, b: seq<Record>, c: seq<Record>)
    ensures (a + b) + c == a + (b + c)
  {
  }

  lemma {:induction false} HexFileUnfolds(groups: seq<Group>, rest: seq<Record>)
    requires groups != [] && forall g :: g in groups ==> Fits(g)
    ensures HexFile(groups) + rest == GroupLines(groups[0]) + (HexFile(groups[1..]) + rest)
  {
    hide GroupLines, Fits;
    RegroupLines(GroupLines(groups[0]), HexFile(groups[1..]), rest);
  }

  lemma {:induction false} PlacedUnfolds(groups: seq<Group>)
    requires groups != []
    ensures Placed(groups) == WritesAt(StartOf(groups[0]), groups[0].data) + Placed(groups[1..])
  {
    hide StartOf;
    assert Placed(groups) == WritesAt(StartOf(groups[0]), groups[0].data) + Placed(groups[1..]);
  }

  lemma AllSegmentsOk(groups: seq<Group>)
    requires groups != []
    ensures (forall g :: g in groups ==> SegmentOk(g)) <==>
              SegmentOk(groups[0]) && forall g :: g in groups[1..] ==> SegmentOk(g)
  {
    hide SegmentOk;
    assert groups == [groups[0]] + groups[1..];
  }

  lemma NoGroups(upper: nat, rest: seq<Record>)
    ensures HexFile([]) + rest == [EndLine()] + rest && Placed([]) == []
  {
  }

  /** Reading back what was written: groups of data at linear or segmented addresses, in any order and
      number, are accepted exactly when every segment base is a multiple of 65536, and then mean exactly
      byte i of each group at i past its start. Whatever follows the end record is ignored. */
  lemma {:induction false} WrittenIsMeant(groups: seq<Group>, upper: nat, rest: seq<Record>)
    requires forall g :: g in groups ==> Fits(g)
    ensures Acceptable(HexFile(groups) + rest) <==> forall g :: g in groups ==> SegmentOk(g)
    ensures Acceptable(HexFile(groups) + rest) ==> Meaning(HexFile(groups) + rest, upper) == Placed(groups)
    decreases |groups|
  {
    hide *;
    if groups == [] {
      NoGroups(upper, rest);
      EndMeans(upper, rest);
    } else {
      HexFileUnfolds(groups, rest);
      PlacedUnfolds(groups);
      AllSegmentsOk(groups);
      GroupMeans(groups[0], upper, HexFile(groups[1..]) + rest);
      WrittenIsMeant(groups[1..], StartOf(groups[0]) - groups[0].offset, rest);
    }
  }

  // ---------------------------------------------------------------- from an image to a binary

  lemma {:induction false} ContiguousInOrder(start: nat, data: seq<byte>)
    requires data != []
    ensures var pages := PutAll([], WritesAt(start, data));
            pages != [] && InOrder(pages, |pages|)
            && pages[0].addr == PageAddr(start) && pages[|pages| - 1].addr == PageAddr(start + |data| - 1)
    decreases |data|
  {
    var n := |data| - 1;
    var ws := WritesAt(start, data);
    assert ws[..n] == WritesAt(start, data[..n]);
    if n == 0 {
      assert ws[..0] == [] && PutAll([], []) == [];
    } else {
      ContiguousInOrder(start, data[..n]);
      var pages := PutAll([], ws[..n]);
      NextAddress(start + n);
      assert PutAll([], ws) == PutByte(pages, ws[n]);
      hide PutAll;
      PutNextKeepsOrder(pages, ws[n]);
    }
  }

  lemma NextAddress(addr: nat)
    requires addr > 0
    ensures PageAddr(addr) == PageAddr(addr - 1) || PageAddr(addr) == PageAddr(addr - 1) + PAGE
  {
  }

  lemma {:induction false} PutNextKeepsOrder(pages: seq<Page>, w: Write)
    requires pages != [] && InOrder(pages, |pages|)
    requires var last := pages[|pages| - 1].addr; PageAddr(w.addr) == last || PageAddr(w.addr) == last + PAGE
    ensures var pages' := PutByte(pages, w);
            && InOrder(pages', |pages'|) && pages'[0].addr == pages[0].addr
            && pages'[|pages'| - 1].addr == PageAddr(w.addr)
  {
    var pages' := PutByte(pages, w);
    forall i | 0 < i < |pages'| ensures Follows(pages'[i - 1], pages'[i]) {
      if i < |pages| { assert Follows(pages[i - 1], pages[i]); }
    }
  }

  lemma {:induction false} ImageOfWrites(start: nat, data: seq<byte>, x: nat)
    ensures ImageAt(WritesAt(start, data), x) == if start <= x < start + |data| then data[x - start] else 0
    decreases |data|
  {
    if data != [] {
      var n := |data| - 1;
      assert WritesAt(start, data)[..n] == WritesAt(start, data[..n]);
      ImageOfWrites(start, data[..n], x);
    }
  }

  lemma PlacedOne(g: Group)
    ensures Placed([g]) == WritesAt(StartOf(g), g.data)
  {
    assert [g][1..] == [] && Placed([g][1..]) == [];
    assert WritesAt(StartOf(g), g.data) + [] == WritesAt(StartOf(g), g.data);
  }

  /** Records converted to UF2, and that to a binary. */
  function ThereAndBack(recs: seq<Record>, family: u32, base: int): Result<Decoder>
    requires Acceptable(recs) && |PutAll([], Meaning(recs, 0))| < TWO_32
    requires forall i :: 0 <= i < |PutAll([], Meaning(recs, 0))| ==> PutAll([], Meaning(recs, 0))[i].addr < TWO_32
  {
    FromUf2(ToUf2(PutAll([], Meaning(recs, 0)), family), base)
  }

  /** The data `at` bytes into the image, and zeros around it. */
  ghost predicate IsData(image: seq<byte>, at: nat, data: seq<byte>) {
    && |image| >= at + |data| && image[at..at + |data|] == data
    && forall i :: 0 <= i < |image| && !(at <= i < at + |data|) ==> image[i] == 0
  }

  lemma OneGroup(upper: nat, offset: nat, data: seq<byte>) returns (start: nat, ws: seq<Write>)
    requires Fits(Linear(upper, offset, data))
    ensures start == 0x1_0000 * upper + offset && start + |data| <= 0x1_0000_0000 && ws == WritesAt(start, data)
    ensures var recs := HexFile([Linear(upper, offset, data)]); Acceptable(recs) && Meaning(recs, 0) == ws
  {
    hide HexFile, Acceptable, Meaning, Placed, WritesAt;
    var g := Linear(upper, offset, data);
    start := StartOf(g);
    ws := WritesAt(start, data);
    var recs := HexFile([g]);
    assert recs + [] == recs;
    WrittenIsMeant([g], 0, []);
    PlacedOne(g);
  }

  /** An image at any 32-bit address, inside its 64 KiB: written as HEX, converted to UF2 and back, it is
      there byte for byte at its distance from the page it starts in, with zeros before and after, and
      that page's address is recovered. */
  lemma HexImageComesBack(upper: nat, offset: nat, data: seq<byte>, family: u32, base: int)
    requires data != [] && Fits(Linear(upper, offset, data))
    ensures var start := 0x1_0000 * upper + offset;
            var recs := HexFile([Linear(upper, offset, data)]);
            && Acceptable(recs) && Addressable(PutAll([], Meaning(recs, 0)))
            && var r := ThereAndBack(recs, family, base);
               r.Ok? && r.value.appstartaddr == start - start % 256 && IsData(r.value.outp, start % 256, data)
  {
    hide HexFile, Acceptable, Meaning, PutAll, WritesAt, IsImage, Flat, InOrder, PageAddr, IsData, FromUf2, ToUf2;
    var start, ws := OneGroup(upper, offset, data);
    var pages := PutAll([], ws);
    ContiguousInOrder(start, data);
    PagesAddressable(pages, start, data);
    WritesNonEmpty(start, data);
    HexRoundTrip(HexFile([Linear(upper, offset, data)]), family, base);
    ImageOfContiguous(pages, start, data);
  }

  lemma WritesNonEmpty(start: nat, data: seq<byte>)
    requires data != []
    ensures WritesAt(start, data) != []
  {
  }

  lemma {:induction false} PagesAddressable(pages: seq<Page>, start: nat, data: seq<byte>)
    requires data != [] && start + |data| <= 0x1_0000_0000 && pages == PutAll([], WritesAt(start, data))
    requires pages != [] && InOrder(pages, |pages|) && pages[|pages| - 1].addr == PageAddr(start + |data| - 1)
    ensures Addressable(pages)
  {
    hide PutAll;
    AscendingPages(pages, 0);
    forall i | 0 <= i < |pages| ensures pages[i].addr < TWO_32 { AscendingPages(pages, i); }
  }

  lemma {:induction false} AscendingPages(pages: seq<Page>, i: nat)
    requires i < |pages| && InOrder(pages, |pages|)
    ensures pages[i].addr + PAGE * (|pages| - 1 - i) <= pages[|pages| - 1].addr
    decreases |pages| - i
  {
    if i + 1 < |pages| {
      assert Follows(pages[i], pages[i + 1]);
      AscendingPages(pages, i + 1);
    }
  }

  lemma {:induction false} ImageOfContiguous(pages: seq<Page>, start: nat, data: seq<byte>)
    requires data != [] && pages != [] && pages[0].addr == PageAddr(start)
    requires pages[|pages| - 1].addr == PageAddr(start + |data| - 1) && IsImage(pages, WritesAt(start, data))
    ensures var image := Flat(pages, |pages|);
            && PageAddr(start) == start - start % 256
            && IsData(image, start % 256, data)
  {
    hide ImageAt, Flat;
    var image, base := Flat(pages, |pages|), PageAddr(start);
    var ws := WritesAt(start, data);
    assert ws[|data| - 1].addr == start + |data| - 1;
    forall i | 0 <= i < |image| ensures image[i] == if start % 256 <= i < start % 256 + |data| then data[i - start % 256] else 0 {
      ImageOfWrites(start, data, base + i);
      assert image[(base + i) - base] == ImageAt(ws, base + i);
    }
  }
}
