/**
  Firmware image conversion, bin/uf2conv.py: binary to UF2, Intel HEX records to UF2, and UF2 back to
  a flat binary. Values outside 32 bits and the script's failed assertions are `Err`.
*/
module Uf2 {
  const TWO_32: int := 0x1_0000_0000
  const MAGIC_START0: int := 0x0A324655
  const MAGIC_START1: int := 0x9E5D5157
  const MAGIC_END: int := 0x0AB16F30
  const BLOCK := 512
  const PAGE := 256
  const MAX_PADDING := 10 * 1024 * 1024

  type byte = x: int | 0 <= x < 256
  type u32 = x: int | 0 <= x < TWO_32
  type Data = s: seq<byte> | |s| == PAGE witness seq(PAGE, _ => 0)

  datatype Error = StructError | BadMagic | BadSize | OutOfOrder | TooMuchPadding | UnalignedPadding | BadRecord

  datatype Result<T> = Ok(value: T) | Err(error: Error)

  function Zeros(n: nat): seq<byte> { seq(n, _ => 0) }

  // ---------------------------------------------------------------- little-endian words

  function Le32(x: u32): (s: seq<byte>)
    ensures |s| == 4
  {
    [x % 256, x / 256 % 256, x / 0x1_0000 % 256, x / 0x100_0000]
  }

  function FromLe32(s: seq<byte>, i: nat): u32
    requires i + 4 <= |s|
  {
    var b0: int, b1: int, b2: int, b3: int := s[i], s[i + 1], s[i + 2], s[i + 3];
    b0 + 256 * b1 + 0x1_0000 * b2 + 0x100_0000 * b3
  }

  function Words(ws: seq<u32>): (s: seq<byte>)
    ensures |s| == 4 * |ws|
  {
    if ws == [] then [] else Le32(ws[0]) + Words(ws[1..])
  }

  lemma {:induction false} WordAt(ws: seq<u32>, rest: seq<byte>, i: nat)
    requires i < |ws|
    ensures FromLe32(Words(ws) + rest, 4 * i) == ws[i]
  {
    if i == 0 {
      LittleEndian(ws[0]);
    } else {
      WordAt(ws[1..], rest, i - 1);
      var s, t := Words(ws) + rest, Words(ws[1..]) + rest;
      assert forall k :: 0 <= k < |t| ==> s[k + 4] == t[k];
    }
  }

  lemma LittleEndian(x: u32)
    ensures x % 256 + 256 * (x / 256 % 256) + 0x1_0000 * (x / 0x1_0000 % 256) + 0x100_0000 * (x / 0x100_0000) == x
  {
    assert x / 256 == x / 0x1_0000 * 256 + x / 256 % 256;
    assert x / 0x1_0000 == x / 0x100_0000 * 256 + x / 0x1_0000 % 256;
  }

  // ---------------------------------------------------------------- blocks

  function Flags(family: u32): u32 { if family != 0 then 0x2000 else 0 }

  function HeaderWords(addr: u32, blockno: u32, numblocks: u32, family: u32): seq<u32> {
    [MAGIC_START0, MAGIC_START1, Flags(family), addr, PAGE, blockno, numblocks, family]
  }

  /** One 512-byte block: header, a page of data, filler, end magic. */
  function EncodeBlock(addr: u32, data: Data, blockno: u32, numblocks: u32, family: u32): (b: seq<byte>)
    ensures |b| == BLOCK
  {
    Words(HeaderWords(addr, blockno, numblocks, family)) + data + Zeros(220) + Le32(MAGIC_END)
  }

  lemma BlockFields(addr: u32, data: Data, blockno: u32, numblocks: u32, family: u32)
    ensures var b := EncodeBlock(addr, data, blockno, numblocks, family);
            && FromLe32(b, 0) == MAGIC_START0 && FromLe32(b, 4) == MAGIC_START1
            && FromLe32(b, 8) == Flags(family) && FromLe32(b, 12) == addr && FromLe32(b, 16) == PAGE
            && FromLe32(b, 20) == blockno && FromLe32(b, 24) == numblocks && FromLe32(b, 28) == family
            && b[32..32 + PAGE] == data && b[508..] == Le32(MAGIC_END)
  {
    var ws := HeaderWords(addr, blockno, numblocks, family);
    var rest := data + Zeros(220) + Le32(MAGIC_END);
    var b := EncodeBlock(addr, data, blockno, numblocks, family);
    assert b == Words(ws) + rest;
    hide Words;
    WordAt(ws, rest, 0);
    WordAt(ws, rest, 1);
    WordAt(ws, rest, 2);
    WordAt(ws, rest, 3);
    WordAt(ws, rest, 4);
    WordAt(ws, rest, 5);
    WordAt(ws, rest, 6);
    WordAt(ws, rest, 7);
  }

  /** The bytes of a block as the format lays them out: 512 in all, "UF2", a newline and the second magic
      number in front, the family flag 0x2000 exactly for a family other than 0, the end magic behind. */
  lemma BlockLayout(addr: u32, data: Data, blockno: u32, numblocks: u32, family: u32)
    ensures var b := EncodeBlock(addr, data, blockno, numblocks, family);
            && |b| == 512 && b[..4] == [0x55, 0x46, 0x32, 0x0A] && b[4..8] == [0x57, 0x51, 0x5D, 0x9E]
            && b[8..12] == (if family != 0 then [0, 0x20, 0, 0] else [0, 0, 0, 0])
            && b[16..20] == [0, 1, 0, 0] && b[32..288] == data && b[508..] == [0x30, 0x6F, 0xB1, 0x0A]
            && FromLe32(b, 12) == addr && FromLe32(b, 20) == blockno && FromLe32(b, 24) == numblocks
            && FromLe32(b, 28) == family
            && (forall i :: 288 <= i < 508 ==> b[i] == 0)
  {
    BlockFields(addr, data, blockno, numblocks, family);
    BlockBytes(addr, data, blockno, numblocks, family);
    hide EncodeBlock, FromLe32, Le32;
  }

  lemma BlockBytes(addr: u32, data: Data, blockno: u32, numblocks: u32, family: u32)
    ensures var b := EncodeBlock(addr, data, blockno, numblocks, family);
            && b[..4] == [0x55, 0x46, 0x32, 0x0A] && b[4..8] == [0x57, 0x51, 0x5D, 0x9E]
            && b[8..12] == (if family != 0 then [0, 0x20, 0, 0] else [0, 0, 0, 0])
            && b[16..20] == [0, 1, 0, 0] && b[508..] == [0x30, 0x6F, 0xB1, 0x0A]
            && (forall i :: 288 <= i < 508 ==> b[i] == 0)
  {
    var ws := HeaderWords(addr, blockno, numblocks, family);
    var rest := data + Zeros(220) + Le32(MAGIC_END);
    var b := EncodeBlock(addr, data, blockno, numblocks, family);
    assert b == Words(ws) + rest;
    WordBytes(ws, rest, 0);
    WordBytes(ws, rest, 1);
    WordBytes(ws, rest, 2);
    WordBytes(ws, rest, 4);
    hide Words;
    assert forall i :: 288 <= i < 508 ==> b[i] == Zeros(220)[i - 288];
  }

  lemma {:induction false} WordBytes(ws: seq<u32>, rest: seq<byte>, i: nat)
    requires i < |ws|
    ensures (Words(ws) + rest)[4 * i..4 * i + 4] == Le32(ws[i])
    decreases i
  {
    if i > 0 {
      WordBytes(ws[1..], rest, i - 1);
    }
  }

  // ---------------------------------------------------------------- UF2 to binary

  /** Decoder state: the address after the last block (none yet), the base address, the output. */
  datatype Decoder = Decoder(started: bool, curraddr: nat, appstartaddr: int, outp: seq<byte>)

  function DecodeBlock(d: Decoder, block: seq<byte>): Result<Decoder>
    requires |block| == BLOCK
  {
    if FromLe32(block, 0) != MAGIC_START0 || FromLe32(block, 4) != MAGIC_START1 then Err(BadMagic)
    else if FromLe32(block, 8) % 2 == 1 then Ok(d)
    else
      var datalen: nat, newaddr: int := FromLe32(block, 16), FromLe32(block, 12);
      if datalen > 476 then Err(BadSize)
      else
        var curr := if d.started then d.curraddr else newaddr;
        var padding := newaddr - curr;
        if padding < 0 then Err(OutOfOrder)
        else if padding > MAX_PADDING then Err(TooMuchPadding)
        else if padding % 4 != 0 then Err(UnalignedPadding)
        else Ok(Decoder(true, newaddr + datalen, if d.started then d.appstartaddr else newaddr,
                        d.outp + Zeros(padding) + block[32..32 + datalen]))
  }

  function BlockAt(buf: seq<byte>, i: nat): (block: seq<byte>)
    requires (i + 1) * BLOCK <= |buf|
    ensures |block| == BLOCK
  {
    buf[i * BLOCK..(i + 1) * BLOCK]
  }

  /** The first `n` blocks of a file. */
  function Decode(buf: seq<byte>, base: int, n: nat): Result<Decoder>
    requires n * BLOCK <= |buf|
  {
    if n == 0 then Ok(Decoder(false, 0, base, []))
    else
      var before := Decode(buf, base, n - 1);
      if before.Err? then before else DecodeBlock(before.value, BlockAt(buf, n - 1))
  }

  function FromUf2(buf: seq<byte>, base: int): Result<Decoder> {
    Decode(buf, base, |buf| / BLOCK)
  }

  // ---------------------------------------------------------------- which files decode, and to what

  /** Data to be placed at an address. */
  datatype Piece = Piece(addr: nat, data: seq<byte>)

  predicate HasMagic(block: seq<byte>)
    requires |block| == BLOCK
  {
    FromLe32(block, 0) == MAGIC_START0 && FromLe32(block, 4) == MAGIC_START1
  }

  /** The block is not meant for flash. */
  predicate Flagged(block: seq<byte>)
    requires |block| == BLOCK
  {
    FromLe32(block, 8) % 2 == 1
  }

  predicate Readable(block: seq<byte>)
    requires |block| == BLOCK
  {
    HasMagic(block) && (Flagged(block) || FromLe32(block, 16) <= 476)
  }

  /** What an unflagged block places. */
  function PieceOf(block: seq<byte>): Piece
    requires |block| == BLOCK && FromLe32(block, 16) <= 476
  {
    var datalen: int := FromLe32(block, 16);
    Piece(FromLe32(block, 12), block[32..32 + datalen])
  }

  /** The second piece comes after the first, in whole words and no further than will be padded. */
  ghost predicate Follows(a: Piece, b: Piece) {
    a.addr + |a.data| <= b.addr <= a.addr + |a.data| + 10_485_760 && (b.addr - (a.addr + |a.data|)) % 4 == 0
  }

  ghost predicate InOrder(pieces: seq<Piece>, n: nat)
    requires n <= |pieces|
  {
    forall i :: 0 < i < n ==> Follows(pieces[i - 1], pieces[i])
  }

  /** The pieces laid out flat from the first one's address, with zeros in the gaps. */
  function Flat(pieces: seq<Piece>, n: nat): seq<byte>
    requires n <= |pieces|
  {
    if n == 0 then []
    else
      var gap := if n == 1 then 0 else pieces[n - 1].addr - (pieces[n - 2].addr + |pieces[n - 2].data|);
      Flat(pieces, n - 1) + (if gap > 0 then Zeros(gap) else []) + pieces[n - 1].data
  }

  ghost predicate AllReadable(buf: seq<byte>, n: nat)
    requires n * BLOCK <= |buf|
  {
    forall i :: 0 <= i < n ==> Readable(BlockAt(buf, i))
  }

  /** The pieces of the unflagged ones among the first n blocks. */
  ghost function Pieces(buf: seq<byte>, n: nat): seq<Piece>
    requires n * BLOCK <= |buf| && AllReadable(buf, n)
  {
    if n == 0 then []
    else Pieces(buf, n - 1) + if Flagged(BlockAt(buf, n - 1)) then [] else [PieceOf(BlockAt(buf, n - 1))]
  }

  /** A piece put after what has been decoded so far. */
  function PutPiece(d: Decoder, p: Piece): Result<Decoder> {
    var padding := p.addr - if d.started then d.curraddr else p.addr;
    if padding < 0 then Err(OutOfOrder)
    else if padding > MAX_PADDING then Err(TooMuchPadding)
    else if padding % 4 != 0 then Err(UnalignedPadding)
    else Ok(Decoder(true, p.addr + |p.data|, if d.started then d.appstartaddr else p.addr,
                    d.outp + Zeros(padding) + p.data))
  }

  lemma DecodeIsPut(d: Decoder, block: seq<byte>)
    requires |block| == BLOCK
    ensures !Readable(block) ==> DecodeBlock(d, block).Err?
    ensures Readable(block) ==> DecodeBlock(d, block) == if Flagged(block) then Ok(d) else PutPiece(d, PieceOf(block))
  {
    hide FromLe32, Zeros;
  }

  /** What is decoded once these pieces have been put: their flat image while they are in order, else an
      error. */
  ghost predicate DecodedTo(pieces: seq<Piece>, base: int, r: Result<Decoder>) {
    var n := |pieces|;
    && (r.Ok? <==> InOrder(pieces, n))
    && (r.Ok? ==> r.value.outp == Flat(pieces, n) && r.value.started == (n > 0)
                  && (n > 0 ==> r.value.curraddr == pieces[n - 1].addr + |pieces[n - 1].data|
                                && r.value.appstartaddr == pieces[0].addr)
                  && (n == 0 ==> r.value.appstartaddr == base))
  }

  lemma {:induction false} FlatDependsOnFirst(a: seq<Piece>, b: seq<Piece>, n: nat)
    requires n <= |a| && n <= |b| && a[..n] == b[..n]
    ensures Flat(a, n) == Flat(b, n)
    decreases n
  {
    if n > 0 {
      assert a[..n - 1] == a[..n][..n - 1] == b[..n - 1];
      FlatDependsOnFirst(a, b, n - 1);
      assert a[n - 1] == a[..n][n - 1] == b[n - 1];
      if n > 1 { assert a[n - 2] == a[..n][n - 2] == b[n - 2]; }
    }
  }

  lemma InOrderSnoc(pieces: seq<Piece>, p: Piece)
    ensures InOrder(pieces + [p], |pieces| + 1)
            <==> InOrder(pieces, |pieces|) && (pieces != [] ==> Follows(pieces[|pieces| - 1], p))
  {
    var longer, n := pieces + [p], |pieces|;
    if InOrder(longer, n + 1) {
      forall i | 0 < i < n ensures Follows(pieces[i - 1], pieces[i]) { assert Follows(longer[i - 1], longer[i]); }
      if n > 0 { assert Follows(longer[n - 1], longer[n]); }
    }
  }

  lemma FlatSnoc(pieces: seq<Piece>, p: Piece)
    ensures var gap := if pieces == [] then 0 else p.addr - (pieces[|pieces| - 1].addr + |pieces[|pieces| - 1].data|);
            gap >= 0 ==> Flat(pieces + [p], |pieces| + 1) == Flat(pieces, |pieces|) + Zeros(gap) + p.data
  {
    FlatDependsOnFirst(pieces, pieces + [p], |pieces|);
    var image := Flat(pieces, |pieces|);
    assert image + Zeros(0) == image == image + [];
  }

  /** Any file at all: its whole blocks decode exactly when each has the magic numbers, the unflagged ones
      hold at most 476 bytes, and these follow each other in order, in whole words, with gaps of at most
      10 MiB; and then to their flat image, from the first one's address. */
  lemma {:induction false} DecodeIff(buf: seq<byte>, base: int, n: nat)
    requires n * BLOCK <= |buf|
    ensures Decode(buf, base, n).Ok? <==> AllReadable(buf, n) && InOrder(Pieces(buf, n), |Pieces(buf, n)|)
    ensures AllReadable(buf, n) ==> DecodedTo(Pieces(buf, n), base, Decode(buf, base, n))
    decreases n
  {
    hide *;
    if n == 0 {
      NothingDecoded(buf, base);
    } else {
      DecodeIff(buf, base, n - 1);
      AllReadableNext(buf, n);
      DecodeNext(buf, base, n);
      var before, block := Decode(buf, base, n - 1), BlockAt(buf, n - 1);
      if before.Ok? { DecodeIsPut(before.value, block); }
      if AllReadable(buf, n) {
        ReadableFits(block);
        if !Flagged(block) { NextPiece(Pieces(buf, n - 1), base, before, PieceOf(block)); }
        PiecesNext(buf, n);
        OkIffInOrder(Pieces(buf, n), base, Decode(buf, base, n));
      } else if before.Ok? {
        OkIffInOrder(Pieces(buf, n - 1), base, before);
      }
    }
  }

  lemma ReadableFits(block: seq<byte>)
    requires |block| == BLOCK && Readable(block)
    ensures !Flagged(block) ==> FromLe32(block, 16) <= 476
  {
  }

  lemma OkIffInOrder(pieces: seq<Piece>, base: int, r: Result<Decoder>)
    requires DecodedTo(pieces, base, r)
    ensures r.Ok? <==> InOrder(pieces, |pieces|)
  {
  }

  lemma DecodeNext(buf: seq<byte>, base: int, n: nat)
    requires 0 < n && n * BLOCK <= |buf|
    ensures var before := Decode(buf, base, n - 1);
            Decode(buf, base, n) == if before.Err? then before else DecodeBlock(before.value, BlockAt(buf, n - 1))
  {
  }

  lemma PiecesNext(buf: seq<byte>, n: nat)
    requires 0 < n && n * BLOCK <= |buf| && AllReadable(buf, n)
    ensures AllReadable(buf, n - 1) && (!Flagged(BlockAt(buf, n - 1)) ==> FromLe32(BlockAt(buf, n - 1), 16) <= 476)
    ensures Pieces(buf, n) ==
            if Flagged(BlockAt(buf, n - 1)) then Pieces(buf, n - 1) else Pieces(buf, n - 1) + [PieceOf(BlockAt(buf, n - 1))]
  {
    assert Readable(BlockAt(buf, n - 1));
    assert Pieces(buf, n - 1) + [] == Pieces(buf, n - 1);
  }

  lemma AllReadableNext(buf: seq<byte>, n: nat)
    requires 0 < n && n * BLOCK <= |buf|
    ensures AllReadable(buf, n) <==> AllReadable(buf, n - 1) && Readable(BlockAt(buf, n - 1))
  {
  }

  /** One more piece, after an error or not. */
  lemma NextPiece(pieces: seq<Piece>, base: int, before: Result<Decoder>, p: Piece)
    requires DecodedTo(pieces, base, before)
    ensures DecodedTo(pieces + [p], base, if before.Err? then before else PutPiece(before.value, p))
  {
    InOrderSnoc(pieces, p);
    FlatSnoc(pieces, p);
    hide InOrder, Flat, Zeros;
  }

  lemma NothingDecoded(buf: seq<byte>, base: int)
    ensures AllReadable(buf, 0) && Pieces(buf, 0) == [] && InOrder([], 0)
    ensures Decode(buf, base, 0).Ok? && DecodedTo([], base, Decode(buf, base, 0))
  {
  }

  /** A whole block without the magic numbers makes the conversion fail, wherever it is; and with just that
      error, if the blocks before it decode. */
  lemma BadMagicFails(buf: seq<byte>, base: int, i: nat)
    requires (i + 1) * BLOCK <= |buf| && !HasMagic(BlockAt(buf, i))
    ensures FromUf2(buf, base).Err?
    ensures Decode(buf, base, i).Ok? ==> FromUf2(buf, base) == Err(BadMagic)
  {
    hide Decode, HasMagic, InOrder, Pieces, DecodedTo, BlockAt, AllReadable;
    var n := |buf| / BLOCK;
    DecodeIff(buf, base, n);
    UnreadableBlock(buf, i, n);
    if Decode(buf, base, i).Ok? {
      DecodeNext(buf, base, i + 1);
      NoMagic(Decode(buf, base, i).value, BlockAt(buf, i));
      ErrorStays(buf, base, i + 1, n);
    }
  }

  lemma UnreadableBlock(buf: seq<byte>, i: nat, n: nat)
    requires i < n && n * BLOCK <= |buf| && !HasMagic(BlockAt(buf, i))
    ensures !AllReadable(buf, n)
  {
    assert !Readable(BlockAt(buf, i));
  }

  lemma NoMagic(d: Decoder, block: seq<byte>)
    requires |block| == BLOCK && !HasMagic(block)
    ensures DecodeBlock(d, block) == Err(BadMagic)
  {
  }

  // ---------------------------------------------------------------- what a flat image holds

  ghost predicate Holds(image: seq<byte>, base: nat, p: Piece) {
    && base <= p.addr && p.addr - base + |p.data| <= |image|
    && image[p.addr - base..p.addr - base + |p.data|] == p.data
  }

  ghost predicate Covers(p: Piece, addr: int) { p.addr <= addr < p.addr + |p.data| }

  lemma LastOfFlat(pieces: seq<Piece>, n: nat)
    requires 1 < n <= |pieces| && InOrder(pieces, n)
    ensures InOrder(pieces, n - 1)
    ensures var gap := pieces[n - 1].addr - (pieces[n - 2].addr + |pieces[n - 2].data|);
            gap >= 0 && |Zeros(gap)| == gap && Flat(pieces, n) == Flat(pieces, n - 1) + Zeros(gap) + pieces[n - 1].data
  {
    assert Follows(pieces[n - 2], pieces[n - 1]);
    var image := Flat(pieces, n - 1);
    assert image + Zeros(0) == image == image + [];
  }

  /** The flat image of pieces in order reaches from the first piece to the end of the last, holds each at
      its address, and is zero everywhere else. */
  lemma FlatMeaning(pieces: seq<Piece>, n: nat)
    requires 0 < n <= |pieces| && InOrder(pieces, n)
    ensures var base, image := pieces[0].addr, Flat(pieces, n);
            && base + |image| == pieces[n - 1].addr + |pieces[n - 1].data|
            && (forall k :: 0 <= k < n ==> Holds(image, base, pieces[k]))
            && (forall x :: 0 <= x < |image| && image[x] != 0 ==> exists k :: 0 <= k < n && Covers(pieces[k], base + x))
  {
    hide *;
    FlatLength(pieces, n);
    forall k | 0 <= k < n ensures Holds(Flat(pieces, n), pieces[0].addr, pieces[k]) { FlatHolds(pieces, n, k); }
    forall x | 0 <= x < |Flat(pieces, n)| && Flat(pieces, n)[x] != 0
      ensures exists k :: 0 <= k < n && Covers(pieces[k], pieces[0].addr + x)
    {
      var k := NonZeroIsCovered(pieces, n, x);
    }
  }

  lemma {:induction false} FlatLength(pieces: seq<Piece>, n: nat)
    requires 0 < n <= |pieces| && InOrder(pieces, n)
    ensures pieces[0].addr + |Flat(pieces, n)| == pieces[n - 1].addr + |pieces[n - 1].data|
    decreases n
  {
    if n == 1 {
      assert Flat(pieces, 1) == [] + [] + pieces[0].data;
    } else {
      LastOfFlat(pieces, n);
      hide Flat, InOrder, Zeros;
      FlatLength(pieces, n - 1);
    }
  }

  lemma {:induction false} FlatHolds(pieces: seq<Piece>, n: nat, k: nat)
    requires k < n <= |pieces| && InOrder(pieces, n)
    ensures Holds(Flat(pieces, n), pieces[0].addr, pieces[k])
    decreases n
  {
    if n == 1 {
      assert Flat(pieces, 1) == [] + [] + pieces[0].data;
    } else {
      hide Flat, InOrder, Zeros, Holds;
      LastOfFlat(pieces, n);
      FlatLength(pieces, n - 1);
      var front, gap := Flat(pieces, n - 1), Zeros(pieces[n - 1].addr - (pieces[n - 2].addr + |pieces[n - 2].data|));
      if k < n - 1 {
        FlatHolds(pieces, n - 1, k);
        assert front + gap + pieces[n - 1].data == front + (gap + pieces[n - 1].data);
        HoldsInFront(front, gap + pieces[n - 1].data, pieces[0].addr, pieces[k]);
      } else {
        HoldsAtEnd(front, gap, pieces[0].addr, pieces[n - 1]);
      }
    }
  }

  lemma {:induction false} NonZeroIsCovered(pieces: seq<Piece>, n: nat, x: nat) returns (k: nat)
    requires 0 < n <= |pieces| && InOrder(pieces, n) && x < |Flat(pieces, n)| && Flat(pieces, n)[x] != 0
    ensures k < n && Covers(pieces[k], pieces[0].addr + x)
    decreases n
  {
    FlatLength(pieces, n);
    if n == 1 {
      k := 0;
    } else {
      LastOfFlat(pieces, n);
      FlatLength(pieces, n - 1);
      var front, gap := Flat(pieces, n - 1), pieces[n - 1].addr - (pieces[n - 2].addr + |pieces[n - 2].data|);
      hide Flat, InOrder, Zeros;
      if x < |front| {
        k := NonZeroIsCovered(pieces, n - 1, x);
      } else {
        PastZeros(front, gap, pieces[n - 1].data, x);
        k := n - 1;
      }
    }
  }

  lemma HoldsAtEnd(front: seq<byte>, gap: seq<byte>, base: nat, p: Piece)
    requires base + |front| + |gap| == p.addr
    ensures Holds(front + gap + p.data, base, p)
  {
  }

  lemma HoldsInFront(front: seq<byte>, more: seq<byte>, base: nat, p: Piece)
    requires Holds(front, base, p)
    ensures Holds(front + more, base, p)
  {
    var lo := p.addr - base;
    assert (front + more)[lo..lo + |p.data|] == front[lo..lo + |p.data|];
  }

  lemma ZerosLength(n: nat)
    ensures |Zeros(n)| == n
  {
  }

  lemma PastZeros(front: seq<byte>, gap: nat, data: seq<byte>, x: nat)
    requires |front| <= x < |front + Zeros(gap) + data| && (front + Zeros(gap) + data)[x] != 0
    ensures |front| + gap <= x
  {
  }

  lemma ZeroAt(n: nat, i: nat)
    requires i < n
    ensures |Zeros(n)| == n && Zeros(n)[i] == 0
  {
  }

  // ---------------------------------------------------------------- the decoding loops

  /** Zeros, four at a time. */
  method PadWords(before: seq<byte>, amount: nat) returns (outp: seq<byte>)
    requires amount % 4 == 0
    ensures outp == before + Zeros(amount)
  {
    outp := before;
    var padding := amount;
    while padding > 0
      invariant 0 <= padding <= amount && padding % 4 == 0 && outp == before + Zeros(amount - padding)
    {
      padding := padding - 4;
      outp := outp + [0, 0, 0, 0];
    }
  }

  /** The body of the loop over blocks: an unreadable one fails, a flagged one changes nothing, and any
      other puts its piece after what is there. */
  method ConvertBlock(d: Decoder, block: seq<byte>) returns (r: Result<Decoder>)
    requires |block| == BLOCK
    ensures r == DecodeBlock(d, block)
    ensures r.Ok? <==> Readable(block) && (Flagged(block) || !d.started || Follows(Piece(d.curraddr, []), PieceOf(block)))
    ensures r.Ok? && Flagged(block) ==> r.value == d
    ensures r.Ok? && !Flagged(block) ==>
              var p, t := PieceOf(block), r.value;
              && t.started && t.curraddr == p.addr + |p.data|
              && t.appstartaddr == (if d.started then d.appstartaddr else p.addr)
              && t.outp == d.outp + Zeros(if d.started then p.addr - d.curraddr else 0) + p.data
  {
    hide FromLe32, Zeros;
    if FromLe32(block, 0) != MAGIC_START0 || FromLe32(block, 4) != MAGIC_START1 {
      return Err(BadMagic);
    }
    if FromLe32(block, 8) % 2 == 1 {
      return Ok(d);
    }
    var datalen: nat := FromLe32(block, 16);
    if datalen > 476 {
      return Err(BadSize);
    }
    var newaddr: int := FromLe32(block, 12);
    var curraddr, appstartaddr := d.curraddr, d.appstartaddr;
    if !d.started {
      appstartaddr := newaddr;
      curraddr := newaddr;
    }
    var padding := newaddr - curraddr;
    if padding < 0 {
      return Err(OutOfOrder);
    }
    if padding > MAX_PADDING {
      return Err(TooMuchPadding);
    }
    if padding % 4 != 0 {
      return Err(UnalignedPadding);
    }
    var outp := PadWords(d.outp, padding);
    outp := outp + block[32..32 + datalen];
    return Ok(Decoder(true, newaddr + datalen, appstartaddr, outp));
  }

  method ConvertFromUf2(buf: seq<byte>, base: int) returns (r: Result<Decoder>)
    ensures r == FromUf2(buf, base)
    ensures var n := |buf| / BLOCK;
            && (r.Ok? <==> AllReadable(buf, n) && InOrder(Pieces(buf, n), |Pieces(buf, n)|))
            && (r.Ok? ==> DecodedTo(Pieces(buf, n), base, r))
  {
    hide DecodeBlock, AllReadable, InOrder, Pieces, DecodedTo;
    DecodeIff(buf, base, |buf| / BLOCK);
    var numblocks := |buf| / BLOCK;
    var d := Decoder(false, 0, base, []);
    var blockno := 0;
    while blockno < numblocks
      invariant 0 <= blockno <= numblocks && Decode(buf, base, blockno) == Ok(d)
    {
      r := ConvertBlock(d, buf[blockno * BLOCK..(blockno + 1) * BLOCK]);
      if r.Err? {
        ErrorStays(buf, base, blockno + 1, numblocks);
        return;
      }
      d := r.value;
      blockno := blockno + 1;
    }
    return Ok(d);
  }

  lemma {:induction false} ErrorStays(buf: seq<byte>, base: int, n: nat, m: nat)
    requires n <= m && m * BLOCK <= |buf| && Decode(buf, base, n).Err?
    ensures Decode(buf, base, m) == Decode(buf, base, n)
    decreases m
  {
    hide DecodeBlock, BlockAt;
    if n < m { ErrorStays(buf, base, n, m - 1); }
  }

  // ---------------------------------------------------------------- pages to UF2

  /** A page of the image: a piece of 256 bytes. */
  type Page = p: Piece | |p.data| == PAGE witness Piece(0, seq(PAGE, _ => 0))

  ghost predicate Addressable(pages: seq<Page>) {
    |pages| < TWO_32 && forall i :: 0 <= i < |pages| ==> pages[i].addr < TWO_32
  }

  /** The first `n` of `total` blocks. */
  function EncodePages(pages: seq<Page>, n: nat, total: nat, family: u32): (s: seq<byte>)
    requires n <= |pages| && n <= total < TWO_32 && forall i :: 0 <= i < n ==> pages[i].addr < TWO_32
    ensures |s| == n * BLOCK
  {
    if n == 0 then []
    else EncodePages(pages, n - 1, total, family) + EncodeBlock(pages[n - 1].addr, pages[n - 1].data, n - 1, total, family)
  }

  function ToUf2(pages: seq<Page>, family: u32): seq<byte>
    requires Addressable(pages)
  {
    EncodePages(pages, |pages|, |pages|, family)
  }

  lemma EncodedBlockAt(pages: seq<Page>, n: nat, m: nat, total: nat, family: u32)
    requires n < m <= |pages| && m <= total < TWO_32 && forall i :: 0 <= i < |pages| ==> pages[i].addr < TWO_32
    ensures EncodePages(pages, m, total, family)[n * BLOCK..(n + 1) * BLOCK] ==
            EncodeBlock(pages[n].addr, pages[n].data, n, total, family)
  {
    hide EncodeBlock;
    if n + 1 < m {
      EncodedBlockAt(pages, n, m - 1, total, family);
    }
  }

  /** A block made from a page is that page's piece. */
  lemma EncodedIsPiece(p: Page, blockno: u32, total: u32, family: u32)
    requires p.addr < TWO_32
    ensures var b := EncodeBlock(p.addr, p.data, blockno, total, family);
            Readable(b) && !Flagged(b) && PieceOf(b) == p
  {
    hide EncodeBlock, FromLe32;
    BlockFields(p.addr, p.data, blockno, total, family);
  }

  lemma {:induction false} PiecesOfEncoded(pages: seq<Page>, family: u32, n: nat)
    requires Addressable(pages) && n <= |pages|
    ensures |ToUf2(pages, family)| == |pages| * BLOCK
    ensures AllReadable(ToUf2(pages, family), n) && Pieces(ToUf2(pages, family), n) == pages[..n]
    decreases n
  {
    hide EncodeBlock, EncodePages, Readable, Flagged, PieceOf;
    var buf := ToUf2(pages, family);
    assert |buf| == |pages| * BLOCK;
    if n > 0 {
      PiecesOfEncoded(pages, family, n - 1);
      EncodedBlockAt(pages, n - 1, |pages|, |pages|, family);
      EncodedIsPiece(pages[n - 1], n - 1, |pages|, family);
      assert BlockAt(buf, n - 1) == EncodeBlock(pages[n - 1].addr, pages[n - 1].data, n - 1, |pages|, family);
      assert pages[..n] == pages[..n - 1] + [pages[n - 1]];
    }
  }

  /** Block i of a file is page i, numbered i of all of them. */
  lemma BlocksAreNumbered(pages: seq<Page>, family: u32, i: nat)
    requires Addressable(pages) && i < |pages|
    ensures |ToUf2(pages, family)| == 512 * |pages|
    ensures var b := ToUf2(pages, family)[512 * i..512 * i + 512];
            && FromLe32(b, 12) == pages[i].addr && FromLe32(b, 20) == i && FromLe32(b, 24) == |pages|
            && FromLe32(b, 28) == family && b[32..288] == pages[i].data
  {
    hide EncodeBlock, FromLe32, EncodePages;
    EncodedBlockAt(pages, i, |pages|, |pages|, family);
    BlockFields(pages[i].addr, pages[i].data, i, |pages|, family);
  }

  /** Decoding UF2 made from pages succeeds exactly when they are in order with bounded gaps, and
      gives their flat image and the first page's address. */
  lemma DecodePages(pages: seq<Page>, family: u32, base: int)
    requires Addressable(pages)
    ensures DecodedTo(pages, base, FromUf2(ToUf2(pages, family), base))
  {
    hide ToUf2, Decode, DecodedTo, AllReadable, Pieces;
    PiecesOfEncoded(pages, family, |pages|);
    assert pages[..|pages|] == pages;
    DecodeIff(ToUf2(pages, family), base, |pages|);
  }

  // ---------------------------------------------------------------- binary to UF2 and back

  /** Chunk `i` of a binary, filled up with zeros. */
  function ChunkOf(content: seq<byte>, i: nat): (d: Data)
    requires i * PAGE < |content|
  {
    var hi := if (i + 1) * PAGE <= |content| then (i + 1) * PAGE else |content|;
    content[i * PAGE..hi] + Zeros(PAGE - (hi - i * PAGE))
  }

  function NumBlocks(content: seq<byte>): nat { (|content| + 255) / 256 }

  function PagesOf(content: seq<byte>, base: nat): seq<Page> {
    seq(NumBlocks(content), i requires 0 <= i < NumBlocks(content) => Piece(base + i * PAGE, ChunkOf(content, i)))
  }

  /** The binary filled up with zeros to whole pages. */
  function Padded(content: seq<byte>): seq<byte> {
    content + Zeros(NumBlocks(content) * PAGE - |content|)
  }

  lemma ChunkIs(content: seq<byte>, i: nat)
    requires i * PAGE < |content|
    ensures var data := if i * PAGE + PAGE <= |content| then content[i * PAGE..i * PAGE + PAGE] else content[i * PAGE..];
            ChunkOf(content, i) == data + Zeros(PAGE - |data|)
  {
  }

  method PadChunk(data: seq<byte>) returns (chunk: Data)
    requires |data| <= PAGE
    ensures chunk == data + Zeros(PAGE - |data|)
  {
    var c := data;
    while |c| < PAGE
      invariant |data| <= |c| <= PAGE && c == data + Zeros(|c| - |data|)
      decreases PAGE - |c|
    {
      c := c + [0];
    }
    return c;
  }

  /** The filler between data and end magic. */
  method DataPadding() returns (datapadding: seq<byte>)
    ensures datapadding == Zeros(220)
  {
    datapadding := [];
    while |datapadding| < 512 - 256 - 32 - 4
      invariant |datapadding| <= 220 && |datapadding| % 4 == 0 && datapadding == Zeros(|datapadding|)
      decreases 220 - |datapadding|
    {
      datapadding := datapadding + [0, 0, 0, 0];
    }
  }

  /** `convert_to_uf2`; a block address or count beyond 32 bits makes `struct.pack` fail. */
  method ConvertToUf2(content: seq<byte>, base: nat, family: u32) returns (r: Result<seq<byte>>)
    ensures r.Ok? <==> Addressable(PagesOf(content, base))
    ensures r.Ok? ==> r.value == ToUf2(PagesOf(content, base), family)
  {
    hide Words, ChunkOf, Le32;
    var datapadding := DataPadding();
    var numblocks := (|content| + 255) / 256;
    ghost var pages := PagesOf(content, base);
    if numblocks >= TWO_32 {
      assert !Addressable(pages);
      return Err(StructError);
    }
    var outp: seq<byte> := [];
    var blockno := 0;
    while blockno < numblocks
      invariant 0 <= blockno <= numblocks < TWO_32
      invariant forall i :: 0 <= i < blockno ==> pages[i].addr < TWO_32
      invariant outp == EncodePages(pages, blockno, numblocks, family)
    {
      var ptr := PAGE * blockno;
      var chunk := if ptr + PAGE <= |content| then content[ptr..ptr + PAGE] else content[ptr..];
      if ptr + base >= TWO_32 {
        assert pages[blockno].addr == base + blockno * PAGE;
        return Err(StructError);
      }
      chunk := PadChunk(chunk);
      ChunkIs(content, blockno);
      var hd := Words(HeaderWords(ptr + base, blockno, numblocks, family));
      var block := hd + chunk + datapadding + Le32(MAGIC_END);
      outp := outp + block;
      blockno := blockno + 1;
    }
    return Ok(outp);
  }

  lemma ChunkOfPadded(content: seq<byte>, n: nat)
    requires 0 < n <= NumBlocks(content)
    ensures var p := Padded(content);
            p[..n * PAGE] == p[..(n - 1) * PAGE] + ChunkOf(content, n - 1)
  {
    var p := Padded(content);
    assert ChunkOf(content, n - 1) == p[(n - 1) * PAGE..n * PAGE];
    assert p[..n * PAGE] == p[..(n - 1) * PAGE] + p[(n - 1) * PAGE..n * PAGE];
  }

  lemma {:induction false} FlatOfBinary(content: seq<byte>, base: nat, n: nat)
    requires n <= NumBlocks(content)
    ensures InOrder(PagesOf(content, base), n)
    ensures Flat(PagesOf(content, base), n) == Padded(content)[..n * PAGE]
    decreases n
  {
    hide ChunkOf, Padded;
    if n > 0 {
      FlatOfBinary(content, base, n - 1);
      ChunkOfPadded(content, n);
      var image := Flat(PagesOf(content, base), n - 1);
      assert image + [] == image;
    }
  }

  /** Binary to UF2 and back: the binary filled up with zeros to whole pages, at its base address. */
  lemma BinaryRoundTrip(content: seq<byte>, base: nat, family: u32, oldBase: int)
    requires Addressable(PagesOf(content, base))
    ensures var r := FromUf2(ToUf2(PagesOf(content, base), family), oldBase);
            && r.Ok? && r.value.outp == Padded(content)
            && r.value.appstartaddr == if content == [] then oldBase else base
  {
    var n := NumBlocks(content);
    var pages := PagesOf(content, base);
    FlatOfBinary(content, base, n);
    DecodePages(pages, family, oldBase);
    assert n > 0 ==> pages[0].addr == base;
    assert Padded(content)[..n * PAGE] == Padded(content);
  }

  // ---------------------------------------------------------------- HEX records to UF2

  /** A parsed HEX line: count, address (2), type, data, checksum. */
  type Record = seq<byte>

  /** One byte of the image, as the records give it. */
  datatype Write = Write(addr: nat, value: byte)

  function DataOf(rec: Record): seq<byte>
    requires |rec| >= 4
  {
    if |rec| == 4 then [] else rec[4..|rec| - 1]
  }

  /** Where the script's indexing and its assertion on segment addresses hold. */
  predicate RecordOk(rec: Record) {
    && |rec| >= 4
    && (rec[3] == 4 || rec[3] == 2 ==> |rec| >= 6)
    && (rec[3] == 2 ==> SegmentBase(rec) % TWO_16 == 0)
  }

  /** The script gets through the records, up to the end-of-file one. */
  predicate Acceptable(recs: seq<Record>) {
    recs == [] || (RecordOk(recs[0]) && (recs[0][3] != 1 ==> Acceptable(recs[1..])))
  }

  const TWO_16: int := 0x1_0000

  function LinearBase(rec: Record): nat
    requires |rec| >= 6
  {
    var hi: int, lo: int := rec[4], rec[5];
    (hi * 256 + lo) * TWO_16
  }

  function SegmentBase(rec: Record): nat
    requires |rec| >= 6
  {
    var hi: int, lo: int := rec[4], rec[5];
    (hi * 256 + lo) * 16
  }

  function Offset(rec: Record): nat
    requires |rec| >= 4
  {
    var hi: int, lo: int := rec[1], rec[2];
    hi * 256 + lo
  }

  /** A record's effect: the upper address from here on, and the bytes it places. */
  function Effect(rec: Record, upper: nat): (nat, seq<Write>)
    requires RecordOk(rec)
  {
    if rec[3] == 4 then (LinearBase(rec), [])
    else if rec[3] == 2 then (SegmentBase(rec), [])
    else if rec[3] == 0 then (upper, WritesAt(upper + Offset(rec), DataOf(rec)))
    else (upper, [])
  }

  /** What the records mean: the bytes they place, in order. */
  function Meaning(recs: seq<Record>, upper: nat): seq<Write>
    requires Acceptable(recs)
  {
    if recs == [] || recs[0][3] == 1 then []
    else
      var (upper', ws) := Effect(recs[0], upper);
      ws + Meaning(recs[1..], upper')
  }

  function WritesAt(addr: nat, data: seq<byte>): seq<Write> {
    seq(|data|, i requires 0 <= i < |data| => Write(addr + i, data[i]))
  }

  function PageAddr(addr: nat): nat { addr / PAGE * PAGE }

  /** `currblock.bytes[addr & 0xFF] = b`, in a new block when the page changes. */
  function PutByte(pages: seq<Page>, w: Write): seq<Page> {
    if pages == [] || pages[|pages| - 1].addr != PageAddr(w.addr)
    then pages + [Piece(PageAddr(w.addr), Zeros(PAGE)[w.addr % PAGE := w.value])]
    else pages[|pages| - 1 := Piece(PageAddr(w.addr), pages[|pages| - 1].data[w.addr % PAGE := w.value])]
  }

  function PutAll(pages: seq<Page>, ws: seq<Write>): seq<Page> {
    if ws == [] then pages else PutByte(PutAll(pages, ws[..|ws| - 1]), ws[|ws| - 1])
  }

  lemma {:induction false} PutAllConcat(pages: seq<Page>, a: seq<Write>, b: seq<Write>)
    ensures PutAll(pages, a + b) == PutAll(PutAll(pages, a), b)
    decreases |b|
  {
    hide PutByte;
    if b == [] {
      assert a + b == a;
    } else {
      PutAllConcat(pages, a, b[..|b| - 1]);
      assert (a + b)[..|a + b| - 1] == a + b[..|b| - 1];
    }
  }

  /** The first `k` records have been read: they placed `done`, and left `upper`. */
  ghost predicate ParsedTo(recs: seq<Record>, k: nat, upper: nat, done: seq<Write>) {
    && k <= |recs|
    && (Acceptable(recs) <==> Acceptable(recs[k..]))
    && (Acceptable(recs) ==> Meaning(recs, 0) == done + Meaning(recs[k..], upper))
  }

  lemma ParseStep(recs: seq<Record>, k: nat, upper: nat, done: seq<Write>)
    requires k < |recs| && ParsedTo(recs, k, upper, done)
    ensures !RecordOk(recs[k]) ==> !Acceptable(recs)
    ensures RecordOk(recs[k]) && recs[k][3] == 1 ==> Acceptable(recs) && Meaning(recs, 0) == done
    ensures RecordOk(recs[k]) && recs[k][3] != 1 ==>
              ParsedTo(recs, k + 1, Effect(recs[k], upper).0, done + Effect(recs[k], upper).1)
  {
    assert recs[k..][0] == recs[k] && recs[k..][1..] == recs[k + 1..];
    hide RecordOk, Effect;
    if RecordOk(recs[k]) && recs[k][3] == 1 {
      assert done + [] == done;
    } else if RecordOk(recs[k]) && Acceptable(recs) {
      var (upper', ws) := Effect(recs[k], upper);
      assert done + (ws + Meaning(recs[k + 1..], upper')) == (done + ws) + Meaning(recs[k + 1..], upper');
    }
  }

  lemma ParseEnds(recs: seq<Record>, upper: nat, done: seq<Write>)
    requires ParsedTo(recs, |recs|, upper, done)
    ensures Acceptable(recs) && Meaning(recs, 0) == done
  {
    assert recs[|recs|..] == [] && done + [] == done;
  }

  lemma ParseStarts(recs: seq<Record>)
    ensures ParsedTo(recs, 0, 0, []) && PutAll([], []) == []
  {
    assert recs[0..] == recs;
    if Acceptable(recs) { assert [] + Meaning(recs, 0) == Meaning(recs, 0); }
  }

  /** `convert_from_hex_to_uf2` on parsed records: the blocks that are then encoded. */
  method PagesFromHex(recs: seq<Record>) returns (r: Result<seq<Page>>)
    ensures r.Ok? <==> Acceptable(recs)
    ensures r.Ok? ==> r.value == PutAll([], Meaning(recs, 0))
  {
    hide ParsedTo, PutAll, WritesAt, DataOf, Acceptable;
    var pages: seq<Page> := [];
    var upper: nat := 0;
    var k := 0;
    ghost var done: seq<Write> := [];
    ParseStarts(recs);
    while k < |recs|
      invariant 0 <= k <= |recs| && ParsedTo(recs, k, upper, done) && pages == PutAll([], done)
    {
      var rec := recs[k];
      ParseStep(recs, k, upper, done);
      if |rec| < 4 {
        return Err(BadRecord);
      }
      var tp := rec[3];
      ghost var ws: seq<Write> := [];
      if tp == 4 {
        if |rec| < 6 {
          return Err(BadRecord);
        }
        upper := LinearBase(rec);
      } else if tp == 2 {
        if |rec| < 6 || SegmentBase(rec) % TWO_16 != 0 {
          return Err(BadRecord);
        }
        upper := SegmentBase(rec);
      } else if tp == 1 {
        return Ok(pages);
      } else if tp == 0 {
        ws := WritesAt(upper + Offset(rec), DataOf(rec));
        pages := PutRecord(pages, upper + Offset(rec), DataOf(rec));
        PutAllConcat([], done, ws);
      }
      assert done + [] == done;
      done := done + ws;
      k := k + 1;
    }
    ParseEnds(recs, upper, done);
    return Ok(pages);
  }

  method PutRecord(pages: seq<Page>, start: nat, data: seq<byte>) returns (r: seq<Page>)
    ensures r == PutAll(pages, WritesAt(start, data))
  {
    r := pages;
    var addr := start;
    var i := 0;
    while i < |data|
      invariant 0 <= i <= |data| && addr == start + i
      invariant r == PutAll(pages, WritesAt(start, data[..i]))
    {
      assert WritesAt(start, data[..i + 1])[..i] == WritesAt(start, data[..i]);
      r := PutByte(r, Write(addr, data[i]));
      addr := addr + 1;
      i := i + 1;
    }
    assert data[..i] == data;
  }

  /** `Block.encode`: the header and the page, filled up to the end magic. */
  method Encode(page: Page, blockno: u32, numblocks: u32, family: u32) returns (hd: seq<byte>)
    requires page.addr < TWO_32
    ensures hd == EncodeBlock(page.addr, page.data, blockno, numblocks, family)
  {
    hide Words, Le32;
    hd := Words(HeaderWords(page.addr, blockno, numblocks, family)) + page.data;
    ghost var front := hd;
    while |hd| < 512 - 4
      invariant 288 <= |hd| <= 508 && hd == front + Zeros(|hd| - 288)
      decreases 508 - |hd|
    {
      hd := hd + [0];
    }
    hd := hd + Le32(MAGIC_END);
  }

  /** `convert_from_hex_to_uf2` on parsed records; an address or count beyond 32 bits makes `struct.pack` fail. */
  method ConvertFromHexToUf2(recs: seq<Record>, family: u32) returns (r: Result<seq<byte>>)
    ensures r.Ok? <==> Acceptable(recs) && Addressable(PutAll([], Meaning(recs, 0)))
    ensures r.Ok? ==> r.value == ToUf2(PutAll([], Meaning(recs, 0)), family)
  {
    hide Words, Le32, Acceptable, Meaning, PutAll, EncodeBlock;
    var parsed := PagesFromHex(recs);
    if parsed.Err? {
      return Err(parsed.error);
    }
    var blocks := parsed.value;
    var numblocks := |blocks|;
    if numblocks >= TWO_32 {
      return Err(StructError);
    }
    var resfile: seq<byte> := [];
    var i := 0;
    while i < numblocks
      invariant 0 <= i <= numblocks
      invariant forall j :: 0 <= j < i ==> blocks[j].addr < TWO_32
      invariant resfile == EncodePages(blocks, i, numblocks, family)
    {
      if blocks[i].addr >= TWO_32 {
        return Err(StructError);
      }
      var block := Encode(blocks[i], i, numblocks, family);
      resfile := resfile + block;
      i := i + 1;
    }
    return Ok(resfile);
  }

  // ---------------------------------------------------------------- the image of a HEX file

  /** The byte at an address: the last one written there, or 0. */
  function ImageAt(ws: seq<Write>, addr: nat): byte {
    if ws == [] then 0
    else if ws[|ws| - 1].addr == addr then ws[|ws| - 1].value
    else ImageAt(ws[..|ws| - 1], addr)
  }

  lemma {:induction false} ImageOutside(ws: seq<Write>, addr: nat)
    requires forall i :: 0 <= i < |ws| ==> ws[i].addr != addr
    ensures ImageAt(ws, addr) == 0
    decreases |ws|
  {
    if ws != [] { ImageOutside(ws[..|ws| - 1], addr); }
  }

  /** The flat image holds exactly the written bytes, from the first page to the end of the last. */
  ghost predicate IsImage(pages: seq<Page>, ws: seq<Write>)
    requires pages != []
  {
    var base, end := pages[0].addr, pages[|pages| - 1].addr + PAGE;
    var image := Flat(pages, |pages|);
    && base <= end && |image| == end - base
    && (forall i :: 0 <= i < |ws| ==> base <= ws[i].addr < end)
    && (forall x: nat :: base <= x < end ==> image[x - base] == ImageAt(ws, x))
  }

  lemma {:induction false} FirstPageIsImage(w: Write)
    ensures IsImage(PutByte([], w), [w])
  {
    hide ImageAt, Zeros;
    var pages := PutByte([], w);
    assert Flat(pages, 1) == [] + [] + pages[0].data;
    hide Flat;
    forall x: nat | pages[0].addr <= x < pages[0].addr + PAGE
      ensures pages[0].data[x - pages[0].addr] == ImageAt([w], x)
    {
      FirstPageByte(w, x);
    }
  }

  lemma FirstPageByte(w: Write, x: nat)
    requires PageAddr(w.addr) <= x < PageAddr(w.addr) + PAGE
    ensures PutByte([], w)[0].data[x - PageAddr(w.addr)] == ImageAt([w], x)
  {
    hide ImageAt, Zeros;
    assert [w] == [] + [w];
    ImageSnoc([], w, x);
    ImageOutside([], x);
    ZeroAt(PAGE, x - PageAddr(w.addr));
  }

  /** Everything in the flat image before its last page. */
  function Front(pages: seq<Page>): seq<byte>
    requires pages != []
  {
    var n := |pages|;
    var gap := if n == 1 then 0 else pages[n - 1].addr - (pages[n - 2].addr + PAGE);
    Flat(pages, n - 1) + (if gap > 0 then Zeros(gap) else [])
  }

  lemma FrontThenLast(pages: seq<Page>)
    requires pages != []
    ensures Flat(pages, |pages|) == Front(pages) + pages[|pages| - 1].data
  {
  }

  lemma FrontIsKept(pages: seq<Page>, p: Page)
    requires pages != [] && p.addr == pages[|pages| - 1].addr
    ensures Front(pages[|pages| - 1 := p]) == Front(pages)
  {
    FlatDependsOnFirst(pages, pages[|pages| - 1 := p], |pages| - 1);
  }

  lemma ImageSnoc(ws: seq<Write>, w: Write, x: nat)
    ensures ImageAt(ws + [w], x) == if w.addr == x then w.value else ImageAt(ws, x)
  {
    assert (ws + [w])[..|ws|] == ws;
  }

  /** A byte in the current page changes that one byte of the image. */
  lemma SamePage(pages: seq<Page>, ws: seq<Write>, w: Write)
    requires pages != [] && pages[|pages| - 1].addr == PageAddr(w.addr) && IsImage(pages, ws)
    ensures IsImage(PutByte(pages, w), ws + [w])
  {
    var n := |pages|;
    var data := pages[n - 1].data;
    var p: Page := Piece(PageAddr(w.addr), data[w.addr % PAGE := w.value]);
    hide Front, Flat, ImageAt, Zeros;
    FrontIsKept(pages, p);
    FrontThenLast(pages);
    FrontThenLast(pages[n - 1 := p]);
    var front := Front(pages);
    ImageUpdated(pages[0].addr, front, data, p.data, ws, w);
  }

  lemma ImageUpdated(base: nat, front: seq<byte>, data: Data, data': Data, ws: seq<Write>, w: Write)
    requires base + |front| == PageAddr(w.addr) && data' == data[w.addr % PAGE := w.value]
    requires forall x: nat :: base <= x < base + |front| + PAGE ==> (front + data)[x - base] == ImageAt(ws, x)
    ensures forall x: nat :: base <= x < base + |front| + PAGE ==> (front + data')[x - base] == ImageAt(ws + [w], x)
  {
    hide ImageAt;
    forall x: nat | base <= x < base + |front| + PAGE ensures (front + data')[x - base] == ImageAt(ws + [w], x) {
      ImageSnoc(ws, w, x);
      assert (front + data)[x - base] == ImageAt(ws, x);
    }
  }

  /** A new page, with the gap before it filled with zeros. */
  lemma NewPage(pages: seq<Page>, ws: seq<Write>, w: Write)
    requires pages != [] && pages[|pages| - 1].addr != PageAddr(w.addr) && IsImage(pages, ws)
    requires Follows(pages[|pages| - 1], Piece(PageAddr(w.addr), Zeros(PAGE)))
    ensures IsImage(PutByte(pages, w), ws + [w])
  {
    hide Flat, ImageAt, Zeros;
    var n := |pages|;
    ZerosLength(PAGE);
    var p := Piece(PageAddr(w.addr), Zeros(PAGE)[w.addr % PAGE := w.value]);
    var gap := p.addr - (pages[n - 1].addr + PAGE);
    FlatSnoc(pages, p);
    assert PutByte(pages, w) == pages + [p];
    assert |Zeros(gap)| == gap by { ZerosLength(gap); }
    ImageExtended(pages[0].addr, Flat(pages, n), gap, p.data, ws, w);
  }

  lemma ImageExtended(base: nat, image: seq<byte>, gap: nat, data: Data, ws: seq<Write>, w: Write)
    requires base + |image| + gap == PageAddr(w.addr) && data == Zeros(PAGE)[w.addr % PAGE := w.value]
    requires forall i :: 0 <= i < |ws| ==> base <= ws[i].addr < base + |image|
    requires forall x: nat :: base <= x < base + |image| ==> image[x - base] == ImageAt(ws, x)
    ensures forall x: nat :: base <= x < base + |image| + gap + PAGE ==>
              (image + Zeros(gap) + data)[x - base] == ImageAt(ws + [w], x)
  {
    hide ImageAt;
    forall x: nat | base <= x < base + |image| + gap + PAGE
      ensures (image + Zeros(gap) + data)[x - base] == ImageAt(ws + [w], x)
    {
      ImageSnoc(ws, w, x);
      if x >= base + |image| { ImageOutside(ws, x); }
    }
  }

  lemma {:induction false} PutAllIsImage(ws: seq<Write>)
    requires ws != [] && InOrder(PutAll([], ws), |PutAll([], ws)|)
    ensures PutAll([], ws) != [] && IsImage(PutAll([], ws), ws)
    decreases |ws|
  {
    var init, w := ws[..|ws| - 1], ws[|ws| - 1];
    assert ws == init + [w];
    var pages := PutAll([], init);
    if init == [] {
      FirstPageIsImage(w);
      assert ws == [w] && pages == [];
    } else {
      PutAllNonEmpty(init);
      PutByteKeepsOrder(pages, w);
      PutAllIsImage(init);
      if pages[|pages| - 1].addr == PageAddr(w.addr) {
        SamePage(pages, init, w);
      } else {
        NewPage(pages, init, w);
      }
    }
  }

  lemma PutAllNonEmpty(ws: seq<Write>)
    requires ws != []
    ensures PutAll([], ws) != []
  {
  }

  lemma PutByteKeepsOrder(pages: seq<Page>, w: Write)
    requires pages != [] && InOrder(PutByte(pages, w), |PutByte(pages, w)|)
    ensures InOrder(pages, |pages|)
    ensures pages[|pages| - 1].addr != PageAddr(w.addr) ==>
              Follows(pages[|pages| - 1], Piece(PageAddr(w.addr), Zeros(PAGE)))
  {
    var pages' := PutByte(pages, w);
    forall i | 0 < i < |pages| ensures Follows(pages[i - 1], pages[i]) {
      assert Follows(pages'[i - 1], pages'[i]);
    }
    if pages[|pages| - 1].addr != PageAddr(w.addr) {
      assert Follows(pages'[|pages| - 1], pages'[|pages|]);
    }
  }

  /** HEX to UF2 to binary: it decodes exactly when, each time the records move on to another page, that
      page comes after the one before with a bounded gap (so none is entered twice); and then it gives the
      flat image of the data records, zero where nothing was written, from the first record's page. */
  lemma HexRoundTrip(recs: seq<Record>, family: u32, base: int)
    requires Acceptable(recs) && Meaning(recs, 0) != [] && Addressable(PutAll([], Meaning(recs, 0)))
    ensures var ws := Meaning(recs, 0);
            var pages := PutAll([], ws);
            var r := FromUf2(ToUf2(pages, family), base);
            && (r.Ok? <==> InOrder(pages, |pages|))
            && (r.Ok? ==>
                  && pages != [] && IsImage(pages, ws)
                  && r.value.outp == Flat(pages, |pages|) && r.value.appstartaddr == pages[0].addr)
  {
    var pages := PutAll([], Meaning(recs, 0));
    DecodePages(pages, family, base);
    if InOrder(pages, |pages|) {
      PutAllIsImage(Meaning(recs, 0));
    }
  }
}
