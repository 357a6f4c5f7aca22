/**
  In-place UTF-8 repair, src/meshUtils.cpp: whatever does not parse as a UTF8-char of RFC 3629,
  section 4, is overwritten with '?'.
*/
module Utf8 {
  type byte = bv8

  const QUESTION: byte := 0x3F
  const MAX_LONG_NAME_BYTES := 24

  // ---------------------------------------------------------------- the standard's grammar

  predicate Tail(b: byte) { 0x80 <= b <= 0xBF }

  predicate Utf8_2(a: byte, b: byte) { 0xC2 <= a <= 0xDF && Tail(b) }

  predicate Utf8_3(a: byte, b: byte, c: byte) {
    && Tail(c)
    && ((a == 0xE0 && 0xA0 <= b <= 0xBF) || (0xE1 <= a <= 0xEC && Tail(b)) ||
        (a == 0xED && 0x80 <= b <= 0x9F) || (0xEE <= a <= 0xEF && Tail(b)))
  }

  predicate Utf8_4(a: byte, b: byte, c: byte, d: byte) {
    && Tail(c) && Tail(d)
    && ((a == 0xF0 && 0x90 <= b <= 0xBF) || (0xF1 <= a <= 0xF3 && Tail(b)) || (a == 0xF4 && 0x80 <= b <= 0x8F))
  }

  /** Length of the UTF8-char at the front, or 0 when there is none. */
  function CharLength(s: seq<byte>): (n: nat)
    ensures n <= 4 && n <= |s|
  {
    if |s| >= 1 && s[0] <= 0x7F then 1
    else if |s| >= 2 && Utf8_2(s[0], s[1]) then 2
    else if |s| >= 3 && Utf8_3(s[0], s[1], s[2]) then 3
    else if |s| >= 4 && Utf8_4(s[0], s[1], s[2], s[3]) then 4
    else 0
  }

  predicate WellFormed(s: seq<byte>)
    decreases |s|
  {
    s == [] || (CharLength(s) > 0 && WellFormed(s[CharLength(s)..]))
  }

  // ---------------------------------------------------------------- what the repair does

  /** Sequence length announced by a lead byte; 1 for a byte that cannot lead. */
  function Announced(b: byte): (n: nat)
    ensures 1 <= n <= 4
  {
    if b & 0xE0 == 0xC0 then 2 else if b & 0xF0 == 0xE0 then 3 else if b & 0xF8 == 0xF0 then 4 else 1
  }

  function Questions(n: nat): seq<byte> { seq(n, _ => QUESTION) }

  /** Keep characters; give up on the rest when a lead byte announces more than is left; otherwise
      replace one byte and go on. */
  function Sanitized(s: seq<byte>): seq<byte>
    decreases |s|
  {
    if s == [] then []
    else if CharLength(s) > 0 then s[..CharLength(s)] + Sanitized(s[CharLength(s)..])
    else if Announced(s[0]) > |s| then Questions(|s|)
    else [QUESTION] + Sanitized(s[1..])
  }

  lemma {:induction false} SanitizedLength(s: seq<byte>)
    ensures |Sanitized(s)| == |s|
    decreases |s|
  {
    hide CharLength, Announced;
    if s != [] {
      if CharLength(s) > 0 {
        SanitizedLength(s[CharLength(s)..]);
      } else if Announced(s[0]) <= |s| {
        SanitizedLength(s[1..]);
      }
    }
  }

  lemma CharPrefix(s: seq<byte>, t: seq<byte>)
    requires CharLength(s) > 0
    ensures CharLength(s[..CharLength(s)] + t) == CharLength(s)
  {
    var n := CharLength(s);
    var u := s[..n] + t;
    assert forall i :: 0 <= i < n ==> u[i] == s[i];
    LeadOfChar(s);
  }

  /** The lead byte of a character announces its length. */
  lemma LeadOfChar(s: seq<byte>)
    requires CharLength(s) > 0
    ensures s[0] <= 0x7F || Announced(s[0]) == CharLength(s)
  {
    AnnouncedRanges(s[0]);
  }

  lemma AnnouncedRanges(b: byte)
    ensures Announced(b) == 2 <==> 0xC0 <= b <= 0xDF
    ensures Announced(b) == 3 <==> 0xE0 <= b <= 0xEF
    ensures Announced(b) == 4 <==> 0xF0 <= b <= 0xF7
  {
  }

  lemma WellFormedCons(c: seq<byte>, t: seq<byte>)
    requires CharLength(c) == |c| > 0 && WellFormed(t)
    ensures WellFormed(c + t)
  {
    hide CharLength, Announced;
    CharPrefix(c, t);
    assert c[..|c|] == c && (c + t)[|c|..] == t;
  }

  lemma QuestionIsChar(s: seq<byte>)
    requires s != [] && s[0] == QUESTION
    ensures CharLength(s) == 1
  {
  }

  lemma {:induction false} QuestionsWellFormed(n: nat)
    ensures WellFormed(Questions(n))
    decreases n
  {
    hide CharLength, Announced;
    if n > 0 {
      QuestionsWellFormed(n - 1);
      QuestionIsChar(Questions(n));
      assert Questions(n)[1..] == Questions(n - 1);
    }
  }

  /** The result is well formed for every input. */
  lemma {:induction false} SanitizedIsWellFormed(s: seq<byte>)
    ensures WellFormed(Sanitized(s))
    decreases |s|
  {
    hide CharLength, Announced;
    if s != [] {
      var n := CharLength(s);
      if n > 0 {
        SanitizedIsWellFormed(s[n..]);
        CharPrefix(s, []);
        assert s[..n] + [] == s[..n];
        WellFormedCons(s[..n], Sanitized(s[n..]));
      } else if Announced(s[0]) > |s| {
        QuestionsWellFormed(|s|);
      } else {
        SanitizedIsWellFormed(s[1..]);
        QuestionIsChar([QUESTION]);
        WellFormedCons([QUESTION], Sanitized(s[1..]));
      }
    }
  }

  /** Well-formed input is left alone, and only well-formed input is. */
  lemma {:induction false} UnchangedIffWellFormed(s: seq<byte>)
    ensures Sanitized(s) == s <==> WellFormed(s)
  {
    hide CharLength, Announced;
    SanitizedIsWellFormed(s);
    if WellFormed(s) {
      WellFormedIsKept(s);
    }
  }

  lemma {:induction false} WellFormedIsKept(s: seq<byte>)
    requires WellFormed(s)
    ensures Sanitized(s) == s
    decreases |s|
  {
    hide CharLength, Announced;
    if s != [] {
      WellFormedIsKept(s[CharLength(s)..]);
    }
  }

  lemma {:induction false} SanitizedIsIdempotent(s: seq<byte>)
    ensures Sanitized(Sanitized(s)) == Sanitized(s)
  {
    hide CharLength, Announced;
    SanitizedIsWellFormed(s);
    WellFormedIsKept(Sanitized(s));
  }

  lemma NoQuestionLead(s: seq<byte>)
    requires s != [] && CharLength(s) == 0
    ensures s[0] != QUESTION
  {
  }

  /** Every byte kept, or turned into '?'. */
  predicate Repaired(was: seq<byte>, now: seq<byte>) {
    |was| == |now| && forall i :: 0 <= i < |was| ==> now[i] == was[i] || (now[i] == QUESTION && was[i] != QUESTION)
  }

  lemma RepairedConcat(a: seq<byte>, b: seq<byte>, c: seq<byte>, d: seq<byte>)
    requires Repaired(a, b) && Repaired(c, d)
    ensures Repaired(a + c, b + d)
  {
  }

  /** The repair never moves, adds or zeroes anything. */
  lemma {:induction false} SanitizedBytewise(s: seq<byte>)
    ensures Repaired(s, Sanitized(s))
    decreases |s|
  {
    hide CharLength, Announced;
    if s != [] {
      var n := CharLength(s);
      if n > 0 {
        SanitizedBytewise(s[n..]);
        RepairedConcat(s[..n], s[..n], s[n..], Sanitized(s[n..]));
        assert s[..n] + s[n..] == s;
      } else if Announced(s[0]) <= |s| {
        NoQuestionLead(s);
        SanitizedBytewise(s[1..]);
        RepairedConcat([s[0]], [QUESTION], s[1..], Sanitized(s[1..]));
        assert [s[0]] + s[1..] == s;
      }
    }
  }

  // ---------------------------------------------------------------- the code's test is the grammar

  predicate Continuation(b: byte) { b & 0xC0 == 0x80 }

  predicate InRange(cp: bv32, min: bv32) {
    !(cp < min || cp > 0x10FFFF || (cp >= 0xD800 && cp <= 0xDFFF))
  }

  lemma Accepts2(a: byte, b: byte)
    requires a & 0xE0 == 0xC0
    ensures Continuation(b) && InRange(((a & 0x1F) as bv32 << 6) | (b & 0x3F) as bv32, 0x80) <==> Utf8_2(a, b)
  {
  }

  lemma Accepts3(a: byte, b: byte, c: byte)
    requires a & 0xF0 == 0xE0
    ensures Continuation(b) && Continuation(c) &&
            InRange(((((a & 0x0F) as bv32 << 6) | (b & 0x3F) as bv32) << 6) | (c & 0x3F) as bv32, 0x800)
            <==> Utf8_3(a, b, c)
  {
  }

  lemma Accepts4(a: byte, b: byte, c: byte, d: byte)
    requires a & 0xF8 == 0xF0
    ensures Continuation(b) && Continuation(c) && Continuation(d) &&
            InRange(((((((a & 0x07) as bv32 << 6) | (b & 0x3F) as bv32) << 6) | (c & 0x3F) as bv32) << 6)
                    | (d & 0x3F) as bv32, 0x10000)
            <==> Utf8_4(a, b, c, d)
  {
  }

  /** The payload bits of a lead byte. */
  function LeadBits(b: byte, n: nat): bv32 {
    if n == 2 then (b & 0x1F) as bv32 else if n == 3 then (b & 0x0F) as bv32 else (b & 0x07) as bv32
  }

  /** Six more bits of a code point. */
  function Append6(cp: bv32, b: byte): bv32 { (cp << 6) | (b & 0x3F) as bv32 }

  /** The code point after `j` of the `n` bytes. */
  function CodePoint(s: seq<byte>, n: nat, j: nat): bv32
    requires 1 <= j <= |s|
  {
    if j == 1 then LeadBits(s[0], n) else Append6(CodePoint(s, n, j - 1), s[j - 1])
  }

  function MinCodePoint(n: nat): bv32 { if n == 2 then 0x80 else if n == 3 then 0x800 else 0x10000 }

  predicate Accepted(s: seq<byte>, n: nat)
    requires 1 <= n <= 4 && n <= |s|
  {
    (forall k :: 1 <= k < n ==> Continuation(s[k])) && InRange(CodePoint(s, n, n), MinCodePoint(n))
  }

  lemma Append6Is(cp: bv32, b: byte)
    ensures Append6(cp, b) == (cp << 6) | (b & 0x3F) as bv32
  {
  }

  lemma LeadBitsIs(b: byte)
    ensures LeadBits(b, 2) == (b & 0x1F) as bv32 && LeadBits(b, 3) == (b & 0x0F) as bv32 && LeadBits(b, 4) == (b & 0x07) as bv32
  {
  }

  lemma {:induction false} CodePointUnfolds(s: seq<byte>, n: nat)
    requires 2 <= n <= 4 && n <= |s|
    ensures n == 2 ==> CodePoint(s, n, n) == Append6(LeadBits(s[0], 2), s[1])
    ensures n == 3 ==> CodePoint(s, n, n) == Append6(Append6(LeadBits(s[0], 3), s[1]), s[2])
    ensures n == 4 ==> CodePoint(s, n, n) == Append6(Append6(Append6(LeadBits(s[0], 4), s[1]), s[2]), s[3])
  {
    hide Append6, LeadBits;
    if n == 3 { assert CodePoint(s, n, 2) == Append6(CodePoint(s, n, 1), s[1]); }
    if n == 4 { assert CodePoint(s, n, 3) == Append6(CodePoint(s, n, 2), s[2]); }
  }

  /** The code's test of an announced sequence accepts exactly the standard's characters. */
  lemma AcceptedIsGrammar(s: seq<byte>, n: nat)
    requires 2 <= n <= |s| && n == Announced(s[0])
    ensures Accepted(s, n) <==> CharLength(s) == n
    ensures CharLength(s) == n || CharLength(s) == 0
  {
    AnnouncedRanges(s[0]);
    CodePointUnfolds(s, n);
    LeadBitsIs(s[0]);
    hide CodePoint, InRange, Continuation, Append6, LeadBits;
    var cp := LeadBits(s[0], n);
    Append6Is(cp, s[1]);
    if n == 2 {
      Accepts2(s[0], s[1]);
    } else {
      var cp2 := Append6(cp, s[1]);
      Append6Is(cp2, s[2]);
      if n == 3 {
        Accepts3(s[0], s[1], s[2]);
      } else {
        Append6Is(Append6(cp2, s[2]), s[3]);
        Accepts4(s[0], s[1], s[2], s[3]);
      }
    }
  }

  // ---------------------------------------------------------------- C strings in fixed buffers

  /** Length of the C string at the front of a buffer. */
  function StrLen(buf: seq<byte>): (n: nat)
    ensures n <= |buf|
    ensures forall i :: 0 <= i < n ==> buf[i] != 0
    ensures n < |buf| ==> buf[n] == 0
  {
    if buf == [] || buf[0] == 0 then 0
    else
      var n := StrLen(buf[1..]);
      assert forall i :: 0 < i < n + 1 ==> buf[i] == buf[1..][i - 1];
      n + 1
  }

  lemma StrLenIs(buf: seq<byte>, n: nat)
    requires n <= |buf| && (forall i :: 0 <= i < n ==> buf[i] != 0) && (n < |buf| ==> buf[n] == 0)
    ensures StrLen(buf) == n
  {
  }

  /** The buffer with a NUL forced into its last byte. */
  function Terminated(buf: seq<byte>): seq<byte>
    requires buf != []
  {
    buf[|buf| - 1 := 0]
  }

  /** What `sanitizeUtf8` leaves in a buffer: the string repaired, everything after it as it was. */
  function SanitizedBuffer(buf: seq<byte>): (r: seq<byte>)
    requires buf != []
    ensures |r| == |buf|
  {
    var t := Terminated(buf);
    SanitizedLength(t[..StrLen(t)]);
    Sanitized(t[..StrLen(t)]) + t[StrLen(t)..]
  }

  /** The repaired buffer is a terminated, well-formed string of the same length, and repairing it
      again changes nothing. */
  lemma SanitizedBufferMeaning(buf: seq<byte>)
    requires buf != []
    ensures var r := SanitizedBuffer(buf);
            && r[|buf| - 1] == 0
            && StrLen(r) == StrLen(Terminated(buf)) < |buf|
            && WellFormed(r[..StrLen(r)])
    ensures SanitizedBuffer(SanitizedBuffer(buf)) == SanitizedBuffer(buf)
  {
    hide Sanitized, WellFormed, StrLen, CharLength, Announced;
    var t := Terminated(buf);
    var n := StrLen(t);
    var r := SanitizedBuffer(buf);
    StringRepaired(t, n);
    StrLenIs(r, n);
    assert Terminated(r) == r && r[..n] == Sanitized(t[..n]) && r[n..] == t[n..];
    SanitizedIsIdempotent(t[..n]);
  }

  /** A buffer is left alone exactly when it already holds a terminated, well-formed string. */
  lemma BufferKeptIff(buf: seq<byte>)
    requires buf != []
    ensures SanitizedBuffer(buf) == buf <==> buf[|buf| - 1] == 0 && WellFormed(buf[..StrLen(buf)])
  {
    hide Sanitized, WellFormed, StrLen, CharLength, Announced;
    var t := Terminated(buf);
    var n := StrLen(t);
    var r := SanitizedBuffer(buf);
    StringRepaired(t, n);
    assert r[..n] == Sanitized(t[..n]) && r[n..] == t[n..];
    RepairChangesBuffer(t, n, r);
    if buf[|buf| - 1] == 0 {
      assert t == buf;
      UnchangedIffWellFormed(t[..n]);
    }
  }

  lemma RepairChangesBuffer(t: seq<byte>, len: nat, r: seq<byte>)
    requires len < |t| == |r| && r[len..] == t[len..]
    ensures r == t <==> r[..len] == t[..len]
    ensures r[|t| - 1] == t[|t| - 1]
  {
    assert r == r[..len] + r[len..] && t == t[..len] + t[len..];
    assert r[|t| - 1] == r[len..][|t| - 1 - len];
  }

  lemma StringRepaired(t: seq<byte>, n: nat)
    requires t != [] && t[|t| - 1] == 0 && n == StrLen(t)
    ensures n < |t| && |Sanitized(t[..n])| == n
    ensures var r := Sanitized(t[..n]) + t[n..];
            (forall i :: 0 <= i < n ==> r[i] != 0) && r[n] == 0 && r[|t| - 1] == 0 && r[..n] == Sanitized(t[..n])
    ensures WellFormed(Sanitized(t[..n]))
  {
    hide CharLength, Announced;
    SanitizedBytewise(t[..n]);
    SanitizedIsWellFormed(t[..n]);
  }

  // ---------------------------------------------------------------- the code

  method SanitizeUtf8(buf: array?<byte>, bufSize: nat) returns (replaced: bool)
    requires buf != null ==> bufSize <= buf.Length
    modifies buf
    ensures buf == null || bufSize == 0 ==> !replaced && (buf != null ==> buf[..] == old(buf[..]))
    ensures buf != null && bufSize > 0 ==>
              && buf[..bufSize] == SanitizedBuffer(old(buf[..bufSize]))
              && buf[bufSize..] == old(buf[bufSize..])
              && (replaced <==> buf[..bufSize] != old(buf[..bufSize]))
  {
    if buf == null || bufSize == 0 {
      return false;
    }
    hide Sanitized, StrLen, CharLength, Announced;
    replaced := buf[bufSize - 1] != 0;
    buf[bufSize - 1] := 0;
    ghost var all := buf[..];
    assert buf[..bufSize] == all[..bufSize];
    var len := StringLength(buf, bufSize);
    assert buf[..len] == all[..len] && buf[len..] == all[len..];
    var changed := SanitizeString(buf, len);
    replaced := replaced || changed;
    assert buf[..len] == buf[..][..len] && buf[len..] == buf[..][len..];
    StringRewritten(old(buf[..]), bufSize, len, buf[..]);
    assert buf[..bufSize] == buf[..][..bufSize] && buf[bufSize..] == buf[..][bufSize..];
    assert old(buf[..bufSize]) == old(buf[..])[..bufSize] && old(buf[bufSize..]) == old(buf[..])[bufSize..];
  }

  /** Forcing the NUL and repairing the string in place give the repaired buffer. */
  lemma StringRewritten(was: seq<byte>, size: nat, len: nat, now: seq<byte>)
    requires 0 < size <= |was| == |now|
    requires var t := was[size - 1 := 0];
             && len == StrLen(t[..size]) < size
             && now[..len] == Sanitized(t[..len]) && now[len..] == t[len..]
    ensures now[..size] == SanitizedBuffer(was[..size]) && now[size..] == was[size..]
    ensures now[..size] != was[..size] <==> was[size - 1] != 0 || now[..len] != was[size - 1 := 0][..len]
  {
    hide Sanitized, StrLen, CharLength, Announced;
    var t := was[size - 1 := 0];
    assert forall i :: len <= i < |now| ==> now[i] == now[len..][i - len] && t[i] == t[len..][i - len];
    assert t[..size] == Terminated(was[..size]) && t[..size][..len] == t[..len];
    assert now[..size] == now[..len] + t[..size][len..];
    RepairChangesBuffer(t[..size], len, now[..size]);
    assert now[..size][..len] == now[..len];
    if was[size - 1] == 0 {
      assert t == was;
    }
  }

  /** `strlen`, on a buffer known to hold a NUL. */
  method StringLength(buf: array<byte>, bufSize: nat) returns (len: nat)
    requires 0 < bufSize <= buf.Length && buf[bufSize - 1] == 0
    ensures len == StrLen(buf[..bufSize]) < bufSize
  {
    len := 0;
    while buf[len] != 0
      invariant 0 <= len < bufSize
      invariant forall i :: 0 <= i < len ==> buf[i] != 0
      decreases bufSize - len
    {
      len := len + 1;
    }
    StrLenIs(buf[..bufSize], len);
  }

  /** The scan over the first `len` bytes. */
  method SanitizeString(buf: array<byte>, len: nat) returns (replaced: bool)
    requires len <= buf.Length
    modifies buf
    ensures buf[..len] == Sanitized(old(buf[..len])) && buf[len..] == old(buf[len..])
    ensures replaced <==> buf[..len] != old(buf[..len])
  {
    hide Sanitized, CharLength, Announced, ScannedTo;
    replaced := false;
    var i := 0;
    ghost var was := buf[..];
    ScanStarts(was, len);
    while i < len
      invariant 0 <= i <= len
      invariant ScannedTo(was, buf[..], len, i, replaced)
    {
      ghost var before := buf[..];
      assert buf[i..len] == before[i..len];
      var n, changed := ScanStep(buf, i, len);
      ghost var now := buf[..];
      assert now[..i] == buf[..i] && now[i + n..] == buf[i + n..] && now[i..i + n] == buf[i..i + n] && now[i + n..len] == buf[i + n..len];
      ScanAdvances(was, before, now, len, i, n, replaced, changed);
      replaced := replaced || changed;
      i := i + n;
    }
    ScanEnds(was, buf[..], len, replaced);
    assert buf[..len] == buf[..][..len] && buf[len..] == buf[..][len..];
  }

  /** The first `i` of `len` bytes are done: what follows is untouched, and repairing it completes the
      repair of the whole. */
  ghost predicate ScannedTo(was: seq<byte>, now: seq<byte>, len: nat, i: nat, replaced: bool) {
    && i <= len <= |was| == |now| && now[i..] == was[i..]
    && now[..i] + Sanitized(now[i..len]) == Sanitized(was[..len])
    && (replaced <==> now[..i] != was[..i])
  }

  lemma ScanStarts(was: seq<byte>, len: nat)
    requires len <= |was|
    ensures ScannedTo(was, was, len, 0, false)
  {
    hide Sanitized;
    assert was[..0] == [] && was[0..len] == was[..len];
  }

  lemma ScanEnds(was: seq<byte>, now: seq<byte>, len: nat, replaced: bool)
    requires ScannedTo(was, now, len, len, replaced)
    ensures now[..len] == Sanitized(was[..len]) && now[len..] == was[len..] && (replaced <==> now[..len] != was[..len])
  {
    assert now[len..len] == [];
    NothingLeft();
    hide Sanitized;
    assert now[..len] + [] == now[..len];
  }

  lemma ScanAdvances(was: seq<byte>, before: seq<byte>, now: seq<byte>, len: nat, i: nat, n: nat, replaced: bool, changed: bool)
    requires ScannedTo(was, before, len, i, replaced) && i + n <= len && |now| == |before|
    requires now[..i] == before[..i] && now[i + n..] == before[i + n..]
    requires now[i..i + n] + Sanitized(now[i + n..len]) == Sanitized(before[i..len])
    requires changed <==> now[i..i + n] != before[i..i + n]
    ensures ScannedTo(was, now, len, i + n, replaced || changed)
  {
    hide Sanitized;
    assert now[..i + n] == now[..i] + now[i..i + n] && was[..i + n] == was[..i] + was[i..i + n];
    assert before[i..i + n] == before[i..][..n] == was[i..][..n] == was[i..i + n];
    assert before[i + n..] == before[i..][n..] == was[i..][n..] == was[i + n..];
    SplitEqual(now[..i], was[..i], now[i..i + n], was[i..i + n]);
    Reassociate(now[..i], now[i..i + n], Sanitized(now[i + n..len]));
  }

  lemma Reassociate(a: seq<byte>, b: seq<byte>, c: seq<byte>)
    ensures (a + b) + c == a + (b + c)
  {
  }

  lemma SplitEqual(a: seq<byte>, b: seq<byte>, c: seq<byte>, d: seq<byte>)
    requires |a| == |b|
    ensures a + c == b + d <==> a == b && c == d
  {
    if a + c == b + d {
      assert (a + c)[..|a|] == a && (b + d)[..|b|] == b;
      assert (a + c)[|a|..] == c && (b + d)[|b|..] == d;
    }
  }

  /** One turn of the scan: a character kept, a byte replaced, or the whole rest given up. `n` bytes
      are done with. */
  method ScanStep(buf: array<byte>, i: nat, len: nat) returns (n: nat, replaced: bool)
    requires i < len <= buf.Length
    modifies buf
    ensures 0 < n <= len - i && buf[..i] == old(buf[..i]) && buf[i + n..] == old(buf[i + n..])
    ensures old(buf[i..len])[n..] == buf[i + n..len]
    ensures buf[i..i + n] + Sanitized(buf[i + n..len]) == Sanitized(old(buf[i..len]))
    ensures replaced <==> buf[i..i + n] != old(buf[i..i + n])
  {
    hide Sanitized, CharLength, Announced, Questions;
    var b := buf[i];
    ghost var s := buf[i..len];
    assert s[0] == b;
    LeadFacts(s);
    if b <= 0x7F {
      KeptStep(s, 1);
      return 1, false;
    }
    var seqLen;
    if b & 0xE0 == 0xC0 {
      seqLen := 2;
    } else if b & 0xF0 == 0xE0 {
      seqLen := 3;
    } else if b & 0xF8 == 0xF0 {
      seqLen := 4;
    } else {
      ReplaceByte(buf, i, len);
      return 1, true;
    }
    if i + seqLen > len {
      GiveUp(buf, i, len);
      return len - i, true;
    }
    var valid := ValidSequence(buf, i, len, seqLen);
    if valid {
      KeptStep(s, seqLen);
      return seqLen, false;
    }
    ReplaceByte(buf, i, len);
    return 1, true;
  }

  lemma KeptStep(s: seq<byte>, n: nat)
    requires n == CharLength(s) > 0
    ensures s[..n] + Sanitized(s[n..]) == Sanitized(s)
  {
    hide CharLength, Announced;
  }

  /** The truncated sequence at the end: every remaining byte becomes '?'. */
  method GiveUp(buf: array<byte>, i: nat, len: nat)
    requires i < len <= buf.Length && CharLength(buf[i..len]) == 0 && Announced(buf[i]) > len - i
    modifies buf
    ensures buf[..i] == old(buf[..i]) && buf[len..] == old(buf[len..])
    ensures old(buf[i..len])[len - i..] == buf[len..len]
    ensures buf[i..len] + Sanitized(buf[len..len]) == Sanitized(old(buf[i..len]))
    ensures buf[i..len] != old(buf[i..len])
  {
    ghost var s := buf[i..len];
    GivenUp(s);
    forall j | i <= j < len { buf[j] := QUESTION; }
    assert forall k :: len <= k < buf.Length ==> buf[k] == old(buf[k]);
    assert forall k :: 0 <= k < i ==> buf[k] == old(buf[k]);
    assert buf[i..len] == Questions(len - i) && buf[len..len] == [];
    assert buf[i..len][0] == QUESTION != s[0];
  }

  /** `buf[i] = '?'`, where no character starts. */
  method ReplaceByte(buf: array<byte>, i: nat, len: nat)
    requires i < len <= buf.Length && CharLength(buf[i..len]) == 0 && Announced(buf[i]) <= len - i
    modifies buf
    ensures buf[..i] == old(buf[..i]) && buf[i + 1..] == old(buf[i + 1..])
    ensures old(buf[i..len])[1..] == buf[i + 1..len]
    ensures buf[i..i + 1] + Sanitized(buf[i + 1..len]) == Sanitized(old(buf[i..len]))
    ensures buf[i..i + 1] != old(buf[i..i + 1])
  {
    NoQuestionLead(buf[i..len]);
    ghost var s := buf[i..len];
    buf[i] := QUESTION;
    assert s[1..] == buf[i + 1..len];
    assert buf[i..i + 1] == [QUESTION] && s[0] != QUESTION;
  }

  lemma NothingLeft()
    ensures Sanitized([]) == []
  {
    hide CharLength, Announced;
  }

  /** What the lead byte tells before the sequence is looked at. */
  lemma LeadFacts(s: seq<byte>)
    requires s != []
    ensures var b := s[0];
            && (b <= 0x7F ==> CharLength(s) == 1)
            && (b & 0xE0 == 0xC0 ==> Announced(b) == 2)
            && (b & 0xE0 != 0xC0 && b & 0xF0 == 0xE0 ==> Announced(b) == 3)
            && (b & 0xE0 != 0xC0 && b & 0xF0 != 0xE0 && b & 0xF8 == 0xF0 ==> Announced(b) == 4)
            && (b & 0xE0 != 0xC0 && b & 0xF0 != 0xE0 && b & 0xF8 != 0xF0 ==> Announced(b) == 1)
            && (b > 0x7F && (Announced(b) == 1 || Announced(b) > |s|) ==> CharLength(s) == 0)
  {
    AnnouncedRanges(s[0]);
  }

  /** The rest given up: all of it becomes '?'. */
  lemma GivenUp(s: seq<byte>)
    requires s != [] && CharLength(s) == 0 && Announced(s[0]) > |s|
    ensures Sanitized(s) == Questions(|s|) && s[0] != QUESTION
    ensures Sanitized([]) == []
  {
    NoQuestionLead(s);
  }

  /** Continuation bytes, then the decoded code point: not overlong, in range, no surrogate. */
  method ValidSequence(buf: array<byte>, i: nat, len: nat, seqLen: nat) returns (valid: bool)
    requires i + seqLen <= len <= buf.Length && 2 <= seqLen == Announced(buf[i])
    ensures valid <==> CharLength(buf[i..len]) == seqLen
    ensures !valid ==> CharLength(buf[i..len]) == 0
  {
    hide CharLength, Announced, InRange, Continuation, LeadBits, Append6, MinCodePoint;
    ghost var s := buf[i..len];
    AcceptedIsGrammar(s, seqLen);
    valid := ContinuationsOk(buf, i, len, seqLen);
    if valid {
      var cp := LeadBits(buf[i], seqLen);
      var j := 1;
      while j < seqLen
        invariant 1 <= j <= seqLen && cp == CodePoint(s, seqLen, j)
      {
        cp := Append6(cp, buf[i + j]);
        j := j + 1;
      }
      if !InRange(cp, MinCodePoint(seqLen)) {
        valid := false;
      }
    }
  }

  method ContinuationsOk(buf: array<byte>, i: nat, len: nat, seqLen: nat) returns (valid: bool)
    requires i + seqLen <= len <= buf.Length && 2 <= seqLen
    ensures valid <==> forall k :: 1 <= k < seqLen ==> Continuation(buf[i..len][k])
  {
    ghost var s := buf[i..len];
    var j := 1;
    while j < seqLen
      invariant 1 <= j <= seqLen
      invariant forall k :: 1 <= k < j ==> Continuation(s[k])
    {
      if buf[i + j] & 0xC0 != 0x80 {
        assert !Continuation(s[j]);
        return false;
      }
      j := j + 1;
    }
    return true;
  }

  method ClampLongName(longName: array<byte>)
    requires longName.Length >= 25
    modifies longName
    ensures longName[..25] == SanitizedBuffer(old(longName[..25])[24 := 0])
    ensures longName[25..] == old(longName[25..])
  {
    longName[MAX_LONG_NAME_BYTES] := 0;
    assert longName[..MAX_LONG_NAME_BYTES + 1] == old(longName[..MAX_LONG_NAME_BYTES + 1])[MAX_LONG_NAME_BYTES := 0];
    var _ := SanitizeUtf8(longName, MAX_LONG_NAME_BYTES + 1);
  }

  // ---------------------------------------------------------------- clamping keeps whole characters

  /** Bytes of the characters lying fully inside the first `n` bytes. */
  function WholeChars(s: seq<byte>, n: nat): (k: nat)
    requires WellFormed(s)
    ensures k <= n && k <= |s|
    decreases |s|
  {
    if s == [] || CharLength(s) > n then 0
    else CharLength(s) + WholeChars(s[CharLength(s)..], n - CharLength(s))
  }

  /** A character cut short is no character, and its lead byte announces more than is left. */
  lemma CutCharacter(s: seq<byte>, n: nat)
    requires 0 < n < CharLength(s)
    ensures CharLength(s[..n]) == 0 && Announced(s[0]) > n
  {
    LeadOfChar(s);
    AnnouncedRanges(s[0]);
  }

  /** Cut a well-formed string anywhere and repair it: every character fully inside the cut stays, and
      the rest of the last one becomes '?'. */
  lemma {:induction false} ClampKeepsWholeChars(s: seq<byte>, n: nat)
    requires WellFormed(s) && n <= |s|
    ensures var k := WholeChars(s, n);
            && Sanitized(s[..n]) == s[..k] + Questions(n - k)
            && WellFormed(s[..k]) && WellFormed(s[k..])
            && (k == n || (k < |s| && k + CharLength(s[k..]) > n))
    decreases |s|
  {
    hide CharLength, Announced, Sanitized, Questions;
    if s == [] || CharLength(s) > n {
      NothingKept(s, n);
    } else {
      var c := CharLength(s);
      var rest := s[c..];
      ClampKeepsWholeChars(rest, n - c);
      PrependChar(s, n, WholeChars(rest, n - c));
    }
  }

  lemma NothingKept(s: seq<byte>, n: nat)
    requires n <= |s| && (s == [] || CharLength(s) > n)
    ensures Sanitized(s[..n]) == s[..0] + Questions(n) && WellFormed(s[..0]) && s[0..] == s
  {
    assert s[..0] == [];
    if n > 0 {
      CutCharacter(s, n);
      assert s[..n][0] == s[0];
    } else {
      assert s[..n] == [];
    }
  }

  lemma PrependChar(s: seq<byte>, n: nat, k: nat)
    requires 0 < CharLength(s) <= n <= |s| && k <= n - CharLength(s)
    requires var rest := s[CharLength(s)..];
             Sanitized(rest[..n - CharLength(s)]) == rest[..k] + Questions(n - CharLength(s) - k) && WellFormed(rest[..k])
    ensures var c := CharLength(s);
            && Sanitized(s[..n]) == s[..c + k] + Questions(n - (c + k))
            && WellFormed(s[..c + k]) && s[c + k..] == s[c..][k..]
  {
    var c := CharLength(s);
    var rest := s[c..];
    CharPrefix(s, s[c..n]);
    CharPrefix(s, []);
    hide CharLength, Announced, WellFormed, Questions, Sanitized;
    assert s[..n] == s[..c] + s[c..n] && s[..c] + [] == s[..c];
    KeptStep(s[..n], c);
    WellFormedCons(s[..c], rest[..k]);
    SplitPrefix(s, c, k, n, Questions(n - (c + k)));
  }

  lemma SplitPrefix(s: seq<byte>, c: nat, k: nat, n: nat, q: seq<byte>)
    requires c + k <= n <= |s|
    ensures s[..n][..c] == s[..c] && s[..n][c..] == s[c..][..n - c]
    ensures s[..c] + s[c..][..k] == s[..c + k]
    ensures s[..c] + (s[c..][..k] + q) == s[..c + k] + q
    ensures s[c + k..] == s[c..][k..]
  {
  }

  function Min(a: nat, b: nat): nat { if a <= b then a else b }

  /** The first `n` bytes of a buffer are those of the name, and a shorter name ends with its NUL. */
  predicate Holds(buffer: seq<byte>, name: seq<byte>) {
    var n := Min(|name|, 24);
    |buffer| == 25 && buffer[..n] == name[..n] && (n < 24 ==> buffer[n] == 0)
  }

  /** `clampLongName` on a well-formed name: names up to 24 bytes are kept, longer ones lose only the
      character that straddles byte 24 and what follows. */
  lemma ClampedName(name: seq<byte>, buffer: seq<byte>)
    requires WellFormed(name) && 0 !in name && Holds(buffer, name)
    ensures var r := SanitizedBuffer(buffer[24 := 0]);
            var n := Min(|name|, 24);
            var k := WholeChars(name, n);
            && StrLen(r) == n && r[..n] == name[..k] + Questions(n - k)
            && (|name| <= 24 ==> r[..n] == name)
  {
    hide Sanitized, WellFormed, StrLen, WholeChars, Questions, SanitizedBuffer, CharLength, Announced;
    var n := Min(|name|, 24);
    ClampedBuffer(name, buffer, n);
    ClampKeepsWholeChars(name, n);
    if n == |name| {
      KeptWhole(name);
    }
  }

  lemma KeptWhole(name: seq<byte>)
    requires WellFormed(name)
    ensures Sanitized(name[..|name|]) == name
  {
    hide CharLength, Announced;
    assert name[..|name|] == name;
    WellFormedIsKept(name);
  }

  lemma ClampedBuffer(name: seq<byte>, buffer: seq<byte>, n: nat)
    requires 0 !in name && Holds(buffer, name) && n == Min(|name|, MAX_LONG_NAME_BYTES)
    ensures var r := SanitizedBuffer(buffer[MAX_LONG_NAME_BYTES := 0]);
            StrLen(r) == n && r[..n] == Sanitized(name[..n])
  {
    var t := buffer[MAX_LONG_NAME_BYTES := 0];
    assert forall i :: 0 <= i < n ==> t[i] == buffer[..n][i] == name[..n][i] && name[i] in name;
    StrLenIs(t, n);
    assert t[..n] == name[..n];
    assert Terminated(t) == t;
    SanitizedLength(name[..n]);
    SanitizedBufferMeaning(t);
    hide Sanitized, StrLen, WellFormed, CharLength, Announced;
  }
}
