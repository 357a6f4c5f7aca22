/**
  Crash-safe file replacement, src/SafeFile.cpp: write to a temporary file, read it back against a
  running XOR hash, then rename it over the target.
*/
module SafeFile {
  type byte = bv8
  type Path = string
  type Disk = map<Path, seq<byte>>

  function Tmp(p: Path): Path { p + ".tmp" }

  // ---------------------------------------------------------------- the hash

  /** Sum over GF(2), kept as a named function so that proofs need not look at bits. */
  function Plus(a: byte, b: byte): byte { a ^ b }

  lemma PlusLaws(a: byte, b: byte, c: byte)
    ensures Plus(a, b) == Plus(b, a) && Plus(Plus(a, b), c) == Plus(a, Plus(b, c))
    ensures Plus(a, 0) == a && (Plus(a, b) == a <==> b == 0)
  {
  }

  lemma PlusCancels(a: byte, b: byte, c: byte)
    ensures Plus(a, c) == Plus(b, c) <==> a == b
  {
  }

  function Hash(s: seq<byte>): byte {
    if s == [] then 0 else Plus(Hash(s[..|s| - 1]), s[|s| - 1])
  }

  lemma {:induction false} HashConcat(a: seq<byte>, b: seq<byte>)
    ensures Hash(a + b) == Plus(Hash(a), Hash(b))
    decreases |b|
  {
    hide Plus;
    if b == [] {
      assert a + b == a;
      PlusLaws(Hash(a), 0, 0);
    } else {
      var init, x := b[..|b| - 1], b[|b| - 1];
      HashConcat(a, init);
      assert (a + b)[..|a + b| - 1] == a + init;
      PlusLaws(Hash(a), Hash(init), x);
    }
  }

  /** Files of one length that differ in exactly one byte have different hashes. */
  lemma {:induction false} HashDetectsOneByte(written: seq<byte>, stored: seq<byte>, k: nat)
    requires |written| == |stored| && k < |written|
    requires forall i :: 0 <= i < |written| && i != k ==> written[i] == stored[i]
    ensures Hash(stored) == Hash(written) <==> stored == written
    decreases |written|
  {
    hide Plus;
    var n := |written| - 1;
    if k < n {
      HashDetectsOneByte(written[..n], stored[..n], k);
      PlusCancels(Hash(written[..n]), Hash(stored[..n]), written[n]);
      assert stored == stored[..n] + [stored[n]] && written == written[..n] + [written[n]];
      assert stored == written <==> stored[..n] == written[..n] by { if stored == written {} }
    } else {
      assert written[..n] == stored[..n];
      PlusCancels(written[n], stored[n], Hash(written[..n]));
      PlusLaws(Hash(written[..n]), written[n], 0);
      PlusLaws(Hash(written[..n]), stored[n], 0);
      assert stored == stored[..n] + [stored[n]] && written == written[..n] + [written[n]];
    }
  }

  /** What was changed: bytewise sum over GF(2). */
  function Changes(a: seq<byte>, b: seq<byte>): seq<byte>
    requires |a| == |b|
  {
    seq(|a|, i requires 0 <= i < |a| => Plus(a[i], b[i]))
  }

  lemma Regroup(a: byte, b: byte, c: byte, d: byte)
    ensures Plus(Plus(a, b), Plus(c, d)) == Plus(Plus(a, c), Plus(b, d))
  {
    hide Plus;
    PlusLaws(a, b, Plus(c, d));
    PlusLaws(b, c, d);
    PlusLaws(c, b, d);
    PlusLaws(a, c, Plus(b, d));
  }

  lemma {:induction false} HashLinear(a: seq<byte>, b: seq<byte>)
    requires |a| == |b|
    ensures Hash(Changes(a, b)) == Plus(Hash(a), Hash(b))
    decreases |a|
  {
    hide Plus;
    if a == [] {
      PlusLaws(0, 0, 0);
    } else {
      var n := |a| - 1;
      HashLinear(a[..n], b[..n]);
      assert Changes(a, b)[..n] == Changes(a[..n], b[..n]);
      Regroup(Hash(a[..n]), Hash(b[..n]), a[n], b[n]);
    }
  }

  lemma PlusIsZero(a: byte, b: byte)
    ensures Plus(a, b) == 0 <==> a == b
  {
  }

  /** A changed file passes the readback exactly when the hash of its changes is 0. */
  lemma ChangesPassIff(written: seq<byte>, stored: seq<byte>)
    requires |written| == |stored|
    ensures Hash(stored) == Hash(written) <==> Hash(Changes(written, stored)) == 0
  {
    hide Plus, Hash, Changes;
    HashLinear(written, stored);
    PlusIsZero(Hash(written), Hash(stored));
  }

  lemma {:induction false} HashOfZeros(d: seq<byte>)
    requires forall i :: 0 <= i < |d| ==> d[i] == 0
    ensures Hash(d) == 0
    decreases |d|
  {
    if d != [] { HashOfZeros(d[..|d| - 1]); }
  }

  lemma {:induction false} HashOfOne(d: seq<byte>, k: nat)
    requires k < |d| && forall i :: 0 <= i < |d| && i != k ==> d[i] == 0
    ensures Hash(d) == d[k]
    decreases |d|
  {
    hide Plus;
    var n := |d| - 1;
    if k == n { HashOfZeros(d[..n]); } else { HashOfOne(d[..n], k); }
    PlusLaws(d[k], 0, 0);
  }

  lemma {:induction false} HashOfTwo(d: seq<byte>, j: nat, k: nat)
    requires j < k < |d| && forall i :: 0 <= i < |d| && i != j && i != k ==> d[i] == 0
    ensures Hash(d) == Plus(d[j], d[k])
    decreases |d|
  {
    hide Plus;
    var n := |d| - 1;
    if k == n {
      HashOfOne(d[..n], j);
    } else {
      HashOfTwo(d[..n], j, k);
      PlusLaws(Plus(d[j], d[k]), 0, 0);
    }
  }

  /** In a file of any length, changes of two bytes go unnoticed exactly when they are alike. */
  lemma TwoChangesCancelIff(written: seq<byte>, stored: seq<byte>, j: nat, k: nat)
    requires |written| == |stored| && j < k < |written|
    requires forall i :: 0 <= i < |written| && i != j && i != k ==> written[i] == stored[i]
    ensures Hash(stored) == Hash(written) <==> written[j] ^ stored[j] == written[k] ^ stored[k]
  {
    hide Hash;
    ChangesPassIff(written, stored);
    var d := Changes(written, stored);
    forall i | 0 <= i < |d| && i != j && i != k ensures d[i] == 0 { PlusIsZero(written[i], stored[i]); }
    HashOfTwo(d, j, k);
    PlusIsZero(d[j], d[k]);
  }

  /** A file that lost its end passes the readback exactly when what it lost has hash 0. */
  lemma LostEndPassesIff(stored: seq<byte>, missing: seq<byte>)
    ensures Hash(stored) == Hash(stored + missing) <==> Hash(missing) == 0
  {
    hide Plus, Hash;
    HashConcat(stored, missing);
    PlusLaws(Hash(stored), Hash(missing), 0);
  }

  /** In particular a lost end of zeros is never noticed. */
  lemma LostZerosPass(stored: seq<byte>, n: nat)
    ensures Hash(stored) == Hash(stored + seq(n, _ => 0))
  {
    HashOfZeros(seq(n, _ => 0));
    LostEndPassesIff(stored, seq(n, _ => 0));
  }

  // ---------------------------------------------------------------- crash points

  /** What reaches the file system, one atomic action at a time. */
  datatype Action = Remove(p: Path) | Create(p: Path) | Append(p: Path, b: byte) | Rename(from: Path, to: Path)

  function Perform(d: Disk, a: Action): Disk {
    match a
    case Remove(p) => d - {p}
    case Create(p) => d[p := []]
    case Append(p, b) => if p in d then d[p := d[p] + [b]] else d
    case Rename(from, to) => if from in d then (d - {from})[to := d[from]] else d
  }

  function PerformAll(d: Disk, actions: seq<Action>): Disk {
    if actions == [] then d else Perform(PerformAll(d, actions[..|actions| - 1]), actions[|actions| - 1])
  }

  function Appends(p: Path, bytes: seq<byte>): seq<Action> {
    seq(|bytes|, i requires 0 <= i < |bytes| => Append(p, bytes[i]))
  }

  /** Before the rename: the target is dropped first unless the write is fully atomic. `stored` is what
      the medium keeps of what was written. */
  function Prologue(target: Path, fullAtomic: bool, stored: seq<byte>): seq<Action> {
    (if fullAtomic then [] else [Remove(target)]) + [Create(Tmp(target))] + Appends(Tmp(target), stored)
  }

  lemma EmptyPrologue(d: Disk, target: Path, fullAtomic: bool)
    ensures Prologue(target, fullAtomic, []) == (if fullAtomic then [] else [Remove(target)]) + [Create(Tmp(target))]
    ensures Hash([]) == 0 && PerformAll(d, []) == d
  {
  }

  /** A whole session: the rename happens only after a matching readback. */
  function Session(target: Path, fullAtomic: bool, written: seq<byte>, stored: seq<byte>): seq<Action> {
    Prologue(target, fullAtomic, stored) + if Hash(stored) == Hash(written) then [Rename(Tmp(target), target)] else []
  }

  lemma {:induction false} PerformConcat(d: Disk, a: seq<Action>, b: seq<Action>)
    ensures PerformAll(d, a + b) == PerformAll(PerformAll(d, a), b)
    decreases |b|
  {
    hide Perform;
    if b == [] {
      assert a + b == a;
    } else {
      PerformConcat(d, a, b[..|b| - 1]);
      assert (a + b)[..|a + b| - 1] == a + b[..|b| - 1];
    }
  }

  lemma {:induction false} AppendsFill(d: Disk, p: Path, bytes: seq<byte>)
    requires p in d && d[p] == []
    ensures PerformAll(d, Appends(p, bytes)) == d[p := bytes]
    decreases |bytes|
  {
    if bytes == [] {
      assert Appends(p, bytes) == [];
    } else {
      var init := bytes[..|bytes| - 1];
      AppendsFill(d, p, init);
      assert Appends(p, bytes)[..|bytes| - 1] == Appends(p, init);
      assert init + [bytes[|bytes| - 1]] == bytes;
    }
  }

  /** What a path holds: nothing, or its content. */
  datatype Held = Absent | Present(content: seq<byte>)

  function At(d: Disk, p: Path): Held { if p in d then Present(d[p]) else Absent }

  lemma TmpDiffers(p: Path)
    ensures Tmp(p) != p
  {
    assert |Tmp(p)| == |p| + 4;
  }

  /** No prologue action but the removal touches the target. */
  lemma {:induction false} PrologueTarget(d: Disk, target: Path, actions: seq<Action>)
    requires forall i :: 0 <= i < |actions| ==>
               actions[i] == Remove(target) || actions[i] == Create(Tmp(target)) || (actions[i].Append? && actions[i].p == Tmp(target))
    ensures At(PerformAll(d, actions), target) == if Remove(target) in actions then Absent else At(d, target)
    decreases |actions|
  {
    TmpDiffers(target);
    if actions != [] {
      var init, last := actions[..|actions| - 1], actions[|actions| - 1];
      PrologueTarget(d, target, init);
      assert actions == init + [last];
    }
  }

  lemma PrologueTmp(d: Disk, target: Path, fullAtomic: bool, stored: seq<byte>)
    ensures At(PerformAll(d, Prologue(target, fullAtomic, stored)), Tmp(target)) == Present(stored)
  {
    var first := (if fullAtomic then [] else [Remove(target)]) + [Create(Tmp(target))];
    assert first[..|first| - 1] == if fullAtomic then [] else [Remove(target)];
    var afterOpen := PerformAll(d, first);
    assert Tmp(target) in afterOpen && afterOpen[Tmp(target)] == [];
    AppendsFill(afterOpen, Tmp(target), stored);
    PerformConcat(d, first, Appends(Tmp(target), stored));
  }

  /** At every crash point of a session the target holds its complete old content or the complete
      stored content - nothing in between; without fullAtomic it may also be absent, and the old
      content is gone from the first action on. The new content is there exactly at the end, and
      only when the readback matched. */
  lemma CrashSafe(d: Disk, target: Path, fullAtomic: bool, written: seq<byte>, stored: seq<byte>, crash: nat)
    requires crash <= |Session(target, fullAtomic, written, stored)|
    ensures var all := Session(target, fullAtomic, written, stored);
            var now := At(PerformAll(d, all[..crash]), target);
            if crash == |all| && Hash(stored) == Hash(written) then now == Present(stored)
            else now == if fullAtomic || crash == 0 then At(d, target) else Absent
  {
    var pro := Prologue(target, fullAtomic, stored);
    var all := Session(target, fullAtomic, written, stored);
    hide Hash, Perform;
    if crash <= |pro| {
      assert all[..crash] == pro[..crash];
      PrologueTarget(d, target, pro[..crash]);
      assert Remove(target) in pro[..crash] <==> !fullAtomic && crash > 0 by {
        if !fullAtomic && crash > 0 { assert pro[..crash][0] == Remove(target); }
      }
      if crash == |pro| && crash == |all| {
        assert Hash(stored) != Hash(written);
      }
    } else {
      assert crash == |all| && all[..crash] == pro + [Rename(Tmp(target), target)];
      PrologueTmp(d, target, fullAtomic, stored);
      PerformConcat(d, pro, [Rename(Tmp(target), target)]);
      RenameMoves(PerformAll(d, pro), Tmp(target), target);
      assert [Rename(Tmp(target), target)][..0] == [];
    }
  }

  lemma RenameMoves(d: Disk, from: Path, to: Path)
    requires from in d
    ensures At(Perform(d, Rename(from, to)), to) == At(d, from)
  {
  }

  /** Where opening for write appends instead of truncating, a temporary file left by a crash stays in
      front of the new bytes; the readback lets it through exactly when its own hash is 0. */
  lemma LeftoverPassesIff(leftover: seq<byte>, written: seq<byte>)
    ensures Hash(leftover + written) == Hash(written) <==> Hash(leftover) == 0
  {
    hide Plus, Hash;
    HashConcat(leftover, written);
    PlusLaws(Hash(written), Hash(leftover), 0);
  }

  // ---------------------------------------------------------------- the code

  /** The disk changes one atomic action at a time; `trace` lists the actions since the disk was `start`. */
  class SafeFile {
    const filename: Path
    const fullAtomic: bool
    ghost const start: Disk
    var disk: Disk
    var isOpen: bool
    var hash: byte
    ghost var trace: seq<Action>
    ghost var written: seq<byte>
    ghost var stored: seq<byte>

    ghost predicate Valid()
      reads this
    {
      && disk == PerformAll(start, trace)
      && hash == Hash(written) && |stored| <= |written|
      && (isOpen ==> Tmp(filename) in disk && disk[Tmp(filename)] == stored && trace == Prologue(filename, fullAtomic, stored))
    }

    /** `openFile`: `openOk` says whether the temporary file could be created. */
    constructor (d: Disk, name: Path, atomic: bool, openOk: bool)
      ensures Valid() && filename == name && fullAtomic == atomic && start == d && written == stored == [] && isOpen == openOk
      ensures trace == (if atomic then [] else [Remove(name)]) + (if openOk then [Create(Tmp(name))] else [])
    {
      hide Prologue, Hash, PerformAll;
      filename, fullAtomic, start := name, atomic, d;
      disk, trace := d, [];
      isOpen, hash := false, 0;
      written, stored := [], [];
      EmptyPrologue(d, name, atomic);
      new;
      if !fullAtomic {
        Do(Remove(filename));
      }
      if openOk {
        Do(Create(Tmp(filename)));
        isOpen := true;
      }
    }

    /** One action on the file system. */
    method Do(a: Action)
      requires disk == PerformAll(start, trace)
      modifies this`disk, this`trace
      ensures trace == old(trace) + [a] && disk == Perform(old(disk), a) == PerformAll(start, trace)
    {
      disk := Perform(disk, a);
      trace := trace + [a];
      assert trace[..|trace| - 1] == old(trace);
    }

    /** The medium stores `kept` for the byte: one byte, or none when it is full. */
    method WriteByte(ch: byte, kept: seq<byte>) returns (n: nat)
      requires Valid() && |kept| <= 1
      modifies this`disk, this`trace, this`hash, this`written, this`stored
      ensures Valid() && n == (if isOpen then |kept| else 0)
      ensures written == old(written) + if isOpen then [ch] else []
      ensures stored == old(stored) + if isOpen then kept else []
      ensures trace == old(trace) + if isOpen then Appends(Tmp(filename), kept) else []
    {
      hide Hash, Plus, PerformAll, Perform, Prologue, Appends;
      if !isOpen {
        return 0;
      }
      HashSnoc(written, ch);
      hash := Plus(hash, ch);
      written := written + [ch];
      FileWrite(kept);
      return |kept|;
    }

    /** The medium stores `kept` for `buffer`, possibly changed or cut short. */
    method Write(buffer: seq<byte>, kept: seq<byte>) returns (n: nat)
      requires Valid() && |kept| <= |buffer|
      modifies this`disk, this`trace, this`hash, this`written, this`stored
      ensures Valid() && n == (if isOpen then |kept| else 0)
      ensures written == old(written) + if isOpen then buffer else []
      ensures stored == old(stored) + if isOpen then kept else []
      ensures trace == old(trace) + if isOpen then Appends(Tmp(filename), kept) else []
    {
      hide Hash, Plus, PerformAll, Perform, Prologue, Appends;
      if !isOpen {
        return 0;
      }
      var i := 0;
      assert written + buffer[..0] == written;
      while i < |buffer|
        invariant 0 <= i <= |buffer| && hash == Hash(written + buffer[..i])
        invariant disk == old(disk) && trace == old(trace) && written == old(written) && stored == old(stored)
      {
        HashSnoc(written + buffer[..i], buffer[i]);
        assert written + buffer[..i + 1] == written + buffer[..i] + [buffer[i]];
        hash := Plus(hash, buffer[i]);
        i := i + 1;
      }
      assert buffer[..i] == buffer;
      written := written + buffer;
      FileWrite(kept);
      return |kept|;
    }

    /** `f.write`: the bytes reach the medium one after the other. */
    method FileWrite(kept: seq<byte>)
      requires isOpen && disk == PerformAll(start, trace) && Tmp(filename) in disk && disk[Tmp(filename)] == stored
      requires trace == Prologue(filename, fullAtomic, stored)
      modifies this`disk, this`trace, this`stored
      ensures stored == old(stored) + kept && trace == old(trace) + Appends(Tmp(filename), kept)
      ensures trace == Prologue(filename, fullAtomic, stored)
      ensures disk == PerformAll(start, trace) && Tmp(filename) in disk && disk[Tmp(filename)] == stored
    {
      hide PerformAll;
      var i := 0;
      while i < |kept|
        invariant 0 <= i <= |kept|
        invariant stored == old(stored) + kept[..i] && trace == old(trace) + Appends(Tmp(filename), kept[..i])
        invariant disk == PerformAll(start, trace) && Tmp(filename) in disk && disk[Tmp(filename)] == stored
      {
        Do(Append(Tmp(filename), kept[i]));
        AppendsConcat(Tmp(filename), kept[..i], [kept[i]]);
        assert kept[..i + 1] == kept[..i] + [kept[i]];
        stored := stored + [kept[i]];
        i := i + 1;
      }
      assert kept[..i] == kept;
      AppendsConcat(Tmp(filename), old(stored), kept);
    }

    method TestReadback() returns (ok: bool)
      requires Valid()
      ensures ok <==> Tmp(filename) in disk && Hash(disk[Tmp(filename)]) == Hash(written)
    {
      if Tmp(filename) !in disk {
        return false;
      }
      var content := disk[Tmp(filename)];
      var testHash: byte := 0;
      var i := 0;
      while i < |content|
        invariant 0 <= i <= |content| && testHash == Hash(content[..i])
      {
        assert content[..i + 1][..i] == content[..i];
        testHash := Plus(testHash, content[i]);
        i := i + 1;
      }
      assert content[..i] == content;
      return testHash == hash;
    }

    /** Readback, then rename; `renameOk` is the file system's answer. False whenever exactly one stored
        byte differs from what was written. */
    method Close(renameOk: bool) returns (ok: bool)
      requires Valid()
      modifies this`disk, this`trace, this`isOpen
      ensures Valid() && !isOpen
      ensures ok <==> old(isOpen) && Hash(stored) == Hash(written) && renameOk
      ensures trace == old(trace) + if ok then [Rename(Tmp(filename), filename)] else []
      ensures ok ==> disk == (old(disk) - {Tmp(filename)})[filename := stored]
      ensures (exists k :: 0 <= k < |written| == |stored| && stored[k] != written[k]
                           && stored[..k] == written[..k] && stored[k + 1..] == written[k + 1..]) ==> !ok
    {
      hide Hash, Plus, PerformAll, Prologue;
      if k :| 0 <= k < |written| == |stored| && stored[k] != written[k] && stored[..k] == written[..k] && stored[k + 1..] == written[k + 1..] {
        OneByteDiffers(written, stored, k);
      }
      if !isOpen {
        return false;
      }
      isOpen := false;
      var same := TestReadback();
      if !same || !renameOk {
        return false;
      }
      Do(Rename(Tmp(filename), filename));
      return true;
    }
  }

  lemma HashSnoc(s: seq<byte>, b: byte)
    ensures Hash(s + [b]) == Plus(Hash(s), b)
  {
    assert (s + [b])[..|s|] == s;
  }

  lemma AppendsConcat(p: Path, a: seq<byte>, b: seq<byte>)
    ensures Appends(p, a + b) == Appends(p, a) + Appends(p, b)
    ensures |b| == 1 ==> Appends(p, b) == [Append(p, b[0])]
  {
  }

  lemma OneByteDiffers(written: seq<byte>, stored: seq<byte>, k: nat)
    requires |stored| == |written| && k < |written| && stored[k] != written[k]
    requires stored[..k] == written[..k] && stored[k + 1..] == written[k + 1..]
    ensures Hash(stored) != Hash(written)
  {
    forall i | 0 <= i < |written| && i != k ensures written[i] == stored[i] {
      if i < k {
        assert stored[..k][i] == written[..k][i];
      } else {
        assert stored[k + 1..][i - k - 1] == written[k + 1..][i - k - 1];
      }
    }
    HashDetectsOneByte(written, stored, k);
  }

  /** Open, write and close perform the actions of a session one by one, all of them exactly when `close`
      returns true; so every state the disk goes through is one of the session's crash points. */
  method ReplaceFile(d: Disk, name: Path, atomic: bool, content: seq<byte>, kept: seq<byte>, openOk: bool, renameOk: bool)
    returns (ok: bool, f: SafeFile)
    requires |kept| <= |content|
    ensures ok <==> openOk && Hash(kept) == Hash(content) && renameOk
    ensures f.start == d && f.disk == PerformAll(d, f.trace)
    ensures f.trace <= Session(name, atomic, content, kept)
    ensures ok ==> f.trace == Session(name, atomic, content, kept)
    ensures At(f.disk, name) == if ok then Present(kept) else if atomic then At(d, name) else Absent
  {
    hide Hash, PerformAll;
    f := new SafeFile(d, name, atomic, openOk);
    var n := f.Write(content, kept);
    ghost var session := Session(name, atomic, content, kept);
    if openOk { assert f.stored == kept && f.written == content; }
    ok := f.Close(renameOk);
    assert f.trace == session[..|f.trace|];
    ghost var crash := |f.trace|;
    CrashSafe(d, name, atomic, content, kept, crash);
  }
}
