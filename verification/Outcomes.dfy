/**
 * What every command does and returns, in all cases: when it panics, when it writes, and what the entry that it
 * leaves holds, byte by byte.
 */
module Outcomes {
  import opened Bytes
  import opened Names
  import opened Layout
  import opened Chains
  import opened Dirents
  import opened Volume
  import opened Operations
  import opened CrashSafety
  import opened Runs
  import opened Conservation
  import opened Truncation
  import opened RoundTrip

  /** The end mark of the root directory maps to the card, so that the directory can be read. */
  ghost predicate DirectoryReads(g: Geometry, v: Vol, o: Owner)
    requires g.Ok() && SafeWith(g, v, o)
  {
    StrayReadOk(g, v.fat, o.root)
  }

  /** The command has written and returns `ret`. */
  predicate Succeeds(out: Outcome, ret: int)
  {
    !out.halted && out.trace != [] && out.ret == ret
  }

  /** The command returns 0 and leaves the card alone. */
  predicate Refuses(out: Outcome)
  {
    !out.halted && out.trace == [] && out.ret == 0
  }

  /** The command panics before it has written anything. */
  predicate Stops(out: Outcome)
  {
    out.halted && out.trace == []
  }

  lemma DeleteOutcome(g: Geometry, v: Vol, o: Owner, name: CString)
    requires g.Ok() && SafeWith(g, v, o)
    ensures var out, dir := StepDelete(g, v, o, name), Dir(v.data, o.root);
            var found := exists i :: 0 <= i < |dir| && Matches(dir[i], name);
            && (Stops(out) <==> IsValid(name) && !DirectoryReads(g, v, o))
            && (Succeeds(out, 1) <==> IsValid(name) && DirectoryReads(g, v, o) && found)
            && (Refuses(out) <==> !IsValid(name) || (DirectoryReads(g, v, o) && !found))
  {
    var idx := Find(Dir(v.data, o.root), name);
    if IsValid(name) && DirectoryReads(g, v, o) && idx < |o.files| {
      StrayOfDelete(g, v, o, name);
    }
  }

  lemma CreateOutcome(g: Geometry, v: Vol, o: Owner, name: CString, isDir: bool)
    requires g.Ok() && SafeWith(g, v, o)
    ensures var out, dir := StepCreate(g, v, o, name, isDir), Dir(v.data, o.root);
            var found := exists i :: 0 <= i < |dir| && Matches(dir[i], name);
            var room := exists i :: 0 <= i < |dir| && IsFree(dir[i]);
            && (Stops(out) <==> IsValid(name) && (!DirectoryReads(g, v, o) || (!found && !room)))
            && (Succeeds(out, 1) <==> IsValid(name) && DirectoryReads(g, v, o) && !found && room)
            && (Refuses(out) <==> !IsValid(name) || (DirectoryReads(g, v, o) && found))
  {
    var dir := Dir(v.data, o.root);
    var slot := FreeSlot(dir);
    if IsValid(name) && DirectoryReads(g, v, o) && Find(dir, name) == |dir| && slot < |dir| {
      AfterCommit(g, v, v.fat, o, slot, Fresh(dir[slot], name, isDir));
    }
  }

  lemma RenameOutcome(g: Geometry, v: Vol, o: Owner, oldName: CString, newName: CString)
    requires g.Ok() && SafeWith(g, v, o)
    ensures var out, dir := StepRename(g, v, o, oldName, newName), Dir(v.data, o.root);
            var found := exists i :: 0 <= i < |dir| && Matches(dir[i], oldName);
            && (Stops(out) <==> IsValid(newName) && !DirectoryReads(g, v, o))
            && (Succeeds(out, 1) <==> IsValid(newName) && DirectoryReads(g, v, o) && found)
            && (Refuses(out) <==> !IsValid(newName) || (DirectoryReads(g, v, o) && !found))
  {
    var dir := Dir(v.data, o.root);
    var idx := Find(dir, oldName);
    if IsValid(newName) && DirectoryReads(g, v, o) && idx < |dir| {
      AfterCommit(g, v, v.fat, o, idx, WithName(dir[idx], newName));
    }
  }

  /** Truncating returns 0 either way. It panics on a file without a cluster when FAT[0] holds a reserved value. */
  lemma TruncateOutcome(g: Geometry, v: Vol, o: Owner, name: CString, length: u32)
    requires g.Ok() && SafeWith(g, v, o)
    ensures var out, idx := StepTruncate(g, v, o, name, length), Find(Dir(v.data, o.root), name);
            var onMedia := idx < |o.files| && o.files[idx] == [] && TypeOf(v.fat[0]) == Panic;
            && (Stops(out) <==> !DirectoryReads(g, v, o) || onMedia)
            && (Succeeds(out, 0) <==> DirectoryReads(g, v, o) && idx < |o.files| && !onMedia)
            && (Refuses(out) <==> DirectoryReads(g, v, o) && idx == |o.files|)
  {
    var dir := Dir(v.data, o.root);
    var idx := Find(dir, name);
    if DirectoryReads(g, v, o) && idx < |dir| {
      assert FileOk(v.fat, dir[idx], o.files[idx]);
      if !(Start(dir[idx]) == 0 && TypeOf(v.fat[0]) == Panic) {
        var mem := Truncated(v.fat, o.files[idx], length, g.ClusterSize());
        TruncatedKeeps(v.fat, o.files[idx], length, g.ClusterSize(), o.root);
        AfterCommit(g, v, mem, o, idx, WithSize(dir[idx], length));
      }
    }
  }

  /** The clusters that a write to slot idx can use: the file's own and those that the searches find. */
  function Reach(v: Vol, o: Owner, idx: nat): nat
    requires idx < |o.files|
  {
    if o.files[idx] == [] then |FreeFrom(v.fat, 3)| else |Pool(v.fat, o.files[idx])|
  }

  /**
   * A write panics when the directory cannot be read, or when its bytes need more clusters than it can use;
   * it succeeds when the name is found and they do not; otherwise it returns 0.
   */
  lemma WriteOutcomes(g: Geometry, v: Vol, o: Owner, name: CString, mem: seq<byte>, n: u32)
    requires g.Ok() && SafeWith(g, v, o) && CommandOk(g, Write(name, mem, n))
    ensures var out, idx := StepWrite(g, v, o, name, mem, n), Find(Dir(v.data, o.root), name);
            var short := idx < |o.files| && n > 0 && Reach(v, o, idx) < ClustersFor(n, g.ClusterSize());
            && (out.halted <==> !DirectoryReads(g, v, o) || short)
            && (!DirectoryReads(g, v, o) ==> Stops(out))
            && (Succeeds(out, 1) <==> DirectoryReads(g, v, o) && idx < |o.files| && !short)
            && (Refuses(out) <==> DirectoryReads(g, v, o) && idx == |o.files|)
  {
    var dir := Dir(v.data, o.root);
    var idx := Find(dir, name);
    if DirectoryReads(g, v, o) && idx < |dir| {
      if n == 0 {
        AfterCommit(g, v, v.fat, o, idx, WithSize(dir[idx], 0));
      } else {
        WriteRunsOut(g, v, o, idx, mem, n);
        if !StepWrite(g, v, o, name, mem, n).halted {
          WriteFoundTraces(g, v, o, name, mem, n);
        }
      }
    }
  }

  lemma WriteRunsOut(g: Geometry, v: Vol, o: Owner, idx: nat, mem: seq<byte>, n: u32)
    requires g.Ok() && SafeWith(g, v, o) && idx < |o.files| && n > 0
    requires Span(ClustersFor(n, g.ClusterSize()), g.ClusterSize()) <= |mem|
    ensures WriteOutcome(g, v, o, idx, mem, n).halted <==> Reach(v, o, idx) < ClustersFor(n, g.ClusterSize())
  {
    if StartChain(v, o, idx) != [] {
      UsableIsPool(g, v, o, idx);
    }
  }

  /** The first free cluster, once it is taken, starts a pool of all the free ones. */
  lemma UsableIsPool(g: Geometry, v: Vol, o: Owner, idx: nat)
    requires g.Ok() && SafeWith(g, v, o) && idx < |o.files| && StartChain(v, o, idx) != []
    ensures |Pool(StartFat(v, o, idx), StartChain(v, o, idx))| == Reach(v, o, idx)
  {
    if o.files[idx] == [] {
      FreeFromIsFreeList(v.fat, 3);
      TakenFirst(v.fat, 3, FreeFrom(v.fat, 3)[0]);
    }
  }

  lemma {:induction false} TakenFirst(fat: Fat, i: nat, first: nat)
    requires FreeFrom(fat, i) != [] && FreeFrom(fat, i)[0] == first < |fat|
    ensures |FreeFrom(fat[first := LAST_CLUSTER], first)| + 1 == |FreeFrom(fat, i)|
    decreases |fat| - i
  {
    if TypeOf(fat[i]) == Free {
      assert FreeFrom(fat, i) == [i] + FreeFrom(fat, i + 1);
      FreeFromFrame(fat, fat[first := LAST_CLUSTER], first + 1);
    } else {
      TakenFirst(fat, i + 1, first);
    }
  }

  // ---------------------------------------------------------------- the entry that is left

  /** The directory after a command: entry i is e and all others are as before. */
  ghost predicate OneEntryIs(before: seq<Entry>, after: seq<Entry>, i: nat, e: Entry)
  {
    |after| == |before| && i < |before| && after == before[i := e]
  }

  /** Bytes of an entry that no command but the one that sets them may change: times and dates. */
  ghost predicate SameTimes(e: Entry, e': Entry)
  {
    e'[12..20] == e[12..20] && e'[22..26] == e[22..26]
  }

  /** A created entry: its packed name, 0x20 for a file and 0x10 for a directory, no cluster and no bytes. */
  ghost predicate IsNewEntry(old_: Entry, e: Entry, name: CString, isDir: bool)
    requires IsValid(name)
  {
    && e[..11] == Pack(name) && e[11] == (if isDir then 0x10 else 0x20)
    && e[20] == 0 && e[21] == 0 && e[26] == 0 && e[27] == 0
    && e[28] == 0 && e[29] == 0 && e[30] == 0 && e[31] == 0
    && SameTimes(old_, e)
  }

  lemma FreshBytes(old_: Entry, name: CString, isDir: bool)
    requires IsValid(name)
    ensures IsNewEntry(old_, Fresh(old_, name, isDir), name, isDir)
  {
    FieldsOfFresh(old_, name, isDir);
    FreshOtherBytes(old_, name, if isDir then ATTR_DIR else ATTR_ARCHIVE);
    NoFileBytes(Fresh(old_, name, isDir));
  }

  lemma NoFileBytes(e: Entry)
    requires Start(e) == 0 && Size(e) == 0
    ensures e[20] == 0 && e[21] == 0 && e[26] == 0 && e[27] == 0
    ensures e[28] == 0 && e[29] == 0 && e[30] == 0 && e[31] == 0
  {
    EntryLayout(e);
    ZeroWord(e[26], e[27], e[20], e[21]);
    ZeroWord(e[28], e[29], e[30], e[31]);
  }

  lemma ZeroWord(a: byte, b: byte, c: byte, d: byte)
    requires WordOf(a, b, c, d) == 0
    ensures a == 0 && b == 0 && c == 0 && d == 0
  {
  }

  lemma FreshOtherBytes(old_: Entry, name: CString, attr: byte)
    requires IsValid(name)
    ensures var e := WithStart(WithSize(WithAttr(WithName(old_, name), attr), 0), 0);
            e[11] == attr && SameTimes(old_, e)
  {
    var named := WithAttr(WithName(old_, name), attr);
    SizeOtherBytes(named, 0);
    StartOtherBytes(WithSize(named, 0), 0);
    assert named[12..20] == old_[12..20] && named[22..26] == old_[22..26];
  }

  lemma SizeOtherBytes(e: Entry, n: u32)
    ensures WithSize(e, n)[..28] == e[..28] && SameTimes(e, WithSize(e, n))
  {
    assert WithSize(e, n)[..28] == e[..28];
    assert e[12..20] == e[..28][12..20] && e[22..26] == e[..28][22..26];
  }

  lemma StartOtherBytes(e: Entry, c: u32)
    ensures var s := WithStart(e, c);
            s[..20] == e[..20] && s[22..26] == e[22..26] && s[28..] == e[28..] && SameTimes(e, s)
  {
    var s := WithStart(e, c);
    assert s[12..20] == s[..20][12..20] && e[12..20] == e[..20][12..20];
  }

  /** What a successful create leaves: in the first free slot, and nowhere else, the new entry. */
  lemma CreatedEntry(g: Geometry, v: Vol, o: Owner, name: CString, isDir: bool)
    requires g.Ok() && SafeWith(g, v, o) && StepCreate(g, v, o, name, isDir).ret == 1
    ensures var out, dir := StepCreate(g, v, o, name, isDir), Dir(v.data, o.root);
            && Succeeds(out, 1) && IsValid(name) && SafeWith(g, After(v, out.trace), o)
            && exists slot :: 0 <= slot < |dir| && IsFree(dir[slot]) && (forall k :: 0 <= k < slot ==> !IsFree(dir[k]))
                              && CreatedIn(dir, Dir(After(v, out.trace).data, o.root), slot, name, isDir)
  {
    var dir := Dir(v.data, o.root);
    var slot := FreeSlot(dir);
    AfterCommit(g, v, v.fat, o, slot, Fresh(dir[slot], name, isDir));
    CreateSafe(g, v, o, name, isDir);
    FreshBytes(dir[slot], name, isDir);
    assert CreatedIn(dir, Dir(After(v, StepCreate(g, v, o, name, isDir).trace).data, o.root), slot, name, isDir);
  }

  ghost predicate CreatedIn(before: seq<Entry>, after: seq<Entry>, slot: nat, name: CString, isDir: bool)
    requires IsValid(name)
  {
    && slot < |before| && |after| == |before| && IsNewEntry(before[slot], after[slot], name, isDir)
    && forall i :: 0 <= i < |before| && i != slot ==> after[i] == before[i]
  }

  /** What a successful delete leaves: the entry's first byte is 0xE5, so that its slot is free again. */
  lemma DeletedEntry(g: Geometry, v: Vol, o: Owner, name: CString)
    requires g.Ok() && SafeWith(g, v, o) && StepDelete(g, v, o, name).ret == 1
    ensures var out, dir, idx := StepDelete(g, v, o, name), Dir(v.data, o.root), Find(Dir(v.data, o.root), name);
            && Succeeds(out, 1) && idx < |dir|
            && var after := After(v, out.trace);
            && SafeWith(g, after, o.(files := o.files[idx := []]))
            && OneEntryIs(dir, Dir(after.data, o.root), idx, dir[idx][0 := 0xE5])
            && IsFree(Dir(after.data, o.root)[idx])
            && forall c :: c in o.files[idx] ==> c < |after.fat| && after.fat[c] == 0
  {
    var dir := Dir(v.data, o.root);
    var idx := Find(dir, name);
    var mem := Relink(v.fat, o.files[idx], [], END_OF_CHAIN);
    StrayOfDelete(g, v, o, name);
    DeleteSafe(g, v, o, name);
    RelinkKeepsOthers(v.fat, mem, o.files[idx], [], END_OF_CHAIN, o.root);
    AfterCommit(g, v, mem, o, idx, Deleted(dir[idx]));
    FreedEntries(g, v, o, idx, mem, After(v, StepDelete(g, v, o, name).trace).fat);
  }

  lemma FreedEntries(g: Geometry, v: Vol, o: Owner, idx: nat, mem: Fat, fat': Fat)
    requires g.Ok() && SafeWith(g, v, o) && idx < |o.files| && IsRelink(v.fat, mem, o.files[idx], [], END_OF_CHAIN)
    requires IsRelink(mem, fat', o.root, o.root, END_OF_CHAIN)
    ensures forall c :: c in o.files[idx] ==> c < |fat'| && fat'[c] == 0
  {
    assert FileOk(v.fat, Dir(v.data, o.root)[idx], o.files[idx]);
    forall c | c in o.files[idx]
      ensures c < |fat'| && fat'[c] == 0
    {
      assert c !in o.root;
    }
  }

  // ---------------------------------------------------------------- renaming

  /** Names that neither the old nor the new entry of slot idx has find what they found. */
  ghost predicate OthersRead(v: Vol, v1: Vol, o: Owner, idx: nat, e: Entry)
  {
    && CanPeek(v, o) && CanPeek(v1, o) && idx < |o.files|
    && forall name: CString :: !Matches(Dir(v.data, o.root)[idx], name) && !Matches(e, name) ==>
         Peek(v1, o, name) == Peek(v, o, name)
  }

  ghost predicate CanPeek(v: Vol, o: Owner)
  {
    && InRange(o.root, |v.data|) && |o.files| == |Dir(v.data, o.root)|
    && Owned(v.fat, Dir(v.data, o.root), o) && |v.fat| == |v.data|
  }

  /** What is read under a name that leads to slot idx. */
  lemma SlotReading(v: Vol, o: Owner, name: CString, idx: nat)
    requires CanPeek(v, o) && Find(Dir(v.data, o.root), name) == idx < |o.files|
    ensures InRange(o.files[idx], |v.data|)
    ensures Peek(v, o, name) == if o.files[idx] == [] then NoCluster
                                else Contents(Flat(v.data, o.files[idx]), Size(Dir(v.data, o.root)[idx]))
  {
    assert FileOk(v.fat, Dir(v.data, o.root)[idx], o.files[idx]);
  }

  /** A directory write that changes an entry and leaves its chain alone: what is read under every name. */
  lemma ChangedEntryReads(g: Geometry, v: Vol, o: Owner, idx: nat, e: Entry, v1: Vol)
    requires g.Ok() && SafeWith(g, v, o) && idx < |o.files| && FileOk(v.fat, e, o.files[idx])
    requires v1 == After(v, Commit(g, v, v.fat, o, idx, e).trace)
    ensures SafeWith(g, v1, o) && Dir(v1.data, o.root) == Dir(v.data, o.root)[idx := e]
    ensures InRange(o.files[idx], |v.data|) && |v1.data| == |v.data|
    ensures Flat(v1.data, o.files[idx]) == Flat(v.data, o.files[idx])
    ensures OthersRead(v, v1, o, idx, e)
  {
    var dir := Dir(v.data, o.root);
    EntryChangeSafe(g, v, o, idx, e);
    EntryOnlySlot(g, v, o, idx, e);
    AfterCommit(g, v, v.fat, o, idx, e);
    assert FileOk(v.fat, dir[idx], o.files[idx]) && Disjoint(o.root, o.files[idx]);
    FlatFrame(v.data, v1.data, o.files[idx]);
    forall name: CString | !Matches(dir[idx], name) && !Matches(e, name)
      ensures Peek(v1, o, name) == Peek(v, o, name)
    {
      OthersReadSame(g, v, o, v1, o, idx, e, o.files[idx], name);
    }
  }

  /**
   * Renaming a file to a dotted name that no other entry has succeeds: the file is found under the new name, in
   * its slot, with its bytes and its size; it is not found under the old one; every other name reads as before.
   */
  lemma RenamedFound(g: Geometry, v: Vol, o: Owner, oldName: CString, newName: CString)
    requires g.Ok() && SafeWith(g, v, o) && NamesOk(Dir(v.data, o.root)) && DirectoryReads(g, v, o)
    requires IsDotted(oldName) && IsDotted(newName) && Find(Dir(v.data, o.root), oldName) < |o.files|
    requires Unused(Dir(v.data, o.root), Find(Dir(v.data, o.root), oldName), Pack(newName))
    ensures var out, idx := StepRename(g, v, o, oldName, newName), Find(Dir(v.data, o.root), oldName);
            var v1 := After(v, out.trace);
            && Succeeds(out, 1) && SafeWith(g, v1, o) && NamesOk(Dir(v1.data, o.root))
            && Find(Dir(v1.data, o.root), newName) == idx && Peek(v1, o, newName) == Peek(v, o, oldName)
            && (oldName != newName ==> Find(Dir(v1.data, o.root), oldName) == |o.files|)
            && forall other: CString :: other != oldName && other != newName ==> Peek(v1, o, other) == Peek(v, o, other)
  {
    var dir := Dir(v.data, o.root);
    var idx := Find(dir, oldName);
    RenameOutcome(g, v, o, oldName, newName);
    FieldsOfName(dir[idx], newName);
    NamesOkIffUnused(dir, idx, WithName(dir[idx], newName), newName);
    RenamedReads(g, v, o, oldName, newName, idx, WithName(dir[idx], newName),
                 After(v, StepRename(g, v, o, oldName, newName).trace));
  }

  lemma RenamedReads(g: Geometry, v: Vol, o: Owner, oldName: CString, newName: CString, idx: nat, e: Entry, v1: Vol)
    requires g.Ok() && SafeWith(g, v, o) && NamesOk(Dir(v.data, o.root)) && IsDotted(oldName) && IsDotted(newName)
    requires idx == Find(Dir(v.data, o.root), oldName) < |o.files| && NamesOk(Dir(v.data, o.root)[idx := e])
    requires var old_ := Dir(v.data, o.root)[idx];
             Live(e) && Raw(e) == Pack(newName) && Start(e) == Start(old_) && Size(e) == Size(old_)
    requires v1 == After(v, Commit(g, v, v.fat, o, idx, e).trace)
    ensures SafeWith(g, v1, o) && Dir(v1.data, o.root) == Dir(v.data, o.root)[idx := e]
    ensures Find(Dir(v1.data, o.root), newName) == idx && Peek(v1, o, newName) == Peek(v, o, oldName)
    ensures oldName != newName ==> Find(Dir(v1.data, o.root), oldName) == |o.files|
    ensures forall other: CString :: other != oldName && other != newName ==> Peek(v1, o, other) == Peek(v, o, other)
  {
    var dir := Dir(v.data, o.root);
    assert FileOk(v.fat, dir[idx], o.files[idx]);
    ChangedEntryReads(g, v, o, idx, e, v1);
    NewNameFound(dir, idx, e, oldName, newName);
    if oldName != newName {
      OldNameGone(dir, idx, e, oldName, newName);
    }
    MovedReading(v, v1, o, oldName, newName, idx, e);
  }

  lemma MovedReading(v: Vol, v1: Vol, o: Owner, oldName: CString, newName: CString, idx: nat, e: Entry)
    requires OthersRead(v, v1, o, idx, e) && InRange(o.files[idx], |v.data|) && |v1.data| == |v.data|
    requires Find(Dir(v.data, o.root), oldName) == idx && Find(Dir(v1.data, o.root), newName) == idx
    requires Dir(v1.data, o.root)[idx] == e && Size(e) == Size(Dir(v.data, o.root)[idx])
    requires Flat(v1.data, o.files[idx]) == Flat(v.data, o.files[idx])
    requires forall other: CString :: other != oldName && other != newName ==>
               !Matches(Dir(v.data, o.root)[idx], other) && !Matches(e, other)
    ensures Peek(v1, o, newName) == Peek(v, o, oldName)
    ensures forall other: CString :: other != oldName && other != newName ==> Peek(v1, o, other) == Peek(v, o, other)
  {
    SlotReading(v, o, oldName, idx);
    SlotReading(v1, o, newName, idx);
  }

  /** The new name leads to the slot, and no third name did or does. */
  lemma NewNameFound(dir: seq<Entry>, idx: nat, e: Entry, oldName: CString, newName: CString)
    requires idx < |dir| && NamesOk(dir) && NamesOk(dir[idx := e]) && IsDotted(newName)
    requires idx == Find(dir, oldName) && Live(e) && Raw(e) == Pack(newName)
    ensures Matches(e, newName) && Find(dir[idx := e], newName) == idx
    ensures forall other: CString :: other != oldName && other != newName ==>
              !Matches(dir[idx], other) && !Matches(e, other)
  {
    DottedRoundTrip(newName);
    FindExact(dir[idx := e], newName);
    assert dir[idx := e][idx] == e;
  }

  /** The old name leads nowhere. */
  lemma OldNameGone(dir: seq<Entry>, idx: nat, e: Entry, oldName: CString, newName: CString)
    requires idx < |dir| && NamesOk(dir) && NamesOk(dir[idx := e]) && IsDotted(oldName) && IsDotted(newName)
    requires idx == Find(dir, oldName) && Live(e) && Raw(e) == Pack(newName) && oldName != newName
    ensures Find(dir[idx := e], oldName) == |dir|
  {
    var after := dir[idx := e];
    DottedRoundTrip(oldName);
    DottedRoundTrip(newName);
    FindExact(dir, oldName);
    FindExact(after, oldName);
    forall i | 0 <= i < |after| && Live(after[i])
      ensures Raw(after[i]) != Pack(oldName)
    {
      if i == idx {
        assert after[i] == e;
      } else {
        assert after[i] == dir[i];
      }
    }
  }

  // ---------------------------------------------------------------- writing

  /** Writing no bytes sets the size to 0, and nothing else. */
  lemma EmptyWrite(g: Geometry, v: Vol, o: Owner, name: CString, mem: seq<byte>)
    requires g.Ok() && SafeWith(g, v, o) && DirectoryReads(g, v, o) && CommandOk(g, Write(name, mem, 0))
    requires Find(Dir(v.data, o.root), name) < |o.files|
    ensures var out, idx := StepWrite(g, v, o, name, mem, 0), Find(Dir(v.data, o.root), name);
            var v1 := After(v, out.trace);
            && Succeeds(out, 1) && SafeWith(g, v1, o)
            && SizedEntry(Dir(v.data, o.root), Dir(v1.data, o.root), idx, 0)
            && Find(Dir(v1.data, o.root), name) == idx && Peek(v1, o, name) == Emptied(Peek(v, o, name))
            && forall other: CString :: other != name ==> Peek(v1, o, other) == Peek(v, o, other)
  {
    var dir := Dir(v.data, o.root);
    var idx := Find(dir, name);
    WriteOutcomes(g, v, o, name, mem, 0);
    FieldsOfSize(dir[idx], 0);
    SizedBytes(dir[idx], 0);
    EmptiedReads(g, v, o, name, idx, WithSize(dir[idx], 0), After(v, StepWrite(g, v, o, name, mem, 0).trace));
  }

  lemma EmptiedReads(g: Geometry, v: Vol, o: Owner, name: CString, idx: nat, e: Entry, v1: Vol)
    requires g.Ok() && SafeWith(g, v, o) && idx == Find(Dir(v.data, o.root), name) < |o.files|
    requires var old_ := Dir(v.data, o.root)[idx];
             && Live(e) == Live(old_) && Raw(e) == Raw(old_) && Start(e) == Start(old_) && Size(e) == 0
             && e[..28] == old_[..28] && WordOf(e[28], e[29], e[30], e[31]) == 0
    requires v1 == After(v, Commit(g, v, v.fat, o, idx, e).trace)
    ensures SafeWith(g, v1, o) && SizedEntry(Dir(v.data, o.root), Dir(v1.data, o.root), idx, 0)
    ensures Find(Dir(v1.data, o.root), name) == idx && Peek(v1, o, name) == Emptied(Peek(v, o, name))
    ensures forall other: CString :: other != name ==> Peek(v1, o, other) == Peek(v, o, other)
  {
    var dir := Dir(v.data, o.root);
    assert FileOk(v.fat, dir[idx], o.files[idx]);
    ChangedEntryReads(g, v, o, idx, e, v1);
    SameName(dir, name, idx, e);
    EmptiedReading(v, v1, o, name, idx, e);
  }

  /** An entry that is as live and has the same name is found in the same place, and by no other name. */
  lemma SameName(dir: seq<Entry>, name: CString, idx: nat, e: Entry)
    requires idx == Find(dir, name) < |dir| && Live(e) == Live(dir[idx]) && Raw(e) == Raw(dir[idx])
    ensures Find(dir[idx := e], name) == idx
    ensures forall other: CString :: other != name ==> !Matches(dir[idx], other) && !Matches(e, other)
  {
    FindSame(dir, name, e);
  }

  lemma EmptiedReading(v: Vol, v1: Vol, o: Owner, name: CString, idx: nat, e: Entry)
    requires OthersRead(v, v1, o, idx, e) && InRange(o.files[idx], |v.data|) && |v1.data| == |v.data|
    requires Find(Dir(v.data, o.root), name) == idx && Find(Dir(v1.data, o.root), name) == idx
    requires Dir(v1.data, o.root)[idx] == e && Size(e) == 0
    requires Flat(v1.data, o.files[idx]) == Flat(v.data, o.files[idx])
    requires forall other: CString :: other != name ==> !Matches(Dir(v.data, o.root)[idx], other) && !Matches(e, other)
    ensures Peek(v1, o, name) == Emptied(Peek(v, o, name))
    ensures forall other: CString :: other != name ==> Peek(v1, o, other) == Peek(v, o, other)
  {
    SlotReading(v, o, name, idx);
    SlotReading(v1, o, name, idx);
  }

  function Emptied(r: Reading): Reading
  {
    match r
    case Contents(bytes, _) => Contents(bytes, 0)
    case _ => r
  }

  /** Entry idx has the size n in its last four bytes, low byte first, and all else is as before. */
  ghost predicate SizedEntry(before: seq<Entry>, after: seq<Entry>, idx: nat, n: u32)
  {
    && idx < |before| == |after| && after[idx][..28] == before[idx][..28]
    && WordOf(after[idx][28], after[idx][29], after[idx][30], after[idx][31]) == n
    && forall i :: 0 <= i < |before| && i != idx ==> after[i] == before[i]
  }

  lemma SizedBytes(e: Entry, n: u32)
    ensures WithSize(e, n)[..28] == e[..28]
    ensures var s := WithSize(e, n);
            WordOf(s[28], s[29], s[30], s[31]) == n
  {
    SizeOtherBytes(e, n);
    FieldsOfSize(e, n);
    EntryLayout(WithSize(e, n));
  }

  /**
   * Entry idx has the size n in bytes 28 to 31 and the start cluster c in bytes 26, 27, 20 and 21; its name, its
   * attribute and its times, and all other entries, are as before.
   */
  ghost predicate FilledEntry(before: seq<Entry>, after: seq<Entry>, idx: nat, n: u32, c: nat)
  {
    && idx < |before| == |after| && after[idx][..12] == before[idx][..12] && SameTimes(before[idx], after[idx])
    && WordOf(after[idx][28], after[idx][29], after[idx][30], after[idx][31]) == n
    && WordOf(after[idx][26], after[idx][27], after[idx][20], after[idx][21]) == c
    && forall i :: 0 <= i < |before| && i != idx ==> after[i] == before[i]
  }

  /** What a successful write of n > 0 bytes leaves in the directory. */
  lemma WrittenEntryBytes(g: Geometry, v: Vol, o: Owner, name: CString, mem: seq<byte>, n: u32)
    requires g.Ok() && SafeWith(g, v, o) && CommandOk(g, Write(name, mem, n)) && n > 0
    requires StepWrite(g, v, o, name, mem, n).ret == 1
    ensures var out, idx := StepWrite(g, v, o, name, mem, n), Find(Dir(v.data, o.root), name);
            && Succeeds(out, 1) && idx < |o.files| && StartChain(v, o, idx) != []
            && InRange(o.root, |After(v, out.trace).data|)
            && FilledEntry(Dir(v.data, o.root), Dir(After(v, out.trace).data, o.root), idx, n, StartChain(v, o, idx)[0])
  {
    var idx := Find(Dir(v.data, o.root), name);
    WriteOutcomes(g, v, o, name, mem, n);
    WriteSafe(g, v, o, name, mem, n);
    WriteCommitSafe(g, v, o, idx, mem, n);
    FilledBytes(g, v, o, idx, n);
  }

  lemma FilledBytes(g: Geometry, v: Vol, o: Owner, idx: nat, n: u32)
    requires g.Ok() && SafeWith(g, v, o) && idx < |o.files| && StartChain(v, o, idx) != []
    requires Live(Dir(v.data, o.root)[idx])
    ensures var dir := Dir(v.data, o.root);
            FilledEntry(dir, dir[idx := WrittenEntry(v, o, idx, n)], idx, n, StartChain(v, o, idx)[0])
  {
    var e := Dir(v.data, o.root)[idx];
    assert FileOk(v.fat, e, o.files[idx]);
    FreeFromIsFreeList(v.fat, ScanStart(3));
    SizedOnly(e, n);
    if o.files[idx] == [] {
      StartedToo(WithSize(e, n), StartChain(v, o, idx)[0]);
    }
  }

  lemma SizedOnly(e: Entry, n: u32)
    ensures var s := WithSize(e, n);
            && s[..12] == e[..12] && SameTimes(e, s) && WordOf(s[28], s[29], s[30], s[31]) == n
            && WordOf(s[26], s[27], s[20], s[21]) == Start(e)
  {
    SizedBytes(e, n);
    SizeOtherBytes(e, n);
    FieldsOfSize(e, n);
    EntryLayout(WithSize(e, n));
    assert WithSize(e, n)[..12] == WithSize(e, n)[..28][..12] == e[..28][..12] == e[..12];
  }

  lemma StartedToo(e: Entry, c: u32)
    ensures var s := WithStart(e, c);
            && s[..12] == e[..12] && SameTimes(e, s)
            && WordOf(s[28], s[29], s[30], s[31]) == WordOf(e[28], e[29], e[30], e[31])
            && WordOf(s[26], s[27], s[20], s[21]) == c
  {
    StartOtherBytes(e, c);
    FieldsOfStart(e, c);
    EntryLayout(WithStart(e, c));
    EntryLayout(e);
    assert WithStart(e, c)[..12] == WithStart(e, c)[..20][..12] == e[..20][..12] == e[..12];
  }

  /** What a truncation leaves in the directory, whatever the length. */
  lemma TruncatedEntry(g: Geometry, v: Vol, o: Owner, name: CString, length: u32)
    requires g.Ok() && SafeWith(g, v, o) && StepTruncate(g, v, o, name, length).trace != []
    ensures var out, idx := StepTruncate(g, v, o, name, length), Find(Dir(v.data, o.root), name);
            && Succeeds(out, 0) && InRange(o.root, |After(v, out.trace).data|)
            && SizedEntry(Dir(v.data, o.root), Dir(After(v, out.trace).data, o.root), idx, length)
  {
    var dir := Dir(v.data, o.root);
    var idx := Find(dir, name);
    TruncateTrace(g, v, o, name, length);
    AfterCommit(g, v, Truncated(v.fat, o.files[idx], length, g.ClusterSize()), o, idx, WithSize(dir[idx], length));
    SizedBytes(dir[idx], length);
  }
}
