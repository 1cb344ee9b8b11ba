/** Names over whole runs: in every state that a crash can leave, no two live entries share one. */
module UniqueNames {
  import opened Bytes
  import opened Names
  import opened Layout
  import opened Chains
  import opened Dirents
  import opened Volume
  import opened Operations
  import opened Runs
  import opened Atomicity

  /** What the caller has to see to: names with an extension, and renaming to a name not in use. */
  ghost predicate FreshName(dir: seq<Entry>, cmd: Command) {
    match cmd
    case Create(name, isDir) => DOT in name
    case Rename(oldName, newName) => IsValid(newName) ==> Unused(dir, Find(dir, oldName), Pack(newName))
    case _ => true
  }

  /** The directory after a trace still has well-formed and unique names. */
  ghost predicate EndsWithNames(g: Geometry, v: Vol, root: Chain, trace: seq<Vol>) {
    trace != [] ==> exists dir :: NamesOk(dir) && HoldsDir(g, After(v, trace), root, dir)
  }

  lemma EntryNames(g: Geometry, v: Vol, mem: Fat, o: Owner, idx: nat, e: Entry)
    requires g.Ok() && SafeWith(g, v, o) && idx < |o.files| && |mem| == |v.fat| && IsChain(mem, o.root)
    requires NamesOk(Dir(v.data, o.root)[idx := e])
    ensures EndsWithNames(g, v, o.root, Commit(g, v, mem, o, idx, e).trace)
  {
    CommitAtomic(g, v, mem, o, idx, e);
  }

  lemma DeleteNames(g: Geometry, v: Vol, o: Owner, name: CString)
    requires g.Ok() && SafeWith(g, v, o) && NamesOk(Dir(v.data, o.root))
    ensures EndsWithNames(g, v, o.root, StepDelete(g, v, o, name).trace)
  {
    if StepDelete(g, v, o, name).trace != [] {
      var dir := Dir(v.data, o.root);
      var idx := Find(dir, name);
      var mem := Relink(v.fat, o.files[idx], [], END_OF_CHAIN);
      RelinkKeepsOthers(v.fat, mem, o.files[idx], [], END_OF_CHAIN, o.root);
      DeletedIsNotLive(dir[idx]);
      NamesOkKept(dir, idx, Deleted(dir[idx]));
      EntryNames(g, v, mem, o, idx, Deleted(dir[idx]));
    }
  }

  lemma ResizedNames(g: Geometry, v: Vol, mem: Fat, o: Owner, idx: nat, n: u32)
    requires g.Ok() && SafeWith(g, v, o) && idx < |o.files| && |mem| == |v.fat| && IsChain(mem, o.root)
    requires NamesOk(Dir(v.data, o.root))
    ensures EndsWithNames(g, v, o.root, Commit(g, v, mem, o, idx, WithSize(Dir(v.data, o.root)[idx], n)).trace)
  {
    var dir := Dir(v.data, o.root);
    FieldsOfSize(dir[idx], n);
    NamesOkKept(dir, idx, WithSize(dir[idx], n));
    EntryNames(g, v, mem, o, idx, WithSize(dir[idx], n));
  }

  lemma TruncateNames(g: Geometry, v: Vol, o: Owner, name: CString, length: u32)
    requires g.Ok() && SafeWith(g, v, o) && NamesOk(Dir(v.data, o.root))
    ensures EndsWithNames(g, v, o.root, StepTruncate(g, v, o, name, length).trace)
  {
    if StepTruncate(g, v, o, name, length).trace != [] {
      var dir := Dir(v.data, o.root);
      var idx := Find(dir, name);
      assert FileOk(v.fat, dir[idx], o.files[idx]);
      TruncatedKeeps(v.fat, o.files[idx], length, g.ClusterSize(), o.root);
      ResizedNames(g, v, Truncated(v.fat, o.files[idx], length, g.ClusterSize()), o, idx, length);
    }
  }

  lemma CreateNames(g: Geometry, v: Vol, o: Owner, name: CString, isDir: bool)
    requires g.Ok() && SafeWith(g, v, o) && NamesOk(Dir(v.data, o.root)) && DOT in name
    ensures EndsWithNames(g, v, o.root, StepCreate(g, v, o, name, isDir).trace)
  {
    if StepCreate(g, v, o, name, isDir).trace != [] {
      var dir := Dir(v.data, o.root);
      var slot := FreeSlot(dir);
      var e := Fresh(dir[slot], name, isDir);
      DottedHasDotOnce(name);
      FieldsOfFresh(dir[slot], name, isDir);
      NotFoundIsUnused(dir, slot, name);
      NamesOkIffUnused(dir, slot, e, name);
      EntryNames(g, v, v.fat, o, slot, e);
    }
  }

  lemma RenameNames(g: Geometry, v: Vol, o: Owner, oldName: CString, newName: CString)
    requires g.Ok() && SafeWith(g, v, o) && NamesOk(Dir(v.data, o.root))
    requires IsValid(newName) ==> Unused(Dir(v.data, o.root), Find(Dir(v.data, o.root), oldName), Pack(newName))
    ensures EndsWithNames(g, v, o.root, StepRename(g, v, o, oldName, newName).trace)
  {
    if StepRename(g, v, o, oldName, newName).trace != [] {
      var dir := Dir(v.data, o.root);
      var idx := Find(dir, oldName);
      FieldsOfName(dir[idx], newName);
      NamesOkIffUnused(dir, idx, WithName(dir[idx], newName), newName);
      EntryNames(g, v, v.fat, o, idx, WithName(dir[idx], newName));
    }
  }

  lemma WrittenName(v: Vol, o: Owner, idx: nat, n: u32)
    requires InRange(o.root, |v.data|) && idx < |Dir(v.data, o.root)| == |o.files|
    requires |v.fat| <= 0x0FFF_FFF0 && NamesOk(Dir(v.data, o.root))
    ensures NamesOk(Dir(v.data, o.root)[idx := WrittenEntry(v, o, idx, n)])
  {
    var dir := Dir(v.data, o.root);
    FreeFromIsFreeList(v.fat, ScanStart(3));
    FieldsOfSize(dir[idx], n);
    if o.files[idx] == [] && StartChain(v, o, idx) != [] {
      FieldsOfStart(WithSize(dir[idx], n), StartChain(v, o, idx)[0]);
    }
    NamesOkKept(dir, idx, WrittenEntry(v, o, idx, n));
  }

  lemma WriteNames(g: Geometry, v: Vol, o: Owner, name: CString, mem: seq<byte>, n: u32)
    requires g.Ok() && SafeWith(g, v, o) && NamesOk(Dir(v.data, o.root)) && CommandOk(g, Write(name, mem, n))
    ensures EndsWithNames(g, v, o.root, StepWrite(g, v, o, name, mem, n).trace)
  {
    if StepWrite(g, v, o, name, mem, n).trace != [] {
      var dir := Dir(v.data, o.root);
      var idx := Find(dir, name);
      if n == 0 {
        ResizedNames(g, v, v.fat, o, idx, 0);
      } else {
        WrittenName(v, o, idx, n);
        WriteAtomic(g, v, o, idx, mem, n);
        assert NamesOk(AfterWrite(g, v, o, idx, mem, n));
      }
    }
  }

  lemma CommandNames(g: Geometry, v: Vol, cmd: Command)
    requires Mounted(g, v) && CommandOk(g, cmd)
    requires NamesOk(Listing(g, v)) && FreshName(Listing(g, v), cmd)
    ensures EndsWithNames(g, v, OwnerOf(g, v).root, Step(g, v, cmd).trace)
  {
    var o := OwnerOf(g, v);
    match cmd
    case Create(name, isDir) => CreateNames(g, v, o, name, isDir);
    case Delete(name) => DeleteNames(g, v, o, name);
    case Rename(oldName, newName) => RenameNames(g, v, o, oldName, newName);
    case Write(name, mem, n) => WriteNames(g, v, o, name, mem, n);
    case Truncate(name, length) => TruncateNames(g, v, o, name, length);
  }

  ghost predicate AllNamesOk(g: Geometry, trace: seq<Vol>) {
    forall i :: 0 <= i < |trace| ==> Safe(g, trace[i]) && NamesOk(Listing(g, trace[i]))
  }

  lemma NamesConcat(g: Geometry, a: seq<Vol>, b: seq<Vol>)
    requires AllNamesOk(g, a) && AllNamesOk(g, b)
    ensures AllNamesOk(g, a + b)
  {
  }

  lemma ListsNames(g: Geometry, v: Vol, root: Chain, trace: seq<Vol>)
    requires Mounted(g, v) && NamesOk(Listing(g, v)) && ListsOldOrNew(g, v, trace)
    requires EndsWithNames(g, v, root, trace)
    ensures AllNamesOk(g, trace) && NamesOk(Listing(g, After(v, trace)))
  {
    if trace != [] {
      var dir :| NamesOk(dir) && HoldsDir(g, After(v, trace), root, dir);
      ReadBack(g, After(v, trace), root, dir);
    }
  }

  /** One command: every state on the way lists unique names. */
  lemma StepNames(g: Geometry, v: Vol, cmd: Command)
    requires Mounted(g, v) && Admissible(g, cmd)
    requires NamesOk(Listing(g, v)) && FreshName(Listing(g, v), cmd)
    ensures var trace := Step(g, v, cmd).trace;
            && AllNamesOk(g, trace)
            && Mounted(g, After(v, trace)) && NamesOk(Listing(g, After(v, trace)))
  {
    StepAtomic(g, v, cmd);
    CommandNames(g, v, cmd);
    ListsNames(g, v, OwnerOf(g, v).root, Step(g, v, cmd).trace);
  }

  /** A run each of whose commands brings a fresh name. */
  ghost predicate FreshNames(g: Geometry, v: Vol, cmds: seq<Command>)
    requires Mounted(g, v) && AllAdmissible(g, cmds)
    decreases |cmds|
  {
    cmds == [] || (
      assert Admissible(g, cmds[0]);
      StepSafe(g, v, cmds[0]);
      && FreshName(Listing(g, v), cmds[0])
      && (Step(g, v, cmds[0]).halted || FreshNames(g, After(v, Step(g, v, cmds[0]).trace), cmds[1..])))
  }

  lemma FreshStep(g: Geometry, v: Vol, cmds: seq<Command>, out: Outcome, next: Vol)
    requires Mounted(g, v) && AllAdmissible(g, cmds) && cmds != [] && FreshNames(g, v, cmds)
    requires out == Step(g, v, cmds[0]) && next == After(v, out.trace)
    ensures Admissible(g, cmds[0]) && FreshName(Listing(g, v), cmds[0])
    ensures Mounted(g, next) && AllAdmissible(g, cmds[1..])
    ensures !out.halted ==> FreshNames(g, next, cmds[1..])
    ensures Run(g, v, cmds) == if out.halted then out.trace else out.trace + Run(g, next, cmds[1..])
  {
    assert Admissible(g, cmds[0]);
    StepSafe(g, v, cmds[0]);
  }

  /** Names stay well formed and unique in every state of every such run, crash states included. */
  lemma {:induction false} RunNames(g: Geometry, v: Vol, cmds: seq<Command>)
    requires Mounted(g, v) && AllAdmissible(g, cmds)
    requires NamesOk(Listing(g, v)) && FreshNames(g, v, cmds)
    ensures AllNamesOk(g, Run(g, v, cmds))
    decreases |cmds|
  {
    if cmds != [] {
      var out := Step(g, v, cmds[0]);
      var next := After(v, out.trace);
      FreshStep(g, v, cmds, out, next);
      StepNames(g, v, cmds[0]);
      if !out.halted {
        RunNames(g, next, cmds[1..]);
        NamesConcat(g, out.trace, Run(g, next, cmds[1..]));
      }
    }
  }
}
