/** Whole runs of the driver, with crashes and remounts. */
module Runs {
  import opened Bytes
  import opened Layout
  import opened Chains
  import opened Dirents
  import opened Volume
  import opened Operations
  import opened CrashSafety

  /** The entry that fat32_write stores: new size, and the start cluster if the file had none. */
  ghost function WrittenEntry(v: Vol, o: Owner, idx: nat, n: u32): Entry
    requires InRange(o.root, |v.data|) && idx < |Dir(v.data, o.root)| == |o.files|
    requires |v.fat| <= 0x0FFF_FFF0
  {
    var e := WithSize(Dir(v.data, o.root)[idx], n);
    FreeFromIsFreeList(v.fat, ScanStart(3));
    if o.files[idx] == [] && StartChain(v, o, idx) != [] then WithStart(e, StartChain(v, o, idx)[0]) else e
  }

  ghost function StepWrite(g: Geometry, v: Vol, o: Owner, name: CString, mem: seq<byte>, n: u32): Outcome
    requires g.Ok() && SafeWith(g, v, o) && CommandOk(g, Write(name, mem, n))
  {
    if !StrayReadOk(g, v.fat, o.root) then Outcome([], true, 0)
    else
      var dir := Dir(v.data, o.root);
      var idx := Find(dir, name);
      if idx == |dir| then Outcome([], false, 0) else WriteFound(g, v, o, idx, mem, n)
  }

  /** fat32_write on the entry in slot idx. */
  ghost function WriteFound(g: Geometry, v: Vol, o: Owner, idx: nat, mem: seq<byte>, n: u32): Outcome
    requires g.Ok() && SafeWith(g, v, o) && idx < |o.files|
    requires Span(ClustersFor(n, g.ClusterSize()), g.ClusterSize()) <= |mem|
  {
    if n == 0 then Outcome(Commit(g, v, v.fat, o, idx, WithSize(Dir(v.data, o.root)[idx], 0)).trace, false, 1)
    else WriteOutcome(g, v, o, idx, mem, n)
  }

  /** fat32_write with data, on the entry in slot idx. */
  ghost function WriteOutcome(g: Geometry, v: Vol, o: Owner, idx: nat, mem: seq<byte>, n: u32): Outcome
    requires g.Ok() && SafeWith(g, v, o) && idx < |o.files| && n > 0
    requires Span(ClustersFor(n, g.ClusterSize()), g.ClusterSize()) <= |mem|
  {
    if StartChain(v, o, idx) == [] then Outcome([], true, 0)
    else
      var w := WriteData(g, v, o, idx, mem, n);
      if !w.done then Outcome(w.trace, true, 0)
      else
        WriteDataSafe(g, v, o, idx, mem, n);
        var v1, o1 := After(v, w.trace), OwnerAfterData(o, idx, w.chain);
        Outcome(w.trace + Commit(g, v1, w.fat, o1, idx, WrittenEntry(v, o, idx, n)).trace, false, 1)
  }

  /** The chain of the written file once its entry is on the card too. */
  lemma WrittenStages(v: Vol, o: Owner, idx: nat, n: u32, fat: Fat, dir: seq<Entry>, o1: Owner, new_: Chain)
    requires InRange(o.root, |v.data|) && idx < |Dir(v.data, o.root)| == |o.files|
    requires |v.fat| <= 0x0FFF_FFF0 && |fat| <= 0x0FFF_FFF0
    requires dir == Dir(v.data, o.root) && Live(dir[idx])
    requires FileOk(v.fat, dir[idx], o.files[idx]) && StartChain(v, o, idx) != []
    requires o1 == OwnerAfterData(o, idx, new_) && Owned(fat, dir, o1)
    requires IsChain(fat, new_) && new_[0] == StartChain(v, o, idx)[0]
    requires Disjoint(o.root, new_)
    requires forall i :: 0 <= i < |dir| && i != idx ==> Disjoint(o.files[i], new_)
    ensures Owned(fat, dir[idx := WrittenEntry(v, o, idx, n)], o.(files := o.files[idx := new_]))
  {
    FreeFromIsFreeList(v.fat, ScanStart(3));
    var e := WrittenEntry(v, o, idx, n);
    FieldsOfSize(dir[idx], n);
    FieldsOfStart(WithSize(dir[idx], n), StartChain(v, o, idx)[0]);
    OwnedUpdate(fat, dir, o1, fat, idx, e, new_);
    assert o1.files[idx := new_] == o.files[idx := new_];
  }

  lemma WriteSafe(g: Geometry, v: Vol, o: Owner, name: CString, mem: seq<byte>, n: u32)
    requires g.Ok() && SafeWith(g, v, o) && CommandOk(g, Write(name, mem, n))
    ensures var out := StepWrite(g, v, o, name, mem, n);
            && AllSafe(g, out.trace, v.fat)
            && (out.trace != [] && !out.halted ==>
                  var idx := Find(Dir(v.data, o.root), name);
                  SafeWith(g, After(v, out.trace),
                           if n == 0 then o
                           else o.(files := o.files[idx := WriteData(g, v, o, idx, mem, n).chain])))
  {
    var out := StepWrite(g, v, o, name, mem, n);
    if out.trace != [] {
      var dir := Dir(v.data, o.root);
      var idx := Find(dir, name);
      assert FileOk(v.fat, dir[idx], o.files[idx]);
      if n == 0 {
        FieldsOfSize(dir[idx], 0);
        EntryChangeSafe(g, v, o, idx, WithSize(dir[idx], 0));
      } else {
        WriteDataSafe(g, v, o, idx, mem, n);
        if !out.halted {
          WriteCommitSafe(g, v, o, idx, mem, n);
        }
      }
    }
  }

  /** The directory write that ends fat32_write. */
  lemma WriteCommitSafe(g: Geometry, v: Vol, o: Owner, idx: nat, mem: seq<byte>, n: u32)
    requires g.Ok() && SafeWith(g, v, o) && idx < |o.files| && n > 0
    requires Span(ClustersFor(n, g.ClusterSize()), g.ClusterSize()) <= |mem|
    requires StartChain(v, o, idx) != [] && WriteData(g, v, o, idx, mem, n).done
    requires Live(Dir(v.data, o.root)[idx])
    ensures var w := WriteData(g, v, o, idx, mem, n);
            var v1, o1 := After(v, w.trace), OwnerAfterData(o, idx, w.chain);
            && SafeWith(g, v1, o1) && |w.fat| == |v1.fat| && IsChain(w.fat, o1.root)
            && var trace := Commit(g, v1, w.fat, o1, idx, WrittenEntry(v, o, idx, n)).trace;
            && AllSafe(g, w.trace + trace, v.fat)
            && SafeWith(g, After(v, w.trace + trace), o.(files := o.files[idx := w.chain]))
            && Dir(After(v, w.trace + trace).data, o.root) == Dir(v.data, o.root)[idx := WrittenEntry(v, o, idx, n)]
  {
    WriteDataSafe(g, v, o, idx, mem, n);
    var w := WriteData(g, v, o, idx, mem, n);
    var dir := Dir(v.data, o.root);
    assert FileOk(v.fat, dir[idx], o.files[idx]);
    WrittenChain(g, v, o, idx, mem, n);
    WrittenStages(v, o, idx, n, w.fat, dir, OwnerAfterData(o, idx, w.chain), w.chain);
    FinishWrite(g, v, o, idx, w, WrittenEntry(v, o, idx, n), OwnerAfterData(o, idx, w.chain));
  }

  lemma FinishWrite(g: Geometry, v: Vol, o: Owner, idx: nat, w: Written, e: Entry, o1: Owner)
    requires g.Ok() && SafeWith(g, v, o) && idx < |o.files|
    requires w.trace != [] && AllSafe(g, w.trace, v.fat)
    requires o1.root == o.root && SafeWith(g, After(v, w.trace), o1)
    requires After(v, w.trace).fat == w.fat && Dir(After(v, w.trace).data, o.root) == Dir(v.data, o.root)
    requires Owned(w.fat, Dir(v.data, o.root)[idx := e], o.(files := o.files[idx := w.chain]))
    ensures IsChain(w.fat, o1.root)
    ensures var v1 := After(v, w.trace);
            var trace := Commit(g, v1, w.fat, o1, idx, e).trace;
            && AllSafe(g, w.trace + trace, v.fat)
            && SafeWith(g, After(v, w.trace + trace), o.(files := o.files[idx := w.chain]))
            && Dir(After(v, w.trace + trace).data, o.root) == Dir(v.data, o.root)[idx := e]
  {
    var v1, end := After(v, w.trace), o.(files := o.files[idx := w.chain]);
    CommitSafe(g, v1, w.fat, o1, idx, e, end, end);
    var trace := Commit(g, v1, w.fat, o1, idx, e).trace;
    assert w.trace[|w.trace| - 1] == v1;
    AllSafeConcat(g, w.trace, trace, v.fat);
    assert After(v, w.trace + trace) == After(v1, trace);
  }

  lemma WrittenChain(g: Geometry, v: Vol, o: Owner, idx: nat, mem: seq<byte>, n: u32)
    requires g.Ok() && SafeWith(g, v, o) && idx < |o.files| && n > 0
    requires Span(ClustersFor(n, g.ClusterSize()), g.ClusterSize()) <= |mem|
    requires StartChain(v, o, idx) != [] && WriteData(g, v, o, idx, mem, n).done
    ensures var w := WriteData(g, v, o, idx, mem, n);
            && |w.fat| == |v.fat| && IsChain(w.fat, w.chain) && w.chain[0] == StartChain(v, o, idx)[0]
            && |w.chain| == ClustersFor(n, g.ClusterSize())
            && Spared(v.fat, o, idx, w.chain)
            && (forall x :: x in w.chain ==> x in o.files[idx] || (x < |v.fat| && TypeOf(v.fat[x]) == Free))
            && IsRelink(StartFat(v, o, idx), w.fat, StartChain(v, o, idx), w.chain, END_OF_CHAIN)
  {
    StartProps(g, v, o, idx);
    PoolSpared(g, v, o, idx);
    var fat, ch := StartFat(v, o, idx), StartChain(v, o, idx);
    var cs, w := g.ClusterSize(), WriteData(g, v, o, idx, mem, n);
    DoneShape(v, fat, ch, mem, n, cs);
    SparedPart(v.fat, o, idx, w.chain, Pool(fat, ch));
  }

  /** A completed chain write made a chain of the clusters it visited. */
  lemma DoneShape(v: Vol, fat: Fat, ch: Chain, mem: seq<byte>, n: nat, cs: nat)
    requires cs > 0 && n > 0 && |fat| == |v.fat| == |v.data| <= 0x0FFF_FFF0
    requires IsChain(fat, ch) && Span(ClustersFor(n, cs), cs) <= |mem| && WriteChain(v, fat, ch, mem, n, cs).done
    ensures var w := WriteChain(v, fat, ch, mem, n, cs);
            && |w.fat| == |v.fat| && IsChain(w.fat, w.chain) && w.chain[0] == ch[0]
            && |w.chain| == ClustersFor(n, cs) && IsRelink(fat, w.fat, ch, w.chain, END_OF_CHAIN)
            && forall x :: x in w.chain ==> x in Pool(fat, ch)
  {
    WriteChainShape(v, fat, ch, mem, n, cs);
    var w, vis := WriteChain(v, fat, ch, mem, n, cs), Visited(fat, ch, n, cs);
    assert |vis| > 0 && vis[0] == ch[0];
    RelinkMakesChain(fat, w.fat, ch, vis, END_OF_CHAIN);
  }

  lemma SparedPart(fat: Fat, o: Owner, idx: nat, part: Chain, pool: Chain)
    requires Spared(fat, o, idx, pool) && forall x :: x in part ==> x in pool
    ensures Spared(fat, o, idx, part)
  {
  }

  /** One command on a mounted volume. */
  ghost function Step(g: Geometry, v: Vol, cmd: Command): Outcome
    requires Mounted(g, v) && CommandOk(g, cmd)
  {
    StepAt(g, v, OwnerOf(g, v), cmd)
  }

  /** One command on a volume owned by o. */
  ghost function StepAt(g: Geometry, v: Vol, o: Owner, cmd: Command): Outcome
    requires g.Ok() && SafeWith(g, v, o) && CommandOk(g, cmd)
  {
    match cmd
    case Create(name, isDir) => StepCreate(g, v, o, name, isDir)
    case Delete(name) => StepDelete(g, v, o, name)
    case Rename(oldName, newName) => StepRename(g, v, o, oldName, newName)
    case Write(name, mem, n) => StepWrite(g, v, o, name, mem, n)
    case Truncate(name, length) => StepTruncate(g, v, o, name, length)
  }

  /** Commands covered by crash safety: everything but truncating to nothing. */
  ghost predicate Admissible(g: Geometry, cmd: Command)
  {
    g.Ok() && CommandOk(g, cmd) && (cmd.Truncate? ==> cmd.length > 0)
  }

  ghost predicate AllAdmissible(g: Geometry, cmds: seq<Command>)
  {
    forall i :: 0 <= i < |cmds| ==> Admissible(g, cmds[i])
  }

  ghost predicate AllMounted(g: Geometry, trace: seq<Vol>)
  {
    forall i :: 0 <= i < |trace| ==> Mounted(g, trace[i])
  }

  /** Every device state of one command is safe, whether the command completes or panics. */
  lemma StepSafe(g: Geometry, v: Vol, cmd: Command)
    requires Mounted(g, v) && Admissible(g, cmd)
    ensures AllMounted(g, Step(g, v, cmd).trace)
    ensures Mounted(g, After(v, Step(g, v, cmd).trace))
  {
    StepAtSafe(g, v, OwnerOf(g, v), cmd);
  }

  lemma StepAtSafe(g: Geometry, v: Vol, o: Owner, cmd: Command)
    requires Mounted(g, v) && SafeWith(g, v, o) && Admissible(g, cmd)
    ensures AllMounted(g, StepAt(g, v, o, cmd).trace)
  {
    match cmd
    case Create(name, isDir) => CreateSafe(g, v, o, name, isDir);
    case Delete(name) => DeleteSafe(g, v, o, name);
    case Rename(oldName, newName) => RenameSafe(g, v, o, oldName, newName);
    case Write(name, mem, n) => WriteSafe(g, v, o, name, mem, n);
    case Truncate(name, length) => TruncateSafe(g, v, o, name, length);
  }

  /** The device states of a run of commands, up to its first panic. */
  ghost function Run(g: Geometry, v: Vol, cmds: seq<Command>): (trace: seq<Vol>)
    requires Mounted(g, v) && AllAdmissible(g, cmds)
    decreases |cmds|
  {
    if cmds == [] then [] else
      assert Admissible(g, cmds[0]);
      var out := Step(g, v, cmds[0]);
      StepSafe(g, v, cmds[0]);
      if out.halted then out.trace else out.trace + Run(g, After(v, out.trace), cmds[1..])
  }

  /** Crash safety of whole runs: all device states, hence all prefixes, are safe. */
  lemma {:induction false} RunSafe(g: Geometry, v: Vol, cmds: seq<Command>)
    requires Mounted(g, v) && AllAdmissible(g, cmds)
    ensures AllMounted(g, Run(g, v, cmds))
    decreases |cmds|
  {
    if cmds != [] {
      StepSafe(g, v, cmds[0]);
      var out := Step(g, v, cmds[0]);
      RunSafe(g, After(v, out.trace), cmds[1..]);
    }
  }

  /** A session mounts the card, runs commands and loses power after `writes` device writes. */
  datatype Session = Session(cmds: seq<Command>, writes: nat)

  ghost function AfterSession(g: Geometry, v: Vol, s: Session): Vol
    requires Mounted(g, v) && AllAdmissible(g, s.cmds)
  {
    var trace := Run(g, v, s.cmds);
    After(v, if s.writes <= |trace| then trace[..s.writes] else trace)
  }

  lemma SessionSafe(g: Geometry, v: Vol, s: Session)
    requires Mounted(g, v) && AllAdmissible(g, s.cmds)
    ensures Mounted(g, AfterSession(g, v, s))
  {
    RunSafe(g, v, s.cmds);
  }

  ghost predicate SessionsAdmissible(g: Geometry, ss: seq<Session>)
  {
    ss == [] || (AllAdmissible(g, ss[0].cmds) && SessionsAdmissible(g, ss[1..]))
  }

  ghost function AfterSessions(g: Geometry, v: Vol, ss: seq<Session>): Vol
    requires Mounted(g, v) && SessionsAdmissible(g, ss)
    decreases |ss|
  {
    if ss == [] then v else
      SessionSafe(g, v, ss[0]);
      AfterSessions(g, AfterSession(g, v, ss[0]), ss[1..])
  }

  /** However often power is lost in between, the card stays safe to mount. */
  lemma {:induction false} SessionsSafe(g: Geometry, v: Vol, ss: seq<Session>)
    requires Mounted(g, v) && SessionsAdmissible(g, ss)
    ensures Mounted(g, AfterSessions(g, v, ss))
    decreases |ss|
  {
    if ss != [] {
      SessionSafe(g, v, ss[0]);
      SessionsSafe(g, AfterSession(g, v, ss[0]), ss[1..]);
    }
  }
}
