/**
 * What completed operations do to ownership: no leak, no sharing, sizes that fit,
 * free clusters conserved, and every cluster that belongs to somebody else untouched.
 */
module Ownership {
  import opened Bytes
  import opened Layout
  import opened Chains
  import opened Dirents
  import opened Volume
  import opened Operations
  import opened CrashSafety
  import opened Runs

  // ---------------------------------------------------------------- clusters of others

  /** In use, and neither the directory's nor the file's of slot idx. */
  predicate Elsewhere(v: Vol, o: Owner, idx: nat, c: nat)
    requires idx < |o.files|
  {
    2 <= c < |v.fat| && c !in o.root && c !in o.files[idx] && TypeOf(v.fat[c]) != Free
  }

  ghost predicate FatElsewhere(v: Vol, o: Owner, idx: nat, fat: Fat)
    requires idx < |o.files|
  {
    |fat| == |v.fat| && forall c: nat :: Elsewhere(v, o, idx, c) ==> fat[c] == v.fat[c]
  }

  ghost predicate DataElsewhere(v: Vol, o: Owner, idx: nat, data: Data)
    requires idx < |o.files|
  {
    |data| == |v.data| == |v.fat| && forall c: nat :: Elsewhere(v, o, idx, c) ==> data[c] == v.data[c]
  }

  ghost predicate LeavesOthers(v: Vol, o: Owner, idx: nat, trace: seq<Vol>)
    requires idx < |o.files|
  {
    forall i :: 0 <= i < |trace| ==> FatElsewhere(v, o, idx, trace[i].fat) && DataElsewhere(v, o, idx, trace[i].data)
  }

  /** A directory write that starts at v1, some states after v. */
  lemma CommitLeavesOthers(g: Geometry, v: Vol, o: Owner, idx: nat, v1: Vol, mem: Fat, o1: Owner, e: Entry)
    requires g.Ok() && SafeWith(g, v1, o1) && idx < |o1.files| == |o.files| && o1.root == o.root
    requires IsChain(mem, o.root) && |mem| == |v1.fat|
    requires LeavesOthers(v, o, idx, [v1]) && FatElsewhere(v, o, idx, mem)
    ensures LeavesOthers(v, o, idx, Commit(g, v1, mem, o1, idx, e).trace)
  {
    assert FatElsewhere(v, o, idx, [v1][0].fat) && DataElsewhere(v, o, idx, [v1][0].data);
    var w := Commit(g, v1, mem, o1, idx, e);
    var data := CommitShape(g, v1, mem, o1, idx, e);
    assert FatElsewhere(v, o, idx, w.fat);
    assert DataElsewhere(v, o, idx, data);
  }

  lemma EntryLeavesOthers(g: Geometry, v: Vol, o: Owner, idx: nat, e: Entry)
    requires g.Ok() && SafeWith(g, v, o) && idx < |o.files|
    ensures LeavesOthers(v, o, idx, Commit(g, v, v.fat, o, idx, e).trace)
  {
    assert FatElsewhere(v, o, idx, v.fat) && DataElsewhere(v, o, idx, v.data);
    CommitLeavesOthers(g, v, o, idx, v, v.fat, o, e);
  }

  lemma RelinkElsewhere(v: Vol, o: Owner, idx: nat, mem: Fat, ch: Chain, fat': Fat, new_: Chain, mark: u32)
    requires idx < |o.files| && InRange(new_, |mem|) && IsRelink(mem, fat', ch, new_, mark)
    requires FatElsewhere(v, o, idx, mem)
    requires forall x :: x in ch || x in new_ ==> x in o.files[idx] || (x < |v.fat| && TypeOf(v.fat[x]) == Free)
    ensures FatElsewhere(v, o, idx, fat')
  {
  }

  lemma {:induction false} DataWritesLeaveOthers(v: Vol, o: Owner, idx: nat, vis: Chain, buf: seq<byte>,
                                                 cs: nat, k: nat)
    requires idx < |o.files| && |v.fat| == |v.data| && InRange(vis, |v.data|) && NoDup(vis)
    requires k <= |vis| && Span(k, cs) <= |buf|
    requires forall x :: x in vis ==> x in o.files[idx] || (x < |v.fat| && TypeOf(v.fat[x]) == Free)
    ensures LeavesOthers(v, o, idx, DataWrites(v, vis, buf, cs, k))
    ensures DataElsewhere(v, o, idx, Overlay(v.data, vis, buf, cs, k))
  {
    OverlayAt(v.data, vis, buf, cs, k);
    assert DataElsewhere(v, o, idx, Overlay(v.data, vis, buf, cs, k));
    if k > 0 {
      SpanMonotone(k - 1, k, cs);
      DataWritesLeaveOthers(v, o, idx, vis, buf, cs, k - 1);
    }
  }

  lemma StartElsewhere(g: Geometry, v: Vol, o: Owner, idx: nat)
    requires g.Ok() && SafeWith(g, v, o) && idx < |o.files| && StartChain(v, o, idx) != []
    ensures FatElsewhere(v, o, idx, StartFat(v, o, idx))
    ensures forall x :: x in StartChain(v, o, idx) ==> x in o.files[idx] || (x < |v.fat| && TypeOf(v.fat[x]) == Free)
  {
    FreeFromIsFreeList(v.fat, ScanStart(3));
  }

  lemma WriteDataLeavesOthers(g: Geometry, v: Vol, o: Owner, idx: nat, mem: seq<byte>, n: nat)
    requires g.Ok() && SafeWith(g, v, o) && idx < |o.files| && StartChain(v, o, idx) != []
    requires Span(ClustersFor(n, g.ClusterSize()), g.ClusterSize()) <= |mem|
    ensures var w := WriteData(g, v, o, idx, mem, n);
            && LeavesOthers(v, o, idx, w.trace)
            && (w.done ==> FatElsewhere(v, o, idx, w.fat))
  {
    var cs, w := g.ClusterSize(), WriteData(g, v, o, idx, mem, n);
    StartProps(g, v, o, idx);
    PoolSpared(g, v, o, idx);
    StartElsewhere(g, v, o, idx);
    var fat, ch := StartFat(v, o, idx), StartChain(v, o, idx);
    var vis := Visited(fat, ch, n, cs);
    WriteChainShape(v, fat, ch, mem, n, cs);
    DataWritesLeaveOthers(v, o, idx, vis, mem, cs, |vis|);
    if w.done {
      RelinkElsewhere(v, o, idx, fat, ch, w.fat, vis, END_OF_CHAIN);
    }
    TraceParts(v, o, idx, w.trace, |vis|);
  }

  lemma TraceParts(v: Vol, o: Owner, idx: nat, trace: seq<Vol>, k: nat)
    requires idx < |o.files| && k <= |trace| <= k + 1
    requires LeavesOthers(v, o, idx, trace[..k])
    requires k < |trace| ==> FatElsewhere(v, o, idx, trace[k].fat) && DataElsewhere(v, o, idx, trace[k].data)
    ensures LeavesOthers(v, o, idx, trace)
  {
    forall i | 0 <= i < |trace|
      ensures FatElsewhere(v, o, idx, trace[i].fat) && DataElsewhere(v, o, idx, trace[i].data)
    {
      if i < k {
        assert trace[..k][i] == trace[i];
      }
    }
  }

  /** The slot a command works on; |dir| when it works on none. */
  ghost function Target(dir: seq<Entry>, cmd: Command): nat
  {
    match cmd
    case Create(_, _) => FreeSlot(dir)
    case Delete(name) => Find(dir, name)
    case Rename(oldName, _) => Find(dir, oldName)
    case Write(name, _, _) => Find(dir, name)
    case Truncate(name, _) => Find(dir, name)
  }

  /**
   * In every device state of every command, completed or not, the FAT entry and the
   * bytes of every cluster that belongs to another file are what they were.
   */
  lemma StepLeavesOthers(g: Geometry, v: Vol, cmd: Command)
    requires Mounted(g, v) && CommandOk(g, cmd)
    ensures var o := OwnerOf(g, v);
            var idx := Target(Dir(v.data, o.root), cmd);
            Step(g, v, cmd).trace != [] ==> idx < |o.files| && LeavesOthers(v, o, idx, Step(g, v, cmd).trace)
  {
    var o := OwnerOf(g, v);
    var dir := Dir(v.data, o.root);
    var idx := Target(dir, cmd);
    if Step(g, v, cmd).trace != [] {
      match cmd
      case Create(name, isDir) =>
        EntryLeavesOthers(g, v, o, idx, Fresh(dir[idx], name, isDir));
      case Delete(name) =>
        DeleteLeavesOthers(g, v, o, name);
      case Rename(oldName, newName) =>
        EntryLeavesOthers(g, v, o, idx, WithName(dir[idx], newName));
      case Write(name, mem, n) =>
        WriteLeavesOthers(g, v, o, name, mem, n);
      case Truncate(name, length) =>
        TruncateLeavesOthers(g, v, o, name, length);
    }
  }

  lemma DeleteLeavesOthers(g: Geometry, v: Vol, o: Owner, name: CString)
    requires g.Ok() && SafeWith(g, v, o)
    ensures var idx := Find(Dir(v.data, o.root), name);
            var out := StepDelete(g, v, o, name);
            out.trace != [] ==> LeavesOthers(v, o, idx, out.trace)
  {
    var dir := Dir(v.data, o.root);
    var idx := Find(dir, name);
    if StepDelete(g, v, o, name).trace != [] {
      var mem := Relink(v.fat, o.files[idx], [], END_OF_CHAIN);
      RelinkKeepsOthers(v.fat, mem, o.files[idx], [], END_OF_CHAIN, o.root);
      RelinkElsewhere(v, o, idx, v.fat, o.files[idx], mem, [], END_OF_CHAIN);
      CommitLeavesOthers(g, v, o, idx, v, mem, o, Deleted(dir[idx]));
    }
  }

  lemma TruncateLeavesOthers(g: Geometry, v: Vol, o: Owner, name: CString, length: u32)
    requires g.Ok() && SafeWith(g, v, o)
    ensures var idx := Find(Dir(v.data, o.root), name);
            var out := StepTruncate(g, v, o, name, length);
            out.trace != [] ==> LeavesOthers(v, o, idx, out.trace)
  {
    var cs, dir := g.ClusterSize(), Dir(v.data, o.root);
    var idx := Find(dir, name);
    var out := StepTruncate(g, v, o, name, length);
    if out.trace != [] {
      assert FileOk(v.fat, dir[idx], o.files[idx]);
      var mem := Truncated(v.fat, o.files[idx], length, cs);
      TruncatedKeeps(v.fat, o.files[idx], length, cs, o.root);
      TruncatedElsewhere(v, o, idx, length, cs);
      CommitLeavesOthers(g, v, o, idx, v, mem, o, WithSize(dir[idx], length));
    }
  }

  lemma TruncatedElsewhere(v: Vol, o: Owner, idx: nat, length: nat, cs: nat)
    requires idx < |o.files| && cs > 0 && 0 < |v.fat| <= 0x0FFF_FFF0
    requires o.files[idx] != [] ==> IsChain(v.fat, o.files[idx])
    ensures FatElsewhere(v, o, idx, Truncated(v.fat, o.files[idx], length, cs))
  {
    var ch, k := o.files[idx], ClustersFor(length, cs);
    if ch != [] && k <= |ch| {
      RelinkElsewhere(v, o, idx, v.fat, ch, Truncated(v.fat, ch, length, cs), ch[..k], LAST_CLUSTER);
    }
  }

  lemma FinishLeavesOthers(g: Geometry, v: Vol, o: Owner, idx: nat, w: Written, e: Entry)
    requires g.Ok() && idx < |o.files| && w.trace != []
    requires LeavesOthers(v, o, idx, w.trace) && FatElsewhere(v, o, idx, w.fat)
    requires After(v, w.trace).fat == w.fat
    requires SafeWith(g, After(v, w.trace), OwnerAfterData(o, idx, w.chain))
    ensures var commit := Commit(g, After(v, w.trace), w.fat, OwnerAfterData(o, idx, w.chain), idx, e);
            LeavesOthers(v, o, idx, w.trace + commit.trace)
  {
    var v1, o1 := After(v, w.trace), OwnerAfterData(o, idx, w.chain);
    assert v1 == w.trace[|w.trace| - 1];
    assert LeavesOthers(v, o, idx, [v1]);
    CommitLeavesOthers(g, v, o, idx, v1, w.fat, o1, e);
    LeavesOthersConcat(v, o, idx, w.trace, Commit(g, v1, w.fat, o1, idx, e).trace);
  }

  lemma LeavesOthersConcat(v: Vol, o: Owner, idx: nat, a: seq<Vol>, b: seq<Vol>)
    requires idx < |o.files| && LeavesOthers(v, o, idx, a) && LeavesOthers(v, o, idx, b)
    ensures LeavesOthers(v, o, idx, a + b)
  {
  }

  lemma WriteLeavesOthers(g: Geometry, v: Vol, o: Owner, name: CString, mem: seq<byte>, n: u32)
    requires g.Ok() && SafeWith(g, v, o) && CommandOk(g, Write(name, mem, n))
    ensures var idx := Find(Dir(v.data, o.root), name);
            var out := StepWrite(g, v, o, name, mem, n);
            out.trace != [] ==> LeavesOthers(v, o, idx, out.trace)
  {
    var dir := Dir(v.data, o.root);
    var idx := Find(dir, name);
    var out := StepWrite(g, v, o, name, mem, n);
    if out.trace != [] {
      if n == 0 {
        EntryLeavesOthers(g, v, o, idx, WithSize(dir[idx], 0));
      } else {
        WriteDataLeavesOthers(g, v, o, idx, mem, n);
        if !out.halted {
          WriteDataSafe(g, v, o, idx, mem, n);
          FinishLeavesOthers(g, v, o, idx, WriteData(g, v, o, idx, mem, n), WrittenEntry(v, o, idx, n));
        }
      }
    }
  }
}
