/** What a crash leaves of the directory: all of the old one, or all of the new one. */
module Atomicity {
  import opened Bytes
  import opened Layout
  import opened Chains
  import opened Dirents
  import opened Volume
  import opened Operations
  import opened CrashSafety
  import opened Runs

  /** On the card s, the chain root is intact and holds dir. */
  ghost predicate HoldsDir(g: Geometry, s: Vol, root: Chain, dir: seq<Entry>) {
    && |s.fat| == |s.data| <= 0x0FFF_FFF0 && IsChain(s.fat, root) && root[0] == g.root
    && InRange(root, |s.data|) && Dir(s.data, root) == dir
  }

  /** Each state holds the one directory or the other, and the last one holds the other. */
  ghost predicate OldThenNew(g: Geometry, root: Chain, old_: seq<Entry>, new_: seq<Entry>, trace: seq<Vol>) {
    && (forall i :: 0 <= i < |trace| ==> HoldsDir(g, trace[i], root, old_) || HoldsDir(g, trace[i], root, new_))
    && (trace != [] ==> HoldsDir(g, trace[|trace| - 1], root, new_))
  }

  lemma CommitAtomic(g: Geometry, v: Vol, mem: Fat, o: Owner, idx: nat, e: Entry)
    requires g.Ok() && SafeWith(g, v, o) && idx < |o.files|
    requires |mem| == |v.fat| && IsChain(mem, o.root)
    ensures var dir := Dir(v.data, o.root);
            OldThenNew(g, o.root, dir, dir[idx := e], Commit(g, v, mem, o, idx, e).trace)
  {
    var data := CommitShape(g, v, mem, o, idx, e);
    TwoDirs(g, v, data, mem, Commit(g, v, mem, o, idx, e), o, Dir(v.data, o.root)[idx := e]);
  }

  lemma TwoDirs(g: Geometry, v: Vol, data: Data, mem: Fat, w: Written, o: Owner, dir: seq<Entry>)
    requires g.Ok() && SafeWith(g, v, o) && |mem| == |v.fat| && IsRelink(mem, w.fat, o.root, o.root, END_OF_CHAIN)
    requires WellFormed(g, Vol(v.fat, data)) && TwoFaced(v, data, w) && Dir(data, o.root) == dir
    ensures OldThenNew(g, o.root, Dir(v.data, o.root), dir, w.trace)
  {
    RelinkMakesChain(mem, w.fat, o.root, o.root, END_OF_CHAIN);
    NewFat(g, v, v.data, v.fat, o);
    NewFat(g, v, data, v.fat, o);
    NewFat(g, v, data, w.fat, o);
    TwoStates(g, v, data, w, o.root, Dir(v.data, o.root), Dir(data, o.root));
  }

  lemma NewFat(g: Geometry, v: Vol, data: Data, fat: Fat, o: Owner)
    requires g.Ok() && SafeWith(g, v, o) && |data| == |v.data| && |fat| == |v.fat| && IsChain(fat, o.root)
    ensures HoldsDir(g, Vol(fat, data), o.root, Dir(data, o.root))
  {
  }

  lemma TwoStates(g: Geometry, v: Vol, data: Data, w: Written, root: Chain, old_: seq<Entry>, new_: seq<Entry>)
    requires TwoFaced(v, data, w) && HoldsDir(g, v, root, old_)
    requires HoldsDir(g, Vol(v.fat, data), root, new_) && HoldsDir(g, Vol(w.fat, data), root, new_)
    ensures OldThenNew(g, root, old_, new_, w.trace)
  {
    forall i | 0 <= i < |w.trace|
      ensures HoldsDir(g, w.trace[i], root, old_) || HoldsDir(g, w.trace[i], root, new_)
    {
      assert i < |w.trace| - 1 ==> w.trace[i] == v || w.trace[i] == Vol(v.fat, data);
    }
  }

  lemma SentState(v: Vol, vis: Chain, mem: seq<byte>, cs: nat, trace: seq<Vol>, i: nat)
    requires InRange(vis, |v.data|) && i < |vis| <= |trace| && Span(|vis|, cs) <= |mem|
    requires trace[..|vis|] == DataWrites(v, vis, mem, cs, |vis|)
    ensures Span(i + 1, cs) <= |mem| && trace[i] == Vol(v.fat, Overlay(v.data, vis, mem, cs, i + 1))
  {
    SpanMonotone(i + 1, |vis|, cs);
    assert trace[i] == trace[..|vis|][i];
  }

  /** Data writes to spared clusters leave the directory alone. */
  lemma SentHoldsDir(g: Geometry, v: Vol, o: Owner, vis: Chain, mem: seq<byte>, k: nat, data: Data)
    requires g.Ok() && SafeWith(g, v, o) && InRange(vis, |v.data|) && NoDup(vis) && Disjoint(o.root, vis)
    requires k <= |vis| && Span(k, g.ClusterSize()) <= |mem|
    requires data == Overlay(v.data, vis, mem, g.ClusterSize(), k)
    ensures HoldsDir(g, Vol(v.fat, data), o.root, Dir(v.data, o.root))
  {
    DataWriteSafe(g, v, o, vis, mem, k);
    NewFat(g, v, data, v.fat, o);
  }

  /** So does the flush that ends the data phase. */
  lemma FlushHoldsDir(g: Geometry, v: Vol, o: Owner, idx: nat, mem: seq<byte>, n: nat)
    requires g.Ok() && SafeWith(g, v, o) && idx < |o.files| && n > 0 && StartChain(v, o, idx) != []
    requires Span(ClustersFor(n, g.ClusterSize()), g.ClusterSize()) <= |mem|
    requires WriteData(g, v, o, idx, mem, n).done
    ensures HoldsDir(g, After(v, WriteData(g, v, o, idx, mem, n).trace), o.root, Dir(v.data, o.root))
  {
    WriteDataSafe(g, v, o, idx, mem, n);
  }

  lemma DataPhaseHoldsDir(g: Geometry, v: Vol, o: Owner, idx: nat, mem: seq<byte>, n: nat, i: nat)
    requires g.Ok() && SafeWith(g, v, o) && idx < |o.files| && n > 0 && StartChain(v, o, idx) != []
    requires Span(ClustersFor(n, g.ClusterSize()), g.ClusterSize()) <= |mem|
    requires i < |WriteData(g, v, o, idx, mem, n).trace|
    ensures HoldsDir(g, WriteData(g, v, o, idx, mem, n).trace[i], o.root, Dir(v.data, o.root))
  {
    var cs, w := g.ClusterSize(), WriteData(g, v, o, idx, mem, n);
    StartProps(g, v, o, idx);
    PoolSpared(g, v, o, idx);
    var fat, ch := StartFat(v, o, idx), StartChain(v, o, idx);
    var vis := Visited(fat, ch, n, cs);
    WriteChainShape(v, fat, ch, mem, n, cs);
    if i < |vis| {
      SentState(v, vis, mem, cs, w.trace, i);
      SentHoldsDir(g, v, o, vis, mem, i + 1, w.trace[i].data);
    } else {
      FlushHoldsDir(g, v, o, idx, mem, n);
    }
  }

  /** The directory that a write ends with: the old one when it panics for want of a free cluster. */
  ghost function AfterWrite(g: Geometry, v: Vol, o: Owner, idx: nat, mem: seq<byte>, n: u32): seq<Entry>
    requires g.Ok() && SafeWith(g, v, o) && idx < |o.files| && n > 0
    requires Span(ClustersFor(n, g.ClusterSize()), g.ClusterSize()) <= |mem|
  {
    var dir := Dir(v.data, o.root);
    if WriteOutcome(g, v, o, idx, mem, n).halted then dir else dir[idx := WrittenEntry(v, o, idx, n)]
  }

  lemma WriteAtomic(g: Geometry, v: Vol, o: Owner, idx: nat, mem: seq<byte>, n: u32)
    requires g.Ok() && SafeWith(g, v, o) && idx < |o.files| && n > 0
    requires Span(ClustersFor(n, g.ClusterSize()), g.ClusterSize()) <= |mem|
    ensures OldThenNew(g, o.root, Dir(v.data, o.root), AfterWrite(g, v, o, idx, mem, n),
                       WriteOutcome(g, v, o, idx, mem, n).trace)
  {
    if StartChain(v, o, idx) != [] {
      var dir, e, w := Dir(v.data, o.root), WrittenEntry(v, o, idx, n), WriteData(g, v, o, idx, mem, n);
      forall i | 0 <= i < |w.trace|
        ensures HoldsDir(g, w.trace[i], o.root, dir)
      {
        DataPhaseHoldsDir(g, v, o, idx, mem, n, i);
      }
      if w.done {
        WriteDataSafe(g, v, o, idx, mem, n);
        var v1, o1 := After(v, w.trace), OwnerAfterData(o, idx, w.chain);
        CommitAtomic(g, v1, w.fat, o1, idx, e);
        OldFirst(g, o.root, dir, dir[idx := e], w.trace, Commit(g, v1, w.fat, o1, idx, e).trace);
      }
    }
  }

  lemma OldFirst(g: Geometry, root: Chain, old_: seq<Entry>, new_: seq<Entry>, a: seq<Vol>, b: seq<Vol>)
    requires forall i :: 0 <= i < |a| ==> HoldsDir(g, a[i], root, old_)
    requires b != [] && OldThenNew(g, root, old_, new_, b)
    ensures OldThenNew(g, root, old_, new_, a + b)
  {
    assert (a + b)[|a + b| - 1] == b[|b| - 1];
  }

  /** After a crash the card is read through its own FAT: the owner's root chain is the old one. */
  lemma ReadBack(g: Geometry, s: Vol, root: Chain, dir: seq<Entry>)
    requires Safe(g, s) && HoldsDir(g, s, root, dir)
    ensures Dir(s.data, OwnerOf(g, s).root) == dir
  {
    ChainUnique(s.fat, OwnerOf(g, s).root, root);
  }

  /** The directory that a mounted card shows. */
  ghost function Listing(g: Geometry, v: Vol): seq<Entry>
    requires Safe(g, v)
  {
    Dir(v.data, OwnerOf(g, v).root)
  }

  /** At most one entry differs. */
  predicate OneEntry(old_: seq<Entry>, new_: seq<Entry>) {
    |old_| == |new_| && (old_ == new_ || exists idx :: 0 <= idx < |old_| && new_ == old_[idx := new_[idx]])
  }

  lemma Replaced(dir: seq<Entry>, idx: nat, e: Entry)
    requires idx < |dir|
    ensures OneEntry(dir, dir[idx := e])
  {
    assert dir[idx := e] == dir[idx := dir[idx := e][idx]];
  }

  /** A trace that takes the directory from old_ to some new_ that differs in one entry at most. */
  ghost predicate Atomic(g: Geometry, root: Chain, old_: seq<Entry>, trace: seq<Vol>) {
    exists new_ :: OneEntry(old_, new_) && OldThenNew(g, root, old_, new_, trace)
  }

  /** The commands that are one directory write: mem is the FAT that they have prepared. */
  lemma EntryAtomic(g: Geometry, v: Vol, mem: Fat, o: Owner, idx: nat, e: Entry)
    requires g.Ok() && SafeWith(g, v, o) && idx < |o.files|
    requires |mem| == |v.fat| && IsChain(mem, o.root)
    ensures Atomic(g, o.root, Dir(v.data, o.root), Commit(g, v, mem, o, idx, e).trace)
  {
    CommitAtomic(g, v, mem, o, idx, e);
    Replaced(Dir(v.data, o.root), idx, e);
  }

  lemma NothingAtomic(g: Geometry, root: Chain, dir: seq<Entry>)
    ensures Atomic(g, root, dir, [])
  {
    assert OneEntry(dir, dir) && OldThenNew(g, root, dir, dir, []);
  }

  lemma DeleteAtomic(g: Geometry, v: Vol, o: Owner, name: CString)
    requires g.Ok() && SafeWith(g, v, o)
    ensures Atomic(g, o.root, Dir(v.data, o.root), StepDelete(g, v, o, name).trace)
  {
    var dir := Dir(v.data, o.root);
    NothingAtomic(g, o.root, dir);
    if StepDelete(g, v, o, name).trace != [] {
      var idx := Find(dir, name);
      var mem := Relink(v.fat, o.files[idx], [], END_OF_CHAIN);
      RelinkKeepsOthers(v.fat, mem, o.files[idx], [], END_OF_CHAIN, o.root);
      EntryAtomic(g, v, mem, o, idx, Deleted(dir[idx]));
    }
  }

  lemma TruncateAtomic(g: Geometry, v: Vol, o: Owner, name: CString, length: u32)
    requires g.Ok() && SafeWith(g, v, o)
    ensures Atomic(g, o.root, Dir(v.data, o.root), StepTruncate(g, v, o, name, length).trace)
  {
    var dir := Dir(v.data, o.root);
    NothingAtomic(g, o.root, dir);
    if StepTruncate(g, v, o, name, length).trace != [] {
      var idx := Find(dir, name);
      assert FileOk(v.fat, dir[idx], o.files[idx]);
      var mem := Truncated(v.fat, o.files[idx], length, g.ClusterSize());
      TruncatedKeeps(v.fat, o.files[idx], length, g.ClusterSize(), o.root);
      EntryAtomic(g, v, mem, o, idx, WithSize(dir[idx], length));
    }
  }

  lemma CreateAtomic(g: Geometry, v: Vol, o: Owner, name: CString, isDir: bool)
    requires g.Ok() && SafeWith(g, v, o)
    ensures Atomic(g, o.root, Dir(v.data, o.root), StepCreate(g, v, o, name, isDir).trace)
  {
    var dir := Dir(v.data, o.root);
    NothingAtomic(g, o.root, dir);
    if StepCreate(g, v, o, name, isDir).trace != [] {
      EntryAtomic(g, v, v.fat, o, FreeSlot(dir), Fresh(dir[FreeSlot(dir)], name, isDir));
    }
  }

  lemma RenameAtomic(g: Geometry, v: Vol, o: Owner, oldName: CString, newName: CString)
    requires g.Ok() && SafeWith(g, v, o)
    ensures Atomic(g, o.root, Dir(v.data, o.root), StepRename(g, v, o, oldName, newName).trace)
  {
    var dir := Dir(v.data, o.root);
    NothingAtomic(g, o.root, dir);
    if StepRename(g, v, o, oldName, newName).trace != [] {
      EntryAtomic(g, v, v.fat, o, Find(dir, oldName), WithName(dir[Find(dir, oldName)], newName));
    }
  }

  lemma WriteCommandAtomic(g: Geometry, v: Vol, o: Owner, name: CString, mem: seq<byte>, n: u32)
    requires g.Ok() && SafeWith(g, v, o) && CommandOk(g, Write(name, mem, n))
    ensures Atomic(g, o.root, Dir(v.data, o.root), StepWrite(g, v, o, name, mem, n).trace)
  {
    var dir := Dir(v.data, o.root);
    NothingAtomic(g, o.root, dir);
    if StepWrite(g, v, o, name, mem, n).trace != [] {
      var idx := Find(dir, name);
      if n == 0 {
        EntryAtomic(g, v, v.fat, o, idx, WithSize(dir[idx], 0));
      } else {
        WriteAtomic(g, v, o, idx, mem, n);
        Replaced(dir, idx, WrittenEntry(v, o, idx, n));
        assert OneEntry(dir, AfterWrite(g, v, o, idx, mem, n));
      }
    }
  }

  lemma CommandAtomic(g: Geometry, v: Vol, cmd: Command)
    requires Mounted(g, v) && CommandOk(g, cmd)
    ensures Atomic(g, OwnerOf(g, v).root, Listing(g, v), Step(g, v, cmd).trace)
  {
    CommandAtAtomic(g, v, OwnerOf(g, v), cmd);
  }

  lemma CommandAtAtomic(g: Geometry, v: Vol, o: Owner, cmd: Command)
    requires g.Ok() && SafeWith(g, v, o) && CommandOk(g, cmd)
    ensures Atomic(g, o.root, Dir(v.data, o.root), StepAt(g, v, o, cmd).trace)
  {
    match cmd
    case Create(name, isDir) => CreateAtomic(g, v, o, name, isDir);
    case Delete(name) => DeleteAtomic(g, v, o, name);
    case Rename(oldName, newName) => RenameAtomic(g, v, o, oldName, newName);
    case Write(name, mem, n) => WriteCommandAtomic(g, v, o, name, mem, n);
    case Truncate(name, length) => TruncateAtomic(g, v, o, name, length);
  }

  lemma ListingsOf(g: Geometry, root: Chain, old_: seq<Entry>, new_: seq<Entry>, trace: seq<Vol>)
    requires AllMounted(g, trace) && OldThenNew(g, root, old_, new_, trace)
    ensures forall i :: 0 <= i < |trace| ==>
              Mounted(g, trace[i]) && (Listing(g, trace[i]) == old_ || Listing(g, trace[i]) == new_)
  {
    forall i | 0 <= i < |trace|
      ensures Mounted(g, trace[i]) && (Listing(g, trace[i]) == old_ || Listing(g, trace[i]) == new_)
    {
      if HoldsDir(g, trace[i], root, new_) {
        ReadBack(g, trace[i], root, new_);
      } else {
        ReadBack(g, trace[i], root, old_);
      }
    }
  }

  /** What each state of an atomic trace lists. */
  ghost predicate ListsOldOrNew(g: Geometry, v: Vol, trace: seq<Vol>)
    requires Safe(g, v)
  {
    && AllMounted(g, trace) && Mounted(g, After(v, trace))
    && OneEntry(Listing(g, v), Listing(g, After(v, trace)))
    && forall i :: 0 <= i < |trace| ==>
         Listing(g, trace[i]) == Listing(g, v) || Listing(g, trace[i]) == Listing(g, After(v, trace))
  }

  lemma AtomicLists(g: Geometry, v: Vol, root: Chain, trace: seq<Vol>)
    requires Mounted(g, v) && AllMounted(g, trace) && Mounted(g, After(v, trace))
    requires Atomic(g, root, Listing(g, v), trace)
    ensures ListsOldOrNew(g, v, trace)
  {
    var dir := Listing(g, v);
    var new_ :| OneEntry(dir, new_) && OldThenNew(g, root, dir, new_, trace);
    if trace != [] {
      ReadBack(g, trace[|trace| - 1], root, new_);
      ListingsOf(g, root, dir, new_, trace);
    }
  }

  /**
   * Every command changes the directory in one step: whatever prefix of its disk writes a crash leaves, the
   * remounted card lists the directory as before or as after the command, and these differ in one entry.
   */
  lemma StepAtomic(g: Geometry, v: Vol, cmd: Command)
    requires Mounted(g, v) && Admissible(g, cmd)
    ensures ListsOldOrNew(g, v, Step(g, v, cmd).trace)
  {
    StepSafe(g, v, cmd);
    CommandAtomic(g, v, cmd);
    AtomicLists(g, v, OwnerOf(g, v).root, Step(g, v, cmd).trace);
  }
}
