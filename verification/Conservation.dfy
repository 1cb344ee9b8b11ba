/**
 * What completed operations conserve: every used cluster has exactly one owner, sizes
 * fit their chains, and free clusters are neither lost nor made.
 */
module Conservation {
  import opened Bytes
  import opened Layout
  import opened Chains
  import opened Dirents
  import opened Volume
  import opened Operations
  import opened CrashSafety
  import opened Runs

  // ---------------------------------------------------------------- free clusters

  ghost function FreeSet(fat: Fat): set<nat>
  {
    set c: nat | c < |fat| && TypeOf(fat[c]) == Free
  }

  ghost function Elements(ch: Chain): set<nat>
  {
    set x | x in ch
  }

  lemma {:induction false} ElementsSize(ch: Chain)
    requires NoDup(ch)
    ensures |Elements(ch)| == |ch|
  {
    if ch != [] {
      var init, last := ch[..|ch| - 1], ch[|ch| - 1];
      ElementsSize(init);
      assert Elements(ch) == Elements(init) + {last};
    }
  }

  /** Relinking a chain into its own and free clusters conserves clusters. */
  lemma FreeAfterRelink(fat: Fat, fat': Fat, ch: Chain, new_: Chain, mark: u32)
    requires IsChain(fat, ch) && |fat| <= 0x0FFF_FFF0
    requires InRange(new_, |fat|) && NoDup(new_) && IsRelink(fat, fat', ch, new_, mark)
    requires TypeOf(mark) == Last
    requires forall x :: x in new_ ==> x in ch || TypeOf(fat[x]) == Free
    ensures |FreeSet(fat')| + |new_| == |FreeSet(fat)| + |ch|
  {
    NewLinksInUse(fat, fat', ch, new_, mark);
    FreeSetAfter(fat, fat', ch, new_, mark);
    OwnOrFree(fat, ch, new_);
    ElementsSize(ch);
    ElementsSize(new_);
    ExchangeSizes(FreeSet(fat), Elements(ch), Elements(new_));
  }

  lemma NewLinksInUse(fat: Fat, fat': Fat, ch: Chain, new_: Chain, mark: u32)
    requires InRange(new_, |fat|) && NoDup(new_) && IsRelink(fat, fat', ch, new_, mark)
    requires TypeOf(mark) == Last && |fat| <= 0x0FFF_FFF0
    ensures forall x :: x in new_ ==> TypeOf(fat'[x]) != Free
  {
    if new_ != [] {
      RelinkMakesChain(fat, fat', ch, new_, mark);
      ChainInUse(fat', new_);
    }
  }

  lemma OwnOrFree(fat: Fat, ch: Chain, new_: Chain)
    requires IsChain(fat, ch) && |fat| <= 0x0FFF_FFF0 && InRange(new_, |fat|)
    requires forall x :: x in new_ ==> x in ch || TypeOf(fat[x]) == Free
    ensures FreeSet(fat) !! Elements(ch) && Elements(new_) <= FreeSet(fat) + Elements(ch)
  {
    ChainInUse(fat, ch);
  }

  lemma ExchangeSizes(free: set<nat>, given: set<nat>, taken: set<nat>)
    requires free !! given && taken <= free + given
    ensures |free + given - taken| + |taken| == |free| + |given|
  {
    assert (free + given - taken) + taken == free + given;
  }

  lemma FreeSetAfter(fat: Fat, fat': Fat, ch: Chain, new_: Chain, mark: u32)
    requires InRange(new_, |fat|) && IsRelink(fat, fat', ch, new_, mark) && InRange(ch, |fat|)
    requires forall x :: x in new_ ==> TypeOf(fat'[x]) != Free
    ensures FreeSet(fat') == FreeSet(fat) + Elements(ch) - Elements(new_)
  {
    forall c: nat
      ensures c in FreeSet(fat') <==> c in FreeSet(fat) + Elements(ch) - Elements(new_)
    {
    }
  }

  /**
   * write_cluster_chain conserves free clusters: their number changes by the old length
   * of the chain minus the number of clusters that hold n bytes, n == 0 included.
   */
  lemma FreeAfterWriteChain(v: Vol, mem: Fat, ch: Chain, buf: seq<byte>, n: nat, cs: nat)
    requires cs > 0 && |mem| == |v.fat| == |v.data| <= 0x0FFF_FFF0
    requires IsChain(mem, ch) && Span(ClustersFor(n, cs), cs) <= |buf|
    ensures var w := WriteChain(v, mem, ch, buf, n, cs);
            w.done ==> |FreeSet(w.fat)| + ClustersFor(n, cs) == |FreeSet(mem)| + |ch|
  {
    WriteChainShape(v, mem, ch, buf, n, cs);
    var w := WriteChain(v, mem, ch, buf, n, cs);
    if w.done {
      FreeAfterPool(mem, w.fat, ch, w.chain);
    }
  }

  lemma FreeAfterPool(mem: Fat, fat': Fat, ch: Chain, new_: Chain)
    requires IsChain(mem, ch) && |mem| <= 0x0FFF_FFF0
    requires InRange(new_, |mem|) && NoDup(new_) && IsRelink(mem, fat', ch, new_, END_OF_CHAIN)
    requires forall x :: x in new_ ==> x in Pool(mem, ch)
    ensures |FreeSet(fat')| + |new_| == |FreeSet(mem)| + |ch|
  {
    PoolOwnOrFree(mem, ch);
    FreeAfterRelink(mem, fat', ch, new_, END_OF_CHAIN);
  }

  lemma PoolOwnOrFree(fat: Fat, ch: Chain)
    requires IsChain(fat, ch) && |fat| <= 0x0FFF_FFF0
    ensures forall x :: x in Pool(fat, ch) ==> x in ch || (x < |fat| && TypeOf(fat[x]) == Free)
  {
    PoolProps(fat, ch);
    var pool := Pool(fat, ch);
    forall x | x in pool
      ensures x in ch || (x < |fat| && TypeOf(fat[x]) == Free)
    {
      var i :| 0 <= i < |pool| && pool[i] == x;
    }
  }

  /** Writing back the directory frees and takes nothing. */
  lemma FreeAfterCommit(mem: Fat, fat': Fat, root: Chain)
    requires IsChain(mem, root) && |mem| <= 0x0FFF_FFF0
    requires IsRelink(mem, fat', root, root, END_OF_CHAIN)
    ensures FreeSet(fat') == FreeSet(mem)
  {
    RelinkMakesChain(mem, fat', root, root, END_OF_CHAIN);
    ChainInUse(mem, root);
    ChainInUse(fat', root);
    forall c: nat
      ensures c in FreeSet(fat') <==> c in FreeSet(mem)
    {
    }
  }

  /** The volume after a directory write. */
  lemma AfterCommit(g: Geometry, v: Vol, mem: Fat, o: Owner, idx: nat, e: Entry)
    requires g.Ok() && SafeWith(g, v, o) && idx < |o.files|
    requires |mem| == |v.fat| && IsChain(mem, o.root)
    ensures var trace := Commit(g, v, mem, o, idx, e).trace;
            var after := After(v, trace);
            && trace != []
            && IsRelink(mem, after.fat, o.root, o.root, END_OF_CHAIN)
            && |after.data| == |v.data|
            && Dir(after.data, o.root) == Dir(v.data, o.root)[idx := e]
            && (forall c :: 0 <= c < |v.data| && c !in o.root ==> after.data[c] == v.data[c])
  {
    var data := CommitShape(g, v, mem, o, idx, e);
  }

  /** fat32_delete frees exactly the file's chain. */
  lemma FreeAfterDelete(g: Geometry, v: Vol, o: Owner, name: CString)
    requires g.Ok() && SafeWith(g, v, o)
    ensures var out := StepDelete(g, v, o, name);
            out.trace != [] ==>
              var idx := Find(Dir(v.data, o.root), name);
              |FreeSet(After(v, out.trace).fat)| == |FreeSet(v.fat)| + |o.files[idx]|
  {
    var out := StepDelete(g, v, o, name);
    if out.trace != [] {
      var dir := Dir(v.data, o.root);
      var idx := Find(dir, name);
      var ch := o.files[idx];
      var mem := Relink(v.fat, ch, [], END_OF_CHAIN);
      RelinkKeepsOthers(v.fat, mem, ch, [], END_OF_CHAIN, o.root);
      AfterCommit(g, v, mem, o, idx, Deleted(dir[idx]));
      FreeAfterCommit(mem, After(v, out.trace).fat, o.root);
      assert FileOk(v.fat, dir[idx], ch);
      FreeAfterDetach(v.fat, ch, mem);
    }
  }

  lemma NothingRelinked(fat: Fat, fat': Fat)
    requires IsRelink(fat, fat', [], [], END_OF_CHAIN)
    ensures fat' == fat
  {
    RelinkUnique(fat, fat', fat, [], [], END_OF_CHAIN);
  }

  lemma FreeAfterDetach(fat: Fat, ch: Chain, fat': Fat)
    requires (ch == [] || IsChain(fat, ch)) && |fat| <= 0x0FFF_FFF0 && IsRelink(fat, fat', ch, [], END_OF_CHAIN)
    ensures |FreeSet(fat')| == |FreeSet(fat)| + |ch|
  {
    if ch == [] {
      NothingRelinked(fat, fat');
    } else {
      FreeAfterRelink(fat, fat', ch, [], END_OF_CHAIN);
    }
  }

  /** fat32_write takes exactly the clusters it needs beyond those the file had. */
  lemma FreeAfterWrite(g: Geometry, v: Vol, o: Owner, name: CString, mem: seq<byte>, n: u32)
    requires g.Ok() && SafeWith(g, v, o) && CommandOk(g, Write(name, mem, n)) && n > 0
    ensures var out := StepWrite(g, v, o, name, mem, n);
            out.trace != [] && !out.halted ==>
              var idx := Find(Dir(v.data, o.root), name);
              |FreeSet(After(v, out.trace).fat)| + ClustersFor(n, g.ClusterSize()) == |FreeSet(v.fat)| + |o.files[idx]|
  {
    var out := StepWrite(g, v, o, name, mem, n);
    if out.trace != [] && !out.halted {
      var idx := Find(Dir(v.data, o.root), name);
      var w := WriteData(g, v, o, idx, mem, n);
      StartProps(g, v, o, idx);
      FreeAfterWriteChain(v, StartFat(v, o, idx), StartChain(v, o, idx), mem, n, g.ClusterSize());
      FreeAtStart(g, v, o, idx);
      WriteDataSafe(g, v, o, idx, mem, n);
      FinishFree(g, v, o, idx, w, WrittenEntry(v, o, idx, n));
    }
  }

  lemma FinishFree(g: Geometry, v: Vol, o: Owner, idx: nat, w: Written, e: Entry)
    requires g.Ok() && idx < |o.files| && w.trace != [] && After(v, w.trace).fat == w.fat
    requires SafeWith(g, After(v, w.trace), OwnerAfterData(o, idx, w.chain))
    ensures var v1, o1 := After(v, w.trace), OwnerAfterData(o, idx, w.chain);
            var trace := Commit(g, v1, w.fat, o1, idx, e).trace;
            && After(v, w.trace + trace) == After(v1, trace)
            && FreeSet(After(v, w.trace + trace).fat) == FreeSet(w.fat)
  {
    var v1, o1 := After(v, w.trace), OwnerAfterData(o, idx, w.chain);
    AfterCommit(g, v1, w.fat, o1, idx, e);
    var trace := Commit(g, v1, w.fat, o1, idx, e).trace;
    FreeAfterCommit(w.fat, After(v1, trace).fat, o1.root);
  }

  lemma FreeAtStart(g: Geometry, v: Vol, o: Owner, idx: nat)
    requires g.Ok() && SafeWith(g, v, o) && idx < |o.files| && StartChain(v, o, idx) != []
    ensures |FreeSet(StartFat(v, o, idx))| + |StartChain(v, o, idx)| == |FreeSet(v.fat)| + |o.files[idx]|
  {
    FreeFromIsFreeList(v.fat, ScanStart(3));
    if o.files[idx] == [] {
      var s := StartChain(v, o, idx)[0];
      assert FreeSet(StartFat(v, o, idx)) == FreeSet(v.fat) - {s};
    }
  }

  // ---------------------------------------------------------------- one owner each

  /** Every cluster in use after an operation is the new chain's or was in use by another. */
  ghost predicate Accounted(fat: Fat, old_: Chain, fat': Fat, new_: Chain)
  {
    && |fat'| == |fat|
    && forall c :: 2 <= c < |fat| && InUse(fat'[c]) ==> c in new_ || (InUse(fat[c]) && c !in old_)
  }

  lemma RelinkAccounted(fat: Fat, start: Fat, fat': Fat, old_: Chain, ch: Chain, new_: Chain, mark: u32)
    requires |start| == |fat| && InRange(new_, |fat|) && IsRelink(start, fat', ch, new_, mark)
    requires forall c :: 0 <= c < |fat| && c !in ch ==> start[c] == fat[c]
    requires forall c :: c in old_ ==> c in ch
    ensures Accounted(fat, old_, fat', new_)
  {
  }

  lemma NoLeakKept(fat: Fat, o: Owner, idx: nat, mem: Fat, new_: Chain, fat': Fat)
    requires NoLeak(fat, o) && idx < |o.files| && Accounted(fat, o.files[idx], mem, new_)
    requires InRange(o.root, |mem|) && IsRelink(mem, fat', o.root, o.root, END_OF_CHAIN)
    ensures NoLeak(fat', o.(files := o.files[idx := new_]))
  {
    var o' := o.(files := o.files[idx := new_]);
    forall c | 2 <= c < |fat'| && InUse(fat'[c]) && c !in o'.root
      ensures exists i :: 0 <= i < |o'.files| && c in o'.files[i]
    {
      if c in new_ {
        assert c in o'.files[idx];
      } else {
        var i :| 0 <= i < |o.files| && c in o.files[i];
        assert c in o'.files[i];
      }
    }
  }

  lemma SizesKept(dir: seq<Entry>, o: Owner, cs: nat, idx: nat, e: Entry, new_: Chain)
    requires |o.files| == |dir| && idx < |dir| && SizesFit(dir, o, cs)
    requires Live(e) ==> Size(e) <= Span(|new_|, cs)
    ensures SizesFit(dir[idx := e], o.(files := o.files[idx := new_]), cs)
  {
  }

  lemma CleanAfterCommit(g: Geometry, v: Vol, o: Owner, idx: nat, v1: Vol, mem: Fat, o1: Owner, e: Entry, new_: Chain)
    requires Clean(g, v, o) && idx < |o.files|
    requires SafeWith(g, v1, o1) && o1.root == o.root && |o1.files| == |o.files|
    requires |mem| == |v1.fat| == |v.fat| && IsChain(mem, o.root) && MediaEntry(mem)
    requires Dir(v1.data, o.root) == Dir(v.data, o.root)
    requires Accounted(v.fat, o.files[idx], mem, new_)
    requires Live(e) ==> Size(e) <= Span(|new_|, g.ClusterSize())
    requires SafeWith(g, After(v1, Commit(g, v1, mem, o1, idx, e).trace), o.(files := o.files[idx := new_]))
    ensures Clean(g, After(v1, Commit(g, v1, mem, o1, idx, e).trace), o.(files := o.files[idx := new_]))
  {
    var after := After(v1, Commit(g, v1, mem, o1, idx, e).trace);
    AfterCommit(g, v1, mem, o1, idx, e);
    NoLeakKept(v.fat, o, idx, mem, new_, after.fat);
    SizesKept(Dir(v.data, o.root), o, g.ClusterSize(), idx, e, new_);
    assert 0 !in o.root;
  }

  lemma SameAccounted(fat: Fat, o: Owner, idx: nat)
    requires idx < |o.files|
    ensures Accounted(fat, o.files[idx], fat, o.files[idx])
  {
  }

  lemma CleanEntryChange(g: Geometry, v: Vol, o: Owner, idx: nat, e: Entry)
    requires Clean(g, v, o) && idx < |o.files|
    requires FileOk(v.fat, e, o.files[idx])
    requires Live(e) ==> Size(e) <= Span(|o.files[idx]|, g.ClusterSize())
    ensures Clean(g, After(v, Commit(g, v, v.fat, o, idx, e).trace), o)
  {
    EntryChangeSafe(g, v, o, idx, e);
    assert o.files[idx := o.files[idx]] == o.files;
    SameAccounted(v.fat, o, idx);
    CleanAfterCommit(g, v, o, idx, v, v.fat, o, e, o.files[idx]);
  }

  lemma CleanDelete(g: Geometry, v: Vol, o: Owner, name: CString)
    requires Clean(g, v, o)
    ensures var out := StepDelete(g, v, o, name);
            out.trace != [] ==>
              var idx := Find(Dir(v.data, o.root), name);
              Clean(g, After(v, out.trace), o.(files := o.files[idx := []]))
  {
    DeleteSafe(g, v, o, name);
    if StepDelete(g, v, o, name).trace != [] {
      var dir := Dir(v.data, o.root);
      var idx := Find(dir, name);
      var mem := Relink(v.fat, o.files[idx], [], END_OF_CHAIN);
      RelinkKeepsOthers(v.fat, mem, o.files[idx], [], END_OF_CHAIN, o.root);
      RelinkAccounted(v.fat, v.fat, mem, o.files[idx], o.files[idx], [], END_OF_CHAIN);
      assert FileOk(v.fat, dir[idx], o.files[idx]);
      assert 0 !in o.files[idx];
      CleanAfterCommit(g, v, o, idx, v, mem, o, Deleted(dir[idx]), []);
    }
  }

  lemma CleanCreate(g: Geometry, v: Vol, o: Owner, name: CString, isDir: bool)
    requires Clean(g, v, o)
    ensures Clean(g, After(v, StepCreate(g, v, o, name, isDir).trace), o)
  {
    if StepCreate(g, v, o, name, isDir).trace != [] {
      var dir := Dir(v.data, o.root);
      var slot := FreeSlot(dir);
      assert FileOk(v.fat, dir[slot], o.files[slot]);
      FieldsOfFresh(dir[slot], name, isDir);
      CleanEntryChange(g, v, o, slot, Fresh(dir[slot], name, isDir));
    }
  }

  lemma CleanRename(g: Geometry, v: Vol, o: Owner, oldName: CString, newName: CString)
    requires Clean(g, v, o)
    ensures Clean(g, After(v, StepRename(g, v, o, oldName, newName).trace), o)
  {
    if StepRename(g, v, o, oldName, newName).trace != [] {
      var dir := Dir(v.data, o.root);
      var idx := Find(dir, oldName);
      assert FileOk(v.fat, dir[idx], o.files[idx]);
      FieldsOfName(dir[idx], newName);
      CleanEntryChange(g, v, o, idx, WithName(dir[idx], newName));
    }
  }

  lemma CleanWrite(g: Geometry, v: Vol, o: Owner, name: CString, mem: seq<byte>, n: u32)
    requires Clean(g, v, o) && CommandOk(g, Write(name, mem, n))
    ensures var out := StepWrite(g, v, o, name, mem, n);
            out.trace != [] && !out.halted ==>
              var idx := Find(Dir(v.data, o.root), name);
              Clean(g, After(v, out.trace),
                    if n == 0 then o else o.(files := o.files[idx := WriteData(g, v, o, idx, mem, n).chain]))
  {
    var out := StepWrite(g, v, o, name, mem, n);
    if out.trace != [] && !out.halted {
      var dir := Dir(v.data, o.root);
      var idx := Find(dir, name);
      assert FileOk(v.fat, dir[idx], o.files[idx]);
      if n == 0 {
        FieldsOfSize(dir[idx], 0);
        CleanEntryChange(g, v, o, idx, WithSize(dir[idx], 0));
      } else {
        WriteSafe(g, v, o, name, mem, n);
        WriteDataSafe(g, v, o, idx, mem, n);
        WrittenChain(g, v, o, idx, mem, n);
        var w := WriteData(g, v, o, idx, mem, n);
        WrittenFits(v, o, idx, n, |w.chain|, g.ClusterSize());
        WrittenAccounted(g, v, o, idx, w.fat, w.chain);
        CleanFinish(g, v, o, idx, w, WrittenEntry(v, o, idx, n));
      }
    }
  }

  /** A write that runs out of clusters has only written to free clusters and to the file's own. */
  lemma CleanPanic(g: Geometry, v: Vol, o: Owner, idx: nat, mem: seq<byte>, n: nat)
    requires Clean(g, v, o) && idx < |o.files| && StartChain(v, o, idx) != []
    requires Span(ClustersFor(n, g.ClusterSize()), g.ClusterSize()) <= |mem|
    requires !WriteData(g, v, o, idx, mem, n).done
    ensures Clean(g, After(v, WriteData(g, v, o, idx, mem, n).trace), o)
  {
    StartProps(g, v, o, idx);
    PoolSpared(g, v, o, idx);
    var fat, ch, w := StartFat(v, o, idx), StartChain(v, o, idx), WriteData(g, v, o, idx, mem, n);
    var vis := Visited(fat, ch, n, g.ClusterSize());
    WriteChainShape(v, fat, ch, mem, n, g.ClusterSize());
    assert w.trace == DataWrites(v, vis, mem, g.ClusterSize(), |vis|);
    DataWriteSafe(g, v, o, vis, mem, |vis|);
  }

  lemma CleanFinish(g: Geometry, v: Vol, o: Owner, idx: nat, w: Written, e: Entry)
    requires Clean(g, v, o) && idx < |o.files|
    requires w.trace != [] && After(v, w.trace).fat == w.fat && |w.fat| == |v.fat|
    requires SafeWith(g, After(v, w.trace), OwnerAfterData(o, idx, w.chain))
    requires Dir(After(v, w.trace).data, o.root) == Dir(v.data, o.root)
    requires Accounted(v.fat, o.files[idx], w.fat, w.chain) && MediaEntry(w.fat)
    requires Live(e) ==> Size(e) <= Span(|w.chain|, g.ClusterSize())
    requires var v1, o1 := After(v, w.trace), OwnerAfterData(o, idx, w.chain);
             SafeWith(g, After(v, w.trace + Commit(g, v1, w.fat, o1, idx, e).trace),
                      o.(files := o.files[idx := w.chain]))
    ensures var v1, o1 := After(v, w.trace), OwnerAfterData(o, idx, w.chain);
            Clean(g, After(v, w.trace + Commit(g, v1, w.fat, o1, idx, e).trace),
                  o.(files := o.files[idx := w.chain]))
  {
    var v1, o1 := After(v, w.trace), OwnerAfterData(o, idx, w.chain);
    FinishFree(g, v, o, idx, w, e);
    CleanAfterCommit(g, v, o, idx, v1, w.fat, o1, e, w.chain);
  }

  /** The new size fits the new chain. */
  lemma WrittenFits(v: Vol, o: Owner, idx: nat, n: u32, k: nat, cs: nat)
    requires InRange(o.root, |v.data|) && idx < |Dir(v.data, o.root)| == |o.files|
    requires |v.fat| <= 0x0FFF_FFF0 && cs > 0 && k == ClustersFor(n, cs)
    ensures Size(WrittenEntry(v, o, idx, n)) == n <= Span(k, cs)
  {
    var e := Dir(v.data, o.root)[idx];
    FreeFromIsFreeList(v.fat, ScanStart(3));
    FieldsOfSize(e, n);
    if o.files[idx] == [] && StartChain(v, o, idx) != [] {
      FieldsOfStart(WithSize(e, n), StartChain(v, o, idx)[0]);
    }
    ClustersForSpan(n, cs);
  }

  lemma WrittenAccounted(g: Geometry, v: Vol, o: Owner, idx: nat, fat': Fat, new_: Chain)
    requires g.Ok() && SafeWith(g, v, o) && idx < |o.files| && StartChain(v, o, idx) != [] && MediaEntry(v.fat)
    requires |fat'| == |v.fat| && InRange(new_, |fat'|)
    requires IsRelink(StartFat(v, o, idx), fat', StartChain(v, o, idx), new_, END_OF_CHAIN)
    ensures Accounted(v.fat, o.files[idx], fat', new_) && MediaEntry(fat')
  {
    StartOutside(v, o, idx);
    StartProps(g, v, o, idx);
    assert 0 !in new_ && 0 !in StartChain(v, o, idx);
    RelinkAccounted(v.fat, StartFat(v, o, idx), fat', o.files[idx], StartChain(v, o, idx), new_, END_OF_CHAIN);
  }
}
