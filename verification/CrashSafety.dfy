/**
 * Crash safety: after any prefix of the device writes of any run, every live entry on
 * the card has start cluster 0 or heads a well-formed chain of the FAT on the card, and
 * all these chains and the root directory's are pairwise disjoint.
 */
module CrashSafety {
  import opened Bytes
  import opened Layout
  import opened Chains
  import opened Dirents
  import opened Volume
  import opened Operations

  /** Every state of a trace is safe and keeps the media entry of fat. */
  ghost predicate AllSafe(g: Geometry, trace: seq<Vol>, fat: Fat)
    requires |fat| > 0
  {
    forall i :: 0 <= i < |trace| ==> Safe(g, trace[i]) && |trace[i].fat| == |fat| && trace[i].fat[0] == fat[0]
  }

  lemma AllSafeConcat(g: Geometry, a: seq<Vol>, b: seq<Vol>, fat: Fat)
    requires |fat| > 0 && AllSafe(g, a, fat) && AllSafe(g, b, fat)
    ensures AllSafe(g, a + b, fat)
  {
  }

  // ---------------------------------------------------------------- directory writes

  lemma CommitFat(mem: Fat, fat': Fat, root: Chain, other: Chain)
    requires IsChain(mem, root) && IsRelink(mem, fat', root, root, END_OF_CHAIN)
    requires Disjoint(root, other)
    ensures SameFor(mem, fat', other) && SameFor(mem, fat', root)
  {
    forall x | x in root
      ensures fat'[x] == mem[x] || (TypeOf(mem[x]) == Last && TypeOf(fat'[x]) == Last)
    {
      var i :| 0 <= i < |root| && root[i] == x;
      if i < |root| - 1 {
        assert fat'[root[i]] == root[i + 1] == mem[root[i]];
      }
    }
  }

  /**
   * A directory write is safe when the new directory is right both for the FAT on the
   * card and for the FAT about to be flushed.
   */
  lemma CommitSafe(g: Geometry, v: Vol, mem: Fat, o: Owner, idx: nat, e: Entry, mid: Owner, end: Owner)
    requires g.Ok() && SafeWith(g, v, o) && idx < |o.files|
    requires |mem| == |v.fat| && IsChain(mem, o.root)
    requires mid.root == o.root == end.root
    requires Owned(v.fat, Dir(v.data, o.root)[idx := e], mid)
    requires Owned(mem, Dir(v.data, o.root)[idx := e], end)
    ensures var trace := Commit(g, v, mem, o, idx, e).trace;
            && trace != []
            && (forall i :: 0 <= i < |trace| ==>
                  && Safe(g, trace[i]) && |trace[i].fat| == |mem|
                  && (trace[i].fat[0] == v.fat[0] || trace[i].fat[0] == mem[0]))
            && SafeWith(g, After(v, trace), end)
            && After(v, trace).fat == Commit(g, v, mem, o, idx, e).fat
            && Dir(After(v, trace).data, o.root) == Dir(v.data, o.root)[idx := e]
  {
    var w := Commit(g, v, mem, o, idx, e);
    var data := CommitShape(g, v, mem, o, idx, e);
    var dir := Dir(data, o.root);
    forall i | 0 <= i < |dir|
      ensures SameFor(mem, w.fat, end.files[i])
    {
      CommitFat(mem, w.fat, o.root, end.files[i]);
    }
    CommitFat(mem, w.fat, o.root, []);
    OwnedFrame(mem, dir, end, w.fat);
    assert SafeWith(g, Vol(v.fat, data), mid);
    assert SafeWith(g, Vol(w.fat, data), end);
  }

  lemma DeleteSafe(g: Geometry, v: Vol, o: Owner, name: CString)
    requires g.Ok() && SafeWith(g, v, o)
    ensures var out := StepDelete(g, v, o, name);
            && AllSafe(g, out.trace, v.fat)
            && (out.trace != [] ==>
                  var idx := Find(Dir(v.data, o.root), name);
                  SafeWith(g, After(v, out.trace), o.(files := o.files[idx := []])))
  {
    var out := StepDelete(g, v, o, name);
    if out.trace != [] {
      var dir := Dir(v.data, o.root);
      var idx := Find(dir, name);
      var e := Deleted(dir[idx]);
      var mem := Relink(v.fat, o.files[idx], [], END_OF_CHAIN);
      RelinkedForOthers(v.fat, mem, o.files[idx], [], END_OF_CHAIN, o.root);
      forall i | 0 <= i < |dir| && i != idx
        ensures SameFor(v.fat, mem, o.files[i])
      {
        RelinkedForOthers(v.fat, mem, o.files[idx], [], END_OF_CHAIN, o.files[i]);
      }
      var o' := o.(files := o.files[idx := []]);
      OwnedUpdate(v.fat, dir, o, v.fat, idx, e, []);
      OwnedUpdate(v.fat, dir, o, mem, idx, e, []);
      RelinkKeepsOthers(v.fat, mem, o.files[idx], [], END_OF_CHAIN, o.root);
      CommitSafe(g, v, mem, o, idx, e, o', o');
      assert FileOk(v.fat, dir[idx], o.files[idx]);
    }
  }

  /** Create and rename: the entry changes, its chain and the FAT do not. */
  lemma EntryChangeSafe(g: Geometry, v: Vol, o: Owner, idx: nat, e: Entry)
    requires g.Ok() && SafeWith(g, v, o) && idx < |o.files|
    requires FileOk(v.fat, e, o.files[idx])
    ensures var trace := Commit(g, v, v.fat, o, idx, e).trace;
            && AllSafe(g, trace, v.fat)
            && SafeWith(g, After(v, trace), o)
            && Dir(After(v, trace).data, o.root) == Dir(v.data, o.root)[idx := e]
  {
    var dir := Dir(v.data, o.root);
    OwnedUpdate(v.fat, dir, o, v.fat, idx, e, o.files[idx]);
    assert o.files[idx := o.files[idx]] == o.files;
    CommitSafe(g, v, v.fat, o, idx, e, o, o);
  }

  lemma CreateSafe(g: Geometry, v: Vol, o: Owner, name: CString, isDir: bool)
    requires g.Ok() && SafeWith(g, v, o)
    ensures var out := StepCreate(g, v, o, name, isDir);
            && AllSafe(g, out.trace, v.fat)
            && SafeWith(g, After(v, out.trace), o)
  {
    var out := StepCreate(g, v, o, name, isDir);
    if out.trace != [] {
      var dir := Dir(v.data, o.root);
      var slot := FreeSlot(dir);
      assert FileOk(v.fat, dir[slot], o.files[slot]);
      FieldsOfFresh(dir[slot], name, isDir);
      EntryChangeSafe(g, v, o, slot, Fresh(dir[slot], name, isDir));
    }
  }

  lemma RenameSafe(g: Geometry, v: Vol, o: Owner, oldName: CString, newName: CString)
    requires g.Ok() && SafeWith(g, v, o)
    ensures var out := StepRename(g, v, o, oldName, newName);
            && AllSafe(g, out.trace, v.fat)
            && SafeWith(g, After(v, out.trace), o)
  {
    var out := StepRename(g, v, o, oldName, newName);
    if out.trace != [] {
      var dir := Dir(v.data, o.root);
      var idx := Find(dir, oldName);
      assert FileOk(v.fat, dir[idx], o.files[idx]);
      FieldsOfName(dir[idx], newName);
      EntryChangeSafe(g, v, o, idx, WithName(dir[idx], newName));
    }
  }

  // ---------------------------------------------------------------- truncating

  /** The chain that a truncated file keeps. */
  function Kept(ch: Chain, length: nat, cs: nat): Chain
    requires cs > 0
  {
    if ClustersFor(length, cs) <= |ch| then ch[..ClustersFor(length, cs)] else ch
  }

  lemma TruncatedFrame(fat: Fat, dir: seq<Entry>, o: Owner, idx: nat, length: nat, cs: nat)
    requires Owned(fat, dir, o) && idx < |dir| && cs > 0 && 0 < |fat| <= 0x0FFF_FFF0
    ensures o.files[idx] != [] ==> IsChain(fat, o.files[idx])
    ensures var fat' := Truncated(fat, o.files[idx], length, cs);
            && SameFor(fat, fat', o.root)
            && IsChain(fat', o.root)
            && forall i :: 0 <= i < |dir| && i != idx ==> SameFor(fat, fat', o.files[i])
  {
    var ch := o.files[idx];
    assert FileOk(fat, dir[idx], ch);
    TruncatedKeeps(fat, ch, length, cs, o.root);
    forall i | 0 <= i < |dir| && i != idx
      ensures SameFor(fat, Truncated(fat, ch, length, cs), o.files[i])
    {
      assert FileOk(fat, dir[i], o.files[i]);
      if o.files[i] != [] {
        TruncatedKeeps(fat, ch, length, cs, o.files[i]);
      }
    }
  }

  lemma TruncatedChain(fat: Fat, ch: Chain, length: nat, cs: nat)
    requires IsChain(fat, ch) && cs > 0 && 0 < |fat| <= 0x0FFF_FFF0 && length > 0
    ensures IsChain(Truncated(fat, ch, length, cs), Kept(ch, length, cs))
    ensures Kept(ch, length, cs) <= ch && Kept(ch, length, cs) != []
  {
    var k := ClustersFor(length, cs);
    if k <= |ch| {
      RelinkMakesChain(fat, Truncated(fat, ch, length, cs), ch, ch[..k], LAST_CLUSTER);
    }
  }

  lemma TruncateStages(fat: Fat, dir: seq<Entry>, o: Owner, idx: nat, length: u32, cs: nat)
    requires Owned(fat, dir, o) && idx < |dir| && cs > 0 && 0 < |fat| <= 0x0FFF_FFF0
    requires length > 0 || o.files[idx] == []
    ensures o.files[idx] != [] ==> IsChain(fat, o.files[idx])
    ensures var e := WithSize(dir[idx], length);
            && Owned(fat, dir[idx := e], o)
            && Owned(Truncated(fat, o.files[idx], length, cs), dir[idx := e],
                     o.(files := o.files[idx := Kept(o.files[idx], length, cs)]))
  {
    var ch, e := o.files[idx], WithSize(dir[idx], length);
    assert FileOk(fat, dir[idx], ch);
    FieldsOfSize(dir[idx], length);
    TruncatedFrame(fat, dir, o, idx, length, cs);
    if ch != [] {
      TruncatedChain(fat, ch, length, cs);
    }
    OwnedUpdate(fat, dir, o, fat, idx, e, ch);
    assert o.files[idx := ch] == o.files;
    OwnedUpdate(fat, dir, o, Truncated(fat, ch, length, cs), idx, e, Kept(ch, length, cs));
  }

  lemma TruncateFoundSafe(g: Geometry, v: Vol, o: Owner, idx: nat, e: Entry, mem: Fat, length: u32)
    requires g.Ok() && SafeWith(g, v, o) && MediaEntry(v.fat) && idx < |o.files|
    requires e == Dir(v.data, o.root)[idx] && Live(e) && (length > 0 || o.files[idx] == [])
    requires Start(e) == 0 ==> TypeOf(v.fat[0]) == Last
    requires mem == Truncated(v.fat, o.files[idx], length, g.ClusterSize()) && IsChain(mem, o.root)
    ensures var trace := Commit(g, v, mem, o, idx, WithSize(e, length)).trace;
            && (forall i :: 0 <= i < |trace| ==> Safe(g, trace[i]) && (length > 0 ==> MediaEntry(trace[i].fat)))
            && SafeWith(g, After(v, trace), o.(files := o.files[idx := Kept(o.files[idx], length, g.ClusterSize())]))
  {
    var cs, dir := g.ClusterSize(), Dir(v.data, o.root);
    assert FileOk(v.fat, dir[idx], o.files[idx]);
    TruncateStages(v.fat, dir, o, idx, length, cs);
    TruncatedFrame(v.fat, dir, o, idx, length, cs);
    CommitSafe(g, v, mem, o, idx, WithSize(e, length), o,
               o.(files := o.files[idx := Kept(o.files[idx], length, cs)]));
    if length > 0 {
      TruncatedMedia(v.fat, o.files[idx], length, cs);
    }
  }

  lemma TruncateSafe(g: Geometry, v: Vol, o: Owner, name: CString, length: u32)
    requires g.Ok() && SafeWith(g, v, o) && MediaEntry(v.fat)
    requires var idx := Find(Dir(v.data, o.root), name);
             idx < |o.files| ==> length > 0 || o.files[idx] == []
    ensures var out := StepTruncate(g, v, o, name, length);
            && (forall i :: 0 <= i < |out.trace| ==>
                  Safe(g, out.trace[i]) && (length > 0 ==> MediaEntry(out.trace[i].fat)))
            && (out.trace != [] ==>
                  var idx := Find(Dir(v.data, o.root), name);
                  SafeWith(g, After(v, out.trace),
                           o.(files := o.files[idx := Kept(o.files[idx], length, g.ClusterSize())])))
  {
    var out := StepTruncate(g, v, o, name, length);
    if out.trace != [] {
      var dir := Dir(v.data, o.root);
      var idx := Find(dir, name);
      var mem := Truncated(v.fat, o.files[idx], length, g.ClusterSize());
      assert FileOk(v.fat, dir[idx], o.files[idx]);
      TruncatedKeeps(v.fat, o.files[idx], length, g.ClusterSize(), o.root);
      TruncateFoundSafe(g, v, o, idx, dir[idx], mem, length);
    }
  }

  lemma TruncatedMedia(fat: Fat, ch: Chain, length: nat, cs: nat)
    requires cs > 0 && 0 < |fat| <= 0x0FFF_FFF0 && length > 0 && MediaEntry(fat)
    requires if ch == [] then TypeOf(fat[0]) == Last else IsChain(fat, ch)
    ensures MediaEntry(Truncated(fat, ch, length, cs))
  {
  }

  // ---------------------------------------------------------------- writing

  /** The clusters a write may visit are the file's own or free. */
  lemma PoolSpared(g: Geometry, v: Vol, o: Owner, idx: nat)
    requires g.Ok() && SafeWith(g, v, o) && idx < |o.files|
    requires StartChain(v, o, idx) != []
    ensures IsChain(StartFat(v, o, idx), StartChain(v, o, idx))
    ensures Spared(v.fat, o, idx, Pool(StartFat(v, o, idx), StartChain(v, o, idx)))
    ensures forall x :: x in Pool(StartFat(v, o, idx), StartChain(v, o, idx)) ==>
              x in o.files[idx] || (x < |v.fat| && TypeOf(v.fat[x]) == Free)
  {
    StartProps(g, v, o, idx);
    var fat, ch := StartFat(v, o, idx), StartChain(v, o, idx);
    PoolProps(fat, ch);
    FreeFromIsFreeList(v.fat, ScanStart(3));
    var pool := Pool(fat, ch);
    forall x | x in pool
      ensures x in o.files[idx] || (x < |v.fat| && TypeOf(v.fat[x]) == Free)
    {
      var i :| 0 <= i < |pool| && pool[i] == x;
      if |ch| <= i {
        assert TypeOf(fat[pool[i]]) == Free;
      }
    }
    FreeIsSpared(v.fat, Dir(v.data, o.root), o, idx, pool);
  }

  /** Data written to spared clusters leaves the directory and all owners as they are. */
  lemma DataWriteSafe(g: Geometry, v: Vol, o: Owner, ch: Chain, buf: seq<byte>, i: nat)
    requires g.Ok() && SafeWith(g, v, o)
    requires InRange(ch, |v.data|) && NoDup(ch) && Disjoint(o.root, ch)
    requires i <= |ch| && Span(i, g.ClusterSize()) <= |buf|
    ensures var data := Overlay(v.data, ch, buf, g.ClusterSize(), i);
            && SafeWith(g, Vol(v.fat, data), o) && Safe(g, Vol(v.fat, data))
            && Flat(data, o.root) == Flat(v.data, o.root)
  {
    var cs := g.ClusterSize();
    OverlayAt(v.data, ch, buf, cs, i);
    FlatFrame(v.data, Overlay(v.data, ch, buf, cs, i), o.root);
    assert SafeWith(g, Vol(v.fat, Overlay(v.data, ch, buf, cs, i)), o);
  }

  /** The owner after the data phase: a file that had a chain now has the new one. */
  function OwnerAfterData(o: Owner, idx: nat, new_: Chain): Owner
    requires idx < |o.files|
  {
    if o.files[idx] == [] then o else o.(files := o.files[idx := new_])
  }

  /** The flushed FAT of a data phase, with the old directory entry. */
  lemma DataFatOwned(fat: Fat, dir: seq<Entry>, o: Owner, idx: nat, start: Fat, ch: Chain, fat': Fat, new_: Chain)
    requires Owned(fat, dir, o) && idx < |dir| && |fat| == |start| <= 0x0FFF_FFF0
    requires IsChain(start, ch) && InRange(new_, |fat|) && NoDup(new_) && new_ != [] && new_[0] == ch[0]
    requires IsRelink(start, fat', ch, new_, END_OF_CHAIN)
    requires o.files[idx] != [] ==> ch == o.files[idx]
    requires forall x :: 0 <= x < |fat| && x !in ch ==> start[x] == fat[x]
    requires Spared(fat, o, idx, ch) && Spared(fat, o, idx, new_)
    ensures SameFor(fat, fat', o.root)
    ensures forall i :: 0 <= i < |dir| && i != idx ==> SameFor(fat, fat', o.files[i])
    ensures Owned(fat', dir, OwnerAfterData(o, idx, new_))
    ensures IsChain(fat', new_)
    ensures |fat'| == |fat| && fat'[0] == fat[0]
  {
    assert 0 !in new_ && 0 !in ch;
    RelinkMakesChain(start, fat', ch, new_, END_OF_CHAIN);
    forall i | 0 <= i < |dir| && i != idx
      ensures SameFor(fat, fat', o.files[i])
    {
      assert Disjoint(o.files[i], ch) && Disjoint(o.files[i], new_);
    }
    assert Disjoint(o.root, ch) && Disjoint(o.root, new_);
    assert FileOk(fat, dir[idx], o.files[idx]);
    if o.files[idx] == [] {
      OwnedFrame(fat, dir, o, fat');
    } else {
      OwnedUpdate(fat, dir, o, fat', idx, dir[idx], new_);
      assert dir[idx := dir[idx]] == dir;
    }
  }

  lemma DataPhaseSafe(g: Geometry, v: Vol, o: Owner, idx: nat, start: Fat, ch: Chain, w: Written, vis: Chain,
                      mem: seq<byte>)
    requires g.Ok() && SafeWith(g, v, o) && idx < |o.files|
    requires |start| == |v.fat| && IsChain(start, ch) && (o.files[idx] != [] ==> ch == o.files[idx])
    requires forall x :: 0 <= x < |start| && x !in ch ==> start[x] == v.fat[x]
    requires InRange(vis, |v.data|) && NoDup(vis) && vis != [] && vis[0] == ch[0]
    requires Spared(v.fat, o, idx, ch) && Spared(v.fat, o, idx, vis)
    requires Span(|vis|, g.ClusterSize()) <= |mem|
    requires |w.trace| >= |vis| && w.trace[..|vis|] == DataWrites(v, vis, mem, g.ClusterSize(), |vis|)
    requires !w.done ==> |w.trace| == |vis|
    requires w.done ==>
               && |w.trace| == |vis| + 1 && w.chain == vis
               && w.trace[|vis|] == Vol(w.fat, Overlay(v.data, vis, mem, g.ClusterSize(), |vis|))
               && IsRelink(start, w.fat, ch, vis, END_OF_CHAIN)
    ensures AllSafe(g, w.trace, v.fat)
    ensures w.done ==>
              && After(v, w.trace).fat == w.fat
              && SafeWith(g, After(v, w.trace), OwnerAfterData(o, idx, vis))
              && Flat(After(v, w.trace).data, o.root) == Flat(v.data, o.root)
  {
    var cs := g.ClusterSize();
    DataWritesSafe(g, v, o, vis, mem, |vis|);
    var writes := DataWrites(v, vis, mem, cs, |vis|);
    if w.done {
      DataWriteSafe(g, v, o, vis, mem, |vis|);
      DataFatOwned(v.fat, Dir(v.data, o.root), o, idx, start, ch, w.fat, vis);
      var last := Vol(w.fat, Overlay(v.data, vis, mem, cs, |vis|));
      assert w.trace == writes + [last];
      assert SafeWith(g, last, OwnerAfterData(o, idx, vis));
      AllSafeConcat(g, writes, [last], v.fat);
    } else {
      assert w.trace == writes;
    }
  }

  lemma WriteDataSafe(g: Geometry, v: Vol, o: Owner, idx: nat, mem: seq<byte>, n: nat)
    requires g.Ok() && SafeWith(g, v, o) && idx < |o.files| && n > 0
    requires StartChain(v, o, idx) != []
    requires Span(ClustersFor(n, g.ClusterSize()), g.ClusterSize()) <= |mem|
    ensures var w := WriteData(g, v, o, idx, mem, n);
            && AllSafe(g, w.trace, v.fat)
            && (w.done ==>
                  && w.trace != []
                  && After(v, w.trace).fat == w.fat
                  && SafeWith(g, After(v, w.trace), OwnerAfterData(o, idx, w.chain))
                  && Flat(After(v, w.trace).data, o.root) == Flat(v.data, o.root))
  {
    StartProps(g, v, o, idx);
    PoolSpared(g, v, o, idx);
    var fat, ch := StartFat(v, o, idx), StartChain(v, o, idx);
    var vis := Visited(fat, ch, n, g.ClusterSize());
    WriteChainShape(v, fat, ch, mem, n, g.ClusterSize());
    StartOutside(v, o, idx);
    DataPhaseSafe(g, v, o, idx, fat, ch, WriteData(g, v, o, idx, mem, n), vis, mem);
  }

  lemma StartOutside(v: Vol, o: Owner, idx: nat)
    requires idx < |o.files|
    ensures forall x :: 0 <= x < |v.fat| && x !in StartChain(v, o, idx) ==> StartFat(v, o, idx)[x] == v.fat[x]
  {
  }

  lemma {:induction false} DataWritesSafe(g: Geometry, v: Vol, o: Owner, vis: Chain, buf: seq<byte>, k: nat)
    requires g.Ok() && SafeWith(g, v, o)
    requires InRange(vis, |v.data|) && NoDup(vis) && Disjoint(o.root, vis)
    requires k <= |vis| && Span(k, g.ClusterSize()) <= |buf|
    ensures AllSafe(g, DataWrites(v, vis, buf, g.ClusterSize(), k), v.fat)
  {
    if k > 0 {
      SpanMonotone(k - 1, k, g.ClusterSize());
      DataWritesSafe(g, v, o, vis, buf, k - 1);
      OneMoreSafe(g, v, o, vis, buf, k, DataWrites(v, vis, buf, g.ClusterSize(), k - 1));
    }
  }

  lemma OneMoreSafe(g: Geometry, v: Vol, o: Owner, vis: Chain, buf: seq<byte>, k: nat, before: seq<Vol>)
    requires g.Ok() && SafeWith(g, v, o) && AllSafe(g, before, v.fat)
    requires InRange(vis, |v.data|) && NoDup(vis) && Disjoint(o.root, vis)
    requires 0 < k <= |vis| && Span(k, g.ClusterSize()) <= |buf|
    ensures AllSafe(g, before + [Vol(v.fat, Overlay(v.data, vis, buf, g.ClusterSize(), k))], v.fat)
  {
    DataWriteSafe(g, v, o, vis, buf, k);
  }
}
