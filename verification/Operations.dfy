/**
 * The driver's operations on the root directory, as functions from a mounted volume
 * to the states the card passes through, one for each device write.
 */
module Operations {
  import opened Bytes
  import opened Names
  import opened Layout
  import opened Chains
  import opened Dirents
  import opened Volume

  datatype Command =
    | Create(name: CString, isDir: bool)
    | Delete(name: CString)
    | Rename(oldName: CString, newName: CString)
    | Write(name: CString, mem: seq<byte>, n: u32)
    | Truncate(name: CString, length: u32)

  /** Device states in order, whether a panic cut the operation short, and its result. */
  datatype Outcome = Outcome(trace: seq<Vol>, halted: bool, ret: int)

  /** What the card holds after a trace that started at v. */
  function After(v: Vol, trace: seq<Vol>): Vol
  {
    if trace == [] then v else trace[|trace| - 1]
  }

  /**
   * The extra read at the end of read_cluster_chain, of the "cluster" that the end
   * mark names, must lie on the card.
   */
  predicate StrayReadOk(g: Geometry, fat: Fat, ch: Chain)
    requires |ch| > 0 && InRange(ch, |fat|)
    requires TypeOf(fat[ch[|ch| - 1]]) == Last
  {
    g.OnCard(g.Lba(fat[ch[|ch| - 1]]))
  }

  /** A write sends whole clusters, so as much memory must be readable behind `mem`. */
  predicate CommandOk(g: Geometry, cmd: Command)
    requires g.Ok()
  {
    cmd.Write? ==> cmd.n <= |cmd.mem| && Span(ClustersFor(cmd.n, g.ClusterSize()), g.ClusterSize()) <= |cmd.mem|
  }

  /** Writing back the directory with slot idx set to e, the FAT in memory being mem. */
  ghost function Commit(g: Geometry, v: Vol, mem: Fat, o: Owner, idx: nat, e: Entry): Written
    requires g.Ok() && SafeWith(g, v, o) && idx < |o.files|
    requires |mem| == |v.fat| && IsChain(mem, o.root)
  {
    var cs := g.ClusterSize();
    FlatBlocks(v.data, o.root, cs);
    ClustersForFull(|o.root|, cs);
    var buf := Flat(v.data, o.root);
    WriteChain(v, mem, o.root, PutEntry(buf, idx, e), |buf|, cs)
  }

  lemma {:induction false} BlockOfEntry(idx: nat, m: nat, cs: nat) returns (j: nat)
    requires cs % ENTRY == 0 && ENTRY * (idx + 1) <= Span(m, cs)
    ensures j < m && Span(j, cs) <= ENTRY * idx && ENTRY * (idx + 1) <= Span(j + 1, cs)
  {
    SpanOfEntries(m - 1, cs);
    if ENTRY * idx >= Span(m - 1, cs) {
      j := m - 1;
    } else {
      NextMultiple(idx, Span(m - 1, cs));
      j := BlockOfEntry(idx, m - 1, cs);
    }
  }

  lemma NextMultiple(i: nat, s: nat)
    requires s % ENTRY == 0 && ENTRY * i < s
    ensures ENTRY * (i + 1) <= s
  {
    assert s == ENTRY * (s / ENTRY);
  }

  lemma {:induction false} SpanOfEntries(m: nat, cs: nat)
    requires cs % ENTRY == 0
    ensures Span(m, cs) % ENTRY == 0
  {
    if m > 0 {
      SpanOfEntries(m - 1, cs);
    }
  }

  lemma PutElsewhere(buf: seq<byte>, idx: nat, e: Entry, lo: nat, hi: nat)
    requires ENTRY * (idx + 1) <= |buf| && lo <= hi <= |buf|
    requires hi <= ENTRY * idx || ENTRY * (idx + 1) <= lo
    ensures PutEntry(buf, idx, e)[lo..hi] == buf[lo..hi]
  {
    var r := PutEntry(buf, idx, e);
    assert forall i :: 0 <= i < |buf| && (i < ENTRY * idx || ENTRY * (idx + 1) <= i) ==> r[i] == buf[i];
  }

  /** One entry lies in one cluster: all blocks but one are as before. */
  lemma OtherBlocks(buf: seq<byte>, idx: nat, e: Entry, j: nat, k: nat, cs: nat)
    requires ENTRY * (idx + 1) <= |buf| && Span(k + 1, cs) <= |buf| && j != k
    requires Span(j, cs) <= ENTRY * idx && ENTRY * (idx + 1) <= Span(j + 1, cs)
    ensures Block(PutEntry(buf, idx, e), k, cs) == Block(buf, k, cs)
  {
    if j < k {
      SpanMonotone(j + 1, k, cs);
      PutElsewhere(buf, idx, e, Span(k, cs), Span(k + 1, cs));
    } else {
      SpanMonotone(k + 1, j, cs);
      PutElsewhere(buf, idx, e, Span(k, cs), Span(k + 1, cs));
    }
  }

  /** All blocks of buf but the j-th are what the chain holds already. */
  ghost predicate OnlyBlock(data: Data, ch: Chain, buf: seq<byte>, cs: nat, j: nat)
    requires InRange(ch, |data|)
  {
    && j < |ch| && Span(|ch|, cs) <= |buf|
    && forall k :: 0 <= k < |ch| ==> Span(k + 1, cs) <= |buf| && (k != j ==> Block(buf, k, cs) == data[ch[k]])
  }

  lemma {:induction false} OverlayOneBlock(data: Data, ch: Chain, buf: seq<byte>, cs: nat, i: nat, j: nat)
    requires InRange(ch, |data|) && NoDup(ch) && OnlyBlock(data, ch, buf, cs, j)
    requires i <= |ch| && Span(i, cs) <= |buf|
    ensures Overlay(data, ch, buf, cs, i) == if i <= j then data else data[ch[j] := Block(buf, j, cs)]
  {
    if i > 0 {
      SpanMonotone(i - 1, i, cs);
      OverlayOneBlock(data, ch, buf, cs, i - 1, j);
      assert i - 1 != j ==> Block(buf, i - 1, cs) == data[ch[i - 1]];
    }
  }

  lemma PutEntryOneBlock(data: Data, ch: Chain, cs: nat, idx: nat, e: Entry) returns (j: nat)
    requires InRange(ch, |data|) && Uniform(data, cs) && cs % ENTRY == 0
    requires idx < |Dir(data, ch)|
    ensures OnlyBlock(data, ch, PutEntry(Flat(data, ch), idx, e), cs, j)
    ensures Span(j, cs) <= ENTRY * idx && ENTRY * (idx + 1) <= Span(j + 1, cs)
  {
    FlatBlocks(data, ch, cs);
    var buf := Flat(data, ch);
    j := BlockOfEntry(idx, |ch|, cs);
    SpansFit(|ch|, cs);
    forall k | 0 <= k < |ch|
      ensures Span(k + 1, cs) <= |buf| && (k != j ==> Block(PutEntry(buf, idx, e), k, cs) == data[ch[k]])
    {
      if k != j {
        OtherBlocks(buf, idx, e, j, k, cs);
        assert Block(buf, k, cs) == data[ch[k]];
      }
    }
  }

  /** A directory write whose trace has only two kinds of contents. */
  ghost predicate TwoFaced(v: Vol, data: Data, w: Written)
  {
    && w.done && |w.trace| > 0
    && (forall i :: 0 <= i < |w.trace| - 1 ==> w.trace[i] == v || w.trace[i] == Vol(v.fat, data))
    && w.trace[|w.trace| - 1] == Vol(w.fat, data)
  }

  lemma {:induction false} OneBlockWrites(v: Vol, ch: Chain, buf: seq<byte>, cs: nat, k: nat, j: nat)
    requires InRange(ch, |v.data|) && NoDup(ch) && OnlyBlock(v.data, ch, buf, cs, j)
    requires k <= |ch| && Span(k, cs) <= |buf|
    ensures var after := Vol(v.fat, v.data[ch[j] := Block(buf, j, cs)]);
            forall i :: 0 <= i < k ==>
              DataWrites(v, ch, buf, cs, k)[i] == v || DataWrites(v, ch, buf, cs, k)[i] == after
  {
    if k > 0 {
      SpanMonotone(k - 1, k, cs);
      OneBlockWrites(v, ch, buf, cs, k - 1, j);
      OverlayOneBlock(v.data, ch, buf, cs, k, j);
    }
  }

  lemma WriteChainInPlace(v: Vol, mem: Fat, ch: Chain, buf: seq<byte>, n: nat, cs: nat)
    requires cs > 0 && |mem| == |v.fat| == |v.data| <= 0x0FFF_FFF0
    requires IsChain(mem, ch) && ClustersFor(n, cs) == |ch| && Span(|ch|, cs) <= |buf|
    ensures var w := WriteChain(v, mem, ch, buf, n, cs);
            && w.done && w.chain == ch && IsRelink(mem, w.fat, ch, ch, END_OF_CHAIN)
            && w.trace == DataWrites(v, ch, buf, cs, |ch|) + [Vol(w.fat, Overlay(v.data, ch, buf, cs, |ch|))]
  {
    PoolProps(mem, ch);
    assert Pool(mem, ch)[..|ch|] == ch;
  }

  lemma OneBlockTrace(v: Vol, mem: Fat, ch: Chain, buf: seq<byte>, n: nat, cs: nat, j: nat)
    requires cs > 0 && |mem| == |v.fat| == |v.data| <= 0x0FFF_FFF0
    requires IsChain(mem, ch) && ClustersFor(n, cs) == |ch|
    requires OnlyBlock(v.data, ch, buf, cs, j)
    ensures var w := WriteChain(v, mem, ch, buf, n, cs);
            && TwoFaced(v, v.data[ch[j] := Block(buf, j, cs)], w)
            && w.chain == ch && IsRelink(mem, w.fat, ch, ch, END_OF_CHAIN)
  {
    WriteChainInPlace(v, mem, ch, buf, n, cs);
    OneBlockWrites(v, ch, buf, cs, |ch|, j);
    OverlayOneBlock(v.data, ch, buf, cs, |ch|, j);
  }

  /** The directory after the write, and the frame of its data. */
  lemma DirOfCommit(data: Data, ch: Chain, cs: nat, idx: nat, e: Entry, j: nat)
    requires InRange(ch, |data|) && NoDup(ch) && Uniform(data, cs) && idx < |Dir(data, ch)|
    requires OnlyBlock(data, ch, PutEntry(Flat(data, ch), idx, e), cs, j)
    ensures var data' := data[ch[j] := Block(PutEntry(Flat(data, ch), idx, e), j, cs)];
            Dir(data', ch) == Dir(data, ch)[idx := e] && Uniform(data', cs)
  {
    var buf := Flat(data, ch);
    FlatBlocks(data, ch, cs);
    var new_ := PutEntry(buf, idx, e);
    OverlayOneBlock(data, ch, new_, cs, |ch|, j);
    FlatOfOverlay(data, ch, new_, cs);
    assert new_[..Span(|ch|, cs)] == new_;
    EntriesOfPut(buf, idx, e);
  }

  /**
   * Writing back the directory is one step as far as its contents go: every device
   * state before the FAT flush holds the old directory or the new one, and only
   * clusters of the root chain change.
   */
  lemma CommitShape(g: Geometry, v: Vol, mem: Fat, o: Owner, idx: nat, e: Entry) returns (data: Data)
    requires g.Ok() && SafeWith(g, v, o) && idx < |o.files|
    requires |mem| == |v.fat| && IsChain(mem, o.root)
    ensures var w := Commit(g, v, mem, o, idx, e);
            && TwoFaced(v, data, w)
            && w.chain == o.root && IsRelink(mem, w.fat, o.root, o.root, END_OF_CHAIN)
    ensures WellFormed(g, Vol(v.fat, data))
    ensures Dir(data, o.root) == Dir(v.data, o.root)[idx := e]
    ensures forall c :: 0 <= c < |data| && c !in o.root ==> data[c] == v.data[c]
  {
    g.ClusterSizeIsWhole();
    FlatBlocks(v.data, o.root, g.ClusterSize());
    ClustersForFull(|o.root|, g.ClusterSize());
    data := RootWrite(v, mem, o.root, g.ClusterSize(), idx, e, Commit(g, v, mem, o, idx, e));
  }

  /** The same about the chain write itself. */
  lemma RootWrite(v: Vol, mem: Fat, root: Chain, cs: nat, idx: nat, e: Entry, w: Written) returns (data: Data)
    requires cs > 0 && cs % ENTRY == 0 && |mem| == |v.fat| == |v.data| <= 0x0FFF_FFF0 && IsChain(mem, root)
    requires Uniform(v.data, cs) && idx < |Dir(v.data, root)|
    requires var n := |Flat(v.data, root)|;
             && ClustersFor(n, cs) == |root| && Span(|root|, cs) == n
             && w == WriteChain(v, mem, root, PutEntry(Flat(v.data, root), idx, e), n, cs)
    ensures TwoFaced(v, data, w) && w.chain == root && IsRelink(mem, w.fat, root, root, END_OF_CHAIN)
    ensures |data| == |v.data| && Uniform(data, cs) && Dir(data, root) == Dir(v.data, root)[idx := e]
    ensures forall c :: 0 <= c < |data| && c !in root ==> data[c] == v.data[c]
  {
    var new_ := PutEntry(Flat(v.data, root), idx, e);
    var j := PutEntryOneBlock(v.data, root, cs, idx, e);
    OneBlockTrace(v, mem, root, new_, |new_|, cs, j);
    data := v.data[root[j] := Block(new_, j, cs)];
    DirOfCommit(v.data, root, cs, idx, e, j);
  }

  /** The FAT after chain ch went from the owner's hands to new_. */
  lemma RelinkedForOthers(fat: Fat, fat': Fat, ch: Chain, new_: Chain, mark: u32, other: Chain)
    requires InRange(new_, |fat|) && IsRelink(fat, fat', ch, new_, mark)
    requires Disjoint(other, ch) && Disjoint(other, new_)
    ensures SameFor(fat, fat', other)
  {
  }

  ghost function StepDelete(g: Geometry, v: Vol, o: Owner, name: CString): Outcome
    requires g.Ok() && SafeWith(g, v, o)
  {
    if !IsValid(name) then Outcome([], false, 0)
    else if !StrayReadOk(g, v.fat, o.root) then Outcome([], true, 0)
    else
      var dir := Dir(v.data, o.root);
      var idx := Find(dir, name);
      if idx == |dir| then Outcome([], false, 0)
      else
        var mem := Relink(v.fat, o.files[idx], [], END_OF_CHAIN);
        RelinkKeepsOthers(v.fat, mem, o.files[idx], [], END_OF_CHAIN, o.root);
        Outcome(Commit(g, v, mem, o, idx, Deleted(dir[idx])).trace, false, 1)
  }

  ghost function StepCreate(g: Geometry, v: Vol, o: Owner, name: CString, isDir: bool): Outcome
    requires g.Ok() && SafeWith(g, v, o)
  {
    if !IsValid(name) then Outcome([], false, 0)
    else if !StrayReadOk(g, v.fat, o.root) then Outcome([], true, 0)
    else
      var dir := Dir(v.data, o.root);
      if Find(dir, name) < |dir| then Outcome([], false, 0)
      else
        var slot := FreeSlot(dir);
        if slot == |dir| then Outcome([], true, 0)
        else Outcome(Commit(g, v, v.fat, o, slot, Fresh(dir[slot], name, isDir)).trace, false, 1)
  }

  ghost function StepRename(g: Geometry, v: Vol, o: Owner, oldName: CString, newName: CString): Outcome
    requires g.Ok() && SafeWith(g, v, o)
  {
    if !IsValid(newName) then Outcome([], false, 0)
    else if !StrayReadOk(g, v.fat, o.root) then Outcome([], true, 0)
    else
      var dir := Dir(v.data, o.root);
      var idx := Find(dir, oldName);
      if idx == |dir| then Outcome([], false, 0)
      else Outcome(Commit(g, v, v.fat, o, idx, WithName(dir[idx], newName)).trace, false, 1)
  }

  /**
   * What the truncating loop does to the FAT in memory: it marks the cluster that
   * holds the last byte, frees those behind it, and frees all of them for length 0.
   * Run on start cluster 0 it rewrites the media entry instead.
   */
  ghost function Truncated(fat: Fat, ch: Chain, length: nat, cs: nat): (fat': Fat)
    requires cs > 0 && 0 < |fat| <= 0x0FFF_FFF0
    requires ch != [] ==> IsChain(fat, ch)
    ensures |fat'| == |fat|
  {
    var k := ClustersFor(length, cs);
    if ch == [] then
      if k > 1 then fat else fat[0 := if k == 1 then LAST_CLUSTER else FREE_CLUSTER]
    else if k > |ch| then fat
    else Relink(fat, ch, ch[..k], LAST_CLUSTER)
  }

  lemma TruncatedKeeps(fat: Fat, ch: Chain, length: nat, cs: nat, other: Chain)
    requires cs > 0 && 0 < |fat| <= 0x0FFF_FFF0
    requires ch != [] ==> IsChain(fat, ch)
    requires IsChain(fat, other) && Disjoint(other, ch)
    ensures SameFor(fat, Truncated(fat, ch, length, cs), other)
    ensures IsChain(Truncated(fat, ch, length, cs), other)
  {
    var fat' := Truncated(fat, ch, length, cs);
    var k := ClustersFor(length, cs);
    if 0 < |ch| && k <= |ch| {
      assert Disjoint(other, ch[..k]);
    }
    ChainFrame(fat, fat', other);
  }

  ghost function StepTruncate(g: Geometry, v: Vol, o: Owner, name: CString, length: u32): Outcome
    requires g.Ok() && SafeWith(g, v, o)
  {
    if !StrayReadOk(g, v.fat, o.root) then Outcome([], true, 0)
    else
      var dir := Dir(v.data, o.root);
      var idx := Find(dir, name);
      if idx == |dir| then Outcome([], false, 0)
      else if Start(dir[idx]) == 0 && TypeOf(v.fat[0]) == Panic then Outcome([], true, 0)
      else
        assert FileOk(v.fat, dir[idx], o.files[idx]);
        var mem := Truncated(v.fat, o.files[idx], length, g.ClusterSize());
        TruncatedKeeps(v.fat, o.files[idx], length, g.ClusterSize(), o.root);
        Outcome(Commit(g, v, mem, o, idx, WithSize(dir[idx], length)).trace, false, 0)
  }

  /** The chain that a write to slot idx starts from: the file's, or a first free cluster. */
  ghost function StartChain(v: Vol, o: Owner, idx: nat): Chain
    requires idx < |o.files|
  {
    if o.files[idx] != [] then o.files[idx]
    else
      var free := FreeFrom(v.fat, ScanStart(3));
      if free == [] then [] else [free[0]]
  }

  /** The FAT in memory when the data writes start. */
  ghost function StartFat(v: Vol, o: Owner, idx: nat): (fat: Fat)
    requires idx < |o.files|
    ensures |fat| == |v.fat|
  {
    FreeFromIsFreeList(v.fat, ScanStart(3));
    if o.files[idx] == [] && StartChain(v, o, idx) != [] then v.fat[StartChain(v, o, idx)[0] := LAST_CLUSTER] else v.fat
  }

  lemma StartProps(g: Geometry, v: Vol, o: Owner, idx: nat)
    requires g.Ok() && SafeWith(g, v, o) && idx < |o.files|
    requires StartChain(v, o, idx) != []
    ensures IsChain(StartFat(v, o, idx), StartChain(v, o, idx))
    ensures Spared(v.fat, o, idx, StartChain(v, o, idx))
    ensures IsChain(StartFat(v, o, idx), o.root)
  {
    var dir := Dir(v.data, o.root);
    assert FileOk(v.fat, dir[idx], o.files[idx]);
    FreeFromIsFreeList(v.fat, ScanStart(3));
    FreeIsSpared(v.fat, dir, o, idx, StartChain(v, o, idx));
    ChainFrame(v.fat, StartFat(v, o, idx), o.root);
  }

  /** The data phase of fat32_write. */
  ghost function WriteData(g: Geometry, v: Vol, o: Owner, idx: nat, mem: seq<byte>, n: nat): Written
    requires g.Ok() && SafeWith(g, v, o) && idx < |o.files|
    requires StartChain(v, o, idx) != []
    requires Span(ClustersFor(n, g.ClusterSize()), g.ClusterSize()) <= |mem|
  {
    StartProps(g, v, o, idx);
    WriteChain(v, StartFat(v, o, idx), StartChain(v, o, idx), mem, n, g.ClusterSize())
  }
}
