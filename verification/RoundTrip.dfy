/** What is written is what is read, through lookup, chain and disk. */
module RoundTrip {
  import opened Bytes
  import opened Names
  import opened Layout
  import opened Chains
  import opened Dirents
  import opened Volume
  import opened Operations
  import opened CrashSafety
  import opened Runs
  import opened Ownership
  import opened Conservation
  import opened Truncation

  /**
   * What fat32_read finds under a name: nothing, an entry without a cluster (reading
   * it never returns a file), or the bytes of the chain and the entry's size.
   */
  datatype Reading = NotFound | NoCluster | Contents(bytes: seq<byte>, n: u32)

  ghost function Peek(v: Vol, o: Owner, name: CString): Reading
    requires InRange(o.root, |v.data|) && |o.files| == |Dir(v.data, o.root)|
    requires Owned(v.fat, Dir(v.data, o.root), o) && |v.fat| == |v.data|
  {
    var dir := Dir(v.data, o.root);
    var idx := Find(dir, name);
    if idx == |dir| then NotFound
    else
      assert FileOk(v.fat, dir[idx], o.files[idx]);
      if o.files[idx] == [] then NoCluster
      else Contents(Flat(v.data, o.files[idx]), Size(dir[idx]))
  }

  /** fat32_read returns when both stray reads, of the directory and of the file, are on the card. */
  ghost predicate ReadReturns(g: Geometry, v: Vol, o: Owner, name: CString)
    requires g.Ok() && SafeWith(g, v, o)
  {
    var dir := Dir(v.data, o.root);
    var idx := Find(dir, name);
    && StrayReadOk(g, v.fat, o.root)
    && idx < |dir|
    && (assert FileOk(v.fat, dir[idx], o.files[idx]); o.files[idx] != [])
    && StrayReadOk(g, v.fat, o.files[idx])
  }

  /** Names that match neither the old nor the new entry of a changed slot find what they found. */
  lemma FindOther(dir: seq<Entry>, idx: nat, e: Entry, name: CString)
    requires idx < |dir| && !Matches(dir[idx], name) && !Matches(e, name)
    ensures Find(dir[idx := e], name) == Find(dir, name)
  {
    FindIs(dir[idx := e], name, Find(dir, name));
  }

  /** Replacing the found entry by one of the same name is found in the same place. */
  lemma FindSame(dir: seq<Entry>, name: CString, e: Entry)
    requires Find(dir, name) < |dir| && Matches(e, name)
    ensures Find(dir[Find(dir, name) := e], name) == Find(dir, name)
  {
    FindIs(dir[Find(dir, name) := e], name, Find(dir, name));
  }

  /** A volume in which slot idx alone has changed. */
  ghost predicate OnlySlot(g: Geometry, v: Vol, o: Owner, v': Vol, o': Owner, idx: nat, e: Entry, ch: Chain)
  {
    && SafeWith(g, v, o) && SafeWith(g, v', o') && idx < |o.files|
    && o' == o.(files := o.files[idx := ch])
    && |v'.data| == |v.data|
    && Dir(v'.data, o.root) == Dir(v.data, o.root)[idx := e]
    && forall i, c :: 0 <= i < |o.files| && i != idx && c in o.files[i] && c < |v.data| ==> v'.data[c] == v.data[c]
  }

  /** Every other file reads as before. */
  lemma OthersReadSame(g: Geometry, v: Vol, o: Owner, v': Vol, o': Owner, idx: nat, e: Entry, ch: Chain, name: CString)
    requires g.Ok() && OnlySlot(g, v, o, v', o', idx, e, ch)
    requires !Matches(Dir(v.data, o.root)[idx], name) && !Matches(e, name)
    ensures Peek(v', o', name) == Peek(v, o, name)
  {
    var dir := Dir(v.data, o.root);
    FindOther(dir, idx, e, name);
    var i := Find(dir, name);
    if i < |dir| && o.files[i] != [] {
      assert FileOk(v.fat, dir[i], o.files[i]);
      FlatFrame(v.data, v'.data, o.files[i]);
    }
  }

  /** Clusters of other files lie outside everything that a command may touch. */
  lemma OthersAreElsewhere(g: Geometry, v: Vol, o: Owner, idx: nat, i: nat)
    requires g.Ok() && SafeWith(g, v, o) && idx < |o.files| && i < |o.files| && i != idx
    ensures forall c :: c in o.files[i] ==> Elsewhere(v, o, idx, c)
  {
    assert FileOk(v.fat, Dir(v.data, o.root)[i], o.files[i]);
    if o.files[i] != [] {
      ChainInUse(v.fat, o.files[i]);
      assert Disjoint(o.root, o.files[i]) && Disjoint(o.files[i], o.files[idx]);
    }
  }

  lemma LeftAlone(g: Geometry, v: Vol, o: Owner, idx: nat, trace: seq<Vol>)
    requires g.Ok() && SafeWith(g, v, o) && idx < |o.files| && LeavesOthers(v, o, idx, trace) && trace != []
    ensures var v' := After(v, trace);
            |v'.data| == |v.data| &&
            forall i, c :: 0 <= i < |o.files| && i != idx && c in o.files[i] && c < |v.data| ==> v'.data[c] == v.data[c]
  {
    assert DataElsewhere(v, o, idx, trace[|trace| - 1].data);
    forall i, c | 0 <= i < |o.files| && i != idx && c in o.files[i] && c < |v.data|
      ensures After(v, trace).data[c] == v.data[c]
    {
      OthersAreElsewhere(g, v, o, idx, i);
      assert Elsewhere(v, o, idx, c);
    }
  }

  // ---------------------------------------------------------------- writing

  lemma WriteOnlySlot(g: Geometry, v: Vol, o: Owner, name: CString, mem: seq<byte>, n: u32)
    requires g.Ok() && SafeWith(g, v, o) && CommandOk(g, Write(name, mem, n)) && n > 0
    requires var out := StepWrite(g, v, o, name, mem, n);
             out.trace != [] && !out.halted
    ensures var idx := Find(Dir(v.data, o.root), name);
            var w := WriteData(g, v, o, idx, mem, n);
            OnlySlot(g, v, o, After(v, StepWrite(g, v, o, name, mem, n).trace),
                     o.(files := o.files[idx := w.chain]), idx, WrittenEntry(v, o, idx, n), w.chain)
  {
    var idx := Find(Dir(v.data, o.root), name);
    WriteSafe(g, v, o, name, mem, n);
    WriteLeavesOthers(g, v, o, name, mem, n);
    LeftAlone(g, v, o, idx, StepWrite(g, v, o, name, mem, n).trace);
    WriteCommitSafe(g, v, o, idx, mem, n);
  }

  /** The bytes in the written chain. */
  lemma WrittenBytes(g: Geometry, v: Vol, o: Owner, idx: nat, mem: seq<byte>, n: u32)
    requires g.Ok() && SafeWith(g, v, o) && idx < |o.files| && n > 0
    requires Span(ClustersFor(n, g.ClusterSize()), g.ClusterSize()) <= |mem|
    requires StartChain(v, o, idx) != [] && WriteData(g, v, o, idx, mem, n).done
    ensures var w, cs := WriteData(g, v, o, idx, mem, n), g.ClusterSize();
            && w.trace != []
            && InRange(w.chain, |After(v, w.trace).data|)
            && Flat(After(v, w.trace).data, w.chain) == mem[..Span(ClustersFor(n, cs), cs)]
  {
    StartProps(g, v, o, idx);
    WriteChainShape(v, StartFat(v, o, idx), StartChain(v, o, idx), mem, n, g.ClusterSize());
    var w := WriteData(g, v, o, idx, mem, n);
    FlatOfOverlay(v.data, w.chain, mem, g.ClusterSize());
  }

  /** Chain ch holds these bytes, and it and the root chain end with the mark of a chain write. */
  ghost predicate Holding(v: Vol, root: Chain, ch: Chain, bytes: seq<byte>)
  {
    && IsChain(v.fat, ch) && IsChain(v.fat, root)
    && v.fat[ch[|ch| - 1]] == END_OF_CHAIN && v.fat[root[|root| - 1]] == END_OF_CHAIN
    && InRange(ch, |v.data|) && Flat(v.data, ch) == bytes
  }

  lemma WrittenFlat(g: Geometry, v: Vol, o: Owner, name: CString, mem: seq<byte>, n: u32)
    requires g.Ok() && SafeWith(g, v, o) && CommandOk(g, Write(name, mem, n)) && n > 0
    requires var out := StepWrite(g, v, o, name, mem, n);
             out.trace != [] && !out.halted
    ensures var w := WriteData(g, v, o, Find(Dir(v.data, o.root), name), mem, n);
            Holding(After(v, StepWrite(g, v, o, name, mem, n).trace), o.root, w.chain,
                    mem[..Span(ClustersFor(n, g.ClusterSize()), g.ClusterSize())])
  {
    var idx := Find(Dir(v.data, o.root), name);
    WriteDataSafe(g, v, o, idx, mem, n);
    WrittenBytes(g, v, o, idx, mem, n);
    WrittenChain(g, v, o, idx, mem, n);
    FinishFlat(g, v, o, idx, WriteData(g, v, o, idx, mem, n), WrittenEntry(v, o, idx, n));
  }

  lemma FinishFlat(g: Geometry, v: Vol, o: Owner, idx: nat, w: Written, e: Entry)
    requires g.Ok() && idx < |o.files| && w.trace != [] && After(v, w.trace).fat == w.fat
    requires SafeWith(g, After(v, w.trace), OwnerAfterData(o, idx, w.chain))
    requires IsChain(w.fat, w.chain) && Disjoint(o.root, w.chain)
    requires w.fat[w.chain[|w.chain| - 1]] == END_OF_CHAIN
    ensures var v1, o1 := After(v, w.trace), OwnerAfterData(o, idx, w.chain);
            var v' := After(v, w.trace + Commit(g, v1, w.fat, o1, idx, e).trace);
            InRange(w.chain, |v1.data|) && Holding(v', o.root, w.chain, Flat(v1.data, w.chain))
  {
    var v1, o1 := After(v, w.trace), OwnerAfterData(o, idx, w.chain);
    FinishFree(g, v, o, idx, w, e);
    AfterCommit(g, v1, w.fat, o1, idx, e);
    var v' := After(v1, Commit(g, v1, w.fat, o1, idx, e).trace);
    FlatFrame(v1.data, v'.data, w.chain);
    RelinkKept(w.fat, v'.fat, o.root, w.chain);
    RelinkMakesChain(w.fat, v'.fat, o.root, o.root, END_OF_CHAIN);
  }

  lemma RelinkKept(fat: Fat, fat': Fat, root: Chain, ch: Chain)
    requires IsChain(fat, root) && IsChain(fat, ch) && Disjoint(root, ch) && |fat| <= 0x0FFF_FFF0
    requires IsRelink(fat, fat', root, root, END_OF_CHAIN)
    ensures IsChain(fat', ch) && fat'[ch[|ch| - 1]] == fat[ch[|ch| - 1]]
  {
    ChainFrame(fat, fat', ch);
    assert ch[|ch| - 1] in ch;
  }

  /** A reading of the first n bytes of mem. */
  ghost predicate Reads(r: Reading, mem: seq<byte>, n: u32)
  {
    r.Contents? && r.n == n && n <= |r.bytes| && n <= |mem| && r.bytes[..n] == mem[..n]
  }

  lemma ReadBack(g: Geometry, v: Vol, o: Owner, name: CString, mem: seq<byte>, n: u32,
                 v': Vol, o': Owner, e: Entry, ch: Chain)
    requires g.Ok() && CommandOk(g, Write(name, mem, n))
    requires InRange(o.root, |v.data|) && OnlySlot(g, v, o, v', o', Find(Dir(v.data, o.root), name), e, ch)
    requires Matches(e, name) && Size(e) == n
    requires Holding(v', o.root, ch, mem[..Span(ClustersFor(n, g.ClusterSize()), g.ClusterSize())])
    ensures Reads(Peek(v', o', name), mem, n)
    ensures ReadReturns(g, v', o', name) <==> g.OnCard(g.Lba(END_OF_CHAIN))
  {
    FindSame(Dir(v.data, o.root), name, e);
    ClustersForSpan(n, g.ClusterSize());
  }

  /**
   * Write then read: the name finds an entry of size n whose chain holds the n bytes;
   * the read returns exactly when the stray read for the end mark lies on the card; and
   * every other name finds what it found before.
   */
  lemma WriteThenRead(g: Geometry, v: Vol, o: Owner, name: CString, mem: seq<byte>, n: u32)
    requires g.Ok() && SafeWith(g, v, o) && CommandOk(g, Write(name, mem, n)) && n > 0
    requires var out := StepWrite(g, v, o, name, mem, n);
             out.trace != [] && !out.halted
    ensures var v' := After(v, StepWrite(g, v, o, name, mem, n).trace);
            Safe(g, v') &&
            var o' := OwnerOf(g, v');
            && Reads(Peek(v', o', name), mem, n)
            && (ReadReturns(g, v', o', name) <==> g.OnCard(g.Lba(END_OF_CHAIN)))
            && forall other: CString :: other != name ==> Peek(v', o', other) == Peek(v, o, other)
  {
    var dir := Dir(v.data, o.root);
    var idx := Find(dir, name);
    var w, e := WriteData(g, v, o, idx, mem, n), WrittenEntry(v, o, idx, n);
    var v' := After(v, StepWrite(g, v, o, name, mem, n).trace);
    var o' := o.(files := o.files[idx := w.chain]);
    WriteOnlySlot(g, v, o, name, mem, n);
    OwnerUnique(g, v', o', OwnerOf(g, v'));
    WrittenFlat(g, v, o, name, mem, n);
    WrittenMatches(v, o, idx, n, name);
    ReadBack(g, v, o, name, mem, n, v', o', e, w.chain);
    forall other: CString | other != name
      ensures Peek(v', o', other) == Peek(v, o, other)
    {
      OthersReadSame(g, v, o, v', o', idx, e, w.chain, other);
    }
  }

  lemma WrittenMatches(v: Vol, o: Owner, idx: nat, n: u32, name: CString)
    requires InRange(o.root, |v.data|) && idx < |Dir(v.data, o.root)| == |o.files|
    requires |v.fat| <= 0x0FFF_FFF0 && Matches(Dir(v.data, o.root)[idx], name)
    ensures var e := WrittenEntry(v, o, idx, n);
            Size(e) == n && Matches(e, name) && Raw(e) == Raw(Dir(v.data, o.root)[idx])
  {
    var e := Dir(v.data, o.root)[idx];
    FreeFromIsFreeList(v.fat, ScanStart(3));
    FieldsOfSize(e, n);
    if o.files[idx] == [] && StartChain(v, o, idx) != [] {
      FieldsOfStart(WithSize(e, n), StartChain(v, o, idx)[0]);
    }
  }

  // ---------------------------------------------------------------- truncating

  lemma {:induction false} FlatPrefix(data: Data, ch: Chain, k: nat)
    requires InRange(ch, |data|) && k <= |ch|
    ensures Flat(data, ch[..k]) <= Flat(data, ch)
    decreases |ch|
  {
    if k < |ch| {
      var init := ch[..|ch| - 1];
      FlatPrefix(data, init, k);
      assert init[..k] == ch[..k];
    } else {
      assert ch[..k] == ch;
    }
  }

  /** The kept chain ends with the mark that fat32_truncate stores, the root chain with that of a chain write. */
  lemma KeptEnd(fat: Fat, ch: Chain, length: nat, cs: nat, root: Chain, fat': Fat)
    requires cs > 0 && 0 < |fat| <= 0x0FFF_FFF0 && IsChain(fat, ch) && InRangeLength(ch, length, cs)
    requires InRange(root, |fat|) && Disjoint(root, ch) && root != []
    requires IsRelink(Truncated(fat, ch, length, cs), fat', root, root, END_OF_CHAIN)
    ensures 1 <= ClustersFor(length, cs) <= |ch| && |fat'| == |fat|
    ensures fat'[ch[ClustersFor(length, cs) - 1]] == LAST_CLUSTER && fat'[root[|root| - 1]] == END_OF_CHAIN
  {
    InRangeClusters(ch, length, cs);
    var k := ClustersFor(length, cs);
    assert ch[..k][k - 1] == ch[k - 1] && ch[k - 1] in ch;
  }

  lemma TruncateOnlySlot(g: Geometry, v: Vol, o: Owner, name: CString, length: u32)
    requires Clean(g, v, o) && StepTruncate(g, v, o, name, length).trace != []
    requires var idx := Find(Dir(v.data, o.root), name);
             InRangeLength(o.files[idx], length, g.ClusterSize())
    ensures var idx := Find(Dir(v.data, o.root), name);
            var kept := Kept(o.files[idx], length, g.ClusterSize());
            OnlySlot(g, v, o, After(v, StepTruncate(g, v, o, name, length).trace), o.(files := o.files[idx := kept]),
                     idx, WithSize(Dir(v.data, o.root)[idx], length), kept)
  {
    var idx := Find(Dir(v.data, o.root), name);
    InRangeClusters(o.files[idx], length, g.ClusterSize());
    TruncateInRange(g, v, o, name, length);
    TruncateLeavesOthers(g, v, o, name, length);
    LeftAlone(g, v, o, idx, StepTruncate(g, v, o, name, length).trace);
  }

  lemma TruncateMarks(g: Geometry, v: Vol, o: Owner, name: CString, length: u32)
    requires Clean(g, v, o) && StepTruncate(g, v, o, name, length).trace != []
    requires var idx := Find(Dir(v.data, o.root), name);
             InRangeLength(o.files[idx], length, g.ClusterSize())
    ensures var ch := o.files[Find(Dir(v.data, o.root), name)];
            var k := ClustersFor(length, g.ClusterSize());
            var fat := After(v, StepTruncate(g, v, o, name, length).trace).fat;
            && 1 <= k <= |ch| && |fat| == |v.fat| && InRange(ch, |fat|) && InRange(o.root, |fat|)
            && fat[ch[k - 1]] == LAST_CLUSTER && fat[o.root[|o.root| - 1]] == END_OF_CHAIN
  {
    TruncateTrace(g, v, o, name, length);
    var dir, cs := Dir(v.data, o.root), g.ClusterSize();
    var idx := Find(dir, name);
    var mem := Truncated(v.fat, o.files[idx], length, cs);
    AfterCommit(g, v, mem, o, idx, WithSize(dir[idx], length));
    KeptEnd(v.fat, o.files[idx], length, cs, o.root, After(v, StepTruncate(g, v, o, name, length).trace).fat);
  }

  /**
   * Truncate then read: the file holds its first bytes, every other name finds what it found, but the read returns
   * if and only if the mark that truncating leaves maps to the card too.
   */
  lemma TruncateThenRead(g: Geometry, v: Vol, o: Owner, name: CString, length: u32)
    requires Clean(g, v, o) && StepTruncate(g, v, o, name, length).trace != []
    requires var idx := Find(Dir(v.data, o.root), name);
             InRangeLength(o.files[idx], length, g.ClusterSize())
    ensures var idx := Find(Dir(v.data, o.root), name);
            var v' := After(v, StepTruncate(g, v, o, name, length).trace);
            var o' := o.(files := o.files[idx := Kept(o.files[idx], length, g.ClusterSize())]);
            && InRange(o.files[idx], |v.data|)
            && SafeWith(g, v', o')
            && Reads(Peek(v', o', name), Flat(v.data, o.files[idx]), length)
            && (ReadReturns(g, v', o', name) <==> g.OnCard(g.Lba(LAST_CLUSTER)) && g.OnCard(g.Lba(END_OF_CHAIN)))
            && forall other: CString :: other != name ==> Peek(v', o', other) == Peek(v, o, other)
  {
    var idx := Find(Dir(v.data, o.root), name);
    var kept := Kept(o.files[idx], length, g.ClusterSize());
    TruncateOnlySlot(g, v, o, name, length);
    ReadTruncated(g, v, o, name, length, After(v, StepTruncate(g, v, o, name, length).trace),
                  o.(files := o.files[idx := kept]), o.files[idx], kept);
  }

  lemma ReadTruncated(g: Geometry, v: Vol, o: Owner, name: CString, length: u32, v': Vol, o': Owner,
                      ch: Chain, kept: Chain)
    requires Clean(g, v, o) && StepTruncate(g, v, o, name, length).trace != []
    requires v' == After(v, StepTruncate(g, v, o, name, length).trace)
    requires ch == o.files[Find(Dir(v.data, o.root), name)] && InRangeLength(ch, length, g.ClusterSize())
    requires kept == Kept(ch, length, g.ClusterSize())
    requires var idx := Find(Dir(v.data, o.root), name);
             OnlySlot(g, v, o, v', o', idx, WithSize(Dir(v.data, o.root)[idx], length), kept)
    ensures InRange(ch, |v.data|) && Reads(Peek(v', o', name), Flat(v.data, ch), length)
    ensures ReadReturns(g, v', o', name) <==> g.OnCard(g.Lba(LAST_CLUSTER)) && g.OnCard(g.Lba(END_OF_CHAIN))
    ensures forall other: CString :: other != name ==> Peek(v', o', other) == Peek(v, o, other)
  {
    var e := Dir(v.data, o.root)[Find(Dir(v.data, o.root), name)];
    TruncateMarks(g, v, o, name, length);
    FieldsOfSize(e, length);
    TruncatedContents(g, v, o, name, length);
    ReadShorter(g, v, o, name, v', o', WithSize(e, length), kept, Flat(v.data, ch), length);
  }

  /** Reading a file whose slot alone has changed, and whose chain now ends with the mark of a truncation. */
  lemma ReadShorter(g: Geometry, v: Vol, o: Owner, name: CString, v': Vol, o': Owner, e: Entry, kept: Chain,
                    bytes: seq<byte>, length: u32)
    requires g.Ok() && SafeWith(g, v, o)
    requires var idx := Find(Dir(v.data, o.root), name);
             OnlySlot(g, v, o, v', o', idx, e, kept) && Raw(e) == Raw(Dir(v.data, o.root)[idx])
    requires Live(e) && Size(e) == length && kept != [] && InRange(kept, |v'.data|)
    requires v'.fat[kept[|kept| - 1]] == LAST_CLUSTER && v'.fat[o.root[|o.root| - 1]] == END_OF_CHAIN
    requires length <= |Flat(v'.data, kept)| && Flat(v'.data, kept) <= bytes
    ensures Reads(Peek(v', o', name), bytes, length)
    ensures ReadReturns(g, v', o', name) <==> g.OnCard(g.Lba(LAST_CLUSTER)) && g.OnCard(g.Lba(END_OF_CHAIN))
    ensures forall other: CString :: other != name ==> Peek(v', o', other) == Peek(v, o, other)
  {
    var idx := Find(Dir(v.data, o.root), name);
    FindSame(Dir(v.data, o.root), name, e);
    forall other: CString | other != name
      ensures Peek(v', o', other) == Peek(v, o, other)
    {
      OthersReadSame(g, v, o, v', o', idx, e, kept, other);
    }
  }

  lemma TruncatedContents(g: Geometry, v: Vol, o: Owner, name: CString, length: u32)
    requires Clean(g, v, o) && StepTruncate(g, v, o, name, length).trace != []
    requires var idx := Find(Dir(v.data, o.root), name);
             InRangeLength(o.files[idx], length, g.ClusterSize())
    ensures var ch := o.files[Find(Dir(v.data, o.root), name)];
            var k := ClustersFor(length, g.ClusterSize());
            var data := After(v, StepTruncate(g, v, o, name, length).trace).data;
            && k <= |ch| && Kept(ch, length, g.ClusterSize()) == ch[..k] && InRange(ch, |v.data|) && |data| == |v.data|
            && length <= |Flat(data, ch[..k])| && Flat(data, ch[..k]) <= Flat(v.data, ch)
  {
    var cs, idx := g.ClusterSize(), Find(Dir(v.data, o.root), name);
    var ch, k := o.files[idx], ClustersFor(length, cs);
    var data := After(v, StepTruncate(g, v, o, name, length).trace).data;
    TruncateTrace(g, v, o, name, length);
    TruncateInRange(g, v, o, name, length);
    InRangeClusters(ch, length, cs);
    FirstClusters(v.data, data, ch, k, cs);
  }

  /** The first k clusters hold the first bytes. */
  lemma FirstClusters(data: Data, data': Data, ch: Chain, k: nat, cs: nat)
    requires InRange(ch, |data|) && k <= |ch| && |data'| == |data| && Uniform(data, cs)
    requires forall c :: c in ch ==> data'[c] == data[c]
    ensures |Flat(data', ch[..k])| == Span(k, cs) && Flat(data', ch[..k]) <= Flat(data, ch)
  {
    assert forall c :: c in ch[..k] ==> c in ch;
    FlatFrame(data, data', ch[..k]);
    FlatPrefix(data, ch, k);
    FlatBlocks(data, ch[..k], cs);
  }

  // ---------------------------------------------------------------- names

  lemma DeleteOnlySlot(g: Geometry, v: Vol, o: Owner, name: CString)
    requires g.Ok() && SafeWith(g, v, o) && StepDelete(g, v, o, name).trace != []
    ensures var idx := Find(Dir(v.data, o.root), name);
            OnlySlot(g, v, o, After(v, StepDelete(g, v, o, name).trace), o.(files := o.files[idx := []]),
                     idx, Deleted(Dir(v.data, o.root)[idx]), [])
  {
    var dir := Dir(v.data, o.root);
    var idx := Find(dir, name);
    DeleteSafe(g, v, o, name);
    DeleteLeavesOthers(g, v, o, name);
    LeftAlone(g, v, o, idx, StepDelete(g, v, o, name).trace);
    var mem := Relink(v.fat, o.files[idx], [], END_OF_CHAIN);
    RelinkKeepsOthers(v.fat, mem, o.files[idx], [], END_OF_CHAIN, o.root);
    AfterCommit(g, v, mem, o, idx, Deleted(dir[idx]));
  }

  lemma EntryOnlySlot(g: Geometry, v: Vol, o: Owner, idx: nat, e: Entry)
    requires g.Ok() && SafeWith(g, v, o) && idx < |o.files| && FileOk(v.fat, e, o.files[idx])
    ensures OnlySlot(g, v, o, After(v, Commit(g, v, v.fat, o, idx, e).trace), o, idx, e, o.files[idx])
  {
    EntryChangeSafe(g, v, o, idx, e);
    EntryLeavesOthers(g, v, o, idx, e);
    AfterCommit(g, v, v.fat, o, idx, e);
    LeftAlone(g, v, o, idx, Commit(g, v, v.fat, o, idx, e).trace);
    assert o.files[idx := o.files[idx]] == o.files;
  }

  lemma CreateOnlySlot(g: Geometry, v: Vol, o: Owner, name: CString, isDir: bool)
    requires g.Ok() && SafeWith(g, v, o) && StepCreate(g, v, o, name, isDir).trace != []
    ensures var dir := Dir(v.data, o.root);
            var slot := FreeSlot(dir);
            && slot < |dir| && o.files[slot] == []
            && OnlySlot(g, v, o, After(v, StepCreate(g, v, o, name, isDir).trace), o,
                        slot, Fresh(dir[slot], name, isDir), [])
  {
    var dir := Dir(v.data, o.root);
    var slot := FreeSlot(dir);
    assert FileOk(v.fat, dir[slot], o.files[slot]);
    FieldsOfFresh(dir[slot], name, isDir);
    EntryOnlySlot(g, v, o, slot, Fresh(dir[slot], name, isDir));
  }

  lemma RenameOnlySlot(g: Geometry, v: Vol, o: Owner, oldName: CString, newName: CString)
    requires g.Ok() && SafeWith(g, v, o) && StepRename(g, v, o, oldName, newName).trace != []
    ensures var idx := Find(Dir(v.data, o.root), oldName);
            && idx < |o.files|
            && OnlySlot(g, v, o, After(v, StepRename(g, v, o, oldName, newName).trace), o,
                        idx, WithName(Dir(v.data, o.root)[idx], newName), o.files[idx])
  {
    var dir := Dir(v.data, o.root);
    var idx := Find(dir, oldName);
    assert FileOk(v.fat, dir[idx], o.files[idx]);
    FieldsOfName(dir[idx], newName);
    EntryOnlySlot(g, v, o, idx, WithName(dir[idx], newName));
  }

  /**
   * Renaming keeps names well formed and unique exactly when no other live entry holds
   * the new name: the code itself does not look.
   */
  lemma RenameNamesIff(g: Geometry, v: Vol, o: Owner, oldName: CString, newName: CString)
    requires g.Ok() && SafeWith(g, v, o) && NamesOk(Dir(v.data, o.root))
    requires StepRename(g, v, o, oldName, newName).trace != []
    ensures var dir := Dir(v.data, o.root);
            NamesOk(Dir(After(v, StepRename(g, v, o, oldName, newName).trace).data, o.root))
            <==> Unused(dir, Find(dir, oldName), Pack(newName))
  {
    var dir := Dir(v.data, o.root);
    var idx := Find(dir, oldName);
    RenameOnlySlot(g, v, o, oldName, newName);
    FieldsOfName(dir[idx], newName);
    NamesOkIffUnused(dir, idx, WithName(dir[idx], newName), newName);
  }

  /**
   * Creating keeps names unique exactly when the packed name is unused, which for a
   * dotted name the lookup has just established.
   */
  lemma CreateNamesIff(g: Geometry, v: Vol, o: Owner, name: CString, isDir: bool)
    requires g.Ok() && SafeWith(g, v, o) && NamesOk(Dir(v.data, o.root))
    requires StepCreate(g, v, o, name, isDir).trace != []
    ensures var dir := Dir(v.data, o.root);
            NamesOk(Dir(After(v, StepCreate(g, v, o, name, isDir).trace).data, o.root))
            <==> Unused(dir, FreeSlot(dir), Pack(name))
    ensures DOT in name ==> NamesOk(Dir(After(v, StepCreate(g, v, o, name, isDir).trace).data, o.root))
  {
    var dir := Dir(v.data, o.root);
    var slot := FreeSlot(dir);
    CreateOnlySlot(g, v, o, name, isDir);
    FieldsOfFresh(dir[slot], name, isDir);
    NamesOkIffUnused(dir, slot, Fresh(dir[slot], name, isDir), name);
    DottedHasDotOnce(name);
    if DOT in name {
      NotFoundIsUnused(dir, slot, name);
    }
  }

  // ---------------------------------------------------------------- delete; create; write

  /** After deleting a dotted name, it is not found. */
  lemma DeletedNotFound(g: Geometry, v: Vol, o: Owner, name: CString)
    requires g.Ok() && SafeWith(g, v, o) && NamesOk(Dir(v.data, o.root)) && IsDotted(name)
    requires !StepDelete(g, v, o, name).halted
    ensures var dir, v1 := Dir(v.data, o.root), After(v, StepDelete(g, v, o, name).trace);
            var o1 := if Find(dir, name) == |dir| then o else o.(files := o.files[Find(dir, name) := []]);
            && SafeWith(g, v1, o1)
            && NamesOk(Dir(v1.data, o.root))
            && Find(Dir(v1.data, o.root), name) == |dir|
            && forall other: CString :: other != name ==> Peek(v1, o1, other) == Peek(v, o, other)
  {
    var dir := Dir(v.data, o.root);
    var idx := Find(dir, name);
    if idx < |dir| {
      StrayOfDelete(g, v, o, name);
      DeleteOnlySlot(g, v, o, name);
      var v1, o1 := After(v, StepDelete(g, v, o, name).trace), o.(files := o.files[idx := []]);
      NamesOkKept(dir, idx, Deleted(dir[idx]));
      GoneAfterDelete(dir, name);
      forall other: CString | other != name
        ensures Peek(v1, o1, other) == Peek(v, o, other)
      {
        OthersReadSame(g, v, o, v1, o1, idx, Deleted(dir[idx]), [], other);
      }
    }
  }

  lemma StrayOfDelete(g: Geometry, v: Vol, o: Owner, name: CString)
    requires g.Ok() && SafeWith(g, v, o) && IsValid(name)
    requires !StepDelete(g, v, o, name).halted && Find(Dir(v.data, o.root), name) < |Dir(v.data, o.root)|
    ensures StepDelete(g, v, o, name).trace != []
  {
    var dir := Dir(v.data, o.root);
    var idx := Find(dir, name);
    var mem := Relink(v.fat, o.files[idx], [], END_OF_CHAIN);
    RelinkKeepsOthers(v.fat, mem, o.files[idx], [], END_OF_CHAIN, o.root);
    AfterCommit(g, v, mem, o, idx, Deleted(dir[idx]));
  }

  lemma GoneAfterDelete(dir: seq<Entry>, name: CString)
    requires NamesOk(dir) && IsDotted(name) && Find(dir, name) < |dir|
    ensures var idx := Find(dir, name);
            Find(dir[idx := Deleted(dir[idx])], name) == |dir|
  {
    var idx := Find(dir, name);
    var dir' := dir[idx := Deleted(dir[idx])];
    NamesOkKept(dir, idx, Deleted(dir[idx]));
    FindExact(dir, name);
    FindExact(dir', name);
    assert forall i :: 0 <= i < |dir| && i != idx ==> dir'[i] == dir[i];
  }

  /** After creating a dotted name, it is found in the slot that was free. */
  lemma CreatedFound(g: Geometry, v: Vol, o: Owner, name: CString)
    requires g.Ok() && SafeWith(g, v, o) && NamesOk(Dir(v.data, o.root)) && IsDotted(name)
    requires Find(Dir(v.data, o.root), name) == |Dir(v.data, o.root)|
    requires !StepCreate(g, v, o, name, false).halted
    ensures StepCreate(g, v, o, name, false).ret == 1
    ensures var dir, v1 := Dir(v.data, o.root), After(v, StepCreate(g, v, o, name, false).trace);
            && SafeWith(g, v1, o)
            && NamesOk(Dir(v1.data, o.root))
            && Find(Dir(v1.data, o.root), name) == FreeSlot(dir) < |dir| && o.files[FreeSlot(dir)] == []
            && forall other: CString :: other != name ==> Peek(v1, o, other) == Peek(v, o, other)
  {
    var dir := Dir(v.data, o.root);
    var slot := FreeSlot(dir);
    var e := Fresh(dir[slot], name, false);
    var v1 := After(v, StepCreate(g, v, o, name, false).trace);
    AfterCommit(g, v, v.fat, o, slot, e);
    CreateOnlySlot(g, v, o, name, false);
    DottedHasDotOnce(name);
    CreateNamesIff(g, v, o, name, false);
    FieldsOfFresh(dir[slot], name, false);
    DottedRoundTrip(name);
    FindExact(Dir(v1.data, o.root), name);
    forall other: CString | other != name
      ensures Peek(v1, o, other) == Peek(v, o, other)
    {
      OthersReadSame(g, v, o, v1, o, slot, e, [], other);
    }
  }

  /**
   * The client's run delete; create; write: when none of the three panics, create and
   * write succeed, the name then reads as the n bytes written, and every other name
   * finds what it found before the run.
   */
  lemma DeleteCreateWrite(g: Geometry, v: Vol, o: Owner, name: CString, mem: seq<byte>, n: u32,
                          v1: Vol, o1: Owner, v2: Vol)
    requires g.Ok() && SafeWith(g, v, o) && NamesOk(Dir(v.data, o.root)) && IsDotted(name)
    requires CommandOk(g, Write(name, mem, n)) && n > 0
    requires !StepDelete(g, v, o, name).halted
    requires v1 == After(v, StepDelete(g, v, o, name).trace) && SafeWith(g, v1, o1)
    requires !StepCreate(g, v1, o1, name, false).halted
    requires v2 == After(v1, StepCreate(g, v1, o1, name, false).trace) && SafeWith(g, v2, o1)
    requires !StepWrite(g, v2, o1, name, mem, n).halted
    ensures StepCreate(g, v1, o1, name, false).ret == 1
    ensures StepWrite(g, v2, o1, name, mem, n).ret == 1
    ensures var v3 := After(v2, StepWrite(g, v2, o1, name, mem, n).trace);
            Safe(g, v3) &&
            var o3 := OwnerOf(g, v3);
            && Reads(Peek(v3, o3, name), mem, n)
            && forall other: CString :: other != name ==> Peek(v3, o3, other) == Peek(v, o, other)
  {
    DeletedNotFound(g, v, o, name);
    var dir := Dir(v.data, o.root);
    OwnerUnique(g, v1, o1, if Find(dir, name) == |dir| then o else o.(files := o.files[Find(dir, name) := []]));
    CreatedFound(g, v1, o1, name);
    WriteFoundTraces(g, v2, o1, name, mem, n);
    WriteThenRead(g, v2, o1, name, mem, n);
  }

  lemma WriteFoundTraces(g: Geometry, v: Vol, o: Owner, name: CString, mem: seq<byte>, n: u32)
    requires g.Ok() && SafeWith(g, v, o) && CommandOk(g, Write(name, mem, n)) && n > 0
    requires !StepWrite(g, v, o, name, mem, n).halted && Find(Dir(v.data, o.root), name) < |Dir(v.data, o.root)|
    ensures StepWrite(g, v, o, name, mem, n).trace != [] && StepWrite(g, v, o, name, mem, n).ret == 1
  {
    WriteDataSafe(g, v, o, Find(Dir(v.data, o.root), name), mem, n);
  }

  /** The same run, as commands on mounted volumes. */
  lemma DeleteCreateWriteRun(g: Geometry, v: Vol, v1: Vol, v2: Vol, v3: Vol, name: CString, mem: seq<byte>, n: u32)
    requires Mounted(g, v) && NamesOk(Dir(v.data, OwnerOf(g, v).root)) && IsDotted(name)
    requires CommandOk(g, Write(name, mem, n)) && n > 0
    requires !Step(g, v, Delete(name)).halted && v1 == After(v, Step(g, v, Delete(name)).trace)
    requires Mounted(g, v1)
    requires !Step(g, v1, Create(name, false)).halted && v2 == After(v1, Step(g, v1, Create(name, false)).trace)
    requires Mounted(g, v2)
    requires !Step(g, v2, Write(name, mem, n)).halted && v3 == After(v2, Step(g, v2, Write(name, mem, n)).trace)
    ensures Step(g, v1, Create(name, false)).ret == 1 && Step(g, v2, Write(name, mem, n)).ret == 1
    ensures Safe(g, v3)
    ensures Reads(Peek(v3, OwnerOf(g, v3), name), mem, n)
    ensures forall other: CString :: other != name ==>
              Peek(v3, OwnerOf(g, v3), other) == Peek(v, OwnerOf(g, v), other)
  {
    var o, o1 := OwnerOf(g, v), OwnerOf(g, v1);
    assert Step(g, v, Delete(name)) == StepDelete(g, v, o, name);
    assert Step(g, v1, Create(name, false)) == StepCreate(g, v1, o1, name, false);
    CreateSafe(g, v1, o1, name, false);
    OwnerUnique(g, v2, o1, OwnerOf(g, v2));
    assert Step(g, v2, Write(name, mem, n)) == StepWrite(g, v2, o1, name, mem, n);
    DeleteCreateWrite(g, v, o, name, mem, n, v1, o1, v2);
  }
}
