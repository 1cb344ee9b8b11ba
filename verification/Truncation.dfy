/** fat32_truncate: exactly when it keeps a clean volume clean, and what it keeps then. */
module Truncation {
  import opened Bytes
  import opened Layout
  import opened Chains
  import opened Dirents
  import opened Volume
  import opened Operations
  import opened CrashSafety
  import opened Runs
  import opened Conservation

  /** A length that the file's chain can hold and that leaves it a cluster. */
  predicate InRangeLength(ch: Chain, length: nat, cs: nat)
  {
    1 <= length <= Span(|ch|, cs)
  }

  lemma InRangeClusters(ch: Chain, length: nat, cs: nat)
    requires cs > 0 && InRangeLength(ch, length, cs)
    ensures var k := ClustersFor(length, cs);
            1 <= k <= |ch| && Kept(ch, length, cs) == ch[..k] && length <= Span(k, cs)
  {
    var k := ClustersFor(length, cs);
    ClustersForSpan(length, cs);
    if k > |ch| {
      SpanMonotone(|ch|, k - 1, cs);
    }
  }

  lemma TruncatedAccounted(fat: Fat, ch: Chain, length: nat, cs: nat)
    requires cs > 0 && 0 < |fat| <= 0x0FFF_FFF0 && IsChain(fat, ch) && InRangeLength(ch, length, cs)
    ensures Accounted(fat, ch, Truncated(fat, ch, length, cs), Kept(ch, length, cs))
  {
    InRangeClusters(ch, length, cs);
    RelinkAccounted(fat, fat, Truncated(fat, ch, length, cs), ch, ch, Kept(ch, length, cs), LAST_CLUSTER);
  }

  /** The FAT entries are of the types that writing that many bytes to the chain would leave. */
  lemma TruncateTypes(fat: Fat, ch: Chain, length: nat, cs: nat)
    requires cs > 0 && 0 < |fat| <= 0x0FFF_FFF0 && IsChain(fat, ch) && InRangeLength(ch, length, cs)
    ensures ClustersFor(length, cs) <= |ch|
    ensures var written := Relink(fat, ch, ch[..ClustersFor(length, cs)], END_OF_CHAIN);
            forall c :: 0 <= c < |fat| ==> TypeOf(Truncated(fat, ch, length, cs)[c]) == TypeOf(written[c])
  {
    InRangeClusters(ch, length, cs);
    var kept := ch[..ClustersFor(length, cs)];
    var a, b := Truncated(fat, ch, length, cs), Relink(fat, ch, kept, END_OF_CHAIN);
    forall c | 0 <= c < |fat|
      ensures TypeOf(a[c]) == TypeOf(b[c])
    {
      if c in kept {
        var i :| 0 <= i < |kept| && kept[i] == c;
        if i < |kept| - 1 {
          assert a[kept[i]] == kept[i + 1] == b[kept[i]];
        }
      }
    }
  }

  lemma TruncateTrace(g: Geometry, v: Vol, o: Owner, name: CString, length: u32)
    requires g.Ok() && SafeWith(g, v, o) && StepTruncate(g, v, o, name, length).trace != []
    ensures var dir := Dir(v.data, o.root);
            var idx := Find(dir, name);
            && idx < |dir| && Live(dir[idx])
            && (o.files[idx] != [] ==> IsChain(v.fat, o.files[idx]))
            && var mem := Truncated(v.fat, o.files[idx], length, g.ClusterSize());
            && IsChain(mem, o.root)
            && StepTruncate(g, v, o, name, length).trace == Commit(g, v, mem, o, idx, WithSize(dir[idx], length)).trace
  {
    var dir := Dir(v.data, o.root);
    var idx := Find(dir, name);
    assert FileOk(v.fat, dir[idx], o.files[idx]);
    TruncatedKeeps(v.fat, o.files[idx], length, g.ClusterSize(), o.root);
  }

  lemma TruncatedFits(fat: Fat, ch: Chain, length: nat, cs: nat)
    requires cs > 0 && 0 < |fat| <= 0x0FFF_FFF0 && IsChain(fat, ch) && InRangeLength(ch, length, cs) && MediaEntry(fat)
    ensures Accounted(fat, ch, Truncated(fat, ch, length, cs), Kept(ch, length, cs))
    ensures MediaEntry(Truncated(fat, ch, length, cs))
    ensures length <= Span(|Kept(ch, length, cs)|, cs)
  {
    InRangeClusters(ch, length, cs);
    TruncatedAccounted(fat, ch, length, cs);
    TruncatedMedia(fat, ch, length, cs);
  }

  lemma SizeFits(e: Entry, n: u32, bound: nat)
    requires n <= bound
    ensures Size(WithSize(e, n)) <= bound
  {
    FieldsOfSize(e, n);
  }

  lemma TruncateClean(g: Geometry, v: Vol, o: Owner, name: CString, length: u32)
    requires Clean(g, v, o) && StepTruncate(g, v, o, name, length).trace != []
    requires var idx := Find(Dir(v.data, o.root), name);
             InRangeLength(o.files[idx], length, g.ClusterSize())
    ensures var idx := Find(Dir(v.data, o.root), name);
            Clean(g, After(v, StepTruncate(g, v, o, name, length).trace),
                  o.(files := o.files[idx := Kept(o.files[idx], length, g.ClusterSize())]))
  {
    TruncateTrace(g, v, o, name, length);
    TruncateSafe(g, v, o, name, length);
    var cs, idx := g.ClusterSize(), Find(Dir(v.data, o.root), name);
    var old_ := Dir(v.data, o.root)[idx];
    TruncatedFits(v.fat, o.files[idx], length, cs);
    SizeFits(old_, length, Span(|Kept(o.files[idx], length, cs)|, cs));
    CleanAfterCommit(g, v, o, idx, v, Truncated(v.fat, o.files[idx], length, cs), o, WithSize(old_, length),
                     Kept(o.files[idx], length, cs));
  }

  /** In range, the volume stays clean, and the file keeps exactly the clusters its bytes need. */
  lemma TruncateInRange(g: Geometry, v: Vol, o: Owner, name: CString, length: u32)
    requires Clean(g, v, o) && StepTruncate(g, v, o, name, length).trace != []
    requires var idx := Find(Dir(v.data, o.root), name);
             InRangeLength(o.files[idx], length, g.ClusterSize())
    ensures var cs := g.ClusterSize();
            var after := After(v, StepTruncate(g, v, o, name, length).trace);
            var idx := Find(Dir(v.data, o.root), name);
            var ch, k := o.files[idx], ClustersFor(length, cs);
            && k <= |ch|
            && Clean(g, after, o.(files := o.files[idx := ch[..k]]))
            && (forall c :: c in ch[k..] ==> c < |after.fat| && after.fat[c] == FREE_CLUSTER)
            && (forall c :: c in ch ==> c < |after.data| == |v.data| && after.data[c] == v.data[c])
            && Dir(after.data, o.root) == Dir(v.data, o.root)[idx := WithSize(Dir(v.data, o.root)[idx], length)]
  {
    TruncateTrace(g, v, o, name, length);
    var cs, idx := g.ClusterSize(), Find(Dir(v.data, o.root), name);
    InRangeClusters(o.files[idx], length, cs);
    TruncateClean(g, v, o, name, length);
    TruncatedRest(g, v, o, idx, length, Truncated(v.fat, o.files[idx], length, cs));
  }

  lemma TruncatedRest(g: Geometry, v: Vol, o: Owner, idx: nat, length: u32, mem: Fat)
    requires g.Ok() && SafeWith(g, v, o) && idx < |o.files| && IsChain(v.fat, o.files[idx])
    requires InRangeLength(o.files[idx], length, g.ClusterSize())
    requires mem == Truncated(v.fat, o.files[idx], length, g.ClusterSize()) && IsChain(mem, o.root)
    ensures ClustersFor(length, g.ClusterSize()) <= |o.files[idx]|
    ensures var e := WithSize(Dir(v.data, o.root)[idx], length);
            var after := After(v, Commit(g, v, mem, o, idx, e).trace);
            var ch := o.files[idx];
            && (forall c :: c in ch[ClustersFor(length, g.ClusterSize())..] ==>
                  c < |after.fat| && after.fat[c] == FREE_CLUSTER)
            && (forall c :: c in ch ==> c < |after.data| == |v.data| && after.data[c] == v.data[c])
            && Dir(after.data, o.root) == Dir(v.data, o.root)[idx := e]
  {
    var cs, e := g.ClusterSize(), WithSize(Dir(v.data, o.root)[idx], length);
    InRangeClusters(o.files[idx], length, cs);
    AfterCommit(g, v, mem, o, idx, e);
    TailFreed(v.fat, o.files[idx], length, cs, After(v, Commit(g, v, mem, o, idx, e).trace).fat, o.root);
  }

  lemma TailFreed(fat: Fat, ch: Chain, length: nat, cs: nat, fat': Fat, root: Chain)
    requires cs > 0 && 0 < |fat| <= 0x0FFF_FFF0 && IsChain(fat, ch) && InRangeLength(ch, length, cs)
    requires InRange(root, |fat|) && Disjoint(root, ch)
    requires IsRelink(Truncated(fat, ch, length, cs), fat', root, root, END_OF_CHAIN)
    ensures ClustersFor(length, cs) <= |ch|
    ensures forall c :: c in ch[ClustersFor(length, cs)..] ==> c < |fat'| && fat'[c] == FREE_CLUSTER
  {
    InRangeClusters(ch, length, cs);
    var k := ClustersFor(length, cs);
    forall c | c in ch[k..]
      ensures c < |fat'| && fat'[c] == FREE_CLUSTER
    {
      var i :| 0 <= i < |ch[k..]| && ch[k..][i] == c;
      assert ch[k + i] == c;
      forall j | 0 <= j < k
        ensures ch[j] != c
      {
        assert j != k + i;
      }
      assert c in ch && c !in root;
    }
  }

  /** Out of range the volume has no clean owner afterwards. */
  lemma TruncateOutOfRange(g: Geometry, v: Vol, o: Owner, name: CString, length: u32, o': Owner)
    requires Clean(g, v, o) && StepTruncate(g, v, o, name, length).trace != []
    requires var idx := Find(Dir(v.data, o.root), name);
             !InRangeLength(o.files[idx], length, g.ClusterSize())
    ensures !Clean(g, After(v, StepTruncate(g, v, o, name, length).trace), o')
  {
    TruncateTrace(g, v, o, name, length);
    var cs, idx := g.ClusterSize(), Find(Dir(v.data, o.root), name);
    TruncatedNotClean(g, v, o, idx, length, Truncated(v.fat, o.files[idx], length, cs), o');
  }

  lemma TruncatedNotClean(g: Geometry, v: Vol, o: Owner, idx: nat, length: u32, mem: Fat, o': Owner)
    requires g.Ok() && SafeWith(g, v, o) && idx < |o.files| && (o.files[idx] != [] ==> IsChain(v.fat, o.files[idx]))
    requires !InRangeLength(o.files[idx], length, g.ClusterSize()) && Live(Dir(v.data, o.root)[idx])
    requires mem == Truncated(v.fat, o.files[idx], length, g.ClusterSize()) && IsChain(mem, o.root)
    ensures !Clean(g, After(v, Commit(g, v, mem, o, idx, WithSize(Dir(v.data, o.root)[idx], length)).trace), o')
  {
    var old_ := Dir(v.data, o.root)[idx];
    var e := WithSize(old_, length);
    var after := After(v, Commit(g, v, mem, o, idx, e).trace);
    AfterCommit(g, v, mem, o, idx, e);
    FieldsOfSize(old_, length);
    assert FileOk(v.fat, old_, o.files[idx]);
    if Clean(g, after, o') {
      SameRoot(g, mem, o.root, after, o');
      assert FileOk(after.fat, e, o'.files[idx]);
      OutOfRangeContradiction(v.fat, o.files[idx], length, g.ClusterSize(), o.root, after.fat, old_, e, o'.files[idx]);
      assert false;
    }
  }

  lemma SameRoot(g: Geometry, mem: Fat, root: Chain, after: Vol, o': Owner)
    requires g.Ok() && SafeWith(g, after, o') && |mem| == |after.fat|
    requires IsChain(mem, root) && root[0] == g.root && IsRelink(mem, after.fat, root, root, END_OF_CHAIN)
    ensures o'.root == root
  {
    RelinkMakesChain(mem, after.fat, root, root, END_OF_CHAIN);
    ChainUnique(after.fat, root, o'.root);
  }

  /** The three ways to fail: the media entry, the start cluster, the size. */
  lemma OutOfRangeContradiction(fat: Fat, ch: Chain, length: u32, cs: nat, root: Chain, fat': Fat,
                                old_: Entry, e: Entry, new_: Chain)
    requires cs > 0 && 0 < |fat| <= 0x0FFF_FFF0 && FileOk(fat, old_, ch) && Live(old_) && Live(e)
    requires Start(e) == Start(old_) && Size(e) == length
    requires IsChain(fat, root) && Disjoint(root, ch)
    requires ch != [] ==> IsChain(fat, ch)
    requires !InRangeLength(ch, length, cs)
    requires IsRelink(Truncated(fat, ch, length, cs), fat', root, root, END_OF_CHAIN)
    requires FileOk(fat', e, new_)
    ensures !MediaEntry(fat') || Size(e) > Span(|new_|, cs)
  {
    assert 0 !in root;
    if length == 0 {
      if ch != [] {
        assert ch[0] in ch && ch[0] !in root;
        assert fat'[ch[0]] == FREE_CLUSTER;
        FirstLink(fat', new_);
      }
    } else {
      ClustersForSpan(length, cs);
      if ch != [] {
        var k := ClustersFor(length, cs);
        if k <= |ch| {
          SpanMonotone(k, |ch|, cs);
        }
        UnchangedChain(fat, fat', root, ch);
        ChainUnique(fat', ch, new_);
      }
    }
  }

  lemma UnchangedChain(fat: Fat, fat': Fat, root: Chain, ch: Chain)
    requires IsChain(fat, ch) && InRange(root, |fat|) && IsRelink(fat, fat', root, root, END_OF_CHAIN)
    requires Disjoint(root, ch) && |fat| <= 0x0FFF_FFF0
    ensures IsChain(fat', ch)
  {
    ChainFrame(fat, fat', ch);
  }

  /**
   * Truncating keeps a clean volume clean if and only if the new length is at least 1
   * and at most what the file's chain holds.
   */
  lemma TruncateCleanIff(g: Geometry, v: Vol, o: Owner, name: CString, length: u32)
    requires Clean(g, v, o) && StepTruncate(g, v, o, name, length).trace != []
    ensures var idx := Find(Dir(v.data, o.root), name);
            (exists o' :: Clean(g, After(v, StepTruncate(g, v, o, name, length).trace), o'))
            <==> InRangeLength(o.files[idx], length, g.ClusterSize())
  {
    var idx := Find(Dir(v.data, o.root), name);
    if InRangeLength(o.files[idx], length, g.ClusterSize()) {
      TruncateClean(g, v, o, name, length);
    } else {
      forall o'
        ensures !Clean(g, After(v, StepTruncate(g, v, o, name, length).trace), o')
      {
        TruncateOutOfRange(g, v, o, name, length, o');
      }
    }
  }

  /**
   * Truncating is crash safe if and only if it is not to nothing, or the file has no
   * cluster: otherwise the flushed FAT frees the cluster that the entry starts at.
   */
  lemma TruncateSafeIff(g: Geometry, v: Vol, o: Owner, name: CString, length: u32)
    requires g.Ok() && SafeWith(g, v, o) && MediaEntry(v.fat) && StepTruncate(g, v, o, name, length).trace != []
    ensures var idx := Find(Dir(v.data, o.root), name);
            var trace := StepTruncate(g, v, o, name, length).trace;
            (forall i :: 0 <= i < |trace| ==> Safe(g, trace[i])) <==> length > 0 || o.files[idx] == []
  {
    TruncateTrace(g, v, o, name, length);
    if length > 0 || o.files[Find(Dir(v.data, o.root), name)] == [] {
      TruncateSafe(g, v, o, name, length);
    } else {
      TruncateUnsafe(g, v, o, name, length);
    }
  }

  lemma TruncateUnsafe(g: Geometry, v: Vol, o: Owner, name: CString, length: u32)
    requires g.Ok() && SafeWith(g, v, o) && MediaEntry(v.fat) && StepTruncate(g, v, o, name, length).trace != []
    requires length == 0 && Find(Dir(v.data, o.root), name) < |o.files|
    requires o.files[Find(Dir(v.data, o.root), name)] != []
    ensures var trace := StepTruncate(g, v, o, name, length).trace;
            !Safe(g, trace[|trace| - 1])
  {
    TruncateTrace(g, v, o, name, length);
    var idx := Find(Dir(v.data, o.root), name);
    var old_ := Dir(v.data, o.root)[idx];
    FieldsOfSize(old_, length);
    TruncateToNothing(g, v, o, idx, Truncated(v.fat, o.files[idx], length, g.ClusterSize()), WithSize(old_, length));
  }

  lemma TruncateToNothing(g: Geometry, v: Vol, o: Owner, idx: nat, mem: Fat, e: Entry)
    requires g.Ok() && SafeWith(g, v, o) && idx < |o.files| && IsChain(v.fat, o.files[idx])
    requires var old_ := Dir(v.data, o.root)[idx];
             Live(old_) && Live(e) && Start(e) == Start(old_)
    requires mem == Truncated(v.fat, o.files[idx], 0, g.ClusterSize()) && IsChain(mem, o.root)
    ensures var trace := Commit(g, v, mem, o, idx, e).trace;
            trace != [] && !Safe(g, trace[|trace| - 1])
  {
    AfterCommit(g, v, mem, o, idx, e);
    var after := After(v, Commit(g, v, mem, o, idx, e).trace);
    forall o'
      ensures !SafeWith(g, after, o')
    {
      StartFreed(g, v, o, idx, mem, e, after, o');
    }
  }

  lemma StartFreed(g: Geometry, v: Vol, o: Owner, idx: nat, mem: Fat, e: Entry, after: Vol, o': Owner)
    requires g.Ok() && SafeWith(g, v, o) && idx < |o.files| && IsChain(v.fat, o.files[idx])
    requires var old_ := Dir(v.data, o.root)[idx];
             Live(old_) && Live(e) && Start(e) == Start(old_)
    requires mem == Truncated(v.fat, o.files[idx], 0, g.ClusterSize()) && IsChain(mem, o.root)
    requires |after.fat| == |mem| && IsRelink(mem, after.fat, o.root, o.root, END_OF_CHAIN)
    requires |after.data| == |v.data| && Dir(after.data, o.root) == Dir(v.data, o.root)[idx := e]
    ensures !SafeWith(g, after, o')
  {
    var old_, ch := Dir(v.data, o.root)[idx], o.files[idx];
    assert FileOk(v.fat, old_, ch);
    if SafeWith(g, after, o') {
      SameRoot(g, mem, o.root, after, o');
      NoChainFromFreed(v.fat, ch, 0, g.ClusterSize(), o.root, after.fat, old_, e, o'.files[idx]);
      assert false;
    }
  }

  lemma NoChainFromFreed(fat: Fat, ch: Chain, length: nat, cs: nat, root: Chain, fat': Fat,
                         old_: Entry, e: Entry, new_: Chain)
    requires cs > 0 && 0 < |fat| <= 0x0FFF_FFF0 && FileOk(fat, old_, ch) && Live(old_) && Live(e)
    requires Start(e) == Start(old_) && length == 0 && ch != []
    requires IsChain(fat, root) && Disjoint(root, ch)
    requires IsRelink(Truncated(fat, ch, length, cs), fat', root, root, END_OF_CHAIN)
    ensures !FileOk(fat', e, new_)
  {
    assert ch[0] in ch && ch[0] !in root;
    if IsChain(fat', new_) {
      FirstLink(fat', new_);
    }
  }

  // ---------------------------------------------------------------- whole runs

  /** Truncations of a run that stay in range when they come to be executed. */
  ghost predicate InRangeCommand(g: Geometry, v: Vol, cmd: Command)
    requires Mounted(g, v)
  {
    cmd.Truncate? ==>
      var o := OwnerOf(g, v);
      var dir := Dir(v.data, o.root);
      var idx := Find(dir, cmd.name);
      idx < |dir| ==> InRangeLength(o.files[idx], cmd.length, g.ClusterSize())
  }

  ghost predicate IsClean(g: Geometry, v: Vol)
  {
    exists o :: Clean(g, v, o)
  }

  /** One command, whether it completes or panics. */
  lemma StepClean(g: Geometry, v: Vol, cmd: Command)
    requires IsClean(g, v) && Mounted(g, v) && CommandOk(g, cmd) && InRangeCommand(g, v, cmd)
    ensures IsClean(g, After(v, Step(g, v, cmd).trace))
  {
    OwnerIsClean(g, v, OwnerOf(g, v));
    StepAtClean(g, v, OwnerOf(g, v), cmd);
  }

  lemma StepAtClean(g: Geometry, v: Vol, o: Owner, cmd: Command)
    requires Clean(g, v, o) && CommandOk(g, cmd)
    requires cmd.Truncate? ==>
               var idx := Find(Dir(v.data, o.root), cmd.name);
               idx < |o.files| ==> InRangeLength(o.files[idx], cmd.length, g.ClusterSize())
    ensures IsClean(g, After(v, StepAt(g, v, o, cmd).trace))
  {
    if cmd.Truncate? {
      TruncateAtIsClean(g, v, o, cmd);
    } else if cmd.Write? {
      WriteAtIsClean(g, v, o, cmd);
    } else {
      EntryIsClean(g, v, o, cmd);
    }
  }

  lemma TruncateAtIsClean(g: Geometry, v: Vol, o: Owner, cmd: Command)
    requires Clean(g, v, o) && cmd.Truncate?
    requires var idx := Find(Dir(v.data, o.root), cmd.name);
             idx < |o.files| ==> InRangeLength(o.files[idx], cmd.length, g.ClusterSize())
    ensures IsClean(g, After(v, StepAt(g, v, o, cmd).trace))
  {
    var out := StepTruncate(g, v, o, cmd.name, cmd.length);
    assert StepAt(g, v, o, cmd) == out;
    TruncateIsClean(g, v, o, cmd.name, cmd.length);
  }

  lemma WriteAtIsClean(g: Geometry, v: Vol, o: Owner, cmd: Command)
    requires Clean(g, v, o) && cmd.Write? && CommandOk(g, cmd)
    ensures IsClean(g, After(v, StepAt(g, v, o, cmd).trace))
  {
    WriteIsClean(g, v, o, cmd.name, cmd.mem, cmd.n);
  }

  /** The commands that only write the directory. */
  lemma EntryIsClean(g: Geometry, v: Vol, o: Owner, cmd: Command)
    requires Clean(g, v, o) && !cmd.Write? && !cmd.Truncate?
    ensures IsClean(g, After(v, StepAt(g, v, o, cmd).trace))
  {
    match cmd
    case Create(name, isDir) => CreateIsClean(g, v, o, name, isDir);
    case Delete(name) => DeleteIsClean(g, v, o, name);
    case Rename(oldName, newName) => RenameIsClean(g, v, o, oldName, newName);
  }

  lemma OwnerIsClean(g: Geometry, v: Vol, o: Owner)
    requires IsClean(g, v) && SafeWith(g, v, o)
    ensures Clean(g, v, o)
  {
    var c :| Clean(g, v, c);
    OwnerUnique(g, v, c, o);
  }

  lemma CreateIsClean(g: Geometry, v: Vol, o: Owner, name: CString, isDir: bool)
    requires Clean(g, v, o)
    ensures IsClean(g, After(v, StepCreate(g, v, o, name, isDir).trace))
  {
    CleanCreate(g, v, o, name, isDir);
  }

  lemma RenameIsClean(g: Geometry, v: Vol, o: Owner, oldName: CString, newName: CString)
    requires Clean(g, v, o)
    ensures IsClean(g, After(v, StepRename(g, v, o, oldName, newName).trace))
  {
    CleanRename(g, v, o, oldName, newName);
  }

  lemma DeleteIsClean(g: Geometry, v: Vol, o: Owner, name: CString)
    requires Clean(g, v, o)
    ensures IsClean(g, After(v, StepDelete(g, v, o, name).trace))
  {
    CleanDelete(g, v, o, name);
  }

  lemma WriteIsClean(g: Geometry, v: Vol, o: Owner, name: CString, mem: seq<byte>, n: u32)
    requires Clean(g, v, o) && CommandOk(g, Write(name, mem, n))
    ensures IsClean(g, After(v, StepWrite(g, v, o, name, mem, n).trace))
  {
    if !StepWrite(g, v, o, name, mem, n).halted {
      CleanWrite(g, v, o, name, mem, n);
    } else if StepWrite(g, v, o, name, mem, n).trace != [] {
      CleanPanic(g, v, o, Find(Dir(v.data, o.root), name), mem, n);
    }
  }

  lemma TruncateIsClean(g: Geometry, v: Vol, o: Owner, name: CString, length: u32)
    requires Clean(g, v, o)
    requires var idx := Find(Dir(v.data, o.root), name);
             idx < |o.files| ==> InRangeLength(o.files[idx], length, g.ClusterSize())
    ensures IsClean(g, After(v, StepTruncate(g, v, o, name, length).trace))
  {
    if StepTruncate(g, v, o, name, length).trace != [] {
      TruncateClean(g, v, o, name, length);
    }
  }

  /** A run none of whose commands truncates out of range. */
  ghost predicate InRangeRun(g: Geometry, v: Vol, cmds: seq<Command>)
    requires Mounted(g, v) && AllAdmissible(g, cmds)
    decreases |cmds|
  {
    cmds == [] || (
      assert Admissible(g, cmds[0]);
      StepSafe(g, v, cmds[0]);
      && InRangeCommand(g, v, cmds[0])
      && (Step(g, v, cmds[0]).halted || InRangeRun(g, After(v, Step(g, v, cmds[0]).trace), cmds[1..])))
  }

  /** The first command of such a run, and what is left. */
  lemma InRangeStep(g: Geometry, v: Vol, cmds: seq<Command>, out: Outcome, next: Vol)
    requires Mounted(g, v) && AllAdmissible(g, cmds) && cmds != [] && InRangeRun(g, v, cmds)
    requires out == Step(g, v, cmds[0]) && next == After(v, out.trace)
    ensures Admissible(g, cmds[0]) && InRangeCommand(g, v, cmds[0])
    ensures Mounted(g, next) && AllAdmissible(g, cmds[1..])
    ensures out.halted || InRangeRun(g, next, cmds[1..])
  {
    assert Admissible(g, cmds[0]);
    StepSafe(g, v, cmds[0]);
  }

  lemma RunStep(g: Geometry, v: Vol, cmds: seq<Command>, out: Outcome, next: Vol)
    requires Mounted(g, v) && AllAdmissible(g, cmds) && cmds != []
    requires out == Step(g, v, cmds[0]) && next == After(v, out.trace)
    requires Mounted(g, next) && AllAdmissible(g, cmds[1..])
    ensures After(v, Run(g, v, cmds)) == if out.halted then next else After(next, Run(g, next, cmds[1..]))
  {
    var rest := Run(g, next, cmds[1..]);
    assert Run(g, v, cmds) == if out.halted then out.trace else out.trace + rest;
  }

  /** Exact ownership over whole runs: no run leaks or shares a cluster, whichever command panics. */
  lemma {:induction false} RunClean(g: Geometry, v: Vol, cmds: seq<Command>)
    requires IsClean(g, v) && Mounted(g, v) && AllAdmissible(g, cmds) && InRangeRun(g, v, cmds)
    ensures IsClean(g, After(v, Run(g, v, cmds)))
    decreases |cmds|
  {
    if cmds != [] {
      var out := Step(g, v, cmds[0]);
      var next := After(v, out.trace);
      InRangeStep(g, v, cmds, out, next);
      StepClean(g, v, cmds[0]);
      RunStep(g, v, cmds, out, next);
      if !out.halted {
        RunClean(g, next, cmds[1..]);
      }
    }
  }
}
