/**
 * Real inputs. Starting from a formatted card these commands run, write, and end where the properties about
 * them say: among others in the states in which the code does less than it promises.
 */
module Witnesses {
  import opened Bytes
  import opened Names
  import opened Layout
  import opened Chains
  import opened Dirents
  import opened Volume
  import opened Operations
  import opened CrashSafety
  import opened Runs
  import opened UniqueNames
  import opened Conservation
  import opened Truncation
  import opened RoundTrip
  import opened EndMarks
  import opened Formatted
  import opened Torn

  // ---------------------------------------------------------------- commands that succeed

  /** A clean volume whose root directory can be read: its chain ends with the mark of a chain write. */
  ghost predicate Usable(g: Geometry, v: Vol, o: Owner)
  {
    && Clean(g, v, o) && NamesOk(Dir(v.data, o.root))
    && v.fat[o.root[|o.root| - 1]] == END_OF_CHAIN && g.OnCard(g.Lba(END_OF_CHAIN))
  }

  lemma UsableReads(g: Geometry, v: Vol, o: Owner)
    requires Usable(g, v, o)
    ensures Mounted(g, v) && StrayReadOk(g, v.fat, o.root)
  {
  }

  /** Flushing a root chain that already has its mark changes nothing. */
  lemma SelfRelink(fat: Fat, fat': Fat, root: Chain)
    requires IsChain(fat, root) && fat[root[|root| - 1]] == END_OF_CHAIN
    requires IsRelink(fat, fat', root, root, END_OF_CHAIN)
    ensures fat' == fat
  {
    RelinkUnique(fat, fat', fat, root, root, END_OF_CHAIN);
  }

  /** Creating a dotted name that is not there, with a slot left, succeeds and writes. */
  lemma CreateMakes(g: Geometry, v: Vol, o: Owner, name: CString) returns (v1: Vol)
    requires Usable(g, v, o) && IsDotted(name)
    requires Find(Dir(v.data, o.root), name) == |Dir(v.data, o.root)| > FreeSlot(Dir(v.data, o.root))
    ensures var out := StepCreate(g, v, o, name, false);
            !out.halted && out.ret == 1 && out.trace != [] && v1 == After(v, out.trace)
    ensures Usable(g, v1, o) && v1.fat == v.fat
    ensures var dir, slot := Dir(v.data, o.root), FreeSlot(Dir(v.data, o.root));
            && Dir(v1.data, o.root) == dir[slot := Fresh(dir[slot], name, false)]
            && Find(Dir(v1.data, o.root), name) == slot && o.files[slot] == []
    ensures forall other: CString :: other != name ==> Peek(v1, o, other) == Peek(v, o, other)
  {
    var dir := Dir(v.data, o.root);
    var slot := FreeSlot(dir);
    UsableReads(g, v, o);
    v1 := After(v, StepCreate(g, v, o, name, false).trace);
    CleanCreate(g, v, o, name, false);
    CreatedFound(g, v, o, name);
    AfterCommit(g, v, v.fat, o, slot, Fresh(dir[slot], name, false));
    SelfRelink(v.fat, v1.fat, o.root);
  }

  /** Writing one byte to a file without a cluster takes the first free one. */
  lemma WriteMakes(g: Geometry, v: Vol, o: Owner, name: CString, mem: seq<byte>, c: nat) returns (v2: Vol, o2: Owner)
    requires Usable(g, v, o) && CommandOk(g, Write(name, mem, 1))
    requires Find(Dir(v.data, o.root), name) < |o.files| && o.files[Find(Dir(v.data, o.root), name)] == []
    requires FreeFrom(v.fat, ScanStart(3)) != [] && FreeFrom(v.fat, ScanStart(3))[0] == c
    ensures var out := StepWrite(g, v, o, name, mem, 1);
            !out.halted && out.ret == 1 && out.trace != [] && v2 == After(v, out.trace)
    ensures o2 == o.(files := o.files[Find(Dir(v.data, o.root), name) := [c]])
    ensures Usable(g, v2, o2)
    ensures Find(Dir(v2.data, o.root), name) == Find(Dir(v.data, o.root), name)
    ensures c < |v.fat| && v2.fat == v.fat[c := END_OF_CHAIN]
  {
    var dir := Dir(v.data, o.root);
    var idx := Find(dir, name);
    UsableReads(g, v, o);
    var w := OneClusterWritten(g, v, o, idx, mem, c);
    WriteFoundTraces(g, v, o, name, mem, 1);
    v2, o2 := After(v, StepWrite(g, v, o, name, mem, 1).trace), o.(files := o.files[idx := [c]]);
    CleanWrite(g, v, o, name, mem, 1);
    WriteCommitSafe(g, v, o, idx, mem, 1);
    WrittenName(v, o, idx, 1);
    WrittenMatches(v, o, idx, 1, name);
    FindSame(dir, name, WrittenEntry(v, o, idx, 1));
    WriteDataSafe(g, v, o, idx, mem, 1);
    FreeNotInChain(v.fat, o.root, c);
    WrittenFat(g, v, o, idx, w, WrittenEntry(v, o, idx, 1));
  }

  lemma FreeNotInChain(fat: Fat, ch: Chain, c: nat)
    requires IsChain(fat, ch) && |fat| <= 0x0FFF_FFF0 && c < |fat| && TypeOf(fat[c]) == Free
    ensures c !in ch
  {
    ChainInUse(fat, ch);
  }

  lemma OneClusterWritten(g: Geometry, v: Vol, o: Owner, idx: nat, mem: seq<byte>, c: nat) returns (w: Written)
    requires Usable(g, v, o) && idx < |o.files| && o.files[idx] == []
    requires Span(ClustersFor(1, g.ClusterSize()), g.ClusterSize()) <= |mem|
    requires FreeFrom(v.fat, ScanStart(3)) != [] && FreeFrom(v.fat, ScanStart(3))[0] == c
    ensures StartChain(v, o, idx) == [c] && w == WriteData(g, v, o, idx, mem, 1)
    ensures w.done && w.chain == [c] && 3 <= c < |v.fat| && w.fat == v.fat[c := END_OF_CHAIN]
    ensures TypeOf(v.fat[c]) == Free
  {
    FreeFromIsFreeList(v.fat, ScanStart(3));
    w := WriteData(g, v, o, idx, mem, 1);
    assert ClustersFor(1, g.ClusterSize()) == 1;
    assert Pool(StartFat(v, o, idx), [c])[..1] == [c];
    WrittenChain(g, v, o, idx, mem, 1);
    assert w.fat[w.chain[0]] == END_OF_CHAIN;
  }

  /** The directory write that ends the file write leaves that FAT. */
  lemma WrittenFat(g: Geometry, v: Vol, o: Owner, idx: nat, w: Written, e: Entry)
    requires g.Ok() && idx < |o.files| && w.trace != [] && After(v, w.trace).fat == w.fat
    requires SafeWith(g, After(v, w.trace), OwnerAfterData(o, idx, w.chain))
    requires w.fat[o.root[|o.root| - 1]] == END_OF_CHAIN
    ensures var v1, o1 := After(v, w.trace), OwnerAfterData(o, idx, w.chain);
            After(v, w.trace + Commit(g, v1, w.fat, o1, idx, e).trace).fat == w.fat
  {
    var v1, o1 := After(v, w.trace), OwnerAfterData(o, idx, w.chain);
    FinishFree(g, v, o, idx, w, e);
    AfterCommit(g, v1, w.fat, o1, idx, e);
    SelfRelink(w.fat, After(v1, Commit(g, v1, w.fat, o1, idx, e).trace).fat, o.root);
  }

  // ---------------------------------------------------------------- a first file

  /** TXT names, and one without an extension. */
  const A: CString := [65, DOT, 84, 88, 84]
  const B: CString := [66, DOT, 84, 88, 84]
  const BARE: CString := [65]

  lemma NamesAreValid()
    ensures IsDotted(A) && IsDotted(B) && IsDotless(BARE) && A != B
  {
  }

  /** Nothing is found on a formatted card, and the first slot is free. */
  lemma BlankIsUsable(g: Geometry, first: nat, name: CString)
    requires g.Ok() && g.OnCard(g.Lba(END_OF_CHAIN))
    ensures var dir := Dir(Blank(g, first).data, [g.root]);
            && Usable(g, Blank(g, first), BlankOwner(g)) && BlankOwner(g).root == [g.root]
            && |dir| >= 16 && Find(dir, name) == |dir| && FreeSlot(dir) == 0
  {
    BlankIsClean(g, first);
    BlankDir(g, first);
    var dir := Dir(Blank(g, first).data, [g.root]);
    FindIs(dir, name, |dir|);
    FreeSlotIs(dir, 0);
  }

  /** The first cluster that is not bad is the first that a search finds. */
  lemma {:induction false} BlankSearch(g: Geometry, first: nat, i: nat)
    requires g.Ok() && 3 <= i <= first < g.End() && first != g.root
    ensures FreeFrom(Blank(g, first).fat, i) != [] && FreeFrom(Blank(g, first).fat, i)[0] == first
    decreases first - i
  {
    if i < first {
      BlankSearch(g, first, i + 1);
    }
  }

  /**
   * v is what a formatted card holds after creating a file, which leaves v1, and writing one byte to it. The
   * file then owns cluster `first`.
   */
  ghost predicate IsFirstFile(g: Geometry, first: nat, mem: seq<byte>, v1: Vol, v: Vol, o: Owner)
  {
    && g.Ok() && CommandOk(g, Write(A, mem, 1))
    && SafeWith(g, Blank(g, first), BlankOwner(g)) && SafeWith(g, v1, BlankOwner(g))
    && v1 == After(Blank(g, first), StepCreate(g, Blank(g, first), BlankOwner(g), A, false).trace)
    && v == After(v1, StepWrite(g, v1, BlankOwner(g), A, mem, 1).trace)
    && Usable(g, v, o) && Find(Dir(v.data, o.root), A) == 0 < |o.files| && o.files[0] == [first]
    && v.fat == Blank(g, first).fat[first := END_OF_CHAIN]
  }

  /** Neither command panics, and both write. */
  lemma FirstFile(g: Geometry, first: nat, mem: seq<byte>) returns (v1: Vol, v: Vol, o: Owner)
    requires g.Ok() && g.OnCard(g.Lba(END_OF_CHAIN)) && 3 <= first < g.End() && first != g.root
    requires CommandOk(g, Write(A, mem, 1))
    ensures IsFirstFile(g, first, mem, v1, v, o)
    ensures var create := StepCreate(g, Blank(g, first), BlankOwner(g), A, false);
            !create.halted && create.trace != []
    ensures var write := StepWrite(g, v1, BlankOwner(g), A, mem, 1);
            !write.halted && write.trace != []
  {
    NamesAreValid();
    BlankIsUsable(g, first, A);
    v1 := CreateMakes(g, Blank(g, first), BlankOwner(g), A);
    BlankSearch(g, first, 3);
    v, o := WriteMakes(g, v1, BlankOwner(g), A, mem, first);
  }

  /** On a card of 100 clusters the mark of a chain write maps to the card, that of a truncation does not. */
  lemma HundredMarks()
    ensures HUNDRED.Ok() && HUNDRED.OnCard(HUNDRED.Lba(END_OF_CHAIN)) && !HUNDRED.OnCard(HUNDRED.Lba(LAST_CLUSTER))
  {
    HundredIsOk();
    EndMarkOnCardIff(HUNDRED, 1, 4);
    EndMarkOnCardIff(HUNDRED, 8, 4);
  }

  /** Such a file can be read: name, size, bytes. */
  lemma FirstFileReads(g: Geometry, first: nat, mem: seq<byte>, v1: Vol, v: Vol, o: Owner)
    requires IsFirstFile(g, first, mem, v1, v, o)
    ensures ReadReturns(g, v, o, A)
  {
    assert FileOk(v.fat, Dir(v.data, o.root)[0], o.files[0]);
  }

  // ---------------------------------------------------------------- truncating

  /** Truncating the first file writes. */
  lemma TruncateWrites(g: Geometry, v: Vol, o: Owner, length: u32)
    requires Usable(g, v, o) && Find(Dir(v.data, o.root), A) == 0 < |o.files| && o.files[0] != []
    ensures StepTruncate(g, v, o, A, length).trace != []
  {
    UsableReads(g, v, o);
    if StepTruncate(g, v, o, A, length).trace == [] {
      NoTraceNoChain(g, v, o, A, length);
    }
  }

  /** Cut to nothing, the first file leaves an unsafe state on the card. */
  lemma TruncatedToNothing(mem: seq<byte>) returns (v1: Vol, v: Vol, o: Owner)
    requires HUNDRED.Ok() && CommandOk(HUNDRED, Write(A, mem, 1))
    ensures IsFirstFile(HUNDRED, 3, mem, v1, v, o)
    ensures var trace := StepTruncate(HUNDRED, v, o, A, 0).trace;
            trace != [] && exists i :: 0 <= i < |trace| && !Safe(HUNDRED, trace[i])
  {
    HundredMarks();
    HundredIsOk();
    v1, v, o := FirstFile(HUNDRED, 3, mem);
    TruncateWrites(HUNDRED, v, o, 0);
    TruncateSafeIff(HUNDRED, v, o, A, 0);
  }

  /** Truncated to more than its cluster holds, it leaves a size that its chain does not fit. */
  lemma TruncatedBeyond(mem: seq<byte>, length: u32) returns (v1: Vol, v: Vol, o: Owner)
    requires HUNDRED.Ok() && CommandOk(HUNDRED, Write(A, mem, 1)) && length > HUNDRED.ClusterSize()
    ensures IsFirstFile(HUNDRED, 3, mem, v1, v, o)
    ensures StepTruncate(HUNDRED, v, o, A, length).trace != []
    ensures forall o' :: !Clean(HUNDRED, After(v, StepTruncate(HUNDRED, v, o, A, length).trace), o')
  {
    HundredMarks();
    HundredIsOk();
    v1, v, o := FirstFile(HUNDRED, 3, mem);
    TruncateWrites(HUNDRED, v, o, length);
    assert Span(1, HUNDRED.ClusterSize()) == Span(0, HUNDRED.ClusterSize()) + HUNDRED.ClusterSize();
    TruncateCleanIff(HUNDRED, v, o, A, length);
  }

  /** Truncated to the byte it has, the file can no longer be read. */
  lemma TruncatedUnreadable(mem: seq<byte>) returns (v1: Vol, v: Vol, o: Owner)
    requires HUNDRED.Ok() && CommandOk(HUNDRED, Write(A, mem, 1))
    ensures IsFirstFile(HUNDRED, 3, mem, v1, v, o) && ReadReturns(HUNDRED, v, o, A)
    ensures var after := After(v, StepTruncate(HUNDRED, v, o, A, 1).trace);
            Clean(HUNDRED, after, o) && !ReadReturns(HUNDRED, after, o, A)
  {
    HundredMarks();
    HundredIsOk();
    v1, v, o := FirstFile(HUNDRED, 3, mem);
    FirstFileReads(HUNDRED, 3, mem, v1, v, o);
    TruncateWrites(HUNDRED, v, o, 1);
    OneByteKeepsAll(HUNDRED, o, HUNDRED.ClusterSize());
    TruncateClean(HUNDRED, v, o, A, 1);
    TruncateThenRead(HUNDRED, v, o, A, 1);
  }

  lemma OneByteKeepsAll(g: Geometry, o: Owner, cs: nat)
    requires 1 <= cs && 0 < |o.files| && |o.files[0]| == 1
    ensures InRangeLength(o.files[0], 1, cs) && o.(files := o.files[0 := Kept(o.files[0], 1, cs)]) == o
  {
    assert ClustersFor(1, cs) == 1 && Span(1, cs) == Span(0, cs) + cs;
    assert o.files[0][..1] == o.files[0];
  }

  // ---------------------------------------------------------------- power loss within a flush

  /** A card of 200 clusters, whose FAT has two sectors. */
  const TWO_HUNDRED := Geometry(200, 2, 64, 2, 204 + 200 * 64)

  lemma TwoHundredIsOk()
    ensures TWO_HUNDRED.Ok() && TWO_HUNDRED.End() == 202 && TWO_HUNDRED.OnCard(TWO_HUNDRED.Lba(END_OF_CHAIN))
  {
    PlaceIsProduct(TWO_HUNDRED, 202);
    PlaceIsProduct(TWO_HUNDRED, 256);
    EndIs(TWO_HUNDRED, 202);
    EndMarkOnCardIff(TWO_HUNDRED, 1, 4);
  }

  /** Clusters 3 to 126 are bad; the first file has cluster 127 and grows to two clusters. */
  lemma GrowthIsTorn(mem: seq<byte>, n: u32) returns (v1: Vol, v: Vol, o: Owner)
    requires TWO_HUNDRED.Ok() && CommandOk(TWO_HUNDRED, Write(A, mem, 1)) && CommandOk(TWO_HUNDRED, Write(A, mem, n))
    requires ClustersFor(n, TWO_HUNDRED.ClusterSize()) == 2
    ensures IsFirstFile(TWO_HUNDRED, 127, mem, v1, v, o)
    ensures !TearSafe(TWO_HUNDRED, v, StepWrite(TWO_HUNDRED, v, o, A, mem, n).trace)
  {
    TwoHundredIsOk();
    v1, v, o := FirstFile(TWO_HUNDRED, 127, mem);
    UsableReads(TWO_HUNDRED, v, o);
    GrowthAcrossSectors(TWO_HUNDRED, v, o, A, mem, n);
  }

  // ---------------------------------------------------------------- names

  /** The names of the directory are no longer well formed and unique. */
  ghost predicate HasClash(v: Vol, root: Chain)
  {
    InRange(root, |v.data|) && !NamesOk(Dir(v.data, root))
  }

  /** Renaming a file onto the name of another is done, and two live entries then share that name. */
  lemma RenamedOntoLive(g: Geometry, v: Vol, o: Owner, name: CString, taken: CString)
    requires Usable(g, v, o) && IsDotted(name) && IsDotted(taken) && name != taken
    requires Find(Dir(v.data, o.root), name) < |o.files| && Find(Dir(v.data, o.root), taken) < |o.files|
    ensures var out := StepRename(g, v, o, name, taken);
            out.trace != [] && out.ret == 1 && HasClash(After(v, out.trace), o.root)
  {
    var dir := Dir(v.data, o.root);
    var idx := Find(dir, name);
    UsableReads(g, v, o);
    AfterCommit(g, v, v.fat, o, idx, WithName(dir[idx], taken));
    RenameNamesIff(g, v, o, name, taken);
    FindExact(dir, taken);
    assert Matches(dir[idx], name) && Matches(dir[Find(dir, taken)], taken);
  }

  /** v1 and v2 are what a formatted card holds after creating a file, and then a second one. */
  ghost predicate IsTwoFiles(g: Geometry, name: CString, other: CString, v1: Vol, v2: Vol)
  {
    && g.Ok() && Usable(g, Blank(g, 3), BlankOwner(g)) && Usable(g, v1, BlankOwner(g))
    && v1 == After(Blank(g, 3), StepCreate(g, Blank(g, 3), BlankOwner(g), name, false).trace)
    && v2 == After(v1, StepCreate(g, v1, BlankOwner(g), other, false).trace)
  }

  /** Both names are found. */
  ghost predicate BothFound(v: Vol, o: Owner, name: CString, other: CString)
  {
    && InRange(o.root, |v.data|)
    && Find(Dir(v.data, o.root), name) < |o.files| && Find(Dir(v.data, o.root), other) < |o.files|
  }

  /** Two files on a formatted card. */
  lemma TwoFiles(g: Geometry) returns (v1: Vol, v2: Vol)
    requires g.Ok() && g.OnCard(g.Lba(END_OF_CHAIN))
    ensures IsTwoFiles(g, A, B, v1, v2) && Usable(g, v2, BlankOwner(g)) && BothFound(v2, BlankOwner(g), A, B)
  {
    var o := BlankOwner(g);
    NamesAreValid();
    BlankIsUsable(g, 3, A);
    BlankDir(g, 3);
    v1 := CreateMakes(g, Blank(g, 3), o, A);
    SecondSlot(Dir(Blank(g, 3).data, [g.root]), A, B);
    v2 := CreateMakes(g, v1, o, B);
    assert Peek(v2, o, A) == Peek(v1, o, A);
  }

  /** Two files on a formatted card, and the one renamed to the other. */
  lemma RenameClash(g: Geometry) returns (v1: Vol, v2: Vol)
    requires g.Ok() && g.OnCard(g.Lba(END_OF_CHAIN))
    ensures IsTwoFiles(g, A, B, v1, v2) && Usable(g, v2, BlankOwner(g))
    ensures HasClash(After(v2, StepRename(g, v2, BlankOwner(g), A, B).trace), BlankOwner(g).root)
  {
    v1, v2 := TwoFiles(g);
    NamesAreValid();
    RenamedOntoLive(g, v2, BlankOwner(g), A, B);
  }


  /** Creating a name without an extension that is there already is done again. */
  lemma CreatedAgain(g: Geometry, v: Vol, o: Owner, name: CString, j: nat)
    requires Usable(g, v, o) && IsDotless(name) && FreeSlot(Dir(v.data, o.root)) < |Dir(v.data, o.root)|
    requires j < |Dir(v.data, o.root)| && Live(Dir(v.data, o.root)[j]) && Raw(Dir(v.data, o.root)[j]) == Pack(name)
    ensures var out := StepCreate(g, v, o, name, false);
            out.trace != [] && out.ret == 1 && HasClash(After(v, out.trace), o.root)
  {
    var dir := Dir(v.data, o.root);
    UsableReads(g, v, o);
    DotlessNeverFound(dir, name);
    AfterCommit(g, v, v.fat, o, FreeSlot(dir), Fresh(dir[FreeSlot(dir)], name, false));
    CreateNamesIff(g, v, o, name, false);
  }

  /** A name without an extension on a formatted card. */
  lemma BareMakes(g: Geometry) returns (v1: Vol)
    requires g.Ok() && g.OnCard(g.Lba(END_OF_CHAIN))
    ensures Usable(g, Blank(g, 3), BlankOwner(g)) && Usable(g, v1, BlankOwner(g))
    ensures v1 == After(Blank(g, 3), StepCreate(g, Blank(g, 3), BlankOwner(g), BARE, false).trace)
    ensures var dir := Dir(Blank(g, 3).data, [g.root]);
            |dir| >= 16 && Dir(v1.data, [g.root]) == dir[0 := Fresh(dir[0], BARE, false)]
  {
    var v, o := Blank(g, 3), BlankOwner(g);
    var dir := Dir(v.data, [g.root]);
    NamesAreValid();
    BlankIsUsable(g, 3, BARE);
    BlankDir(g, 3);
    UsableReads(g, v, o);
    v1 := After(v, StepCreate(g, v, o, BARE, false).trace);
    AfterCommit(g, v, v.fat, o, 0, Fresh(dir[0], BARE, false));
    SelfRelink(v.fat, v1.fat, o.root);
    CleanCreate(g, v, o, BARE, false);
    CreateNamesIff(g, v, o, BARE, false);
  }

  /** Its entry is live in the first slot, and the second is free. */
  lemma BareIsThere(was: seq<Entry>, dir: seq<Entry>)
    requires |was| >= 2 && (forall i :: 0 <= i < |was| ==> IsFree(was[i])) && IsValid(BARE)
    requires dir == was[0 := Fresh(was[0], BARE, false)]
    ensures Live(dir[0]) && Raw(dir[0]) == Pack(BARE) && FreeSlot(dir) == 1
  {
    FieldsOfFresh(was[0], BARE, false);
    FreeSlotIs(dir, 1);
  }

  /** A name without an extension, created twice on a formatted card. */
  lemma CreateClash(g: Geometry) returns (v1: Vol, v2: Vol)
    requires g.Ok() && g.OnCard(g.Lba(END_OF_CHAIN))
    ensures IsTwoFiles(g, BARE, BARE, v1, v2) && HasClash(v2, BlankOwner(g).root)
  {
    v1 := BareMakes(g);
    v2 := After(v1, StepCreate(g, v1, BlankOwner(g), BARE, false).trace);
    NamesAreValid();
    BlankDir(g, 3);
    BareIsThere(Dir(Blank(g, 3).data, [g.root]), Dir(v1.data, [g.root]));
    CreatedAgain(g, v1, BlankOwner(g), BARE, 0);
  }

  /** After a file was created in the first slot of an empty directory, the second is the next free one. */
  lemma SecondSlot(dir: seq<Entry>, name: CString, other: CString)
    requires |dir| >= 2 && (forall i :: 0 <= i < |dir| ==> IsFree(dir[i]) && !Live(dir[i]))
    requires IsDotted(name) && name != other
    ensures var after := dir[0 := Fresh(dir[0], name, false)];
            FreeSlot(after) == 1 && Find(after, other) == |after|
  {
    var after := dir[0 := Fresh(dir[0], name, false)];
    FieldsOfFresh(dir[0], name, false);
    DottedRoundTrip(name);
    FreeSlotIs(after, 1);
    FindIs(after, other, |after|);
  }
}
