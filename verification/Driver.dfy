/**
 * The driver itself: loops over the FAT in memory and over buffers, and card transfers.
 * Every operation is proved to pass through the device states of its specification.
 */
module Driver {
  import opened Wrappers
  import opened Bytes
  import opened Names
  import opened Layout
  import opened Chains
  import opened Dirents
  import opened Volume
  import opened Operations
  import opened CrashSafety
  import opened Runs
  import opened RoundTrip
  import opened Card

  // ---------------------------------------------------------------- free cluster search

  /** After its first element, a search's list is the search from there on. */
  lemma {:induction false} FreeFromRest(fat: Fat, i: nat)
    requires FreeFrom(fat, i) != []
    ensures FreeFrom(fat, i)[1..] == FreeFrom(fat, FreeFrom(fat, i)[0] + 1)
    decreases |fat| - i
  {
    if TypeOf(fat[i]) != Free {
      FreeFromRest(fat, i + 1);
    }
  }

  lemma {:induction false} FreeFromAt(fat: Fat, i: nat, k: nat)
    requires k < |FreeFrom(fat, i)|
    ensures FreeFrom(fat, i)[k + 1..] == FreeFrom(fat, FreeFrom(fat, i)[k] + 1)
    decreases k
  {
    FreeFromRest(fat, i);
    if k > 0 {
      var f := FreeFrom(fat, i);
      FreeFromAt(fat, f[0] + 1, k - 1);
      assert f[1..][k..] == f[k + 1..];
    }
  }

  // ---------------------------------------------------------------- relinking step by step

  /** The FAT in memory while the writing loop stands at cluster number j of its pool. */
  ghost predicate Progress(mem: Fat, fat: Fat, ch: Chain, pool: Chain, j: nat)
    requires InRange(pool, |mem|) && j < |pool|
  {
    if j < |ch| then fat == mem else IsRelink(mem, fat, ch, pool[..j + 1], END_OF_CHAIN)
  }

  /** The entry of the current cluster: the next one of the old chain, or an end mark. */
  lemma ProgressEntry(mem: Fat, fat: Fat, ch: Chain, pool: Chain, j: nat)
    requires IsChain(mem, ch) && |mem| <= 0x0FFF_FFF0 && ch <= pool && InRange(pool, |mem|) && j < |pool|
    requires Progress(mem, fat, ch, pool, j)
    ensures |fat| == |mem|
    ensures j < |ch| - 1 ==> fat[pool[j]] == ch[j + 1] && TypeOf(fat[pool[j]]) == Used
    ensures j >= |ch| - 1 ==> TypeOf(fat[pool[j]]) == Last
  {
    if j < |ch| {
      LinkType(mem, ch, j);
    } else {
      assert pool[..j + 1][|pool[..j + 1]| - 1] == pool[j];
    }
  }

  /** Appending the next free cluster. */
  lemma ProgressExtend(mem: Fat, fat: Fat, ch: Chain, pool: Chain, j: nat, fat': Fat)
    requires IsChain(mem, ch) && |mem| <= 0x0FFF_FFF0 && ch <= pool && InRange(pool, |mem|) && NoDup(pool)
    requires |ch| - 1 <= j < |pool| - 1 && Progress(mem, fat, ch, pool, j)
    requires |fat| == |mem| && fat' == fat[pool[j] := pool[j + 1]][pool[j + 1] := END_OF_CHAIN]
    ensures Progress(mem, fat', ch, pool, j + 1)
  {
    var new_ := pool[..j + 2];
    forall i | 0 <= i < |new_| - 1
      ensures fat'[new_[i]] == new_[i + 1]
    {
      if i < j {
        if j == |ch| - 1 {
          LinkType(mem, ch, i);
        } else {
          assert pool[..j + 1][i] == pool[i] && pool[..j + 1][i + 1] == pool[i + 1];
        }
      }
    }
    forall c | 0 <= c < |fat| && c !in new_
      ensures fat'[c] == if c in ch then FREE_CLUSTER else mem[c]
    {
      assert c !in pool[..j + 1] by {
        assert forall x :: x in pool[..j + 1] ==> x in new_;
      }
      assert new_[j] == pool[j] && new_[j + 1] == pool[j + 1];
    }
  }

  /** What the next search finds is the next cluster of the pool. */
  lemma ProgressSearch(mem: Fat, fat: Fat, ch: Chain, j: nat)
    requires IsChain(mem, ch) && |mem| <= 0x0FFF_FFF0
    requires InRange(Pool(mem, ch), |mem|) && |ch| - 1 <= j < |Pool(mem, ch)|
    requires Progress(mem, fat, ch, Pool(mem, ch), j)
    ensures FreeFrom(fat, ScanStart(Pool(mem, ch)[j])) == Pool(mem, ch)[j + 1..]
  {
    var pool := Pool(mem, ch);
    if j == |ch| - 1 {
      assert pool[j] == ch[j] && pool[|ch|..] == FreeFrom(mem, ScanStart(ch[|ch| - 1]));
    } else {
      SearchAgain(mem, fat, ch, pool, j, j - |ch|, pool[j]);
    }
  }

  /** The search after the k-th allocation starts at the cluster allocated, which is no longer free. */
  lemma SearchAgain(mem: Fat, fat: Fat, ch: Chain, pool: Chain, j: nat, k: nat, cur: u32)
    requires IsChain(mem, ch) && |mem| <= 0x0FFF_FFF0 && pool == Pool(mem, ch) && InRange(pool, |mem|)
    requires |ch| <= j < |pool| && k == j - |ch| && cur == pool[j] && Progress(mem, fat, ch, pool, j)
    ensures FreeFrom(fat, ScanStart(cur)) == pool[j + 1..]
  {
    RestOfPool(mem, ch, pool, j, k, cur);
    ProgressEntry(mem, fat, ch, pool, j);
    forall c | cur < c < |mem|
      ensures fat[c] == mem[c]
    {
      AboveCurrent(mem, fat, ch, pool, j, c);
    }
    FreeFromFrame(mem, fat, cur + 1);
  }

  /** What the pool holds behind a free cluster is what a search from there on finds. */
  lemma RestOfPool(mem: Fat, ch: Chain, pool: Chain, j: nat, k: nat, cur: u32)
    requires |ch| > 0 && pool == Pool(mem, ch) && |ch| <= j < |pool| && k == j - |ch| && cur == pool[j]
    ensures 3 <= cur && pool[j + 1..] == FreeFrom(mem, cur + 1)
  {
    var from := ScanStart(ch[|ch| - 1]);
    var free := FreeFrom(mem, from);
    FreeFromIsFreeList(mem, from);
    assert pool[|ch| + k] == free[k];
    FreeFromAt(mem, from, k);
    assert pool[j + 1..] == free[k + 1..];
  }

  /** Above the cluster allocated last the FAT is as it was. */
  lemma AboveCurrent(mem: Fat, fat: Fat, ch: Chain, pool: Chain, j: nat, c: nat)
    requires IsChain(mem, ch) && |mem| <= 0x0FFF_FFF0 && pool == Pool(mem, ch) && InRange(pool, |mem|)
    requires |ch| <= j < |pool| && Progress(mem, fat, ch, pool, j) && pool[j] < c < |mem|
    ensures fat[c] == mem[c]
  {
    var free := FreeFrom(mem, ScanStart(ch[|ch| - 1]));
    FreeFromIsFreeList(mem, ScanStart(ch[|ch| - 1]));
    var new_ := pool[..j + 1];
    assert ch <= new_;
    assert forall i :: |ch| <= i <= j ==> pool[i] == free[i - |ch|];
    if c in new_ {
      var i :| 0 <= i < |new_| && new_[i] == c;
      assert i < |ch|;
      KeptLink(mem, fat, ch, new_, i);
    }
  }

  /** A link of the old chain that the new one goes on from. */
  lemma KeptLink(mem: Fat, fat: Fat, ch: Chain, new_: Chain, i: nat)
    requires IsChain(mem, ch) && |mem| <= 0x0FFF_FFF0 && InRange(new_, |mem|) && ch <= new_ && i < |ch|
    requires IsRelink(mem, fat, ch, new_, END_OF_CHAIN) && |ch| < |new_|
    ensures i < |ch| - 1 ==> fat[ch[i]] == mem[ch[i]]
  {
    LinkType(mem, ch, i);
    assert fat[new_[i]] == new_[i + 1];
  }

  /** The last data cluster lies inside the old chain: mark it and free the tail. */
  lemma FinishShrink(mem: Fat, marked: Fat, fat': Fat, ch: Chain, j: nat)
    requires IsChain(mem, ch) && |mem| <= 0x0FFF_FFF0 && j < |ch| - 1
    requires marked == mem[ch[j] := END_OF_CHAIN]
    requires IsRelink(marked, fat', ch[j + 1..], [], END_OF_CHAIN)
    ensures IsRelink(mem, fat', ch, ch[..j + 1], END_OF_CHAIN)
  {
    var new_, tail := ch[..j + 1], ch[j + 1..];
    SplitMembers(ch, j + 1, new_, tail);
    assert new_[j] == ch[j];
    forall i | 0 <= i < |new_| - 1
      ensures fat'[new_[i]] == new_[i + 1]
    {
      assert new_[i] == ch[i] && ch[i] in new_ && ch[i] != ch[j];
      LinkType(mem, ch, i);
    }
  }

  lemma SplitMembers(ch: Chain, k: nat, head: Chain, tail: Chain)
    requires k <= |ch| && head == ch[..k] && tail == ch[k..]
    ensures forall x :: x in ch <==> x in head || x in tail
    ensures NoDup(ch) ==> forall x :: x in head ==> x !in tail
  {
    assert ch == head + tail;
  }

  lemma TailInMarked(mem: Fat, marked: Fat, ch: Chain, j: nat)
    requires IsChain(mem, ch) && |mem| <= 0x0FFF_FFF0 && j < |ch| - 1
    requires marked == mem[ch[j] := END_OF_CHAIN]
    ensures IsChain(marked, ch[j + 1..])
  {
    var tail := ch[j + 1..];
    forall i | 0 <= i < |tail|
      ensures marked[tail[i]] == mem[ch[j + 1 + i]] && tail[i] == ch[j + 1 + i]
    {
    }
    forall i | 0 <= i < |tail| - 1
      ensures marked[tail[i]] == tail[i + 1]
    {
      LinkType(mem, ch, j + 1 + i);
    }
  }

  /** The last data cluster is the old chain's last, or an allocated one: mark it. */
  lemma FinishAtEnd(mem: Fat, fat: Fat, ch: Chain, pool: Chain, j: nat)
    requires IsChain(mem, ch) && |mem| <= 0x0FFF_FFF0 && ch <= pool && InRange(pool, |mem|) && NoDup(pool)
    requires |ch| - 1 <= j < |pool| && Progress(mem, fat, ch, pool, j) && |fat| == |mem|
    ensures IsRelink(mem, fat[pool[j] := END_OF_CHAIN], ch, pool[..j + 1], END_OF_CHAIN)
  {
    var new_ := pool[..j + 1];
    assert new_[j] == pool[j];
    if j == |ch| - 1 {
      assert new_ == ch;
      forall i | 0 <= i < |ch| - 1
        ensures mem[ch[i]] == ch[i + 1]
      {
        LinkType(mem, ch, i);
      }
    } else {
      assert fat[new_[|new_| - 1]] == END_OF_CHAIN;
      assert fat[pool[j] := END_OF_CHAIN] == fat;
    }
  }

  // ---------------------------------------------------------------- data of a growing pool

  lemma {:induction false} OverlayPrefix(data: Data, pool: Chain, m: nat, buf: seq<byte>, cs: nat, k: nat)
    requires InRange(pool, |data|) && k <= m <= |pool| && Span(k, cs) <= |buf|
    ensures Overlay(data, pool, buf, cs, k) == Overlay(data, pool[..m], buf, cs, k)
    decreases k
  {
    if k > 0 {
      SpanMonotone(k - 1, k, cs);
      OverlayPrefix(data, pool, m, buf, cs, k - 1);
    }
  }

  lemma {:induction false} DataWritesPrefix(v: Vol, pool: Chain, m: nat, buf: seq<byte>, cs: nat, k: nat)
    requires InRange(pool, |v.data|) && k <= m <= |pool| && Span(k, cs) <= |buf|
    ensures DataWrites(v, pool, buf, cs, k) == DataWrites(v, pool[..m], buf, cs, k)
    decreases k
  {
    if k > 0 {
      SpanMonotone(k - 1, k, cs);
      DataWritesPrefix(v, pool, m, buf, cs, k - 1);
      OverlayPrefix(v.data, pool, m, buf, cs, k);
    }
  }

  /** One more data write. */
  lemma DataStep(v: Vol, pool: Chain, buf: seq<byte>, cs: nat, j: nat, block: seq<byte>)
    requires InRange(pool, |v.data|) && 0 < j <= |pool| && Span(j, cs) <= |buf| && Span(j - 1, cs) <= |buf|
    requires block == buf[Span(j - 1, cs)..Span(j, cs)]
    ensures Overlay(v.data, pool, buf, cs, j) == Overlay(v.data, pool, buf, cs, j - 1)[pool[j - 1] := block]
    ensures DataWrites(v, pool, buf, cs, j)
            == DataWrites(v, pool, buf, cs, j - 1) + [Vol(v.fat, Overlay(v.data, pool, buf, cs, j))]
  {
  }

  /** A completed chain write, in terms of the pool. */
  lemma WriteChainDone(v: Vol, mem: Fat, ch: Chain, buf: seq<byte>, n: nat, cs: nat, fat': Fat)
    requires cs > 0 && |mem| == |v.fat| == |v.data| <= 0x0FFF_FFF0
    requires IsChain(mem, ch) && Span(ClustersFor(n, cs), cs) <= |buf|
    requires InRange(Pool(mem, ch), |mem|) && ClustersFor(n, cs) <= |Pool(mem, ch)|
    requires IsRelink(mem, fat', ch, Pool(mem, ch)[..ClustersFor(n, cs)], END_OF_CHAIN)
    ensures var w, k := WriteChain(v, mem, ch, buf, n, cs), ClustersFor(n, cs);
            var last := Vol(fat', Overlay(v.data, Pool(mem, ch), buf, cs, k));
            && w.done && w.fat == fat'
            && w.trace == DataWrites(v, Pool(mem, ch), buf, cs, k) + [last]
            && After(v, w.trace) == last
  {
    var k, pool := ClustersFor(n, cs), Pool(mem, ch);
    PoolProps(mem, ch);
    RelinkUnique(mem, fat', Relink(mem, ch, pool[..k], END_OF_CHAIN), ch, pool[..k], END_OF_CHAIN);
    OverlayPrefix(v.data, pool, k, buf, cs, k);
    DataWritesPrefix(v, pool, k, buf, cs, k);
  }

  /** A chain write that runs out of free clusters. */
  lemma WriteChainPanics(v: Vol, mem: Fat, ch: Chain, buf: seq<byte>, n: nat, cs: nat)
    requires cs > 0 && |mem| == |v.fat| == |v.data| <= 0x0FFF_FFF0
    requires IsChain(mem, ch) && Span(ClustersFor(n, cs), cs) <= |buf|
    requires InRange(Pool(mem, ch), |mem|) && |Pool(mem, ch)| < ClustersFor(n, cs)
    ensures var w, pool := WriteChain(v, mem, ch, buf, n, cs), Pool(mem, ch);
            && !w.done
            && Span(|pool|, cs) <= |buf|
            && w.trace == DataWrites(v, pool, buf, cs, |pool|)
            && After(v, w.trace) == Vol(v.fat, Overlay(v.data, pool, buf, cs, |pool|))
  {
    SpanMonotone(|Pool(mem, ch)|, ClustersFor(n, cs), cs);
  }

  /** After one more cluster, with k clusters needed in all. */
  lemma OneClusterLess(left: nat, left': nat, cs: nat, j: nat, k: nat, room: nat)
    requires cs > 0 && left > 0 && left' == (if left < cs then 0 else left - cs)
    requires ClustersFor(left, cs) == k - j + 1 && Span(k, cs) <= room
    ensures ClustersFor(left', cs) == k - j && (left' == 0 <==> j == k)
    ensures left' > 0 ==> Span(j, cs) + cs <= room
  {
    if left' > 0 {
      SpanMonotone(j, k, cs);
    }
  }

  class Fs {
    const g: Geometry
    const sd: SdCard
    const fat: array<u32>
    /** The FAT entries without a cluster, which no operation may change on the card. */
    ghost const spare: Fat

    ghost predicate Shape()
      reads sd
    {
      && g.Ok()
      && |sd.bytes| == SECTOR * g.sectors && Sized(g, sd.history)
      && fat.Length == g.EntryCount() >= g.End()
      && Spare(g, sd.bytes) == spare
    }

    /** The part of the FAT in memory that has clusters. */
    ghost function Mem(): (mem: Fat)
      requires Shape()
      reads sd, fat
      ensures |mem| == g.End()
    {
      fat[..g.End()]
    }

    /** The other part is the card's. */
    ghost predicate Tidy()
      reads sd, fat
    {
      Shape() && fat[g.End()..] == spare
    }

    ghost function Card(): (v: Vol)
      requires Shape()
      reads sd
      ensures WellFormed(g, v)
    {
      Abs(g, sd.bytes)
    }

    /** The volumes on the card after each write so far. */
    ghost function Trace(): seq<Vol>
      requires Shape()
      reads sd
    {
      Vols(g, sd.history)
    }

    /** Between operations: a mounted volume, and the FAT in memory is the one on the card. */
    ghost predicate Ready()
      reads sd, fat
    {
      Tidy() && Mounted(g, Card()) && Mem() == Card().fat
    }

    /** Between operations: the card holds the volume v, owned by o, and memory holds its FAT. */
    ghost predicate At(v: Vol, o: Owner)
      reads sd, fat
    {
      Tidy() && v == Card() && SafeWith(g, v, o) && Mem() == v.fat
    }

    /** fat32_mk: reads the first FAT copy. */
    constructor (g: Geometry, sd: SdCard)
      requires g.Ok() && |sd.bytes| == SECTOR * g.sectors && Sized(g, sd.history)
      requires Mounted(g, Abs(g, sd.bytes))
      ensures this.g == g && this.sd == sd && fresh(fat)
      ensures Ready()
    {
      this.g := g;
      this.sd := sd;
      this.spare := Spare(g, sd.bytes);
      PlacesDisjoint(g, 2, g.End());
      var words := DecodeFat(Get(sd.bytes, g.fatBegin, g.nsecFat));
      var table := new u32[|words|](i requires 0 <= i < |words| => words[i]);
      this.fat := table;
      new;
      assert fat[..] == words;
    }

    /**
     * Sends one cluster. False is a panic: of cluster_to_lba for a number below 2, or of pi_sd_write for a
     * cluster that is not on the card.
     */
    method WriteCluster(c: nat, block: seq<byte>) returns (ok: bool)
      requires Shape() && c < g.EntryCount() && |block| == g.ClusterSize()
      modifies sd
      ensures Shape()
      ensures ok <==> 2 <= c < g.End()
      ensures ok ==> Card() == old(Card()).(data := old(Card()).data[c := block]) && Trace() == old(Trace()) + [Card()]
      ensures !ok ==> Card() == old(Card()) && Trace() == old(Trace())
    {
      if c < 2 {
        return false;
      }
      LbaIsPlace(g, c);
      if c < g.End() {
        ClusterWrite(g, sd.bytes, c, block);
      }
      var lba := ClusterToLba(g, c);
      ok := sd.Write(block, lba);
      if ok {
        VolsPush(g, old(sd.history), sd.bytes);
      }
    }

    /** write_fat_to_disk */
    method WriteFat()
      requires Tidy()
      modifies sd
      ensures Tidy()
      ensures Card() == old(Card()).(fat := Mem())
      ensures Trace() == old(Trace()) + [Card()]
    {
      FatWrite(g, sd.bytes, fat[..]);
      var ok := sd.Write(EncodeFat(fat[..]), g.fatBegin);
      VolsPush(g, old(sd.history), sd.bytes);
    }

    /** Stores an entry of the FAT in memory that has a cluster. */
    method SetEntry(c: nat, x: u32)
      requires Shape() && c < g.End()
      modifies fat
      ensures Mem() == old(Mem())[c := x] && fat[g.End()..] == old(fat[g.End()..])
    {
      fat[c] := x;
    }

    /** find_free_cluster; None is its panic, at the end of the FAT or at a reserved value. */
    method FindFreeCluster(start: nat) returns (r: Option<nat>)
      requires Shape()
      ensures var free := FreeFrom(fat[..], ScanStart(start));
              r == if free == [] then None else Some(free[0])
    {
      var i := if start < 3 then 3 else start;
      while i < fat.Length
        invariant FreeFrom(fat[..], ScanStart(start)) == FreeFrom(fat[..], i)
      {
        var t := TypeOf(fat[i]);
        if t == Panic {
          return None;
        }
        if t == Free {
          return Some(i);
        }
        i := i + 1;
      }
      return None;
    }

    /** get_cluster_chain_length */
    method ChainLength(start: nat, ghost ch: Chain) returns (n: nat)
      requires Shape() && IsChain(Mem(), ch) && ch[0] == start
      ensures n == |ch|
    {
      n := 1;
      var entry := fat[start];
      LinkType(Mem(), ch, 0);
      while TypeOf(entry) != Last
        invariant 1 <= n <= |ch| && entry == Mem()[ch[n - 1]]
        invariant TypeOf(entry) == Last ==> n == |ch|
        decreases |ch| - n
      {
        n := n + 1;
        LinkType(Mem(), ch, n - 2);
        entry := fat[entry];
        LinkType(Mem(), ch, n - 1);
      }
    }

    /** One transfer of read_cluster_chain, of whatever the number c names. */
    method ReadCluster(c: u32, dst: array<byte>, offset: nat) returns (ok: bool)
      requires Shape() && c >= 2 && offset + g.ClusterSize() <= dst.Length
      requires dst as object != fat
      modifies dst
      ensures Shape() && Card() == old(Card())
      ensures ok <==> g.OnCard(g.Lba(c))
      ensures dst[..offset] == old(dst[..offset])
      ensures c < g.End() ==>
                ok && dst[..offset + g.ClusterSize()] == old(dst[..offset]) + Card().data[c]
    {
      var lba := ClusterToLba(g, c);
      if c < g.End() {
        LbaIsPlace(g, c);
        OnTheCard(g, c);
      }
      ok := sd.Read(dst, offset, lba, g.spc);
      assert dst[..offset] == dst[..][..offset];
      assert ok ==> dst[..offset + g.ClusterSize()] == dst[..][..offset + g.ClusterSize()];
    }

    /** dst starts with the first i clusters of ch. */
    ghost predicate ReadSoFar(dst: array<byte>, ch: Chain, i: nat)
      reads sd, dst
    {
      && Shape() && InRange(ch, g.End()) && i <= |ch|
      && Span(i, g.ClusterSize()) <= dst.Length && Span(|ch| + 1, g.ClusterSize()) <= dst.Length
      && dst[..Span(i, g.ClusterSize())] == Flat(Card().data, ch[..i])
    }

    /** One turn of read_cluster_chain's loop, at cluster number i of the chain. */
    method ReadNext(current: u32, dst: array<byte>, offset: nat, ghost ch: Chain, ghost i: nat) returns (ok: bool)
      requires ReadSoFar(dst, ch, i) && offset == Span(i, g.ClusterSize()) && current >= 2
      requires i < |ch| ==> current == ch[i]
      requires dst as object != fat
      modifies dst
      ensures ok <==> g.OnCard(g.Lba(current))
      ensures ReadSoFar(dst, ch, i)
      ensures i < |ch| ==> ok && ReadSoFar(dst, ch, i + 1)
    {
      var cs := g.ClusterSize();
      SpanMonotone(i, |ch| + 1, cs);
      ghost var data, start := Card().data, dst[..offset];
      ok := ReadCluster(current, dst, offset);
      if i < |ch| {
        FlatNext(data, ch, i);
        assert Span(i + 1, cs) == offset + cs;
        assert dst[..offset + cs] == start + data[ch[i]];
      }
    }

    /**
     * read_cluster_chain: one read for each cluster of the chain, and one more for the
     * "cluster" that the end mark names. It panics exactly when that one is off the card.
     */
    method ReadClusterChain(start: nat, dst: array<byte>, ghost ch: Chain) returns (ok: bool)
      requires Shape() && IsChain(Mem(), ch) && ch[0] == start
      requires Span(|ch| + 1, g.ClusterSize()) <= dst.Length
      requires dst as object != fat
      modifies dst
      ensures ok <==> StrayReadOk(g, Mem(), ch)
      ensures Span(|ch|, g.ClusterSize()) <= dst.Length
      ensures ok ==> dst[..Span(|ch|, g.ClusterSize())] == Flat(Card().data, ch)
    {
      var cs := g.ClusterSize();
      var offset := 0;
      var current: u32 := start;
      NumberType(start, |Mem()|);
      ghost var i, table := 0, Mem();
      SpanMonotone(0, |ch| + 1, cs);
      SpanMonotone(|ch|, |ch| + 1, cs);
      assert ch[..|ch|] == ch;
      while true
        invariant ReadSoFar(dst, ch, i) && Mem() == table && offset == Span(i, cs)
        invariant current == if i < |ch| then ch[i] else table[ch[|ch| - 1]]
        invariant (TypeOf(current) == Last) == (i == |ch|) && 2 <= current
        decreases |ch| - i
      {
        ok := ReadNext(current, dst, offset, ch, i);
        if !ok {
          return;
        }
        if TypeOf(current) == Last {
          break;
        }
        NextInChain(table, ch, i, current);
        current := fat[current];
        offset := offset + cs;
        i := i + 1;
      }
    }

    /** The loop that frees a chain from its start, in the FAT in memory. */
    method FreeChain(start: nat, ghost ch: Chain)
      requires Tidy() && IsChain(Mem(), ch) && ch[0] == start
      modifies fat
      ensures Tidy() && IsRelink(old(Mem()), Mem(), ch, [], END_OF_CHAIN)
    {
      var cluster := start;
      ghost var i, table := 0, Mem();
      while true
        invariant 0 <= i < |ch| && cluster == ch[i] && Tidy()
        invariant forall c :: 0 <= c < |table| ==> Mem()[c] == if c in ch[..i] then FREE_CLUSTER else table[c]
        decreases |ch| - i
      {
        LinkType(table, ch, i);
        assert cluster !in ch[..i];
        var entry := fat[cluster];
        SetEntry(cluster, FREE_CLUSTER);
        assert ch[..i + 1] == ch[..i] + [ch[i]];
        if TypeOf(entry) == Last {
          break;
        }
        cluster := entry;
        i := i + 1;
      }
      assert ch[..i + 1] == ch;
    }

    /** The end of write_cluster_chain's loop: marks the current cluster and frees any tail. */
    method EndChain(current: nat, ghost mem: Fat, ghost ch: Chain, ghost pool: Chain, ghost j: nat, ghost k: nat)
      requires Tidy() && |mem| == g.End() && IsChain(mem, ch) && ch <= pool
      requires InRange(pool, |mem|) && NoDup(pool) && j < |pool| && current == pool[j] && k == j + 1
      requires Progress(mem, Mem(), ch, pool, j)
      modifies fat
      ensures Tidy() && IsRelink(mem, Mem(), ch, pool[..k], END_OF_CHAIN)
    {
      var entry := fat[current];
      ProgressEntry(mem, Mem(), ch, pool, j);
      ghost var before := Mem();
      SetEntry(current, END_OF_CHAIN);
      ghost var marked := Mem();
      if TypeOf(entry) != Last {
        TailInMarked(mem, marked, ch, j);
        FreeChain(entry, ch[j + 1..]);
        FinishShrink(mem, marked, Mem(), ch, j);
        assert ch[..j + 1] == pool[..j + 1];
      } else {
        FinishAtEnd(mem, before, ch, pool, j);
      }
    }

    /**
     * The step to the next cluster: along the old chain, or to a free entry appended to it.
     * That may be a spare entry; then the pool of clusters on the card is used up.
     */
    method NextCluster(current: nat, ghost mem: Fat, ghost ch: Chain, ghost pool: Chain, ghost j: nat, ghost j': nat)
      returns (next: Option<nat>)
      requires Tidy() && |mem| == g.End() && IsChain(mem, ch) && pool == Pool(mem, ch)
      requires InRange(pool, |mem|) && NoDup(pool) && j < |pool| && current == pool[j] && j' == j + 1
      requires Progress(mem, Mem(), ch, pool, j)
      modifies fat
      ensures if j' < |pool| then next == Some(pool[j']) && Tidy() && Progress(mem, Mem(), ch, pool, j')
              else NotOnCard(next)
    {
      var entry := fat[current];
      ProgressEntry(mem, Mem(), ch, pool, j);
      if TypeOf(entry) == Last {
        next := FindFreeCluster(current);
        SearchInMemory(current, next);
        ProgressSearch(mem, Mem(), ch, j);
        if next.Some? {
          Append(current, next.value, mem, ch, pool, j, j');
        }
      } else {
        next := Some(entry);
      }
    }

    /** No cluster, or the number of a spare entry. */
    ghost predicate NotOnCard(next: Option<nat>)
    {
      next.Some? ==> g.End() <= next.value < g.EntryCount()
    }

    /** What a search of the whole FAT says about its part with clusters. */
    lemma SearchInMemory(start: nat, r: Option<nat>)
      requires Shape()
      requires var free := FreeFrom(fat[..], ScanStart(start));
               r == if free == [] then None else Some(free[0])
      ensures var free := FreeFrom(Mem(), ScanStart(start));
              if free == [] then NotOnCard(r) else r == Some(free[0])
    {
      SearchOfPart(fat[..], g.End(), ScanStart(start));
      FreeFromIsFreeList(fat[..], ScanStart(start));
      assert fat[..][..g.End()] == Mem();
    }

    /** Links a free entry behind the current cluster. */
    method Append(current: nat, next: nat, ghost mem: Fat, ghost ch: Chain, ghost pool: Chain,
                  ghost j: nat, ghost j': nat)
      requires Tidy() && |mem| == g.End() && IsChain(mem, ch) && pool == Pool(mem, ch)
      requires InRange(pool, |mem|) && NoDup(pool) && |ch| - 1 <= j < |pool| && current == pool[j] && j' == j + 1
      requires Progress(mem, Mem(), ch, pool, j)
      requires next < g.EntryCount() && (j' < |pool| ==> next == pool[j'])
      modifies fat
      ensures j' < |pool| ==> Tidy() && Progress(mem, Mem(), ch, pool, j')
    {
      ghost var before := Mem();
      fat[current] := next;
      ghost var linked := Mem();
      fat[next] := END_OF_CHAIN;
      if j' < |pool| {
        assert linked == before[current := next] && Mem() == linked[next := END_OF_CHAIN];
        ProgressExtend(mem, before, ch, pool, j, Mem());
      }
    }

    /** The card after the first k data writes to the pool, starting from volume v0 and trace t0. */
    ghost predicate Wrote(v0: Vol, t0: seq<Vol>, pool: Chain, data: seq<byte>, k: nat)
      reads sd
    {
      && Shape() && InRange(pool, |v0.data|) && k <= |pool| && Span(k, g.ClusterSize()) <= |data|
      && Card() == Vol(v0.fat, Overlay(v0.data, pool, data, g.ClusterSize(), k))
      && Trace() == t0 + DataWrites(v0, pool, data, g.ClusterSize(), k)
    }

    /** One data write of the loop. */
    method SendBlock(current: nat, block: seq<byte>, ghost data: seq<byte>, ghost v0: Vol, ghost t0: seq<Vol>,
                     ghost pool: Chain, ghost j: nat, ghost next: nat)
      returns (ok: bool)
      requires Wrote(v0, t0, pool, data, j) && next == j + 1 && AtPool(current, pool, j)
      requires Span(next, g.ClusterSize()) <= |data|
      requires block == data[Span(j, g.ClusterSize())..Span(next, g.ClusterSize())]
      modifies sd
      ensures ok == (j < |pool|) && Wrote(v0, t0, pool, data, if ok then next else j)
    {
      ghost var t := Trace();
      ok := WriteCluster(current, block);
      if ok {
        DataStep(v0, pool, data, g.ClusterSize(), next, block);
        assert t0 + DataWrites(v0, pool, data, g.ClusterSize(), next) == t + [Card()];
      }
    }

    /** The loop stands at cluster number j of the pool, or off the card behind the last one. */
    ghost predicate AtPool(current: nat, pool: Chain, j: nat)
    {
      if j < |pool| then current == pool[j] else NoCluster(current)
    }

    /** A number with a FAT entry that no cluster on the card has: below 2, or that of a spare entry. */
    ghost predicate NoCluster(c: nat)
    {
      c < 2 < g.EntryCount() || g.End() <= c < g.EntryCount()
    }

    /** What write_cluster_chain starts from: a chain, or a number without a cluster. */
    ghost predicate StartsAt(start: nat, ch: Chain, pool: Chain)
      reads sd, fat
    {
      && Shape()
      && (if ch == [] then pool == [] && NoCluster(start)
          else
            && Tidy() && IsChain(Mem(), ch) && ch[0] == start
            && pool == Pool(Mem(), ch) && InRange(pool, g.End()) && NoDup(pool))
    }

    /**
     * The loop of write_cluster_chain, for n > 0. It panics when the search finds nothing,
     * or when it finds a spare entry, whose cluster cannot be written.
     */
    method WriteBlocks(start: nat, data: seq<byte>, n: nat, ghost ch: Chain, ghost pool: Chain) returns (done: bool)
      requires StartsAt(start, ch, pool) && n > 0
      requires Span(ClustersFor(n, g.ClusterSize()), g.ClusterSize()) <= |data|
      modifies fat, sd
      ensures BlocksSent(old(Card()), old(Trace()), old(Mem()), ch, pool, data, ClustersFor(n, g.ClusterSize()), done)
    {
      ghost var v0, t0, mem := Card(), Trace(), Mem();
      ghost var k := ClustersFor(n, g.ClusterSize());
      var left, offset, current := n, 0, start;
      ghost var j := 0;
      SendingAtStart(start, data, n, ch, pool, k);
      while true
        invariant Sending(v0, t0, mem, ch, pool, data, k, j, current, left, offset)
        decreases left
      {
        ghost var j' := j + 1;
        var ok, rest, end := SendNext(current, data, left, offset, v0, t0, mem, ch, pool, k, j, j');
        if !ok {
          return false;
        }
        var next, ended := NextOrEnd(current, rest, end, v0, t0, mem, ch, pool, data, k, j, j');
        if next.None? {
          return ended;
        }
        current, left, offset, j := next.value, rest, end, j';
      }
    }

    lemma SendingAtStart(start: nat, data: seq<byte>, n: nat, ch: Chain, pool: Chain, k: nat)
      requires StartsAt(start, ch, pool) && n > 0 && k == ClustersFor(n, g.ClusterSize())
      requires Span(k, g.ClusterSize()) <= |data|
      ensures Sending(Card(), Trace(), Mem(), ch, pool, data, k, 0, start, n, 0)
    {
      SpanMonotone(1, k, g.ClusterSize());
    }

    /** Behind the block sent: the end of the chain, or the next cluster, if the search finds one. */
    method NextOrEnd(current: nat, left: nat, ghost offset: nat, ghost v0: Vol, ghost t0: seq<Vol>, ghost mem: Fat,
                     ghost ch: Chain, ghost pool: Chain, ghost data: seq<byte>, ghost k: nat,
                     ghost j: nat, ghost j': nat)
      returns (next: Option<nat>, ended: bool)
      requires Wrote(v0, t0, pool, data, j') && |mem| == g.End() && j' == j + 1 && j < |pool| && current == pool[j]
      requires Tidy() && Progress(mem, Mem(), ch, pool, j) && IsChain(mem, ch) && pool == Pool(mem, ch) && NoDup(pool)
      requires if left == 0 then j' == k else j' < k && ClustersFor(left, g.ClusterSize()) == k - j'
      requires left > 0 ==> offset == Span(j', g.ClusterSize()) && offset + g.ClusterSize() <= |data|
      modifies fat
      ensures next.Some? ==> left > 0 && Sending(v0, t0, mem, ch, pool, data, k, j', next.value, left, offset)
      ensures next.None? ==> BlocksSent(v0, t0, mem, ch, pool, data, k, ended)
    {
      ended := left == 0;
      if left == 0 {
        EndChain(current, mem, ch, pool, j, k);
        next := None;
      } else {
        next := MoveOn(current, left, offset, v0, t0, mem, ch, pool, data, k, j, j');
      }
    }

    /**
     * The loop sends the blocks in order to the clusters of the pool. If k of them are there, the chain is
     * relinked to these; if not, it panics after the last of them.
     */
    ghost predicate BlocksSent(v0: Vol, t0: seq<Vol>, mem: Fat, ch: Chain, pool: Chain, data: seq<byte>, k: nat,
                               done: bool)
      reads sd, fat
    {
      && done == (k <= |pool|)
      && Wrote(v0, t0, pool, data, if done then k else |pool|)
      && (done ==> Tidy() && InRange(pool[..k], |mem|) && IsRelink(mem, Mem(), ch, pool[..k], END_OF_CHAIN))
    }

    /** The loop of write_cluster_chain before the j-th of its k clusters is sent. */
    ghost predicate Sending(v0: Vol, t0: seq<Vol>, mem: Fat, ch: Chain, pool: Chain, data: seq<byte>,
                            k: nat, j: nat, current: nat, left: nat, offset: nat)
      reads sd, fat
    {
      && Wrote(v0, t0, pool, data, j) && |mem| == g.End() && j < k && AtPool(current, pool, j)
      && left > 0 && ClustersFor(left, g.ClusterSize()) == k - j
      && offset == Span(j, g.ClusterSize()) && offset + g.ClusterSize() <= |data|
      && (j < |pool| ==> Tidy() && Progress(mem, Mem(), ch, pool, j)
                         && IsChain(mem, ch) && pool == Pool(mem, ch) && NoDup(pool))
    }

    /** Makes the next cluster the current one, if the search finds one. */
    method MoveOn(current: nat, ghost left: nat, ghost offset: nat, ghost v0: Vol, ghost t0: seq<Vol>, ghost mem: Fat,
                  ghost ch: Chain, ghost pool: Chain, ghost data: seq<byte>, ghost k: nat, ghost j: nat, ghost j': nat)
      returns (next: Option<nat>)
      requires Wrote(v0, t0, pool, data, j') && |mem| == g.End() && j' == j + 1 && j < |pool| && current == pool[j]
      requires Tidy() && Progress(mem, Mem(), ch, pool, j) && IsChain(mem, ch) && pool == Pool(mem, ch) && NoDup(pool)
      requires left > 0 && j' < k && ClustersFor(left, g.ClusterSize()) == k - j'
      requires offset == Span(j', g.ClusterSize()) && offset + g.ClusterSize() <= |data|
      modifies fat
      ensures next.Some? ==> Sending(v0, t0, mem, ch, pool, data, k, j', next.value, left, offset)
      ensures next.None? ==> Wrote(v0, t0, pool, data, j') && j' == |pool|
    {
      next := NextCluster(current, mem, ch, pool, j, j');
    }

    /** Sends the j-th cluster and moves on in the buffer. */
    method SendNext(current: nat, data: seq<byte>, left: nat, offset: nat, ghost v0: Vol, ghost t0: seq<Vol>,
                    ghost mem: Fat, ghost ch: Chain, ghost pool: Chain, ghost k: nat, ghost j: nat, ghost j': nat)
      returns (ok: bool, left': nat, offset': nat)
      requires Sending(v0, t0, mem, ch, pool, data, k, j, current, left, offset) && j' == j + 1
      requires Span(k, g.ClusterSize()) <= |data|
      modifies sd
      ensures ok == (j < |pool|) && Wrote(v0, t0, pool, data, if ok then j' else j) && left' < left
      ensures if left' == 0 then j' == k else j' < k && ClustersFor(left', g.ClusterSize()) == k - j'
      ensures left' > 0 ==> offset' == Span(j', g.ClusterSize()) && offset' + g.ClusterSize() <= |data|
    {
      var cs := g.ClusterSize();
      var toWrite := if left < cs then left else cs;
      assert Span(j', cs) == offset + cs;
      ok := SendBlock(current, data[offset..offset + cs], data, v0, t0, pool, j, j');
      left' := left - toWrite;
      offset' := offset + toWrite;
      OneClusterLess(left, left', cs, j', k, |data|);
    }

    /** The FAT flush that ends a chain write. */
    method Flush(ghost v0: Vol, ghost t0: seq<Vol>, ghost mem: Fat, ghost ch: Chain, ghost pool: Chain,
                 ghost data: seq<byte>, ghost n: nat, ghost cs: nat)
      requires Tidy() && |mem| == |v0.fat| == |v0.data| == g.End() && IsChain(mem, ch) && pool == Pool(mem, ch)
      requires cs == g.ClusterSize() && Span(ClustersFor(n, cs), cs) <= |data|
      requires InRange(pool, |mem|) && Wrote(v0, t0, pool, data, ClustersFor(n, cs))
      requires IsRelink(mem, Mem(), ch, pool[..ClustersFor(n, cs)], END_OF_CHAIN)
      modifies sd
      ensures Tidy()
      ensures var w := WriteChain(v0, mem, ch, data, n, cs);
              w.done && Trace() == t0 + w.trace && Card() == After(v0, w.trace) && Mem() == w.fat
    {
      WriteChainDone(v0, mem, ch, data, n, cs, Mem());
      WriteFat();
      ghost var writes := DataWrites(v0, pool, data, cs, ClustersFor(n, cs));
      assert t0 + writes + [Card()] == t0 + (writes + [Card()]);
    }

    /**
     * write_cluster_chain. A result of false is a panic, of the free cluster search or of a
     * write off the card; the card then holds the data written so far and the old FAT.
     */
    method WriteClusterChain(start: nat, data: seq<byte>, n: nat, ghost ch: Chain) returns (done: bool)
      requires Shape()
      requires if ch != [] then Tidy() && IsChain(Mem(), ch) && ch[0] == start
               else start < 2 || (n > 0 && g.End() <= start < g.EntryCount())
      requires Span(ClustersFor(n, g.ClusterSize()), g.ClusterSize()) <= |data|
      modifies fat, sd
      ensures Shape()
      ensures ch != [] ==>
                var w := WriteChain(old(Card()), old(Mem()), ch, data, n, g.ClusterSize());
                && done == w.done
                && Trace() == old(Trace()) + w.trace
                && Card() == After(old(Card()), w.trace)
                && (done ==> Tidy() && Mem() == w.fat)
      ensures ch == [] ==>
                && done == (n == 0)
                && Trace() == old(Trace()) && Card() == old(Card()) && (done ==> fat[..] == old(fat[..]))
    {
      if n > 0 {
        done := WriteBytes(start, data, n, ch);
        return;
      }
      if start >= 2 {
        FreeAll(start, data, ch, 0);
      }
      return true;
    }

    /** Writing no bytes frees the chain and flushes. */
    method FreeAll(start: nat, ghost data: seq<byte>, ghost ch: Chain, ghost zero: nat)
      requires Tidy() && IsChain(Mem(), ch) && ch[0] == start && zero == 0
      requires Span(ClustersFor(zero, g.ClusterSize()), g.ClusterSize()) <= |data|
      modifies fat, sd
      ensures Tidy()
      ensures var w := WriteChain(old(Card()), old(Mem()), ch, data, zero, g.ClusterSize());
              && w.done
              && Trace() == old(Trace()) + w.trace
              && Card() == After(old(Card()), w.trace)
              && Mem() == w.fat
    {
      ghost var v0, t0, mem, pool := Card(), Trace(), Mem(), Pool(Mem(), ch);
      PoolProps(mem, ch);
      FreeChain(start, ch);
      assert pool[..0] == [];
      assert t0 + DataWrites(v0, pool, data, g.ClusterSize(), 0) == t0;
      Flush(v0, t0, mem, ch, pool, data, zero, g.ClusterSize());
    }

    /** Writing at least one byte. */
    method WriteBytes(start: nat, data: seq<byte>, n: nat, ghost ch: Chain) returns (done: bool)
      requires Shape() && n > 0
      requires if ch != [] then Tidy() && IsChain(Mem(), ch) && ch[0] == start else NoCluster(start)
      requires Span(ClustersFor(n, g.ClusterSize()), g.ClusterSize()) <= |data|
      modifies fat, sd
      ensures Shape()
      ensures ch != [] ==>
                var w := WriteChain(old(Card()), old(Mem()), ch, data, n, g.ClusterSize());
                && done == w.done
                && Trace() == old(Trace()) + w.trace
                && Card() == After(old(Card()), w.trace)
                && (done ==> Tidy() && Mem() == w.fat)
      ensures ch == [] ==> !done && Trace() == old(Trace()) && Card() == old(Card())
    {
      ghost var v0, t0, mem, pool := Card(), Trace(), Mem(), if ch == [] then [] else Pool(Mem(), ch);
      if ch != [] {
        PoolProps(mem, ch);
      }
      done := WriteBlocks(start, data, n, ch, pool);
      if done {
        Flush(v0, t0, mem, ch, pool, data, n, g.ClusterSize());
      } else if ch != [] {
        WriteChainPanics(v0, mem, ch, data, n, g.ClusterSize());
      }
    }

    // -------------------------------------------------------------- directory buffers

    /** get_dirents, with room in the buffer for the extra cluster that is read. */
    method GetDirents(ghost v: Vol, ghost o: Owner) returns (ok: bool, buf: array<byte>, n: nat)
      requires At(v, o)
      ensures fresh(buf)
      ensures ok == StrayReadOk(g, v.fat, o.root)
      ensures ok ==> ENTRY * n <= buf.Length && buf[..ENTRY * n] == Flat(v.data, o.root)
    {
      var cs := g.ClusterSize();
      var len := ChainLength(g.root, o.root);
      g.ClusterSizeIsWhole();
      BufferSizes(len, cs);
      var size := len * cs;
      buf := new byte[size + cs](_ => 0);
      n := size / ENTRY;
      ok := ReadClusterChain(g.root, buf, o.root);
    }

    method LoadEntry(buf: array<byte>, n: nat, i: nat) returns (e: Entry)
      requires i < n && ENTRY * n <= buf.Length
      ensures var dir := Entries(buf[..ENTRY * n]);
              |dir| == n && e == dir[i]
    {
      ghost var part := buf[..ENTRY * n];
      e := buf[ENTRY * i..ENTRY * (i + 1)];
      assert forall k :: 0 <= k < ENTRY ==> e[k] == part[ENTRY * i + k];
      assert e == EntryAt(part, i);
    }

    /** find_dirent_with_name: the index, or -1. */
    method FindDirent(buf: array<byte>, n: nat, name: CString) returns (r: int)
      requires ENTRY * n <= buf.Length
      ensures var dir := Entries(buf[..ENTRY * n]);
              |dir| == n && r == if Find(dir, name) == n then -1 else Find(dir, name)
    {
      ghost var dir := Entries(buf[..ENTRY * n]);
      for i := 0 to n
        invariant forall k :: 0 <= k < i ==> !Matches(dir[k], name)
      {
        var e := LoadEntry(buf, n, i);
        if !IsFree(e) && Attr(e) != ATTR_LFN && Attr(e) / 8 % 2 == 0 {
          var found := ToDotName(Raw(e));
          if found == name {
            FindIs(dir, name, i);
            return i;
          }
        }
      }
      FindIs(dir, name, n);
      return -1;
    }

    /** The search of fat32_create for a free slot: its index, or n. */
    method FindFreeSlot(buf: array<byte>, n: nat) returns (r: nat)
      requires ENTRY * n <= buf.Length
      ensures var dir := Entries(buf[..ENTRY * n]);
              |dir| == n && r == FreeSlot(dir)
    {
      ghost var dir := Entries(buf[..ENTRY * n]);
      for i := 0 to n
        invariant forall k :: 0 <= k < i ==> !IsFree(dir[k])
      {
        var e := LoadEntry(buf, n, i);
        if IsFree(e) {
          FreeSlotIs(dir, i);
          return i;
        }
      }
      FreeSlotIs(dir, n);
      return n;
    }

    /** Stores bytes into entry i, at offset `at` of its structure. */
    method Store(buf: array<byte>, n: nat, i: nat, at: nat, b: seq<byte>)
      requires i < n && ENTRY * n <= buf.Length && at + |b| <= ENTRY
      modifies buf
      ensures buf[..ENTRY * n] ==
              PutEntry(old(buf[..ENTRY * n]), i, WithBytes(EntryAt(old(buf[..ENTRY * n]), i), at, b))
    {
      ghost var before := buf[..ENTRY * n];
      var base := ENTRY * i + at;
      forall k | 0 <= k < |b| {
        buf[base + k] := b[k];
      }
      StoreInEntry(before, i, at, b);
      assert buf[..ENTRY * n] == before[..base] + b + before[base + |b|..];
    }

    /** Writes the directory back; its chain has the right length, so the search never panics. */
    method CommitDir(buf: array<byte>, n: nat, ghost o: Owner, ghost idx: nat, ghost e: Entry)
      requires Tidy() && SafeWith(g, Card(), o) && idx < |o.files| && IsChain(Mem(), o.root)
      requires ENTRY * n <= buf.Length && ENTRY * (idx + 1) <= |Flat(Card().data, o.root)|
      requires buf[..ENTRY * n] == PutEntry(Flat(Card().data, o.root), idx, e)
      modifies fat, sd
      ensures Tidy()
      ensures var w := Commit(g, old(Card()), old(Mem()), o, idx, e);
              && Trace() == old(Trace()) + w.trace
              && Card() == After(old(Card()), w.trace)
              && Mem() == w.fat == Card().fat
    {
      FlatBlocks(Card().data, o.root, g.ClusterSize());
      ClustersForFull(|o.root|, g.ClusterSize());
      ghost var data := CommitShape(g, Card(), Mem(), o, idx, e);
      var done := WriteClusterChain(g.root, buf[..ENTRY * n], ENTRY * n, o.root);
    }

    // -------------------------------------------------------------- operations

    /** The card went through the states of an outcome; unless it halted, memory and card agree. */
    ghost predicate Followed(v0: Vol, t0: seq<Vol>, out: Outcome)
      reads sd, fat
    {
      && Shape()
      && Trace() == t0 + out.trace
      && Card() == After(v0, out.trace)
      && (!out.halted ==> Tidy() && Mem() == Card().fat)
    }

    /** The start of every operation: get_dirents and find_dirent_with_name. */
    method Lookup(name: CString, ghost v: Vol, ghost o: Owner) returns (ok: bool, buf: array<byte>, n: nat, idx: int)
      requires At(v, o)
      ensures fresh(buf)
      ensures ok == StrayReadOk(g, v.fat, o.root)
      ensures ok ==>
                var dir := Dir(v.data, o.root);
                && ENTRY * n <= buf.Length && buf[..ENTRY * n] == Flat(v.data, o.root) && n == |dir|
                && idx == if Find(dir, name) == n then -1 else Find(dir, name)
    {
      ok, buf, n := GetDirents(v, o);
      if ok {
        idx := FindDirent(buf, n, name);
      } else {
        idx := -1;
      }
    }

    /** A file's start cluster is 0 or heads the chain that the owner knows. */
    lemma StartOfFile(v: Vol, o: Owner, idx: nat)
      requires SafeWith(g, v, o) && idx < |o.files| && Live(Dir(v.data, o.root)[idx])
      ensures var start := Start(Dir(v.data, o.root)[idx]);
              if start == 0 then o.files[idx] == []
              else start >= 2 && IsChain(v.fat, o.files[idx]) && o.files[idx][0] == start
    {
      assert FileOk(v.fat, Dir(v.data, o.root)[idx], o.files[idx]);
    }

    method Delete(name: CString) returns (r: Result)
      requires Ready()
      modifies fat, sd
      ensures var out := Step(g, old(Card()), Command.Delete(name));
              Followed(old(Card()), old(Trace()), out) && r == ResultOf(out)
    {
      r := DeleteAt(name, Card(), OwnerOf(g, Card()));
    }

    method DeleteAt(name: CString, ghost v: Vol, ghost o: Owner) returns (r: Result)
      requires At(v, o)
      modifies fat, sd
      ensures var out := StepDelete(g, v, o, name);
              Followed(v, old(Trace()), out) && r == ResultOf(out)
    {
      var valid := IsValidName(name);
      if !valid {
        return Returned(0);
      }
      var ok, buf, n, idx := Lookup(name, v, o);
      if !ok {
        return Panicked;
      }
      if idx == -1 {
        return Returned(0);
      }
      DeleteEntry(buf, n, idx, Dir(v.data, o.root)[idx], v, o);
      CommitDir(buf, n, o, idx, Deleted(Dir(v.data, o.root)[idx]));
      return Returned(1);
    }

    /** Marks the entry deleted in memory and frees its chain there. */
    method DeleteEntry(buf: array<byte>, n: nat, idx: nat, ghost e: Entry, ghost v: Vol, ghost o: Owner)
      requires At(v, o) && idx < n == |o.files|
      requires e == Dir(v.data, o.root)[idx] && Live(e)
      requires ENTRY * n <= buf.Length && buf[..ENTRY * n] == Flat(v.data, o.root)
      modifies fat, buf
      ensures Tidy() && buf[..ENTRY * n] == PutEntry(Flat(v.data, o.root), idx, Deleted(e))
      ensures Mem() == Relink(v.fat, o.files[idx], [], END_OF_CHAIN) && IsChain(Mem(), o.root)
    {
      StartOfFile(v, o, idx);
      var cluster := Start(buf[..ENTRY * n][ENTRY * idx..ENTRY * (idx + 1)]);
      Store(buf, n, idx, 0, [DELETED]);
      assert WithBytes(e, 0, [DELETED]) == Deleted(e);
      if cluster >= 2 {
        FreeChain(cluster, o.files[idx]);
      }
      DetachedIs(v.fat, Mem(), o.files[idx], o.root);
    }

    method Create(name: CString, isDir: bool) returns (r: Result)
      requires Ready()
      modifies fat, sd
      ensures var out := Step(g, old(Card()), Command.Create(name, isDir));
              Followed(old(Card()), old(Trace()), out) && r == ResultOf(out)
    {
      r := CreateAt(name, isDir, Card(), OwnerOf(g, Card()));
    }

    method CreateAt(name: CString, isDir: bool, ghost v: Vol, ghost o: Owner) returns (r: Result)
      requires At(v, o)
      modifies fat, sd
      ensures var out := StepCreate(g, v, o, name, isDir);
              Followed(v, old(Trace()), out) && r == ResultOf(out)
    {
      var valid := IsValidName(name);
      if !valid {
        return Returned(0);
      }
      var ok, buf, n, idx := Lookup(name, v, o);
      if !ok {
        return Panicked;
      }
      if idx != -1 {
        return Returned(0);
      }
      r := CreateEntry(buf, n, name, isDir, v, o);
    }

    /** fat32_create of a name that is not there: takes the first free slot, if there is one. */
    method CreateEntry(buf: array<byte>, n: nat, name: CString, isDir: bool, ghost v: Vol, ghost o: Owner)
      returns (r: Result)
      requires At(v, o) && IsValid(name) && StrayReadOk(g, v.fat, o.root)
      requires ENTRY * n <= buf.Length && buf[..ENTRY * n] == Flat(v.data, o.root)
      requires n == |Dir(v.data, o.root)| == Find(Dir(v.data, o.root), name)
      modifies fat, sd, buf
      ensures var out := StepCreate(g, v, o, name, isDir);
              Followed(v, old(Trace()), out) && r == ResultOf(out)
    {
      var slot := FindFreeSlot(buf, n);
      if slot == n {
        return Panicked;
      }
      FillSlot(buf, n, slot, name, isDir);
      CommitDir(buf, n, o, slot, Fresh(Dir(v.data, o.root)[slot], name, isDir));
      return Returned(1);
    }

    /** The assignments of fat32_create to its free entry. */
    method FillSlot(buf: array<byte>, n: nat, slot: nat, name: CString, isDir: bool)
      requires slot < n && ENTRY * n <= buf.Length && IsValid(name)
      modifies buf
      ensures var before := old(buf[..ENTRY * n]);
              buf[..ENTRY * n] == PutEntry(before, slot, Fresh(EntryAt(before, slot), name, isDir))
    {
      ghost var before := buf[..ENTRY * n];
      var attr := if isDir then ATTR_DIR else ATTR_ARCHIVE;
      ghost var e1 := WithName(EntryAt(before, slot), name);
      SetNameInEntry(buf, n, slot, name);
      Store(buf, n, slot, 11, [attr]);
      PutTwice(before, slot, e1, WithAttr(e1, attr));
      assert WithBytes(e1, 11, [attr]) == WithAttr(e1, attr);
      ClearFile(buf, n, slot, 0, before, WithAttr(e1, attr));
    }

    /** Size and start cluster of an entry, both set to zero. */
    method ClearFile(buf: array<byte>, n: nat, i: nat, zero: u32, ghost before: seq<byte>, ghost e: Entry)
      requires i < n && ENTRY * n <= buf.Length && |before| == ENTRY * n && buf[..ENTRY * n] == PutEntry(before, i, e)
      modifies buf
      ensures buf[..ENTRY * n] == PutEntry(before, i, WithStart(WithSize(e, zero), zero))
    {
      StoreSize(buf, n, i, zero);
      PutTwice(before, i, e, WithSize(e, zero));
      StoreStart(buf, n, i, zero);
      PutTwice(before, i, WithSize(e, zero), WithStart(WithSize(e, zero), zero));
    }

    method StoreSize(buf: array<byte>, n: nat, i: nat, size: u32)
      requires i < n && ENTRY * n <= buf.Length
      modifies buf
      ensures var before := old(buf[..ENTRY * n]);
              buf[..ENTRY * n] == PutEntry(before, i, WithSize(EntryAt(before, i), size))
    {
      Store(buf, n, i, 28, ToLe32(size));
    }

    method StoreStart(buf: array<byte>, n: nat, i: nat, c: u32)
      requires i < n && ENTRY * n <= buf.Length
      modifies buf
      ensures var before := old(buf[..ENTRY * n]);
              buf[..ENTRY * n] == PutEntry(before, i, WithStart(EntryAt(before, i), c))
    {
      ghost var before := buf[..ENTRY * n];
      ghost var half := WithBytes(EntryAt(before, i), 20, ToLe16(c / 0x1_0000));
      Store(buf, n, i, 20, ToLe16(c / 0x1_0000));
      Store(buf, n, i, 26, ToLe16(c % 0x1_0000));
      PutTwice(before, i, half, WithBytes(half, 26, ToLe16(c % 0x1_0000)));
    }

    /** fat32_dirent_set_name on entry i. */
    method SetNameInEntry(buf: array<byte>, n: nat, i: nat, name: CString)
      requires i < n && ENTRY * n <= buf.Length && IsValid(name)
      modifies buf
      ensures var before := old(buf[..ENTRY * n]);
              buf[..ENTRY * n] == PutEntry(before, i, WithName(EntryAt(before, i), name))
    {
      ghost var before, whole, raw := buf[..ENTRY * n], buf[..], Pack(name);
      SetName(buf, ENTRY * i, name);
      StoreInEntry(before, i, 0, raw);
      CutPut(whole, ENTRY * n, ENTRY * i, raw);
      assert buf[..ENTRY * n] == buf[..][..ENTRY * n];
    }

    method Rename(oldName: CString, newName: CString) returns (r: Result)
      requires Ready()
      modifies fat, sd
      ensures var out := Step(g, old(Card()), Command.Rename(oldName, newName));
              Followed(old(Card()), old(Trace()), out) && r == ResultOf(out)
    {
      r := RenameAt(oldName, newName, Card(), OwnerOf(g, Card()));
    }

    method RenameAt(oldName: CString, newName: CString, ghost v: Vol, ghost o: Owner) returns (r: Result)
      requires At(v, o)
      modifies fat, sd
      ensures var out := StepRename(g, v, o, oldName, newName);
              Followed(v, old(Trace()), out) && r == ResultOf(out)
    {
      var valid := IsValidName(newName);
      if !valid {
        return Returned(0);
      }
      var ok, buf, n, idx := Lookup(oldName, v, o);
      if !ok {
        return Panicked;
      }
      if idx == -1 {
        return Returned(0);
      }
      RenameEntry(buf, n, idx, newName, v, o);
      return Returned(1);
    }

    /** Gives the entry found its new name and writes the directory back. */
    method RenameEntry(buf: array<byte>, n: nat, idx: nat, newName: CString, ghost v: Vol, ghost o: Owner)
      requires At(v, o) && IsValid(newName) && idx < n == |Dir(v.data, o.root)|
      requires ENTRY * n <= buf.Length && buf[..ENTRY * n] == Flat(v.data, o.root)
      modifies fat, sd, buf
      ensures var commit := Commit(g, v, v.fat, o, idx, WithName(Dir(v.data, o.root)[idx], newName));
              Followed(v, old(Trace()), Outcome(commit.trace, false, 1))
    {
      SetNameInEntry(buf, n, idx, newName);
      CommitDir(buf, n, o, idx, WithName(Dir(v.data, o.root)[idx], newName));
    }

    /** The special case of a file without a cluster: takes a first free entry, perhaps a spare one. */
    method TakeFirst(buf: array<byte>, n: nat, idx: nat, ghost v: Vol, ghost o: Owner) returns (start: Option<nat>)
      requires At(v, o)
      requires idx < n && ENTRY * n <= buf.Length && idx < |o.files| && o.files[idx] == []
      modifies fat, buf
      ensures Shape()
      ensures var before, ch := old(buf[..ENTRY * n]), StartChain(v, o, idx);
              if ch == [] then NotOnCard(start)
              else
                && start == Some(ch[0]) && Tidy() && Mem() == StartFat(v, o, idx)
                && 3 <= ch[0] < |v.fat|
                && buf[..ENTRY * n] == PutEntry(before, idx, WithStart(EntryAt(before, idx), ch[0]))
    {
      FreeFromIsFreeList(v.fat, ScanStart(3));
      start := FindFreeCluster(3);
      SearchInMemory(3, start);
      if start.Some? {
        fat[start.value] := LAST_CLUSTER;
        StoreStart(buf, n, idx, start.value);
      }
    }

    method Write(name: CString, data: seq<byte>, nData: u32) returns (r: Result)
      requires Ready() && CommandOk(g, Command.Write(name, data, nData))
      modifies fat, sd
      ensures var out := Step(g, old(Card()), Command.Write(name, data, nData));
              Followed(old(Card()), old(Trace()), out) && r == ResultOf(out)
    {
      r := WriteAt(name, data, nData, Card(), OwnerOf(g, Card()));
    }

    method WriteAt(name: CString, data: seq<byte>, nData: u32, ghost v: Vol, ghost o: Owner) returns (r: Result)
      requires At(v, o) && CommandOk(g, Command.Write(name, data, nData))
      modifies fat, sd
      ensures var out := StepWrite(g, v, o, name, data, nData);
              Followed(v, old(Trace()), out) && r == ResultOf(out)
    {
      var ok, buf, n, idx := Lookup(name, v, o);
      if !ok {
        return Panicked;
      }
      if idx == -1 {
        return Returned(0);
      }
      r := WriteEntry(buf, n, idx, data, nData, v, o);
    }

    /** fat32_write to the entry found: stores the size, sends the data if there is any, writes the directory. */
    method WriteEntry(buf: array<byte>, n: nat, idx: nat, data: seq<byte>, nData: u32, ghost v: Vol, ghost o: Owner)
      returns (r: Result)
      requires At(v, o) && idx < n == |Dir(v.data, o.root)|
      requires Live(Dir(v.data, o.root)[idx]) && Span(ClustersFor(nData, g.ClusterSize()), g.ClusterSize()) <= |data|
      requires ENTRY * n <= buf.Length && buf[..ENTRY * n] == Flat(v.data, o.root)
      modifies fat, sd, buf
      ensures var out := WriteFound(g, v, o, idx, data, nData);
              Followed(v, old(Trace()), out) && r == ResultOf(out)
    {
      StartOfFile(v, o, idx);
      var e: Entry := buf[..ENTRY * n][ENTRY * idx..ENTRY * (idx + 1)];
      assert e == Dir(v.data, o.root)[idx];
      StoreSize(buf, n, idx, nData);
      if nData == 0 {
        CommitDir(buf, n, o, idx, WithSize(e, nData));
        return Returned(1);
      }
      r := WriteFile(buf, n, idx, e, data, nData, v, o, WrittenEntry(v, o, idx, nData));
    }

    /** The start cluster of the file to write, which a file without one gets now. */
    method PrepareFile(buf: array<byte>, n: nat, idx: nat, e: Entry, nData: u32, ghost v: Vol, ghost o: Owner)
      returns (start: Option<nat>)
      requires At(v, o) && idx < n == |o.files|
      requires ENTRY * n <= buf.Length && ENTRY * n == |Flat(v.data, o.root)|
      requires e == Dir(v.data, o.root)[idx] && Live(e)
      requires buf[..ENTRY * n] == PutEntry(Flat(v.data, o.root), idx, WithSize(e, nData))
      modifies fat, buf
      ensures Shape()
      ensures var ch := StartChain(v, o, idx);
              if ch == [] then NotOnCard(start)
              else
                && start == Some(ch[0]) && Tidy() && Mem() == StartFat(v, o, idx)
                && buf[..ENTRY * n] == PutEntry(Flat(v.data, o.root), idx, WrittenEntry(v, o, idx, nData))
    {
      StartOfFile(v, o, idx);
      var cluster := Start(e);
      ghost var sized, final := WithSize(e, nData), WrittenEntry(v, o, idx, nData);
      WrittenEntryIs(v, o, idx, nData, e);
      PutTwice(Flat(v.data, o.root), idx, sized, final);
      if cluster == 0 {
        start := TakeFirst(buf, n, idx, v, o);
      } else {
        start := Some(cluster);
      }
    }

    /** fat32_write with data, after the new size was stored in the entry. */
    method WriteFile(buf: array<byte>, n: nat, idx: nat, e: Entry, data: seq<byte>, nData: u32,
                     ghost v: Vol, ghost o: Owner, ghost final: Entry)
      returns (r: Result)
      requires At(v, o) && idx < n == |o.files| && nData > 0
      requires ENTRY * n <= buf.Length && ENTRY * n == |Flat(v.data, o.root)|
      requires Span(ClustersFor(nData, g.ClusterSize()), g.ClusterSize()) <= |data|
      requires e == Dir(v.data, o.root)[idx] && Live(e) && final == WrittenEntry(v, o, idx, nData)
      requires buf[..ENTRY * n] == PutEntry(Flat(v.data, o.root), idx, WithSize(e, nData))
      modifies fat, sd, buf
      ensures var out := WriteOutcome(g, v, o, idx, data, nData);
              Followed(v, old(Trace()), out) && r == ResultOf(out)
    {
      var start := PrepareFile(buf, n, idx, e, nData, v, o);
      if start.None? {
        return Panicked;
      }
      r := WritePrepared(buf, n, start.value, data, nData, v, o, idx, final);
    }

    /** Where the data phase starts: at the file's chain, or at a spare entry. */
    ghost predicate Prepared(start: nat, v: Vol, o: Owner, idx: nat)
      requires idx < |o.files|
      reads sd, fat
    {
      var ch := StartChain(v, o, idx);
      if ch == [] then g.End() <= start < g.EntryCount() else start == ch[0] && Tidy() && Mem() == StartFat(v, o, idx)
    }

    method WritePrepared(buf: array<byte>, n: nat, start: nat, data: seq<byte>, nData: u32,
                         ghost v: Vol, ghost o: Owner, ghost idx: nat, ghost final: Entry)
      returns (r: Result)
      requires Shape() && v == Card() && SafeWith(g, v, o) && idx < n == |o.files| && nData > 0
      requires Prepared(start, v, o, idx)
      requires ENTRY * n <= buf.Length && ENTRY * n == |Flat(v.data, o.root)|
      requires Span(ClustersFor(nData, g.ClusterSize()), g.ClusterSize()) <= |data|
      requires final == WrittenEntry(v, o, idx, nData)
      requires StartChain(v, o, idx) != [] ==> buf[..ENTRY * n] == PutEntry(Flat(v.data, o.root), idx, final)
      modifies fat, sd
      ensures var out := WriteOutcome(g, v, o, idx, data, nData);
              Followed(v, old(Trace()), out) && r == ResultOf(out)
    {
      ghost var t := Trace();
      if StartChain(v, o, idx) != [] {
        StartProps(g, v, o, idx);
      }
      var done := WriteClusterChain(start, data, nData, StartChain(v, o, idx));
      if !done {
        return Panicked;
      }
      WriteDataSafe(g, v, o, idx, data, nData);
      FinishFile(buf, n, v, t, o, idx, WriteData(g, v, o, idx, data, nData), final);
      return Returned(1);
    }

    /** The directory write that ends fat32_write. */
    method FinishFile(buf: array<byte>, n: nat, ghost v: Vol, ghost t: seq<Vol>, ghost o: Owner, ghost idx: nat,
                      ghost w: Written, ghost e: Entry)
      requires Tidy() && idx < |o.files| && w.trace != []
      requires Card() == After(v, w.trace) && Trace() == t + w.trace && Mem() == w.fat == Card().fat
      requires SafeWith(g, Card(), OwnerAfterData(o, idx, w.chain))
      requires ENTRY * n <= buf.Length && ENTRY * (idx + 1) <= |Flat(Card().data, o.root)|
      requires buf[..ENTRY * n] == PutEntry(Flat(Card().data, o.root), idx, e)
      modifies fat, sd
      ensures var commit := Commit(g, After(v, w.trace), w.fat, OwnerAfterData(o, idx, w.chain), idx, e);
              Followed(v, t, Outcome(w.trace + commit.trace, false, 1))
    {
      ghost var commit := Commit(g, After(v, w.trace), w.fat, OwnerAfterData(o, idx, w.chain), idx, e);
      CommitDir(buf, n, OwnerAfterData(o, idx, w.chain), idx, e);
      AfterConcat(v, w.trace, commit.trace, t);
    }

    /**
     * The loop of fat32_truncate. It stops at the entry type Last of a cluster *number*,
     * so it walks one entry at a time; false is the panic on a reserved value, which only
     * the media entry behind start cluster 0 can hold.
     */
    method TruncateLoop(start: u32, length: u32, ghost ch: Chain) returns (ok: bool)
      requires Tidy() && MediaEntry(Mem())
      requires if start == 0 then ch == [] else IsChain(Mem(), ch) && ch[0] == start
      modifies fat
      ensures ok == (start != 0 || TypeOf(old(Mem())[0]) == Last)
      ensures Tidy() && (ok ==> Mem() == Truncated(old(Mem()), ch, length, g.ClusterSize()))
    {
      var left, current := length, start;
      ghost var i, table, k := 0, Mem(), ClustersFor(length, g.ClusterSize());
      WalkStart(table, ch, start);
      while TypeOf(current) != Last
        invariant Tidy() && Walking(table, Mem(), ch, start, k, i, current)
        invariant ClustersFor(left, g.ClusterSize()) == if i <= k then k - i else 0
        decreases |Walk(ch)| - i
      {
        if TypeOf(current) == Panic {
          return false;
        }
        current, left := TruncateStep(current, left, table, ch, start, k, i);
        i := i + 1;
      }
      MarkedAll(table, Mem(), ch, length, g.ClusterSize());
      return true;
    }

    /** One turn of the loop. */
    method TruncateStep(current: u32, left: u32, ghost table: Fat, ghost ch: Chain, ghost start: u32,
                        ghost k: nat, ghost i: nat)
      returns (next: u32, left': u32)
      requires Tidy() && MediaEntry(table) && |table| <= 0x0FFF_FFF0
      requires if start == 0 then ch == [] else IsChain(table, ch) && ch[0] == start
      requires i < |Walk(ch)| && Walking(table, Mem(), ch, start, k, i, current)
      requires ClustersFor(left, g.ClusterSize()) == if i <= k then k - i else 0
      modifies fat
      ensures Tidy() && Walking(table, Mem(), ch, start, k, i + 1, next)
      ensures ClustersFor(left', g.ClusterSize()) == if i + 1 <= k then k - (i + 1) else 0
    {
      var cs := g.ClusterSize();
      var bytes := if left > cs then cs else left;
      next := fat[current];
      left' := left - bytes;
      ghost var before := Mem();
      WalkStep(table, before, ch, start, k, i);
      if left - bytes == 0 {
        if left > 0 {
          SetEntry(current, LAST_CLUSTER);
        } else {
          SetEntry(current, FREE_CLUSTER);
        }
      }
      MarkStep(table, before, Mem(), Walk(ch), k, i);
    }

    method Truncate(name: CString, length: u32) returns (r: Result)
      requires Ready()
      modifies fat, sd
      ensures var out := Step(g, old(Card()), Command.Truncate(name, length));
              Followed(old(Card()), old(Trace()), out) && r == ResultOf(out)
    {
      r := TruncateAt(name, length, Card(), OwnerOf(g, Card()));
    }

    method TruncateAt(name: CString, length: u32, ghost v: Vol, ghost o: Owner) returns (r: Result)
      requires At(v, o) && MediaEntry(v.fat)
      modifies fat, sd
      ensures var out := StepTruncate(g, v, o, name, length);
              Followed(v, old(Trace()), out) && r == ResultOf(out)
    {
      var ok, buf, n, idx := Lookup(name, v, o);
      if !ok {
        return Panicked;
      }
      if idx == -1 {
        return Returned(0);
      }
      ok := TruncateEntry(buf, n, idx, length, Dir(v.data, o.root)[idx], v, o);
      if !ok {
        return Panicked;
      }
      CommitDir(buf, n, o, idx, WithSize(Dir(v.data, o.root)[idx], length));
      return Returned(0);
    }

    /** Stores the new size in memory and cuts the chain there. */
    method TruncateEntry(buf: array<byte>, n: nat, idx: nat, length: u32, ghost e: Entry, ghost v: Vol, ghost o: Owner)
      returns (ok: bool)
      requires At(v, o) && MediaEntry(v.fat) && idx < n == |o.files|
      requires e == Dir(v.data, o.root)[idx] && Live(e)
      requires ENTRY * n <= buf.Length && buf[..ENTRY * n] == Flat(v.data, o.root)
      modifies fat, buf
      ensures Tidy() && ok == (Start(e) != 0 || TypeOf(v.fat[0]) == Last)
      ensures ok ==> buf[..ENTRY * n] == PutEntry(Flat(v.data, o.root), idx, WithSize(e, length))
      ensures ok ==> Mem() == Truncated(v.fat, o.files[idx], length, g.ClusterSize()) && IsChain(Mem(), o.root)
    {
      StartOfFile(v, o, idx);
      var start := Start(buf[..ENTRY * n][ENTRY * idx..ENTRY * (idx + 1)]);
      StoreSize(buf, n, idx, length);
      ok := TruncateLoop(start, length, o.files[idx]);
      if ok {
        TruncatedKeeps(v.fat, o.files[idx], length, g.ClusterSize(), o.root);
      }
    }

    /**
     * fat32_read. It panics when the file has no cluster, or when one of the two stray reads
     * is off the card, and goes through a null pointer exactly when the name is not there.
     */
    method Read(name: CString) returns (r: FileRead)
      requires Ready() && ChainFits(Card(), OwnerOf(g, Card()), name)
      ensures ReadAs(r, Card(), OwnerOf(g, Card()), name)
    {
      r := ReadAt(name, Card(), OwnerOf(g, Card()));
    }

    /** The chain of the file, if there is one, has fewer than 2^32 bytes. */
    ghost predicate ChainFits(v: Vol, o: Owner, name: CString)
      requires InRange(o.root, |v.data|) && |o.files| == |Dir(v.data, o.root)|
    {
      var idx := Find(Dir(v.data, o.root), name);
      idx < |o.files| ==> Span(|o.files[idx]|, g.ClusterSize()) < 0x1_0000_0000
    }

    /** A read returns the file when it should, and then with the contents and the size that the volume holds. */
    ghost predicate ReadAs(r: FileRead, v: Vol, o: Owner, name: CString)
      requires g.Ok() && SafeWith(g, v, o)
      reads if r.File? then {r.data} else {}
    {
      && (r.NullEntry? <==> StrayReadOk(g, v.fat, o.root) && Find(Dir(v.data, o.root), name) == |Dir(v.data, o.root)|)
      && (r.File? <==> ReadReturns(g, v, o, name))
      && (r.File? ==>
            var found := Peek(v, o, name);
            && found.Contents? && r.n == found.n && r.alloc == |found.bytes| <= r.data.Length
            && r.data[..r.alloc] == found.bytes)
    }

    method ReadAt(name: CString, ghost v: Vol, ghost o: Owner) returns (r: FileRead)
      requires At(v, o) && ChainFits(v, o, name)
      ensures ReadAs(r, v, o, name)
    {
      var ok, buf, n, idx := Lookup(name, v, o);
      if !ok {
        return ReadPanic;
      }
      if idx == -1 {
        return NullEntry;
      }
      r := ReadEntry(buf, n, idx, v, o);
    }

    /** fat32_read of the entry found. */
    method ReadEntry(buf: array<byte>, n: nat, idx: nat, ghost v: Vol, ghost o: Owner) returns (r: FileRead)
      requires At(v, o) && idx < n == |Dir(v.data, o.root)| && Live(Dir(v.data, o.root)[idx])
      requires Span(|o.files[idx]|, g.ClusterSize()) < 0x1_0000_0000
      requires ENTRY * n <= buf.Length && buf[..ENTRY * n] == Flat(v.data, o.root)
      ensures !r.NullEntry?
      ensures FileOk(v.fat, Dir(v.data, o.root)[idx], o.files[idx])
      ensures r.File? <==> o.files[idx] != [] && StrayReadOk(g, v.fat, o.files[idx])
      ensures r.File? ==>
                && r.n == Size(Dir(v.data, o.root)[idx]) && r.alloc == |Flat(v.data, o.files[idx])| <= r.data.Length
                && r.data[..r.alloc] == Flat(v.data, o.files[idx])
    {
      StartOfFile(v, o, idx);
      var e: Entry := buf[..ENTRY * n][ENTRY * idx..ENTRY * (idx + 1)];
      assert e == Dir(v.data, o.root)[idx];
      if Start(e) < 2 {
        return ReadPanic;
      }
      r := ReadFile(e, o.files[idx], v);
    }

    /** fat32_read once the entry is known: the chain's length, a buffer, and the clusters. */
    method ReadFile(e: Entry, ghost ch: Chain, ghost v: Vol) returns (r: FileRead)
      requires Shape() && v == Card() && Mem() == v.fat && IsChain(v.fat, ch) && ch[0] == Start(e)
      requires Span(|ch|, g.ClusterSize()) < 0x1_0000_0000
      ensures !r.NullEntry? && r.File? == StrayReadOk(g, v.fat, ch)
      ensures r.File? ==>
                && r.n == Size(e) && r.alloc == |Flat(v.data, ch)| <= r.data.Length
                && r.data[..r.alloc] == Flat(v.data, ch)
    {
      var len := ChainLength(Start(e), ch);
      g.ClusterSizeIsWhole();
      BufferSizes(len, g.ClusterSize());
      FlatBlocks(v.data, ch, g.ClusterSize());
      var size := len * g.ClusterSize();
      var data := new byte[size + g.ClusterSize()](_ => 0);
      var ok := ReadClusterChain(Start(e), data, ch);
      if !ok {
        return ReadPanic;
      }
      return File(data, Size(e), size);
    }

    /**
     * The client's run (sig_save): delete the name, create it, write the data. False means
     * that one of the three panicked; the client's own asserts never fail.
     */
    method Save(name: CString, data: seq<byte>, n: u32) returns (ok: bool)
      requires Ready() && NamesOk(Dir(Card().data, OwnerOf(g, Card()).root)) && IsDotted(name)
      requires n > 0 && CommandOk(g, Command.Write(name, data, n))
      modifies fat, sd
      ensures ok ==>
                && Ready()
                && Reads(Peek(Card(), OwnerOf(g, Card()), name), data, n)
                && forall other: CString :: other != name ==>
                     Peek(Card(), OwnerOf(g, Card()), other) == old(Peek(Card(), OwnerOf(g, Card()), other))
    {
      ghost var v := Card();
      var deleted := Delete(name);
      if deleted.Panicked? {
        return false;
      }
      ReadyAgain(v, Command.Delete(name));
      ghost var v1 := Card();
      var created := Create(name, false);
      if created.Panicked? {
        return false;
      }
      ReadyAgain(v1, Command.Create(name, false));
      ghost var v2 := Card();
      var written := Write(name, data, n);
      if written.Panicked? {
        return false;
      }
      ReadyAgain(v2, Command.Write(name, data, n));
      DeleteCreateWriteRun(g, v, v1, v2, Card(), name, data, n);
      assert created == Returned(1) && written == Returned(1);
      return true;
    }

    /** Any one of the modifying operations. */
    method Do(cmd: Command) returns (r: Result)
      requires Ready() && CommandOk(g, cmd)
      modifies fat, sd
      ensures var out := Step(g, old(Card()), cmd);
              Followed(old(Card()), old(Trace()), out) && r == ResultOf(out)
    {
      match cmd
      case Create(name, isDir) => r := Create(name, isDir);
      case Delete(name) => r := Delete(name);
      case Rename(oldName, newName) => r := Rename(oldName, newName);
      case Write(name, mem, n) => r := Write(name, mem, n);
      case Truncate(name, length) => r := Truncate(name, length);
    }

    /**
     * A client that calls one operation after the other passes through exactly the device states of the
     * specified run, up to the first panic; so each of these states can be mounted.
     */
    method Execute(cmds: seq<Command>) returns (panicked: bool)
      requires Ready() && AllAdmissible(g, cmds)
      modifies fat, sd
      ensures Shape() && Trace() == old(Trace()) + Run(g, old(Card()), cmds)
      ensures Card() == After(old(Card()), Run(g, old(Card()), cmds))
      ensures AllMounted(g, Run(g, old(Card()), cmds))
      ensures !panicked ==> Ready()
    {
      ghost var v0, t0 := Card(), Trace();
      RunSafe(g, v0, cmds);
      var i := 0;
      while i < |cmds|
        invariant 0 <= i <= |cmds| && Ready()
        invariant AllAdmissible(g, cmds[i..])
        invariant t0 + Run(g, v0, cmds) == Trace() + Run(g, Card(), cmds[i..])
        invariant After(v0, Run(g, v0, cmds)) == After(Card(), Run(g, Card(), cmds[i..]))
      {
        ghost var v, t := Card(), Trace();
        assert cmds[i..][0] == cmds[i] && cmds[i..][1..] == cmds[i + 1..];
        assert Admissible(g, cmds[i..][0]);
        RunUnfolds(v, cmds[i..], t);
        var r := Do(cmds[i]);
        if r == Panicked {
          return true;
        }
        ReadyAgain(v, cmds[i]);
        i := i + 1;
      }
      return false;
    }

    /** A run is its first command and the rest. */
    lemma RunUnfolds(v: Vol, cmds: seq<Command>, t: seq<Vol>)
      requires Mounted(g, v) && AllAdmissible(g, cmds) && cmds != []
      ensures Admissible(g, cmds[0]) && AllAdmissible(g, cmds[1..])
      ensures var out := Step(g, v, cmds[0]);
              var next := After(v, out.trace);
              && Mounted(g, next)
              && t + Run(g, v, cmds) == t + out.trace + (if out.halted then [] else Run(g, next, cmds[1..]))
              && After(v, Run(g, v, cmds)) == if out.halted then next else After(next, Run(g, next, cmds[1..]))
    {
      assert Admissible(g, cmds[0]);
      StepSafe(g, v, cmds[0]);
      var out := Step(g, v, cmds[0]);
      if !out.halted {
        AfterConcat(v, out.trace, Run(g, After(v, out.trace), cmds[1..]), t);
      }
    }

    /** After a command that returned, the driver is ready for the next one. */
    lemma ReadyAgain(v0: Vol, cmd: Command)
      requires Mounted(g, v0) && Admissible(g, cmd)
      requires Tidy() && Card() == After(v0, Step(g, v0, cmd).trace) && Mem() == Card().fat
      ensures Ready()
    {
      StepSafe(g, v0, cmd);
    }
  }

  /**
   * What fat32_read returns: the buffer, n_data and n_alloc. Of a name that is not there it uses the null
   * pointer that fat32_stat returns.
   */
  datatype FileRead = ReadPanic | NullEntry | File(data: array<byte>, n: u32, alloc: nat)

  // ---------------------------------------------------------------- the truncating walk

  /** The entries that the truncating loop visits: the chain's, or the media entry. */
  function Walk(ch: Chain): Chain
  {
    if ch == [] then [0] else ch
  }

  function MarkedEntry(fat: Fat, walk: Chain, k: nat, i: nat, m: nat): u32
    requires m < |walk| && walk[m] < |fat|
  {
    if m >= i || m + 1 < k then fat[walk[m]] else if m + 1 == k then LAST_CLUSTER else FREE_CLUSTER
  }

  /** What the loop has done to the first i entries of its walk, k clusters being needed. */
  ghost predicate Marked(fat: Fat, fat': Fat, walk: Chain, k: nat, i: nat)
    requires i <= |walk|
  {
    && |fat'| == |fat|
    && (forall m :: 0 <= m < |walk| ==> walk[m] < |fat| && fat'[walk[m]] == MarkedEntry(fat, walk, k, i, m))
    && forall c :: 0 <= c < |fat| && c !in walk ==> fat'[c] == fat[c]
  }

  /** The loop at its i-th cluster: where it is, and what it has done to the FAT. */
  ghost predicate Walking(fat: Fat, fat': Fat, ch: Chain, start: u32, k: nat, i: nat, current: u32) {
    var walk := Walk(ch);
    && i <= |walk| && Marked(fat, fat', walk, k, i)
    && (if i < |walk| then
          current == walk[i] && TypeOf(current) != Last && TypeOf(current) != Panic
        else
          current == fat[walk[i - 1]] && (TypeOf(current) == Last || (start == 0 && TypeOf(current) == Panic)))
  }

  lemma WalkStart(fat: Fat, ch: Chain, start: u32)
    requires MediaEntry(fat) && |fat| <= 0x0FFF_FFF0
    requires if start == 0 then ch == [] else IsChain(fat, ch) && ch[0] == start
    ensures Walk(ch)[0] == start && TypeOf(start) != Last && TypeOf(start) != Panic
    ensures forall k: nat :: Marked(fat, fat, Walk(ch), k, 0)
  {
  }

  /** One step along the walk. */
  lemma WalkStep(fat: Fat, fat': Fat, ch: Chain, start: u32, k: nat, i: nat)
    requires MediaEntry(fat) && |fat| <= 0x0FFF_FFF0
    requires if start == 0 then ch == [] else IsChain(fat, ch) && ch[0] == start
    requires i < |Walk(ch)| && Marked(fat, fat', Walk(ch), k, i)
    ensures var walk := Walk(ch);
            && walk[i] < |fat| && fat'[walk[i]] == fat[walk[i]]
            && (i + 1 < |walk| ==>
                  fat[walk[i]] == walk[i + 1] && TypeOf(fat[walk[i]]) != Last && TypeOf(fat[walk[i]]) != Panic)
            && (i + 1 == |walk| ==> TypeOf(fat[walk[i]]) == Last || (start == 0 && TypeOf(fat[walk[i]]) == Panic))
  {
    assert fat'[Walk(ch)[i]] == MarkedEntry(fat, Walk(ch), k, i, i);
    if ch != [] {
      LinkType(fat, ch, i);
    }
  }

  /** Marking entry i of the walk. */
  lemma MarkStep(fat: Fat, before: Fat, after: Fat, walk: Chain, k: nat, i: nat)
    requires i < |walk| && NoDup(walk) && Marked(fat, before, walk, k, i) && walk[i] < |fat|
    requires var mark := if i + 1 == k then LAST_CLUSTER else FREE_CLUSTER;
             after == before[walk[i] := if i + 1 < k then before[walk[i]] else mark]
    ensures Marked(fat, after, walk, k, i + 1)
  {
    forall m | 0 <= m < |walk|
      ensures walk[m] < |fat| && after[walk[m]] == MarkedEntry(fat, walk, k, i + 1, m)
    {
      assert before[walk[m]] == MarkedEntry(fat, walk, k, i, m);
    }
  }

  /** The finished walk is the truncated FAT. */
  lemma MarkedAll(fat: Fat, fat': Fat, ch: Chain, length: nat, cs: nat)
    requires cs > 0 && 0 < |fat| <= 0x0FFF_FFF0 && (ch != [] ==> IsChain(fat, ch))
    requires Marked(fat, fat', Walk(ch), ClustersFor(length, cs), |Walk(ch)|)
    ensures fat' == Truncated(fat, ch, length, cs)
  {
    var walk, k := Walk(ch), ClustersFor(length, cs);
    assert forall m :: 0 <= m < |walk| ==> fat'[walk[m]] == MarkedEntry(fat, walk, k, |walk|, m);
    if 0 < |ch| && k <= |ch| {
      MarkedIsRelink(fat, fat', ch, k);
      RelinkUnique(fat, fat', Truncated(fat, ch, length, cs), ch, ch[..k], LAST_CLUSTER);
    } else {
      forall c | 0 <= c < |fat|
        ensures fat'[c] == Truncated(fat, ch, length, cs)[c]
      {
        if c in walk {
          var m :| 0 <= m < |walk| && walk[m] == c;
          assert fat'[walk[m]] == MarkedEntry(fat, walk, k, |walk|, m);
        }
      }
    }
  }

  lemma MarkedIsRelink(fat: Fat, fat': Fat, ch: Chain, k: nat)
    requires IsChain(fat, ch) && |fat| <= 0x0FFF_FFF0 && k <= |ch|
    requires Marked(fat, fat', ch, k, |ch|)
    ensures IsRelink(fat, fat', ch, ch[..k], LAST_CLUSTER)
  {
    forall m | 0 <= m < |ch|
      ensures fat'[ch[m]] == MarkedEntry(fat, ch, k, |ch|, m)
    {
    }
    forall m | 0 <= m < k - 1
      ensures fat'[ch[..k][m]] == ch[..k][m + 1]
    {
      LinkType(fat, ch, m);
      assert fat'[ch[m]] == MarkedEntry(fat, ch, k, |ch|, m);
    }
    if k > 0 {
      assert fat'[ch[k - 1]] == MarkedEntry(fat, ch, k, |ch|, k - 1);
    }
    forall c | 0 <= c < |fat| && c !in ch[..k]
      ensures fat'[c] == if c in ch then FREE_CLUSTER else fat[c]
    {
      if c in ch {
        var m :| 0 <= m < |ch| && ch[m] == c;
        assert forall q :: 0 <= q < k ==> ch[..k][q] == ch[q];
        assert fat'[ch[m]] == MarkedEntry(fat, ch, k, |ch|, m);
      }
    }
  }

  lemma AfterConcat(v: Vol, a: seq<Vol>, b: seq<Vol>, t: seq<Vol>)
    ensures After(v, a + b) == After(After(v, a), b)
    ensures t + a + b == t + (a + b)
  {
  }

  lemma WrittenEntryIs(v: Vol, o: Owner, idx: nat, n: u32, e: Entry)
    requires InRange(o.root, |v.data|) && idx < |Dir(v.data, o.root)| == |o.files| && |v.fat| <= 0x0FFF_FFF0
    requires e == Dir(v.data, o.root)[idx]
    ensures var ch := StartChain(v, o, idx);
            if o.files[idx] == [] && ch != [] then
              ch[0] < |v.fat| && WrittenEntry(v, o, idx, n) == WithStart(WithSize(e, n), ch[0])
            else WrittenEntry(v, o, idx, n) == WithSize(e, n)
  {
    FreeFromIsFreeList(v.fat, ScanStart(3));
  }

  lemma CutPut(whole: seq<byte>, n: nat, at: nat, b: seq<byte>)
    requires at + |b| <= n <= |whole|
    ensures (whole[..at] + b + whole[at + |b|..])[..n] == whole[..n][..at] + b + whole[..n][at + |b|..]
  {
  }

  /** The FAT in memory after a file's chain, if any, was freed. */
  lemma DetachedIs(fat: Fat, fat': Fat, ch: Chain, root: Chain)
    requires |fat| <= 0x0FFF_FFF0 && IsChain(fat, root) && Disjoint(root, ch)
    requires if ch == [] then fat' == fat else IsRelink(fat, fat', ch, [], END_OF_CHAIN)
    ensures fat' == Relink(fat, ch, [], END_OF_CHAIN) && IsChain(fat', root)
  {
    RelinkUnique(fat, fat', Relink(fat, ch, [], END_OF_CHAIN), ch, [], END_OF_CHAIN);
    RelinkKeepsOthers(fat, fat', ch, [], END_OF_CHAIN, root);
  }

  /** What an operation gives back: its result, or nothing when it panics. */
  datatype Result = Panicked | Returned(ret: int)

  function ResultOf(out: Outcome): Result
  {
    if out.halted then Panicked else Returned(out.ret)
  }

  lemma BufferSizes(len: nat, cs: nat)
    requires cs % ENTRY == 0
    ensures len * cs == Span(len, cs) && Span(len + 1, cs) == Span(len, cs) + cs
    ensures ENTRY * (len * cs / ENTRY) == Span(len, cs)
  {
    SpanIsProduct(len, cs);
    SpanOfEntries(len, cs);
  }

  lemma FlatNext(data: Data, ch: Chain, i: nat)
    requires InRange(ch, |data|) && i < |ch|
    ensures Flat(data, ch[..i + 1]) == Flat(data, ch[..i]) + data[ch[i]]
  {
    assert ch[..i + 1][..i] == ch[..i];
  }

  lemma NumberType(c: u32, n: nat)
    requires 2 <= c < n <= 0x0FFF_FFF0
    ensures TypeOf(c) == Used
  {
  }

  lemma LinkType(fat: Fat, ch: Chain, i: nat)
    requires IsChain(fat, ch) && |fat| <= 0x0FFF_FFF0 && i < |ch|
    ensures i < |ch| - 1 ==> fat[ch[i]] == ch[i + 1]
    ensures TypeOf(fat[ch[i]]) == if i < |ch| - 1 then Used else Last
  {
    if i < |ch| - 1 {
      assert fat[ch[i]] == ch[i + 1];
    }
  }

  /** Where the walk along a chain is after cluster number i. */
  lemma NextInChain(fat: Fat, ch: Chain, i: nat, current: u32)
    requires IsChain(fat, ch) && |fat| <= 0x0FFF_FFF0 && i <= |ch|
    requires current == if i < |ch| then ch[i] else fat[ch[|ch| - 1]]
    requires TypeOf(current) != Last
    ensures i < |ch| && fat[current] == if i + 1 < |ch| then ch[i + 1] else fat[ch[|ch| - 1]]
    ensures (TypeOf(fat[current]) == Last) == (i + 1 == |ch|)
    ensures 2 <= fat[current] && (i + 1 < |ch| ==> fat[current] < |fat|)
  {
    if i < |ch| - 1 {
      assert fat[ch[i]] == ch[i + 1];
    }
  }
}
