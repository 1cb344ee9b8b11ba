/**
 * Power loss in the middle of a device write. A write of several sectors, such as a whole FAT copy, may leave
 * a prefix of its sectors on the card. This module says exactly which commands are safe against that too.
 */
module Torn {
  import opened Bytes
  import opened Names
  import opened Layout
  import opened Chains
  import opened Dirents
  import opened Volume
  import opened Operations
  import opened CrashSafety
  import opened Runs
  import opened Conservation
  import opened Truncation
  import opened RoundTrip

  // ---------------------------------------------------------------- torn states

  /** The first m elements are new. */
  function Mix<T>(a: seq<T>, b: seq<T>, m: nat): (r: seq<T>)
    requires |a| == |b|
    ensures |r| == |a|
    ensures forall i :: 0 <= i < |a| ==> r[i] == if i < m then b[i] else a[i]
  {
    if m <= |a| then b[..m] + a[m..] else b
  }

  /** The clusters of two volumes have the same sizes. */
  ghost predicate SameShape(s: Vol, t: Vol)
  {
    && |s.fat| == |t.fat| && |s.data| == |t.data|
    && forall c :: 0 <= c < |s.data| ==> |s.data[c]| == |t.data[c]|
  }

  /** The card after the first k sectors of the device write that leads from s to t. */
  function Torn(s: Vol, t: Vol, k: nat): Vol
    requires SameShape(s, t)
  {
    Vol(Mix(s.fat, t.fat, WORDS_PER_SECTOR * k),
        seq(|s.data|, c requires 0 <= c < |s.data| => Mix(s.data[c], t.data[c], SECTOR * k)))
  }

  /** Sending the first k of nsec sectors is sending all of them, the rest being what the card holds. */
  lemma PutPrefix(img: Image, lba: nat, b: seq<byte>, nsec: nat, k: nat)
    requires SECTOR * (lba + nsec) <= |img| && |b| == SECTOR * nsec && k <= nsec
    ensures SECTOR * k <= |b| && SECTOR * lba + SECTOR * k <= |img|
    ensures Put(img, lba, b[..SECTOR * k]) == Put(img, lba, Mix(Get(img, lba, nsec), b, SECTOR * k))
  {
  }

  /** What the first sectors of a cluster's write leave on the card. */
  lemma TornClusterWrite(g: Geometry, img: Image, c: nat, block: seq<byte>, k: nat)
    requires g.Ok() && |img| == SECTOR * g.sectors
    requires 2 <= c < g.End() && |block| == g.ClusterSize() && k <= g.spc
    ensures SECTOR * k <= |block| && SECTOR * g.Place(c) + SECTOR * k <= |img|
    ensures var s := Abs(g, img);
            var t := s.(data := s.data[c := block]);
            SameShape(s, t) && Abs(g, Put(img, g.Place(c), block[..SECTOR * k])) == Torn(s, t, k)
  {
    OnTheCard(g, c);
    var s := Abs(g, img);
    PutPrefix(img, g.Place(c), block, g.spc, k);
    ClusterWrite(g, img, c, Mix(s.data[c], block, SECTOR * k));
    MixData(s.fat, s.data, s.data[c := block], c, k);
  }

  /** What the first sectors of a FAT flush leave on the card. */
  lemma TornFatWrite(g: Geometry, img: Image, fat: seq<u32>, k: nat)
    requires g.Ok() && |img| == SECTOR * g.sectors && |fat| == g.EntryCount() && k <= g.nsecFat
    ensures SECTOR * k <= |EncodeFat(fat)| && SECTOR * g.fatBegin + SECTOR * k <= |img|
    ensures var s := Abs(g, img);
            var t := s.(fat := fat[..g.End()]);
            SameShape(s, t) && Abs(g, Put(img, g.fatBegin, EncodeFat(fat)[..SECTOR * k])) == Torn(s, t, k)
  {
    PlacesDisjoint(g, 2, g.End());
    var was, b := Get(img, g.fatBegin, g.nsecFat), EncodeFat(fat);
    PutPrefix(img, g.fatBegin, b, g.nsecFat, k);
    DecodeMix(was, b, k);
    DecodeEncode(fat);
    FlushBytes(g, img, Mix(was, b, SECTOR * k));
    MixFat(Abs(g, img), DecodeFat(was), fat, g.End(), k);
  }

  /** A FAT flush, torn. */
  lemma MixFat(s: Vol, was: Fat, fat: Fat, end: nat, k: nat)
    requires |was| == |fat| && end <= |fat| && s.fat == was[..end]
    ensures var t := s.(fat := fat[..end]);
            SameShape(s, t) && Torn(s, t, k) == s.(fat := Mix(was, fat, WORDS_PER_SECTOR * k)[..end])
  {
    var t := s.(fat := fat[..end]);
    forall c | 0 <= c < |s.data|
      ensures Torn(s, t, k).data[c] == s.data[c]
    {
      assert Mix(s.data[c], s.data[c], SECTOR * k) == s.data[c];
    }
    assert Torn(s, t, k).data == s.data;
  }

  lemma DecodeMix(a: seq<byte>, b: seq<byte>, k: nat)
    requires |a| == |b| && SECTOR * k <= |a|
    ensures DecodeFat(Mix(a, b, SECTOR * k)) == Mix(DecodeFat(a), DecodeFat(b), WORDS_PER_SECTOR * k)
  {
    var c := Mix(a, b, SECTOR * k);
    forall i | 0 <= i < |a| / 4
      ensures DecodeFat(c)[i] == if i < WORDS_PER_SECTOR * k then DecodeFat(b)[i] else DecodeFat(a)[i]
    {
      assert c[4 * i..4 * i + 4] == if i < WORDS_PER_SECTOR * k then b[4 * i..4 * i + 4] else a[4 * i..4 * i + 4];
    }
  }

  // ---------------------------------------------------------------- torn directory and data writes

  /** Power loss during the write from s to t leaves a card that can be mounted, whatever got through. */
  ghost predicate TornAt(g: Geometry, s: Vol, t: Vol)
  {
    SameShape(s, t) && forall k: nat :: Mounted(g, Torn(s, t, k))
  }

  /** So it is for every write of a trace that starts at v. */
  ghost predicate TearSafe(g: Geometry, v: Vol, trace: seq<Vol>)
  {
    forall i :: 0 <= i < |trace| ==> TornAt(g, After(v, trace[..i]), trace[i])
  }

  lemma TearSafeConcat(g: Geometry, v: Vol, a: seq<Vol>, b: seq<Vol>)
    ensures TearSafe(g, v, a + b) <==> TearSafe(g, v, a) && TearSafe(g, After(v, a), b)
  {
    assert forall i :: 0 <= i < |a| ==> (a + b)[..i] == a[..i] && (a + b)[i] == a[i];
    forall i | 0 <= i < |b|
      ensures After(v, (a + b)[..|a| + i]) == After(After(v, a), b[..i]) && (a + b)[|a| + i] == b[i]
    {
      assert (a + b)[..|a| + i] == a + b[..i];
    }
    if TearSafe(g, v, a + b) {
      forall i | 0 <= i < |a|
        ensures TornAt(g, After(v, a[..i]), a[i])
      {
        assert TornAt(g, After(v, (a + b)[..i]), (a + b)[i]);
      }
      forall i | 0 <= i < |b|
        ensures TornAt(g, After(After(v, a), b[..i]), b[i])
      {
        assert TornAt(g, After(v, (a + b)[..|a| + i]), (a + b)[|a| + i]);
      }
    }
    if TearSafe(g, v, a) && TearSafe(g, After(v, a), b) {
      forall i | 0 <= i < |a + b|
        ensures TornAt(g, After(v, (a + b)[..i]), (a + b)[i])
      {
        if |a| <= i {
          assert TornAt(g, After(After(v, a), b[..i - |a|]), b[i - |a|]);
        }
      }
    }
  }

  /** Between two directories that differ in one entry there is nothing: the entry lies in one sector. */
  ghost predicate OneSlot(a: Data, b: Data, c: nat, lo: nat)
  {
    && |a| == |b| && c < |a| && b == a[c := b[c]] && |a[c]| == |b[c]| && lo % ENTRY == 0 && lo + ENTRY <= |a[c]|
    && a[c][..lo] == b[c][..lo] && a[c][lo + ENTRY..] == b[c][lo + ENTRY..]
  }

  lemma TornSlot(fat: Fat, a: Data, b: Data, c: nat, lo: nat, k: nat)
    requires OneSlot(a, b, c, lo)
    ensures SameShape(Vol(fat, a), Vol(fat, b)) && SameShape(Vol(fat, b), Vol(fat, a))
    ensures Torn(Vol(fat, a), Vol(fat, b), k) in {Vol(fat, a), Vol(fat, b)}
    ensures Torn(Vol(fat, b), Vol(fat, a), k) in {Vol(fat, a), Vol(fat, b)}
  {
    var cut := SECTOR * k;
    assert cut % ENTRY == 0;
    MixSlot(a[c], b[c], lo, cut);
    MixSlot(b[c], a[c], lo, cut);
    assert a == b[c := a[c]] == a[c := a[c]] && b == b[c := b[c]];
    MixData(fat, a, b, c, k);
    MixData(fat, b, a, c, k);
  }

  lemma MixSlot(a: seq<byte>, b: seq<byte>, lo: nat, cut: nat)
    requires |a| == |b| && lo % ENTRY == 0 && cut % ENTRY == 0 && lo + ENTRY <= |a|
    requires a[..lo] == b[..lo] && a[lo + ENTRY..] == b[lo + ENTRY..]
    ensures Mix(a, b, cut) == if cut <= lo then a else b
  {
    var r := Mix(a, b, cut);
    assert cut > lo ==> cut >= lo + ENTRY;
    forall i | 0 <= i < |a|
      ensures r[i] == if cut <= lo then a[i] else b[i]
    {
      if i < lo {
        assert a[i] == a[..lo][i] == b[..lo][i] == b[i];
      } else if i >= lo + ENTRY {
        assert a[i] == a[lo + ENTRY..][i - lo - ENTRY] == b[lo + ENTRY..][i - lo - ENTRY] == b[i];
      }
    }
  }

  /** A write of one cluster, torn. */
  lemma MixData(fat: Fat, a: Data, b: Data, c: nat, k: nat)
    requires c < |a| == |b| && |a[c]| == |b[c]| && b == a[c := b[c]]
    ensures SameShape(Vol(fat, a), Vol(fat, b))
    ensures Torn(Vol(fat, a), Vol(fat, b), k) == Vol(fat, a[c := Mix(a[c], b[c], SECTOR * k)])
  {
    var t := Torn(Vol(fat, a), Vol(fat, b), k);
    assert t.fat == fat;
    forall d | 0 <= d < |a|
      ensures t.data[d] == a[c := Mix(a[c], b[c], SECTOR * k)][d]
    {
      assert d != c ==> b[d] == a[d];
    }
  }

  // ---------------------------------------------------------------- data writes

  /** Whatever bytes are in a cluster that is not the directory's, the card is as safe as before. */
  lemma SparedCluster(g: Geometry, s: Vol, o: Owner, c: nat, bytes: seq<byte>)
    requires SafeWith(g, s, o) && 2 <= c < |s.data| && c !in o.root && |bytes| == g.ClusterSize()
    ensures SafeWith(g, s.(data := s.data[c := bytes]), o)
  {
    FlatFrame(s.data, s.data[c := bytes], o.root);
  }

  lemma DataWriteTorn(g: Geometry, v: Vol, o: Owner, vis: Chain, buf: seq<byte>, i: nat)
    requires g.Ok() && SafeWith(g, v, o) && MediaEntry(v.fat) && InRange(vis, |v.data|) && NoDup(vis)
    requires Disjoint(o.root, vis) && i < |vis| && Span(|vis|, g.ClusterSize()) <= |buf|
    ensures Span(i + 1, g.ClusterSize()) <= |buf| && Span(i, g.ClusterSize()) <= |buf|
    ensures TornAt(g, Vol(v.fat, Overlay(v.data, vis, buf, g.ClusterSize(), i)),
                   Vol(v.fat, Overlay(v.data, vis, buf, g.ClusterSize(), i + 1)))
  {
    var cs := g.ClusterSize();
    SpansFit(|vis|, cs);
    DataWriteSafe(g, v, o, vis, buf, i);
    OneClusterTorn(g, Vol(v.fat, Overlay(v.data, vis, buf, cs, i)), o, vis[i], Block(buf, i, cs));
  }

  lemma OneClusterTorn(g: Geometry, s: Vol, o: Owner, c: nat, block: seq<byte>)
    requires g.Ok() && SafeWith(g, s, o) && MediaEntry(s.fat)
    requires 2 <= c < |s.data| && c !in o.root && |block| == g.ClusterSize()
    ensures TornAt(g, s, s.(data := s.data[c := block]))
  {
    var t := s.(data := s.data[c := block]);
    assert SameShape(s, t);
    forall k: nat
      ensures Mounted(g, Torn(s, t, k))
    {
      MixData(s.fat, s.data, t.data, c, k);
      SparedCluster(g, s, o, c, Mix(s.data[c], block, SECTOR * k));
    }
  }

  lemma BeforeDataWrite(v: Vol, vis: Chain, buf: seq<byte>, cs: nat, i: nat)
    requires InRange(vis, |v.data|) && i < |vis| && Span(|vis|, cs) <= |buf|
    ensures Span(i, cs) <= |buf|
    ensures After(v, DataWrites(v, vis, buf, cs, |vis|)[..i]) == Vol(v.fat, Overlay(v.data, vis, buf, cs, i))
  {
    SpansFit(|vis|, cs);
    var trace := DataWrites(v, vis, buf, cs, |vis|);
    assert i > 0 ==> trace[..i][i - 1] == trace[i - 1];
  }

  /** All data writes of a chain write are safe to tear. */
  lemma DataWritesTorn(g: Geometry, v: Vol, o: Owner, vis: Chain, buf: seq<byte>)
    requires g.Ok() && SafeWith(g, v, o) && MediaEntry(v.fat) && InRange(vis, |v.data|) && NoDup(vis)
    requires Disjoint(o.root, vis) && Span(|vis|, g.ClusterSize()) <= |buf|
    ensures TearSafe(g, v, DataWrites(v, vis, buf, g.ClusterSize(), |vis|))
  {
    var cs := g.ClusterSize();
    var trace := DataWrites(v, vis, buf, cs, |vis|);
    forall i | 0 <= i < |trace|
      ensures TornAt(g, After(v, trace[..i]), trace[i])
    {
      DataWriteTorn(g, v, o, vis, buf, i);
      BeforeDataWrite(v, vis, buf, cs, i);
    }
  }

  // ---------------------------------------------------------------- directory writes

  /** The last two device states of a directory write: the new directory, then the flush. */
  lemma CommitEnd(g: Geometry, v: Vol, mem: Fat, o: Owner, idx: nat, e: Entry) returns (c: nat, lo: nat)
    requires g.Ok() && SafeWith(g, v, o) && idx < |o.files|
    requires |mem| == |v.fat| && IsChain(mem, o.root)
    ensures var w := Commit(g, v, mem, o, idx, e);
            var data := After(v, w.trace).data;
            && |w.trace| >= 2 && w.trace[|w.trace| - 2] == Vol(v.fat, data)
            && OneSlot(v.data, data, c, lo)
  {
    g.ClusterSizeIsWhole();
    FlatBlocks(v.data, o.root, g.ClusterSize());
    ClustersForFull(|o.root|, g.ClusterSize());
    c, lo := RootWriteEnd(v, mem, o.root, g.ClusterSize(), idx, e, Commit(g, v, mem, o, idx, e));
  }

  lemma RootWriteEnd(v: Vol, mem: Fat, root: Chain, cs: nat, idx: nat, e: Entry, w: Written) returns (c: nat, lo: nat)
    requires cs > 0 && cs % ENTRY == 0 && |mem| == |v.fat| == |v.data| <= 0x0FFF_FFF0 && IsChain(mem, root)
    requires Uniform(v.data, cs) && idx < |Dir(v.data, root)|
    requires var n := |Flat(v.data, root)|;
             && ClustersFor(n, cs) == |root| && Span(|root|, cs) == n
             && w == WriteChain(v, mem, root, PutEntry(Flat(v.data, root), idx, e), n, cs)
    ensures var data := After(v, w.trace).data;
            && |w.trace| >= 2 && w.trace[|w.trace| - 2] == Vol(v.fat, data)
            && OneSlot(v.data, data, c, lo)
  {
    var new_ := PutEntry(Flat(v.data, root), idx, e);
    var j := PutEntryOneBlock(v.data, root, cs, idx, e);
    WriteChainInPlace(v, mem, root, new_, |new_|, cs);
    OverlayOneBlock(v.data, root, new_, cs, |root|, j);
    c, lo := SlotOfEntry(v.data, root, cs, idx, e, j);
  }

  lemma SlotOfEntry(data: Data, root: Chain, cs: nat, idx: nat, e: Entry, j: nat) returns (c: nat, lo: nat)
    requires InRange(root, |data|) && Uniform(data, cs) && cs % ENTRY == 0 && idx < |Dir(data, root)|
    requires OnlyBlock(data, root, PutEntry(Flat(data, root), idx, e), cs, j)
    requires Span(j, cs) <= ENTRY * idx && ENTRY * (idx + 1) <= Span(j + 1, cs)
    ensures OneSlot(data, data[root[j] := Block(PutEntry(Flat(data, root), idx, e), j, cs)], c, lo)
  {
    FlatBlocks(data, root, cs);
    c, lo := root[j], ENTRY * idx - Span(j, cs);
    PlaceInBlock(idx, j, cs, lo);
    EntryInBlock(data, Flat(data, root), cs, idx, e, j, c, lo);
  }

  lemma PlaceInBlock(idx: nat, j: nat, cs: nat, lo: int)
    requires cs % ENTRY == 0 && lo == ENTRY * idx - Span(j, cs)
    ensures lo % ENTRY == 0
  {
    SpanOfEntries(j, cs);
  }

  lemma EntryInBlock(data: Data, buf: seq<byte>, cs: nat, idx: nat, e: Entry, j: nat, c: nat, lo: nat)
    requires c < |data| && Span(j + 1, cs) <= |buf| && Block(buf, j, cs) == data[c] && lo % ENTRY == 0
    requires ENTRY * (idx + 1) <= |buf| && lo == ENTRY * idx - Span(j, cs) && ENTRY * (idx + 1) <= Span(j + 1, cs)
    ensures OneSlot(data, data[c := Block(PutEntry(buf, idx, e), j, cs)], c, lo)
  {
    BlockOfPut(buf, idx, e, j, cs, lo);
    SlotOfBlock(data, c, Block(PutEntry(buf, idx, e), j, cs), lo);
  }

  lemma SlotOfBlock(data: Data, c: nat, block: seq<byte>, lo: nat)
    requires c < |data| && |block| == |data[c]| && lo % ENTRY == 0 && lo + ENTRY <= |block|
    requires data[c][..lo] == block[..lo] && data[c][lo + ENTRY..] == block[lo + ENTRY..]
    ensures OneSlot(data, data[c := block], c, lo)
  {
    assert data[c := block][c] == block;
  }

  lemma BlockOfPut(buf: seq<byte>, idx: nat, e: Entry, j: nat, cs: nat, lo: nat)
    requires ENTRY * (idx + 1) <= |buf| && Span(j + 1, cs) <= |buf|
    requires Span(j, cs) <= ENTRY * idx && ENTRY * (idx + 1) <= Span(j + 1, cs) && lo == ENTRY * idx - Span(j, cs)
    ensures var a, b := Block(buf, j, cs), Block(PutEntry(buf, idx, e), j, cs);
            lo + ENTRY <= |a| == |b| && a[..lo] == b[..lo] && a[lo + ENTRY..] == b[lo + ENTRY..]
  {
    var a, b := Block(buf, j, cs), Block(PutEntry(buf, idx, e), j, cs);
    PutElsewhere(buf, idx, e, Span(j, cs), ENTRY * idx);
    PutElsewhere(buf, idx, e, ENTRY * (idx + 1), Span(j + 1, cs));
    assert a[..lo] == buf[Span(j, cs)..ENTRY * idx] && b[..lo] == PutEntry(buf, idx, e)[Span(j, cs)..ENTRY * idx];
    assert a[lo + ENTRY..] == buf[ENTRY * (idx + 1)..Span(j + 1, cs)];
    assert b[lo + ENTRY..] == PutEntry(buf, idx, e)[ENTRY * (idx + 1)..Span(j + 1, cs)];
  }

  lemma TornSame(s: Vol, k: nat)
    ensures SameShape(s, s) && Torn(s, s, k) == s
  {
    forall c | 0 <= c < |s.data|
      ensures Torn(s, s, k).data[c] == s.data[c]
    {
      assert Mix(s.data[c], s.data[c], SECTOR * k) == s.data[c];
    }
    assert Torn(s, s, k).data == s.data;
  }

  /** A write between the old and the new directory is safe to tear. */
  lemma SlotTorn(g: Geometry, fat: Fat, a: Data, b: Data, c: nat, lo: nat, s: Vol, t: Vol)
    requires OneSlot(a, b, c, lo) && Mounted(g, Vol(fat, a)) && Mounted(g, Vol(fat, b))
    requires s in {Vol(fat, a), Vol(fat, b)} && t in {Vol(fat, a), Vol(fat, b)}
    ensures TornAt(g, s, t)
  {
    TornSlot(fat, a, b, c, lo, 0);
    TornSame(s, 0);
    forall k: nat
      ensures Mounted(g, Torn(s, t, k))
    {
      TornSlot(fat, a, b, c, lo, k);
      TornSame(s, k);
    }
  }

  /** A directory write is safe to tear if and only if the FAT flush that ends it is. */
  lemma CommitTornIff(g: Geometry, v: Vol, mem: Fat, o: Owner, idx: nat, e: Entry)
    requires g.Ok() && SafeWith(g, v, o) && idx < |o.files|
    requires |mem| == |v.fat| && IsChain(mem, o.root)
    requires var after := After(v, Commit(g, v, mem, o, idx, e).trace);
             Mounted(g, v) && Mounted(g, Vol(v.fat, after.data))
    ensures var trace := Commit(g, v, mem, o, idx, e).trace;
            TearSafe(g, v, trace) <==> TornAt(g, Vol(v.fat, After(v, trace).data), After(v, trace))
  {
    var data := CommitShape(g, v, mem, o, idx, e);
    var c, lo := CommitEnd(g, v, mem, o, idx, e);
    FlushDecides(g, v, data, Commit(g, v, mem, o, idx, e), c, lo);
  }

  lemma FlushDecides(g: Geometry, v: Vol, data: Data, w: Written, c: nat, lo: nat)
    requires TwoFaced(v, data, w) && |w.trace| >= 2 && w.trace[|w.trace| - 2] == Vol(v.fat, data)
    requires OneSlot(v.data, data, c, lo) && Mounted(g, v) && Mounted(g, Vol(v.fat, data))
    ensures TearSafe(g, v, w.trace) <==> TornAt(g, Vol(v.fat, data), After(v, w.trace))
  {
    AllButLast(g, v, data, w, c, lo);
    LastWrite(g, v, w.trace);
  }

  /** When all writes but the last are safe to tear, it decides. */
  lemma LastWrite(g: Geometry, v: Vol, trace: seq<Vol>)
    requires |trace| >= 2
    requires forall i :: 0 <= i < |trace| - 1 ==> TornAt(g, After(v, trace[..i]), trace[i])
    ensures TearSafe(g, v, trace) <==> TornAt(g, trace[|trace| - 2], trace[|trace| - 1])
  {
    assert trace[..|trace| - 1][|trace| - 2] == trace[|trace| - 2];
    if TearSafe(g, v, trace) {
      assert TornAt(g, After(v, trace[..|trace| - 1]), trace[|trace| - 1]);
    }
  }

  lemma AllButLast(g: Geometry, v: Vol, data: Data, w: Written, c: nat, lo: nat)
    requires TwoFaced(v, data, w) && OneSlot(v.data, data, c, lo)
    requires Mounted(g, v) && Mounted(g, Vol(v.fat, data))
    ensures forall i :: 0 <= i < |w.trace| - 1 ==> TornAt(g, After(v, w.trace[..i]), w.trace[i])
  {
    forall i | 0 <= i < |w.trace| - 1
      ensures TornAt(g, After(v, w.trace[..i]), w.trace[i])
    {
      assert i > 0 ==> w.trace[..i][i - 1] == w.trace[i - 1];
      SlotTorn(g, v.fat, v.data, data, c, lo, After(v, w.trace[..i]), w.trace[i]);
    }
  }

  // ---------------------------------------------------------------- torn FAT flushes

  /** When every owner's chain reads the same in both FATs, it does in every mix of them. */
  lemma FlushTorn(g: Geometry, s: Vol, fat': Fat, o: Owner)
    requires g.Ok() && SafeWith(g, s, o) && |fat'| == |s.fat| && MediaEntry(s.fat) && MediaEntry(fat')
    requires SameFor(s.fat, fat', o.root)
    requires forall i :: 0 <= i < |o.files| ==> SameFor(s.fat, fat', o.files[i])
    ensures TornAt(g, s, s.(fat := fat'))
  {
    var t := s.(fat := fat');
    assert SameShape(s, t);
    forall k: nat
      ensures Mounted(g, Torn(s, t, k))
    {
      MixFat(s, s.fat, fat', |s.fat|, k);
      assert s.fat[..|s.fat|] == s.fat && fat'[..|s.fat|] == fat';
      var mix := Mix(s.fat, fat', WORDS_PER_SECTOR * k);
      assert mix[..|s.fat|] == mix;
      OwnedFrame(s.fat, Dir(s.data, o.root), o, mix);
      assert SafeWith(g, s.(fat := mix), o);
    }
  }

  /** A FAT in which chain ch has become new_: a prefix of it, or an extension by free clusters above its end. */
  ghost predicate IsMove(fat: Fat, fat': Fat, ch: Chain, new_: Chain)
  {
    && IsChain(fat, ch) && IsChain(fat', new_) && |fat'| == |fat| <= 0x0FFF_FFF0
    && (forall i :: 0 <= i < |ch| && i < |new_| ==> new_[i] == ch[i])
    && (forall i :: |new_| <= i < |ch| ==> TypeOf(fat'[ch[i]]) == Free)
    && forall i :: |ch| <= i < |new_| ==> TypeOf(fat[new_[i]]) == Free && ch[|ch| - 1] < new_[i]
  }

  /** The sector of the FAT that holds a cluster's entry. */
  function SectorOf(c: nat): nat
  {
    c / WORDS_PER_SECTOR
  }

  /**
   * What makes a move safe to tear. Shrinking: no freed entry lies in an earlier sector than the new end
   * mark. Growing: every new entry lies in the sector of the old end mark.
   */
  predicate InOrder(ch: Chain, new_: Chain)
  {
    ch == [] || (
    && new_ != []
    && (forall i :: |new_| <= i < |ch| ==> SectorOf(ch[|new_| - 1]) <= SectorOf(ch[i]))
    && (forall i :: |ch| <= i < |new_| ==> SectorOf(new_[i]) <= SectorOf(ch[|ch| - 1])))
  }

  lemma SectorBelow(c: nat, k: nat)
    ensures c < WORDS_PER_SECTOR * k <==> SectorOf(c) < k
  {
  }

  /** In order: at every sector boundary the old or the new chain is there. */
  lemma InOrderChain(fat: Fat, fat': Fat, ch: Chain, new_: Chain, k: nat)
    requires IsMove(fat, fat', ch, new_) && InOrder(ch, new_)
    ensures var mix := Mix(fat, fat', WORDS_PER_SECTOR * k);
            IsChain(mix, ch) || IsChain(mix, new_)
  {
    if |new_| < |ch| {
      ShrinkInOrder(fat, fat', ch, new_, k);
    } else {
      GrowInOrder(fat, fat', ch, new_, k);
    }
  }

  /** Links that the old and the new chain share are there in every mix. */
  lemma SharedLinks(fat: Fat, fat': Fat, ch: Chain, new_: Chain, k: nat)
    requires IsMove(fat, fat', ch, new_)
    ensures forall i :: 0 <= i < |ch| - 1 && i < |new_| - 1 ==> Mix(fat, fat', WORDS_PER_SECTOR * k)[ch[i]] == ch[i + 1]
  {
    forall i | 0 <= i < |ch| - 1 && i < |new_| - 1
      ensures Mix(fat, fat', WORDS_PER_SECTOR * k)[ch[i]] == ch[i + 1]
    {
      assert fat[ch[i]] == ch[i + 1] && fat'[new_[i]] == new_[i + 1];
    }
  }

  lemma ShrinkInOrder(fat: Fat, fat': Fat, ch: Chain, new_: Chain, k: nat)
    requires IsMove(fat, fat', ch, new_) && InOrder(ch, new_) && |new_| < |ch|
    ensures IsChain(Mix(fat, fat', WORDS_PER_SECTOR * k), if SectorOf(ch[|new_| - 1]) < k then new_ else ch)
  {
    var n, mix := |new_|, Mix(fat, fat', WORDS_PER_SECTOR * k);
    SectorBelow(ch[n - 1], k);
    SharedLinks(fat, fat', ch, new_, k);
    forall i | n <= i < |ch| && SectorOf(ch[n - 1]) >= k
      ensures mix[ch[i]] == fat[ch[i]]
    {
      SectorBelow(ch[i], k);
    }
  }

  lemma GrowInOrder(fat: Fat, fat': Fat, ch: Chain, new_: Chain, k: nat)
    requires IsMove(fat, fat', ch, new_) && InOrder(ch, new_) && |ch| <= |new_|
    ensures IsChain(Mix(fat, fat', WORDS_PER_SECTOR * k), if SectorOf(ch[|ch| - 1]) < k then new_ else ch)
  {
    SharedLinks(fat, fat', ch, new_, k);
    SectorBelow(ch[|ch| - 1], k);
    if SectorOf(ch[|ch| - 1]) < k {
      GrownChain(fat, fat', ch, new_, k);
    }
  }

  lemma GrownChain(fat: Fat, fat': Fat, ch: Chain, new_: Chain, k: nat)
    requires IsMove(fat, fat', ch, new_) && InOrder(ch, new_) && |ch| <= |new_| && SectorOf(ch[|ch| - 1]) < k
    ensures IsChain(Mix(fat, fat', WORDS_PER_SECTOR * k), new_)
  {
    var n, mix := |ch|, Mix(fat, fat', WORDS_PER_SECTOR * k);
    SharedLinks(fat, fat', ch, new_, k);
    forall i | n - 1 <= i < |new_|
      ensures mix[new_[i]] == fat'[new_[i]]
    {
      SectorBelow(new_[i], k);
    }
  }

  /** A path from the start of a chain cannot run into a free entry. */
  lemma {:induction false} DeadEnd(fat: Fat, path: Chain, ch: Chain)
    requires path != [] && InRange(path, |fat|) && |fat| <= 0x0FFF_FFF0
    requires forall i :: 0 <= i < |path| - 1 ==> fat[path[i]] == path[i + 1]
    requires TypeOf(fat[path[|path| - 1]]) == Free
    requires IsChain(fat, ch) && ch[0] == path[0]
    ensures false
  {
    FirstLink(fat, ch);
    if |path| > 1 {
      assert fat[path[0]] == path[1];
      TailIsChain(fat, ch);
      DeadEnd(fat, path[1..], ch[1..]);
    }
  }

  /** The first place from `from` on where a chain enters the first k sectors. */
  lemma FirstBelow(ch: Chain, from: nat, k: nat) returns (at: nat)
    requires exists i :: from <= i < |ch| && SectorOf(ch[i]) < k
    ensures from <= at < |ch| && SectorOf(ch[at]) < k
    ensures forall i :: from <= i < at ==> SectorOf(ch[i]) >= k
    decreases |ch| - from
  {
    at := from;
    if SectorOf(ch[from]) >= k {
      at := FirstBelow(ch, from + 1, k);
    }
  }

  lemma FirstNotBelow(ch: Chain, from: nat, k: nat) returns (at: nat)
    requires exists i :: from <= i < |ch| && SectorOf(ch[i]) >= k
    ensures from <= at < |ch| && SectorOf(ch[at]) >= k
    ensures forall i :: from <= i < at ==> SectorOf(ch[i]) < k
    decreases |ch| - from
  {
    at := from;
    if SectorOf(ch[from]) < k {
      at := FirstNotBelow(ch, from + 1, k);
    }
  }

  /** Out of order: at some sector boundary the start cluster heads no chain. */
  lemma OutOfOrderBreaks(fat: Fat, fat': Fat, ch: Chain, new_: Chain) returns (k: nat)
    requires IsMove(fat, fat', ch, new_) && !InOrder(ch, new_)
    ensures forall c :: IsChain(Mix(fat, fat', WORDS_PER_SECTOR * k), c) ==> c[0] != ch[0]
  {
    var path: Chain;
    if |new_| < |ch| {
      k := SectorOf(ch[|new_| - 1]);
      path := ShrinkBreaks(fat, fat', ch, new_, k);
    } else {
      k := SectorOf(ch[|ch| - 1]) + 1;
      path := GrowBreaks(fat, fat', ch, new_, k);
    }
    forall c | IsChain(Mix(fat, fat', WORDS_PER_SECTOR * k), c)
      ensures c[0] != ch[0]
    {
      if c[0] == ch[0] {
        DeadEnd(Mix(fat, fat', WORDS_PER_SECTOR * k), path, c);
      }
    }
  }

  /** A path that ends at a free entry. */
  ghost predicate Broken(fat: Fat, path: Chain)
  {
    && path != [] && InRange(path, |fat|)
    && (forall i :: 0 <= i < |path| - 1 ==> fat[path[i]] == path[i + 1])
    && TypeOf(fat[path[|path| - 1]]) == Free
  }

  /** The end mark is not there yet, and some entry behind it is already free. */
  lemma ShrinkBreaks(fat: Fat, fat': Fat, ch: Chain, new_: Chain, k: nat) returns (path: Chain)
    requires IsMove(fat, fat', ch, new_) && !InOrder(ch, new_) && |new_| < |ch| && k == SectorOf(ch[|new_| - 1])
    ensures Broken(Mix(fat, fat', WORDS_PER_SECTOR * k), path) && path[0] == ch[0]
  {
    var mix := Mix(fat, fat', WORDS_PER_SECTOR * k);
    var at := FirstBelow(ch, |new_|, k);
    path := ch[..at + 1];
    SectorBelow(ch[at], k);
    forall i | 0 <= i < at
      ensures mix[ch[i]] == ch[i + 1]
    {
      OldLink(fat, fat', ch, new_, k, i);
    }
  }

  /** A link of the old chain is still there: the new chain shares it, or it lies behind the sectors written. */
  lemma OldLink(fat: Fat, fat': Fat, ch: Chain, new_: Chain, k: nat, i: nat)
    requires IsMove(fat, fat', ch, new_) && i < |ch| - 1 && (i >= |new_| - 1 ==> SectorOf(ch[i]) >= k)
    ensures Mix(fat, fat', WORDS_PER_SECTOR * k)[ch[i]] == ch[i + 1]
  {
    SectorBelow(ch[i], k);
    assert fat[ch[i]] == ch[i + 1];
    assert i < |new_| - 1 ==> fat'[new_[i]] == new_[i + 1];
  }

  /** The old end mark is gone, and some entry behind it is not there yet. */
  lemma GrowBreaks(fat: Fat, fat': Fat, ch: Chain, new_: Chain, k: nat) returns (path: Chain)
    requires IsMove(fat, fat', ch, new_) && !InOrder(ch, new_) && |ch| <= |new_| && k == SectorOf(ch[|ch| - 1]) + 1
    ensures Broken(Mix(fat, fat', WORDS_PER_SECTOR * k), path) && path[0] == ch[0]
  {
    var mix := Mix(fat, fat', WORDS_PER_SECTOR * k);
    var at := FirstNotBelow(new_, |ch|, k);
    path := new_[..at + 1];
    SectorBelow(new_[at], k);
    forall i | 0 <= i < at
      ensures mix[new_[i]] == new_[i + 1]
    {
      SectorBelow(new_[i], k);
      assert fat'[new_[i]] == new_[i + 1];
      assert i < |ch| - 1 ==> fat[ch[i]] == ch[i + 1];
    }
  }

  /** A flush that moves one file's chain is safe to tear if and only if the move is in order. */
  lemma FlushTornIff(g: Geometry, s: Vol, o: Owner, idx: nat, fat': Fat, new_: Chain)
    requires Mounted(g, s) && SafeWith(g, s, o) && idx < |o.files| && o.files[idx] != []
    requires IsMove(s.fat, fat', o.files[idx], new_) && MediaEntry(fat')
    requires SameFor(s.fat, fat', o.root) && Spared(s.fat, o, idx, new_)
    requires forall i :: 0 <= i < |o.files| && i != idx ==> SameFor(s.fat, fat', o.files[i])
    ensures TornAt(g, s, s.(fat := fat')) <==> InOrder(o.files[idx], new_)
  {
    var t := s.(fat := fat');
    forall k: nat
      ensures SameShape(s, t) && Torn(s, t, k) == s.(fat := Mix(s.fat, fat', WORDS_PER_SECTOR * k))
    {
      WholeFat(s, fat', k);
    }
    if InOrder(o.files[idx], new_) {
      forall k: nat
        ensures Mounted(g, Torn(s, t, k))
      {
        FlushInOrder(g, s, o, idx, fat', new_, k);
      }
    } else {
      var k := FlushOutOfOrder(g, s, o, idx, fat', new_);
      assert !Mounted(g, Torn(s, t, k));
    }
  }

  lemma FlushInOrder(g: Geometry, s: Vol, o: Owner, idx: nat, fat': Fat, new_: Chain, k: nat)
    requires Mounted(g, s) && SafeWith(g, s, o) && idx < |o.files| && o.files[idx] != []
    requires IsMove(s.fat, fat', o.files[idx], new_) && MediaEntry(fat') && InOrder(o.files[idx], new_)
    requires SameFor(s.fat, fat', o.root) && Spared(s.fat, o, idx, new_)
    requires forall i :: 0 <= i < |o.files| && i != idx ==> SameFor(s.fat, fat', o.files[i])
    ensures Mounted(g, s.(fat := Mix(s.fat, fat', WORDS_PER_SECTOR * k)))
  {
    InOrderChain(s.fat, fat', o.files[idx], new_, k);
    MixedOwner(g, s, o, idx, Mix(s.fat, fat', WORDS_PER_SECTOR * k), new_);
  }

  lemma FlushOutOfOrder(g: Geometry, s: Vol, o: Owner, idx: nat, fat': Fat, new_: Chain) returns (k: nat)
    requires g.Ok() && SafeWith(g, s, o) && idx < |o.files| && o.files[idx] != []
    requires IsMove(s.fat, fat', o.files[idx], new_) && !InOrder(o.files[idx], new_) && SameFor(s.fat, fat', o.root)
    ensures !Safe(g, s.(fat := Mix(s.fat, fat', WORDS_PER_SECTOR * k)))
  {
    k := OutOfOrderBreaks(s.fat, fat', o.files[idx], new_);
    NoOwner(g, s, o, idx, Mix(s.fat, fat', WORDS_PER_SECTOR * k));
  }

  lemma WholeFat(s: Vol, fat': Fat, k: nat)
    requires |fat'| == |s.fat|
    ensures var t := s.(fat := fat');
            SameShape(s, t) && Torn(s, t, k) == s.(fat := Mix(s.fat, fat', WORDS_PER_SECTOR * k))
  {
    MixFat(s, s.fat, fat', |s.fat|, k);
    assert s.fat[..|s.fat|] == s.fat && fat'[..|s.fat|] == fat';
    assert Mix(s.fat, fat', WORDS_PER_SECTOR * k)[..|s.fat|] == Mix(s.fat, fat', WORDS_PER_SECTOR * k);
  }

  /** The file owns the chain that is there, the old or the new one. */
  lemma MixedOwner(g: Geometry, s: Vol, o: Owner, idx: nat, mix: Fat, new_: Chain)
    requires Mounted(g, s) && SafeWith(g, s, o) && idx < |o.files| && o.files[idx] != []
    requires |mix| == |s.fat| && MediaEntry(mix) && SameFor(s.fat, mix, o.root) && Spared(s.fat, o, idx, new_)
    requires forall i :: 0 <= i < |o.files| && i != idx ==> SameFor(s.fat, mix, o.files[i])
    requires new_ != [] && new_[0] == o.files[idx][0] && (IsChain(mix, o.files[idx]) || IsChain(mix, new_))
    ensures Mounted(g, s.(fat := mix))
  {
    var dir := Dir(s.data, o.root);
    var ch := if IsChain(mix, new_) then new_ else o.files[idx];
    assert FileOk(s.fat, dir[idx], o.files[idx]);
    OwnedUpdate(s.fat, dir, o, mix, idx, dir[idx], ch);
    assert dir[idx := dir[idx]] == dir;
    assert SafeWith(g, s.(fat := mix), o.(files := o.files[idx := ch]));
  }

  /** Without a chain at the file's start cluster the card is not safe, whoever owns what. */
  lemma NoOwner(g: Geometry, s: Vol, o: Owner, idx: nat, mix: Fat)
    requires g.Ok() && SafeWith(g, s, o) && idx < |o.files| && o.files[idx] != []
    requires |mix| == |s.fat| && SameFor(s.fat, mix, o.root)
    requires forall c :: IsChain(mix, c) ==> c[0] != o.files[idx][0]
    ensures !Safe(g, s.(fat := mix))
  {
    var dir := Dir(s.data, o.root);
    assert FileOk(s.fat, dir[idx], o.files[idx]);
    forall o'
      ensures !SafeWith(g, s.(fat := mix), o')
    {
      if SafeWith(g, s.(fat := mix), o') {
        ChainFrame(s.fat, mix, o.root);
        ChainUnique(mix, o.root, o'.root);
        assert false;
      }
    }
  }

  // ---------------------------------------------------------------- commands

  /** Commands that leave the chains of the FAT alone, but for the end mark of the root directory. */
  lemma SteadyCommitTorn(g: Geometry, v: Vol, mem: Fat, o: Owner, idx: nat, e: Entry, o': Owner)
    requires Mounted(g, v) && SafeWith(g, v, o) && idx < |o.files| && |mem| == |v.fat| && IsChain(mem, o.root)
    requires o'.root == o.root && Owned(v.fat, Dir(v.data, o.root)[idx := e], o')
    requires SameFor(v.fat, mem, o.root) && MediaEntry(mem)
    requires forall i :: 0 <= i < |o'.files| ==> SameFor(v.fat, mem, o'.files[i])
    ensures TearSafe(g, v, Commit(g, v, mem, o, idx, e).trace)
  {
    var trace := Commit(g, v, mem, o, idx, e).trace;
    var after := After(v, trace);
    AfterCommit(g, v, mem, o, idx, e);
    NewDirSafe(g, v, mem, o, idx, e, o');
    CommitTornIff(g, v, mem, o, idx, e);
    SteadyFat(v.fat, mem, after.fat, o.root, o.root);
    forall i | 0 <= i < |o'.files|
      ensures SameFor(v.fat, after.fat, o'.files[i])
    {
      SteadyFat(v.fat, mem, after.fat, o.root, o'.files[i]);
    }
    assert 0 !in o.root;
    FlushTorn(g, Vol(v.fat, after.data), after.fat, o');
  }

  /** The state before the flush. */
  lemma NewDirSafe(g: Geometry, v: Vol, mem: Fat, o: Owner, idx: nat, e: Entry, o': Owner)
    requires g.Ok() && SafeWith(g, v, o) && idx < |o.files| && |mem| == |v.fat| && IsChain(mem, o.root)
    requires o'.root == o.root && Owned(v.fat, Dir(v.data, o.root)[idx := e], o')
    ensures SafeWith(g, Vol(v.fat, After(v, Commit(g, v, mem, o, idx, e).trace).data), o')
  {
    var data := CommitShape(g, v, mem, o, idx, e);
  }

  lemma SteadyFat(fat: Fat, mem: Fat, fat': Fat, root: Chain, other: Chain)
    requires IsChain(mem, root) && IsRelink(mem, fat', root, root, END_OF_CHAIN) && |fat| == |mem|
    requires SameFor(fat, mem, other) && (other == root || Disjoint(root, other))
    ensures SameFor(fat, fat', other)
  {
    CommitFat(mem, fat', root, if other == root then [] else other);
  }

  lemma DeleteTorn(g: Geometry, v: Vol, o: Owner, name: CString)
    requires Mounted(g, v) && SafeWith(g, v, o)
    ensures TearSafe(g, v, StepDelete(g, v, o, name).trace)
  {
    if StepDelete(g, v, o, name).trace != [] {
      var dir := Dir(v.data, o.root);
      var idx := Find(dir, name);
      var mem := Relink(v.fat, o.files[idx], [], END_OF_CHAIN);
      assert FileOk(v.fat, dir[idx], o.files[idx]);
      assert 0 !in o.files[idx];
      forall i | 0 <= i < |dir| && i != idx
        ensures SameFor(v.fat, mem, o.files[i])
      {
        RelinkedForOthers(v.fat, mem, o.files[idx], [], END_OF_CHAIN, o.files[i]);
      }
      RelinkedForOthers(v.fat, mem, o.files[idx], [], END_OF_CHAIN, o.root);
      RelinkKeepsOthers(v.fat, mem, o.files[idx], [], END_OF_CHAIN, o.root);
      OwnedUpdate(v.fat, dir, o, v.fat, idx, Deleted(dir[idx]), []);
      SteadyCommitTorn(g, v, mem, o, idx, Deleted(dir[idx]), o.(files := o.files[idx := []]));
    }
  }

  /** Create, rename, and a write of no bytes. */
  lemma EntryTorn(g: Geometry, v: Vol, o: Owner, idx: nat, e: Entry)
    requires Mounted(g, v) && SafeWith(g, v, o) && idx < |o.files| && FileOk(v.fat, e, o.files[idx])
    ensures TearSafe(g, v, Commit(g, v, v.fat, o, idx, e).trace)
  {
    OwnedUpdate(v.fat, Dir(v.data, o.root), o, v.fat, idx, e, o.files[idx]);
    assert o.files[idx := o.files[idx]] == o.files;
    SteadyCommitTorn(g, v, v.fat, o, idx, e, o);
  }

  lemma CreateTorn(g: Geometry, v: Vol, o: Owner, name: CString, isDir: bool)
    requires Mounted(g, v) && SafeWith(g, v, o)
    ensures TearSafe(g, v, StepCreate(g, v, o, name, isDir).trace)
  {
    if StepCreate(g, v, o, name, isDir).trace != [] {
      var dir := Dir(v.data, o.root);
      var slot := FreeSlot(dir);
      assert FileOk(v.fat, dir[slot], o.files[slot]);
      FieldsOfFresh(dir[slot], name, isDir);
      EntryTorn(g, v, o, slot, Fresh(dir[slot], name, isDir));
    }
  }

  lemma RenameTorn(g: Geometry, v: Vol, o: Owner, oldName: CString, newName: CString)
    requires Mounted(g, v) && SafeWith(g, v, o)
    ensures TearSafe(g, v, StepRename(g, v, o, oldName, newName).trace)
  {
    if StepRename(g, v, o, oldName, newName).trace != [] {
      var dir := Dir(v.data, o.root);
      var idx := Find(dir, oldName);
      assert FileOk(v.fat, dir[idx], o.files[idx]);
      FieldsOfName(dir[idx], newName);
      EntryTorn(g, v, o, idx, WithName(dir[idx], newName));
    }
  }

  /** A write to a file that has clusters moves its chain. */
  lemma WriteMove(g: Geometry, v: Vol, o: Owner, idx: nat, mem: seq<byte>, n: u32)
    requires g.Ok() && SafeWith(g, v, o) && idx < |o.files| && n > 0 && o.files[idx] != []
    requires Span(ClustersFor(n, g.ClusterSize()), g.ClusterSize()) <= |mem|
    requires WriteData(g, v, o, idx, mem, n).done
    ensures IsMove(v.fat, WriteData(g, v, o, idx, mem, n).fat, o.files[idx], WriteData(g, v, o, idx, mem, n).chain)
  {
    var ch, w := o.files[idx], WriteData(g, v, o, idx, mem, n);
    assert FileOk(v.fat, Dir(v.data, o.root)[idx], ch);
    WrittenChain(g, v, o, idx, mem, n);
    WriteChainShape(v, v.fat, ch, mem, n, g.ClusterSize());
    PooledMove(v.fat, w.fat, ch, w.chain);
  }

  lemma PooledMove(fat: Fat, fat': Fat, ch: Chain, new_: Chain)
    requires IsChain(fat, ch) && IsChain(fat', new_) && InRange(new_, |fat|) && |fat| <= 0x0FFF_FFF0
    requires new_ <= Pool(fat, ch) && IsRelink(fat, fat', ch, new_, END_OF_CHAIN)
    ensures IsMove(fat, fat', ch, new_)
  {
    var last := ch[|ch| - 1];
    AppendedAscend(fat, ch, new_);
    PoolProps(fat, ch);
    ChainInUse(fat, ch);
    FreeFromIsFreeList(fat, ScanStart(last));
    forall i | |ch| <= i < |new_|
      ensures last < new_[i]
    {
      assert new_[i] == FreeFrom(fat, ScanStart(last))[i - |ch|];
      assert last in ch && TypeOf(fat[new_[i]]) == Free;
    }
    forall i | |new_| <= i < |ch|
      ensures TypeOf(fat'[ch[i]]) == Free
    {
      assert ch[i] in ch && ch[i] !in new_ by {
        assert forall j :: 0 <= j < |new_| ==> new_[j] == ch[j];
      }
    }
  }

  lemma DataPhaseTornIff(g: Geometry, v: Vol, o: Owner, idx: nat, mem: seq<byte>, n: u32)
    requires Mounted(g, v) && SafeWith(g, v, o) && idx < |o.files| && n > 0 && StartChain(v, o, idx) != []
    requires Span(ClustersFor(n, g.ClusterSize()), g.ClusterSize()) <= |mem|
    ensures var w := WriteData(g, v, o, idx, mem, n);
            TearSafe(g, v, w.trace) <==> (w.done ==> InOrder(o.files[idx], w.chain))
  {
    var cs, w := g.ClusterSize(), WriteData(g, v, o, idx, mem, n);
    var fat, ch := StartFat(v, o, idx), StartChain(v, o, idx);
    StartProps(g, v, o, idx);
    PoolSpared(g, v, o, idx);
    WriteChainShape(v, fat, ch, mem, n, cs);
    var vis := Visited(fat, ch, n, cs);
    DataWritesTorn(g, v, o, vis, mem);
    DataWriteSafe(g, v, o, vis, mem, |vis|);
    if w.done {
      DataThenFlush(g, v, vis, mem, cs, w);
      DataFlushTornIff(g, v, o, idx, mem, n, Vol(v.fat, Overlay(v.data, vis, mem, cs, |vis|)));
    } else {
      assert w.trace == DataWrites(v, vis, mem, cs, |vis|);
    }
  }

  /** A completed chain write is as safe to tear as its flush. */
  lemma DataThenFlush(g: Geometry, v: Vol, vis: Chain, buf: seq<byte>, cs: nat, w: Written)
    requires InRange(vis, |v.data|) && Span(|vis|, cs) <= |buf| && |w.trace| == |vis| + 1
    requires w.trace[..|vis|] == DataWrites(v, vis, buf, cs, |vis|) && TearSafe(g, v, w.trace[..|vis|])
    requires w.trace[|vis|] == Vol(w.fat, Overlay(v.data, vis, buf, cs, |vis|))
    ensures var s := Vol(v.fat, Overlay(v.data, vis, buf, cs, |vis|));
            TearSafe(g, v, w.trace) <==> TornAt(g, s, s.(fat := w.fat))
  {
    var writes, t := w.trace[..|vis|], w.trace[|vis|];
    assert w.trace == writes + [t];
    TearSafeConcat(g, v, writes, [t]);
    OneStep(g, After(v, writes), t);
  }

  lemma OneStep(g: Geometry, s: Vol, t: Vol)
    ensures TearSafe(g, s, [t]) <==> TornAt(g, s, t)
  {
    assert [t][..0] == [];
    if TearSafe(g, s, [t]) {
      assert TornAt(g, After(s, [t][..0]), [t][0]);
    }
  }

  /** The flush that ends the data phase. */
  lemma DataFlushTornIff(g: Geometry, v: Vol, o: Owner, idx: nat, mem: seq<byte>, n: u32, s: Vol)
    requires Mounted(g, v) && SafeWith(g, v, o) && idx < |o.files| && n > 0 && StartChain(v, o, idx) != []
    requires Span(ClustersFor(n, g.ClusterSize()), g.ClusterSize()) <= |mem|
    requires WriteData(g, v, o, idx, mem, n).done
    requires s.fat == v.fat && SafeWith(g, s, o) && Dir(s.data, o.root) == Dir(v.data, o.root)
    ensures var w := WriteData(g, v, o, idx, mem, n);
            TornAt(g, s, s.(fat := w.fat)) <==> InOrder(o.files[idx], w.chain)
  {
    var w, ch := WriteData(g, v, o, idx, mem, n), StartChain(v, o, idx);
    WrittenChain(g, v, o, idx, mem, n);
    StartProps(g, v, o, idx);
    StartOutside(v, o, idx);
    DataFatOwned(v.fat, Dir(v.data, o.root), o, idx, StartFat(v, o, idx), ch, w.fat, w.chain);
    if o.files[idx] == [] {
      FlushTorn(g, s, w.fat, o);
    } else {
      WriteMove(g, v, o, idx, mem, n);
      FlushTornIff(g, s, o, idx, w.fat, w.chain);
    }
  }

  lemma WriteTornIff(g: Geometry, v: Vol, o: Owner, idx: nat, mem: seq<byte>, n: u32)
    requires Mounted(g, v) && SafeWith(g, v, o) && idx < |o.files| && n > 0 && StartChain(v, o, idx) != []
    requires Span(ClustersFor(n, g.ClusterSize()), g.ClusterSize()) <= |mem|
    requires Live(Dir(v.data, o.root)[idx])
    ensures var w := WriteData(g, v, o, idx, mem, n);
            TearSafe(g, v, WriteOutcome(g, v, o, idx, mem, n).trace) <==> (w.done ==> InOrder(o.files[idx], w.chain))
  {
    var w := WriteData(g, v, o, idx, mem, n);
    DataPhaseTornIff(g, v, o, idx, mem, n);
    if w.done {
      WriteDataSafe(g, v, o, idx, mem, n);
      WriteCommitTorn(g, v, o, idx, mem, n);
      var v1, o1 := After(v, w.trace), OwnerAfterData(o, idx, w.chain);
      TearSafeConcat(g, v, w.trace, Commit(g, v1, w.fat, o1, idx, WrittenEntry(v, o, idx, n)).trace);
    }
  }

  /** The directory write that ends a file write. */
  lemma WriteCommitTorn(g: Geometry, v: Vol, o: Owner, idx: nat, mem: seq<byte>, n: u32)
    requires Mounted(g, v) && SafeWith(g, v, o) && idx < |o.files| && n > 0 && StartChain(v, o, idx) != []
    requires Span(ClustersFor(n, g.ClusterSize()), g.ClusterSize()) <= |mem|
    requires Live(Dir(v.data, o.root)[idx]) && WriteData(g, v, o, idx, mem, n).done
    ensures var w := WriteData(g, v, o, idx, mem, n);
            var v1, o1 := After(v, w.trace), OwnerAfterData(o, idx, w.chain);
            && SafeWith(g, v1, o1) && |w.fat| == |v1.fat| && IsChain(w.fat, o1.root)
            && TearSafe(g, v1, Commit(g, v1, w.fat, o1, idx, WrittenEntry(v, o, idx, n)).trace)
  {
    var w, dir := WriteData(g, v, o, idx, mem, n), Dir(v.data, o.root);
    var v1, o1 := After(v, w.trace), OwnerAfterData(o, idx, w.chain);
    WriteDataSafe(g, v, o, idx, mem, n);
    assert FileOk(v.fat, dir[idx], o.files[idx]);
    WrittenChain(g, v, o, idx, mem, n);
    WrittenStages(v, o, idx, n, w.fat, dir, o1, w.chain);
    assert v1 == w.trace[|w.trace| - 1];
    SteadyCommitTorn(g, v1, w.fat, o1, idx, WrittenEntry(v, o, idx, n), o.(files := o.files[idx := w.chain]));
  }

  /** Truncating moves the chain to its first clusters. */
  lemma TruncateMove(fat: Fat, ch: Chain, length: nat, cs: nat, root: Chain, fat': Fat)
    requires cs > 0 && 0 < |fat| <= 0x0FFF_FFF0 && IsChain(fat, ch) && length > 0
    requires InRange(root, |fat|) && Disjoint(root, ch)
    requires IsRelink(Truncated(fat, ch, length, cs), fat', root, root, END_OF_CHAIN)
    ensures IsMove(fat, fat', ch, Kept(ch, length, cs))
  {
    var mem, kept := Truncated(fat, ch, length, cs), Kept(ch, length, cs);
    TruncatedChain(fat, ch, length, cs);
    UnchangedChain(mem, fat', root, kept);
    forall i | |kept| <= i < |ch|
      ensures TypeOf(fat'[ch[i]]) == Free
    {
      assert ch[i] in ch && ch[i] !in kept;
    }
  }

  lemma TruncateTornIff(g: Geometry, v: Vol, o: Owner, name: CString, length: u32)
    requires Mounted(g, v) && SafeWith(g, v, o) && length > 0 && StepTruncate(g, v, o, name, length).trace != []
    ensures var idx := Find(Dir(v.data, o.root), name);
            && idx < |o.files|
            && (TearSafe(g, v, StepTruncate(g, v, o, name, length).trace)
                <==> InOrder(o.files[idx], Kept(o.files[idx], length, g.ClusterSize())))
  {
    TruncateTrace(g, v, o, name, length);
    TruncateSafe(g, v, o, name, length);
    var dir, cs := Dir(v.data, o.root), g.ClusterSize();
    var idx := Find(dir, name);
    TruncateFlushIff(g, v, o, idx, length, Truncated(v.fat, o.files[idx], length, cs), WithSize(dir[idx], length));
  }

  lemma TruncateFlushIff(g: Geometry, v: Vol, o: Owner, idx: nat, length: u32, mem: Fat, e: Entry)
    requires Mounted(g, v) && SafeWith(g, v, o) && length > 0 && idx < |o.files|
    requires o.files[idx] != [] ==> IsChain(v.fat, o.files[idx])
    requires mem == Truncated(v.fat, o.files[idx], length, g.ClusterSize()) && IsChain(mem, o.root)
    requires e == WithSize(Dir(v.data, o.root)[idx], length)
    requires MediaEntry(After(v, Commit(g, v, mem, o, idx, e).trace).fat)
    ensures var ch := o.files[idx];
            TearSafe(g, v, Commit(g, v, mem, o, idx, e).trace) <==> InOrder(ch, Kept(ch, length, g.ClusterSize()))
  {
    var dir, cs, ch := Dir(v.data, o.root), g.ClusterSize(), o.files[idx];
    var after := After(v, Commit(g, v, mem, o, idx, e).trace);
    AfterCommit(g, v, mem, o, idx, e);
    TruncateStages(v.fat, dir, o, idx, length, cs);
    TruncatedFrame(v.fat, dir, o, idx, length, cs);
    NewDirSafe(g, v, mem, o, idx, e, o);
    CommitTornIff(g, v, mem, o, idx, e);
    forall i | 0 <= i < |o.files| && i != idx
      ensures SameFor(v.fat, after.fat, o.files[i])
    {
      SteadyFat(v.fat, mem, after.fat, o.root, o.files[i]);
    }
    SteadyFat(v.fat, mem, after.fat, o.root, o.root);
    TruncatedFlush(g, v, o, idx, length, mem, Vol(v.fat, after.data), after.fat);
  }

  lemma TruncatedFlush(g: Geometry, v: Vol, o: Owner, idx: nat, length: u32, mem: Fat, s: Vol, fat': Fat)
    requires Mounted(g, s) && SafeWith(g, s, o) && length > 0 && idx < |o.files| && s.fat == v.fat && MediaEntry(fat')
    requires o.files[idx] != [] ==> IsChain(v.fat, o.files[idx])
    requires mem == Truncated(v.fat, o.files[idx], length, g.ClusterSize())
    requires IsRelink(mem, fat', o.root, o.root, END_OF_CHAIN) && SameFor(v.fat, fat', o.root)
    requires forall i :: 0 <= i < |o.files| && i != idx ==> SameFor(v.fat, fat', o.files[i])
    ensures TornAt(g, s, s.(fat := fat')) <==> InOrder(o.files[idx], Kept(o.files[idx], length, g.ClusterSize()))
  {
    if o.files[idx] == [] {
      FlushTorn(g, s, fat', o);
    } else {
      TruncateMove(v.fat, o.files[idx], length, g.ClusterSize(), o.root, fat');
      FlushTornIff(g, s, o, idx, fat', Kept(o.files[idx], length, g.ClusterSize()));
    }
  }

  /** Of a chain that needs k clusters, no entry to be freed lies in an earlier sector than the new end mark. */
  predicate ShrinksInOrder(ch: Chain, k: nat)
  {
    forall i :: 0 < k <= i < |ch| ==> SectorOf(ch[k - 1]) <= SectorOf(ch[i])
  }

  /**
   * When a chain needs k clusters and has fewer, the last one that the searches find, if they find enough, has
   * its entry in the sector of the old end mark.
   */
  predicate GrowsInOrder(fat: Fat, ch: Chain, k: nat)
  {
    0 < |ch| < k <= |Pool(fat, ch)| ==> SectorOf(Pool(fat, ch)[k - 1]) <= SectorOf(ch[|ch| - 1])
  }

  /**
   * What a command will do to the chain of its file happens in order, as the FAT shows before the command.
   * Only writes to files that have clusters, and truncations, can fail it.
   */
  ghost predicate MovesInOrder(g: Geometry, v: Vol, cmd: Command)
    requires Mounted(g, v) && Admissible(g, cmd)
  {
    MovesInOrderAt(g, v, OwnerOf(g, v), cmd)
  }

  ghost predicate MovesInOrderAt(g: Geometry, v: Vol, o: Owner, cmd: Command)
    requires SafeWith(g, v, o) && Admissible(g, cmd)
  {
    match cmd
    case Write(name, mem, n) =>
      var idx, k := Find(Dir(v.data, o.root), name), ClustersFor(n, g.ClusterSize());
      StrayReadOk(g, v.fat, o.root) && idx < |o.files| && n > 0 ==>
        ShrinksInOrder(o.files[idx], k) && GrowsInOrder(v.fat, o.files[idx], k)
    case Truncate(name, length) =>
      var idx := Find(Dir(v.data, o.root), name);
      StrayReadOk(g, v.fat, o.root) && idx < |o.files| ==>
        ShrinksInOrder(o.files[idx], ClustersFor(length, g.ClusterSize()))
    case _ => true
  }

  lemma SectorsAscend(a: nat, b: nat)
    requires a <= b
    ensures SectorOf(a) <= SectorOf(b)
  {
  }

  /** The chain of k clusters from the pool is in order exactly when the FAT says so. */
  lemma PooledInOrder(fat: Fat, ch: Chain, k: nat)
    requires IsChain(fat, ch) && |fat| <= 0x0FFF_FFF0 && 0 < k <= |Pool(fat, ch)|
    ensures InOrder(ch, Pool(fat, ch)[..k]) <==> ShrinksInOrder(ch, k) && GrowsInOrder(fat, ch, k)
  {
    var pool, new_ := Pool(fat, ch), Pool(fat, ch)[..k];
    AppendedAscend(fat, ch, new_);
    assert forall i :: 0 <= i < k ==> new_[i] == pool[i];
    forall i | |ch| <= i < k
      ensures SectorOf(new_[i]) <= SectorOf(new_[k - 1])
    {
      SectorsAscend(new_[i], new_[k - 1]);
    }
  }

  lemma WriteInOrder(g: Geometry, v: Vol, o: Owner, idx: nat, mem: seq<byte>, n: u32)
    requires g.Ok() && SafeWith(g, v, o) && idx < |o.files| && n > 0 && StartChain(v, o, idx) != []
    requires Span(ClustersFor(n, g.ClusterSize()), g.ClusterSize()) <= |mem|
    ensures var w, ch, k := WriteData(g, v, o, idx, mem, n), o.files[idx], ClustersFor(n, g.ClusterSize());
            (w.done ==> InOrder(ch, w.chain)) <==> ShrinksInOrder(ch, k) && GrowsInOrder(v.fat, ch, k)
  {
    var ch, k := o.files[idx], ClustersFor(n, g.ClusterSize());
    assert FileOk(v.fat, Dir(v.data, o.root)[idx], ch);
    if ch != [] && k <= |Pool(v.fat, ch)| {
      PooledInOrder(v.fat, ch, k);
    }
  }

  lemma KeptInOrder(ch: Chain, length: nat, cs: nat)
    requires cs > 0 && length > 0
    ensures InOrder(ch, Kept(ch, length, cs)) <==> ShrinksInOrder(ch, ClustersFor(length, cs))
  {
    if ch != [] && ClustersFor(length, cs) <= |ch| {
      var k, kept := ClustersFor(length, cs), Kept(ch, length, cs);
      assert |kept| == k && kept[k - 1] == ch[k - 1];
    }
  }

  lemma WriteCommandTornIff(g: Geometry, v: Vol, o: Owner, cmd: Command)
    requires Mounted(g, v) && SafeWith(g, v, o) && CommandOk(g, cmd) && cmd.Write?
    ensures TearSafe(g, v, StepWrite(g, v, o, cmd.name, cmd.mem, cmd.n).trace) <==> MovesInOrderAt(g, v, o, cmd)
  {
    var dir := Dir(v.data, o.root);
    var idx := Find(dir, cmd.name);
    if StrayReadOk(g, v.fat, o.root) && idx < |dir| {
      assert FileOk(v.fat, dir[idx], o.files[idx]);
      if cmd.n == 0 {
        FieldsOfSize(dir[idx], 0);
        EntryTorn(g, v, o, idx, WithSize(dir[idx], 0));
      } else if StartChain(v, o, idx) != [] {
        WriteTornIff(g, v, o, idx, cmd.mem, cmd.n);
        WriteInOrder(g, v, o, idx, cmd.mem, cmd.n);
      }
    }
  }

  lemma TruncateCommandTornIff(g: Geometry, v: Vol, o: Owner, cmd: Command)
    requires Mounted(g, v) && SafeWith(g, v, o) && Admissible(g, cmd) && cmd.Truncate?
    ensures TearSafe(g, v, StepTruncate(g, v, o, cmd.name, cmd.length).trace) <==> MovesInOrderAt(g, v, o, cmd)
  {
    var idx := Find(Dir(v.data, o.root), cmd.name);
    if StepTruncate(g, v, o, cmd.name, cmd.length).trace != [] {
      TruncateTornIff(g, v, o, cmd.name, cmd.length);
      KeptInOrder(o.files[idx], cmd.length, g.ClusterSize());
    } else if StrayReadOk(g, v.fat, o.root) && idx < |o.files| {
      NoTraceNoChain(g, v, o, cmd.name, cmd.length);
    }
  }

  /** A truncation of a file that is found writes, unless it panics on the media entry. */
  lemma NoTraceNoChain(g: Geometry, v: Vol, o: Owner, name: CString, length: u32)
    requires g.Ok() && SafeWith(g, v, o) && StrayReadOk(g, v.fat, o.root)
    requires StepTruncate(g, v, o, name, length).trace == []
    requires Find(Dir(v.data, o.root), name) < |o.files|
    ensures o.files[Find(Dir(v.data, o.root), name)] == []
  {
    var dir := Dir(v.data, o.root);
    var idx := Find(dir, name);
    assert FileOk(v.fat, dir[idx], o.files[idx]);
    if o.files[idx] != [] {
      var mem := Truncated(v.fat, o.files[idx], length, g.ClusterSize());
      TruncatedKeeps(v.fat, o.files[idx], length, g.ClusterSize(), o.root);
      AfterCommit(g, v, mem, o, idx, WithSize(dir[idx], length));
    }
  }

  /**
   * Power loss between any two sectors of any device write leaves a card that can be mounted, if and only if
   * the command moves its file's chain in order.
   */
  lemma StepTornIff(g: Geometry, v: Vol, cmd: Command)
    requires Mounted(g, v) && Admissible(g, cmd)
    ensures TearSafe(g, v, Step(g, v, cmd).trace) <==> MovesInOrder(g, v, cmd)
  {
    StepAtTornIff(g, v, OwnerOf(g, v), cmd);
  }

  lemma StepAtTornIff(g: Geometry, v: Vol, o: Owner, cmd: Command)
    requires Mounted(g, v) && SafeWith(g, v, o) && Admissible(g, cmd)
    ensures TearSafe(g, v, StepAt(g, v, o, cmd).trace) <==> MovesInOrderAt(g, v, o, cmd)
  {
    match cmd
    case Create(name, isDir) => CreateTorn(g, v, o, name, isDir);
    case Delete(name) => DeleteTorn(g, v, o, name);
    case Rename(oldName, newName) => RenameTorn(g, v, o, oldName, newName);
    case Write(_, _, _) => WriteCommandTornIff(g, v, o, cmd);
    case Truncate(_, _) => TruncateCommandTornIff(g, v, o, cmd);
  }

  /** An input that fails: the FAT entries of clusters 127 and 128 lie in different sectors. */
  lemma GrowthAcrossSectors(g: Geometry, v: Vol, o: Owner, name: CString, mem: seq<byte>, n: u32)
    requires Mounted(g, v) && SafeWith(g, v, o) && CommandOk(g, Command.Write(name, mem, n))
    requires ClustersFor(n, g.ClusterSize()) == 2 && 128 < |v.fat| && v.fat[128] == FREE_CLUSTER
    requires StrayReadOk(g, v.fat, o.root)
    requires var idx := Find(Dir(v.data, o.root), name);
             idx < |o.files| && o.files[idx] == [127]
    ensures !TearSafe(g, v, StepWrite(g, v, o, name, mem, n).trace)
  {
    var idx := Find(Dir(v.data, o.root), name);
    assert FileOk(v.fat, Dir(v.data, o.root)[idx], o.files[idx]);
    PoolAcross(v.fat);
    GrownAcross(g, v, o, idx, mem, n);
    WriteTornIff(g, v, o, idx, mem, n);
  }

  lemma PoolAcross(fat: Fat)
    requires IsChain(fat, [127]) && 128 < |fat| <= 0x0FFF_FFF0 && fat[128] == FREE_CLUSTER
    ensures [127, 128] <= Pool(fat, [127])
  {
    assert FreeFrom(fat, 127) == FreeFrom(fat, 128) == [128] + FreeFrom(fat, 129);
  }

  lemma GrownAcross(g: Geometry, v: Vol, o: Owner, idx: nat, mem: seq<byte>, n: nat)
    requires g.Ok() && SafeWith(g, v, o) && idx < |o.files| && o.files[idx] == [127] && IsChain(v.fat, [127])
    requires ClustersFor(n, g.ClusterSize()) == 2 && Span(2, g.ClusterSize()) <= |mem|
    requires [127, 128] <= Pool(v.fat, [127])
    ensures WriteData(g, v, o, idx, mem, n).done && !InOrder([127], WriteData(g, v, o, idx, mem, n).chain)
  {
    var w := WriteData(g, v, o, idx, mem, n);
    assert w.chain == Pool(v.fat, [127])[..2] == [127, 128];
    assert SectorOf(w.chain[1]) == 1 && SectorOf(127) == 0;
  }

  // ---------------------------------------------------------------- runs

  /** Every command of a run, up to its first panic, moves its chain in order. */
  ghost predicate RunInOrder(g: Geometry, v: Vol, cmds: seq<Command>)
    requires Mounted(g, v) && AllAdmissible(g, cmds)
    decreases |cmds|
  {
    cmds == [] || (
      assert Admissible(g, cmds[0]);
      StepSafe(g, v, cmds[0]);
      && MovesInOrder(g, v, cmds[0])
      && (Step(g, v, cmds[0]).halted || RunInOrder(g, After(v, Step(g, v, cmds[0]).trace), cmds[1..])))
  }

  /** The first command of a run, and what is left. */
  lemma RunHead(g: Geometry, v: Vol, cmds: seq<Command>, out: Outcome, next: Vol)
    requires Mounted(g, v) && AllAdmissible(g, cmds) && cmds != []
    requires out == Step(g, v, cmds[0]) && next == After(v, out.trace)
    ensures Admissible(g, cmds[0]) && Mounted(g, next) && AllAdmissible(g, cmds[1..])
    ensures RunInOrder(g, v, cmds)
            <==> MovesInOrder(g, v, cmds[0]) && (out.halted || RunInOrder(g, next, cmds[1..]))
    ensures Run(g, v, cmds) == out.trace + if out.halted then [] else Run(g, next, cmds[1..])
  {
    assert Admissible(g, cmds[0]);
    StepSafe(g, v, cmds[0]);
  }

  /** Whole runs: power loss between any two sectors is harmless if and only if all moves are in order. */
  lemma {:induction false} RunTornIff(g: Geometry, v: Vol, cmds: seq<Command>)
    requires Mounted(g, v) && AllAdmissible(g, cmds)
    ensures TearSafe(g, v, Run(g, v, cmds)) <==> RunInOrder(g, v, cmds)
    decreases |cmds|
  {
    if cmds != [] {
      var out := Step(g, v, cmds[0]);
      var next := After(v, out.trace);
      RunHead(g, v, cmds, out, next);
      StepTornIff(g, v, cmds[0]);
      TearSafeConcat(g, v, out.trace, if out.halted then [] else Run(g, next, cmds[1..]));
      if !out.halted {
        RunTornIff(g, next, cmds[1..]);
      }
    }
  }

  /** What the client does to save a file. */
  function SaveCommands(name: CString, mem: seq<byte>, n: u32): seq<Command>
  {
    [Command.Delete(name), Command.Create(name, false), Command.Write(name, mem, n)]
  }

  /** The client's run is safe against power loss between any two sectors, whatever the card holds. */
  lemma SaveIsTearSafe(g: Geometry, v: Vol, name: CString, mem: seq<byte>, n: u32)
    requires Mounted(g, v) && NamesOk(Dir(v.data, OwnerOf(g, v).root)) && IsDotted(name)
    requires CommandOk(g, Command.Write(name, mem, n))
    ensures AllAdmissible(g, SaveCommands(name, mem, n))
    ensures TearSafe(g, v, Run(g, v, SaveCommands(name, mem, n)))
  {
    SaveInOrder(g, v, name, mem, n, SaveCommands(name, mem, n));
    RunTornIff(g, v, SaveCommands(name, mem, n));
  }

  lemma SaveInOrder(g: Geometry, v: Vol, name: CString, mem: seq<byte>, n: u32, cmds: seq<Command>)
    requires Mounted(g, v) && NamesOk(Dir(v.data, OwnerOf(g, v).root)) && IsDotted(name)
    requires cmds == SaveCommands(name, mem, n) && AllAdmissible(g, cmds) && CommandOk(g, Command.Write(name, mem, n))
    ensures RunInOrder(g, v, cmds)
  {
    var out := Step(g, v, cmds[0]);
    var v1 := After(v, out.trace);
    RunHead(g, v, cmds, out, v1);
    if !out.halted {
      DeletedIsGone(g, v, v1, name);
      CreateThenWrite(g, v1, name, mem, n, cmds[1..]);
    }
  }

  lemma DeletedIsGone(g: Geometry, v: Vol, v1: Vol, name: CString)
    requires Mounted(g, v) && NamesOk(Dir(v.data, OwnerOf(g, v).root)) && IsDotted(name) && Mounted(g, v1)
    requires !Step(g, v, Command.Delete(name)).halted && v1 == After(v, Step(g, v, Command.Delete(name)).trace)
    ensures var dir := Dir(v1.data, OwnerOf(g, v1).root);
            NamesOk(dir) && Find(dir, name) == |dir|
  {
    var o := OwnerOf(g, v);
    DeletedNotFound(g, v, o, name);
    var dir := Dir(v.data, o.root);
    OwnerUnique(g, v1, OwnerOf(g, v1),
                if Find(dir, name) == |dir| then o else o.(files := o.files[Find(dir, name) := []]));
  }

  lemma CreateThenWrite(g: Geometry, v: Vol, name: CString, mem: seq<byte>, n: u32, cmds: seq<Command>)
    requires Mounted(g, v) && IsDotted(name) && CommandOk(g, Command.Write(name, mem, n))
    requires var dir := Dir(v.data, OwnerOf(g, v).root);
             NamesOk(dir) && Find(dir, name) == |dir|
    requires cmds == [Command.Create(name, false), Command.Write(name, mem, n)] && AllAdmissible(g, cmds)
    ensures RunInOrder(g, v, cmds)
  {
    var out := Step(g, v, cmds[0]);
    var next := After(v, out.trace);
    RunHead(g, v, cmds, out, next);
    if !out.halted {
      CreatedIsEmpty(g, v, next, name);
      WriteToEmpty(g, next, cmds[1], cmds[1..]);
    }
  }

  lemma CreatedIsEmpty(g: Geometry, v: Vol, next: Vol, name: CString)
    requires Mounted(g, v) && IsDotted(name) && Mounted(g, next)
    requires var dir := Dir(v.data, OwnerOf(g, v).root);
             NamesOk(dir) && Find(dir, name) == |dir|
    requires var out := Step(g, v, Command.Create(name, false));
             !out.halted && next == After(v, out.trace)
    ensures HasNoCluster(g, next, name)
  {
    CreatedFound(g, v, OwnerOf(g, v), name);
    OwnerUnique(g, next, OwnerOf(g, v), OwnerOf(g, next));
  }

  /** The file has no cluster when it is written. */
  ghost predicate HasNoCluster(g: Geometry, v: Vol, name: CString)
    requires Mounted(g, v)
  {
    var o := OwnerOf(g, v);
    var idx := Find(Dir(v.data, o.root), name);
    idx < |o.files| ==> o.files[idx] == []
  }

  lemma WriteToEmpty(g: Geometry, v: Vol, cmd: Command, cmds: seq<Command>)
    requires Mounted(g, v) && cmds == [cmd] && AllAdmissible(g, cmds) && cmd.Write? && HasNoCluster(g, v, cmd.name)
    ensures RunInOrder(g, v, cmds)
  {
    var out := Step(g, v, cmds[0]);
    RunHead(g, v, cmds, out, After(v, out.trace));
    assert cmds[1..] == [];
  }
}
