/** FAT entries, cluster chains, and what one chain write does to a FAT and to the clusters. */
module Chains {
  import opened Arithmetic
  import opened Bytes
  import opened Layout

  type Fat = seq<u32>
  type Chain = seq<nat>
  type Data = seq<seq<byte>>

  const FREE_CLUSTER: u32 := 0
  const LAST_CLUSTER: u32 := 0x0FFF_FFF8
  const END_OF_CHAIN: u32 := 0x0FFF_FFFF

  datatype EntryType = Free | Reserved | Bad | Used | Last | Panic

  /** fat32_fat_entry_type; Panic stands for its panics. */
  function TypeOf(x: u32): EntryType
  {
    var low := x % 0x1000_0000;
    if low == 0 then Free
    else if low == 1 then Reserved
    else if low == 0xFFF_FFF7 then Bad
    else if low <= 0xFFF_FFEF then Used
    else if low <= 0xFFF_FFF6 then Panic
    else Last
  }

  /** The 28 low bits of an entry in the ranges that the FAT format gives them. */
  lemma EntryTypes(x: u32, low: u32)
    requires x < 0x1000_0000 ==> low == x
    requires x >= 0x1000_0000 ==> low == x % 0x1000_0000
    ensures TypeOf(x) == Free <==> low == 0x0000_0000
    ensures TypeOf(x) == Reserved <==> low == 0x0000_0001
    ensures TypeOf(x) == Used <==> 0x0000_0002 <= low <= 0x0FFF_FFEF
    ensures TypeOf(x) == Panic <==> 0x0FFF_FFF0 <= low <= 0x0FFF_FFF6
    ensures TypeOf(x) == Bad <==> low == 0x0FFF_FFF7
    ensures TypeOf(x) == Last <==> 0x0FFF_FFF8 <= low <= 0x0FFF_FFFF
  {
  }

  ghost predicate NoDup(ch: Chain)
  {
    forall i, j :: 0 <= i < j < |ch| ==> ch[i] != ch[j]
  }

  /** Elements are clusters that the FAT has an entry for. */
  ghost predicate InRange(ch: Chain, n: nat)
  {
    forall i :: 0 <= i < |ch| ==> 2 <= ch[i] < n
  }

  /** A well-formed chain: each entry names the next cluster, the last one is an end mark, no cycle. */
  ghost predicate IsChain(fat: Fat, ch: Chain)
  {
    && |ch| > 0 && InRange(ch, |fat|) && NoDup(ch)
    && (forall i :: 0 <= i < |ch| - 1 ==> fat[ch[i]] == ch[i + 1])
    && TypeOf(fat[ch[|ch| - 1]]) == Last
  }

  ghost predicate Disjoint(a: Chain, b: Chain)
  {
    forall x :: x in a ==> x !in b
  }

  /** Clusters of a FAT that some chain may be using. */
  predicate InUse(x: u32)
  {
    TypeOf(x) == Used || TypeOf(x) == Last
  }

  lemma ChainInUse(fat: Fat, ch: Chain)
    requires IsChain(fat, ch) && |fat| <= 0x0FFF_FFF0
    ensures forall x :: x in ch ==> InUse(fat[x])
  {
    forall i | 0 <= i < |ch|
      ensures InUse(fat[ch[i]])
    {
      if i < |ch| - 1 {
        assert fat[ch[i]] == ch[i + 1];
      }
    }
  }

  /** Only the entries of a chain matter for it, and the last may be any end mark. */
  lemma ChainFrame(fat: Fat, fat': Fat, ch: Chain)
    requires IsChain(fat, ch) && |fat'| == |fat|
    requires forall x :: x in ch ==> fat'[x] == fat[x] || (TypeOf(fat[x]) == Last && TypeOf(fat'[x]) == Last)
    requires |fat| <= 0x0FFF_FFF0
    ensures IsChain(fat', ch)
  {
    forall i | 0 <= i < |ch| - 1
      ensures fat'[ch[i]] == ch[i + 1]
    {
      assert fat[ch[i]] == ch[i + 1];
      assert ch[i] in ch;
    }
    assert ch[|ch| - 1] in ch;
  }

  /** A FAT has at most one chain from a given start. */
  lemma {:induction false} ChainUnique(fat: Fat, a: Chain, b: Chain)
    requires IsChain(fat, a) && IsChain(fat, b) && a[0] == b[0]
    requires |fat| <= 0x0FFF_FFF0
    ensures a == b
  {
    FirstLink(fat, a);
    FirstLink(fat, b);
    if |a| > 1 {
      TailIsChain(fat, a);
      TailIsChain(fat, b);
      ChainUnique(fat, a[1..], b[1..]);
      assert a == [a[0]] + a[1..] && b == [b[0]] + b[1..];
    }
  }

  lemma FirstLink(fat: Fat, ch: Chain)
    requires IsChain(fat, ch) && |fat| <= 0x0FFF_FFF0
    ensures |ch| > 1 ==> fat[ch[0]] == ch[1]
    ensures TypeOf(fat[ch[0]]) == if |ch| > 1 then Used else Last
  {
    if |ch| > 1 {
      assert fat[ch[0]] == ch[1];
    }
  }

  lemma TailIsChain(fat: Fat, ch: Chain)
    requires IsChain(fat, ch) && |ch| > 1
    ensures IsChain(fat, ch[1..])
  {
    var t := ch[1..];
    assert forall i :: 0 <= i < |t| ==> t[i] == ch[i + 1];
  }

  // ---------------------------------------------------------------- allocation

  /**
   * The free clusters that successive searches upward from i find, in order. A
   * search ends in a panic at the end of the FAT or at an entry with a reserved value.
   * Applied to a volume's FAT, it lists clusters that exist; SearchOfPart relates this
   * to the driver's search of all entries.
   */
  function FreeFrom(fat: Fat, i: nat): (free: Chain)
    decreases |fat| - i
  {
    if i >= |fat| || TypeOf(fat[i]) == Panic then []
    else if TypeOf(fat[i]) == Free then [i] + FreeFrom(fat, i + 1)
    else FreeFrom(fat, i + 1)
  }

  /** f lists free clusters from i upward, in order, and skips none on its way. */
  ghost predicate IsFreeList(fat: Fat, i: nat, f: Chain)
  {
    && (forall k :: 0 <= k < |f| ==> i <= f[k] < |fat| && TypeOf(fat[f[k]]) == Free)
    && (forall j, k :: 0 <= j < k < |f| ==> f[j] < f[k])
    && (forall k, c :: 0 <= k < |f| && i <= c < f[k] && TypeOf(fat[c]) == Free ==> c in f)
  }

  lemma {:induction false} FreeFromIsFreeList(fat: Fat, i: nat)
    ensures IsFreeList(fat, i, FreeFrom(fat, i))
    decreases |fat| - i
  {
    if i < |fat| && TypeOf(fat[i]) != Panic {
      FreeFromIsFreeList(fat, i + 1);
      if TypeOf(fat[i]) == Free {
        ExtendFreeList(fat, i, FreeFrom(fat, i + 1));
      }
    }
  }

  /** A cluster is in the list exactly when it is free and no reserved value stops the search before it. */
  lemma {:induction false} FreeFromExact(fat: Fat, i: nat, x: nat)
    ensures x in FreeFrom(fat, i)
            <==> i <= x < |fat| && TypeOf(fat[x]) == Free && forall d :: i <= d < x ==> TypeOf(fat[d]) != Panic
    decreases |fat| - i
  {
    if i < |fat| && TypeOf(fat[i]) != Panic {
      FreeFromExact(fat, i + 1, x);
    }
  }

  lemma ExtendFreeList(fat: Fat, i: nat, rest: Chain)
    requires i < |fat| && TypeOf(fat[i]) == Free && IsFreeList(fat, i + 1, rest)
    ensures IsFreeList(fat, i, [i] + rest)
  {
    var f := [i] + rest;
    assert f[0] == i && forall k :: 0 < k < |f| ==> f[k] == rest[k - 1];
    forall k, c | 0 <= k < |f| && i < c < f[k] && TypeOf(fat[c]) == Free
      ensures c in f
    {
      assert c in rest;
    }
  }

  /** Up to `end`, the search of the whole FAT and the search of its first entries agree. */
  lemma {:induction false} SearchOfPart(fat: Fat, end: nat, i: nat)
    requires end <= |fat|
    ensures var part, whole := FreeFrom(fat[..end], i), FreeFrom(fat, i);
            if part != [] then whole != [] && whole[0] == part[0] else whole != [] ==> end <= whole[0]
    decreases |fat| - i
  {
    if i < end {
      if TypeOf(fat[i]) != Free && TypeOf(fat[i]) != Panic {
        SearchOfPart(fat, end, i + 1);
      }
    } else {
      FreeFromIsFreeList(fat, i);
    }
  }

  /**
   * A search from i hands out a cluster below `end` if and only if one is free there
   * and no reserved value comes before it.
   */
  lemma {:induction false} SearchStaysBelow(fat: Fat, end: nat, i: nat)
    requires end <= |fat|
    ensures (FreeFrom(fat, i) != [] && FreeFrom(fat, i)[0] < end)
            <==> exists c ::
                   i <= c < end && TypeOf(fat[c]) == Free && forall d :: i <= d < c ==> TypeOf(fat[d]) != Panic
    decreases |fat| - i
  {
    FreeFromIsFreeList(fat, i);
    if i < end && TypeOf(fat[i]) != Free && TypeOf(fat[i]) != Panic {
      SearchStaysBelow(fat, end, i + 1);
    }
  }

  /** A search depends only on the entries it looks at. */
  lemma {:induction false} FreeFromFrame(fat: Fat, fat': Fat, i: nat)
    requires |fat'| == |fat| && forall c :: i <= c < |fat| ==> fat'[c] == fat[c]
    ensures FreeFrom(fat', i) == FreeFrom(fat, i)
    decreases |fat| - i
  {
    if i < |fat| {
      FreeFromFrame(fat, fat', i + 1);
    }
  }

  /** Where find_free_cluster starts to look. */
  function ScanStart(c: nat): nat
  {
    if c < 3 then 3 else c
  }

  /** The clusters that a long enough write to ch visits: its own, then free ones from its end upward. */
  function Pool(fat: Fat, ch: Chain): Chain
    requires |ch| > 0
  {
    ch + FreeFrom(fat, ScanStart(ch[|ch| - 1]))
  }

  lemma PoolProps(fat: Fat, ch: Chain)
    requires IsChain(fat, ch) && |fat| <= 0x0FFF_FFF0
    ensures var p := Pool(fat, ch);
            && InRange(p, |fat|) && NoDup(p)
            && forall i :: |ch| <= i < |p| ==> TypeOf(fat[p[i]]) == Free
  {
    var free := FreeFrom(fat, ScanStart(ch[|ch| - 1]));
    FreeFromIsFreeList(fat, ScanStart(ch[|ch| - 1]));
    ChainInUse(fat, ch);
    var p := Pool(fat, ch);
    forall i | |ch| <= i < |p|
      ensures 2 <= p[i] < |fat| && TypeOf(fat[p[i]]) == Free && p[i] == free[i - |ch|]
    {
    }
    forall i, j | 0 <= i < j < |p|
      ensures p[i] != p[j]
    {
      if i < |ch| <= j {
        assert ch[i] in ch;
      } else if |ch| <= i {
        assert free[i - |ch|] < free[j - |ch|];
      }
    }
  }

  // ---------------------------------------------------------------- relinking

  /**
   * fat' is fat after chain `old` became chain `new`, ended by `mark`: entries of
   * new link up, entries of old outside new are free, all others are unchanged.
   */
  ghost predicate IsRelink(fat: Fat, fat': Fat, old_: Chain, new_: Chain, mark: u32)
    requires InRange(new_, |fat|)
  {
    && |fat'| == |fat|
    && (forall i :: 0 <= i < |new_| - 1 ==> fat'[new_[i]] == new_[i + 1])
    && (|new_| > 0 ==> fat'[new_[|new_| - 1]] == mark)
    && forall c :: 0 <= c < |fat| && c !in new_ ==> fat'[c] == if c in old_ then FREE_CLUSTER else fat[c]
  }

  ghost function Relink(fat: Fat, old_: Chain, new_: Chain, mark: u32): (fat': Fat)
    requires InRange(new_, |fat|) && NoDup(new_) && |fat| <= 0x0FFF_FFF0
    ensures IsRelink(fat, fat', old_, new_, mark)
  {
    seq(|fat|, c requires 0 <= c < |fat| =>
      if c in new_ then
        var i :| 0 <= i < |new_| && new_[i] == c;
        if i + 1 < |new_| then new_[i + 1] else mark
      else if c in old_ then FREE_CLUSTER else fat[c])
  }

  lemma RelinkUnique(fat: Fat, a: Fat, b: Fat, old_: Chain, new_: Chain, mark: u32)
    requires InRange(new_, |fat|)
    requires IsRelink(fat, a, old_, new_, mark) && IsRelink(fat, b, old_, new_, mark)
    ensures a == b
  {
    forall c | 0 <= c < |fat|
      ensures a[c] == b[c]
    {
      if c in new_ {
        var i :| 0 <= i < |new_| && new_[i] == c;
        if i < |new_| - 1 {
          assert a[new_[i]] == new_[i + 1] == b[new_[i]];
        }
      }
    }
  }

  lemma RelinkMakesChain(fat: Fat, fat': Fat, old_: Chain, new_: Chain, mark: u32)
    requires InRange(new_, |fat|) && NoDup(new_) && |new_| > 0
    requires IsRelink(fat, fat', old_, new_, mark) && TypeOf(mark) == Last
    ensures IsChain(fat', new_)
  {
  }

  /** A chain that shares nothing with old and new survives the relinking. */
  lemma RelinkKeepsOthers(fat: Fat, fat': Fat, old_: Chain, new_: Chain, mark: u32, ch: Chain)
    requires InRange(new_, |fat|) && IsRelink(fat, fat', old_, new_, mark)
    requires IsChain(fat, ch) && Disjoint(ch, old_) && Disjoint(ch, new_)
    requires |fat| <= 0x0FFF_FFF0
    ensures IsChain(fat', ch)
  {
    ChainFrame(fat, fat', ch);
  }

  // ---------------------------------------------------------------- bytes of a chain

  /** Bytes in k clusters. */
  function Span(k: nat, cs: nat): nat
  {
    if k == 0 then 0 else Span(k - 1, cs) + cs
  }

  lemma {:induction false} SpanMonotone(j: nat, k: nat, cs: nat)
    requires j <= k
    ensures Span(j, cs) <= Span(k, cs)
    ensures j < k ==> Span(j, cs) + cs <= Span(k, cs)
  {
    if j < k {
      SpanMonotone(j, k - 1, cs);
    }
  }

  lemma SpansFit(k: nat, cs: nat)
    ensures forall i: nat :: i <= k ==> Span(i, cs) <= Span(k, cs)
  {
    forall i: nat | i <= k {
      SpanMonotone(i, k, cs);
    }
  }

  lemma {:induction false} SpanIsProduct(k: nat, cs: nat)
    ensures Span(k, cs) == k * cs
  {
    if k > 0 {
      SpanIsProduct(k - 1, cs);
      assert k * cs == (k - 1) * cs + cs;
    }
  }

  /** How many clusters the writing loop needs for n bytes. */
  function ClustersFor(n: nat, cs: nat): (k: nat)
    requires cs > 0
  {
    if n == 0 then 0 else 1 + ClustersFor(if n < cs then 0 else n - cs, cs)
  }

  /** It is the quotient rounded up: the least k with n <= k * cs. */
  lemma {:induction false} ClustersForIsCeiling(n: nat, cs: nat)
    requires cs > 0
    ensures var k := ClustersFor(n, cs);
            n <= k * cs && (k > 0 ==> (k - 1) * cs < n)
  {
    var k := ClustersFor(n, cs);
    if n > 0 {
      var m := if n < cs then 0 else n - cs;
      ClustersForIsCeiling(m, cs);
      assert k * cs == (k - 1) * cs + cs;
      if k > 1 {
        assert (k - 1) * cs == (k - 2) * cs + cs;
      }
    }
  }

  lemma {:induction false} ClustersForSpan(n: nat, cs: nat)
    requires cs > 0
    ensures n <= Span(ClustersFor(n, cs), cs)
    ensures ClustersFor(n, cs) > 0 ==> Span(ClustersFor(n, cs) - 1, cs) < n
  {
    ClustersForIsCeiling(n, cs);
    SpanIsProduct(ClustersFor(n, cs), cs);
    if n > 0 {
      SpanIsProduct(ClustersFor(n, cs) - 1, cs);
    }
  }

  lemma {:induction false} ClustersForFull(k: nat, cs: nat)
    requires cs > 0
    ensures ClustersFor(Span(k, cs), cs) == k
  {
    if k > 0 {
      ClustersForFull(k - 1, cs);
    }
  }

  function Block(buf: seq<byte>, k: nat, cs: nat): (b: seq<byte>)
    requires Span(k + 1, cs) <= |buf|
    ensures |b| == cs
  {
    buf[Span(k, cs)..Span(k + 1, cs)]
  }

  /** The contents of a chain: its clusters one after the other. */
  function Flat(data: Data, ch: Chain): (b: seq<byte>)
    requires InRange(ch, |data|)
  {
    if ch == [] then [] else
      var init := ch[..|ch| - 1];
      Flat(data, init) + data[ch[|ch| - 1]]
  }

  ghost predicate Uniform(data: Data, cs: nat)
  {
    forall c :: 2 <= c < |data| ==> |data[c]| == cs
  }

  lemma {:induction false} FlatBlocks(data: Data, ch: Chain, cs: nat)
    requires InRange(ch, |data|) && Uniform(data, cs)
    ensures |Flat(data, ch)| == Span(|ch|, cs)
    ensures forall k :: 0 <= k < |ch| ==>
              Span(k + 1, cs) <= |Flat(data, ch)| && Block(Flat(data, ch), k, cs) == data[ch[k]]
  {
    if ch != [] {
      var init := ch[..|ch| - 1];
      FlatBlocks(data, init, cs);
      SpansFit(|ch|, cs);
      SpansFit(|init|, cs);
      forall k | 0 <= k < |init|
        ensures Block(Flat(data, ch), k, cs) == data[ch[k]]
      {
        assert Block(Flat(data, init), k, cs) == data[init[k]];
        BlockOfConcat(Flat(data, init), data[ch[|ch| - 1]], k, cs);
      }
      assert Block(Flat(data, ch), |init|, cs) == data[ch[|init|]];
    }
  }

  lemma BlockOfConcat(a: seq<byte>, b: seq<byte>, k: nat, cs: nat)
    requires Span(k + 1, cs) <= |a|
    ensures Block(a + b, k, cs) == Block(a, k, cs)
  {
  }

  lemma {:induction false} FlatFrame(data: Data, data': Data, ch: Chain)
    requires InRange(ch, |data|) && |data'| == |data|
    requires forall c :: c in ch ==> data'[c] == data[c]
    ensures Flat(data', ch) == Flat(data, ch)
  {
    if ch != [] {
      var init := ch[..|ch| - 1];
      assert forall c :: c in init ==> c in ch;
      FlatFrame(data, data', init);
      assert ch[|ch| - 1] in ch;
    }
  }

  /** data after the first i clusters of ch have received their blocks of buf. */
  function Overlay(data: Data, ch: Chain, buf: seq<byte>, cs: nat, i: nat): (r: Data)
    requires InRange(ch, |data|) && i <= |ch| && Span(i, cs) <= |buf|
    ensures |r| == |data|
    decreases i
  {
    if i == 0 then data
    else Overlay(data, ch, buf, cs, i - 1)[ch[i - 1] := Block(buf, i - 1, cs)]
  }

  /** Clusters outside the written part are as before. */
  lemma {:induction false} OverlayAt(data: Data, ch: Chain, buf: seq<byte>, cs: nat, i: nat)
    requires InRange(ch, |data|) && NoDup(ch) && i <= |ch| && Span(i, cs) <= |buf|
    ensures var r := Overlay(data, ch, buf, cs, i);
            && (forall c :: 0 <= c < |data| && c !in ch[..i] ==> r[c] == data[c])
            && (Uniform(data, cs) ==> Uniform(r, cs))
    decreases i
  {
    if i > 0 {
      OverlayAt(data, ch, buf, cs, i - 1);
      assert ch[..i] == ch[..i - 1] + [ch[i - 1]];
    }
  }

  ghost predicate HoldsBlock(data: Data, c: nat, buf: seq<byte>, k: nat, cs: nat) {
    c < |data| && Span(k + 1, cs) <= |buf| && data[c] == Block(buf, k, cs)
  }

  /** The first i clusters of ch hold their blocks of buf. */
  ghost predicate Holds(data: Data, ch: Chain, buf: seq<byte>, cs: nat, i: nat)
  {
    i <= |ch| && forall k: nat :: k < i ==> HoldsBlock(data, ch[k], buf, k, cs)
  }

  lemma {:induction false} OverlayHolds(data: Data, ch: Chain, buf: seq<byte>, cs: nat, i: nat)
    requires InRange(ch, |data|) && NoDup(ch) && i <= |ch| && Span(i, cs) <= |buf|
    ensures Holds(Overlay(data, ch, buf, cs, i), ch, buf, cs, i)
    decreases i
  {
    if i > 0 {
      OverlayHolds(data, ch, buf, cs, i - 1);
      var was, r := Overlay(data, ch, buf, cs, i - 1), Overlay(data, ch, buf, cs, i);
      forall k: nat | k < i
        ensures HoldsBlock(r, ch[k], buf, k, cs)
      {
        if k < i - 1 {
          assert HoldsBlock(was, ch[k], buf, k, cs);
        }
      }
    }
  }

  lemma {:induction false} FlatOfHolds(data: Data, ch: Chain, buf: seq<byte>, cs: nat, i: nat)
    requires InRange(ch, |data|) && Holds(data, ch, buf, cs, i) && Span(i, cs) <= |buf|
    ensures Flat(data, ch[..i]) == buf[..Span(i, cs)]
    decreases i
  {
    if i > 0 {
      FlatOfHolds(data, ch, buf, cs, i - 1);
      assert ch[..i][..i - 1] == ch[..i - 1];
      assert HoldsBlock(data, ch[i - 1], buf, i - 1, cs);
    }
  }

  /** What a completed chain write leaves in the chain: the blocks of the buffer, in order. */
  lemma FlatOfOverlay(data: Data, ch: Chain, buf: seq<byte>, cs: nat)
    requires InRange(ch, |data|) && NoDup(ch) && Span(|ch|, cs) <= |buf|
    ensures Flat(Overlay(data, ch, buf, cs, |ch|), ch) == buf[..Span(|ch|, cs)]
  {
    OverlayHolds(data, ch, buf, cs, |ch|);
    FlatOfHolds(Overlay(data, ch, buf, cs, |ch|), ch, buf, cs, |ch|);
    assert ch[..|ch|] == ch;
  }

  // ---------------------------------------------------------------- one chain write

  /**
   * The device states that a chain write passes through, what it leaves, and
   * whether it ended (it does not when no free cluster is left).
   */
  datatype Written = Written(trace: seq<Vol>, done: bool, fat: Fat, chain: Chain)

  /**
   * write_cluster_chain on the chain ch of the in-memory FAT `mem`, the card
   * holding v. The first n bytes of buf count; whole clusters are sent.
   */
  ghost function WriteChain(v: Vol, mem: Fat, ch: Chain, buf: seq<byte>, n: nat, cs: nat): Written
    requires cs > 0 && |mem| == |v.fat| == |v.data| <= 0x0FFF_FFF0
    requires IsChain(mem, ch) && Span(ClustersFor(n, cs), cs) <= |buf|
  {
    PoolProps(mem, ch);
    var k := ClustersFor(n, cs);
    var pool := Pool(mem, ch);
    if k <= |pool| then
      var new_ := pool[..k];
      var fat' := Relink(mem, ch, new_, END_OF_CHAIN);
      Written(DataWrites(v, new_, buf, cs, k) + [Vol(fat', Overlay(v.data, new_, buf, cs, k))], true, fat', new_)
    else
      SpanMonotone(|pool|, k, cs);
      Written(DataWrites(v, pool, buf, cs, |pool|), false, mem, ch)
  }

  /** The k data writes of a chain write, in order; the FAT on the card stays. */
  function DataWrites(v: Vol, ch: Chain, buf: seq<byte>, cs: nat, k: nat): (trace: seq<Vol>)
    requires InRange(ch, |v.data|) && k <= |ch| && Span(k, cs) <= |buf|
    ensures |trace| == k
    ensures forall i :: 0 <= i < k ==>
              Span(i + 1, cs) <= |buf| && trace[i] == Vol(v.fat, Overlay(v.data, ch, buf, cs, i + 1))
  {
    SpansFit(k, cs);
    if k == 0 then [] else DataWrites(v, ch, buf, cs, k - 1) + [Vol(v.fat, Overlay(v.data, ch, buf, cs, k))]
  }

  /** The clusters that receive data: as many as needed, or all there are. */
  function Visited(mem: Fat, ch: Chain, n: nat, cs: nat): Chain
    requires cs > 0 && |ch| > 0
  {
    var pool := Pool(mem, ch);
    if ClustersFor(n, cs) <= |pool| then pool[..ClustersFor(n, cs)] else pool
  }

  lemma VisitedShape(mem: Fat, ch: Chain, n: nat, cs: nat)
    requires cs > 0 && |mem| <= 0x0FFF_FFF0 && IsChain(mem, ch)
    ensures var vis := Visited(mem, ch, n, cs);
            && InRange(vis, |mem|) && NoDup(vis) && |vis| <= ClustersFor(n, cs)
            && (forall i :: 0 <= i < |vis| && i < |ch| ==> vis[i] == ch[i])
            && (forall x :: x in vis ==> x in Pool(mem, ch))
  {
    PoolProps(mem, ch);
  }

  lemma WriteChainShape(v: Vol, mem: Fat, ch: Chain, buf: seq<byte>, n: nat, cs: nat)
    requires cs > 0 && |mem| == |v.fat| == |v.data| <= 0x0FFF_FFF0
    requires IsChain(mem, ch) && Span(ClustersFor(n, cs), cs) <= |buf|
    ensures var w, vis := WriteChain(v, mem, ch, buf, n, cs), Visited(mem, ch, n, cs);
            && InRange(vis, |mem|) && NoDup(vis) && Span(|vis|, cs) <= |buf|
            && (forall i :: 0 <= i < |vis| && i < |ch| ==> vis[i] == ch[i])
            && (forall x :: x in vis ==> x in Pool(mem, ch))
            && w.trace[..|vis|] == DataWrites(v, vis, buf, cs, |vis|)
            && (w.done ==>
                  && w.chain == vis && |vis| == ClustersFor(n, cs) && |w.trace| == |vis| + 1
                  && w.trace[|vis|] == Vol(w.fat, Overlay(v.data, vis, buf, cs, |vis|))
                  && IsRelink(mem, w.fat, ch, vis, END_OF_CHAIN))
            && (!w.done ==> |w.trace| == |vis| && vis == Pool(mem, ch) && |vis| < ClustersFor(n, cs))
  {
    VisitedShape(mem, ch, n, cs);
    PoolProps(mem, ch);
    SpansFit(ClustersFor(n, cs), cs);
  }

  /** What new_ has beyond ch are the free clusters that follow the end of ch, none of them passed over. */
  ghost predicate NextFree(mem: Fat, ch: Chain, new_: Chain)
    requires |ch| > 0
  {
    var last := ch[|ch| - 1];
    && (forall i :: |ch| <= i < |new_| ==> 3 <= new_[i] && last < new_[i])
    && forall i, c :: |ch| <= i < |new_| && 3 <= c < new_[i] && last < c < |mem| && TypeOf(mem[c]) == Free ==>
                        c in new_[|ch|..]
  }

  /**
   * What a completed chain write leaves: the chain has exactly the clusters that n bytes need, its first n
   * bytes are the buffer's, old clusters come first and in order, appended ones ascend, the clusters given
   * up are free, and nothing else in the FAT or on the card has changed.
   */
  ghost predicate ChainWritten(v: Vol, mem: Fat, ch: Chain, buf: seq<byte>, n: nat, cs: nat, w: Written, after: Vol)
    requires |ch| > 0 && n <= |buf| && cs > 0
  {
    && IsChain(w.fat, w.chain) && w.chain[0] == ch[0] && |w.chain| == (n + cs - 1) / cs
    && InRange(w.chain, |after.data|) && after.fat == w.fat
    && n <= |Flat(after.data, w.chain)| && Flat(after.data, w.chain)[..n] == buf[..n]
    && (forall i :: 0 <= i < |w.chain| && i < |ch| ==> w.chain[i] == ch[i])
    && (forall i, j :: |ch| <= i < j < |w.chain| ==> w.chain[i] < w.chain[j])
    && (forall i :: |ch| <= i < |w.chain| ==> w.chain[i] < |mem| && TypeOf(mem[w.chain[i]]) == Free)
    && NextFree(mem, ch, w.chain)
    && |w.fat| == |mem| && |after.data| == |v.data|
    && (forall c :: 0 <= c < |mem| && c !in w.chain ==> w.fat[c] == if c in ch then FREE_CLUSTER else mem[c])
    && (forall c :: 0 <= c < |v.data| && c !in w.chain ==> after.data[c] == v.data[c])
  }

  lemma ChainWriteResult(v: Vol, mem: Fat, ch: Chain, buf: seq<byte>, n: nat, cs: nat)
    requires cs > 0 && n > 0 && |mem| == |v.fat| == |v.data| <= 0x0FFF_FFF0
    requires IsChain(mem, ch) && Span(ClustersFor(n, cs), cs) <= |buf|
    ensures n <= |buf|
    ensures var w := WriteChain(v, mem, ch, buf, n, cs);
            if w.done then
              w.trace != [] && ChainWritten(v, mem, ch, buf, n, cs, w, w.trace[|w.trace| - 1])
            else
              |Pool(mem, ch)| < ClustersFor(n, cs)
  {
    var w := WriteChain(v, mem, ch, buf, n, cs);
    WriteChainShape(v, mem, ch, buf, n, cs);
    ClustersForSpan(n, cs);
    if w.done {
      VisitedShape(mem, ch, n, cs);
      WrittenWell(v, mem, ch, buf, n, cs, w, Vol(w.fat, Overlay(v.data, w.chain, buf, cs, |w.chain|)));
    }
  }

  lemma WrittenWell(v: Vol, mem: Fat, ch: Chain, buf: seq<byte>, n: nat, cs: nat, w: Written, after: Vol)
    requires cs > 0 && n > 0 && |mem| == |v.fat| == |v.data| <= 0x0FFF_FFF0
    requires IsChain(mem, ch) && Span(ClustersFor(n, cs), cs) <= |buf| && n <= |buf|
    requires |w.chain| == ClustersFor(n, cs) && InRange(w.chain, |mem|) && NoDup(w.chain)
    requires w.chain <= Pool(mem, ch) && IsRelink(mem, w.fat, ch, w.chain, END_OF_CHAIN)
    requires after == Vol(w.fat, Overlay(v.data, w.chain, buf, cs, |w.chain|))
    ensures ChainWritten(v, mem, ch, buf, n, cs, w, after)
  {
    ClustersForSpan(n, cs);
    CeilingOf(n, cs);
    RelinkMakesChain(mem, w.fat, ch, w.chain, END_OF_CHAIN);
    AppendedAscend(mem, ch, w.chain);
    AppendedNext(mem, ch, w.chain);
    assert forall i :: 0 <= i < |w.chain| && i < |ch| ==> w.chain[i] == Pool(mem, ch)[i];
    WrittenBytes(v.data, w.chain, buf, n, cs, after.data);
  }

  lemma AppendedNext(mem: Fat, ch: Chain, new_: Chain)
    requires IsChain(mem, ch) && |mem| <= 0x0FFF_FFF0 && new_ <= Pool(mem, ch)
    ensures NextFree(mem, ch, new_)
  {
    var last := ch[|ch| - 1];
    var free := FreeFrom(mem, ScanStart(last));
    FreeFromIsFreeList(mem, ScanStart(last));
    ChainInUse(mem, ch);
    assert last in ch;
    forall i | |ch| <= i < |new_|
      ensures new_[i] == free[i - |ch|] && 3 <= new_[i] && last < new_[i]
    {
      assert new_[i] == Pool(mem, ch)[i];
      assert TypeOf(mem[free[i - |ch|]]) == Free;
    }
    forall i, c | |ch| <= i < |new_| && 3 <= c < new_[i] && last < c < |mem| && TypeOf(mem[c]) == Free
      ensures c in new_[|ch|..]
    {
      assert c in free;
      var k :| 0 <= k < |free| && free[k] == c;
      assert k < i - |ch|;
      assert new_[|ch| + k] == c;
      assert new_[|ch|..][k] == c;
    }
  }

  /**
   * What a chain write leaves when the free clusters run out: all of them and the chain's own hold the first
   * blocks of the buffer, and nothing else on the card has changed.
   */
  lemma ChainWritePanics(v: Vol, mem: Fat, ch: Chain, buf: seq<byte>, n: nat, cs: nat)
    requires cs > 0 && |mem| == |v.fat| == |v.data| <= 0x0FFF_FFF0
    requires IsChain(mem, ch) && Span(ClustersFor(n, cs), cs) <= |buf|
    requires !WriteChain(v, mem, ch, buf, n, cs).done
    ensures var w, pool := WriteChain(v, mem, ch, buf, n, cs), Pool(mem, ch);
            && |w.trace| == |pool| > 0 && |pool| < ClustersFor(n, cs)
            && InRange(pool, |v.data|) && |pool| * cs <= |buf|
            && var after := w.trace[|w.trace| - 1];
            && after.fat == v.fat && |after.data| == |v.data| && Flat(after.data, pool) == buf[..|pool| * cs]
            && forall c :: 0 <= c < |v.data| && c !in pool ==> after.data[c] == v.data[c]
  {
    var pool := Pool(mem, ch);
    WriteChainShape(v, mem, ch, buf, n, cs);
    SpanIsProduct(|pool|, cs);
    FlatOfOverlay(v.data, pool, buf, cs);
    OverlayAt(v.data, pool, buf, cs, |pool|);
    assert pool[..|pool|] == pool;
  }

  /** The pool consists of the chain and of the free clusters behind its end, up to the first reserved value. */
  lemma PoolExact(fat: Fat, ch: Chain, x: nat)
    requires |ch| > 0
    ensures var last := ch[|ch| - 1];
            x in Pool(fat, ch)
            <==> x in ch || (3 <= x && last <= x < |fat| && TypeOf(fat[x]) == Free
                             && forall d :: 3 <= d < x && last <= d ==> TypeOf(fat[d]) != Panic)
  {
    FreeFromExact(fat, ScanStart(ch[|ch| - 1]), x);
  }

  lemma WrittenBytes(data: Data, chain: Chain, buf: seq<byte>, n: nat, cs: nat, after: Data)
    requires InRange(chain, |data|) && NoDup(chain) && n <= Span(|chain|, cs) <= |buf|
    requires after == Overlay(data, chain, buf, cs, |chain|)
    ensures n <= |Flat(after, chain)| && Flat(after, chain)[..n] == buf[..n]
    ensures forall c :: 0 <= c < |data| && c !in chain ==> after[c] == data[c]
  {
    FlatOfOverlay(data, chain, buf, cs);
    assert buf[..Span(|chain|, cs)][..n] == buf[..n];
    OverlayAt(data, chain, buf, cs, |chain|);
    assert chain[..|chain|] == chain;
  }

  lemma CeilingOf(n: nat, cs: nat)
    requires cs > 0
    ensures ClustersFor(n, cs) == (n + cs - 1) / cs
  {
    ClustersForIsCeiling(n, cs);
    var k := ClustersFor(n, cs);
    assert (k - 1) * cs == k * cs - cs;
    DivMod(n + cs - 1, cs, k, n + cs - 1 - k * cs);
  }

  lemma AppendedAscend(mem: Fat, ch: Chain, new_: Chain)
    requires IsChain(mem, ch) && |mem| <= 0x0FFF_FFF0 && new_ <= Pool(mem, ch)
    ensures forall i, j :: |ch| <= i < j < |new_| ==> new_[i] < new_[j]
    ensures forall i :: |ch| <= i < |new_| ==> new_[i] < |mem| && TypeOf(mem[new_[i]]) == Free
  {
    var free := FreeFrom(mem, ScanStart(ch[|ch| - 1]));
    FreeFromIsFreeList(mem, ScanStart(ch[|ch| - 1]));
    assert forall i :: |ch| <= i < |new_| ==> new_[i] == Pool(mem, ch)[i] == free[i - |ch|];
  }
}
