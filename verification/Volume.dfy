/** Who owns which cluster: the state invariant of a volume. */
module Volume {
  import opened Layout
  import opened Chains
  import opened Dirents

  /** The directory that a root chain holds. */
  function Dir(data: Data, root: Chain): seq<Entry>
    requires InRange(root, |data|)
  {
    Entries(Flat(data, root))
  }

  /** The chain of the root directory, and for each directory slot the chain of its file. */
  datatype Owner = Owner(root: Chain, files: seq<Chain>)

  /** A live entry has start cluster 0 or heads a well-formed chain, which is ch. */
  ghost predicate FileOk(fat: Fat, e: Entry, ch: Chain)
  {
    if Live(e) && Start(e) != 0 then IsChain(fat, ch) && ch[0] == Start(e) else ch == []
  }

  /** All chains are well formed and pairwise disjoint. */
  ghost predicate Owned(fat: Fat, dir: seq<Entry>, o: Owner)
  {
    && |o.files| == |dir|
    && IsChain(fat, o.root)
    && (forall i :: 0 <= i < |dir| ==> FileOk(fat, dir[i], o.files[i]))
    && (forall i :: 0 <= i < |dir| ==> Disjoint(o.root, o.files[i]))
    && forall i, j :: 0 <= i < |dir| && 0 <= j < |dir| && i != j ==> Disjoint(o.files[i], o.files[j])
  }

  ghost predicate SafeWith(g: Geometry, v: Vol, o: Owner)
  {
    && WellFormed(g, v)
    && InRange(o.root, |v.data|)
    && Owned(v.fat, Dir(v.data, o.root), o)
    && o.root[0] == g.root
    && Span(|o.root|, g.ClusterSize()) < 0x1_0000_0000
  }

  /** What a crash must not break. */
  ghost predicate Safe(g: Geometry, v: Vol)
  {
    exists o :: SafeWith(g, v, o)
  }

  /** No cluster is in use without an owner. */
  ghost predicate NoLeak(fat: Fat, o: Owner)
  {
    forall c :: 2 <= c < |fat| && InUse(fat[c]) ==> c in o.root || exists i :: 0 <= i < |o.files| && c in o.files[i]
  }

  /** Every size fits the chain it belongs to. */
  ghost predicate SizesFit(dir: seq<Entry>, o: Owner, cs: nat)
    requires |o.files| == |dir|
  {
    forall i :: 0 <= i < |dir| && Live(dir[i]) ==> Size(dir[i]) <= Span(|o.files[i]|, cs)
  }

  /** FAT[0] holds the media byte below ones: an end mark or one of the reserved values. */
  ghost predicate MediaEntry(fat: Fat)
  {
    |fat| > 0 && (TypeOf(fat[0]) == Last || TypeOf(fat[0]) == Panic)
  }

  /** The state that a driver mounts: safe, and with its media entry. */
  ghost predicate Mounted(g: Geometry, v: Vol)
  {
    g.Ok() && Safe(g, v) && MediaEntry(v.fat)
  }

  /** The state that completed operations keep when they start from it. */
  ghost predicate Clean(g: Geometry, v: Vol, o: Owner)
  {
    && g.Ok() && SafeWith(g, v, o) && MediaEntry(v.fat)
    && NoLeak(v.fat, o)
    && SizesFit(Dir(v.data, o.root), o, g.ClusterSize())
  }

  /** The owner is determined by the volume. */
  lemma OwnerUnique(g: Geometry, v: Vol, a: Owner, b: Owner)
    requires g.Ok() && SafeWith(g, v, a) && SafeWith(g, v, b)
    ensures a == b
  {
    ChainUnique(v.fat, a.root, b.root);
    forall i | 0 <= i < |a.files|
      ensures a.files[i] == b.files[i]
    {
      var e := Dir(v.data, a.root)[i];
      assert FileOk(v.fat, e, a.files[i]) && FileOk(v.fat, e, b.files[i]);
      if Live(e) && Start(e) != 0 {
        ChainUnique(v.fat, a.files[i], b.files[i]);
      }
    }
  }

  ghost function OwnerOf(g: Geometry, v: Vol): (o: Owner)
    requires Safe(g, v)
    ensures SafeWith(g, v, o)
  {
    var o :| SafeWith(g, v, o);
    o
  }

  /** fat' says the same as fat about the clusters of ch, except for the choice of end mark. */
  ghost predicate SameFor(fat: Fat, fat': Fat, ch: Chain)
  {
    && |fat'| == |fat|
    && forall x :: x in ch && x < |fat| ==> fat'[x] == fat[x] || (TypeOf(fat[x]) == Last && TypeOf(fat'[x]) == Last)
  }

  /** Slot idx changes its entry and its chain; all other chains stay. */
  lemma OwnedUpdate(fat: Fat, dir: seq<Entry>, o: Owner, fat': Fat, idx: nat, e: Entry, ch: Chain)
    requires Owned(fat, dir, o) && idx < |dir| && |fat| <= 0x0FFF_FFF0
    requires SameFor(fat, fat', o.root)
    requires forall i :: 0 <= i < |dir| && i != idx ==> SameFor(fat, fat', o.files[i])
    requires FileOk(fat', e, ch)
    requires Disjoint(o.root, ch)
    requires forall i :: 0 <= i < |dir| && i != idx ==> Disjoint(o.files[i], ch)
    ensures Owned(fat', dir[idx := e], o.(files := o.files[idx := ch]))
  {
    ChainFrame(fat, fat', o.root);
    forall i | 0 <= i < |dir| && i != idx
      ensures FileOk(fat', dir[i], o.files[i])
    {
      assert FileOk(fat, dir[i], o.files[i]);
      if Live(dir[i]) && Start(dir[i]) != 0 {
        ChainFrame(fat, fat', o.files[i]);
      }
    }
  }

  /** Nothing changes but the FAT. */
  lemma OwnedFrame(fat: Fat, dir: seq<Entry>, o: Owner, fat': Fat)
    requires Owned(fat, dir, o) && |fat| <= 0x0FFF_FFF0
    requires SameFor(fat, fat', o.root)
    requires forall i :: 0 <= i < |dir| ==> SameFor(fat, fat', o.files[i])
    ensures Owned(fat', dir, o)
  {
    ChainFrame(fat, fat', o.root);
    forall i | 0 <= i < |dir|
      ensures FileOk(fat', dir[i], o.files[i])
    {
      assert FileOk(fat, dir[i], o.files[i]);
      if Live(dir[i]) && Start(dir[i]) != 0 {
        ChainFrame(fat, fat', o.files[i]);
      }
    }
  }

  /** Clusters outside ch that belong to somebody; an allocation for ch must not touch them. */
  ghost predicate Spared(fat: Fat, o: Owner, idx: nat, ch: Chain)
  {
    && Disjoint(o.root, ch)
    && forall i :: 0 <= i < |o.files| && i != idx ==> Disjoint(o.files[i], ch)
  }

  /** Free clusters belong to nobody. */
  lemma FreeIsSpared(fat: Fat, dir: seq<Entry>, o: Owner, idx: nat, ch: Chain)
    requires Owned(fat, dir, o) && idx < |dir| && |fat| <= 0x0FFF_FFF0
    requires forall x :: x in ch ==> x in o.files[idx] || (x < |fat| && TypeOf(fat[x]) == Free)
    ensures Spared(fat, o, idx, ch)
  {
    ChainInUse(fat, o.root);
    forall i | 0 <= i < |o.files| && i != idx
      ensures Disjoint(o.files[i], ch)
    {
      assert FileOk(fat, dir[i], o.files[i]);
      if o.files[i] != [] {
        ChainInUse(fat, o.files[i]);
      }
    }
  }
}
