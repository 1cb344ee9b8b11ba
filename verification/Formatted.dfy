/** A freshly formatted card: the states that the theorems start from exist, for every geometry. */
module Formatted {
  import opened Bytes
  import opened Layout
  import opened Chains
  import opened Dirents
  import opened Volume

  /**
   * The media entry, the root directory's only cluster, and nothing else; all bytes are 0. Clusters from 3 up
   * to `first` are bad and marked so.
   */
  ghost function Blank(g: Geometry, first: nat): (v: Vol)
    requires g.Ok()
    ensures WellFormed(g, v)
  {
    Vol(seq(g.End(), c requires 0 <= c < g.End() => BlankEntry(g, first, c)),
        seq(g.End(), c requires 0 <= c < g.End() => seq(g.ClusterSize(), _ => 0)))
  }

  function BlankEntry(g: Geometry, first: nat, c: nat): (x: u32)
    ensures x < 0x1000_0000
  {
    if c == 0 then LAST_CLUSTER
    else if c == 1 || c == g.root then END_OF_CHAIN
    else if 3 <= c < first then BAD_CLUSTER
    else FREE_CLUSTER
  }

  const BAD_CLUSTER: u32 := 0x0FFF_FFF7

  /** The root directory alone owns a cluster. */
  ghost function BlankOwner(g: Geometry): Owner
    requires g.Ok()
  {
    Owner([g.root], seq(g.ClusterSize() / ENTRY, _ => []))
  }

  lemma BlankDir(g: Geometry, first: nat)
    requires g.Ok()
    ensures var dir := Dir(Blank(g, first).data, [g.root]);
            && |dir| == g.ClusterSize() / ENTRY >= 16
            && forall i :: 0 <= i < |dir| ==> IsFree(dir[i]) && !Live(dir[i])
  {
    var data := Blank(g, first).data;
    assert [g.root][..0] == [];
    assert Flat(data, [g.root]) == Flat(data, []) + data[g.root] == data[g.root];
  }

  /** A formatted card can be mounted, its clusters are all accounted for, and its names are unique. */
  lemma BlankIsClean(g: Geometry, first: nat)
    requires g.Ok()
    ensures Clean(g, Blank(g, first), BlankOwner(g)) && Mounted(g, Blank(g, first))
    ensures NamesOk(Dir(Blank(g, first).data, BlankOwner(g).root))
  {
    BlankDir(g, first);
    assert IsChain(Blank(g, first).fat, [g.root]);
    assert Span(1, g.ClusterSize()) == Span(0, g.ClusterSize()) + g.ClusterSize();
    assert SafeWith(g, Blank(g, first), BlankOwner(g));
  }

  /** The end of the clusters is where both conditions on it hold. */
  lemma EndIs(g: Geometry, n: nat)
    requires 2 < n <= g.EntryCount() && g.Place(n) <= g.sectors
    requires n < g.EntryCount() ==> g.sectors < g.Place(n) + g.spc
    ensures g.End() == n
  {
    if g.End() < n {
      PlacesDisjoint(g, g.End(), n);
    } else if n < g.End() {
      PlacesDisjoint(g, n, g.End());
    }
  }

  /** A card with 100 clusters of 64 sectors, whose FAT of one sector has 128 entries. */
  const HUNDRED := Geometry(200, 1, 64, 2, 202 + 100 * 64)

  lemma HundredIsOk()
    ensures HUNDRED.Ok() && HUNDRED.End() == 102 < HUNDRED.EntryCount() == 128
  {
    PlaceIsProduct(HUNDRED, 102);
    PlaceIsProduct(HUNDRED, 128);
    EndIs(HUNDRED, 102);
  }

  /** Once its clusters are in use, the search hands out a number that has none. */
  lemma SpareIsHandedOut(fat: Fat)
    requires |fat| == HUNDRED.EntryCount()
    requires forall c :: 2 <= c < 102 ==> InUse(fat[c])
    requires fat[102] == FREE_CLUSTER
    ensures HUNDRED.Ok() && FreeFrom(fat, ScanStart(3)) != []
    ensures var c := FreeFrom(fat, ScanStart(3))[0];
            HUNDRED.End() <= c < HUNDRED.EntryCount() && !HUNDRED.OnCard(HUNDRED.Lba(c))
    ensures FreeFrom(fat[..HUNDRED.End()], ScanStart(3)) == []
  {
    HundredIsOk();
    SkipUsed(fat, 3, 102);
    LbaIsPlace(HUNDRED, 102);
    SearchOfPart(fat, HUNDRED.End(), 3);
    FreeFromIsFreeList(fat[..HUNDRED.End()], 3);
  }

  lemma {:induction false} SkipUsed(fat: Fat, i: nat, end: nat)
    requires i <= end < |fat| && fat[end] == FREE_CLUSTER
    requires forall c :: i <= c < end ==> InUse(fat[c])
    ensures FreeFrom(fat, i) != [] && FreeFrom(fat, i)[0] == end
    decreases end - i
  {
    if i < end {
      SkipUsed(fat, i + 1, end);
    }
  }
}
