/**
 * The volume's layout on the card: reserved area, two FAT copies, clusters. The card holds
 * bytes; the abstract volume is a store of clusters and the FAT entries of those clusters.
 * The FAT is sized in whole sectors, so it may have spare entries behind them.
 */
module Layout {
  import opened Bytes

  const SECTOR: nat := 512
  const WORDS_PER_SECTOR: nat := 128

  type Image = seq<byte>

  /** The fields of the mounted volume; `sectors` is the size of the card. */
  datatype Geometry = Geometry(fatBegin: nat, nsecFat: nat, spc: nat, root: nat, sectors: nat)
  {
    function EntryCount(): nat { WORDS_PER_SECTOR * nsecFat }

    function ClusterSize(): nat { SECTOR * spc }

    /** A cluster holds a whole number of directory entries. */
    lemma ClusterSizeIsWhole()
      ensures ClusterSize() % 32 == 0
    {
      assert ClusterSize() == 32 * (16 * spc);
      TimesMod(16 * spc);
    }

    function ClusterBegin(): nat { fatBegin + 2 * nsecFat }

    /** The first cluster number from c upward that has no FAT entry or does not fit on the card. */
    ghost function EndFrom(c: nat): (end: nat)
      requires c >= 2
      ensures c <= end && (c < end ==> end <= EntryCount() && Place(end) <= sectors)
      ensures end < EntryCount() ==> sectors < Place(end) + spc
      decreases EntryCount() - c
    {
      if c < EntryCount() && Place(c) + spc <= sectors then EndFrom(c + 1) else c
    }

    /** The clusters of the volume are those from 2 up to here. */
    ghost function End(): nat { EndFrom(2) }

    /** The root directory exists, and every number that has a FAT entry has a 32-bit address. */
    ghost predicate Ok()
    {
      && 1 <= spc <= 128
      && 2 <= root < End() <= 0x0FFF_FFF0 && EntryCount() < 0x1_0000_0000
      && Place(EntryCount()) <= 0x1_0000_0000 && sectors < 0x1_0000_0000
    }

    /** Where cluster c starts: clusters follow one another from ClusterBegin. */
    function Place(c: nat): nat
      requires c >= 2
    {
      if c == 2 then ClusterBegin() else Place(c - 1) + spc
    }

    /** What cluster_to_lba returns: the place, cut to 32 bits. */
    function Lba(c: u32): (lba: u32)
      requires c >= 2
    {
      Wrap(Place(c))
    }

    predicate OnCard(lba: u32) { lba + spc <= sectors }
  }

  lemma TimesMod(k: nat)
    ensures 32 * k % 32 == 0
  {
  }

  /** Clusters lie above both FAT copies and in disjoint sector ranges. */
  lemma {:induction false} PlacesDisjoint(g: Geometry, c: nat, d: nat)
    requires 2 <= c <= d
    ensures g.ClusterBegin() <= g.Place(c) <= g.Place(d)
    ensures c < d ==> g.Place(c) + g.spc <= g.Place(d)
  {
    if c < d {
      PlacesDisjoint(g, c, d - 1);
    } else if c > 2 {
      PlacesDisjoint(g, c - 1, c - 1);
    }
  }

  lemma OnTheCard(g: Geometry, c: nat)
    requires g.Ok() && 2 <= c < g.End()
    ensures g.ClusterBegin() <= g.Place(c) && g.Place(c) + g.spc <= g.sectors
  {
    PlacesDisjoint(g, c, g.End());
  }

  /** A spare entry names a cluster that is not there. */
  lemma OffTheCard(g: Geometry, c: nat)
    requires g.Ok() && g.End() <= c < g.EntryCount()
    ensures g.sectors < g.Place(c) + g.spc
  {
    PlacesDisjoint(g, g.End(), c);
  }

  /** cluster_to_lba, with its 32-bit arithmetic. */
  method ClusterToLba(g: Geometry, c: u32) returns (lba: u32)
    requires c >= 2
    ensures lba == g.Lba(c)
  {
    lba := Wrap(g.ClusterBegin() + Wrap((c - 2) * g.spc));
    PlaceIsProduct(g, c);
    WrapOfWrap(g.ClusterBegin(), (c - 2) * g.spc);
  }

  lemma WrapOfWrap(a: int, b: int)
    ensures Wrap(a + Wrap(b)) == Wrap(a + b)
  {
    var q := b / 0x1_0000_0000;
    assert a + b == a + Wrap(b) + 0x1_0000_0000 * q;
  }

  /** Nothing wraps for the numbers that the FAT has entries for; they are on the card up to its end. */
  lemma LbaIsPlace(g: Geometry, c: nat)
    requires g.Ok() && 2 <= c < g.EntryCount()
    ensures g.Lba(c) == g.Place(c)
    ensures g.OnCard(g.Lba(c)) <==> c < g.End()
  {
    PlacesDisjoint(g, c, g.EntryCount());
    WrapSmall(g.Place(c));
    if c < g.End() {
      OnTheCard(g, c);
    } else {
      OffTheCard(g, c);
    }
  }

  lemma {:induction false} PlaceIsProduct(g: Geometry, c: nat)
    requires c >= 2
    ensures g.Place(c) == g.ClusterBegin() + (c - 2) * g.spc
    ensures g.Place(c) == g.fatBegin + 2 * g.nsecFat + (c - 2) * g.spc
  {
    if c > 2 {
      PlaceIsProduct(g, c - 1);
      assert (c - 2) * g.spc == (c - 3) * g.spc + g.spc;
    }
  }

  lemma WrapSmall(x: int)
    requires 0 <= x < 0x1_0000_0000
    ensures Wrap(x) == x
  {
  }

  function Put(img: Image, lba: nat, data: seq<byte>): (r: Image)
    requires SECTOR * lba + |data| <= |img|
    ensures |r| == |img|
  {
    img[..SECTOR * lba] + data + img[SECTOR * lba + |data|..]
  }

  function Get(img: Image, lba: nat, nsec: nat): (data: seq<byte>)
    requires SECTOR * (lba + nsec) <= |img|
    ensures |data| == SECTOR * nsec
  {
    img[SECTOR * lba..SECTOR * (lba + nsec)]
  }

  lemma GetOfPut(img: Image, lba: nat, data: seq<byte>, at: nat, nsec: nat)
    requires SECTOR * lba + |data| <= |img| && SECTOR * (at + nsec) <= |img|
    ensures lba == at && |data| == SECTOR * nsec ==> Get(Put(img, lba, data), at, nsec) == data
    ensures (at + nsec <= lba || SECTOR * lba + |data| <= SECTOR * at) ==>
              Get(Put(img, lba, data), at, nsec) == Get(img, at, nsec)
  {
  }

  /** The abstract volume: the FAT entries and the bytes of its clusters. Clusters 0 and 1 do not exist. */
  datatype Vol = Vol(fat: seq<u32>, data: seq<seq<byte>>)

  ghost predicate WellFormed(g: Geometry, v: Vol)
  {
    && |v.fat| == |v.data| == g.End()
    && forall c :: 2 <= c < |v.data| ==> |v.data[c]| == g.ClusterSize()
  }

  function DecodeFat(b: seq<byte>): (fat: seq<u32>)
    ensures |fat| == |b| / 4
  {
    seq(|b| / 4, i requires 0 <= i < |b| / 4 => Little(b[4 * i..4 * i + 4]))
  }

  /** An entry is four bytes, low byte first. */
  lemma FatEntryBytes(b: seq<byte>, i: nat)
    requires 4 * i + 4 <= |b|
    ensures DecodeFat(b)[i] == WordOf(b[4 * i], b[4 * i + 1], b[4 * i + 2], b[4 * i + 3])
  {
    LittleWord(b[4 * i..4 * i + 4]);
  }

  type Word = w: seq<byte> | |w| == 4 witness [0, 0, 0, 0]

  function Joined(words: seq<Word>): (b: seq<byte>)
    ensures |b| == 4 * |words|
  {
    if words == [] then [] else words[0] + Joined(words[1..])
  }

  lemma {:induction false} JoinedAt(words: seq<Word>, i: nat)
    requires i < |words|
    ensures Joined(words)[4 * i..4 * i + 4] == words[i]
    decreases i
  {
    var word: seq<byte>, rest := words[0], Joined(words[1..]);
    if i == 0 {
      assert (word + rest)[0..4] == word;
    } else {
      JoinedAt(words[1..], i - 1);
      assert (word + rest)[4 * i..4 * i + 4] == rest[4 * (i - 1)..4 * (i - 1) + 4];
    }
  }

  function EncodeFat(fat: seq<u32>): (b: seq<byte>)
    ensures |b| == 4 * |fat|
  {
    Joined(seq(|fat|, i requires 0 <= i < |fat| => ToLe32(fat[i])))
  }

  lemma DecodeEncode(fat: seq<u32>)
    ensures DecodeFat(EncodeFat(fat)) == fat
  {
    var b := EncodeFat(fat);
    forall i | 0 <= i < |fat|
      ensures DecodeFat(b)[i] == fat[i]
    {
      JoinedAt(seq(|fat|, k requires 0 <= k < |fat| => ToLe32(fat[k])), i);
    }
  }

  ghost function Abs(g: Geometry, img: Image): (v: Vol)
    requires g.Ok() && |img| == SECTOR * g.sectors
    ensures WellFormed(g, v)
  {
    Vol(FatOnCard(g, img)[..g.End()], Clusters(g, img))
  }

  /** The first FAT copy, with the spare entries. */
  ghost function FatOnCard(g: Geometry, img: Image): (fat: seq<u32>)
    requires g.Ok() && |img| == SECTOR * g.sectors
    ensures |fat| == g.EntryCount() >= g.End()
  {
    PlacesDisjoint(g, 2, g.End());
    DecodeFat(Get(img, g.fatBegin, g.nsecFat))
  }

  /** The entries of the first FAT copy that belong to no cluster. */
  ghost function Spare(g: Geometry, img: Image): (spare: seq<u32>)
    requires g.Ok() && |img| == SECTOR * g.sectors
    ensures |spare| == g.EntryCount() - g.End()
  {
    FatOnCard(g, img)[g.End()..]
  }

  ghost function Clusters(g: Geometry, img: Image): (data: seq<seq<byte>>)
    requires g.Ok() && |img| == SECTOR * g.sectors
    ensures |data| == g.End()
    ensures forall c :: 2 <= c < |data| ==> |data[c]| == g.ClusterSize()
  {
    seq(g.End(), c requires 0 <= c < g.End() =>
      if c < 2 then [] else
        OnTheCard(g, c);
        Get(img, g.Place(c), g.spc))
  }

  /**
   * Writing the sectors of cluster c replaces that cluster and nothing else: the
   * reserved area, both FAT copies and all other clusters stay.
   */
  lemma ClusterWrite(g: Geometry, img: Image, c: nat, block: seq<byte>)
    requires g.Ok() && |img| == SECTOR * g.sectors
    requires 2 <= c < g.End() && |block| == g.ClusterSize()
    ensures SECTOR * g.Place(c) + |block| <= |img|
    ensures Abs(g, Put(img, g.Place(c), block)) == Abs(g, img).(data := Abs(g, img).data[c := block])
    ensures SECTOR * g.ClusterBegin() <= |img|
    ensures Get(Put(img, g.Place(c), block), 0, g.ClusterBegin()) == Get(img, 0, g.ClusterBegin())
    ensures Spare(g, Put(img, g.Place(c), block)) == Spare(g, img)
  {
    OnTheCard(g, c);
    var img' := Put(img, g.Place(c), block);
    GetOfPut(img, g.Place(c), block, 0, g.ClusterBegin());
    GetOfPut(img, g.Place(c), block, g.fatBegin, g.nsecFat);
    forall d | 2 <= d < g.End()
      ensures Clusters(g, img')[d] == Clusters(g, img)[c := block][d]
    {
      OtherCluster(g, img, c, block, d);
    }
    assert Clusters(g, img') == Clusters(g, img)[c := block];
  }

  lemma OtherCluster(g: Geometry, img: Image, c: nat, block: seq<byte>, d: nat)
    requires g.Ok() && |img| == SECTOR * g.sectors
    requires 2 <= c < g.End() && |block| == g.ClusterSize() && 2 <= d < g.End()
    requires SECTOR * g.Place(c) + |block| <= |img|
    ensures Clusters(g, Put(img, g.Place(c), block))[d] == if d == c then block else Clusters(g, img)[d]
  {
    OnTheCard(g, d);
    if d < c {
      PlacesDisjoint(g, d, c);
    } else if c < d {
      PlacesDisjoint(g, c, d);
    }
    GetOfPut(img, g.Place(c), block, g.Place(d), g.spc);
  }

  /** Flushing the FAT replaces the first FAT copy and nothing else. */
  lemma FatWrite(g: Geometry, img: Image, fat: seq<u32>)
    requires g.Ok() && |img| == SECTOR * g.sectors && |fat| == g.EntryCount()
    ensures SECTOR * (g.fatBegin + 2 * g.nsecFat) <= |img|
    ensures Abs(g, Put(img, g.fatBegin, EncodeFat(fat))) == Abs(g, img).(fat := fat[..g.End()])
    ensures Spare(g, Put(img, g.fatBegin, EncodeFat(fat))) == fat[g.End()..]
    ensures var img' := Put(img, g.fatBegin, EncodeFat(fat));
            && Get(img', 0, g.fatBegin) == Get(img, 0, g.fatBegin)
            && Get(img', g.fatBegin + g.nsecFat, g.nsecFat) == Get(img, g.fatBegin + g.nsecFat, g.nsecFat)
  {
    FlushBytes(g, img, EncodeFat(fat));
    DecodeEncode(fat);
    BesideTheFat(g, img, EncodeFat(fat));
  }

  /** The volume after the first FAT copy was overwritten by any bytes. */
  lemma FlushBytes(g: Geometry, img: Image, b: seq<byte>)
    requires g.Ok() && |img| == SECTOR * g.sectors && |b| == SECTOR * g.nsecFat
    ensures SECTOR * (g.fatBegin + 2 * g.nsecFat) <= |img| && g.End() <= |DecodeFat(b)|
    ensures Abs(g, Put(img, g.fatBegin, b)) == Abs(g, img).(fat := DecodeFat(b)[..g.End()])
    ensures FatOnCard(g, Put(img, g.fatBegin, b)) == DecodeFat(b)
  {
    PlacesDisjoint(g, 2, g.End());
    GetOfPut(img, g.fatBegin, b, g.fatBegin, g.nsecFat);
    ClustersOfFatWrite(g, img, b);
  }

  lemma BesideTheFat(g: Geometry, img: Image, b: seq<byte>)
    requires SECTOR * (g.fatBegin + 2 * g.nsecFat) <= |img| && |b| == SECTOR * g.nsecFat
    ensures var img' := Put(img, g.fatBegin, b);
            && Get(img', 0, g.fatBegin) == Get(img, 0, g.fatBegin)
            && Get(img', g.fatBegin + g.nsecFat, g.nsecFat) == Get(img, g.fatBegin + g.nsecFat, g.nsecFat)
  {
    GetOfPut(img, g.fatBegin, b, 0, g.fatBegin);
    GetOfPut(img, g.fatBegin, b, g.fatBegin + g.nsecFat, g.nsecFat);
  }

  lemma ClustersOfFatWrite(g: Geometry, img: Image, b: seq<byte>)
    requires g.Ok() && |img| == SECTOR * g.sectors && |b| == SECTOR * g.nsecFat
    requires SECTOR * (g.fatBegin + 2 * g.nsecFat) <= |img|
    ensures Clusters(g, Put(img, g.fatBegin, b)) == Clusters(g, img)
  {
    var img' := Put(img, g.fatBegin, b);
    forall d | 2 <= d < g.End()
      ensures Clusters(g, img')[d] == Clusters(g, img)[d]
    {
      OnTheCard(g, d);
      GetOfPut(img, g.fatBegin, b, g.Place(d), g.spc);
    }
    assert Clusters(g, img') == Clusters(g, img);
  }
}
