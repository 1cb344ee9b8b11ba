/**
 * Where the stray read behind a chain goes. read_cluster_chain reads once more at the address that the end mark
 * maps to, and every command reads the root directory first.
 */
module EndMarks {
  import opened Bytes
  import opened Names
  import opened Layout
  import opened Chains
  import opened Volume
  import opened Operations
  import opened Runs
  import opened RoundTrip

  /** An end mark with a zero top nibble. */
  predicate IsEndMark(x: u32)
  {
    LAST_CLUSTER <= x <= END_OF_CHAIN
  }

  lemma MarkPlace(g: Geometry, x: u32)
    requires x >= 2
    ensures g.Lba(x) == Wrap(g.ClusterBegin() + (x - 2) * g.spc)
  {
    PlaceIsProduct(g, x);
  }

  /** Clusters of less than 8 KiB on a card of less than 128 GiB: no end mark maps to the card. */
  lemma SmallClustersOffCard(g: Geometry, x: u32)
    requires g.Ok() && g.spc < 16 && g.sectors < 0x0FFF_FFF6 && IsEndMark(x)
    ensures !g.OnCard(g.Lba(x))
  {
    MarkPlace(g, x);
    OnTheCard(g, 2);
    Between(x - 2, g.spc, 0x0FFF_FFF6, 0x0FFF_FFFD);
    WrapSmall(g.ClusterBegin() + (x - 2) * g.spc);
  }

  lemma Between(c: nat, spc: nat, low: nat, high: nat)
    requires low <= c <= high && 1 <= spc < 16
    ensures low <= c * spc <= 15 * high
  {
    assert c * spc >= c * 1;
    assert c * spc <= c * 15;
  }

  /**
   * Clusters of a multiple of 8 KiB: 2^28 clusters are a multiple of 2^32 sectors, so the end mark 2^28 - d maps
   * d + 2 clusters below the first one. It is on the card if and only if so much lies there.
   */
  lemma EndMarkOnCardIff(g: Geometry, d: nat, m: nat)
    requires g.Ok() && g.spc == 16 * m && 1 <= d <= 8 && g.sectors < 0xFFFF_FB00
    ensures g.OnCard(g.Lba(0x1000_0000 - d)) <==> (d + 2) * g.spc <= g.ClusterBegin()
  {
    OnTheCard(g, 2);
    MarkPlace(g, 0x1000_0000 - d);
    MarkProduct(0x1000_0000, d + 2, g.spc, 0x1_0000_0000, m);
    AtMostTen(d + 2, g.spc);
    LbaBelow(g, g.ClusterBegin(), (d + 2) * g.spc, m, g.Lba(0x1000_0000 - d));
  }

  lemma LbaBelow(g: Geometry, begin: nat, below: nat, m: nat, lba: u32)
    requires begin + g.spc <= g.sectors < 0xFFFF_FB00 && below <= 1280
    requires lba == Wrap(begin + (0x1_0000_0000 * m - below))
    ensures g.OnCard(lba) <==> below <= begin
  {
    WrapBelow(begin, below, m);
  }

  lemma MarkProduct(all: nat, t: nat, spc: nat, word: nat, m: nat)
    requires spc == 16 * m && word == 16 * all
    ensures (all - t) * spc == word * m - t * spc
  {
    assert all * spc == word * m;
  }

  lemma AtMostTen(t: nat, spc: nat)
    requires t <= 10
    ensures t * spc <= 10 * spc
  {
  }

  lemma WrapBelow(begin: nat, below: nat, m: nat)
    requires below <= 1280 && begin < 0x1_0000_0000
    ensures Wrap(begin + (0x1_0000_0000 * m - below))
            == if below <= begin then begin - below else begin - below + 0x1_0000_0000
  {
    var r := if below <= begin then begin - below else begin - below + 0x1_0000_0000;
    var q := if below <= begin then m else m - 1;
    assert begin + (0x1_0000_0000 * m - below) == 0x1_0000_0000 * q + r;
  }

  /** A chain that ends with such a mark, on a card with small clusters, cannot be read. */
  lemma SmallClustersStray(g: Geometry, fat: Fat, ch: Chain)
    requires g.Ok() && g.spc < 16 && g.sectors < 0x0FFF_FFF6
    requires IsChain(fat, ch) && IsEndMark(fat[ch[|ch| - 1]])
    ensures !StrayReadOk(g, fat, ch)
  {
    SmallClustersOffCard(g, fat[ch[|ch| - 1]]);
  }

  /** The commands that look at their name before they read the directory refuse it. */
  predicate Refused(cmd: Command)
  {
    match cmd
    case Create(name, _) => !IsValid(name)
    case Delete(name) => !IsValid(name)
    case Rename(_, newName) => !IsValid(newName)
    case _ => false
  }

  /**
   * On a card with small clusters every command panics before it writes, unless it refuses its name, and no
   * file can be read.
   */
  lemma SmallClustersStop(g: Geometry, v: Vol, o: Owner, cmd: Command, name: CString)
    requires g.Ok() && SafeWith(g, v, o) && CommandOk(g, cmd)
    requires g.spc < 16 && g.sectors < 0x0FFF_FFF6 && IsEndMark(v.fat[o.root[|o.root| - 1]])
    ensures StepAt(g, v, o, cmd).trace == [] && (StepAt(g, v, o, cmd).halted <==> !Refused(cmd))
    ensures !ReadReturns(g, v, o, name)
  {
    SmallClustersStray(g, v.fat, o.root);
    NoStrayNoStep(g, v, o, cmd);
  }

  lemma NoStrayNoStep(g: Geometry, v: Vol, o: Owner, cmd: Command)
    requires g.Ok() && SafeWith(g, v, o) && CommandOk(g, cmd) && !StrayReadOk(g, v.fat, o.root)
    ensures StepAt(g, v, o, cmd).trace == [] && (StepAt(g, v, o, cmd).halted <==> !Refused(cmd))
  {
  }
}
