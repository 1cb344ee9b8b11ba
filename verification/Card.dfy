/** The SD card behind the driver, and reading and writing clusters on it. */
module Card {
  import opened Bytes
  import opened Layout

  /** Images of a card have its size. */
  ghost predicate Sized(g: Geometry, images: seq<Image>)
  {
    forall i :: 0 <= i < |images| ==> |images[i]| == SECTOR * g.sectors
  }

  /** The volumes that a sequence of images holds. */
  ghost function Vols(g: Geometry, images: seq<Image>): (vols: seq<Vol>)
    requires g.Ok() && Sized(g, images)
    ensures |vols| == |images|
  {
    if images == [] then [] else Vols(g, images[..|images| - 1]) + [Abs(g, images[|images| - 1])]
  }

  lemma VolsPush(g: Geometry, images: seq<Image>, image: Image)
    requires g.Ok() && Sized(g, images) && |image| == SECTOR * g.sectors
    ensures Sized(g, images + [image])
    ensures Vols(g, images + [image]) == Vols(g, images) + [Abs(g, image)]
  {
    assert (images + [image])[..|images|] == images;
  }

  /**
   * The card: its bytes, and a record of what it held after each write. A transfer
   * that does not fit the card fails, and the driver panics on it.
   */
  class SdCard {
    var bytes: Image
    ghost var history: seq<Image>

    constructor (image: Image)
      ensures bytes == image && history == []
    {
      bytes := image;
      history := [];
    }

    /** pi_sd_read: nsec sectors into dst from position at. */
    method Read(dst: array<byte>, at: nat, lba: u32, nsec: nat) returns (ok: bool)
      requires at + SECTOR * nsec <= dst.Length
      modifies dst
      ensures ok <==> SECTOR * (lba + nsec) <= |bytes|
      ensures ok ==> dst[..] == old(dst[..at]) + Get(bytes, lba, nsec) + old(dst[at + SECTOR * nsec..])
      ensures !ok ==> dst[..] == old(dst[..])
    {
      if SECTOR * (lba + nsec) > |bytes| {
        return false;
      }
      var data := bytes[SECTOR * lba..SECTOR * (lba + nsec)];
      forall k | 0 <= k < |data| {
        dst[at + k] := data[k];
      }
      assert dst[at..at + |data|] == data;
      assert dst[..at] == old(dst[..at]) && dst[at + |data|..] == old(dst[at + |data|..]);
      assert dst[..] == dst[..at] + dst[at..at + |data|] + dst[at + |data|..];
      return true;
    }

    /** pi_sd_write: the given bytes, a whole number of sectors, from sector lba. */
    method Write(data: seq<byte>, lba: nat) returns (ok: bool)
      modifies this
      ensures ok <==> SECTOR * lba + |data| <= |old(bytes)|
      ensures ok ==> bytes == Put(old(bytes), lba, data) && history == old(history) + [bytes]
      ensures !ok ==> bytes == old(bytes) && history == old(history)
    {
      if SECTOR * lba + |data| > |bytes| {
        return false;
      }
      bytes := bytes[..SECTOR * lba] + data + bytes[SECTOR * lba + |data|..];
      history := history + [bytes];
      return true;
    }
  }
}
