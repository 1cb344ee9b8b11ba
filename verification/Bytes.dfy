/** Machine integers and C strings as the rest of the model sees them. */
module Bytes {
  import opened Arithmetic

  type byte = x: int | 0 <= x < 256
  type u32 = x: int | 0 <= x < 0x1_0000_0000
  type i32 = x: int | -0x8000_0000 <= x < 0x8000_0000

  const WORD: int := 0x1_0000_0000
  const SIGN: int := 0x8000_0000

  const SPACE: byte := 32
  const DOT: byte := 46

  /** What a 32-bit unsigned result keeps of an exact one. */
  function Wrap(x: int): (r: u32)
  {
    x % 0x1_0000_0000
  }

  /** A C string without its terminating NUL. */
  type CString = s: seq<byte> | forall i :: 0 <= i < |s| ==> s[i] != 0

  /** The string that starts at the first byte of a buffer: everything before its first NUL. */
  function UpToNul(s: seq<byte>): (r: CString)
    ensures |r| <= |s| && r == s[..|r|]
    ensures |r| < |s| ==> s[|r|] == 0
  {
    if s == [] || s[0] == 0 then [] else [s[0]] + UpToNul(s[1..])
  }

  lemma UpToNulWhole(s: seq<byte>)
    requires forall i :: 0 <= i < |s| ==> s[i] != 0
    ensures UpToNul(s) == s
  {
  }

  /** Little-endian words, as the packed structures and the FAT store them. */
  function Le16(lo: byte, hi: byte): (r: int)
    ensures 0 <= r < 0x1_0000
  {
    var h: int := hi;
    lo + 0x100 * h
  }

  /** A little-endian number of up to four bytes. */
  function Little(b: seq<byte>): (r: int)
    ensures 0 <= r
    ensures |b| <= 1 ==> r < 0x100
    ensures |b| <= 2 ==> r < 0x1_0000
    ensures |b| <= 3 ==> r < 0x100_0000
    ensures |b| <= 4 ==> r < 0x1_0000_0000
  {
    if b == [] then 0
    else
      var rest := Little(b[1..]);
      b[0] + 0x100 * rest
  }

  /** The weights of four bytes, the low one first. */
  function WordOf(a: int, b: int, c: int, d: int): int
  {
    a + 0x100 * b + 0x1_0000 * c + 0x100_0000 * d
  }

  lemma LittleWord(b: seq<byte>)
    requires |b| == 4
    ensures Little(b) == WordOf(b[0], b[1], b[2], b[3])
  {
    assert b[1..][1..] == b[2..] && b[2..][1..] == b[3..] && b[3..][1..] == [];
    assert Little(b[3..]) == b[3] + 0x100 * Little([]);
    assert Little(b[2..]) == b[2] + 0x100 * Little(b[3..]);
  }

  lemma LittleHalves(b: seq<byte>)
    requires |b| == 4
    ensures Little(b) == Little(b[..2]) + 0x1_0000 * Little(b[2..])
  {
    assert b[..2][1..] == [b[1]] && b[1..][1..] == b[2..];
    assert Little([b[1]]) == b[1] + 0x100 * Little([]);
  }

  function Pow256(k: nat): (r: nat)
    ensures r > 0
  {
    if k == 0 then 1 else 0x100 * Pow256(k - 1)
  }

  /** The k bytes of x, low byte first. */
  function ToLittle(x: nat, k: nat): (b: seq<byte>)
    ensures |b| == k
    ensures x < Pow256(k) ==> Little(b) == x
  {
    if k == 0 then
      []
    else
      var rest := ToLittle(x / 0x100, k - 1);
      assert ([x % 0x100] + rest)[1..] == rest;
      [x % 0x100] + rest
  }

  lemma Widths()
    ensures Pow256(2) == 0x1_0000 && Pow256(4) == 0x1_0000_0000
  {
    assert Pow256(2) == 0x100 * Pow256(1);
    assert Pow256(4) == 0x100 * (0x100 * Pow256(2));
  }

  function ToLe16(x: int): (b: seq<byte>)
    requires 0 <= x < 0x1_0000
    ensures |b| == 2 && Little(b) == x
  {
    Widths();
    ToLittle(x, 2)
  }

  function ToLe32(x: u32): (b: seq<byte>)
    ensures |b| == 4 && Little(b) == x
  {
    Widths();
    ToLittle(x, 4)
  }

  lemma JoinedHalves(lo: seq<byte>, hi: seq<byte>)
    requires |lo| == 2 && |hi| == 2
    ensures Little(lo + hi) == Little(lo) + 0x1_0000 * Little(hi)
  {
    LittleHalves(lo + hi);
    assert (lo + hi)[..2] == lo && (lo + hi)[2..] == hi;
  }

  /** C's x << n and x >> n on 32-bit words; a shift by 32 is read as shifting everything out. */
  function Shl(x: u32, n: nat): (r: u32)
  {
    x * Pow2(n) % WORD
  }

  function Shr(x: u32, n: nat): (r: u32)
    ensures r <= x
  {
    Shrinks(x, Pow2(n));
    x / Pow2(n)
  }

  /** C's | of two patterns without a common bit: low fits below the lowest place that high can occupy. */
  function Or(high: int, low: int, place: int): (r: int)
    requires place >= 1 && high % place == 0 && 0 <= low < place
  {
    high + low
  }
}
