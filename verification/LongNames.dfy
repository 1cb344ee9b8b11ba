/** Long file names: 13 UTF-16 units to an entry, the first 13 in the last entry, reassembled as UTF-8. */
module LongNames {
  import opened Bytes
  import opened Utf8
  import Dirents

  type Entry = Dirents.Entry

  /** A directory entry with attribute 0x0F; three of its fields hold units of two bytes each. */
  function First(e: Entry): seq<byte> { e[1..11] }
  function Second(e: Entry): seq<byte> { e[14..26] }
  function Third(e: Entry): seq<byte> { e[28..32] }

  type u16 = u: int | 0 <= u < 0x1_0000

  /** A UTF-16 unit that can be part of a name. */
  type unit = u: int | 1 <= u < 0xFFFF witness 1

  predicate Terminates(u: int) {
    u == 0 || u == 0xFFFF
  }

  function Units(s: seq<byte>): (us: seq<u16>)
    requires |s| % 2 == 0
    ensures |us| == |s| / 2
    ensures forall i :: 0 <= i < |us| ==> us[i] == Le16(s[2 * i], s[2 * i + 1])
  {
    seq(|s| / 2, i requires 0 <= i < |s| / 2 => Le16(s[2 * i], s[2 * i + 1]))
  }

  /** The UTF-8 of units up to the first terminator. */
  function Text(us: seq<u16>): (t: seq<byte>)
    ensures |t| <= 3 * |us|
  {
    if us == [] || Terminates(us[0]) then [] else Encode(us[0]) + Text(us[1..])
  }

  /** Each field is read up to its own terminator. */
  function EntryText(e: Entry): (t: seq<byte>)
    ensures |t| <= 39
  {
    Text(Units(First(e))) + Text(Units(Second(e))) + Text(Units(Third(e)))
  }

  /** The last of the entries comes first. */
  function NameText(entries: seq<Entry>): (t: seq<byte>)
    ensures |t| <= 39 * |entries|
  {
    if entries == [] then [] else EntryText(entries[|entries| - 1]) + NameText(entries[..|entries| - 1])
  }

  // ---- How a name is stored ----

  /** What place k of an entry holds: a unit of the piece, the terminator after it, or padding. */
  function Stored(piece: seq<unit>, k: nat): u16 {
    if k < |piece| then piece[k] else if k == |piece| then 0 else 0xFFFF
  }

  /** Where the layout of a long-name entry puts unit k. */
  function Offset(k: nat): (at: nat)
    requires k < 13
    ensures at + 1 < 32
  {
    if k < 5 then 1 + 2 * k else if k < 11 then 14 + 2 * (k - 5) else 28 + 2 * (k - 11)
  }

  /** The entry as it lies on the card: attribute 0x0F, and each unit in its place, low byte first. */
  ghost predicate Holds(e: Entry, piece: seq<unit>) {
    && e[11] == 0x0F
    && |piece| <= 13
    && forall k :: 0 <= k < 13 ==> HoldsUnit(e, k, Stored(piece, k))
  }

  predicate HoldsUnit(e: Entry, k: nat, u: u16)
    requires k < 13
  {
    e[Offset(k)] == u % 256 && e[Offset(k) + 1] == u / 256
  }

  /** The fields of the source find the units there. */
  lemma FieldsHold(e: Entry, piece: seq<unit>)
    requires Holds(e, piece)
    ensures Dirents.Attr(e) == Dirents.ATTR_LFN
    ensures FieldHolds(Units(First(e)), piece, 0)
    ensures FieldHolds(Units(Second(e)), piece, 5)
    ensures FieldHolds(Units(Third(e)), piece, 11)
  {
    OneField(e, piece, First(e), 0);
    OneField(e, piece, Second(e), 5);
    OneField(e, piece, Third(e), 11);
  }

  lemma OneField(e: Entry, piece: seq<unit>, field: seq<byte>, from: nat)
    requires Holds(e, piece) && |field| % 2 == 0 && from + |field| / 2 <= 13
    requires forall k :: 0 <= k < |field| / 2 ==>
               field[2 * k] == e[Offset(from + k)] && field[2 * k + 1] == e[Offset(from + k) + 1]
    ensures FieldHolds(Units(field), piece, from)
  {
    forall k | 0 <= k < |field| / 2
      ensures Units(field)[k] == Stored(piece, from + k)
    {
      assert HoldsUnit(e, from + k, Stored(piece, from + k));
      TwoBytes(Stored(piece, from + k));
    }
  }

  lemma TwoBytes(u: u16)
    ensures 0 <= u / 256 < 256 && Le16(u % 256, u / 256) == u
  {
  }

  ghost predicate FieldHolds(us: seq<u16>, piece: seq<unit>, from: nat) {
    forall k :: 0 <= k < |us| ==> us[k] == Stored(piece, from + k)
  }

  /** A name cut into pieces of 13 units, the first piece in the last entry. */
  ghost predicate IsStored(entries: seq<Entry>, name: seq<unit>)
    decreases |name|
  {
    && |entries| > 0
    && (if |name| <= 13 then
          |entries| == 1 && Holds(entries[0], name)
        else
          Holds(entries[|entries| - 1], name[..13]) && IsStored(entries[..|entries| - 1], name[13..]))
  }

  function Min(a: nat, b: nat): nat {
    if a < b then a else b
  }

  /** The units of a piece from one place to another, as far as it goes. */
  function Part(piece: seq<unit>, from: nat, to: nat): seq<unit>
    requires from <= to
  {
    piece[Min(from, |piece|)..Min(to, |piece|)]
  }

  /** One field contributes the units of the piece that it covers. */
  lemma {:induction false} FieldText(us: seq<u16>, piece: seq<unit>, from: nat)
    requires FieldHolds(us, piece, from)
    ensures Text(us) == EncodeAll(Part(piece, from, from + |us|))
    decreases |us|
  {
    if us != [] && from < |piece| {
      var part := Part(piece, from, from + |us|);
      assert part[0] == piece[from] == us[0];
      FieldText(us[1..], piece, from + 1);
      assert part[1..] == Part(piece, from + 1, from + |us|);
    } else if us != [] {
      assert us[0] == Stored(piece, from + 0);
    }
  }

  lemma CutInThree(piece: seq<unit>, x: nat, y: nat)
    requires x <= y <= |piece|
    ensures EncodeAll(piece[..x]) + EncodeAll(piece[x..y]) + EncodeAll(piece[y..]) == EncodeAll(piece)
  {
    EncodeAllSplit(piece, y);
    EncodeAllSplit(piece[..y], x);
    assert piece[..y][..x] == piece[..x];
  }

  lemma FieldsReadBack(us: seq<u16>, vs: seq<u16>, ws: seq<u16>, piece: seq<unit>)
    requires |us| == 5 && |vs| == 6 && |ws| == 2 && |piece| <= 13
    requires FieldHolds(us, piece, 0) && FieldHolds(vs, piece, |us|) && FieldHolds(ws, piece, |us| + |vs|)
    ensures Text(us) + Text(vs) + Text(ws) == EncodeAll(piece)
  {
    var n, x, y := |piece|, |us|, |us| + |vs|;
    FieldText(us, piece, 0);
    FieldText(vs, piece, x);
    FieldText(ws, piece, y);
    CutInThree(piece, Min(x, n), Min(y, n));
    WholeParts(piece);
  }

  lemma EntryReadBack(e: Entry, piece: seq<unit>)
    requires Holds(e, piece)
    ensures EntryText(e) == EncodeAll(piece)
  {
    FieldsHold(e, piece);
    TextOfFields(Units(First(e)), Units(Second(e)), Units(Third(e)), piece, 5, 11);
  }

  lemma TextOfFields(us: seq<u16>, vs: seq<u16>, ws: seq<u16>, piece: seq<unit>, x: nat, y: nat)
    requires |us| == 5 && |vs| == 6 && |ws| == 2 && |piece| <= 13 && x == 5 && y == 11
    requires FieldHolds(us, piece, 0) && FieldHolds(vs, piece, x) && FieldHolds(ws, piece, y)
    ensures Text(us) + Text(vs) + Text(ws) == EncodeAll(piece)
  {
    assert x == |us| && y == |us| + |vs|;
    FieldsReadBack(us, vs, ws, piece);
  }

  lemma WholeParts(piece: seq<unit>)
    requires |piece| <= 13
    ensures Part(piece, 0, 5) == piece[..Min(5, |piece|)] && Part(piece, 11, 13) == piece[Min(11, |piece|)..]
  {
  }

  /** Reassembly undoes storage, for every name. */
  lemma {:induction false} Reassembled(entries: seq<Entry>, name: seq<unit>)
    requires IsStored(entries, name)
    ensures NameText(entries) == EncodeAll(name)
    decreases |name|
  {
    var last := |entries| - 1;
    if |name| <= 13 {
      EntryReadBack(entries[0], name);
      assert NameText(entries[..last]) == [];
    } else {
      EntryReadBack(entries[last], name[..13]);
      Reassembled(entries[..last], name[13..]);
      EncodeAllSplit(name, 13);
    }
  }

  // ---- The code ----

  /** Both bytes 0, or both 0xFF. */
  predicate Terminator(lo: byte, hi: byte)
    ensures Terminator(lo, hi) <==> Terminates(Le16(lo, hi))
  {
    (lo == 0 && hi == 0) || (lo == 0xFF && hi == 0xFF)
  }

  method StrLen(s: array<byte>) returns (n: nat)
    requires exists k :: 0 <= k < s.Length && s[k] == 0
    ensures n < s.Length && s[n] == 0 && forall k :: 0 <= k < n ==> s[k] != 0
  {
    n := 0;
    while s[n] != 0
      invariant n < s.Length && forall k :: 0 <= k < n ==> s[k] != 0
      decreases s.Length - n
    {
      n := n + 1;
    }
  }

  /** strcat at the end of a string, which at already points to. */
  method StrCat(buf: array<byte>, at: nat, s: array<byte>, n: nat)
    requires n < s.Length && s[n] == 0 && at + n < buf.Length && buf[at] == 0 && buf != s
    modifies buf
    ensures buf[..at] == old(buf[..at]) && buf[at..at + n] == s[..n] && buf[at + n] == 0
  {
    for i := 0 to n + 1
      invariant buf[..at] == old(buf[..at])
      invariant forall k :: 0 <= k < i ==> buf[at + k] == s[k]
    {
      buf[at + i] := s[i];
    }
  }

  /** Appends the UTF-8 of one unit to the string that ends at at; ret is to_utf8's static buffer. */
  method AppendUnit(buf: array<byte>, at: nat, u: unit, ret: array<byte>) returns (end: nat)
    requires ret.Length == 5 && buf != ret && at + 3 < buf.Length && buf[at] == 0
    modifies buf, ret
    ensures end <= at + 3 && buf[end] == 0 && buf[..end] == old(buf[..at]) + Encode(u)
  {
    var coded := ToUtf8(u, ret);
    EncodedBytes(u);
    ghost var text := ret[..Length(u)];
    assert forall k :: 0 <= k < Length(u) ==> ret[k] == text[k];
    var n := StrLen(ret);
    StrCat(buf, at, ret, n);
    end := at + n;
    assert buf[..end] == buf[..at] + buf[at..end];
  }

  method Utf8Append(buf: array<byte>, at: nat, unicode: seq<byte>, ret: array<byte>) returns (end: nat)
    requires |unicode| % 2 == 0 && ret.Length == 5 && buf != ret
    requires at + 3 * (|unicode| / 2) < buf.Length && buf[at] == 0
    modifies buf, ret
    ensures end <= at + 3 * (|unicode| / 2) && buf[end] == 0
    ensures buf[..end] == old(buf[..at]) + Text(Units(unicode))
  {
    ghost var us := Units(unicode);
    ghost var start := buf[..at];
    ghost var k := 0;
    var i: nat := 0;
    end := at;
    assert us[0..] == us;
    while i < |unicode|
      invariant i == 2 * k <= |unicode| && end <= at + 3 * k
      invariant buf[end] == 0
      invariant buf[..end] + Text(us[k..]) == start + Text(us)
      decreases |unicode| - i
    {
      var u: u16 := Le16(unicode[i], unicode[i + 1]);
      assert us[k] == u && us[k..][0] == u && us[k..][1..] == us[k + 1..];
      if Terminator(unicode[i], unicode[i + 1]) {
        break;
      }
      ghost var before := buf[..end];
      end := AppendUnit(buf, end, u, ret);
      Regroup(before, Encode(u), Text(us[k + 1..]));
      i := i + 2;
      k := k + 1;
    }
    assert Text(us[k..]) == [];
  }

  lemma Regroup(a: seq<byte>, b: seq<byte>, c: seq<byte>)
    ensures a + (b + c) == a + b + c
  {
  }

  method AppendEntry(buf: array<byte>, at: nat, e: Entry, ret: array<byte>) returns (end: nat)
    requires ret.Length == 5 && buf != ret && at + 39 < buf.Length && buf[at] == 0
    modifies buf, ret
    ensures end <= at + 39 && buf[end] == 0 && buf[..end] == old(buf[..at]) + EntryText(e)
  {
    ghost var start := buf[..at];
    ghost var a, b, c := Text(Units(First(e))), Text(Units(Second(e))), Text(Units(Third(e)));
    end := Utf8Append(buf, at, First(e), ret);
    end := Utf8Append(buf, end, Second(e), ret);
    end := Utf8Append(buf, end, Third(e), ret);
    Regroup(start, a, b);
    Regroup(start, a + b, c);
  }

  method LfnGetName(s: seq<Entry>, filename: array<byte>, ret: array<byte>) returns (end: nat)
    requires filename.Length == 512 && |s| <= 13 && ret.Length == 5 && filename != ret
    requires forall i :: 0 <= i < |s| ==> Dirents.Attr(s[i]) == Dirents.ATTR_LFN
    modifies filename, ret
    ensures end < filename.Length && filename[end] == 0
    ensures filename[..end] == NameText(s)
  {
    filename[0] := 0;
    end := 0;
    var i := |s| - 1;
    assert s[..|s|] == s;
    while i >= 0
      invariant -1 <= i < |s| && end <= 39 * (|s| - 1 - i)
      invariant filename[end] == 0
      invariant filename[..end] + NameText(s[..i + 1]) == NameText(s)
      decreases i
    {
      ghost var before := filename[..end];
      end := AppendEntry(filename, end, s[i], ret);
      assert s[..i + 1][..i] == s[..i] && s[..i + 1][i] == s[i];
      Regroup(before, EntryText(s[i]), NameText(s[..i]));
      i := i - 1;
    }
    assert NameText(s[..0]) == [];
    filename[end] := 0;
  }
}
