/** The 32-byte directory entries and the searches over a directory's buffer. */
module Dirents {
  import opened Bytes
  import opened Names

  const ENTRY: nat := 32
  const DELETED: byte := 0xE5
  const ATTR_LFN: byte := 0x0F
  const ATTR_DIR: byte := 0x10
  const ATTR_ARCHIVE: byte := 0x20

  type Entry = e: seq<byte> | |e| == ENTRY witness seq(ENTRY, _ => 0)

  function Raw(e: Entry): RawName { e[..11] }

  function Attr(e: Entry): byte { e[11] }

  /** fat32_cluster_id */
  function Start(e: Entry): (c: u32)
  {
    Little([e[26], e[27], e[20], e[21]])
  }

  function Size(e: Entry): u32 { Little(e[28..32]) }

  /** Where the fields of an entry lie on the card. */
  lemma EntryLayout(e: Entry)
    ensures Raw(e) == e[0..11] && Attr(e) == e[11]
    ensures Start(e) == WordOf(e[26], e[27], e[20], e[21])
    ensures Size(e) == WordOf(e[28], e[29], e[30], e[31])
  {
    LittleWord([e[26], e[27], e[20], e[21]]);
    LittleWord(e[28..32]);
  }

  function WithBytes(e: Entry, at: nat, b: seq<byte>): (r: Entry)
    requires at + |b| <= ENTRY
  {
    e[..at] + b + e[at + |b|..]
  }

  function WithSize(e: Entry, n: u32): Entry { WithBytes(e, 28, ToLe32(n)) }

  function WithStart(e: Entry, c: u32): Entry
  {
    WithBytes(WithBytes(e, 20, ToLe16(c / 0x1_0000)), 26, ToLe16(c % 0x1_0000))
  }

  function WithName(e: Entry, name: CString): Entry
    requires IsValid(name)
  {
    WithBytes(e, 0, Pack(name))
  }

  function Deleted(e: Entry): Entry { e[0 := DELETED] }

  function WithAttr(e: Entry, attr: byte): Entry { e[11 := attr] }

  /** The entry that fat32_create leaves in a free slot. */
  function Fresh(e: Entry, name: CString, isDir: bool): Entry
    requires IsValid(name)
  {
    WithStart(WithSize(WithAttr(WithName(e, name), if isDir then ATTR_DIR else ATTR_ARCHIVE), 0), 0)
  }

  /** (x & 0xE5) == 0xE5: bits 7, 6, 5, 2 and 0 are set. */
  predicate LfnDeleted(x: byte) {
    x / 32 == 7 && x / 4 % 2 == 1 && x % 2 == 1
  }

  predicate IsFree(e: Entry) {
    if Attr(e) == ATTR_LFN then LfnDeleted(e[0]) else e[0] == 0 || e[0] == DELETED
  }

  /** Entries that directory searches look at: not free, no long-name part, no volume label. */
  predicate Live(e: Entry) {
    !IsFree(e) && Attr(e) != ATTR_LFN && Attr(e) / 8 % 2 == 0
  }

  /** What an entry's first byte and attribute say; a long-name entry is free when its first byte says deleted. */
  lemma LiveIff(e: Entry)
    ensures Live(e) <==> e[0] != 0x00 && e[0] != 0xE5 && e[11] != 0x0F && e[11] / 8 % 2 == 0
    ensures e[11] != 0x0F ==> (IsFree(e) <==> e[0] == 0x00 || e[0] == 0xE5)
    ensures e[0] == 0xE5 ==> IsFree(e)
  {
  }

  /** Setting one field keeps the others. */
  lemma FieldsOfSize(e: Entry, n: u32)
    ensures Size(WithSize(e, n)) == n && Start(WithSize(e, n)) == Start(e)
    ensures forall k :: 0 <= k < 20 ==> WithSize(e, n)[k] == e[k]
    ensures Raw(WithSize(e, n)) == Raw(e) && Live(WithSize(e, n)) == Live(e)
  {
    assert WithSize(e, n)[28..32] == ToLe32(n);
  }

  lemma FieldsOfStart(e: Entry, c: u32)
    ensures Start(WithStart(e, c)) == c && Size(WithStart(e, c)) == Size(e)
    ensures forall k :: 0 <= k < 20 ==> WithStart(e, c)[k] == e[k]
    ensures Raw(WithStart(e, c)) == Raw(e) && Live(WithStart(e, c)) == Live(e)
  {
    var t := WithStart(e, c);
    assert t[28..32] == e[28..32];
    var h, l := ToLe16(c / 0x1_0000), ToLe16(c % 0x1_0000);
    assert t[20] == h[0] && t[21] == h[1] && t[26] == l[0] && t[27] == l[1];
    assert [t[26], t[27], t[20], t[21]] == l + h;
    JoinedHalves(l, h);
  }

  lemma FieldsOfName(e: Entry, name: CString)
    requires IsValid(name)
    ensures var r := WithName(e, name);
            && Raw(r) == Pack(name) && r[11..] == e[11..]
            && Start(r) == Start(e) && Size(r) == Size(e)
            && r[0] != 0 && r[0] != DELETED
            && (Live(e) ==> Live(r))
  {
    var r := WithName(e, name);
    assert r[11..] == e[11..];
    assert forall k :: 11 <= k < 32 ==> r[k] == r[11..][k - 11] == e[k];
    assert r[28..32] == r[11..][17..] == e[28..32];
    assert r[0] == name[0] && UpperOrDigit(name[0]) by {
      FirstOfPack(name);
    }
  }

  lemma FirstOfPack(name: CString)
    requires IsValid(name)
    ensures Pack(name)[0] == name[0] && UpperOrDigit(name[0])
  {
    DottedHasDotOnce(name);
    if IsDotted(name) {
      assert name[0] == name[..|name| - 4][0];
    }
  }

  lemma SettingAttr(e: Entry, attr: byte)
    requires attr == ATTR_DIR || attr == ATTR_ARCHIVE
    ensures Raw(WithAttr(e, attr)) == Raw(e)
    ensures Live(WithAttr(e, attr)) <==> e[0] != 0 && e[0] != DELETED
  {
  }

  lemma FieldsOfNamed(e: Entry, name: CString, attr: byte)
    requires IsValid(name) && (attr == ATTR_DIR || attr == ATTR_ARCHIVE)
    ensures var r := WithAttr(WithName(e, name), attr);
            Live(r) && Raw(r) == Pack(name)
  {
    FirstOfPack(name);
    FieldsOfName(e, name);
    SettingAttr(WithName(e, name), attr);
  }

  lemma FieldsOfFresh(e: Entry, name: CString, isDir: bool)
    requires IsValid(name)
    ensures var r := Fresh(e, name, isDir);
            Live(r) && Raw(r) == Pack(name) && Start(r) == 0 && Size(r) == 0
  {
    var attr := if isDir then ATTR_DIR else ATTR_ARCHIVE;
    FieldsOfNamed(e, name, attr);
    var named := WithAttr(WithName(e, name), attr);
    FieldsOfSize(named, 0);
    FieldsOfStart(WithSize(named, 0), 0);
  }

  lemma DeletedIsNotLive(e: Entry)
    ensures !Live(Deleted(e))
  {
  }

  /** A directory buffer is an array of entries. */
  function EntryAt(buf: seq<byte>, i: nat): Entry
    requires ENTRY * (i + 1) <= |buf|
  {
    buf[ENTRY * i..ENTRY * (i + 1)]
  }

  function Entries(buf: seq<byte>): (dir: seq<Entry>)
    ensures |dir| == |buf| / ENTRY
  {
    seq(|buf| / ENTRY, i requires 0 <= i < |buf| / ENTRY => EntryAt(buf, i))
  }

  function PutEntry(buf: seq<byte>, i: nat, e: Entry): (r: seq<byte>)
    requires ENTRY * (i + 1) <= |buf|
    ensures |r| == |buf|
  {
    buf[..ENTRY * i] + e + buf[ENTRY * (i + 1)..]
  }

  lemma EntriesOfPut(buf: seq<byte>, i: nat, e: Entry)
    requires i < |buf| / ENTRY
    ensures Entries(PutEntry(buf, i, e)) == Entries(buf)[i := e]
  {
    var r := PutEntry(buf, i, e);
    forall k | 0 <= k < |buf| / ENTRY
      ensures Entries(r)[k] == Entries(buf)[i := e][k]
    {
      assert EntryAt(r, k) == if k == i then e else EntryAt(buf, k);
    }
  }

  /** Storing bytes inside entry i changes that entry's bytes. */
  lemma StoreInEntry(buf: seq<byte>, i: nat, at: nat, b: seq<byte>)
    requires ENTRY * (i + 1) <= |buf| && at + |b| <= ENTRY
    ensures buf[..ENTRY * i + at] + b + buf[ENTRY * i + at + |b|..]
            == PutEntry(buf, i, WithBytes(EntryAt(buf, i), at, b))
  {
  }

  lemma PutTwice(buf: seq<byte>, i: nat, d: Entry, e: Entry)
    requires ENTRY * (i + 1) <= |buf|
    ensures EntryAt(PutEntry(buf, i, d), i) == d
    ensures PutEntry(PutEntry(buf, i, d), i, e) == PutEntry(buf, i, e)
  {
  }

  predicate Matches(e: Entry, name: CString) {
    Live(e) && Unpack(Raw(e)) == name
  }

  /** Index of the first live entry called name, or |dir|. */
  function Find(dir: seq<Entry>, name: CString): (i: nat)
    ensures i <= |dir|
    ensures i < |dir| ==> Matches(dir[i], name)
    ensures forall k :: 0 <= k < i ==> !Matches(dir[k], name)
  {
    if dir == [] || Matches(dir[0], name) then 0 else 1 + Find(dir[1..], name)
  }

  lemma FindIs(dir: seq<Entry>, name: CString, i: nat)
    requires i <= |dir|
    requires i < |dir| ==> Matches(dir[i], name)
    requires forall k :: 0 <= k < i ==> !Matches(dir[k], name)
    ensures Find(dir, name) == i
  {
    var j := Find(dir, name);
    assert !(i < j) && !(j < i);
  }

  /** Index of the first free slot, or |dir|. */
  function FreeSlot(dir: seq<Entry>): (i: nat)
    ensures i <= |dir|
    ensures i < |dir| ==> IsFree(dir[i])
    ensures forall k :: 0 <= k < i ==> !IsFree(dir[k])
  {
    if dir == [] || IsFree(dir[0]) then 0 else 1 + FreeSlot(dir[1..])
  }

  lemma FreeSlotIs(dir: seq<Entry>, i: nat)
    requires i <= |dir|
    requires i < |dir| ==> IsFree(dir[i])
    requires forall k :: 0 <= k < i ==> !IsFree(dir[k])
    ensures FreeSlot(dir) == i
  {
    var j := FreeSlot(dir);
    assert !(i < j) && !(j < i);
  }

  /** Names are well formed and no two live entries share one. */
  ghost predicate NamesOk(dir: seq<Entry>) {
    && (forall i :: 0 <= i < |dir| && Live(dir[i]) ==> IsPlainRaw(Raw(dir[i])))
    && forall i, j :: 0 <= i < j < |dir| && Live(dir[i]) && Live(dir[j]) ==> Raw(dir[i]) != Raw(dir[j])
  }

  /** No live entry other than the one at i holds these raw bytes. */
  ghost predicate Unused(dir: seq<Entry>, i: nat, raw: RawName) {
    forall j :: 0 <= j < |dir| && j != i && Live(dir[j]) ==> Raw(dir[j]) != raw
  }

  /**
   * Lookup is exact: the search finds an entry exactly when the name packs to the
   * raw bytes of a live entry, and then it finds that entry.
   */
  lemma FindExact(dir: seq<Entry>, name: CString)
    requires NamesOk(dir) && IsDotted(name)
    ensures Find(dir, name) < |dir| <==> exists i :: 0 <= i < |dir| && Live(dir[i]) && Raw(dir[i]) == Pack(name)
    ensures forall i :: 0 <= i < |dir| && Live(dir[i]) && Raw(dir[i]) == Pack(name) ==> i == Find(dir, name)
  {
    DottedRoundTrip(name);
    PackIsPlain(name);
    forall i | 0 <= i < |dir| && Live(dir[i])
      ensures Matches(dir[i], name) <==> Raw(dir[i]) == Pack(name)
    {
      if Unpack(Raw(dir[i])) == name {
        UnpackInjective(Raw(dir[i]), Pack(name));
      }
    }
    var f := Find(dir, name);
    if f < |dir| {
      assert Raw(dir[f]) == Pack(name);
    }
  }

  /** Giving slot i a live entry with a valid name keeps names unique exactly when that name is unused. */
  lemma NamesOkIffUnused(dir: seq<Entry>, i: nat, e: Entry, name: CString)
    requires NamesOk(dir) && i < |dir|
    requires IsValid(name) && Live(e) && Raw(e) == Pack(name)
    ensures NamesOk(dir[i := e]) <==> Unused(dir, i, Pack(name))
  {
    PackIsPlain(name);
    var d := dir[i := e];
    if NamesOk(d) {
      forall j | 0 <= j < |dir| && j != i && Live(dir[j])
        ensures Raw(dir[j]) != Pack(name)
      {
        assert d[j] == dir[j] && d[i] == e;
        if j < i {
          assert Raw(d[j]) != Raw(d[i]);
        } else {
          assert Raw(d[i]) != Raw(d[j]);
        }
      }
    }
    if Unused(dir, i, Pack(name)) {
      forall a, b | 0 <= a < b < |d| && Live(d[a]) && Live(d[b])
        ensures Raw(d[a]) != Raw(d[b])
      {
        if a == i {
          assert d[b] == dir[b];
        } else if b == i {
          assert d[a] == dir[a];
        }
      }
    }
  }

  /** Replacing a live entry by one with the same name, or by a dead one, keeps names well formed. */
  lemma NamesOkKept(dir: seq<Entry>, i: nat, e: Entry)
    requires NamesOk(dir) && i < |dir|
    requires Live(e) ==> Live(dir[i]) && Raw(e) == Raw(dir[i])
    ensures NamesOk(dir[i := e])
  {
  }

  /**
   * A dotted name that the search does not find is unused, so creating it keeps
   * names unique; for a dotless one the search says nothing.
   */
  lemma NotFoundIsUnused(dir: seq<Entry>, i: nat, name: CString)
    requires NamesOk(dir) && IsDotted(name) && Find(dir, name) == |dir|
    ensures Unused(dir, i, Pack(name))
  {
    FindExact(dir, name);
  }

  /** The failing family: a dotless name is never found, however often it is already there. */
  lemma DotlessNeverFound(dir: seq<Entry>, name: CString)
    requires NamesOk(dir) && IsValid(name) && DOT !in name
    ensures Find(dir, name) == |dir|
  {
    FoundAgainIffDotted(name);
  }
}
