/** The UTF-8 coder: a table of leading bytes, and the two loops that read and write by it. */
module Utf8 {
  import opened Arithmetic
  import opened Bytes
  import opened Wrappers

  datatype Row = Row(mask: byte, lead: byte, beg: u32, end: u32, bits: nat)

  /**
   * Row 0 is the continuation byte; row n is the lead byte of an n-byte sequence. The last row is meant to end
   * the table, but the loops look for a null pointer, and the row is not one.
   */
  const TABLE: seq<Row> := [
    Row(0x3F, 0x80, 0, 0, 6),
    Row(0x7F, 0x00, 0, 0x7F, 7),
    Row(0x1F, 0xC0, 0x80, 0x7FF, 5),
    Row(0x0F, 0xE0, 0x800, 0xFFFF, 4),
    Row(0x07, 0xF0, 0x1_0000, 0x10_FFFF, 3),
    Row(0, 0, 0, 0, 0)
  ]

  /** Code points that the coder handles; 0 matches the continuation row. */
  predicate CodePoint(cp: int) {
    1 <= cp <= 0x10_FFFF
  }

  type codepoint = cp: int | 1 <= cp <= 0x10_FFFF witness 1

  /** The number of bytes that section 3 of RFC 3629 gives a code point. */
  function Length(cp: codepoint): (n: nat)
    ensures 1 <= n <= 4
  {
    if cp < 0x80 then 1 else if cp < 0x800 then 2 else if cp < 0x1_0000 then 3 else 4
  }

  /** The bytes that section 3 of RFC 3629 gives it. */
  function Encode(cp: codepoint): (s: seq<byte>)
    ensures |s| == Length(cp)
  {
    if cp < 0x80 then [cp]
    else if cp < 0x800 then [0xC0 + cp / 64, 0x80 + cp % 64]
    else if cp < 0x1_0000 then [0xE0 + cp / 4096, 0x80 + cp / 64 % 64, 0x80 + cp % 64]
    else [0xF0 + cp / 262144, 0x80 + cp / 4096 % 64, 0x80 + cp / 64 % 64, 0x80 + cp % 64]
  }

  /** What a scan of the table leads to: a value, or a read behind the end of the table. */
  datatype Scan<T> = Result(value: T) | OffTable

  /** The row that codepoint_len stops at. Above 0x10FFFF it stops at none; its -1 is never returned. */
  method CodepointLen(cp: u32) returns (r: Scan<int>)
    ensures CodePoint(cp) ==> r == Result(Length(cp))
    ensures cp == 0 ==> r == Result(0)
    ensures r.OffTable? <==> cp > 0x10_FFFF
  {
    var len := 0;
    while len < |TABLE|
      invariant 0 <= len <= |TABLE|
      invariant forall k :: 0 <= k < len ==> !(TABLE[k].beg <= cp <= TABLE[k].end)
    {
      if cp >= TABLE[len].beg && cp <= TABLE[len].end {
        break;
      }
      len := len + 1;
    }
    assert len < |TABLE| ==> TABLE[len].beg <= cp <= TABLE[len].end;
    assert len > 0 ==> !(TABLE[0].beg <= cp <= TABLE[0].end);
    assert len > 1 ==> !(TABLE[1].beg <= cp <= TABLE[1].end);
    assert len > 2 ==> !(TABLE[2].beg <= cp <= TABLE[2].end);
    assert len > 3 ==> !(TABLE[3].beg <= cp <= TABLE[3].end);
    assert len > 4 ==> !(TABLE[4].beg <= cp <= TABLE[4].end);
    if len == |TABLE| {
      return OffTable;
    }
    return Result(if len > 4 then -1 else len);
  }

  /** What a byte announces: a continuation (0), the length of a sequence, or nothing (-1). */
  function LeadLength(ch: byte): (len: int)
  {
    if ch < 0x80 then 1 else if ch < 0xC0 then 0 else if ch < 0xE0 then 2
    else if ch < 0xF0 then 3 else if ch < 0xF8 then 4 else -1
  }

  predicate Leads(ch: byte, row: Row) {
    var m: int := row.mask;
    ch - ch % (m + 1) == row.lead
  }

  /** The bytes that a row stands for. */
  predicate InRow(ch: byte, row: Row) {
    row.lead <= ch <= row.lead + row.mask
  }

  lemma RowIs(ch: byte, row: Row, d: int)
    requires d == row.mask + 1 && row.lead % d == 0
    ensures Leads(ch, row) <==> InRow(ch, row)
  {
    if InRow(ch, row) {
      Euclid(row.lead, d);
      DivMod(ch, d, row.lead / d, ch - row.lead);
    }
  }

  lemma RowOfTable(ch: byte, k: nat)
    requires k < |TABLE|
    ensures Leads(ch, TABLE[k]) <==> InRow(ch, TABLE[k])
  {
    RowIs(ch, TABLE[k], TABLE[k].mask + 1);
  }

  /** The row that utf8_len stops at. From 0xF8 upward it stops at none. */
  method Utf8Len(ch: byte) returns (r: Scan<int>)
    ensures r.OffTable? <==> ch >= 0xF8
    ensures r == if LeadLength(ch) >= 0 then Result(LeadLength(ch)) else OffTable
  {
    var len := 0;
    while len < |TABLE|
      invariant 0 <= len <= |TABLE|
      invariant forall k :: 0 <= k < len ==> !Leads(ch, TABLE[k])
    {
      if Leads(ch, TABLE[len]) {
        break;
      }
      len := len + 1;
    }
    forall k | 0 <= k < |TABLE|
      ensures Leads(ch, TABLE[k]) <==> InRow(ch, TABLE[k])
    {
      RowOfTable(ch, k);
    }
    assert len > 0 ==> !InRow(ch, TABLE[0]);
    assert len > 1 ==> !InRow(ch, TABLE[1]);
    assert len > 2 ==> !InRow(ch, TABLE[2]);
    assert len > 3 ==> !InRow(ch, TABLE[3]);
    assert len > 4 ==> !InRow(ch, TABLE[4]);
    if len == |TABLE| {
      return OffTable;
    }
    return Result(if len > 4 then -1 else len);
  }

  /** The first inputs on which the two scans leave the table. */
  method BehindTheTable() returns (a: Scan<int>, b: Scan<int>)
    ensures a == OffTable && b == OffTable
  {
    a := CodepointLen(0x11_0000);
    b := Utf8Len(0xF8);
  }

  lemma Places()
    ensures Pow2(0) == 1 && Pow2(6) == 64 && Pow2(12) == 4096 && Pow2(18) == 262144
  {
    Pow2Add(6, 6);
    Pow2Add(6, 12);
  }

  /** Writes the sequence and its terminator into the static buffer; a false result is the null pointer. */
  method ToUtf8(cp: u32, ret: array<byte>) returns (r: Scan<bool>)
    requires ret.Length == 5 && cp != 0
    modifies ret
    ensures r == if CodePoint(cp) then Result(true) else OffTable
    ensures CodePoint(cp) ==> ret[..Length(cp)] == Encode(cp) && ret[Length(cp)] == 0
    ensures !CodePoint(cp) ==> ret[..] == old(ret[..])
  {
    var row := CodepointLen(cp);
    if row.OffTable? {
      return OffTable;
    }
    var bytes := row.value;
    if bytes < 0 {
      return Result(false);
    }
    var shift := 6 * (bytes - 1);
    LeadByte(cp);
    ret[0] := Or(TABLE[bytes].lead, Shr(cp, shift) % (TABLE[bytes].mask + 1), TABLE[bytes].mask + 1);
    shift := shift - 6;
    for i := 1 to bytes
      invariant shift == 6 * (bytes - 1 - i)
      invariant forall k :: 0 <= k < i ==> ret[k] == Encode(cp)[k]
    {
      ContinuationByte(cp, i);
      ret[i] := Or(0x80, Shr(cp, shift) % 64, 64);
      shift := shift - 6;
    }
    ret[bytes] := 0;
    r := Result(true);
  }

  lemma LeadByte(cp: codepoint)
    ensures var n := Length(cp);
            TABLE[n].lead + Shr(cp, 6 * (n - 1)) % (TABLE[n].mask + 1) == Encode(cp)[0]
  {
    Places();
  }

  lemma ContinuationByte(cp: codepoint, i: nat)
    requires 1 <= i < Length(cp)
    ensures 0x80 + Shr(cp, 6 * (Length(cp) - 1 - i)) % 64 == Encode(cp)[i]
  {
    Places();
  }

  /** b & mask, for a mask of the bits below m. */
  function Low(b: byte, m: int): (r: int)
    requires m >= 1
    ensures 0 <= r < m
  {
    b % m
  }

  /** The number that a sequence of a given length spells. */
  function Spelled(s: seq<byte>): (cp: int)
    requires |s| > 0 && LeadLength(s[0]) == |s|
  {
    if |s| == 1 then s[0]
    else if |s| == 2 then Low(s[0], 32) * 64 + Low(s[1], 64)
    else if |s| == 3 then Low(s[0], 16) * 4096 + Low(s[1], 64) * 64 + Low(s[2], 64)
    else Low(s[0], 8) * 262144 + Low(s[1], 64) * 4096 + Low(s[2], 64) * 64 + Low(s[3], 64)
  }

  /** What the first i bytes of a sequence spell. */
  function Prefix(s: seq<byte>, i: nat): (cp: int)
    requires 1 <= i <= |s| && LeadLength(s[0]) == |s|
    ensures cp >= 0
  {
    if i == 1 then Low(s[0], TABLE[|s|].mask + 1) else Prefix(s, i - 1) * 64 + Low(s[i - 1], 64)
  }

  lemma WholePrefix(s: seq<byte>)
    requires |s| > 0 && LeadLength(s[0]) == |s|
    ensures Prefix(s, |s|) == Spelled(s) < 0x1_0000_0000
  {
    if |s| >= 2 {
      assert Prefix(s, 2) == Prefix(s, 1) * 64 + Low(s[1], 64);
    }
    if |s| >= 3 {
      assert Prefix(s, 3) == Prefix(s, 2) * 64 + Low(s[2], 64);
    }
    if |s| >= 4 {
      assert Prefix(s, 4) == Prefix(s, 3) * 64 + Low(s[3], 64);
    }
  }

  /** The next six bits fall below everything read so far. */
  lemma NextSix(p: int, six: int, shift: nat)
    requires p >= 0 && 0 <= six < 64
    ensures (p * Pow2(shift + 6)) % Pow2(shift + 6) == 0 && 0 <= six * Pow2(shift) < Pow2(shift + 6)
    ensures p * Pow2(shift + 6) + six * Pow2(shift) == (p * 64 + six) * Pow2(shift)
  {
    Places();
    Pow2Add(6, shift);
    DivMod(p * Pow2(shift + 6), Pow2(shift + 6), p, 0);
    MulMono(0, six, Pow2(shift));
    MulStrict(six, 64, Pow2(shift));
    Associate(p, 64, Pow2(shift));
  }

  /** Reads one sequence off the front of a string. */
  method ToCp(s: seq<byte>) returns (r: Scan<u32>)
    requires |s| > 0 && LeadLength(s[0]) != 0 && LeadLength(s[0]) <= |s|
    ensures r.OffTable? <==> s[0] >= 0xF8
    ensures LeadLength(s[0]) > 0 ==> r == Result(Spelled(s[..LeadLength(s[0])]))
  {
    var row := Utf8Len(s[0]);
    if row.OffTable? {
      return OffTable;
    }
    var bytes := row.value;
    if bytes < 0 {
      assert false; // the source returns 0 here, which no scan leads to
    }
    ghost var sequence := s[..bytes];
    var shift := 6 * (bytes - 1);
    var code := Low(s[0], TABLE[bytes].mask + 1) * Pow2(shift);
    for i := 1 to bytes
      invariant shift == 6 * (bytes - i)
      invariant code == Prefix(sequence, i) * Pow2(shift)
    {
      shift := shift - 6;
      NextSix(Prefix(sequence, i), Low(s[i], 64), shift);
      assert sequence[i] == s[i];
      code := Or(code, Low(s[i], 64) * Pow2(shift), Pow2(shift + 6));
    }
    WholePrefix(sequence);
    assert Pow2(0) == 1;
    r := Result(code);
  }

  // ---- Round trips ----

  /** Six bits at a time. */
  lemma Sextets(cp: nat)
    requires cp <= 0x10_FFFF
    ensures cp == cp / 64 * 64 + cp % 64
    ensures cp == cp / 4096 * 4096 + cp / 64 % 64 * 64 + cp % 64
    ensures cp == cp / 262144 * 262144 + cp / 4096 % 64 * 4096 + cp / 64 % 64 * 64 + cp % 64
  {
    assert cp / 64 / 64 == cp / 4096;
    assert cp / 4096 / 64 == cp / 262144;
  }

  lemma EncodedBytes(cp: codepoint)
    ensures LeadLength(Encode(cp)[0]) == Length(cp) && Encode(cp)[0] != 0
    ensures forall i :: 1 <= i < Length(cp) ==> 0x80 <= Encode(cp)[i] < 0xC0
  {
    Sextets(cp);
  }

  /** The bits of a byte below its lead. */
  lemma LowOf(lead: int, m: int, x: int)
    requires 1 <= m && 0 <= x < m && lead % m == 0 && 0 <= lead + x < 256
    ensures Low(lead + x, m) == x
  {
    Euclid(lead, m);
    DivMod(lead + x, m, lead / m, x);
  }

  lemma EncodedSpells(cp: codepoint)
    requires LeadLength(Encode(cp)[0]) == Length(cp)
    ensures Spelled(Encode(cp)) == cp
  {
    Sextets(cp);
    LowOf(128, 64, cp % 64);
    LowOf(128, 64, cp / 64 % 64);
    LowOf(128, 64, cp / 4096 % 64);
    if cp >= 0x1_0000 {
      LowOf(0xF0, 8, cp / 262144);
    } else if cp >= 0x800 {
      LowOf(0xE0, 16, cp / 4096);
    } else if cp >= 0x80 {
      LowOf(0xC0, 32, cp / 64);
    }
  }

  /** The lead byte fixes the length, no byte of a sequence is 0, and the sequence spells its code point. */
  lemma EncodeIsReadBack(cp: codepoint)
    ensures LeadLength(Encode(cp)[0]) == Length(cp) && Spelled(Encode(cp)) == cp
    ensures forall i :: 0 <= i < Length(cp) ==> Encode(cp)[i] != 0
    ensures forall i :: 1 <= i < Length(cp) ==> LeadLength(Encode(cp)[i]) == 0
  {
    EncodedBytes(cp);
    EncodedSpells(cp);
  }

  /** No shorter sequence spells the code point: the form is the shortest. */
  lemma EncodeIsShortest(cp: codepoint, s: seq<byte>)
    requires |s| > 0 && LeadLength(s[0]) == |s| && Spelled(s) == cp
    ensures Length(cp) <= |s|
  {
  }

  /** s comes before t in the order of their bytes. */
  ghost predicate Before(s: seq<byte>, t: seq<byte>)
  {
    exists k :: 0 <= k < |s| && k < |t| && s[..k] == t[..k] && s[k] < t[k]
  }

  lemma DiffersAt(s: seq<byte>, t: seq<byte>, k: nat)
    requires k < |s| && k < |t| && s[k] < t[k] && forall i :: 0 <= i < k ==> s[i] == t[i]
    ensures Before(s, t)
  {
    assert s[..k] == t[..k];
  }

  /** When the first bytes do not tell, the later ones do, the highest sextet first. */
  lemma SameLead(a: codepoint, b: codepoint)
    requires a < b && Encode(a)[0] >= Encode(b)[0]
    ensures Length(a) == Length(b) >= 2 && Encode(a)[0] == Encode(b)[0]
    ensures Length(a) == 2 ==> Encode(a)[1] < Encode(b)[1]
    ensures Length(a) == 3 ==>
              Encode(a)[1] < Encode(b)[1] || (Encode(a)[1] == Encode(b)[1] && Encode(a)[2] < Encode(b)[2])
    ensures Length(a) == 4 ==>
              || Encode(a)[1] < Encode(b)[1]
              || (Encode(a)[1] == Encode(b)[1] && Encode(a)[2] < Encode(b)[2])
              || (Encode(a)[1] == Encode(b)[1] && Encode(a)[2] == Encode(b)[2] && Encode(a)[3] < Encode(b)[3])
  {
    Sextets(a);
    Sextets(b);
  }

  /** The order of code points is the order of their encodings' bytes, as section 1 of RFC 3629 says. */
  lemma EncodeKeepsOrder(a: codepoint, b: codepoint)
    requires a < b
    ensures Before(Encode(a), Encode(b))
  {
    var s, t := Encode(a), Encode(b);
    Sextets(a);
    Sextets(b);
    if s[0] < t[0] {
      DiffersAt(s, t, 0);
    } else {
      SameLead(a, b);
      if s[1] < t[1] {
        DiffersAt(s, t, 1);
      } else if s[2] < t[2] {
        DiffersAt(s, t, 2);
      } else {
        DiffersAt(s, t, 3);
      }
    }
  }

  /** The examples of section 7 of RFC 3629. */
  lemma EncodeExamples()
    ensures Encode(0x41) == [0x41] && Encode(0x391) == [0xCE, 0x91] && Encode(0x2262) == [0xE2, 0x89, 0xA2]
    ensures Encode(0x2E) == [0x2E] && Encode(0xD55C) == [0xED, 0x95, 0x9C] && Encode(0xAD6D) == [0xEA, 0xB5, 0xAD]
    ensures Encode(0xC5B4) == [0xEC, 0x96, 0xB4] && Encode(0x2_33B4) == [0xF0, 0xA3, 0x8E, 0xB4]
  {
  }

  function EncodeAll(cps: seq<codepoint>): (s: seq<byte>)
  {
    if cps == [] then [] else Encode(cps[0]) + EncodeAll(cps[1..])
  }

  /** utf8_len and to_cp over and over, as long as whole sequences are left. */
  function DecodeAll(s: seq<byte>): (r: Option<seq<int>>)
    decreases |s|
  {
    if s == [] then Some([])
    else
      var n := LeadLength(s[0]);
      if n <= 0 || n > |s| then None
      else
        match DecodeAll(s[n..])
        case None => None
        case Some(rest) => Some([Spelled(s[..n])] + rest)
  }

  /** Streams undo, whatever the code points. */
  lemma {:induction false} StreamRoundTrip(cps: seq<codepoint>)
    ensures DecodeAll(EncodeAll(cps)) == Some(cps)
    decreases |cps|
  {
    if cps != [] {
      var first, rest := Encode(cps[0]), EncodeAll(cps[1..]);
      EncodeIsReadBack(cps[0]);
      StreamRoundTrip(cps[1..]);
      var s := first + rest;
      assert s[..|first|] == first && s[|first|..] == rest && s[0] == first[0];
      assert [cps[0]] + cps[1..] == cps;
    }
  }

  lemma EncodeAllAppend(a: seq<codepoint>, b: seq<codepoint>)
    ensures EncodeAll(a + b) == EncodeAll(a) + EncodeAll(b)
    decreases |a|
  {
    if a == [] {
      assert a + b == b;
    } else {
      assert (a + b)[1..] == a[1..] + b;
      EncodeAllAppend(a[1..], b);
    }
  }

  lemma EncodeAllSplit(s: seq<codepoint>, at: nat)
    requires at <= |s|
    ensures EncodeAll(s) == EncodeAll(s[..at]) + EncodeAll(s[at..])
  {
    assert s[..at] + s[at..] == s;
    EncodeAllAppend(s[..at], s[at..]);
  }
}
