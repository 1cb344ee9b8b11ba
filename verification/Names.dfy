/** 8.3 names: validation, packing into the 11 raw bytes of an entry, and unpacking. */
module Names {
  import opened Bytes

  predicate UpperOrDigit(c: byte) {
    65 <= c <= 90 || 48 <= c <= 57
  }

  predicate AllUpperOrDigit(s: seq<byte>) {
    forall i :: 0 <= i < |s| ==> UpperOrDigit(s[i])
  }

  /** BASE.EXT: one to eight characters, a dot, exactly three characters. */
  predicate IsDotted(name: seq<byte>) {
    && 5 <= |name| <= 12
    && name[|name| - 4] == DOT
    && AllUpperOrDigit(name[..|name| - 4])
    && AllUpperOrDigit(name[|name| - 3..])
  }

  /** BASE alone: one to eight characters and no dot. */
  predicate IsDotless(name: seq<byte>) {
    1 <= |name| <= 8 && AllUpperOrDigit(name)
  }

  predicate IsValid(name: seq<byte>) {
    IsDotted(name) || IsDotless(name)
  }

  type RawName = s: seq<byte> | |s| == 11 witness seq(11, _ => SPACE)

  function Blanks(n: nat): (s: seq<byte>)
    ensures |s| == n && forall i :: 0 <= i < n ==> s[i] == SPACE
  {
    seq(n, _ => SPACE)
  }

  /** The raw bytes that a valid name is stored as. */
  function Pack(name: seq<byte>): (raw: RawName)
    requires IsValid(name)
  {
    if DOT in name then
      DottedHasDotOnce(name);
      name[..|name| - 4] + Blanks(12 - |name|) + name[|name| - 3..]
    else
      name + Blanks(11 - |name|)
  }

  lemma DottedHasDotOnce(name: seq<byte>)
    requires IsValid(name)
    ensures DOT in name <==> IsDotted(name)
  {
    if IsDotless(name) {
      assert DOT !in name;
    }
  }

  /** Base and extension stand at fixed places, filled up with blanks. */
  lemma PackBytes(name: seq<byte>, i: nat)
    requires IsValid(name) && i < 11
    ensures var base := if IsDotted(name) then |name| - 4 else |name|;
            && (i < base ==> i < 8 && Pack(name)[i] == name[i])
            && (base <= i < 8 ==> Pack(name)[i] == 0x20)
            && (8 <= i ==> Pack(name)[i] == if IsDotted(name) then name[|name| - 3 + (i - 8)] else 0x20)
  {
    DottedHasDotOnce(name);
  }

  /** Length of s without its trailing blanks. */
  function TrimmedLength(s: seq<byte>): (n: nat)
    ensures n <= |s|
    ensures n > 0 ==> s[n - 1] != SPACE
    ensures forall i :: n <= i < |s| ==> s[i] == SPACE
  {
    if s == [] || s[|s| - 1] != SPACE then |s| else TrimmedLength(s[..|s| - 1])
  }

  lemma TrimmedLengthIs(s: seq<byte>, n: nat)
    requires n <= |s|
    requires n > 0 ==> s[n - 1] != SPACE
    requires forall i :: n <= i < |s| ==> s[i] == SPACE
    ensures TrimmedLength(s) == n
  {
  }

  /**
   * The name that directory searches compare against. With an all-blank base the
   * source stores the dot one byte before its buffer, and the buffer then holds
   * the extension only.
   */
  function Unpack(raw: RawName): (name: CString)
  {
    var n := TrimmedLength(raw[..8]);
    UpToNul(if n == 0 then raw[8..] else raw[..n] + [DOT] + raw[8..])
  }

  /** Raw bytes that a well-formed short entry may hold. */
  predicate IsPlainRaw(raw: RawName) {
    && TrimmedLength(raw[..8]) > 0
    && forall i :: 0 <= i < 11 ==> raw[i] != 0
  }

  lemma PlainUnpack(raw: RawName)
    requires IsPlainRaw(raw)
    ensures var n := TrimmedLength(raw[..8]);
            Unpack(raw) == raw[..n] + [DOT] + raw[8..]
  {
    var n := TrimmedLength(raw[..8]);
    UpToNulWhole(raw[..n] + [DOT] + raw[8..]);
  }

  lemma PackIsPlain(name: seq<byte>)
    requires IsValid(name)
    ensures IsPlainRaw(Pack(name))
  {
    DottedHasDotOnce(name);
    var raw := Pack(name);
    var n := if IsDotted(name) then |name| - 4 else |name|;
    assert forall i :: 0 <= i < n ==> raw[i] == name[i] && UpperOrDigit(name[..n][i]);
    assert forall i :: n <= i < 8 ==> raw[i] == SPACE;
    TrimmedLengthIs(raw[..8], n);
    if IsDotted(name) {
      assert raw[8..] == name[|name| - 3..];
    }
  }

  /** A dotted name survives the trip into the entry and back out. */
  lemma DottedRoundTrip(name: seq<byte>)
    requires IsDotted(name)
    ensures Unpack(Pack(name)) == name
  {
    PackIsPlain(name);
    DottedHasDotOnce(name);
    var raw := Pack(name);
    var n := |name| - 4;
    assert forall i :: 0 <= i < n ==> raw[i] == name[i] && UpperOrDigit(name[..n][i]);
    TrimmedLengthIs(raw[..8], n);
    PlainUnpack(raw);
    assert raw[..n] == name[..n];
    assert raw[8..] == name[n + 1..];
    assert name == name[..n] + [name[n]] + name[n + 1..];
  }

  /**
   * Which valid names can be looked up again: exactly the dotted ones. A name
   * without an extension is unpacked with a dot, so it matches no well-formed entry.
   */
  lemma FoundAgainIffDotted(name: seq<byte>)
    requires IsValid(name)
    ensures Unpack(Pack(name)) == name <==> DOT in name
    ensures DOT !in name ==> forall raw: RawName | IsPlainRaw(raw) :: Unpack(raw) != name
  {
    DottedHasDotOnce(name);
    PackIsPlain(name);
    if DOT in name {
      DottedRoundTrip(name);
    } else {
      forall raw: RawName | IsPlainRaw(raw)
        ensures Unpack(raw) != name
      {
        PlainUnpack(raw);
        assert Unpack(raw)[TrimmedLength(raw[..8])] == DOT;
      }
    }
  }

  /** Two well-formed entries that unpack to the same name hold the same raw bytes. */
  lemma UnpackInjective(a: RawName, b: RawName)
    requires IsPlainRaw(a) && IsPlainRaw(b)
    requires Unpack(a) == Unpack(b)
    ensures a == b
  {
    PlainUnpack(a);
    PlainUnpack(b);
    var n, m := TrimmedLength(a[..8]), TrimmedLength(b[..8]);
    var u := Unpack(a);
    assert |u| == n + 4 == m + 4;
    assert forall i :: 0 <= i < n ==> a[i] == u[i] == b[i];
    assert forall i :: n <= i < 8 ==> a[..8][i] == SPACE == b[..8][i];
    assert forall i :: 8 <= i < 11 ==> a[i] == u[n + 1 + (i - 8)] == b[i];
  }

  method IsValidName(name: CString) returns (ok: bool)
    ensures ok == IsValid(name)
  {
    var n := |name|;
    var hasDot := false;
    for i := 0 to n
      invariant hasDot == (DOT in name[..i])
    {
      if name[i] == DOT {
        hasDot := true;
      }
    }
    assert name[..n] == name;
    if hasDot {
      assert !IsDotless(name);
      if n > 12 || n < 5 || name[n - 4] != DOT {
        return false;
      }
      for i := 0 to n
        invariant forall k :: 0 <= k < i && k != n - 4 ==> UpperOrDigit(name[k])
      {
        if (name[i] < 65 || name[i] > 90) && (name[i] < 48 || name[i] > 57) {
          if i != n - 4 {
            if i < n - 4 {
              assert !UpperOrDigit(name[..n - 4][i]);
            } else {
              assert !UpperOrDigit(name[n - 3..][i - (n - 3)]);
            }
            return false;
          }
        }
      }
    } else {
      assert !IsDotted(name);
      if n > 8 || n < 1 {
        return false;
      }
      for i := 0 to n
        invariant forall k :: 0 <= k < i ==> UpperOrDigit(name[k])
      {
        if (name[i] < 65 || name[i] > 90) && (name[i] < 48 || name[i] > 57) {
          return false;
        }
      }
    }
    return true;
  }

  /** fat32_dirent_set_name: overwrites the 11 name bytes of the entry at `at`. */
  method SetName(d: array<byte>, at: nat, name: CString)
    requires at + 11 <= d.Length
    requires IsValid(name)
    modifies d
    ensures d[..] == old(d[..at]) + Pack(name) + old(d[at + 11..])
  {
    ghost var was := d[..];
    var n := |name|;
    var hasDot := false;
    for i := 0 to n
      invariant hasDot == (DOT in name[..i])
    {
      if name[i] == DOT {
        hasDot := true;
      }
    }
    assert name[..n] == name;
    DottedHasDotOnce(name);
    CopyInto(d, at, Blanks(11));
    if hasDot {
      CopyInto(d, at, name[..n - 4]);
      CopyInto(d, at + 8, name[n - 3..]);
      PastedDotted(was, at, name);
    } else {
      CopyInto(d, at, name);
      PastedDotless(was, at, name);
    }
  }

  lemma PastedDotted(d: seq<byte>, at: nat, name: seq<byte>)
    requires at + 11 <= |d| && IsDotted(name)
    ensures var base, ext := name[..|name| - 4], name[|name| - 3..];
            Pasted(Pasted(Pasted(d, at, Blanks(11)), at, base), at + 8, ext) == Pasted(d, at, Pack(name))
  {
    var base, ext := name[..|name| - 4], name[|name| - 3..];
    PastedTwice(d, at, Blanks(11), 0, base);
    assert Blanks(11)[..0] + base + Blanks(11)[|base|..] == base + Blanks(11 - |base|);
    PastedTwice(d, at, base + Blanks(11 - |base|), 8, ext);
    assert (base + Blanks(11 - |base|))[..8] == base + Blanks(8 - |base|);
    DottedHasDotOnce(name);
  }

  lemma PastedDotless(d: seq<byte>, at: nat, name: seq<byte>)
    requires at + 11 <= |d| && IsDotless(name)
    ensures Pasted(Pasted(d, at, Blanks(11)), at, name) == Pasted(d, at, Pack(name))
  {
    PastedTwice(d, at, Blanks(11), 0, name);
    assert Blanks(11)[..0] + name + Blanks(11)[|name|..] == name + Blanks(11 - |name|);
  }

  ghost function Pasted(d: seq<byte>, at: nat, s: seq<byte>): seq<byte>
    requires at + |s| <= |d|
  {
    d[..at] + s + d[at + |s|..]
  }

  lemma PastedTwice(d: seq<byte>, at: nat, s: seq<byte>, k: nat, t: seq<byte>)
    requires at + |s| <= |d| && k + |t| <= |s|
    ensures Pasted(Pasted(d, at, s), at + k, t) == Pasted(d, at, s[..k] + t + s[k + |t|..])
  {
  }

  /** memcpy and memset: overwrites the bytes from `at` on. */
  method CopyInto(d: array<byte>, at: nat, s: seq<byte>)
    requires at + |s| <= d.Length
    modifies d
    ensures d[..] == Pasted(old(d[..]), at, s)
  {
    forall k | 0 <= k < |s| {
      d[at + k] := s[k];
    }
    assert d[at..at + |s|] == s;
    assert d[..] == d[..at] + d[at..at + |s|] + d[at + |s|..];
  }

  /** to_8dot3: copies the base, cuts its trailing blanks, appends dot and extension. */
  method ToDotName(p: RawName) returns (name: CString)
    ensures name == Unpack(p)
  {
    var s := new byte[14](_ => 0);
    forall k | 0 <= k < 8 {
      s[k] := p[k];
    }
    var i := 7;
    while i >= 0 && s[i] == SPACE
      invariant -1 <= i <= 7
      invariant forall k :: i < k < 8 ==> p[k] == SPACE
      invariant forall k :: 0 <= k < 8 ==> s[k] == p[k]
    {
      i := i - 1;
    }
    if i >= 0 {
      i := i + 1;
      s[i] := DOT;
      TrimmedLengthIs(p[..8], i);
    } else {
      TrimmedLengthIs(p[..8], 0);
    }
    i := i + 1;
    ghost var front := s[..i];
    ghost var n := TrimmedLength(p[..8]);
    assert front + p[8..] == if n == 0 then p[8..] else p[..n] + [DOT] + p[8..];
    AppendExtension(s, i, p);
    name := ReadCString(s);
  }

  method AppendExtension(s: array<byte>, at: nat, p: RawName)
    requires at + 4 <= s.Length
    modifies s
    ensures 0 in s[..]
    ensures UpToNul(s[..]) == UpToNul(old(s[..at]) + p[8..])
  {
    var i := at;
    for j := 0 to 3
      invariant i == at + j
      invariant s[..i] == old(s[..at]) + p[8..8 + j]
    {
      s[i] := p[8 + j];
      i := i + 1;
      assert s[..i] == s[..i - 1] + [p[8 + j]];
    }
    s[i] := 0;
    assert s[..][i] == 0;
    UpToNulCut(s[..], i);
    assert s[..][..i] == old(s[..at]) + p[8..];
  }

  /** What strcpy copies out of a buffer. */
  method ReadCString(s: array<byte>) returns (name: CString)
    requires 0 in s[..]
    ensures name == UpToNul(s[..])
  {
    var n := 0;
    while s[n] != 0
      invariant n <= s.Length && 0 in s[n..]
      invariant forall k :: 0 <= k < n ==> s[k] != 0
      decreases s.Length - n
    {
      n := n + 1;
    }
    UpToNulIs(s[..], n);
    name := s[..n];
  }

  lemma UpToNulCut(s: seq<byte>, n: nat)
    requires n < |s| && s[n] == 0
    ensures UpToNul(s) == UpToNul(s[..n])
  {
    var r := UpToNul(s[..n]);
    UpToNulIs(s, |r|);
  }

  lemma UpToNulIs(s: seq<byte>, n: nat)
    requires n <= |s|
    requires forall k :: 0 <= k < n ==> s[k] != 0
    requires n < |s| ==> s[n] == 0
    ensures UpToNul(s) == s[..n]
  {
    if n > 0 {
      UpToNulIs(s[1..], n - 1);
    }
  }
}
