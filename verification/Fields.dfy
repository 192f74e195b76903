/** Fixed-width identifier fields, sums over maps, and word fields: what the codecs and the
    stores share. */
module Fields {
  import opened Bytes
  import opened BigEndian
  import opened Utf8
  import Positional

  function Flag(b: bool): byte { if b then 1 else 0 }

  // ---------- identifiers in a NUL-padded field ----------

  function Cut(id: seq<byte>, width: nat): seq<byte> {
    if |id| <= width then id else id[..width]
  }

  function Zeros(n: nat): (z: seq<byte>)
    ensures |z| == n
  {
    seq(n, _ => 0)
  }

  /** An identifier copied into a zeroed buffer. */
  function Pad(id: seq<byte>, width: nat): (f: seq<byte>)
    ensures |f| == width
  {
    Cut(id, width) + Zeros(width - |Cut(id, width)|)
  }

  /** `trim_end_matches('\0')`. */
  function Trim(s: seq<byte>): seq<byte> {
    if s != [] && s[|s| - 1] == 0 then Trim(s[..|s| - 1]) else s
  }

  lemma {:induction false} TrimZeros(s: seq<byte>, n: nat)
    ensures Trim(s + Zeros(n)) == Trim(s)
    decreases n
  {
    if n > 0 {
      var t := s + Zeros(n);
      assert t[..|t| - 1] == s + Zeros(n - 1);
      TrimZeros(s, n - 1);
    } else {
      assert s + Zeros(0) == s;
    }
  }

  lemma {:induction false} TrimShorter(s: seq<byte>)
    ensures |Trim(s)| <= |s|
    ensures Trim(s) == s <==> s == [] || s[|s| - 1] != 0
  {
    if s != [] && s[|s| - 1] == 0 { TrimShorter(s[..|s| - 1]); }
  }

  /** An identifier read from its field: `from_utf8_lossy`, then `trim_end_matches('\0')`. */
  function ReadId(field: seq<byte>): seq<byte> {
    Trim(Repair(field))
  }

  /** What a field of this width keeps of an identifier. */
  function KeptId(id: seq<byte>, width: nat): seq<byte> {
    Trim(if |id| <= width then id else CutText(id, width))
  }

  /** A padded identifier reads back as its whole characters that fit, then U+FFFD if one is
      cut through, without trailing NULs. */
  lemma ReadPad(id: seq<byte>, width: nat)
    requires WellFormed(id)
    ensures ReadId(Pad(id, width)) == KeptId(id, width)
  {
    var n := width - |Cut(id, width)|;
    RepairBeforeNuls(Cut(id, width), Zeros(n));
    TrimZeros(Repair(Cut(id, width)), n);
    if |id| <= width { RepairKeeps(id); } else { RepairOfCut(id, width); }
  }

  /** Of an ASCII identifier the field keeps the first `width` bytes, trailing NULs trimmed. */
  lemma AsciiKept(id: seq<byte>, width: nat)
    requires Ascii(id)
    ensures ReadId(Pad(id, width)) == Trim(Cut(id, width))
  {
    AsciiWellFormed(id);
    ReadPad(id, width);
    if |id| > width { AsciiCut(id, width); }
  }

  /** An identifier that fits its field, or loses only the end of a final U+FFFD, which the
      reader puts back. */
  predicate FitsField(id: seq<byte>, width: nat) {
    (|id| <= width && (id == [] || id[|id| - 1] != 0)) || CutsReplacement(id, width)
  }

  lemma TrimLong(t: seq<byte>, id: seq<byte>, width: nat)
    requires |id| > width && (|t| <= width || t[|t| - 1] == 0xBD)
    ensures Trim(t) == id <==> t == id
  {
    TrimShorter(t);
  }

  lemma KeptCut(id: seq<byte>, width: nat)
    requires WellFormed(id) && |id| > width
    ensures KeptId(id, width) == id <==> CutsReplacement(id, width)
  {
    CutTextIff(id, width);
    CutTextEnd(id, width);
    TrimLong(CutText(id, width), id, width);
  }

  /** It reads back unchanged exactly then. */
  lemma PadLossless(id: seq<byte>, width: nat)
    requires WellFormed(id)
    ensures ReadId(Pad(id, width)) == id <==> FitsField(id, width)
  {
    ReadPad(id, width);
    if |id| <= width {
      TrimShorter(id);
    } else {
      KeptCut(id, width);
    }
  }

  lemma {:induction false} PadTrimBehind(s: seq<byte>, width: nat)
    requires |s| <= width
    ensures Pad(Trim(s), width) == s + Zeros(width - |s|)
    decreases |s|
  {
    if s != [] && s[|s| - 1] == 0 {
      var t := s[..|s| - 1];
      PadTrimBehind(t, width);
      assert s == t + [0];
      assert [0] + Zeros(width - |s|) == Zeros(width - |t|);
      assert s + Zeros(width - |s|) == t + ([0] + Zeros(width - |s|));
    }
  }

  /** A trimmed field padded again is the field. */
  lemma PadTrim(field: seq<byte>)
    ensures Pad(Trim(field), |field|) == field
  {
    PadTrimBehind(field, |field|);
    assert field + Zeros(0) == field;
  }

  lemma {:induction false} PadTrimCut(s: seq<byte>, width: nat)
    requires |s| >= width
    ensures Pad(Trim(s), width) == s[..width]
    decreases |s|
  {
    if |s| == width {
      PadTrim(s);
    } else if s[|s| - 1] == 0 {
      PadTrimCut(s[..|s| - 1], width);
      assert s[..|s| - 1][..width] == s[..width];
    }
  }

  /** A field that is read and written back is unchanged exactly when it is nearly well-formed. */
  lemma RereadIff(field: seq<byte>)
    ensures Pad(ReadId(field), |field|) == field <==> NearlyWellFormed(field)
  {
    RepairCutIff(field);
    PadTrimCut(Repair(field), |field|);
  }

  // ---------- big-endian words ----------

  function Word16(s: seq<byte>): (n: u16)
    requires |s| == 2
  {
    assert Decode(s) < U16 by { RoundTripBytes(s); Widths(); }
    Decode(s)
  }

  function Word32(s: seq<byte>): (n: u32)
    requires |s| == 4
  {
    assert Decode(s) < U32 by { RoundTripBytes(s); Widths(); }
    Decode(s)
  }

  function Word64(s: seq<byte>): (n: u64)
    requires |s| == 8
  {
    assert Decode(s) < U64 by { RoundTripBytes(s); Widths(); }
    Decode(s)
  }

  lemma WordOf16(n: u16)
    ensures Word16(Encode(n, 2)) == n
  {
    Widths();
    RoundTrip(n, 2);
  }

  lemma WordOf32(n: u32)
    ensures Word32(Encode(n, 4)) == n
  {
    Widths();
    RoundTrip(n, 4);
  }

  lemma EncodeTells(e: u32, f: u32)
    ensures Encode(e, 4) == Encode(f, 4) <==> e == f
  {
    WordOf32(e);
    WordOf32(f);
  }

  lemma SameEnds<T>(x: seq<T>, y: seq<T>, u: seq<T>, v: seq<T>)
    requires |u| == |v|
    ensures x + u == y + v <==> x == y && u == v
  {
    if x + u == y + v {
      assert x == (x + u)[..|x|] && y == (y + v)[..|y|];
      assert u == (x + u)[|x|..] && v == (y + v)[|y|..];
    }
  }

  lemma WordOf64(n: u64)
    ensures Word64(Encode(n, 8)) == n
  {
    Widths();
    RoundTrip(n, 8);
  }

  lemma OfWord32(s: seq<byte>)
    requires |s| == 4
    ensures Encode(Word32(s), 4) == s
  {
    RoundTripBytes(s);
  }

  lemma OfWord16(s: seq<byte>)
    requires |s| == 2
    ensures Encode(Word16(s), 2) == s
  {
    RoundTripBytes(s);
  }

  lemma OfWord64(s: seq<byte>)
    requires |s| == 8
    ensures Encode(Word64(s), 8) == s
  {
    RoundTripBytes(s);
  }

  /** Most significant byte first. */
  lemma KnownWords()
    ensures Encode(0x0102_0304, 4) == [1, 2, 3, 4] && Encode(3, 4) == [0, 0, 0, 3] && Encode(0x0506, 2) == [5, 6]
    ensures Encode(5, 8) == [0, 0, 0, 0, 0, 0, 0, 5]
  {
    SmallWord(5, 7);
    SmallWord(3, 3);
    assert Encode(0x01, 1) == [1];
    assert Encode(0x0102, 2) == [1, 2];
    assert Encode(0x0102_03, 3) == [1, 2, 3];
    assert Encode(0x05, 1) == [5];
  }

  lemma {:induction false} ZeroWord(k: nat)
    ensures Encode(0, k) == Zeros(k)
    decreases k
  {
    if k > 0 { ZeroWord(k - 1); }
  }

  lemma SmallWord(b: byte, k: nat)
    ensures Encode(b, k + 1) == Zeros(k) + [b]
  {
    ZeroWord(k);
  }

  /** A slice of a prefix is a slice of the whole. */
  lemma SliceOfPrefix(data: seq<byte>, d: seq<byte>, i: nat, j: nat)
    requires i <= j <= |d| <= |data| && d == data[..|d|]
    ensures d[i..j] == data[i..j]
  {}

  // ---------- sums of lengths over a map ----------

  ghost function TotalLength<K>(m: map<K, seq<byte>>): nat {
    if m == map[] then 0
    else
      var k :| k in m;
      |m[k]| + TotalLength(m - {k})
  }

  lemma {:induction false} TotalRemove<K>(m: map<K, seq<byte>>, k: K)
    requires k in m
    ensures TotalLength(m) == |m[k]| + TotalLength(m - {k})
    decreases |m|
  {
    var j :| j in m && TotalLength(m) == |m[j]| + TotalLength(m - {j});
    if j != k {
      TotalRemove(m - {j}, k);
      TotalRemove(m - {k}, j);
      assert m - {j} - {k} == m - {k} - {j};
    }
  }

  lemma TotalInsert<K>(m: map<K, seq<byte>>, k: K, v: seq<byte>)
    requires k !in m
    ensures TotalLength(m[k := v]) == TotalLength(m) + |v|
  {
    TotalRemove(m[k := v], k);
    assert m[k := v] - {k} == m;
  }
}
