/** UTF-8 as `String::from_utf8_lossy` reads it: every maximal ill-formed piece is replaced by
    U+FFFD. */
module Utf8 {
  import opened Bytes

  /** U+FFFD, the replacement character. */
  const REPLACEMENT: seq<byte> := [0xEF, 0xBF, 0xBD]

  predicate IsTail(b: byte) { 0x80 <= b < 0xC0 }

  /** How many bytes a character with this first byte has; 0 for no first byte. */
  function Width(b: byte): (n: nat)
    ensures n <= 4
  {
    if b < 0x80 then 1
    else if b < 0xC2 then 0
    else if b < 0xE0 then 2
    else if b < 0xF0 then 3
    else if b < 0xF5 then 4
    else 0
  }

  /** Which second bytes may follow a first byte: no overlong form, surrogate or number past
      U+10FFFF. */
  predicate MayFollow(b: byte, second: byte) {
    if b == 0xE0 then 0xA0 <= second < 0xC0
    else if b == 0xED then 0x80 <= second < 0xA0
    else if b == 0xF0 then 0x90 <= second < 0xC0
    else if b == 0xF4 then 0x80 <= second < 0x90
    else IsTail(second)
  }

  /** The length of the piece s begins with: a character, or a maximal start of one, or one
      byte that starts none. */
  function Piece(s: seq<byte>): (n: nat)
    requires s != []
    ensures 1 <= n <= |s|
  {
    var w := Width(s[0]);
    if w <= 1 || |s| < 2 || !MayFollow(s[0], s[1]) then 1
    else if w == 2 || |s| < 3 || !IsTail(s[2]) then 2
    else if w == 3 || |s| < 4 || !IsTail(s[3]) then 3
    else 4
  }

  /** Whether the piece s begins with is a whole character. */
  predicate Whole(s: seq<byte>) {
    s != [] && Piece(s) == Width(s[0])
  }

  predicate WellFormed(s: seq<byte>) {
    s == [] || (Whole(s) && WellFormed(s[Piece(s)..]))
  }

  /** `String::from_utf8_lossy`. */
  function Repair(s: seq<byte>): seq<byte> {
    if s == [] then []
    else (if Whole(s) then s[..Piece(s)] else REPLACEMENT) + Repair(s[Piece(s)..])
  }

  predicate Ascii(s: seq<byte>) {
    forall i :: 0 <= i < |s| ==> s[i] < 0x80
  }

  lemma {:induction false} AsciiWellFormed(s: seq<byte>)
    requires Ascii(s)
    ensures WellFormed(s)
    decreases |s|
  {
    if s != [] { AsciiWellFormed(s[1..]); }
  }

  /** Well-formed text is kept. */
  lemma {:induction false} RepairKeeps(s: seq<byte>)
    requires WellFormed(s)
    ensures Repair(s) == s
    decreases |s|
  {
    if s != [] { RepairKeeps(s[Piece(s)..]); }
  }

  lemma PieceOfPrefix(s: seq<byte>, t: seq<byte>)
    requires Whole(s)
    ensures Whole(s + t) && Piece(s + t) == Piece(s) && (s + t)[..Piece(s)] == s[..Piece(s)]
    ensures (s + t)[Piece(s)..] == s[Piece(s)..] + t
  {}

  lemma {:induction false} WellFormedConcat(s: seq<byte>, t: seq<byte>)
    requires WellFormed(s) && WellFormed(t)
    ensures WellFormed(s + t)
    decreases |s|
  {
    if s == [] {
      assert s + t == t;
    } else {
      PieceOfPrefix(s, t);
      WellFormedConcat(s[Piece(s)..], t);
    }
  }

  lemma PieceIsWellFormed(s: seq<byte>)
    requires Whole(s)
    ensures WellFormed(s[..Piece(s)])
  {
    var p := s[..Piece(s)];
    assert Piece(p) == |p|;
    assert p[|p|..] == [];
  }

  /** What is read is text again. */
  lemma {:induction false} RepairIsWellFormed(s: seq<byte>)
    ensures WellFormed(Repair(s))
    decreases |s|
  {
    if s != [] {
      RepairIsWellFormed(s[Piece(s)..]);
      var p := if Whole(s) then s[..Piece(s)] else REPLACEMENT;
      if Whole(s) { PieceIsWellFormed(s); } else { PieceIsWellFormed(REPLACEMENT); }
      WellFormedConcat(p, Repair(s[Piece(s)..]));
    }
  }

  predicate Nuls(z: seq<byte>) {
    forall i :: 0 <= i < |z| ==> z[i] == 0
  }

  lemma PieceBeforeNuls(s: seq<byte>, z: seq<byte>)
    requires s != [] && Nuls(z)
    ensures Piece(s + z) == Piece(s) && (s + z)[..Piece(s)] == s[..Piece(s)]
    ensures (s + z)[Piece(s)..] == s[Piece(s)..] + z
  {}

  /** NULs behind a byte string complete none of its characters. */
  lemma {:induction false} RepairBeforeNuls(s: seq<byte>, z: seq<byte>)
    requires Nuls(z)
    ensures Repair(s + z) == Repair(s) + z
    decreases |s|
  {
    if s == [] {
      assert s + z == z;
      AsciiWellFormed(z);
      RepairKeeps(z);
    } else {
      PieceBeforeNuls(s, z);
      RepairBeforeNuls(s[Piece(s)..], z);
    }
  }

  // ------------------------------------------------------------------
  // Text cut to a number of bytes
  // ------------------------------------------------------------------

  /** The whole characters in the first n bytes, and U+FFFD if a character is cut through. */
  function CutText(s: seq<byte>, n: nat): seq<byte> {
    if s == [] || n == 0 then []
    else if Piece(s) > n then REPLACEMENT
    else s[..Piece(s)] + CutText(s[Piece(s)..], n - Piece(s))
  }

  lemma PieceOfCut(s: seq<byte>, n: nat)
    requires Whole(s) && 0 < n < |s|
    ensures if Piece(s) <= n then
        Whole(s[..n]) && Piece(s[..n]) == Piece(s) && s[..n][Piece(s)..] == s[Piece(s)..][..n - Piece(s)]
      else !Whole(s[..n]) && Piece(s[..n]) == n
  {}

  /** Text cut to n bytes and read again: its whole characters, then perhaps U+FFFD. */
  lemma {:induction false} RepairOfCut(s: seq<byte>, n: nat)
    requires WellFormed(s) && n < |s|
    ensures Repair(s[..n]) == CutText(s, n)
    decreases |s|
  {
    if n > 0 {
      PieceOfCut(s, n);
      if Piece(s) <= n {
        RepairOfCut(s[Piece(s)..], n - Piece(s));
        assert s[..n][..Piece(s)] == s[..Piece(s)];
      } else {
        assert s[..n][n..] == [];
      }
    }
  }

  /** s ends in a U+FFFD that a cut to n bytes cuts through. */
  predicate CutsReplacement(s: seq<byte>, n: nat) {
    |s| >= 3 && s[|s| - 3..] == REPLACEMENT && |s| - 3 < n < |s|
  }

  lemma SameTail(p: seq<byte>, x: seq<byte>, y: seq<byte>)
    ensures p + x == p + y <==> x == y
  {
    assert (p + x)[|p|..] == x && (p + y)[|p|..] == y;
  }

  lemma CutsHere(s: seq<byte>, n: nat)
    requires Whole(s) && 0 < n < Piece(s)
    ensures s == REPLACEMENT <==> CutsReplacement(s, n)
  {}

  lemma CutTextStep(s: seq<byte>, n: nat, t: seq<byte>)
    requires Whole(s) && Piece(s) <= n && t == s[Piece(s)..]
    ensures CutText(s, n) == s <==> CutText(t, n - Piece(s)) == t
  {
    var p := s[..Piece(s)];
    assert s == p + t;
    SameTail(p, CutText(t, n - Piece(s)), t);
  }

  /** Cutting text and reading it back gives the text just when only a final U+FFFD is cut. */
  lemma {:induction false} CutTextIff(s: seq<byte>, n: nat)
    requires WellFormed(s) && n < |s|
    ensures CutText(s, n) == s <==> CutsReplacement(s, n)
    decreases |s|
  {
    if n > 0 {
      var p := Piece(s);
      if p <= n {
        CutTextIff(s[p..], n - p);
        CutTextStep(s, n, s[p..]);
        CutsTail(s, n);
      } else {
        CutsHere(s, n);
      }
    }
  }

  lemma CutsTail(s: seq<byte>, n: nat)
    requires Whole(s) && Piece(s) <= n < |s|
    ensures CutsReplacement(s, n) <==> CutsReplacement(s[Piece(s)..], n - Piece(s))
  {
    var t := s[Piece(s)..];
    if |t| >= 3 { assert t[|t| - 3..] == s[|s| - 3..]; }
  }

  lemma {:induction false} CutTextEnd(s: seq<byte>, n: nat)
    ensures var t := CutText(s, n); |t| <= n || t[|t| - 1] == 0xBD
    decreases |s|
  {
    if s != [] && n > 0 && Piece(s) <= n { CutTextEnd(s[Piece(s)..], n - Piece(s)); }
  }

  lemma {:induction false} AsciiCut(s: seq<byte>, n: nat)
    requires Ascii(s) && n <= |s|
    ensures CutText(s, n) == s[..n]
    decreases |s|
  {
    if n > 0 {
      AsciiCut(s[1..], n - 1);
      assert s[..n] == s[..1] + s[1..][..n - 1];
    }
  }

  // ------------------------------------------------------------------
  // Bytes that survive being read
  // ------------------------------------------------------------------

  /** Well-formed, except perhaps that a final U+FFFD is cut short. */
  predicate NearlyWellFormed(s: seq<byte>) {
    (|s| < 3 && s == REPLACEMENT[..|s|]) || (Whole(s) && NearlyWellFormed(s[Piece(s)..]))
  }

  lemma {:induction false} RepairGrows(s: seq<byte>)
    ensures |Repair(s)| >= |s|
    decreases |s|
  {
    if s != [] { RepairGrows(s[Piece(s)..]); }
  }

  lemma StartSame(p: seq<byte>, r: seq<byte>, t: seq<byte>)
    requires |r| >= |t|
    ensures (p + r)[..|p + t|] == p + t <==> r[..|t|] == t
  {
    assert (p + r)[..|p + t|] == p + r[..|t|];
    assert (p + t)[|p|..] == t && (p + r[..|t|])[|p|..] == r[..|t|];
  }

  lemma ReplacementWhole(s: seq<byte>)
    requires |s| >= 3 && s[..3] == REPLACEMENT
    ensures Whole(s)
  {
    assert s[0] == s[..3][0] && s[1] == s[..3][1] && s[2] == s[..3][2];
  }

  lemma RepairBadStart(s: seq<byte>)
    requires s != [] && !Whole(s) && |Repair(s)| >= |s|
    ensures Repair(s)[..|s|] == s <==> |s| < 3 && s == REPLACEMENT[..|s|]
  {
    var r := Repair(s);
    assert r[..3] == REPLACEMENT;
    if |s| >= 3 { assert r[..|s|][..3] == r[..3]; } else { assert r[..|s|] == r[..3][..|s|]; }
    if |s| >= 3 && s[..3] == REPLACEMENT { ReplacementWhole(s); }
  }

  /** The bytes read, cut to the length they had, are those bytes exactly when they are nearly
      well-formed. */
  lemma {:induction false} RepairCutIff(s: seq<byte>)
    ensures |Repair(s)| >= |s| && (Repair(s)[..|s|] == s <==> NearlyWellFormed(s))
    decreases |s|
  {
    RepairGrows(s);
    if Whole(s) {
      var p, t := s[..Piece(s)], s[Piece(s)..];
      RepairCutIff(t);
      assert s == p + t;
      StartSame(p, Repair(t), t);
    } else if s != [] {
      RepairBadStart(s);
    }
  }

  lemma RepairNext(s: seq<byte>, n: nat, piece: seq<byte>, rest: seq<byte>)
    requires s != [] && Piece(s) == n && rest == s[n..]
    requires piece == if Whole(s) then s[..n] else REPLACEMENT
    ensures Repair(s) == piece + Repair(rest)
  {}

  /** The example of the Unicode standard for replacing maximal subparts (section 3.9). */
  lemma KnownRepair()
    ensures Repair([0x61, 0xF1, 0x80, 0x80, 0xE1, 0x80, 0xC2, 0x62, 0x80, 0x63]) ==
      [0x61] + REPLACEMENT + REPLACEMENT + REPLACEMENT + [0x62] + REPLACEMENT + [0x63]
  {
    RepairNext([0x63], 1, [0x63], []);
    RepairNext([0x80, 0x63], 1, REPLACEMENT, [0x63]);
    RepairNext([0x62, 0x80, 0x63], 1, [0x62], [0x80, 0x63]);
    RepairNext([0xC2, 0x62, 0x80, 0x63], 1, REPLACEMENT, [0x62, 0x80, 0x63]);
    RepairNext([0xE1, 0x80, 0xC2, 0x62, 0x80, 0x63], 2, REPLACEMENT, [0xC2, 0x62, 0x80, 0x63]);
    RepairNext([0xF1, 0x80, 0x80, 0xE1, 0x80, 0xC2, 0x62, 0x80, 0x63], 3, REPLACEMENT,
               [0xE1, 0x80, 0xC2, 0x62, 0x80, 0x63]);
    RepairNext([0x61, 0xF1, 0x80, 0x80, 0xE1, 0x80, 0xC2, 0x62, 0x80, 0x63], 1, [0x61],
               [0xF1, 0x80, 0x80, 0xE1, 0x80, 0xC2, 0x62, 0x80, 0x63]);
  }
}
