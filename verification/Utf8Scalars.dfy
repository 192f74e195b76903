/** UTF-8 as an encoding of numbers: the byte-wise reading of text against the encoding of
    RFC 3629 (section 3), and what counts as an ill-formed piece. */
module Utf8Scalars {
  import opened Bytes
  import opened Utf8

  /** A Unicode scalar value: a code point that is no surrogate. */
  type Scalar = n: nat | n < 0xD800 || 0xE000 <= n < 0x11_0000

  /** Two marker bits and the six low bits of n. */
  function Tail(n: nat): (b: byte)
    ensures 0x80 <= b < 0xC0
  {
    0x80 + n % 64
  }

  function CharBytes(n: Scalar): (s: seq<byte>)
    ensures 1 <= |s| <= 4
  {
    if n < 0x80 then [n]
    else if n < 0x800 then [0xC0 + n / 64, Tail(n)]
    else if n < 0x1_0000 then [0xE0 + n / 4096, Tail(n / 64), Tail(n)]
    else [0xF0 + n / 262144, Tail(n / 4096), Tail(n / 64), Tail(n)]
  }

  function TextOf(chars: seq<Scalar>): seq<byte> {
    if chars == [] then [] else CharBytes(chars[0]) + TextOf(chars[1..])
  }

  lemma CharFirst(n: Scalar)
    ensures Width(CharBytes(n)[0]) == |CharBytes(n)|
  {}

  lemma CharSecond(n: Scalar)
    requires |CharBytes(n)| >= 2
    ensures MayFollow(CharBytes(n)[0], CharBytes(n)[1])
  {}

  lemma CharTail(n: Scalar)
    ensures forall i :: 2 <= i < |CharBytes(n)| ==> IsTail(CharBytes(n)[i])
  {}

  /** The bytes of a character are read as one whole piece. */
  lemma CharIsWhole(n: Scalar)
    ensures Whole(CharBytes(n)) && Piece(CharBytes(n)) == |CharBytes(n)|
  {
    CharFirst(n);
    CharTail(n);
    if |CharBytes(n)| >= 2 { CharSecond(n); }
  }

  lemma Two(a: nat, b: nat)
    requires 2 <= a < 32 && b < 64
    ensures CharBytes(64 * a + b) == [0xC0 + a, 0x80 + b]
  {}

  lemma Three(a: nat, b: nat, c: nat)
    requires a < 16 && b < 64 && c < 64 && (a == 0 ==> b >= 32) && (a == 13 ==> b < 32)
    ensures var n := 4096 * a + 64 * b + c;
      (n < 0xD800 || 0xE000 <= n < 0x11_0000) && CharBytes(n) == [0xE0 + a, 0x80 + b, 0x80 + c]
  {
    var n := 4096 * a + 64 * b + c;
    assert n / 64 == 64 * a + b;
  }

  lemma Four(a: nat, b: nat, c: nat, d: nat)
    requires a < 5 && b < 64 && c < 64 && d < 64 && (a == 0 ==> b >= 16) && (a == 4 ==> b < 16)
    ensures var n := 262144 * a + 4096 * b + 64 * c + d;
      0xE000 <= n < 0x11_0000 && CharBytes(n) == [0xF0 + a, 0x80 + b, 0x80 + c, 0x80 + d]
  {
    var n := 262144 * a + 4096 * b + 64 * c + d;
    assert n / 64 == 4096 * a + 64 * b + c;
    assert n / 4096 == 64 * a + b;
  }

  /** The character of a first byte, a second one that may follow it, and tail bytes. */
  lemma CharOf(s: seq<byte>) returns (n: Scalar)
    requires 1 <= |s| == Width(s[0])
    requires |s| >= 2 ==> MayFollow(s[0], s[1])
    requires forall i :: 2 <= i < |s| ==> IsTail(s[i])
    ensures CharBytes(n) == s
  {
    var b: seq<nat> := s;
    match |s|
    case 1 => n := s[0];
    case 2 =>
      Two(b[0] - 0xC0, b[1] - 0x80);
      n := 64 * (b[0] - 0xC0) + (b[1] - 0x80);
    case 3 =>
      Three(b[0] - 0xE0, b[1] - 0x80, b[2] - 0x80);
      n := 4096 * (b[0] - 0xE0) + 64 * (b[1] - 0x80) + (b[2] - 0x80);
    case _ =>
      Four(b[0] - 0xF0, b[1] - 0x80, b[2] - 0x80, b[3] - 0x80);
      n := 262144 * (b[0] - 0xF0) + 4096 * (b[1] - 0x80) + 64 * (b[2] - 0x80) + (b[3] - 0x80);
  }

  lemma {:induction false} TextIsWellFormed(chars: seq<Scalar>)
    ensures WellFormed(TextOf(chars))
    decreases |chars|
  {
    if chars != [] {
      CharIsWhole(chars[0]);
      PieceIsWellFormed(CharBytes(chars[0]));
      assert CharBytes(chars[0])[..|CharBytes(chars[0])|] == CharBytes(chars[0]);
      TextIsWellFormed(chars[1..]);
      WellFormedConcat(CharBytes(chars[0]), TextOf(chars[1..]));
    }
  }

  lemma FirstChar(s: seq<byte>) returns (n: Scalar)
    requires Whole(s)
    ensures CharBytes(n) == s[..Piece(s)]
  {
    n := CharOf(s[..Piece(s)]);
  }

  lemma TextCons(s: seq<byte>, rest: seq<Scalar>) returns (chars: seq<Scalar>)
    requires Whole(s) && TextOf(rest) == s[Piece(s)..]
    ensures TextOf(chars) == s
  {
    var n := FirstChar(s);
    chars := [n] + rest;
    assert chars[1..] == rest;
    assert s == s[..Piece(s)] + s[Piece(s)..];
  }

  lemma {:induction false} WellFormedIsText(s: seq<byte>) returns (chars: seq<Scalar>)
    requires WellFormed(s)
    ensures TextOf(chars) == s
    decreases |s|
  {
    if s == [] {
      chars := [];
    } else {
      var rest := WellFormedIsText(s[Piece(s)..]);
      chars := TextCons(s, rest);
    }
  }

  /** Well-formed byte strings are exactly the encodings of lists of scalar values. */
  lemma WellFormedIff(s: seq<byte>)
    ensures WellFormed(s) <==> exists chars :: TextOf(chars) == s
  {
    if WellFormed(s) {
      var chars := WellFormedIsText(s);
    }
    forall chars | TextOf(chars) == s ensures WellFormed(s) {
      TextIsWellFormed(chars);
    }
  }

  /** Some character's bytes start with these. */
  ghost predicate Begins(s: seq<byte>) {
    exists n: Scalar :: s <= CharBytes(n)
  }

  lemma BeginsWith(s: seq<byte>, t: seq<byte>)
    requires s != [] && |s| + |t| == Width(s[0])
    requires |s| >= 2 && MayFollow(s[0], s[1])
    requires forall i :: 2 <= i < |s + t| ==> IsTail((s + t)[i])
    ensures Begins(s)
  {
    var n := CharOf(s + t);
    assert s <= CharBytes(n);
  }

  lemma BeginningReads(s: seq<byte>)
    requires s != [] && Begins(s)
    ensures |s| <= Width(s[0]) && (|s| >= 2 ==> MayFollow(s[0], s[1]))
    ensures forall i :: 2 <= i < |s| ==> IsTail(s[i])
  {
    var n: Scalar :| s <= CharBytes(n);
    CharFirst(n);
    CharTail(n);
    if |s| >= 2 { CharSecond(n); }
  }

  /** An ill-formed piece is a maximal start of a character, or one byte that starts none: what
      `from_utf8_lossy` replaces at once. */
  lemma IllFormedPiece(s: seq<byte>)
    requires s != [] && !Whole(s)
    ensures var n := Piece(s);
      && (n > 1 ==> Begins(s[..n]))
      && (n < |s| ==> !Begins(s[..n + 1]))
  {
    var n := Piece(s);
    if n > 1 {
      BeginsWith(s[..n], seq(Width(s[0]) - n, _ => 0x80));
    }
    if n < |s| && Begins(s[..n + 1]) {
      BeginningReads(s[..n + 1]);
    }
  }
}
