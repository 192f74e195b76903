/** Derivation paths: parsing, printing, and key derivation along a path. */
module DerivationPath {
  import opened Bytes
  import opened BigEndian
  import opened Positional

  const HARDENED: nat := 0x8000_0000

  datatype Result<+T> = Ok(value: T) | Err(error: PathError)

  datatype PathError = NoPrefix | InvalidIndex(part: string) | HardenedOverflow(part: string)

  // ------------------------------------------------------------------
  // Numbers
  // ------------------------------------------------------------------

  predicate IsDigit(c: char) { '0' <= c <= '9' }

  predicate AllDigits(s: string) {
    forall i :: 0 <= i < |s| ==> IsDigit(s[i])
  }

  function DigitValue(c: char): (d: nat)
    requires IsDigit(c)
    ensures d < 10
  {
    c as int - 48
  }

  function DigitChar(d: nat): (c: char)
    requires d < 10
    ensures IsDigit(c) && DigitValue(c) == d
  {
    (48 + d) as char
  }

  function Numeral(s: string): nat
    requires AllDigits(s)
  {
    if s == "" then 0 else Numeral(s[..|s| - 1]) * 10 + DigitValue(s[|s| - 1])
  }

  function Unsigned(s: string): string {
    if s != "" && s[0] == '+' then s[1..] else s
  }

  /** `str::parse::<u32>`: an optional plus sign, then at least one digit, and no overflow. */
  function ParseU32(s: string): Option<u32> {
    var d := Unsigned(s);
    if d == "" || !AllDigits(d) then None
    else if Numeral(d) < U32 then Some(Numeral(d)) else None
  }

  /** Decimal printing, without leading zeros. */
  function Decimal(n: nat): (s: string)
    ensures s != "" && AllDigits(s)
    decreases n
  {
    if n < 10 then [DigitChar(n)] else Decimal(n / 10) + [DigitChar(n % 10)]
  }

  lemma {:induction false} NumeralOfDecimal(n: nat)
    ensures Numeral(Decimal(n)) == n
    decreases n
  {
    var s := Decimal(n);
    if n >= 10 {
      NumeralOfDecimal(n / 10);
      assert s[..|s| - 1] == Decimal(n / 10);
    } else {
      assert s[..|s| - 1] == "";
    }
  }

  lemma ParseDecimal(n: u32)
    ensures ParseU32(Decimal(n)) == Some(n)
  {
    NumeralOfDecimal(n);
    assert IsDigit(Decimal(n)[0]);
  }

  function Zeros(n: nat): string { seq(n, _ => '0') }

  lemma NumeralSnoc(s: string, d: nat)
    requires AllDigits(s) && d < 10
    ensures AllDigits(s + [DigitChar(d)]) && Numeral(s + [DigitChar(d)]) == Numeral(s) * 10 + d
    ensures (Numeral(s) * 10 + d) / 10 == Numeral(s) && (Numeral(s) * 10 + d) % 10 == d
  {}

  lemma CanonicalSnoc(z: nat, v: nat, d: nat) returns (y: nat)
    requires d < 10
    ensures Zeros(z) + Decimal(v) + [DigitChar(d)] == Zeros(y) + Decimal(v * 10 + d)
  {
    DivModUnique(10, v, d);
    if v == 0 {
      y := z + 1;
      assert Zeros(z) + Decimal(0) == Zeros(y);
    } else {
      y := z;
      assert Decimal(v * 10 + d) == Decimal(v) + [DigitChar(d)];
    }
  }

  /** A digit string is the decimal of its value behind some zeros. */
  lemma {:induction false} DigitsCanonical(s: string) returns (z: nat)
    requires s != "" && AllDigits(s)
    ensures s == Zeros(z) + Decimal(Numeral(s))
    decreases |s|
  {
    var front, d := s[..|s| - 1], DigitValue(s[|s| - 1]);
    assert s == front + [DigitChar(d)];
    NumeralSnoc(front, d);
    if front == "" {
      z := 0;
    } else {
      z := DigitsCanonical(front);
      z := CanonicalSnoc(z, Numeral(front), d);
    }
  }

  lemma {:induction false} NumeralOfZeros(z: nat, s: string)
    requires AllDigits(s)
    ensures AllDigits(Zeros(z) + s) && Numeral(Zeros(z) + s) == Numeral(s)
    decreases |s|, z
  {
    var t := Zeros(z) + s;
    if s != "" {
      NumeralOfZeros(z, s[..|s| - 1]);
      assert t[..|t| - 1] == Zeros(z) + s[..|s| - 1];
    } else if z > 0 {
      NumeralOfZeros(z - 1, s);
      assert t[..|t| - 1] == Zeros(z - 1) + s;
    }
  }

  // ------------------------------------------------------------------
  // Parts and paths
  // ------------------------------------------------------------------

  predicate EndsWith(s: string, c: char) {
    s != "" && s[|s| - 1] == c
  }

  function ParsePart(part: string): Result<u32> {
    var hardened := EndsWith(part, '\'');
    var num := ParseU32(if hardened then part[..|part| - 1] else part);
    if num.None? then Err(InvalidIndex(part))
    else if !hardened then Ok(num.value)
    else if num.value >= HARDENED then Err(HardenedOverflow(part))
    else Ok(num.value + HARDENED)
  }

  function PrintIndex(i: u32): string {
    if i >= HARDENED then Decimal(i - HARDENED) + "'" else Decimal(i)
  }

  lemma ParsePrintIndex(i: u32)
    ensures ParsePart(PrintIndex(i)) == Ok(i)
  {
    var p := PrintIndex(i);
    if i >= HARDENED {
      assert p[..|p| - 1] == Decimal(i - HARDENED);
      ParseDecimal(i - HARDENED);
    } else {
      ParseDecimal(i);
      assert IsDigit(p[|p| - 1]);
    }
  }

  function Head(plus: bool, z: nat): string {
    (if plus then "+" else "") + Zeros(z)
  }

  /** Exactly the spellings of i: its printing or its plain decimal, which differ from 2^31
      up, behind an optional plus and leading zeros. */
  predicate Spells(part: string, i: u32, plus: bool, z: nat) {
    part == Head(plus, z) + PrintIndex(i) || part == Head(plus, z) + Decimal(i)
  }

  lemma UnsignedSpells(s: string) returns (plus: bool, z: nat)
    requires ParseU32(s).Some?
    ensures s == Head(plus, z) + Decimal(ParseU32(s).value)
  {
    plus := s != "" && s[0] == '+';
    z := DigitsCanonical(Unsigned(s));
    HeadOf(plus, z, Decimal(ParseU32(s).value));
    assert plus ==> s == "+" + s[1..];
  }

  lemma DigitsParse(d: string)
    requires d != "" && AllDigits(d) && Numeral(d) < U32
    ensures ParseU32(d) == ParseU32("+" + d) == Some(Numeral(d))
  {}

  lemma SpelledParses(plus: bool, z: nat, n: u32)
    ensures ParseU32(Head(plus, z) + Decimal(n)) == Some(n)
  {
    var d := Zeros(z) + Decimal(n);
    NumeralOfZeros(z, Decimal(n));
    NumeralOfDecimal(n);
    DigitsParse(d);
    HeadOf(plus, z, Decimal(n));
  }

  lemma HeadOf(plus: bool, z: nat, s: string)
    ensures Head(plus, z) + s == if plus then "+" + (Zeros(z) + s) else Zeros(z) + s
  {}

  lemma Associate(a: string, b: string, c: string)
    ensures a + (b + c) == (a + b) + c
  {}

  lemma SpelledPlainParses(part: string, i: u32, plus: bool, z: nat)
    requires part == Head(plus, z) + Decimal(i)
    ensures ParsePart(part) == Ok(i)
  {
    SpelledParses(plus, z, i);
    LastOfSpelled(Head(plus, z), Decimal(i));
  }

  lemma SpelledHardenedParses(part: string, n: u32, plus: bool, z: nat)
    requires n < HARDENED && part == Head(plus, z) + (Decimal(n) + "'")
    ensures ParsePart(part) == Ok(n + HARDENED)
  {
    Associate(Head(plus, z), Decimal(n), "'");
    SpelledParses(plus, z, n);
    HardenedParses(part, Head(plus, z) + Decimal(n), n);
  }

  lemma SpelledPartParses(part: string, i: u32, plus: bool, z: nat)
    requires Spells(part, i, plus, z)
    ensures ParsePart(part) == Ok(i)
  {
    if part == Head(plus, z) + Decimal(i) {
      SpelledPlainParses(part, i, plus, z);
    } else {
      SpelledHardenedParses(part, i - HARDENED, plus, z);
    }
  }

  lemma HardenedParses(part: string, s: string, n: u32)
    requires part == s + "'" && ParseU32(s) == Some(n) && n < HARDENED
    ensures ParsePart(part) == Ok(n + HARDENED)
  {}

  lemma LastOfSpelled(head: string, d: string)
    requires d != "" && AllDigits(d)
    ensures !EndsWith(head + d, '\'')
  {}

  lemma EndsSplit(part: string, c: char)
    requires EndsWith(part, c)
    ensures part == part[..|part| - 1] + [c]
  {}

  lemma ParsedPartSpells(part: string, i: u32) returns (plus: bool, z: nat)
    requires ParsePart(part) == Ok(i)
    ensures Spells(part, i, plus, z)
  {
    if EndsWith(part, '\'') {
      plus, z := UnsignedSpells(part[..|part| - 1]);
      EndsSplit(part, '\'');
      Associate(Head(plus, z), Decimal(i - HARDENED), "'");
    } else {
      plus, z := UnsignedSpells(part);
    }
  }

  /** A part parses to i if and only if it spells i. */
  lemma ParsePartIff(part: string, i: u32)
    ensures ParsePart(part) == Ok(i) <==> exists plus, z :: Spells(part, i, plus, z)
  {
    if ParsePart(part) == Ok(i) {
      var plus, z := ParsedPartSpells(part, i);
    }
    forall plus, z | Spells(part, i, plus, z) ensures ParsePart(part) == Ok(i) {
      SpelledPartParses(part, i, plus, z);
    }
  }

  /** `split('/')`. */
  function Split(s: string): (parts: seq<string>)
    ensures parts != []
    decreases |s|
  {
    if s == "" then [""]
    else
      var front, c := Split(s[..|s| - 1]), s[|s| - 1];
      if c == '/' then front + [""] else front[..|front| - 1] + [front[|front| - 1] + [c]]
  }

  function Join(parts: seq<string>): string
    requires parts != []
  {
    if |parts| == 1 then parts[0] else Join(parts[..|parts| - 1]) + "/" + parts[|parts| - 1]
  }

  predicate NoSlash(s: string) {
    forall i :: 0 <= i < |s| ==> s[i] != '/'
  }

  /** A slash-free tail joins the last part. */
  lemma {:induction false} SplitTail(s: string, t: string)
    requires NoSlash(t)
    ensures var ps := Split(s); Split(s + t) == ps[..|ps| - 1] + [ps[|ps| - 1] + t]
    decreases |t|
  {
    var ps := Split(s);
    if t == "" {
      assert s + t == s && ps[|ps| - 1] + t == ps[|ps| - 1];
    } else {
      var front, c := t[..|t| - 1], t[|t| - 1];
      SplitTail(s, front);
      assert (s + t)[..|s + t| - 1] == s + front && (s + t)[|s + t| - 1] == c;
      assert ps[|ps| - 1] + t == ps[|ps| - 1] + front + [c];
    }
  }

  lemma SplitSlash(s: string)
    ensures Split(s + "/") == Split(s) + [""]
  {}

  lemma SplitStep(s: string, front: seq<string>, last: string)
    requires Split(s) == front && NoSlash(last)
    ensures Split(s + "/" + last) == front + [last]
  {
    SplitSlash(s);
    SplitTail(s + "/", last);
    assert "" + last == last;
  }

  lemma SplitOne(s: string)
    requires NoSlash(s)
    ensures Split(s) == [s]
  {
    SplitTail("", s);
    assert "" + s == s;
  }

  predicate SlashFree(parts: seq<string>) {
    forall i :: 0 <= i < |parts| ==> NoSlash(parts[i])
  }

  lemma SlashFreeParts(parts: seq<string>)
    requires parts != [] && SlashFree(parts)
    ensures SlashFree(parts[..|parts| - 1]) && NoSlash(parts[|parts| - 1])
  {}

  lemma {:induction false} SplitJoin(parts: seq<string>)
    requires parts != [] && SlashFree(parts)
    ensures Split(Join(parts)) == parts
    decreases |parts|
  {
    SlashFreeParts(parts);
    if |parts| == 1 {
      SplitOne(parts[0]);
    } else {
      var front, last := parts[..|parts| - 1], parts[|parts| - 1];
      SplitJoin(front);
      SplitStep(Join(front), front, last);
      assert parts == front + [last];
    }
  }

  /** The indices of the parts, or the error of the first bad one. */
  function ParseParts(parts: seq<string>): Result<seq<u32>> {
    if parts == [] then Ok([])
    else
      var front := ParseParts(parts[..|parts| - 1]);
      if front.Err? then front
      else match ParsePart(parts[|parts| - 1])
        case Ok(i) => Ok(front.value + [i])
        case Err(e) => Err(e)
  }

  predicate StartsWithM(path: string) {
    |path| >= 2 && path[..2] == "m/"
  }

  function ParsePath(path: string): Result<seq<u32>> {
    if !StartsWithM(path) then Err(NoPrefix) else ParseParts(Split(path[2..]))
  }

  function PrintParts(indices: seq<u32>): (parts: seq<string>)
    ensures |parts| == |indices|
    ensures forall k :: 0 <= k < |indices| ==> parts[k] == PrintIndex(indices[k])
  {
    seq(|indices|, k requires 0 <= k < |indices| => PrintIndex(indices[k]))
  }

  function PrintPath(indices: seq<u32>): string
    requires indices != []
  {
    "m/" + Join(PrintParts(indices))
  }

  lemma ParseSnoc(front: seq<string>, indices: seq<u32>, part: string, i: u32)
    requires ParseParts(front) == Ok(indices) && ParsePart(part) == Ok(i)
    ensures ParseParts(front + [part]) == Ok(indices + [i])
  {}

  lemma PrintSnoc(front: seq<u32>, i: u32)
    ensures PrintParts(front + [i]) == PrintParts(front) + [PrintIndex(i)]
  {}

  lemma ParsePrintSnoc(front: seq<u32>, i: u32)
    requires ParseParts(PrintParts(front)) == Ok(front)
    ensures ParseParts(PrintParts(front + [i])) == Ok(front + [i])
  {
    ParsePrintIndex(i);
    ParseSnoc(PrintParts(front), front, PrintIndex(i), i);
    PrintSnoc(front, i);
  }

  lemma SplitLast(s: seq<u32>)
    requires s != []
    ensures s == s[..|s| - 1] + [s[|s| - 1]]
  {}

  lemma {:induction false} ParsePrintParts(indices: seq<u32>)
    ensures ParseParts(PrintParts(indices)) == Ok(indices)
    decreases |indices|
  {
    if indices != [] {
      ParsePrintParts(indices[..|indices| - 1]);
      ParsePrintSnoc(indices[..|indices| - 1], indices[|indices| - 1]);
      SplitLast(indices);
    }
  }

  lemma PrintNoSlash(i: u32)
    ensures NoSlash(PrintIndex(i))
  {}

  /** Parsing the canonical printing of any non-empty index list returns the list. */
  lemma ParsePrint(indices: seq<u32>)
    requires indices != []
    ensures ParsePath(PrintPath(indices)) == Ok(indices)
  {
    var parts := PrintParts(indices);
    forall k | 0 <= k < |parts| ensures NoSlash(parts[k]) {
      PrintNoSlash(indices[k]);
    }
    SplitJoin(parts);
    assert PrintPath(indices)[2..] == Join(parts);
    ParsePrintParts(indices);
  }

  lemma PartParsed(parts: seq<string>, k: nat, indices: seq<u32>, i: u32)
    requires k < |parts| && ParseParts(parts[..k]) == Ok(indices) && ParsePart(parts[k]) == Ok(i)
    ensures ParseParts(parts[..k + 1]) == Ok(indices + [i])
  {
    ParseSnoc(parts[..k], indices, parts[k], i);
    assert parts[..k + 1] == parts[..k] + [parts[k]];
  }

  lemma PartRefused(parts: seq<string>, k: nat, e: PathError)
    requires k < |parts| && ParseParts(parts[..k]).Ok? && ParsePart(parts[k]) == Err(e)
    ensures ParseParts(parts) == Err(e)
  {
    assert parts[..k + 1][..k] == parts[..k];
    ErrorStays(parts, k + 1);
  }

  /** Which error a refused part gives: the number of a hardened part is 2^31 or more, or there
      is no number below 2^32 at all. */
  lemma PartErrorIff(part: string)
    ensures ParsePart(part) == Err(HardenedOverflow(part)) <==>
      exists plus, z, n: u32 :: n >= 0x8000_0000 && part == Head(plus, z) + Decimal(n) + "'"
    ensures ParsePart(part).Err? ==> ParsePart(part).error in {HardenedOverflow(part), InvalidIndex(part)}
  {
    if ParsePart(part) == Err(HardenedOverflow(part)) {
      var plus, z := UnsignedSpells(part[..|part| - 1]);
      EndsSplit(part, '\'');
      assert part == Head(plus, z) + Decimal(ParseU32(part[..|part| - 1]).value) + "'";
    }
    forall plus, z, n: u32 | n >= 0x8000_0000 && part == Head(plus, z) + Decimal(n) + "'"
      ensures ParsePart(part) == Err(HardenedOverflow(part))
    {
      SpelledParses(plus, z, n);
      assert part[..|part| - 1] == Head(plus, z) + Decimal(n);
    }
  }

  lemma JoinedParses(parts: seq<string>)
    requires parts != [] && SlashFree(parts)
    ensures ParsePath("m/" + Join(parts)) == ParseParts(parts)
  {
    SplitJoin(parts);
    assert ("m/" + Join(parts))[2..] == Join(parts);
  }

  lemma AllPartsParse(parts: seq<string>)
    requires forall i :: 0 <= i < |parts| ==> ParsePart(parts[i]).Ok?
    ensures ParseParts(parts).Ok?
  {
    PartsParse(parts, |parts|);
    assert parts[..|parts|] == parts;
  }

  /** A path whose parts all parse is accepted; otherwise the error is that of the first bad
      part. */
  lemma FirstErrorIff(parts: seq<string>, k: nat)
    requires parts != [] && SlashFree(parts) && k <= |parts|
    requires forall i :: 0 <= i < k ==> ParsePart(parts[i]).Ok?
    ensures k == |parts| ==> ParsePath("m/" + Join(parts)).Ok?
    ensures k < |parts| && ParsePart(parts[k]).Err? ==>
      ParsePath("m/" + Join(parts)) == Err(ParsePart(parts[k]).error)
  {
    JoinedParses(parts);
    if k == |parts| {
      AllPartsParse(parts);
    } else if ParsePart(parts[k]).Err? {
      PartsParse(parts, k);
      PartRefused(parts, k, ParsePart(parts[k]).error);
    }
  }

  lemma {:induction false} PartsParse(parts: seq<string>, k: nat)
    requires k <= |parts| && forall i :: 0 <= i < k ==> ParsePart(parts[i]).Ok?
    ensures ParseParts(parts[..k]).Ok?
    decreases k
  {
    if k > 0 {
      PartsParse(parts, k - 1);
      assert parts[..k][..k - 1] == parts[..k - 1];
    }
  }

  lemma PrefixNeeded(path: string)
    ensures ParsePath(path) == Err(NoPrefix) <==> |path| < 2 || path[0] != 'm' || path[1] != '/'
  {
    if StartsWithM(path) {
      NoPartMissesPrefix(Split(path[2..]));
      assert path[0] == path[..2][0] && path[1] == path[..2][1];
    }
  }

  lemma {:induction false} NoPartMissesPrefix(parts: seq<string>)
    ensures ParseParts(parts) != Err(NoPrefix)
    decreases |parts|
  {
    if parts != [] { NoPartMissesPrefix(parts[..|parts| - 1]); }
  }

  /** `parse_derivation_path`. */
  method ParseDerivationPath(path: string) returns (r: Result<seq<u32>>)
    ensures r == ParsePath(path)
  {
    if !StartsWithM(path) {
      return Err(NoPrefix);
    }
    var parts := Split(path[2..]);
    var indices: seq<u32> := [];
    for k := 0 to |parts|
      invariant ParseParts(parts[..k]) == Ok(indices)
    {
      var part := parts[k];
      var hardened := EndsWith(part, '\'');
      var numStr := if hardened then part[..|part| - 1] else part;
      var num := ParseU32(numStr);
      if num.None? {
        PartRefused(parts, k, InvalidIndex(part));
        return Err(InvalidIndex(part));
      }
      var index: u32 := num.value;
      if hardened {
        if num.value >= HARDENED {
          PartRefused(parts, k, HardenedOverflow(part));
          return Err(HardenedOverflow(part));
        }
        index := num.value + HARDENED;
      }
      PartParsed(parts, k, indices, index);
      indices := indices + [index];
    }
    assert parts[..|parts|] == parts;
    r := Ok(indices);
  }

  lemma {:induction false} ErrorStays(parts: seq<string>, k: nat)
    requires k <= |parts| && ParseParts(parts[..k]).Err?
    ensures ParseParts(parts) == ParseParts(parts[..k])
    decreases |parts|
  {
    if k < |parts| {
      assert parts[..|parts| - 1][..k] == parts[..k];
      ErrorStays(parts[..|parts| - 1], k);
    } else {
      assert parts[..k] == parts;
    }
  }

  // ------------------------------------------------------------------
  // Derivation
  // ------------------------------------------------------------------

  type Mac = m: seq<byte> | |m| == 64 witness seq(64, _ => 0)
  type Seed = s: seq<byte> | |s| == 64 witness seq(64, _ => 0)

  /** HMAC-SHA512 of a key and a message, and the Ed25519 public key of a secret. */
  datatype Primitives = Primitives(hmac: (seq<byte>, seq<byte>) -> Mac, public: Key32 -> Key32)

  /** A secret key and its chain code. */
  datatype Node = Node(sk: Key32, cc: Key32)

  datatype Keypair = Keypair(signing: Key32, verifying: Key32, chainCode: Key32)

  function Halves(m: Mac): Node {
    Node(m[..32], m[32..])
  }

  function Master(c: Primitives, seed: Seed): Node {
    Halves(c.hmac(SeedKey(), seed))
  }

  /** The ASCII bytes of "ed25519 seed". */
  function SeedKey(): seq<byte> {
    [101, 100, 50, 53, 53, 49, 57, 32, 115, 101, 101, 100]
  }

  /** `derive_child_key`: the private parent to private child step of SLIP-0010, hardened or not. */
  function Child(c: Primitives, n: Node, index: u32): Node {
    Halves(c.hmac(n.cc, [0] + n.sk + Encode(index, 4)))
  }

  function Along(c: Primitives, n: Node, indices: seq<u32>): Node {
    if indices == [] then n else Child(c, Along(c, n, indices[..|indices| - 1]), indices[|indices| - 1])
  }

  function KeypairOf(c: Primitives, n: Node): Keypair {
    Keypair(n.sk, c.public(n.sk), n.cc)
  }

  /** `derive_keypair_from_indices`. */
  method DeriveFromIndices(c: Primitives, seed: Seed, indices: seq<u32>) returns (k: Keypair)
    ensures k == KeypairOf(c, Along(c, Master(c, seed), indices))
  {
    var node := Master(c, seed);
    for i := 0 to |indices|
      invariant node == Along(c, Master(c, seed), indices[..i])
    {
      assert indices[..i + 1][..i] == indices[..i];
      node := Child(c, node, indices[i]);
    }
    assert indices[..|indices|] == indices;
    k := Keypair(node.sk, c.public(node.sk), node.cc);
  }

  const ZERO_PATH: string := "m/44'/0'/0'/0/0"
  const ZERO_INDICES: seq<u32> := [44 + HARDENED, HARDENED, HARDENED, 0, 0]

  /** What a path means: the master key for "m", else the key along its parsed indices. */
  function Meaning(c: Primitives, seed: Seed, path: string): Result<Keypair> {
    if path == "m" then Ok(KeypairOf(c, Master(c, seed)))
    else match ParsePath(path)
      case Ok(indices) => Ok(KeypairOf(c, Along(c, Master(c, seed), indices)))
      case Err(e) => Err(e)
  }

  lemma JoinFive(a: string, b: string, c: string, d: string, e: string)
    ensures Join([a, b, c, d, e]) == a + "/" + b + "/" + c + "/" + d + "/" + e
  {
    assert [a, b, c, d, e][..4] == [a, b, c, d] && [a, b, c, d][..3] == [a, b, c];
    assert [a, b, c][..2] == [a, b] && [a, b][..1] == [a];
    assert Join([a]) == a;
    assert Join([a, b]) == a + "/" + b;
    assert Join([a, b, c]) == a + "/" + b + "/" + c;
    assert Join([a, b, c, d]) == a + "/" + b + "/" + c + "/" + d;
  }

  lemma SmallDecimals()
    ensures Decimal(44) == "44" && Decimal(0) == "0"
  {}

  lemma ZeroParts()
    ensures PrintParts(ZERO_INDICES) == ["44'", "0'", "0'", "0", "0"]
  {
    SmallDecimals();
    assert PrintIndex(44 + HARDENED) == "44'";
    assert PrintIndex(HARDENED) == "0'";
  }

  lemma ZeroPathIs()
    ensures ZERO_PATH == "m/" + ("44'" + "/" + "0'" + "/" + "0'" + "/" + "0" + "/" + "0")
  {}

  /** The hard-coded path parses to the hard-coded indices. */
  lemma ZeroPathParses()
    ensures ParsePath(ZERO_PATH) == Ok(ZERO_INDICES)
  {
    ParsePrint(ZERO_INDICES);
    ZeroParts();
    JoinFive("44'", "0'", "0'", "0", "0");
    ZeroPathIs();
  }

  /** `derive_keypair`, whose special cases change nothing. */
  method DeriveKeypair(c: Primitives, seed: Seed, path: string) returns (r: Result<Keypair>)
    ensures r == Meaning(c, seed, path)
  {
    if path != ZERO_PATH && path != "m" {
      var parsed := ParseDerivationPath(path);
      if parsed.Err? {
        return Err(parsed.error);
      }
      var k := DeriveFromIndices(c, seed, parsed.value);
      return Ok(k);
    }
    if path == "m" {
      var master := Master(c, seed);
      return Ok(Keypair(master.sk, c.public(master.sk), master.cc));
    }
    ZeroPathParses();
    var k := DeriveFromIndices(c, seed, ZERO_INDICES);
    r := Ok(k);
  }

  /** Deriving along a concatenation is deriving in two stages. */
  lemma {:induction false} AlongConcat(c: Primitives, n: Node, xs: seq<u32>, ys: seq<u32>)
    ensures Along(c, n, xs + ys) == Along(c, Along(c, n, xs), ys)
    decreases |ys|
  {
    if ys != [] {
      AlongConcat(c, n, xs, ys[..|ys| - 1]);
      assert (xs + ys)[..|xs + ys| - 1] == xs + ys[..|ys| - 1];
    } else {
      assert xs + ys == xs;
    }
  }

  /** On paths: the keypair of a printed path is reached from the node of any printed prefix
      of it by the remaining indices. */
  lemma PathExtends(c: Primitives, seed: Seed, xs: seq<u32>, ys: seq<u32>)
    requires xs != []
    ensures Meaning(c, seed, PrintPath(xs)).Ok?
    ensures var k := Meaning(c, seed, PrintPath(xs)).value;
      Meaning(c, seed, PrintPath(xs + ys)) == Ok(KeypairOf(c, Along(c, Node(k.signing, k.chainCode), ys)))
  {
    ParsePrint(xs);
    ParsePrint(xs + ys);
    AlongConcat(c, Master(c, seed), xs, ys);
  }
}
