/** The tree of derived keys: which paths lead to which keys, and what each step hashes. */
module DerivationTree {
  import opened Bytes
  import opened BigEndian
  import opened Fields
  import opened DerivationPath

  // ------------------------------------------------------------------
  // What is authenticated
  // ------------------------------------------------------------------

  datatype MacInput = MacInput(key: seq<byte>, message: seq<byte>)

  function MasterInput(seed: Seed): MacInput { MacInput(SeedKey(), seed) }

  function ChildInput(n: Node, index: u32): MacInput {
    MacInput(n.cc, [0] + n.sk + Encode(index, 4))
  }

  function MacOf(c: Primitives, x: MacInput): Mac { c.hmac(x.key, x.message) }

  /** Everything authenticated on the way along a path. */
  function PathInputs(c: Primitives, seed: Seed, indices: seq<u32>): set<MacInput> {
    if indices == [] then {MasterInput(seed)}
    else
      var front, index := indices[..|indices| - 1], indices[|indices| - 1];
      PathInputs(c, seed, front) + {ChildInput(Along(c, Master(c, seed), front), index)}
  }

  /** HMAC-SHA512 merges no two of these inputs. */
  ghost predicate MacSeparates(c: Primitives, inputs: set<MacInput>) {
    forall x, y {:trigger x in inputs, y in inputs} ::
      x in inputs && y in inputs && MacOf(c, x) == MacOf(c, y) ==> x == y
  }

  lemma HalvesIff(x: Mac, y: Mac)
    ensures Halves(x) == Halves(y) <==> x == y
  {
    assert x == x[..32] + x[32..] && y == y[..32] + y[32..];
  }

  lemma ChildInputsIff(n: Node, i: u32, m: Node, j: u32)
    ensures ChildInput(n, i) == ChildInput(m, j) <==> n == m && i == j
  {
    var x, y := ChildInput(n, i).message, ChildInput(m, j).message;
    assert x[1..33] == n.sk && y[1..33] == m.sk;
    assert x[33..] == Encode(i, 4) && y[33..] == Encode(j, 4);
    EncodeTells(i, j);
  }

  lemma EqualMacs(c: Primitives, inputs: set<MacInput>, x: MacInput, y: MacInput)
    requires MacSeparates(c, inputs) && x in inputs && y in inputs
    ensures Halves(MacOf(c, x)) == Halves(MacOf(c, y)) <==> x == y
  {
    HalvesIff(MacOf(c, x), MacOf(c, y));
  }

  // ------------------------------------------------------------------
  // When nodes are equal
  // ------------------------------------------------------------------

  /** Two children are equal exactly when their parents and their indices are. */
  lemma ChildrenIff(c: Primitives, inputs: set<MacInput>, n: Node, i: u32, m: Node, j: u32)
    requires MacSeparates(c, inputs) && ChildInput(n, i) in inputs && ChildInput(m, j) in inputs
    ensures Child(c, n, i) == Child(c, m, j) <==> n == m && i == j
  {
    EqualMacs(c, inputs, ChildInput(n, i), ChildInput(m, j));
    ChildInputsIff(n, i, m, j);
  }

  lemma MastersIff(c: Primitives, inputs: set<MacInput>, s: Seed, t: Seed)
    requires MacSeparates(c, inputs) && MasterInput(s) in inputs && MasterInput(t) in inputs
    ensures Master(c, s) == Master(c, t) <==> s == t
  {
    EqualMacs(c, inputs, MasterInput(s), MasterInput(t));
  }

  lemma MasterIsNoChild(c: Primitives, inputs: set<MacInput>, s: Seed, n: Node, i: u32)
    requires MacSeparates(c, inputs) && MasterInput(s) in inputs && ChildInput(n, i) in inputs
    ensures Master(c, s) != Child(c, n, i)
  {
    EqualMacs(c, inputs, MasterInput(s), ChildInput(n, i));
    assert |SeedKey()| == 12;
  }

  /** The nodes along a path, the master first. */
  function Nodes(c: Primitives, seed: Seed, indices: seq<u32>): (nodes: seq<Node>)
    ensures |nodes| == |indices| + 1
    ensures forall k :: 0 <= k <= |indices| ==> nodes[k] == Along(c, Master(c, seed), indices[..k])
  {
    seq(|indices| + 1, k requires 0 <= k <= |indices| => Along(c, Master(c, seed), indices[..k]))
  }

  lemma NodesStep(c: Primitives, seed: Seed, indices: seq<u32>, k: nat)
    requires k < |indices|
    ensures Nodes(c, seed, indices)[k + 1] == Child(c, Nodes(c, seed, indices)[k], indices[k])
  {
    assert indices[..k + 1][..k] == indices[..k];
  }

  lemma {:induction false} InputsAlong(c: Primitives, seed: Seed, indices: seq<u32>, k: nat)
    requires k <= |indices|
    ensures MasterInput(seed) in PathInputs(c, seed, indices)
    ensures k < |indices| ==> ChildInput(Nodes(c, seed, indices)[k], indices[k]) in PathInputs(c, seed, indices)
    decreases |indices|
  {
    if indices != [] {
      var front := indices[..|indices| - 1];
      InputsAlong(c, seed, front, if k < |front| then k else 0);
      if k < |front| { assert front[..k] == indices[..k]; }
    }
  }

  /** Two walks in which equal nodes were reached by the same index from equal nodes, and no
      first node recurs. */
  predicate StepsBack(s: seq<Node>, xs: seq<u32>, t: seq<Node>, ys: seq<u32>)
    requires |s| == |xs| + 1 && |t| == |ys| + 1
  {
    forall i, j :: 0 <= i < |s| && 0 <= j < |t| && s[i] == t[j] ==>
      (i == 0 <==> j == 0) && (i > 0 && j > 0 ==> s[i - 1] == t[j - 1] && xs[i - 1] == ys[j - 1])
  }

  /** Such walks meet only after the same indices. */
  lemma {:induction false} MeetInStep(s: seq<Node>, xs: seq<u32>, t: seq<Node>, ys: seq<u32>, n: nat, m: nat)
    requires |s| == |xs| + 1 && |t| == |ys| + 1 && StepsBack(s, xs, t, ys)
    requires n < |s| && m < |t| && s[n] == t[m]
    ensures n == m && s[0] == t[0] && xs[..n] == ys[..m]
    decreases n
  {
    if n > 0 && m > 0 {
      MeetInStep(s, xs, t, ys, n - 1, m - 1);
      assert xs[..n] == xs[..n - 1] + [xs[n - 1]] && ys[..m] == ys[..m - 1] + [ys[m - 1]];
    }
  }

  lemma ReachedBy(c: Primitives, inputs: set<MacInput>, seed: Seed, indices: seq<u32>, k: nat)
    requires PathInputs(c, seed, indices) <= inputs && 0 < k <= |indices|
    ensures var v := Nodes(c, seed, indices);
      v[k] == Child(c, v[k - 1], indices[k - 1]) && ChildInput(v[k - 1], indices[k - 1]) in inputs
  {
    InputsAlong(c, seed, indices, k - 1);
    NodesStep(c, seed, indices, k - 1);
  }

  lemma StartsAt(c: Primitives, inputs: set<MacInput>, seed: Seed, indices: seq<u32>)
    requires PathInputs(c, seed, indices) <= inputs
    ensures Nodes(c, seed, indices)[0] == Master(c, seed) && MasterInput(seed) in inputs
  {
    InputsAlong(c, seed, indices, 0);
  }

  lemma NodesMeet(c: Primitives, inputs: set<MacInput>, s: Seed, xs: seq<u32>, i: nat, t: Seed, ys: seq<u32>, j: nat)
    requires MacSeparates(c, inputs) && PathInputs(c, s, xs) <= inputs && PathInputs(c, t, ys) <= inputs
    requires i <= |xs| && j <= |ys| && Nodes(c, s, xs)[i] == Nodes(c, t, ys)[j]
    ensures i == 0 <==> j == 0
    ensures i > 0 && j > 0 ==> Nodes(c, s, xs)[i - 1] == Nodes(c, t, ys)[j - 1] && xs[i - 1] == ys[j - 1]
  {
    var v, w := Nodes(c, s, xs), Nodes(c, t, ys);
    if i > 0 { ReachedBy(c, inputs, s, xs, i); } else { StartsAt(c, inputs, s, xs); }
    if j > 0 { ReachedBy(c, inputs, t, ys, j); } else { StartsAt(c, inputs, t, ys); }
    if i > 0 && j > 0 {
      ChildrenIff(c, inputs, v[i - 1], xs[i - 1], w[j - 1], ys[j - 1]);
    } else if i > 0 {
      MasterIsNoChild(c, inputs, t, v[i - 1], xs[i - 1]);
    } else if j > 0 {
      MasterIsNoChild(c, inputs, s, w[j - 1], ys[j - 1]);
    }
  }

  lemma NodesStepBack(c: Primitives, inputs: set<MacInput>, s: Seed, xs: seq<u32>, t: Seed, ys: seq<u32>)
    requires MacSeparates(c, inputs) && PathInputs(c, s, xs) <= inputs && PathInputs(c, t, ys) <= inputs
    ensures StepsBack(Nodes(c, s, xs), xs, Nodes(c, t, ys), ys)
  {
    var v, w := Nodes(c, s, xs), Nodes(c, t, ys);
    forall i, j | 0 <= i < |v| && 0 <= j < |w| && v[i] == w[j]
      ensures (i == 0 <==> j == 0) && (i > 0 && j > 0 ==> v[i - 1] == w[j - 1] && xs[i - 1] == ys[j - 1])
    {
      NodesMeet(c, inputs, s, xs, i, t, ys, j);
    }
  }

  /** Two walks from two seeds end in the same node exactly when the seeds and the whole index
      lists are equal, whatever their lengths. */
  lemma NodesIff(c: Primitives, inputs: set<MacInput>, s: Seed, xs: seq<u32>, t: Seed, ys: seq<u32>)
    requires MacSeparates(c, inputs) && PathInputs(c, s, xs) <= inputs && PathInputs(c, t, ys) <= inputs
    ensures Along(c, Master(c, s), xs) == Along(c, Master(c, t), ys) <==> s == t && xs == ys
  {
    var v, w := Nodes(c, s, xs), Nodes(c, t, ys);
    assert xs[..|xs|] == xs && ys[..|ys|] == ys;
    if v[|xs|] == w[|ys|] {
      NodesStepBack(c, inputs, s, xs, t, ys);
      MeetInStep(v, xs, w, ys, |xs|, |ys|);
      InputsAlong(c, s, xs, 0);
      InputsAlong(c, t, ys, 0);
      MastersIff(c, inputs, s, t);
    }
  }

  // ------------------------------------------------------------------
  // Paths and keypairs
  // ------------------------------------------------------------------

  /** The indices a path stands for, "m" for none. */
  function IndicesOf(path: string): Result<seq<u32>> {
    if path == "m" then Ok([]) else ParsePath(path)
  }

  lemma KeypairsIff(c: Primitives, n: Node, m: Node)
    ensures KeypairOf(c, n) == KeypairOf(c, m) <==> n == m
  {}

  lemma MeaningAlong(c: Primitives, seed: Seed, path: string)
    ensures Meaning(c, seed, path) == match IndicesOf(path)
      case Ok(indices) => Ok(KeypairOf(c, Along(c, Master(c, seed), indices)))
      case Err(e) => Err(e)
  {}

  /** Two accepted paths, however they are spelled, give the same keypair exactly when the
      seeds are equal and the paths stand for the same indices. */
  lemma SameKeypairIff(c: Primitives, inputs: set<MacInput>, s: Seed, p: string, t: Seed, q: string)
    requires IndicesOf(p).Ok? && IndicesOf(q).Ok? && MacSeparates(c, inputs)
    requires PathInputs(c, s, IndicesOf(p).value) + PathInputs(c, t, IndicesOf(q).value) <= inputs
    ensures Meaning(c, s, p) == Meaning(c, t, q) <==> s == t && IndicesOf(p) == IndicesOf(q)
  {
    var xs, ys := IndicesOf(p).value, IndicesOf(q).value;
    MeaningAlong(c, s, p);
    MeaningAlong(c, t, q);
    NodesIff(c, inputs, s, xs, t, ys);
    KeypairsIff(c, Along(c, Master(c, s), xs), Along(c, Master(c, t), ys));
  }

  /** Two printed paths give the same keypair exactly when the index lists are equal. */
  lemma PrintedPathsIff(c: Primitives, inputs: set<MacInput>, seed: Seed, xs: seq<u32>, ys: seq<u32>)
    requires xs != [] && ys != [] && MacSeparates(c, inputs)
    requires PathInputs(c, seed, xs) + PathInputs(c, seed, ys) <= inputs
    ensures Meaning(c, seed, PrintPath(xs)) == Meaning(c, seed, PrintPath(ys)) <==> xs == ys
  {
    ParsePrint(xs);
    ParsePrint(ys);
    SameKeypairIff(c, inputs, seed, PrintPath(xs), seed, PrintPath(ys));
  }

  lemma HalvesJoin(m: Mac)
    ensures Halves(m).sk + Halves(m).cc == m
  {}

  /** SLIP-0010 on keypairs: the master key and chain code are the MAC of the seed, and each
      further index gives the MAC, under the chain code, of the secret key and that index. */
  lemma {:induction false} EachStepMacs(c: Primitives, seed: Seed, xs: seq<u32>, index: u32)
    ensures var k := Meaning(c, seed, "m");
      k.Ok? && k.value.signing + k.value.chainCode == c.hmac(SeedKey(), seed)
      && k.value.verifying == c.public(k.value.signing)
    ensures var p := if xs == [] then "m" else PrintPath(xs);
      var k, j := Meaning(c, seed, p), Meaning(c, seed, PrintPath(xs + [index]));
      && k.Ok? && j.Ok?
      && j.value.signing + j.value.chainCode == c.hmac(k.value.chainCode, [0] + k.value.signing + Encode(index, 4))
      && j.value.verifying == c.public(j.value.signing)
  {
    var ys := xs + [index];
    if xs != [] { ParsePrint(xs); }
    ParsePrint(ys);
    assert ys[..|ys| - 1] == xs;
    var n := Along(c, Master(c, seed), xs);
    HalvesJoin(c.hmac(SeedKey(), seed));
    HalvesJoin(c.hmac(n.cc, [0] + n.sk + Encode(index, 4)));
  }

  // ------------------------------------------------------------------
  // An instance
  // ------------------------------------------------------------------

  /** A MAC that keeps the last eight indices in the secret key, and the depth and the first 31
      bytes of the seed in the chain code. */
  function ToyMac(key: seq<byte>, message: seq<byte>): Mac {
    if |message| == 64 then seq(33, _ => 0) + message[..31]
    else if |key| == 32 && |message| == 37 then message[5..] + [if key[0] < 8 then key[0] + 1 else 0] + key[1..]
    else seq(64, _ => 0)
  }

  function Toy(): Primitives {
    Primitives((key: seq<byte>, message: seq<byte>) => ToyMac(key, message), (sk: Key32) => sk)
  }

  predicate ZerosIn(s: seq<byte>, lo: nat, hi: nat)
    requires hi <= |s|
  {
    forall i :: lo <= i < hi ==> s[i] == 0
  }

  /** A node of depth d up to eight has room for 8 - d more indices. */
  predicate Roomy(n: Node) {
    n.cc[0] <= 8 && ZerosIn(n.sk, 0, 32 - 4 * n.cc[0])
  }

  lemma ToyChild(n: Node, index: u32)
    requires n.cc[0] < 8
    ensures Child(Toy(), n, index) == Node(n.sk[4..] + Encode(index, 4), [n.cc[0] + 1] + n.cc[1..])
  {
    var x := ChildInput(n, index);
    assert x.message[5..] == n.sk[4..] + Encode(index, 4);
    var m := ToyMac(x.key, x.message);
    assert m[..32] == n.sk[4..] + Encode(index, 4);
    assert m[32..] == [n.cc[0] + 1] + n.cc[1..];
  }

  lemma ToyMaster(seed: Seed)
    ensures Master(Toy(), seed) == Node(seq(32, _ => 0), [0] + seed[..31])
  {
    var m := ToyMac(SeedKey(), seed);
    assert m[..32] == seq(32, _ => 0);
    assert m[32..] == [0] + seed[..31];
  }

  lemma {:induction false} ToyRoomy(seed: Seed, indices: seq<u32>)
    requires |indices| <= 8
    ensures var n := Along(Toy(), Master(Toy(), seed), indices);
      n.cc[0] == |indices| && Roomy(n)
    decreases |indices|
  {
    if indices == [] {
      ToyMaster(seed);
    } else {
      var front := indices[..|indices| - 1];
      ToyRoomy(seed, front);
      ToyChild(Along(Toy(), Master(Toy(), seed), front), indices[|indices| - 1]);
    }
  }

  /** The seeds this instance tells apart. */
  predicate ShortSeed(seed: Seed) { ZerosIn(seed, 31, 64) }

  ghost predicate IsToyInput(x: MacInput) {
    || (exists seed: Seed :: ShortSeed(seed) && x == MasterInput(seed))
    || (exists n: Node, index: u32 :: n.cc[0] < 8 && Roomy(n) && x == ChildInput(n, index))
  }

  lemma {:induction false} PathInputsToy(seed: Seed, indices: seq<u32>)
    requires |indices| <= 8 && ShortSeed(seed)
    ensures forall x :: x in PathInputs(Toy(), seed, indices) ==> IsToyInput(x)
    decreases |indices|
  {
    if indices != [] {
      var front := indices[..|indices| - 1];
      PathInputsToy(seed, front);
      ToyRoomy(seed, front);
    }
  }

  lemma ToyTellsSeeds(s: Seed, t: Seed)
    requires ShortSeed(s) && ShortSeed(t) && MacOf(Toy(), MasterInput(s)) == MacOf(Toy(), MasterInput(t))
    ensures s == t
  {
    ToyMaster(s);
    ToyMaster(t);
    assert ([0] + s[..31])[1..] == s[..31] && ([0] + t[..31])[1..] == t[..31];
    assert s == s[..31] + s[31..] && t == t[..31] + t[31..];
    assert s[31..] == t[31..];
  }

  lemma ToyTellsChildren(n: Node, i: u32, m: Node, j: u32)
    requires n.cc[0] < 8 && Roomy(n) && m.cc[0] < 8 && Roomy(m) && Child(Toy(), n, i) == Child(Toy(), m, j)
    ensures n == m && i == j
  {
    ToyChild(n, i);
    ToyChild(m, j);
    SameEnds(n.sk[4..], m.sk[4..], Encode(i, 4), Encode(j, 4));
    EncodeTells(i, j);
    assert n.sk == n.sk[..4] + n.sk[4..] && m.sk == m.sk[..4] + m.sk[4..];
    assert n.sk[..4] == m.sk[..4];
    SameEnds([n.cc[0] + 1], [m.cc[0] + 1], n.cc[1..], m.cc[1..]);
    assert [n.cc[0] + 1][0] == [m.cc[0] + 1][0];
    assert n.cc == [n.cc[0]] + n.cc[1..] && m.cc == [m.cc[0]] + m.cc[1..];
  }

  lemma ToyTellsDepth(s: Seed, n: Node, i: u32)
    requires n.cc[0] < 8
    ensures MacOf(Toy(), MasterInput(s)) != MacOf(Toy(), ChildInput(n, i))
  {
    ToyMaster(s);
    ToyChild(n, i);
    assert Halves(MacOf(Toy(), MasterInput(s))).cc[0] == 0;
    assert Halves(MacOf(Toy(), ChildInput(n, i))).cc[0] == n.cc[0] + 1;
  }

  lemma ToyTells(x: MacInput, y: MacInput)
    requires IsToyInput(x) && IsToyInput(y) && MacOf(Toy(), x) == MacOf(Toy(), y)
    ensures x == y
  {
    if s: Seed :| ShortSeed(s) && x == MasterInput(s) {
      if t: Seed :| ShortSeed(t) && y == MasterInput(t) {
        ToyTellsSeeds(s, t);
      } else {
        var m: Node, j: u32 :| m.cc[0] < 8 && Roomy(m) && y == ChildInput(m, j);
        ToyTellsDepth(s, m, j);
      }
    } else {
      var n: Node, i: u32 :| n.cc[0] < 8 && Roomy(n) && x == ChildInput(n, i);
      if t: Seed :| ShortSeed(t) && y == MasterInput(t) {
        ToyTellsDepth(t, n, i);
      } else {
        var m: Node, j: u32 :| m.cc[0] < 8 && Roomy(m) && y == ChildInput(m, j);
        ToyTellsChildren(n, i, m, j);
      }
    }
  }

  /** The MAC law holds of the inputs of any two paths of up to eight indices, from seeds that
      end in 33 zeros. */
  lemma MacLaw(s: Seed, xs: seq<u32>, t: Seed, ys: seq<u32>)
    requires |xs| <= 8 && |ys| <= 8 && ShortSeed(s) && ShortSeed(t)
    ensures MacSeparates(Toy(), PathInputs(Toy(), s, xs) + PathInputs(Toy(), t, ys))
  {
    PathInputsToy(s, xs);
    PathInputsToy(t, ys);
    var inputs := PathInputs(Toy(), s, xs) + PathInputs(Toy(), t, ys);
    forall x, y | x in inputs && y in inputs && MacOf(Toy(), x) == MacOf(Toy(), y) ensures x == y {
      ToyTells(x, y);
    }
  }
}
