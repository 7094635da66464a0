/**
 The eight-level hash accumulator behind the revocation and note roots. The two-to-one
 hash on field elements is the parameter `hash2`.
 */
module Accumulator {
  import opened Common
  import opened Numerals

  type Hash2 = (nat, nat) -> nat

  const DEPTH := 8

  /** BN254's scalar field, where the circuit's hash lives. */
  const FIELD_ORDER: nat := 0x30644e72_e131a029_b85045b6_8181585d_2833e848_79b97091_43e1f593_f0000001

  /** The hash yields field elements. */
  ghost predicate YieldsField(hash2: Hash2) {
    forall a: nat, b: nat :: hash2(a, b) < FIELD_ORDER
  }

  /** `0x` and the last 64 hexadecimal digits, padded with zeros. */
  function FieldToBytes32Hex(n: nat): string {
    var h := Hex(n);
    "0x" + PadStart(if |h| > 64 then h[|h| - 64..] else h, 64)
  }

  function Accumulate(hash2: Hash2, acc: nat, leaves: seq<nat>): nat {
    if leaves == [] then acc
    else hash2(Accumulate(hash2, acc, leaves[..|leaves| - 1]), leaves[|leaves| - 1])
  }

  /** The first eight entries, filled up with zeros. */
  function Padded(leaves: seq<nat>): (p: seq<nat>)
    ensures |p| == DEPTH && forall i | 0 <= i < DEPTH :: p[i] == if i < |leaves| then leaves[i] else 0
  {
    seq(DEPTH, i requires 0 <= i < DEPTH => if i < |leaves| then leaves[i] else 0)
  }

  function RootOf(hash2: Hash2, leaves: seq<nat>): string {
    FieldToBytes32Hex(Accumulate(hash2, 0, Padded(leaves)))
  }

  /** The circuit's fold over the path siblings. */
  method ComputeRevocationRootFromSiblings(hash2: Hash2, siblings: seq<nat>) returns (root: string)
    ensures root == RootOf(hash2, siblings)
  {
    var padded := Padded(siblings);
    var acc := 0;
    for i := 0 to DEPTH
      invariant acc == Accumulate(hash2, 0, padded[..i])
    {
      var sib := if i < |siblings| then siblings[i] else 0;
      assert padded[..i + 1][..i] == padded[..i];
      acc := hash2(acc, sib);
    }
    assert padded[..DEPTH] == padded;
    return FieldToBytes32Hex(acc);
  }

  /** The note root: the same accumulator over leaves padded to eight. */
  method ComputeNoteRootFromLeaves(hash2: Hash2, leaves: seq<nat>) returns (root: string)
    ensures root == RootOf(hash2, leaves)
  {
    var padded := leaves;
    while |padded| < DEPTH
      invariant |padded| <= DEPTH || padded == leaves
      invariant forall i | 0 <= i < |padded| :: padded[i] == if i < |leaves| then leaves[i] else 0
      invariant |leaves| <= |padded|
    {
      padded := padded + [0];
    }
    var acc := 0;
    for i := 0 to DEPTH
      invariant acc == Accumulate(hash2, 0, padded[..i])
    {
      assert padded[..i + 1][..i] == padded[..i];
      acc := hash2(acc, padded[i]);
    }
    assert padded[..DEPTH] == Padded(leaves);
    return FieldToBytes32Hex(acc);
  }

  lemma AccumulateSnoc(hash2: Hash2, acc: nat, front: seq<nat>, leaf: nat)
    ensures Accumulate(hash2, acc, front + [leaf]) == hash2(Accumulate(hash2, acc, front), leaf)
  {
    assert (front + [leaf])[..|front|] == front;
  }

  /** Eight leaves are hashed one after the other onto zero; a longer list is cut, a shorter one filled up with zero. */
  lemma {:induction false} RootIsEightSteps(hash2: Hash2, l: seq<nat>)
    ensures |l| == 8 ==>
              var h := (acc: nat, i: nat) requires i < 8 => hash2(acc, l[i]);
              RootOf(hash2, l) == FieldToBytes32Hex(h(h(h(h(h(h(h(h(0, 0), 1), 2), 3), 4), 5), 6), 7))
    ensures |l| < 8 ==> RootOf(hash2, l) == RootOf(hash2, l + [0])
    ensures |l| > 8 ==> RootOf(hash2, l) == RootOf(hash2, l[..8])
  {
    if |l| == 8 {
      var p := Padded(l);
      assert p == [] + [l[0]] + [l[1]] + [l[2]] + [l[3]] + [l[4]] + [l[5]] + [l[6]] + [l[7]];
      AccumulateSnoc(hash2, 0, [], l[0]);
      AccumulateSnoc(hash2, 0, [] + [l[0]], l[1]);
      AccumulateSnoc(hash2, 0, [] + [l[0]] + [l[1]], l[2]);
      AccumulateSnoc(hash2, 0, [] + [l[0]] + [l[1]] + [l[2]], l[3]);
      AccumulateSnoc(hash2, 0, [] + [l[0]] + [l[1]] + [l[2]] + [l[3]], l[4]);
      AccumulateSnoc(hash2, 0, [] + [l[0]] + [l[1]] + [l[2]] + [l[3]] + [l[4]], l[5]);
      AccumulateSnoc(hash2, 0, [] + [l[0]] + [l[1]] + [l[2]] + [l[3]] + [l[4]] + [l[5]], l[6]);
      AccumulateSnoc(hash2, 0, [] + [l[0]] + [l[1]] + [l[2]] + [l[3]] + [l[4]] + [l[5]] + [l[6]], l[7]);
    } else if |l| < 8 {
      assert Padded(l) == Padded(l + [0]);
    } else {
      assert Padded(l) == Padded(l[..8]);
    }
  }

  /** What is hashed at step `i`. */
  function HashedAt(hash2: Hash2, leaves: seq<nat>, i: nat): (nat, nat)
    requires i < |leaves|
  {
    (Accumulate(hash2, 0, leaves[..i]), leaves[i])
  }

  predicate CollideAt(hash2: Hash2, a: seq<nat>, b: seq<nat>, i: nat)
    requires i < |a| == |b|
  {
    var (p, q) := (HashedAt(hash2, a, i), HashedAt(hash2, b, i));
    p != q && hash2(p.0, p.1) == hash2(q.0, q.1)
  }

  /** Accumulating two lists never hashes two different pairs to one value at the same step. */
  predicate CollisionFree(hash2: Hash2, a: seq<nat>, b: seq<nat>)
    requires |a| == |b|
  {
    forall i | 0 <= i < |a| :: !CollideAt(hash2, a, b, i)
  }

  /** Two different lists with one accumulated value exhibit a collision of the hash. */
  lemma {:induction false} EqualValuesCollide(hash2: Hash2, a: seq<nat>, b: seq<nat>) returns (i: nat)
    requires |a| == |b| && a != b && Accumulate(hash2, 0, a) == Accumulate(hash2, 0, b)
    ensures i < |a| && CollideAt(hash2, a, b, i)
  {
    var n := |a| - 1;
    i := n;
    if !CollideAt(hash2, a, b, n) {
      assert a == a[..n] + [a[n]] && b == b[..n] + [b[n]];
      i := EqualValuesCollide(hash2, a[..n], b[..n]);
      assert a[..n][..i] == a[..i] && b[..n][..i] == b[..i];
    }
  }

  lemma HexTextIsInjective(m: nat, n: nat)
    requires m < FIELD_ORDER && n < FIELD_ORDER && FieldToBytes32Hex(m) == FieldToBytes32Hex(n)
    ensures m == n
  {
    HexWidth(m, 64);
    HexWidth(n, 64);
    var a, b := PadStart(Hex(m), 64), PadStart(Hex(n), 64);
    assert a == ("0x" + a)[2..] == ("0x" + b)[2..] == b;
    PadKeepsHex(Hex(m), 64);
    PadKeepsHex(Hex(n), 64);
    ParseHexOfHex(m);
    ParseHexOfHex(n);
  }

  /** Equal roots come from equal lists, padded to eight, unless hashing the two exhibits a collision. */
  lemma {:induction false} RootsAreInjective(hash2: Hash2, a: seq<nat>, b: seq<nat>)
    requires YieldsField(hash2) && CollisionFree(hash2, Padded(a), Padded(b))
    ensures RootOf(hash2, a) == RootOf(hash2, b) <==> Padded(a) == Padded(b)
  {
    if RootOf(hash2, a) == RootOf(hash2, b) && Padded(a) != Padded(b) {
      HexTextIsInjective(Accumulate(hash2, 0, Padded(a)), Accumulate(hash2, 0, Padded(b)));
      var i := EqualValuesCollide(hash2, Padded(a), Padded(b));
    }
  }
}
