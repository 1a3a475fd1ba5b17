/** app/steganography/pixel_permutation.py: the keyed order of the ciphertext positions. The
    library's `permutation` copies its argument and shuffles the copy in place, from the last
    place down, swapping each place with a drawn one not after it. */
module PixelPermutation {
  import opened Prelude
  import opened BitPacking
  import opened Primitives

  const DOMAIN: string := "steg-permutation-v1"

  function DomainBytes(): (d: Bytes)
    ensures |d| == |DOMAIN|
  {
    seq(|DOMAIN|, i requires 0 <= i < |DOMAIN| => (DOMAIN[i] as int % 256) as byte)
  }

  function SeedFromKey(suite: Suite, key: Bytes): nat {
    var digest := suite.sha256(DomainBytes() + key);
    FromBigEndian(if |digest| < 8 then digest else digest[..8])
  }

  /** The numbers a generator seeded once draws in the course of one shuffle, step by step. */
  function Draws(suite: Suite, seed: nat, total: nat): nat -> nat {
    i => suite.draw(seed, total, i)
  }

  /** The place that place `i` is swapped with: any place not after it. The generator draws within
      that bound; a number beyond it, which it never draws, is made to stand for the place itself. */
  function Drawn(draws: nat -> nat, i: nat): (j: nat)
    ensures j <= i
  {
    if draws(i) <= i then draws(i) else i
  }

  function Swap<T>(s: seq<T>, i: nat, j: nat): (t: seq<T>)
    requires i < |s| && j < |s|
    ensures |t| == |s|
  {
    s[i := s[j]][j := s[i]]
  }

  /** The swaps at places `i`, `i - 1`, ... down to 1, in this order. */
  function ShuffleDown<T>(draws: nat -> nat, s: seq<T>, i: nat): (t: seq<T>)
    requires i < |s| || i == 0
    ensures |t| == |s|
    decreases i
  {
    if i == 0 then s
    else ShuffleDown(draws, Swap(s, i, Drawn(draws, i)), i - 1)
  }

  function Last<T>(s: seq<T>): nat {
    if s == [] then 0 else |s| - 1
  }

  function Permuted<T>(suite: Suite, key: Bytes, positions: seq<T>): (order: seq<T>)
    ensures |order| == |positions|
  {
    ShuffleDown(Draws(suite, SeedFromKey(suite, key), |positions|), positions, Last(positions))
  }

  method PermutedPositions(suite: Suite, key: Bytes, positions: seq<nat>) returns (order: seq<nat>)
    ensures order == Permuted(suite, key, positions)
    ensures multiset(order) == multiset(positions)
  {
    var n := |positions|;
    var draws := Draws(suite, SeedFromKey(suite, key), n);
    var a := new nat[n](k requires 0 <= k < n => positions[k]);
    var i: nat := Last(positions);
    assert a[..] == positions;
    while i > 0
      invariant n > 0 ==> i < n
      invariant ShuffleDown(draws, a[..], i) == ShuffleDown(draws, positions, Last(positions))
    {
      var j := Drawn(draws, i);
      ghost var before := a[..];
      a[i], a[j] := a[j], a[i];
      assert a[..] == Swap(before, i, j);
      i := i - 1;
    }
    order := a[..];
    PermutedIsPermutation(suite, key, positions);
  }

  // ----- the shuffle is a permutation -----

  lemma SwapIsPermutation<T>(s: seq<T>, i: nat, j: nat)
    requires i < |s| && j < |s|
    ensures multiset(Swap(s, i, j)) == multiset(s)
  {
  }

  lemma {:induction false} ShuffleIsPermutation<T>(draws: nat -> nat, s: seq<T>, i: nat)
    requires i < |s| || i == 0
    ensures multiset(ShuffleDown(draws, s, i)) == multiset(s)
    decreases i
  {
    if i > 0 {
      SwapIsPermutation(s, i, Drawn(draws, i));
      ShuffleIsPermutation(draws, Swap(s, i, Drawn(draws, i)), i - 1);
    }
  }

  lemma PermutedIsPermutation<T>(suite: Suite, key: Bytes, positions: seq<T>)
    ensures multiset(Permuted(suite, key, positions)) == multiset(positions)
  {
    ShuffleIsPermutation(Draws(suite, SeedFromKey(suite, key), |positions|), positions, Last(positions));
  }

  /** In a sequence without repetition every value has multiplicity one. */
  lemma {:induction false} DistinctByMultiplicity<T>(s: seq<T>)
    ensures Distinct(s) <==> forall x | x in s :: multiset(s)[x] == 1
  {
    if s != [] {
      var last, rest := s[|s| - 1], s[..|s| - 1];
      DistinctByMultiplicity(rest);
      assert s == rest + [last];
      assert forall x | x in rest && x != last :: multiset(s)[x] == multiset(rest)[x];
      if Distinct(s) {
        assert last !in rest;
      } else if last in rest {
        assert multiset(s)[last] >= 2;
      } else {
        var x :| x in rest && multiset(rest)[x] != 1;
        assert multiset(s)[x] != 1;
      }
    }
  }

  /** For every key and every set of positions the shuffle is a bijection onto the positions:
      the same values, each of them once. */
  lemma PermutedIsBijection(suite: Suite, key: Bytes, positions: seq<nat>)
    requires Distinct(positions)
    ensures Distinct(Permuted(suite, key, positions))
    ensures forall p :: p in Permuted(suite, key, positions) <==> p in positions
  {
    var order := Permuted(suite, key, positions);
    PermutedIsPermutation(suite, key, positions);
    assert forall p :: p in order <==> p in multiset(order);
    DistinctByMultiplicity(positions);
    DistinctByMultiplicity(order);
  }

  // ----- and every permutation is a shuffle -----

  /** The shuffle below place `i` depends on the draws up to `i` only. */
  lemma {:induction false} EarlierDrawsDecide<T>(f: nat -> nat, g: nat -> nat, s: seq<T>, i: nat)
    requires i < |s| || i == 0
    requires forall k :: 0 < k <= i ==> f(k) == g(k)
    ensures ShuffleDown(f, s, i) == ShuffleDown(g, s, i)
    decreases i
  {
    if i > 0 {
      EarlierDrawsDecide(f, g, Swap(s, i, Drawn(f, i)), i - 1);
    }
  }

  /** Draws that turn `s` into any given rearrangement of it that agrees with it above place `i`. */
  lemma {:induction false} DrawsFor<T>(s: seq<T>, t: seq<T>, i: nat) returns (draws: nat -> nat)
    requires |t| == |s| && (i < |s| || s == [])
    requires multiset(t) == multiset(s)
    requires forall k :: i < k < |s| ==> t[k] == s[k]
    ensures ShuffleDown(draws, s, if s == [] then 0 else i) == t
    decreases i
  {
    draws := k => 0;
    if s == [] {
    } else if i == 0 {
      OnePlaceLeft(s, t);
    } else {
      var j := PlaceFor(s, t, i);
      SwapIsPermutation(s, i, j);
      var earlier := DrawsFor(Swap(s, i, j), t, i - 1);
      draws := DrawFirst(earlier, i, j);
      OneDrawMore(earlier, s, i, j);
    }
  }

  function DrawFirst(earlier: nat -> nat, i: nat, j: nat): nat -> nat {
    k => if k == i then j else earlier(k)
  }

  lemma OneDrawMore<T>(earlier: nat -> nat, s: seq<T>, i: nat, j: nat)
    requires 0 < i < |s| && j <= i
    ensures ShuffleDown(DrawFirst(earlier, i, j), s, i) == ShuffleDown(earlier, Swap(s, i, j), i - 1)
  {
    assert Drawn(DrawFirst(earlier, i, j), i) == j;
    EarlierDrawsDecide(DrawFirst(earlier, i, j), earlier, Swap(s, i, j), i - 1);
  }

  lemma OnePlaceLeft<T>(s: seq<T>, t: seq<T>)
    requires |t| == |s| > 0 && multiset(t) == multiset(s)
    requires forall k :: 0 < k < |s| ==> t[k] == s[k]
    ensures s == t
  {
    assert s == [s[0]] + s[1..] && t == [t[0]] + t[1..] && s[1..] == t[1..];
    assert multiset(s) - multiset(s[1..]) == multiset{s[0]};
    assert multiset(t) - multiset(t[1..]) == multiset{t[0]};
    assert s[0] in multiset{t[0]};
  }

  /** The value that belongs at place `i` is at some place not after it. */
  lemma PlaceFor<T>(s: seq<T>, t: seq<T>, i: nat) returns (j: nat)
    requires |t| == |s| && i < |s| && multiset(t) == multiset(s)
    requires forall k :: i < k < |s| ==> t[k] == s[k]
    ensures j <= i && s[j] == t[i]
  {
    assert s == s[..i + 1] + s[i + 1..] && t == t[..i + 1] + t[i + 1..] && s[i + 1..] == t[i + 1..];
    assert multiset(s[..i + 1]) == multiset(s) - multiset(s[i + 1..]);
    assert multiset(t[..i + 1]) == multiset(t) - multiset(t[i + 1..]);
    assert t[i] in t[..i + 1];
    assert t[i] in multiset(s[..i + 1]);
    j :| 0 <= j < |s[..i + 1]| && s[..i + 1][j] == t[i];
  }

  /** The orders a shuffle can produce are exactly the rearrangements of its input: no draws lead
      elsewhere, and some draws lead to each of them. */
  lemma ShuffleReachesExactly<T>(s: seq<T>, t: seq<T>)
    ensures (exists draws: nat -> nat :: ShuffleDown(draws, s, Last(s)) == t) <==> multiset(t) == multiset(s)
  {
    if draws: nat -> nat :| ShuffleDown(draws, s, Last(s)) == t {
      ShuffleIsPermutation(draws, s, Last(s));
    }
    if multiset(t) == multiset(s) {
      assert |t| == |multiset(t)| && |s| == |multiset(s)|;
      var draws := DrawsFor(s, t, Last(s));
      assert ShuffleDown(draws, s, Last(s)) == t;
    }
  }

  // ----- the order follows the key -----

  /** What is hashed for a key: "steg-permutation-v1" in ASCII, then the key. */
  function HashedFor(key: Bytes): Bytes {
    [0x73, 0x74, 0x65, 0x67, 0x2d, 0x70, 0x65, 0x72, 0x6d, 0x75, 0x74, 0x61, 0x74, 0x69, 0x6f, 0x6e, 0x2d, 0x76, 0x31]
    + key
  }

  /** The eight bytes that a key's seed is made of. */
  function SeedBytes(suite: Suite, key: Bytes): (s: Bytes)
    requires |suite.sha256(HashedFor(key))| >= 8
    ensures |s| == 8
  {
    suite.sha256(HashedFor(key))[..8]
  }

  /** The seed is the big-endian number whose eight bytes start the digest of domain and key. */
  lemma SeedIsDigestPrefix(suite: Suite, key: Bytes)
    requires |suite.sha256(HashedFor(key))| >= 8
    ensures SeedFromKey(suite, key) == FromBigEndian(SeedBytes(suite, key))
    ensures BigEndian(SeedFromKey(suite, key), 8) == SeedBytes(suite, key)
  {
    assert DomainBytes() + key == HashedFor(key);
    BigEndianRoundTrip(SeedBytes(suite, key));
  }

  /** Two keys have the same seed exactly when those eight bytes agree. */
  lemma SameSeedExactlyWhen(suite: Suite, k1: Bytes, k2: Bytes)
    requires |suite.sha256(HashedFor(k1))| >= 8 && |suite.sha256(HashedFor(k2))| >= 8
    ensures SeedFromKey(suite, k1) == SeedFromKey(suite, k2) <==> SeedBytes(suite, k1) == SeedBytes(suite, k2)
  {
    SeedIsDigestPrefix(suite, k1);
    SeedIsDigestPrefix(suite, k2);
  }

  /** An order depends on the eight digest bytes of its key and on what is drawn from that seed for
      that number of positions, and on nothing else. */
  lemma OrderDependsOnSeedAndDraws<T>(a: Suite, b: Suite, k1: Bytes, k2: Bytes, positions: seq<T>)
    requires |a.sha256(HashedFor(k1))| >= 8 && |b.sha256(HashedFor(k2))| >= 8
    requires SeedBytes(a, k1) == SeedBytes(b, k2)
    requires forall i :: 0 < i < |positions| ==>
               a.draw(FromBigEndian(SeedBytes(a, k1)), |positions|, i)
               == b.draw(FromBigEndian(SeedBytes(b, k2)), |positions|, i)
    ensures Permuted(a, k1, positions) == Permuted(b, k2, positions)
  {
    SeedIsDigestPrefix(a, k1);
    SeedIsDigestPrefix(b, k2);
    EarlierDrawsDecide(Draws(a, SeedFromKey(a, k1), |positions|), Draws(b, SeedFromKey(b, k2), |positions|),
                       positions, Last(positions));
  }

  lemma {:induction false} DrawingInPlaceKeepsOrder<T>(draws: nat -> nat, s: seq<T>, i: nat)
    requires i < |s| || i == 0
    requires forall k :: 0 < k <= i ==> draws(k) == k
    ensures ShuffleDown(draws, s, i) == s
    decreases i
  {
    if i > 0 {
      assert Swap(s, i, i) == s;
      DrawingInPlaceKeepsOrder(draws, s, i - 1);
    }
  }

  /** A generator that leaves the order alone except on one seed, where it draws as told. */
  function DrawAt(seed: nat, total: nat, draws: nat -> nat): (nat, nat, nat) -> nat {
    (x, n, i) => if x == seed && n == total then draws(i) else i
  }

  /** For any key, and whatever the hash, the generators together reach exactly the rearrangements
      of the positions. */
  lemma KeyedOrdersExactly<T>(suite: Suite, key: Bytes, positions: seq<T>, t: seq<T>)
    ensures (exists draw :: Permuted(suite.(draw := draw), key, positions) == t) <==> multiset(t) == multiset(positions)
  {
    if draw :| Permuted(suite.(draw := draw), key, positions) == t {
      PermutedIsPermutation(suite.(draw := draw), key, positions);
    }
    if multiset(t) == multiset(positions) {
      var draw := OrderForKey(suite, key, positions, t);
    }
  }

  /** A generator that gives one key the order `t` and leaves every other seed in place. */
  lemma OrderForKey<T>(suite: Suite, key: Bytes, positions: seq<T>, t: seq<T>)
    returns (draw: (nat, nat, nat) -> nat)
    requires multiset(t) == multiset(positions)
    ensures Permuted(suite.(draw := draw), key, positions) == t
    ensures forall x, n, i :: x != SeedFromKey(suite, key) ==> draw(x, n, i) == i
  {
    assert |t| == |multiset(t)| && |positions| == |multiset(positions)|;
    var seed, n := SeedFromKey(suite, key), |positions|;
    var draws := DrawsFor(positions, t, Last(positions));
    draw := DrawAt(seed, n, draws);
    assert SeedFromKey(suite.(draw := draw), key) == seed;
    EarlierDrawsDecide(Draws(suite.(draw := draw), seed, n), draws, positions, Last(positions));
  }

  /** Two keys order the same positions alike under every generator exactly when their eight digest
      bytes agree: the order follows the key as far as the digest tells keys apart. */
  lemma OrderFollowsKey(suite: Suite, k1: Bytes, k2: Bytes, positions: seq<nat>)
    requires |suite.sha256(HashedFor(k1))| >= 8 && |suite.sha256(HashedFor(k2))| >= 8
    requires |positions| >= 2 && positions[0] != positions[1]
    ensures (forall draw ::
               Permuted(suite.(draw := draw), k1, positions) == Permuted(suite.(draw := draw), k2, positions))
       <==> SeedBytes(suite, k1) == SeedBytes(suite, k2)
  {
    SameSeedExactlyWhen(suite, k1, k2);
    if SeedBytes(suite, k1) == SeedBytes(suite, k2) {
      forall draw
        ensures Permuted(suite.(draw := draw), k1, positions) == Permuted(suite.(draw := draw), k2, positions)
      {
        OrderDependsOnSeedAndDraws(suite.(draw := draw), suite.(draw := draw), k1, k2, positions);
      }
    } else {
      var t := Swap(positions, 0, 1);
      SwapIsPermutation(positions, 0, 1);
      var draw := OrderForKey(suite, k2, positions, t);
      DrawingInPlaceKeepsOrder(Draws(suite.(draw := draw), SeedFromKey(suite, k1), |positions|),
                               positions, Last(positions));
      assert SeedFromKey(suite.(draw := draw), k1) == SeedFromKey(suite, k1);
      assert t[0] != positions[0];
      assert Permuted(suite.(draw := draw), k1, positions) != Permuted(suite.(draw := draw), k2, positions);
    }
  }
}
