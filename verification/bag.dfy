/** The seven-bag randomiser of `Game.random_piece` (same in both
    versions): when the bag is empty it is refilled with the seven kinds
    and shuffled, then the last kind is popped. The shuffle is a parameter:
    any permutation of the seven kinds. */
module Bag {
  import opened Tetrominoes

  /** The seven kinds in the order the bag is refilled before shuffling. */
  const AllKinds: seq<Kind> := [O, I, T, L, J, S, Z]

  /** How many times `k` occurs in `s`. */
  function Count(s: seq<Kind>, k: Kind): nat
  {
    if s == [] then 0
    else Count(s[..|s| - 1], k) + (if s[|s| - 1] == k then 1 else 0)
  }

  /** `Count` is the multiplicity of `k` in the multiset of `s`. */
  lemma {:induction false} CountIsMultiplicity(s: seq<Kind>, k: Kind)
    ensures Count(s, k) == multiset(s)[k]
  {
    if s != [] {
      var n := |s| - 1;
      CountIsMultiplicity(s[..n], k);
      assert s == s[..n] + [s[n]];
    }
  }

  /** What `random.shuffle` may make of the refilled bag: seven kinds,
      each of them exactly once. */
  ghost predicate IsShuffle(p: seq<Kind>)
  {
    |p| == 7 && forall k :: Count(p, k) == 1
  }

  /** `random_piece`: refill an empty bag with `shuffled`, then pop the
      last kind. Returns the kind drawn and the bag left. */
  function Draw(bag: seq<Kind>, shuffled: seq<Kind>): (Kind, seq<Kind>)
    requires bag != [] || shuffled != []
  {
    var full := if bag == [] then shuffled else bag;
    (full[|full| - 1], full[..|full| - 1])
  }

  /** The bag together with the kinds drawn since it was last refilled
      hold each of the seven kinds exactly once. */
  ghost predicate BagInvariant(bag: seq<Kind>, drawn: seq<Kind>)
  {
    forall k :: Count(bag, k) + Count(drawn, k) == 1
  }

  /** Each kind is in the refilled bag exactly once. */
  lemma AllKindsOnce(k: Kind)
    ensures multiset(AllKinds)[k] == 1
  {
    match k
    case O => case I => case T => case L => case J => case S => case Z =>
  }

  /** The invariant says that the bag and the drawn kinds are, together, a
      permutation of the seven kinds. */
  lemma InvariantIsPermutation(bag: seq<Kind>, drawn: seq<Kind>)
    ensures BagInvariant(bag, drawn) <==> multiset(bag) + multiset(drawn) == multiset(AllKinds)
  {
    forall k
      ensures Count(bag, k) + Count(drawn, k) == (multiset(bag) + multiset(drawn))[k]
      ensures multiset(AllKinds)[k] == 1
    {
      CountIsMultiplicity(bag, k);
      CountIsMultiplicity(drawn, k);
      AllKindsOnce(k);
    }
  }

  /** A shuffle is exactly a permutation of the seven kinds. */
  lemma ShuffleIsPermutation(p: seq<Kind>)
    ensures IsShuffle(p) <==> multiset(p) == multiset(AllKinds)
  {
    InvariantIsPermutation(p, []);
    assert multiset(p) + multiset([]) == multiset(p);
    assert forall k :: Count(p, k) + Count([], k) == Count(p, k);
    assert |multiset(p)| == |p| && |multiset(AllKinds)| == 7;
  }

  /** Under the invariant the bag and the drawn kinds number seven. */
  lemma InvariantSize(bag: seq<Kind>, drawn: seq<Kind>)
    requires BagInvariant(bag, drawn)
    ensures |bag| + |drawn| == 7
  {
    InvariantIsPermutation(bag, drawn);
    assert |multiset(bag) + multiset(drawn)| == |multiset(AllKinds)|;
  }

  /** A draw keeps the invariant (starting a new round of seven when the
      bag was empty), never draws a kind already drawn in the round, and
      leaves at most six kinds in the bag. */
  lemma DrawKeepsInvariant(bag: seq<Kind>, drawn: seq<Kind>, shuffled: seq<Kind>)
    requires IsShuffle(shuffled)
    requires bag == [] || BagInvariant(bag, drawn)
    ensures shuffled != []
    ensures var (k, bag') := Draw(bag, shuffled);
      var drawn' := (if bag == [] then [] else drawn) + [k];
      && BagInvariant(bag', drawn')
      && (bag != [] ==> k !in drawn)
      && |bag'| < 7
  {
    assert Count(shuffled, O) == 1;
    var before := if bag == [] then [] else drawn;
    var full := if bag == [] then shuffled else bag;
    assert BagInvariant(full, before);
    var n := |full| - 1;
    var k := full[n];
    var bag' := full[..n];
    forall k'
      ensures Count(bag', k') + Count(before + [k], k') == 1
    {
      assert (before + [k])[..|before|] == before;
    }
    assert BagInvariant(bag', before + [k]);
    if bag != [] {
      CountIsMultiplicity(drawn, k);
    }
    InvariantSize(full, before);
  }

  /** `n` successive calls of `random_piece`, every refill shuffled into
      `shuffled`. */
  function Draws(bag: seq<Kind>, shuffled: seq<Kind>, n: nat): seq<Kind>
    requires shuffled != []
    decreases n
  {
    if n == 0 then []
    else
      var (k, bag') := Draw(bag, shuffled);
      [k] + Draws(bag', shuffled, n - 1)
  }

  /** Drawing as many kinds as a non-empty bag holds yields exactly its kinds. */
  lemma {:induction false} DrawsEmptyBag(bag: seq<Kind>, shuffled: seq<Kind>)
    requires shuffled != [] && bag != []
    ensures multiset(Draws(bag, shuffled, |bag|)) == multiset(bag)
    decreases |bag|
  {
    var (k, bag') := Draw(bag, shuffled);
    assert bag == bag' + [k];
    if bag' != [] {
      DrawsEmptyBag(bag', shuffled);
    }
  }

  /** The seven-bag guarantee: from an empty bag, the next seven pieces
      are the seven kinds, each exactly once, whatever the shuffle. */
  lemma SevenDraws(shuffled: seq<Kind>)
    requires IsShuffle(shuffled)
    ensures shuffled != []
    ensures multiset(Draws([], shuffled, 7)) == multiset(AllKinds)
    ensures forall k :: multiset(Draws([], shuffled, 7))[k] == 1
  {
    ShuffleIsPermutation(shuffled);
    assert |multiset(shuffled)| == 7;
    assert |shuffled| == 7;
    DrawsEmptyBag(shuffled, shuffled);
    assert Draws([], shuffled, 7) == Draws(shuffled, shuffled, 7);
    forall k' ensures multiset(Draws([], shuffled, 7))[k'] == 1 {
      AllKindsOnce(k');
    }
  }
}
