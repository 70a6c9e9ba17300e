/** The Bloom prefilter in front of the exact conflict tests. The hash is any function of seed and account. */
module BloomFilters {
  import opened Core

  const BLOOM_FILTER_SIZE: nat := 16

  const SEEDS: nat := 3

  type BloomFilter = f: seq<bv64> | |f| == BLOOM_FILTER_SIZE witness seq(BLOOM_FILTER_SIZE, i => 0)

  type Hash = (nat, Pubkey) -> bv64

  // ----- one 64-bit word

  predicate Overlap(x: bv64, y: bv64) {
    x & y != 0
  }

  function Mask(bit: bv64): bv64
    requires bit < 64
  {
    (1 as bv64) << bit
  }

  /** Bit `b` of `x` is set. */
  predicate HasBit(x: bv64, b: bv64) {
    b < 64 && Overlap(x, Mask(b))
  }

  lemma MaskHasOneBit(i: bv64, b: bv64)
    requires i < 64
    ensures HasBit(Mask(i), b) <==> b == i
  {
  }

  lemma AndDistributes(x: bv64, y: bv64, mask: bv64)
    ensures (x | y) & mask == (x & mask) | (y & mask)
  {
  }

  lemma OrIsZero(x: bv64, y: bv64)
    ensures x | y == 0 <==> x == 0 && y == 0
  {
  }

  lemma OrOverlaps(x: bv64, y: bv64, mask: bv64)
    ensures Overlap(x | y, mask) <==> Overlap(x, mask) || Overlap(y, mask)
  {
    AndDistributes(x, y, mask);
    OrIsZero(x & mask, y & mask);
  }

  lemma OrJoinsBits(x: bv64, y: bv64, b: bv64)
    ensures HasBit(x | y, b) <==> HasBit(x, b) || HasBit(y, b)
  {
    if b < 64 {
      OrOverlaps(x, y, Mask(b));
    }
  }

  lemma BitIsAllOfItsMask(x: bv64, b: bv64)
    requires HasBit(x, b)
    ensures x & Mask(b) == Mask(b) && Mask(b) != 0
  {
  }

  lemma LowestBit(x: bv64)
    requires x & 1 != 0
    ensures HasBit(x, 0)
  {
  }

  lemma HalfOf(x: bv64) returns (half: bv64)
    requires x & 1 == 0 && x != 0
    ensures half == x >> 1 && half < x && half != 0
  {
    half := x >> 1;
  }

  lemma BitOfHalf(x: bv64, b: bv64)
    requires HasBit(x >> 1, b)
    ensures HasBit(x, b + 1)
  {
  }

  /** A word other than 0 has some bit set. */
  lemma {:induction false} SomeBit(x: bv64)
    requires x != 0
    ensures exists b :: HasBit(x, b)
    decreases x
  {
    if x & 1 != 0 {
      LowestBit(x);
    } else {
      var half := HalfOf(x);
      SomeBit(half);
      var b :| HasBit(half, b);
      BitOfHalf(x, b);
    }
  }

  lemma BitComesDown(x: bv64, b: bv64)
    requires b < 64 && x & Mask(b) == Mask(b)
    ensures (x >> b) & 1 == 1
  {
  }

  lemma BitComesFrom(x: bv64, b: bv64)
    requires b < 64 && (x >> b) & 1 == 1
    ensures x & Mask(b) != 0
  {
  }

  /** Bit b is the one that a shift by b brings to the bottom. */
  lemma BitIsAPosition(x: bv64, b: bv64)
    requires b < 64
    ensures HasBit(x, b) <==> (x >> b) & 1 == 1
  {
    if HasBit(x, b) {
      BitIsAllOfItsMask(x, b);
      BitComesDown(x, b);
    }
    if (x >> b) & 1 == 1 {
      BitComesFrom(x, b);
    }
  }

  lemma CommonMaskOverlaps(x: bv64, y: bv64, mask: bv64)
    requires x & mask == mask && y & mask == mask && mask != 0
    ensures Overlap(x, y)
  {
  }

  lemma BitOfAnd(x: bv64, y: bv64, b: bv64)
    requires HasBit(x & y, b)
    ensures HasBit(x, b) && HasBit(y, b)
  {
  }

  lemma OverlapHasACommonBit(x: bv64, y: bv64)
    requires Overlap(x, y)
    ensures exists b :: HasBit(x, b) && HasBit(y, b)
  {
    SomeBit(x & y);
    var b :| HasBit(x & y, b);
    BitOfAnd(x, y, b);
  }

  lemma CommonBitOverlaps(x: bv64, y: bv64, b: bv64)
    requires HasBit(x, b) && HasBit(y, b)
    ensures Overlap(x, y)
  {
    BitIsAllOfItsMask(x, b);
    BitIsAllOfItsMask(y, b);
    CommonMaskOverlaps(x, y, Mask(b));
  }

  lemma XorOfDifferent(x: bv64, y: bv64) returns (difference: bv64)
    requires x != y
    ensures difference == x ^ y && difference != 0
  {
    difference := x ^ y;
  }

  lemma XorUnderMask(x: bv64, y: bv64, mask: bv64)
    requires x & mask == y & mask
    ensures (x ^ y) & mask == 0
  {
  }

  lemma SameUnderMask(x: bv64, y: bv64, b: bv64)
    requires b < 64 && HasBit(x, b) == HasBit(y, b)
    ensures x & Mask(b) == y & Mask(b)
  {
    if HasBit(x, b) {
      BitIsAllOfItsMask(x, b);
      BitIsAllOfItsMask(y, b);
    }
  }

  lemma SameBitIsNotInXor(x: bv64, y: bv64, b: bv64)
    requires b < 64 && HasBit(x, b) == HasBit(y, b)
    ensures !HasBit(x ^ y, b)
  {
    SameUnderMask(x, y, b);
    XorUnderMask(x, y, Mask(b));
  }

  /** Different words differ in a bit. */
  lemma DifferInABit(x: bv64, y: bv64)
    requires x != y
    ensures exists b :: HasBit(x, b) != HasBit(y, b)
  {
    var difference := XorOfDifferent(x, y);
    SomeBit(difference);
    var b :| HasBit(difference, b);
    if HasBit(x, b) == HasBit(y, b) {
      SameBitIsNotInXor(x, y, b);
      assert false;
    }
  }

  // ----- where a hash lands

  /** The low 32 bits of the hash choose the word. */
  function WordIndex(hash: bv64): (w: nat)
    ensures w < BLOOM_FILTER_SIZE
  {
    ((hash & 0xFFFF_FFFF) % 16) as nat
  }

  /** The high 32 bits of the hash choose the bit. */
  function BitIndex(hash: bv64): (b: bv64)
    ensures b < 64
  {
    (hash >> 32) % 64
  }

  predicate Lands(hash: bv64, w: nat, b: bv64) {
    WordIndex(hash) == w && BitIndex(hash) == b
  }

  lemma RemainderIsMask(hash: bv64)
    ensures (hash & 0xFFFF_FFFF) % 16 == hash & 0xF && (hash >> 32) % 64 == (hash >> 32) & 0x3F
  {
  }

  /** A hash lands on word and bit by its bits 0 to 3 and 32 to 37, and by no others. */
  lemma LandingBits(hash: bv64)
    ensures WordIndex(hash) == (hash & 0xF) as nat && BitIndex(hash) == (hash >> 32) & 0x3F
  {
    RemainderIsMask(hash);
  }

  /** One of the first `seeds` hashes of `account` lands on bit `b` of word `w`. */
  predicate Touches(hash: Hash, account: Pubkey, seeds: nat, w: nat, b: bv64) {
    exists seed: nat :: seed < seeds && Lands(hash(seed, account), w, b)
  }

  predicate Touched(hash: Hash, accounts: set<Pubkey>, w: nat, b: bv64) {
    exists a :: a in accounts && Touches(hash, a, SEEDS, w, b)
  }

  /** The filter of a set of accounts has the bits their hashes land on, and no others. */
  ghost predicate IsFilterOf(f: BloomFilter, hash: Hash, accounts: set<Pubkey>) {
    forall w, b: bv64 :: 0 <= w < BLOOM_FILTER_SIZE ==> (HasBit(f[w], b) <==> Touched(hash, accounts, w, b))
  }

  /** One of the account's three hashes, those with seeds 0, 1 and 2, lands there. */
  predicate LandsByThree(hash: Hash, a: Pubkey, w: nat, b: bv64) {
    Lands(hash(0, a), w, b) || Lands(hash(1, a), w, b) || Lands(hash(2, a), w, b)
  }

  lemma ThreeHashesPerAccount(f: BloomFilter, hash: Hash, accounts: set<Pubkey>, w: nat, b: bv64)
    requires IsFilterOf(f, hash, accounts) && w < BLOOM_FILTER_SIZE
    ensures HasBit(f[w], b) <==> exists a :: a in accounts && LandsByThree(hash, a, w, b)
  {
    forall a ensures Touches(hash, a, SEEDS, w, b) <==> LandsByThree(hash, a, w, b) {
      OneMoreSeed(hash, a, 2, w, b);
      OneMoreSeed(hash, a, 1, w, b);
      OneMoreSeed(hash, a, 0, w, b);
    }
  }

  /** So the order and the repetition of a list of accounts leave no trace in its filter. */
  lemma FilterDependsOnSetOnly(f: BloomFilter, g: BloomFilter, hash: Hash, accounts: set<Pubkey>)
    requires IsFilterOf(f, hash, accounts) && IsFilterOf(g, hash, accounts)
    ensures f == g
  {
    forall w | 0 <= w < BLOOM_FILTER_SIZE ensures f[w] == g[w] {
      if f[w] != g[w] {
        DifferInABit(f[w], g[w]);
      }
    }
  }

  // ----- computing a filter

  /** Setting a bit adds that bit to that word and nothing anywhere else. */
  lemma SettingABit(before: bv64, after: bv64, bit: bv64)
    requires bit < 64 && after == before | Mask(bit)
    ensures forall b: bv64 :: HasBit(after, b) <==> HasBit(before, b) || b == bit
  {
    var mask := Mask(bit);
    forall b: bv64 ensures HasBit(mask, b) <==> b == bit {
      MaskHasOneBit(bit, b);
    }
    JoiningBits(before, mask, after, bit);
  }

  lemma JoiningBits(before: bv64, mask: bv64, after: bv64, bit: bv64)
    requires after == before | mask && forall b: bv64 :: HasBit(mask, b) <==> b == bit
    ensures forall b: bv64 :: HasBit(after, b) <==> HasBit(before, b) || b == bit
  {
    forall b: bv64 ensures HasBit(after, b) <==> HasBit(before, b) || b == bit {
      OrJoinsBits(before, mask, b);
    }
  }

  lemma OneMoreSeed(hash: Hash, account: Pubkey, seeds: nat, w: nat, b: bv64)
    ensures Touches(hash, account, seeds + 1, w, b)
      <==> Touches(hash, account, seeds, w, b) || Lands(hash(seeds, account), w, b)
  {
    if seed: nat :| seed < seeds + 1 && Lands(hash(seed, account), w, b) {
      assert seed == seeds || Touches(hash, account, seeds, w, b);
    }
  }

  /** `after` has the bits of `before` and those on which the first `seeds` hashes of `account` land. */
  ghost predicate Added(before: BloomFilter, after: BloomFilter, hash: Hash, account: Pubkey, seeds: nat) {
    forall w, b: bv64 :: 0 <= w < BLOOM_FILTER_SIZE ==>
      (HasBit(after[w], b) <==> HasBit(before[w], b) || Touches(hash, account, seeds, w, b))
  }

  /** Setting the bit on which one more hash lands, and nothing else, adds that seed. */
  lemma AddOneSeed(before: BloomFilter, now: BloomFilter, after: BloomFilter, hash: Hash, account: Pubkey, seed: nat,
      word: nat, bit: bv64)
    requires Added(before, now, hash, account, seed)
    requires word == WordIndex(hash(seed, account)) && bit == BitIndex(hash(seed, account))
    requires forall w :: 0 <= w < BLOOM_FILTER_SIZE && w != word ==> after[w] == now[w]
    requires forall b: bv64 :: HasBit(after[word], b) <==> HasBit(now[word], b) || b == bit
    ensures Added(before, after, hash, account, seed + 1)
  {
    forall w, b: bv64 | 0 <= w < BLOOM_FILTER_SIZE
      ensures HasBit(after[w], b) <==> HasBit(before[w], b) || Touches(hash, account, seed + 1, w, b)
    {
      OneMoreSeed(hash, account, seed, w, b);
      assert Lands(hash(seed, account), w, b) <==> w == word && b == bit;
    }
  }

  method AddAccount(hash: Hash, account: Pubkey, bloom: array<bv64>)
    requires bloom.Length == BLOOM_FILTER_SIZE
    modifies bloom
    ensures Added(old(bloom[..]), bloom[..], hash, account, SEEDS)
  {
    for seed := 0 to SEEDS
      invariant Added(old(bloom[..]), bloom[..], hash, account, seed)
    {
      var word, bit := WordIndex(hash(seed, account)), BitIndex(hash(seed, account));
      ghost var now := bloom[..];
      bloom[word] := bloom[word] | Mask(bit);
      SettingABit(now[word], bloom[word], bit);
      AddOneSeed(old(bloom[..]), now, bloom[..], hash, account, seed, word, bit);
    }
  }

  lemma AddOneAccount(before: BloomFilter, after: BloomFilter, hash: Hash, accounts: seq<Pubkey>, k: nat)
    requires k < |accounts| && IsFilterOf(before, hash, ElementsOf(accounts[..k]))
    requires Added(before, after, hash, accounts[k], SEEDS)
    ensures IsFilterOf(after, hash, ElementsOf(accounts[..k + 1]))
  {
    assert ElementsOf(accounts[..k + 1]) == ElementsOf(accounts[..k]) + {accounts[k]};
    forall w, b: bv64 | 0 <= w < BLOOM_FILTER_SIZE
      ensures HasBit(after[w], b) <==> Touched(hash, ElementsOf(accounts[..k + 1]), w, b)
    {
      assert Touched(hash, ElementsOf(accounts[..k + 1]), w, b)
        <==> Touched(hash, ElementsOf(accounts[..k]), w, b) || Touches(hash, accounts[k], SEEDS, w, b);
    }
  }

  lemma ZeroHasNoBits(b: bv64)
    ensures !HasBit(0, b)
  {
  }

  lemma EmptyFilterIsFilterOfNothing(f: BloomFilter, hash: Hash)
    requires forall w :: 0 <= w < BLOOM_FILTER_SIZE ==> f[w] == 0
    ensures IsFilterOf(f, hash, {})
  {
    forall w, b: bv64 | 0 <= w < BLOOM_FILTER_SIZE ensures HasBit(f[w], b) <==> Touched(hash, {}, w, b) {
      ZeroHasNoBits(b);
    }
  }

  method ComputeBloomFilter(hash: Hash, accounts: seq<Pubkey>) returns (bloom: array<bv64>)
    ensures fresh(bloom) && bloom.Length == BLOOM_FILTER_SIZE
    ensures IsFilterOf(bloom[..], hash, ElementsOf(accounts))
  {
    bloom := new bv64[BLOOM_FILTER_SIZE](_ => 0);
    EmptyFilterIsFilterOfNothing(bloom[..], hash);
    assert ElementsOf(accounts[..0]) == {};
    for k := 0 to |accounts|
      invariant IsFilterOf(bloom[..], hash, ElementsOf(accounts[..k]))
    {
      ghost var before := bloom[..];
      AddAccount(hash, accounts[k], bloom);
      AddOneAccount(before, bloom[..], hash, accounts, k);
    }
    assert accounts[..|accounts|] == accounts;
  }

  // ----- comparing filters

  predicate MightConflict(f: BloomFilter, g: BloomFilter) {
    exists w :: 0 <= w < BLOOM_FILTER_SIZE && Overlap(f[w], g[w])
  }

  method BloomsMightConflict(a: array<bv64>, b: array<bv64>) returns (might: bool)
    requires a.Length == BLOOM_FILTER_SIZE && b.Length == BLOOM_FILTER_SIZE
    ensures might <==> MightConflict(a[..], b[..])
  {
    for i := 0 to BLOOM_FILTER_SIZE
      invariant forall j :: 0 <= j < i ==> !Overlap(a[..][j], b[..][j])
    {
      if Overlap(a[i], b[i]) {
        assert Overlap(a[..][i], b[..][i]);
        return true;
      }
    }
    return false;
  }

  /** Both sets land on bit b of word w. */
  ghost predicate Collide(hash: Hash, one: set<Pubkey>, two: set<Pubkey>, w: nat, b: bv64) {
    Touched(hash, one, w, b) && Touched(hash, two, w, b)
  }

  lemma OverlapMeansCollision(f: BloomFilter, g: BloomFilter, hash: Hash, one: set<Pubkey>, two: set<Pubkey>, w: nat)
    requires IsFilterOf(f, hash, one) && IsFilterOf(g, hash, two) && w < BLOOM_FILTER_SIZE
    ensures Overlap(f[w], g[w]) <==> exists b :: Collide(hash, one, two, w, b)
  {
    if Overlap(f[w], g[w]) {
      OverlapHasACommonBit(f[w], g[w]);
      var b :| HasBit(f[w], b) && HasBit(g[w], b);
      assert Collide(hash, one, two, w, b);
    }
    if b :| Collide(hash, one, two, w, b) {
      assert HasBit(f[w], b) && HasBit(g[w], b);
      CommonBitOverlaps(f[w], g[w], b);
    }
  }

  /** The prefilter answers yes exactly when an account of each side lands on the same bit, by whatever seeds. */
  lemma MightConflictMeansCollision(f: BloomFilter, g: BloomFilter, hash: Hash, one: set<Pubkey>, two: set<Pubkey>)
    requires IsFilterOf(f, hash, one) && IsFilterOf(g, hash, two)
    ensures MightConflict(f, g) <==> exists w, b :: 0 <= w < BLOOM_FILTER_SIZE && Collide(hash, one, two, w, b)
  {
    if w :| 0 <= w < BLOOM_FILTER_SIZE && Overlap(f[w], g[w]) {
      OverlapMeansCollision(f, g, hash, one, two, w);
    }
    if w, b :| 0 <= w < BLOOM_FILTER_SIZE && Collide(hash, one, two, w, b) {
      OverlapMeansCollision(f, g, hash, one, two, w);
    }
  }

  /** Two sets with a common account never pass for conflict-free. */
  lemma CommonAccountIsNoticed(f: BloomFilter, g: BloomFilter, hash: Hash,
      one: set<Pubkey>, two: set<Pubkey>, a: Pubkey)
    requires IsFilterOf(f, hash, one) && IsFilterOf(g, hash, two) && a in one && a in two
    ensures MightConflict(f, g)
  {
    var seed: nat := 0;
    var w, b := WordIndex(hash(seed, a)), BitIndex(hash(seed, a));
    assert Lands(hash(seed, a), w, b);
    assert Touches(hash, a, SEEDS, w, b);
    assert Touched(hash, one, w, b) && Touched(hash, two, w, b);
    assert Collide(hash, one, two, w, b);
    MightConflictMeansCollision(f, g, hash, one, two);
  }

  // ----- the hybrid tests

  predicate AccountsConflictHybrid(bloomA: BloomFilter, accountsA: set<Pubkey>,
      bloomB: BloomFilter, accountsB: set<Pubkey>)
  {
    if !MightConflict(bloomA, bloomB) then false else !(accountsA !! accountsB)
  }

  predicate AccountsConflictHybridRw(bloomA: BloomFilter, writeA: set<Pubkey>, readA: set<Pubkey>,
      bloomB: BloomFilter, writeB: set<Pubkey>, readB: set<Pubkey>)
  {
    if !MightConflict(bloomA, bloomB) then false
    else if !(writeA !! writeB) then true
    else if !(writeA !! readB) || !(readA !! writeB) then true
    else false
  }

  /** With filters over all accounts of each side, the prefilter never changes the exact answer. */
  lemma HybridIsExact(hash: Hash, f: BloomFilter, accountsA: set<Pubkey>, g: BloomFilter, accountsB: set<Pubkey>)
    requires IsFilterOf(f, hash, accountsA) && IsFilterOf(g, hash, accountsB)
    ensures AccountsConflictHybrid(f, accountsA, g, accountsB) <==> exists a :: a in accountsA && a in accountsB
  {
    if a :| a in accountsA && a in accountsB {
      CommonAccountIsNoticed(f, g, hash, accountsA, accountsB, a);
    }
  }

  /** Likewise for reads and writes: conflicts are write-write and write-read, never read-read. */
  lemma HybridRwIsExact(hash: Hash, f: BloomFilter, writeA: set<Pubkey>, readA: set<Pubkey>,
      g: BloomFilter, writeB: set<Pubkey>, readB: set<Pubkey>)
    requires IsFilterOf(f, hash, writeA + readA) && IsFilterOf(g, hash, writeB + readB)
    ensures AccountsConflictHybridRw(f, writeA, readA, g, writeB, readB)
      <==> exists a :: (a in writeA && a in writeB + readB) || (a in readA && a in writeB)
  {
    if a :| (a in writeA && a in writeB + readB) || (a in readA && a in writeB) {
      CommonAccountIsNoticed(f, g, hash, writeA + readA, writeB + readB, a);
    }
  }

  /** Covering a side matters: over fewer accounts than that side has, the filter can hide a real conflict. */
  lemma UncoveredConflictIsMissed(hash: Hash, f: BloomFilter, a: Pubkey)
    requires IsFilterOf(f, hash, {})
    ensures !AccountsConflictHybrid(f, {a}, f, {a})
  {
    MightConflictMeansCollision(f, f, hash, {}, {});
  }
}
