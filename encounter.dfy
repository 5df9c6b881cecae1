/**
  Rarity-weighted encounter selection: every candidate is repeated in a
  pool as many times as its rarity's weight, and one pool entry is drawn,
  after a separate draw that may suppress the encounter altogether. Both
  draws of `Math.random()` are inputs here: `suppressed` stands for the
  first draw falling below 0.3, and `k` for the index
  `Math.floor(Math.random() * pool.length)`.
 */
module Encounter {
  import opened Wrappers
  import opened Catalog

  /** Pool weight of each known rarity tag. */
  const RarityWeights: map<string, nat> := map[
    "Common" := 50,
    "Uncommon" := 80,
    "Rare" := 40,
    "Epic" := 20,
    "Legendary" := 10,
    "Mythical" := 1
  ]

  /** Weight given to a rarity tag the table does not know. */
  const DefaultWeight: nat := 10

  /**
    `rarityWeights[rarity] || 10`: the table's weight when it has a
    truthy (non-zero) one, the default otherwise.
   */
  function Weight(rarity: string): (w: nat)
    ensures w >= 1
    ensures rarity in RarityWeights ==> w == RarityWeights[rarity]
    ensures rarity !in RarityWeights ==> w == DefaultWeight
  {
    if rarity in RarityWeights && RarityWeights[rarity] != 0 then RarityWeights[rarity] else DefaultWeight
  }

  /** The table's six tags and their weights; every other tag weighs 10. */
  lemma WeightTable(rarity: string)
    ensures Weight("Common") == 50 && Weight("Uncommon") == 80 && Weight("Rare") == 40
    ensures Weight("Epic") == 20 && Weight("Legendary") == 10 && Weight("Mythical") == 1
    ensures rarity !in {"Common", "Uncommon", "Rare", "Epic", "Legendary", "Mythical"} ==> Weight(rarity) == 10
  {
  }

  /** Sum of the candidates' weights. */
  function TotalWeight(animals: seq<Animal>): (total: nat)
    ensures total >= |animals|
  {
    if animals == [] then 0
    else TotalWeight(animals[..|animals| - 1]) + Weight(animals[|animals| - 1].rarity)
  }

  /** `n` copies of `x`. */
  function Repeat<T>(x: T, n: nat): (r: seq<T>)
    ensures |r| == n
    ensures forall i :: 0 <= i < n ==> r[i] == x
  {
    if n == 0 then [] else Repeat(x, n - 1) + [x]
  }

  /** The weighted pool: each candidate's block of copies, in candidate order. */
  function Pool(animals: seq<Animal>): (pool: seq<Animal>)
    ensures |pool| == TotalWeight(animals)
    ensures forall i :: 0 <= i < |pool| ==> pool[i] in animals
  {
    if animals == [] then []
    else
      var last := animals[|animals| - 1];
      Pool(animals[..|animals| - 1]) + Repeat(last, Weight(last.rarity))
  }

  /** Builds the pool the way the source does, one `push` at a time. */
  method BuildPool(animals: seq<Animal>) returns (pool: seq<Animal>)
    ensures pool == Pool(animals)
  {
    pool := [];
    for n := 0 to |animals|
      invariant pool == Pool(animals[..n])
    {
      var animal := animals[n];
      var weight := Weight(animal.rarity);
      for i := 0 to weight
        invariant pool == Pool(animals[..n]) + Repeat(animal, i)
      {
        pool := pool + [animal];
      }
      assert animals[..n + 1][..n] == animals[..n];
    }
    assert animals[..|animals|] == animals;
  }

  /** Position in the pool where the block of candidate `i` starts. */
  function Offset(animals: seq<Animal>, i: nat): nat
    requires i <= |animals|
  {
    TotalWeight(animals[..i])
  }

  /** Consecutive blocks: block `i` ends where block `i + 1` starts. */
  lemma OffsetStep(animals: seq<Animal>, i: nat)
    requires i < |animals|
    ensures Offset(animals, i + 1) == Offset(animals, i) + Weight(animals[i].rarity)
    ensures Offset(animals, 0) == 0 && Offset(animals, |animals|) == |Pool(animals)|
  {
    assert animals[..i + 1][..i] == animals[..i];
    assert animals[..|animals|] == animals;
  }

  /** The pool of a prefix of the candidates is a prefix of the pool. */
  lemma {:induction false} PoolPrefix(animals: seq<Animal>, n: nat)
    requires n <= |animals|
    ensures Pool(animals[..n]) <= Pool(animals)
  {
    if n < |animals| {
      var init := animals[..|animals| - 1];
      assert init[..n] == animals[..n];
      PoolPrefix(init, n);
    } else {
      assert animals[..n] == animals;
    }
  }

  /**
    The block of candidate `i` holds `Weight` copies of it and nothing
    else, at positions `Offset(animals, i)` up to `Offset(animals, i + 1)`.
   */
  lemma PoolBlock(animals: seq<Animal>, i: nat, j: nat)
    requires i < |animals| && j < Weight(animals[i].rarity)
    ensures Offset(animals, i) + j < Offset(animals, i + 1) <= |Pool(animals)|
    ensures Pool(animals)[Offset(animals, i) + j] == animals[i]
  {
    OffsetStep(animals, i);
    PoolPrefix(animals, i + 1);
    var pre := animals[..i + 1];
    assert pre[..i] == animals[..i];
    var block := Repeat(animals[i], Weight(animals[i].rarity));
    assert Pool(pre) == Pool(animals[..i]) + block;
    assert Pool(pre)[Offset(animals, i) + j] == block[j];
  }

  /** The last candidate's block closes the pool. */
  lemma PoolLast(animals: seq<Animal>)
    requires animals != []
    ensures var n := |animals| - 1;
      && Pool(animals) == Pool(animals[..n]) + Repeat(animals[n], Weight(animals[n].rarity))
      && Offset(animals, n) == TotalWeight(animals[..n])
  {
    var n := |animals| - 1;
    assert animals[..n][..n] == animals[..n];
  }

  /** Dropping the last candidate leaves the earlier offsets unchanged. */
  lemma OffsetInit(animals: seq<Animal>, i: nat)
    requires i < |animals|
    ensures Offset(animals[..|animals| - 1], i) == Offset(animals, i)
  {
    assert animals[..|animals| - 1][..i] == animals[..i];
  }

  /**
    Every pool position belongs to exactly one block: the candidate whose
    block contains position `p` is the entry at `p`.
   */
  function BlockOf(animals: seq<Animal>, p: nat): (i: nat)
    requires p < |Pool(animals)|
    ensures i < |animals|
    ensures Offset(animals, i) <= p < Offset(animals, i) + Weight(animals[i].rarity)
    ensures Pool(animals)[p] == animals[i]
  {
    var n := |animals| - 1;
    PoolLast(animals);
    if p < TotalWeight(animals[..n]) then
      var i := BlockOf(animals[..n], p);
      OffsetInit(animals, i);
      i
    else
      n
  }

  /** Blocks further along the candidate list start strictly later in the pool. */
  lemma {:induction false} OffsetMono(animals: seq<Animal>, i: nat, j: nat)
    requires i < j <= |animals|
    ensures Offset(animals, i) < Offset(animals, j)
    decreases j - i
  {
    OffsetStep(animals, i);
    if i + 1 < j {
      OffsetMono(animals, i + 1, j);
    }
  }

  /** No other candidate's block contains a position: BlockOf names the only one. */
  lemma BlockUnique(animals: seq<Animal>, p: nat, i: nat)
    requires p < |Pool(animals)| && i < |animals|
    requires Offset(animals, i) <= p < Offset(animals, i) + Weight(animals[i].rarity)
    ensures i == BlockOf(animals, p)
  {
    var b := BlockOf(animals, p);
    OffsetStep(animals, i);
    OffsetStep(animals, b);
    if i < b {
      if i + 1 < b { OffsetMono(animals, i + 1, b); }
    } else if b < i {
      if b + 1 < i { OffsetMono(animals, b + 1, i); }
    }
  }

  /** Sum of the weights of the candidate entries equal to `x`. */
  function WeightOf(animals: seq<Animal>, x: Animal): nat
  {
    if animals == [] then 0
    else
      var last := animals[|animals| - 1];
      WeightOf(animals[..|animals| - 1], x) + (if last == x then Weight(last.rarity) else 0)
  }

  /** Copies of `x` in a block of copies of `y`. */
  lemma {:induction false} RepeatCount<T>(y: T, n: nat, x: T)
    ensures multiset(Repeat(y, n))[x] == if x == y then n else 0
  {
    if n > 0 {
      RepeatCount(y, n - 1, x);
    }
  }

  /**
    A candidate appears in the pool exactly as many times as its weight
    (summed over its entries when it is listed more than once).
   */
  lemma {:induction false} PoolCount(animals: seq<Animal>, x: Animal)
    ensures multiset(Pool(animals))[x] == WeightOf(animals, x)
  {
    if animals != [] {
      var last := animals[|animals| - 1];
      PoolCount(animals[..|animals| - 1], x);
      RepeatCount(last, Weight(last.rarity), x);
    }
  }

  /**
    `selectAnimalByRarity`: no encounter for an empty pool, or when the
    suppression draw fires; otherwise the pool entry at the drawn index.
   */
  method SelectAnimalByRarity(animals: seq<Animal>, suppressed: bool, k: nat) returns (selected: Option<Animal>)
    requires animals == [] || suppressed || k < TotalWeight(animals)
    ensures animals == [] ==> selected == None
    ensures suppressed ==> selected == None
    ensures animals != [] && !suppressed ==> selected == Some(Pool(animals)[k])
    ensures selected.Some? ==> selected.value in animals
  {
    var pool := BuildPool(animals);
    if |pool| == 0 {
      return None;
    }
    if suppressed {
      return None;
    }
    return Some(pool[k]);
  }

  /** With the built-in data set the pool holds 50 cats followed by 80 hounds. */
  lemma FallbackPool()
    ensures TotalWeight(FallbackAnimals) == 130
    ensures forall p :: 0 <= p < 50 ==> Pool(FallbackAnimals)[p] == FallbackAnimals[0]
    ensures forall p :: 50 <= p < 130 ==> Pool(FallbackAnimals)[p] == FallbackAnimals[1]
  {
    var cat, dog := FallbackAnimals[0], FallbackAnimals[1];
    assert FallbackAnimals[..1] == [cat];
    assert [cat][..0] == [];
    assert Weight(cat.rarity) == 50 && Weight(dog.rarity) == 80;
    assert Pool(FallbackAnimals) == Repeat(cat, 50) + Repeat(dog, 80);
  }
}
