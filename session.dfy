/**
  The game's session state (`gameData`) and the three actions that update
  it: entering a biome, exploring it, and returning to the biome list.
 */
module Session {
  import opened Wrappers
  import opened Catalog
  import opened Encounter

  /** `!gameData.currentBiome`: no biome, or the empty name, which JavaScript treats as false. */
  predicate NoBiome(biome: Option<string>)
  {
    biome.None? || biome.value == []
  }

  /**
    The animals an exploration of `biome` can meet, or `[]` when there
    is nothing to explore.
   */
  function Candidates(animalData: Option<seq<Animal>>, biome: Option<string>): (r: seq<Animal>)
    ensures NoBiome(biome) || animalData.None? ==> r == []
    ensures !NoBiome(biome) && animalData.Some? ==>
      forall a :: a in r <==> a in animalData.value && LivesIn(a, biome.value)
  {
    if NoBiome(biome) || animalData.None? then []
    else
      var r := BiomeAnimals(animalData.value, biome.value);
      assert forall a :: a in r <==> a in animalData.value && LivesIn(a, biome.value) by {
        forall a ensures a in r <==> a in animalData.value && LivesIn(a, biome.value) {
          FilterMembership(animalData.value, x => LivesIn(x, biome.value), a);
        }
      }
      r
  }

  /** Counters shown to the player and the biome being explored. */
  class GameData {
    var explorations: nat
    var encounters: nat
    var speciesFound: set<string>
    var currentBiome: Option<string>

    /** Every encounter came from an exploration and found at most one new species. */
    ghost predicate Valid()
      reads this
    {
      encounters <= explorations && |speciesFound| <= encounters
    }

    /** The state the page starts in. */
    constructor ()
      ensures Valid()
      ensures explorations == 0 && encounters == 0
      ensures speciesFound == {} && currentBiome == None
    {
      explorations := 0;
      encounters := 0;
      speciesFound := {};
      currentBiome := None;
    }

    /** `enterBiome`: remember the chosen biome; the counters are untouched. */
    method EnterBiome(biome: string)
      requires Valid()
      modifies this
      ensures Valid()
      ensures currentBiome == Some(biome)
      ensures explorations == old(explorations) && encounters == old(encounters)
      ensures speciesFound == old(speciesFound)
    {
      currentBiome := Some(biome);
    }

    /** `returnToBiomes`: forget the current biome; the counters are untouched. */
    method ReturnToBiomes()
      requires Valid()
      modifies this
      ensures Valid()
      ensures currentBiome == None
      ensures explorations == old(explorations) && encounters == old(encounters)
      ensures speciesFound == old(speciesFound)
    {
      currentBiome := None;
    }

    /**
      `exploreCurrentBiome`: with no biome or no data, nothing happens.
      Otherwise one more exploration is counted, the biome's animals are
      filtered, and when the weighted selection returns an animal one more
      encounter is counted and its name joins the species found.
     */
    method ExploreCurrentBiome(animalData: Option<seq<Animal>>, suppressed: bool, k: nat)
      returns (found: Option<Animal>)
      requires Valid()
      requires Candidates(animalData, currentBiome) == [] || suppressed
        || k < TotalWeight(Candidates(animalData, currentBiome))
      modifies this
      ensures Valid()
      ensures currentBiome == old(currentBiome)
      ensures NoBiome(currentBiome) || animalData.None? ==>
        && explorations == old(explorations) && encounters == old(encounters)
        && speciesFound == old(speciesFound) && found == None
      ensures !NoBiome(currentBiome) && animalData.Some? ==> explorations == old(explorations) + 1
      ensures found.Some? ==>
        && found.value in Candidates(animalData, currentBiome)
        && encounters == old(encounters) + 1
        && speciesFound == old(speciesFound) + {found.value.name}
      ensures found.None? ==> encounters == old(encounters) && speciesFound == old(speciesFound)
      ensures found.None? <==> Candidates(animalData, currentBiome) == [] || suppressed
      ensures found.Some? ==> found == Some(Pool(Candidates(animalData, currentBiome))[k])
    {
      if NoBiome(currentBiome) || animalData.None? {
        return None;
      }
      explorations := explorations + 1;
      var biomeAnimals := BiomeAnimals(animalData.value, currentBiome.value);
      if |biomeAnimals| == 0 {
        return None;
      }
      found := SelectAnimalByRarity(biomeAnimals, suppressed, k);
      if found.Some? {
        encounters := encounters + 1;
        speciesFound := speciesFound + {found.value.name};
      }
    }
  }
}
