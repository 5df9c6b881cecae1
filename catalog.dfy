/**
  The organism records and the habitat filter of an exploration: the
  animals whose comma-separated habitat list names the current biome,
  compared after trimming and lower-casing.
 */
module Catalog {
  import opened Wrappers
  import opened Text

  /**
    One entry of the data set's `Animals` list, reduced to the fields the
    encounter logic reads. A missing `habitat` is `None`.
   */
  datatype Animal = Animal(name: string, habitat: Option<string>, rarity: string)

  // ---------------------------------------------------------------------
  // Array.prototype.filter
  // ---------------------------------------------------------------------

  /** `xs.filter(keep)`: the elements for which the callback holds, in order. */
  function Filter<T>(xs: seq<T>, keep: T -> bool): (r: seq<T>)
    ensures |r| <= |xs|
    ensures forall i :: 0 <= i < |r| ==> keep(r[i])
  {
    if xs == [] then []
    else (if keep(xs[0]) then [xs[0]] else []) + Filter(xs[1..], keep)
  }

  /** An element is in the filtered list exactly when it is in the list and passes the callback. */
  lemma {:induction false} FilterMembership<T>(xs: seq<T>, keep: T -> bool, x: T)
    ensures x in Filter(xs, keep) <==> x in xs && keep(x)
  {
    if xs != [] {
      FilterMembership(xs[1..], keep, x);
      assert xs == [xs[0]] + xs[1..];
    }
  }

  /** `xs` is `ys` with some elements removed and the rest kept in order. */
  predicate IsSubsequence<T(==)>(xs: seq<T>, ys: seq<T>)
  {
    if ys == [] then xs == []
    else
      || (xs != [] && xs[0] == ys[0] && IsSubsequence(xs[1..], ys[1..]))
      || IsSubsequence(xs, ys[1..])
  }

  /** Filtering keeps the input order: the result is a subsequence of the input. */
  lemma {:induction false} FilterSubsequence<T>(xs: seq<T>, keep: T -> bool)
    ensures IsSubsequence(Filter(xs, keep), xs)
  {
    if xs != [] {
      var r := Filter(xs, keep);
      var rest := Filter(xs[1..], keep);
      FilterSubsequence(xs[1..], keep);
      if keep(xs[0]) {
        assert r == [xs[0]] + rest;
        assert r[1..] == rest;
      } else {
        assert r == rest;
      }
    }
  }

  /** Filtering a concatenation filters each part and keeps them in order. */
  lemma {:induction false} FilterAppend<T>(xs: seq<T>, ys: seq<T>, keep: T -> bool)
    ensures Filter(xs + ys, keep) == Filter(xs, keep) + Filter(ys, keep)
  {
    if xs == [] {
      assert xs + ys == ys;
    } else {
      var zs := xs + ys;
      assert zs[0] == xs[0] && zs[1..] == xs[1..] + ys;
      FilterAppend(xs[1..], ys, keep);
    }
  }

  /** A list whose every element passes the callback is its own filter. */
  lemma {:induction false} FilterAllKept<T>(xs: seq<T>, keep: T -> bool)
    requires forall i :: 0 <= i < |xs| ==> keep(xs[i])
    ensures Filter(xs, keep) == xs
  {
    if xs != [] {
      FilterAllKept(xs[1..], keep);
      assert keep(xs[0]);
      assert xs == [xs[0]] + xs[1..];
    }
  }

  /** A list that keeps nothing filters to the empty list. */
  lemma {:induction false} FilterNoneKept<T>(xs: seq<T>, keep: T -> bool)
    requires forall i :: 0 <= i < |xs| ==> !keep(xs[i])
    ensures Filter(xs, keep) == []
  {
    if xs != [] {
      FilterNoneKept(xs[1..], keep);
    }
  }

  /** Filtering the filtered list again changes nothing. */
  lemma FilterIdempotent<T>(xs: seq<T>, keep: T -> bool)
    ensures Filter(Filter(xs, keep), keep) == Filter(xs, keep)
  {
    FilterAllKept(Filter(xs, keep), keep);
  }

  /** Callbacks that agree everywhere filter alike. */
  lemma {:induction false} FilterCongruent<T>(xs: seq<T>, f: T -> bool, g: T -> bool)
    requires forall x :: f(x) == g(x)
    ensures Filter(xs, f) == Filter(xs, g)
  {
    if xs != [] {
      FilterCongruent(xs[1..], f, g);
    }
  }

  // ---------------------------------------------------------------------
  // The habitat filter
  // ---------------------------------------------------------------------

  /** JavaScript truthiness of an optional string: present and not empty. */
  predicate Truthy(s: Option<string>)
  {
    s.Some? && s.value != []
  }

  /** Each habitat piece, trimmed and lower-cased, in order. */
  function NormalizeAll(pieces: seq<string>): (r: seq<string>)
    ensures |r| == |pieces|
  {
    if pieces == [] then [] else [ToLower(Trim(pieces[0]))] + NormalizeAll(pieces[1..])
  }

  /** NormalizeAll maps each piece to its trimmed, lower-cased form. */
  lemma {:induction false} NormalizeAllAt(pieces: seq<string>, i: nat)
    requires i < |pieces|
    ensures NormalizeAll(pieces)[i] == ToLower(Trim(pieces[i]))
  {
    if i > 0 {
      NormalizeAllAt(pieces[1..], i - 1);
    }
  }

  /** `habitat.split(',').map(h => h.trim().toLowerCase())`: one token per comma-separated piece. */
  function HabitatTokens(habitat: string): (tokens: seq<string>)
    ensures |tokens| == Count(habitat, ',') + 1
  {
    NormalizeAll(Split(habitat, ','))
  }

  /** The filter's callback: does `a` live in `biome`? */
  predicate LivesIn(a: Animal, biome: string)
  {
    Truthy(a.habitat) && ToLower(biome) in HabitatTokens(a.habitat.value)
  }

  /** `animalData.Animals.filter(...)` for the given biome: animals of the list that live there. */
  function BiomeAnimals(animals: seq<Animal>, biome: string): (r: seq<Animal>)
    ensures |r| <= |animals|
    ensures forall i :: 0 <= i < |r| ==> LivesIn(r[i], biome)
  {
    Filter(animals, a => LivesIn(a, biome))
  }

  /** The callback holds exactly when some comma-separated piece names the biome. */
  lemma LivesInPiece(a: Animal, biome: string)
    ensures LivesIn(a, biome) <==>
      && a.habitat.Some? && a.habitat.value != []
      && exists piece :: piece in Split(a.habitat.value, ',') && ToLower(Trim(piece)) == ToLower(biome)
  {
    if a.habitat.Some? {
      var pieces := Split(a.habitat.value, ',');
      var tokens := HabitatTokens(a.habitat.value);
      if ToLower(biome) in tokens {
        var i :| 0 <= i < |tokens| && tokens[i] == ToLower(biome);
        NormalizeAllAt(pieces, i);
        assert pieces[i] in pieces;
      }
      if piece :| piece in pieces && ToLower(Trim(piece)) == ToLower(biome) {
        var i :| 0 <= i < |pieces| && pieces[i] == piece;
        NormalizeAllAt(pieces, i);
        assert tokens[i] == ToLower(biome);
      }
    }
  }

  /**
    An animal is kept exactly when it is in the list, its habitat field is
    present and non-empty, and some comma-separated piece of it, trimmed
    and lower-cased, equals the lower-cased biome.
   */
  lemma BiomeAnimalsMembership(animals: seq<Animal>, biome: string, a: Animal)
    ensures a in BiomeAnimals(animals, biome) <==>
      && a in animals
      && a.habitat.Some? && a.habitat.value != []
      && exists piece :: piece in Split(a.habitat.value, ',') && ToLower(Trim(piece)) == ToLower(biome)
  {
    FilterMembership(animals, a => LivesIn(a, biome), a);
    LivesInPiece(a, biome);
  }

  /** The habitat filter keeps the input order. */
  lemma BiomeAnimalsSubsequence(animals: seq<Animal>, biome: string)
    ensures IsSubsequence(BiomeAnimals(animals, biome), animals)
  {
    FilterSubsequence(animals, a => LivesIn(a, biome));
  }

  /** Filtering a concatenation is the concatenation of the filtered parts. */
  lemma BiomeAnimalsAppend(xs: seq<Animal>, ys: seq<Animal>, biome: string)
    ensures BiomeAnimals(xs + ys, biome) == BiomeAnimals(xs, biome) + BiomeAnimals(ys, biome)
  {
    FilterAppend(xs, ys, a => LivesIn(a, biome));
  }

  /** Querying the result of a query again returns it unchanged. */
  lemma BiomeAnimalsIdempotent(animals: seq<Animal>, biome: string)
    ensures BiomeAnimals(BiomeAnimals(animals, biome), biome) == BiomeAnimals(animals, biome)
  {
    FilterIdempotent(animals, a => LivesIn(a, biome));
  }

  /** The query is case-insensitive in the biome name. */
  lemma BiomeAnimalsIgnoresCase(animals: seq<Animal>, b1: string, b2: string)
    requires EqualIgnoringCase(b1, b2)
    ensures BiomeAnimals(animals, b1) == BiomeAnimals(animals, b2)
  {
    ToLowerEqual(b1, b2);
    FilterCongruent(animals, a => LivesIn(a, b1), a => LivesIn(a, b2));
  }

  // ---------------------------------------------------------------------
  // The built-in data set
  // ---------------------------------------------------------------------

  /** The data set used when `Organisms.json` cannot be loaded. */
  const FallbackAnimals: seq<Animal> := [
    Animal("Calico Cat", Some("Urban"), "Common"),
    Animal("Beagle Hound", Some("Urban"), "Uncommon")
  ]

  /** The habitat field "Urban" yields the one token "urban". */
  lemma UrbanTokens(habitat: string)
    requires habitat == "Urban"
    ensures HabitatTokens(habitat) == ["urban"]
  {
    assert Split(habitat, ',') == [habitat] by {
      SplitJoin([habitat], ',');
    }
    TrimOfTrimmed(habitat);
    assert ToLower(habitat) == "urban";
  }

  /** An animal of "Urban" is found exactly from the biome names that lower-case to "urban". */
  lemma UrbanOnly(a: Animal, biome: string)
    requires a.habitat == Some("Urban")
    ensures LivesIn(a, biome) <==> ToLower(biome) == "urban"
  {
    UrbanTokens(a.habitat.value);
  }

  /** Animals that all live only in "Urban" are all found, or none are. */
  lemma {:induction false} AllUrban(animals: seq<Animal>, biome: string)
    requires forall i :: 0 <= i < |animals| ==> animals[i].habitat == Some("Urban")
    ensures BiomeAnimals(animals, biome) == if ToLower(biome) == "urban" then animals else []
  {
    forall i | 0 <= i < |animals| ensures LivesIn(animals[i], biome) <==> ToLower(biome) == "urban" {
      UrbanOnly(animals[i], biome);
    }
    if ToLower(biome) == "urban" {
      FilterAllKept(animals, a => LivesIn(a, biome));
    } else {
      FilterNoneKept(animals, a => LivesIn(a, biome));
    }
  }

  /** Both fallback animals are found in "Urban" and none in "Ocean". */
  lemma FallbackQueries()
    ensures BiomeAnimals(FallbackAnimals, "Urban") == FallbackAnimals
    ensures BiomeAnimals(FallbackAnimals, "Ocean") == []
  {
    assert ToLower("Urban") == "urban" && ToLower("Ocean") != "urban";
    AllUrban(FallbackAnimals, "Urban");
    AllUrban(FallbackAnimals, "Ocean");
  }

  /** "Forest, Urban" splits on ',' into "Forest" and " Urban". */
  lemma ForestUrbanSplit()
    ensures Split("Forest, Urban", ',') == ["Forest", " Urban"]
  {
    var pieces := ["Forest", " Urban"];
    assert Join(pieces, ',') == "Forest, Urban";
    SplitJoin(pieces, ',');
  }

  /** " Urban" trims to "Urban" and "Forest" is already trimmed. */
  lemma ForestUrbanTrimmed()
    ensures Trim("Forest") == "Forest" && Trim(" Urban") == "Urban"
  {
    TrimOfTrimmed("Forest");
    assert TrimStart(" Urban") == TrimStart(" Urban"[1..]);
    assert " Urban"[1..] == "Urban";
    TrimOfTrimmed("Urban");
  }

  /** The pieces "Forest" and " Urban" normalise to "forest" and "urban". */
  lemma ForestUrbanNormalized(pieces: seq<string>)
    requires pieces == ["Forest", " Urban"]
    ensures NormalizeAll(pieces) == ["forest", "urban"]
  {
    ForestUrbanTrimmed();
    NormalizeAllAt(pieces, 0);
    NormalizeAllAt(pieces, 1);
    assert ToLower("Forest") == "forest";
    assert ToLower("Urban") == "urban";
  }

  /** The habitat field "Forest, Urban" yields the tokens "forest" and "urban". */
  lemma ForestUrbanTokens(habitat: string)
    requires habitat == "Forest, Urban"
    ensures HabitatTokens(habitat) == ["forest", "urban"]
  {
    ForestUrbanSplit();
    ForestUrbanNormalized(Split(habitat, ','));
  }

  /**
    An animal of "Forest, Urban" is found from any biome name that
    lower-cases to "forest" or "urban", such as "forest" and "Urban".
   */
  lemma TwoHabitats(a: Animal, biome: string)
    requires a.habitat == Some("Forest, Urban")
    requires ToLower(biome) == "forest" || ToLower(biome) == "urban"
    ensures LivesIn(a, biome)
  {
    ForestUrbanTokens(a.habitat.value);
    var tokens := HabitatTokens(a.habitat.value);
    assert tokens[0] == "forest" && tokens[1] == "urban";
  }
}
