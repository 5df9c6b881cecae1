# World Safari encounter logic in Dafny

A model of the encounter logic of the World Safari browser game
(`scripts.js`). When the player explores a biome, the game:

1. keeps the animals whose comma-separated `habitat` field names the
   biome, after trimming and lower-casing each piece;
2. builds a weighted pool in which each of those animals is repeated as
   many times as its rarity's weight (Common 50, Uncommon 80, Rare 40,
   Epic 20, Legendary 10, Mythical 1, anything else 10);
3. returns nothing for an empty pool, nothing 30% of the time, and
   otherwise one pool entry chosen at random;
4. updates the session counters: explorations, encounters and the set of
   species found.

Modules, one per concern:

- `Wrappers` (`wrappers.dfy`): `Option`, standing for JavaScript's
  `null`/`undefined`.
- `Text` (`text.dfy`): `split(',')`, `trim()` and `toLowerCase()` on
  strings, with lemmas relating them to their inverses and reference
  descriptions.
- `Catalog` (`catalog.dfy`): the `Animal` record, `Array.prototype.filter`
  as a generic function with its lemmas, the habitat callback, and the
  built-in two-animal data set.
- `Encounter` (`encounter.dfy`): the rarity weight table, the pool as a
  specification function, `BuildPool`, which fills the pool by nested
  loops as the source does, and `SelectAnimalByRarity`.
- `Session` (`session.dfy`): the `gameData` record as a class whose
  methods update its fields. It keeps the invariant
  `encounters <= explorations && |speciesFound| <= encounters`.

The two `Math.random()` draws of `selectAnimalByRarity` are inputs. The
boolean `suppressed` stands for "the first draw is below 0.3". The index
`k` stands for `Math.floor(Math.random() * pool.length)`, which is always
below the pool length. The loaded data set (`animalData.Animals`, or
`null` before loading) is a parameter of `ExploreCurrentBiome`.

Three details of `scripts.js` that the model keeps:

- Only the habitat pieces are trimmed. The biome name is lower-cased but
  not trimmed (scripts.js:139).
- An animal's habitats are a list, matched with `includes`.
- The weighting is a pool of whole-number repetitions: each animal is
  pushed once per unit of its weight.

## Model

| member | source | states |
|---|---|---|
| `Text.Split` | scripts.js:138 | `split(',')` yields one more piece than there are separators, and no piece contains a separator |
| `Text.JoinSplit` | scripts.js:138 | joining the pieces with the separator gives back the original habitat string |
| `Text.SplitPrefix` | scripts.js:138 | text free of separators in front of more text extends the first piece and leaves the others alone |
| `Text.SplitJoin` | scripts.js:138 | splitting a join of separator-free pieces gives the pieces back (the other direction of the round trip) |
| `Text.TrimStart` | scripts.js:138 | the result is no longer than the input and does not start with white space |
| `Text.TrimEnd` | scripts.js:138 | the result is no longer than the input and does not end with white space |
| `Text.TrimStartSlice` | scripts.js:138 | trimming the start removes a prefix made only of white space and keeps the rest |
| `Text.TrimEndSlice` | scripts.js:138 | trimming the end removes a suffix made only of white space and keeps the rest |
| `Text.TrimSlice` | scripts.js:138 | `trim()` keeps a slice `s[i..j]` with no white space at either end and drops only white space around it |
| `Text.Trim` | scripts.js:138 | `trim()` is no longer than its input and leaves white space at neither end |
| `Text.TrimOfTrimmed` | scripts.js:138 | a string without white space at either end is unchanged by `trim()` |
| `Text.TrimIdempotent` | scripts.js:138 | trimming twice is the same as trimming once |
| `Text.LowerChar` | scripts.js:138-139 | a character's lower-case form is never an upper-case ASCII letter; an upper-case ASCII letter's code point goes up by 32 ('A' becomes 'a') and other characters are kept |
| `Text.ToLower` | scripts.js:138-139 | `toLowerCase()` keeps the length and lower-cases every character in place |
| `Text.ToLowerEqual` | scripts.js:138-139 | two strings lower-case to the same string exactly when they differ only in letter case (both directions) |
| `Text.ToLowerIdempotent` | scripts.js:138-139 | lower-casing twice is the same as lower-casing once |
| `Catalog.Filter` | scripts.js:134-142 | `filter` returns no more elements than it is given, and every element it returns passes the callback |
| `Catalog.FilterMembership` | scripts.js:134-142 | an element is in the filtered list exactly when it is in the input and passes the callback |
| `Catalog.FilterSubsequence` | scripts.js:134 | the filtered list is an order-preserving subsequence of the input |
| `Catalog.FilterAppend` | scripts.js:134 | filtering a concatenation gives the filtered parts in their original order |
| `Catalog.FilterAllKept` | scripts.js:134 | a list whose every element passes the callback is returned unchanged |
| `Catalog.FilterNoneKept` | scripts.js:134 | a list in which no element passes the callback filters to the empty list |
| `Catalog.FilterIdempotent` | scripts.js:134 | filtering an already filtered list changes nothing |
| `Catalog.FilterCongruent` | scripts.js:134 | callbacks that agree on every element give the same filtered list |
| `Catalog.NormalizeAll` | scripts.js:138 | the `map(h => h.trim().toLowerCase())` step keeps one token per habitat piece |
| `Catalog.NormalizeAllAt` | scripts.js:138 | token `i` is piece `i` trimmed and lower-cased |
| `Catalog.HabitatTokens` | scripts.js:138 | a habitat field gives one token per comma-separated piece, one more than its number of commas |
| `Catalog.LivesInPiece` | scripts.js:135-141 | `LivesIn`, the filter's callback, holds exactly when the habitat is present and non-empty and some trimmed, lower-cased comma piece equals the lower-cased biome |
| `Catalog.BiomeAnimals` | scripts.js:134-142 | `biomeAnimals` is no longer than the data, and every animal in it lives in the biome |
| `Catalog.BiomeAnimalsMembership` | scripts.js:134-142 | an animal is among `biomeAnimals` exactly when it is in the data and its present, non-empty habitat has a piece that matches the biome; a missing or empty habitat is never kept |
| `Catalog.BiomeAnimalsSubsequence` | scripts.js:134 | `biomeAnimals` keeps the order of `animalData.Animals` |
| `Catalog.BiomeAnimalsAppend` | scripts.js:134 | filtering two concatenated lists of animals is the concatenation of the two filtered lists |
| `Catalog.BiomeAnimalsIdempotent` | scripts.js:134-142 | querying the result of a habitat query again returns it unchanged |
| `Catalog.BiomeAnimalsIgnoresCase` | scripts.js:138-141 | biome names that differ only in letter case select the same animals |
| `Catalog.UrbanTokens` | scripts.js:30 | the habitat field "Urban" yields the single token "urban" |
| `Catalog.UrbanOnly` | scripts.js:134-142 | an animal of "Urban" is kept exactly for the biome names that lower-case to "urban" |
| `Catalog.AllUrban` | scripts.js:134-142 | a list of "Urban" animals is returned whole for a biome that lower-cases to "urban", and as the empty list for any other biome |
| `Catalog.FallbackQueries` | scripts.js:25-60 | with the built-in data set `FallbackAnimals`, "Urban" returns both animals in order and "Ocean" returns none |
| `Catalog.ForestUrbanSplit` | scripts.js:138 | "Forest, Urban" splits into "Forest" and " Urban" |
| `Catalog.ForestUrbanTrimmed` | scripts.js:138 | " Urban" trims to "Urban" and "Forest" is unchanged |
| `Catalog.ForestUrbanNormalized` | scripts.js:138 | the pieces "Forest" and " Urban" normalise to "forest" and "urban" |
| `Catalog.ForestUrbanTokens` | scripts.js:138 | the habitat "Forest, Urban" yields the tokens "forest" and "urban" |
| `Catalog.TwoHabitats` | scripts.js:137-141 | an animal of "Forest, Urban" is found from any biome name that lower-cases to "forest" or "urban" |
| `Encounter.Weight` | scripts.js:174 | every weight is at least 1; a rarity in the table gets its table weight, and any other rarity gets 10 |
| `Encounter.WeightTable` | scripts.js:64-71 | `rarityWeights` gives Common 50, Uncommon 80, Rare 40, Epic 20, Legendary 10 and Mythical 1; any other tag weighs 10 |
| `Encounter.TotalWeight` | scripts.js:172-178 | the total weight is at least the number of candidates, since every weight is at least 1 |
| `Encounter.Repeat` | scripts.js:175-177 | the inner loop pushes exactly `weight` copies of the animal |
| `Encounter.Pool` | scripts.js:172-178 | the pool length is the sum of the candidates' weights, and every pool entry is one of the candidates |
| `Encounter.BuildPool` | scripts.js:172-178 | the `forEach` and `for` loops fill the pool with each candidate's block of copies, in candidate order |
| `Encounter.OffsetStep` | scripts.js:173-178 | the blocks are contiguous: block `i + 1` starts where block `i` ends, the first starts at 0 and the last ends at the pool length |
| `Encounter.PoolPrefix` | scripts.js:173-178 | the pool built from the first `n` candidates is a prefix of the whole pool, so later candidates never move earlier blocks |
| `Encounter.OffsetInit` | scripts.js:173-178 | adding a later candidate does not move the block of any earlier candidate |
| `Encounter.PoolBlock` | scripts.js:173-178 | block `i` holds `weight` copies of candidate `i` at positions `Offset(i)` up to `Offset(i + 1)` |
| `Encounter.BlockOf` | scripts.js:186 | every pool index lies in the block of some candidate, and the entry there is that candidate |
| `Encounter.OffsetMono` | scripts.js:173-178 | blocks of candidates further along the list start strictly later in the pool |
| `Encounter.BlockUnique` | scripts.js:186 | no other candidate's block contains the index, so the drawn index picks exactly one candidate's block |
| `Encounter.RepeatCount` | scripts.js:175-177 | a block of `n` copies of `y` holds `x` exactly `n` times if `x == y`, and otherwise not at all |
| `Encounter.PoolCount` | scripts.js:173-178 | an animal occurs in the pool exactly as often as the sum of its entries' weights |
| `Encounter.SelectAnimalByRarity` | scripts.js:170-187 | an empty candidate list gives `null` whatever the draws; a firing suppression draw gives `null`; otherwise the result is `pool[k]`, which is always one of the candidates |
| `Encounter.FallbackPool` | scripts.js:64-71 | with the built-in data set the pool has 130 entries: 50 cats followed by 80 hounds |
| `Session.Candidates` | scripts.js:129-142 | with no biome (`NoBiome`: `null` or the empty name) or no data there are no candidates; otherwise an animal is a candidate exactly when it is in the data and lives in the biome |
| `Session.GameData.constructor` | scripts.js:2-7 | a session starts with no biome, zero counters and no species found |
| `Session.GameData.EnterBiome` | scripts.js:117-118 | `enterBiome` sets the current biome and keeps the counters and the invariant |
| `Session.GameData.ReturnToBiomes` | scripts.js:269-270 | `returnToBiomes` clears the current biome and keeps the counters and the invariant |
| `Session.GameData.ExploreCurrentBiome` | scripts.js:128-168 | with no biome (or an empty name) or no data nothing changes; otherwise explorations rise by exactly 1; encounters rise by 1 and the species set gains the animal's name exactly when an animal is selected, which happens exactly when the filtered list is non-empty and the encounter is not suppressed; the selected animal is `pool[k]` of the biome's animals; `encounters <= explorations` and `|speciesFound| <= encounters` are kept |

## Left out

- `loadAnimalData` (scripts.js:12-62) fetches and parses `Organisms.json`. That is I/O, so the loaded data is a parameter. Its fallback data set is kept as the constant `FallbackAnimals`. A payload without an `Animals` list, which makes the filter throw, is not modelled.
- The probabilities of `Math.random()` are not modelled. That covers the 30% chance of no encounter and the uniform choice of a pool index. Both draws are inputs, and statements about frequencies are floating-point statistics outside this model.
- The DOM and presentation code is not modelled: `showAnimalEncounter`, `showNoEncounter`, `hideEncounterResult`, `updateStats`, `addLogEntry` (which reads the clock), `handleBiomeClick`, `initGame`, the `rarityColors` table, the `moves.split(', ')` used only for display, and the `console.log` calls.
- `Text.ToLower` lower-cases only ASCII letters. JavaScript's `toLowerCase` also maps the rest of Unicode, which this model does not capture.
- `Encounter.Weight` looks up a finite table. A JavaScript object lookup also sees inherited prototype keys: a rarity named "constructor", for example, gets a function instead of 10. This model does not capture that.
- `Catalog.Animal` carries only `name`, `habitat` and `rarity`. The other fields are passed through untouched and are only displayed, except that a truthy non-string `moves` makes the display throw (see `Session.GameData.ExploreCurrentBiome` below). A `habitat` that is present but not a string is not modelled.
- `Session.GameData.EnterBiome` takes a string. A biome card without a `data-biome` attribute would pass `undefined`. Like the empty string, that is falsy, so exploration does nothing either way.
- `Session.GameData.ExploreCurrentBiome` assumes that `showAnimalEncounter` (scripts.js:158) returns normally. That holds when `rarity` is a string and `moves` is missing, empty or a string. In the source, a missing or non-string `rarity` (scripts.js:223) or a truthy non-string `moves` (scripts.js:247) makes it throw. The exploration is then already counted, but `encounters` and `speciesFound` are not updated although an animal was selected. This model does not capture that path.
- The counters are JavaScript numbers, modelled as unbounded naturals. The loss of precision beyond 2^53 is not modelled.
