# RandomItems item pool, in Dafny

This project models the item-pool logic of the `RandomItems` plugin, a mod
that gives the player a random item at fixed intervals. The model covers:

- **The field decoder** (`ConvertDynamicObjectValueTString`). It turns a
  runtime-tagged repository value into text. A `ZString` gives its text. A
  `bool` gives `"true"` or `"false"`. A `float64` goes through
  `std::to_string`. Any other type gives its type name. Every result passes
  through `.c_str()`, so it is cut at the first NUL character.
- **The pool rebuild** (`LoadRepositoryProps`). The rebuild does four things:
  - It clears the pool.
  - It collects the enabled category names from the parallel flag vector.
  - It scans every repository entry's key/value pairs in order:
    - `ID_` remembers the pending id.
    - `Title` records the title, pairs it with the pending id, and rejects an
      empty title unless titleless items are included.
    - `InventoryCategoryIcon` is upper-cased and must equal an upper-cased
      enabled name exactly.
    - `IsHitmanSuit` rejects the entry and stops the scan.
  - It inserts each admitted `(title, id)` pair into a `std::multimap` keyed
    by title.
- **The pool itself.** It is a sequence ordered by `std::string` `<` on
  titles. Pairs with equal titles stay in insertion order, as
  `std::multimap::insert` keeps them.
- **Indexed access and the draw** (`GetRepositoryPropFromIndex`, and the
  first part of `GiveRandomItem`). An empty pool is rebuilt first, then
  `rand() % size` selects a position.
- **The per-frame trigger** (`OnFrameUpdate`) and the Start/Stop button.
  The button rebuilds the pool only when the plugin goes from stopped to
  running.
- **The configuration fields and their defaults.** These are the fields of the
  class `Plugin.RandomItems`.

Modules: `Catalog` (catalog.dfy) holds the values, the decoder and the
per-entry scan. `Pool` (pool.dfy) holds the title order, the multimap insert,
the built pool and the draw. `Trigger` (trigger.dfy) holds the timer as a
state machine. `Plugin` (random_items.dfy) holds the class and the methods
that run the source's loops. Each loop method is proved equal to a
specification function, and the properties are proved as lemmas about those
functions.

Things the engine supplies become inputs, gathered in the `Host` datatype:
- whether the repository resource is valid;
- the repository entries, in hash-map iteration order;
- `std::to_string` for doubles, as a function parameter.

The random number is a parameter of the draw. Time is a mathematical real.

Three behaviours of the code are easy to misread, and the model keeps them as written:
- The rebuild clears the pool before it checks whether the resource is valid.
  An invalid resource therefore leaves an empty pool, not the previous pool.
- When the pool is still empty after the rebuild, the code computes
  `rand() % 0`. That is undefined behaviour in C++, not a skipped draw. The
  model reports it as the `ModuloByZero` outcome.
- The rebuild inserts straight into the member multimap. It does not build a
  separate pool and swap it in.

## Model

| member | source | states |
|---|---|---|
| Catalog.CStr | src/RandomItems.cpp:259-263 | the text kept from a C string is its longest prefix without NUL, and the character after it, if any, is NUL |
| Catalog.CStrOfPlainText | src/RandomItems.cpp:261-262 | text without NUL survives `.c_str()` unchanged |
| Catalog.ConvertToString | src/RandomItems.cpp:254-287 | the decoder is total and never yields NUL; a string gives its payload (when NUL-free), a bool gives exactly "true"/"false", an other-typed value gives its type name |
| Catalog.UpperChar | src/RandomItems.cpp:217 | `::toupper` sends each of 'a'..'z' to its own capital (same offset from 'A' as from 'a'), leaves no lower-case ASCII letter, and changes nothing else |
| Catalog.Upper | src/RandomItems.cpp:215-217 | upper-casing keeps the length and maps each character by `toupper` |
| Catalog.UpperCharEqual | src/RandomItems.cpp:217-224 | two characters upper-case to the same character exactly when they are equal or the same ASCII letter in the other case |
| Catalog.UpperEqual | src/RandomItems.cpp:217-224 | two strings upper-case to the same string exactly when they have the same length and agree position by position up to ASCII case |
| Catalog.CategoryMatches | src/RandomItems.cpp:219-228 | a matching category text contains no lower-case ASCII letter, since it equals an upper-cased enabled name; the category side is upper-cased at line 217 for that reason |
| Catalog.CategoryMatchIgnoresCase | src/RandomItems.cpp:213-228 | an entry's category text matches exactly when some enabled name equals it up to ASCII case, both directions |
| Catalog.CategoryMatchExamples | src/RandomItems.cpp:219-228 | matching is exact after upper-casing: "Pistol" matches "pistol" and "PiStOl", a prefix or a longer word does not match, nothing matches an empty list, and "" matches "" |
| Catalog.Step | src/RandomItems.cpp:196-235 | one field: an exclusion is never undone, a title once seen stays seen, the scan only stops by excluding the entry, and while titleless items are excluded an included entry with a title keeps a non-empty one; ScanSummary, ScanLatestId and ScanPairing say what each key does |
| Catalog.Scan | src/RandomItems.cpp:194-236 | after any prefix of fields a stopped scan has excluded the entry, and while titleless items are excluded an included entry with a title has a non-empty one; ScanSummary, ScanLatestId and ScanPairing give the field-by-field description |
| Catalog.Admission | src/RandomItems.cpp:239-241 | with titleless items excluded, an admitted pair never has an empty title; AdmissionCharacterized states the test both ways |
| Catalog.Admitted | src/RandomItems.cpp:182-243 | each entry contributes at most one pair; AdmittedExactly says which pairs |
| Catalog.AdmittedTitlesNonEmpty | src/RandomItems.cpp:209-211 | with titleless items excluded, no pair admitted from a catalog has an empty title |
| Catalog.LastIndexOf | src/RandomItems.cpp:194-207 | the position found is the last field with that key, and there is none exactly when no field has the key |
| Catalog.ScanSummary | src/RandomItems.cpp:187-236 | after any prefix of fields the scan has stopped exactly when a suit flag was seen (and then the entry is excluded); otherwise `s_Included` holds exactly when every category matches and every title is allowed, and `s_HasTitle` exactly when a Title field was seen |
| Catalog.ScanLatestId | src/RandomItems.cpp:198-201 | the pending id is the value of the last ID_ field seen, or empty |
| Catalog.ScanPairing | src/RandomItems.cpp:202-207 | the title kept is the last Title seen, and the id stored with it is the last ID_ before that Title; with no Title both are empty |
| Catalog.ScanStopsAtSuit | src/RandomItems.cpp:230-235 | fields after the suit flag never affect the scan |
| Catalog.AdmissionCharacterized | src/RandomItems.cpp:187-242 | an entry is admitted if and only if it has no suit flag, every category field names an enabled category, no title is empty unless titleless items are allowed, and it has a title or titleless items are allowed |
| Catalog.AdmittedPair | src/RandomItems.cpp:198-242 | an admitted entry contributes (last Title, last ID_ before it), or ("", "") when it has no Title; an ID_ after the Title does not change the pair |
| Catalog.SuitNeverAdmitted | src/RandomItems.cpp:230-235 | an entry with an IsHitmanSuit field is never admitted, whatever its other fields |
| Catalog.MismatchedCategoryExcludes | src/RandomItems.cpp:213-229 | a single category field that matches no enabled name excludes the entry |
| Catalog.NoCategoryEnabledExcludes | src/RandomItems.cpp:219-228 | with no category enabled, every entry having a category field is excluded |
| Catalog.EmptyTitleExcludes | src/RandomItems.cpp:209-211 | an empty title excludes the entry when titleless items are disabled |
| Catalog.AdmittedSource | src/RandomItems.cpp:182-243 | every admitted pair comes from an entry of the catalog that is admitted with that pair, and the lemma returns its position |
| Catalog.AdmittedContains | src/RandomItems.cpp:239-241 | the pair of every admitted entry is among the admitted pairs |
| Catalog.AdmittedExactly | src/RandomItems.cpp:182-243 | a pair is among the admitted pairs of a catalog exactly when some entry of the catalog is admitted with that pair |
| Pool.BelowIrreflexive | src/RandomItems.h:33 | no title is below itself in `std::string` order (`Below` models that order; with BelowTransitive and BelowTotal it is a strict total order) |
| Pool.BelowTransitive | src/RandomItems.h:33 | `std::string` order is transitive |
| Pool.BelowTotal | src/RandomItems.h:33 | any two different titles are ordered one way or the other |
| Pool.Insert | src/RandomItems.cpp:241 | inserting makes the pool one pair longer |
| Pool.InsertAddsExactlyOne | src/RandomItems.cpp:241 | inserting adds exactly the one new pair to the pool's contents, as a multiset |
| Pool.InsertKeepsSorted | src/RandomItems.cpp:241 | inserting into a title-ordered pool keeps it ordered by title |
| Pool.InsertStable | src/RandomItems.cpp:241 | the inserted pair lands after every pair that already has its title |
| Pool.BuildPool | src/RandomItems.cpp:182-243 | the pool left by inserting the admitted pairs one by one has one element per insertion; BuildPoolSorted, BuildPoolPermutation and BuildPoolStable give its order and contents |
| Pool.BuildPoolSorted | src/RandomItems.h:33 | the pool built by repeated insertion is ordered by title |
| Pool.BuildPoolPermutation | src/RandomItems.cpp:241 | the built pool holds exactly the inserted pairs with their multiplicities (duplicate titles are kept) |
| Pool.BuildPoolStable | src/RandomItems.cpp:241 | for every title, the pairs with that title appear in the pool in insertion order |
| Pool.BuildPoolMembers | src/RandomItems.cpp:241 | a pair is in the built pool exactly when it was inserted |
| Pool.DrawIndex | src/RandomItems.cpp:302 | `rand() % size` is a valid position, never larger than the random number, and is the random number itself when that is below the size |
| Pool.Draw | src/RandomItems.cpp:302-303 | the draw yields a pool element exactly when the pool is non-empty, i.e. `rand() % size` is in bounds exactly then |
| Pool.DrawReachesPosition | src/RandomItems.cpp:302-303 | with `std::rand()` bounded by a platform `RAND_MAX`, a position is drawn by some random number exactly when it is not above `RAND_MAX`; positions past it are never drawn |
| Pool.SmallPoolFullyDrawable | src/RandomItems.cpp:302-303 | on any platform whose `RAND_MAX` is at least the standard's minimum 32767, every position of a pool of at most 32768 pairs can be drawn |
| Trigger.Tick | src/RandomItems.cpp:118-127 | a tick never changes the delay or the running flag; it gives an item exactly when running and elapsed plus delta reaches the delay, and then the accumulator is 0; otherwise it is elapsed plus delta while running and unchanged while stopped |
| Trigger.IdleTicksChangeNothing | src/RandomItems.cpp:119 | while stopped, any sequence of ticks changes nothing and gives nothing |
| Trigger.RunKeepsConfiguration | src/RandomItems.cpp:118-127 | ticks never change the delay or the running flag |
| Trigger.GivesBoundedByTime | src/RandomItems.cpp:121-126 | with a positive delay and non-negative deltas, gives times delay plus the remaining accumulator never exceed the time that passed |
| Trigger.ElapsedStaysBelowDelay | src/RandomItems.cpp:121-126 | with a positive delay, after any tick of a running timer the accumulator is below the delay |
| Trigger.ExampleTrace | src/RandomItems.cpp:118-127 | with the default 2 s delay, ticks 0.5, 0.5, 0.5, 0.6 give exactly one item, on the fourth tick, and leave the accumulator at 0 |
| Plugin.CategoryVocabulary | src/RandomItems.h:37-41 | the vocabulary has exactly 12 distinct names, every character of which is a lower-case ASCII letter |
| Plugin.IncludedCategories | src/RandomItems.cpp:158-164 | the included list is no longer than the vocabulary and holds only vocabulary names; IncludedCategoriesExactly says which |
| Plugin.IncludedCategoriesExactly | src/RandomItems.cpp:158-164 | a name is in the included list exactly when some enabled position holds it |
| Plugin.AllEnabledIncludesAll | src/RandomItems.cpp:158-164 | with every flag set the included list is the whole vocabulary in its order |
| Plugin.NoneEnabledIncludesNone | src/RandomItems.cpp:158-164 | with no flag set the included list is empty |
| Plugin.RebuildPool | src/RandomItems.cpp:151-245 | a rebuilt pool is ordered by title and has at most one pair per repository entry |
| Plugin.RebuildPoolContents | src/RandomItems.cpp:151-245 | a rebuilt pool is empty when the resource is not valid; otherwise it is a permutation of the admitted pairs, with equal titles in catalog order |
| Plugin.PoolItemsPassFilter | src/RandomItems.cpp:182-243 | every pooled pair comes from an entry with no suit flag, only enabled categories, allowed titles, and a title unless titleless items are included |
| Plugin.AdmittedItemsArePooled | src/RandomItems.cpp:238-242 | every admitted entry's pair is in the rebuilt pool |
| Plugin.CollectIncludedCategories | src/RandomItems.cpp:158-164 | the loop collects exactly the enabled names in vocabulary order |
| Plugin.MatchCategory | src/RandomItems.cpp:219-228 | the loop answers whether the category equals some upper-cased enabled name |
| Plugin.ScanEntry | src/RandomItems.cpp:187-236 | the field loop, including its break at the suit flag, ends with the flags, title and id of the scan specification |
| Plugin.RandomItems.constructor | src/RandomItems.h:25-45 | initially stopped, elapsed 0, delay 2 s, titleless items excluded, spawn-in-world on, empty pool, and 12 category flags all enabled |
| Plugin.RandomItems.LoadRepositoryProps | src/RandomItems.cpp:151-245 | the pool afterwards is the rebuilt pool for the current repository and settings, whatever it held before; it stays title-ordered and the flags stay parallel to the vocabulary |
| Plugin.RandomItems.GetRepositoryPropFromIndex | src/RandomItems.cpp:135-145 | for 0 <= i < size it returns the i-th pair in iteration order; for any other i, negative included, it fails |
| Plugin.RandomItems.GiveRandomItem | src/RandomItems.cpp:292-303 | an empty pool is rebuilt first, a non-empty one is left alone; the gift is the pair at `rand % size` with the spawn mode, or `ModuloByZero` when the pool is still empty |
| Plugin.RandomItems.OnFrameUpdate | src/RandomItems.cpp:118-127 | the timer moves exactly as one trigger tick; an item is given exactly when the tick fires, and only then is the pool possibly rebuilt |
| Plugin.RandomItems.OnStartStopPressed | src/RandomItems.cpp:70-73 | the running flag flips; the pool is rebuilt only on the stopped-to-running transition; the accumulator is not reset |
| Plugin.RandomItems.SetCategoryEnabled | src/RandomItems.cpp:89-98 | a checkbox changes only its own flag; the pool is a snapshot until the next rebuild |

## Left out

- User interface drawing: `OnDrawMenu` and the rest of `OnDrawUI`. This is ImGui rendering. Of it, only the Start/Stop button and the category checkbox write-back are modelled. The delay, spawn-mode and titleless inputs are plain field writes.
- Engine registration and deregistration in `OnEngineInitialized` and the destructor. These are framework calls.
- Resource loading through `GetResourcePtr` and `GetResourceInfo`, and the `THashMap` cast. The repository is an input sequence in iteration order, plus a validity flag.
- `ZRepositoryID` construction. It parses the id text as a GUID; the model keeps the decoded text as the id.
- Everything in `GiveRandomItem` after the pair is chosen. This covers the local-player lookup, entity spawning, the inventory call and their failure paths. The model stops at the abstract `Give(pair, spawnInWorld)` outcome.
- `std::srand(time)` and `std::rand`. The random number is a parameter of the draw and is not bounded there. `RAND_MAX` is platform-defined, so it is a parameter of `Pool.DrawReachesPosition` rather than a constant. The distribution, including the modulo bias of `rand() % size`, is not modelled.
- Text is Dafny `string`, a sequence of Unicode scalar values, where the source works on the bytes of `std::string`. For UTF-8 text, equality, emptiness and the `std::string` `<` order agree with the byte form. Case folding does not: `::toupper` at src/RandomItems.cpp:217 and 224 receives each `char`, and a non-ASCII byte is negative where `char` is signed, which is undefined behaviour. `Catalog.UpperChar` leaves every non-ASCII character unchanged instead.
- `std::to_string(double)`. It is a parameter of the decoder, so the text of floats is not modelled. IEEE doubles for the timer are modelled as mathematical reals, without rounding.
- The conversion of the drawn index from `size_t` to `int` at src/RandomItems.cpp:303. This only matters for pools larger than `INT_MAX`, which the model does not bound.
- Plugin.RandomItems.GiveRandomItem: the model returns `ModuloByZero` for `rand() % 0`. In the source this is undefined behaviour, most likely a crash, and the model does not capture that.
- Plugin.RandomItems.OnFrameUpdate: when the draw hits `rand() % 0`, the model still resets the accumulator. The source never gets there.
- The unused fields `m_ShowMessage` (UI visibility) and `m_HitmanItemPosition` (its only use is commented out).
- Logging.
