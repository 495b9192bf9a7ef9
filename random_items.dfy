/**
 * The RandomItems plugin object: its configuration and timer fields, the
 * pool rebuild over the repository, indexed access to the pool, the random
 * draw, the per-frame trigger and the Start/Stop toggle.
 */
module Plugin {
  import opened Catalog
  import opened Pool
  import opened Trigger

  /** The categories the user can toggle, in menu order. */
  const AllCategoryNames: seq<string> := [
    "assaultrifle", "sniperrifle", "melee",       "explosives",
    "tool",         "pistol",      "shotgun",     "suitcase",
    "smg",          "distraction", "poison",      "container"
  ]

  lemma CategoryVocabulary()
    ensures |AllCategoryNames| == 12
    ensures forall i, j :: 0 <= i < j < |AllCategoryNames| ==> AllCategoryNames[i] != AllCategoryNames[j]
    ensures forall i, k :: 0 <= i < |AllCategoryNames| && 0 <= k < |AllCategoryNames[i]| ==> IsLowerAscii(AllCategoryNames[i][k])
  {
  }

  /**
   * What the engine supplies: whether the repository resource is loaded and
   * valid, its entries in iteration order, and std::to_string for doubles.
   */
  datatype Host = Host(resourceValid: bool, catalog: seq<Entry>, formatFloat: real -> string)

  /** The outcome of a draw: the pair handed to the spawner or the inventory, or `rand() % 0`. */
  datatype Gift = Give(prop: Prop, spawnInWorld: bool) | ModuloByZero

  /** The enabled category names, in vocabulary order. */
  function IncludedCategories(names: seq<string>, enabled: seq<bool>): (r: seq<string>)
    requires |enabled| == |names|
    ensures |r| <= |names|
    ensures forall k :: 0 <= k < |r| ==> r[k] in names
    decreases |names|
  {
    if names == [] then []
    else
      var n := |names| - 1;
      IncludedCategories(names[..n], enabled[..n]) + (if enabled[n] then [names[n]] else [])
  }

  /** A name is included exactly when one of its positions is enabled; the list is no longer than the vocabulary. */
  lemma {:induction false} IncludedCategoriesExactly(names: seq<string>, enabled: seq<bool>, x: string)
    requires |enabled| == |names|
    ensures x in IncludedCategories(names, enabled) <==> exists i :: 0 <= i < |names| && enabled[i] && names[i] == x
    decreases |names|
  {
    if names != [] {
      var n := |names| - 1;
      IncludedCategoriesExactly(names[..n], enabled[..n], x);
      if exists i :: 0 <= i < |names| && enabled[i] && names[i] == x {
        var i :| 0 <= i < |names| && enabled[i] && names[i] == x;
        if i < n {
          assert names[..n][i] == x && enabled[..n][i];
        }
      }
    }
  }

  lemma {:induction false} AllEnabledIncludesAll(names: seq<string>, enabled: seq<bool>)
    requires |enabled| == |names|
    requires forall i :: 0 <= i < |enabled| ==> enabled[i]
    ensures IncludedCategories(names, enabled) == names
    decreases |names|
  {
    if names != [] {
      var n := |names| - 1;
      AllEnabledIncludesAll(names[..n], enabled[..n]);
      assert names[..n] + [names[n]] == names;
    }
  }

  lemma {:induction false} NoneEnabledIncludesNone(names: seq<string>, enabled: seq<bool>)
    requires |enabled| == |names|
    requires forall i :: 0 <= i < |enabled| ==> !enabled[i]
    ensures IncludedCategories(names, enabled) == []
    decreases |names|
  {
    if names != [] {
      var n := |names| - 1;
      NoneEnabledIncludesNone(names[..n], enabled[..n]);
    }
  }

  /** The pool a rebuild leaves: empty when the resource is not valid, else the admitted pairs inserted in catalog order. */
  function RebuildPool(host: Host, c: Config): (r: seq<Prop>)
    ensures Sorted(r)
    ensures |r| <= |host.catalog|
  {
    if host.resourceValid then
      BuildPoolSorted(Admitted(host.catalog, c));
      BuildPool(Admitted(host.catalog, c))
    else []
  }

  /**
   * What a rebuilt pool holds: nothing when the resource is not valid;
   * otherwise exactly the pairs of the admitted entries, each as often as it
   * is admitted, with equal titles in catalog order.
   */
  lemma RebuildPoolContents(host: Host, c: Config, t: string)
    ensures !host.resourceValid ==> RebuildPool(host, c) == []
    ensures host.resourceValid ==> multiset(RebuildPool(host, c)) == multiset(Admitted(host.catalog, c))
    ensures host.resourceValid ==> WithTitle(RebuildPool(host, c), t) == WithTitle(Admitted(host.catalog, c), t)
  {
    if host.resourceValid {
      BuildPoolPermutation(Admitted(host.catalog, c));
      BuildPoolStable(Admitted(host.catalog, c), t);
    }
  }

  /** Every pooled pair comes from an entry that passes the suit, category and title rules. */
  lemma PoolItemsPassFilter(host: Host, c: Config, p: Prop)
    requires p in RebuildPool(host, c)
    ensures host.resourceValid
    ensures exists i :: (0 <= i < |host.catalog| &&
      Admission(host.catalog[i], c) == Some(p) &&
      !HasKey(host.catalog[i], SuitKey) && CategoriesEnabled(host.catalog[i], c) &&
      TitlesAllowed(host.catalog[i], c) && (HasKey(host.catalog[i], TitleKey) || c.includeWithoutTitle))
  {
    BuildPoolMembers(Admitted(host.catalog, c), p);
    AdmittedExactly(host.catalog, c, p);
    var i :| 0 <= i < |host.catalog| && Admission(host.catalog[i], c) == Some(p);
    AdmissionCharacterized(host.catalog[i], c);
  }

  /** Every admitted entry's pair is in the rebuilt pool. */
  lemma AdmittedItemsArePooled(host: Host, c: Config, i: nat)
    requires host.resourceValid && i < |host.catalog| && Admission(host.catalog[i], c).Some?
    ensures Admission(host.catalog[i], c).value in RebuildPool(host, c)
  {
    var p := Admission(host.catalog[i], c).value;
    AdmittedExactly(host.catalog, c, p);
    BuildPoolMembers(Admitted(host.catalog, c), p);
  }

  lemma AdmittedStep(catalog: seq<Entry>, e: nat, c: Config)
    requires e < |catalog|
    ensures Admitted(catalog[..e + 1], c) ==
      Admitted(catalog[..e], c) + (match Admission(catalog[e], c) case Some(p) => [p] case None => [])
  {
    assert catalog[..e + 1][..e] == catalog[..e];
  }

  lemma BuildPoolStep(items: seq<Prop>, p: Prop)
    ensures BuildPool(items + [p]) == Insert(BuildPool(items), p)
  {
    assert (items + [p])[..|items|] == items;
  }

  // ---------------------------------------------------------------------------
  // The loops of the rebuild
  // ---------------------------------------------------------------------------

  /** Step 2 of the rebuild: collect the enabled category names. */
  method CollectIncludedCategories(names: seq<string>, enabled: seq<bool>) returns (included: seq<string>)
    requires |enabled| == |names|
    ensures included == IncludedCategories(names, enabled)
  {
    included := [];
    var i := 0;
    while i < |names|
      invariant 0 <= i <= |names|
      invariant included == IncludedCategories(names[..i], enabled[..i])
    {
      if enabled[i] {
        included := included + [names[i]];
      }
      i := i + 1;
      assert names[..i][..i - 1] == names[..i - 1];
      assert enabled[..i][..i - 1] == enabled[..i - 1];
    }
    assert names[..i] == names && enabled[..i] == enabled;
  }

  /** The inner loop over the enabled categories, stopping at the first match. */
  method MatchCategory(cat: string, wanted: seq<string>) returns (matched: bool)
    ensures matched == CategoryMatches(cat, wanted)
  {
    matched := false;
    var j := 0;
    while j < |wanted|
      invariant 0 <= j <= |wanted|
      invariant forall k :: 0 <= k < j ==> Upper(wanted[k]) != cat
    {
      var tmp := Upper(wanted[j]);
      if tmp == cat {
        matched := true;
        break;
      }
      j := j + 1;
    }
  }

  /** The loop over the key/value pairs of one entry (step 6 of the rebuild). */
  method ScanEntry(entry: Entry, c: Config) returns (included: bool, hasTitle: bool, title: string, repoId: string)
    ensures included == Scan(entry, c).included && hasTitle == Scan(entry, c).hasTitle
    ensures title == Scan(entry, c).title && repoId == Scan(entry, c).repoId
  {
    var id := "";
    included, hasTitle, title, repoId := true, false, "", "";
    var i := 0;
    while i < |entry|
      invariant 0 <= i <= |entry|
      invariant Scan(entry[..i], c) == ScanState(included, hasTitle, id, title, repoId, false)
    {
      var kv := entry[i];
      assert entry[..i + 1][..i] == entry[..i];
      assert Scan(entry[..i + 1], c) == Step(Scan(entry[..i], c), kv, c);
      var key := CStr(kv.key);
      if key == IdKey {
        id := ConvertToString(kv.value, c.formatFloat);
      } else if key == TitleKey {
        hasTitle := true;
        var t := ConvertToString(kv.value, c.formatFloat);
        title := t;
        repoId := id;
        if t == [] && !c.includeWithoutTitle {
          included := false;
        }
      } else if key == CategoryKey {
        var cat := Upper(ConvertToString(kv.value, c.formatFloat));
        var matched := MatchCategory(cat, c.categories);
        if !matched {
          included := false;
        }
      } else if key == SuitKey {
        included := false;
        assert HasKey(entry[..i + 1], SuitKey) by {
          assert IsKey(entry[..i + 1][i], SuitKey);
        }
        ScanStopsAtSuit(entry[..i + 1], entry[i + 1..], c);
        assert entry[..i + 1] + entry[i + 1..] == entry;
        break;
      }
      i := i + 1;
    }
    assert i == |entry| ==> entry[..i] == entry;
  }

  // ---------------------------------------------------------------------------
  // The plugin object
  // ---------------------------------------------------------------------------

  class RandomItems {
    var elapsedTime: real
    var delaySeconds: real
    var running: bool
    var spawnInWorld: bool
    var includeItemsWithoutTitle: bool
    /** The multimap from title to repository id, in iteration order. */
    var repositoryProps: seq<Prop>
    const allCategories: seq<string> := AllCategoryNames
    /** Parallel to `allCategories`: true when that category is enabled. */
    var categoryEnabled: seq<bool>

    ghost predicate Valid()
      reads this
    {
      |categoryEnabled| == |allCategories| && Sorted(repositoryProps)
    }

    function TimerState(): Timer
      reads this
    {
      Timer(elapsedTime, delaySeconds, running)
    }

    /** The filter a rebuild applies with the current settings. */
    function FilterConfig(host: Host): Config
      reads this
      requires |categoryEnabled| == |allCategories|
    {
      Config(IncludedCategories(allCategories, categoryEnabled), includeItemsWithoutTitle, host.formatFloat)
    }

    constructor ()
      ensures Valid()
      ensures !running && elapsedTime == 0.0 && delaySeconds == 2.0
      ensures !includeItemsWithoutTitle && spawnInWorld
      ensures repositoryProps == []
      ensures |categoryEnabled| == 12 && forall i :: 0 <= i < |categoryEnabled| ==> categoryEnabled[i]
    {
      elapsedTime, delaySeconds, running := 0.0, 2.0, false;
      spawnInWorld, includeItemsWithoutTitle := true, false;
      repositoryProps := [];
      categoryEnabled := seq(|AllCategoryNames|, _ => true);
    }

    /** LoadRepositoryProps: clear the pool, then insert the pair of every admitted entry. */
    method LoadRepositoryProps(host: Host)
      requires Valid()
      modifies this`repositoryProps
      ensures Valid()
      ensures repositoryProps == RebuildPool(host, FilterConfig(host))
    {
      repositoryProps := [];
      var included := CollectIncludedCategories(allCategories, categoryEnabled);
      if host.resourceValid {
        var c := Config(included, includeItemsWithoutTitle, host.formatFloat);
        var catalog := host.catalog;
        var e := 0;
        assert catalog[..e] == [];
        while e < |catalog|
          invariant 0 <= e <= |catalog|
          invariant repositoryProps == BuildPool(Admitted(catalog[..e], c))
        {
          var entryIncluded, hasTitle, title, repoId := ScanEntry(catalog[e], c);
          AdmittedStep(catalog, e, c);
          ghost var before := Admitted(catalog[..e], c);
          if entryIncluded && (hasTitle || c.includeWithoutTitle) {
            var p := Prop(title, repoId);
            assert Admission(catalog[e], c) == Some(p);
            BuildPoolStep(before, p);
            repositoryProps := Insert(repositoryProps, p);
            assert repositoryProps == BuildPool(before + [p]);
          } else {
            assert Admission(catalog[e], c) == None;
            assert Admitted(catalog[..e + 1], c) == before;
          }
          e := e + 1;
          assert repositoryProps == BuildPool(Admitted(catalog[..e], c));
        }
        assert catalog[..e] == catalog;
        BuildPoolSorted(Admitted(catalog, c));
      }
    }

    /** GetRepositoryPropFromIndex: walk the pool to position `index`; `None` where the source throws out_of_range. */
    method GetRepositoryPropFromIndex(index: int) returns (r: Option<Prop>)
      ensures 0 <= index < |repositoryProps| ==> r == Some(repositoryProps[index])
      ensures !(0 <= index < |repositoryProps|) ==> r == None
    {
      var current := 0;
      while current < |repositoryProps|
        invariant 0 <= current <= |repositoryProps|
        invariant !(0 <= index < current)
      {
        if current == index {
          return Some(repositoryProps[current]);
        }
        current := current + 1;
      }
      return None;
    }

    /** The pool-and-index part of GiveRandomItem: rebuild an empty pool, then take entry `rand % size`. */
    method GiveRandomItem(host: Host, rand: nat) returns (gift: Gift)
      requires Valid()
      modifies this`repositoryProps
      ensures Valid()
      ensures old(repositoryProps) == [] ==> repositoryProps == RebuildPool(host, FilterConfig(host))
      ensures old(repositoryProps) != [] ==> repositoryProps == old(repositoryProps)
      ensures gift == match Draw(repositoryProps, rand)
                      case None => ModuloByZero
                      case Some(p) => Give(p, spawnInWorld)
    {
      if |repositoryProps| == 0 {
        LoadRepositoryProps(host);
      }
      if |repositoryProps| == 0 {
        // `rand() % 0`: undefined behaviour in the source
        return ModuloByZero;
      }
      var index := rand % |repositoryProps|;
      var pair := GetRepositoryPropFromIndex(index);
      gift := Give(pair.value, spawnInWorld);
    }

    /** OnFrameUpdate: accumulate the frame's delta and give one item when the delay is reached. */
    method OnFrameUpdate(host: Host, dt: real, rand: nat) returns (gift: Option<Gift>)
      requires Valid()
      modifies this`elapsedTime, this`repositoryProps
      ensures Valid()
      ensures (TimerState(), gift.Some?) == Tick(old(TimerState()), dt)
      ensures gift.None? ==> repositoryProps == old(repositoryProps)
      ensures gift.Some? ==>
        (old(repositoryProps) == [] ==> repositoryProps == RebuildPool(host, FilterConfig(host))) &&
        (old(repositoryProps) != [] ==> repositoryProps == old(repositoryProps)) &&
        gift.value == match Draw(repositoryProps, rand)
                      case None => ModuloByZero
                      case Some(p) => Give(p, spawnInWorld)
    {
      if !running {
        return None;
      }
      elapsedTime := elapsedTime + dt;
      if elapsedTime >= delaySeconds {
        var g := GiveRandomItem(host, rand);
        elapsedTime := 0.0;
        return Some(g);
      }
      return None;
    }

    /** The Start/Stop button: a rebuild on the stopped-to-running transition only; the accumulator is kept. */
    method OnStartStopPressed(host: Host)
      requires Valid()
      modifies this`running, this`repositoryProps
      ensures Valid()
      ensures running == !old(running)
      ensures !old(running) ==> repositoryProps == RebuildPool(host, FilterConfig(host))
      ensures old(running) ==> repositoryProps == old(repositoryProps)
    {
      if !running {
        LoadRepositoryProps(host);
      }
      running := !running;
    }

    /** A category checkbox: only the flag changes; the pool is a snapshot until the next rebuild. */
    method SetCategoryEnabled(i: nat, enabled: bool)
      requires Valid() && i < |allCategories|
      modifies this`categoryEnabled
      ensures Valid()
      ensures categoryEnabled == old(categoryEnabled)[i := enabled]
    {
      categoryEnabled := categoryEnabled[i := enabled];
    }
  }
}
