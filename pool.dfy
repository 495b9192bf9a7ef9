/**
 * The item pool: a `std::multimap<std::string, ZRepositoryID>` keyed by title,
 * modelled as a sequence kept in `std::string` order of titles, in which
 * pairs with equal titles stay in insertion order.
 */
module Pool {
  import opened Catalog

  // ---------------------------------------------------------------------------
  // The order of std::string keys
  // ---------------------------------------------------------------------------

  /** `a < b` on std::string: lexicographic by character code, a proper prefix first. */
  predicate Below(a: string, b: string)
    decreases |a|
  {
    if b == [] then false
    else if a == [] then true
    else if a[0] != b[0] then a[0] < b[0]
    else Below(a[1..], b[1..])
  }

  lemma {:induction false} BelowIrreflexive(a: string)
    ensures !Below(a, a)
    decreases |a|
  {
    if a != [] {
      BelowIrreflexive(a[1..]);
    }
  }

  lemma {:induction false} BelowTransitive(a: string, b: string, c: string)
    requires Below(a, b) && Below(b, c)
    ensures Below(a, c)
    decreases |a|
  {
    if a != [] && a[0] == b[0] && b[0] == c[0] {
      BelowTransitive(a[1..], b[1..], c[1..]);
    }
  }

  lemma {:induction false} BelowTotal(a: string, b: string)
    ensures a == b || Below(a, b) || Below(b, a)
    decreases |a|
  {
    if a != [] && b != [] && a[0] == b[0] {
      BelowTotal(a[1..], b[1..]);
      if a[1..] == b[1..] {
        assert a == [a[0]] + a[1..] && b == [b[0]] + b[1..];
      }
    }
  }

  /** Titles never decrease along the pool. */
  predicate Sorted(pool: seq<Prop>)
  {
    forall i, j :: 0 <= i < j < |pool| ==> !Below(pool[j].title, pool[i].title)
  }

  // ---------------------------------------------------------------------------
  // Insertion and the pool built from a sequence of admitted pairs
  // ---------------------------------------------------------------------------

  /** `std::multimap::insert`: the new pair goes after every pair whose title is not greater. */
  function Insert(pool: seq<Prop>, p: Prop): (r: seq<Prop>)
    ensures |r| == |pool| + 1
  {
    if pool == [] then [p]
    else if Below(p.title, pool[0].title) then [p] + pool
    else
      assert pool == [pool[0]] + pool[1..];
      [pool[0]] + Insert(pool[1..], p)
  }

  /** Inserting adds exactly the new pair to the pool's contents. */
  lemma {:induction false} InsertAddsExactlyOne(pool: seq<Prop>, p: Prop)
    ensures multiset(Insert(pool, p)) == multiset(pool) + multiset{p}
    decreases |pool|
  {
    if pool != [] && !Below(p.title, pool[0].title) {
      InsertAddsExactlyOne(pool[1..], p);
      assert pool == [pool[0]] + pool[1..];
    }
  }

  /** In a sorted pool, a title below the first one is below every one. */
  lemma BelowFirstIsBelowAll(pool: seq<Prop>, t: string)
    requires Sorted(pool) && pool != [] && Below(t, pool[0].title)
    ensures forall i :: 0 <= i < |pool| ==> Below(t, pool[i].title)
  {
    forall i | 0 <= i < |pool|
      ensures Below(t, pool[i].title)
    {
      BelowTotal(pool[0].title, pool[i].title);
      if pool[0].title != pool[i].title {
        BelowTransitive(t, pool[0].title, pool[i].title);
      }
    }
  }

  lemma {:induction false} InsertKeepsSorted(pool: seq<Prop>, p: Prop)
    requires Sorted(pool)
    ensures Sorted(Insert(pool, p))
    decreases |pool|
  {
    if pool != [] {
      var r := Insert(pool, p);
      if Below(p.title, pool[0].title) {
        BelowFirstIsBelowAll(pool, p.title);
        forall i, j | 0 <= i < j < |r|
          ensures !Below(r[j].title, r[i].title)
        {
          if i == 0 {
            if Below(r[j].title, p.title) {
              BelowTransitive(r[j].title, p.title, r[j].title);
              BelowIrreflexive(r[j].title);
            }
          }
        }
      } else {
        var tail := pool[1..];
        InsertKeepsSorted(tail, p);
        var rest := Insert(tail, p);
        InsertAddsExactlyOne(tail, p);
        assert r == [pool[0]] + rest;
        forall j | 0 <= j < |rest|
          ensures !Below(rest[j].title, pool[0].title)
        {
          assert rest[j] in multiset(rest);
          if rest[j] != p {
            assert rest[j] in multiset(tail);
            var k :| 0 <= k < |tail| && tail[k] == rest[j];
            assert pool[k + 1] == rest[j];
          }
        }
      }
    }
  }

  /** The pairs of `s` with title `t`, in order. */
  function WithTitle(s: seq<Prop>, t: string): seq<Prop>
  {
    if s == [] then [] else (if s[0].title == t then [s[0]] else []) + WithTitle(s[1..], t)
  }

  lemma {:induction false} WithTitleAppend(a: seq<Prop>, b: seq<Prop>, t: string)
    ensures WithTitle(a + b, t) == WithTitle(a, t) + WithTitle(b, t)
    decreases |a|
  {
    if a != [] {
      assert (a + b)[1..] == a[1..] + b;
      WithTitleAppend(a[1..], b, t);
    } else {
      assert a + b == b;
    }
  }

  lemma {:induction false} WithTitleNone(s: seq<Prop>, t: string)
    requires forall i :: 0 <= i < |s| ==> s[i].title != t
    ensures WithTitle(s, t) == []
    decreases |s|
  {
    if s != [] {
      WithTitleNone(s[1..], t);
    }
  }

  lemma WithTitleCons(x: Prop, s: seq<Prop>, t: string)
    ensures WithTitle([x] + s, t) == (if x.title == t then [x] else []) + WithTitle(s, t)
  {
    assert ([x] + s)[1..] == s;
  }

  lemma SortedTail(pool: seq<Prop>)
    requires Sorted(pool) && pool != []
    ensures Sorted(pool[1..])
  {
    forall i, j | 0 <= i < j < |pool| - 1
      ensures !Below(pool[1..][j].title, pool[1..][i].title)
    {
      assert pool[1..][j] == pool[j + 1] && pool[1..][i] == pool[i + 1];
    }
  }

  /** In a sorted pool whose first title is above `t`, no pair has title `t`. */
  lemma NoneWithTitleBelowFirst(pool: seq<Prop>, t: string)
    requires Sorted(pool) && pool != [] && Below(t, pool[0].title)
    ensures WithTitle(pool, t) == []
  {
    BelowFirstIsBelowAll(pool, t);
    forall i | 0 <= i < |pool|
      ensures pool[i].title != t
    {
      if pool[i].title == t {
        BelowIrreflexive(t);
      }
    }
    WithTitleNone(pool, t);
  }

  /** Insertion appends the new pair after the pairs that already have its title. */
  lemma {:induction false} InsertStable(pool: seq<Prop>, p: Prop, t: string)
    requires Sorted(pool)
    ensures WithTitle(Insert(pool, p), t) == WithTitle(pool, t) + (if p.title == t then [p] else [])
    decreases |pool|
  {
    if pool == [] {
      WithTitleCons(p, [], t);
      assert [p] + [] == [p];
    } else if Below(p.title, pool[0].title) {
      assert Insert(pool, p) == [p] + pool;
      WithTitleCons(p, pool, t);
      if p.title == t {
        NoneWithTitleBelowFirst(pool, t);
      } else {
        assert WithTitle(pool, t) + [] == WithTitle(pool, t);
      }
    } else {
      assert Insert(pool, p) == [pool[0]] + Insert(pool[1..], p);
      SortedTail(pool);
      InsertStable(pool[1..], p, t);
      WithTitleConsBoth(pool[0], Insert(pool[1..], p), pool[1..], t, if p.title == t then [p] else []);
      assert [pool[0]] + pool[1..] == pool;
    }
  }

  /** Putting the same pair in front of two sequences keeps a relation between their title-`t` pairs. */
  lemma WithTitleConsBoth(x: Prop, s: seq<Prop>, s': seq<Prop>, t: string, added: seq<Prop>)
    requires WithTitle(s, t) == WithTitle(s', t) + added
    ensures WithTitle([x] + s, t) == WithTitle([x] + s', t) + added
  {
    WithTitleCons(x, s, t);
    WithTitleCons(x, s', t);
  }

  /** The pool after inserting `items` one by one into an empty multimap. */
  function BuildPool(items: seq<Prop>): (r: seq<Prop>)
    ensures |r| == |items|
    decreases |items|
  {
    if items == [] then [] else Insert(BuildPool(items[..|items| - 1]), items[|items| - 1])
  }

  /** The built pool is ordered by title. */
  lemma {:induction false} BuildPoolSorted(items: seq<Prop>)
    ensures Sorted(BuildPool(items))
    decreases |items|
  {
    if items != [] {
      BuildPoolSorted(items[..|items| - 1]);
      InsertKeepsSorted(BuildPool(items[..|items| - 1]), items[|items| - 1]);
    }
  }

  /** The built pool holds exactly the inserted pairs, each as often as it was inserted. */
  lemma {:induction false} BuildPoolPermutation(items: seq<Prop>)
    ensures multiset(BuildPool(items)) == multiset(items)
    decreases |items|
  {
    if items != [] {
      var pre := items[..|items| - 1];
      var last := items[|items| - 1];
      BuildPoolPermutation(pre);
      InsertAddsExactlyOne(BuildPool(pre), last);
      assert items == pre + [last];
    }
  }

  /** Pairs that share a title keep the order in which they were inserted. */
  lemma {:induction false} BuildPoolStable(items: seq<Prop>, t: string)
    ensures WithTitle(BuildPool(items), t) == WithTitle(items, t)
    decreases |items|
  {
    if items != [] {
      var pre := items[..|items| - 1];
      var last := items[|items| - 1];
      var tail: seq<Prop> := if last.title == t then [last] else [];
      assert WithTitle(items, t) == WithTitle(pre, t) + tail by {
        SplitLast(items);
        WithTitleAppend(pre, [last], t);
        assert [last][1..] == [];
      }
      var built := BuildPool(pre);
      assert BuildPool(items) == Insert(built, last);
      BuildPoolSorted(pre);
      BuildPoolStable(pre, t);
      InsertStable(built, last, t);
    }
  }

  lemma SplitLast(items: seq<Prop>)
    requires items != []
    ensures items == items[..|items| - 1] + [items[|items| - 1]]
  {
  }

  lemma BuildPoolMembers(items: seq<Prop>, p: Prop)
    ensures p in BuildPool(items) <==> p in items
  {
    BuildPoolPermutation(items);
    assert p in BuildPool(items) <==> p in multiset(BuildPool(items));
    assert p in items <==> p in multiset(items);
  }

  // ---------------------------------------------------------------------------
  // Indexed access and the random draw
  // ---------------------------------------------------------------------------

  /** The smallest `RAND_MAX` the C standard allows. */
  const MinRandMax: nat := 32767

  /** `rand() % size`: a position of the pool, and never above the random number itself. */
  function DrawIndex(size: nat, rand: nat): (k: nat)
    requires size > 0
    ensures k < size && k <= rand
    ensures rand < size ==> k == rand
  {
    rand % size
  }

  /** `rand() % size` followed by the indexed lookup; `None` where `% 0` is undefined. */
  function Draw(pool: seq<Prop>, rand: nat): (r: Option<Prop>)
    ensures r.Some? <==> pool != []
    ensures r.Some? ==> r.value in pool
  {
    if pool == [] then None else Some(pool[DrawIndex(|pool|, rand)])
  }

  /** Some random number not above `randMax` selects position `i` of a pool of `size` pairs. */
  predicate Drawable(size: nat, i: nat, randMax: nat)
    requires size > 0
  {
    exists r: nat :: r <= randMax && DrawIndex(size, r) == i
  }

  /**
   * With `std::rand()` bounded by `randMax`, position `i` of a pool is drawn
   * by some random number exactly when `i <= randMax`: positions past
   * `RAND_MAX` are never drawn.
   */
  lemma DrawReachesPosition(pool: seq<Prop>, i: nat, randMax: nat)
    requires i < |pool|
    ensures Drawable(|pool|, i, randMax) <==> i <= randMax
    ensures i <= randMax ==> Draw(pool, i) == Some(pool[i])
  {
    if i <= randMax {
      assert DrawIndex(|pool|, i) == i;
    }
  }

  /** On every platform the C standard allows, a pool of at most `MinRandMax + 1` pairs has every position drawable. */
  lemma SmallPoolFullyDrawable(pool: seq<Prop>, randMax: nat)
    requires MinRandMax <= randMax && |pool| <= MinRandMax + 1
    ensures forall i: nat :: i < |pool| ==> Drawable(|pool|, i, randMax)
  {
    forall i: nat | i < |pool|
      ensures Drawable(|pool|, i, randMax)
    {
      DrawReachesPosition(pool, i, randMax);
    }
  }
}
