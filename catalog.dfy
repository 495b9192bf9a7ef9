/**
 * The repository catalog of the RandomItems plugin: the runtime-tagged field
 * values, the decoder that turns one of them into text, and the per-entry scan
 * that decides whether an entry is admitted into the item pool.
 */
module Catalog {

  datatype Option<T> = None | Some(value: T)

  /** A runtime-tagged value: the three types the decoder knows, and any other by its type name. */
  datatype DynamicValue =
    | Str(s: string)          // ZString
    | Bool(b: bool)           // bool
    | F64(x: real)            // float64
    | Other(typeName: string) // any other type; only its name is ever looked at

  /** One key/value pair of a repository entry. */
  datatype Field = Field(key: string, value: DynamicValue)

  /** A repository entry: its key/value pairs in the order the repository stores them. */
  type Entry = seq<Field>

  /** An admitted (title, repository id) pair. */
  datatype Prop = Prop(title: string, id: string)

  /**
   * What a pool rebuild reads: the enabled category names, the
   * "include items without title" switch, and the host's float formatting
   * (std::to_string), which the model does not define.
   */
  datatype Config = Config(categories: seq<string>, includeWithoutTitle: bool, formatFloat: real -> string)

  const NUL: char := 0 as char

  const IdKey: string := "ID_"
  const TitleKey: string := "Title"
  const CategoryKey: string := "InventoryCategoryIcon"
  const SuitKey: string := "IsHitmanSuit"

  // ---------------------------------------------------------------------------
  // Field decoder
  // ---------------------------------------------------------------------------

  /** The std::string built from a C string (`.c_str()`): the text before the first NUL. */
  function CStr(s: string): (r: string)
    ensures |r| <= |s| && r == s[..|r|]
    ensures NUL !in r
    ensures |r| < |s| ==> s[|r|] == NUL
  {
    if s == [] || s[0] == NUL then [] else [s[0]] + CStr(s[1..])
  }

  lemma CStrOfPlainText(s: string)
    requires NUL !in s
    ensures CStr(s) == s
  {
  }

  /** ConvertDynamicObjectValueTString: the text form of a tagged value; never fails. */
  function ConvertToString(v: DynamicValue, formatFloat: real -> string): (r: string)
    ensures NUL !in r
    ensures v.Str? && NUL !in v.s ==> r == v.s
    ensures v.Bool? ==> r == (if v.b then "true" else "false")
    ensures v.Other? && NUL !in v.typeName ==> r == v.typeName
  {
    match v
    case Str(s) => CStr(s)
    case Bool(b) => if b then "true" else "false"
    case F64(x) => CStr(formatFloat(x))
    case Other(t) => CStr(t)
  }

  // ---------------------------------------------------------------------------
  // Category matcher
  // ---------------------------------------------------------------------------

  predicate IsLowerAscii(c: char) { 'a' <= c <= 'z' }

  predicate IsUpperAscii(c: char) { 'A' <= c <= 'Z' }

  /** `::toupper` in the C locale: each of 'a'..'z' becomes its own capital, anything else stays. */
  function UpperChar(c: char): (u: char)
    ensures !IsLowerAscii(u)
    ensures IsLowerAscii(c) ==> IsUpperAscii(u) && u as int - 'A' as int == c as int - 'a' as int
    ensures !IsLowerAscii(c) ==> u == c
  {
    if IsLowerAscii(c) then (c as int - 32) as char else c
  }

  /** `std::transform(..., ::toupper)` over a whole string. */
  function Upper(s: string): (r: string)
    ensures |r| == |s|
    ensures forall i :: 0 <= i < |s| ==> r[i] == UpperChar(s[i])
  {
    seq(|s|, i requires 0 <= i < |s| => UpperChar(s[i]))
  }

  /** Two characters are the same letter in either case, or simply equal. */
  predicate SameCharIgnoringCase(x: char, y: char)
  {
    x == y ||
    (IsLowerAscii(x) && IsUpperAscii(y) && x as int - 'a' as int == y as int - 'A' as int) ||
    (IsUpperAscii(x) && IsLowerAscii(y) && x as int - 'A' as int == y as int - 'a' as int)
  }

  /** Two strings are equal up to ASCII case. */
  predicate SameIgnoringCase(a: string, b: string)
  {
    |a| == |b| && forall k :: 0 <= k < |a| ==> SameCharIgnoringCase(a[k], b[k])
  }

  lemma UpperCharEqual(x: char, y: char)
    ensures UpperChar(x) == UpperChar(y) <==> SameCharIgnoringCase(x, y)
  {
  }

  /** Upper-casing identifies two strings exactly when they agree up to ASCII case. */
  lemma UpperEqual(a: string, b: string)
    ensures Upper(a) == Upper(b) <==> SameIgnoringCase(a, b)
  {
    if Upper(a) == Upper(b) {
      forall k | 0 <= k < |a|
        ensures SameCharIgnoringCase(a[k], b[k])
      {
        assert Upper(a)[k] == Upper(b)[k];
        UpperCharEqual(a[k], b[k]);
      }
    }
    if SameIgnoringCase(a, b) {
      forall k | 0 <= k < |a|
        ensures Upper(a)[k] == Upper(b)[k]
      {
        UpperCharEqual(a[k], b[k]);
      }
    }
  }

  /** An (already upper-cased) category matches when it equals an upper-cased enabled name exactly. */
  predicate CategoryMatches(cat: string, enabled: seq<string>)
    ensures CategoryMatches(cat, enabled) ==> forall k :: 0 <= k < |cat| ==> !IsLowerAscii(cat[k])
  {
    exists j :: 0 <= j < |enabled| && Upper(enabled[j]) == cat
  }

  /** A category text matches exactly when some enabled name equals it up to ASCII case. */
  lemma CategoryMatchIgnoresCase(raw: string, enabled: seq<string>)
    ensures CategoryMatches(Upper(raw), enabled) <==> exists j :: 0 <= j < |enabled| && SameIgnoringCase(enabled[j], raw)
  {
    forall j | 0 <= j < |enabled|
      ensures Upper(enabled[j]) == Upper(raw) <==> SameIgnoringCase(enabled[j], raw)
    {
      UpperEqual(enabled[j], raw);
    }
  }

  /** Matching is exact after upper-casing: no prefix and no substring matches, and nothing matches an empty list. */
  lemma CategoryMatchExamples()
    ensures CategoryMatches(Upper("PISTOL"), ["pistol", "melee"])
    ensures CategoryMatches(Upper("Pistol"), ["melee", "PiStOl"])
    ensures !CategoryMatches(Upper("Pistol"), [])
    ensures CategoryMatches(Upper(""), [""])
    ensures !CategoryMatches(Upper("PIST"), ["pistol"])
    ensures !CategoryMatches(Upper("pistols"), ["pistol"])
  {
    var a: seq<string> := ["pistol", "melee"];
    var b: seq<string> := ["melee", "PiStOl"];
    var d: seq<string> := [""];
    assert Upper(a[0]) == "PISTOL" == Upper("PISTOL");
    assert Upper(b[1]) == "PISTOL" == Upper("Pistol");
    assert Upper(d[0]) == "" == Upper("");
    assert |Upper("PIST")| == 4;
    assert |Upper("pistols")| == 7;
  }

  // ---------------------------------------------------------------------------
  // Scanning one entry
  // ---------------------------------------------------------------------------

  /** The local variables of the scan of one entry; `stopped` records the `break` at the suit flag. */
  datatype ScanState = ScanState(included: bool, hasTitle: bool, id: string, title: string, repoId: string, stopped: bool)

  const Initial: ScanState := ScanState(true, false, "", "", "", false)

  predicate IsKey(f: Field, key: string)
  {
    CStr(f.key) == key
  }

  function Decode(f: Field, c: Config): string
  {
    ConvertToString(f.value, c.formatFloat)
  }

  /** With titleless items excluded, a still-included entry that has a title has a non-empty one. */
  predicate TitleKept(st: ScanState, c: Config)
  {
    st.included && st.hasTitle && !c.includeWithoutTitle ==> st.title != []
  }

  /**
   * The effect of one field on the scan state. An exclusion is never undone,
   * a title once seen stays seen, the scan only stops by excluding the
   * entry, and a kept title stays non-empty while titleless items are
   * excluded.
   */
  function Step(st: ScanState, f: Field, c: Config): (r: ScanState)
    ensures r.included ==> st.included
    ensures st.hasTitle ==> r.hasTitle
    ensures r.stopped ==> st.stopped || !r.included
    ensures TitleKept(st, c) ==> TitleKept(r, c)
  {
    if IsKey(f, IdKey) then
      st.(id := Decode(f, c))
    else if IsKey(f, TitleKey) then
      var t := Decode(f, c);
      st.(hasTitle := true, title := t, repoId := st.id,
          included := if t == [] && !c.includeWithoutTitle then false else st.included)
    else if IsKey(f, CategoryKey) then
      st.(included := if CategoryMatches(Upper(Decode(f, c)), c.categories) then st.included else false)
    else if IsKey(f, SuitKey) then
      st.(included := false, stopped := true)
    else
      st
  }

  /** The scan state after the fields of `fs`, in order, stopping at the suit flag. */
  function Scan(fs: Entry, c: Config): (r: ScanState)
    ensures r.stopped ==> !r.included
    ensures TitleKept(r, c)
    decreases |fs|
  {
    if fs == [] then Initial
    else
      var st := Scan(fs[..|fs| - 1], c);
      if st.stopped then st else Step(st, fs[|fs| - 1], c)
  }

  /** The admission test after the scan, and the pair that goes into the pool. */
  function Admission(e: Entry, c: Config): (r: Option<Prop>)
    ensures r.Some? && !c.includeWithoutTitle ==> r.value.title != []
  {
    var st := Scan(e, c);
    if st.included && (st.hasTitle || c.includeWithoutTitle) then Some(Prop(st.title, st.repoId)) else None
  }

  /** The admitted pairs of a catalog, in catalog order. */
  function Admitted(catalog: seq<Entry>, c: Config): (r: seq<Prop>)
    ensures |r| <= |catalog|
    decreases |catalog|
  {
    if catalog == [] then []
    else
      Admitted(catalog[..|catalog| - 1], c) +
      (match Admission(catalog[|catalog| - 1], c) case Some(p) => [p] case None => [])
  }

  // ---------------------------------------------------------------------------
  // Declarative description of an entry
  // ---------------------------------------------------------------------------

  predicate HasKey(e: Entry, key: string)
  {
    exists i :: 0 <= i < |e| && IsKey(e[i], key)
  }

  /** Every category field of `e` names an enabled category. */
  predicate CategoriesEnabled(e: Entry, c: Config)
  {
    forall i :: 0 <= i < |e| && IsKey(e[i], CategoryKey) ==> CategoryMatches(Upper(Decode(e[i], c)), c.categories)
  }

  /** No title field of `e` is empty, unless titleless items are included. */
  predicate TitlesAllowed(e: Entry, c: Config)
  {
    forall i :: 0 <= i < |e| && IsKey(e[i], TitleKey) ==> Decode(e[i], c) != [] || c.includeWithoutTitle
  }

  /** The index of the last field of `e` with the given key. */
  function LastIndexOf(e: Entry, key: string): (r: Option<nat>)
    ensures r.None? <==> !HasKey(e, key)
    ensures r.Some? ==> r.value < |e| && IsKey(e[r.value], key)
    ensures r.Some? ==> forall j :: r.value < j < |e| ==> !IsKey(e[j], key)
    decreases |e|
  {
    if e == [] then None
    else if IsKey(e[|e| - 1], key) then Some(|e| - 1)
    else LastIndexOf(e[..|e| - 1], key)
  }

  /** The decoded value of the last `ID_` field of `e`, or the empty string. */
  function LatestId(e: Entry, c: Config): string
  {
    match LastIndexOf(e, IdKey)
    case None => ""
    case Some(i) => Decode(e[i], c)
  }

  // ---------------------------------------------------------------------------
  // Lemmas about the scan
  // ---------------------------------------------------------------------------

  lemma HasKeySnoc(e: Entry, key: string)
    requires e != []
    ensures HasKey(e, key) <==> HasKey(e[..|e| - 1], key) || IsKey(e[|e| - 1], key)
  {
  }

  lemma FiltersSnoc(e: Entry, c: Config)
    requires e != []
    ensures CategoriesEnabled(e, c) <==>
      CategoriesEnabled(e[..|e| - 1], c) &&
      (IsKey(e[|e| - 1], CategoryKey) ==> CategoryMatches(Upper(Decode(e[|e| - 1], c)), c.categories))
    ensures TitlesAllowed(e, c) <==>
      TitlesAllowed(e[..|e| - 1], c) &&
      (IsKey(e[|e| - 1], TitleKey) ==> Decode(e[|e| - 1], c) != [] || c.includeWithoutTitle)
  {
  }

  /**
   * What the scan of a prefix has established: it stopped exactly when the
   * suit flag was seen, and otherwise `included` and `hasTitle` summarise
   * the category, title and title-presence rules.
   */
  lemma {:induction false} ScanSummary(fs: Entry, c: Config)
    ensures Scan(fs, c).stopped == HasKey(fs, SuitKey)
    ensures Scan(fs, c).stopped ==> !Scan(fs, c).included
    ensures !Scan(fs, c).stopped ==>
      Scan(fs, c).included == (CategoriesEnabled(fs, c) && TitlesAllowed(fs, c)) &&
      Scan(fs, c).hasTitle == HasKey(fs, TitleKey)
    decreases |fs|
  {
    if fs != [] {
      var pre := fs[..|fs| - 1];
      ScanSummary(pre, c);
      HasKeySnoc(fs, SuitKey);
      HasKeySnoc(fs, TitleKey);
      FiltersSnoc(fs, c);
    }
  }

  lemma LatestIdSnoc(fs: Entry, c: Config)
    requires fs != []
    ensures LatestId(fs, c) ==
      if IsKey(fs[|fs| - 1], IdKey) then Decode(fs[|fs| - 1], c) else LatestId(fs[..|fs| - 1], c)
  {
  }

  /** The pending id is the value of the last `ID_` field seen, or empty. */
  lemma {:induction false} ScanLatestId(fs: Entry, c: Config)
    requires !HasKey(fs, SuitKey)
    ensures Scan(fs, c).id == LatestId(fs, c)
    decreases |fs|
  {
    if fs != [] {
      var pre := fs[..|fs| - 1];
      HasKeySnoc(fs, SuitKey);
      ScanSummary(pre, c);
      ScanLatestId(pre, c);
      LatestIdSnoc(fs, c);
      assert Scan(fs, c) == Step(Scan(pre, c), fs[|fs| - 1], c);
    }
  }

  /**
   * Which values the scan pairs up: the title is the last `Title` seen, and
   * the id stored with it is the last `ID_` seen before that title (or empty).
   */
  lemma {:induction false} ScanPairing(fs: Entry, c: Config)
    requires !HasKey(fs, SuitKey)
    ensures LastIndexOf(fs, TitleKey).None? ==> Scan(fs, c).title == "" && Scan(fs, c).repoId == ""
    ensures LastIndexOf(fs, TitleKey).Some? ==>
      var k := LastIndexOf(fs, TitleKey).value;
      Scan(fs, c).title == Decode(fs[k], c) && Scan(fs, c).repoId == LatestId(fs[..k], c)
    decreases |fs|
  {
    if fs != [] {
      var pre := fs[..|fs| - 1];
      var f := fs[|fs| - 1];
      HasKeySnoc(fs, SuitKey);
      ScanSummary(pre, c);
      ScanPairing(pre, c);
      assert Scan(fs, c) == Step(Scan(pre, c), f, c);
      if IsKey(f, TitleKey) {
        assert LastIndexOf(fs, TitleKey) == Some(|fs| - 1);
        ScanLatestId(pre, c);
        assert fs[..|fs| - 1] == pre;
      } else {
        assert LastIndexOf(fs, TitleKey) == LastIndexOf(pre, TitleKey);
        if LastIndexOf(pre, TitleKey).Some? {
          var k := LastIndexOf(pre, TitleKey).value;
          assert fs[..k] == pre[..k] && fs[k] == pre[k];
        }
      }
    }
  }

  /** Fields after the suit flag are never looked at. */
  lemma {:induction false} ScanStopsAtSuit(pre: Entry, rest: Entry, c: Config)
    requires HasKey(pre, SuitKey)
    ensures Scan(pre + rest, c) == Scan(pre, c)
    decreases |rest|
  {
    if rest != [] {
      var shorter := rest[..|rest| - 1];
      assert (pre + rest)[..|pre + rest| - 1] == pre + shorter;
      ScanStopsAtSuit(pre, shorter, c);
      ScanSummary(pre, c);
    } else {
      assert pre + rest == pre;
    }
  }

  /** The admission test, stated field by field: both directions. */
  lemma AdmissionCharacterized(e: Entry, c: Config)
    ensures Admission(e, c).Some? <==>
      !HasKey(e, SuitKey) && CategoriesEnabled(e, c) && TitlesAllowed(e, c) &&
      (HasKey(e, TitleKey) || c.includeWithoutTitle)
  {
    ScanSummary(e, c);
  }

  /** The pair an admitted entry contributes. */
  lemma AdmittedPair(e: Entry, c: Config)
    requires Admission(e, c).Some?
    ensures LastIndexOf(e, TitleKey).None? ==> Admission(e, c).value == Prop("", "")
    ensures LastIndexOf(e, TitleKey).Some? ==>
      var k := LastIndexOf(e, TitleKey).value;
      Admission(e, c).value == Prop(Decode(e[k], c), LatestId(e[..k], c))
  {
    AdmissionCharacterized(e, c);
    ScanPairing(e, c);
  }

  /** An entry with the suit flag is never admitted, whatever else it holds. */
  lemma SuitNeverAdmitted(e: Entry, c: Config, k: nat)
    requires k < |e| && IsKey(e[k], SuitKey)
    ensures Admission(e, c).None?
  {
    AdmissionCharacterized(e, c);
  }

  /** One category field naming a disabled (or unknown) category excludes the entry. */
  lemma MismatchedCategoryExcludes(e: Entry, c: Config, k: nat)
    requires k < |e| && IsKey(e[k], CategoryKey)
    requires !CategoryMatches(Upper(Decode(e[k], c)), c.categories)
    ensures Admission(e, c).None?
  {
    AdmissionCharacterized(e, c);
  }

  /** With no category enabled, every entry that has a category field is excluded. */
  lemma NoCategoryEnabledExcludes(e: Entry, c: Config)
    requires c.categories == [] && HasKey(e, CategoryKey)
    ensures Admission(e, c).None?
  {
    var k :| 0 <= k < |e| && IsKey(e[k], CategoryKey);
    MismatchedCategoryExcludes(e, c, k);
  }

  /** An empty title excludes the entry unless titleless items are included. */
  lemma EmptyTitleExcludes(e: Entry, c: Config, k: nat)
    requires !c.includeWithoutTitle
    requires k < |e| && IsKey(e[k], TitleKey) && Decode(e[k], c) == []
    ensures Admission(e, c).None?
  {
    AdmissionCharacterized(e, c);
  }

  /** The admitted pairs are exactly the pairs of the admitted entries. */
  /** Every admitted pair comes from some admitted entry: the position of one is returned. */
  lemma {:induction false} AdmittedSource(catalog: seq<Entry>, c: Config, p: Prop) returns (i: nat)
    requires p in Admitted(catalog, c)
    ensures i < |catalog| && Admission(catalog[i], c) == Some(p)
    decreases |catalog|
  {
    var n := |catalog| - 1;
    var pre := catalog[..n];
    if p in Admitted(pre, c) {
      i := AdmittedSource(pre, c, p);
      assert catalog[i] == pre[i];
    } else {
      i := n;
    }
  }

  /** The pair of every admitted entry is among the admitted pairs. */
  lemma {:induction false} AdmittedContains(catalog: seq<Entry>, c: Config, i: nat, p: Prop)
    requires i < |catalog| && Admission(catalog[i], c) == Some(p)
    ensures p in Admitted(catalog, c)
    decreases |catalog|
  {
    var n := |catalog| - 1;
    if i < n {
      var pre := catalog[..n];
      assert pre[i] == catalog[i];
      AdmittedContains(pre, c, i, p);
    }
  }

  /** The admitted pairs are exactly the pairs of the admitted entries. */
  lemma AdmittedExactly(catalog: seq<Entry>, c: Config, p: Prop)
    ensures p in Admitted(catalog, c) <==> exists i :: 0 <= i < |catalog| && Admission(catalog[i], c) == Some(p)
  {
    if p in Admitted(catalog, c) {
      var i := AdmittedSource(catalog, c, p);
    }
    if exists i :: 0 <= i < |catalog| && Admission(catalog[i], c) == Some(p) {
      var i :| 0 <= i < |catalog| && Admission(catalog[i], c) == Some(p);
      AdmittedContains(catalog, c, i, p);
    }
  }

  /** With titleless items excluded, no admitted pair has an empty title. */
  lemma {:induction false} AdmittedTitlesNonEmpty(catalog: seq<Entry>, c: Config)
    requires !c.includeWithoutTitle
    ensures forall k :: 0 <= k < |Admitted(catalog, c)| ==> Admitted(catalog, c)[k].title != []
    decreases |catalog|
  {
    if catalog != [] {
      AdmittedTitlesNonEmpty(catalog[..|catalog| - 1], c);
    }
  }
}
