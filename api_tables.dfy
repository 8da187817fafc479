/** The four tables of backend/api.php (`categories`, `years`, `months`,
    `monthly_categories`) as values, and what each write of the server does to them.
    The Store class in module Api changes its fields step by step and is proved to
    end in the state these functions describe. */
module ApiTables {
  import opened Wrappers
  import opened Catalogue
  import opened Ordering

  /** The five mutable fields of a `monthly_categories` row. Money is an `int`. */
  datatype Entry = Entry(revenue: int, expense: int, revenueNote: string, expenseNote: string, targetRevenue: int)

  /** The values a freshly seeded row holds. */
  const ZeroEntry: Entry := Entry(0, 0, "", "", 0)

  /** `months` is keyed by (year, month), `monthly_categories` by (year, month, code). */
  type MonthKey = (int, int)
  type EntryKey = (int, int, string)

  datatype Tables = Tables(
    categories: map<string, string>,
    years: set<int>,
    months: map<MonthKey, string>,
    entries: map<EntryKey, Entry>)

  /** Every `months` row belongs to an existing year, is one of months 1..12 and
      carries that month's name. */
  ghost predicate MonthsBelongToYears(t: Tables)
  {
    forall k :: k in t.months ==> k.0 in t.years && 1 <= k.1 <= 12 && t.months[k] == MonthName(k.1)
  }

  /** Every existing year has all twelve months. */
  ghost predicate YearsHaveMonths(t: Tables)
  {
    forall y, m :: y in t.years && 1 <= m <= 12 ==> (y, m) in t.months
  }

  /** Every `monthly_categories` row belongs to an existing month and catalogue code. */
  ghost predicate EntriesBelongToMonths(t: Tables)
  {
    forall k :: k in t.entries ==> (k.0, k.1) in t.months && k.2 in t.categories
  }

  /** Every month of an existing year has a row for every catalogue code. */
  ghost predicate YearsHaveEntries(t: Tables)
  {
    forall y, m, c :: y in t.years && 1 <= m <= 12 && c in t.categories ==> (y, m, c) in t.entries
  }

  /** The store invariant the seeding code maintains: no partial years. A year that
      exists has its twelve named months and one row per (month, catalogue code);
      nothing else exists, and no year exists before the catalogue does. */
  ghost predicate Wellformed(t: Tables)
  {
    && MonthsBelongToYears(t)
    && YearsHaveMonths(t)
    && EntriesBelongToMonths(t)
    && YearsHaveEntries(t)
    && (t.years != {} ==> |t.categories| > 0)
  }

  const EmptyTables: Tables := Tables(map[], {}, map[], map[])

  // ---------------------------------------------------------------- seeding

  /** `ensureCategories`: write the preset only when the catalogue is empty. */
  function SeedCategories(t: Tables): (r: Tables)
    ensures |r.categories| > 0
    ensures r.years == t.years && r.months == t.months && r.entries == t.entries
  {
    PresetTableSize();
    if |t.categories| > 0 then t else t.(categories := PresetTable())
  }

  /** The keys (year, 1) .. (year, n) of the `months` rows of one year. */
  function MonthSlots(year: int, n: int): set<MonthKey>
  {
    set m | 1 <= m <= n :: (year, m)
  }

  lemma MonthSlotsMembers(year: int, n: int)
    ensures forall k :: k in MonthSlots(year, n) <==> k.0 == year && 1 <= k.1 <= n
  {
    forall k: MonthKey | k.0 == year && 1 <= k.1 <= n ensures k in MonthSlots(year, n) {
      assert k == (year, k.1);
    }
  }

  lemma {:induction false} MonthSlotsSize(year: int, n: nat)
    ensures |MonthSlots(year, n)| == n
  {
    if n == 0 {
      assert MonthSlots(year, n) == {};
    } else {
      MonthSlotsSize(year, n - 1);
      MonthSlotsMembers(year, n - 1);
      MonthSlotsMembers(year, n);
      assert MonthSlots(year, n) == MonthSlots(year, n - 1) + {(year, n)};
    }
  }

  /** The twelve `months` rows a new year gets, each named after its month. */
  function SeededMonths(year: int): map<MonthKey, string>
  {
    MonthSlotsMembers(year, 12);
    map k | k in MonthSlots(year, 12) :: MonthName(k.1)
  }

  /** The keys (year, m, c) for months 1..n and every code c of `codes`. */
  function EntrySlots(year: int, n: int, codes: set<string>): set<EntryKey>
  {
    set m, c | 1 <= m <= n && c in codes :: (year, m, c)
  }

  /** The keys of the rows of one month, one per code. */
  function MonthKeys(year: int, m: int, codes: set<string>): set<EntryKey>
  {
    set c | c in codes :: (year, m, c)
  }

  lemma EntrySlotsMembers(year: int, n: int, codes: set<string>)
    ensures forall k :: k in EntrySlots(year, n, codes) <==> k.0 == year && 1 <= k.1 <= n && k.2 in codes
  {
    forall k: EntryKey | k.0 == year && 1 <= k.1 <= n && k.2 in codes ensures k in EntrySlots(year, n, codes) {
      assert k == (year, k.1, k.2);
    }
  }

  lemma MonthKeysMembers(year: int, m: int, codes: set<string>)
    ensures forall k :: k in MonthKeys(year, m, codes) <==> k.0 == year && k.1 == m && k.2 in codes
  {
    forall k: EntryKey | k.0 == year && k.1 == m && k.2 in codes ensures k in MonthKeys(year, m, codes) {
      assert k == (year, m, k.2);
    }
  }

  /** The zeroed `monthly_categories` rows a new year gets: one per (month, code). */
  function SeededEntries(year: int, codes: set<string>): map<EntryKey, Entry>
  {
    map k | k in EntrySlots(year, 12, codes) :: ZeroEntry
  }

  /** `ensureYear`: seed the catalogue, then, only if the year is absent, add it with
      its months and zeroed rows for the catalogue as it now stands. */
  function SeedYear(t: Tables, year: int): (r: Tables)
    ensures year in r.years
    ensures r.categories == SeedCategories(t).categories
    ensures t.years <= r.years && t.months.Keys <= r.months.Keys && t.entries.Keys <= r.entries.Keys
  {
    var t1 := SeedCategories(t);
    if year in t1.years then t1
    else t1.(years := t1.years + {year},
             months := t1.months + SeededMonths(year),
             entries := t1.entries + SeededEntries(year, t1.categories.Keys))
  }

  /** First write wins: a non-empty catalogue is left as it is; an empty one ends up
      holding exactly the seven preset (code, caption) pairs. Nothing else changes. */
  lemma SeedCategoriesFirstWriteWins(t: Tables)
    ensures |t.categories| > 0 ==> SeedCategories(t) == t
    ensures |t.categories| == 0 ==>
      && |SeedCategories(t).categories| == 7
      && (forall i :: 0 <= i < |Preset| ==> SeedCategories(t).categories[Preset[i].code] == Preset[i].caption)
      && SeedCategories(t).(categories := t.categories) == t
  {
    PresetTableSize();
    forall i | 0 <= i < |Preset| ensures Preset[i].code in PresetTable() && PresetTable()[Preset[i].code] == Preset[i].caption {
      PresetTableValues(i);
    }
  }

  /** Seeding a year that already exists touches only the catalogue step. */
  lemma SeedExistingYear(t: Tables, year: int)
    requires year in t.years
    ensures SeedYear(t, year) == SeedCategories(t)
  {
  }

  /** After seeding, the year exists. */
  lemma SeedYearHasYear(t: Tables, year: int)
    ensures year in SeedYear(t, year).years
  {
  }

  /** Seeding is idempotent: a second call changes nothing. */
  lemma {:induction false} SeedYearIdempotent(t: Tables, year: int)
    ensures SeedYear(SeedYear(t, year), year) == SeedYear(t, year)
  {
    PresetTableSize();
    var t1 := SeedYear(t, year);
    assert |t1.categories| > 0;
    assert year in t1.years;
  }

  /** Seeding never touches a `months` row of another year. */
  lemma SeedYearKeepsOtherMonths(t: Tables, year: int)
    ensures forall y :: y != year ==> (y in SeedYear(t, year).years <==> y in t.years)
    ensures forall k: MonthKey :: k.0 != year ==> (k in SeedYear(t, year).months <==> k in t.months)
    ensures forall k: MonthKey :: k.0 != year && k in t.months ==> SeedYear(t, year).months[k] == t.months[k]
  {
    MonthSlotsMembers(year, 12);
    forall k: MonthKey | k.0 != year && k in t.months ensures SeedYear(t, year).months[k] == t.months[k] {
      assert k !in SeededMonths(year);
    }
  }

  /** Seeding never touches a `monthly_categories` row of another year. */
  lemma SeedYearKeepsOtherEntries(t: Tables, year: int)
    ensures forall k: EntryKey :: k.0 != year ==> (k in SeedYear(t, year).entries <==> k in t.entries)
    ensures forall k: EntryKey :: k.0 != year && k in t.entries ==> SeedYear(t, year).entries[k] == t.entries[k]
  {
    var t1 := SeedCategories(t);
    var codes := t1.categories.Keys;
    var t' := SeedYear(t, year);
    EntrySlotsMembers(year, 12, codes);
    var added := SeededEntries(year, codes);
    assert t'.entries == if year in t1.years then t.entries else t.entries + added;
    forall k: EntryKey | k.0 != year ensures k !in added {
      assert k !in EntrySlots(year, 12, codes);
    }
  }

  lemma {:induction false} MonthKeysSize(year: int, m: int, codes: set<string>)
    ensures |MonthKeys(year, m, codes)| == |codes|
    decreases |codes|
  {
    HasElement(codes);
    if codes != {} {
      var c :| c in codes;
      MonthKeysSize(year, m, codes - {c});
      assert MonthKeys(year, m, codes) == MonthKeys(year, m, codes - {c}) + {(year, m, c)};
    } else {
      assert MonthKeys(year, m, codes) == {};
    }
  }

  lemma {:induction false} EntrySlotsSize(year: int, n: nat, codes: set<string>)
    ensures |EntrySlots(year, n, codes)| == n * |codes|
  {
    if n == 0 {
      assert EntrySlots(year, n, codes) == {};
    } else {
      EntrySlotsSize(year, n - 1, codes);
      MonthKeysSize(year, n, codes);
      EntrySlotsMembers(year, n - 1, codes);
      EntrySlotsMembers(year, n, codes);
      MonthKeysMembers(year, n, codes);
      assert EntrySlots(year, n, codes) == EntrySlots(year, n - 1, codes) + MonthKeys(year, n, codes);
      forall k | k in MonthKeys(year, n, codes) ensures k !in EntrySlots(year, n - 1, codes) {
        assert k.1 == n;
      }
      assert |EntrySlots(year, n, codes)| == |EntrySlots(year, n - 1, codes)| + |MonthKeys(year, n, codes)|;
      assert n * |codes| == (n - 1) * |codes| + |codes|;
    }
  }

  lemma DisjointUnionSize<K, V>(a: map<K, V>, b: map<K, V>)
    requires a.Keys !! b.Keys
    ensures |a + b| == |a| + |b|
  {
    assert (a + b).Keys == a.Keys + b.Keys;
    assert a.Keys * b.Keys == {};
  }

  lemma SeededMonthsSize(year: int)
    ensures SeededMonths(year).Keys == MonthSlots(year, 12)
    ensures |SeededMonths(year)| == 12
  {
    MonthSlotsSize(year, 12);
  }

  lemma SeededMonthsFresh(t: Tables, year: int)
    requires MonthsBelongToYears(t) && year !in t.years
    ensures t.months.Keys !! SeededMonths(year).Keys
  {
    MonthSlotsMembers(year, 12);
    assert SeededMonths(year).Keys == MonthSlots(year, 12);
  }

  lemma SeededEntriesSize(year: int, codes: set<string>)
    ensures SeededEntries(year, codes).Keys == EntrySlots(year, 12, codes)
    ensures |SeededEntries(year, codes)| == 12 * |codes|
  {
    EntrySlotsSize(year, 12, codes);
  }

  lemma SeededEntriesFresh(t: Tables, year: int, codes: set<string>)
    requires MonthsBelongToYears(t) && EntriesBelongToMonths(t) && year !in t.years
    ensures t.entries.Keys !! SeededEntries(year, codes).Keys
  {
    EntrySlotsMembers(year, 12, codes);
    assert SeededEntries(year, codes).Keys == EntrySlots(year, 12, codes);
    forall k | k in t.entries ensures k.0 != year {
      assert (k.0, k.1) in t.months;
    }
  }

  lemma SeededEntriesZero(year: int, codes: set<string>)
    ensures forall m, c :: 1 <= m <= 12 && c in codes ==>
      (year, m, c) in SeededEntries(year, codes) && SeededEntries(year, codes)[(year, m, c)] == ZeroEntry
  {
    EntrySlotsMembers(year, 12, codes);
  }

  lemma SeededMonthsNames(year: int)
    ensures forall m :: 1 <= m <= 12 ==> (year, m) in SeededMonths(year) && SeededMonths(year)[(year, m)] == MonthNames[m - 1]
  {
    MonthSlotsMembers(year, 12);
  }

  /** A new year gets exactly its twelve months, named Janeiro..Dezembro in calendar
      order, none of which existed before. */
  lemma SeedNewYearMonths(t: Tables, year: int)
    requires MonthsBelongToYears(t) && year !in t.years
    ensures SeedYear(t, year).years == t.years + {year}
    ensures forall m :: 1 <= m <= 12 ==> (year, m) in SeedYear(t, year).months && SeedYear(t, year).months[(year, m)] == MonthNames[m - 1]
    ensures |SeedYear(t, year).months| == |t.months| + 12
  {
    var added := SeededMonths(year);
    assert SeedYear(t, year).months == t.months + added;
    SeededMonthsNames(year);
    SeededMonthsSize(year);
    SeededMonthsFresh(t, year);
    DisjointUnionSize(t.months, added);
  }

  /** A new year gets 12 x |catalogue| zeroed rows, one per (month, code), none of
      which existed before. */
  lemma SeedNewYearEntries(t: Tables, year: int)
    requires MonthsBelongToYears(t) && EntriesBelongToMonths(t) && year !in t.years
    ensures forall m, c :: 1 <= m <= 12 && c in SeedYear(t, year).categories ==>
      (year, m, c) in SeedYear(t, year).entries && SeedYear(t, year).entries[(year, m, c)] == ZeroEntry
    ensures |SeedYear(t, year).entries| == |t.entries| + 12 * |SeedYear(t, year).categories|
  {
    var codes := SeedCategories(t).categories.Keys;
    var added := SeededEntries(year, codes);
    assert SeedYear(t, year).entries == t.entries + added;
    assert SeedYear(t, year).categories.Keys == codes;
    SeededEntriesZero(year, codes);
    SeededEntriesSize(year, codes);
    SeededEntriesFresh(t, year, codes);
    DisjointUnionSize(t.entries, added);
  }

  lemma SeedKeepsMonthsBelonging(t: Tables, year: int)
    requires MonthsBelongToYears(t)
    ensures MonthsBelongToYears(SeedYear(t, year))
  {
    var t1 := SeedCategories(t);
    if year !in t1.years {
      var t' := SeedYear(t, year);
      assert t'.months == t.months + SeededMonths(year);
      MonthSlotsMembers(year, 12);
      forall k | k in t'.months ensures k.0 in t'.years && 1 <= k.1 <= 12 && t'.months[k] == MonthName(k.1) {
        if k in SeededMonths(year) { assert k in MonthSlots(year, 12); }
      }
    }
  }

  lemma SeedKeepsYearsComplete(t: Tables, year: int)
    requires YearsHaveMonths(t)
    ensures YearsHaveMonths(SeedYear(t, year))
  {
    var t1 := SeedCategories(t);
    if year !in t1.years {
      var t' := SeedYear(t, year);
      assert t'.months == t.months + SeededMonths(year);
      SeededMonthsNames(year);
    }
  }

  lemma SeedKeepsEntriesBelonging(t: Tables, year: int)
    requires EntriesBelongToMonths(t)
    ensures EntriesBelongToMonths(SeedYear(t, year))
  {
    var t1 := SeedCategories(t);
    assert EntriesBelongToMonths(t1);
    if year !in t1.years {
      var t' := SeedYear(t, year);
      var codes := t1.categories.Keys;
      assert t'.months == t.months + SeededMonths(year);
      assert t'.entries == t.entries + SeededEntries(year, codes);
      EntrySlotsMembers(year, 12, codes);
      SeededMonthsNames(year);
      forall k | k in t'.entries ensures (k.0, k.1) in t'.months && k.2 in t'.categories {
        if k in SeededEntries(year, codes) { assert k in EntrySlots(year, 12, codes); }
      }
    }
  }

  lemma SeedKeepsEntriesComplete(t: Tables, year: int)
    requires YearsHaveEntries(t) && (t.years != {} ==> |t.categories| > 0)
    ensures YearsHaveEntries(SeedYear(t, year))
  {
    var t1 := SeedCategories(t);
    assert YearsHaveEntries(t1);
    if year !in t1.years {
      var t' := SeedYear(t, year);
      var codes := t1.categories.Keys;
      assert t'.entries == t.entries + SeededEntries(year, codes);
      EntrySlotsMembers(year, 12, codes);
      forall y, m, c | y in t'.years && 1 <= m <= 12 && c in t'.categories ensures (y, m, c) in t'.entries {
        if y == year { assert (y, m, c) in EntrySlots(year, 12, codes); }
      }
    }
  }

  /** Seeding keeps the no-partial-years invariant. */
  lemma SeedYearWellformed(t: Tables, year: int)
    requires Wellformed(t)
    ensures Wellformed(SeedYear(t, year))
  {
    PresetTableSize();
    SeedKeepsMonthsBelonging(t, year);
    SeedKeepsYearsComplete(t, year);
    SeedKeepsEntriesBelonging(t, year);
    SeedKeepsEntriesComplete(t, year);
  }

  // ---------------------------------------------------------------- month update

  /** One element of the `categories` array of a `month` PUT body; an absent field
      is None. */
  datatype Patch = Patch(
    code: Option<string>,
    revenue: Option<int>,
    expense: Option<int>,
    revenueNote: Option<string>,
    expenseNote: Option<string>,
    targetRevenue: Option<int>)

  /** The code a patch is keyed on: a missing code becomes "". */
  function PatchCode(p: Patch): string
  {
    p.code.GetOr("")
  }

  /** The row a patch writes: a full replace, missing amounts becoming 0 and missing
      notes "". */
  function PatchEntry(p: Patch): Entry
  {
    Entry(p.revenue.GetOr(0), p.expense.GetOr(0), p.revenueNote.GetOr(""), p.expenseNote.GetOr(""), p.targetRevenue.GetOr(0))
  }

  /** One `UPDATE ... WHERE year AND month AND category_code`: the matching row, if
      there is one, is overwritten; no row is ever inserted. */
  function ApplyPatch(entries: map<EntryKey, Entry>, year: int, month: int, p: Patch): map<EntryKey, Entry>
  {
    var k := (year, month, PatchCode(p));
    if k in entries then entries[k := PatchEntry(p)] else entries
  }

  /** The update loop: the patches applied one after the other, in order. It never
      adds or removes a row. */
  function ApplyPatches(entries: map<EntryKey, Entry>, year: int, month: int, ps: seq<Patch>): (r: map<EntryKey, Entry>)
    ensures r.Keys == entries.Keys
    decreases |ps|
  {
    if ps == [] then entries
    else ApplyPatch(ApplyPatches(entries, year, month, ps[..|ps| - 1]), year, month, ps[|ps| - 1])
  }

  /** Isolation: a row of another (year, month), or one whose code no patch names,
      keeps its values. */
  lemma {:induction false} PatchIsolation(entries: map<EntryKey, Entry>, year: int, month: int, ps: seq<Patch>, k: EntryKey)
    requires k in entries
    requires k.0 != year || k.1 != month || forall i :: 0 <= i < |ps| ==> PatchCode(ps[i]) != k.2
    ensures ApplyPatches(entries, year, month, ps)[k] == entries[k]
    decreases |ps|
  {
    if ps != [] {
      var init := ps[..|ps| - 1];
      assert forall i :: 0 <= i < |init| ==> init[i] == ps[i];
      PatchIsolation(entries, year, month, init, k);
      assert k != (year, month, PatchCode(ps[|ps| - 1]));
    }
  }

  /** Round trip and last write wins: after the update, the row named by a patch
      holds that patch's values (defaults applied) when no later patch names the
      same code. */
  lemma {:induction false} PatchRoundTrip(entries: map<EntryKey, Entry>, year: int, month: int, ps: seq<Patch>, i: int)
    requires 0 <= i < |ps|
    requires (year, month, PatchCode(ps[i])) in entries
    requires forall j :: i < j < |ps| ==> PatchCode(ps[j]) != PatchCode(ps[i])
    ensures ApplyPatches(entries, year, month, ps)[(year, month, PatchCode(ps[i]))] == PatchEntry(ps[i])
    decreases |ps|
  {
    var init := ps[..|ps| - 1];
    if i < |ps| - 1 {
      assert forall j :: 0 <= j < |init| ==> init[j] == ps[j];
      PatchRoundTrip(entries, year, month, init, i);
    }
  }

  /** Of two consecutive patches with the same code, only the second one shows. */
  lemma PatchLastWriteWins(entries: map<EntryKey, Entry>, year: int, month: int, ps: seq<Patch>, p: Patch, q: Patch)
    requires PatchCode(p) == PatchCode(q)
    ensures ApplyPatches(entries, year, month, ps + [p, q]) == ApplyPatches(entries, year, month, ps + [q])
  {
    assert (ps + [p, q])[..|ps| + 1] == ps + [p];
    assert (ps + [p])[..|ps|] == ps;
    assert (ps + [q])[..|ps|] == ps;
  }

  /** A patch whose code matches no row of that (year, month) has no effect. */
  lemma PatchWithoutRow(entries: map<EntryKey, Entry>, year: int, month: int, ps: seq<Patch>, p: Patch)
    requires (year, month, PatchCode(p)) !in entries
    ensures ApplyPatches(entries, year, month, ps + [p]) == ApplyPatches(entries, year, month, ps)
  {
    assert (ps + [p])[..|ps|] == ps;
  }

  /** The `month` PUT on valid input: ensure the year, then run the update loop. */
  function UpdateMonthTables(t: Tables, year: int, month: int, ps: seq<Patch>): (r: Tables)
    ensures r.(entries := SeedYear(t, year).entries) == SeedYear(t, year)
    ensures r.entries.Keys == SeedYear(t, year).entries.Keys
  {
    var t1 := SeedYear(t, year);
    t1.(entries := ApplyPatches(t1.entries, year, month, ps))
  }

  /** The update keeps the no-partial-years invariant. */
  lemma UpdateMonthWellformed(t: Tables, year: int, month: int, ps: seq<Patch>)
    requires Wellformed(t)
    ensures Wellformed(UpdateMonthTables(t, year, month, ps))
  {
    SeedYearWellformed(t, year);
  }
}
