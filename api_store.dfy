/** backend/api.php as a store object: the four tables are fields that the seeding
    and update routines change step by step, in the order the PHP code issues its
    INSERT and UPDATE statements. Each routine is proved to end in the state the
    matching ApiTables function describes; the request handlers add the "falsy year
    or month" checks in front of them. */
module Api {
  import opened Wrappers
  import opened Catalogue
  import opened Ordering
  import opened ApiTables
  import opened ApiViews

  // ---------------------------------------------------------------- partial seeding states

  /** The `months` rows of months 1..n of `year`. */
  function MonthsUpTo(year: int, n: int): map<MonthKey, string>
    requires n <= 12
  {
    MonthSlotsMembers(year, n);
    map k | k in MonthSlots(year, n) :: MonthName(k.1)
  }

  lemma MonthsUpToStep(year: int, n: int)
    requires 1 <= n <= 12
    ensures MonthsUpTo(year, n) == MonthsUpTo(year, n - 1)[(year, n) := MonthName(n)]
  {
    MonthSlotsMembers(year, n);
    MonthSlotsMembers(year, n - 1);
    assert MonthSlots(year, n) == MonthSlots(year, n - 1) + {(year, n)};
  }

  /** The zeroed rows of months 1..n of `year` for the codes `codes`. */
  function EntriesUpTo(year: int, n: int, codes: set<string>): map<EntryKey, Entry>
  {
    map k | k in EntrySlots(year, n, codes) :: ZeroEntry
  }

  /** The zeroed rows of month m for the codes listed in `cs`. */
  function MonthEntries(year: int, m: int, cs: seq<string>): map<EntryKey, Entry>
  {
    map c | c in cs :: (year, m, c) := ZeroEntry
  }

  lemma MonthEntriesStep(year: int, m: int, cs: seq<string>, c: string)
    ensures MonthEntries(year, m, cs + [c]) == MonthEntries(year, m, cs)[(year, m, c) := ZeroEntry]
  {
    var a, b := MonthEntries(year, m, cs + [c]), MonthEntries(year, m, cs)[(year, m, c) := ZeroEntry];
    forall k | k in b ensures k in a {
      if k != (year, m, c) {
        var c' :| c' in cs && k == (year, m, c');
        assert c' in cs + [c];
      }
    }
  }

  lemma EntriesUpToStep(year: int, n: int, codes: set<string>, cs: seq<string>)
    requires 1 <= n
    requires forall c :: c in cs <==> c in codes
    ensures EntriesUpTo(year, n - 1, codes) + MonthEntries(year, n, cs) == EntriesUpTo(year, n, codes)
  {
    EntrySlotsMembers(year, n, codes);
    EntrySlotsMembers(year, n - 1, codes);
    var a, b := EntriesUpTo(year, n - 1, codes) + MonthEntries(year, n, cs), EntriesUpTo(year, n, codes);
    forall k | k in b ensures k in a {
      if k.1 == n { assert k == (year, n, k.2); }
    }
    forall k | k in a ensures k in b && a[k] == b[k] {
      if k in MonthEntries(year, n, cs) {
        var c :| c in cs && k == (year, n, c);
      }
    }
  }

  lemma UnionAssoc<K, V>(a: map<K, V>, b: map<K, V>, c: map<K, V>)
    ensures a + b + c == a + (b + c)
  {
  }

  lemma UnionUpdate<K, V>(a: map<K, V>, b: map<K, V>, k: K, v: V)
    ensures (a + b)[k := v] == a + b[k := v]
  {
  }

  /** After month 12 the partial state is the seeded one. */
  lemma SeedDone(year: int, codes: set<string>)
    ensures MonthsUpTo(year, 12) == SeededMonths(year)
    ensures EntriesUpTo(year, 12, codes) == SeededEntries(year, codes)
  {
  }

  /** One turn of the inner loop of `ensureYear` takes the rows for the first j codes
      to those for the first j + 1. */
  lemma MonthEntriesGrow(e0: map<EntryKey, Entry>, year: int, m: int, cs: seq<string>, j: int)
    requires 0 <= j < |cs|
    ensures (e0 + MonthEntries(year, m, cs[..j]))[(year, m, cs[j]) := ZeroEntry] == e0 + MonthEntries(year, m, cs[..j + 1])
  {
    MonthEntriesStep(year, m, cs[..j], cs[j]);
    assert cs[..j + 1] == cs[..j] + [cs[j]];
    UnionUpdate(e0, MonthEntries(year, m, cs[..j]), (year, m, cs[j]), ZeroEntry);
  }

  /** One turn of the month loop of `ensureYear` takes the partial state for months
      1..m-1 to the one for months 1..m. */
  lemma SeedStep(m0: map<MonthKey, string>, e0: map<EntryKey, Entry>, year: int, m: int, codes: set<string>, cs: seq<string>)
    requires 1 <= m <= 12
    requires forall c :: c in cs <==> c in codes
    ensures (m0 + MonthsUpTo(year, m - 1))[(year, m) := MonthName(m)] == m0 + MonthsUpTo(year, m)
    ensures e0 + EntriesUpTo(year, m - 1, codes) + MonthEntries(year, m, cs) == e0 + EntriesUpTo(year, m, codes)
  {
    MonthsUpToStep(year, m);
    UnionUpdate(m0, MonthsUpTo(year, m - 1), (year, m), MonthName(m));
    EntriesUpToStep(year, m, codes, cs);
    UnionAssoc(e0, EntriesUpTo(year, m - 1, codes), MonthEntries(year, m, cs));
  }

  /** A reply of a handler: the value of a 2xx answer, or the message of a 400. */
  datatype Reply<T> = Ok(value: T) | BadRequest(message: string)

  /** The `categories` member of a `month` PUT body: absent (read as an empty list),
      a list of patches, or anything that is not an array. */
  datatype PatchList = Absent | Patches(items: seq<Patch>) | NotAList

  // ---------------------------------------------------------------- the store

  class Store {
    var categories: map<string, string>
    var years: set<int>
    var months: map<MonthKey, string>
    var entries: map<EntryKey, Entry>

    /** The four tables as one value. */
    function State(): Tables
      reads this
    {
      Tables(categories, years, months, entries)
    }

    /** No partial years (ApiTables.Wellformed). */
    ghost predicate Valid()
      reads this
    {
      Wellformed(State())
    }

    /** A fresh database: four empty tables. */
    constructor ()
      ensures State() == EmptyTables
      ensures Valid()
    {
      categories := map[];
      years := {};
      months := map[];
      entries := map[];
    }

    /** `ensureCategories`: count the catalogue; when it is empty, insert the preset
        rows one by one. */
    method EnsureCategories()
      modifies this
      ensures State() == SeedCategories(old(State()))
    {
      if |categories| > 0 {
        return;
      }
      assert categories == PresetPrefix(0);
      var i := 0;
      while i < |Preset|
        invariant 0 <= i <= |Preset|
        invariant categories == PresetPrefix(i)
        invariant years == old(years) && months == old(months) && entries == old(entries)
      {
        PresetPrefixStep(i);
        categories := categories[Preset[i].code := Preset[i].caption];
        i := i + 1;
      }
    }

    /** `ensureYear`: seed the catalogue; stop if the year exists; otherwise insert
        the year and its months, with the catalogue codes read in code order. */
    method EnsureYear(year: int)
      modifies this
      ensures State() == SeedYear(old(State()), year)
    {
      EnsureCategories();
      ghost var t1 := State();
      if year in years {
        return;
      }
      years := years + {year};
      var codes := SortedCodes(categories.Keys);
      SeedMonths(year, codes);
      assert State() == t1.(years := t1.years + {year},
        months := t1.months + SeededMonths(year),
        entries := t1.entries + SeededEntries(year, t1.categories.Keys));
    }

    /** The month loop of `ensureYear`: for each month 1..12, its named row followed
        by one zeroed row per code of `codes`. */
    method SeedMonths(year: int, codes: seq<string>)
      requires forall c :: c in codes <==> c in categories
      modifies this
      ensures categories == old(categories) && years == old(years)
      ensures months == old(months) + SeededMonths(year)
      ensures entries == old(entries) + SeededEntries(year, categories.Keys)
    {
      ghost var m0, e0, keys := months, entries, categories.Keys;
      // `done` months have been written; the PHP loop variable is done + 1.
      var done := 0;
      while done < 12
        invariant 0 <= done <= 12
        invariant categories == old(categories) && years == old(years)
        invariant months == m0 + MonthsUpTo(year, done)
        invariant entries == e0 + EntriesUpTo(year, done, keys)
      {
        SeedMonth(year, done + 1, codes, m0, e0, keys);
        done := done + 1;
      }
      SeedDone(year, keys);
    }

    /** One turn of the month loop: the month's named row, then its zeroed rows. */
    method SeedMonth(year: int, m: int, codes: seq<string>, ghost m0: map<MonthKey, string>, ghost e0: map<EntryKey, Entry>, ghost keys: set<string>)
      requires 1 <= m <= 12
      requires forall c :: c in codes <==> c in keys
      requires months == m0 + MonthsUpTo(year, m - 1)
      requires entries == e0 + EntriesUpTo(year, m - 1, keys)
      modifies this
      ensures categories == old(categories) && years == old(years)
      ensures months == m0 + MonthsUpTo(year, m)
      ensures entries == e0 + EntriesUpTo(year, m, keys)
    {
      SeedStep(m0, e0, year, m, keys, codes);
      months := months[(year, m) := MonthName(m)];
      SeedMonthEntries(year, m, codes);
    }

    /** The inner loop of `ensureYear`: one zeroed row of month m per code. */
    method SeedMonthEntries(year: int, m: int, codes: seq<string>)
      modifies this
      ensures categories == old(categories) && years == old(years) && months == old(months)
      ensures entries == old(entries) + MonthEntries(year, m, codes)
    {
      var j := 0;
      while j < |codes|
        invariant 0 <= j <= |codes|
        invariant categories == old(categories) && years == old(years) && months == old(months)
        invariant entries == old(entries) + MonthEntries(year, m, codes[..j])
      {
        MonthEntriesGrow(old(entries), year, m, codes, j);
        entries := entries[(year, m, codes[j]) := ZeroEntry];
        j := j + 1;
      }
      assert codes[..j] == codes;
    }

    /** The update loop of the `month` PUT: per patch, overwrite the row keyed
        (year, month, code) if it exists. */
    method ApplyUpdates(year: int, month: int, patches: seq<Patch>)
      modifies this
      ensures State() == old(State()).(entries := ApplyPatches(old(entries), year, month, patches))
    {
      var i := 0;
      while i < |patches|
        invariant 0 <= i <= |patches|
        invariant categories == old(categories) && years == old(years) && months == old(months)
        invariant entries == ApplyPatches(old(entries), year, month, patches[..i])
      {
        assert patches[..i + 1][..i] == patches[..i];
        var p := patches[i];
        var key := (year, month, PatchCode(p));
        if key in entries {
          entries := entries[key := PatchEntry(p)];
        }
        i := i + 1;
      }
      assert patches[..i] == patches;
    }

    // ------------------------------------------------------------ request handlers

    /** `years` GET: every year, newest first. */
    method GetYears() returns (ys: seq<int>)
      ensures StrictlyDescending(ys)
      ensures forall y :: y in ys <==> y in years
    {
      ys := SortedDesc(years);
    }

    /** `years` POST: a falsy year is refused before anything is written. */
    method PostYears(year: int) returns (r: Reply<int>)
      modifies this
      ensures year == 0 ==> r == BadRequest("Ano invalido.") && State() == old(State())
      ensures year != 0 ==> r == Ok(year) && State() == SeedYear(old(State()), year)
      ensures old(Valid()) ==> Valid()
    {
      if year == 0 {
        return BadRequest("Ano invalido.");
      }
      if Valid() {
        SeedYearWellformed(State(), year);
      }
      EnsureYear(year);
      r := Ok(year);
    }

    /** `year` GET: refuse a falsy year, seed the year, group its rows. */
    method GetYear(year: int) returns (r: Reply<seq<MonthView>>)
      requires Valid()
      modifies this
      ensures Valid()
      ensures year == 0 ==> r == BadRequest("Ano invalido.") && State() == old(State())
      ensures year != 0 ==> State() == SeedYear(old(State()), year) && r == Ok(YearView(State(), year))
    {
      if year == 0 {
        return BadRequest("Ano invalido.");
      }
      SeedYearWellformed(State(), year);
      SeedYearHasYear(State(), year);
      EnsureYear(year);
      var ms := LoadYear(YearQuery(State(), year));
      LoadYearComplete(State(), year);
      r := Ok(ms);
    }

    /** `month` GET: refuse a falsy year or month, seed the year, load the month. */
    method GetMonth(year: int, month: int) returns (r: Reply<Option<MonthView>>)
      requires Valid()
      modifies this
      ensures Valid()
      ensures year == 0 || month == 0 ==> r == BadRequest("Ano ou mes invalido.") && State() == old(State())
      ensures year != 0 && month != 0 ==> State() == SeedYear(old(State()), year)
      ensures year != 0 && month != 0 && 1 <= month <= 12 ==>
        r == Ok(Some(MonthView(month, MonthName(month), ViewsOf(MonthQuery(State(), year, month)))))
      ensures year != 0 && month != 0 && !(1 <= month <= 12) ==> r == Ok(None)
    {
      if year == 0 || month == 0 {
        return BadRequest("Ano ou mes invalido.");
      }
      SeedYearWellformed(State(), year);
      SeedYearHasYear(State(), year);
      EnsureYear(year);
      var rows := MonthQuery(State(), year, month);
      if 1 <= month <= 12 {
        MonthQueryCodes(State(), year, month);
      } else {
        assert (year, month) !in months;
      }
      var found := LoadMonth(rows);
      r := Ok(found);
    }

    /** `month` PUT: refuse a falsy year or month or a `categories` that is not an
        array, seed the year, then run the update loop. */
    method PutMonth(year: int, month: int, body: PatchList) returns (r: Reply<bool>)
      modifies this
      ensures year == 0 || month == 0 || body.NotAList? ==>
        r == BadRequest("Payload invalido.") && State() == old(State())
      ensures year != 0 && month != 0 && body.Absent? ==>
        r == Ok(true) && State() == SeedYear(old(State()), year)
      ensures year != 0 && month != 0 && body.Patches? ==>
        r == Ok(true) && State() == UpdateMonthTables(old(State()), year, month, body.items)
      ensures old(Valid()) ==> Valid()
    {
      var patches: seq<Patch>;
      match body {
        case Absent => patches := [];
        case Patches(items) => patches := items;
        case NotAList => patches := [];
      }
      if year == 0 || month == 0 || body.NotAList? {
        return BadRequest("Payload invalido.");
      }
      if Valid() {
        UpdateMonthWellformed(State(), year, month, patches);
      }
      EnsureYear(year);
      ApplyUpdates(year, month, patches);
      r := Ok(true);
    }
  }
}
