/** The read side of backend/api.php: the rows the two SELECT ... JOIN queries
    return, and `loadYear` / `loadMonth`, which turn those flat rows into the nested
    month objects the client receives. */
module ApiViews {
  import opened Wrappers
  import opened Catalogue
  import opened Ordering
  import opened ApiTables

  /** One row of the join: month number and name, category code and caption, and
      the row's values. */
  datatype Row = Row(month: int, name: string, code: string, caption: string, entry: Entry)

  /** A category object of the JSON reply. */
  datatype CategoryView = CategoryView(
    code: string,
    caption: string,
    revenue: int,
    revenueNote: string,
    expense: int,
    expenseNote: string,
    targetRevenue: int)

  /** A month object of the JSON reply. */
  datatype MonthView = MonthView(id: int, name: string, categories: seq<CategoryView>)

  function ViewOf(r: Row): CategoryView
  {
    CategoryView(r.code, r.caption, r.entry.revenue, r.entry.revenueNote, r.entry.expense, r.entry.expenseNote, r.entry.targetRevenue)
  }

  function ViewsOf(rows: seq<Row>): seq<CategoryView>
  {
    seq(|rows|, i requires 0 <= i < |rows| => ViewOf(rows[i]))
  }

  // ---------------------------------------------------------------- the queries

  /** The codes the month query joins for (year, month): catalogue codes that have a
      row in that month. */
  function JoinCodes(t: Tables, year: int, month: int): set<string>
  {
    set c | c in t.categories && (year, month, c) in t.entries
  }

  /** The rows of `SELECT ... WHERE m.year = :year AND m.month = :month ORDER BY c.code`. */
  function MonthQuery(t: Tables, year: int, month: int): (rows: seq<Row>)
    ensures (year, month) !in t.months ==> rows == []
    ensures (year, month) in t.months ==> |rows| == |JoinCodes(t, year, month)|
    ensures forall i :: 0 <= i < |rows| ==> rows[i].month == month
  {
    if (year, month) !in t.months then []
    else
      var codes := SortedCodes(JoinCodes(t, year, month));
      seq(|codes|, i requires 0 <= i < |codes| =>
        assert codes[i] in codes;
        Row(month, t.months[(year, month)], codes[i], t.categories[codes[i]], t.entries[(year, month, codes[i])]))
  }

  /** Blocks of rows, one after the other. */
  function Concat(blocks: seq<seq<Row>>): seq<Row>
    decreases |blocks|
  {
    if blocks == [] then [] else Concat(blocks[..|blocks| - 1]) + blocks[|blocks| - 1]
  }

  /** The month query's rows for months 1..12 of `year`. */
  function MonthBlocks(t: Tables, year: int): seq<seq<Row>>
  {
    seq(12, i requires 0 <= i < 12 => MonthQuery(t, year, i + 1))
  }

  lemma MonthBlocksAt(t: Tables, year: int, i: int)
    requires 0 <= i < 12
    ensures |MonthBlocks(t, year)| == 12 && MonthBlocks(t, year)[i] == MonthQuery(t, year, i + 1)
  {
  }

  /** The rows of `SELECT ... WHERE m.year = :year ORDER BY m.month, c.code`. Every
      `months` row has a month in 1..12 (ApiTables.MonthsBelongToYears), so taking
      the rows of months 1..12 in turn yields the rows in the query's order. */
  function YearQuery(t: Tables, year: int): seq<Row>
  {
    Concat(MonthBlocks(t, year))
  }

  // ---------------------------------------------------------------- grouping

  /** Where the month with id `id` sits in `ms` (PHP `isset($months[$monthId])`). */
  function IndexOfMonth(ms: seq<MonthView>, id: int): (i: int)
    ensures -1 <= i < |ms|
    ensures 0 <= i ==> ms[i].id == id
    ensures i == -1 ==> forall j :: 0 <= j < |ms| ==> ms[j].id != id
  {
    if ms == [] then -1
    else if ms[0].id == id then 0
    else
      var i := IndexOfMonth(ms[1..], id);
      if i < 0 then -1 else i + 1
  }

  /** One turn of the `loadYear` loop: open the row's month if it is new, then append
      the row's category to it. */
  function AddRow(ms: seq<MonthView>, r: Row): seq<MonthView>
  {
    var i := IndexOfMonth(ms, r.month);
    if i < 0 then ms + [MonthView(r.month, r.name, [ViewOf(r)])]
    else ms[i := ms[i].(categories := ms[i].categories + [ViewOf(r)])]
  }

  /** What `loadYear` returns for the rows `rows`. */
  function Group(rows: seq<Row>): seq<MonthView>
    decreases |rows|
  {
    if rows == [] then [] else AddRow(Group(rows[..|rows| - 1]), rows[|rows| - 1])
  }

  /** The rows of month `id`, in input order. */
  function RowsOf(rows: seq<Row>, id: int): (rs: seq<Row>)
    decreases |rows|
  {
    if rows == [] then []
    else RowsOf(rows[..|rows| - 1], id) + (if rows[|rows| - 1].month == id then [rows[|rows| - 1]] else [])
  }

  function MonthsOf(rows: seq<Row>): set<int>
  {
    set r | r in rows :: r.month
  }

  function IdsOf(ms: seq<MonthView>): set<int>
  {
    set m | m in ms :: m.id
  }

  ghost predicate IdsDistinct(ms: seq<MonthView>)
  {
    forall i, j :: 0 <= i < j < |ms| ==> ms[i].id != ms[j].id
  }

  /** The number of category objects over all months. */
  function CategoryCount(ms: seq<MonthView>): nat
    decreases |ms|
  {
    if ms == [] then 0 else CategoryCount(ms[..|ms| - 1]) + |ms[|ms| - 1].categories|
  }

  // ---------------------------------------------------------------- grouping lemmas

  lemma ViewsOfAppend(rows: seq<Row>, r: Row)
    ensures ViewsOf(rows + [r]) == ViewsOf(rows) + [ViewOf(r)]
  {
    assert |ViewsOf(rows + [r])| == |ViewsOf(rows) + [ViewOf(r)]|;
    forall i | 0 <= i < |rows| + 1 ensures ViewsOf(rows + [r])[i] == (ViewsOf(rows) + [ViewOf(r)])[i] {
      if i < |rows| { assert (rows + [r])[i] == rows[i]; }
    }
  }

  /** A month has rows exactly when it occurs among the rows. */
  lemma {:induction false} RowsOfEmpty(rows: seq<Row>, id: int)
    ensures RowsOf(rows, id) == [] <==> id !in MonthsOf(rows)
    decreases |rows|
  {
    if rows != [] {
      var init := rows[..|rows| - 1];
      RowsOfEmpty(init, id);
      assert rows == init + [rows[|rows| - 1]];
      assert MonthsOf(rows) == MonthsOf(init) + {rows[|rows| - 1].month};
    }
  }

  /** `loadYear` opens one month per distinct month number and no other. */
  lemma {:induction false} GroupIds(rows: seq<Row>)
    ensures IdsDistinct(Group(rows))
    ensures IdsOf(Group(rows)) == MonthsOf(rows)
    decreases |rows|
  {
    if rows != [] {
      var init, r := rows[..|rows| - 1], rows[|rows| - 1];
      GroupIds(init);
      assert rows == init + [r];
      assert MonthsOf(rows) == MonthsOf(init) + {r.month};
      var g := Group(init);
      var i := IndexOfMonth(g, r.month);
      if i < 0 {
        assert Group(rows) == g + [MonthView(r.month, r.name, [ViewOf(r)])];
        assert IdsOf(Group(rows)) == IdsOf(g) + {r.month};
      } else {
        assert r.month in IdsOf(g);
        assert IdsOf(Group(rows)) == IdsOf(g) by {
          forall j | 0 <= j < |g| ensures Group(rows)[j].id == g[j].id { }
          forall x | x in IdsOf(g) ensures x in IdsOf(Group(rows)) {
            var j :| 0 <= j < |g| && g[j].id == x;
            assert Group(rows)[j].id == x;
          }
        }
      }
    }
  }

  /** Each month `loadYear` returns carries the name of its first row and the
      categories of its rows, in row order. */
  lemma {:induction false} GroupCategories(rows: seq<Row>)
    ensures forall i :: 0 <= i < |Group(rows)| ==>
      RowsOf(rows, Group(rows)[i].id) != [] &&
      Group(rows)[i].name == RowsOf(rows, Group(rows)[i].id)[0].name &&
      Group(rows)[i].categories == ViewsOf(RowsOf(rows, Group(rows)[i].id))
    decreases |rows|
  {
    if rows != [] {
      var init, r := rows[..|rows| - 1], rows[|rows| - 1];
      GroupCategories(init);
      GroupIds(init);
      var g := Group(init);
      var i := IndexOfMonth(g, r.month);
      ViewsOfAppend(RowsOf(init, r.month), r);
      if i < 0 {
        assert r.month !in MonthsOf(init);
        RowsOfEmpty(init, r.month);
        assert ViewsOf([r]) == [ViewOf(r)];
      } else {
        forall j | 0 <= j < |g| && j != i ensures g[j].id != r.month { }
      }
    }
  }

  lemma {:induction false} CategoryCountUpdate(ms: seq<MonthView>, i: int, x: MonthView)
    requires 0 <= i < |ms|
    ensures CategoryCount(ms[i := x]) == CategoryCount(ms) - |ms[i].categories| + |x.categories|
    decreases |ms|
  {
    var n := |ms| - 1;
    assert ms[i := x][..n] == if i < n then ms[..n][i := x] else ms[..n];
    if i < n { CategoryCountUpdate(ms[..n], i, x); }
  }

  /** `loadYear` turns every row into exactly one category object. */
  lemma {:induction false} GroupCount(rows: seq<Row>)
    ensures CategoryCount(Group(rows)) == |rows|
    decreases |rows|
  {
    if rows != [] {
      var init, r := rows[..|rows| - 1], rows[|rows| - 1];
      GroupCount(init);
      var g := Group(init);
      var i := IndexOfMonth(g, r.month);
      if i < 0 {
        var x := MonthView(r.month, r.name, [ViewOf(r)]);
        assert (g + [x])[..|g|] == g;
      } else {
        CategoryCountUpdate(g, i, g[i].(categories := g[i].categories + [ViewOf(r)]));
      }
    }
  }

  ghost predicate MonthOrdered(rows: seq<Row>)
  {
    forall i, j :: 0 <= i < j < |rows| ==> rows[i].month <= rows[j].month
  }

  /** Rows ordered by month (`ORDER BY m.month`) give months in ascending id order. */
  lemma {:induction false} GroupAscending(rows: seq<Row>)
    requires MonthOrdered(rows)
    ensures forall i, j :: 0 <= i < j < |Group(rows)| ==> Group(rows)[i].id < Group(rows)[j].id
    decreases |rows|
  {
    if rows != [] {
      var init, r := rows[..|rows| - 1], rows[|rows| - 1];
      GroupAscending(init);
      GroupIds(init);
      var g := Group(init);
      var i := IndexOfMonth(g, r.month);
      if i < 0 {
        forall j | 0 <= j < |g| ensures g[j].id < r.month {
          assert g[j].id in MonthsOf(init);
          var k :| 0 <= k < |init| && init[k].month == g[j].id;
          assert rows[k] == init[k];
        }
      }
    }
  }

  // ---------------------------------------------------------------- loadYear / loadMonth

  /** `loadYear`: walk the rows, opening a month the first time its number is seen
      and appending each row's category object to its month. */
  method LoadYear(rows: seq<Row>) returns (months: seq<MonthView>)
    ensures months == Group(rows)
  {
    months := [];
    var i := 0;
    while i < |rows|
      invariant 0 <= i <= |rows|
      invariant months == Group(rows[..i])
    {
      var row := rows[i];
      assert rows[..i + 1][..i] == rows[..i];
      ghost var before := months;
      var idx := IndexOfMonth(months, row.month);
      if idx < 0 {
        months := months + [MonthView(row.month, row.name, [])];
        idx := |months| - 1;
      }
      months := months[idx := months[idx].(categories := months[idx].categories + [ViewOf(row)])];
      if |months| > |before| {
        assert [] + [ViewOf(row)] == [ViewOf(row)];
        assert months[|before|] == MonthView(row.month, row.name, [ViewOf(row)]);
        forall k | 0 <= k < |before| ensures months[k] == before[k] { }
        assert months == before + [MonthView(row.month, row.name, [ViewOf(row)])];
      }
      i := i + 1;
    }
    assert rows[..i] == rows;
  }

  /** `loadMonth`: nothing for no rows; otherwise the first row's month number and
      name, and one category object per row in row order. */
  method LoadMonth(rows: seq<Row>) returns (month: Option<MonthView>)
    ensures rows == [] <==> month == None
    ensures rows != [] ==> month == Some(MonthView(rows[0].month, rows[0].name, ViewsOf(rows)))
  {
    if rows == [] {
      return None;
    }
    var categories: seq<CategoryView> := [];
    var i := 0;
    while i < |rows|
      invariant 0 <= i <= |rows|
      invariant |categories| == i
      invariant forall k :: 0 <= k < i ==> categories[k] == ViewOf(rows[k])
    {
      categories := categories + [ViewOf(rows[i])];
      i := i + 1;
    }
    assert categories == ViewsOf(rows);
    month := Some(MonthView(rows[0].month, rows[0].name, categories));
  }

  // ---------------------------------------------------------------- completeness of a seeded year

  lemma GroupSnoc(rows: seq<Row>, r: Row)
    ensures Group(rows + [r]) == AddRow(Group(rows), r)
  {
    assert (rows + [r])[..|rows|] == rows;
  }

  /** One loop turn keeps every opened month in place with its id and name, appends
      the row's category to the row's month when that month is open, leaves the other
      months as they were, and opens a new month, holding just the row's category,
      exactly when the row's month is not open yet. */
  lemma AddRowShape(ms: seq<MonthView>, r: Row)
    ensures r.month in IdsOf(ms) ==> |AddRow(ms, r)| == |ms|
    ensures r.month !in IdsOf(ms) ==> AddRow(ms, r) == ms + [MonthView(r.month, r.name, [ViewOf(r)])]
    ensures forall i :: 0 <= i < |ms| ==> AddRow(ms, r)[i].id == ms[i].id && AddRow(ms, r)[i].name == ms[i].name
    ensures forall i :: 0 <= i < |ms| && ms[i].id != r.month ==> AddRow(ms, r)[i] == ms[i]
    ensures IdsDistinct(ms) ==> forall i :: 0 <= i < |ms| && ms[i].id == r.month ==>
      AddRow(ms, r)[i].categories == ms[i].categories + [ViewOf(r)]
  {
    var i := IndexOfMonth(ms, r.month);
    if i >= 0 {
      assert ms[i] in ms;
    } else {
      forall m | m in ms ensures m.id != r.month {
        var j :| 0 <= j < |ms| && ms[j] == m;
      }
    }
  }

  /** There are never more month objects than rows. */
  lemma {:induction false} GroupLength(rows: seq<Row>)
    ensures |Group(rows)| <= |rows|
    decreases |rows|
  {
    if rows != [] {
      GroupLength(rows[..|rows| - 1]);
      AddRowShape(Group(rows[..|rows| - 1]), rows[|rows| - 1]);
    }
  }

  lemma AddRowNew(ms: seq<MonthView>, r: Row)
    requires forall j :: 0 <= j < |ms| ==> ms[j].id != r.month
    ensures AddRow(ms, r) == ms + [MonthView(r.month, r.name, [ViewOf(r)])]
  {
  }

  lemma AddRowToLast(ms: seq<MonthView>, x: MonthView, r: Row)
    requires forall j :: 0 <= j < |ms| ==> ms[j].id != r.month
    requires x.id == r.month
    ensures AddRow(ms + [x], r) == ms + [x.(categories := x.categories + [ViewOf(r)])]
  {
    var i := IndexOfMonth(ms + [x], r.month);
    assert (ms + [x])[|ms|] == x;
    forall j | 0 <= j < |ms| ensures (ms + [x])[j].id != r.month {
      assert (ms + [x])[j] == ms[j];
    }
    assert i == |ms|;
  }

  /** Appending the rows of one new month adds exactly one month object at the end. */
  lemma {:induction false} GroupAppendBlock(rows: seq<Row>, block: seq<Row>)
    requires block != []
    requires forall k :: 0 <= k < |block| ==> block[k].month == block[0].month
    requires block[0].month !in MonthsOf(rows)
    ensures Group(rows + block) == Group(rows) + [MonthView(block[0].month, block[0].name, ViewsOf(block))]
    decreases |block|
  {
    var n := |block| - 1;
    var last := block[n];
    var m := block[0].month;
    assert rows + block == (rows + block[..n]) + [last];
    GroupSnoc(rows + block[..n], last);
    GroupIds(rows);
    var g := Group(rows);
    forall j | 0 <= j < |g| ensures g[j].id != m {
      assert g[j] in g;
    }
    if n == 0 {
      assert rows + block[..n] == rows;
      AddRowNew(g, last);
      assert ViewsOf(block) == [ViewOf(last)];
    } else {
      assert block[..n][0] == block[0];
      GroupAppendBlock(rows, block[..n]);
      AddRowToLast(g, MonthView(m, block[0].name, ViewsOf(block[..n])), last);
      ViewsOfAppend(block[..n], last);
      assert block[..n] + [last] == block;
    }
  }

  /** Block i holds rows of month i + 1 only, and at least one. */
  ghost predicate NumberedBlocks(blocks: seq<seq<Row>>)
  {
    forall i :: 0 <= i < |blocks| ==> blocks[i] != [] && forall k :: 0 <= k < |blocks[i]| ==> blocks[i][k].month == i + 1
  }

  /** The month object `loadYear` builds from the rows of one month. */
  function BlockView(block: seq<Row>): MonthView
    requires block != []
  {
    MonthView(block[0].month, block[0].name, ViewsOf(block))
  }

  lemma {:induction false} ConcatMonths(blocks: seq<seq<Row>>)
    requires NumberedBlocks(blocks)
    ensures forall k :: 0 <= k < |Concat(blocks)| ==> 1 <= Concat(blocks)[k].month <= |blocks|
    decreases |blocks|
  {
    if blocks != [] {
      var init: seq<seq<Row>>, last: seq<Row> := blocks[..|blocks| - 1], blocks[|blocks| - 1];
      assert NumberedBlocks(init) by {
        forall i | 0 <= i < |init| ensures init[i] == blocks[i] { }
      }
      ConcatMonths(init);
      var a: seq<Row> := Concat(init);
      forall k | 0 <= k < |a + last| ensures 1 <= (a + last)[k].month <= |blocks| {
        if k < |a| { assert (a + last)[k] == a[k]; } else { assert (a + last)[k] == last[k - |a|]; }
      }
    }
  }

  /** One month object per block, in block order. */
  function BlockViews(blocks: seq<seq<Row>>): seq<MonthView>
    requires forall i :: 0 <= i < |blocks| ==> blocks[i] != []
  {
    seq(|blocks|, i requires 0 <= i < |blocks| => BlockView(blocks[i]))
  }

  lemma BlockViewsSnoc(blocks: seq<seq<Row>>)
    requires blocks != [] && forall i :: 0 <= i < |blocks| ==> blocks[i] != []
    ensures BlockViews(blocks) == BlockViews(blocks[..|blocks| - 1]) + [BlockView(blocks[|blocks| - 1])]
  {
  }

  /** Grouping the rows of numbered blocks gives one month object per block, in
      block order. */
  lemma {:induction false} GroupBlocks(blocks: seq<seq<Row>>)
    requires NumberedBlocks(blocks)
    ensures Group(Concat(blocks)) == BlockViews(blocks)
    decreases |blocks|
  {
    if blocks != [] {
      var n := |blocks|;
      var init: seq<seq<Row>>, last: seq<Row> := blocks[..n - 1], blocks[n - 1];
      assert NumberedBlocks(init) by {
        forall i | 0 <= i < |init| ensures init[i] == blocks[i] { }
      }
      GroupBlocks(init);
      ConcatMonths(init);
      var rows := Concat(init);
      forall r | r in rows ensures r.month != n {
        var k :| 0 <= k < |rows| && rows[k] == r;
      }
      assert last[0].month == n;
      GroupAppendBlock(rows, last);
      BlockViewsSnoc(blocks);
    }
  }

  /** In a seeded (year, month) of a well-formed store, the month query joins every
      catalogue code. */
  lemma MonthQueryCodes(t: Tables, year: int, month: int)
    requires Wellformed(t) && year in t.years && 1 <= month <= 12
    ensures (year, month) in t.months && t.months[(year, month)] == MonthName(month)
    ensures JoinCodes(t, year, month) == t.categories.Keys
    ensures |MonthQuery(t, year, month)| == |t.categories| > 0
  {
    assert (year, month) in t.months;
  }

  /** ... under the month's Portuguese name, one row per code, in code order. */
  lemma MonthQueryRows(t: Tables, year: int, month: int)
    requires Wellformed(t) && year in t.years && 1 <= month <= 12
    ensures |MonthQuery(t, year, month)| == |t.categories|
    ensures forall i :: 0 <= i < |MonthQuery(t, year, month)| ==>
      var c := SortedCodes(t.categories.Keys)[i];
      MonthQuery(t, year, month)[i] == Row(month, MonthName(month), c, t.categories[c], t.entries[(year, month, c)])
  {
    MonthQueryCodes(t, year, month);
  }

  /** What `GET year` returns for a seeded year: months 1..12 in order. */
  function YearView(t: Tables, year: int): seq<MonthView>
  {
    seq(12, i requires 0 <= i < 12 => MonthView(i + 1, MonthName(i + 1), ViewsOf(MonthQuery(t, year, i + 1))))
  }

  /** Every month 1..12 of `year` has rows, headed by the month's name. */
  ghost predicate MonthsSeeded(t: Tables, year: int)
  {
    forall m :: 1 <= m <= 12 ==> MonthQuery(t, year, m) != [] && MonthQuery(t, year, m)[0].name == MonthName(m)
  }

  lemma WellformedMonthsSeeded(t: Tables, year: int)
    requires Wellformed(t) && year in t.years
    ensures MonthsSeeded(t, year)
  {
    forall m | 1 <= m <= 12 ensures MonthQuery(t, year, m) != [] && MonthQuery(t, year, m)[0].name == MonthName(m) {
      MonthQueryCodes(t, year, m);
    }
  }

  /** A seeded month's rows group into the month object the year view expects. */
  lemma SeededBlock(t: Tables, year: int, m: int)
    requires 1 <= m <= 12
    requires MonthQuery(t, year, m) != [] && MonthQuery(t, year, m)[0].name == MonthName(m)
    ensures BlockView(MonthQuery(t, year, m)) == MonthView(m, MonthName(m), ViewsOf(MonthQuery(t, year, m)))
  {
  }

  lemma SeededBlocks(t: Tables, year: int)
    requires MonthsSeeded(t, year)
    ensures NumberedBlocks(MonthBlocks(t, year))
    ensures BlockViews(MonthBlocks(t, year)) == YearView(t, year)
  {
    var blocks: seq<seq<Row>> := MonthBlocks(t, year);
    var view := YearView(t, year);
    assert |blocks| == 12 == |view|;
    forall i | 0 <= i < 12
      ensures blocks[i] == MonthQuery(t, year, i + 1) != []
      ensures BlockView(blocks[i]) == view[i]
    {
      MonthBlocksAt(t, year, i);
      SeededBlock(t, year, i + 1);
    }
    assert NumberedBlocks(blocks);
  }

  lemma GroupSeededYear(t: Tables, year: int)
    requires MonthsSeeded(t, year)
    ensures Group(YearQuery(t, year)) == YearView(t, year)
  {
    SeededBlocks(t, year);
    GroupBlocks(MonthBlocks(t, year));
  }

  /** `loadYear` over the year query of a seeded year yields months 1..12 in order,
      each named after its month and holding every category in code order. */
  lemma LoadYearComplete(t: Tables, year: int)
    requires Wellformed(t) && year in t.years
    ensures Group(YearQuery(t, year)) == YearView(t, year)
    ensures forall i :: 0 <= i < 12 ==> |YearView(t, year)[i].categories| == |t.categories|
  {
    WellformedMonthsSeeded(t, year);
    GroupSeededYear(t, year);
    forall m | 1 <= m <= 12 ensures |ViewsOf(MonthQuery(t, year, m))| == |t.categories| {
      MonthQueryCodes(t, year, m);
    }
  }
}
