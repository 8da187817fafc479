/** The client's bookkeeping in frontend/src/App.tsx: the offline month and year
    templates, the per-month totals, the descending year list, the next-year rule,
    the `find` of the selected month, and the `setData` updater of `saveChanges`. */
module App {
  import opened Wrappers
  import opened Catalogue
  import opened Ordering

  /** A category line as the client holds it; `targetRevenue` may be absent. */
  datatype CategoryLine = CategoryLine(
    code: string,
    caption: string,
    revenue: int,
    revenueNote: string,
    expense: int,
    expenseNote: string,
    targetRevenue: Option<int>)

  datatype MonthData = MonthData(id: int, name: string, categories: seq<CategoryLine>)

  /** `DataStore`: the loaded months of each year. */
  type DataStore = map<int, seq<MonthData>>

  // ---------------------------------------------------------------- templates

  /** The zeroed line the template makes of a preset category. */
  function TemplateLine(c: Category): CategoryLine
  {
    CategoryLine(c.code, c.caption, 0, "", 0, "", Some(0))
  }

  /** `createMonthTemplate(monthId)`: the month's name and one zeroed line per
      preset category, in preset order. */
  function CreateMonthTemplate(monthId: int): (m: MonthData)
    requires 1 <= monthId <= 12
    ensures m.id == monthId && m.name == MonthNames[monthId - 1]
    ensures |m.categories| == |Preset|
  {
    MonthData(monthId, MonthName(monthId), seq(|Preset|, i requires 0 <= i < |Preset| => TemplateLine(Preset[i])))
  }

  /** `createYearTemplate`: push the templates of months 1..12 in turn. */
  method CreateYearTemplate(year: int) returns (months: seq<MonthData>)
    ensures |months| == 12
    ensures forall i :: 0 <= i < 12 ==> months[i] == CreateMonthTemplate(i + 1)
  {
    months := [];
    var m := 1;
    while m <= 12
      invariant 1 <= m <= 13
      invariant |months| == m - 1
      invariant forall i :: 0 <= i < m - 1 ==> months[i] == CreateMonthTemplate(i + 1)
    {
      months := months + [CreateMonthTemplate(m)];
      m := m + 1;
    }
  }

  /** A month template has id `monthId`, the month's Portuguese name, and exactly
      the seven preset categories in preset order, every amount 0 and every note "". */
  lemma MonthTemplateShape(monthId: int)
    requires 1 <= monthId <= 12
    ensures CreateMonthTemplate(monthId).id == monthId
    ensures CreateMonthTemplate(monthId).name == MonthNames[monthId - 1]
    ensures |CreateMonthTemplate(monthId).categories| == 7
    ensures forall i :: 0 <= i < 7 ==>
      var l := CreateMonthTemplate(monthId).categories[i];
      l.code == Preset[i].code && l.caption == Preset[i].caption &&
      l.revenue == 0 && l.expense == 0 && l.targetRevenue == Some(0) &&
      l.revenueNote == "" && l.expenseNote == ""
  {
  }

  // ---------------------------------------------------------------- totals

  /** The three amounts `monthTotals` adds up. */
  datatype Field = Revenue | Expense | Target

  /** A line's amount for `f`; an absent target counts as 0 (`|| 0`). */
  function Amount(c: CategoryLine, f: Field): int
  {
    match f
    case Revenue => c.revenue
    case Expense => c.expense
    case Target => c.targetRevenue.GetOr(0)
  }

  /** `categories.reduce((acc, c) => acc + amount, acc)`: a left fold. */
  function Reduce(cs: seq<CategoryLine>, f: Field, acc: int): int
    decreases |cs|
  {
    if cs == [] then acc else Reduce(cs[1..], f, acc + Amount(cs[0], f))
  }

  /** The sum of `f` over the lines, as a reference definition. */
  function Sum(cs: seq<CategoryLine>, f: Field): int
    decreases |cs|
  {
    if cs == [] then 0 else Sum(cs[..|cs| - 1], f) + Amount(cs[|cs| - 1], f)
  }

  lemma {:induction false} SumCons(cs: seq<CategoryLine>, f: Field)
    requires cs != []
    ensures Sum(cs, f) == Amount(cs[0], f) + Sum(cs[1..], f)
    decreases |cs|
  {
    if |cs| > 1 {
      SumCons(cs[..|cs| - 1], f);
      assert cs[..|cs| - 1][1..] == cs[1..][..|cs[1..]| - 1];
    }
  }

  /** The fold computes the sum, starting from the accumulator. */
  lemma {:induction false} ReduceIsSum(cs: seq<CategoryLine>, f: Field, acc: int)
    ensures Reduce(cs, f, acc) == acc + Sum(cs, f)
    decreases |cs|
  {
    if cs != [] {
      ReduceIsSum(cs[1..], f, acc + Amount(cs[0], f));
      SumCons(cs, f);
    }
  }

  datatype Totals = Totals(revenue: int, expense: int, result: int, target: int)

  /** `monthTotals`: the sums of revenue, expense and target over the month's lines,
      and the result revenue - expense. */
  function MonthTotals(m: MonthData): (t: Totals)
    ensures t.revenue == Sum(m.categories, Revenue)
    ensures t.expense == Sum(m.categories, Expense)
    ensures t.target == Sum(m.categories, Target)
    ensures t.result == t.revenue - t.expense
  {
    ReduceIsSum(m.categories, Revenue, 0);
    ReduceIsSum(m.categories, Expense, 0);
    ReduceIsSum(m.categories, Target, 0);
    var revenue := Reduce(m.categories, Revenue, 0);
    var expense := Reduce(m.categories, Expense, 0);
    var target := Reduce(m.categories, Target, 0);
    Totals(revenue, expense, revenue - expense, target)
  }

  lemma {:induction false} ZeroSum(cs: seq<CategoryLine>, f: Field)
    requires forall i :: 0 <= i < |cs| ==> Amount(cs[i], f) == 0
    ensures Sum(cs, f) == 0
    decreases |cs|
  {
    if cs != [] {
      ZeroSum(cs[..|cs| - 1], f);
    }
  }

  /** A fresh template totals to zero on every count. */
  lemma TemplateTotalsZero(monthId: int)
    requires 1 <= monthId <= 12
    ensures MonthTotals(CreateMonthTemplate(monthId)) == Totals(0, 0, 0, 0)
  {
    var cs := CreateMonthTemplate(monthId).categories;
    ZeroSum(cs, Revenue);
    ZeroSum(cs, Expense);
    ZeroSum(cs, Target);
  }

  // ---------------------------------------------------------------- years

  /** `availableYears`: the keys of the store, newest first. */
  function AvailableYears(data: DataStore): (ys: seq<int>)
    ensures StrictlyDescending(ys)
    ensures forall y :: y in ys <==> y in data
    ensures |ys| == |data|
  {
    SortedDesc(data.Keys)
  }

  /** The largest element of a non-empty list (`Math.max(...ys)`). */
  function SeqMax(ys: seq<int>): (m: int)
    requires ys != []
    ensures m in ys && forall i :: 0 <= i < |ys| ==> ys[i] <= m
    decreases |ys|
  {
    if |ys| == 1 then ys[0]
    else
      var rest := SeqMax(ys[1..]);
      assert forall i :: 1 <= i < |ys| ==> ys[i] == ys[1..][i - 1];
      if ys[0] < rest then rest else ys[0]
  }

  /** The year `addNewYear` creates: one past the largest loaded year, or one past
      the selected year when none is loaded. */
  function NextYear(years: seq<int>, selectedYear: int): (n: int)
    ensures forall i :: 0 <= i < |years| ==> years[i] < n
    ensures years == [] ==> n == selectedYear + 1
  {
    (if |years| > 0 then SeqMax(years) else selectedYear) + 1
  }

  /** The next year is new: it is above every loaded year, so it is not loaded, and
      it is the first of the descending list plus one. */
  lemma NextYearIsNew(data: DataStore, selectedYear: int)
    ensures data == map[] ==> NextYear(AvailableYears(data), selectedYear) == selectedYear + 1
    ensures data != map[] ==> NextYear(AvailableYears(data), selectedYear) == AvailableYears(data)[0] + 1
    ensures forall y :: y in data ==> y < NextYear(AvailableYears(data), selectedYear)
    ensures data != map[] ==> NextYear(AvailableYears(data), selectedYear) !in data
  {
    var ys := AvailableYears(data);
    if data != map[] {
      assert ys != [] by {
        var y :| y in data;
        assert y in ys;
      }
      var m := SeqMax(ys);
      forall y | y in data ensures y <= ys[0] {
        var i :| 0 <= i < |ys| && ys[i] == y;
      }
      assert m <= ys[0];
    } else {
      assert |ys| == 0;
    }
  }

  // ---------------------------------------------------------------- selection and save

  /** `findIndex(m => m.id === id)`: the first month with that id, or -1. */
  function FirstIndex(ms: seq<MonthData>, id: int): (i: int)
    ensures -1 <= i < |ms|
    ensures 0 <= i ==> ms[i].id == id && forall j :: 0 <= j < i ==> ms[j].id != id
    ensures i == -1 <==> forall j :: 0 <= j < |ms| ==> ms[j].id != id
    decreases |ms|
  {
    if ms == [] then -1
    else if ms[0].id == id then 0
    else
      var i := FirstIndex(ms[1..], id);
      assert forall j :: 1 <= j < |ms| ==> ms[j] == ms[1..][j - 1];
      if i < 0 then -1 else i + 1
  }

  /** The months of the selected year (`data[selectedYear] || []`). */
  function MonthsOfYear(data: DataStore, year: int): (ms: seq<MonthData>)
    ensures year in data ==> ms == data[year]
    ensures year !in data ==> ms == []
  {
    if year in data then data[year] else []
  }

  /** `selectedMonth`: the first month of the selected year with the selected id. */
  function SelectedMonth(data: DataStore, year: int, monthId: Option<int>): (r: Option<MonthData>)
    ensures r.Some? <==> monthId.Some? && exists j :: 0 <= j < |MonthsOfYear(data, year)| && MonthsOfYear(data, year)[j].id == monthId.value
    ensures r.Some? ==> r.value in MonthsOfYear(data, year) && r.value.id == monthId.value
    ensures r.Some? ==> r.value == MonthsOfYear(data, year)[FirstIndex(MonthsOfYear(data, year), monthId.value)]
  {
    if monthId.None? then None
    else
      var ms := MonthsOfYear(data, year);
      var i := FirstIndex(ms, monthId.value);
      if i < 0 then None else Some(ms[i])
  }

  /** The store after the `setData` updater: in the selected year, the first month
      with the selected id gets the edited lines; the year's entry is written even
      when it was absent. */
  function UpdatedStore(data: DataStore, year: int, monthId: int, form: seq<CategoryLine>): (next: DataStore)
    ensures next.Keys == data.Keys + {year}
    ensures |next[year]| == |MonthsOfYear(data, year)|
  {
    var list := MonthsOfYear(data, year);
    var idx := FirstIndex(list, monthId);
    data[year := if idx == -1 then list else list[idx := list[idx].(categories := form)]]
  }

  /** The `findIndex` loop. */
  method FindMonthIndex(list: array<MonthData>, id: int) returns (idx: int)
    ensures idx == FirstIndex(list[..], id)
  {
    idx := 0;
    while idx < list.Length
      invariant 0 <= idx <= list.Length
      invariant forall j :: 0 <= j < idx ==> list[j].id != id
    {
      if list[idx].id == id {
        return;
      }
      idx := idx + 1;
    }
    idx := -1;
  }

  /** The `setData` updater of `saveChanges`: copy the store, copy the year's list
      into a fresh array, overwrite the matching month in place, store the list. */
  method UpdateStore(prev: DataStore, selectedYear: int, selectedMonthId: int, editForm: seq<CategoryLine>)
    returns (next: DataStore)
    ensures next == UpdatedStore(prev, selectedYear, selectedMonthId, editForm)
  {
    var copy := prev;
    var months := MonthsOfYear(copy, selectedYear);
    var list := new MonthData[|months|](i requires 0 <= i < |months| => months[i]);
    assert list[..] == months;
    var idx := FindMonthIndex(list, selectedMonthId);
    if idx != -1 {
      list[idx] := list[idx].(categories := editForm);
    }
    copy := copy[selectedYear := list[..]];
    next := copy;
  }

  /** The body of the `month` PUT the client sends. */
  datatype MonthPut = MonthPut(year: int, month: int, categories: seq<CategoryLine>)

  /** `saveChanges`: with no month selected (null or 0) nothing is sent and the store
      stays as it is; otherwise the PUT is sent and the store updated. */
  method SaveChanges(data: DataStore, selectedYear: int, selectedMonthId: Option<int>, editForm: seq<CategoryLine>)
    returns (sent: Option<MonthPut>, next: DataStore)
    ensures selectedMonthId.None? || selectedMonthId == Some(0) ==> sent == None && next == data
    ensures selectedMonthId.Some? && selectedMonthId.value != 0 ==>
      sent == Some(MonthPut(selectedYear, selectedMonthId.value, editForm)) &&
      next == UpdatedStore(data, selectedYear, selectedMonthId.value, editForm)
  {
    if selectedMonthId.None? || selectedMonthId.value == 0 {
      return None, data;
    }
    sent := Some(MonthPut(selectedYear, selectedMonthId.value, editForm));
    next := UpdateStore(data, selectedYear, selectedMonthId.value, editForm);
  }

  // ---------------------------------------------------------------- properties of the update

  /** Other years are left as they were. */
  lemma UpdateKeepsOtherYears(data: DataStore, year: int, monthId: int, form: seq<CategoryLine>)
    ensures UpdatedStore(data, year, monthId, form).Keys == data.Keys + {year}
    ensures forall y :: y in data && y != year ==> UpdatedStore(data, year, monthId, form)[y] == data[y]
  {
  }

  /** In the selected year only the first month with the id changes, and only its
      lines; the list keeps its length. */
  lemma UpdateTouchesOneMonth(data: DataStore, year: int, monthId: int, form: seq<CategoryLine>)
    ensures |UpdatedStore(data, year, monthId, form)[year]| == |MonthsOfYear(data, year)|
    ensures forall j :: 0 <= j < |MonthsOfYear(data, year)| ==>
      var before, after := MonthsOfYear(data, year)[j], UpdatedStore(data, year, monthId, form)[year][j];
      if j == FirstIndex(MonthsOfYear(data, year), monthId)
      then after == before.(categories := form)
      else after == before
  {
  }

  /** No month with the id: the list is stored back unchanged. */
  lemma UpdateWithoutMatch(data: DataStore, year: int, monthId: int, form: seq<CategoryLine>)
    requires forall j :: 0 <= j < |MonthsOfYear(data, year)| ==> MonthsOfYear(data, year)[j].id != monthId
    ensures UpdatedStore(data, year, monthId, form) == data[year := MonthsOfYear(data, year)]
  {
  }

  /** Round trip: after saving, the selected month shows the edited lines. */
  lemma UpdateThenSelect(data: DataStore, year: int, monthId: int, form: seq<CategoryLine>)
    requires SelectedMonth(data, year, Some(monthId)).Some?
    ensures SelectedMonth(UpdatedStore(data, year, monthId, form), year, Some(monthId)) ==
      Some(SelectedMonth(data, year, Some(monthId)).value.(categories := form))
  {
    var list := MonthsOfYear(data, year);
    var i := FirstIndex(list, monthId);
    var list' := list[i := list[i].(categories := form)];
    assert MonthsOfYear(UpdatedStore(data, year, monthId, form), year) == list';
    assert FirstIndex(list', monthId) == i by {
      forall j | 0 <= j < i ensures list'[j].id != monthId { }
    }
  }
}
