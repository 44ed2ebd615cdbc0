/** The search of hoiku.py: one row predicate per criterion of the form, and
    `filter_data`, which keeps the rows that pass all of them. A polars
    predicate evaluates to true, false or null on a row; `filter` keeps the
    row only when it is true. */
module Hoiku {
  import opened Wrappers
  import opened Text
  import opened Table
  import opened FormFilter

  // ---------------------------------------------------------------------
  // Three-valued booleans

  /** A polars boolean: `Some(b)`, or `None` for null. */
  type Bool3 = Option<bool>

  /** `filter` keeps a row exactly when its predicate is true. */
  predicate Holds(b: Bool3)
  {
    b == Some(true)
  }

  /** polars `&` (Kleene logic): false wins over null. */
  function And3(a: Bool3, b: Bool3): (r: Bool3)
    ensures Holds(r) <==> Holds(a) && Holds(b)
    ensures r == Some(false) <==> a == Some(false) || b == Some(false)
  {
    if a == Some(false) || b == Some(false) then Some(false)
    else if a == Some(true) && b == Some(true) then Some(true)
    else None
  }

  /** polars `|` (Kleene logic): true wins over null. */
  function Or3(a: Bool3, b: Bool3): (r: Bool3)
    ensures Holds(r) <==> Holds(a) || Holds(b)
    ensures r == Some(false) <==> a == Some(false) && b == Some(false)
  {
    if a == Some(true) || b == Some(true) then Some(true)
    else if a == Some(false) && b == Some(false) then Some(false)
    else None
  }

  // ---------------------------------------------------------------------
  // Cell-level polars expressions

  /** `column.str.contains(pattern)`, read as a literal search. */
  function StrContains(cell: Option<string>, pattern: string): Bool3
  {
    match cell
    case None => None
    case Some(s) => Some(Contains(s, pattern))
  }

  /** `column.is_null()`: never null itself. */
  function IsNull<T>(cell: Option<T>): Bool3
  {
    Some(cell.None?)
  }

  /** `column >= bound` on an integer column. */
  function AtLeast(cell: Option<int>, bound: int): Bool3
  {
    match cell
    case None => None
    case Some(n) => Some(n >= bound)
  }

  /** `column <= bound` on an integer column. */
  function AtMost(cell: Option<int>, bound: int): Bool3
  {
    match cell
    case None => None
    case Some(n) => Some(n <= bound)
  }

  /** `column == text` on a text column. */
  function Equals(cell: Option<string>, text: string): Bool3
  {
    match cell
    case None => None
    case Some(s) => Some(s == text)
  }

  /** Minutes since midnight: the independent measure of a time of day. */
  function Minutes(t: TimeOfDay): int
  {
    t.hour * 60 + t.minute
  }

  /** The order on times is the order on minutes since midnight. */
  lemma TimeLeMinutes(a: Time, b: Time)
    ensures TimeLe(a, b) <==> Minutes(a) <= Minutes(b)
  {
    if a.hour < b.hour {
      assert Minutes(a) < (a.hour + 1) * 60 <= Minutes(b);
    } else if a.hour > b.hour {
      assert Minutes(b) < (b.hour + 1) * 60 <= Minutes(a);
    }
  }

  /** A one-character search finds exactly the cells holding the character. */
  lemma StrContainsChar(cell: Option<string>, c: char)
    ensures Holds(StrContains(cell, [c])) <==> cell.Some? && c in cell.value
  {
    if cell.Some? {
      ContainsChar(cell.value, c);
    }
  }

  /** The search finds exactly the cells where the pattern occurs. */
  lemma StrContainsAt(cell: Option<string>, pattern: string)
    ensures Holds(StrContains(cell, pattern)) <==> cell.Some? && exists k :: OccursAt(cell.value, pattern, k)
  {
    if cell.Some? {
      ContainsAt(cell.value, pattern);
    }
  }

  // ---------------------------------------------------------------------
  // The predicate builders

  /** `cond_holiday(column, saturday_flg, sunday_flg)`: the Sunday flag takes
      priority and asks for "日" in the weekday text; otherwise the Saturday
      flag asks for "土"; with neither flag every row passes. A null weekday
      text fails whenever a flag is set. */
  function CondHoliday(cell: Option<string>, saturday: int, sunday: int): (r: Bool3)
    ensures sunday == 1 ==> (Holds(r) <==> cell.Some? && '日' in cell.value)
    ensures sunday != 1 && saturday == 1 ==> (Holds(r) <==> cell.Some? && '土' in cell.value)
    ensures sunday != 1 && saturday != 1 ==> r == Some(true)
  {
    if sunday == 1 then StrContainsChar(cell, '日'); StrContains(cell, "日")
    else if saturday == 1 then StrContainsChar(cell, '土'); StrContains(cell, "土")
    else Some(true)
  }

  /** `cond_list(column, names)`: `column.is_in(names)`; a null cell gives
      null, so an empty list passes no row at all. */
  function CondList(cell: Option<string>, names: seq<string>): (r: Bool3)
    ensures Holds(r) <==> cell.Some? && cell.value in names
    ensures names == [] ==> !Holds(r)
  {
    match cell
    case None => None
    case Some(s) => Some(s in names)
  }

  /** `start_time(column, (h, m))`: `column <= pl.time(h, m)`, so a facility
      passes when it opens no later than the bound; a null time fails. */
  function StartTime(cell: Option<Time>, bound: Time): (r: Bool3)
    ensures Holds(r) <==> cell.Some? && Minutes(cell.value) <= Minutes(bound)
    ensures cell.None? ==> r.None?
  {
    match cell
    case None => None
    case Some(t) =>
      TimeLeMinutes(t, bound);
      Some(TimeLe(t, bound))
  }

  /** `end_time(column, (h, m))`: `column >= pl.time(h, m)`, so a facility
      passes when it closes no earlier than the bound; a null time fails. */
  function EndTime(cell: Option<Time>, bound: Time): (r: Bool3)
    ensures Holds(r) <==> cell.Some? && Minutes(bound) <= Minutes(cell.value)
    ensures cell.None? ==> r.None?
  {
    match cell
    case None => None
    case Some(t) =>
      TimeLeMinutes(bound, t);
      Some(TimeLe(bound, t))
  }

  /** Python truthiness of an optional integer: `None` and `0` are false. */
  predicate Truthy(x: Option<int>)
  {
    x.Some? && x.value != 0
  }

  /** The upper bound after the breaker rule: a maximum at or above the
      breaker becomes `num_infinite`. */
  function EffectiveMax(numMax: Option<int>, breaker: Option<int>, infinite: int): (m: Option<int>)
    ensures breaker.Some? && numMax.Some? && numMax.value >= breaker.value ==> m == Some(infinite)
    ensures !(breaker.Some? && numMax.Some? && numMax.value >= breaker.value) ==> m == numMax
  {
    if breaker.Some? && numMax.Some? && numMax.value >= breaker.value then Some(infinite) else numMax
  }

  /** The range test on a present value: each bound applies only when it is
      truthy. */
  predicate InRange(n: int, numMin: Option<int>, numMax: Option<int>)
  {
    (!Truthy(numMin) || numMin.value <= n) && (!Truthy(numMax) || n <= numMax.value)
  }

  /** `between_num_filter(column, num_min, num_max, num_max_breaker,
      num_infinite)`: never null; a null cell always passes; a present
      value passes when it is inside the truthy bounds, the maximum taken
      after the breaker rule. */
  function BetweenNumFilter(cell: Option<int>, numMin: Option<int>, numMax: Option<int>,
                            breaker: Option<int>, infinite: int): (r: Bool3)
    ensures r.Some?
    ensures cell.None? ==> Holds(r)
    ensures cell.Some? ==> (Holds(r) <==> InRange(cell.value, numMin, EffectiveMax(numMax, breaker, infinite)))
  {
    var max := EffectiveMax(numMax, breaker, infinite);
    if Truthy(numMin) && Truthy(max) then
      Or3(IsNull(cell), And3(AtLeast(cell, numMin.value), AtMost(cell, max.value)))
    else if Truthy(numMin) then
      Or3(IsNull(cell), AtLeast(cell, numMin.value))
    else if Truthy(max) then
      Or3(IsNull(cell), AtMost(cell, max.value))
    else Some(true)
  }

  /** The vacancy column of a given name ("0歳児" .. "5歳児"). Only those
      six names ever reach it (see `DecodeCriteria`); any other name reads
      as null here. */
  function AgeColumn(v: Vacancies, column: string): Option<int>
  {
    if column == "0歳児" then v.age0
    else if column == "1歳児" then v.age1
    else if column == "2歳児" then v.age2
    else if column == "3歳児" then v.age3
    else if column == "4歳児" then v.age4
    else if column == "5歳児" then v.age5
    else None
  }

  /** The named column has at least one free place. */
  predicate HasVacancy(v: Vacancies, column: string)
  {
    AgeColumn(v, column).Some? && AgeColumn(v, column).value >= 1
  }

  /** `c1 & c2 & ... & cn` with `ci = (pl.col(name_i) >= 1)`, grouped from
      the left as Python evaluates the joined text. */
  function AllAges(v: Vacancies, columns: seq<string>): (r: Bool3)
    requires columns != []
    ensures Holds(r) <==> forall i | 0 <= i < |columns| :: HasVacancy(v, columns[i])
    decreases |columns|
  {
    var last := AtLeast(AgeColumn(v, columns[|columns| - 1]), 1);
    if |columns| == 1 then last
    else
      var front := columns[..|columns| - 1];
      assert forall i | 0 <= i < |front| :: front[i] == columns[i];
      And3(AllAges(v, front), last)
  }

  /** `vacancy_by_age(age_list)`: no age passes every row; otherwise a row
      passes exactly when every listed column is present and at least 1. */
  function VacancyByAge(v: Vacancies, columns: seq<string>): (r: Bool3)
    ensures Holds(r) <==> forall i | 0 <= i < |columns| :: HasVacancy(v, columns[i])
    ensures columns == [] ==> r == Some(true)
  {
    if columns == [] then Some(true) else AllAges(v, columns)
  }

  /** Age code k of the form names the vacancy column for age k. */
  lemma AgeCodesNameColumns(v: Vacancies)
    ensures AgeColumn(v, AgeAvailability()["0"]) == v.age0
    ensures AgeColumn(v, AgeAvailability()["1"]) == v.age1
    ensures AgeColumn(v, AgeAvailability()["2"]) == v.age2
    ensures AgeColumn(v, AgeAvailability()["3"]) == v.age3
    ensures AgeColumn(v, AgeAvailability()["4"]) == v.age4
    ensures AgeColumn(v, AgeAvailability()["5"]) == v.age5
  {
    AgeLabels();
  }

  /** Adding columns can only drop rows: passing a longer list implies
      passing any list of its columns. */
  lemma VacancyMonotone(v: Vacancies, fewer: seq<string>, more: seq<string>)
    requires forall x | x in fewer :: x in more
    requires Holds(VacancyByAge(v, more))
    ensures Holds(VacancyByAge(v, fewer))
  {
    forall i | 0 <= i < |fewer|
      ensures HasVacancy(v, fewer[i])
    {
      assert fewer[i] in more;
      var j :| 0 <= j < |more| && more[j] == fewer[i];
    }
  }

  /** The order (and repetition) of the age columns does not matter. */
  lemma VacancyOrderIrrelevant(v: Vacancies, a: seq<string>, b: seq<string>)
    requires forall x :: x in a <==> x in b
    ensures Holds(VacancyByAge(v, a)) <==> Holds(VacancyByAge(v, b))
  {
    if Holds(VacancyByAge(v, b)) {
      VacancyMonotone(v, a, b);
    }
    if Holds(VacancyByAge(v, a)) {
      VacancyMonotone(v, b, a);
    }
  }

  /** `has_or_not(column, condition)`: with the toggle at 1 a row passes when
      the column is "あり" or "有り" (a null column is null); otherwise every
      row passes. */
  function HasOrNot(cell: Option<string>, condition: int): (r: Bool3)
    ensures condition == 1 ==> (Holds(r) <==> cell == Some("あり") || cell == Some("有り"))
    ensures condition == 1 && cell.None? ==> r.None?
    ensures condition != 1 ==> r == Some(true)
  {
    if condition == 1 then Or3(Equals(cell, "あり"), Equals(cell, "有り")) else Some(true)
  }

  /** `str_contain_filter(column, condition)`: no text passes every row;
      otherwise a row passes when the text occurs somewhere in the column,
      and a null column fails. */
  function StrContainFilter(cell: Option<string>, condition: Option<string>): (r: Bool3)
    ensures condition.None? ==> r == Some(true)
    ensures condition.Some? ==> (Holds(r) <==> cell.Some? && exists k :: OccursAt(cell.value, condition.value, k))
  {
    if condition.None? then Some(true)
    else StrContainsAt(cell, condition.value); StrContains(cell, condition.value)
  }

  /** An empty search text drops exactly the rows whose column is null. */
  lemma EmptyTextDropsOnlyNull(cell: Option<string>)
    ensures Holds(StrContainFilter(cell, Some(""))) <==> cell.Some?
  {
    if cell.Some? {
      assert OccursAt(cell.value, "", 0);
    }
  }

  // ---------------------------------------------------------------------
  // Helpers of filter_data

  /** `b_to_i(val)`: 1 for true, 0 for false. */
  function BoolToInt(b: bool): (i: int)
    ensures i == 1 <==> b
    ensures i == 0 <==> !b
  {
    if b then 1 else 0
  }

  /** `time_to_tuple(val)`: (0, 0) for `None`, otherwise the hour and the
      minute (a helper `filter_data` defines but does not call). */
  function TimeToTuple(t: Option<Time>): (p: (int, int))
    ensures t.None? ==> p == (0, 0)
    ensures t.Some? ==> TimeOfDay(p.0, p.1) == t.value
    ensures 0 <= p.0 < 24 && 0 <= p.1 < 60
  {
    match t
    case None => (0, 0)
    case Some(v) => (v.hour, v.minute)
  }

  /** `codes_to_names(codes, code_dict)`: the labels of the known codes, in
      the order of the codes; unknown codes are dropped. */
  function CodesToNames(codes: seq<string>, table: map<string, string>): (names: seq<string>)
    ensures |names| <= |codes|
    ensures forall i | 0 <= i < |names| :: names[i] in table.Values
    ensures forall c | c in codes && c in table :: table[c] in names
    ensures names == [] <==> forall c | c in codes :: c !in table
    ensures (forall c | c in codes :: c in table) ==>
              |names| == |codes| && forall i | 0 <= i < |codes| :: names[i] == table[codes[i]]
  {
    if codes == [] then []
    else
      var rest := CodesToNames(codes[1..], table);
      assert forall c | c in codes[1..] :: c in codes;
      if codes[0] in table then [table[codes[0]]] + rest else rest
  }

  /** The translation works code by code: translating a concatenation
      concatenates the translations. */
  lemma {:induction false} CodesToNamesAppend(a: seq<string>, b: seq<string>, table: map<string, string>)
    ensures CodesToNames(a + b, table) == CodesToNames(a, table) + CodesToNames(b, table)
  {
    if a != [] {
      assert (a + b)[1..] == a[1..] + b;
      CodesToNamesAppend(a[1..], b, table);
    } else {
      assert a + b == b;
    }
  }

  // ---------------------------------------------------------------------
  // Decoding the form

  /** The exceptions `filter_data` can raise before it filters: `int()`
      rejecting a piece of an encoded time, a list too short for the index
      read from it, or an hour or minute outside a clock's range. */
  datatype FilterError =
    | NotANumber(piece: string)
    | IndexOutOfRange(index: nat, length: nat)
    | BadTime(hour: int, minute: int)

  /** Everything the sixteen form fields contribute to the predicates. */
  datatype Criteria = Criteria(
    name: Option<string>,
    address: Option<string>,
    saturday: int,
    sunday: int,
    categories: seq<string>,
    openBound: Time,
    closeBound: Time,
    extendedBound: Time,
    ages: seq<string>,
    garden: int,
    bicycleParking: int,
    strollerArea: int,
    disabilityAcceptance: int,
    sickChildCare: int,
    capacityMin: Option<int>,
    capacityMax: Option<int>)

  /** `field.to_numbers()`, its `ValueError` carried over. */
  function Numbers(data: Option<string>): (r: Result<seq<int>, FilterError>)
    ensures r.Ok? <==> ToNumbers(data).Ok?
    ensures r.Ok? ==> r.value == ToNumbers(data).value
    ensures r.Err? ==> ToNumbers(data).Err? && r.error == NotANumber(ToNumbers(data).error.piece)
  {
    match ToNumbers(data)
    case Ok(v) => Ok(v)
    case Err(e) => Err(NotANumber(e.piece))
  }

  /** `(numbers[i], numbers[j])`, an `IndexError` if either is missing. */
  function PairAt(numbers: seq<int>, i: nat, j: nat): (r: Result<(int, int), FilterError>)
    ensures r.Ok? <==> i < |numbers| && j < |numbers|
    ensures r.Ok? ==> r.value == (numbers[i], numbers[j])
    ensures i >= |numbers| ==> r == Err(IndexOutOfRange(i, |numbers|))
    ensures i < |numbers| <= j ==> r == Err(IndexOutOfRange(j, |numbers|))
  {
    if i >= |numbers| then Err(IndexOutOfRange(i, |numbers|))
    else if j >= |numbers| then Err(IndexOutOfRange(j, |numbers|))
    else Ok((numbers[i], numbers[j]))
  }

  /** An hour and minute `datetime.time` accepts. */
  predicate InClock(h: int, m: int)
  {
    0 <= h < 24 && 0 <= m < 60
  }

  /** `pl.time(h, m)`: a clock time, or an error outside 0..23 and 0..59. */
  function MakeTime(p: (int, int)): (r: Result<Time, FilterError>)
    ensures r.Ok? <==> InClock(p.0, p.1)
    ensures r.Ok? ==> r.value.hour == p.0 && r.value.minute == p.1
    ensures r.Err? ==> r == Err(BadTime(p.0, p.1))
  {
    if InClock(p.0, p.1) then Ok(TimeOfDay(p.0, p.1)) else Err(BadTime(p.0, p.1))
  }

  /** The three time bounds `filter_data` reads from the form. */
  datatype Bounds = Bounds(openBound: Time, closeBound: Time, extendedBound: Time)

  /** The three time fields decoded: the opening bound from the SECOND pair
      of its field, the two closing bounds from the FIRST pair of theirs.
      All three fields are decoded before any index is read. */
  function DecodeBounds(startTime: Option<string>, endTime: Option<string>, extendedEndTime: Option<string>)
    : (r: Result<Bounds, FilterError>)
    ensures r.Ok? ==>
              var s := ToNumbers(startTime);
              s.Ok? && |s.value| > 3 &&
              r.value.openBound.hour == s.value[2] && r.value.openBound.minute == s.value[3]
    ensures r.Ok? ==>
              var e := ToNumbers(endTime);
              e.Ok? && |e.value| > 1 &&
              r.value.closeBound.hour == e.value[0] && r.value.closeBound.minute == e.value[1]
    ensures r.Ok? ==>
              var x := ToNumbers(extendedEndTime);
              x.Ok? && |x.value| > 1 &&
              r.value.extendedBound.hour == x.value[0] && r.value.extendedBound.minute == x.value[1]
    ensures r.Ok? <==>
              var s, e, x := ToNumbers(startTime), ToNumbers(endTime), ToNumbers(extendedEndTime);
              s.Ok? && e.Ok? && x.Ok? && |s.value| > 3 && |e.value| > 1 && |x.value| > 1 &&
              InClock(s.value[2], s.value[3]) && InClock(e.value[0], e.value[1]) && InClock(x.value[0], x.value[1])
    // `ValueError`, from the fields in the order they are decoded
    ensures ToNumbers(startTime).Err? ==> r == Err(NotANumber(ToNumbers(startTime).error.piece))
    ensures ToNumbers(startTime).Ok? && ToNumbers(endTime).Err? ==>
              r == Err(NotANumber(ToNumbers(endTime).error.piece))
    ensures ToNumbers(startTime).Ok? && ToNumbers(endTime).Ok? && ToNumbers(extendedEndTime).Err? ==>
              r == Err(NotANumber(ToNumbers(extendedEndTime).error.piece))
    // `IndexError`, at the first index that is missing
    ensures var s, e, x := ToNumbers(startTime), ToNumbers(endTime), ToNumbers(extendedEndTime);
            s.Ok? && e.Ok? && x.Ok? && |s.value| <= 3 ==>
              r == Err(IndexOutOfRange(if |s.value| <= 2 then 2 else 3, |s.value|))
    ensures var s, e, x := ToNumbers(startTime), ToNumbers(endTime), ToNumbers(extendedEndTime);
            s.Ok? && e.Ok? && x.Ok? && |s.value| > 3 && |e.value| <= 1 ==>
              r == Err(IndexOutOfRange(|e.value|, |e.value|))
    ensures var s, e, x := ToNumbers(startTime), ToNumbers(endTime), ToNumbers(extendedEndTime);
            s.Ok? && e.Ok? && x.Ok? && |s.value| > 3 && |e.value| > 1 && |x.value| <= 1 ==>
              r == Err(IndexOutOfRange(|x.value|, |x.value|))
    // an hour or minute out of range, opening bound first
    ensures var s, e, x := ToNumbers(startTime), ToNumbers(endTime), ToNumbers(extendedEndTime);
            s.Ok? && e.Ok? && x.Ok? && |s.value| > 3 && |e.value| > 1 && |x.value| > 1 ==>
              (!InClock(s.value[2], s.value[3]) ==> r == Err(BadTime(s.value[2], s.value[3]))) &&
              (InClock(s.value[2], s.value[3]) && !InClock(e.value[0], e.value[1]) ==>
                 r == Err(BadTime(e.value[0], e.value[1]))) &&
              (InClock(s.value[2], s.value[3]) && InClock(e.value[0], e.value[1]) && !InClock(x.value[0], x.value[1]) ==>
                 r == Err(BadTime(x.value[0], x.value[1])))
  {
    var start :- Numbers(startTime);
    var end :- Numbers(endTime);
    var extended :- Numbers(extendedEndTime);
    var openPair :- PairAt(start, 2, 3);
    var closePair :- PairAt(end, 0, 1);
    var extendedPair :- PairAt(extended, 0, 1);
    var openBound :- MakeTime(openPair);
    var closeBound :- MakeTime(closePair);
    var extendedBound :- MakeTime(extendedPair);
    Ok(Bounds(openBound, closeBound, extendedBound))
  }

  /** The arguments `filter_data` builds from the form: the time bounds,
      the check-box codes translated to labels (`None` read as an empty
      list), the toggles turned into 0/1, the rest as submitted. */
  function DecodeCriteria(form: FilterForm): (r: Result<Criteria, FilterError>)
    ensures r.Ok? <==> DecodeBounds(form.startTime, form.endTime, form.extendedEndTime).Ok?
    ensures r.Ok? ==>
              var b := DecodeBounds(form.startTime, form.endTime, form.extendedEndTime).value;
              r.value.openBound == b.openBound && r.value.closeBound == b.closeBound &&
              r.value.extendedBound == b.extendedBound
    ensures r.Ok? ==> forall i | 0 <= i < |r.value.categories| :: r.value.categories[i] in NurseryType().Values
    ensures r.Ok? ==> forall i | 0 <= i < |r.value.ages| :: r.value.ages[i] in AgeAvailability().Values
    ensures r.Ok? ==> (r.value.categories == [] <==> forall c | c in form.types.GetOr([]) :: c !in NurseryType())
    ensures r.Ok? ==> r.value.name == form.nurseryName && r.value.address == form.address
    ensures r.Ok? ==> r.value.saturday == BoolToInt(form.saturday) && r.value.sunday == BoolToInt(form.sunday)
    ensures r.Ok? ==> r.value.capacityMin == form.capacityMin && r.value.capacityMax == form.capacityMax
    ensures r.Ok? ==> r.value.categories == CodesToNames(form.types.GetOr([]), NurseryType())
    ensures r.Ok? ==> r.value.ages == CodesToNames(form.ageAvailability.GetOr([]), AgeAvailability())
    ensures r.Ok? ==> r.value.garden == BoolToInt(form.garden) && r.value.bicycleParking == BoolToInt(form.bicycleParking)
    ensures r.Ok? ==> r.value.strollerArea == BoolToInt(form.strollerArea)
    ensures r.Ok? ==> r.value.disabilityAcceptance == BoolToInt(form.disabilityAcceptance)
    ensures r.Ok? ==> r.value.sickChildCare == BoolToInt(form.sickChildCare)
  {
    var b :- DecodeBounds(form.startTime, form.endTime, form.extendedEndTime);
    Ok(Criteria(
      form.nurseryName, form.address,
      BoolToInt(form.saturday), BoolToInt(form.sunday),
      CodesToNames(form.types.GetOr([]), NurseryType()),
      b.openBound, b.closeBound, b.extendedBound,
      CodesToNames(form.ageAvailability.GetOr([]), AgeAvailability()),
      BoolToInt(form.garden), BoolToInt(form.bicycleParking), BoolToInt(form.strollerArea),
      BoolToInt(form.disabilityAcceptance), BoolToInt(form.sickChildCare),
      form.capacityMin, form.capacityMax))
  }

  // ---------------------------------------------------------------------
  // filter_data

  /** The number of `.filter` passes in `filter_data`. */
  const PassCount: nat := 14

  /** The predicate of pass `k`, in the order of the chain. */
  function Pass(c: Criteria, k: nat, row: Row): Bool3
    requires k < PassCount
  {
    if k == 0 then StrContainFilter(row.name, c.name)
    else if k == 1 then StrContainFilter(row.address, c.address)
    else if k == 2 then CondHoliday(row.weekdays, c.saturday, c.sunday)
    else if k == 3 then CondList(row.category, c.categories)
    else if k == 4 then StartTime(row.openTime, c.openBound)
    else if k == 5 then EndTime(row.closeTime, c.closeBound)
    else if k == 6 then EndTime(row.extendedCloseTime, c.extendedBound)
    else if k == 7 then VacancyByAge(row.vacancy, c.ages)
    else if k == 8 then HasOrNot(row.garden, c.garden)
    else if k == 9 then HasOrNot(row.bicycleParking, c.bicycleParking)
    else if k == 10 then HasOrNot(row.strollerArea, c.strollerArea)
    else if k == 11 then HasOrNot(row.disabilityAcceptance, c.disabilityAcceptance)
    else if k == 12 then HasOrNot(row.sickChildCare, c.sickChildCare)
    else BetweenNumFilter(row.capacity, c.capacityMin, c.capacityMax, Some(200), 999)
  }

  /** The row passes the first `n` passes. */
  predicate PassesFirst(c: Criteria, row: Row, n: nat)
    requires n <= PassCount
  {
    forall k | 0 <= k < n :: Holds(Pass(c, k, row))
  }

  /** The row passes the whole chain. */
  predicate Matches(c: Criteria, row: Row)
  {
    PassesFirst(c, row, PassCount)
  }

  /** One `.filter(predicate)` pass: the rows whose predicate is true, in
      order. */
  function FilterPass(rows: seq<Row>, c: Criteria, k: nat): seq<Row>
    requires k < PassCount
  {
    if rows == [] then []
    else (if Holds(Pass(c, k, rows[0])) then [rows[0]] else []) + FilterPass(rows[1..], c, k)
  }

  /** The first `n` passes of the chain, one after the other. */
  function Chain(rows: seq<Row>, c: Criteria, n: nat): seq<Row>
    requires n <= PassCount
  {
    if n == 0 then rows else FilterPass(Chain(rows, c, n - 1), c, n - 1)
  }

  /** `a` is `b` with some elements left out, the rest in their order. */
  predicate IsSubsequence(a: seq<Row>, b: seq<Row>)
    decreases |b|
  {
    a == [] || (b != [] && ((a[0] == b[0] && IsSubsequence(a[1..], b[1..])) || IsSubsequence(a, b[1..])))
  }

  /** The one-pass reference: the rows that pass the first `n` predicates
      at once, in order. It leaves rows out but changes none. */
  function Select(rows: seq<Row>, c: Criteria, n: nat): (kept: seq<Row>)
    requires n <= PassCount
    ensures IsSubsequence(kept, rows)
  {
    if rows == [] then []
    else
      var rest := Select(rows[1..], c, n);
      if PassesFirst(c, rows[0], n) then
        var kept := [rows[0]] + rest;
        assert kept[1..] == rest;
        kept
      else rest
  }

  /** A row is kept exactly when it is in the input and passes. */
  lemma {:induction false} SelectMember(rows: seq<Row>, c: Criteria, n: nat, x: Row)
    requires n <= PassCount
    ensures x in Select(rows, c, n) <==> x in rows && PassesFirst(c, x, n)
  {
    if rows != [] {
      SelectMember(rows[1..], c, n, x);
      assert rows == [rows[0]] + rows[1..];
    }
  }

  /** A kept row occurs as often as in the input; a row that fails does
      not occur at all. */
  lemma {:induction false} SelectCount(rows: seq<Row>, c: Criteria, n: nat, x: Row)
    requires n <= PassCount
    ensures multiset(Select(rows, c, n))[x] == if PassesFirst(c, x, n) then multiset(rows)[x] else 0
  {
    if rows != [] {
      SelectCount(rows[1..], c, n, x);
      assert rows == [rows[0]] + rows[1..];
    }
  }

  /** When no row passes, nothing is kept. */
  lemma {:induction false} SelectNoneMatching(rows: seq<Row>, c: Criteria, n: nat)
    requires n <= PassCount
    requires forall x | x in rows :: !PassesFirst(c, x, n)
    ensures Select(rows, c, n) == []
  {
    if rows != [] {
      assert rows[0] in rows;
      assert forall x | x in rows[1..] :: x in rows;
      SelectNoneMatching(rows[1..], c, n);
    }
  }

  /** A further pass on the rows kept so far keeps those that pass one
      predicate more. */
  lemma {:induction false} FilterPassSelect(rows: seq<Row>, c: Criteria, n: nat)
    requires n < PassCount
    ensures FilterPass(Select(rows, c, n), c, n) == Select(rows, c, n + 1)
  {
    if rows != [] {
      FilterPassSelect(rows[1..], c, n);
      var rest := Select(rows[1..], c, n);
      if PassesFirst(c, rows[0], n) {
        assert ([rows[0]] + rest)[1..] == rest;
      }
    }
  }

  /** The chain of passes keeps exactly what the one-pass reference keeps. */
  lemma {:induction false} ChainIsSelect(rows: seq<Row>, c: Criteria, n: nat)
    requires n <= PassCount
    ensures Chain(rows, c, n) == Select(rows, c, n)
  {
    if n == 0 {
      SelectNone(rows, c);
    } else {
      ChainIsSelect(rows, c, n - 1);
      FilterPassSelect(rows, c, n - 1);
    }
  }

  /** With no pass applied every row is kept. */
  lemma {:induction false} SelectNone(rows: seq<Row>, c: Criteria)
    ensures Select(rows, c, 0) == rows
  {
    if rows != [] {
      SelectNone(rows[1..], c);
    }
  }

  /** `filter_data(lf, form)`: decode the form, then run the fourteen
      passes. Its result is the one-pass selection of the rows matching
      every predicate. */
  function FilterData(rows: seq<Row>, form: FilterForm): (r: Result<seq<Row>, FilterError>)
    ensures r.Ok? <==> DecodeCriteria(form).Ok?
    ensures r.Ok? ==> r.value == Select(rows, DecodeCriteria(form).value, PassCount)
  {
    var c :- DecodeCriteria(form);
    ChainIsSelect(rows, c, PassCount);
    Ok(Chain(rows, c, PassCount))
  }

  /** The amenity toggle in plain terms. */
  predicate AmenityOk(cell: Option<string>, toggle: int)
  {
    toggle != 1 || cell == Some("あり") || cell == Some("有り")
  }

  /** What `Matches` means, criterion by criterion. */
  lemma MatchesMeaning(c: Criteria, row: Row)
    ensures Matches(c, row) <==>
      (c.name.None? || (row.name.Some? && exists k :: OccursAt(row.name.value, c.name.value, k))) &&
      (c.address.None? || (row.address.Some? && exists k :: OccursAt(row.address.value, c.address.value, k))) &&
      (c.sunday == 1 ==> row.weekdays.Some? && '日' in row.weekdays.value) &&
      (c.sunday != 1 && c.saturday == 1 ==> row.weekdays.Some? && '土' in row.weekdays.value) &&
      (row.category.Some? && row.category.value in c.categories) &&
      (row.openTime.Some? && Minutes(row.openTime.value) <= Minutes(c.openBound)) &&
      (row.closeTime.Some? && Minutes(c.closeBound) <= Minutes(row.closeTime.value)) &&
      (row.extendedCloseTime.Some? && Minutes(c.extendedBound) <= Minutes(row.extendedCloseTime.value)) &&
      (forall i | 0 <= i < |c.ages| :: HasVacancy(row.vacancy, c.ages[i])) &&
      AmenityOk(row.garden, c.garden) && AmenityOk(row.bicycleParking, c.bicycleParking) &&
      AmenityOk(row.strollerArea, c.strollerArea) &&
      AmenityOk(row.disabilityAcceptance, c.disabilityAcceptance) &&
      AmenityOk(row.sickChildCare, c.sickChildCare) &&
      (row.capacity.None? || InRange(row.capacity.value, c.capacityMin, EffectiveMax(c.capacityMax, Some(200), 999)))
  {
    var all := Holds(Pass(c, 0, row)) && Holds(Pass(c, 1, row)) && Holds(Pass(c, 2, row)) &&
      Holds(Pass(c, 3, row)) && Holds(Pass(c, 4, row)) && Holds(Pass(c, 5, row)) &&
      Holds(Pass(c, 6, row)) && Holds(Pass(c, 7, row)) && Holds(Pass(c, 8, row)) &&
      Holds(Pass(c, 9, row)) && Holds(Pass(c, 10, row)) && Holds(Pass(c, 11, row)) &&
      Holds(Pass(c, 12, row)) && Holds(Pass(c, 13, row));
    if all {
      forall k | 0 <= k < PassCount
        ensures Holds(Pass(c, k, row))
      {
      }
    }
    assert Matches(c, row) <==> all;
  }

  // ---------------------------------------------------------------------
  // Consequences the source relies on

  /** An empty category selection (or one of unknown codes only) lets no
      row through: `is_in([])` admits nothing. */
  lemma EmptyCategoriesMatchNothing(rows: seq<Row>, form: FilterForm)
    requires forall c | c in form.types.GetOr([]) :: c !in NurseryType()
    ensures FilterData(rows, form).Ok? ==> FilterData(rows, form).value == []
  {
    if DecodeCriteria(form).Ok? {
      var c := DecodeCriteria(form).value;
      assert c.categories == [];
      forall x | x in rows
        ensures !PassesFirst(c, x, PassCount)
      {
        assert !Holds(Pass(c, 3, x));
      }
      SelectNoneMatching(rows, c, PassCount);
    }
  }

  /** Ticking the age boxes "0" and "1" keeps exactly the rows with at
      least one free place for age 0 and for age 1. */
  lemma AgesZeroAndOne(form: FilterForm, row: Row)
    requires form.ageAvailability == Some(["0", "1"])
    ensures DecodeCriteria(form).Ok? ==>
              (Holds(Pass(DecodeCriteria(form).value, 7, row)) <==>
                 row.vacancy.age0.Some? && row.vacancy.age0.value >= 1 &&
                 row.vacancy.age1.Some? && row.vacancy.age1.value >= 1)
  {
    if DecodeCriteria(form).Ok? {
      var c := DecodeCriteria(form).value;
      AgeCodesZeroOne();
      AgePass(c, row);
      VacancyZeroOne(row.vacancy);
    }
  }

  /** The eighth pass is the age test on the criteria's columns. */
  lemma AgePass(c: Criteria, row: Row)
    ensures Pass(c, 7, row) == VacancyByAge(row.vacancy, c.ages)
  {
  }

  lemma AgeCodesZeroOne()
    ensures CodesToNames(["0", "1"], AgeAvailability()) == ["0歳児", "1歳児"]
  {
    var m := AgeAvailability();
    assert ["0", "1"][1..] == ["1"] && ["1"][1..] == [];
    assert m["0"] == "0歳児" && m["1"] == "1歳児";
  }

  lemma VacancyZeroOne(v: Vacancies)
    ensures Holds(VacancyByAge(v, ["0歳児", "1歳児"])) <==>
              v.age0.Some? && v.age0.value >= 1 && v.age1.Some? && v.age1.value >= 1
  {
    var cols := ["0歳児", "1歳児"];
    assert HasVacancy(v, cols[0]) <==> v.age0.Some? && v.age0.value >= 1;
    assert HasVacancy(v, cols[1]) <==> v.age1.Some? && v.age1.value >= 1;
  }

  /** The selections of the three time fields determine the bounds: the
      opening bound is the second pair of its field, the closing bounds the
      first pair of theirs. */
  lemma BoundsFromSelections(h1: nat, m1: nat, h2: nat, m2: nat,
                             e1: nat, f1: nat, e2: nat, f2: nat,
                             x1: nat, y1: nat, x2: nat, y2: nat)
    requires h2 < 24 && m2 < 60 && e1 < 24 && f1 < 60 && x1 < 24 && y1 < 60
    ensures var r := DecodeBounds(Some(Quad(h1, m1, h2, m2)), Some(Quad(e1, f1, e2, f2)), Some(Quad(x1, y1, x2, y2)));
            r.Ok? && r.value.openBound == TimeOfDay(h2, m2) &&
            r.value.closeBound == TimeOfDay(e1, f1) && r.value.extendedBound == TimeOfDay(x1, y1)
  {
    QuadRoundTrip(h1, m1, h2, m2);
    QuadRoundTrip(e1, f1, e2, f2);
    QuadRoundTrip(x1, y1, x2, y2);
    DecodeBoundsOfNumbers(Some(Quad(h1, m1, h2, m2)), Some(Quad(e1, f1, e2, f2)), Some(Quad(x1, y1, x2, y2)),
                          [h1, m1, h2, m2], [e1, f1, e2, f2], [x1, y1, x2, y2]);
  }

  /** Decoding succeeds on fields that decode to four in-range numbers. */
  lemma DecodeBoundsOfNumbers(startTime: Option<string>, endTime: Option<string>, extendedEndTime: Option<string>,
                              s: seq<int>, e: seq<int>, x: seq<int>)
    requires ToNumbers(startTime) == Ok(s) && ToNumbers(endTime) == Ok(e) && ToNumbers(extendedEndTime) == Ok(x)
    requires |s| >= 4 && |e| >= 2 && |x| >= 2
    requires 0 <= s[2] < 24 && 0 <= s[3] < 60 && 0 <= e[0] < 24 && 0 <= e[1] < 60 && 0 <= x[0] < 24 && 0 <= x[1] < 60
    ensures DecodeBounds(startTime, endTime, extendedEndTime).Ok?
    ensures DecodeBounds(startTime, endTime, extendedEndTime).value.openBound == TimeOfDay(s[2], s[3])
    ensures DecodeBounds(startTime, endTime, extendedEndTime).value.closeBound == TimeOfDay(e[0], e[1])
    ensures DecodeBounds(startTime, endTime, extendedEndTime).value.extendedBound == TimeOfDay(x[0], x[1])
  {
    assert Numbers(startTime) == Ok(s);
    assert Numbers(endTime) == Ok(e);
    assert Numbers(extendedEndTime) == Ok(x);
  }

  /** On the default form the opening bound is 07:30 (not 07:00), the
      closing bound 18:00 (not 18:30) and the extended bound 19:00. */
  lemma DefaultBounds()
    ensures DecodeCriteria(DefaultForm()).Ok?
    ensures DecodeCriteria(DefaultForm()).value.openBound == TimeOfDay(7, 30)
    ensures DecodeCriteria(DefaultForm()).value.closeBound == TimeOfDay(18, 0)
    ensures DecodeCriteria(DefaultForm()).value.extendedBound == TimeOfDay(19, 0)
  {
    DefaultSelections();
    var f := DefaultForm();
    BoundsFromSelections(7, 0, 7, 30, 18, 0, 18, 30, 19, 0, 21, 30);
    assert DecodeBounds(f.startTime, f.endTime, f.extendedEndTime)
        == Ok(Bounds(TimeOfDay(7, 30), TimeOfDay(18, 0), TimeOfDay(19, 0)));
  }

  /** The default selections are the encodings of their four numbers. */
  lemma DefaultSelections()
    ensures DefaultForm().startTime == Some(Quad(7, 0, 7, 30))
    ensures DefaultForm().endTime == Some(Quad(18, 0, 18, 30))
    ensures DefaultForm().extendedEndTime == Some(Quad(19, 0, 21, 30))
  {
    Pad2Literals();
    assert "07" + "/" + "00" + "/" + "07" + "/" + "30" == "07/00/07/30";
    assert "18" + "/" + "00" + "/" + "18" + "/" + "30" == "18/00/18/30";
    assert "19" + "/" + "00" + "/" + "21" + "/" + "30" == "19/00/21/30";
  }

  /** With the default capacity bounds (0 and 200) the capacity pass keeps
      exactly the rows whose capacity is null or at most 999: 0 is no lower
      bound and 200 reaches the breaker. */
  lemma DefaultCapacity(cell: Option<int>)
    ensures Holds(BetweenNumFilter(cell, Some(0), Some(200), Some(200), 999)) <==>
              cell.None? || cell.value <= 999
  {
  }

  /** A maximum at or above the breaker acts as 999 whether or not a
      minimum is given. */
  lemma BreakerReplacesMax(cell: Option<int>, numMin: Option<int>, numMax: int)
    requires numMax >= 200
    ensures BetweenNumFilter(cell, numMin, Some(numMax), Some(200), 999) ==
            BetweenNumFilter(cell, numMin, Some(999), None, 999)
  {
  }

  /** Both bounds 0 are both absent: the pass keeps every row. */
  lemma ZeroBoundsKeepAll(cell: Option<int>)
    ensures BetweenNumFilter(cell, Some(0), Some(0), Some(200), 999) == Some(true)
  {
  }

  /** Bounds 50 and 250 admit a facility of 300, since 250 is above the
      breaker. */
  lemma CapacityAboveBreakerExample()
    ensures Holds(BetweenNumFilter(Some(300), Some(50), Some(250), Some(200), 999))
    ensures !Holds(BetweenNumFilter(Some(300), Some(50), Some(150), Some(200), 999))
  {
  }

  /** With both day flags set, a facility open only on Saturdays is
      dropped: the Sunday flag wins. */
  lemma SundayWinsExample()
    ensures !Holds(CondHoliday(Some("月火水木金土"), 1, 1))
    ensures Holds(CondHoliday(Some("月火水木金土"), 1, 0))
  {
  }
}
