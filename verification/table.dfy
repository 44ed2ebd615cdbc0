/** The nursery table (hoikuen.csv) as the search core sees it: one row per
    facility, each cell either a value or polars' null (`None`). */
module Table {
  import opened Wrappers

  /** A time of day as polars' `Time` holds it after `str.to_time("%H:%M")`. */
  datatype TimeOfDay = TimeOfDay(hour: int, minute: int)

  /** Only real clock times are values of the `Time` type. */
  type Time = t: TimeOfDay | 0 <= t.hour < 24 && 0 <= t.minute < 60 witness TimeOfDay(0, 0)

  /** polars' ordering on `Time`: earlier is smaller. */
  predicate TimeLe(a: TimeOfDay, b: TimeOfDay)
  {
    a.hour < b.hour || (a.hour == b.hour && a.minute <= b.minute)
  }

  /** The vacancy columns after loading: "0歳児" .. "5歳児" and the two
      aggregates "3歳児から5歳児" and "4歳児から5歳児", each an Int64 or null. */
  datatype Vacancies = Vacancies(
    age0: Option<int>, age1: Option<int>, age2: Option<int>,
    age3: Option<int>, age4: Option<int>, age5: Option<int>,
    from3to5: Option<int>, from4to5: Option<int>)

  /** A vacancy cell as read from the file: empty, the no-data marker
      "（なし）", or a count (for the aggregates, already truncated from the
      decimal text to an integer). */
  datatype RawCell = Blank | Sentinel | Count(n: int)

  /** The same eight vacancy columns before the sentinel is replaced. */
  datatype RawVacancies = RawVacancies(
    age0: RawCell, age1: RawCell, age2: RawCell,
    age3: RawCell, age4: RawCell, age5: RawCell,
    from3to5: RawCell, from4to5: RawCell)

  /** One facility. `V` is the representation of its vacancy columns: raw
      cells in the file, integers-or-null in the loaded table. The text
      columns are "名称", "所在地", "種別", "利用可能曜日", the five amenity
      columns ("園庭の有無", "駐輪場の有無", "ベビーカー置き場の有無",
      "障害児の受け入れ体制", "病児保育事業の実施") and the capacity
      "収容定員_合計". */
  datatype Facility<V> = Facility(
    name: Option<string>,
    address: Option<string>,
    category: Option<string>,
    weekdays: Option<string>,
    openTime: Option<Time>,
    closeTime: Option<Time>,
    extendedCloseTime: Option<Time>,
    vacancy: V,
    garden: Option<string>,
    bicycleParking: Option<string>,
    strollerArea: Option<string>,
    disabilityAcceptance: Option<string>,
    sickChildCare: Option<string>,
    capacity: Option<int>)

  type Row = Facility<Vacancies>

  type RawRow = Facility<RawVacancies>
}
