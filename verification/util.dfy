/** The helpers of util.py: the address shortener, the vacancy test, the
    Japanese time and date formatters, and the per-row repair of the vacancy
    columns done by `load_hoikuen_csv`. */
module Util {
  import opened Wrappers
  import opened Text
  import opened Table

  // ---------------------------------------------------------------------
  // shorten_address

  /** `r` is a suffix of `s`. */
  predicate IsSuffix(r: string, s: string)
  {
    |r| <= |s| && s[|s| - |r|..] == r
  }

  /** What is left of `address` once the leading run of `ommitables` that
      matches, entry after entry, has been cut off. */
  function Shortened(address: string, ommitables: seq<string>): string
  {
    if ommitables != [] && ommitables[0] <= address then
      Shortened(address[|ommitables[0]|..], ommitables[1..])
    else address
  }

  /** How many entries of `ommitables` were cut off. */
  function StrippedCount(address: string, ommitables: seq<string>): nat
  {
    if ommitables != [] && ommitables[0] <= address then
      1 + StrippedCount(address[|ommitables[0]|..], ommitables[1..])
    else 0
  }

  /** The pieces of `parts` one after the other. */
  function Concat(parts: seq<string>): string
  {
    if parts == [] then "" else parts[0] + Concat(parts[1..])
  }

  /** Concatenation peels off its first piece. */
  lemma ConcatCons(head: string, parts: seq<string>)
    ensures Concat([head] + parts) == head + Concat(parts)
  {
    assert ([head] + parts)[1..] == parts;
  }

  /** `shorten_address(address, ommitables)`: walks the list in order,
      removing each entry from the front of the address while it is a
      prefix, and stops at the first entry that is not. */
  method ShortenAddress(address: string, ommitables: seq<string>) returns (r: string)
    ensures r == Shortened(address, ommitables)
    ensures IsSuffix(r, address)
    ensures ommitables == [] ==> r == address
  {
    r := address;
    var i := 0;
    while i < |ommitables|
      invariant 0 <= i <= |ommitables|
      invariant IsSuffix(r, address)
      invariant Shortened(address, ommitables) == Shortened(r, ommitables[i..])
    {
      if ommitables[i] <= r {
        assert ommitables[i..][1..] == ommitables[i + 1..];
        r := r[|ommitables[i]|..];
      } else {
        break;
      }
      i := i + 1;
    }
  }

  /** The address is the first `n` entries of the list, in order, followed
      by the result, where `n` is the number of entries removed; and the
      entry after them, if any, is not a prefix of the result. */
  lemma {:induction false} ShortenedDecomposes(address: string, ommitables: seq<string>)
    ensures StrippedCount(address, ommitables) <= |ommitables|
    ensures address == Concat(ommitables[..StrippedCount(address, ommitables)]) + Shortened(address, ommitables)
    ensures StrippedCount(address, ommitables) < |ommitables| ==>
              !(ommitables[StrippedCount(address, ommitables)] <= Shortened(address, ommitables))
  {
    if ommitables != [] && ommitables[0] <= address {
      var head, tail := ommitables[0], ommitables[1..];
      var rest := address[|head|..];
      ShortenedDecomposes(rest, tail);
      var n := StrippedCount(rest, tail);
      var r := Shortened(rest, tail);
      assert StrippedCount(address, ommitables) == n + 1;
      assert Shortened(address, ommitables) == r;
      assert address == Concat(ommitables[..n + 1]) + r by {
        var front := tail[..n];
        assert ommitables[..n + 1] == [head] + front;
        ConcatCons(head, front);
        assert address == head + rest;
        assert head + (Concat(front) + r) == (head + Concat(front)) + r;
      }
      assert n + 1 < |ommitables| ==> ommitables[n + 1] == tail[n];
    } else {
      assert ommitables[..0] == [];
    }
  }

  /** The decomposition above has only one solution: any count and rest
      with those two properties are the ones the shortener produces. */
  lemma {:induction false} ShortenedUnique(address: string, ommitables: seq<string>, n: nat, rest: string)
    requires n <= |ommitables|
    requires address == Concat(ommitables[..n]) + rest
    requires n < |ommitables| ==> !(ommitables[n] <= rest)
    ensures n == StrippedCount(address, ommitables)
    ensures rest == Shortened(address, ommitables)
  {
    if n == 0 {
      assert ommitables[..0] == [];
      assert address == rest;
    } else {
      var head := ommitables[0];
      assert ommitables[..n] == [head] + ommitables[1..][..n - 1];
      var tail := Concat(ommitables[1..][..n - 1]) + rest;
      assert address == head + tail;
      assert head <= address;
      assert address[|head|..] == tail;
      ShortenedUnique(tail, ommitables[1..], n - 1, rest);
    }
  }

  // ---------------------------------------------------------------------
  // is_enrollable

  /** The argument of `is_enrollable`: `None`, an `int` or a `str`. */
  datatype Seats = NoSeats | SeatCount(n: int) | SeatText(text: string)

  /** `is_enrollable(number_of_seat)`: `None` is not enrollable; otherwise
      the value is read with `int()`, a positive number is enrollable and
      anything `int()` rejects is not. */
  function IsEnrollable(seats: Seats): (b: bool)
    ensures seats.NoSeats? ==> !b
    ensures seats.SeatCount? ==> (b <==> seats.n > 0)
    ensures seats.SeatText? ==> (b <==> exists k :: k > 0 && ParseInt(seats.text) == Some(k))
  {
    match seats
    case NoSeats => false
    case SeatCount(n) => n > 0
    case SeatText(text) =>
      match ParseInt(text)
      case Some(n) => n > 0
      case None => false
  }

  /** A count printed as text is judged like the count itself. */
  lemma EnrollableText(n: int)
    ensures IsEnrollable(SeatText(IntToString(n))) == IsEnrollable(SeatCount(n))
  {
    ParseIntToString(n);
  }

  /** A text of white space, an optional sign, digits and white space is
      enrollable exactly when the sign is not "-" and the digits spell a
      positive number: leading zeros, padding and "+" do not matter. */
  lemma EnrollableSignedDigits(w1: string, sign: string, d: string, w2: string)
    requires AllSpace(w1) && AllSpace(w2)
    requires sign == "" || sign == "+" || sign == "-"
    requires IsDigits(d)
    ensures IsEnrollable(SeatText(w1 + sign + d + w2)) <==> sign != "-" && DigitsValue(d) > 0
  {
    ParseIntAccepts(w1, sign, d, w2);
    DigitsValueNonNegative(d);
  }

  /** The no-data marker, a dash and a decimal are not enrollable. */
  lemma NotEnrollableTexts()
    ensures !IsEnrollable(SeatText("（なし）"))
    ensures !IsEnrollable(SeatText("-"))
    ensures !IsEnrollable(SeatText("1.5"))
  {
    assert !IsDigit("（なし）"[0]) && !IsDigit("1.5"[1]);
    assert Strip("（なし）") == "（なし）";
    assert Strip("1.5") == "1.5";
    assert Strip("-") == "-" && "-"[1..] == "";
  }

  // ---------------------------------------------------------------------
  // time_to_HHMM_ja, times_to_HHMM_ja

  /** The argument of `time_to_HHMM_ja`: `None`, a `datetime.time` or a `str`. */
  datatype TimeArg = NoTime | AtTime(t: Time) | TimeText(text: string)

  /** "{hour}時" on the hour, "{hour}時{minute:02d}分" otherwise. */
  function FormatJa(t: Time): string
  {
    NatToString(t.hour) + "時" + (if t.minute == 0 then "" else Pad2(t.minute) + "分")
  }

  /** Reads a formatted time back: an hour written as `str(hour)` prints
      it (no sign, no leading zero), "時", then either nothing (on the hour)
      or the minute 1..59 in two digits and "分". Only what `FormatJa`
      produces is read. */
  function ParseJa(s: string): Option<TimeOfDay>
  {
    var parts := Split(s, '時');
    if |parts| != 2 || !IsNumeral(parts[0]) then None
    else if parts[1] == "" then Some(TimeOfDay(DigitsValue(parts[0]), 0))
    else if |parts[1]| == 3 && parts[1][2] == '分' && IsDigits(parts[1][..2])
            && 1 <= DigitsValue(parts[1][..2]) < 60 then
      Some(TimeOfDay(DigitsValue(parts[0]), DigitsValue(parts[1][..2])))
    else None
  }

  /** Splitting `a + sep + b` gives `a` and `b` when neither holds `sep`. */
  lemma SplitTwo(a: string, b: string, sep: char)
    requires sep !in a && sep !in b
    ensures Split(a + [sep] + b, sep) == [a, b]
  {
    SplitAtFirst(a, b, sep);
    SplitNoSeparator(b, sep);
  }

  /** The formatted time determines the time: reading it back gives it. */
  lemma FormatJaRoundTrip(t: Time)
    ensures ParseJa(FormatJa(t)) == Some(t)
    ensures '～' !in FormatJa(t) && '時' in FormatJa(t)
  {
    var hour := NatToString(t.hour);
    DigitsExclude(hour, '時');
    DigitsExclude(hour, '～');
    var tail := if t.minute == 0 then "" else Pad2(t.minute) + "分";
    if t.minute != 0 {
      var mm := Pad2(t.minute);
      DigitsExclude(mm, '時');
      DigitsExclude(mm, '～');
      assert tail[..2] == mm && tail[2] == '分';
    }
    assert FormatJa(t) == hour + ['時'] + tail;
    SplitTwo(hour, tail, '時');
    assert IsNumeral(hour);
    if t.minute != 0 {
      Pad2Value(t.minute);
    }
  }

  /** Only the formatted time reads back as that time: the text `ParseJa`
      accepts is exactly `FormatJa` of the time it yields. */
  lemma FormatJaUnique(s: string, t: Time)
    requires ParseJa(s) == Some(t)
    ensures s == FormatJa(t)
  {
    var parts := Split(s, '時');
    assert Join(parts, '時') == parts[0] + ['時'] + parts[1];
    assert parts[0] == NatToString(t.hour);
    if parts[1] != "" {
      var mm := parts[1][..2];
      TwoDigitsArePad2(mm);
      assert parts[1] == mm + "分";
    }
  }

  /** The text branch: `int()` on both sides of the one ":", then a valid
      `datetime.time`; `None` stands for the `ValueError` (wrong number of
      pieces, a piece that is not an integer, a value out of range). */
  function ParseHM(s: string): Option<Time>
  {
    var parts := Split(s, ':');
    if |parts| != 2 then None
    else
      match (ParseInt(parts[0]), ParseInt(parts[1]))
      case (Some(h), Some(m)) =>
        if 0 <= h < 24 && 0 <= m < 60 then Some(TimeOfDay(h, m)) else None
      case _ => None
  }

  /** `time_to_HHMM_ja(time)`: "" for `None`; a time is formatted; a text
      of at most five characters holding ":" that reads as a time is
      formatted like that time, and every other text comes back as it was. */
  function TimeToHHMMJa(arg: TimeArg): (r: string)
    ensures arg.NoTime? ==> r == ""
    ensures arg.AtTime? ==> ParseJa(r) == Some(arg.t) && '～' !in r
    ensures arg.TimeText? ==> (r == arg.text <==> !(|arg.text| <= 5 && ParseHM(arg.text).Some?))
    ensures arg.TimeText? && |arg.text| <= 5 && ParseHM(arg.text).Some? ==>
              ParseJa(r) == Some(ParseHM(arg.text).value) && '～' !in r
  {
    match arg
    case NoTime => ""
    case AtTime(t) =>
      FormatJaRoundTrip(t);
      FormatJa(t)
    case TimeText(text) =>
      if |text| <= 5 && ':' in text then
        match ParseHM(text)
        case Some(t) =>
          FormatJaRoundTrip(t);
          ReadableTimeText(text);
          FormatJa(t)
        case None => text
      else
        if ParseHM(text).Some? then ReadableTimeText(text); text else text
  }

  /** A text that reads as a time holds ":" and no "時", so it differs from
      every formatted time. */
  lemma ReadableTimeText(text: string)
    requires ParseHM(text).Some?
    ensures ':' in text && '時' !in text
  {
    var parts := Split(text, ':');
    assert parts[1..] == [parts[1]];
    assert Join(parts, ':') == parts[0] + [':'] + Join(parts[1..], ':');
    assert text == parts[0] + [':'] + parts[1];
    ParseIntExcludes(parts[0], '時');
    ParseIntExcludes(parts[1], '時');
  }

  /** The text branch on two pieces that read as an in-range hour and
      minute. */
  lemma ParseHMOfPieces(s: string, a: string, b: string, t: Time)
    requires Split(s, ':') == [a, b]
    requires ParseInt(a) == Some(t.hour) && ParseInt(b) == Some(t.minute)
    ensures ParseHM(s) == Some(t)
  {
  }

  /** A text "H:MM" with an in-range hour and minute is formatted exactly
      like the time it names. */
  lemma TextAgreesWithTime(t: Time)
    ensures TimeToHHMMJa(TimeText(NatToString(t.hour) + ":" + Pad2(t.minute))) == TimeToHHMMJa(AtTime(t))
  {
    NatToStringLength(t.hour, 2);
    assert Pow10(2) == 100;
    DigitsTextAgreesWithTime(NatToString(t.hour), Pad2(t.minute), t);
  }

  /** The same with the hour padded to two digits, as in "07:05". */
  lemma PaddedTextAgreesWithTime(t: Time)
    ensures TimeToHHMMJa(TimeText(Pad2(t.hour) + ":" + Pad2(t.minute))) == TimeToHHMMJa(AtTime(t))
  {
    DigitsTextAgreesWithTime(Pad2(t.hour), Pad2(t.minute), t);
  }

  /** Any "digits:digits" text of at most five characters naming an
      in-range time is formatted like that time. */
  lemma DigitsTextAgreesWithTime(hour: string, mm: string, t: Time)
    requires IsDigits(hour) && IsDigits(mm) && |hour| + |mm| <= 4
    requires DigitsValue(hour) == t.hour && DigitsValue(mm) == t.minute
    ensures TimeToHHMMJa(TimeText(hour + ":" + mm)) == TimeToHHMMJa(AtTime(t))
  {
    var text := hour + ":" + mm;
    DigitsExclude(hour, ':');
    DigitsExclude(mm, ':');
    assert text == hour + [':'] + mm;
    SplitTwo(hour, mm, ':');
    ParseIntOfDigits(hour);
    ParseIntOfDigits(mm);
    ParseHMOfPieces(text, hour, mm, t);
    ReadableTextFormatted(text);
  }

  /** Every text of at most five characters that reads as a time, however
      it is spelt (" 7:5", "+7:05", "07:05"), is formatted exactly like that
      time. */
  lemma ReadableTextFormatted(text: string)
    requires |text| <= 5 && ParseHM(text).Some?
    ensures TimeToHHMMJa(TimeText(text)) == TimeToHHMMJa(AtTime(ParseHM(text).value))
  {
    ReadableTimeText(text);
  }

  /** A text that does not read as a time comes back unchanged. */
  lemma UnreadableTextUnchanged(text: string)
    requires ParseHM(text).None?
    ensures TimeToHHMMJa(TimeText(text)) == text
  {
  }

  /** "25:00" has an hour out of range and comes back unchanged. */
  lemma HourOutOfRangeUnchanged()
    ensures TimeToHHMMJa(TimeText("25:00")) == "25:00"
  {
    assert "25:00" == "25" + [':'] + "00";
    SplitTwo("25", "00", ':');
    assert ParseInt("25") == Some(25) by {
      ParseIntOfDigits("25");
      assert "25"[..1] == "2";
    }
  }

  /** "1:2:3" has three pieces and comes back unchanged. */
  lemma ThreePiecesUnchanged()
    ensures TimeToHHMMJa(TimeText("1:2:3")) == "1:2:3"
  {
    assert "1:2:3" == "1" + [':'] + "2:3";
    assert "2:3" == "2" + [':'] + "3";
    SplitAtFirst("1", "2:3", ':');
    SplitTwo("2", "3", ':');
  }

  /** "7:05" is formatted as "7時05分". */
  lemma TextFormatted()
    ensures TimeToHHMMJa(TimeText("7:05")) == "7時05分"
  {
    var t: Time := TimeOfDay(7, 5);
    SevenOFiveText();
    TextAgreesWithTime(t);
    SevenOFiveFormatted();
  }

  /** "07:05" is formatted as "7時05分" too: the leading zero of the hour
      is dropped. */
  lemma PaddedTextFormatted()
    ensures TimeToHHMMJa(TimeText("07:05")) == "7時05分"
  {
    var t: Time := TimeOfDay(7, 5);
    assert Pad2(7) + ":" + Pad2(5) == "07:05" by {
      Pad2OneDigit(7);
      Pad2OneDigit(5);
    }
    PaddedTextAgreesWithTime(t);
    SevenOFiveFormatted();
  }

  /** The pieces of "7:05". */
  lemma SevenOFiveText()
    ensures NatToString(7) + ":" + Pad2(5) == "7:05"
  {
    assert NatToString(7) == "7";
    Pad2OneDigit(5);
  }

  /** 07:05 is written "7時05分". */
  lemma SevenOFiveFormatted()
    ensures TimeToHHMMJa(AtTime(TimeOfDay(7, 5))) == "7時05分"
  {
    assert NatToString(7) == "7";
    Pad2OneDigit(5);
  }

  /** `times_to_HHMM_ja(time1, time2)`: both times formatted, joined by
      "～"; splitting on "～" gives both back. */
  function TimesToHHMMJa(t1: Option<Time>, t2: Option<Time>): (r: string)
    ensures Split(r, '～') == [TimeToHHMMJa(AsTimeArg(t1)), TimeToHHMMJa(AsTimeArg(t2))]
  {
    var left := TimeToHHMMJa(AsTimeArg(t1));
    var right := TimeToHHMMJa(AsTimeArg(t2));
    SplitTwo(left, right, '～');
    left + "～" + right
  }

  function AsTimeArg(t: Option<Time>): TimeArg
  {
    match t
    case None => NoTime
    case Some(v) => AtTime(v)
  }

  /** Both times of a formatted range are recovered from it. */
  lemma TimesRoundTrip(t1: Time, t2: Time)
    ensures var parts := Split(TimesToHHMMJa(Some(t1), Some(t2)), '～');
            |parts| == 2 && ParseJa(parts[0]) == Some(t1) && ParseJa(parts[1]) == Some(t2)
  {
  }

  // ---------------------------------------------------------------------
  // date_to_mmdd_ja, dates_to_mmdd_ja

  datatype CalendarDate = CalendarDate(year: int, month: int, day: int)

  predicate IsLeapYear(y: int)
  {
    y % 4 == 0 && (y % 100 != 0 || y % 400 == 0)
  }

  function DaysInMonth(y: int, m: int): int
  {
    if m == 2 then (if IsLeapYear(y) then 29 else 28)
    else if m == 4 || m == 6 || m == 9 || m == 11 then 30
    else 31
  }

  /** The values of `datetime.date`: years 1 to 9999 and real days. */
  type Date = d: CalendarDate | 1 <= d.year <= 9999 && 1 <= d.month <= 12 && 1 <= d.day <= DaysInMonth(d.year, d.month)
    witness CalendarDate(1, 1, 1)

  /** Reads "YYYY年MM月DD日" back. */
  function ParseDateJa(s: string): Option<CalendarDate>
  {
    if |s| == 11 && s[4] == '年' && s[7] == '月' && s[10] == '日'
       && IsDigits(s[..4]) && IsDigits(s[5..7]) && IsDigits(s[8..10])
    then Some(CalendarDate(DigitsValue(s[..4]), DigitsValue(s[5..7]), DigitsValue(s[8..10])))
    else None
  }

  /** A number below 10^width pads to exactly `width` digits. */
  lemma ZeroPadWidth(n: nat, width: nat)
    requires 1 <= width && n < Pow10(width)
    ensures |ZeroPad(n, width)| == width
  {
    NatToStringLength(n, width);
  }

  /** `date_to_mmdd_ja(date)`: "" for `None`, otherwise
      `strftime("%Y年%m月%d日")`, which reads back to the date. */
  function DateToMmddJa(d: Option<Date>): (s: string)
    ensures d.None? <==> s == ""
    ensures d.Some? ==> ParseDateJa(s) == Some(d.value)
    ensures '～' !in s
  {
    match d
    case None => ""
    case Some(date) =>
      var y := ZeroPad(date.year, 4);
      var m := ZeroPad(date.month, 2);
      var dd := ZeroPad(date.day, 2);
      assert Pow10(2) == 100 && Pow10(4) == 10000;
      ZeroPadWidth(date.year, 4);
      ZeroPadWidth(date.month, 2);
      ZeroPadWidth(date.day, 2);
      DigitsExclude(y, '～');
      DigitsExclude(m, '～');
      DigitsExclude(dd, '～');
      var s := y + "年" + m + "月" + dd + "日";
      assert s[..4] == y && s[5..7] == m && s[8..10] == dd;
      s
  }

  /** `dates_to_mmdd_ja(date1, date2)`: both dates formatted, joined by
      "～"; splitting on "～" gives both back. */
  function DatesToMmddJa(d1: Option<Date>, d2: Option<Date>): (r: string)
    ensures Split(r, '～') == [DateToMmddJa(d1), DateToMmddJa(d2)]
  {
    var left := DateToMmddJa(d1);
    var right := DateToMmddJa(d2);
    SplitTwo(left, right, '～');
    left + "～" + right
  }

  // ---------------------------------------------------------------------
  // load_hoikuen_csv: sentinel mapping and the two backfills

  /** `replace({"（なし）": None}).cast(pl.Int64)` on one cell. */
  function MapSentinel(c: RawCell): (v: Option<int>)
    ensures v.None? <==> !c.Count?
    ensures c.Count? ==> v == Some(c.n)
  {
    match c
    case Count(n) => Some(n)
    case _ => None
  }

  /** The cast step on all eight vacancy columns. */
  function MapSentinels(raw: RawVacancies): Vacancies
  {
    Vacancies(
      MapSentinel(raw.age0), MapSentinel(raw.age1), MapSentinel(raw.age2),
      MapSentinel(raw.age3), MapSentinel(raw.age4), MapSentinel(raw.age5),
      MapSentinel(raw.from3to5), MapSentinel(raw.from4to5))
  }

  /** `fill_null(aggregate)` on one cell: a present value stays, a null
      takes the aggregate. */
  function FillNull(cell: Option<int>, aggregate: Option<int>): (r: Option<int>)
    ensures cell.Some? ==> r == cell
    ensures cell.None? ==> r == aggregate
  {
    if cell.Some? then cell else aggregate
  }

  /** After a fill from `aggregate`: a present value was kept, a null
      became the aggregate. */
  predicate FilledFrom(before: Option<int>, after: Option<int>, aggregate: Option<int>)
  {
    if before.Some? then after == before else after == aggregate
  }

  /** The 3–5 backfill: with the "3歳児から5歳児" aggregate present, each
      null among ages 3, 4 and 5 takes it; with it null, nothing changes. */
  function Backfill35(v: Vacancies): (r: Vacancies)
    ensures r.age0 == v.age0 && r.age1 == v.age1 && r.age2 == v.age2
    ensures r.from3to5 == v.from3to5 && r.from4to5 == v.from4to5
    ensures FilledFrom(v.age3, r.age3, v.from3to5)
    ensures FilledFrom(v.age4, r.age4, v.from3to5)
    ensures FilledFrom(v.age5, r.age5, v.from3to5)
  {
    if v.from3to5.Some? then
      v.(age3 := FillNull(v.age3, v.from3to5),
         age4 := FillNull(v.age4, v.from3to5),
         age5 := FillNull(v.age5, v.from3to5))
    else v
  }

  /** The 4–5 backfill: the same with the "4歳児から5歳児" aggregate, for
      ages 4 and 5 only. */
  function Backfill45(v: Vacancies): (r: Vacancies)
    ensures r.age0 == v.age0 && r.age1 == v.age1 && r.age2 == v.age2 && r.age3 == v.age3
    ensures r.from3to5 == v.from3to5 && r.from4to5 == v.from4to5
    ensures FilledFrom(v.age4, r.age4, v.from4to5)
    ensures FilledFrom(v.age5, r.age5, v.from4to5)
  {
    if v.from4to5.Some? then
      v.(age4 := FillNull(v.age4, v.from4to5),
         age5 := FillNull(v.age5, v.from4to5))
    else v
  }

  /** The two backfills in the order the loader runs them. */
  function Backfill(v: Vacancies): Vacancies
  {
    Backfill45(Backfill35(v))
  }

  /** The vacancy part of the loader: sentinels to null, then both
      backfills. */
  function NormalizeVacancies(raw: RawVacancies): Vacancies
  {
    Backfill(MapSentinels(raw))
  }

  /** The 4–5 backfill has nothing left to fill once the 3–5 aggregate was
      present. */
  lemma Backfill45AfterPresent35(v: Vacancies)
    requires v.from3to5.Some?
    ensures Backfill45(Backfill35(v)) == Backfill35(v)
  {
  }

  /** The combined backfill never overwrites a present value and never
      touches ages 0–2 or the aggregates; each null age ends up as the first
      present aggregate that covers it. */
  lemma BackfillKeeps(v: Vacancies)
    ensures var r := Backfill(v);
      r.age0 == v.age0 && r.age1 == v.age1 && r.age2 == v.age2 &&
      r.from3to5 == v.from3to5 && r.from4to5 == v.from4to5 &&
      (v.age3.Some? ==> r.age3 == v.age3) &&
      (v.age4.Some? ==> r.age4 == v.age4) &&
      (v.age5.Some? ==> r.age5 == v.age5) &&
      (v.age3.None? ==> r.age3 == v.from3to5) &&
      (v.age4.None? ==> r.age4 == (if v.from3to5.Some? then v.from3to5 else v.from4to5)) &&
      (v.age5.None? ==> r.age5 == (if v.from3to5.Some? then v.from3to5 else v.from4to5))
  {
  }

  /** Running the backfills a second time changes nothing. */
  lemma BackfillIdempotent(v: Vacancies)
    ensures Backfill(Backfill(v)) == Backfill(v)
  {
    var once := Backfill(v);
    var twice := Backfill(once);
    BackfillKeeps(v);
    BackfillKeeps(once);
    assert twice.age3 == once.age3;
    assert twice.age4 == once.age4;
    assert twice.age5 == once.age5;
  }

  /** A worked example: 3–5 aggregate 5, age 4 given
      as 2, ages 3 and 5 missing; afterwards 3 and 5 hold 5 and 4 keeps 2. */
  lemma BackfillExample()
    ensures var raw := RawVacancies(Count(0), Count(1), Sentinel, Sentinel, Count(2), Blank, Count(5), Sentinel);
            var v := NormalizeVacancies(raw);
            v.age3 == Some(5) && v.age4 == Some(2) && v.age5 == Some(5) && v.age2 == None
  {
  }

  /** `load_hoikuen_csv` on one row: the vacancy columns are repaired, every
      other column is kept. */
  function LoadRow(raw: RawRow): (row: Row)
    ensures row.vacancy == NormalizeVacancies(raw.vacancy)
    ensures row.name == raw.name && row.address == raw.address && row.category == raw.category
    ensures row.weekdays == raw.weekdays && row.capacity == raw.capacity
    ensures row.openTime == raw.openTime && row.closeTime == raw.closeTime
    ensures row.extendedCloseTime == raw.extendedCloseTime
    ensures row.garden == raw.garden && row.bicycleParking == raw.bicycleParking
    ensures row.strollerArea == raw.strollerArea && row.disabilityAcceptance == raw.disabilityAcceptance
    ensures row.sickChildCare == raw.sickChildCare
  {
    Facility(raw.name, raw.address, raw.category, raw.weekdays,
             raw.openTime, raw.closeTime, raw.extendedCloseTime,
             NormalizeVacancies(raw.vacancy),
             raw.garden, raw.bicycleParking, raw.strollerArea,
             raw.disabilityAcceptance, raw.sickChildCare, raw.capacity)
  }

  /** The loader on the whole table: row by row, in order. */
  function LoadTable(raw: seq<RawRow>): (rows: seq<Row>)
    ensures |rows| == |raw|
    ensures forall i | 0 <= i < |raw| :: rows[i] == LoadRow(raw[i])
  {
    seq(|raw|, i requires 0 <= i < |raw| => LoadRow(raw[i]))
  }

  /** A loaded table is already repaired: the backfills change nothing in it. */
  lemma LoadedTableIsStable(raw: seq<RawRow>)
    ensures forall i | 0 <= i < |raw| ::
              Backfill(LoadTable(raw)[i].vacancy) == LoadTable(raw)[i].vacancy
  {
    forall i | 0 <= i < |raw|
      ensures Backfill(LoadTable(raw)[i].vacancy) == LoadTable(raw)[i].vacancy
    {
      BackfillIdempotent(MapSentinels(raw[i].vacancy));
    }
  }
}
