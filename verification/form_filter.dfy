/** The search form of the nursery page: the `h1/m1/h2/m2` select fields and
    their decoder, the two code tables, the generated time choices, the
    at-least-one validator and the form's default values. */
module FormFilter {
  import opened Wrappers
  import opened Text

  /** `int()` rejected one piece of an encoded value. */
  datatype ValueError = ValueError(piece: string)

  /** Each piece of an encoded value read with `int(x.strip())`; `None`
      where that raises `ValueError`. */
  function ParsePieces(pieces: seq<string>): (parsed: seq<Option<int>>)
    ensures |parsed| == |pieces|
  {
    seq(|pieces|, i requires 0 <= i < |pieces| => ParseInt(Strip(pieces[i])))
  }

  /** The list comprehension `[int(x.strip()) for x in pieces]` once each
      piece has been read: all numbers in order, or the `ValueError` of the
      first piece that is not an integer. */
  function Collect(pieces: seq<string>, parsed: seq<Option<int>>): (r: Result<seq<int>, ValueError>)
    requires |parsed| == |pieces|
    ensures r.Ok? <==> forall i | 0 <= i < |parsed| :: parsed[i].Some?
    ensures r.Ok? ==> |r.value| == |parsed| && forall i | 0 <= i < |parsed| :: parsed[i] == Some(r.value[i])
    ensures r.Err? ==>
      exists i | 0 <= i < |parsed| ::
        parsed[i].None? && r.error.piece == pieces[i] && forall j | 0 <= j < i :: parsed[j].Some?
  {
    if parsed == [] then Ok([])
    else if parsed[0].None? then Err(ValueError(pieces[0]))
    else
      var rest := Collect(pieces[1..], parsed[1..]);
      if rest.Err? then
        var k :| 0 <= k < |parsed| - 1 && parsed[1..][k].None? && rest.error.piece == pieces[1..][k] &&
                 forall j | 0 <= j < k :: parsed[1..][j].Some?;
        assert parsed[k + 1].None? && rest.error.piece == pieces[k + 1];
        assert forall j | 0 <= j < k + 1 :: parsed[j].Some? by {
          forall j | 0 <= j < k + 1
            ensures parsed[j].Some?
          {
            if j > 0 { assert parsed[j] == parsed[1..][j - 1]; }
          }
        }
        rest
      else
        var r := [parsed[0].value] + rest.value;
        assert forall i | 1 <= i < |parsed| :: parsed[i] == parsed[1..][i - 1] && r[i] == rest.value[i - 1];
        Ok(r)
  }

  /** `int(piece.strip())` does not raise. */
  predicate Readable(piece: string)
  {
    ParseInt(Strip(piece)).Some?
  }

  /** Every piece is readable. */
  predicate AllReadable(pieces: seq<string>)
  {
    forall i | 0 <= i < |pieces| :: Readable(pieces[i])
  }

  /** `values` are the pieces read one by one, in order. */
  predicate ReadAs(pieces: seq<string>, values: seq<int>)
  {
    |values| == |pieces| && forall i | 0 <= i < |pieces| :: ParseInt(Strip(pieces[i])) == Some(values[i])
  }

  /** Piece `k` is the first one that cannot be read. */
  predicate FirstUnreadable(pieces: seq<string>, k: int)
  {
    0 <= k < |pieces| && !Readable(pieces[k]) && forall j | 0 <= j < k :: Readable(pieces[j])
  }

  /** `QuadNumbersSelectField.to_numbers`: no selection gives four zeros;
      otherwise the value is split on "/" and every stripped piece is read
      as an integer. The result is the pieces read in order, one number per
      piece whatever their count; when a piece is not an integer, the
      `ValueError` names the first such piece. */
  function ToNumbers(data: Option<string>): (r: Result<seq<int>, ValueError>)
    ensures data.None? ==> r == Ok([0, 0, 0, 0])
    ensures data.Some? && r.Ok? ==> |r.value| == Count(data.value, '/') + 1
    ensures data.Some? ==> (r.Ok? <==> AllReadable(Split(data.value, '/')))
    ensures data.Some? && r.Ok? ==> ReadAs(Split(data.value, '/'), r.value)
    ensures data.Some? && r.Err? ==>
              exists k :: FirstUnreadable(Split(data.value, '/'), k) && r.error.piece == Split(data.value, '/')[k]
  {
    if data.None? then Ok([0, 0, 0, 0])
    else
      var pieces := Split(data.value, '/');
      var parsed := ParsePieces(pieces);
      assert forall i | 0 <= i < |pieces| :: parsed[i] == ParseInt(Strip(pieces[i]));
      var res := Collect(pieces, parsed);
      assert res.Ok? <==> AllReadable(pieces) by {
        if AllReadable(pieces) {
          forall i | 0 <= i < |parsed|
            ensures parsed[i].Some?
          {
            assert Readable(pieces[i]);
          }
        }
      }
      assert res.Err? ==> exists k :: FirstUnreadable(pieces, k) && res.error.piece == pieces[k] by {
        if res.Err? {
          var k :| 0 <= k < |parsed| && parsed[k].None? && res.error.piece == pieces[k] &&
                   forall j | 0 <= j < k :: parsed[j].Some?;
          assert FirstUnreadable(pieces, k);
        }
      }
      res
  }

  /** The encoded value `f"{h1:02d}/{m1:02d}/{h2:02d}/{m2:02d}"`. */
  function Quad(h1: nat, m1: nat, h2: nat, m2: nat): string
  {
    Pad2(h1) + "/" + Pad2(m1) + "/" + Pad2(h2) + "/" + Pad2(m2)
  }

  /** A two-digit field of an encoded value holds no "/" and reads back
      as its number. */
  lemma Pad2Parses(n: nat)
    ensures '/' !in Pad2(n) && ParseInt(Strip(Pad2(n))) == Some(n)
  {
    var s := Pad2(n);
    DigitsExclude(s, '/');
    assert !IsSpace(s[0]) && !IsSpace(s[|s| - 1]);
    assert Strip(s) == s;
    ParseIntOfDigits(s);
  }

  /** Three pieces joined with "/" split back into those pieces. */
  lemma SplitThree(b: string, c: string, d: string)
    requires '/' !in b && '/' !in c && '/' !in d
    ensures Split(b + ['/'] + (c + ['/'] + d), '/') == [b, c, d]
  {
    SplitNoSeparator(d, '/');
    SplitAtFirst(c, d, '/');
    SplitAtFirst(b, c + ['/'] + d, '/');
  }

  /** Four pieces joined with "/" split back into those pieces. */
  lemma SplitFour(a: string, b: string, c: string, d: string)
    requires '/' !in a && '/' !in b && '/' !in c && '/' !in d
    ensures Split(a + "/" + b + "/" + c + "/" + d, '/') == [a, b, c, d]
  {
    var bcd := b + ['/'] + (c + ['/'] + d);
    assert a + "/" + b + "/" + c + "/" + d == a + ['/'] + bcd;
    SplitThree(b, c, d);
    SplitAtFirst(a, bcd, '/');
  }

  /** When every piece was read, the numbers are exactly what was read. */
  lemma CollectAllSome(pieces: seq<string>, parsed: seq<Option<int>>, values: seq<int>)
    requires |pieces| == |parsed| == |values|
    requires forall i | 0 <= i < |parsed| :: parsed[i] == Some(values[i])
    ensures Collect(pieces, parsed) == Ok(values)
  {
    var r := Collect(pieces, parsed);
    assert r.Ok? && |r.value| == |values|;
    assert forall i | 0 <= i < |values| :: r.value[i] == values[i];
    assert r.value == values;
  }

  /** Pieces that all read as integers decode to exactly those integers. */
  lemma CollectAllParsed(pieces: seq<string>, values: seq<int>)
    requires |pieces| == |values|
    requires forall i | 0 <= i < |pieces| :: ParseInt(Strip(pieces[i])) == Some(values[i])
    ensures Collect(pieces, ParsePieces(pieces)) == Ok(values)
  {
    CollectAllSome(pieces, ParsePieces(pieces), values);
  }

  /** Four pieces that read as integers decode to those integers. */
  lemma CollectFour(a: string, b: string, c: string, d: string, va: int, vb: int, vc: int, vd: int)
    requires ParseInt(Strip(a)) == Some(va) && ParseInt(Strip(b)) == Some(vb)
    requires ParseInt(Strip(c)) == Some(vc) && ParseInt(Strip(d)) == Some(vd)
    ensures Collect([a, b, c, d], ParsePieces([a, b, c, d])) == Ok([va, vb, vc, vd])
  {
    var parsed := ParsePieces([a, b, c, d]);
    assert parsed[0] == Some(va) && parsed[1] == Some(vb);
    assert parsed[2] == Some(vc) && parsed[3] == Some(vd);
    assert parsed == [Some(va), Some(vb), Some(vc), Some(vd)];
    CollectAllSome([a, b, c, d], parsed, [va, vb, vc, vd]);
  }

  /** Four integer pieces joined with "/" decode to those four integers. */
  lemma ToNumbersOfFour(a: string, b: string, c: string, d: string, va: int, vb: int, vc: int, vd: int)
    requires '/' !in a && '/' !in b && '/' !in c && '/' !in d
    requires ParseInt(Strip(a)) == Some(va) && ParseInt(Strip(b)) == Some(vb)
    requires ParseInt(Strip(c)) == Some(vc) && ParseInt(Strip(d)) == Some(vd)
    ensures ToNumbers(Some(a + "/" + b + "/" + c + "/" + d)) == Ok([va, vb, vc, vd])
  {
    SplitFour(a, b, c, d);
    CollectFour(a, b, c, d, va, vb, vc, vd);
  }

  /** Every two-digit encoded value decodes to its four numbers. */
  lemma QuadRoundTrip(h1: nat, m1: nat, h2: nat, m2: nat)
    ensures ToNumbers(Some(Quad(h1, m1, h2, m2))) == Ok([h1, m1, h2, m2])
  {
    Pad2Parses(h1);
    Pad2Parses(m1);
    Pad2Parses(h2);
    Pad2Parses(m2);
    ToNumbersOfFour(Pad2(h1), Pad2(m1), Pad2(h2), Pad2(m2), h1, m1, h2, m2);
  }

  /** One option of a select field: the submitted value and the text shown for it. */
  datatype Choice = Choice(value: string, display: string)

  /** The opening-time options: "07/00/07/00", "07/00/07/15", "07/00/07/30". */
  function StartTimeChoices(): seq<Choice>
  {
    var minutes := [0, 15, 30];
    seq(3, i requires 0 <= i < 3 =>
      Choice("07/00/07/" + Pad2(minutes[i]), "07:00 ～ 07:" + Pad2(minutes[i])))
  }

  /** The closing-time options: "18/00/18/30", "18/15/18/30", "18/30/18/30". */
  function EndTimeChoices(): seq<Choice>
  {
    var minutes := [0, 15, 30];
    seq(3, i requires 0 <= i < 3 =>
      Choice("18/" + Pad2(minutes[i]) + "/18/30", "18:" + Pad2(minutes[i]) + " ～ 18:30"))
  }

  /** `product(range(19, 22), range(0, 60, 15))` in its order, hour major,
      with the last pair (21, 45) cut off by `[:-1]`. */
  function ExtendedEndPairs(): seq<(nat, nat)>
  {
    seq(12, k requires 0 <= k < 12 => (19 + k / 4, 15 * (k % 4)))[..11]
  }

  /** The extended-closing-time options "hh/mm/21/30". */
  function ExtendedEndTimeChoices(): seq<Choice>
  {
    var pairs := ExtendedEndPairs();
    seq(|pairs|, i requires 0 <= i < |pairs| =>
      Choice(Pad2(pairs[i].0) + "/" + Pad2(pairs[i].1) + "/21/30",
             Pad2(pairs[i].0) + ":" + Pad2(pairs[i].1) + " ～ 21:30"))
  }

  /** An opening-time value "07/00/07/mm" decodes to 07:00 and 07:mm. */
  lemma StartValueDecodes(m: nat)
    ensures ToNumbers(Some("07/00/07/" + Pad2(m))) == Ok([7, 0, 7, m])
  {
    assert Pad2(7) == "07" && Pad2(0) == "00" by { Pad2Literals(); }
    assert "07/00/07/" + Pad2(m) == Quad(7, 0, 7, m);
    QuadRoundTrip(7, 0, 7, m);
  }

  /** Each opening-time option decodes to 07:00 and 07:mm. */
  lemma StartTimeChoicesRoundTrip()
    ensures |StartTimeChoices()| == 3
    ensures forall i | 0 <= i < 3 :: ToNumbers(Some(StartTimeChoices()[i].value)) == Ok([7, 0, 7, 15 * i])
  {
    forall i | 0 <= i < 3
      ensures ToNumbers(Some(StartTimeChoices()[i].value)) == Ok([7, 0, 7, 15 * i])
    {
      assert StartTimeChoices()[i].value == "07/00/07/" + Pad2(15 * i);
      StartValueDecodes(15 * i);
    }
  }

  /** A closing-time value "18/mm/18/30" decodes to 18:mm and 18:30. */
  lemma EndValueDecodes(m: nat)
    ensures ToNumbers(Some("18/" + Pad2(m) + "/18/30")) == Ok([18, m, 18, 30])
  {
    assert Pad2(18) == "18" && Pad2(30) == "30" by { Pad2Literals(); }
    assert "18/" + Pad2(m) + "/18/30" == Quad(18, m, 18, 30);
    QuadRoundTrip(18, m, 18, 30);
  }

  /** Each closing-time option decodes to 18:mm and 18:30. */
  lemma EndTimeChoicesRoundTrip()
    ensures |EndTimeChoices()| == 3
    ensures forall i | 0 <= i < 3 :: ToNumbers(Some(EndTimeChoices()[i].value)) == Ok([18, 15 * i, 18, 30])
  {
    forall i | 0 <= i < 3
      ensures ToNumbers(Some(EndTimeChoices()[i].value)) == Ok([18, 15 * i, 18, 30])
    {
      assert EndTimeChoices()[i].value == "18/" + Pad2(15 * i) + "/18/30";
      EndValueDecodes(15 * i);
    }
  }

  /** An extended-closing-time value "hh/mm/21/30" decodes to hh:mm and 21:30. */
  lemma ExtendedValueDecodes(h: nat, m: nat)
    ensures ToNumbers(Some(Pad2(h) + "/" + Pad2(m) + "/21/30")) == Ok([h, m, 21, 30])
  {
    assert Pad2(21) == "21" && Pad2(30) == "30" by { Pad2Literals(); }
    assert Pad2(h) + "/" + Pad2(m) + "/21/30" == Quad(h, m, 21, 30);
    QuadRoundTrip(h, m, 21, 30);
  }

  /** The extended-closing-time options: eleven of them, from 19:00 to 21:30
      in steps of 15 minutes (so 21:45 is not offered), each decoding to its
      own hour and minute followed by 21 and 30. */
  lemma ExtendedEndTimeChoicesRoundTrip()
    ensures |ExtendedEndTimeChoices()| == 11
    ensures forall i | 0 <= i < 11 ::
      var n := ToNumbers(Some(ExtendedEndTimeChoices()[i].value));
      n.Ok? && |n.value| == 4 && n.value[2] == 21 && n.value[3] == 30 &&
      n.value[0] * 60 + n.value[1] == 19 * 60 + 15 * i && 0 <= n.value[1] < 60
  {
    forall i | 0 <= i < 11
      ensures
        var n := ToNumbers(Some(ExtendedEndTimeChoices()[i].value));
        n.Ok? && |n.value| == 4 && n.value[2] == 21 && n.value[3] == 30 &&
        n.value[0] * 60 + n.value[1] == 19 * 60 + 15 * i && 0 <= n.value[1] < 60
    {
      var (h, m) := ExtendedEndPairs()[i];
      assert h == 19 + i / 4 && m == 15 * (i % 4);
      assert ExtendedEndTimeChoices()[i].value == Pad2(h) + "/" + Pad2(m) + "/21/30";
      ExtendedValueDecodes(h, m);
    }
  }

  /** `get_age_availability()`: age code to the name of its vacancy column. */
  function AgeAvailability(): (m: map<string, string>)
    ensures m.Keys == {"0", "1", "2", "3", "4", "5"}
    ensures forall a, b | a in m && b in m && a != b :: m[a] != m[b]
  {
    map["0" := "0歳児", "1" := "1歳児", "2" := "2歳児",
        "3" := "3歳児", "4" := "4歳児", "5" := "5歳児"]
  }

  /** Each age code k names the vacancy column "k歳児". */
  lemma AgeLabels()
    ensures forall k | k in AgeAvailability() :: AgeAvailability()[k] == k + "歳児"
  {
    var m := AgeAvailability();
    forall k | k in m
      ensures m[k] == k + "歳児"
    {
      assert k in {"0", "1", "2", "3", "4", "5"};
    }
  }

  /** `get_nursery_type()`: category code to the label stored in "種別". */
  function NurseryType(): (m: map<string, string>)
    ensures m.Keys == {"1", "2", "3", "4", "5", "6"}
    ensures forall a, b | a in m && b in m && a != b :: m[a] != m[b]
  {
    map["1" := "区立保育園", "2" := "区立幼保一元化施設", "3" := "私立保育園",
        "4" := "認定こども園", "5" := "小規模保育施設", "6" := "区立保育室"]
  }

  /** The outcome of a WTForms validator: pass, or stop the chain with a
      message. */
  /** What running a validator on a field does: nothing, raise
      `StopValidation` with a message, or raise `TypeError` because the
      field holds no list (`len(None)`). */
  datatype Validation = Passed | StopValidation(message: string) | LenOfNone

  /** `MultiCheckboxAtLeastOne` holds only its message. */
  datatype AtLeastOne = AtLeastOne(message: string)

  const DefaultAtLeastOneMessage := "At least one option must be selected."

  /** `MultiCheckboxAtLeastOne(message)`: a missing or empty message is
      replaced by the default one. */
  function NewAtLeastOne(message: Option<string>): (v: AtLeastOne)
    ensures message.None? || message.value == "" ==> v.message == DefaultAtLeastOneMessage
    ensures message.Some? && message.value != "" ==> v.message == message.value
  {
    if message.None? || message.value == "" then AtLeastOne(DefaultAtLeastOneMessage)
    else AtLeastOne(message.value)
  }

  /** `MultiCheckboxAtLeastOne.__call__`: stops validation exactly when
      the field holds an empty selection, with the validator's message;
      a field whose data is `None` makes `len` raise `TypeError`. */
  function ValidateAtLeastOne(v: AtLeastOne, data: Option<seq<string>>): (r: Validation)
    ensures r.LenOfNone? <==> data.None?
    ensures r.StopValidation? <==> data == Some([])
    ensures r.Passed? <==> data.Some? && data.value != []
    ensures r.StopValidation? ==> r.message == v.message
  {
    match data
    case None => LenOfNone
    case Some(xs) => if |xs| == 0 then StopValidation(v.message) else Passed
  }

  /** The submitted data of `FilterForm`, field by field. The select
      fields hold the submitted string (or `None`), the check-box lists a
      list of codes (or `None`), the integer fields an integer (or `None`). */
  datatype FilterForm = FilterForm(
    nurseryName: Option<string>,
    address: Option<string>,
    types: Option<seq<string>>,
    ageAvailability: Option<seq<string>>,
    saturday: bool,
    sunday: bool,
    startTime: Option<string>,
    endTime: Option<string>,
    extendedEndTime: Option<string>,
    garden: bool,
    bicycleParking: bool,
    strollerArea: bool,
    disabilityAcceptance: bool,
    sickChildCare: bool,
    busStop: bool,
    busRoute: bool,
    kindergarten: bool,
    elementarySchool: bool,
    schoolDistrict: bool,
    capacityMin: Option<int>,
    capacityMax: Option<int>)

  /** The form as it stands before the user changes anything. */
  function DefaultForm(): FilterForm
  {
    FilterForm(
      None, None,
      Some(["1", "2", "3", "4", "5", "6"]), Some([]),
      false, false,
      Some("07/00/07/30"), Some("18/00/18/30"), Some("19/00/21/30"),
      false, false, false, false, false,
      false, false, false, false, false,
      Some(0), Some(200))
  }

  /** WTForms' `NumberRange(min, max)`: passes only a present value inside
      the closed range. */
  predicate InNumberRange(data: Option<int>, min: int, max: int)
  {
    data.Some? && min <= data.value <= max
  }

  /** The defaults: every category code selected, in table order; no age
      code; capacity bounds 0 and 200, both inside the declared range
      0..999. */
  lemma DefaultFormIsValid()
    ensures DefaultForm().types.Some? && |DefaultForm().types.value| == 6
    ensures forall i | 0 <= i < 6 :: DefaultForm().types.value[i] in NurseryType()
    ensures forall c | c in NurseryType() :: c in DefaultForm().types.value
    ensures DefaultForm().ageAvailability == Some([])
    ensures DefaultForm().capacityMin == Some(0) && DefaultForm().capacityMax == Some(200)
    ensures InNumberRange(DefaultForm().capacityMin, 0, 999)
    ensures InNumberRange(DefaultForm().capacityMax, 0, 999)
  {
    var codes := DefaultForm().types.value;
    assert codes[0] == "1" && codes[1] == "2" && codes[2] == "3";
    assert codes[3] == "4" && codes[4] == "5" && codes[5] == "6";
  }

  /** Each time default is one of that field's options: the third opening
      option, the first closing option and the first extended option. */
  lemma DefaultTimesAreChoices()
    ensures DefaultForm().startTime == Some(StartTimeChoices()[2].value)
    ensures DefaultForm().endTime == Some(EndTimeChoices()[0].value)
    ensures DefaultForm().extendedEndTime == Some(ExtendedEndTimeChoices()[0].value)
  {
    Pad2Literals();
    assert StartTimeChoices()[2].value == "07/00/07/" + Pad2(30);
    assert EndTimeChoices()[0].value == "18/" + Pad2(0) + "/18/30";
    assert ExtendedEndPairs()[0] == (19, 0);
    assert ExtendedEndTimeChoices()[0].value == Pad2(19) + "/" + Pad2(0) + "/21/30";
    assert "07/00/07/" + "30" == "07/00/07/30";
    assert "18/" + "00" + "/18/30" == "18/00/18/30";
    assert "19" + "/" + "00" + "/21/30" == "19/00/21/30";
  }
}
