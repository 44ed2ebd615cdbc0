/** `nursery_type_to_code`: the category name stored in the table back to
    the form's category code. */
module Mapping {
  import FormFilter

  /** The name-to-code dictionary of `nursery_type_to_code`. */
  function TypeCodes(): map<string, string>
  {
    map["区立保育園" := "1", "区立幼保一元化施設" := "2", "私立保育園" := "3",
        "認定こども園" := "4", "小規模保育施設" := "5", "区立保育室" := "6"]
  }

  /** `nursery_type_to_code(type)`: the code of a known name, and "0" for
      any other text. The result is always one of "0" .. "6", and it is "0"
      exactly when the name is not in the table. */
  function NurseryTypeToCode(name: string): (code: string)
    ensures code in {"0", "1", "2", "3", "4", "5", "6"}
    ensures code == "0" <==> name !in TypeCodes()
    ensures name in TypeCodes() ==> code == TypeCodes()[name]
  {
    if name in TypeCodes() then TypeCodes()[name] else "0"
  }

  /** The six labels of the table map to the codes "1" .. "6". */
  lemma KnownLabels()
    ensures NurseryTypeToCode("区立保育園") == "1"
    ensures NurseryTypeToCode("区立幼保一元化施設") == "2"
    ensures NurseryTypeToCode("私立保育園") == "3"
    ensures NurseryTypeToCode("認定こども園") == "4"
    ensures NurseryTypeToCode("小規模保育施設") == "5"
    ensures NurseryTypeToCode("区立保育室") == "6"
  {
  }

  /** Every other string, the empty one included, maps to "0". */
  lemma UnknownLabel(name: string)
    requires name !in FormFilter.NurseryType().Values
    ensures NurseryTypeToCode(name) == "0"
  {
    var names := FormFilter.NurseryType();
    assert names["1"] == "区立保育園" && names["2"] == "区立幼保一元化施設";
    assert names["3"] == "私立保育園" && names["4"] == "認定こども園";
    assert names["5"] == "小規模保育施設" && names["6"] == "区立保育室";
  }

  /** This table is the inverse of the form's `get_nursery_type()`: every
      category code survives the trip to its name and back. */
  lemma RoundTripWithFormTable(c: string)
    requires c in FormFilter.NurseryType()
    ensures NurseryTypeToCode(FormFilter.NurseryType()[c]) == c
  {
  }

  /** ... and every name of the table survives the trip to its code and
      back. */
  lemma RoundTripFromLabel(name: string)
    requires name in TypeCodes()
    ensures NurseryTypeToCode(name) in FormFilter.NurseryType()
    ensures FormFilter.NurseryType()[NurseryTypeToCode(name)] == name
  {
  }
}
