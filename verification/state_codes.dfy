/** The two lookup tables between German federal-state ids (1..16) and their
    two-letter abbreviations (src/utils.ts). */
module StateCodes {
  import opened Wrappers

  /** The abbreviations in id order: the state with id `i` is `Codes[i - 1]`. */
  const Codes: seq<string> :=
    ["SH", "HH", "NI", "HB", "NW", "HE", "RP", "BW",
     "BY", "SL", "BE", "BB", "MV", "SN", "ST", "TH"]

  /** `getStateAbbreviationById`: the abbreviation of a state id, `None` for
      any number that is not a state id. */
  function AbbreviationById(id: int): (r: Option<string>)
    ensures r.Some? <==> 1 <= id <= 16
    ensures r.Some? ==> r.value == Codes[id - 1]
  {
    match id
    case 1 => Some("SH")
    case 2 => Some("HH")
    case 3 => Some("NI")
    case 4 => Some("HB")
    case 5 => Some("NW")
    case 6 => Some("HE")
    case 7 => Some("RP")
    case 8 => Some("BW")
    case 9 => Some("BY")
    case 10 => Some("SL")
    case 11 => Some("BE")
    case 12 => Some("BB")
    case 13 => Some("MV")
    case 14 => Some("SN")
    case 15 => Some("ST")
    case 16 => Some("TH")
    case _ => None
  }

  /** `getStateIdByAbbreviation`: the id of a state abbreviation, `None` for
      every other string (the match is exact and case-sensitive). */
  function IdByAbbreviation(abbreviation: string): (r: Option<int>)
    ensures r.Some? ==> 1 <= r.value <= 16 && Codes[r.value - 1] == abbreviation
  {
    match abbreviation
    case "SH" => Some(1)
    case "HH" => Some(2)
    case "NI" => Some(3)
    case "HB" => Some(4)
    case "NW" => Some(5)
    case "HE" => Some(6)
    case "RP" => Some(7)
    case "BW" => Some(8)
    case "BY" => Some(9)
    case "SL" => Some(10)
    case "BE" => Some(11)
    case "BB" => Some(12)
    case "MV" => Some(13)
    case "SN" => Some(14)
    case "ST" => Some(15)
    case "TH" => Some(16)
    case _ => None
  }

  /** The sixteen abbreviations are pairwise distinct. */
  lemma CodesDistinct()
    ensures forall i, j :: 0 <= i < j < |Codes| ==> Codes[i] != Codes[j]
  {
  }

  /** `getStateIdByAbbreviation` answers exactly for the sixteen codes. */
  lemma IdDefinedExactlyForCodes(abbreviation: string)
    ensures IdByAbbreviation(abbreviation).Some? <==> abbreviation in Codes
  {
    if abbreviation in Codes {
      var i :| 0 <= i < |Codes| && Codes[i] == abbreviation;
      IdOfCode(i);
    }
  }

  /** The code at position `i` has id `i + 1`. */
  lemma IdOfCode(i: int)
    requires 0 <= i < |Codes|
    ensures IdByAbbreviation(Codes[i]) == Some(i + 1)
  {
    if i < 8 {
      if i < 4 {
        if i < 2 { } else { }
      } else {
        if i < 6 { } else { }
      }
    } else {
      if i < 12 {
        if i < 10 { } else { }
      } else {
        if i < 14 { } else { }
      }
    }
  }

  /** Id to abbreviation to id is the identity on 1..16. */
  lemma IdRoundTrip(id: int)
    requires 1 <= id <= 16
    ensures IdByAbbreviation(AbbreviationById(id).value) == Some(id)
  {
    CodesDistinct();
  }

  /** Abbreviation to id to abbreviation is the identity on the sixteen codes. */
  lemma AbbreviationRoundTrip(abbreviation: string)
    requires abbreviation in Codes
    ensures AbbreviationById(IdByAbbreviation(abbreviation).value) == Some(abbreviation)
  {
  }

  /** Distinct state ids have distinct abbreviations. */
  lemma AbbreviationInjective(id1: int, id2: int)
    requires AbbreviationById(id1).Some? && AbbreviationById(id2).Some?
    requires AbbreviationById(id1) == AbbreviationById(id2)
    ensures id1 == id2
  {
    CodesDistinct();
  }
}
