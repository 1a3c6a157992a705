/**
 * The string handling around the dashboard's classifier and geocoder calls:
 * the ethnicity label map, splitting a name into its first and last token,
 * and cutting an affiliation (or a geocoded address) down to the text after
 * its last comma. The classifiers and the geocoder are parameters: the model
 * assumes nothing about what they return.
 */
module Lookup {
  import opened Wrappers
  import opened Text

  /** `ethnicityMap`: race codes of the name classifier to display labels. */
  const EthnicityMap: map<string, string> :=
    map["asian" := "Asian", "hispanic" := "Hispanic", "nh_black" := "Black", "nh_white" := "White"]

  /** The labels the dashboard stores for a person's ethnicity. */
  predicate IsEthnicityLabel(s: string) {
    s == "Asian" || s == "Hispanic" || s == "Black" || s == "White"
  }

  /** `ethnicityMap[race]`: defined on exactly four race codes, and a
      `KeyError` on any other. */
  function EthnicityLabel(race: string): (r: Result<string>)
    ensures r.Ok? <==> race == "asian" || race == "hispanic" || race == "nh_black" || race == "nh_white"
    ensures r.Ok? ==> IsEthnicityLabel(r.value)
    ensures r.Err? ==> r.error == KeyError(race)
  {
    if race in EthnicityMap then Ok(EthnicityMap[race]) else Err(KeyError(race))
  }

  /** Different race codes get different labels. */
  lemma {:induction false} EthnicityLabelInjective(a: string, b: string)
    requires EthnicityLabel(a).Ok? && EthnicityLabel(b).Ok?
    requires EthnicityLabel(a) == EthnicityLabel(b)
    ensures a == b
  {
  }

  datatype FullName = FullName(first: string, last: string)

  /** `nameParts = fullName.split()`, then `nameParts[0]` and `nameParts[-1]`;
      both index a list that is empty for a blank name, an `IndexError`. The
      first name is the word at the first non-whitespace character. */
  function SplitName(fullName: string): (r: Result<FullName>)
    ensures r.Err? <==> AllSpace(fullName)
    ensures r.Err? ==> r.error == IndexError
    ensures r.Ok? ==> r.value.first != [] && NoSpace(r.value.first)
    ensures r.Ok? ==> r.value.last != [] && NoSpace(r.value.last)
    ensures r.Ok? ==> r.value.first == Word(fullName[SkipSpace(fullName, 0)..])
  {
    var parts := Tokens(fullName);
    if parts == [] then Err(IndexError)
    else
      FirstToken(fullName);
      Ok(FullName(parts[0], parts[|parts| - 1]))
  }

  /** For a name laid out as words between whitespace gaps (which, by
      `LayoutOfTokens`, every name is), the first and last name are the first
      and last word, whatever the whitespace; a one-word name is both. */
  lemma {:induction false} SplitNameOfLayout(words: seq<string>, gaps: seq<string>)
    requires |words| >= 1
    requires AreWords(words) && AreGaps(words, gaps)
    ensures SplitName(Layout(words, gaps)) == Ok(FullName(words[0], words[|words| - 1]))
    ensures |words| == 1 ==> SplitName(Layout(words, gaps)).value.first == SplitName(Layout(words, gaps)).value.last
  {
    var name := Layout(words, gaps);
    TokensOfLayout(words, gaps);
    assert Tokens(name) == words;
    assert !AllSpace(name);
    var r := SplitName(name);
    assert r.Ok? && r.value == FullName(Tokens(name)[0], Tokens(name)[|Tokens(name)| - 1]);
  }

  /** `predictEthnicity(fullName)`: the classifier, given the last and the
      first name, returns a race code, which `ethnicityMap` turns into a
      label. A blank name fails before the classifier runs; an unknown race
      code fails at the map. */
  function PredictEthnicity(fullName: string, classify: (string, string) -> string): (r: Result<string>)
    ensures r == Err(IndexError) <==> AllSpace(fullName)
    ensures r.Err? && !AllSpace(fullName) ==>
      var n := SplitName(fullName).value;
      r.error == KeyError(classify(n.last, n.first))
    ensures r.Ok? ==> IsEthnicityLabel(r.value)
    ensures !AllSpace(fullName) ==>
      var n := SplitName(fullName).value;
      r == EthnicityLabel(classify(n.last, n.first))
  {
    match SplitName(fullName)
    case Err(e) => Err(e)
    case Ok(n) => EthnicityLabel(classify(n.last, n.first))
  }

  /** `genderDetector.get_gender(name.split()[0])`: the detector sees the
      first token only; a blank name is an `IndexError`. */
  function GuessGender(name: string, detect: string -> string): (r: Result<string>)
    ensures r.Err? <==> AllSpace(name)
    ensures r.Err? ==> r.error == IndexError
    ensures r.Ok? ==> r.value == detect(Tokens(name)[0])
  {
    match SplitName(name)
    case Err(e) => Err(e)
    case Ok(n) => Ok(detect(n.first))
  }

  /** A field as the dashboard cuts it out: no comma, no surrounding whitespace. */
  predicate IsField(s: string) {
    ',' !in s && IsStripped(s)
  }

  /** `s.split(',')[-1].strip()`: the text after the last comma (all of `s`
      when it has none), without the whitespace around it. */
  function LastField(s: string): (r: string)
    ensures IsField(r)
    ensures exists i :: OccursAt(r, s, i)
    ensures ',' !in s ==> r == Strip(s)
  {
    var segment := LastSplit(s, ',');
    var r := Strip(segment);
    var j := SkipSpace(segment, 0);
    var i := |s| - |segment| + j;
    assert s[i..i + |r|] == segment[j..j + |r|];
    assert OccursAt(r, s, i);
    r
  }

  /** For a comma-separated list of fields the last field is found whatever
      the fields before it are. */
  lemma {:induction false} LastFieldOfJoin(fields: seq<string>)
    requires |fields| >= 1
    requires forall i :: 0 <= i < |fields| ==> ',' !in fields[i]
    ensures LastField(Join(fields, ',')) == Strip(fields[|fields| - 1])
  {
    var s := Join(fields, ',');
    SplitJoin(fields, ',');
    assert LastSplit(s, ',') == fields[|fields| - 1];
  }

  /** `affiliation2country(affiliation)`: geocode the institution (the last
      field of the affiliation); when the geocoder finds an address, the
      country is the last field of that address, and otherwise there is none. */
  function AffiliationToCountry(affiliation: string, geocode: string -> Option<string>): (r: Option<string>)
    ensures r.None? <==> geocode(LastField(affiliation)).None?
    ensures r.Some? ==> IsField(r.value)
    ensures r.Some? ==> exists i :: OccursAt(r.value, geocode(LastField(affiliation)).value, i)
    ensures r.Some? ==> r.value == LastField(geocode(LastField(affiliation)).value)
  {
    var institution := LastField(affiliation);
    match geocode(institution)
    case None => None
    case Some(address) => Some(LastField(address))
  }
}
