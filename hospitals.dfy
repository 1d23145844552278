/** The allow-list of centre names and its two helpers: the exact-match test
    and the "did you mean" suggestions. */
module Hospitals {
  import opened Strings
  import Seqs

  /** VALID_HOSPITALS, in list order. */
  const ValidHospitals: seq<string> := [
    "Chandigarh Sec 44",
    "Chandigarh Zirakpur",
    "Motherhood Hospital - Noida",
    "Motherhood Hospital - Hebbal",
    "Motherhood Hospital - Indore",
    "Motherhood Hospital - Mohali",
    "Motherhood Hospital - Mysore",
    "Motherhood Hospital - Chennai",
    "Motherhood Hospital - Kharadi",
    "Motherhood Hospital - Khargar",
    "Motherhood Hospital - Kolkata",
    "Motherhood Hospital - Kothnur",
    "CHANDIGARH IVF CLINIC - Sec 43",
    "Motherhood Hospital - Gurugram",
    "Motherhood Hospital - Sarjapur",
    "Motherhood Hospital - Lullanagar",
    "Motherhood Hospital - Whitefield",
    "Motherhood Hospital - HRBR Layout",
    "Motherhood Hospital - Indiranagar",
    "Motherhood Hospital - Banashankari",
    "Motherhood Hospital - Electronic City",
    "Motherhood Hospital - Noida Extension",
    "Women's Centre by Motherhood Hospital - Coimbatore"
  ]

  /** isValidHospital: exact membership, case-sensitive, without trimming. */
  predicate IsValidHospital(name: string)
  {
    name in ValidHospitals
  }

  /** The list holds 23 different names. */
  lemma ValidHospitalsDistinct()
    ensures |ValidHospitals| == 23
    ensures forall i, j :: 0 <= i < j < |ValidHospitals| ==> ValidHospitals[i] != ValidHospitals[j]
  {
  }

  /** Nothing is trimmed: an entry with a leading space is not on the list. */
  lemma LeadingSpaceIsInvalid()
    ensures !IsValidHospital(" Chandigarh Sec 44")
  {
  }

  /** Nothing is trimmed: an entry with a trailing space is not on the list. */
  lemma TrailingSpaceIsInvalid()
    ensures !IsValidHospital("Chandigarh Sec 44 ")
  {
  }

  /** The one entry written in capitals is on the list as written. */
  lemma CapitalisedEntryIsValid()
    ensures IsValidHospital("CHANDIGARH IVF CLINIC - Sec 43")
  {
  }

  /** Case matters: the same entry in lower case is not on the list. */
  lemma CaseSensitive()
    ensures !IsValidHospital("chandigarh ivf clinic - sec 43")
  {
  }

  /** The filter condition of getSimilarHospitals for the lower-cased input
      `q`: one lower-cased name contains the other. */
  predicate IsSimilar(q: string, hospital: string)
  {
    Includes(Lower(hospital), q) || Includes(q, Lower(hospital))
  }

  function SimilarTo(q: string): string -> bool
  {
    h => IsSimilar(q, h)
  }

  /** The entries of `list` similar to `input`, in list order. */
  function Matches(list: seq<string>, input: string): seq<string>
  {
    Seqs.Filter(SimilarTo(Lower(input)), list)
  }

  /** The first three entries of `list` similar to `input`. */
  function SuggestFrom(list: seq<string>, input: string): (r: seq<string>)
    ensures |r| <= 3
    ensures forall h :: h in r ==> h in list && IsSimilar(Lower(input), h)
  {
    var m := Matches(list, input);
    if |m| <= 3 then m else m[..3]
  }

  /** getSimilarHospitals: the first three allow-list entries similar to `input`. */
  function GetSimilarHospitals(input: string): seq<string>
  {
    SuggestFrom(ValidHospitals, input)
  }

  /** The number of entries similar to `input` strictly before position `p`. */
  function MatchesBefore(list: seq<string>, input: string, p: nat): nat
    requires p <= |list|
  {
    |Matches(list[..p], input)|
  }

  /** A similar entry at position `p` is suggested, as suggestion number
      `MatchesBefore(list, input, p)`, whenever fewer than three similar
      entries come before it. */
  lemma SuggestedAt(list: seq<string>, input: string, p: nat)
    requires p < |list| && IsSimilar(Lower(input), list[p])
    requires MatchesBefore(list, input, p) < 3
    ensures MatchesBefore(list, input, p) < |SuggestFrom(list, input)|
    ensures SuggestFrom(list, input)[MatchesBefore(list, input, p)] == list[p]
  {
    Seqs.FilterAt(SimilarTo(Lower(input)), list, p);
  }

  /** Suggestion number `j` is a similar entry with exactly `j` similar
      entries before it: the suggestions keep list order and skip nothing. */
  lemma SuggestionOrigin(list: seq<string>, input: string, j: nat)
    requires j < |SuggestFrom(list, input)|
    ensures exists p :: 0 <= p < |list| && list[p] == SuggestFrom(list, input)[j]
                        && IsSimilar(Lower(input), list[p]) && MatchesBefore(list, input, p) == j
  {
    Seqs.FilterOrigin(SimilarTo(Lower(input)), list, j);
  }

  /** Fewer than three suggestions means every similar entry was suggested. */
  lemma FewSuggestionsAreAllMatches(list: seq<string>, input: string, h: string)
    requires |SuggestFrom(list, input)| < 3
    requires h in list && IsSimilar(Lower(input), h)
    ensures h in SuggestFrom(list, input)
  {
    Seqs.FilterKeeps(SimilarTo(Lower(input)), list, h);
  }

  /** There are no suggestions exactly when no entry is similar. */
  lemma NoSuggestionsIffNoMatch(list: seq<string>, input: string)
    ensures SuggestFrom(list, input) == [] <==> forall h :: h in list ==> !IsSimilar(Lower(input), h)
  {
    Seqs.FilterEmpty(SimilarTo(Lower(input)), list);
  }

  /** The empty input is contained in every name, so it suggests the first
      three entries. */
  lemma EmptyInputSuggestsFirstThree(list: seq<string>)
    requires |list| >= 3
    ensures SuggestFrom(list, "") == list[..3]
  {
    forall h | h in list ensures SimilarTo(Lower(""))(h) {
      IncludesEmpty(Lower(h));
    }
    Seqs.FilterAll(SimilarTo(Lower("")), list);
  }

  /** On the allow-list itself, the empty input suggests its first three names. */
  lemma EmptyInputSuggestions()
    ensures GetSimilarHospitals("") == ValidHospitals[..3]
  {
    EmptyInputSuggestsFirstThree(ValidHospitals);
  }

  /** The first three names on the list. */
  lemma FirstThreeHospitals()
    ensures ValidHospitals[..3] == ["Chandigarh Sec 44", "Chandigarh Zirakpur", "Motherhood Hospital - Noida"]
  {
  }
}
