/**
 * The registry of recognised culture names: every culture the platform
 * knows, by its full name and by its two-letter ISO language code, compared
 * without regard to case.  The platform's catalogue is an input.
 */
module Cultures {
  import opened Text

  /** What the registry reads from one entry of the platform's culture catalogue. */
  datatype CultureInfo = CultureInfo(name: string, twoLetterIsoLanguageName: string)

  /**
   * The culture-name set built once per process.  A case-insensitive set is
   * represented by the upper-case folds of its members, so membership of a
   * name is membership of its fold.  Cultures with an empty name (the
   * invariant culture) contribute nothing.
   */
  function CreateCultureNames(cultures: seq<CultureInfo>): (names: set<string>)
    ensures forall c :: c in cultures && c.name != "" ==>
      ToUpper(c.name) in names && ToUpper(c.twoLetterIsoLanguageName) in names
    ensures forall n :: n in names ==>
      (exists c :: c in cultures && c.name != "" &&
         (n == ToUpper(c.name) || n == ToUpper(c.twoLetterIsoLanguageName)))
  {
    if cultures == [] then {}
    else
      var c := cultures[0];
      var rest := CreateCultureNames(cultures[1..]);
      assert forall d :: d in cultures[1..] ==> d in cultures;
      if c.name == "" then rest
      else {ToUpper(c.twoLetterIsoLanguageName), ToUpper(c.name)} + rest
  }

  /** Whether a candidate name is in the registry, whatever its case. */
  predicate CultureExists(cultureNames: set<string>, name: string)
  {
    ToUpper(name) in cultureNames
  }

  /**
   * A name is accepted exactly when it equals, ignoring case, the full name
   * or the two-letter code of some named culture of the catalogue.
   */
  lemma CultureExistsIff(cultures: seq<CultureInfo>, name: string)
    ensures CultureExists(CreateCultureNames(cultures), name) <==>
      (exists c :: c in cultures && c.name != "" &&
         (EqualsIgnoreCase(name, c.name) || EqualsIgnoreCase(name, c.twoLetterIsoLanguageName)))
  {
  }

  /** The registry's answer does not depend on the case of the candidate. */
  lemma CultureExistsIgnoresCase(cultures: seq<CultureInfo>, a: string, b: string)
    requires ToLower(a) == ToLower(b)
    ensures CultureExists(CreateCultureNames(cultures), a) == CultureExists(CreateCultureNames(cultures), b)
  {
    IgnoreCaseIsLowerCaseEquality(a, b);
  }
}
