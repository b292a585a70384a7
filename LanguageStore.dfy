/**
 * The language-pack store: the table of loaded packs, the scan that builds
 * it from the files of the language directory, the selection of the
 * current culture, and key lookup in the current pack.
 */
module LanguageStore {
  import opened Wrappers
  import opened Text
  import opened Cultures

  /**
   * One loaded language pack.  `entries` is the parsed key/text table;
   * keys are expected in lower case, because lookups lower-case the key.
   */
  datatype Language = Language(culture: string, displayName: string, entries: map<string, string>)
  {
    /** The pack's text for an exact key, or the empty string when the key is missing. */
    function Data(key: string): string
    {
      if key in entries then entries[key] else ""
    }
  }

  /**
   * One `*.lang` file of the language directory, as the scan sees it: the
   * base name of the file (absent when the path has none), the display name
   * of the culture it is for, and the parsed table (None when parsing
   * produced no data).
   */
  datatype LangFile = LangFile(baseName: Option<string>, displayName: string, data: Option<map<string, string>>)

  /** The fatal conditions of loading, each of which ends the process. */
  datatype LoadError =
    | ExtractionFailed     // the bundled archive could not be unpacked
    | TranslationsMissing  // the language directory does not exist
    | NoLanguagesLoaded    // the scan admitted no pack

  datatype LoadOutcome = Loaded | Fatal(error: LoadError)

  /** Why a lookup cannot reach a pack: the table indexer throws in both cases. */
  datatype DataError = NoCurrentCulture | CultureNotLoaded

  /** The status the process exits with on a fatal load error. */
  function ExitCode(e: LoadError): (code: int)
    ensures code == 0 <==> e == NoLanguagesLoaded
    ensures code == 0 || code == 1
  {
    match e
    case ExtractionFailed => 1
    case TranslationsMissing => 1
    case NoLanguagesLoaded => 0
  }

  /** The cultures that key the table (compared exactly, case-sensitively). */
  function Keys(table: seq<Language>): set<string>
  {
    set l | l in table :: l.culture
  }

  /** No culture keys two entries of the table. */
  predicate DistinctCultures(table: seq<Language>)
  {
    forall i, j :: 0 <= i < j < |table| ==> table[i].culture != table[j].culture
  }

  /** Every entry of the table is for a registered culture. */
  predicate AllRegistered(cultureNames: set<string>, table: seq<Language>)
  {
    forall l :: l in table ==> CultureExists(cultureNames, l.culture)
  }

  /** `FirstOrDefault` over the table's values, in insertion order. */
  function FirstOrDefault(table: seq<Language>, p: Language -> bool): (r: Option<Language>)
    ensures r.Some? ==> exists i :: 0 <= i < |table| && table[i] == r.value && p(table[i]) &&
                                    (forall j :: 0 <= j < i ==> !p(table[j]))
    ensures r.None? ==> forall l :: l in table ==> !p(l)
  {
    if table == [] then None
    else if p(table[0]) then Some(table[0])
    else
      var r := FirstOrDefault(table[1..], p);
      assert r.Some? ==> exists i :: 1 <= i < |table| && table[i] == r.value && p(table[i]) &&
                                     (forall j :: 1 <= j < i ==> !p(table[j]));
      r
  }

  /** The pack whose culture is exactly `culture`. */
  function FindByCulture(table: seq<Language>, culture: string): (r: Option<Language>)
    ensures r.Some? <==> culture in Keys(table)
    ensures r.Some? ==> r.value in table && r.value.culture == culture
  {
    var r := FirstOrDefault(table, (l: Language) => l.culture == culture);
    assert r.None? ==> forall l :: l in table ==> l.culture != culture;
    r
  }

  /** Index `i` holds the earliest pack whose display name is exactly `displayName`. */
  predicate FirstWithDisplayName(table: seq<Language>, displayName: string, i: int)
  {
    && 0 <= i < |table|
    && table[i].displayName == displayName
    && forall j :: 0 <= j < i ==> table[j].displayName != displayName
  }

  /** The first pack whose display name is exactly `displayName`. */
  function FindByDisplayName(table: seq<Language>, displayName: string): (r: Option<Language>)
    ensures r.Some? <==> exists l :: l in table && l.displayName == displayName
    ensures r.Some? ==> r.value in table && r.value.displayName == displayName
    ensures r.Some? ==> exists i :: FirstWithDisplayName(table, displayName, i) && table[i] == r.value
  {
    FirstOrDefault(table, (l: Language) => l.displayName == displayName)
  }

  /**
   * Whether the menu entry `displayName` stands for the configured default:
   * true exactly when the earliest pack with that display name has the
   * default culture.
   */
  predicate IsDefault(table: seq<Language>, defaultCulture: string, displayName: string): (b: bool)
    ensures b <==> exists i :: FirstWithDisplayName(table, displayName, i) && table[i].culture == defaultCulture
  {
    match FindByDisplayName(table, displayName)
    case None => false
    case Some(l) => l.culture == defaultCulture
  }

  /** The text for a key in a pack: the key is lower-cased first. */
  function Lookup(pack: Language, key: string): string
  {
    pack.Data(ToLower(key))
  }

  /** Lookup is case-insensitive in the key. */
  lemma LookupIgnoresCase(pack: Language, a: string, b: string)
    requires EqualsIgnoreCase(a, b)
    ensures Lookup(pack, a) == Lookup(pack, b)
  {
    IgnoreCaseIsLowerCaseEquality(a, b);
  }

  // ---------------------------------------------------------------- the scan

  /** Whether `file` is a pack for `culture` that the scan can admit (ignoring duplicates). */
  predicate Admissible(cultureNames: set<string>, file: LangFile, culture: string)
  {
    file.baseName == Some(culture) && CultureExists(cultureNames, culture) && file.data.Some?
  }

  /** Whether `files[i]` is the first admissible file for `culture`. */
  predicate FirstAdmissible(cultureNames: set<string>, files: seq<LangFile>, i: int, culture: string)
  {
    0 <= i < |files| && Admissible(cultureNames, files[i], culture) &&
    forall j :: 0 <= j < i ==> !Admissible(cultureNames, files[j], culture)
  }

  /**
   * One step of the scan: a file whose base name is a registered culture
   * not yet in the table, and whose parsed data is present, is appended;
   * any other file leaves the table as it is.
   */
  function Admit(cultureNames: set<string>, table: seq<Language>, file: LangFile): (r: seq<Language>)
    ensures table <= r && |r| <= |table| + 1
    ensures |r| == |table| + 1 <==>
      file.baseName.Some? && CultureExists(cultureNames, file.baseName.value) &&
      file.baseName.value !in Keys(table) && file.data.Some?
    ensures |r| == |table| + 1 ==> r[|table|] == Language(file.baseName.value, file.displayName, file.data.value)
  {
    match file.baseName
    case None => table
    case Some(culture) =>
      if CultureExists(cultureNames, culture) && culture !in Keys(table) && file.data.Some?
      then table + [Language(culture, file.displayName, file.data.value)]
      else table
  }

  /**
   * The table after scanning `files` in order, starting from `table`.  The
   * table only grows, entries already present are never replaced, and
   * distinct, registered keys stay so.
   */
  function Fold(cultureNames: set<string>, table: seq<Language>, files: seq<LangFile>): (r: seq<Language>)
    ensures table <= r && |r| <= |table| + |files|
    ensures DistinctCultures(table) ==> DistinctCultures(r)
    ensures AllRegistered(cultureNames, table) ==> AllRegistered(cultureNames, r)
    decreases |files|
  {
    if files == [] then table
    else
      var before := Fold(cultureNames, table, files[..|files| - 1]);
      var r := Admit(cultureNames, before, files[|files| - 1]);
      assert |r| == |before| + 1 ==> r[|before|].culture !in Keys(before);
      assert forall i :: 0 <= i < |before| ==> before[i].culture in Keys(before);
      r
  }

  /** The table the load scan builds from the files of the language directory. */
  function Scan(cultureNames: set<string>, files: seq<LangFile>): (r: seq<Language>)
    ensures DistinctCultures(r) && AllRegistered(cultureNames, r)
    ensures |r| <= |files|
  {
    Fold(cultureNames, [], files)
  }

  /** Scanning a concatenation is scanning the second part from the table of the first. */
  lemma {:induction false} FoldAppend(cultureNames: set<string>, table: seq<Language>, a: seq<LangFile>, b: seq<LangFile>)
    ensures Fold(cultureNames, table, a + b) == Fold(cultureNames, Fold(cultureNames, table, a), b)
    decreases |b|
  {
    if b == [] {
      assert a + b == a;
    } else {
      var b' := b[..|b| - 1];
      assert (a + b)[..|a + b| - 1] == a + b';
      assert (a + b)[|a + b| - 1] == b[|b| - 1];
      FoldAppend(cultureNames, table, a, b');
    }
  }

  /** A longer scan extends a shorter one: the table never shrinks and earlier entries stay. */
  lemma ScanPrefix(cultureNames: set<string>, files: seq<LangFile>, n: nat)
    requires n <= |files|
    ensures Scan(cultureNames, files[..n]) <= Scan(cultureNames, files)
  {
    assert files == files[..n] + files[n..];
    FoldAppend(cultureNames, [], files[..n], files[n..]);
  }

  /**
   * A file the scan rejects (no base name, unregistered name, a culture
   * already in the table, or no parsed data) does not stop the scan: the
   * result is the same as if the file were not there.
   */
  lemma SkippedFileIsIgnored(cultureNames: set<string>, files: seq<LangFile>, i: nat)
    requires i < |files|
    requires files[i].baseName.None? || !CultureExists(cultureNames, files[i].baseName.value) ||
             files[i].baseName.value in Keys(Scan(cultureNames, files[..i])) || files[i].data.None?
    ensures Scan(cultureNames, files) == Scan(cultureNames, files[..i] + files[i + 1..])
  {
    var pre, rest := files[..i], files[i + 1..];
    assert files == (pre + [files[i]]) + rest;
    FoldAppend(cultureNames, [], pre + [files[i]], rest);
    assert (pre + [files[i]])[..i] == pre;
    FoldAppend(cultureNames, [], pre, rest);
  }

  /** Every admissible file's culture ends up a key of the table. */
  lemma {:induction false} AdmissibleIsAdmitted(cultureNames: set<string>, files: seq<LangFile>, i: nat, culture: string)
    requires i < |files| && Admissible(cultureNames, files[i], culture)
    ensures culture in Keys(Scan(cultureNames, files))
    decreases |files|
  {
    var pre := files[..|files| - 1];
    var before := Scan(cultureNames, pre);
    assert Scan(cultureNames, files) == Admit(cultureNames, before, files[|files| - 1]);
    if i < |pre| {
      AdmissibleIsAdmitted(cultureNames, pre, i, culture);
      var l :| l in before && l.culture == culture;
      assert l in Scan(cultureNames, files);
    } else if culture in Keys(before) {
      var l :| l in before && l.culture == culture;
      assert l in Scan(cultureNames, files);
    } else {
      assert Scan(cultureNames, files)[|before|].culture == culture;
    }
  }

  /** Every entry of the table comes from the first admissible file for its culture. */
  lemma {:induction false} EntryComesFromFirstFile(cultureNames: set<string>, files: seq<LangFile>, k: nat)
    requires k < |Scan(cultureNames, files)|
    ensures var l := Scan(cultureNames, files)[k];
      exists i :: FirstAdmissible(cultureNames, files, i, l.culture) &&
                  l == Language(l.culture, files[i].displayName, files[i].data.value)
    decreases |files|
  {
    var pre := files[..|files| - 1];
    var before := Scan(cultureNames, pre);
    var l := Scan(cultureNames, files)[k];
    assert Scan(cultureNames, files) == Admit(cultureNames, before, files[|files| - 1]);
    if k < |before| {
      EntryComesFromFirstFile(cultureNames, pre, k);
      var i :| FirstAdmissible(cultureNames, pre, i, l.culture) &&
               l == Language(l.culture, pre[i].displayName, pre[i].data.value);
      assert FirstAdmissible(cultureNames, files, i, l.culture);
    } else {
      var i := |files| - 1;
      assert l.culture !in Keys(before);
      forall j | 0 <= j < i
        ensures !Admissible(cultureNames, files[j], l.culture)
      {
        if Admissible(cultureNames, files[j], l.culture) {
          assert pre[j] == files[j];
          AdmissibleIsAdmitted(cultureNames, pre, j, l.culture);
        }
      }
      assert FirstAdmissible(cultureNames, files, i, l.culture);
    }
  }

  /** First occurrence wins: the first admissible file for a culture is the one in the table. */
  lemma FirstFileWins(cultureNames: set<string>, files: seq<LangFile>, i: nat, culture: string)
    requires FirstAdmissible(cultureNames, files, i, culture)
    ensures Language(culture, files[i].displayName, files[i].data.value) in Scan(cultureNames, files)
  {
    var table := Scan(cultureNames, files);
    AdmissibleIsAdmitted(cultureNames, files, i, culture);
    var k :| 0 <= k < |table| && table[k].culture == culture;
    EntryComesFromFirstFile(cultureNames, files, k);
    var i' :| FirstAdmissible(cultureNames, files, i', culture) &&
              table[k] == Language(culture, files[i'].displayName, files[i'].data.value);
    assert i' == i;
  }

  /** A culture keys the table exactly when some file is admissible for it. */
  lemma ScanKeys(cultureNames: set<string>, files: seq<LangFile>, culture: string)
    ensures culture in Keys(Scan(cultureNames, files)) <==>
      exists i :: 0 <= i < |files| && Admissible(cultureNames, files[i], culture)
  {
    var table := Scan(cultureNames, files);
    if culture in Keys(table) {
      var k :| 0 <= k < |table| && table[k].culture == culture;
      EntryComesFromFirstFile(cultureNames, files, k);
    }
    if i :| 0 <= i < |files| && Admissible(cultureNames, files[i], culture) {
      AdmissibleIsAdmitted(cultureNames, files, i, culture);
    }
  }

  /** Which cultures are loaded does not depend on the order the directory lists the files in. */
  lemma ScanKeysIgnoreOrder(cultureNames: set<string>, files: seq<LangFile>, files': seq<LangFile>)
    requires multiset(files) == multiset(files')
    ensures Keys(Scan(cultureNames, files)) == Keys(Scan(cultureNames, files'))
  {
    forall culture
      ensures culture in Keys(Scan(cultureNames, files)) <==> culture in Keys(Scan(cultureNames, files'))
    {
      ScanKeys(cultureNames, files, culture);
      ScanKeys(cultureNames, files', culture);
      if i :| 0 <= i < |files| && Admissible(cultureNames, files[i], culture) {
        assert files[i] in multiset(files');
        var i' :| 0 <= i' < |files'| && files'[i'] == files[i];
      }
      if i' :| 0 <= i' < |files'| && Admissible(cultureNames, files'[i'], culture) {
        assert files'[i'] in multiset(files);
        var i :| 0 <= i < |files| && files[i] == files'[i'];
      }
    }
  }

  /**
   * The table is keyed case-sensitively although the registry is not: two
   * files whose names differ only in case are both loaded, as separate entries.
   */
  lemma CaseVariantsAreSeparateEntries(cultureNames: set<string>, files: seq<LangFile>, i: nat, j: nat)
    requires i < |files| && j < |files|
    requires files[i].baseName.Some? && files[j].baseName.Some?
    requires files[i].baseName.value != files[j].baseName.value
    requires EqualsIgnoreCase(files[i].baseName.value, files[j].baseName.value)
    requires CultureExists(cultureNames, files[i].baseName.value)
    requires files[i].data.Some? && files[j].data.Some?
    ensures files[i].baseName.value in Keys(Scan(cultureNames, files))
    ensures files[j].baseName.value in Keys(Scan(cultureNames, files))
  {
    AdmissibleIsAdmitted(cultureNames, files, i, files[i].baseName.value);
    AdmissibleIsAdmitted(cultureNames, files, j, files[j].baseName.value);
  }

  // ------------------------------------------------------- switching culture

  /** The configured default culture and the current culture after a switch, and whether a restart was asked for. */
  datatype Switch = Switch(defaultCulture: string, currentCulture: Option<string>, restartRequested: bool)

  /**
   * Choosing a language by its display name: when a pack has that name, the
   * default and the current culture both become its culture and a restart is
   * requested if the user confirms; otherwise nothing changes.
   */
  function SwitchLanguage(table: seq<Language>, defaultCulture: string, currentCulture: Option<string>,
                          displayName: string, confirm: bool): (r: Switch)
    ensures r.restartRequested ==> confirm
    ensures FindByDisplayName(table, displayName).None? ==>
      r == Switch(defaultCulture, currentCulture, false)
    ensures FindByDisplayName(table, displayName).Some? ==>
      && r.currentCulture == Some(r.defaultCulture)
      && r.defaultCulture in Keys(table)
      && IsDefault(table, r.defaultCulture, displayName)
      && r.restartRequested == confirm
  {
    match FindByDisplayName(table, displayName)
    case None => Switch(defaultCulture, currentCulture, false)
    case Some(l) => Switch(l.culture, Some(l.culture), confirm)
  }

  // ------------------------------------------------------------ the manager

  /** The process-wide localization state: the registry, the pack table, the current and the default culture. */
  class LanguageManager {
    const cultureNames: set<string>
    var languages: seq<Language>
    var currentCulture: Option<string>
    /** The default culture held by the application's configuration. */
    var defaultCulture: string

    constructor (cultures: seq<CultureInfo>, configuredDefault: string)
      ensures cultureNames == CreateCultureNames(cultures)
      ensures languages == [] && currentCulture == None && defaultCulture == configuredDefault
    {
      cultureNames := CreateCultureNames(cultures);
      languages := [];
      currentCulture := None;
      defaultCulture := configuredDefault;
    }

    /**
     * Builds the pack table from the directory listing (or the error that
     * preparing the directory ended in), then activates the default
     * culture when a pack for it was loaded.
     */
    method Load(listing: Result<seq<LangFile>, LoadError>) returns (outcome: LoadOutcome)
      modifies this
      ensures defaultCulture == old(defaultCulture)
      ensures listing.Failure? ==>
        languages == [] && outcome == Fatal(listing.error) && currentCulture == old(currentCulture)
      ensures listing.Success? ==> languages == Scan(cultureNames, listing.value)
      ensures listing.Success? && languages == [] ==>
        outcome == Fatal(NoLanguagesLoaded) && currentCulture == old(currentCulture)
      ensures listing.Success? && languages != [] ==>
        && outcome == Loaded
        && currentCulture == (if defaultCulture in Keys(languages) then Some(defaultCulture) else old(currentCulture))
    {
      languages := [];
      if listing.Failure? {
        return Fatal(listing.error);
      }
      var files := listing.value;
      var i := 0;
      while i < |files|
        invariant 0 <= i <= |files|
        invariant languages == Scan(cultureNames, files[..i])
        invariant currentCulture == old(currentCulture) && defaultCulture == old(defaultCulture)
      {
        var culture := files[i].baseName;
        if culture.Some? && CultureExists(cultureNames, culture.value) && culture.value !in Keys(languages) {
          var data := files[i].data;
          if data.Some? {
            languages := languages + [Language(culture.value, files[i].displayName, data.value)];
          }
        }
        assert files[..i + 1][..i] == files[..i];
        i := i + 1;
      }
      assert files[..i] == files;
      if |languages| == 0 {
        return Fatal(NoLanguagesLoaded);
      }
      var defaultLanguage := FindByCulture(languages, defaultCulture);
      if defaultLanguage.Some? {
        currentCulture := Some(defaultLanguage.value.culture);
      }
      outcome := Loaded;
    }

    /** The pack of the current culture, or why the table indexer would throw. */
    function CurrentPack(): (r: Result<Language, DataError>)
      reads this
      ensures r.Success? <==> currentCulture.Some? && currentCulture.value in Keys(languages)
      ensures r.Success? ==> r.value in languages && r.value.culture == currentCulture.value
      ensures currentCulture.None? ==> r == Failure(NoCurrentCulture)
    {
      match currentCulture
      case None => Failure(NoCurrentCulture)
      case Some(c) =>
        match FindByCulture(languages, c)
        case None => Failure(CultureNotLoaded)
        case Some(pack) => Success(pack)
    }

    /**
     * The translated text for a key: the exact stored text of the
     * lower-cased key in the current culture's pack, or the empty string
     * when the pack has no such key.
     */
    function Data(key: string): (r: Result<string, DataError>)
      reads this
      ensures r.Success? <==> currentCulture.Some? && currentCulture.value in Keys(languages)
      ensures r.Success? ==>
        var entries := CurrentPack().value.entries;
        && (ToLower(key) in entries ==> r.value == entries[ToLower(key)])
        && (ToLower(key) !in entries ==> r.value == "")
    {
      match CurrentPack()
      case Failure(e) => Failure(e)
      case Success(pack) => Success(Lookup(pack, key))
    }

    /** Makes the language with this display name the default and current one. */
    method SetDefaultLanguage(displayName: string, confirm: bool) returns (restartRequested: bool)
      modifies this
      ensures languages == old(languages)
      ensures Switch(defaultCulture, currentCulture, restartRequested) ==
              SwitchLanguage(old(languages), old(defaultCulture), old(currentCulture), displayName, confirm)
    {
      var language := FindByDisplayName(languages, displayName);
      restartRequested := false;
      if language.Some? {
        defaultCulture := language.value.culture;
        currentCulture := Some(language.value.culture);
        restartRequested := confirm;
      }
    }
  }

  /** A lookup gives the same answer for keys that differ only in case. */
  lemma DataIgnoresCase(m: LanguageManager, a: string, b: string)
    requires EqualsIgnoreCase(a, b)
    ensures m.Data(a) == m.Data(b)
  {
    IgnoreCaseIsLowerCaseEquality(a, b);
  }
}
