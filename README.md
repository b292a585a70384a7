# Borderless Gaming localization core, modelled in Dafny

This project models `LanguageManager`, the localization subsystem of Borderless
Gaming. It covers four parts:

- the registry of recognised culture names;
- the load scan that builds the table of language packs from the `*.lang`
  files and picks the current culture;
- key lookup (`Data`) in the current culture's pack;
- the recursive translation of a window's element tree, and the
  language-menu click handler that switches the default and current culture.

Modules, one per component:

- `Wrappers`: `Option` (a null reference) and `Result` (a value or the
  exception the source would throw).
- `Text`: ordinal ignore-case comparison, `ToLower`, and
  `string.IsNullOrWhiteSpace`.
- `Cultures`: `CreateCultureNames` and `CultureExists`. The case-insensitive
  set holds the upper-case fold of each name.
- `LanguageStore`:
  - the `Language` pack and the `LangFile` seen by the scan;
  - the scan as a fold (`Admit`, `Fold`, `Scan`) with its lemmas;
  - `SwitchLanguage`;
  - the class `LanguageManager`, whose fields are the process-wide state
    (registry, pack table, current culture, configured default). Its `Load`
    builds the table in a loop proved equal to `Scan`. It also has `Data` and
    `SetDefaultLanguage`.
- `Translator`: the element tree as a closed datatype (controls with children,
  an optional context menu and optional tool-strip items; plain items; menu
  items with drop-down items), the four `Translate` overloads as recursive
  functions over the resolved pack, an element-by-element description of the
  result (`ControlTranslatedFrom`) proved to hold for the walk and to
  determine it, and the lemmas for coverage, idempotence and shape.
- `LanguageMenu`:
  - the click handler as a transition function `Click` over the checked flags
    and the two cultures;
  - `LanguageSelected` as a loop;
  - the class `LanguageMenu`, whose `Setup` constructor creates the flags and
    whose `OnClick` method updates them in place, proved equal to `Click`.

Modelling choices that follow the code:

- The pack table is keyed case-sensitively, while the registry ignores case.
  So files `en.lang` and `EN.lang` are both loaded.
- The table is a sequence in insertion order, because the default is chosen
  with `FirstOrDefault` over the table's values.
- A missing translation key is the empty string. This is the same as null for
  the only test applied to it (`IsNullOrWhiteSpace`).
- A pack file that fails to parse does not block a later file for the same
  culture. Only a pack actually admitted makes later ones duplicates.
- When the default culture has no pack, `Load` leaves the current culture as
  it was. Every later lookup then fails: `Data` returns `Failure` where the
  source's dictionary indexer throws.
- `LanguageSelected` returns the flag of the last item, not whether any item
  is checked. Even so, once the user has clicked, at least one item is always
  checked (`MenuKeepsASelection`). The reason is that every checked item is
  the default's item (`CheckedAreDefault`), and the click handler preserves
  this.
- The zero-packs fatal path exits with status 0 and the two directory paths
  exit with status 1 (`ExitCode`).

## Model

| member | source | states |
|---|---|---|
| `Text.IgnoreCaseIsLowerCaseEquality` | BorderlessGaming.Logic/Core/LanguageManager.cs:30 | two names are equal under the ordinal ignore-case comparer exactly when their lower-case forms are equal |
| `Cultures.CreateCultureNames` | BorderlessGaming.Logic/Core/LanguageManager.cs:25-34 | the registry holds the full name and the two-letter code of every culture with a non-empty name, and nothing else |
| `Cultures.CultureExistsIff` | BorderlessGaming.Logic/Core/LanguageManager.cs:102-105 | a name is accepted exactly when it equals, ignoring case, the name or two-letter code of some named culture |
| `Cultures.CultureExistsIgnoresCase` | BorderlessGaming.Logic/Core/LanguageManager.cs:30 | the registry's answer does not depend on the case of the candidate name |
| `LanguageStore.ExitCode` | BorderlessGaming.Logic/Core/LanguageManager.cs:136-164 | exit status is 0 exactly for the no-packs-loaded path and 1 for the extraction and missing-directory paths |
| `LanguageStore.FirstOrDefault` | BorderlessGaming.Logic/Core/LanguageManager.cs:165 | the result is the first pack in table order that satisfies the predicate, or none when no pack does |
| `LanguageStore.FindByCulture` | BorderlessGaming.Logic/Core/LanguageManager.cs:165 | a pack is found exactly when the culture is a key of the table, and it has that culture |
| `LanguageStore.FindByDisplayName` | BorderlessGaming.Logic/Core/LanguageManager.cs:230 | a pack is found exactly when some pack has that display name; the one found is the earliest pack in table order with that display name |
| `LanguageStore.IsDefault` | BorderlessGaming.Logic/Core/LanguageManager.cs:213-226 | an entry is the default's exactly when the earliest pack with its display name has the configured default culture; false when no pack has that display name |
| `LanguageStore.LookupIgnoresCase` | BorderlessGaming.Logic/Core/LanguageManager.cs:109 | a lookup in a pack gives the same text for keys that differ only in case |
| `LanguageStore.Admit` | BorderlessGaming.Logic/Core/LanguageManager.cs:149-157 | the table only grows; it gains one entry (culture, display name, data) exactly when the name is present, registered, not yet a key and the data is non-null |
| `LanguageStore.Fold` | BorderlessGaming.Logic/Core/LanguageManager.cs:147-159 | the scan extends the table it starts from, and keeps keys distinct and registered |
| `LanguageStore.Scan` | BorderlessGaming.Logic/Core/LanguageManager.cs:147-159 | the loaded table has distinct keys, all in the registry, and at most one entry per file |
| `LanguageStore.FoldAppend` | BorderlessGaming.Logic/Core/LanguageManager.cs:147 | scanning a concatenation is scanning the second part from the table of the first |
| `LanguageStore.ScanPrefix` | BorderlessGaming.Logic/Core/LanguageManager.cs:147-159 | the table after a prefix of the files is a prefix of the final table: entries are never removed or replaced |
| `LanguageStore.SkippedFileIsIgnored` | BorderlessGaming.Logic/Core/LanguageManager.cs:150-157 | a file with no name, an unregistered name, an already-loaded culture or null data does not stop the scan: the result equals the scan without it |
| `LanguageStore.AdmissibleIsAdmitted` | BorderlessGaming.Logic/Core/LanguageManager.cs:150-156 | every registered name with non-null data ends up a key of the table |
| `LanguageStore.EntryComesFromFirstFile` | BorderlessGaming.Logic/Core/LanguageManager.cs:150-156 | every entry is built from the first file with its name that has non-null data |
| `LanguageStore.FirstFileWins` | BorderlessGaming.Logic/Core/LanguageManager.cs:150-156 | the first admissible file for a culture is the one whose pack is in the table |
| `LanguageStore.ScanKeys` | BorderlessGaming.Logic/Core/LanguageManager.cs:147-159 | a culture is loaded exactly when some file for it is registered and has non-null data |
| `LanguageStore.ScanKeysIgnoreOrder` | BorderlessGaming.Logic/Core/LanguageManager.cs:147 | the set of loaded cultures does not depend on the order of the directory listing |
| `LanguageStore.CaseVariantsAreSeparateEntries` | BorderlessGaming.Logic/Core/LanguageManager.cs:150 | two files whose names differ only in case are both loaded, as separate keys |
| `LanguageStore.SwitchLanguage` | BorderlessGaming.Logic/Core/LanguageManager.cs:228-246 | when a pack has the display name, default and current culture both become its culture, which is then the default, and a restart is requested iff confirmed; otherwise nothing changes |
| `LanguageStore.LanguageManager.constructor` | BorderlessGaming.Logic/Core/LanguageManager.cs:17-23 | the registry is built from the catalogue; the table is empty, no culture is current, the default is the configured one |
| `LanguageStore.LanguageManager.Load` | BorderlessGaming.Logic/Core/LanguageManager.cs:121-167 | a directory error is fatal with an empty table; otherwise the table is the scan; no pack is fatal; else the current culture becomes the default when it was loaded and is unchanged otherwise |
| `LanguageStore.LanguageManager.CurrentPack` | BorderlessGaming.Logic/Core/LanguageManager.cs:110 | the current culture's pack is reached exactly when the current culture is set and is a key of the table |
| `LanguageStore.LanguageManager.Data` | BorderlessGaming.Logic/Core/LanguageManager.cs:107-119 | a lookup succeeds exactly when the current culture is loaded; it gives the stored text of the lower-cased key, or the empty string when the key is missing |
| `LanguageStore.LanguageManager.SetDefaultLanguage` | BorderlessGaming.Logic/Core/LanguageManager.cs:228-246 | the default and current culture change as `SwitchLanguage` says; the table is unchanged |
| `LanguageStore.DataIgnoresCase` | BorderlessGaming.Logic/Core/LanguageManager.cs:109 | `Data` gives the same answer for keys that differ only in case |
| `Translator.NewText` | BorderlessGaming.Logic/Core/LanguageManager.cs:51-55 | the new text is the translation of the name when that is not blank, and the old text when it is |
| `Translator.TranslateItem` | BorderlessGaming.Logic/Core/LanguageManager.cs:84-100 | an item keeps its name and kind, gets its translated text (old text when blank), and keeps its number of drop-down items |
| `Translator.TranslateItems` | BorderlessGaming.Logic/Core/LanguageManager.cs:77-80 | each item of a strip or menu is translated in order, names and count preserved |
| `Translator.TranslateContextMenu` | BorderlessGaming.Logic/Core/LanguageManager.cs:73-82 | a null context menu stays null; otherwise its items are translated, count preserved |
| `Translator.TranslateControl` | BorderlessGaming.Logic/Core/LanguageManager.cs:44-71 | a control keeps its name and children count, gets its translated text, keeps its own context menu untouched, and stays a tool strip iff it was one |
| `Translator.TranslateCollection` | BorderlessGaming.Logic/Core/LanguageManager.cs:36-42 | each control of a collection is translated; their own context menus are not visited |
| `Translator.TranslateItemIsTranslatedFrom` | BorderlessGaming.Logic/Core/LanguageManager.cs:84-100 | the translated item has the same name and kind, its text is the pack's non-blank text for its name or else its old text, and the same holds for each drop-down item at the same position, recursively |
| `Translator.TranslateItemsAreTranslatedFrom` | BorderlessGaming.Logic/Core/LanguageManager.cs:77-80 | each translated item at position i is item i translated as above |
| `Translator.TranslateContextMenuIsTranslatedFrom` | BorderlessGaming.Logic/Core/LanguageManager.cs:73-82 | a null context menu stays null; otherwise each of its items is translated as above, position by position |
| `Translator.TranslateControlIsTranslatedFrom` | BorderlessGaming.Logic/Core/LanguageManager.cs:44-71 | every element the walk reaches (the control, each descendant control, each descendant's context menu, each tool-strip and drop-down item) gets the pack's non-blank text for its name or keeps its old text; the control's own context menu is unchanged |
| `Translator.ItemTranslatedFromIsUnique` | BorderlessGaming.Logic/Core/LanguageManager.cs:84-100 | the item relation above determines the result: only the walk's own result satisfies it |
| `Translator.ItemsTranslatedFromIsUnique` | BorderlessGaming.Logic/Core/LanguageManager.cs:77-80 | the item-sequence relation determines the result |
| `Translator.ControlTranslatedFromIsUnique` | BorderlessGaming.Logic/Core/LanguageManager.cs:44-71 | the control relation determines the whole result tree, so it is a complete description of the walk |
| `Translator.TranslateItemCovers` | BorderlessGaming.Logic/Core/LanguageManager.cs:92-99 | after translating an item, it and every item in its drop-downs show their translated text |
| `Translator.TranslateControlCovers` | BorderlessGaming.Logic/Core/LanguageManager.cs:57-70 | after translating a control, every child, every child's context-menu item, and every tool-strip item (recursively) shows its translated text |
| `Translator.TranslateCollectionCovers` | BorderlessGaming.Logic/Core/LanguageManager.cs:36-42 | every control of a translated collection is walked as a single control is (each reached element gets its new text or keeps its old one), is fully translated and keeps its shape |
| `Translator.TranslatedItemIsFixed` | BorderlessGaming.Logic/Core/LanguageManager.cs:84-100 | translating an already translated item changes nothing |
| `Translator.TranslatedControlIsFixed` | BorderlessGaming.Logic/Core/LanguageManager.cs:44-71 | translating an already translated tree changes nothing |
| `Translator.TranslateIdempotent` | BorderlessGaming.Logic/Core/LanguageManager.cs:44-71 | translating twice gives the same tree as translating once |
| `Translator.TranslateItemKeepsShape` | BorderlessGaming.Logic/Core/LanguageManager.cs:84-100 | translation changes an item's texts only |
| `Translator.TranslateControlKeepsShape` | BorderlessGaming.Logic/Core/LanguageManager.cs:44-71 | translation changes texts only: names, kinds, menus and tree shape are preserved |
| `Translator.Translate` | BorderlessGaming.Logic/Core/LanguageManager.cs:44-55 | a null control is a no-op with no lookup; otherwise translation fails exactly when the current culture has no pack, and else yields the tree in which every reached element has the pack's non-blank text for its name or its old text, everything not reached unchanged, fully translated and of the same shape |
| `Translator.TranslateAll` | BorderlessGaming.Logic/Core/LanguageManager.cs:36-42 | an empty collection needs no lookup; otherwise it fails exactly when no pack is current, and else each control is related to its input by the same element-by-element rule, fully translated, with its shape and context menu kept |
| `Translator.WelcomeExample` | BorderlessGaming.Logic/Core/LanguageManager.cs:51-99 | with a pack holding `welcometitle` and `cancelbutton`, those elements get "Welcome" and "Cancel" and an unknown name keeps its text |
| `LanguageMenu.LanguageSelected` | BorderlessGaming.Logic/Core/LanguageManager.cs:203-211 | the result is the checked flag of the last item (false for no items) |
| `LanguageMenu.LastCheckedMissesEarlierItems` | BorderlessGaming.Logic/Core/LanguageManager.cs:203-211 | for every list of flags: the result never claims a checked item that is absent, and it differs from "some item is checked" exactly when some item is checked but the last one is not |
| `LanguageMenu.Click` | BorderlessGaming.Logic/Core/LanguageManager.cs:180-199 | unchecking: only the clicked item may change, re-checked iff it is the default's and the last item is unchecked; checking: it becomes the only checked item and its culture becomes default and current |
| `LanguageMenu.Clicks` | BorderlessGaming.Logic/Core/LanguageManager.cs:180-199 | a sequence of clicks keeps one flag per item |
| `LanguageMenu.SetupChecksDefaultOnly` | BorderlessGaming.Logic/Core/LanguageManager.cs:172-179 | Setup checks only items whose language is the default |
| `LanguageMenu.ClickKeepsOneChecked` | BorderlessGaming.Logic/Core/LanguageManager.cs:183-198 | a click keeps every checked item the default's and leaves at least one item checked |
| `LanguageMenu.ClicksKeepOneChecked` | BorderlessGaming.Logic/Core/LanguageManager.cs:180-199 | any non-empty sequence of clicks from a consistent menu leaves at least one item checked |
| `LanguageMenu.MenuKeepsASelection` | BorderlessGaming.Logic/Core/LanguageManager.cs:169-201 | after Setup and at least one click, some item is always checked |
| `LanguageMenu.ClickKeepsAtMostOne` | BorderlessGaming.Logic/Core/LanguageManager.cs:183-197 | a click never produces two checked items from at most one |
| `LanguageMenu.SetupChecksAtMostOne` | BorderlessGaming.Logic/Core/LanguageManager.cs:213-226 | with distinct display names and cultures, Setup checks at most one item |
| `LanguageMenu.SharedDisplayNameChecksTwo` | BorderlessGaming.Logic/Core/LanguageManager.cs:178 | two packs with the same display name are both checked when that name leads to the default |
| `LanguageMenu.LanguageMenu.Setup` | BorderlessGaming.Logic/Core/LanguageManager.cs:169-179 | one item per loaded pack, labelled with its display name, checked iff it is the default's |
| `LanguageMenu.LanguageMenu.OnClick` | BorderlessGaming.Logic/Core/LanguageManager.cs:180-199 | flipping the item then running the handler updates the flags, default and current culture exactly as `Click` says, leaving the table unchanged |

## Left out

- Archive extraction, directory existence checks, deletes and recreation
  (lines 124-146) are file-system I/O. `Load` receives their result: the list
  of `*.lang` files, or `ExtractionFailed` / `TranslationsMissing`.
- Message boxes, `Environment.Exit` and `Application.Exit` are UI and process
  control. Fatal paths are `LoadOutcome.Fatal` values with `ExitCode`.
- `Config.Save()` and the delayed restart through `cmd` (lines 234, 236-244)
  are external side effects. A confirmed switch returns `restartRequested`,
  and the user's answer to the prompt is a parameter.
- The platform culture catalogue (`CultureInfo.GetCultures`) is an input
  sequence of (name, two-letter code).
- `Language` is not part of this model. The model assumes the following:
  - parsing a file yields a key/text map or null;
  - the display name is carried with each file;
  - `Language.Data` returns the stored text or the empty string;
  - `Set` makes its culture current;
  - `ToString` equals `DisplayName`.
- `Data` lowers the key with the current thread culture's `ToLower`
  (line 109). The model lowers keys the same way under every culture, so
  culture-specific mappings are not captured, such as the Turkish capital
  `I` becoming a dotless `ı`.
- Case mapping covers ASCII letters only. .NET also folds non-ASCII letters in
  `ToLower` and `OrdinalIgnoreCase`.
- Translation works on immutable tree values. In-place update and aliasing
  are not captured: a context menu shared by two controls is a separate value
  in each place. Null children do not occur, because WinForms collections hold
  none.
- `Data` with a null key and a null configured default culture are not
  modelled; strings are never null here.
- `IsDefault`'s `catch` branch is not modelled. Nothing in the model can throw
  inside it.
- The prompt texts that `SetDefaultLanguage` looks up are not modelled.
- Setup is assumed to add its items to an empty drop-down. `OnClick`'s
  handler then sees only the language items.
