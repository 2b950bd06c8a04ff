# Gradle plugin extractor, modelled in Dafny

The script `extract_gradle_plugins.py` reads a Gradle build descriptor and finds every
plugin declaration of the form `id '<plugin>' version '<version>'`. It turns each one
into a catalog "package" record and emits a "service" record for the repository that
depends on all of them. The service record comes first, then the package records.

This project models that pipeline and proves what it guarantees:

- `PluginPattern` is a hand-written matcher for the one regular expression the script
  compiles (`id\s+['"]([^'"]+)['"]\s+version\s+['"]([^'"]+)['"]`). After each `\s+`
  comes a non-space, and after each `[^'"]+` comes a quote, so greedy runs decide the
  match without backtracking. `MatchAt` computes the outcome at one position.
  `MatchAtSound` and `MatchAtComplete` prove that it agrees with the declarative reading
  of the pattern (`Decl`, `Text`), and that this reading allows just one outcome.
- `Scanner` models `findall`. It tries the pattern at each position. After a match it
  resumes at the match's end; otherwise it moves on by one character. `Scan` is the
  recursive definition. `IsFindAll` says the same thing without recursion: every match
  is the pattern's match at its own start, and no match exists in the stretches between
  them. The scan is stated for any matcher whose matches start where they are tried and
  end further on (`Advances`), and it is used with `MatchAt`. `FindAll` is the
  index-advancing loop.
- `Catalog` holds the records and the pure steps of `main`:
  - `split("/")` and its inverse, `join`;
  - the repository name, `split("/")[-1]`;
  - the service record, the identifier list, and the combined list.
- `Extractor` holds `parse_plugins_from_gradle` (`ParsePlugins`, with the append loop in
  `AppendPackages`) and the pure part of `main` (`Run`, specified by `Output` and
  `OutputSpec`).

The model follows the code on these points:

- `os.getenv("GITHUB_REPOSITORY", "org/default-repo")` uses the default only when the
  variable is unset. When it is set to the empty string, the repository name is `""`.
- The two diagnostics are written with plain `print`, so they go to standard output, the
  same stream as the JSON, not to a separate diagnostic stream. The model leaves printing
  out (see below). The only effect modelled is that a failed read yields no packages.
- "Missing" descriptor path means Python's `not gradle_path`: unset, or set to `""`.

## Model

| member | source | states |
|---|---|---|
| PluginPattern.RunFrom | extract_gradle_plugins.py:18 | the greedy run of `\s+` or `[^'"]+`: every character in it has the class, and the character after it (if any) does not |
| PluginPattern.MatchAt | extract_gradle_plugins.py:18 | a match found at position i starts at i and ends after i, within the content |
| PluginPattern.MatchAtSound | extract_gradle_plugins.py:18 | every reported match spells a well-formed declaration: `id`, whitespace, quote, plugin id, quote, whitespace, `version`, whitespace, quote, version, quote, and its captures are the reported ones |
| PluginPattern.MatchAtComplete | extract_gradle_plugins.py:18 | wherever a well-formed declaration's text starts, the matcher reports exactly that declaration's end and captures, so the outcome at a position is unique (quotes may differ; `id` may end a longer word) |
| PluginPattern.MatchAtCaptures | extract_gradle_plugins.py:18 | both captures of a match are non-empty and contain neither `'` nor `"` |
| Scanner.MatchAtAdvances | extract_gradle_plugins.py:18-23 | the declaration matcher makes progress, which is what findall needs |
| Scanner.Scan | extract_gradle_plugins.py:23 | findall's matches all lie in the scanned part of the content |
| Scanner.ScanIsFindAll | extract_gradle_plugins.py:23 | findall's result is a sequence of matches of the pattern at their own starts, with no match before, between or after them |
| Scanner.FindAllUnique | extract_gradle_plugins.py:23 | any sequence with that description is exactly findall's result |
| Scanner.ScanOrdered | extract_gradle_plugins.py:23 | matches never overlap and come in order of position (any two, not only neighbours) |
| Scanner.ScanEmptyIff | extract_gradle_plugins.py:23 | findall returns nothing exactly when the pattern matches at no position |
| Scanner.FindAll | extract_gradle_plugins.py:23 | the position-advancing scanning loop returns findall's result |
| Catalog.Split | extract_gradle_plugins.py:71 | `split("/")` gives at least one piece, and no piece contains the separator |
| Catalog.JoinSplit | extract_gradle_plugins.py:71 | joining the pieces of a split restores the string |
| Catalog.SplitJoin | extract_gradle_plugins.py:71 | splitting a join of separator-free pieces restores the pieces |
| Catalog.RepoNameSpec | extract_gradle_plugins.py:70-71 | the repository name has no `/`; it is the whole full name if that has no `/`, and otherwise the text after the last `/` |
| Catalog.RepoNameOfJoin | extract_gradle_plugins.py:71 | the repository name of `a/b/.../z` built from `/`-free pieces is the last piece |
| Catalog.DefaultRepoName | extract_gradle_plugins.py:70-71 | with no GITHUB_REPOSITORY the service is called `default-repo` |
| Catalog.RepoNameExample | extract_gradle_plugins.py:69-71 | `my-org/my-repo` gives `my-repo` |
| Catalog.RepoNameTrailingSlash | extract_gradle_plugins.py:71 | a trailing `/` gives the empty name |
| Catalog.AllEntitiesShape | extract_gradle_plugins.py:74-80 | the combined list has 1 + (number of packages) elements; element 0 is the service with the repository name as identifier, and its k-th dependency is the identifier of package k; the remaining elements are the packages, unchanged |
| Extractor.PackagesSpec | extract_gradle_plugins.py:25-33 | one package record per match, in order; each has identifier = package = plugin id, blueprint `package`, and version = the captured version |
| Extractor.AppendPackages | extract_gradle_plugins.py:25-33 | the append loop builds exactly the package records of the matches, in order |
| Extractor.ParsePlugins | extract_gradle_plugins.py:15-40 | one package record per match in the descriptor, in order, duplicates kept, with the field equalities above; a descriptor that is missing or cannot be read gives no records |
| Extractor.ExtractedAreDeclarations | extract_gradle_plugins.py:18-25 | every extracted pair was matched in a stretch of the descriptor that spells a well-formed declaration with exactly those captures |
| Extractor.ExtractedInOrder | extract_gradle_plugins.py:23-25 | extracted pairs follow the order of their declarations in the descriptor, which never overlap |
| Extractor.OutputSpec | extract_gradle_plugins.py:61-80 | `main` fails exactly when GRADLE_PATH is unset or empty, whatever the descriptor holds; otherwise it gives the service (repository name, dependencies = plugin ids in match order) followed by one package record per match |
| Extractor.Run | extract_gradle_plugins.py:61-80 | the steps of `main` compute `Output`: the path check comes before any read, then parsing, naming, the id list and the combination. Like `OutputSpec`, it states that the run fails exactly when GRADLE_PATH is unset or empty, and otherwise gives the service first and then one package record per match |
| Catalog.PackageEntity | extract_gradle_plugins.py:26-33 | the package record of a pair: identifier and package are the plugin id, the blueprint is `package`, the version is the captured one (see `PackagesSpec`) |
| Catalog.CreateServiceEntity | extract_gradle_plugins.py:53-59 | the record with blueprint `service`, the given name and the given dependencies (see `AllEntitiesShape` and `OutputSpec`) |
| Catalog.RepoName | extract_gradle_plugins.py:71 | the last piece of the split full name (see `RepoNameSpec` and `RepoNameOfJoin`) |
| Catalog.FullName | extract_gradle_plugins.py:70 | the configured full name, or `org/default-repo` when none is set (see `DefaultRepoName`) |
| Catalog.DependencyIds | extract_gradle_plugins.py:74 | the identifiers of the packages, in order (see `AllEntitiesShape`) |
| Catalog.AllEntities | extract_gradle_plugins.py:80 | the service, then the packages (see `AllEntitiesShape`) |
| Extractor.Missing | extract_gradle_plugins.py:63 | `not gradle_path`: unset, or set to `""` (see `OutputSpec`) |
| Extractor.Extracted | extract_gradle_plugins.py:20-40 | findall's matches on the text that was read, and none when the read failed (see `ExtractedAreDeclarations`, `ExtractedInOrder` and `ParsePlugins`) |
| Extractor.Packages | extract_gradle_plugins.py:25-33 | the package records of the matches, one per match, in order (see `PackagesSpec` and `AppendPackages`) |
| Extractor.Output | extract_gradle_plugins.py:61-80 | what `main` computes (see `OutputSpec` and `Run`) |
| Extractor.NoDeclarationsOnlyService | extract_gradle_plugins.py:23-40 | a descriptor with no declaration, or one that cannot be read, yields only the service, with an empty dependency list |
| Extractor.LoneDeclaration | extract_gradle_plugins.py:18-25 | a descriptor that is exactly one well-formed declaration yields exactly its pair |
| Extractor.SingleDeclaration | extract_gradle_plugins.py:18-25 | `id "com.example.plugin" version "1.2.3"` yields exactly `("com.example.plugin", "1.2.3")` |

## Left out

- Opening, reading and UTF-8 decoding of the file (lines 21-22). The outcome is an input
  (`FileRead`): the string `read()` returns, file not found, or any other read or decode
  failure. The file is opened in text mode, so that string is decoded and has `\r\n` and
  `\r` already translated to `\n`. The translation happens before the scan, and it is
  not modelled. Match positions and any capture that spans a line break refer to the
  translated string.
- Environment lookups (lines 62 and 70). GRADLE_PATH and GITHUB_REPOSITORY are `Option`
  parameters of `Run`.
- The two `print` diagnostics (lines 36 and 38) and the JSON rendering with `indent=2`
  (line 83). These are output only; the model keeps the record structure that would be
  serialised. Because serialisation is not modelled, properties of the emitted JSON are
  stated on the records: `Output` is a function, and `AllEntitiesShape` ties the
  dependencies to the package identifiers.
- Python's general regular-expression engine. Only the one pattern the script compiles
  is modelled, by hand.
- Python's `\s` on `str` also matches non-ASCII whitespace (for example U+00A0 and
  U+2028) and U+001C to U+001F. The model restricts `\s` to the ASCII set: space, `\t`,
  `\n`, `\r`, `\f` and `\v`.
- The `ValueError` raised at line 64 is modelled as `Failure(MissingGradlePath)`. The
  process exit and traceback are not modelled.
