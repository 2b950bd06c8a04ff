/**
 * The script itself: `parse_plugins_from_gradle`, which turns every plugin
 * declaration in the descriptor into a package record, and the pure part of
 * `main`, which checks the configuration, names the service and combines the
 * records. Reading the file and the environment are inputs here.
 */
module Extractor {
  import opened Wrappers
  import opened PluginPattern
  import opened Scanner
  import opened Catalog

  /**
   * How reading the descriptor turned out: the string `read()` returns on a
   * file opened in text mode (decoded from UTF-8, with `\r\n` and `\r`
   * already translated to `\n`), or the failure.
   */
  datatype FileRead =
    | Contents(text: string)
    | NotFound                     // FileNotFoundError
    | ReadFailed(message: string)  // any other error while opening, reading or decoding

  /** The configuration error that stops the run. */
  datatype ConfigError = MissingGradlePath

  /** The (plugin id, version) matches found in a descriptor; none when it could not be read. */
  function Extracted(file: FileRead): seq<Match> {
    match file
    case Contents(text) => MatchAtAdvances(); Scan(text, 0, MatchAt)
    case _ => []
  }

  /** The package records for a sequence of matches, one per match, in order. */
  function Packages(ms: seq<Match>): seq<Entity> {
    seq(|ms|, k requires 0 <= k < |ms| => PackageEntity(ms[k].plugin, ms[k].version))
  }

  /** The plugin ids of a sequence of matches, in order. */
  function PluginIds(ms: seq<Match>): seq<string> {
    seq(|ms|, k requires 0 <= k < |ms| => ms[k].plugin)
  }

  /** One package record per match, in order: what each record of Packages holds. */
  lemma PackagesSpec(ms: seq<Match>)
    ensures |Packages(ms)| == |ms|
    ensures forall k :: 0 <= k < |ms| ==> IsPackageFor(Packages(ms)[k], ms[k].plugin, ms[k].version)
  {
  }

  /** The loop of `parse_plugins_from_gradle`: a package record appended for each match. */
  method AppendPackages(matches: seq<Match>) returns (entities: seq<Entity>)
    ensures entities == Packages(matches)
  {
    entities := [];
    for k := 0 to |matches|
      invariant entities == Packages(matches[..k])
    {
      assert matches[..k + 1] == matches[..k] + [matches[k]];
      entities := entities + [PackageEntity(matches[k].plugin, matches[k].version)];
    }
    assert matches[..|matches|] == matches;
  }

  /**
   * `parse_plugins_from_gradle`: one package record per match of the
   * declaration pattern, in the order of the matches, duplicates kept; a
   * descriptor that cannot be read gives no records.
   */
  method ParsePlugins(file: FileRead) returns (entities: seq<Entity>)
    ensures entities == Packages(Extracted(file))
    ensures |entities| == |Extracted(file)|
    ensures forall k :: 0 <= k < |entities| ==>
      IsPackageFor(entities[k], Extracted(file)[k].plugin, Extracted(file)[k].version)
    ensures !file.Contents? ==> entities == []
  {
    match file
    case Contents(content) =>
      MatchAtAdvances();
      var matches := FindAll(content, MatchAt);
      entities := AppendPackages(matches);
    case NotFound =>
      entities := [];
    case ReadFailed(_) =>
      entities := [];
    PackagesSpec(Extracted(file));
  }

  /**
   * Every extracted pair comes from a plugin declaration of the descriptor:
   * the text it was matched in spells a well-formed declaration, so both
   * captures are non-empty, quote-free and separated from `id` and `version`
   * by whitespace.
   */
  lemma ExtractedAreDeclarations(file: FileRead, k: nat) returns (d: Decl)
    requires file.Contents? && k < |Extracted(file)|
    ensures WellFormed(d)
    ensures var m := Extracted(file)[k];
      && m.start < m.end <= |file.text|
      && Text(d) == file.text[m.start..m.end]
      && Captures(d) == (m.plugin, m.version)
  {
    MatchAtAdvances();
    var ms := Scan(file.text, 0, MatchAt);
    ScanIsFindAll(file.text, 0, MatchAt);
    assert MatchAt(file.text, ms[k].start) == Some(ms[k]);
    d := MatchAtSound(file.text, ms[k].start);
  }

  /** Extracted pairs come in the order of their declarations, which never overlap. */
  lemma ExtractedInOrder(file: FileRead, k: nat, l: nat)
    requires k < l < |Extracted(file)|
    ensures Extracted(file)[k].end <= Extracted(file)[l].start
  {
    MatchAtAdvances();
    ScanOrdered(file.text, 0, MatchAt, k, l);
  }

  /** `not gradle_path`: unset or set to the empty string. */
  predicate Missing(path: Option<string>) {
    path.None? || path.value == ""
  }

  /**
   * What the pure part of `main` computes: a missing descriptor path is an
   * error, raised whatever the descriptor holds; otherwise the service record
   * followed by the package records.
   */
  function Output(gradlePath: Option<string>, repository: Option<string>, read: string -> FileRead)
    : Result<seq<Entity>, ConfigError>
  {
    if Missing(gradlePath) then Failure(MissingGradlePath)
    else Success(AllEntities(RepoName(FullName(repository)), Packages(Extracted(read(gradlePath.value)))))
  }

  /**
   * `main` fails exactly when the descriptor path is missing; otherwise the
   * list has one record more than there are matches: first the service,
   * named after the repository and depending on the plugin ids of the
   * matches in order, then one package record per match, in order.
   */
  lemma OutputSpec(gradlePath: Option<string>, repository: Option<string>, read: string -> FileRead)
    ensures Output(gradlePath, repository, read).Failure? <==> Missing(gradlePath)
    ensures Output(gradlePath, repository, read).Failure? ==>
      Output(gradlePath, repository, read).error == MissingGradlePath
    ensures Output(gradlePath, repository, read).Success? ==>
      var all := Output(gradlePath, repository, read).value;
      var ms := Extracted(read(gradlePath.value));
      && |all| == 1 + |ms|
      && all[0] == CreateServiceEntity(RepoName(FullName(repository)), PluginIds(ms))
      && (forall k :: 0 <= k < |ms| ==> IsPackageFor(all[k + 1], ms[k].plugin, ms[k].version))
  {
    if !Missing(gradlePath) {
      var ms := Extracted(read(gradlePath.value));
      var packages := Packages(ms);
      AllEntitiesShape(RepoName(FullName(repository)), packages);
      assert DependencyIds(packages) == PluginIds(ms);
    }
  }

  /**
   * `main` without its I/O: `read` stands for opening and decoding the file
   * at a path, `repository` for the GITHUB_REPOSITORY variable. The path is
   * checked before anything is read: the run fails exactly when the path is
   * missing, and otherwise yields the service, named after the repository
   * and depending on the plugin ids in match order, then one package record
   * per match.
   */
  method Run(gradlePath: Option<string>, repository: Option<string>, read: string -> FileRead)
    returns (r: Result<seq<Entity>, ConfigError>)
    ensures r == Output(gradlePath, repository, read)
    ensures r.Failure? <==> Missing(gradlePath)
    ensures r.Failure? ==> r.error == MissingGradlePath
    ensures r.Success? ==>
      var ms := Extracted(read(gradlePath.value));
      && |r.value| == 1 + |ms|
      && r.value[0] == CreateServiceEntity(RepoName(FullName(repository)), PluginIds(ms))
      && (forall k :: 0 <= k < |ms| ==> IsPackageFor(r.value[k + 1], ms[k].plugin, ms[k].version))
  {
    OutputSpec(gradlePath, repository, read);
    if Missing(gradlePath) {
      return Failure(MissingGradlePath);
    }
    var dependencies := ParsePlugins(read(gradlePath.value));
    var repoName := RepoName(FullName(repository));
    var ids := DependencyIds(dependencies);
    var service := CreateServiceEntity(repoName, ids);
    var all := [service] + dependencies;
    r := Success(all);
  }

  /** A descriptor without any declaration, or one that cannot be read, yields only the service, with no dependencies. */
  lemma NoDeclarationsOnlyService(file: FileRead, repoName: string)
    requires file.Contents? ==> NoMatchIn(file.text, 0, |file.text|, MatchAt)
    ensures AllEntities(repoName, Packages(Extracted(file))) == [CreateServiceEntity(repoName, [])]
  {
    if file.Contents? {
      MatchAtAdvances();
      ScanEmptyIff(file.text, MatchAt);
    }
    assert Packages(Extracted(file)) == [];
    assert DependencyIds([]) == [];
  }

  /** A descriptor holding one declaration and nothing else yields exactly its pair. */
  lemma LoneDeclaration(d: Decl)
    requires WellFormed(d)
    ensures Extracted(Contents(Text(d))) == [Match(0, |Text(d)|, Captures(d).0, Captures(d).1)]
  {
    var s := Text(d);
    assert s[0..|s|] == s;
    MatchAtComplete(s, 0, d);
    MatchAtAdvances();
    assert Scan(s, 0, MatchAt) == [MatchAt(s, 0).value] + Scan(s, |s|, MatchAt);
  }

  /** The declaration `id "com.example.plugin" version "1.2.3"`, piece by piece. */
  function ExampleDecl(): Decl {
    Decl(ClauseText(" ", QuotedText('"', "com.example.plugin", '"')), " ",
         ClauseText(" ", QuotedText('"', "1.2.3", '"')))
  }

  lemma ExampleWellFormed()
    ensures WellFormed(ExampleDecl())
    ensures Captures(ExampleDecl()) == ("com.example.plugin", "1.2.3")
  {
  }

  lemma ExampleText()
    ensures Text(ExampleDecl()) == "id \"com.example.plugin\" version \"1.2.3\""
  {
    var d := ExampleDecl();
    ExampleClauses();
    assert Text(d) == "id \"com.example.plugin\"" + (" " + "version \"1.2.3\"");
  }

  lemma ExampleClauses()
    ensures ClauseSpelling("id", ExampleDecl().plugin) == "id \"com.example.plugin\""
    ensures ClauseSpelling("version", ExampleDecl().version) == "version \"1.2.3\""
  {
    var d := ExampleDecl();
    assert QuotedSpelling(d.plugin.quoted) == "\"com.example.plugin\"";
    assert QuotedSpelling(d.version.quoted) == "\"1.2.3\"";
  }

  /** The declaration `id "com.example.plugin" version "1.2.3"` yields exactly that pair. */
  lemma SingleDeclaration(content: string)
    requires content == "id \"com.example.plugin\" version \"1.2.3\""
    ensures Extracted(Contents(content)) == [Match(0, 39, "com.example.plugin", "1.2.3")]
  {
    ExampleWellFormed();
    ExampleText();
    assert |content| == 39;
    LoneDeclaration(ExampleDecl());
  }
}
