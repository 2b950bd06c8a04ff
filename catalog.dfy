/**
 * The catalog records the script emits, and the pure steps that build them:
 * one package record per extracted plugin, the repository name taken from
 * the repository's full name, the service record that depends on every
 * package, and the combined list, service first.
 */
module Catalog {
  import opened Wrappers

  /** What a record carries besides its identifier and blueprint. */
  datatype Body =
    | Properties(package: string, version: string)   // a package: "properties": {"package", "version"}
    | Relations(dependencies: seq<string>)           // a service: "relations": {"dependencies"}

  /** One catalog record: "identifier", "blueprint" and the body above. */
  datatype Entity = Entity(identifier: string, blueprint: string, body: Body)

  const PackageBlueprint: string := "package"
  const ServiceBlueprint: string := "service"

  /** The repository full name used when none is configured. */
  const DefaultRepository: string := "org/default-repo"

  /** The package record for one extracted (plugin id, version) pair. */
  function PackageEntity(plugin: string, version: string): Entity {
    Entity(plugin, PackageBlueprint, Properties(plugin, version))
  }

  /** `e` is the package record of the pair (plugin, version). */
  predicate IsPackageFor(e: Entity, plugin: string, version: string) {
    && e.identifier == plugin
    && e.blueprint == PackageBlueprint
    && e.body.Properties? && e.body.package == plugin && e.body.version == version
  }

  /** The service record for a repository and the identifiers it depends on. */
  function CreateServiceEntity(repoName: string, dependencies: seq<string>): Entity {
    Entity(repoName, ServiceBlueprint, Relations(dependencies))
  }

  /** `s.split(sep)`: the pieces of `s` between occurrences of `sep`, empty pieces included. */
  function Split(s: string, sep: char): (r: seq<string>)
    ensures |r| >= 1
    ensures forall k :: 0 <= k < |r| ==> sep !in r[k]
  {
    if s == [] then [[]]
    else
      var rest := Split(s[1..], sep);
      if s[0] == sep then [[]] + rest else [[s[0]] + rest[0]] + rest[1..]
  }

  /** `sep.join(pieces)`. */
  function Join(pieces: seq<string>, sep: char): string
    requires |pieces| >= 1
  {
    if |pieces| == 1 then pieces[0] else pieces[0] + [sep] + Join(pieces[1..], sep)
  }

  /** Joining the pieces of a split gives back the string. */
  lemma {:induction false} JoinSplit(s: string, sep: char)
    ensures Join(Split(s, sep), sep) == s
  {
    if s != [] {
      var rest := Split(s[1..], sep);
      JoinSplit(s[1..], sep);
      if s[0] == sep {
        assert Split(s, sep) == [[]] + rest;
        assert ([[]] + rest)[1..] == rest;
      } else {
        var pieces := [[s[0]] + rest[0]] + rest[1..];
        assert Split(s, sep) == pieces;
        if |rest| > 1 {
          assert pieces[1..] == rest[1..];
          assert Join(rest, sep) == rest[0] + [sep] + Join(rest[1..], sep);
        }
      }
    }
  }

  /** A separator-free prefix stays in the first piece. */
  lemma {:induction false} SplitFreePrefix(x: string, t: string, sep: char)
    requires sep !in x
    ensures Split(x + t, sep) == [x + Split(t, sep)[0]] + Split(t, sep)[1..]
  {
    if x != [] {
      assert (x + t)[1..] == x[1..] + t;
      assert x[0] != sep;
      SplitFreePrefix(x[1..], t, sep);
      assert [x[0]] + (x[1..] + Split(t, sep)[0]) == x + Split(t, sep)[0];
    } else {
      var r := Split(t, sep);
      assert x + t == t;
      assert x + r[0] == r[0];
      assert r == [r[0]] + r[1..];
    }
  }

  /** Splitting a join of separator-free pieces gives back the pieces. */
  lemma {:induction false} SplitJoin(pieces: seq<string>, sep: char)
    requires |pieces| >= 1
    requires forall k :: 0 <= k < |pieces| ==> sep !in pieces[k]
    ensures Split(Join(pieces, sep), sep) == pieces
  {
    var x := pieces[0];
    if |pieces| == 1 {
      SplitFreePrefix(x, [], sep);
      assert x + [] == x;
    } else {
      var tail := Join(pieces[1..], sep);
      SplitJoin(pieces[1..], sep);
      assert Join(pieces, sep) == x + ([sep] + tail);
      assert ([sep] + tail)[1..] == tail;
      assert Split([sep] + tail, sep) == [[]] + Split(tail, sep);
      SplitFreePrefix(x, [sep] + tail, sep);
      assert x + [] == x;
    }
  }

  /** The last piece comes after the last separator. */
  lemma {:induction false} JoinLast(pieces: seq<string>, sep: char)
    requires |pieces| >= 2
    ensures Join(pieces, sep) == Join(pieces[..|pieces| - 1], sep) + [sep] + pieces[|pieces| - 1]
  {
    if |pieces| > 2 {
      JoinLast(pieces[1..], sep);
      assert pieces[1..][..|pieces| - 2] == pieces[..|pieces| - 1][1..];
    } else {
      assert pieces[..1] == [pieces[0]];
    }
  }

  /** `full_repo_name.split("/")[-1]`. */
  function RepoName(fullName: string): string {
    var pieces := Split(fullName, '/');
    pieces[|pieces| - 1]
  }

  /**
   * The repository name holds no `/`; it is the whole full name when that
   * has no `/`, and otherwise exactly the text after the last `/`.
   */
  lemma RepoNameSpec(fullName: string)
    ensures '/' !in RepoName(fullName)
    ensures '/' !in fullName ==> RepoName(fullName) == fullName
    ensures '/' in fullName ==>
      var n := |RepoName(fullName)|;
      n < |fullName| && fullName == fullName[..|fullName| - n - 1] + "/" + RepoName(fullName)
  {
    var pieces := Split(fullName, '/');
    var last := pieces[|pieces| - 1];
    assert RepoName(fullName) == last;
    JoinSplit(fullName, '/');
    if |pieces| >= 2 {
      JoinLast(pieces, '/');
      var prefix := Join(pieces[..|pieces| - 1], '/');
      assert fullName == prefix + "/" + last;
      assert fullName[|prefix|] == '/';
      assert fullName[..|prefix|] == prefix;
    } else {
      assert fullName == last;
    }
  }

  /** `[dep["identifier"] for dep in dependencies]`. */
  function DependencyIds(packages: seq<Entity>): seq<string> {
    seq(|packages|, k requires 0 <= k < |packages| => packages[k].identifier)
  }

  /** The full name configured, or the default one. */
  function FullName(repository: Option<string>): string {
    repository.GetOr(DefaultRepository)
  }

  /** `[service_entity] + dependencies`: the service record for the repository, then the packages. */
  function AllEntities(repoName: string, packages: seq<Entity>): seq<Entity> {
    [CreateServiceEntity(repoName, DependencyIds(packages))] + packages
  }

  /**
   * The combined list has one more element than there are packages; the
   * first is the service named after the repository, whose dependencies are
   * the identifiers of the packages that follow it, in the same order; the
   * rest are the packages, unchanged.
   */
  lemma AllEntitiesShape(repoName: string, packages: seq<Entity>)
    ensures var all := AllEntities(repoName, packages);
      && |all| == 1 + |packages|
      && all[0].blueprint == ServiceBlueprint && all[0].identifier == repoName
      && all[0].body.Relations? && |all[0].body.dependencies| == |packages|
      && (forall k :: 0 <= k < |packages| ==> all[0].body.dependencies[k] == all[k + 1].identifier)
      && all[1..] == packages
  {
  }

  /** The repository name of a full name built from `/`-free pieces is the last piece. */
  lemma RepoNameOfJoin(pieces: seq<string>)
    requires |pieces| >= 1
    requires forall k :: 0 <= k < |pieces| ==> '/' !in pieces[k]
    ensures RepoName(Join(pieces, '/')) == pieces[|pieces| - 1]
  {
    SplitJoin(pieces, '/');
    RepoNameOfSplit(Join(pieces, '/'), pieces);
  }

  /** The repository name is the last piece of the split. */
  lemma RepoNameOfSplit(fullName: string, pieces: seq<string>)
    requires Split(fullName, '/') == pieces
    ensures |pieces| >= 1 && RepoName(fullName) == pieces[|pieces| - 1]
  {
  }

  /** Without a configured full name the service is called "default-repo". */
  lemma DefaultRepoName()
    ensures RepoName(FullName(None)) == "default-repo"
  {
    var pieces := ["org", "default-repo"];
    assert Join(pieces, '/') == DefaultRepository;
    RepoNameOfJoin(pieces);
  }

  /** "my-org/my-repo" gives "my-repo". */
  lemma RepoNameExample()
    ensures RepoName("my-org/my-repo") == "my-repo"
  {
    var pieces := ["my-org", "my-repo"];
    assert Join(pieces, '/') == "my-org/my-repo";
    RepoNameOfJoin(pieces);
  }

  /** A trailing `/` gives the empty name. */
  lemma RepoNameTrailingSlash()
    ensures RepoName("my-org/") == ""
  {
    var pieces := ["my-org", ""];
    assert Join(pieces, '/') == "my-org/";
    RepoNameOfJoin(pieces);
  }
}
