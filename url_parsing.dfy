/** `MainWindow.parse_url`: turns the text typed by the user into the ordered
    list of `(url, filename)` download targets and the optional version label.
    A browse-page address `…mvnrepository.com/artifact/{group}/{artifact}/{version}`
    becomes the jar and the pom on Maven Central; anything else is taken as a
    direct download address. */
module UrlParsing {
  import opened Text

  const Marker := "mvnrepository.com/artifact/"
  const RepositoryRoot := "https://repo1.maven.org/maven2/"

  datatype Option<T> = None | Some(value: T)

  /** One file to fetch and the bare name it is saved under. */
  datatype Target = Target(url: string, filename: string)

  datatype Parsed = Parsed(targets: seq<Target>, version: Option<string>)

  /** The group id as a repository path: every `.` becomes `/`. */
  function GroupPath(group: string): (path: string)
    ensures '.' !in path
    ensures |path| == |group|
    ensures forall i :: 0 <= i < |group| ==> path[i] == (if group[i] == '.' then '/' else group[i])
  {
    ReplaceChar(group, '.', '/')
  }

  /** The Maven Central directory of an artifact version. */
  function VersionDirectory(group: string, artifact: string, version: string): string
  {
    RepositoryRoot + GroupPath(group) + "/" + artifact + "/" + version
  }

  /** `{artifact}-{version}{ext}`. */
  function ArtifactFile(artifact: string, version: string, ext: string): string
  {
    artifact + "-" + version + ext
  }

  /** The Maven Central file of an artifact version with the given extension. */
  function ArtifactUrl(group: string, artifact: string, version: string, ext: string): string
  {
    VersionDirectory(group, artifact, version) + "/" + ArtifactFile(artifact, version, ext)
  }

  /** The jar and the pom of one artifact version, in that order. */
  function CoordinateTargets(group: string, artifact: string, version: string): (r: Parsed)
    ensures |r.targets| == 2 && r.version == Some(version)
    ensures forall t :: t in r.targets ==>
              |RepositoryRoot| <= |t.url| && t.url[..|RepositoryRoot|] == RepositoryRoot
              && |t.filename| <= |t.url| && t.url[|t.url| - |t.filename|..] == t.filename
  {
    Parsed([Target(ArtifactUrl(group, artifact, version, ".jar"), ArtifactFile(artifact, version, ".jar")),
            Target(ArtifactUrl(group, artifact, version, ".pom"), ArtifactFile(artifact, version, ".pom"))],
           Some(version))
  }

  /** The whole input as one direct download, named after its last segment. */
  function Fallback(raw: string): (r: Parsed)
    ensures |r.targets| == 1 && r.version == None && r.targets[0].url == raw
    ensures var name := r.targets[0].filename;
      '/' !in name && |name| <= |raw| && raw[|raw| - |name|..] == name
  {
    Parsed([Target(raw, LastSegment(raw))], None)
  }

  /** The resolver. Every input yields a non-empty list: one direct target, or
      two Maven Central targets that carry a version; each target is saved
      under the last segment of its own URL, which never holds a `/`. */
  function ParseUrl(raw: string): (r: Parsed)
    ensures 1 <= |r.targets| <= 2
    ensures r.version.Some? <==> |r.targets| == 2
    ensures |r.targets| == 1 ==> r == Fallback(raw)
    ensures !Contains(raw, Marker) ==> |r.targets| == 1
    ensures forall t :: t in r.targets ==> t.filename == LastSegment(t.url) && '/' !in t.filename
  {
    if Contains(raw, Marker) then FromPath(raw, Last(Split(raw, Marker))) else Fallback(raw)
  }

  /** What follows the last marker: at least three `/`-segments give the
      coordinates, further ones are ignored; fewer fall back to `raw`. */
  function FromPath(raw: string, path: string): (r: Parsed)
    ensures 1 <= |r.targets| <= 2
    ensures r.version.Some? <==> |r.targets| == 2
    ensures |r.targets| == 1 ==> r == Fallback(raw)
    ensures forall t :: t in r.targets ==> t.filename == LastSegment(t.url) && '/' !in t.filename
  {
    var parts := Split(path, "/");
    if |parts| >= 3 then
      SplitCharFacts(path, '/');
      assert '/' !in parts[1] && '/' !in parts[2];
      CoordinateNames(parts[0], parts[1], parts[2]);
      CoordinateTargets(parts[0], parts[1], parts[2])
    else
      Fallback(raw)
  }

  /** The path after a last marker is what the resolver reads. */
  lemma ParseUrlReadsPath(raw: string, prefix: string, path: string)
    requires raw == prefix + Marker + path
    requires !Contains(path, Marker)
    ensures ParseUrl(raw) == FromPath(raw, path)
  {
    MarkerNoSelfOverlap();
    ContainsAt(prefix, Marker, path);
    LastPieceAfter(prefix, Marker, path);
  }

  /** Each Maven Central target is named after the last segment of its URL. */
  lemma CoordinateNames(group: string, artifact: string, version: string)
    requires '/' !in artifact && '/' !in version
    ensures forall t :: t in CoordinateTargets(group, artifact, version).targets ==>
              t.filename == LastSegment(t.url) && '/' !in t.filename
  {
    var front := VersionDirectory(group, artifact, version);
    var jar := ArtifactFile(artifact, version, ".jar");
    var pom := ArtifactFile(artifact, version, ".pom");
    assert '/' !in jar && '/' !in pom;
    LastSegmentAfter(front, jar);
    LastSegmentAfter(front, pom);
  }

  lemma MarkerNoSelfOverlap()
    ensures NoSelfOverlap(Marker)
  {
    MarkerLetters();
    forall k | 0 < k < |Marker|
      ensures Marker[k..] != Marker[..|Marker| - k]
    {
      if k == 16 {
        assert Marker[k..][1] != Marker[..|Marker| - k][1];
      } else {
        assert Marker[k..][0] != Marker[..|Marker| - k][0];
      }
    }
  }

  /** The marker's first letter recurs only at index 16, where a `/` follows
      instead of its second letter. */
  lemma MarkerLetters()
    ensures |Marker| == 27
    ensures forall k :: 0 < k < |Marker| && k != 16 ==> Marker[k] != Marker[0]
    ensures Marker[17] != Marker[1]
  {
  }

  /** `raw` is a browse-page address: anything, the marker, then group,
      artifact and version as three `/`-free segments, then nothing or a
      further `/`-path, with no later marker. */
  ghost predicate CoordinateForm(raw: string, prefix: string, group: string, artifact: string,
                                 version: string, tail: string)
  {
    && raw == prefix + Marker + CoordinatePath(group, artifact, version, tail)
    && '/' !in group && '/' !in artifact && '/' !in version
    && (tail == [] || tail[0] == '/')
    && !Contains(CoordinatePath(group, artifact, version, tail), Marker)
  }

  /** `{group}/{artifact}/{version}` followed by `tail`. */
  function CoordinatePath(group: string, artifact: string, version: string, tail: string): string
  {
    group + "/" + artifact + "/" + version + tail
  }

  /** A browse-page address resolves to the jar then the pom of its
      coordinates; segments after the version are ignored. */
  lemma ParseUrlCoordinates(raw: string, prefix: string, group: string, artifact: string,
                            version: string, tail: string)
    requires CoordinateForm(raw, prefix, group, artifact, version, tail)
    ensures ParseUrl(raw) == CoordinateTargets(group, artifact, version)
  {
    var path := CoordinatePath(group, artifact, version, tail);
    ParseUrlReadsPath(raw, prefix, path);
    CoordinateSegments(group, artifact, version, tail);
    var parts := Split(path, "/");
    assert parts[0] == parts[..3][0] == group;
    assert parts[1] == parts[..3][1] == artifact;
    assert parts[2] == parts[..3][2] == version;
  }

  /** The first three `/`-segments of `group/artifact/version…`. */
  lemma CoordinateSegments(group: string, artifact: string, version: string, tail: string)
    requires '/' !in group && '/' !in artifact && '/' !in version
    requires tail == [] || tail[0] == '/'
    ensures |Split(CoordinatePath(group, artifact, version, tail), "/")| >= 3
    ensures Split(CoordinatePath(group, artifact, version, tail), "/")[..3] == [group, artifact, version]
  {
    var y := version + tail;
    VersionFirst(version, tail);
    FrontTwo(group, artifact, y);
    PathNesting(group, artifact, version, tail);
    var rest := Split(y, "/");
    assert ([group, artifact] + rest)[..3] == [group, artifact, rest[0]];
  }

  lemma VersionFirst(version: string, tail: string)
    requires '/' !in version
    requires tail == [] || tail[0] == '/'
    ensures Split(version + tail, "/")[0] == version
  {
    if tail == [] {
      assert version + tail == version;
      MissingCharNotContained(version, "/", 0);
      SplitSingle(version, "/");
    } else {
      assert version + tail == version + "/" + tail[1..];
      SplitCharFront(version, '/', tail[1..]);
    }
  }

  lemma FrontTwo(group: string, artifact: string, y: string)
    requires '/' !in group && '/' !in artifact
    ensures Split(group + "/" + (artifact + "/" + y), "/") == [group, artifact] + Split(y, "/")
  {
    SplitCharFront(artifact, '/', y);
    SplitCharFront(group, '/', artifact + "/" + y);
  }

  lemma PathNesting(group: string, artifact: string, version: string, tail: string)
    ensures CoordinatePath(group, artifact, version, tail) == group + "/" + (artifact + "/" + (version + tail))
  {
  }

  /** Conversely, two targets come only from a browse-page address, and they
      are the jar and pom of its coordinates. */
  lemma ParseUrlCoordinatesOnly(raw: string)
      returns (prefix: string, group: string, artifact: string, version: string, tail: string)
    requires |ParseUrl(raw).targets| == 2
    ensures CoordinateForm(raw, prefix, group, artifact, version, tail)
    ensures ParseUrl(raw) == CoordinateTargets(group, artifact, version)
  {
    assert Contains(raw, Marker);
    var path;
    prefix, path := SplitAtLast(raw, Marker);
    assert ParseUrl(raw) == FromPath(raw, path);
    var parts := Split(path, "/");
    assert |parts| >= 3;
    SplitCharFacts(path, '/');
    group, artifact, version := parts[0], parts[1], parts[2];
    assert '/' !in group && '/' !in artifact && '/' !in version;
    tail := PathTail(path);
    assert path == CoordinatePath(group, artifact, version, tail);
  }

  /** What follows the first three segments of a path that has them. */
  lemma PathTail(path: string) returns (tail: string)
    requires |Split(path, "/")| >= 3
    ensures var parts := Split(path, "/");
      && path == parts[0] + "/" + parts[1] + "/" + parts[2] + tail
      && (tail == [] || tail[0] == '/')
  {
    var parts := Split(path, "/");
    JoinSplit(path, "/");
    tail := if |parts| == 3 then "" else "/" + Join(parts[3..], "/");
    assert Join(parts, "/") == parts[0] + "/" + Join(parts[1..], "/");
    assert parts[1..][1..] == parts[2..];
    assert Join(parts[1..], "/") == parts[1] + "/" + Join(parts[2..], "/");
    if |parts| > 3 {
      assert parts[2..][1..] == parts[3..];
      assert Join(parts[2..], "/") == parts[2] + "/" + Join(parts[3..], "/");
    }
  }

  /** A marker followed by fewer than three segments is not rejected: the
      input falls back to a single direct target. */
  lemma ParseUrlShortPath(raw: string, prefix: string, rest: string)
    requires raw == prefix + Marker + rest
    requires !Contains(rest, Marker)
    requires Count(rest, '/') < 2
    ensures ParseUrl(raw) == Fallback(raw)
  {
    MarkerNoSelfOverlap();
    ContainsAt(prefix, Marker, rest);
    LastPieceAfter(prefix, Marker, rest);
    SplitCharFacts(rest, '/');
  }

  /** Appending further path segments to a browse-page address changes nothing. */
  lemma ParseUrlIgnoresExtraSegments(raw: string, prefix: string, group: string,
                                     artifact: string, version: string, extra: string)
    requires CoordinateForm(raw, prefix, group, artifact, version, "")
    requires !Contains(CoordinatePath(group, artifact, version, "/" + extra), Marker)
    ensures ParseUrl(raw + "/" + extra) == ParseUrl(raw)
  {
    ParseUrlCoordinates(raw, prefix, group, artifact, version, "");
    var path := CoordinatePath(group, artifact, version, "");
    CoordinatePathTail(group, artifact, version, "/" + extra);
    Regroup(raw, prefix + Marker, path, "/" + extra);
    ParseUrlCoordinates(raw + "/" + extra, prefix, group, artifact, version, "/" + extra);
  }

  lemma CoordinatePathTail(group: string, artifact: string, version: string, tail: string)
    ensures CoordinatePath(group, artifact, version, tail) == CoordinatePath(group, artifact, version, "") + tail
  {
  }

  lemma Regroup(s: string, front: string, back: string, more: string)
    requires s == front + back
    ensures s + more == front + (back + more)
  {
  }

  /** The browse page of `org.example:libfoo:2.3.1`. */
  lemma ParseUrlExample()
    ensures ParseUrl("https://mvnrepository.com/artifact/org.example/libfoo/2.3.1")
         == Parsed([Target("https://repo1.maven.org/maven2/org/example/libfoo/2.3.1/libfoo-2.3.1.jar", "libfoo-2.3.1.jar"),
                    Target("https://repo1.maven.org/maven2/org/example/libfoo/2.3.1/libfoo-2.3.1.pom", "libfoo-2.3.1.pom")],
                   Some("2.3.1"))
  {
    ExampleForm();
    ParseUrlCoordinates("https://mvnrepository.com/artifact/org.example/libfoo/2.3.1",
                        "https://", "org.example", "libfoo", "2.3.1", "");
    ExampleTargets();
  }

  lemma ExampleForm()
    ensures CoordinateForm("https://mvnrepository.com/artifact/org.example/libfoo/2.3.1",
                           "https://", "org.example", "libfoo", "2.3.1", "")
  {
    ExampleAddressText("https://mvnrepository.com/artifact/org.example/libfoo/2.3.1", "org.example");
    FormOf("https://mvnrepository.com/artifact/org.example/libfoo/2.3.1", "https://", "org.example", "libfoo", "2.3.1");
  }

  lemma ExampleAddressText(raw: string, group: string)
    requires raw == "https://mvnrepository.com/artifact/org.example/libfoo/2.3.1" && group == "org.example"
    ensures raw == "https://" + Marker + (group + "/" + "libfoo" + "/" + "2.3.1")
    ensures '/' !in group && 'v' !in group
  {
    ExampleMarkerText();
    ExamplePathText(group);
    ExampleAddressSplit(raw);
    ExampleGroupLetters(group);
  }

  lemma ExampleMarkerText()
    ensures "https://" + Marker == "https://mvnrepository.com/artifact/"
  {
  }

  lemma ExamplePathText(group: string)
    requires group == "org.example"
    ensures group + "/" + "libfoo" + "/" + "2.3.1" == "org.example/libfoo/2.3.1"
  {
  }

  lemma ExampleAddressSplit(raw: string)
    requires raw == "https://mvnrepository.com/artifact/org.example/libfoo/2.3.1"
    ensures raw == "https://mvnrepository.com/artifact/" + "org.example/libfoo/2.3.1"
  {
  }

  lemma ExampleGroupLetters(group: string)
    requires group == "org.example"
    ensures '/' !in group && 'v' !in group
  {
  }

  /** An address of browse-page form without a `v` after the marker. */
  lemma FormOf(raw: string, prefix: string, group: string, artifact: string, version: string)
    requires raw == prefix + Marker + (group + "/" + artifact + "/" + version)
    requires '/' !in group && '/' !in artifact && '/' !in version
    requires 'v' !in group && 'v' !in artifact && 'v' !in version
    ensures CoordinateForm(raw, prefix, group, artifact, version, "")
  {
    var path := CoordinatePath(group, artifact, version, "");
    assert path == group + "/" + artifact + "/" + version;
    assert 'v' !in path;
    assert Marker[1] == 'v';
    MissingCharNotContained(path, Marker, 1);
  }

  lemma ExampleTargets()
    ensures CoordinateTargets("org.example", "libfoo", "2.3.1")
         == Parsed([Target("https://repo1.maven.org/maven2/org/example/libfoo/2.3.1/libfoo-2.3.1.jar", "libfoo-2.3.1.jar"),
                    Target("https://repo1.maven.org/maven2/org/example/libfoo/2.3.1/libfoo-2.3.1.pom", "libfoo-2.3.1.pom")],
                   Some("2.3.1"))
  {
    ExampleFiles();
    ExampleDirectory();
    ExampleUrlText(VersionDirectory("org.example", "libfoo", "2.3.1"));
  }

  lemma ExampleUrlText(dir: string)
    requires dir == "https://repo1.maven.org/maven2/org/example/libfoo/2.3.1"
    ensures dir + "/" + "libfoo-2.3.1.jar" == "https://repo1.maven.org/maven2/org/example/libfoo/2.3.1/libfoo-2.3.1.jar"
    ensures dir + "/" + "libfoo-2.3.1.pom" == "https://repo1.maven.org/maven2/org/example/libfoo/2.3.1/libfoo-2.3.1.pom"
  {
    ExampleJarUrlText(dir);
    ExamplePomUrlText(dir);
  }

  lemma ExampleJarUrlText(dir: string)
    requires dir == "https://repo1.maven.org/maven2/org/example/libfoo/2.3.1"
    ensures dir + "/" + "libfoo-2.3.1.jar" == "https://repo1.maven.org/maven2/org/example/libfoo/2.3.1/libfoo-2.3.1.jar"
  {
  }

  lemma ExamplePomUrlText(dir: string)
    requires dir == "https://repo1.maven.org/maven2/org/example/libfoo/2.3.1"
    ensures dir + "/" + "libfoo-2.3.1.pom" == "https://repo1.maven.org/maven2/org/example/libfoo/2.3.1/libfoo-2.3.1.pom"
  {
  }

  lemma ExampleDirectory()
    ensures VersionDirectory("org.example", "libfoo", "2.3.1") == "https://repo1.maven.org/maven2/org/example/libfoo/2.3.1"
  {
    GroupPathOf("org", "example");
    ExampleGroupText("org.example", "org/example");
    ExampleDirectoryText(GroupPath("org.example"));
  }

  lemma ExampleDirectoryText(path: string)
    requires path == "org/example"
    ensures RepositoryRoot + path + "/" + "libfoo" + "/" + "2.3.1" == "https://repo1.maven.org/maven2/org/example/libfoo/2.3.1"
  {
  }

  lemma ExampleGroupText(group: string, path: string)
    requires group == "org.example" && path == "org/example"
    ensures group == "org" + "." + "example" && path == "org" + "/" + "example"
    ensures '.' !in "org" && '.' !in "example"
  {
  }

  /** A two-part group id becomes a two-level path. */
  lemma GroupPathOf(x: string, y: string)
    requires '.' !in x && '.' !in y
    ensures GroupPath(x + "." + y) == x + "/" + y
  {
    var s := x + "." + y;
    var p := GroupPath(s);
    assert |p| == |x + "/" + y|;
    forall i | 0 <= i < |p| ensures p[i] == (x + "/" + y)[i] {
      if i < |x| {
        assert s[i] == x[i];
      } else if i > |x| {
        assert s[i] == y[i - |x| - 1];
      }
    }
  }

  lemma ExampleFiles()
    ensures ArtifactFile("libfoo", "2.3.1", ".jar") == "libfoo-2.3.1.jar"
    ensures ArtifactFile("libfoo", "2.3.1", ".pom") == "libfoo-2.3.1.pom"
  {
    assert "libfoo" + "-" + "2.3.1" == "libfoo-2.3.1";
  }

  /** An address without the repository marker resolves to itself, named
      after its last segment. */
  lemma FallbackOf(raw: string, dir: string, name: string)
    requires raw == dir + "/" + name && '/' !in name && !Contains(raw, Marker)
    ensures ParseUrl(raw) == Parsed([Target(raw, name)], None)
  {
    LastSegmentAfter(dir, name);
  }

  /** A direct download address resolves to itself, named after its last segment. */
  lemma ParseUrlFallbackExample()
    ensures ParseUrl("https://example.com/files/thing.bin")
         == Parsed([Target("https://example.com/files/thing.bin", "thing.bin")], None)
  {
    FallbackWithoutV("https://example.com/files/thing.bin", "https://example.com/files", "thing.bin");
  }

  /** An address without a `v` cannot hold the marker, so it falls back. */
  lemma FallbackWithoutV(raw: string, dir: string, name: string)
    requires raw == dir + "/" + name && '/' !in name && 'v' !in raw
    ensures ParseUrl(raw) == Parsed([Target(raw, name)], None)
  {
    assert Marker[1] == 'v';
    MissingCharNotContained(raw, Marker, 1);
    FallbackOf(raw, dir, name);
  }
}
