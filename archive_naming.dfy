/** How the downloader names its archive: the first downloaded file name
    without its extension (`os.path.splitext`), plus `.zip`, with every
    character other than letters, digits, space, `.`, `_` and `-` dropped,
    then trailing whitespace stripped. */
module ArchiveNaming {
  import opened Text

  /** Index of the last `c` in `s`, or -1 (`str.rfind`). */
  function RFind(s: string, c: char): (r: int)
    ensures -1 <= r < |s|
    ensures r >= 0 ==> s[r] == c
    ensures forall j :: r < j < |s| ==> s[j] != c
  {
    if s == [] then -1
    else if s[|s| - 1] == c then |s| - 1
    else RFind(s[..|s| - 1], c)
  }

  /** Some character of `s[lo..hi]` is not a dot. */
  predicate HasNonDot(s: string, lo: int, hi: int)
    requires 0 <= lo && hi <= |s|
  {
    exists j :: lo <= j < hi && s[j] != '.'
  }

  /** `os.path.splitext(p)[0]` with `/` as the path separator: the text
      before the last dot of the last path component, unless that dot only
      follows leading dots of the component (as in `.bashrc`). */
  function Stem(p: string): (r: string)
    ensures |r| <= |p| && p[..|r|] == r
  {
    var sepIndex := RFind(p, '/');
    var dotIndex := RFind(p, '.');
    if dotIndex > sepIndex && HasNonDot(p, sepIndex + 1, dotIndex) then p[..dotIndex] else p
  }

  /** Stem keeps a prefix; when it cuts, it cuts exactly at the last dot,
      which lies in the last path component after some non-dot character. */
  lemma StemShape(p: string)
    ensures var s := Stem(p);
      && |s| <= |p| && p[..|s|] == s
      && (s != p ==> p[|s|] == '.' && '.' !in p[|s| + 1..] && '/' !in p[|s|..]
                     && exists j :: 0 <= j < |s| && s[j] != '.' && '/' !in s[j..])
  {
    var sepIndex := RFind(p, '/');
    var dotIndex := RFind(p, '.');
    if dotIndex > sepIndex && HasNonDot(p, sepIndex + 1, dotIndex) {
      StemCut(p, sepIndex, dotIndex);
    }
  }

  /** The converse of `StemShape`: a name that ends in a dot and an
      extension without dots or `/`, after a last component holding some
      non-dot character, loses exactly that dot and extension. */
  lemma StemOf(a: string, b: string)
    requires '.' !in b && '/' !in b
    requires exists j :: 0 <= j < |a| && a[j] != '.' && '/' !in a[j..]
    ensures Stem(a + "." + b) == a
  {
    var p := a + "." + b;
    var n := |a|;
    var j :| 0 <= j < |a| && a[j] != '.' && '/' !in a[j..];
    var dotIndex := RFind(p, '.');
    var sepIndex := RFind(p, '/');
    assert p[n] == '.';
    assert dotIndex == n;
    assert sepIndex < j;
    assert p[j] == a[j];
    assert HasNonDot(p, sepIndex + 1, dotIndex);
    assert p[..n] == a;
  }

  /** `p` has an extension starting at its dot `n`: no dot and no `/`
      after it, and some non-dot character before it in the same component. */
  predicate CutsAt(p: string, n: int)
  {
    && 0 <= n < |p| && p[n] == '.' && '.' !in p[n + 1..] && '/' !in p[n..]
    && exists j :: 0 <= j < n && p[j] != '.' && '/' !in p[j..n]
  }

  /** Otherwise the name is kept whole: a name without an extension is
      its own stem. */
  lemma StemUnchanged(p: string)
    requires forall n :: !CutsAt(p, n)
    ensures Stem(p) == p
  {
    var s := Stem(p);
    StemShape(p);
    if s != p {
      var j :| 0 <= j < |s| && s[j] != '.' && '/' !in s[j..];
      assert s[j..] == p[j..|s|];
      assert p[j] == s[j];
      assert CutsAt(p, |s|);
    }
  }

  /** Cutting at a dot after the last `/` that follows a non-dot character. */
  lemma StemCut(p: string, sepIndex: int, dotIndex: int)
    requires -1 <= sepIndex < dotIndex < |p| && p[dotIndex] == '.'
    requires forall j :: dotIndex < j < |p| ==> p[j] != '.'
    requires forall j :: sepIndex < j < |p| ==> p[j] != '/'
    requires HasNonDot(p, sepIndex + 1, dotIndex)
    ensures var s := p[..dotIndex];
      && p[|s|] == '.' && '.' !in p[|s| + 1..] && '/' !in p[|s|..]
      && exists j :: 0 <= j < |s| && s[j] != '.' && '/' !in s[j..]
  {
    StemCutTail(p, sepIndex, dotIndex);
    StemCutHead(p, sepIndex, dotIndex);
  }

  lemma StemCutTail(p: string, sepIndex: int, dotIndex: int)
    requires -1 <= sepIndex < dotIndex < |p|
    requires forall j :: dotIndex < j < |p| ==> p[j] != '.'
    requires forall j :: sepIndex < j < |p| ==> p[j] != '/'
    ensures '.' !in p[dotIndex + 1..] && '/' !in p[dotIndex..]
  {
    assert forall i :: 0 <= i < |p[dotIndex..]| ==> p[dotIndex..][i] == p[dotIndex + i];
  }

  lemma StemCutHead(p: string, sepIndex: int, dotIndex: int)
    requires -1 <= sepIndex < dotIndex < |p|
    requires forall j :: sepIndex < j < |p| ==> p[j] != '/'
    requires HasNonDot(p, sepIndex + 1, dotIndex)
    ensures var s := p[..dotIndex]; exists j :: 0 <= j < |s| && s[j] != '.' && '/' !in s[j..]
  {
    var s := p[..dotIndex];
    var j :| sepIndex + 1 <= j < dotIndex && p[j] != '.';
    assert s[j] != '.';
    assert forall i :: 0 <= i < |s[j..]| ==> s[j..][i] == p[j + i] != '/';
  }

  /** `c.isalpha() or c.isdigit() or c in (' ', '.', '_', '-')`, over ASCII. */
  predicate IsSafe(c: char)
  {
    ('a' <= c <= 'z') || ('A' <= c <= 'Z') || ('0' <= c <= '9') || c == ' ' || c == '.' || c == '_' || c == '-'
  }

  /** The filtering comprehension: keep the safe characters, in order. */
  function Sanitize(s: string): (r: string)
    ensures forall i :: 0 <= i < |r| ==> IsSafe(r[i])
    ensures |r| <= |s|
  {
    if s == [] then [] else (if IsSafe(s[0]) then [s[0]] else []) + Sanitize(s[1..])
  }

  /** Whitespace for `str.rstrip()`: space, tab to carriage return, and the
      four information separators. */
  predicate IsWhitespace(c: char)
  {
    c == ' ' || ('\t' <= c <= '\r') || ('\U{1C}' <= c <= '\U{1F}')
  }

  /** `s.rstrip()`. */
  function RStrip(s: string): (r: string)
    ensures |r| <= |s| && s[..|r|] == r
    ensures r == [] || !IsWhitespace(r[|r| - 1])
    ensures forall i :: |r| <= i < |s| ==> IsWhitespace(s[i])
  {
    if s == [] || !IsWhitespace(s[|s| - 1]) then s else RStrip(s[..|s| - 1])
  }

  /** The archive name for the first downloaded file name. */
  function ArchiveName(first: string): (r: string)
    ensures forall i :: 0 <= i < |r| ==> IsSafe(r[i])
    ensures |r| <= |first| + 4
  {
    RStrip(Sanitize(Stem(first) + ".zip"))
  }

  // ---------------------------------------------------------------------------

  /** Filtering distributes over concatenation. */
  lemma {:induction false} SanitizeAppend(a: string, b: string)
    ensures Sanitize(a + b) == Sanitize(a) + Sanitize(b)
    decreases |a|
  {
    if a != [] {
      assert (a + b)[0] == a[0];
      assert (a + b)[1..] == a[1..] + b;
      SanitizeAppend(a[1..], b);
      var head := if IsSafe(a[0]) then [a[0]] else [];
      assert Sanitize(a + b) == head + (Sanitize(a[1..]) + Sanitize(b));
      assert Sanitize(a) == head + Sanitize(a[1..]);
    } else {
      assert a + b == b;
    }
  }

  /** Filtering keeps a string made only of safe characters as it is. */
  lemma {:induction false} SanitizeSafe(s: string)
    requires forall i :: 0 <= i < |s| ==> IsSafe(s[i])
    ensures Sanitize(s) == s
    decreases |s|
  {
    if s != [] {
      SanitizeSafe(s[1..]);
    }
  }

  /** An unsafe character is dropped, not replaced: it contributes nothing
      to the filtered text. */
  lemma SanitizeDropsUnsafe(a: string, c: char, b: string)
    requires !IsSafe(c)
    ensures Sanitize(a + [c] + b) == Sanitize(a) + Sanitize(b)
  {
    calc {
      Sanitize(a + [c] + b);
    == { SanitizeAppend(a + [c], b); }
      Sanitize(a + [c]) + Sanitize(b);
    == { SanitizeAppend(a, [c]); SanitizeUnsafeChar(c); }
      Sanitize(a) + Sanitize(b);
    }
  }

  lemma SanitizeUnsafeChar(c: char)
    requires !IsSafe(c)
    ensures Sanitize([c]) == []
  {
    assert [c][1..] == [];
  }

  /** Filtering twice is filtering once. */
  lemma SanitizeIdempotent(s: string)
    ensures Sanitize(Sanitize(s)) == Sanitize(s)
  {
    SanitizeSafe(Sanitize(s));
  }

  /** A safe character survives the filter: nothing safe is lost. */
  lemma {:induction false} SanitizeKeepsSafe(s: string, i: nat)
    requires i < |s| && IsSafe(s[i])
    ensures s[i] in Sanitize(s)
    decreases |s|
  {
    if i > 0 {
      SanitizeKeepsSafe(s[1..], i - 1);
    }
  }

  /** The archive name is the sanitised stem followed by `.zip`, so it always
      ends in `.zip`, the final `rstrip` removes nothing, and every one of
      its characters is safe. */
  lemma ArchiveNameShape(first: string)
    ensures ArchiveName(first) == Sanitize(Stem(first)) + ".zip"
    ensures forall i :: 0 <= i < |ArchiveName(first)| ==> IsSafe(ArchiveName(first)[i])
  {
    SanitizeAppend(Stem(first), ".zip");
    SanitizeSafe(".zip");
    var s := Sanitize(Stem(first)) + ".zip";
    assert s[|s| - 1] == 'p';
  }

  /** The names for a jar coordinate, a direct download, and a download
      whose name still holds an escaped space. */
  lemma ArchiveNameExamples()
    ensures ArchiveName("libfoo-2.3.1.jar") == "libfoo-2.3.1.zip"
    ensures ArchiveName("thing.bin") == "thing.zip"
    ensures ArchiveName("thing%20v1.bin") == "thing20v1.zip"
  {
    ArchiveNameJar();
    ArchiveNameBin();
    ArchiveNameEscaped();
  }

  lemma ArchiveNameEscaped()
    ensures ArchiveName("thing%20v1.bin") == "thing20v1.zip"
  {
    StemEscaped();
    assert forall i :: 0 <= i < |"thing"| ==> IsSafe("thing"[i]);
    assert forall i :: 0 <= i < |"20v1"| ==> IsSafe("20v1"[i]);
    NameOfStemWithUnsafe("thing%20v1.bin", "thing", '%', "20v1");
  }

  lemma StemEscaped()
    ensures Stem("thing%20v1.bin") == "thing" + ['%'] + "20v1"
  {
    var a := "thing%20v1";
    assert '/' !in a[0..];
    StemOf(a, "bin");
    assert a + "." + "bin" == "thing%20v1.bin";
    assert a == "thing" + ['%'] + "20v1";
  }

  /** A stem made of safe text around one unsafe character names the
      archive after the safe text alone. */
  lemma NameOfStemWithUnsafe(first: string, a: string, c: char, b: string)
    requires Stem(first) == a + [c] + b && !IsSafe(c)
    requires forall i :: 0 <= i < |a| ==> IsSafe(a[i])
    requires forall i :: 0 <= i < |b| ==> IsSafe(b[i])
    ensures ArchiveName(first) == a + b + ".zip"
  {
    ArchiveNameShape(first);
    SanitizeDropsUnsafe(a, c, b);
    SanitizeSafe(a);
    SanitizeSafe(b);
  }

  lemma ArchiveNameJar()
    ensures ArchiveName("libfoo-2.3.1.jar") == "libfoo-2.3.1.zip"
  {
    StemJar();
    assert forall i :: 0 <= i < |"libfoo-2.3.1"| ==> IsSafe("libfoo-2.3.1"[i]);
    NameOfSafeStem("libfoo-2.3.1.jar", "libfoo-2.3.1");
  }

  lemma ArchiveNameBin()
    ensures ArchiveName("thing.bin") == "thing.zip"
  {
    StemBin();
    assert forall i :: 0 <= i < |"thing"| ==> IsSafe("thing"[i]);
    NameOfSafeStem("thing.bin", "thing");
  }

  lemma NameOfSafeStem(first: string, stem: string)
    requires Stem(first) == stem
    requires forall i :: 0 <= i < |stem| ==> IsSafe(stem[i])
    ensures ArchiveName(first) == stem + ".zip"
  {
    ArchiveNameShape(first);
    SanitizeSafe(stem);
  }

  lemma StemJar()
    ensures Stem("libfoo-2.3.1.jar") == "libfoo-2.3.1"
  {
    var p := "libfoo-2.3.1.jar";
    assert forall i :: 0 <= i < |p| ==> p[i] != '/';
    assert p[12] == '.' && p[13] != '.' && p[14] != '.' && p[15] != '.';
    assert RFind(p, '/') == -1;
    assert RFind(p, '.') == 12;
    assert p[0] != '.';
  }

  lemma StemBin()
    ensures Stem("thing.bin") == "thing"
  {
    var p := "thing.bin";
    assert forall i :: 0 <= i < |p| ==> p[i] != '/';
    assert p[5] == '.' && p[6] != '.' && p[7] != '.' && p[8] != '.';
    assert RFind(p, '/') == -1;
    assert RFind(p, '.') == 5;
    assert p[0] != '.';
  }
}
