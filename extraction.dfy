/** Extraction: turning the analysis server's decoded output into a set of
    errors with relativized paths and the `ignored` / `external` flags. */
module Extraction {
  import opened Records

  /** The filesystem-dependent path functions, given rather than computed.
      `realPath(p)` stands for `realpath(join(analysis_root, p))`;
      `relativePath(q)` stands for the command's `_relative_path(q)`. */
  datatype Filesystem = Filesystem(realPath: string -> string, relativePath: string -> string)

  /** The exception raised when the server's output is not valid JSON. */
  datatype ClientException = ClientException(message: string)

  const InvalidOutputPrefix: string := "Invalid output: `"

  function InvalidOutput(output: string): (e: ClientException)
    ensures |e.message| == |InvalidOutputPrefix| + |output| + 2
    ensures e.message[|InvalidOutputPrefix|..|e.message| - 2] == output
  {
    ClientException(InvalidOutputPrefix + output + "`.")
  }

  // ---------------------------------------------------------------------
  // Ignore-path matching

  /** `fnmatch` restricted to patterns whose only metacharacter is `*`,
      which matches any run of characters (newlines included). */
  function WildcardMatch(name: string, pattern: string): (r: bool)
    decreases |pattern|, |name|
  {
    if pattern == [] then name == []
    else if pattern[0] == '*' then
      WildcardMatch(name, pattern[1..]) || (name != [] && WildcardMatch(name[1..], pattern))
    else
      name != [] && name[0] == pattern[0] && WildcardMatch(name[1..], pattern[1..])
  }

  /** A path with none of `fnmatch`'s metacharacters, so that it matches literally. */
  predicate Literal(p: string)
  {
    forall i :: 0 <= i < |p| ==> p[i] != '*' && p[i] != '?' && p[i] != '['
  }

  /** An error is ignored when some configured path, with `*` appended, matches its full path. */
  predicate IgnoredPath(fullPath: string, ignorePaths: seq<string>)
  {
    exists k :: 0 <= k < |ignorePaths| && WildcardMatch(fullPath, ignorePaths[k] + "*")
  }

  /** An error is external unless its full path starts with the current
      directory, as raw strings (no directory-boundary check). */
  predicate ExternalToGlobalRoot(fullPath: string, currentDirectory: string)
  {
    !(currentDirectory <= fullPath)
  }

  lemma {:induction false} StarMatchesAnything(name: string)
    ensures WildcardMatch(name, "*")
  {
    if name != [] {
      StarMatchesAnything(name[1..]);
    }
  }

  /** A literal ignore path followed by `*` matches exactly the names it is a prefix of. */
  lemma {:induction false} LiteralStarIsPrefix(name: string, p: string)
    requires Literal(p)
    ensures WildcardMatch(name, p + "*") <==> p <= name
    decreases |p|
  {
    if p == [] {
      assert p + "*" == "*";
      StarMatchesAnything(name);
    } else {
      assert (p + "*")[0] == p[0];
      assert (p + "*")[1..] == p[1..] + "*";
      LiteralStarIsPrefix(if name == [] then [] else name[1..], p[1..]);
      if name != [] && name[0] == p[0] {
        assert p <= name <==> p[1..] <= name[1..];
      }
    }
  }

  /** With literal ignore paths, the ignore flag is a prefix search. */
  lemma IgnoredIffUnderSomeIgnorePath(fullPath: string, ignorePaths: seq<string>)
    requires forall k :: 0 <= k < |ignorePaths| ==> Literal(ignorePaths[k])
    ensures IgnoredPath(fullPath, ignorePaths)
        <==> exists k :: 0 <= k < |ignorePaths| && ignorePaths[k] <= fullPath
  {
    forall k | 0 <= k < |ignorePaths|
      ensures WildcardMatch(fullPath, ignorePaths[k] + "*") <==> ignorePaths[k] <= fullPath
    {
      LiteralStarIsPrefix(fullPath, ignorePaths[k]);
    }
  }

  /** The order (and repetition) of the ignore paths does not change the flag. */
  lemma IgnoreOrderIrrelevant(fullPath: string, ps: seq<string>, qs: seq<string>)
    requires forall p :: p in ps <==> p in qs
    ensures IgnoredPath(fullPath, ps) == IgnoredPath(fullPath, qs)
  {
    if IgnoredPath(fullPath, ps) {
      var k :| 0 <= k < |ps| && WildcardMatch(fullPath, ps[k] + "*");
      assert ps[k] in qs;
      var j :| 0 <= j < |qs| && qs[j] == ps[k];
      assert WildcardMatch(fullPath, qs[j] + "*");
    }
    if IgnoredPath(fullPath, qs) {
      var k :| 0 <= k < |qs| && WildcardMatch(fullPath, qs[k] + "*");
      assert qs[k] in ps;
      var j :| 0 <= j < |ps| && ps[j] == qs[k];
      assert WildcardMatch(fullPath, ps[j] + "*");
    }
  }

  /** The current-directory test is a raw string prefix: a sibling directory
      whose name extends the current directory's counts as inside it. */
  lemma SiblingDirectoryCountsAsInside()
    ensures !ExternalToGlobalRoot("/proj2/x.py", "/proj")
    ensures ExternalToGlobalRoot("/lib/x.py", "/proj")
  {
    assert "/proj" == "/proj2/x.py"[..5];
    assert "/lib/x.py"[1] != "/proj"[1];
  }

  // ---------------------------------------------------------------------
  // The record built for one entry, and the set built for all of them

  /** The error recorded for one decoded entry. */
  ghost function Normalize(entry: RawEntry, settings: Settings, fs: Filesystem): (e: Error)
  {
    var fullPath := fs.realPath(entry.path);
    Error(
      IgnoredPath(fullPath, settings.ignoreAllErrorsPaths),
      ExternalToGlobalRoot(fullPath, settings.currentDirectory),
      fs.relativePath(fullPath),
      entry.line,
      entry.column,
      entry.payload)
  }

  /** The set accumulated over the entries, in order. De-duplication never
      grows it beyond the number of entries. */
  ghost function Collect(entries: seq<RawEntry>, settings: Settings, fs: Filesystem): (r: set<Error>)
    ensures |r| <= |entries|
  {
    if entries == [] then {}
    else Collect(entries[..|entries| - 1], settings, fs) + {Normalize(entries[|entries| - 1], settings, fs)}
  }

  /** Extending the entries by one adds that entry's record. */
  lemma CollectStep(entries: seq<RawEntry>, i: nat, settings: Settings, fs: Filesystem)
    requires i < |entries|
    ensures Collect(entries[..i + 1], settings, fs)
      == Collect(entries[..i], settings, fs) + {Normalize(entries[i], settings, fs)}
  {
    assert entries[..i + 1][..i] == entries[..i];
  }

  /** The set holds exactly the records of the entries. */
  lemma {:induction false} CollectMembers(entries: seq<RawEntry>, settings: Settings, fs: Filesystem)
    ensures forall e ::
      (e in Collect(entries, settings, fs) <==>
       exists i :: 0 <= i < |entries| && Normalize(entries[i], settings, fs) == e)
  {
    forall e | e in Collect(entries, settings, fs)
      ensures exists i :: 0 <= i < |entries| && Normalize(entries[i], settings, fs) == e
    {
      CollectOnlyEntries(entries, settings, fs, e);
    }
    forall i | 0 <= i < |entries|
      ensures Normalize(entries[i], settings, fs) in Collect(entries, settings, fs)
    {
      CollectEveryEntry(entries, settings, fs, i);
    }
  }

  lemma {:induction false} CollectOnlyEntries(entries: seq<RawEntry>, settings: Settings, fs: Filesystem, e: Error)
    requires e in Collect(entries, settings, fs)
    ensures exists i :: 0 <= i < |entries| && Normalize(entries[i], settings, fs) == e
  {
    var n := |entries| - 1;
    if e != Normalize(entries[n], settings, fs) {
      var init := entries[..n];
      CollectOnlyEntries(init, settings, fs, e);
      var i :| 0 <= i < |init| && Normalize(init[i], settings, fs) == e;
      assert entries[i] == init[i];
    }
  }

  lemma {:induction false} CollectEveryEntry(entries: seq<RawEntry>, settings: Settings, fs: Filesystem, i: nat)
    requires i < |entries|
    ensures Normalize(entries[i], settings, fs) in Collect(entries, settings, fs)
    decreases |entries|
  {
    var n := |entries| - 1;
    if i < n {
      var init := entries[..n];
      CollectEveryEntry(init, settings, fs, i);
      assert init[i] == entries[i];
    }
  }

  /** Repeating an entry that is already present leaves the set unchanged. */
  lemma RepeatedEntryCollapses(entries: seq<RawEntry>, i: nat, settings: Settings, fs: Filesystem)
    requires i < |entries|
    ensures Collect(entries + [entries[i]], settings, fs) == Collect(entries, settings, fs)
  {
    var longer := entries + [entries[i]];
    assert longer[..|longer| - 1] == entries;
    CollectMembers(entries, settings, fs);
  }

  /** Two entries whose paths resolve to the same file and whose other
      fields agree produce a single error. */
  lemma SameFileEntriesCollapse(a: RawEntry, b: RawEntry, settings: Settings, fs: Filesystem)
    requires fs.realPath(a.path) == fs.realPath(b.path)
    requires a.line == b.line && a.column == b.column && a.payload == b.payload
    ensures |Collect([a, b], settings, fs)| == 1
  {
    assert [a, b][..1] == [a];
    assert [a][..0] == [];
    assert Normalize(a, settings, fs) == Normalize(b, settings, fs);
    assert Collect([a], settings, fs) == {Normalize(a, settings, fs)};
    assert Collect([a, b], settings, fs) == {Normalize(a, settings, fs)};
  }

  // ---------------------------------------------------------------------
  // The extraction itself

  /** Scans the ignore paths in order and stops at the first one that,
      with `*` appended, matches the full path. */
  method MatchesIgnorePath(fullPath: string, ignorePaths: seq<string>) returns (found: bool)
    ensures found == IgnoredPath(fullPath, ignorePaths)
  {
    found := false;
    var k := 0;
    while k < |ignorePaths|
      invariant 0 <= k <= |ignorePaths|
      invariant !found
      invariant forall j :: 0 <= j < k ==> !WildcardMatch(fullPath, ignorePaths[j] + "*")
    {
      if WildcardMatch(fullPath, ignorePaths[k] + "*") {
        found := true;
        break;
      }
      k := k + 1;
    }
  }

  /** Decodes the server's output with `decode` (standing for `json.loads`,
      `None` on a decoding error) and returns the set of errors, or the
      exception carrying the raw output. */
  method GetErrors(output: string, decode: string -> Option<seq<RawEntry>>, settings: Settings, fs: Filesystem)
    returns (r: Result<set<Error>, ClientException>)
    ensures decode(output).None? ==> r == Failure(InvalidOutput(output))
    ensures decode(output).Some? ==> r == Success(Collect(decode(output).value, settings, fs))
    ensures decode(output).Some? ==> |r.value| <= |decode(output).value|
    ensures decode(output).Some? ==> forall e ::
      (e in r.value <==>
       exists i :: 0 <= i < |decode(output).value| && Normalize(decode(output).value[i], settings, fs) == e)
  {
    var decoded := decode(output);
    if decoded.None? {
      return Failure(InvalidOutput(output));
    }
    var results := decoded.value;
    var errors: set<Error> := {};
    var i := 0;
    while i < |results|
      invariant 0 <= i <= |results|
      invariant errors == Collect(results[..i], settings, fs)
    {
      var entry := results[i];
      var fullPath := fs.realPath(entry.path);
      var relativePath := fs.relativePath(fullPath);
      var externalToGlobalRoot := true;
      if settings.currentDirectory <= fullPath {
        externalToGlobalRoot := false;
      }
      var ignoreError := MatchesIgnorePath(fullPath, settings.ignoreAllErrorsPaths);
      var error := Error(ignoreError, externalToGlobalRoot, relativePath, entry.line, entry.column, entry.payload);
      assert error == Normalize(entry, settings, fs);
      CollectStep(results, i, settings, fs);
      errors := errors + {error};
      assert errors == Collect(results[..i + 1], settings, fs);
      i := i + 1;
    }
    assert results[..i] == results;
    CollectMembers(results, settings, fs);
    return Success(errors);
  }
}
