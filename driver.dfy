/** `getDocumentation` and the standalone entry point run sequentially: every directory to parse
    is validated in turn (or recorded as a parse failure), then `postValidate` runs once. The
    parser's results are inputs, one per directory, in the order the directories are visited. */
module Driver {
  import opened Text
  import opened DocTypes
  import opened Diagnostics
  import opened Ingest
  import opened Engine
  import Paths

  /** What parsing one directory gave: the doclets, the nodes the `@see` query visits in the first
      one and the result of its link query; or a rejected promise. */
  datatype ParseResult =
    | Parsed(docs: seq<Doc>, owners: seq<SeeOwner>, links: seq<string>)
    | Failed

  /** A result the `then` callback can handle: a failure, an empty output (which is skipped),
      or doclets whose first one has a path. */
  predicate Processable(r: ParseResult)
  {
    r.Failed? || |r.docs| == 0 || Validatable(r.docs)
  }

  predicate AllProcessable(results: seq<ParseResult>)
  {
    forall i :: 0 <= i < |results| ==> Processable(results[i])
  }

  predicate AnyFailed(results: seq<ParseResult>)
  {
    exists i :: 0 <= i < |results| && results[i].Failed?
  }

  /** The registry after the callbacks for the directory `path`: a failure sets exit code 2 and
      nothing else; an empty output changes nothing; otherwise `validate` runs against the module
      name the directory implies. */
  function Processed(s: RegistryState, path: string, result: ParseResult, strict: bool): RegistryState
    requires Processable(result)
  {
    match result
    case Failed => s.(exitCode := 2)
    case Parsed(docs, owners, links) =>
      if |docs| == 0 then s else Validated(s, docs, Paths.ComponentDirectory(path), owners, links, strict)
  }

  /** The registry after the callbacks for `dirs`, in order. */
  function ParsedAll(s: RegistryState, dirs: seq<string>, results: seq<ParseResult>, strict: bool): RegistryState
    requires |results| == |dirs| && AllProcessable(results)
  {
    if dirs == [] then s
    else
      var n := |dirs| - 1;
      AllProcessablePrefix(results, n);
      Processed(ParsedAll(s, dirs[..n], results[..n], strict), dirs[n], results[n], strict)
  }

  /** The warnings `validate` emits for one directory. */
  function DirectoryWarnings(path: string, result: ParseResult): seq<Warning>
    requires Processable(result)
  {
    if result.Parsed? && |result.docs| > 0
    then ValidationWarnings(result.docs, Paths.ComponentDirectory(path), result.owners)
    else []
  }

  /** The warnings of all directories, in the order they are visited. */
  function ParseWarnings(dirs: seq<string>, results: seq<ParseResult>): seq<Warning>
    requires |results| == |dirs| && AllProcessable(results)
  {
    if dirs == [] then []
    else
      var n := |dirs| - 1;
      AllProcessablePrefix(results, n);
      ParseWarnings(dirs[..n], results[..n]) + DirectoryWarnings(dirs[n], results[n])
  }

  /** The module name `validate` appends for one parse result: that of a non-empty output whose
      validation did not throw. */
  function ValidatedModule(result: ParseResult): seq<string>
  {
    if result.Parsed? && |result.docs| > 0 && !SeeScanOf(result.owners).aborted then [result.docs[0].name] else []
  }

  /** The module names `validate` appends, in order. */
  function ValidatedModules(results: seq<ParseResult>): (r: seq<string>)
    ensures |r| <= |results|
  {
    if results == [] then []
    else ValidatedModules(results[..|results| - 1]) + ValidatedModule(results[|results| - 1])
  }

  lemma {:induction false} AnyFailedSnoc(results: seq<ParseResult>)
    requires results != []
    ensures var n := |results| - 1; AnyFailed(results) <==> AnyFailed(results[..n]) || results[n].Failed?
  {
    var n := |results| - 1;
    var init := results[..n];
    if AnyFailed(results) {
      var k :| 0 <= k < |results| && results[k].Failed?;
      if k < n {
        assert init[k].Failed?;
      }
    }
    if AnyFailed(init) {
      var k :| 0 <= k < |init| && init[k].Failed?;
      assert results[k].Failed?;
    }
  }

  /** What the callbacks for all directories do to the registry: the warnings of each directory
      are appended in order, `allModules` gains the name of every validated module in order, and
      the exit code is 2 after any parse failure (no later warning overwrites it) and otherwise
      the one `warn` leaves after all those warnings. */
  lemma {:induction false} ParsedAllAccount(s: RegistryState, dirs: seq<string>, results: seq<ParseResult>, strict: bool)
    requires |results| == |dirs| && AllProcessable(results)
    ensures var t := ParsedAll(s, dirs, results, strict);
      && t.warnings == s.warnings + ParseWarnings(dirs, results)
      && t.allModules == s.allModules + ValidatedModules(results)
      && (AnyFailed(results) ==> t.exitCode == 2)
      && (!AnyFailed(results) ==> t.exitCode == ExitCodeAfter(s.exitCode, strict, |ParseWarnings(dirs, results)|))
    decreases |dirs|
  {
    if dirs == [] {
      assert !AnyFailed(results);
    } else {
      var n := |dirs| - 1;
      var ds, rs := dirs[..n], results[..n];
      AllProcessablePrefix(results, n);
      ParsedAllAccount(s, ds, rs, strict);
      var prev := ParsedAll(s, ds, rs, strict);
      var pw := ParseWarnings(ds, rs);
      var dw := DirectoryWarnings(dirs[n], results[n]);
      assert ParsedAll(s, dirs, results, strict) == Processed(prev, dirs[n], results[n], strict);
      assert ParseWarnings(dirs, results) == pw + dw;
      assert results[..|results| - 1] == rs;
      assert ValidatedModules(results) == ValidatedModules(rs) + ValidatedModule(results[n]);
      AppendAssoc(s.warnings, pw, dw);
      AppendAssoc(s.allModules, ValidatedModules(rs), ValidatedModule(results[n]));
      AnyFailedSnoc(results);
      ExitCodeAfterAdds(s.exitCode, strict, |pw|, |dw|);
      ProcessedAccount(prev, dirs[n], results[n], strict);
    }
  }

  /** The same for one directory. */
  lemma {:induction false} ProcessedAccount(s: RegistryState, path: string, result: ParseResult, strict: bool)
    requires Processable(result)
    ensures var t := Processed(s, path, result, strict);
      && t.warnings == s.warnings + DirectoryWarnings(path, result)
      && t.allModules == s.allModules + ValidatedModule(result)
      && (result.Failed? ==> t.exitCode == 2)
      && (result.Parsed? ==> t.exitCode == ExitCodeAfter(s.exitCode, strict, |DirectoryWarnings(path, result)|))
  {
    if result.Parsed? && |result.docs| == 0 {
      assert s.warnings + [] == s.warnings;
      assert s.allModules + [] == s.allModules;
    }
  }

  /** The callbacks for one directory: validate a non-empty output against the module name the
      directory implies, or record the failure. The promise `validate` returns is not awaited, so
      a throw in it does not reach the rejection handler. */
  method ProcessDirectory(r: Registry, path: string, result: ParseResult, strict: bool)
    requires Processable(result) && r.Valid()
    modifies r
    ensures r.Valid()
    ensures r.State() == Processed(old(r.State()), path, result, strict)
  {
    match result
    case Failed =>
      r.FailParse();
    case Parsed(docs, owners, links) =>
      if |docs| > 0 {
        var componentDirectory := Paths.ComponentDirectory(path);
        var completed := r.Validate(docs, componentDirectory, owners, links, strict);
      }
  }

  /** The parse callbacks for the directories `dirs`, one after another. */
  method ParseAll(r: Registry, dirs: seq<string>, results: seq<ParseResult>, strict: bool)
    requires |results| == |dirs| && AllProcessable(results)
    requires r.Valid()
    modifies r
    ensures r.Valid()
    ensures r.State() == ParsedAll(old(r.State()), dirs, results, strict)
  {
    var i := 0;
    while i < |dirs|
      invariant 0 <= i <= |dirs|
      invariant r.Valid()
      invariant r.State() == ParsedAll(old(r.State()), dirs[..i], results[..i], strict)
    {
      ParsedAllSnoc(old(r.State()), dirs, results, i, strict);
      ProcessDirectory(r, dirs[i], results[i], strict);
      i := i + 1;
    }
    assert dirs[..|dirs|] == dirs && results[..|results|] == results;
  }

  lemma {:induction false} AllProcessablePrefix(results: seq<ParseResult>, k: nat)
    requires AllProcessable(results) && k <= |results|
    ensures AllProcessable(results[..k])
  {
    forall i | 0 <= i < k ensures Processable(results[..k][i]) {
      assert results[..k][i] == results[i];
    }
  }

  /** One more directory of the loop of `ParseAll`. */
  lemma {:induction false} ParsedAllSnoc(s: RegistryState, dirs: seq<string>, results: seq<ParseResult>, i: nat, strict: bool)
    requires |results| == |dirs| && AllProcessable(results) && i < |dirs|
    ensures AllProcessable(results[..i]) && AllProcessable(results[..i + 1])
    ensures ParsedAll(s, dirs[..i + 1], results[..i + 1], strict)
         == Processed(ParsedAll(s, dirs[..i], results[..i], strict), dirs[i], results[i], strict)
  {
    AllProcessablePrefix(results, i);
    AllProcessablePrefix(results, i + 1);
    assert dirs[..i + 1][..i] == dirs[..i] && results[..i + 1][..i] == results[..i];
  }

  /** `getDocumentation`: one parse per directory of `validPaths`; `results[i]` is the outcome for
      the `i`-th directory. */
  method GetDocumentation(r: Registry, paths: seq<string>, results: seq<ParseResult>, strict: bool)
    requires |results| == |Paths.ValidPaths(paths)| && AllProcessable(results)
    requires r.Valid()
    modifies r
    ensures r.Valid()
    ensures r.State() == ParsedAll(old(r.State()), Paths.ValidPaths(paths), results, strict)
  {
    var dirs := Paths.ValidPaths(paths);
    ParseAll(r, dirs, results, strict);
  }

  /** The standalone run: parse every directory, then resolve with `ignoreExternal` set. */
  method Standalone(r: Registry, paths: seq<string>, results: seq<ParseResult>, strict: bool)
    requires |results| == |Paths.ValidPaths(paths)| && AllProcessable(results)
    requires r.Valid()
    modifies r
    ensures r.State() == Resolved(ParsedAll(old(r.State()), Paths.ValidPaths(paths), results, strict), strict, true)
  {
    GetDocumentation(r, paths, results, strict);
    r.PostValidate(strict, true);
  }

  /** The exit code of a standalone run: 2 after any parse failure; otherwise, in strict mode with
      no code set before, 1 exactly when some line was reported while parsing or resolving. */
  lemma {:induction false} StandaloneExitCode(s: RegistryState, dirs: seq<string>, results: seq<ParseResult>, strict: bool)
    requires |results| == |dirs| && AllProcessable(results)
    ensures var parsed := ParsedAll(s, dirs, results, strict);
      var t := Resolved(parsed, strict, true);
      && |s.warnings| <= |t.warnings| && t.warnings[..|s.warnings|] == s.warnings
      && (AnyFailed(results) ==> t.exitCode == 2)
      && (!AnyFailed(results) ==> t.exitCode == ExitCodeAfter(s.exitCode, strict, |t.warnings| - |s.warnings|))
  {
    var parsed := ParsedAll(s, dirs, results, strict);
    ParsedAllAccount(s, dirs, results, strict);
    var t := Resolved(parsed, strict, true);
    var rw := t.warnings[|parsed.warnings|..];
    assert t.warnings == parsed.warnings + rw;
    AppendAssoc(s.warnings, ParseWarnings(dirs, results), rw);
    assert t.warnings[..|s.warnings|] == s.warnings;
    ExitCodeAfterAdds(s.exitCode, strict, |ParseWarnings(dirs, results)|, |rw|);
  }
}
