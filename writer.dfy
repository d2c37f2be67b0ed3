/** `writeContracts` and the `exportMain` pipeline over an in-memory file
    system: a map from absolute path to file content. */
module ContractWriter {
  import opened Wrappers
  import opened ContractPaths
  import opened Explorer

  type Files = map<string, string>

  /** The manifest entry `e` is written, and to `path`. */
  predicate WritesTo(cwd: string, e: Entry, path: string) {
    IsSolFile(e.path) && TargetPath(cwd, e.path) == path
  }

  /** The paths that writing `m` touches. */
  function Targets(cwd: string, m: Manifest): set<string> {
    set k | 0 <= k < |m| && IsSolFile(m[k].path) :: TargetPath(cwd, m[k].path)
  }

  lemma TargetsSnoc(cwd: string, m: Manifest)
    requires m != []
    ensures var e := m[|m| - 1];
            Targets(cwd, m) == Targets(cwd, m[..|m| - 1]) + (if IsSolFile(e.path) then {TargetPath(cwd, e.path)} else {})
  {
    var front := m[..|m| - 1];
    assert forall k :: 0 <= k < |front| ==> front[k] == m[k];
  }

  /** The files after each entry of `m` is written in order: a `.sol` key
      overwrites its target with its content, any other key is skipped. */
  function Written(files: Files, cwd: string, m: Manifest): (r: Files)
    ensures r.Keys == files.Keys + Targets(cwd, m)
    decreases |m|
  {
    if m == [] then files
    else
      var before := Written(files, cwd, m[..|m| - 1]);
      var e := m[|m| - 1];
      TargetsSnoc(cwd, m);
      if IsSolFile(e.path) then before[TargetPath(cwd, e.path) := e.content] else before
  }

  /** A path no entry is written to keeps what it held, or stays absent. */
  lemma {:induction false} WrittenUntouched(files: Files, cwd: string, m: Manifest, path: string)
    requires forall k :: 0 <= k < |m| ==> !WritesTo(cwd, m[k], path)
    ensures path in Written(files, cwd, m) <==> path in files
    ensures path in files ==> Written(files, cwd, m)[path] == files[path]
    decreases |m|
  {
    if m != [] {
      WrittenUntouched(files, cwd, m[..|m| - 1], path);
    }
  }

  /** A target holds the content of the last entry written to it. */
  lemma {:induction false} WrittenLastWins(files: Files, cwd: string, m: Manifest, j: nat)
    requires j < |m| && IsSolFile(m[j].path)
    requires forall k :: j < k < |m| ==> !WritesTo(cwd, m[k], TargetPath(cwd, m[j].path))
    ensures TargetPath(cwd, m[j].path) in Written(files, cwd, m)
    ensures Written(files, cwd, m)[TargetPath(cwd, m[j].path)] == m[j].content
    decreases |m|
  {
    if j < |m| - 1 {
      var front := m[..|m| - 1];
      assert front[j] == m[j];
      WrittenLastWins(files, cwd, front, j);
    }
  }

  /** The entries of `m` that pass the `.sol` filter, in order. */
  function SolEntries(m: Manifest): (r: Manifest)
    ensures |r| <= |m|
    ensures forall e :: e in r <==> e in m && IsSolFile(e.path)
    decreases |m|
  {
    if m == [] then []
    else
      var e := m[|m| - 1];
      var front := SolEntries(m[..|m| - 1]);
      assert forall x :: x in m <==> x in m[..|m| - 1] || x == e;
      if IsSolFile(e.path) then front + [e] else front
  }

  /** Writing one more entry after `m`. */
  lemma WrittenSnoc(files: Files, cwd: string, m: Manifest, e: Entry)
    ensures Written(files, cwd, m + [e]) ==
              if IsSolFile(e.path) then Written(files, cwd, m)[TargetPath(cwd, e.path) := e.content]
              else Written(files, cwd, m)
  {
    assert (m + [e])[..|m|] == m;
  }

  /** Keys without the `.sol` extension change nothing: writing the
      manifest is writing its `.sol` entries alone. */
  lemma {:induction false} NonSolIgnored(files: Files, cwd: string, m: Manifest)
    ensures Written(files, cwd, m) == Written(files, cwd, SolEntries(m))
    decreases |m|
  {
    if m != [] {
      var e := m[|m| - 1];
      var front := m[..|m| - 1];
      assert m == front + [e];
      NonSolIgnored(files, cwd, front);
      WrittenSnoc(files, cwd, front, e);
      if IsSolFile(e.path) {
        WrittenSnoc(files, cwd, SolEntries(front), e);
      }
    }
  }

  /** No two `.sol` entries of `m` are written to the same path. */
  predicate NoTargetClash(cwd: string, m: Manifest) {
    forall i, j :: 0 <= i < j < |m| && IsSolFile(m[i].path) && IsSolFile(m[j].path) ==>
      TargetPath(cwd, m[i].path) != TargetPath(cwd, m[j].path)
  }

  /** Without clashing targets, every `.sol` entry ends up in exactly its
      own file with its own content. */
  lemma WrittenEachOnce(files: Files, cwd: string, m: Manifest)
    requires NoTargetClash(cwd, m)
    ensures forall j :: 0 <= j < |m| && IsSolFile(m[j].path) ==>
              TargetPath(cwd, m[j].path) in Written(files, cwd, m) &&
              Written(files, cwd, m)[TargetPath(cwd, m[j].path)] == m[j].content
  {
    forall j | 0 <= j < |m| && IsSolFile(m[j].path)
      ensures TargetPath(cwd, m[j].path) in Written(files, cwd, m)
      ensures Written(files, cwd, m)[TargetPath(cwd, m[j].path)] == m[j].content
    {
      WrittenLastWins(files, cwd, m, j);
    }
  }

  /** Distinct keys clash only through a module key and its spelled-out
      location under "contracts/"; without such a pair there is no clash. */
  lemma DistinctKeysNoClash(cwd: string, m: Manifest)
    requires forall i, j :: 0 <= i < j < |m| ==> m[i].path != m[j].path
    requires forall i, j :: 0 <= i < |m| && 0 <= j < |m| && IsModule(m[i].path) ==>
               m[j].path != BaseContractPath + "/" + m[i].path
    ensures NoTargetClash(cwd, m)
  {
    forall i, j | 0 <= i < j < |m| && IsSolFile(m[i].path) && IsSolFile(m[j].path)
      ensures TargetPath(cwd, m[i].path) != TargetPath(cwd, m[j].path)
    {
      TargetCollision(cwd, m[i].path, m[j].path);
    }
  }

  /** The working tree the downloader writes into. */
  class FileSystem {
    var files: Files

    constructor (initial: Files)
      ensures files == initial
    {
      files := initial;
    }

    /** `fs.ensureFileSync` then `fs.writeFileSync`: create the file if it is
        missing, then overwrite it. */
    method WriteFile(path: string, content: string)
      modifies this
      ensures files == old(files)[path := content]
    {
      files := files[path := content];
    }

    /** `writeContracts`: visit the manifest in order, skip keys that are not
        `.sol` files, and overwrite each target with its entry's content. */
    method WriteContracts(cwd: string, m: Manifest)
      modifies this
      ensures files == Written(old(files), cwd, m)
    {
      var i := 0;
      while i < |m|
        invariant 0 <= i <= |m|
        invariant files == Written(old(files), cwd, m[..i])
      {
        var e := m[i];
        assert m[..i + 1][..i] == m[..i];
        if IsSolFile(e.path) {
          var target := TargetPath(cwd, e.path);
          WriteFile(target, e.content);
        }
        i := i + 1;
      }
      assert m[..i] == m;
    }

    /** `exportMain` from the explorer's response on: a thrown error writes
        nothing; otherwise the derived manifest is written. */
    method ExportMain(parse: Parser, resp: Response, cwd: string) returns (thrown: Option<Failure>)
      modifies this
      ensures ProcessESRes(parse, resp).Failure? ==>
                thrown == Some(ProcessESRes(parse, resp).error) && files == old(files)
      ensures ProcessESRes(parse, resp).Success? ==>
                thrown == None && files == Written(old(files), cwd, ProcessESRes(parse, resp).value)
    {
      var r := ProcessESRes(parse, resp);
      match r
      case Failure(err) =>
        thrown := Some(err);
      case Success(m) =>
        WriteContracts(cwd, m);
        thrown := None;
    }
  }

  /** A single-file contract whose source is not JSON: exactly one file,
      `<cwd>/<name>.sol` (under `contracts/` when the name starts with "@"),
      holding the raw source, and nothing else changes. */
  lemma SingleFileDownload(parse: Parser, resp: Response, files: Files, cwd: string)
    requires !IsFailStatus(resp.status) && resp.result.Contracts? && resp.result.items != []
    requires parse(resp.result.items[0].sourceCode).None?
    requires parse(Unwrapped(resp.result.items[0].sourceCode)).None?
    requires resp.result.items[0].contractName != []
    ensures var info := resp.result.items[0];
            && ProcessESRes(parse, resp).Success?
            && Written(files, cwd, ProcessESRes(parse, resp).value) ==
                 files[TargetPath(cwd, info.contractName + ".sol") := info.sourceCode]
  {
    var info := resp.result.items[0];
    ProcessPlainSource(parse, resp);
    SolSuffixIsSolFile(info.contractName);
    var m := [Entry(info.contractName + ".sol", info.sourceCode)];
    WrittenSnoc(files, cwd, [], m[0]);
    assert [] + [m[0]] == m;
  }

  /** A multi-file response with one file "Foo.sol": it is written to the top
      of the working directory. */
  lemma FooDownload(parse: Parser, resp: Response, files: Files, cwd: string)
    requires !IsFailStatus(resp.status) && resp.result.Contracts? && resp.result.items != []
    requires parse(resp.result.items[0].sourceCode) == Some(Truthy(Some([Entry("Foo.sol", "contract Foo{}")])))
    ensures ProcessESRes(parse, resp).Success?
    ensures Written(files, cwd, ProcessESRes(parse, resp).value) == files[cwd + "/Foo.sol" := "contract Foo{}"]
  {
    var m := [Entry("Foo.sol", "contract Foo{}")];
    ProcessMultiFile(parse, resp, m);
    SolSuffixIsSolFile("Foo");
    assert "Foo" + SolExtension == "Foo.sol";
    assert !IsModule("Foo.sol") by { assert "Foo.sol"[..1][0] == 'F'; }
    assert cwd + "/" + "Foo.sol" == cwd + "/Foo.sol";
    WrittenSnoc(files, cwd, [], m[0]);
    assert [] + [m[0]] == m;
  }
}
