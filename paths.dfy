/** Which manifest keys the downloader writes, and where: `checkIfSolFile`,
    `checkIfContractIsModule` and the target path built in `writeContracts`.
    Paths are joined with a plain "/"; `path.join` normalisation is not
    modelled. */
module ContractPaths {
  import opened JsStrings

  const SolExtension: string := ".sol"
  const ModuleMarker: string := "@"
  const BaseContractPath: string := "contracts"

  /** `checkIfSolFile`: the key names a Solidity file. */
  predicate IsSolFile(path: string) {
    EndsWith(path, SolExtension)
  }

  /** `checkIfContractIsModule`: the key names a Solidity file of a
      downloaded package (an "@scope/..." path). */
  predicate IsModule(path: string) {
    IsSolFile(path) && StartsWith(path, ModuleMarker)
  }

  /** A module path is a Solidity file that is at least "@" followed by
      ".sol": the marker and the extension cannot overlap. */
  lemma ModuleShape(path: string)
    requires IsModule(path)
    ensures IsSolFile(path)
    ensures |path| >= 5 && path == ModuleMarker + path[1..|path| - 4] + SolExtension
  {
    assert path[0] == path[..1][0];
    assert path[|path| - 4] == path[|path| - 4..][0];
  }

  /** Conversely, "@" + name + ".sol" is a module path for every name. */
  lemma ModuleFromName(name: string)
    ensures IsModule(ModuleMarker + name + SolExtension)
  {
    var path := ModuleMarker + name + SolExtension;
    assert path[..1] == ModuleMarker;
    assert path[|path| - 4..] == SolExtension;
  }

  /** Any name followed by ".sol" passes the write filter. */
  lemma SolSuffixIsSolFile(name: string)
    ensures IsSolFile(name + SolExtension)
  {
    assert (name + SolExtension)[|name|..] == SolExtension;
  }

  function JoinPath(dir: string, rest: string): string {
    dir + "/" + rest
  }

  /** Where `writeContracts` writes the key `key`, relative to the working
      directory `cwd`: modules under `contracts/`, any other key as given. */
  function TargetPath(cwd: string, key: string): (target: string)
    ensures IsModule(key) ==> target == cwd + "/" + (BaseContractPath + "/" + key)
    ensures !IsModule(key) ==> target == cwd + "/" + key
  {
    var relative := if IsModule(key) then JoinPath(BaseContractPath, key) else key;
    JoinPath(cwd, relative)
  }

  /** The key is the tail of its target path. */
  lemma TargetEndsWithKey(cwd: string, key: string)
    ensures EndsWith(TargetPath(cwd, key), key)
  {
    var target := TargetPath(cwd, key);
    var relative := if IsModule(key) then BaseContractPath + "/" + key else key;
    assert target == (cwd + "/") + relative;
    assert relative[|relative| - |key|..] == key;
    assert target[|target| - |key|..] == relative[|relative| - |key|..];
  }

  lemma SamePrefix(p: string, x: string, y: string)
    requires p + x == p + y
    ensures x == y
  {
    assert x == (p + x)[|p|..];
    assert y == (p + y)[|p|..];
  }

  /** A key under "contracts/" does not start with the module marker. */
  lemma UnderContractsIsNotModule(key: string)
    ensures !IsModule(BaseContractPath + "/" + key)
  {
    var k := BaseContractPath + "/" + key;
    assert k[0] == 'c';
    if IsModule(k) { assert k[..1][0] == k[0]; }
  }

  /** Two distinct keys have the same target exactly when one is a module key
      `k` and the other is the plain key "contracts/" + `k`. */
  lemma TargetCollision(cwd: string, k1: string, k2: string)
    requires k1 != k2
    ensures TargetPath(cwd, k1) == TargetPath(cwd, k2) <==>
              || (IsModule(k1) && k2 == BaseContractPath + "/" + k1)
              || (IsModule(k2) && k1 == BaseContractPath + "/" + k2)
  {
    var p := cwd + "/";
    var rest1 := if IsModule(k1) then BaseContractPath + "/" + k1 else k1;
    var rest2 := if IsModule(k2) then BaseContractPath + "/" + k2 else k2;
    assert TargetPath(cwd, k1) == p + rest1 && TargetPath(cwd, k2) == p + rest2;
    if IsModule(k1) && k2 == BaseContractPath + "/" + k1 {
      UnderContractsIsNotModule(k1);
    } else if IsModule(k2) && k1 == BaseContractPath + "/" + k2 {
      UnderContractsIsNotModule(k2);
    } else if p + rest1 == p + rest2 {
      SamePrefix(p, rest1, rest2);
      if IsModule(k1) && IsModule(k2) {
        SamePrefix(BaseContractPath + "/", k1, k2);
      }
    }
  }

  /** The collision the plain join allows: a module key and its spelled-out
      location under `contracts/` are written to the same file. */
  lemma ModuleCollisionExample(cwd: string)
    ensures TargetPath(cwd, "@oz/A.sol") == TargetPath(cwd, "contracts/@oz/A.sol")
  {
    ModuleFromName("oz/A");
    assert ModuleMarker + "oz/A" + SolExtension == "@oz/A.sol";
    assert BaseContractPath + "/" + "@oz/A.sol" == "contracts/@oz/A.sol";
    TargetCollision(cwd, "@oz/A.sol", "contracts/@oz/A.sol");
  }
}
