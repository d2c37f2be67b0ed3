# get-contract-code: a verified model of the download core

`get-contract-code` is a command-line tool. It asks Etherscan's `getsourcecode` API for the verified source of a contract and writes the returned files into the working directory. This project models the decision logic in `index.js` that comes between the HTTP response and the disk:

- **Unwrapping** (`unwrapSourceCode`). The raw `SourceCode` is parsed as JSON. If that throws, it is trimmed, one character is cut from each end (the explorer's doubly wrapped `{{ ... }}` form), and it is parsed again. If both attempts throw, the result is `null`.
- **Manifest derivation** (`processESRes`, `handleSingletonSource`). A failure `status` throws `Error(result)`. A parsed value with a truthy `sources` gives that map as the manifest. Otherwise a non-empty `ContractName` gives the one entry `<ContractName>.sol` holding the raw, untrimmed source. Otherwise the manifest is empty.
- **Classification and writing** (`checkIfSolFile`, `checkIfContractIsModule`, `writeContracts`). Keys without `.sol` are skipped. `.sol` keys that start with `@` go under `contracts/`. Every target is resolved against the working directory and overwritten, in manifest order.

Files:

- `wrappers.dfy`: `Option` and `Result`.
- `strings.dfy` (module `JsStrings`): `_.trim`, `_.startsWith`, `_.endsWith` and `String.prototype.slice`.
- `paths.dfy` (module `ContractPaths`): the two classifiers and the target path.
- `explorer.dfy` (module `Explorer`): responses, manifests, unwrapping and `processESRes`.
- `writer.dfy` (module `ContractWriter`): the file system as a class with a `files: map<string, string>` field, `writeContracts` as a loop over the manifest, and `exportMain` from the response onward.

`JSON.parse` is a parameter `parse: string -> Option<JsonValue>` (`None` when it throws). A parsed value is either falsy, or truthy with an optional `sources` manifest. The working directory is a string parameter `cwd`. A manifest is a sequence of entries in insertion order, which is the order `_.forIn` visits them. Keys that look like integers would be visited first in JavaScript, but such keys never end in `.sol`, so the order among written keys is unaffected.

One might expect a source that fails both parses to yield an empty manifest. In the code, `return err, res` (index.js:37) is a comma expression and returns only `res`, and `let err, sc = ...` (index.js:60) leaves `err` undefined. So the `!err` guard always passes, and such a source takes the singleton branch. That branch is what writes a plain single-file Solidity contract at all (`ProcessPlainSource`, `SingleFileDownload`).

## Model

| member | source | states |
|---|---|---|
| JsStrings.Trim | index.js:31 | `_.trim` returns the string without leading and trailing whitespace: the input is the result padded by whitespace on both sides, and the result neither starts nor ends with whitespace |
| JsStrings.TrimUnique | index.js:31 | that characterisation is unique: any string satisfying it is exactly what `_.trim` returns |
| JsStrings.TrimPadded | index.js:31 | trimming whitespace-padded text whose ends are not whitespace gives that text back |
| JsStrings.TrimKeepsNonWhitespace | index.js:31 | trimming removes whitespace only; every other character of the input survives |
| JsStrings.SliceIndex | index.js:31 | a `slice` argument is clamped into `[0, len]`: an index in range is kept, a negative one in range counts back from the end, one past the end gives `len`, one before `-len` gives 0 |
| JsStrings.SliceDropsOneEachEnd | index.js:31 | `slice(1, -1)` drops exactly the first and last character, and leaves nothing of a string shorter than two |
| JsStrings.SliceUnwraps | index.js:31 | `slice(1, -1)` inverts wrapping a text in one character on each side |
| JsStrings.StartsWithIff | index.js:81 | `_.startsWith(s, p)` holds exactly when `s` is `p` followed by something |
| JsStrings.EndsWithIff | index.js:76 | `_.endsWith(s, x)` holds exactly when `s` is something followed by `x` |
| ContractPaths.ModuleShape | index.js:79-82 | a module path is also a Solidity file, at least five characters long, of the form "@" + name + ".sol" |
| ContractPaths.ModuleFromName | index.js:79-82 | conversely, "@" + name + ".sol" is a module path for every name |
| ContractPaths.SolSuffixIsSolFile | index.js:75-77 | any name followed by ".sol" passes the write filter |
| ContractPaths.TargetPath | index.js:90-95 | a module key is written to `cwd/contracts/key`, any other key to `cwd/key` |
| ContractPaths.TargetEndsWithKey | index.js:92-95 | the key is always the tail of its target path |
| ContractPaths.TargetCollision | index.js:92-95 | under plain "/" joining, two distinct keys share a target exactly when one is a module key `k` and the other is `contracts/` + `k` |
| ContractPaths.ModuleCollisionExample | index.js:92-95 | `@oz/A.sol` and `contracts/@oz/A.sol` are written to the same file |
| Explorer.FailStatusSentinels | index.js:55 | status "0" equals the failure sentinel `0` and status "1" does not |
| Explorer.BlankStatusFails | index.js:55 | an empty or all-whitespace status also loosely equals `0` |
| Explorer.NonzeroDigitIsNotFailure | index.js:55 | a status containing any digit 1-9 and no `e`, `E` or `.` never equals the failure sentinel |
| Explorer.Unwrap | index.js:26-38 | a direct parse that succeeds is returned as is; the result is `null` exactly when both the direct parse and the parse of the trimmed, end-stripped text fail; otherwise it is one of the two parses |
| Explorer.UnwrapBracketed | index.js:28-33 | JSON wrapped in one extra pair of characters, with any surrounding whitespace, unwraps to the parse of the inner JSON when the wrapped text does not parse itself |
| Explorer.Singleton | index.js:40-48 | the singleton manifest has exactly one entry, holding the given content, keyed by the contract name plus ".sol", so the key passes the write filter |
| Explorer.ManifestOf | index.js:57-69 | a truthy `sources` of the unwrapped value is the manifest exactly; without one, the manifest is empty exactly when the contract name is empty, and otherwise is the one entry `<ContractName>.sol` holding the raw source, also when only the retry parsed |
| Explorer.ProcessESRes | index.js:50-73 | it throws the explorer error exactly on the failure status, carrying exactly `result`; it throws the missing-record error exactly when a success response has no first record; a non-empty string `result` gives the empty manifest; otherwise the manifest is that of the first record |
| Explorer.ProcessMultiFile | index.js:62-63 | a parsed value with truthy `sources` gives exactly that manifest |
| Explorer.ProcessBracketed | index.js:60-63 | a doubly wrapped multi-file source gives the same manifest as the JSON inside it |
| Explorer.ProcessPlainSource | index.js:60-69 | a source failing both parses gives the one entry `<name>.sol` with the raw untrimmed source, or nothing when the name is empty |
| Explorer.ProcessParsedWithoutSources | index.js:62-69 | a parsed value that is falsy, or has no truthy `sources`, falls back to the contract name in the same way |
| Explorer.FallbackManifestIsSol | index.js:64-69 | every entry of a manifest not taken from `sources` passes the `.sol` filter |
| ContractWriter.Written | index.js:84-100 | writing a manifest in order touches exactly the original paths plus the targets of its `.sol` keys |
| ContractWriter.WrittenSnoc | index.js:86-98 | one more entry overwrites its target if its key is `.sol`, and otherwise changes nothing |
| ContractWriter.WrittenUntouched | index.js:86-98 | a path no `.sol` key targets keeps its content, or stays absent |
| ContractWriter.WrittenLastWins | index.js:97-98 | a target holds the content of the last entry written to it |
| ContractWriter.SolEntries | index.js:87 | the filtered manifest holds exactly the `.sol` entries |
| ContractWriter.NonSolIgnored | index.js:86-87 | writing the manifest equals writing only its `.sol` entries |
| ContractWriter.WrittenEachOnce | index.js:86-98 | under plain "/" joining, when no two `.sol` keys share a target, every `.sol` entry's target holds that entry's content |
| ContractWriter.DistinctKeysNoClash | index.js:92-95 | under plain "/" joining, distinct keys, with no module key next to its `contracts/` spelling, never share a target |
| ContractWriter.FileSystem.WriteFile | index.js:97-98 | ensure-then-write overwrites one path and changes no other |
| ContractWriter.FileSystem.WriteContracts | index.js:84-100 | the loop leaves the file map equal to `Written` of the old map and the manifest |
| ContractWriter.FileSystem.ExportMain | index.js:102-108 | a thrown error leaves every file unchanged; otherwise the derived manifest is written |
| ContractWriter.SingleFileDownload | index.js:60-98 | a non-JSON single-file contract is written as exactly one file `<name>.sol` with the raw source, and nothing else changes |
| ContractWriter.FooDownload | index.js:50-98 | a `sources` manifest holding only `Foo.sol` writes exactly `cwd/Foo.sol` |

## Left out

- `makeContractQuery` and the `fetch` / `res.json()` chain (index.js:18-24, 102-104): HTTP I/O. `ExportMain` starts from the decoded response.
- `main`'s argument handling (index.js:110-129): it calls `minimist`, and `ethers.utils.isAddress` / `getAddress` (EIP-55 checksums over Keccak-256), which are library code not in this model.
- `JSON.parse` itself: a parameter, with no JSON grammar.
- `path.join` normalisation of `.` and `..` segments and repeated slashes, and `process.cwd()`: paths are joined with a plain "/", and the working directory is a parameter. So `A.sol` and `./A.sol`, which `path.join` sends to the same file, are distinct targets here.
- `fs.ensureFileSync` creating parent directories, and file-system errors: a write is a map update that always succeeds.
- `console.log`, `console.error` and `process.exit` (index.js:107, 131-138).
- Explorer.IsFailStatus: models loose equality with `0` for a string status only: empty after trimming, or zeros with an optional sign. Decimal points, exponents, `0x`/`0o`/`0b` forms and a numeric status are not modelled.
- Explorer.ProcessESRes: the message of the thrown `Error` is the `result` value itself; converting a non-string `result` to a string is not modelled.
- Explorer.JsonValue: a truthy `sources` that is not an object (a string, a number) is not modelled. Neither is an entry without a string `content`.
- Strings are sequences of Unicode characters, not UTF-16 code units, so `slice` cutting a surrogate pair in half is not modelled.
