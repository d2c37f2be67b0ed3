/** How the downloader turns an Etherscan `getsourcecode` response into a
    manifest, the map from virtual source path to file content:
    `unwrapSourceCode`, `handleSingletonSource` and `processESRes`. */
module Explorer {
  import opened Wrappers
  import opened JsStrings
  import opened ContractPaths

  /** One manifest entry: a virtual source path and its `content`. */
  datatype Entry = Entry(path: string, content: string)

  /** A manifest in the order its keys were inserted, which is the order in
      which `_.forIn` visits them. */
  type Manifest = seq<Entry>

  /** What `JSON.parse` yields, as far as the downloader looks at it: a falsy
      value (`null`, `false`, `0`, `""`), or a truthy one whose `sources`
      property is a manifest when it is truthy. */
  datatype JsonValue = Falsy | Truthy(sources: Option<Manifest>)

  /** `JSON.parse`, taken as given: `None` when it throws. */
  type Parser = string -> Option<JsonValue>

  /** The fields of the first element of the explorer's `result` list that
      the downloader reads. */
  datatype ContractInfo = ContractInfo(sourceCode: string, contractName: string)

  /** The explorer's `result` field: a message text (what it sends with the
      failure status) or the list of contract records. */
  datatype Payload = Message(text: string) | Contracts(items: seq<ContractInfo>)

  datatype Response = Response(status: string, result: Payload)

  /** What `processESRes` throws: `Error(resObj.result)` on the failure
      status, or the TypeError of reading `SourceCode` of a missing first
      result element. */
  datatype Failure = ExplorerError(result: Payload) | MissingContract

  predicate AllZeros(s: string) {
    forall k :: 0 <= k < |s| ==> s[k] == '0'
  }

  /** `status == 0` with JavaScript's loose equality for a string status:
      the string converts to the number zero when, once trimmed, it is empty
      or a run of zeros with an optional sign. */
  predicate IsFailStatus(status: string) {
    var t := Trim(status);
    || t == []
    || AllZeros(t)
    || (|t| >= 2 && (t[0] == '+' || t[0] == '-') && AllZeros(t[1..]))
  }

  lemma DigitIsNotWhitespace(c: char)
    requires '0' <= c <= '9'
    ensures !IsWhitespace(c)
  {
    assert forall k :: 0 <= k < |WhitespaceChars| ==> WhitespaceChars[k] != c;
  }

  /** The explorer's own sentinels: "0" is the failure status and "1" is not. */
  lemma FailStatusSentinels()
    ensures IsFailStatus("0") && !IsFailStatus("1")
  {
    DigitIsNotWhitespace('0');
    DigitIsNotWhitespace('1');
    assert "0" == [] + "0" + [] && "1" == [] + "1" + [];
    TrimPadded([], "0", []);
    TrimPadded([], "1", []);
  }

  /** An empty or blank status also compares equal to 0. */
  lemma BlankStatusFails(status: string)
    requires AllWhitespace(status)
    ensures IsFailStatus(status)
  {
    assert status == status + [] + [];
    TrimPadded(status, [], []);
  }

  /** A status holding any nonzero digit, and no exponent or decimal point
      (so that no "0e1" or underflowing fraction reads as zero), never counts
      as the failure status, wherever the digit sits and whatever surrounds it. */
  lemma NonzeroDigitIsNotFailure(status: string, k: nat)
    requires k < |status| && '1' <= status[k] <= '9'
    requires forall j :: 0 <= j < |status| ==> status[j] !in "eE."
    ensures !IsFailStatus(status)
  {
    DigitIsNotWhitespace(status[k]);
    TrimKeepsNonWhitespace(status, k);
    var t := Trim(status);
    var i :| 0 <= i < |t| && t[i] == status[k];
    if |t| >= 2 && (t[0] == '+' || t[0] == '-') && i > 0 {
      assert t[1..][i - 1] == t[i];
    }
  }

  /** The trimmed source with one character cut from each end: the retry
      for the explorer's doubly wrapped JSON. */
  function Unwrapped(sc: string): string {
    Slice(Trim(sc), 1, -1)
  }

  /** `unwrapSourceCode`: `None` stands for the `null` it returns when both
      attempts throw. */
  function Unwrap(parse: Parser, sc: string): (r: Option<JsonValue>)
    ensures parse(sc).Some? ==> r == parse(sc)
    ensures r.None? <==> parse(sc).None? && parse(Unwrapped(sc)).None?
    ensures r.Some? ==> r == parse(sc) || r == parse(Unwrapped(sc))
  {
    var first := parse(sc);
    if first.Some? then first else parse(Unwrapped(sc))
  }

  /** A JSON text wrapped in one extra pair of characters, with any
      whitespace around them, is recovered by the retry, unless the wrapped
      text happens to parse as it is. */
  lemma UnwrapBracketed(parse: Parser, before: string, open: char, json: string, close: char, after: string)
    requires AllWhitespace(before) && AllWhitespace(after)
    requires !IsWhitespace(open) && !IsWhitespace(close)
    requires parse(before + [open] + json + [close] + after).None?
    ensures Unwrap(parse, before + [open] + json + [close] + after) == parse(json)
  {
    var sc := before + [open] + json + [close] + after;
    var wrapped := [open] + json + [close];
    assert sc == before + wrapped + after;
    assert wrapped[0] == open && wrapped[|wrapped| - 1] == close;
    TrimPadded(before, wrapped, after);
    SliceUnwraps(open, json, close);
  }

  /** `sc && sc.sources`: the manifest carried by a parsed value, if any. */
  function SourcesOf(v: Option<JsonValue>): Option<Manifest> {
    if v.Some? && v.value.Truthy? then v.value.sources else None
  }

  /** `handleSingletonSource`: a one-entry manifest for a single-file
      contract, keyed by the contract name with the Solidity extension. */
  function Singleton(contractName: string, content: string): (m: Manifest)
    ensures |m| == 1 && m[0].content == content
    ensures IsSolFile(m[0].path)
    ensures |m[0].path| == |contractName| + 4 && m[0].path[..|contractName|] == contractName
  {
    SolSuffixIsSolFile(contractName);
    [Entry(contractName + SolExtension, content)]
  }

  /** The manifest `processESRes` derives from one contract record. The
      `err` it tests is never set (a comma expression drops it), so a source
      that fails both parses takes the singleton branch. */
  function ManifestOf(parse: Parser, info: ContractInfo): (m: Manifest)
    ensures SourcesOf(Unwrap(parse, info.sourceCode)).Some? ==> m == SourcesOf(Unwrap(parse, info.sourceCode)).value
    ensures SourcesOf(Unwrap(parse, info.sourceCode)).None? && info.contractName != [] ==>
              m == [Entry(info.contractName + ".sol", info.sourceCode)]
    ensures SourcesOf(Unwrap(parse, info.sourceCode)).None? ==>
              |m| <= 1 && forall e :: e in m ==> IsSolFile(e.path) && e.content == info.sourceCode
    ensures SourcesOf(Unwrap(parse, info.sourceCode)).None? ==> (m == [] <==> info.contractName == [])
  {
    match SourcesOf(Unwrap(parse, info.sourceCode))
    case Some(sources) => sources
    case None => if info.contractName != [] then Singleton(info.contractName, info.sourceCode) else []
  }

  /** `processESRes`: throws with the explorer's `result` on the failure
      status, otherwise yields the manifest of the first contract record. */
  function ProcessESRes(parse: Parser, resp: Response): (r: Result<Manifest, Failure>)
    ensures (r.Failure? && r.error.ExplorerError?) <==> IsFailStatus(resp.status)
    ensures r.Failure? && r.error.ExplorerError? ==> r.error.result == resp.result
    ensures r.Failure? && r.error.MissingContract? <==>
              !IsFailStatus(resp.status) && (resp.result == Message([]) || resp.result == Contracts([]))
    ensures r.Success? && resp.result.Message? ==> r.value == []
    ensures r.Success? && resp.result.Contracts? && resp.result.items != [] ==>
              r.value == ManifestOf(parse, resp.result.items[0])
  {
    if IsFailStatus(resp.status) then Failure(ExplorerError(resp.result))
    else match resp.result
      // `let [innerRes] = text` takes the first character, whose
      // `SourceCode` is undefined: both parses fail and its `ContractName`
      // is undefined, so the manifest is empty.
      case Message(text) => if text == [] then Failure(MissingContract) else Success([])
      case Contracts(items) => if items == [] then Failure(MissingContract) else Success(ManifestOf(parse, items[0]))
  }

  /** A multi-file response: the parsed `sources` is the manifest, as is. */
  lemma ProcessMultiFile(parse: Parser, resp: Response, sources: Manifest)
    requires !IsFailStatus(resp.status) && resp.result.Contracts? && resp.result.items != []
    requires parse(resp.result.items[0].sourceCode) == Some(Truthy(Some(sources)))
    ensures ProcessESRes(parse, resp) == Success(sources)
  {
  }

  /** A doubly wrapped multi-file response yields the same manifest as the
      plain JSON inside it. */
  lemma ProcessBracketed(parse: Parser, resp: Response, before: string, open: char, json: string, close: char, after: string)
    requires !IsFailStatus(resp.status) && resp.result.Contracts? && resp.result.items != []
    requires resp.result.items[0].sourceCode == before + [open] + json + [close] + after
    requires AllWhitespace(before) && AllWhitespace(after)
    requires !IsWhitespace(open) && !IsWhitespace(close)
    requires parse(resp.result.items[0].sourceCode).None?
    requires SourcesOf(parse(json)).Some?
    ensures ProcessESRes(parse, resp) == Success(SourcesOf(parse(json)).value)
  {
    UnwrapBracketed(parse, before, open, json, close, after);
  }

  /** A plain Solidity source that is not JSON either way: with a contract
      name it becomes the single file `<name>.sol` holding the raw,
      untrimmed source; without one, the manifest is empty. */
  lemma ProcessPlainSource(parse: Parser, resp: Response)
    requires !IsFailStatus(resp.status) && resp.result.Contracts? && resp.result.items != []
    requires parse(resp.result.items[0].sourceCode).None?
    requires parse(Unwrapped(resp.result.items[0].sourceCode)).None?
    ensures var info := resp.result.items[0];
            ProcessESRes(parse, resp) ==
              Success(if info.contractName != [] then [Entry(info.contractName + ".sol", info.sourceCode)] else [])
  {
  }

  /** A truthy `sources`, even an empty one, wins over the contract name;
      a parsed value without one falls back to the contract name. */
  lemma ProcessParsedWithoutSources(parse: Parser, resp: Response)
    requires !IsFailStatus(resp.status) && resp.result.Contracts? && resp.result.items != []
    requires var v := parse(resp.result.items[0].sourceCode); v == Some(Falsy) || v == Some(Truthy(None))
    ensures var info := resp.result.items[0];
            ProcessESRes(parse, resp) ==
              Success(if info.contractName != [] then [Entry(info.contractName + ".sol", info.sourceCode)] else [])
  {
  }

  /** Whatever the response, a manifest that did not come from `sources`
      passes the `.sol` write filter entry by entry. */
  lemma FallbackManifestIsSol(parse: Parser, info: ContractInfo)
    requires SourcesOf(Unwrap(parse, info.sourceCode)).None?
    ensures forall e :: e in ManifestOf(parse, info) ==> IsSolFile(e.path)
  {
  }
}
