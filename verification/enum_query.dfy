/**
  The `EnumQuery` client: it validates its options, runs the external ENUM
  lookup script once per domain suffix and assembles per-domain results.

  The script is not modelled; a `Script` stands for it and gives, for each
  invocation, the exit code and the lines written to standard output.
*/
module EnumQuery {
  import opened Wrappers
  import opened PhpStrings
  import opened Normalization
  import opened OutputParser

  /** The arguments the script is started with. */
  datatype Invocation = Invocation(moduleDir: string, scriptPath: string, number: string, domain: string)

  /** What `exec` reports: the exit status and the output lines. */
  datatype ScriptRun = ScriptRun(exitCode: int, output: seq<string>)

  /** The external lookup script, as a total function of its arguments. */
  type Script = Invocation -> ScriptRun

  /** The part of the filesystem the constructor inspects. */
  datatype FileSystem = FileSystem(directories: set<string>, files: set<string>, executables: set<string>)
  {
    predicate Exists(path: string) {
      path in directories || path in files
    }
  }

  /** The state of an `EnumQuery` object; every field is set by the constructor
      and never changed afterwards. */
  datatype Config = Config(options: map<string, string>, moduleDir: string, scriptPath: string,
                           defaultDomains: seq<string>)

  /** The domains queried when the caller gives none. */
  const DefaultDomains: seq<string> := [".e164.arpa"]

  const ModuleDirOption := "enum_module_dir"
  const ScriptPathOption := "enum_script_path"

  /** `_getOption`: the option's value, or NULL when it is not set. */
  function GetOption(options: map<string, string>, name: string): (r: Option<string>)
    ensures r.Some? <==> name in options
    ensures r.Some? ==> r.value == options[name]
  {
    if name in options then Some(options[name]) else None
  }

  /** PHP's `!$value` for an option value: NULL, `""` and `"0"` are false. */
  predicate IsFalsy(value: Option<string>) {
    value.None? || value.value == "" || value.value == "0"
  }

  /** `_getModuleDir`: the option must be set and name an existing directory. */
  function ModuleDir(options: map<string, string>, fs: FileSystem): (r: Result<string, string>)
    ensures r.Success? <==>
      ModuleDirOption in options && options[ModuleDirOption] !in {"", "0"}
      && options[ModuleDirOption] in fs.directories
    ensures r.Success? ==> r.value == options[ModuleDirOption]
    ensures IsFalsy(GetOption(options, ModuleDirOption)) ==>
      r == Failure("No module directory specified - use the 'enum_module_dir' option")
    ensures (!IsFalsy(GetOption(options, ModuleDirOption))
             && options[ModuleDirOption] !in fs.directories) ==>
      r == Failure("Invalid module directory '" + options[ModuleDirOption] + "'")
  {
    var dir := GetOption(options, ModuleDirOption);
    if IsFalsy(dir) then Failure("No module directory specified - use the 'enum_module_dir' option")
    else if !fs.Exists(dir.value) || dir.value !in fs.directories then
      Failure("Invalid module directory '" + dir.value + "'")
    else Success(dir.value)
  }

  /** `_getScriptPath`: the option must be set and name an existing, regular,
      executable file. */
  function ScriptPath(options: map<string, string>, fs: FileSystem): (r: Result<string, string>)
    ensures r.Success? <==>
      ScriptPathOption in options && options[ScriptPathOption] !in {"", "0"}
      && options[ScriptPathOption] in fs.files && options[ScriptPathOption] in fs.executables
    ensures r.Success? ==> r.value == options[ScriptPathOption]
    ensures IsFalsy(GetOption(options, ScriptPathOption)) ==>
      r == Failure("No script path specified - use the 'enum_script_path' option")
    ensures (ScriptPathOption in options && !IsFalsy(GetOption(options, ScriptPathOption))
             && !fs.Exists(options[ScriptPathOption])) ==>
      r == Failure("Non-existent file '" + options[ScriptPathOption] + "'")
    ensures (ScriptPathOption in options && !IsFalsy(GetOption(options, ScriptPathOption))
             && fs.Exists(options[ScriptPathOption])
             && (options[ScriptPathOption] !in fs.files || options[ScriptPathOption] !in fs.executables)) ==>
      r == Failure("Invalid script file '" + options[ScriptPathOption] + "'")
  {
    var path := GetOption(options, ScriptPathOption);
    if IsFalsy(path) then Failure("No script path specified - use the 'enum_script_path' option")
    else if !fs.Exists(path.value) then Failure("Non-existent file '" + path.value + "'")
    else if path.value !in fs.files || path.value !in fs.executables then
      Failure("Invalid script file '" + path.value + "'")
    else Success(path.value)
  }

  /** The constructor: the module directory is checked first, then the script. */
  function New(options: map<string, string>, fs: FileSystem): (r: Result<Config, string>)
    ensures r.Success? <==> ModuleDir(options, fs).Success? && ScriptPath(options, fs).Success?
    ensures ModuleDir(options, fs).Failure? ==> r == Failure(ModuleDir(options, fs).error)
    ensures ModuleDir(options, fs).Success? && ScriptPath(options, fs).Failure? ==>
      r == Failure(ScriptPath(options, fs).error)
    ensures r.Success? ==>
      && r.value.options == options
      && r.value.moduleDir == options[ModuleDirOption]
      && r.value.scriptPath == options[ScriptPathOption]
      && r.value.defaultDomains == [".e164.arpa"]
  {
    match ModuleDir(options, fs)
    case Failure(e) => Failure(e)
    case Success(dir) =>
      match ScriptPath(options, fs)
      case Failure(e) => Failure(e)
      case Success(path) => Success(Config(options, dir, path, DefaultDomains))
  }

  function InvalidQueryMessage(number: string, domain: string): string {
    "Invalid query for number '" + number + "', domain '" + domain + "'"
  }

  function NotFoundMessage(number: string, domain: string): string {
    "Not found - number '" + number + "', domain '" + domain + "'"
  }

  /** `_executeQuery`: runs the script for one number and domain; exit code 1
      and 2 throw, any other code yields the parsed output. */
  function ExecuteQuery(c: Config, script: Script, number: string, domain: string): (r: Result<seq<Record>, string>)
    ensures var run := script(Invocation(c.moduleDir, c.scriptPath, number, domain));
      && (run.exitCode == 1 ==> r == Failure(InvalidQueryMessage(number, domain)))
      && (run.exitCode == 2 ==> r == Failure(NotFoundMessage(number, domain)))
      && (run.exitCode != 1 && run.exitCode != 2 ==> r == Success(ParsedOutput(run.output)))
      && (run.exitCode != 1 && run.exitCode != 2 && run.output == [] ==> r == Success([]))
  {
    var run := script(Invocation(c.moduleDir, c.scriptPath, number, domain));
    if run.exitCode == 1 then Failure(InvalidQueryMessage(number, domain))
    else if run.exitCode == 2 then Failure(NotFoundMessage(number, domain))
    else Success(ParsedOutput(run.output))
  }

  /** Any exit code other than 1 and 2 yields one record per output line, in
      the order of the lines. */
  lemma ExecuteQueryRecords(c: Config, script: Script, number: string, domain: string, i: nat)
    requires script(Invocation(c.moduleDir, c.scriptPath, number, domain)).exitCode !in {1, 2}
    requires i < |script(Invocation(c.moduleDir, c.scriptPath, number, domain)).output|
    ensures var run := script(Invocation(c.moduleDir, c.scriptPath, number, domain));
      && ExecuteQuery(c, script, number, domain).Success?
      && |ExecuteQuery(c, script, number, domain).value| == |run.output|
      && ExecuteQuery(c, script, number, domain).value[i] == ParseLine(run.output[i])
  {
    ParsedOutputAt(script(Invocation(c.moduleDir, c.scriptPath, number, domain)).output, i);
  }

  /** The outcome of the lookup on one domain. */
  datatype Lookup = Found(records: seq<Record>) | Failed(reason: string)

  /** The per-domain result array: `number`, `domain`, and either `success`
      true with `records` or `success` false with `reason`. */
  datatype DomainResult = DomainResult(number: string, domain: string, lookup: Lookup)
  {
    predicate Succeeded() {
      lookup.Found?
    }
  }

  /** `queryDomain`: normalises both inputs (an invalid number is thrown to the
      caller) and turns a failed lookup into a failure record. */
  function QueryDomain(c: Config, script: Script, searchString: string, domain: string): (r: Result<DomainResult, string>)
    ensures r.Failure? <==> NormalizeSearchString(searchString).Failure?
    ensures r.Failure? ==> r.error == NormalizeSearchString(searchString).error
    ensures r.Success? ==>
      var number := NormalizeSearchString(searchString).value;
      var d := NormalizeDomain(domain);
      var e := ExecuteQuery(c, script, number, d);
      && r.value.number == number
      && r.value.domain == d
      && (r.value.Succeeded() <==> e.Success?)
      && (e.Success? ==> r.value.lookup.records == e.value)
      && (e.Failure? ==> r.value.lookup.reason == e.error)
  {
    match NormalizeSearchString(searchString)
    case Failure(e) => Failure(e)
    case Success(number) =>
      var d := NormalizeDomain(domain);
      match ExecuteQuery(c, script, number, d)
      case Success(records) => Success(DomainResult(number, d, Found(records)))
      case Failure(reason) => Success(DomainResult(number, d, Failed(reason)))
  }

  /** The number and domain reported in a result are in normal form. */
  lemma QueryDomainReportsNormalForms(c: Config, script: Script, searchString: string, domain: string)
    requires QueryDomain(c, script, searchString, domain).Success?
    ensures var r := QueryDomain(c, script, searchString, domain).value;
      IsPlusDigits(r.number) && |r.domain| > 0 && r.domain[0] == '.'
      && NormalizeSearchString(r.number) == Success(r.number)
      && NormalizeDomain(r.domain) == r.domain
  {
    NormalizeSearchStringIdempotent(searchString);
    NormalizeDomainIdempotent(domain);
  }

  /** Querying with already normalised inputs gives the same result, so for
      example `e164.arpa` and ` .e164.arpa` are the same query. */
  lemma QueryDomainOfNormalForms(c: Config, script: Script, searchString: string, domain: string)
    requires NormalizeSearchString(searchString).Success?
    ensures QueryDomain(c, script, NormalizeSearchString(searchString).value, NormalizeDomain(domain))
         == QueryDomain(c, script, searchString, domain)
  {
    NormalizeSearchStringIdempotent(searchString);
    NormalizeDomainIdempotent(domain);
  }

  /** No element occurs twice. */
  predicate NoDuplicates(s: seq<string>) {
    forall i, j :: 0 <= i < j < |s| ==> s[i] != s[j]
  }

  /** The domains of `ds` in the order of their first occurrence, each once:
      the key order of a PHP array filled by assigning to `$result[$d]`. */
  function FirstOccurrences(ds: seq<string>): seq<string>
  {
    if ds == [] then []
    else
      var keys := FirstOccurrences(ds[..|ds| - 1]);
      if ds[|ds| - 1] in keys then keys else keys + [ds[|ds| - 1]]
  }

  /** The key order lists every domain of `ds`, and each only once. */
  lemma {:induction false} FirstOccurrencesElements(ds: seq<string>)
    ensures forall d :: d in FirstOccurrences(ds) <==> d in ds
    ensures NoDuplicates(FirstOccurrences(ds))
  {
    if ds != [] {
      var init := ds[..|ds| - 1];
      FirstOccurrencesElements(init);
      assert ds == init + [ds[|ds| - 1]];
    }
  }

  /** Without repetitions the key order is the order of the list itself. */
  lemma {:induction false} FirstOccurrencesOfDistinct(ds: seq<string>)
    requires NoDuplicates(ds)
    ensures FirstOccurrences(ds) == ds
  {
    if ds != [] {
      var init := ds[..|ds| - 1];
      FirstOccurrencesOfDistinct(init);
      assert ds[|ds| - 1] !in init;
      assert init + [ds[|ds| - 1]] == ds;
    }
  }

  /** The result of `query`: a PHP array with string keys, as its keys in
      insertion order and the value of each key. */
  datatype QueryResult = QueryResult(keys: seq<string>, entries: map<string, DomainResult>)
  {
    /** `$result[$key] = $value`: a new key is appended, an existing key keeps
        its place and gets the new value. */
    function Assign(key: string, value: DomainResult): QueryResult {
      QueryResult(if key in entries then keys else keys + [key], entries[key := value])
    }
  }

  /** The domains `query` runs over: the given ones, or the defaults when none. */
  function DomainsToQuery(c: Config, domains: seq<string>): seq<string> {
    if domains == [] then c.defaultDomains else domains
  }

  /** On an object built by the constructor, `query` without domains runs over
      `.e164.arpa` alone, and a non-empty list is used as given. */
  lemma QueryDefaultDomains(options: map<string, string>, fs: FileSystem, domains: seq<string>)
    requires New(options, fs).Success?
    ensures DomainsToQuery(New(options, fs).value, []) == [".e164.arpa"]
    ensures domains != [] ==> DomainsToQuery(New(options, fs).value, domains) == domains
  {
  }

  /** The array after `$result[$d] = value($d)` for each `d` of `ds` in turn,
      starting from the empty array. */
  function Fill(ds: seq<string>, value: string -> DomainResult): QueryResult {
    if ds == [] then QueryResult([], map[])
    else
      var d := ds[|ds| - 1];
      Fill(ds[..|ds| - 1], value).Assign(d, value(d))
  }

  /** One more iteration of the loop assigns one more domain. */
  lemma FillStep(ds: seq<string>, value: string -> DomainResult, n: nat)
    requires n < |ds|
    ensures Fill(ds[..n + 1], value) == Fill(ds[..n], value).Assign(ds[n], value(ds[n]))
  {
    assert ds[..n + 1][..n] == ds[..n];
  }

  /** The filled array has a key for exactly the domains of the list. */
  lemma {:induction false} FillKeySet(ds: seq<string>, value: string -> DomainResult)
    ensures forall d :: d in Fill(ds, value).entries <==> d in ds
  {
    if ds != [] {
      var init, last := ds[..|ds| - 1], ds[|ds| - 1];
      FillKeySet(init, value);
      assert ds == init + [last];
    }
  }

  /** The keys are the distinct domains in the order of first occurrence. */
  lemma {:induction false} FillKeyOrder(ds: seq<string>, value: string -> DomainResult)
    ensures Fill(ds, value).keys == FirstOccurrences(ds)
  {
    if ds != [] {
      var init, last := ds[..|ds| - 1], ds[|ds| - 1];
      FillKeyOrder(init, value);
      FillKeySet(init, value);
      FirstOccurrencesElements(init);
      assert last in Fill(init, value).entries <==> last in FirstOccurrences(init);
    }
  }

  /** Each key holds the value computed for it. A repeated domain is assigned
      again and keeps the last value; since `value` is a function of the
      domain, that is the same value. */
  lemma {:induction false} FillValues(ds: seq<string>, value: string -> DomainResult, d: string)
    requires d in Fill(ds, value).entries
    ensures Fill(ds, value).entries[d] == value(d)
  {
    var init, last := ds[..|ds| - 1], ds[|ds| - 1];
    if d != last {
      FillValues(init, value, d);
    }
  }

  /** `queryDomain` as a function of the domain, for a search string that
      normalises, so that it never throws. */
  function QueryDomainFor(c: Config, script: Script, searchString: string): string -> DomainResult
    requires NormalizeSearchString(searchString).Success?
  {
    d => QueryDomain(c, script, searchString, d).value
  }

  /** `query`: one entry per distinct domain, keyed by the domain exactly as the
      caller wrote it, holding `queryDomain` for that domain; the keys keep the
      order of first occurrence. An invalid search string is thrown out of the
      first iteration. */
  method Query(c: Config, script: Script, searchString: string, domains: seq<string>)
    returns (r: Result<QueryResult, string>)
    ensures var ds := DomainsToQuery(c, domains);
      && (r.Failure? <==> ds != [] && NormalizeSearchString(searchString).Failure?)
      && (r.Failure? ==> r.error == NormalizeSearchString(searchString).error)
      && (r.Success? ==>
            && r.value.keys == FirstOccurrences(ds)
            && (forall d :: d in r.value.entries <==> d in ds)
            && (forall d :: d in r.value.entries ==>
                  QueryDomain(c, script, searchString, d) == Success(r.value.entries[d])))
  {
    var ds := domains;
    if |ds| == 0 {
      ds := c.defaultDomains;
    }
    var result := QueryResult([], map[]);
    for n := 0 to |ds|
      invariant n > 0 ==> NormalizeSearchString(searchString).Success?
      invariant n == 0 ==> result == QueryResult([], map[])
      invariant n > 0 ==> result == Fill(ds[..n], QueryDomainFor(c, script, searchString))
    {
      var domain := ds[n];
      var domainResult := QueryDomain(c, script, searchString, domain);
      if domainResult.Failure? {
        return Failure(domainResult.error);
      }
      FillStep(ds, QueryDomainFor(c, script, searchString), n);
      result := result.Assign(domain, domainResult.value);
    }
    if ds != [] {
      var value := QueryDomainFor(c, script, searchString);
      assert ds[..|ds|] == ds;
      FillKeySet(ds, value);
      FillKeyOrder(ds, value);
      forall d | d in result.entries
        ensures QueryDomain(c, script, searchString, d) == Success(result.entries[d])
      {
        FillValues(ds, value, d);
      }
    }
    r := Success(result);
  }
}
