/** The request handling of the local server (local-server/server.js): how
    `/load-config` reduces `config.json` to presence flags, and the input
    guards of `/create-branch`, `/git-status`, `/list-branches` and
    `/validate-repo` in front of the Git handler. */
module LocalServer {
  import opened Outcomes
  import opened GitHandler
  import BranchListing

  // ---------------------------------------------------------------------
  // /load-config

  /** A parsed JSON value. Numbers are integers here. */
  datatype Json =
    | JNull
    | JBool(b: bool)
    | JNum(n: int)
    | JStr(s: string)
    | JArr(items: seq<Json>)
    | JObj(fields: map<string, Json>)

  /** JavaScript truthiness of a JSON value. */
  predicate TruthyJson(v: Json) {
    match v
    case JNull => false
    case JBool(b) => b
    case JNum(n) => n != 0
    case JStr(s) => s != ""
    case JArr(_) => true
    case JObj(_) => true
  }

  /** `v.key` on a value that is not `null`: `None` stands for `undefined`. */
  function Get(v: Json, key: string): (r: Option<Json>)
    ensures r.Some? <==> v.JObj? && key in v.fields
  {
    if v.JObj? && key in v.fields then Some(v.fields[key]) else None
  }

  /** Truthiness of a property read, `undefined` being falsy. */
  predicate Present(o: Option<Json>) {
    o.Some? && TruthyJson(o.value)
  }

  /** The placeholders the example configuration ships with. */
  const ApiKeyPlaceholder := "PASTE_YOUR_GEMINI_API_KEY_HERE"
  const ProjectPathPlaceholder := "/path/to/your/project"

  /** What reading `config.json` gives: no such file, a read error, text that
      is not JSON (a `SyntaxError`), or a parsed value. */
  datatype ConfigFile =
    | Missing
    | Unreadable(message: string)
    | Malformed(message: string)
    | Parsed(root: Json)

  datatype LoadedConfig = LoadedConfig(
    geminiApiKey: Json,
    projectPath: Json,
    defaultBaseBranch: Json,
    hasApiKey: bool,
    hasProjectPath: bool,
    settings: Json,
    advanced: Json)

  /** The JSON the route answers with: `success: true` and the config, the
      not-found answer with the path that was looked at, or a failure with
      the error's message as details. */
  datatype LoadReply =
    | Loaded(config: LoadedConfig)
    | NotFound(error: string, path: string)
    | LoadFailed(error: string, details: string)

  const NotFoundMessage := "config.json not found"
  const InvalidJsonMessage := "Invalid JSON format in config.json"
  const ReadFailedMessage := "Failed to read config.json"

  /** The `TypeError` a `null` document raises at the first property read. */
  const NullRootDetails := "Cannot read properties of null (reading 'geminiApiKey')"

  /** A configured setting: truthy and not the example file's placeholder. */
  predicate Configured(o: Option<Json>, placeholder: string) {
    Present(o) && o.value != JStr(placeholder)
  }

  /** `config.settings?.defaultBaseBranch || ""`. */
  function BaseBranchOf(root: Json): (r: Json)
    ensures TruthyJson(r) || r == JStr("")
  {
    var settings := Get(root, "settings");
    var base := if settings.Some? then Get(settings.value, "defaultBaseBranch") else None;
    if Present(base) then base.value else JStr("")
  }

  /** `x || {}`. */
  function OrEmptyObject(o: Option<Json>): (r: Json)
    ensures TruthyJson(r)
    ensures Present(o) ==> r == o.value
  {
    if Present(o) then o.value else JObj(map[])
  }

  /** The handler of `GET /load-config`; `configPath` is the absolute path it
      looks at. */
  function LoadConfig(file: ConfigFile, configPath: string): (r: LoadReply)
    ensures file.Missing? <==> r.NotFound?
    ensures r.NotFound? ==> r == NotFound(NotFoundMessage, configPath)
    ensures file.Malformed? ==> r == LoadFailed(InvalidJsonMessage, file.message)
    ensures file.Unreadable? ==> r == LoadFailed(ReadFailedMessage, file.message)
    ensures file == Parsed(JNull) ==> r == LoadFailed(ReadFailedMessage, NullRootDetails)
    ensures r.Loaded? <==> file.Parsed? && file.root != JNull
    ensures r.Loaded? ==>
              && (r.config.hasApiKey <==> Configured(Get(file.root, "geminiApiKey"), ApiKeyPlaceholder))
              && (r.config.hasProjectPath <==> Configured(Get(file.root, "projectPath"), ProjectPathPlaceholder))
              && (r.config.hasApiKey ==> Some(r.config.geminiApiKey) == Get(file.root, "geminiApiKey"))
              && (r.config.hasProjectPath ==> Some(r.config.projectPath) == Get(file.root, "projectPath"))
              && (r.config.geminiApiKey == JNull <==> !r.config.hasApiKey)
              && (r.config.projectPath == JNull <==> !r.config.hasProjectPath)
              && r.config.defaultBaseBranch == BaseBranchOf(file.root)
              && r.config.settings == OrEmptyObject(Get(file.root, "settings"))
              && r.config.advanced == OrEmptyObject(Get(file.root, "advanced"))
              && TruthyJson(r.config.settings) && TruthyJson(r.config.advanced)
  {
    match file
    case Missing => NotFound(NotFoundMessage, configPath)
    case Unreadable(m) => LoadFailed(ReadFailedMessage, m)
    case Malformed(m) => LoadFailed(InvalidJsonMessage, m)
    case Parsed(root) => if root == JNull then LoadFailed(ReadFailedMessage, NullRootDetails) else Loaded(Reduce(root))
  }

  /** The `config` object of a successful answer. */
  function Reduce(root: Json): LoadedConfig {
    var key := Get(root, "geminiApiKey");
    var path := Get(root, "projectPath");
    var hasApiKey := Configured(key, ApiKeyPlaceholder);
    var hasProjectPath := Configured(path, ProjectPathPlaceholder);
    LoadedConfig(
      if hasApiKey then key.value else JNull,
      if hasProjectPath then path.value else JNull,
      BaseBranchOf(root),
      hasApiKey,
      hasProjectPath,
      OrEmptyObject(Get(root, "settings")),
      OrEmptyObject(Get(root, "advanced")))
  }

  /** The key is reported as present exactly when it is a non-empty string
      other than the placeholder, or another truthy value. */
  lemma ApiKeyPresence(root: Json, key: string)
    requires root.JObj? && root.fields == map["geminiApiKey" := JStr(key)]
    ensures var r := LoadConfig(Parsed(root), "config.json");
            r.Loaded? && (r.config.hasApiKey <==> key != "" && key != ApiKeyPlaceholder)
            && (r.config.hasApiKey ==> r.config.geminiApiKey == JStr(key))
  {
  }

  /** The installer writes a placeholder of its own, which is not the one the
      server recognises: a fresh install reports an API key as present. */
  lemma InstallerPlaceholderCountsAsKey(key: string)
    requires key == "COLE_SUA_CHAVE_API_GEMINI_AQUI"
    ensures LoadConfig(Parsed(JObj(map["geminiApiKey" := JStr(key)])), "config.json").config.hasApiKey
  {
    assert key[0] == 'C' && ApiKeyPlaceholder[0] == 'P';
    ApiKeyPresence(JObj(map["geminiApiKey" := JStr(key)]), key);
  }

  /** Without truthy settings holding a truthy `defaultBaseBranch`, the loaded
      base branch is the empty string; with them, it is that value. */
  lemma BaseBranchFallback(root: Json)
    ensures var settings := Get(root, "settings");
            var base := if settings.Some? then Get(settings.value, "defaultBaseBranch") else None;
            (Present(base) ==> BaseBranchOf(root) == base.value)
            && (!Present(base) ==> BaseBranchOf(root) == JStr(""))
            && (!Present(settings) ==> BaseBranchOf(root) == JStr(""))
  {
  }

  // ---------------------------------------------------------------------
  // Git routes

  /** A request body field: `None` when it is missing. */
  predicate Given(o: Option<string>) {
    o.Some? && o.value != ""
  }

  /** The JSON a route answers with: a guard's 400 error, a handler failure
      (for `/create-branch` with its code and diagnostics), or the handler's
      result. */
  datatype Body<T> =
    | Rejected(error: string)
    | Failed(error: string)
    | CreateFailed(error: string, code: string, details: Option<CommandDetails>)
    | Done(value: T)

  datatype Response<T> = Response(status: int, body: Body<T>)

  /** A route's answer, with the repository state and Git calls it left. */
  datatype Served<T, S> = Served(reply: Response<T>, state: S, log: seq<Call>)

  const BothRequiredMessage := "branchName and projectPath are required"
  const NoSuchPathMessage := "Project path does not exist"
  const NotRepositoryMessage := "Not a valid Git repository"
  const ProjectRequiredMessage := "projectPath is required"
  const UnknownCode := "UNKNOWN_ERROR"

  /** The body of `POST /create-branch`. */
  datatype BranchRequest = BranchRequest(branchName: Option<string>, projectPath: Option<string>, defaultBaseBranch: Option<string>)

  /** The 500 answer for a failed branch creation: the message, the code or
      `UNKNOWN_ERROR`, and the diagnostics when there are any. */
  function CreateFailure<T>(e: Failure): (b: Body<T>)
    ensures b.CreateFailed? && b.error == e.Message() && b.code != ""
    ensures e.GitFailure? && e.code != "" ==> b.code == e.code && b.details == Some(e.details)
    ensures e.Thrown? ==> b.code == UnknownCode && b.details.None?
  {
    match e
    case GitFailure(_, _, code, details) => CreateFailed(e.Message(), if code != "" then code else UnknownCode, Some(details))
    case Thrown(m) => CreateFailed(m, UnknownCode, None)
  }

  /** `POST /create-branch`: three guards, in order, each answering 400 before
      any Git command; then `createBranch` with automatic checkout. The body's
      `defaultBaseBranch` is passed along but `createBranch` has no parameter
      for it. */
  function CreateBranchRoute<S>(host: Host<S>, s: S, req: BranchRequest): (r: Served<BranchCreation, S>)
    ensures !Given(req.branchName) || !Given(req.projectPath)
            ==> r == Served(Response(400, Rejected(BothRequiredMessage)), s, [])
    ensures Given(req.branchName) && Given(req.projectPath) && req.projectPath.value !in host.fs.paths
            ==> r == Served(Response(400, Rejected(NoSuchPathMessage)), s, [])
    ensures Given(req.branchName) && Given(req.projectPath) && req.projectPath.value in host.fs.paths
            && JoinGit(req.projectPath.value) !in host.fs.paths
            ==> r == Served(Response(400, Rejected(NotRepositoryMessage)), s, [])
    ensures r.reply.status == 400 <==> r.reply.body.Rejected?
    ensures r.reply.body.Rejected? ==> r.log == [] && r.state == s
    ensures !r.reply.body.Rejected? ==>
              var c := CreateBranch(host, s, req.branchName.value, req.projectPath.value, true);
              && r.state == c.state && r.log == c.log
              && (c.result.Ok? ==> r.reply == Response(200, Done(c.result.value)))
              && (c.result.Err? ==> r.reply == Response(500, CreateFailure(c.result.error)))
  {
    if !Given(req.branchName) || !Given(req.projectPath) then
      Served(Response(400, Rejected(BothRequiredMessage)), s, [])
    else
      var p := req.projectPath.value;
      if p !in host.fs.paths then Served(Response(400, Rejected(NoSuchPathMessage)), s, [])
      else if JoinGit(p) !in host.fs.paths then Served(Response(400, Rejected(NotRepositoryMessage)), s, [])
      else
        var c := CreateBranch(host, s, req.branchName.value, p, true);
        match c.result
        case Ok(v) => Served(Response(200, Done(v)), c.state, c.log)
        case Err(e) => Served(Response(500, CreateFailure(e)), c.state, c.log)
  }

  /** The forwarded base branch changes nothing about the answer, the calls or
      the repository. */
  lemma BaseBranchIsIgnored<S>(host: Host<S>, s: S, req: BranchRequest, base: Option<string>)
    ensures CreateBranchRoute(host, s, req) == CreateBranchRoute(host, s, req.(defaultBaseBranch := base))
  {
  }

  /** A request that passes the guards creates the branch and checks it out:
      when the route succeeds the new branch is the one asked for, and the
      record says it was checked out. */
  lemma RouteAlwaysChecksOut<S>(host: Host<S>, s: S, req: BranchRequest)
    requires CreateBranchRoute(host, s, req).reply.body.Done?
    ensures var v := CreateBranchRoute(host, s, req).reply.body.value;
            v.checkedOut && v.created && v.branchName == req.branchName.value
            && Commands(CreateBranchRoute(host, s, req).log)[10] == CommandLine(CreateCommand(req.branchName.value, true))
  {
  }

  /** The shared tail of the read-only routes: 200 with the result, or 500
      with the message. */
  function Answer<T, S>(run: Run<T, S>): (r: Served<T, S>)
    ensures r.state == run.state && r.log == run.log
    ensures run.result.Ok? <==> r.reply.status == 200
    ensures run.result.Ok? ==> r.reply.body == Done(run.result.value)
    ensures run.result.Err? ==> r.reply == Response(500, Failed(run.result.error.Message()))
  {
    match run.result
    case Ok(v) => Served(Response(200, Done(v)), run.state, run.log)
    case Err(e) => Served(Response(500, Failed(e.Message())), run.state, run.log)
  }

  /** The answer of a read-only route whose body lacks `projectPath`. */
  function Unguarded<T, S>(s: S): Served<T, S> {
    Served(Response(400, Rejected(ProjectRequiredMessage)), s, [])
  }

  /** `POST /git-status`. */
  function GitStatusRoute<S>(host: Host<S>, s: S, projectPath: Option<string>): (r: Served<RepoStatus, S>)
    ensures !Given(projectPath) <==> r.reply.status == 400
    ensures !Given(projectPath) ==> r == Unguarded(s)
    ensures Given(projectPath) ==> r == Answer(GetRepoStatus(host, s, projectPath.value))
  {
    if !Given(projectPath) then Unguarded(s) else Answer(GetRepoStatus(host, s, projectPath.value))
  }

  /** `POST /list-branches`. */
  function ListBranchesRoute<S>(host: Host<S>, s: S, projectPath: Option<string>): (r: Served<BranchListing.Listing, S>)
    ensures !Given(projectPath) <==> r.reply.status == 400
    ensures !Given(projectPath) ==> r == Unguarded(s)
    ensures Given(projectPath) ==> r == Answer(ListBranches(host, s, projectPath.value))
  {
    if !Given(projectPath) then Unguarded(s) else Answer(ListBranches(host, s, projectPath.value))
  }

  /** `POST /validate-repo`. */
  function ValidateRepoRoute<S>(host: Host<S>, s: S, projectPath: Option<string>): (r: Served<Validation, S>)
    ensures !Given(projectPath) <==> r.reply.status == 400
    ensures !Given(projectPath) ==> r == Unguarded(s)
    ensures Given(projectPath) ==> r == Answer(ValidateRepository(host, s, projectPath.value))
  {
    if !Given(projectPath) then Unguarded(s) else Answer(ValidateRepository(host, s, projectPath.value))
  }

  /** A validation request for a path that does not exist passes the route's
      guard and fails in the handler with the path in the message. */
  lemma MissingPathIsA500<S>(host: Host<S>, s: S, p: string)
    requires p != "" && p !in host.fs.paths
    ensures ValidateRepoRoute(host, s, Some(p)) == Served(Response(500, Failed(PathMissingMessage(p))), s, [])
  {
  }
}
