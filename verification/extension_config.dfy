/** The extension's stored settings and its request to the local server:
    `handleSaveConfig` and `createBranchLocally` of both background scripts
    (chrome-extension/src/background.js, the current client, and
    chrome-extension/background.js, the legacy one). */
module ExtensionConfig {
  import opened Outcomes
  import opened Strings

  /** A stored setting: `null` until something is loaded, or a string. */
  datatype Value = Null | Text(text: string)

  /** One field of the configuration object the popup sends: `undefined`
      when the popup left it out, or a value. */
  datatype Field = Undefined | Given(value: Value)

  /** JavaScript truthiness of a setting: a non-empty string. */
  predicate Truthy(v: Value) {
    v.Text? && v.text != ""
  }

  /** The settings the current client keeps on its instance. */
  datatype Settings = Settings(apiKey: Value, projectPath: Value, defaultBaseBranch: Value)

  /** The settings the legacy client keeps: it has no default base branch. */
  datatype LegacySettings = LegacySettings(apiKey: Value, projectPath: Value)

  /** The configuration object of a save request. */
  datatype ConfigUpdate = ConfigUpdate(geminiApiKey: Field, projectPath: Field, defaultBaseBranch: Field)

  const SavedMessage := "Configuration saved successfully"

  /** One `if (config.x !== undefined) this.x = config.x`. */
  function Assign(f: Field, current: Value): Value {
    if f.Undefined? then current else f.value
  }

  /** `handleSaveConfig` of the current client: each field the update gives
      replaces the stored one; each `undefined` field leaves it alone. */
  function SaveConfig(s: Settings, u: ConfigUpdate): (r: (Settings, string))
    ensures r.1 == SavedMessage
    ensures u.geminiApiKey.Undefined? ==> r.0.apiKey == s.apiKey
    ensures u.geminiApiKey.Given? ==> r.0.apiKey == u.geminiApiKey.value
    ensures u.projectPath.Undefined? ==> r.0.projectPath == s.projectPath
    ensures u.projectPath.Given? ==> r.0.projectPath == u.projectPath.value
    ensures u.defaultBaseBranch.Undefined? ==> r.0.defaultBaseBranch == s.defaultBaseBranch
    ensures u.defaultBaseBranch.Given? ==> r.0.defaultBaseBranch == u.defaultBaseBranch.value
  {
    (Settings(Assign(u.geminiApiKey, s.apiKey),
              Assign(u.projectPath, s.projectPath),
              Assign(u.defaultBaseBranch, s.defaultBaseBranch)),
     SavedMessage)
  }

  /** `handleSaveConfig` of the legacy client: the same for the two settings
      it has; a `defaultBaseBranch` field is ignored. */
  function LegacySaveConfig(s: LegacySettings, u: ConfigUpdate): (r: (LegacySettings, string))
    ensures r.1 == SavedMessage
    ensures u.geminiApiKey.Undefined? ==> r.0.apiKey == s.apiKey
    ensures u.geminiApiKey.Given? ==> r.0.apiKey == u.geminiApiKey.value
    ensures u.projectPath.Undefined? ==> r.0.projectPath == s.projectPath
    ensures u.projectPath.Given? ==> r.0.projectPath == u.projectPath.value
  {
    (LegacySettings(Assign(u.geminiApiKey, s.apiKey), Assign(u.projectPath, s.projectPath)),
     SavedMessage)
  }

  /** The update that sends nothing. */
  const NoChange := ConfigUpdate(Undefined, Undefined, Undefined)

  /** Two saves in a row: the later save's given fields win. */
  function Then(first: ConfigUpdate, second: ConfigUpdate): ConfigUpdate {
    ConfigUpdate(
      if second.geminiApiKey.Given? then second.geminiApiKey else first.geminiApiKey,
      if second.projectPath.Given? then second.projectPath else first.projectPath,
      if second.defaultBaseBranch.Given? then second.defaultBaseBranch else first.defaultBaseBranch)
  }

  /** An update with every field `undefined` changes nothing. */
  lemma NoChangeKeepsSettings(s: Settings)
    ensures SaveConfig(s, NoChange).0 == s
  {
  }

  /** Saving the same update twice is the same as saving it once. */
  lemma SaveConfigIdempotent(s: Settings, u: ConfigUpdate)
    ensures SaveConfig(SaveConfig(s, u).0, u).0 == SaveConfig(s, u).0
  {
  }

  /** Two saves compose into one: the second overrides exactly the fields it
      gives. */
  lemma SaveConfigComposes(s: Settings, first: ConfigUpdate, second: ConfigUpdate)
    ensures SaveConfig(SaveConfig(s, first).0, second).0 == SaveConfig(s, Then(first, second)).0
  {
  }

  /** On the settings both clients have, the legacy save agrees with the
      current one. */
  lemma LegacyAgreesWithCurrent(s: Settings, u: ConfigUpdate)
    ensures var l := LegacySaveConfig(LegacySettings(s.apiKey, s.projectPath), u).0;
            var c := SaveConfig(s, u).0;
            l.apiKey == c.apiKey && l.projectPath == c.projectPath
  {
  }

  const ProjectPathMissingMessage := "Project path not configured"

  /** The JSON body posted to `/create-branch`; `defaultBaseBranch` is a key
      the body may lack. */
  datatype CreateRequest = CreateRequest(branchName: string, projectPath: string, defaultBaseBranch: Option<string>)

  /** The request the current client builds, or the error it throws before
      any request is made when no project path is configured. */
  function BuildCreateRequest(s: Settings, branchName: string): (r: Result<CreateRequest, string>)
    ensures r.Err? <==> !Truthy(s.projectPath)
    ensures r.Err? ==> r.error == ProjectPathMissingMessage
    ensures r.Ok? ==> r.value.branchName == branchName && Text(r.value.projectPath) == s.projectPath
    ensures r.Ok? ==> (r.value.defaultBaseBranch.Some? <==> Truthy(s.defaultBaseBranch))
    ensures r.Ok? && r.value.defaultBaseBranch.Some? ==> Text(r.value.defaultBaseBranch.value) == s.defaultBaseBranch
  {
    if !Truthy(s.projectPath) then Err(ProjectPathMissingMessage)
    else
      var base := if Truthy(s.defaultBaseBranch) then Some(s.defaultBaseBranch.text) else None;
      Ok(CreateRequest(branchName, s.projectPath.text, base))
  }

  /** The legacy client's request: the same guard, and never a base branch. */
  function LegacyBuildCreateRequest(s: LegacySettings, branchName: string): (r: Result<CreateRequest, string>)
    ensures r.Err? <==> !Truthy(s.projectPath)
    ensures r.Err? ==> r.error == ProjectPathMissingMessage
    ensures r.Ok? ==> r.value.branchName == branchName && Text(r.value.projectPath) == s.projectPath
    ensures r.Ok? ==> r.value.defaultBaseBranch.None?
  {
    if !Truthy(s.projectPath) then Err(ProjectPathMissingMessage)
    else Ok(CreateRequest(branchName, s.projectPath.text, None))
  }

  /** Without a default base branch the two clients send the same request. */
  lemma ClientsAgreeWithoutBase(s: Settings, branchName: string)
    requires !Truthy(s.defaultBaseBranch)
    ensures BuildCreateRequest(s, branchName)
            == LegacyBuildCreateRequest(LegacySettings(s.apiKey, s.projectPath), branchName)
  {
  }

  /** How the `fetch` to the local server ended: it threw (no server listening,
      with the browser's message), the server answered with a non-OK status
      and a body, or it answered OK and the body was read as JSON, which may
      itself fail with a message. */
  datatype ServerReply<T> = Unreachable(reason: string) | Refused(text: string) | Accepted(json: Result<T, string>)

  const ServerDownMessage := "Local server is not running. Execute: cd local-server && npm start"

  /** The error thrown inside the `try` for a reply, if any. */
  function Thrown<T>(reply: ServerReply<T>): (m: Option<string>)
    ensures m.None? <==> reply.Accepted? && reply.json.Ok?
    ensures reply.Refused? ==> m == Some("Local server error: " + reply.text)
  {
    match reply
    case Unreachable(reason) => Some(reason)
    case Refused(text) => Some("Local server error: " + text)
    case Accepted(Ok(_)) => None
    case Accepted(Err(e)) => Some(e)
  }

  /** `createBranchLocally`'s handling of the reply as written: the catch
      block turns every error whose message mentions "fetch" into the
      server-down message, whatever threw it. */
  function HandleReplyAsWritten<T>(reply: ServerReply<T>): (r: Result<T, string>)
    ensures r.Ok? <==> reply.Accepted? && reply.json.Ok?
    ensures r.Ok? ==> r.value == reply.json.value
    ensures r.Err? ==> r.error == if Contains(Thrown(reply).value, "fetch") then ServerDownMessage else Thrown(reply).value
  {
    match Thrown(reply)
    case None => Ok(reply.json.value)
    case Some(m) => if Contains(m, "fetch") then Err(ServerDownMessage) else Err(m)
  }

  /** A server that did answer, refusing a branch whose name contains "fetch"
      (its 500 body quotes the name), is reported as not running. */
  lemma ReplyMentioningFetchLooksLikeOutage<T>(name: string, text: string)
    requires Contains(name, "fetch")
    requires Contains(text, name)
    ensures HandleReplyAsWritten<T>(Refused(text)) == Err(ServerDownMessage)
  {
    ContainsTrans(text, name, "fetch");
    ContainsAfterPrefix("Local server error: ", text, "fetch");
  }

  /** Such a name exists: `feat/fetch-users`, the name sanitising "Fetch users"
      gives, mentions "fetch". */
  lemma FetchUsersMentionsFetch(name: string)
    requires name == "feat/fetch-users"
    ensures Contains(name, "fetch")
  {
    assert "fetch" <= name[5..];
    ContainsAt(name, "fetch", 5);
  }

  /** The evident intent: only a failed `fetch` means the server is down; an
      answer from the server keeps its own text. */
  function HandleReply<T>(reply: ServerReply<T>): (r: Result<T, string>)
    ensures r.Ok? <==> reply.Accepted? && reply.json.Ok?
    ensures r.Ok? ==> r.value == reply.json.value
    ensures reply.Refused? ==> r == Err("Local server error: " + reply.text)
    ensures reply.Accepted? && reply.json.Err? ==> r == Err(reply.json.error)
    ensures reply.Unreachable? ==> r == HandleReplyAsWritten(reply)
  {
    match reply
    case Unreachable(reason) => if Contains(reason, "fetch") then Err(ServerDownMessage) else Err(reason)
    case Refused(text) => Err("Local server error: " + text)
    case Accepted(Ok(v)) => Ok(v)
    case Accepted(Err(e)) => Err(e)
  }

  /** With the intended handling the server-down message can only come from a
      failed `fetch` (or from a server whose own text is exactly that message). */
  lemma OutageOnlyWhenUnreachable<T>(reply: ServerReply<T>)
    requires HandleReply(reply) == Err(ServerDownMessage)
    ensures reply.Unreachable? || Thrown(reply) == Some(ServerDownMessage)
  {
  }

  /** The two handlings differ only on errors that mention "fetch" and did not
      come from the `fetch` itself. */
  lemma HandlingsAgreeOtherwise<T>(reply: ServerReply<T>)
    requires reply.Unreachable? || Thrown(reply).None? || !Contains(Thrown(reply).value, "fetch")
    ensures HandleReply(reply) == HandleReplyAsWritten(reply)
  {
  }
}
