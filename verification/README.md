# Notion-to-Git branch creator, modelled in Dafny

The system is a Chrome extension paired with a small local Node.js server.
The extension reads a Notion card, asks Gemini for a branch name, cleans the
answer, and asks the local server to create that branch. The server checks
the repository, reads its status and branch list, refuses a name that
already exists, and otherwise runs `git checkout -b`.

This project models the parts of that pipeline that are decidable logic:

- The Git handler of the local server (`local-server/git-handler.js`):
  - translation of Git error text;
  - shaping of command results;
  - status reading;
  - branch listing with de-duplication;
  - repository validation;
  - the create-branch sequence.
- The server's request guards and its reduction of `config.json` to presence
  flags (`local-server/server.js`).
- The extension's branch-name sanitiser.
- The extension's mapping of Gemini failures to messages. There are two
  clients: the SDK client in `chrome-extension/src/background.js` and the
  HTTP client in `chrome-extension/background.js`.
- The extension's configuration updates and its request to the local server.

Git is an oracle. A `Host` holds the filesystem facts the handler consults
(existing paths and directories) and a function from (repository state,
working directory, command line) to (exit, next state). Every operation returns
a `Run`: its result, the state it leaves, and the log of the calls it made.
`Replays` ties each log to the oracle. The network, the Gemini SDK and the
browser's `fetch` are likewise given as their outcomes (`SdkCall`, `FetchReply`, `ServerReply`).

Modules, one per component:

| module | file | models |
|---|---|---|
| Outcomes | outcomes.dfy | `Option`, `Result` |
| Strings | strings.dfy | JavaScript `trim`, `includes`, `split`/`join`, ASCII `toLowerCase`, integer rendering |
| Rules | rules.dfy | an ordered first-match rule table, the reference for the hand-written `if` chains |
| GitErrors | git_errors.dfy | `parseGitError` |
| BranchListing | branch_listing.dfy | the stdout parsing and de-duplication inside `listBranches` |
| GitHandler | git_handler.dfy | `executeGitCommand`, `getRepoStatus`, `listBranches`, `getGitVersion`, `validateRepository`, `createBranch` |
| BranchNames | branch_names.dfy | `sanitizeBranchName` (identical in both clients) |
| Gemini | gemini.dfy | both clients' `generateBranchName` error handling, `tryFallbackModel`, the HTTP client's `handleTestConnection` |
| ExtensionConfig | extension_config.dfy | `handleSaveConfig` (both clients), `createBranchLocally` (both clients) |
| LocalServer | local_server.dfy | `/load-config`, `/create-branch`, `/git-status`, `/list-branches`, `/validate-repo` |

## Model

| member | source | states |
|---|---|---|
| Rules.FirstMatch | local-server/git-handler.js:64-86 | The matched rule is the first whose pattern occurs in the text; no earlier rule matches; no match at all means no rule matches. |
| Rules.MentionsTwo | local-server/git-handler.js:80-84 | A two-pattern rule matches exactly when either pattern occurs, as the `a \|\| b` tests do. |
| GitErrors.Untranslated | local-server/git-handler.js:89 | The fallback is the error message, else stderr, else `Unknown Git error` when both are empty, in original case; it is never empty. |
| GitErrors.ParseGitError | local-server/git-handler.js:61-90 | The translation is never empty and is one of the six fixed messages or the untranslated fallback. |
| GitErrors.ParseGitErrorIsFirstMatch | local-server/git-handler.js:62-89 | The `if` chain equals the six-rule table in source order on lower-cased stderr (or the message when stderr is empty); an unmatched text gives the fallback. |
| GitErrors.TranslateIsFirstMatch | local-server/git-handler.js:64-86 | The `if` chain picks the first of the six rules, in source order, whose pattern occurs in the text; none matching gives no translation. |
| GitErrors.MessagesDistinct | local-server/git-handler.js:64-86 | The six fixed messages are pairwise distinct, so the message identifies the rule. |
| Strings.Split | local-server/git-handler.js:193-194 | `split('\n')` gives at least one piece, no piece holds the separator, and joining the pieces restores the text. |
| Strings.TrimEmpty | chrome-extension/src/background.js:147-156 | `trim` empties a string exactly when every character is whitespace, which is when the SDK client reports an empty response. |
| Strings.IntToDecimalInjective | chrome-extension/background.js:146 | Distinct statuses render as distinct decimal text inside the template string. |
| BranchListing.LocalEntry | local-server/git-handler.js:195 | A `git branch` line loses the `*` marker and its padding; the result is trimmed and, when non-empty, occurs in the line. |
| BranchListing.LocalEntryBounds | local-server/git-handler.js:195 | The entry is exactly `line[i..j]`, where `line[..i]` is an optional leading `*` followed by white space (a leading `*` is always removed) and `line[j..]` is all white space. |
| BranchListing.RemoteEntry | local-server/git-handler.js:208 | A `git branch -r` line is trimmed; an `origin/` prefix, and only that remote's, is removed. |
| BranchListing.NonBlank | local-server/git-handler.js:196 | `filter(b => b)`: the result is a subsequence of the entries, holds exactly the non-empty ones, and keeps each non-empty entry as many times as it occurs. |
| BranchListing.NonBlankWithoutHead | local-server/git-handler.js:209 | `filter(b => b && !b.includes('HEAD'))`: a subsequence holding exactly the non-empty entries without `HEAD`, each as many times as it occurs. |
| BranchListing.LocalBranches | local-server/git-handler.js:192-196 | The local names are the non-empty cleaned lines of `git branch`, in output order and with their multiplicity. |
| BranchListing.LocalBranchesOccurInOutput | local-server/git-handler.js:192-196 | Every local name is non-empty, trimmed, and text that `git branch` printed. |
| BranchListing.RemoteBranches | local-server/git-handler.js:202-211 | Remote names are the non-empty cleaned `git branch -r` lines without `HEAD`, in output order and with their multiplicity; a failed `branch -r` gives none. |
| BranchListing.Dedupe | local-server/git-handler.js:213 | `[...new Set(xs)]` holds every element of `xs`, no duplicates, in order of first occurrence. |
| BranchListing.MakeListing | local-server/git-handler.js:213-221 | `all` is `[...new Set([...local, ...remote])]`: the union of local and remote names without duplicates, in first-occurrence order. `count` is its length, and `current` is the trimmed current-branch output. |
| BranchListing.LocalNamesComeFirst | local-server/git-handler.js:213 | A local name precedes every remote-only name in `all`. |
| GitHandler.Shape | local-server/git-handler.js:32-53 | A normal exit resolves with trimmed output and the command line. A failure rejects with the raw error and stderr, from which the translated message is derived, the exit code or `GIT_ERROR`, and trimmed diagnostics. |
| GitHandler.ExecuteGitCommand | local-server/git-handler.js:17-56 | Exactly one call is made, with the line `git <command>`, and its answer is shaped. |
| GitHandler.CurrentBranchOf | local-server/git-handler.js:148-149 | The current branch is the trimmed output, or `detached HEAD` exactly when that output is empty. |
| GitHandler.StatusOf | local-server/git-handler.js:149-177 | `hasChanges` holds iff the porcelain output is non-empty and `isClean` is its negation. `lastCommit` and `remoteStatus` are absent exactly when their command failed. |
| GitHandler.GetRepoStatus | local-server/git-handler.js:145-184 | The first two commands are required and the last two optional. It succeeds iff both required commands exit normally; otherwise the failing call's shaped error is the result. |
| GitHandler.StatusReadIsStable | local-server/git-handler.js:145-184 | When the status commands only read, a second status read returns the same record and leaves the repository as it was. |
| GitHandler.ListBranches | local-server/git-handler.js:189-227 | `branch` and `--show-current` are required; a failing `branch -r` yields no remote names; the listing is built from the three answers. |
| GitHandler.ListBranchesIsStable | local-server/git-handler.js:189-227 | When the three listing commands only read, listing leaves the repository as it was, and a second listing returns the same result. |
| GitHandler.VersionOf | local-server/git-handler.js:280-283 | The version is the trimmed output, or `Versão desconhecida` when the command failed. |
| GitHandler.GetGitVersion | local-server/git-handler.js:278-285 | One `git --version` call; it never fails. |
| GitHandler.JoinGit | local-server/git-handler.js:246 | `path.join(p, '.git')` inserts a `/` exactly when `p` is non-empty and does not already end in one, and adds `.git` directly otherwise. |
| GitHandler.JoinGitIsDirectChild | local-server/git-handler.js:246 | For a non-empty path a `/` stands right before `.git`, so the checked entry lies directly under the project path, never beside it as `repo.git`. |
| GitHandler.ValidateRepository | local-server/git-handler.js:232-273 | The checks run in order: path exists, is a directory, holds `.git`, `git status`, `git --version`. The first failure decides the error, and no command runs before the filesystem checks pass. Success gives `isValid`, the same path and the version from a further `--version`. |
| GitHandler.StatusFailureWins | local-server/git-handler.js:251-252 | A failing `git status` is reported with its translated error, and `--version` is never run. |
| GitHandler.Inspect | local-server/git-handler.js:104-108 | The status read is followed by the branch listing, using only read commands. It succeeds iff the seven calls all happen, and each record is built from its own answers. |
| GitHandler.Survey | local-server/git-handler.js:101-108 | Validation runs first and then the status read and listing, issuing only read commands; a full survey makes ten calls with each record taken from its own answers. |
| GitHandler.CreationMessage | local-server/git-handler.js:131-133 | The message names the branch and quotes the previous branch. The checkout variant ends with the quoted previous branch; the other ends with it followed by ` (sem checkout)`. |
| GitHandler.CreateCommandIsNotARead | local-server/git-handler.js:114-120 | The creating command line is none of the read commands. |
| GitHandler.Create | local-server/git-handler.js:113-139 | It issues `checkout -b "<name>"` or `branch "<name>"`, then re-reads the status. A failing create or re-read is the result, as that last call's shaped error. The record has `created`, `checkedOut == autoCheckout`, the previous branch, the branch read afterwards, and the matching message. |
| GitHandler.CreateBranch | local-server/git-handler.js:98-140 | A path without `.git` fails with no call. A survey failure is the failure, after fewer than ten read calls. A name in the survey's `all` is refused with `Branch "<name>" already exists` after exactly the ten reads. Otherwise the create command is the eleventh call and no other. A failing create or re-read is rethrown as that call's shaped error; success makes fifteen calls, and the record takes `previousBranch` from the survey's current branch and `currentBranch` from the re-read. |
| GitHandler.CollisionChangesNothing | local-server/git-handler.js:108-111 | On a collision no creating command is issued, and when reads do not change the repository the state is unchanged. |
| GitHandler.SuccessCreatesOnce | local-server/git-handler.js:98-134 | A success means the survey succeeded and the name was not among its branches. `previousBranch` is the surveyed current branch, and the first ten calls are the survey's. |
| GitHandler.CreateIsEleventh | local-server/git-handler.js:113-123 | After ten read calls, the creating call is the eleventh and the twelfth starts the final status read; the survey's status and listing calls keep their places. No other call of the log is the creating one. |
| BranchNames.ReplaceDisallowed | chrome-extension/src/background.js:240 | Characters outside `[a-z0-9-/]` become `-` and the others are kept. |
| BranchNames.CollapseHyphens | chrome-extension/src/background.js:241 | `replace(/-+/g, '-')`: position by position, each hyphen directly after a hyphen is dropped and every other character kept. No two hyphens remain adjacent, and a hyphen stays at either end exactly when one was there. |
| BranchNames.CollapseKeepsText | chrome-extension/src/background.js:241 | Collapsing hyphen runs leaves the non-hyphen characters unchanged. |
| BranchNames.CollapseFixesSingleHyphens | chrome-extension/src/background.js:241 | Text without a hyphen run is left unchanged. |
| BranchNames.StripEdgeHyphens | chrome-extension/src/background.js:242 | The result is `s[i..j]`, with `i` skipping one leading hyphen and `j` one trailing hyphen. The non-hyphen characters are unchanged, and text without edge hyphens is unchanged. |
| BranchNames.Clean | chrome-extension/src/background.js:237-242 | The cleaned text uses only `[a-z0-9-/]`, has no `--`, and neither starts nor ends with `-`. Its non-hyphen characters are those of the lower-cased, trimmed, replaced input, in order. |
| BranchNames.Prefixed | chrome-extension/src/background.js:245-247 | `feat/` is prepended exactly when the text has no `/`, and the result always has one. |
| BranchNames.SubstringTo | chrome-extension/src/background.js:254 | `substring(0, n)` is a prefix, empty for negative `n`, of length `n` when in range. |
| BranchNames.Shorten | chrome-extension/src/background.js:250-255 | Text of at most 60 characters is kept. Longer text is cut to its first `max(51, segment + 1)` characters. |
| BranchNames.ShortenKeepsClean | chrome-extension/src/background.js:250-255 | Shortening cleaned, prefixed text keeps it clean: only allowed characters, no `--`, a `/`, no leading `-`. The result is at most 60 long or ends in `/`. |
| BranchNames.Sanitize | chrome-extension/src/background.js:235-258 | The output uses only `[a-z0-9-/]`, contains `/`, has no `--`, and does not start with `-`. It is a prefix of the prefixed cleaned text, and equals it when that is at most 60 long. |
| BranchNames.SanitizeIdempotent | chrome-extension/src/background.js:235-258 | When no shortening was needed, sanitizing the output again returns it unchanged. |
| BranchNames.BlankBecomesDefaultType | chrome-extension/background.js:175-185 | Empty or whitespace-only text becomes exactly `feat/`. |
| BranchNames.FixLoginExample | chrome-extension/background.js:176-185 | `Fix Login` becomes `feat/fix-login`: lower-casing runs before replacement, so letters are kept. |
| BranchNames.WordKeepsItsLetters | chrome-extension/background.js:176-185 | A short word of ASCII letters and digits comes out lower-cased behind `feat/`. |
| BranchNames.LongTypeLeavesEmptyDescription | chrome-extension/background.js:188-193 | When the first segment has 50 or more characters, the result is that segment and `/`, with an empty description. |
| BranchNames.CutMayEndInHyphen | chrome-extension/background.js:188-193 | The cut can leave a trailing `-`; a second pass then changes the name, so long names are not idempotent. |
| BranchNames.TrailingHyphenIsNotFixed | chrome-extension/src/background.js:235-258 | Text of 6 to 55 characters that ends in `-` is changed by sanitizing, because the cleaned result never ends in `-` and is not shortened. |
| Gemini.ClassifySdkError | chrome-extension/src/background.js:167-184 | A failure message is one of the three fixed messages; an error is rethrown only when it does not mention `MODEL_NOT_FOUND`. |
| Gemini.ClassifySdkErrorIsFirstMatch | chrome-extension/src/background.js:167-184 | The chain equals the rule table in order: `API_KEY_INVALID`, `PERMISSION_DENIED`, `QUOTA_EXCEEDED`, `MODEL_NOT_FOUND` (fallback). Any other error is rethrown. |
| Gemini.NoUnderscoreIsRethrown | chrome-extension/src/background.js:167-184 | A message without `_` matches no rule and is rethrown unchanged. |
| Gemini.EmptyResponseIsRethrown | chrome-extension/src/background.js:154-156 | The client's own empty-response error passes through the classifier unchanged. |
| Gemini.Answer | chrome-extension/src/background.js:147-156 | An answer is the trimmed text when it is non-blank; otherwise there is none. |
| Gemini.FirstAnswer | chrome-extension/src/background.js:191-224 | It picks the first fallback model with a non-blank answer, and all earlier models gave none; it finds nothing exactly when none answers. |
| Gemini.TryFallbackModels | chrome-extension/src/background.js:189-232 | The first non-blank fallback answer is sanitized. When none answers, the result is `All Gemini models failed…`. |
| Gemini.GenerateWithSdk | chrome-extension/src/background.js:122-186 | A missing key fails before any call. A blank answer fails with `Empty response…`. A thrown error is classified. Any name returned is sanitized. |
| Gemini.StatusMessage | chrome-extension/background.js:121-148 | Every non-OK message starts with `Error <status>: `. Any status other than the six with fixed texts has the response body in its message. |
| Gemini.ExplainedStatusIgnoresBody | chrome-extension/background.js:121-146 | For 400, 401, 403, 404, 429 and 500 the message is the same whatever the body. |
| Gemini.StatusMessageIdentifiesStatus | chrome-extension/background.js:121-148 | Different statuses never produce the same message. |
| Gemini.GenerateWithHttp | chrome-extension/background.js:80-166 | A missing key fails before any request. A non-OK status gives its message. A 2xx reply without a candidate text, or with a blank one, gives `Invalid response from Gemini API`. A 2xx body that cannot be read fails with the reader's own error. Otherwise the trimmed candidate is sanitized. |
| Gemini.HttpFailuresAreDistinct | chrome-extension/background.js:121-160 | A status message never equals the invalid-response message. |
| Gemini.GeminiCheck | chrome-extension/background.js:456-498 | It succeeds iff a key is set and the status is 2xx. 401, 403 and 429 get their own texts and any other failure gives `Error <status> - check API key`. A network failure is reported as a connection failure. |
| Gemini.ServerCheck | chrome-extension/background.js:501-519 | The server check succeeds iff `/health` answers 2xx, and unreachable means `Local server is not running`. |
| Gemini.TestConnection | chrome-extension/background.js:449-522 | Both checks always run and neither affects the other. |
| Gemini.UnlistedStatusIsQuoted | chrome-extension/background.js:478-491 | A status without its own text appears in the message. |
| ExtensionConfig.SaveConfig | chrome-extension/src/background.js:435-451 | Each of the three fields replaces the stored value when given and leaves it unchanged when `undefined`; the reply is the fixed saved message. |
| ExtensionConfig.LegacySaveConfig | chrome-extension/background.js:366-379 | The same for the legacy client's two fields. |
| ExtensionConfig.SaveConfigComposes | chrome-extension/src/background.js:437-445 | Two saves equal one save of the merged update, the later given fields winning. |
| ExtensionConfig.SaveConfigIdempotent | chrome-extension/src/background.js:437-445 | Saving the same update twice equals saving it once. |
| ExtensionConfig.NoChangeKeepsSettings | chrome-extension/src/background.js:437-445 | An update with every field `undefined` changes nothing. |
| ExtensionConfig.LegacyAgreesWithCurrent | chrome-extension/background.js:368-373 | On the two shared fields the legacy save agrees with the current one. |
| ExtensionConfig.BuildCreateRequest | chrome-extension/src/background.js:261-275 | A falsy project path fails with `Project path not configured` before any request. The body includes `defaultBaseBranch` exactly when that setting is truthy. |
| ExtensionConfig.LegacyBuildCreateRequest | chrome-extension/background.js:199-214 | The same guard; the body never has a base branch. |
| ExtensionConfig.ClientsAgreeWithoutBase | chrome-extension/background.js:199-214 | Without a base branch both clients send the same request. |
| ExtensionConfig.Thrown | chrome-extension/src/background.js:285-290 | Only a successfully parsed OK reply throws nothing; a non-OK reply throws `Local server error: <text>`. |
| ExtensionConfig.HandleReplyAsWritten | chrome-extension/src/background.js:293-304 | Any thrown error mentioning `fetch` becomes the server-down message; others pass through. |
| ExtensionConfig.ReplyMentioningFetchLooksLikeOutage | chrome-extension/background.js:216-235 | A refusal from a running server whose text quotes a branch name containing `fetch` is reported as the server not running. |
| ExtensionConfig.HandleReply | chrome-extension/src/background.js:293-304 | The corrected handling keeps a server reply's own text. Only an unreachable server can yield the server-down message. |
| ExtensionConfig.OutageOnlyWhenUnreachable | chrome-extension/src/background.js:296-301 | With the corrected handling, the server-down message means the fetch itself failed, or the server sent that very text. |
| ExtensionConfig.HandlingsAgreeOtherwise | chrome-extension/src/background.js:293-304 | The two handlings differ only on `fetch`-mentioning errors that did not come from the fetch. |
| LocalServer.BaseBranchOf | local-server/server.js:77 | `settings?.defaultBaseBranch \|\| ""` is truthy or the empty string. |
| LocalServer.OrEmptyObject | local-server/server.js:80-81 | `x \|\| {}` is truthy and keeps a truthy `x`. |
| LocalServer.LoadConfig | local-server/server.js:50-99 | Missing file means not found with the path; a SyntaxError means invalid JSON; other errors, including a `null` document, mean failed to read. On success `hasApiKey` and `hasProjectPath` are truthiness minus the exact placeholder, each value is null iff its flag is false, and settings and advanced are the file's values or `{}` when those are falsy. |
| LocalServer.ApiKeyPresence | local-server/server.js:66-68 | A string key counts as present iff it is non-empty and not `PASTE_YOUR_GEMINI_API_KEY_HERE`, and is then returned as is. |
| LocalServer.InstallerPlaceholderCountsAsKey | install.js:91 | The installer's own placeholder key is reported as present. |
| LocalServer.BaseBranchFallback | local-server/server.js:77 | The base branch is the settings' truthy value, otherwise `""`. |
| LocalServer.CreateFailure | local-server/server.js:147-156 | A failure answers with its message, its code or `UNKNOWN_ERROR`, and its details when it has any. |
| LocalServer.CreateBranchRoute | local-server/server.js:104-157 | Three guards run in order and each answers 400 before any Git call: both fields given, path exists, `.git` exists. Then `createBranch` runs with checkout on, giving 200 with the record or 500 with the failure. |
| LocalServer.BaseBranchIsIgnored | local-server/server.js:135-140 | The forwarded `defaultBaseBranch` changes neither the answer, nor the calls, nor the repository. |
| LocalServer.RouteAlwaysChecksOut | local-server/server.js:135-140 | A successful route answer is a checked-out, created branch of the requested name, made by `checkout -b`. |
| LocalServer.Answer | local-server/server.js:170-184 | A handler result answers 200 and a failure answers 500 with its message. |
| LocalServer.GitStatusRoute | local-server/server.js:160-185 | A missing `projectPath` answers 400 before any call; otherwise the status read answers. |
| LocalServer.ListBranchesRoute | local-server/server.js:188-213 | The same guard in front of the branch listing. |
| LocalServer.ValidateRepoRoute | local-server/server.js:216-243 | The same guard in front of validation. |
| LocalServer.MissingPathIsA500 | local-server/server.js:216-243 | A non-existent path passes the route's guard and fails in the handler with `Path does not exist: <p>`. |

## Left out

- Process spawning is not modelled, nor the 30-second timeout, the 1 MB output buffer or the shell. A command is an oracle answer, and the same `git <command>` line is used on every platform.
- No claim is made about quoting or shell-injection safety of branch names.
- Express routing, CORS, JSON body parsing, the `/health` and catch-all routes, and listen and shutdown are not modelled.
- Timestamps in answers and the `received`, `path` and `suggestion` fields of the 400 bodies are not modelled.
- The Gemini SDK, `fetch` and prompt building are outcomes given as parameters. Only the model name list of the fallback loop is kept. The loop updating `this.model` is not modelled.
- The SDK client's `handleTestConnection` is not modelled; it reuses the fallback loop over the network.
- `handleGetConfig`, `loadConfigFromFile`, `saveConfiguration` (chrome storage) and `initializeGeminiClient` are storage and SDK I/O.
- The popup, the content script, the installer (apart from its placeholder key), the test drivers and the build configuration are outside the core.
- `getSystemInfo` and `testGitInstallation` are operating-system queries.
- Lower-casing is ASCII only; other characters are left as they are.
- `path.join` is modelled only for paths that need no normalisation (`JoinGit`). `statSync` errors are not modelled.
- JSON numbers are integers, so floating point is not modelled.
- The route bodies carry strings or nothing. Non-string JSON values in request bodies are not modelled.
- An error `code` is a string, with the empty string meaning "no code".
- The extension's stored settings are `null` or a string.
- LocalServer.LoadConfig: `hasApiKey` and `hasProjectPath` are booleans. JavaScript's `&&` actually returns the falsy operand itself (`undefined`, `""`, `null`) in place of `false`.
- LocalServer.LoadConfig: the `details` of a `null` document's TypeError is the V8 message text. Other read and parse messages are parameters.
- Gemini.GeminiCheck: the check's `status` string (`success`/`error`) is a boolean.
- Concurrent requests are not modelled. Express serves requests as they arrive, so two `/create-branch` calls on one repository can interleave between the branch listing and `checkout -b`; both can then pass the collision check. Each run here replays one uninterleaved log, and CollisionChangesNothing and SuccessCreatesOnce hold only for such a log.
- Gemini.GenerateWithSdk: a missing model is initialised lazily in the source; that call into the SDK is not modelled.

## Findings

| source | as written | input that shows it | evidently intended | confidence | as-written member | corrected member |
|---|---|---|---|---|---|---|
| chrome-extension/src/background.js:293-304 (also chrome-extension/background.js:224-235) | The catch block maps every error whose message contains `fetch` to "Local server is not running". That includes the `Local server error: <text>` the block itself threw for a non-OK reply. | Creating `feat/fetch-users` when it already exists. The running server answers 500 with a JSON body whose error text quotes `feat/fetch-users`, and the user is told the server is not running. | Only a failed `fetch` (no server listening) means the server is down. A server's own reply keeps its text. | not executed | ExtensionConfig.ReplyMentioningFetchLooksLikeOutage | ExtensionConfig.HandleReply |
