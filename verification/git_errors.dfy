/** Translation of raw Git failure text into the fixed user-facing messages of
    `GitHandler.parseGitError` (local-server/git-handler.js). */
module GitErrors {
  import opened Outcomes
  import opened Strings
  import opened Rules

  /** The six failures the translator recognises. */
  datatype Known = NotARepository | BranchExists | InvalidBase | Uncommitted | PermissionDenied | GitMissing

  const NotARepositoryMessage := "O diretório não é um repositório Git. Execute \"git init\" primeiro."
  const BranchExistsMessage := "Branch já existe. Escolha um nome diferente ou faça checkout do branch existente."
  const InvalidBaseMessage := "Branch base não existe. Certifique-se de estar em um branch válido."
  const UncommittedMessage := "Há alterações não commitadas. Faça commit ou stash das alterações primeiro."
  const PermissionMessage := "Permissão negada. Verifique as permissões do diretório."
  const GitMissingMessage := "Git não encontrado. Instale o Git e certifique-se de que está no PATH."

  /** The fixed user-facing message of each recognised failure. */
  function MessageOf(k: Known): string {
    match k
    case NotARepository => NotARepositoryMessage
    case BranchExists => BranchExistsMessage
    case InvalidBase => InvalidBaseMessage
    case Uncommitted => UncommittedMessage
    case PermissionDenied => PermissionMessage
    case GitMissing => GitMissingMessage
  }

  const UnknownMessage := "Unknown Git error"

  /** The translator as an ordered rule table: the reference against which the
      hand-written chain below is checked. */
  const Translations: seq<Rule<Known>> :=
    [ Rule(["not a git repository"], NotARepository),
      Rule(["already exists"], BranchExists),
      Rule(["fatal: not a valid object name"], InvalidBase),
      Rule(["working tree clean"], Uncommitted),
      Rule(["permission denied", "access denied"], PermissionDenied),
      Rule(["command not found", "is not recognized"], GitMissing) ]

  /** The text that is classified: standard error when it is non-empty, else
      the process error's message, lower-cased. */
  function ErrorText(errorMessage: string, stderr: string): string {
    ToLowerAscii(if stderr != "" then stderr else errorMessage)
  }

  /** What is returned when no pattern matches: the first non-empty of the
      error message and standard error, in their original case. */
  function Untranslated(errorMessage: string, stderr: string): (r: string)
    ensures r != ""
    ensures errorMessage != "" ==> r == errorMessage
    ensures errorMessage == "" && stderr != "" ==> r == stderr
    ensures errorMessage == "" && stderr == "" ==> r == UnknownMessage
  {
    if errorMessage != "" then errorMessage
    else if stderr != "" then stderr
    else UnknownMessage
  }

  /** The source's chain of tests on the classified text: the failure named
      by the first test that fires, if any. */
  function Translate(text: string): Option<Known>
  {
    if Contains(text, "not a git repository") then Some(NotARepository)
    else if Contains(text, "already exists") then Some(BranchExists)
    else if Contains(text, "fatal: not a valid object name") then Some(InvalidBase)
    else if Contains(text, "working tree clean") then Some(Uncommitted)
    else if Contains(text, "permission denied") || Contains(text, "access denied") then Some(PermissionDenied)
    else if Contains(text, "command not found") || Contains(text, "is not recognized") then Some(GitMissing)
    else None
  }

  /** `parseGitError(errorMessage, stderr)`: the fixed message when a test
      fires, and the original text otherwise. */
  function ParseGitError(errorMessage: string, stderr: string): (r: string)
    ensures r != ""
    ensures (exists k :: r == MessageOf(k)) || r == Untranslated(errorMessage, stderr)
  {
    match Translate(ErrorText(errorMessage, stderr))
    case Some(k) => MessageOf(k)
    case None => Untranslated(errorMessage, stderr)
  }

  /** The chain agrees with the rule table: the first rule whose pattern
      occurs in the text decides the message. */
  lemma TranslateIsFirstMatch(text: string)
    ensures Translate(text) == FirstMatch(text, Translations)
  {
    SixRules(text, Translations);
    MentionsOne(text, "not a git repository");
    MentionsOne(text, "already exists");
    MentionsOne(text, "fatal: not a valid object name");
    MentionsOne(text, "working tree clean");
    MentionsTwo(text, "permission denied", "access denied");
    MentionsTwo(text, "command not found", "is not recognized");
  }

  /** Hence the whole translator: the first rule that fires on the classified
      text decides the message, and when none does the original text is
      returned. */
  lemma ParseGitErrorIsFirstMatch(errorMessage: string, stderr: string)
    ensures ParseGitError(errorMessage, stderr)
            == match FirstMatch(ErrorText(errorMessage, stderr), Translations)
               case Some(k) => MessageOf(k)
               case None => Untranslated(errorMessage, stderr)
  {
    TranslateIsFirstMatch(ErrorText(errorMessage, stderr));
  }

  /** The six fixed messages are pairwise distinct, so the message alone
      tells the caller which rule fired. */
  lemma MessagesDistinct(a: Known, b: Known)
    requires MessageOf(a) == MessageOf(b)
    ensures a == b
  {
    MessageLength(a);
    MessageLength(b);
  }

  /** The length of each fixed message. The six lengths differ, which is the
      cheapest way to see that the messages differ. */
  function Length(k: Known): nat {
    match k
    case NotARepository => 66
    case BranchExists => 81
    case InvalidBase => 67
    case Uncommitted => 75
    case PermissionDenied => 55
    case GitMissing => 70
  }

  lemma MessageLength(k: Known)
    ensures |MessageOf(k)| == Length(k)
  {
    match k
    case NotARepository =>
    case BranchExists =>
    case InvalidBase =>
    case Uncommitted =>
    case PermissionDenied =>
    case GitMissing =>
  }
}
