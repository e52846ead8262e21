/**
 The wire vocabulary of the single-room server: what it sends to clients (as
 typed messages rather than HTML or JSON text) and the commands it accepts.
 */
module Protocol {
  import opened Strings

  datatype Option<T> = None | Some(value: T)

  /** The role-specific panel a client receives once, when it connects. */
  datatype Panel = InstructorPanel | ParticipantPanel(navigationLocked: bool)

  /** Server-to-client messages; the command word of each is noted beside it. */
  datatype Msg =
    | NickList(listing: seq<string>)                                      // nicklist
    | PanelContent(panel: Panel)                                          // panel_content
    | LoadPresentation(source: string, followInstructor: bool, lockStudentNav: bool)  // load_presentation
    | FinishPresentation                                                  // finish_presentation
    | InstructorState(state: string)                                      // instructor_state
    | LockStudentNav(locked: bool)                                        // lock_student_nav

  /** The presentation every `load_presentation` points at. */
  const PresentationSource: string := "/static/presentations/pres1/index.html"

  /** The inbound commands, one per `handle_<name>` method of a connection. */
  datatype Command =
    | CmdStartPresentation
    | CmdSlideChanged
    | CmdLockFollowInstructor
    | CmdLockStudentNav
    | CmdSyncToInstructor
    | CmdFinishPresentation

  /** The command word a client puts before the first `|`. */
  function CommandName(c: Command): string {
    match c
    case CmdStartPresentation => "start_presentation"
    case CmdSlideChanged => "slide_changed"
    case CmdLockFollowInstructor => "lock_follow_instructor"
    case CmdLockStudentNav => "lock_student_nav"
    case CmdSyncToInstructor => "sync_to_instructor"
    case CmdFinishPresentation => "finish_presentation"
  }

  /** Commands that a connection obeys only when it is the instructor's. */
  predicate InstructorOnly(c: Command) {
    c != CmdSyncToInstructor
  }

  /** The command whose word is `word`, if any. */
  function CommandNamed(word: string): (r: Option<Command>)
    ensures r.Some? ==> word == CommandName(r.value)
  {
    if word == "start_presentation" then Some(CmdStartPresentation)
    else if word == "slide_changed" then Some(CmdSlideChanged)
    else if word == "lock_follow_instructor" then Some(CmdLockFollowInstructor)
    else if word == "lock_student_nav" then Some(CmdLockStudentNav)
    else if word == "sync_to_instructor" then Some(CmdSyncToInstructor)
    else if word == "finish_presentation" then Some(CmdFinishPresentation)
    else None
  }

  const HandlerPrefix: string := "handle_"

  /**
   `getattr(connection, attr)` restricted to the handler methods: the command
   whose handler is named `attr`, if any.
   */
  function HandlerOf(attr: string): (r: Option<Command>)
    ensures r.Some? ==> attr == HandlerPrefix + CommandName(r.value)
  {
    if |attr| >= |HandlerPrefix| && attr[..|HandlerPrefix|] == HandlerPrefix then
      var r := CommandNamed(attr[|HandlerPrefix|..]);
      assert attr == attr[..|HandlerPrefix|] + attr[|HandlerPrefix|..];
      r
    else None
  }

  /** Every command word reaches its own handler, and no other word does. */
  lemma HandlerOfName(word: string, c: Command)
    ensures HandlerOf(HandlerPrefix + word) == Some(c) <==> word == CommandName(c)
  {
    var attr := HandlerPrefix + word;
    assert attr[..|HandlerPrefix|] == HandlerPrefix && attr[|HandlerPrefix|..] == word;
    match c {
      case CmdStartPresentation =>
      case CmdSlideChanged =>
      case CmdLockFollowInstructor =>
      case CmdLockStudentNav =>
      case CmdSyncToInstructor =>
      case CmdFinishPresentation =>
    }
  }

  /** The command a line names: the handler of `handle_` followed by the text before the first `|`. */
  function CommandOf(line: string): (r: Option<Command>)
    ensures r.Some? ==> Split(line, '|')[0] == CommandName(r.value)
  {
    var attr := HandlerPrefix + Split(line, '|')[0];
    assert attr[|HandlerPrefix|..] == Split(line, '|')[0];
    HandlerOf(attr)
  }

  /** No command word contains the field delimiter. */
  lemma CommandNameUndelimited(c: Command)
    ensures '|' !in CommandName(c)
  {
    match c {
      case CmdStartPresentation => assert '|' !in "start_presentation";
      case CmdSlideChanged => assert '|' !in "slide_changed";
      case CmdLockFollowInstructor => assert '|' !in "lock_follow_instructor";
      case CmdLockStudentNav => assert '|' !in "lock_student_nav";
      case CmdSyncToInstructor => assert '|' !in "sync_to_instructor";
      case CmdFinishPresentation => assert '|' !in "finish_presentation";
    }
  }

  /** A line built from a command word and payload fields names that command. */
  lemma CommandOfJoinedLine(c: Command, payload: seq<string>)
    requires forall i :: 0 <= i < |payload| ==> '|' !in payload[i]
    ensures CommandOf(Join([CommandName(c)] + payload, '|')) == Some(c)
  {
    var parts := [CommandName(c)] + payload;
    CommandNameUndelimited(c);
    forall i | 0 <= i < |parts| ensures '|' !in parts[i] {
      if i > 0 { assert parts[i] == payload[i - 1]; }
    }
    SplitJoin(parts, '|');
    assert Split(Join(parts, '|'), '|')[0] == CommandName(c);
    HandlerOfName(CommandName(c), c);
  }

  /**
   `json.loads(text)` where the payload is a JSON boolean; any other text is a
   decoding failure here.
   */
  function JsonBool(text: string): (r: Option<bool>)
    ensures r == Some(true) <==> text == "true"
    ensures r == Some(false) <==> text == "false"
  {
    if text == "true" then Some(true)
    else if text == "false" then Some(false)
    else None
  }

  /** `json.dumps(flag)`: the JSON literal of a boolean. */
  function JsonBoolText(b: bool): string {
    if b then "true" else "false"
  }

  /** Decoding the text a boolean is encoded as gives that boolean back. */
  lemma JsonBoolRoundTrip(b: bool)
    ensures JsonBool(JsonBoolText(b)) == Some(b)
  {
  }

  /** How a handler invocation ends: normally, or with the Python exception it raises. */
  datatype Outcome = Handled | Raised(error: Failure)

  datatype Failure =
    | NoSuchAttribute(name: string)   // AttributeError from getattr
    | NoSuchClient                    // KeyError from self.clients[nick]
    | IndexOutOfRange                 // IndexError from msg_parts[1]
    | MalformedJson(text: string)     // ValueError from json.loads
}
