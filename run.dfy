/** The `run` command: send an operator's command to the console and show the
    answer in a Discord message, which may hold at most 2000 characters. */
module RunCommand {

  import opened Wrappers
  import opened Text
  import opened Console

  /** Discord's limit on the length of a message, in characters. */
  const MESSAGE_LIMIT: nat := 2000

  const SUCCESS_HEAD: string := "Success:\n```\n"
  const SUCCESS_TAIL: string := "\n```"

  /** The room left for the answer once the frame around it is counted: 2000 - 17. */
  const MAXLEN: nat := MESSAGE_LIMIT - |SUCCESS_HEAD + SUCCESS_TAIL|

  const CUTOFF_SUFFIX: string := "..."

  lemma MaxLenValue()
    ensures MAXLEN == 1983
  {
  }

  /** Keep an answer that fits; otherwise keep its first `MAXLEN - 3` characters and
      mark the cut with "...". */
  function Truncate(response: string): (r: string)
    ensures |r| <= MAXLEN
    ensures |response| <= MAXLEN ==> r == response
    ensures |response| > MAXLEN ==>
      |r| == MAXLEN && StartsWith(response, r[..MAXLEN - |CUTOFF_SUFFIX|]) && EndsWith(r, CUTOFF_SUFFIX)
  {
    if |response| > MAXLEN then
      var r := response[..MAXLEN - |CUTOFF_SUFFIX|] + CUTOFF_SUFFIX;
      assert r[..MAXLEN - |CUTOFF_SUFFIX|] == response[..MAXLEN - |CUTOFF_SUFFIX|];
      assert r[|r| - |CUTOFF_SUFFIX|..] == CUTOFF_SUFFIX;
      r
    else response
  }

  /** Truncating twice is truncating once. */
  lemma TruncateIdempotent(response: string)
    ensures Truncate(Truncate(response)) == Truncate(response)
  {
  }

  function SuccessReply(response: string): string {
    SUCCESS_HEAD + response + SUCCESS_TAIL
  }

  /** The reply for each console error. */
  function ErrorReply(e: ExecError): string {
    match e
    case Auth => "Invalid authentication (check bot config)."
    case CommandTooLong => "Command too long."
    case Io => "The server is closed."
  }

  /** The reply to `run`, given the console's answer. */
  function RunReply(result: Result<string, ExecError>): string {
    match result
    case Ok(response) => SuccessReply(Truncate(response))
    case Err(e) => ErrorReply(e)
  }

  /** Every reply fits in one Discord message, and a success shows the whole answer
      whenever the answer fits. */
  lemma ReplyFits(result: Result<string, ExecError>)
    ensures |RunReply(result)| <= MESSAGE_LIMIT
    ensures result.Ok? && |result.value| <= MAXLEN ==> RunReply(result) == SuccessReply(result.value)
  {
  }

  lemma ErrorReplyInitial(e: ExecError)
    ensures |ErrorReply(e)| > 0 && ErrorReply(e)[0] != 'S'
  {
    match e {
      case Auth =>
        var msg := "Invalid authentication (check bot config).";
        assert ErrorReply(e) == msg;
        assert msg[0] == 'I';
      case CommandTooLong =>
      case Io =>
    }
  }

  /** Each error kind has its own reply, and none looks like a success. */
  lemma ErrorRepliesDistinct(e1: ExecError, e2: ExecError, response: string)
    ensures ErrorReply(e1) == ErrorReply(e2) ==> e1 == e2
    ensures ErrorReply(e1) != SuccessReply(response)
  {
    assert SuccessReply(response)[0] == 'S';
    ErrorReplyInitial(e1);
    assert |ErrorReply(Auth)| == 42 && |ErrorReply(CommandTooLong)| == 17 && |ErrorReply(Io)| == 21;
  }

  /** `run`: send the command once and reply with the answer. */
  method Run(console: Interface, cmd: string) returns (reply: string)
    modifies console
    ensures console.sent == old(console.sent) + [cmd]
    ensures reply == RunReply(console.respond(old(console.sent), cmd))
  {
    var result := console.Exec(cmd);
    match result {
      case Ok(response) =>
        var shown := if |response| > MAXLEN then response[..MAXLEN - |CUTOFF_SUFFIX|] + CUTOFF_SUFFIX else response;
        reply := SUCCESS_HEAD + shown + SUCCESS_TAIL;
      case Err(Auth) =>
        reply := "Invalid authentication (check bot config).";
      case Err(CommandTooLong) =>
        reply := "Command too long.";
      case Err(Io) =>
        reply := "The server is closed.";
    }
  }
}
