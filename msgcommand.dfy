/**
 * The `/msg <user> <message>` command: the text after the five-character
 * command prefix is split at its first space into a target and a message, and
 * one private message is sent.
 */
module MsgCommand {
  import opened Wrappers
  import opened JavaStrings
  import Connection

  /** Index in the command line where the target nick starts. */
  const END_OF_MSG_COMMAND_PREFIX: nat := 5

  /** The four ways a command line is rejected (each an `IllegalArgumentException`). */
  datatype MsgError =
    | MissingTargetAndMessage   // line shorter than the prefix
    | MissingSeparator          // no space after the prefix
    | EmptyTarget               // the space comes first
    | EmptyMessage              // nothing after the first space

  /** Why the command could not be created. */
  datatype CommandError = NullConnection

  /** The private message a command line asks for. */
  datatype PrivateMessage = PrivateMessage(target: string, text: string)

  /**
   * The parsing part of `execute`. A line is accepted exactly when the text
   * after the prefix holds a space that is neither its first nor its last
   * character; the target is everything before the first space, the message
   * everything after it.
   */
  function ParseMsgLine(line: string): (r: Outcome<PrivateMessage, MsgError>)
    ensures r == Err(MissingTargetAndMessage) <==> |line| < END_OF_MSG_COMMAND_PREFIX
    ensures r == Err(MissingSeparator) <==> |line| >= END_OF_MSG_COMMAND_PREFIX && ' ' !in line[END_OF_MSG_COMMAND_PREFIX..]
    ensures r == Err(EmptyTarget) <==> |line| > END_OF_MSG_COMMAND_PREFIX && line[END_OF_MSG_COMMAND_PREFIX] == ' '
    ensures r.Ok? ==>
              && r.value.target != [] && ' ' !in r.value.target && r.value.text != []
              && r.value.target + " " + r.value.text == line[END_OF_MSG_COMMAND_PREFIX..]
  {
    if |line| < END_OF_MSG_COMMAND_PREFIX then Err(MissingTargetAndMessage)
    else
      var part := line[END_OF_MSG_COMMAND_PREFIX..];
      var endOfNick := IndexOfChar(part, ' ');
      if endOfNick == -1 then Err(MissingSeparator)
      else
        var target := part[..endOfNick];
        if |target| == 0 then Err(EmptyTarget)
        else
          var text := part[endOfNick + 1..];
          assert part == target + " " + text;
          if |text| == 0 then Err(EmptyMessage)
          else Ok(PrivateMessage(target, text))
  }

  /**
   * Writing a target without spaces and a non-empty message after any
   * five-character prefix gives a line that parses back to exactly them.
   */
  lemma {:induction false} ParseFormatted(prefix: string, target: string, text: string)
    requires |prefix| == END_OF_MSG_COMMAND_PREFIX
    requires target != [] && ' ' !in target && text != []
    ensures ParseMsgLine(prefix + target + " " + text) == Ok(PrivateMessage(target, text))
  {
    var line := prefix + target + " " + text;
    var part := line[END_OF_MSG_COMMAND_PREFIX..];
    assert part == target + " " + text;
    assert part[|target|] == ' ';
    assert part[..|target|] == target;
    var k := IndexOfChar(part, ' ');
    assert k == |target|;
    assert part[k + 1..] == text;
  }

  /**
   * A target drawn from characters without a special meaning in IRC (so in
   * particular without the parameter-separating space) is taken whole as the
   * target of a `/msg` line.
   */
  lemma {:induction false} SpecialFreeTargetParses(prefix: string, target: string, text: string)
    requires |prefix| == END_OF_MSG_COMMAND_PREFIX
    requires target != [] && text != []
    requires forall i :: 0 <= i < |target| ==> target[i] !in Connection.SPECIAL_CHARACTERS
    ensures ParseMsgLine(prefix + target + " " + text) == Ok(PrivateMessage(target, text))
  {
    assert ' ' in Connection.SPECIAL_CHARACTERS;
    assert ' ' !in target;
    ParseFormatted(prefix, target, text);
  }

  /** The usage line: "Usage: " followed by the command's shape. */
  const USAGE_LEAD: string := "Usage: "
  const USAGE_SHAPE: string := "/msg " + "<user>" + " " + "<message>"

  /** The usage line written out, and its command part. */
  lemma {:induction false} UsageText()
    ensures USAGE_LEAD + USAGE_SHAPE == "Usage: /msg <user> <message>"
    ensures (USAGE_LEAD + USAGE_SHAPE)[|USAGE_LEAD|..] == USAGE_SHAPE
  {
  }

  /** The `/msg` command, bound to one connection. */
  class Msg {
    const connection: Connection.IrcConnection

    constructor (connection: Connection.IrcConnection)
      ensures this.connection == connection
    {
      this.connection := connection;
    }

    /** The constructor's argument check: a null connection is rejected. */
    static method Create(connection: Connection.IrcConnection?) returns (r: Outcome<Msg, CommandError>)
      ensures connection == null <==> r == Err(NullConnection)
      ensures connection != null ==> r.Ok? && fresh(r.value) && r.value.connection == connection
    {
      if connection == null {
        return Err(NullConnection);
      }
      var m := new Msg(connection);
      return Ok(m);
    }

    /**
     * `execute(source, line)`: a rejected line raises its error and sends
     * nothing; an accepted one sends exactly one message to the client.
     */
    method Execute(source: string, line: string) returns (r: Outcome<(), MsgError>)
      modifies connection.irc
      ensures ParseMsgLine(line).Err? ==>
                r == Err(ParseMsgLine(line).error) && unchanged(connection.irc)
      ensures ParseMsgLine(line).Ok? ==>
                && r == Ok(())
                && connection.irc.sent == old(connection.irc.sent)
                   + [(ParseMsgLine(line).value.target, ParseMsgLine(line).value.text)]
                && connection.irc.listeners == old(connection.irc.listeners)
                && connection.irc.connectRequests == old(connection.irc.connectRequests)
                && connection.irc.disconnectRequests == old(connection.irc.disconnectRequests)
    {
      var parsed := ParseMsgLine(line);
      if parsed.Err? {
        return Err(parsed.error);
      }
      connection.GetClient().Message(parsed.value.target, parsed.value.text);
      r := Ok(());
    }

    /** `help()`: the usage line, itself a well-formed command line once "Usage: " is cut off. */
    function Help(): (h: string)
      ensures h == "Usage: /msg <user> <message>"
      ensures StartsWith(h, USAGE_LEAD)
      ensures ParseMsgLine(h[|USAGE_LEAD|..]) == Ok(PrivateMessage("<user>", "<message>"))
    {
      ParseFormatted("/msg ", "<user>", "<message>");
      UsageText();
      USAGE_LEAD + USAGE_SHAPE
    }
  }
}
