/**
 * The NATS client-protocol SUB command: the value, its wire encoding
 * `SUB\t<subject>[\t<queue group>]\t<sid>\r\n`, the parser for that line,
 * and the builder's validation of the arguments.
 */
module SubCmd {
  import opened Wrappers
  import opened Utf8
  import opened Whitespace

  /** The command's name tag, the bytes of "SUB". */
  const CMD_NAME: seq<byte> := [0x53, 0x55, 0x42]

  /** The frame terminator "\r\n". */
  const CRLF: seq<byte> := [0x0D, 0x0A]

  /** A subscription to `subject`, optionally inside queue group `queueGroup`, under id `sid`. */
  datatype SubCommand = SubCommand(subject: Text, queueGroup: Option<Text>, sid: Text)

  /** The errors the codec returns. */
  datatype CommandError =
    | IncompleteCommandError  // the buffer does not end in "\r\n"
    | CommandMalformed        // wrong tag, or a required token is missing
    | DecodeError             // the line before "\r\n" is not well-formed UTF-8

  /**
   * The argument rule of the builder's `check_cmd_arg!` check, whose body is
   * not part of this model: it is assumed to accept exactly the non-empty
   * strings without ASCII whitespace.
   */
  predicate ValidArg(s: seq<byte>) { IsToken(s) }

  /** Every field of `c` obeys the argument rule. */
  predicate ArgsValid(c: SubCommand) {
    ValidArg(c.subject) && ValidArg(c.sid) && (c.queueGroup.Some? ==> ValidArg(c.queueGroup.value))
  }

  /** The tokens a frame of `c` carries, in wire order. */
  function Fields(c: SubCommand): seq<seq<byte>> {
    [CMD_NAME, c.subject] + (if c.queueGroup.Some? then [c.queueGroup.value] else []) + [c.sid]
  }

  // ---------------------------------------------------------------- encoding

  /**
   * `into_vec`: the format string "SUB\t{}{}\t{}\r\n", where the middle slot
   * is "\t" followed by the queue group when there is one and empty otherwise.
   * Encoding never fails.
   */
  function Encode(c: SubCommand): (r: Result<seq<byte>, CommandError>)
    ensures r.Ok?
    ensures |r.value| >= |CMD_NAME| + 3
    ensures r.value[..|CMD_NAME| + 1] == CMD_NAME + [TAB]
    ensures r.value[|r.value| - 2..] == CRLF
  {
    var qg := match c.queueGroup
      case Some(queueGroup) => [TAB] + queueGroup
      case None => [];
    Ok([0x53, 0x55, 0x42, TAB] + c.subject + qg + [TAB] + c.sid + CRLF)
  }

  lemma FrameWithoutGroup(subject: seq<byte>, sid: seq<byte>)
    ensures [0x53, 0x55, 0x42, TAB] + subject + [] + [TAB] + sid + CRLF
      == Join([CMD_NAME, subject, sid], TAB) + CRLF
  {
    JoinThree(CMD_NAME, subject, sid, TAB);
    assert [0x53, 0x55, 0x42, TAB] == CMD_NAME + [TAB];
  }

  lemma FrameWithGroup(subject: seq<byte>, group: seq<byte>, sid: seq<byte>)
    ensures [0x53, 0x55, 0x42, TAB] + subject + ([TAB] + group) + [TAB] + sid + CRLF
      == Join([CMD_NAME, subject, group, sid], TAB) + CRLF
  {
    JoinFour(CMD_NAME, subject, group, sid, TAB);
    assert [0x53, 0x55, 0x42, TAB] == CMD_NAME + [TAB];
  }

  /**
   * The frame is the command's fields joined by single tabs, then "\r\n":
   * the queue group and its tab appear exactly when the group is present.
   */
  lemma EncodeFrame(c: SubCommand)
    ensures Encode(c).value == Join(Fields(c), TAB) + CRLF
  {
    match c.queueGroup
    case None =>
      FrameWithoutGroup(c.subject, c.sid);
    case Some(g) =>
      assert Fields(c) == [CMD_NAME, c.subject, g, c.sid];
      FrameWithGroup(c.subject, g, c.sid);
  }

  /** The frame without its "\r\n" is well-formed UTF-8. */
  lemma EncodedLineValid(c: SubCommand)
    ensures Valid(Join(Fields(c), TAB))
  {
    AsciiValid(CMD_NAME);
    JoinKeepsUtf8(Fields(c), TAB);
  }

  /**
   * When every field obeys the argument rule, the frame never holds two tabs
   * side by side: an absent queue group leaves no empty field behind.
   */
  lemma EncodeNoAdjacentSeparators(c: SubCommand)
    requires ArgsValid(c)
    ensures var f := Encode(c).value;
      forall i :: 0 <= i < |f| - 1 ==> !(f[i] == TAB && f[i + 1] == TAB)
  {
    EncodeFrame(c);
    var fields := Fields(c);
    assert forall k :: 0 <= k < |fields| ==> IsToken(fields[k]);
    JoinNoAdjacentSeparators(fields, TAB);
    var j := Join(fields, TAB);
    var f := Encode(c).value;
    assert f == j + CRLF;
    forall i | 0 <= i < |f| - 1
      ensures !(f[i] == TAB && f[i + 1] == TAB)
    {
      if i < |j| - 1 {
        assert f[i] == j[i] && f[i + 1] == j[i + 1];
      } else if i == |j| - 1 {
        assert f[i] == j[|j| - 1];
      } else {
        assert f[i] == CRLF[i - |j|];
      }
    }
  }

  // ----------------------------------------------------------------- parsing

  /** `next` on a split iterator: the front token and what remains. */
  function Next<T>(split: seq<T>): (r: Option<(T, seq<T>)>)
    ensures r.Some? <==> |split| > 0
    ensures r.Some? ==> r.value.0 == split[0] && r.value.1 == split[1..]
  {
    if |split| == 0 then None else Some((split[0], split[1..]))
  }

  /** `next_back` on a split iterator: the back token and what remains. */
  function NextBack<T>(split: seq<T>): (r: Option<(T, seq<T>)>)
    ensures r.Some? <==> |split| > 0
    ensures r.Some? ==> r.value.0 == split[|split| - 1] && r.value.1 == split[..|split| - 1]
  {
    if |split| == 0 then None else Some((split[|split| - 1], split[..|split| - 1]))
  }

  /**
   * `try_parse`. A buffer shorter than two bytes makes the source panic, so
   * it is excluded. Writing `t` for the whitespace-split line before "\r\n":
   * no "\r\n" is an incomplete command, ill-formed UTF-8 a decoding error,
   * fewer than three tokens or a first token other than "SUB" a malformed
   * command; otherwise the subject is t[1], the sid is the last token, and
   * the queue group is t[2] when there are four tokens or more (any further
   * middle tokens are ignored).
   */
  function Parse(buf: seq<byte>): (r: Result<SubCommand, CommandError>)
    requires |buf| >= 2
    ensures buf[|buf| - 2..] != CRLF ==> r == Err(IncompleteCommandError)
    ensures buf[|buf| - 2..] == CRLF && !Valid(buf[..|buf| - 2]) ==> r == Err(DecodeError)
    ensures buf[|buf| - 2..] == CRLF && Valid(buf[..|buf| - 2]) ==>
      var t := SplitWhitespace(buf[..|buf| - 2]);
      if |t| < 3 || t[0] != CMD_NAME then r == Err(CommandMalformed)
      else
        && r.Ok?
        && r.value.subject == t[1]
        && r.value.sid == t[|t| - 1]
        && (|t| == 3 ==> r.value.queueGroup.None?)
        && (|t| >= 4 ==> r.value.queueGroup.Some? && r.value.queueGroup.value == t[2])
  {
    if buf[|buf| - 2..] != CRLF then Err(IncompleteCommandError)
    else
      var wholeCommand := buf[..|buf| - 2];
      if !Valid(wholeCommand) then Err(DecodeError)
      else
        SplitWhitespaceKeepsUtf8(wholeCommand);
        var split: seq<Text> := SplitWhitespace(wholeCommand);
        var cmd :- Next(split).ToResult(CommandMalformed);
        if cmd.0 != CMD_NAME then Err(CommandMalformed)
        else
          var subject :- Next(cmd.1).ToResult(CommandMalformed);
          var sid :- NextBack(subject.1).ToResult(CommandMalformed);
          var queueGroup := match Next(sid.1)
            case Some(g) => Some(g.0)
            case None => None;
          Ok(SubCommand(subject.0, queueGroup, sid.0))
  }

  /**
   * Round trip: a command whose fields obey the argument rule parses back
   * from its own encoding.
   */
  lemma RoundTrip(c: SubCommand)
    requires ArgsValid(c)
    ensures Parse(Encode(c).value) == Ok(c)
  {
    var f := Encode(c).value;
    var tokens := Fields(c);
    EncodeFrame(c);
    assert f[..|f| - 2] == Join(tokens, TAB);
    EncodedLineValid(c);
    assert forall k :: 0 <= k < |tokens| ==> IsToken(tokens[k]);
    SplitJoin(tokens, TAB);
    var r := Parse(f);
    assert r.Ok?;
    assert r.value.subject == c.subject && r.value.sid == c.sid;
    assert r.value.queueGroup == c.queueGroup;
  }

  /**
   * The parser takes any amount and kind of whitespace between the fields,
   * and in front of and after them: a command whose fields obey the argument
   * rule parses back from every such layout of its fields.
   */
  lemma ParseAnySpacing(c: SubCommand, gaps: seq<seq<byte>>)
    requires ArgsValid(c)
    requires GapsSeparate(Fields(c), gaps)
    ensures Parse(Spaced(Fields(c), gaps) + CRLF) == Ok(c)
  {
    var tokens := Fields(c);
    var line := Spaced(tokens, gaps);
    var buf := line + CRLF;
    assert buf[..|buf| - 2] == line;
    assert buf[|buf| - 2..] == CRLF;
    AsciiValid(CMD_NAME);
    SpacedKeepsUtf8(tokens, gaps);
    assert forall k :: 0 <= k < |tokens| ==> IsToken(tokens[k]);
    SplitSpaced(tokens, gaps);
    var r := Parse(buf);
    assert r.value.queueGroup == c.queueGroup;
  }

  // -------------------------------------------------------------- validation

  /**
   * The builder generated for `SubCommand`: each field is `None` until its
   * setter is called. A set queue group is itself optional.
   */
  datatype SubCommandBuilder = SubCommandBuilder(
    subject: Option<Text>, queueGroup: Option<Option<Text>>, sid: Option<Text>)

  /** The builder's error: `check_cmd_arg!` names the offending field. */
  datatype ValidationError = InvalidArg(field: string)

  /**
   * `SubCommandBuilder::validate`: the subject, when set, and the queue group,
   * when set to a group, must obey the argument rule; the subject is checked
   * first. The sid is never looked at.
   */
  function Validate(b: SubCommandBuilder): (r: Result<(), ValidationError>)
    ensures r.Ok? <==>
      && (b.subject.Some? ==> ValidArg(b.subject.value))
      && (b.queueGroup.Some? && b.queueGroup.value.Some? ==> ValidArg(b.queueGroup.value.value))
    ensures r == Err(InvalidArg("subject")) <==> b.subject.Some? && !ValidArg(b.subject.value)
    ensures r == Err(InvalidArg("queue group")) <==>
      && (b.subject.Some? ==> ValidArg(b.subject.value))
      && b.queueGroup.Some? && b.queueGroup.value.Some? && !ValidArg(b.queueGroup.value.value)
  {
    if b.subject.Some? && !ValidArg(b.subject.value) then Err(InvalidArg("subject"))
    else if b.queueGroup.Some? && b.queueGroup.value.Some? && !ValidArg(b.queueGroup.value.value) then
      Err(InvalidArg("queue group"))
    else Ok(())
  }

  /** A builder whose every field was set from `c`. */
  function BuilderOf(c: SubCommand): (b: SubCommandBuilder)
    ensures Validate(b).Ok? <==> ValidArg(c.subject) && (c.queueGroup.Some? ==> ValidArg(c.queueGroup.value))
    ensures ValidateWithSid(b).Ok? <==> ArgsValid(c)
  {
    SubCommandBuilder(Some(c.subject), Some(c.queueGroup), Some(c.sid))
  }

  /** Validation does not depend on the sid at all. */
  lemma ValidateIgnoresSid(b: SubCommandBuilder, sid: Option<Text>)
    ensures Validate(b.(sid := sid)) == Validate(b)
  {
  }

  /**
   * A command built from fields that pass validation round-trips, provided
   * its sid separately obeys the argument rule, since validation never
   * checks it.
   */
  lemma ValidatedRoundTrip(c: SubCommand)
    requires Validate(BuilderOf(c)).Ok?
    requires ValidArg(c.sid)
    ensures Parse(Encode(c).value) == Ok(c)
  {
    RoundTrip(c);
  }

  /**
   * Validation as written lets through a sid holding a tab: with subject
   * "FOO" and sid "a\tb" the builder validates, yet the frame of that command
   * parses back as queue group "a" and sid "b", a different command.
   */
  lemma ValidateAcceptsSplittingSid(subject: Text, a: Text, b: Text, sid: Text)
    requires ValidArg(subject) && ValidArg(a) && ValidArg(b)
    requires sid == a + [TAB] + b
    ensures Validate(BuilderOf(SubCommand(subject, None, sid))).Ok?
    ensures Parse(Encode(SubCommand(subject, None, sid)).value) == Ok(SubCommand(subject, Some(a), b))
    ensures SubCommand(subject, Some(a), b) != SubCommand(subject, None, sid)
  {
    var c := SubCommand(subject, None, sid);
    var tokens: seq<seq<byte>> := [CMD_NAME, subject, a, b];
    EncodeFrame(c);
    var f := Encode(c).value;
    assert Join(Fields(c), TAB) == Join(tokens, TAB) by {
      assert Join([b], TAB) == b;
      assert Join([a, b], TAB) == a + [TAB] + b;
      assert tokens[1..] == [subject, a, b];
      assert [subject, a, b][1..] == [a, b];
      assert Join([sid], TAB) == sid;
    }
    assert f[..|f| - 2] == Join(tokens, TAB);
    EncodedLineValid(c);
    assert forall k :: 0 <= k < |tokens| ==> IsToken(tokens[k]);
    SplitJoin(tokens, TAB);
  }

  /** The concrete instance: subject "FOO", sid "a\tb". */
  lemma ValidateAcceptsSplittingSidExample()
    ensures var foo: seq<byte> := [0x46, 0x4F, 0x4F];
      var sid: seq<byte> := [0x61, TAB, 0x62];
      Valid(foo) && Valid(sid) &&
      Validate(SubCommandBuilder(Some(foo), None, Some(sid))).Ok? &&
      Parse(Encode(SubCommand(foo, None, sid)).value) == Ok(SubCommand(foo, Some([0x61]), [0x62]))
  {
    var foo: seq<byte> := [0x46, 0x4F, 0x4F];
    var sid: seq<byte> := [0x61, TAB, 0x62];
    AsciiValid(foo);
    AsciiValid(sid);
    AsciiValid([0x61]);
    AsciiValid([0x62]);
    ValidateAcceptsSplittingSid(foo, [0x61], [0x62], sid);
  }

  /**
   * Validation as the argument rule intends it: the sid, when set, must obey
   * the rule too, and is checked after the two fields the source checks.
   */
  function ValidateWithSid(b: SubCommandBuilder): (r: Result<(), ValidationError>)
    ensures r.Ok? <==> Validate(b).Ok? && (b.sid.Some? ==> ValidArg(b.sid.value))
    ensures Validate(b).Err? ==> r == Validate(b)
  {
    var _ :- Validate(b);
    if b.sid.Some? && !ValidArg(b.sid.value) then Err(InvalidArg("sid")) else Ok(())
  }

  /** Every command whose builder passes the corrected validation round-trips. */
  lemma ValidateWithSidRoundTrip(c: SubCommand)
    requires ValidateWithSid(BuilderOf(c)).Ok?
    ensures Parse(Encode(c).value) == Ok(c)
  {
    RoundTrip(c);
  }

  // ---------------------------------------------------------- generated sids

  /** The shape of a `generate_sid` result: 12 ASCII letters and digits. */
  predicate IsGeneratedSid(s: seq<byte>) {
    |s| == 12 &&
    forall i :: 0 <= i < |s| ==> (0x30 <= s[i] <= 0x39 || 0x41 <= s[i] <= 0x5A || 0x61 <= s[i] <= 0x7A)
  }

  /** A generated sid is well-formed text that obeys the argument rule. */
  lemma GeneratedSidIsValidArg(s: seq<byte>)
    requires IsGeneratedSid(s)
    ensures Valid(s) && ValidArg(s)
  {
    AsciiValid(s);
  }
}
