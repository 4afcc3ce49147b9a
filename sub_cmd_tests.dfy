/**
 * The source's unit tests `it_parses` and `it_stringifies`, and further
 * example frames, as lemmas. Byte strings are given as ASCII codes.
 */
module SubCmdTests {
  import opened Wrappers
  import opened Utf8
  import opened Whitespace
  import opened SubCmd

  const FOO: seq<byte> := [0x46, 0x4F, 0x4F]          // "FOO"
  const POUET: seq<byte> := [0x70, 0x6F, 0x75, 0x65, 0x74]  // "pouet"
  const GRP1: seq<byte> := [0x47, 0x52, 0x50, 0x31]    // "GRP1"
  const PUB: seq<byte> := [0x50, 0x55, 0x42]          // "PUB"

  /** "SUB\tFOO\tpouet\r\n" */
  const DEFAULT_SUB: seq<byte> :=
    [0x53, 0x55, 0x42, 0x09, 0x46, 0x4F, 0x4F, 0x09, 0x70, 0x6F, 0x75, 0x65, 0x74, 0x0D, 0x0A]

  lemma AsciiConstants()
    ensures Valid(FOO) && Valid(POUET) && Valid(GRP1) && Valid(PUB)
    ensures ValidArg(FOO) && ValidArg(POUET) && ValidArg(GRP1) && ValidArg(PUB)
  {
    AsciiValid(FOO);
    AsciiValid(POUET);
    AsciiValid(GRP1);
    AsciiValid(PUB);
  }

  /** `it_parses`: the default frame parses to subject "FOO" and sid "pouet". */
  lemma ItParses()
    ensures Parse(DEFAULT_SUB).Ok?
    ensures Parse(DEFAULT_SUB).value.subject == FOO
    ensures Parse(DEFAULT_SUB).value.sid == POUET
    ensures Parse(DEFAULT_SUB).value.queueGroup.None?
  {
    AsciiConstants();
    var c := SubCommand(FOO, None, POUET);
    assert Encode(c).value == DEFAULT_SUB;
    RoundTrip(c);
  }

  /**
   * `it_stringifies`: the builder holding subject "FOO" and sid "pouet"
   * validates, and the command encodes to exactly the default frame.
   */
  lemma ItStringifies()
    ensures Valid(FOO) && Valid(POUET)
    ensures Validate(SubCommandBuilder(Some(FOO), None, Some(POUET))) == Ok(())
    ensures Encode(SubCommand(FOO, None, POUET)) == Ok(DEFAULT_SUB)
  {
    AsciiConstants();
    assert Encode(SubCommand(FOO, None, POUET)).value == DEFAULT_SUB;
  }

  /** "SUB\tFOO\tGRP1\tpouet\r\n" parses with queue group "GRP1". */
  lemma ParsesQueueGroup()
    ensures Valid(FOO) && Valid(GRP1) && Valid(POUET)
    ensures Parse(CMD_NAME + [TAB] + FOO + [TAB] + GRP1 + [TAB] + POUET + CRLF)
      == Ok(SubCommand(FOO, Some(GRP1), POUET))
  {
    AsciiConstants();
    var c := SubCommand(FOO, Some(GRP1), POUET);
    assert Encode(c).value == CMD_NAME + [TAB] + FOO + [TAB] + GRP1 + [TAB] + POUET + CRLF;
    RoundTrip(c);
  }

  /**
   * With more than four tokens the middle ones after the queue group are
   * dropped: "SUB\tFOO\tGRP1\tPUB\tpouet\r\n" keeps "GRP1" and "pouet".
   */
  lemma ParsesDroppingExtraTokens()
    ensures Valid(FOO) && Valid(GRP1) && Valid(POUET)
    ensures Parse(Join([CMD_NAME, FOO, GRP1, PUB, POUET], TAB) + CRLF)
      == Ok(SubCommand(FOO, Some(GRP1), POUET))
  {
    AsciiConstants();
    AsciiValid(CMD_NAME);
    var tokens := [CMD_NAME, FOO, GRP1, PUB, POUET];
    var buf := Join(tokens, TAB) + CRLF;
    assert buf[..|buf| - 2] == Join(tokens, TAB);
    assert buf[|buf| - 2..] == CRLF;
    JoinKeepsUtf8(tokens, TAB);
    SplitJoin(tokens, TAB);
  }

  /** The gaps of the irregular frame: " ", " \t ", "\x0B\x0C" and " ". */
  const IRREGULAR_GAPS: seq<seq<byte>> := [[0x20], [0x20, TAB, 0x20], [0x0B, 0x0C], [0x20]]

  lemma IrregularLine()
    ensures Spaced([CMD_NAME, FOO, POUET], IRREGULAR_GAPS)
      == [0x20] + CMD_NAME + [0x20, TAB, 0x20] + FOO + [0x0B, 0x0C] + POUET + [0x20]
    ensures GapsSeparate([CMD_NAME, FOO, POUET], IRREGULAR_GAPS)
  {
    var tokens := [CMD_NAME, FOO, POUET];
    var gaps := IRREGULAR_GAPS;
    assert tokens[1..] == [FOO, POUET] && tokens[2..] == [POUET] && |tokens[3..]| == 0;
    assert gaps[3..] == [[0x20]];
    assert Spaced(tokens[3..], gaps[3..]) == [0x20];
    assert Spaced([POUET], gaps[2..]) == [0x0B, 0x0C] + (POUET + [0x20]);
    assert Spaced([FOO, POUET], gaps[1..]) == [0x20, TAB, 0x20] + (FOO + ([0x0B, 0x0C] + (POUET + [0x20])));
  }

  /**
   * Whitespace runs of any length and kind separate the tokens, and runs at
   * either end are ignored: " SUB \t FOO\x0B\x0Cpouet \r\n" parses like the
   * default frame.
   */
  lemma ParsesIrregularWhitespace()
    ensures Valid(FOO) && Valid(POUET)
    ensures Parse([0x20] + CMD_NAME + [0x20, TAB, 0x20] + FOO + [0x0B, 0x0C] + POUET + [0x20] + CRLF)
      == Ok(SubCommand(FOO, None, POUET))
  {
    AsciiConstants();
    IrregularLine();
    var c := SubCommand(FOO, None, POUET);
    assert Fields(c) == [CMD_NAME, FOO, POUET];
    ParseAnySpacing(c, IRREGULAR_GAPS);
  }

  /** "SUB\tFOO\tpouet", without its terminator, is an incomplete command. */
  lemma RejectsMissingTerminator()
    ensures Parse(DEFAULT_SUB[..|DEFAULT_SUB| - 2]) == Err(IncompleteCommandError)
  {
    var buf := DEFAULT_SUB[..|DEFAULT_SUB| - 2];
    assert buf[|buf| - 2..][0] == 0x65;
  }

  /** "PUB\tFOO\tpouet\r\n" is not a SUB frame. */
  lemma RejectsOtherCommand()
    ensures Parse(Join([PUB, FOO, POUET], TAB) + CRLF) == Err(CommandMalformed)
  {
    AsciiConstants();
    var tokens := [PUB, FOO, POUET];
    var buf := Join(tokens, TAB) + CRLF;
    assert buf[..|buf| - 2] == Join(tokens, TAB);
    assert buf[|buf| - 2..] == CRLF;
    JoinKeepsUtf8(tokens, TAB);
    SplitJoin(tokens, TAB);
  }
}
