/** Replies on the control connection (section 4.2 of RFC 959): the printers of ftpd/ftpd.c against
    getreply of ftp/ftp.c, with Telnet option commands in between. */
module FtpReply {
  import opened Common

  type Byte = b: int | 0 <= b < 256
  type Bytes = seq<Byte>

  const LF: Byte := 10
  const CR: Byte := 13
  const SPACE: Byte := 32
  const DASH: Byte := 45
  const ZERO: Byte := 48
  const WILL: Byte := 251
  const WONT: Byte := 252
  const DO: Byte := 253
  const DONT: Byte := 254
  const IAC: Byte := 255
  const EOF: int := -1
  const BUFSIZ := 8192

  predicate IsOption(c: int) {
    c == WILL || c == WONT || c == DO || c == DONT
  }

  // ---------------------------------------------------------------- Telnet commands

  /** What is left of a stream without its Telnet commands. */
  function Strip(y: Bytes): Bytes
    decreases |y|
  {
    if y == [] then []
    else if y[0] != IAC then [y[0]] + Strip(y[1..])
    else if |y| == 1 then []
    else if IsOption(y[1]) then (if |y| == 2 then [] else Strip(y[3..]))
    else Strip(y[2..])
  }

  function Refusal(command: int, option: Byte): Bytes {
    [IAC, if command == WILL || command == WONT then DONT else WONT, option]
  }

  /** The client's answers: every option is refused. */
  function Answers(y: Bytes): Bytes
    decreases |y|
  {
    if y == [] then []
    else if y[0] != IAC then Answers(y[1..])
    else if |y| == 1 then []
    else if IsOption(y[1]) then (if |y| == 2 then Refusal(y[1], 255) else Refusal(y[1], y[2]) + Answers(y[3..]))
    else Answers(y[2..])
  }

  ghost function AfterCommand(y: Bytes): Bytes
    requires y != [] && y[0] == IAC
  {
    if |y| == 1 then [] else if IsOption(y[1]) then (if |y| == 2 then [] else y[3..]) else y[2..]
  }

  lemma Nothing()
    ensures Strip([]) == [] && Answers([]) == []
  {
  }

  // What the client sends back when it meets a command.
  ghost function Answer(y: Bytes): Bytes
    requires y != [] && y[0] == IAC
  {
    if |y| == 1 || !IsOption(y[1]) then [] else Refusal(y[1], if |y| == 2 then 255 else y[2])
  }

  lemma CommandStep(y: Bytes)
    requires y != [] && y[0] == IAC
    ensures Strip(y) == Strip(AfterCommand(y)) && Answers(y) == Answer(y) + Answers(AfterCommand(y))
  {
  }

  lemma TextStep(y: Bytes)
    requires y != [] && y[0] != IAC
    ensures Strip(y) == [y[0]] + Strip(y[1..]) && Answers(y) == Answers(y[1..])
  {
  }

  /** A command may stand between any two bytes of the text. */
  lemma {:induction false} StripInserted(a: Bytes, command: Byte, option: Byte, b: Bytes)
    requires IAC !in a && IsOption(command)
    ensures Strip(a + [IAC, command, option] + b) == a + Strip(b)
    ensures Answers(a + [IAC, command, option] + b) == Refusal(command, option) + Answers(b)
    decreases |a|
  {
    var y := a + [IAC, command, option] + b;
    if a == [] {
      assert y[3..] == b;
    } else {
      assert y[1..] == a[1..] + [IAC, command, option] + b;
      StripInserted(a[1..], command, option, b);
    }
  }

  /** The four options of RFC 854, behind text without commands: to WILL and WONT the client answers
      DONT, to DO and DONT it answers WONT, and the text goes on behind the option. */
  lemma OptionRefused(a: Bytes, option: Byte, b: Bytes)
    requires 255 !in a
    ensures forall command | command == 251 || command == 252 ::
              Answers(a + [255, command, option] + b) == [255, 254, option] + Answers(b)
              && Strip(a + [255, command, option] + b) == a + Strip(b)
    ensures forall command | command == 253 || command == 254 ::
              Answers(a + [255, command, option] + b) == [255, 252, option] + Answers(b)
              && Strip(a + [255, command, option] + b) == a + Strip(b)
  {
    StripInserted(a, 251, option, b);
    StripInserted(a, 252, option, b);
    StripInserted(a, 253, option, b);
    StripInserted(a, 254, option, b);
  }

  /** Any other command is dropped without an answer, an escaped 255 as well. */
  lemma {:induction false} OtherDropped(a: Bytes, command: Byte, b: Bytes)
    requires 255 !in a && (command < 251 || command == 255)
    ensures Strip(a + [255, command] + b) == a + Strip(b)
    ensures Answers(a + [255, command] + b) == Answers(b)
    decreases |a|
  {
    var y := a + [255, command] + b;
    if a == [] {
      assert y[2..] == b;
    } else {
      assert y[1..] == a[1..] + [255, command] + b;
      OtherDropped(a[1..], command, b);
    }
  }

  /** A stream that ends within a command: an option is refused with the byte that EOF prints as. */
  lemma {:induction false} CutShort(a: Bytes)
    requires 255 !in a
    ensures Strip(a + [255]) == a && Answers(a + [255]) == []
    ensures forall command | command == 251 || command == 252 ::
              Strip(a + [255, command]) == a && Answers(a + [255, command]) == [255, 254, 255]
    ensures forall command | command == 253 || command == 254 ::
              Strip(a + [255, command]) == a && Answers(a + [255, command]) == [255, 252, 255]
    decreases |a|
  {
    if a != [] {
      CutShort(a[1..]);
      assert (a + [255])[1..] == a[1..] + [255];
      forall command: Byte
        ensures (a + [255, command])[1..] == a[1..] + [255, command]
      {
      }
    }
  }

  // ---------------------------------------------------------------- Reply codes

  predicate IsDigit(c: int) {
    ZERO <= c <= ZERO + 9
  }

  /** The code read from a line: the digits among its first three characters; a dash behind them
      takes it back when the reply is already known to continue. */
  function CodeOf(line: Bytes, continued: bool): int
    decreases |line|
  {
    if line == [] then 0
    else
      var dig, c, before := |line|, line[|line| - 1], CodeOf(line[..|line| - 1], continued);
      if dig < 4 && IsDigit(c) then before * 10 + (c - ZERO)
      else if dig == 4 && c == DASH && continued then 0
      else before
  }

  predicate Dashed(line: Bytes) {
    |line| >= 4 && line[3] == DASH
  }

  // The character that the result is made from: the first that is not NUL.
  function FirstOf(line: Bytes): int
    decreases |line|
  {
    if line == [] then 0 else if line[0] != 0 then line[0] else FirstOf(line[1..])
  }

  lemma CodeStep(line: Bytes, c: Byte, continued: bool)
    ensures CodeOf(line + [c], continued) ==
            var before := CodeOf(line, continued);
            if |line| < 3 && IsDigit(c) then before * 10 + (c - ZERO)
            else if |line| == 3 && c == DASH && continued then 0
            else before
    ensures Dashed(line + [c]) == (Dashed(line) || (|line| == 3 && c == DASH))
  {
    assert (line + [c])[..|line|] == line;
  }

  lemma LineStarts(continued: bool)
    ensures CodeOf([], continued) == 0 && FirstOf([]) == 0 && !Dashed([]) && Front([]) == []
  {
  }

  lemma {:induction false} FirstStep(line: Bytes, c: Byte)
    ensures FirstOf(line + [c]) == if FirstOf(line) == 0 then c else FirstOf(line)
    decreases |line|
  {
    if line == [] {
      assert (line + [c])[1..] == [];
    } else {
      assert (line + [c])[1..] == line[1..] + [c];
      FirstStep(line[1..], c);
    }
  }

  function LineEnd(s: Bytes): (r: nat)
    ensures r <= |s| && LF !in s[..r] && (r < |s| ==> s[r] == LF)
    decreases |s|
  {
    if s == [] || s[0] == LF then 0 else 1 + LineEnd(s[1..])
  }

  /** The outcome of getreply on a stream without commands. */
  datatype Parsed = Got(result: int, code: int, lost: bool, line: Bytes, rest: Bytes) | AtEof

  function Parse(s: Bytes, originalCode: int, continued: bool): Parsed
    decreases |s|
  {
    var end := LineEnd(s);
    if end == |s| then AtEof
    else
      var line, rest := s[..end], s[end + 1..];
      var code := CodeOf(line, continued);
      if (continued || Dashed(line)) && code != originalCode then
        Parse(rest, if originalCode == 0 then code else originalCode, continued || Dashed(line))
      else Got(FirstOf(line) - ZERO, code, code == 421 || originalCode == 421, line, rest)
  }

  lemma {:induction false} LineEndAt(line: Bytes, rest: Bytes)
    requires LF !in line
    ensures LineEnd(line + [LF] + rest) == |line|
    decreases |line|
  {
    if line != [] {
      assert (line + [LF] + rest)[1..] == line[1..] + [LF] + rest;
      LineEndAt(line[1..], rest);
    }
  }

  lemma {:induction false} NoLineEnd(line: Bytes)
    requires LF !in line
    ensures LineEnd(line) == |line|
    decreases |line|
  {
    if line != [] {
      NoLineEnd(line[1..]);
    }
  }

  lemma ParseLine(line: Bytes, rest: Bytes, originalCode: int, continued: bool)
    requires LF !in line
    ensures Parse(line + [LF] + rest, originalCode, continued) ==
            var code := CodeOf(line, continued);
            if (continued || Dashed(line)) && code != originalCode then
              Parse(rest, if originalCode == 0 then code else originalCode, continued || Dashed(line))
            else Got(FirstOf(line) - ZERO, code, code == 421 || originalCode == 421, line, rest)
  {
    LineEndAt(line, rest);
    var s := line + [LF] + rest;
    assert s[..|line|] == line && s[|line| + 1..] == rest;
  }

  lemma ParseEof(line: Bytes, originalCode: int, continued: bool)
    requires LF !in line
    ensures Parse(line, originalCode, continued) == AtEof
  {
    NoLineEnd(line);
  }

  lemma NextOf(line: Bytes, ahead: Bytes)
    ensures line + ahead == if ahead == [] then line else line + [ahead[0]] + ahead[1..]
  {
  }

  lemma FrontStep(line: Bytes, c: Byte)
    ensures Front(line + [c]) == if |Front(line)| < BUFSIZ - 1 then Front(line) + [c] else Front(line)
  {
  }

  /** What reply_string holds of a line. */
  function Front(line: Bytes): Bytes {
    if |line| < BUFSIZ then line else line[..BUFSIZ - 1]
  }

  // ---------------------------------------------------------------- The address of a passive reply

  const PAREN: Byte := 41

  // The size of pasv.
  const PASV: nat := 64

  predicate Passive(code: int) {
    code == 227 || code == 228 || code == 229
  }

  /** pflag, and what was stored in pasv so far, the terminator included. */
  datatype Capture = Capture(flag: int, stored: Bytes)

  /** The dig-th character of a line, c, where code is what was read of the code: from the first digit
      behind the code of a passive reply on, all is stored up to a parenthesis or a CR. */
  function CaptureChar(cap: Capture, dig: nat, code: int, c: Byte): Capture {
    var flag := if cap.flag == 0 && Passive(code) then 1 else cap.flag;
    if flag == 2 || (flag == 1 && dig > 4 && IsDigit(c)) then
      if c != CR && c != PAREN then Capture(2, cap.stored + [c]) else Capture(3, cap.stored + [0])
    else Capture(flag, cap.stored)
  }

  // The code before a dash can take it back.
  function Seen(line: Bytes, c: Byte, continued: bool): int {
    if |line| < 3 && IsDigit(c) then CodeOf(line, continued) * 10 + (c - ZERO) else CodeOf(line, continued)
  }

  function CaptureLine(cap: Capture, line: Bytes, continued: bool): Capture
    decreases |line|
  {
    if line == [] then cap
    else
      var init, c := line[..|line| - 1], line[|line| - 1];
      CaptureChar(CaptureLine(cap, init, continued), |line|, Seen(init, c, continued), c)
  }

  /** The same over the lines of a reply, as far as Parse reads them. */
  function Captured(s: Bytes, originalCode: int, continued: bool, cap: Capture): Capture
    decreases |s|
  {
    var end := LineEnd(s);
    var line := s[..end];
    var now := CaptureLine(cap, line, continued);
    if end == |s| then now
    else
      var code := CodeOf(line, continued);
      if (continued || Dashed(line)) && code != originalCode then
        Captured(s[end + 1..], if originalCode == 0 then code else originalCode, continued || Dashed(line), now)
      else now
  }

  const NoCapture := Capture(0, [])

  /** What getreply stores in pasv for the first reply of a stream. */
  function Address(s: Bytes): Bytes {
    Captured(s, 0, false, NoCapture).stored
  }

  lemma CaptureStep(cap: Capture, line: Bytes, c: Byte, continued: bool)
    ensures CaptureLine(cap, line + [c], continued)
            == CaptureChar(CaptureLine(cap, line, continued), |line| + 1, Seen(line, c, continued), c)
  {
    assert (line + [c])[..|line|] == line;
  }

  lemma CaptureNone(cap: Capture, continued: bool)
    ensures CaptureLine(cap, [], continued) == cap
  {
  }

  lemma CapturedLine(line: Bytes, rest: Bytes, originalCode: int, continued: bool, cap: Capture)
    requires LF !in line
    ensures Captured(line + [LF] + rest, originalCode, continued, cap) ==
            var code, now := CodeOf(line, continued), CaptureLine(cap, line, continued);
            if (continued || Dashed(line)) && code != originalCode then
              Captured(rest, if originalCode == 0 then code else originalCode, continued || Dashed(line), now)
            else now
  {
    LineEndAt(line, rest);
    var s := line + [LF] + rest;
    assert s[..|line|] == line && s[|line| + 1..] == rest;
  }

  lemma CapturedEof(line: Bytes, originalCode: int, continued: bool, cap: Capture)
    requires LF !in line
    ensures Captured(line, originalCode, continued, cap) == CaptureLine(cap, line, continued)
  {
    NoLineEnd(line);
    assert line[..|line|] == line;
  }

  // What is behind a reply is not looked at.
  lemma {:induction false} CapturedPrefix(s: Bytes, rest: Bytes, originalCode: int, continued: bool, cap: Capture)
    requires Parse(s, originalCode, continued).Got?
    ensures Captured(s + rest, originalCode, continued, cap) == Captured(s, originalCode, continued, cap)
    decreases |s|
  {
    hide Parse, Captured, CodeOf, CaptureLine;
    var end := LineEnd(s);
    if end == |s| {
      ParseEof(s, originalCode, continued);
      assert false;
    }
    var line, more := s[..end], s[end + 1..];
    assert s == line + [LF] + more && s + rest == line + [LF] + (more + rest);
    ParseLine(line, more, originalCode, continued);
    CapturedLine(line, more, originalCode, continued, cap);
    CapturedLine(line, more + rest, originalCode, continued, cap);
    var code := CodeOf(line, continued);
    if (continued || Dashed(line)) && code != originalCode {
      CapturedPrefix(more, rest, if originalCode == 0 then code else originalCode, continued || Dashed(line),
                     CaptureLine(cap, line, continued));
    }
  }

  // ---------------------------------------------------------------- The printer

  type Code = n: int | 100 <= n < 1000 witness 200

  function Digits(n: Code): Bytes {
    [ZERO + n / 100, ZERO + n / 10 % 10, ZERO + n % 10]
  }

  datatype Line = Tagged(text: Bytes) | Indented(text: Bytes)

  predicate Plain(text: Bytes) {
    LF !in text && IAC !in text
  }

  /** A reply: the lines before the last, and the last. */
  datatype Message = Message(n: Code, lines: seq<Line>, text: Bytes)
  {
    predicate PlainText() {
      Plain(text) && forall l <- lines :: Plain(l.text)
    }

    predicate WellFormed() {
      PlainText() && (lines == [] || lines[0].Tagged?)
    }
  }

  // A line as it is sent, without its line feed.
  function LineText(n: Code, l: Line): Bytes {
    match l
    case Tagged(text) => Digits(n) + [DASH, SPACE] + text + [CR]
    case Indented(text) => [SPACE] + text + [CR]
  }

  function LastText(n: Code, text: Bytes): Bytes {
    Digits(n) + [SPACE] + text + [CR]
  }

  function PrintLines(n: Code, lines: seq<Line>): Bytes {
    if lines == [] then [] else LineText(n, lines[0]) + [LF] + PrintLines(n, lines[1..])
  }

  function Print(m: Message): Bytes {
    PrintLines(m.n, m.lines) + LastText(m.n, m.text) + [LF]
  }

  function PrintAll(ms: seq<Message>): Bytes {
    if ms == [] then [] else Print(ms[0]) + PrintAll(ms[1..])
  }

  lemma PrintNone()
    ensures PrintAll([]) == []
  {
  }

  lemma PrintFirst(ms: seq<Message>, rest: Bytes)
    requires ms != []
    ensures PrintAll(ms) + rest == Print(ms[0]) + (PrintAll(ms[1..]) + rest)
  {
  }

  /** Printed text holds no Telnet command, so that it reaches the parser as it is. */
  lemma {:induction false} StripPlain(y: Bytes)
    requires IAC !in y
    ensures Strip(y) == y && Answers(y) == []
    decreases |y|
  {
    if y != [] {
      StripPlain(y[1..]);
    }
  }

  lemma {:induction false} PrintIsPlain(m: Message)
    requires m.PlainText()
    ensures IAC !in Print(m)
    decreases |m.lines|
  {
    if m.lines != [] {
      PrintIsPlain(m.(lines := m.lines[1..]));
    }
  }

  // ---------------------------------------------------------------- Printer against parser

  // Only the first four characters tell the code.
  lemma {:induction false} CodeOfHead(line: Bytes, continued: bool)
    requires |line| >= 4
    ensures CodeOf(line, continued) == CodeOf(line[..4], continued)
    decreases |line|
  {
    if |line| == 4 {
      assert line[..4] == line;
    } else {
      var front := line[..|line| - 1];
      CodeOfHead(front, continued);
      assert front[..4] == line[..4];
    }
  }

  lemma CodeOfFour(a: Byte, b: Byte, c: Byte, d: Byte, continued: bool)
    requires IsDigit(a) && IsDigit(b) && IsDigit(c)
    ensures CodeOf([a, b, c, d], continued) ==
            if d == DASH && continued then 0 else 100 * (a - ZERO) + 10 * (b - ZERO) + (c - ZERO)
  {
    LineStarts(continued);
    CodeStep([], a, continued);
    CodeStep([a], b, continued);
    CodeStep([a, b], c, continued);
    CodeStep([a, b, c], d, continued);
    assert [] + [a] == [a] && [a] + [b] == [a, b] && [a, b] + [c] == [a, b, c] && [a, b, c] + [d] == [a, b, c, d];
  }

  // The code of a line that starts with three digits.
  lemma CodeOfNumbered(n: Code, d: Byte, tail: Bytes, continued: bool)
    ensures CodeOf(Digits(n) + [d] + tail, continued) == (if d == DASH && continued then 0 else n)
    ensures Dashed(Digits(n) + [d] + tail) == (d == DASH)
    ensures FirstOf(Digits(n) + [d] + tail) == ZERO + n / 100
  {
    var line := Digits(n) + [d] + tail;
    CodeOfHead(line, continued);
    assert line[..4] == [line[0], line[1], line[2], d];
    CodeOfFour(line[0], line[1], line[2], d, continued);
  }

  // A line that does not start with a digit cannot end a reply.
  lemma {:induction false} CodeOfIndented(line: Bytes, continued: bool)
    requires line == [] || !IsDigit(line[0])
    ensures 0 <= CodeOf(line, continued) < (if |line| < 2 then 1 else if |line| == 2 then 10 else 100)
    decreases |line|
  {
    if line != [] {
      CodeOfIndented(line[..|line| - 1], continued);
    }
  }

  lemma ParseLast(n: Code, text: Bytes, rest: Bytes, continued: bool)
    requires Plain(text)
    ensures Parse(LastText(n, text) + [LF] + rest, if continued then n else 0, continued)
            == Got(n / 100, n, n == 421, LastText(n, text), rest)
  {
    CodeOfNumbered(n, SPACE, text + [CR], continued);
    assert LastText(n, text) == Digits(n) + [SPACE] + (text + [CR]);
    ParseLine(LastText(n, text), rest, if continued then n else 0, continued);
  }

  // Once a reply is known to continue, no line before its last one ends it.
  lemma {:induction false} ParseRest(n: Code, lines: seq<Line>, text: Bytes, rest: Bytes)
    requires Plain(text) && forall l <- lines :: Plain(l.text)
    ensures Parse(PrintLines(n, lines) + LastText(n, text) + [LF] + rest, n, true)
            == Got(n / 100, n, n == 421, LastText(n, text), rest)
    decreases |lines|
  {
    hide Parse, CodeOf, FirstOf;
    if lines == [] {
      assert PrintLines(n, lines) + LastText(n, text) + [LF] + rest == LastText(n, text) + [LF] + rest;
      ParseLast(n, text, rest, true);
    } else {
      var line, more := LineText(n, lines[0]), PrintLines(n, lines[1..]) + LastText(n, text) + [LF] + rest;
      assert PrintLines(n, lines) + LastText(n, text) + [LF] + rest == line + [LF] + more;
      ParseLine(line, more, n, true);
      match lines[0] {
        case Tagged(t) =>
          CodeOfNumbered(n, DASH, [SPACE] + t + [CR], true);
          assert line == Digits(n) + [DASH] + ([SPACE] + t + [CR]);
        case Indented(t) =>
          CodeOfIndented(line, true);
      }
      ParseRest(n, lines[1..], text, rest);
    }
  }

  // While a reply continues, only its own code ends it.
  lemma {:induction false} ParseContinued(s: Bytes, originalCode: int)
    requires originalCode != 0
    ensures var p := Parse(s, originalCode, true); p.Got? ==> p.code == originalCode
    decreases |s|
  {
    var end := LineEnd(s);
    if end < |s| {
      ParseContinued(s[end + 1..], originalCode);
    }
  }

  /** A printed reply is read back, with its code, the first digit of it and its last line, exactly
      when no indented line comes first. */
  lemma ParsePrintedIff(m: Message, rest: Bytes)
    requires m.PlainText()
    ensures Parse(Print(m) + rest, 0, false) == Got(m.n / 100, m.n, m.n == 421, LastText(m.n, m.text), rest)
            <==> m.lines == [] || m.lines[0].Tagged?
  {
    hide Parse, CodeOf, FirstOf;
    var n, lines, text := m.n, m.lines, m.text;
    if lines == [] {
      assert Print(m) + rest == LastText(n, text) + [LF] + rest;
      ParseLast(n, text, rest, false);
    } else {
      var line, more := LineText(n, lines[0]), PrintLines(n, lines[1..]) + LastText(n, text) + [LF] + rest;
      assert Print(m) + rest == line + [LF] + more;
      ParseLine(line, more, 0, false);
      match lines[0]
      case Tagged(t) =>
        CodeOfNumbered(n, DASH, [SPACE] + t + [CR], false);
        assert line == Digits(n) + [DASH] + ([SPACE] + t + [CR]);
        ParseRest(n, lines[1..], text, rest);
      case Indented(t) =>
        CodeOfIndented(line, false);
        if CodeOf(line, false) != 0 {
          ParseContinued(more, CodeOf(line, false));
        }
    }
  }

  lemma ParsePrinted(m: Message, rest: Bytes)
    requires m.WellFormed()
    ensures Parse(Print(m) + rest, 0, false) == Got(m.n / 100, m.n, m.n == 421, LastText(m.n, m.text), rest)
  {
    ParsePrintedIff(m, rest);
  }

  lemma PrintLine(n: Code, lines: seq<Line>, i: nat)
    requires i < |lines|
    ensures PrintLines(n, lines[i..]) == LineText(n, lines[i]) + [LF] + PrintLines(n, lines[i + 1..])
  {
    assert lines[i..][0] == lines[i] && lines[i..][1..] == lines[i + 1..];
  }

  lemma PrintNoLines(n: Code, out: Bytes)
    ensures out + PrintLines(n, []) == out
  {
  }

  class Server {
    // stdout, the control connection
    var out: Bytes

    constructor ()
      ensures out == []
    {
      out := [];
    }

    // printf of text that is formatted already
    method Put(text: Bytes)
      modifies this
      ensures out == old(out) + text
    {
      out := out + text;
    }

    method Reply(n: Code, text: Bytes)
      modifies this
      ensures out == old(out) + (LastText(n, text) + [LF])
    {
      Put(Digits(n) + [SPACE]);
      Put(text);
      Put([CR, LF]);
    }

    method LReply(n: Code, text: Bytes)
      modifies this
      ensures out == old(out) + (LineText(n, Tagged(text)) + [LF])
    {
      Put(Digits(n) + [DASH, SPACE]);
      Put(text);
      Put([CR, LF]);
    }

    // the printf calls with which statcmd and others send the lines of a long reply
    method Indent(ghost n: Code, text: Bytes)
      modifies this
      ensures out == old(out) + (LineText(n, Indented(text)) + [LF])
    {
      Put([SPACE] + text + [CR, LF]);
    }

    /** A whole reply in as many calls as it has lines. */
    method Send(m: Message)
      modifies this
      ensures out == old(out) + Print(m)
    {
      hide PrintLines, LineText, LastText;
      assert m.lines[0..] == m.lines;
      for i := 0 to |m.lines|
        invariant out + PrintLines(m.n, m.lines[i..]) == old(out) + PrintLines(m.n, m.lines)
      {
        ghost var before := out;
        match m.lines[i] {
          case Tagged(text) => LReply(m.n, text);
          case Indented(text) => Indent(m.n, text);
        }
        ghost var line := LineText(m.n, m.lines[i]) + [LF];
        PrintLine(m.n, m.lines, i);
        Regroup(before, line, PrintLines(m.n, m.lines[i + 1..]));
      }
      PrintNoLines(m.n, out);
      assert m.lines[|m.lines|..] == [];
      Reply(m.n, m.text);
      Regroup(old(out), PrintLines(m.n, m.lines), LastText(m.n, m.text) + [LF]);
      Regroup(PrintLines(m.n, m.lines), LastText(m.n, m.text), [LF]);
    }
  }

  // ---------------------------------------------------------------- The client

  class Client {
    // the control connection: all that arrives on it, and how far it is read
    const input: Bytes
    var pos: nat
    // what is sent back
    var sent: Bytes
    // the globals code and, set by lostpeer, the loss of the connection
    var code: int
    var lost: bool
    // reply_string: the last line of the last reply, as much of it as fits
    var replyString: Bytes
    // pasv, and whether more was stored than it holds
    const pasv: array<Byte>
    var overran: bool

    ghost predicate Valid()
      reads this
    {
      pos <= |input| && pasv.Length == PASV
    }

    /** The store into pasv stands where the capture says, `was` from an earlier reply. */
    ghost predicate Stored(cap: Capture, pflag: int, pt: nat, was: bool)
      reads this`overran, pasv
    {
      && pasv.Length == PASV && pflag == cap.flag
      && |cap.stored| == pt + (if pflag == 3 then 1 else 0)
      && (overran <==> was || |cap.stored| > PASV)
      && (!overran ==> pasv[..|cap.stored|] == cap.stored)
    }

    constructor (input: Bytes)
      ensures Valid() && this.input == input && pos == 0 && sent == [] && !lost && !overran && fresh(pasv)
    {
      this.input, pos, sent, code, lost, replyString, overran := input, 0, [], 0, false, [], false;
      pasv := new Byte[PASV](i => 0);
    }

    // getc
    method GetChar() returns (c: int)
      requires Valid()
      modifies this`pos
      ensures Valid()
      ensures if old(pos) < |input| then c == input[old(pos)] && pos == old(pos) + 1 else c == EOF && pos == old(pos)
    {
      if pos == |input| {
        return EOF;
      }
      c := input[pos];
      pos := pos + 1;
    }

    // The rest of a Telnet command; an option is refused.
    method FinishCommand()
      requires Valid() && pos > 0 && input[pos - 1] == IAC
      modifies this`pos, this`sent
      ensures Valid() && pos >= old(pos) && input[pos..] == AfterCommand(old(input[pos - 1..]))
      ensures sent == old(sent) + Answer(old(input[pos - 1..]))
    {
      var c := GetChar();
      if IsOption(c) {
        var command := c;
        c := GetChar();
        sent := sent + Refusal(command, if c == EOF then 255 else c);
      }
    }

    /** The next character that is not part of a Telnet command; options are refused on the way. */
    method GetTextChar() returns (c: int)
      requires Valid()
      modifies this`pos, this`sent
      ensures Valid() && pos >= old(pos) && EOF <= c < 256
      ensures var s := Strip(old(input[pos..]));
              if s == [] then c == EOF && Strip(input[pos..]) == []
              else c == s[0] && Strip(input[pos..]) == s[1..] && pos > old(pos)
      ensures sent + Answers(input[pos..]) == old(sent) + Answers(old(input[pos..]))
    {
      hide Strip, Answers;
      ghost var y := input[pos..];
      Nothing();
      c := GetChar();
      while c == IAC
        invariant Valid() && pos >= old(pos) && EOF <= c < 256
        invariant if c == EOF then y == [] && pos == |input| else pos > old(pos) && y == input[pos - 1..] && y[0] == c
        invariant Strip(y) == Strip(old(input[pos..]))
        invariant sent + Answers(y) == old(sent) + Answers(old(input[pos..]))
        decreases |input| - pos, c
      {
        ghost var before := sent;
        CommandStep(y);
        ghost var answer := Answer(y);
        FinishCommand();
        y := input[pos..];
        c := GetChar();
        Regroup(before, answer, Answers(y));
      }
      if c == EOF {
        assert input[pos..] == [];
      } else {
        TextStep(y);
        assert y[1..] == input[pos..];
      }
    }

    // *pt = c, which may be behind the end of pasv.
    method Store(pt: nat, c: Byte, ghost cap: Capture, ghost was: bool)
      requires Stored(cap, cap.flag, pt, was) && cap.flag != 3
      modifies pasv, this`overran
      ensures overran <==> was || pt >= PASV
      ensures !overran ==> pasv[..pt + 1] == cap.stored + [c]
    {
      if pt < pasv.Length {
        pasv[pt] := c;
        assert !overran ==> pasv[..pt] == cap.stored;
      } else {
        overran := true;
      }
    }

    // The address of a passive reply.
    method NoteAddress(c: Byte, dig: nat, pflag0: int, pt0: nat, ghost cap: Capture, ghost was: bool)
      returns (pflag: int, pt: nat)
      requires Stored(cap, pflag0, pt0, was)
      modifies pasv, this`overran
      ensures Stored(CaptureChar(cap, dig, code, c), pflag, pt, was)
    {
      pflag, pt := pflag0, pt0;
      if pflag == 0 && (code == 227 || code == 228 || code == 229) {
        pflag := 1;
      }
      if dig > 4 && pflag == 1 && IsDigit(c) {
        pflag := 2;
      }
      if pflag == 2 {
        if c != CR && c != PAREN {
          Store(pt, c, cap, was);
          pt := pt + 1;
        } else {
          Store(pt, 0, cap, was);
          pflag := 3;
        }
      }
    }

    lemma StartNoted(continued: bool, continuation: nat)
      requires code == 0 && replyString == [] && (continuation > 0 <==> continued)
      ensures Noted([], continued, 0, continuation)
    {
      LineStarts(continued);
    }

    // What is known of a line that was read so far.
    ghost predicate Noted(line: Bytes, continued: bool, n: int, continuation: nat)
      reads this`code, this`replyString
    {
      && n == FirstOf(line) && replyString == Front(line) && code == CodeOf(line, continued)
      && (continuation > 0 <==> continued || Dashed(line))
    }

    // A character of a line.
    method NoteChar(c: Byte, dig: nat, n0: int, continuation0: nat, pflag0: int, pt0: nat,
                    ghost line: Bytes, ghost continued: bool, ghost cap: Capture, ghost was: bool)
      returns (n: int, continuation: nat, pflag: int, pt: nat)
      requires dig == |line| + 1 && Noted(line, continued, n0, continuation0)
      requires Stored(CaptureLine(cap, line, continued), pflag0, pt0, was)
      modifies this`code, this`replyString, this`overran, pasv
      ensures Noted(line + [c], continued, n, continuation)
      ensures Stored(CaptureLine(cap, line + [c], continued), pflag, pt, was)
    {
      hide CodeOf, FirstOf, Front, CaptureLine, Seen, CaptureChar, Stored;
      n, continuation := n0, continuation0;
      LineStep(cap, line, c, continued);
      if dig < 4 && IsDigit(c) {
        code := code * 10 + (c - ZERO);
      }
      pflag, pt := NoteAddress(c, dig, pflag0, pt0, CaptureLine(cap, line, continued), was);
      if dig == 4 && c == DASH {
        if continuation > 0 {
          code := 0;
        }
        continuation := continuation + 1;
      }
      if n == 0 {
        n := c;
      }
      if |replyString| < BUFSIZ - 1 {
        replyString := replyString + [c];
      }
    }

    /** A line of a reply, up to its line feed or the end of the stream. */
    method ReadLine(continuation0: nat, pflag0: int, pt0: nat, ghost cap: Capture, ghost was: bool)
      returns (c: int, n: int, continuation: nat, pflag: int, pt: nat, ghost line: Bytes)
      requires Valid() && Stored(cap, pflag0, pt0, was)
      modifies this`pos, this`sent, this`code, this`replyString, this`overran, pasv
      ensures Valid() && pos >= old(pos) && LF !in line && (c == LF || c == EOF)
      ensures if c == EOF then Strip(old(input[pos..])) == line && Strip(input[pos..]) == []
              else pos > old(pos) && Strip(old(input[pos..])) == line + [LF] + Strip(input[pos..])
      ensures Noted(line, continuation0 > 0, n, continuation)
      ensures Stored(CaptureLine(cap, line, continuation0 > 0), pflag, pt, was)
      ensures sent + Answers(input[pos..]) == old(sent) + Answers(old(input[pos..]))
    {
      hide Strip, Answers, CodeOf, FirstOf, Front, CaptureLine, Stored, Noted;
      ghost var continued, text, start := continuation0 > 0, Strip(input[pos..]), pos;
      continuation, pflag, pt, line := continuation0, pflag0, pt0, [];
      var dig: nat := 0;
      n, code, replyString := 0, 0, [];
      StartNoted(continued, continuation);
      CaptureNone(cap, continued);
      NextOf([], text);
      c := GetTextChar();
      while c != LF && c != EOF
        invariant Valid() && start <= pos && EOF <= c < 256 && LF !in line
        invariant dig == |line| && Noted(line, continued, n, continuation)
        invariant Stored(CaptureLine(cap, line, continued), pflag, pt, was)
        invariant if c == EOF then text == line && Strip(input[pos..]) == []
                  else pos > start && text == line + [c] + Strip(input[pos..])
        invariant sent + Answers(input[pos..]) == old(sent) + Answers(old(input[pos..]))
        decreases |input| - pos, c
      {
        dig := dig + 1;
        n, continuation, pflag, pt := NoteChar(c, dig, n, continuation, pflag, pt, line, continued, cap, was);
        line := line + [c];
        ghost var ahead := Strip(input[pos..]);
        c := GetTextChar();
        NextOf(line, ahead);
      }
    }

    /** The next reply: 0 or 4 at the end of the stream, else the first digit of its code.  What is
        stored of its address is Address; more than pasv holds is an overrun, and nothing is said
        about what comes after it. */
    method GetReply(expectEof: bool) returns (r: int)
      requires Valid()
      modifies this`pos, this`sent, this`code, this`lost, this`replyString, this`overran, pasv
      ensures Valid()
      ensures var address := Address(Strip(old(input[pos..])));
              && (overran <==> old(overran) || |address| > PASV)
              && (!overran ==> pasv[..|address|] == address)
      ensures var p := Parse(Strip(old(input[pos..])), 0, false);
              !overran ==>
                if p.AtEof? then
                  Strip(input[pos..]) == []
                  && (if expectEof then r == 0 && code == 221 && lost == old(lost) else r == 4 && code == 421 && lost)
                else
                  Strip(input[pos..]) == p.rest && pos > old(pos)
                  && replyString == Front(p.line) && r == p.result && code == p.code && lost == (old(lost) || p.lost)
      ensures !overran ==> sent + Answers(input[pos..]) == old(sent) + Answers(old(input[pos..]))
    {
      hide Strip, Answers, Parse, CodeOf, FirstOf, Front, Captured, CaptureLine;
      var originalCode, continuation: nat, pflag, pt: nat := 0, 0, 0, 0;
      ghost var cap := NoCapture;
      ghost var goal, whole := Parse(Strip(input[pos..]), 0, false), Captured(Strip(input[pos..]), 0, false, cap);
      while true
        invariant Valid() && lost == old(lost) && pos >= old(pos) && Stored(cap, pflag, pt, old(overran))
        invariant Parse(Strip(input[pos..]), originalCode, continuation > 0) == goal
        invariant Captured(Strip(input[pos..]), originalCode, continuation > 0, cap) == whole
        invariant sent + Answers(input[pos..]) == old(sent) + Answers(old(input[pos..]))
        decreases |input| - pos
      {
        ghost var continued := continuation > 0;
        ghost var line: Bytes;
        var c, n;
        c, n, continuation, pflag, pt, line := ReadLine(continuation, pflag, pt, cap, old(overran));
        if c == EOF {
          ParseEof(line, originalCode, continued);
          CapturedEof(line, originalCode, continued, cap);
          if expectEof {
            code := 221;
            return 0;
          }
          lost := true;
          code := 421;
          return 4;
        }
        ParseLine(line, Strip(input[pos..]), originalCode, continued);
        CapturedLine(line, Strip(input[pos..]), originalCode, continued, cap);
        cap := CaptureLine(cap, line, continued);
        if continuation > 0 && code != originalCode {
          if originalCode == 0 {
            originalCode := code;
          }
          continue;
        }
        if code == 421 || originalCode == 421 {
          lost := true;
        }
        return n - ZERO;
      }
    }

    /** A stream of well-formed replies, whatever Telnet commands stand between its bytes, is split
        into exactly those replies, unless one of them has an address that is too long for pasv. */
    method GetReplies(ghost ms: seq<Message>, ghost rest: Bytes, count: nat) returns (results: seq<int>, codes: seq<int>)
      requires Valid() && count == |ms| && Strip(input[pos..]) == PrintAll(ms) + rest && !overran
      requires forall m <- ms :: m.WellFormed() && m.n != 421
      modifies this`pos, this`sent, this`code, this`lost, this`replyString, this`overran, pasv
      ensures Valid() && (overran <==> exists m <- ms :: |Address(Print(m))| > PASV)
      ensures !overran ==> Strip(input[pos..]) == rest && lost == old(lost) && |results| == |codes| == |ms|
      ensures !overran ==> forall i :: 0 <= i < |ms| ==> results[i] == ms[i].n / 100 && codes[i] == ms[i].n
      ensures !overran ==> sent + Answers(input[pos..]) == old(sent) + Answers(old(input[pos..]))
    {
      hide Strip, Answers, Parse, CodeOf, FirstOf, Print, PrintAll, Message.WellFormed, Address;
      results, codes := [], [];
      while |codes| < count
        invariant Valid() && |results| == |codes| <= count && lost == old(lost) && !overran
        invariant Strip(input[pos..]) == PrintAll(ms[|codes|..]) + rest
        invariant forall i :: 0 <= i < |codes| ==> results[i] == ms[i].n / 100 && codes[i] == ms[i].n
        invariant forall i :: 0 <= i < |codes| ==> |Address(Print(ms[i]))| <= PASV
        invariant sent + Answers(input[pos..]) == old(sent) + Answers(old(input[pos..]))
      {
        ghost var i := |codes|;
        PrintFirst(ms[i..], rest);
        assert ms[i..][0] == ms[i] && ms[i..][1..] == ms[i + 1..];
        ParsePrinted(ms[i], PrintAll(ms[i + 1..]) + rest);
        AddressPrinted(ms[i], PrintAll(ms[i + 1..]) + rest);
        var r := GetReply(false);
        if overran {
          assert ms[i] in ms;
          return;
        }
        results, codes := results + [r], codes + [code];
      }
      PrintNone();
      assert ms[count..] == [];
    }
  }

  // What is left unread where all text is read answers nothing.
  lemma RestSilent(a: Bytes, command: Byte, option: Byte, b: Bytes, n: nat)
    requires IAC !in a && IAC !in b && IsOption(command) && b != [] && (|b| <= 2 ==> !IsOption(b[0]))
    requires n <= |a| + 3 + |b|
    ensures var y := (a + [IAC, command, option] + b)[n..]; Strip(y) == [] ==> Answers(y) == []
  {
    var y := (a + [IAC, command, option] + b)[n..];
    if n <= |a| {
      assert y == a[n..] + [IAC, command, option] + b;
      StripInserted(a[n..], command, option, b);
      StripPlain(b);
    } else if n == |a| + 1 {
      assert y[0] == command;
    } else if n == |a| + 2 {
      assert y == [option] + b;
      if option == IAC {
        StripPlain(y[2..]);
        if IsOption(b[0]) {
          StripPlain(y[3..]);
        }
      }
    } else {
      assert y == b[n - |a| - 3..];
      StripPlain(y);
    }
  }

  lemma AddNothing(s: Bytes)
    ensures s + [] == s
  {
  }

  // A part of a printed reply up to its end.
  lemma PrintPlain(m: Message, a: Bytes, b: Bytes)
    requires m.WellFormed() && a + b == Print(m) && b != []
    ensures IAC !in a && IAC !in b && (|b| <= 2 ==> !IsOption(b[0])) && Answers(b) == []
  {
    PrintIsPlain(m);
    var p := Print(m);
    assert p[|p| - 1] == LF && p[|p| - 2] == CR;
    assert forall c <- a :: c in p;
    assert forall c <- b :: c in p;
    assert b[|b| - 1] == p[|p| - 1] && (|b| >= 2 ==> b[|b| - 2] == p[|p| - 2]);
    StripPlain(b);
  }

  /** One option command before the reply or anywhere inside it: what is sent back, and that the reply
      is the same as without it. */
  method GetReplyRefusing(client: Client, ghost m: Message, ghost a: Bytes, ghost command: Byte, ghost option: Byte,
                          ghost b: Bytes)
    returns (r: int)
    requires client.Valid() && !client.overran && client.input[client.pos..] == a + [255, command, option] + b
    requires a + b == Print(m) && b != [] && m.WellFormed() && |Address(Print(m))| <= PASV && 251 <= command <= 254
    modifies client, client.pasv
    ensures r == m.n / 100 && client.code == m.n && !client.overran
    ensures command == 251 || command == 252 ==> client.sent == old(client.sent) + [255, 254, option]
    ensures command == 253 || command == 254 ==> client.sent == old(client.sent) + [255, 252, option]
  {
    hide Strip, Answers, Parse, CodeOf, FirstOf, Print, Message.WellFormed, Address;
    ghost var start, y := client.pos, client.input[client.pos..];
    PrintPlain(m, a, b);
    StripInserted(a, command, option, b);
    StripPlain(b);
    assert Print(m) + [] == Print(m);
    ParsePrinted(m, []);
    OptionRefused(a, option, b);
    r := client.GetReply(false);
    assert client.input[client.pos..] == y[client.pos - start..];
    RestSilent(a, command, option, b, client.pos - start);
    AddNothing(client.sent);
    AddNothing([255, 254, option]);
    AddNothing([255, 252, option]);
  }

  // The steps of ReadLine.
  lemma LineStep(cap: Capture, line: Bytes, c: Byte, continued: bool)
    ensures CodeOf(line + [c], continued)
            == if |line| == 3 && c == DASH && continued then 0 else Seen(line, c, continued)
    ensures Seen(line, c, continued)
            == if |line| < 3 && IsDigit(c) then CodeOf(line, continued) * 10 + (c - ZERO) else CodeOf(line, continued)
    ensures Dashed(line + [c]) == (Dashed(line) || (|line| == 3 && c == DASH))
    ensures FirstOf(line + [c]) == if FirstOf(line) == 0 then c else FirstOf(line)
    ensures Front(line + [c]) == if |Front(line)| < BUFSIZ - 1 then Front(line) + [c] else Front(line)
    ensures CaptureLine(cap, line + [c], continued)
            == CaptureChar(CaptureLine(cap, line, continued), |line| + 1, Seen(line, c, continued), c)
  {
    hide CodeOf, FirstOf, CaptureLine, CaptureChar;
    CodeStep(line, c, continued);
    FirstStep(line, c);
    FrontStep(line, c);
    CaptureStep(cap, line, c, continued);
  }

  // ---------------------------------------------------------------- Which addresses fit

  lemma AddressPrinted(m: Message, rest: Bytes)
    requires m.WellFormed()
    ensures Address(Print(m) + rest) == Address(Print(m))
  {
    ParsePrinted(m, []);
    assert Print(m) + [] == Print(m);
    CapturedPrefix(Print(m), rest, 0, false, NoCapture);
  }

  // What is stored from s on: all up to a parenthesis or a CR, and a terminator for that.
  function UpToEnd(s: Bytes): Bytes {
    if s == [] then [] else if s[0] == CR || s[0] == PAREN then [0] else [s[0]] + UpToEnd(s[1..])
  }

  function FromDigit(s: Bytes): Bytes {
    if s == [] || IsDigit(s[0]) then s else FromDigit(s[1..])
  }

  // The characters of a line behind its code.
  function RunChars(cap: Capture, tail: Bytes, code: int): Capture
    decreases |tail|
  {
    if tail == [] then cap else RunChars(CaptureChar(cap, 5, code, tail[0]), tail[1..], code)
  }

  lemma {:induction false} RunSnoc(cap: Capture, tail: Bytes, c: Byte, code: int)
    ensures RunChars(cap, tail + [c], code) == CaptureChar(RunChars(cap, tail, code), 5, code, c)
    decreases |tail|
  {
    hide CaptureChar;
    if tail == [] {
      assert (tail + [c])[1..] == [];
    } else {
      assert (tail + [c])[1..] == tail[1..] + [c];
      RunSnoc(CaptureChar(cap, 5, code, tail[0]), tail[1..], c, code);
    }
  }

  lemma {:induction false} CaptureTail(cap: Capture, head: Bytes, tail: Bytes, continued: bool)
    requires |head| == 4
    ensures CaptureLine(cap, head + tail, continued)
            == RunChars(CaptureLine(cap, head, continued), tail, CodeOf(head, continued))
    decreases |tail|
  {
    if tail == [] {
      assert head + tail == head;
    } else {
      hide CaptureLine, RunChars, CodeOf;
      var init, c := tail[..|tail| - 1], tail[|tail| - 1];
      assert head + tail == (head + init) + [c] && tail == init + [c];
      CaptureTail(cap, head, init, continued);
      CaptureStep(cap, head + init, c, continued);
      RunSnoc(CaptureLine(cap, head, continued), init, c, CodeOf(head, continued));
      CodeOfHead(head + init, continued);
      assert (head + init)[..4] == head;
    }
  }

  lemma {:induction false} RunStored(stored: Bytes, tail: Bytes, code: int)
    ensures Passive(code) ==> RunChars(Capture(1, stored), tail, code).stored == stored + UpToEnd(FromDigit(tail))
    ensures RunChars(Capture(2, stored), tail, code).stored == stored + UpToEnd(tail)
    ensures RunChars(Capture(3, stored), tail, code) == Capture(3, stored)
    ensures !Passive(code) ==> RunChars(Capture(0, stored), tail, code) == Capture(0, stored)
    decreases |tail|
  {
    if tail != [] {
      var more := tail[1..];
      RunStored(stored, more, code);
      RunStored(stored + [tail[0]], more, code);
      RunStored(stored + [0], more, code);
      Regroup(stored, [tail[0]], UpToEnd(more));
    }
  }

  // The four characters in front of a text.
  lemma CaptureFour(a: Byte, b: Byte, c: Byte, d: Byte, continued: bool)
    requires IsDigit(a) && IsDigit(b) && IsDigit(c) && (d == SPACE || d == DASH)
    ensures CaptureLine(NoCapture, [a, b, c, d], continued)
            == Capture(if Passive(100 * (a - ZERO) + 10 * (b - ZERO) + (c - ZERO)) then 1 else 0, [])
  {
    hide CaptureLine, CodeOf;
    LineStarts(continued);
    CaptureNone(NoCapture, continued);
    CaptureStep(NoCapture, [], a, continued);
    CaptureStep(NoCapture, [a], b, continued);
    CaptureStep(NoCapture, [a, b], c, continued);
    CaptureStep(NoCapture, [a, b, c], d, continued);
    CodeStep([], a, continued);
    CodeStep([a], b, continued);
    CodeStep([a, b], c, continued);
    assert [] + [a] == [a] && [a] + [b] == [a, b] && [a, b] + [c] == [a, b, c] && [a, b, c] + [d] == [a, b, c, d];
  }

  lemma CaptureDigits(n: Code, d: Byte, continued: bool)
    requires d == SPACE || d == DASH
    ensures CaptureLine(NoCapture, Digits(n) + [d], continued) == Capture(if Passive(n) then 1 else 0, [])
  {
    hide CaptureLine;
    var line := Digits(n) + [d];
    assert line == [line[0], line[1], line[2], d];
    CaptureFour(line[0], line[1], line[2], d, continued);
  }

  /** What a reply of one line stores: from the first digit of its text to a parenthesis or the end,
      and nothing for other codes than 227, 228 and 229. */
  lemma AddressOfLine(n: Code, text: Bytes)
    requires Plain(text)
    ensures Address(LastText(n, text) + [LF]) == if 227 <= n <= 229 then UpToEnd(FromDigit(text + [CR])) else []
  {
    hide CaptureLine, CodeOf, RunChars, UpToEnd, FromDigit;
    var line, head, tail := LastText(n, text), Digits(n) + [SPACE], text + [CR];
    assert line + [LF] + [] == line + [LF] && line == head + tail;
    CapturedLine(line, [], 0, false, NoCapture);
    CodeOfNumbered(n, SPACE, tail, false);
    CodeOfNumbered(n, SPACE, [], false);
    assert head + [] == head;
    CaptureDigits(n, SPACE, false);
    CaptureTail(NoCapture, head, tail, false);
    RunStored([], tail, n);
    assert [] + UpToEnd(FromDigit(tail)) == UpToEnd(FromDigit(tail));
  }

  // Neither a numbered line of another code nor an indented line stores anything.
  lemma NumberedStoresNothing(n: Code, d: Byte, tail: Bytes, continued: bool)
    requires !Passive(n) && (d == SPACE || d == DASH)
    ensures CaptureLine(NoCapture, Digits(n) + [d] + tail, continued) == NoCapture
  {
    hide CaptureLine, CodeOf, RunChars;
    var head := Digits(n) + [d];
    CaptureDigits(n, d, continued);
    CodeOfNumbered(n, d, [], continued);
    assert head + [] == head;
    CaptureTail(NoCapture, head, tail, continued);
    RunStored([], tail, CodeOf(head, continued));
  }

  lemma {:induction false} IndentedStoresNothing(line: Bytes, continued: bool)
    requires line == [] || !IsDigit(line[0])
    ensures CaptureLine(NoCapture, line, continued) == NoCapture
    decreases |line|
  {
    hide CaptureLine, CodeOf;
    if line == [] {
      CaptureNone(NoCapture, continued);
    } else {
      var init, c := line[..|line| - 1], line[|line| - 1];
      assert line == init + [c];
      IndentedStoresNothing(init, continued);
      CodeOfIndented(init, continued);
      CodeOfIndented(line, continued);
      CodeStep(init, c, continued);
      CaptureStep(NoCapture, init, c, continued);
    }
  }

  lemma LineStoresNothing(n: Code, l: Line, continued: bool)
    requires !Passive(n)
    ensures CaptureLine(NoCapture, LineText(n, l), continued) == NoCapture
  {
    hide CaptureLine;
    match l
    case Tagged(t) =>
      assert LineText(n, l) == Digits(n) + [DASH] + ([SPACE] + t + [CR]);
      NumberedStoresNothing(n, DASH, [SPACE] + t + [CR], continued);
    case Indented(_) =>
      IndentedStoresNothing(LineText(n, l), continued);
  }

  lemma PrintCons(n: Code, lines: seq<Line>, last: Bytes)
    ensures PrintLines(n, lines) + last + [LF]
            == if lines == [] then last + [LF] + []
               else LineText(n, lines[0]) + [LF] + (PrintLines(n, lines[1..]) + last + [LF])
  {
  }

  lemma {:induction false} RestStoresNothing(n: Code, lines: seq<Line>, text: Bytes)
    requires !Passive(n) && Plain(text) && forall l <- lines :: Plain(l.text)
    ensures Captured(PrintLines(n, lines) + LastText(n, text) + [LF], n, true, NoCapture) == NoCapture
    decreases |lines|
  {
    var last := LastText(n, text);
    PrintCons(n, lines, last);
    if lines == [] {
      assert last == Digits(n) + [SPACE] + (text + [CR]) && LF !in last;
      hide Captured, CaptureLine, CodeOf, PrintLines, LastText;
      CapturedLine(last, [], n, true, NoCapture);
      CodeOfNumbered(n, SPACE, text + [CR], true);
      NumberedStoresNothing(n, SPACE, text + [CR], true);
    } else {
      assert LF !in LineText(n, lines[0]);
      hide Captured, CaptureLine, CodeOf, PrintLines, LastText, LineText;
      CapturedLine(LineText(n, lines[0]), PrintLines(n, lines[1..]) + last + [LF], n, true, NoCapture);
      LineStoresNothing(n, lines[0], true);
      RestStoresNothing(n, lines[1..], text);
    }
  }

  /** A reply with another code, of any number of lines, stores nothing. */
  lemma OthersStoreNothing(m: Message)
    requires m.WellFormed() && !Passive(m.n)
    ensures Address(Print(m)) == []
  {
    hide Captured, CaptureLine, CodeOf;
    if m.lines == [] {
      AddressOfLine(m.n, m.text);
      assert Print(m) == LastText(m.n, m.text) + [LF];
    } else {
      var t := m.lines[0].text;
      var line, more := LineText(m.n, m.lines[0]), PrintLines(m.n, m.lines[1..]) + LastText(m.n, m.text) + [LF];
      assert Print(m) == line + [LF] + more && line == Digits(m.n) + [DASH] + ([SPACE] + t + [CR]);
      CapturedLine(line, more, 0, false, NoCapture);
      CodeOfNumbered(m.n, DASH, [SPACE] + t + [CR], false);
      NumberedStoresNothing(m.n, DASH, [SPACE] + t + [CR], false);
      RestStoresNothing(m.n, m.lines[1..], m.text);
    }
  }

  lemma {:induction false} UpToEndOfDigits(digits: Bytes)
    requires forall c <- digits :: IsDigit(c)
    ensures FromDigit(digits + [CR]) == (if digits == [] then [] else digits + [CR]) && UpToEnd(digits + [CR]) == digits + [0]
    decreases |digits|
  {
    if digits != [] {
      assert (digits + [CR])[1..] == digits[1..] + [CR];
      UpToEndOfDigits(digits[1..]);
    } else {
      assert [CR][1..] == [];
    }
  }

  /** A reply 227 with a number as its text overruns pasv exactly when it has 64 digits or more. */
  lemma LongAddress(digits: Bytes)
    requires digits != [] && forall c <- digits :: IsDigit(c)
    ensures |Address(LastText(227, digits) + [10])| > PASV <==> |digits| >= 64
  {
    UpToEndOfDigits(digits);
    AddressOfLine(227, digits);
  }

  predicate DigitByte(c: Byte) {
    48 <= c <= 57
  }

  lemma {:induction false} UpToEndAt(address: Bytes, end: Byte, more: Bytes)
    requires 13 !in address && 41 !in address && (end == 13 || end == 41)
    ensures UpToEnd(address + [end] + more) == address + [0]
    decreases |address|
  {
    if address == [] {
      assert ([] + [end] + more)[0] == end;
    } else {
      assert (address + [end] + more)[1..] == address[1..] + [end] + more;
      UpToEndAt(address[1..], end, more);
    }
  }

  lemma {:induction false} FromDigitAt(words: Bytes, tail: Bytes)
    requires (forall c <- words :: !DigitByte(c)) && (tail == [] || DigitByte(tail[0]))
    ensures FromDigit(words + tail) == tail
    decreases |words|
  {
    if words == [] {
      assert words + tail == tail;
    } else {
      assert words[0] in words && (words + tail)[1..] == words[1..] + tail;
      FromDigitAt(words[1..], tail);
    }
  }

  /** Of the text of a reply 227, 228 or 229 the part from the first digit on is stored, up to a closing
      parenthesis, or up to the end of the text where none follows, and a NUL; without a digit, nothing. */
  lemma AddressInText(words: Bytes, address: Bytes, more: Bytes)
    requires Plain(words) && Plain(address) && Plain(more)
    requires (forall c <- words :: !DigitByte(c)) && address != [] && DigitByte(address[0])
    requires 13 !in address && 41 !in address
    ensures forall n: Code | 227 <= n <= 229 ::
              && Address(LastText(n, words + address + [41] + more) + [10]) == address + [0]
              && Address(LastText(n, words + address) + [10]) == address + [0]
              && Address(LastText(n, words) + [10]) == []
  {
    hide Address, LastText, UpToEnd, FromDigit;
    var text := words + address + [41] + more;
    assert text + [13] == words + (address + [41] + (more + [13]));
    FromDigitAt(words, address + [41] + (more + [13]));
    UpToEndAt(address, 41, more + [13]);
    assert words + address + [13] == words + (address + [13] + []);
    FromDigitAt(words, address + [13] + []);
    UpToEndAt(address, 13, []);
    WithoutDigit(words);
    forall n: Code | 227 <= n <= 229
      ensures Address(LastText(n, text) + [10]) == address + [0] && Address(LastText(n, words + address) + [10]) == address + [0]
              && Address(LastText(n, words) + [10]) == []
    {
      AddressOfLine(n, text);
      AddressOfLine(n, words + address);
      AddressOfLine(n, words);
    }
  }

  lemma {:induction false} WithoutDigit(words: Bytes)
    requires forall c <- words :: !DigitByte(c)
    ensures UpToEnd(FromDigit(words + [13])) == []
    decreases |words|
  {
    if words == [] {
      assert ([] + [13])[1..] == [];
    } else {
      assert words[0] in words && (words + [13])[1..] == words[1..] + [13];
      WithoutDigit(words[1..]);
    }
  }

  /** The bytes of a reply of three lines: "220-Hi", an indented "ok" and "220 go". */
  lemma BytesOfReply()
    ensures Print(Message(220, [Tagged([72, 105]), Indented([111, 107])], [103, 111]))
            == [50, 50, 48, 45, 32, 72, 105, 13, 10] + [32, 111, 107, 13, 10] + [50, 50, 48, 32, 103, 111, 13, 10]
  {
    var m := Message(220, [Tagged([72, 105]), Indented([111, 107])], [103, 111]);
    assert m.lines[1..] == [Indented([111, 107])];
    assert PrintLines(220, m.lines[1..]) == LineText(220, m.lines[1]) + [LF] + [];
  }
}
