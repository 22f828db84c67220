/** The command line splitter of ftp/main.c: makeargv and its scanner slurpstring. */
module MakeArgv {
  import opened Common

  // The states S1, S2 and S3 of the scanner.
  datatype Mode = Plain | Escape | Quote

  predicate IsBlank(c: char) {
    c == ' ' || c == '\t'
  }

  function SkipBlanks(line: string, i: nat): (r: nat)
    requires i <= |line|
    ensures i <= r <= |line| && (r < |line| ==> !IsBlank(line[r]))
    decreases |line| - i
  {
    if i < |line| && IsBlank(line[i]) then SkipBlanks(line, i + 1) else i
  }

  /** The text of a word from i on, without its quoting, and where the word ends. */
  function Word(line: string, i: nat, mode: Mode): (r: (string, nat))
    requires i <= |line|
    ensures i + |r.0| <= r.1 <= |line|
    ensures r.1 < |line| ==> IsBlank(line[r.1])
    decreases |line| - i
  {
    if i == |line| || (mode.Plain? && IsBlank(line[i])) then ("", i)
    else if mode.Plain? && line[i] == '\\' then Word(line, i + 1, Escape)
    else if mode.Plain? && line[i] == '"' then Word(line, i + 1, Quote)
    else if mode.Quote? && line[i] == '"' then Word(line, i + 1, Plain)
    else
      var (text, end) := Word(line, i + 1, if mode.Quote? then Quote else Plain);
      ([line[i]] + text, end)
  }

  /** The words of the line from i on, up to the first that is empty. */
  function Words(line: string, i: nat): seq<string>
    requires i <= |line|
    decreases |line| - i
  {
    var (text, end) := Word(line, SkipBlanks(line, i), Plain);
    if text == "" then [] else [text] + Words(line, end)
  }

  /** A leading `!` or `$` is a word of its own. */
  function Tokens(line: string): seq<string> {
    if line != "" && (line[0] == '!' || line[0] == '$') then [[line[0]]] + Words(line, 1) else Words(line, 0)
  }

  /** An argument: a constant string, or a pointer into argbuf, or the null that ends the list. */
  datatype Arg = Null | Constant(text: string) | At(offset: nat)

  // The buffer has text and its terminator at offset.
  predicate HasString(buffer: seq<char>, offset: nat, text: string) {
    offset + |text| < |buffer| && buffer[offset..offset + |text|] == text && buffer[offset + |text|] == '\0'
  }

  predicate IsArg(buffer: seq<char>, arg: Arg, text: string) {
    match arg
    case Null => false
    case Constant(c) => c == text
    case At(offset) => HasString(buffer, offset, text)
  }

  // The size of argbuf; the command loop turns down lines that are not shorter.
  const MAXLINE: nat := 200

  // The size of margv.
  const MARGV: nat := 20

  class Scanner {
    const line: string
    var stringbase: nat
    const argbuf: array<char>
    var argbase: nat
    var slrflag: nat
    const margv: array<Arg>
    var margc: nat

    /** What is stored never runs ahead of what is scanned by more than one terminator. */
    ghost predicate Valid()
      reads this
    {
      && |line| < MAXLINE == argbuf.Length && margv.Length == MARGV && stringbase <= |line|
      && (argbase == 0 || (argbase <= stringbase + 1 && (stringbase < |line| ==> IsBlank(line[stringbase]))))
    }

    constructor (line: string)
      requires |line| < MAXLINE
      ensures Valid() && this.line == line && stringbase == 0 && argbase == 0 && slrflag == 0 && fresh(argbuf) && fresh(margv)
    {
      this.line, stringbase, argbase, slrflag, margc := line, 0, 0, 0, 0;
      argbuf := new char[MAXLINE];
      margv := new Arg[MARGV];
    }

    /** The states S1 to S3: store the word that starts at sb0 from ap0 on. */
    method StoreWord(sb0: nat, ap0: nat) returns (sb: nat, ap: nat)
      requires sb0 <= |line| < MAXLINE == argbuf.Length && (ap0 <= sb0 || (sb0 == |line| && ap0 <= MAXLINE))
      modifies argbuf
      ensures var (text, end) := Word(line, sb0, Plain);
              && sb == end && ap == ap0 + |text| <= MAXLINE && argbuf[ap0..ap] == text
              && (text != "" ==> ap < MAXLINE)
      ensures argbuf[..ap0] == old(argbuf[..ap0])
    {
      hide Word;
      sb, ap := sb0, ap0;
      ghost var word := Word(line, sb0, Plain);
      var mode := Plain;
      assert argbuf[ap0..ap0] == [];
      while true
        invariant ap0 <= ap <= ap0 + (sb - sb0) && sb <= |line|
        invariant argbuf[..ap0] == old(argbuf[..ap0])
        invariant word.0 == argbuf[ap0..ap] + Word(line, sb, mode).0 && word.1 == Word(line, sb, mode).1
        decreases |line| - sb
      {
        ghost var stored := argbuf[ap0..ap];
        WordStep(line, sb, mode, stored);
        if sb == |line| || (mode.Plain? && IsBlank(line[sb])) {
          break;
        }
        if mode.Plain? && line[sb] == '\\' {
          mode := Escape;
        } else if mode.Plain? && line[sb] == '"' {
          mode := Quote;
        } else if mode.Quote? && line[sb] == '"' {
          mode := Plain;
        } else {
          argbuf[ap] := line[sb];
          ap := ap + 1;
          assert argbuf[ap0..ap] == stored + [line[sb]];
          if mode.Escape? {
            mode := Plain;
          }
        }
        sb := sb + 1;
      }
    }

    /** slurpstring: the next word, stored behind the earlier ones; nothing at the end of the line or
        at a word that is empty. */
    method SlurpString() returns (got: bool, arg: Arg)
      requires Valid()
      modifies this`stringbase, this`argbase, this`slrflag, argbuf
      ensures Valid() && argbuf[..old(argbase)] == old(argbuf[..argbase]) && old(argbase) <= argbase && slrflag > 0
      ensures var i := old(stringbase);
              if i < |line| && (line[i] == '!' || line[i] == '$') && old(slrflag) == 0 then
                got && arg == Constant([line[i]]) && stringbase == i + 1 && argbase == old(argbase)
              else
                var w := Word(line, SkipBlanks(line, i), Plain);
                && stringbase == w.1 && (got <==> w.0 != "")
                && (got ==> arg.At? && IsArg(argbuf[..argbase], arg, w.0))
    {
      hide Word, IsArg, HasString;
      var sb := stringbase;
      if sb < |line| && (line[sb] == '!' || line[sb] == '$') {
        if slrflag == 0 {
          slrflag := slrflag + 1;
          stringbase := stringbase + 1;
          return true, Constant([line[sb]]);
        } else if slrflag == 1 {
          slrflag := slrflag + 1;
        }
      }
      while sb < |line| && IsBlank(line[sb])
        invariant stringbase <= sb <= |line| && SkipBlanks(line, sb) == SkipBlanks(line, stringbase)
      {
        sb := sb + 1;
      }
      if slrflag <= 1 {
        slrflag := slrflag + 1;
      }
      var tmp, ap := argbase, argbase;
      sb, ap := StoreWord(sb, ap);
      got := ap > tmp;
      arg := At(tmp);
      ghost var stored := argbuf[..];
      assert stored[tmp..ap] == argbuf[tmp..ap] && stored[..tmp] == argbuf[..tmp];
      if got {
        argbuf[ap] := '\0';
        StoredArg(stored, tmp, ap);
        assert argbuf[..] == stored[ap := '\0'];
        ap := ap + 1;
      }
      argbase, stringbase := ap, sb;
    }

    // slurpstring behind the first word: the next of the words that are left.
    method NextWord(ghost list: seq<Arg>, ghost taken: seq<string>) returns (got: bool, arg: Arg, ghost next: string)
      requires Valid() && slrflag > 0 && ArgsIn(argbuf[..argbase], list, taken)
      modifies this`stringbase, this`argbase, this`slrflag, argbuf
      ensures Valid() && slrflag > 0 && ArgsIn(argbuf[..argbase], list, taken)
      ensures Words(line, old(stringbase)) == if got then [next] + Words(line, stringbase) else []
      ensures got ==> IsArg(argbuf[..argbase], arg, next) && stringbase > old(stringbase)
    {
      hide Word, Words, SkipBlanks, IsArg, ArgsIn;
      WordsStep(line, stringbase);
      ghost var was, at := argbuf[..argbase], stringbase;
      got, arg := SlurpString();
      ArgsStay(was, argbuf[..argbase], list, taken);
      next := Word(line, SkipBlanks(line, at), Plain).0;
    }

    // slurpstring on a fresh line: its first word.
    method FirstWord() returns (got: bool, arg: Arg, ghost next: string)
      requires Valid() && stringbase == 0 && argbase == 0 && slrflag == 0
      modifies this`stringbase, this`argbase, this`slrflag, argbuf
      ensures Valid() && slrflag > 0 && ArgsIn(argbuf[..argbase], [], [])
      ensures Tokens(line) == if got then [next] + Words(line, stringbase) else []
      ensures got ==> IsArg(argbuf[..argbase], arg, next)
    {
      hide Word, Words, Tokens, SkipBlanks, IsArg, ArgsIn;
      TokensStart(line);
      WordsStep(line, 0);
      got, arg := SlurpString();
      NoArgs(argbuf[..argbase]);
      next := "";
      if got {
        ConstantArg(argbuf[..argbase], arg);
        next := Tokens(line)[0];
      }
    }

    // *argp++ = arg, within margv.
    method PutArg(arg: Arg)
      requires margc < margv.Length
      modifies this`margc, margv
      ensures margc == old(margc) + 1 && margv[..margc] == old(margv[..margc]) + [arg]
    {
      margv[margc] := arg;
      margc := margc + 1;
    }

    /** makeargv: all words of the line, each still in place in the buffer, and a null behind them; what
        is stored in the buffer is at most one byte longer than the line.  A store behind the end of
        margv is an overrun, and that happens exactly when the line has more than 19 words. */
    method MakeArgv() returns (overrun: bool)
      requires Valid() && stringbase == 0 && argbase == 0 && slrflag == 0
      modifies this, argbuf, margv
      ensures Valid() && argbase <= |line| + 1
      ensures overrun <==> |Tokens(line)| >= MARGV
      ensures margc == if overrun then MARGV else |Tokens(line)|
      ensures ArgsIn(argbuf[..argbase], margv[..margc], Tokens(line)[..margc])
      ensures !overrun ==> margv[margc] == Null
    {
      hide Word, Words, Tokens, SkipBlanks, IsArg, ArgsIn;
      margc := 0;
      ghost var list: seq<Arg>, taken: seq<string>, next: string := [], [], "";
      assert margv[..0] == list;
      var got: bool, arg: Arg;
      got, arg, next := FirstWord();
      assert [] + Tokens(line) == Tokens(line);
      while got
        invariant Valid() && slrflag > 0 && margc <= MARGV && list == margv[..margc]
        invariant ArgsIn(argbuf[..argbase], list, taken) && (got ==> IsArg(argbuf[..argbase], arg, next))
        invariant Tokens(line) == if got then taken + ([next] + Words(line, stringbase)) else taken
        decreases got, |line| - stringbase
      {
        ghost var rest := Words(line, stringbase);
        if margc == margv.Length {
          ArgsCount(argbuf[..argbase], list, taken, [next] + rest);
          return true;
        }
        ArgsMore(argbuf[..argbase], list, taken, arg, next);
        Regroup(taken, [next], rest);
        PutArg(arg);
        list, taken := list + [arg], taken + [next];
        got, arg, next := NextWord(list, taken);
      }
      ArgsCount(argbuf[..argbase], list, taken, []);
      if margc == margv.Length {
        return true;
      }
      margv[margc] := Null;
      assert margv[..margc] == list;
      overrun := false;
    }
  }

  lemma WordStep(line: string, i: nat, mode: Mode, stored: string)
    requires i <= |line|
    ensures var w := Word(line, i, mode);
            if i == |line| || (mode.Plain? && IsBlank(line[i])) then w == ("", i) && stored + w.0 == stored
            else if mode.Plain? && line[i] == '\\' then w == Word(line, i + 1, Escape)
            else if mode.Plain? && line[i] == '"' then w == Word(line, i + 1, Quote)
            else if mode.Quote? && line[i] == '"' then w == Word(line, i + 1, Plain)
            else
              var more := Word(line, i + 1, if mode.Quote? then Quote else Plain);
              stored + w.0 == stored + [line[i]] + more.0 && w.1 == more.1
  {
  }

  // The arguments stand for the texts.
  predicate ArgsIn(buffer: seq<char>, args: seq<Arg>, texts: seq<string>) {
    |args| == |texts| && forall k :: 0 <= k < |args| ==> IsArg(buffer, args[k], texts[k])
  }

  lemma StoredArg(buffer: seq<char>, offset: nat, end: nat)
    requires offset <= end < |buffer|
    ensures var now := buffer[end := '\0'];
            IsArg(now[..end + 1], At(offset), buffer[offset..end]) && now[..offset] == buffer[..offset]
  {
    var now := buffer[end := '\0'][..end + 1];
    assert now[offset..end] == buffer[offset..end];
  }

  lemma NoArgs(buffer: seq<char>)
    ensures forall b :: ArgsIn(b, [], [])
  {
  }

  lemma ArgsMore(buffer: seq<char>, args: seq<Arg>, texts: seq<string>, arg: Arg, text: string)
    requires ArgsIn(buffer, args, texts) && IsArg(buffer, arg, text)
    ensures ArgsIn(buffer, args + [arg], texts + [text])
  {
  }

  lemma ArgsStay(buffer: seq<char>, longer: seq<char>, args: seq<Arg>, texts: seq<string>)
    requires ArgsIn(buffer, args, texts) && buffer <= longer
    ensures ArgsIn(longer, args, texts)
  {
    forall k | 0 <= k < |args| ensures IsArg(longer, args[k], texts[k]) {
      StillThere(buffer, longer, args[k], texts[k]);
    }
  }

  lemma ArgsCount(buffer: seq<char>, args: seq<Arg>, texts: seq<string>, rest: seq<string>)
    requires ArgsIn(buffer, args, texts)
    ensures |args| == |texts| && (texts + rest)[..|args|] == texts && texts + [] == texts
  {
  }

  lemma ConstantArg(buffer: seq<char>, arg: Arg)
    ensures arg.Constant? ==> IsArg(buffer, arg, arg.text)
  {
  }

  lemma TokensStart(line: string)
    ensures if line != "" && (line[0] == '!' || line[0] == '$') then
              Tokens(line) == [[line[0]]] + Words(line, 1)
            else Tokens(line) == Words(line, 0)
  {
  }

  lemma WordsStep(line: string, i: nat)
    requires i <= |line|
    ensures var w := Word(line, SkipBlanks(line, i), Plain);
            Words(line, i) == if w.0 == "" then [] else [w.0] + Words(line, w.1)
  {
  }

  /** Later words are stored behind the earlier ones. */
  lemma StillThere(buffer: seq<char>, longer: seq<char>, arg: Arg, text: string)
    requires IsArg(buffer, arg, text) && buffer <= longer
    ensures IsArg(longer, arg, text)
  {
    if arg.At? {
      var i, j := arg.offset, arg.offset + |text|;
      assert longer[i..j] == longer[..|buffer|][i..j];
    }
  }

  // ---------------------------------------------------------------- Quoting words

  /** How a word is written: as it is, every character behind a backslash, or in double quotes. */
  datatype Style = Bare | Backslashes | Quotes

  function EscapeAll(word: string): string {
    if word == "" then "" else ['\\', word[0]] + EscapeAll(word[1..])
  }

  function Written(word: string, style: Style): string {
    match style case Bare => word case Backslashes => EscapeAll(word) case Quotes => "\"" + word + "\""
  }

  predicate NothingSpecial(word: string) {
    forall k :: 0 <= k < |word| ==> word[k] != ' ' && word[k] != '\t' && word[k] != '\\' && word[k] != '"'
  }

  // Quotes cannot hold a double quote, and an empty word cannot be written at all.
  predicate CanWrite(word: string, style: Style) {
    && word != ""
    && (style.Quotes? ==> '"' !in word)
    && (style.Bare? ==> NothingSpecial(word))
  }

  /** A line: in front of each word a gap of spaces and tabs, which may be missing before the first. */
  predicate CanWriteLine(words: seq<string>, styles: seq<Style>, gaps: seq<string>) {
    && |words| == |styles| == |gaps|
    && (forall k :: 0 <= k < |words| ==> CanWrite(words[k], styles[k]))
    && (forall k :: 0 <= k < |words| ==> IsGap(gaps[k]))
    && forall k :: 0 < k < |words| ==> gaps[k] != ""
  }

  predicate IsGap(gap: string) {
    forall k :: 0 <= k < |gap| ==> gap[k] == ' ' || gap[k] == '\t'
  }

  function WriteLine(words: seq<string>, styles: seq<Style>, gaps: seq<string>): string
    requires |words| == |styles| == |gaps|
  {
    if words == [] then "" else gaps[0] + (Written(words[0], styles[0]) + WriteLine(words[1..], styles[1..], gaps[1..]))
  }

  // From i on, line has text and then rest.
  predicate Reads(line: string, i: nat, text: string, rest: string) {
    i <= |line| && line[i..] == text + rest
  }

  lemma ReadsOne(line: string, i: nat, c: char, text: string, rest: string)
    requires Reads(line, i, [c] + text, rest)
    ensures i < |line| && line[i] == c && Reads(line, i + 1, text, rest)
  {
    assert line[i] == line[i..][0];
    assert line[i + 1..] == line[i..][1..];
    assert [c] + text + rest == [c] + (text + rest);
  }

  // The word ends before rest.
  predicate Ends(rest: string) {
    rest == "" || IsBlank(rest[0])
  }

  lemma {:induction false} ReadBackslashes(line: string, i: nat, word: string, rest: string)
    requires Reads(line, i, EscapeAll(word), rest) && Ends(rest)
    ensures Word(line, i, Plain) == (word, i + |EscapeAll(word)|)
    decreases |word|
  {
    if word == "" {
      assert i < |line| ==> line[i] == line[i..][0];
    } else {
      assert EscapeAll(word) == ['\\'] + ([word[0]] + EscapeAll(word[1..]));
      ReadsOne(line, i, '\\', [word[0]] + EscapeAll(word[1..]), rest);
      ReadsOne(line, i + 1, word[0], EscapeAll(word[1..]), rest);
      ReadBackslashes(line, i + 2, word[1..], rest);
      assert word == [word[0]] + word[1..];
      assert Word(line, i + 1, Escape) == (word, i + |EscapeAll(word)|);
    }
  }

  lemma {:induction false} ReadQuoted(line: string, i: nat, word: string, rest: string)
    requires Reads(line, i, word + "\"", rest) && '"' !in word && Ends(rest)
    ensures Word(line, i, Quote) == (word, i + |word| + 1)
    decreases |word|
  {
    if word == "" {
      assert word + "\"" == ['"'] + "";
      ReadsOne(line, i, '"', "", rest);
      assert i + 1 < |line| ==> line[i + 1] == line[i + 1..][0];
    } else {
      assert word + "\"" == [word[0]] + (word[1..] + "\"");
      ReadsOne(line, i, word[0], word[1..] + "\"", rest);
      ReadQuoted(line, i + 1, word[1..], rest);
      assert word == [word[0]] + word[1..];
    }
  }

  lemma {:induction false} ReadBare(line: string, i: nat, word: string, rest: string)
    requires Reads(line, i, word, rest) && Ends(rest) && NothingSpecial(word)
    ensures Word(line, i, Plain) == (word, i + |word|)
    decreases |word|
  {
    if word == "" {
      assert i < |line| ==> line[i] == line[i..][0];
    } else {
      assert word == [word[0]] + word[1..];
      ReadsOne(line, i, word[0], word[1..], rest);
      ReadBare(line, i + 1, word[1..], rest);
    }
  }

  lemma ReadWritten(line: string, i: nat, word: string, style: Style, rest: string)
    requires CanWrite(word, style) && Reads(line, i, Written(word, style), rest) && Ends(rest)
    ensures word != "" && i < |line| && SkipBlanks(line, i) == i && Word(line, i, Plain) == (word, i + |Written(word, style)|)
  {
    hide Word, EscapeAll, Reads, Ends;
    match style
    case Bare =>
      assert word == [word[0]] + word[1..];
      ReadsOne(line, i, word[0], word[1..], rest);
      ReadBare(line, i, word, rest);
    case Backslashes =>
      EscapeStart(word);
      ReadsOne(line, i, '\\', [word[0]] + EscapeAll(word[1..]), rest);
      ReadBackslashes(line, i, word, rest);
    case Quotes =>
      assert Written(word, style) == ['"'] + (word + "\"");
      ReadsOne(line, i, '"', word + "\"", rest);
      ReadQuoted(line, i + 1, word, rest);
      QuoteStart(line, i);
  }

  lemma EscapeStart(word: string)
    requires word != ""
    ensures EscapeAll(word) == ['\\'] + ([word[0]] + EscapeAll(word[1..]))
  {
  }

  lemma QuoteStart(line: string, i: nat)
    requires i < |line| && line[i] == '"'
    ensures Word(line, i, Plain) == Word(line, i + 1, Quote)
  {
  }

  lemma NoWord(line: string, i: nat)
    requires i <= |line| && line[i..] == ""
    ensures i == |line| && SkipBlanks(line, i) == i && Word(line, i, Plain) == ("", i)
  {
  }

  lemma {:induction false} SkipGap(line: string, i: nat, gap: string, rest: string)
    requires IsGap(gap) && Reads(line, i, gap, rest)
    ensures i + |gap| <= |line| && SkipBlanks(line, i) == SkipBlanks(line, i + |gap|) && Reads(line, i + |gap|, rest, "")
    decreases |gap|
  {
    if gap == "" {
      assert line[i..] == rest + "";
    } else {
      assert gap == [gap[0]] + gap[1..];
      ReadsOne(line, i, gap[0], gap[1..], rest);
      SkipGap(line, i + 1, gap[1..], rest);
    }
  }

  lemma {:induction false} WordsOfLine(line: string, i: nat, words: seq<string>, styles: seq<Style>, gaps: seq<string>)
    requires CanWriteLine(words, styles, gaps) && Reads(line, i, WriteLine(words, styles, gaps), "")
    ensures Words(line, i) == words
    decreases |words|
  {
    hide Word, Words, SkipBlanks, Written, Reads, WriteLine, CanWrite, IsGap, Ends;
    if words == [] {
      LineEnds(line, i);
      WordsStep(line, i);
    } else {
      var text, rest := Written(words[0], styles[0]), WriteLine(words[1..], styles[1..], gaps[1..]);
      LineStarts(line, i, words, styles, gaps);
      SkipGap(line, i, gaps[0], text + rest);
      var at := i + |gaps[0]|;
      ReadsFirst(line, at, text, rest);
      RestEnds(words[1..], styles[1..], gaps[1..]);
      ReadWritten(line, at, words[0], styles[0], rest);
      WordsStep(line, i);
      WordsOfLine(line, at + |text|, words[1..], styles[1..], gaps[1..]);
      assert words == [words[0]] + words[1..];
    }
  }

  lemma ReadsFirst(line: string, i: nat, text: string, rest: string)
    requires Reads(line, i, text + rest, "")
    ensures Reads(line, i, text, rest) && Reads(line, i + |text|, rest, "")
  {
    assert text + rest + "" == text + rest;
    assert line[i + |text|..] == line[i..][|text|..];
  }

  lemma LineStarts(line: string, i: nat, words: seq<string>, styles: seq<Style>, gaps: seq<string>)
    requires |words| == |styles| == |gaps| > 0 && Reads(line, i, WriteLine(words, styles, gaps), "")
    ensures Reads(line, i, gaps[0], Written(words[0], styles[0]) + WriteLine(words[1..], styles[1..], gaps[1..]))
  {
    hide Written;
    assert WriteLine(words, styles, gaps) + "" == WriteLine(words, styles, gaps);
  }

  // Behind a word comes the end or a gap.
  lemma RestEnds(words: seq<string>, styles: seq<Style>, gaps: seq<string>)
    requires CanWriteLine(words, styles, gaps) && forall k :: 0 <= k < |gaps| ==> gaps[k] != ""
    ensures Ends(WriteLine(words, styles, gaps))
  {
    if words != [] {
      assert WriteLine(words, styles, gaps)[0] == gaps[0][0];
    }
  }

  lemma LineEnds(line: string, i: nat)
    requires Reads(line, i, WriteLine([], [], []), "")
    ensures i == |line| && SkipBlanks(line, i) == i && Word(line, i, Plain) == ("", i)
  {
    assert line[i..] == "";
    NoWord(line, i);
  }

  // What the line starts with.
  lemma FirstChar(line: string, words: seq<string>, styles: seq<Style>, gaps: seq<string>)
    requires CanWriteLine(words, styles, gaps) && line == WriteLine(words, styles, gaps) && words != []
    ensures line != "" && (line[0] == '!' || line[0] == '$' ==> gaps[0] == "" && styles[0].Bare? && line[0] == words[0][0])
  {
    if gaps[0] != "" {
      assert line[0] == gaps[0][0];
    } else if styles[0].Backslashes? {
      EscapeStart(words[0]);
    }
  }

  /** A line of words with spaces and tabs between them splits back into exactly those words, unless
      it starts with a bare `!` or `$`. */
  lemma RoundTrip(words: seq<string>, styles: seq<Style>, gaps: seq<string>)
    requires CanWriteLine(words, styles, gaps)
    requires words != [] && gaps[0] == "" && styles[0].Bare? ==> words[0][0] != '!' && words[0][0] != '$'
    ensures Tokens(WriteLine(words, styles, gaps)) == words
  {
    hide Words, CanWrite, IsGap;
    var line := WriteLine(words, styles, gaps);
    assert line[0..] == line + "";
    WordsOfLine(line, 0, words, styles, gaps);
    if words != [] {
      FirstChar(line, words, styles, gaps);
    }
  }

  /** A `!` or `$` in front of any such line is one more word, with or without a gap behind it. */
  lemma ShellWord(c: char, words: seq<string>, styles: seq<Style>, gaps: seq<string>)
    requires (c == '!' || c == '$') && CanWriteLine(words, styles, gaps)
    ensures Tokens([c] + WriteLine(words, styles, gaps)) == [[c]] + words
  {
    var line := [c] + WriteLine(words, styles, gaps);
    assert line[1..] == WriteLine(words, styles, gaps) + "";
    WordsOfLine(line, 1, words, styles, gaps);
  }

  /** makeargv on such a line, which may have 19 words and must be shorter than the buffer. */
  method SplitWritten(words: seq<string>, styles: seq<Style>, gaps: seq<string>) returns (scanner: Scanner)
    requires CanWriteLine(words, styles, gaps) && |words| < 20 && |WriteLine(words, styles, gaps)| < 200
    requires words != [] && gaps[0] == "" && styles[0].Bare? ==> words[0][0] != '!' && words[0][0] != '$'
    ensures fresh(scanner) && scanner.Valid() && scanner.margc == |words| && scanner.margv[|words|] == Null
    ensures ArgsIn(scanner.argbuf[..scanner.argbase], scanner.margv[..|words|], words)
  {
    RoundTrip(words, styles, gaps);
    scanner := new Scanner(WriteLine(words, styles, gaps));
    var overrun := scanner.MakeArgv();
    assert words[..|words|] == words;
  }

  lemma {:induction false} LettersLength(words: seq<string>, styles: seq<Style>, gaps: seq<string>)
    requires |words| == |styles| == |gaps|
    requires forall k :: 0 <= k < |words| ==> |words[k]| == 1 && styles[k] == Bare && |gaps[k]| == 1
    ensures |WriteLine(words, styles, gaps)| == 2 * |words|
    decreases |words|
  {
    if words != [] {
      LettersLength(words[1..], styles[1..], gaps[1..]);
    }
  }

  /** Twenty letters are a line that the scanner takes and that overruns margv. */
  method TwentyWords() returns (line: string, overrun: bool)
    ensures |line| < 200 && |Tokens(line)| == 20 && overrun
  {
    var words, styles, gaps := seq(20, i => "a"), seq(20, i => Bare), seq(20, i => " ");
    LettersLength(words, styles, gaps);
    RoundTrip(words, styles, gaps);
    line := WriteLine(words, styles, gaps);
    var scanner := new Scanner(line);
    overrun := scanner.MakeArgv();
  }

  /** An empty word cannot be passed: `""` ends the list, and what follows it is lost. */
  lemma EmptyWordEndsLine(rest: string)
    ensures Tokens("\"\" " + rest) == []
  {
    var line := "\"\" " + rest;
    assert line[0] == '"' && line[1] == '"' && line[2] == ' ';
    assert Word(line, 2, Plain) == ("", 2);
    assert Word(line, 1, Quote) == ("", 2);
    assert Word(line, 0, Plain) == ("", 2);
    WordsStep(line, 0);
  }
}
