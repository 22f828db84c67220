/** The output templates of ifconfig/printif.c: the interpreter print_interfaceX with its quiet
    pass and its handlers, against the meaning of a template's syntax tree. */
module Template {

  // ---------------------------------------------------------------- Syntax trees

  /** A template.  `Raw` is echoed; `Escape` is `$$` or `$}`; `Dollar` is a `$` before any other
      character, which is printed with it; `Unclosed` is a `${` without any `}` behind it. */
  datatype Text =
    | End
    | Raw(c: char, rest: Text)
    | Escape(c: char, rest: Text)
    | Dollar(c: char, rest: Text)
    | Subst(id: string, args: Args, rest: Text)
    | Unclosed(s: string)

  datatype Args = NoArgs | Arg(text: Text, more: Args)

  function Print(t: Text): string {
    match t
    case End => ""
    case Raw(c, rest) => [c] + Print(rest)
    case Escape(c, rest) => ['$', c] + Print(rest)
    case Dollar(c, rest) => ['$', c] + Print(rest)
    case Subst(id, args, rest) => "${" + id + "}" + PrintArgs(args) + Print(rest)
    case Unclosed(s) => "${" + s
  }

  function PrintArgs(args: Args): string {
    match args
    case NoArgs => ""
    case Arg(text, more) => "{" + Print(text) + "}" + PrintArgs(more)
  }

  function Size(t: Text): nat {
    match t
    case End => 0
    case Subst(_, args, rest) => 1 + SizeArgs(args) + Size(rest)
    case Unclosed(_) => 1
    case _ => 1 + Size(t.rest)
  }

  function SizeArgs(args: Args): nat {
    match args
    case NoArgs => 0
    case Arg(text, more) => 1 + Size(text) + SizeArgs(more)
  }

  function Count(args: Args): nat {
    match args
    case NoArgs => 0
    case Arg(_, more) => 1 + Count(more)
  }

  function Nth(args: Args, i: nat): (t: Text)
    requires i < Count(args)
    ensures Size(t) < SizeArgs(args)
  {
    if i == 0 then args.text else Nth(args.more, i - 1)
  }

  // The texts that a handler receives.
  function Texts(args: Args): (r: seq<string>)
    ensures |r| == Count(args)
  {
    match args
    case NoArgs => []
    case Arg(text, more) => [Print(text)] + Texts(more)
  }

  lemma {:induction false} TextsNth(args: Args, i: nat)
    requires i < Count(args)
    ensures Texts(args)[i] == Print(Nth(args, i))
  {
    if i > 0 {
      TextsNth(args.more, i - 1);
    }
  }

  predicate Clean(s: string) {
    '\0' !in s
  }

  /** Which trees a text can stand for: inside an argument a closing brace must be escaped, and
      text directly behind a substitution must not look like one more argument. */
  predicate WF(t: Text, nested: bool, afterSubst: bool) {
    match t
    case End => true
    case Raw(c, rest) =>
      && c != '\0' && c != '$' && (nested ==> c != '}') && (afterSubst ==> c != '{')
      && WF(rest, nested, false)
    case Escape(c, rest) => (c == '$' || c == '}') && WF(rest, nested, false)
    case Dollar(c, rest) => c != '\0' && c != '$' && c != '}' && c != '{' && WF(rest, nested, false)
    case Subst(id, args, rest) => Clean(id) && '}' !in id && WFArgs(args) && WF(rest, nested, true)
    case Unclosed(s) => !nested && Clean(s) && '}' !in s
  }

  predicate WFArgs(args: Args) {
    match args
    case NoArgs => true
    case Arg(text, more) => WF(text, true, false) && WFArgs(more)
  }

  lemma {:induction false} WFNth(args: Args, i: nat)
    requires WFArgs(args) && i < Count(args)
    ensures WF(Nth(args, i), true, false)
  {
    if i > 0 {
      WFNth(args.more, i - 1);
    }
  }

  // ---------------------------------------------------------------- The environment

  /** The handlers of the model.  `Choose` stands for the queries that pick their first or second
      argument by a fact about the interface, `Value` for those that print such a fact. */
  datatype Handler =
    | Nothing | NewLine | Tabulator | Tab | Name | Docstr | Defn
    | Choose(yes: bool) | Value(text: string) | FormatQuery | Exists | Rep | Join | ForEachFormat | UseFormat

  datatype Format = Format(name: string, docstr: string, templ: string)

  // sizeof (char *)
  type Pointer = n: nat | n > 0 witness 8

  /** strtol and strtoul are parameters; strtoul also says whether the whole text was a number. */
  datatype Env = Env(handlers: map<string, Handler>, formats: seq<Format>,
                     strtol: string -> int, strtoul: string -> (nat, bool), pointer: Pointer)

  // The index of the first format of that name, or the number of formats.
  function FormatFind(formats: seq<Format>, name: string): (k: nat)
    ensures k <= |formats|
    ensures forall i :: 0 <= i < k ==> formats[i].name != name
    ensures k < |formats| ==> formats[k].name == name
  {
    if formats == [] then 0
    else if formats[0].name == name then 0
    else 1 + FormatFind(formats[1..], name)
  }

  // What fh_format uses: the first argument that names a format.
  function FirstFormat(formats: seq<Format>, texts: seq<string>): (k: nat)
    ensures k <= |formats|
  {
    if texts == [] then |formats|
    else
      var k := FormatFind(formats, texts[0]);
      if k < |formats| then k else FirstFormat(formats, texts[1..])
  }

  /** The named formats with their trees, and a rank for each that decreases along references. */
  datatype Defs = Defs(env: Env, trees: seq<Text>, ranks: seq<nat>)

  // Every format that t uses, through any handler that reaches it, has a rank below rank.
  predicate Ranked(d: Defs, t: Text, rank: nat)
    requires |d.ranks| == |d.env.formats|
  {
    match t
    case End => true
    case Unclosed(_) => true
    case Subst(id, args, rest) =>
      && RankedArgs(d, args, rank)
      && Ranked(d, rest, rank)
      && (id in d.env.handlers && d.env.handlers[id].UseFormat? ==>
            var k := FirstFormat(d.env.formats, Texts(args));
            k < |d.ranks| ==> d.ranks[k] < rank)
    case _ => Ranked(d, t.rest, rank)
  }

  predicate RankedArgs(d: Defs, args: Args, rank: nat)
    requires |d.ranks| == |d.env.formats|
  {
    match args
    case NoArgs => true
    case Arg(text, more) => Ranked(d, text, rank) && RankedArgs(d, more, rank)
  }

  lemma {:induction false} RankedNth(d: Defs, args: Args, i: nat, rank: nat)
    requires |d.ranks| == |d.env.formats| && RankedArgs(d, args, rank) && i < Count(args)
    ensures Ranked(d, Nth(args, i), rank)
  {
    if i > 0 {
      RankedNth(d, args.more, i - 1, rank);
    }
  }

  /** The formats are printed trees, and no format reaches itself. */
  predicate Acyclic(d: Defs) {
    && |d.trees| == |d.ranks| == |d.env.formats|
    && forall k :: 0 <= k < |d.trees| ==>
         && d.env.formats[k].templ == Print(d.trees[k])
         && WF(d.trees[k], true, false)
         && Ranked(d, d.trees[k], d.ranks[k])
  }

  // ---------------------------------------------------------------- The meaning of a tree

  const TAB_STOP: nat := 8

  /** What a template can observe and change.  After an exit nothing is written any more.  A vector
      of arguments that is overrun ends the run as well: what the program does then is undefined. */
  datatype State = State(out: string, column: nat, hadOutput: bool, name: string, exited: bool, overran: bool)

  // How many bytes are allocated for the pointers to the arguments: half of what is behind the
  // identifier, its closing brace included.
  function Room(args: Args, rest: Text): nat {
    (1 + |PrintArgs(args)| + |Print(rest)|) / 2
  }

  /** The pointers do not fit into what is allocated for them. */
  predicate Overruns(env: Env, args: Args, rest: Text) {
    env.pointer * Count(args) > Room(args, rest)
  }

  function Overrun(st: State): State {
    if st.exited then st else st.(exited := true, overran := true)
  }

  /** No substitution of the tree, in its arguments included, overruns its vector. */
  predicate Roomy(env: Env, t: Text) {
    match t
    case End => true
    case Unclosed(_) => true
    case Subst(_, args, rest) => !Overruns(env, args, rest) && RoomyArgs(env, args) && Roomy(env, rest)
    case _ => Roomy(env, t.rest)
  }

  predicate RoomyArgs(env: Env, args: Args) {
    match args
    case NoArgs => true
    case Arg(text, more) => Roomy(env, text) && RoomyArgs(env, more)
  }

  // Nor does any of the named formats.
  predicate RoomyDefs(d: Defs) {
    forall k :: 0 <= k < |d.trees| ==> Roomy(d.env, d.trees[k])
  }

  function ColumnAfter(column: nat, c: char): nat {
    if c == '\n' then 0 else if c == '\t' then (column / TAB_STOP + 1) * TAB_STOP else column + 1
  }

  function Put(st: State, c: char): State {
    if st.exited then st else st.(out := st.out + [c], column := ColumnAfter(st.column, c), hadOutput := true)
  }

  function PutAll(st: State, s: string): State
    decreases |s|
  {
    if s == "" then st else PutAll(Put(st, s[0]), s[1..])
  }

  function Spaces(n: nat): string {
    seq(n, i => ' ')
  }

  function TabGoal(env: Env, texts: seq<string>, column: nat): int {
    var asked := if texts == [] then 0 else env.strtol(texts[0]);
    if asked <= 0 then (column / TAB_STOP + 1) * TAB_STOP else asked
  }

  function Denote(d: Defs, t: Text, st: State, rank: nat): State
    requires Acyclic(d) && Ranked(d, t, rank)
    decreases rank, Size(t), 0
  {
    match t
    case End => st
    case Raw(c, rest) => Denote(d, rest, Put(st, c), rank)
    case Escape(c, rest) => Denote(d, rest, Put(st, c), rank)
    case Dollar(c, rest) => Denote(d, rest, Put(Put(st, '$'), c), rank)
    case Subst(id, args, rest) =>
      Denote(d, rest, if Overruns(d.env, args, rest) then Overrun(st) else Apply(d, id, args, st, rank), rank)
    case Unclosed(s) => PutAll(st, "${" + s)
  }

  predicate Applicable(d: Defs, id: string, args: Args, rank: nat)
    requires |d.ranks| == |d.env.formats|
  {
    && RankedArgs(d, args, rank)
    && (id in d.env.handlers && d.env.handlers[id].UseFormat? ==>
          var k := FirstFormat(d.env.formats, Texts(args));
          k < |d.ranks| ==> d.ranks[k] < rank)
  }

  /** The meaning of a substitution. */
  function Apply(d: Defs, id: string, args: Args, st: State, rank: nat): State
    requires Acyclic(d) && Applicable(d, id, args, rank)
    decreases rank, SizeArgs(args), |d.env.formats| + Count(args) + 2
  {
    var texts := Texts(args);
    if id !in d.env.handlers then PutAll(st, "(" + id + " unknown)")
    else
      match d.env.handlers[id]
      case Nothing => st
      case NewLine => Put(st, '\n')
      case Tabulator => Put(st, '\t')
      case Tab =>
        var goal := TabGoal(d.env, texts, st.column);
        if st.column < goal then PutAll(st, Spaces(goal - st.column)) else st
      case Name => PutAll(st, st.name)
      case Docstr =>
        var k := FormatFind(d.env.formats, if texts == [] then st.name else texts[0]);
        if k < |d.env.formats| then PutAll(st, d.env.formats[k].docstr) else st.(exited := true)
      case Defn =>
        var k := FormatFind(d.env.formats, if texts == [] then st.name else texts[0]);
        if k < |d.env.formats| then PutAll(st, d.env.formats[k].templ) else st.(exited := true)
      case Choose(yes) => Select(d, args, if yes then 0 else 1, st, rank)
      case Value(text) => PutAll(st, text)
      case FormatQuery =>
        if texts == [] then st
        else Select(d, args, if FormatFind(d.env.formats, texts[0]) < |d.env.formats| then 1 else 2, st, rank)
      case Exists =>
        if texts == [] then st else Select(d, args, if texts[0] in d.env.handlers then 1 else 2, st, rank)
      case Rep =>
        if |texts| < 2 then st
        else
          var (count, clean) := d.env.strtoul(texts[0]);
          if !clean then st.(exited := true)
          else RankedNth(d, args, 1, rank); Repeat(d, Nth(args, 1), count % 0x1_0000_0000, st, rank)
      case Join =>
        if |texts| < 2 then st
        else JoinFrom(d, args, 1, st.(hadOutput := false), st.hadOutput, rank)
      case ForEachFormat =>
        if texts == [] then st
        else RankedNth(d, args, 0, rank); Each(d, Nth(args, 0), 0, st, rank).(name := st.name)
      case UseFormat =>
        var k := FirstFormat(d.env.formats, texts);
        if k < |d.trees| then Denote(d, d.trees[k], st, d.ranks[k]) else st
  }

  /** One argument is interpreted, the others are dropped; a missing one is empty. */
  function Select(d: Defs, args: Args, i: nat, st: State, rank: nat): State
    requires Acyclic(d) && RankedArgs(d, args, rank)
    decreases rank, SizeArgs(args), 0
  {
    if i < Count(args) then RankedNth(d, args, i, rank); Denote(d, Nth(args, i), st, rank) else st
  }

  function Repeat(d: Defs, t: Text, n: nat, st: State, rank: nat): State
    requires Acyclic(d) && Ranked(d, t, rank)
    decreases rank, Size(t), n + 1
  {
    if n == 0 then st else Repeat(d, t, n - 1, Denote(d, t, st, rank), rank)
  }

  /** The arguments from i on, the delimiter before one whenever an earlier one wrote something
      since the last delimiter; `saved` is what the whole reports as written. */
  function JoinFrom(d: Defs, args: Args, i: nat, st: State, saved: bool, rank: nat): State
    requires Acyclic(d) && RankedArgs(d, args, rank) && 0 < i <= Count(args)
    decreases rank, SizeArgs(args), Count(args) - i
  {
    if i == Count(args) then st.(hadOutput := saved)
    else
      var delimited := if st.hadOutput then PutAll(st, Texts(args)[0]).(hadOutput := false) else st;
      RankedNth(d, args, i, rank);
      JoinFrom(d, args, i + 1, Denote(d, Nth(args, i), delimited, rank), saved || st.hadOutput, rank)
  }

  /** t once for every format from k on, under that format's name. */
  function Each(d: Defs, t: Text, k: nat, st: State, rank: nat): State
    requires Acyclic(d) && Ranked(d, t, rank) && k <= |d.env.formats|
    decreases rank, Size(t), |d.env.formats| - k + 1
  {
    if k == |d.env.formats| then st
    else Each(d, t, k + 1, Denote(d, t, st.(name := d.env.formats[k].name), rank), rank)
  }

  // ---------------------------------------------------------------- Reading a printed tree

  function At(s: string, i: nat): char {
    if i < |s| then s[i] else '\0'
  }

  // From p on, text has t and then tail.
  predicate Reads(text: string, p: nat, t: string, tail: string) {
    p <= |text| && text[p..] == t + tail
  }

  lemma ReadsMore(text: string, p: nat, a: string, b: string, tail: string)
    requires Reads(text, p, a + b, tail)
    ensures Reads(text, p, a, b + tail) && Reads(text, p + |a|, b, tail)
    ensures p + |a| <= |text| && text[p..p + |a|] == a
    ensures forall i :: 0 <= i < |a| ==> At(text, p + i) == a[i]
  {
    assert text[p..p + |a|] == text[p..][..|a|];
    assert (a + b) + tail == a + (b + tail);
    assert text[p + |a|..] == text[p..][|a|..];
    forall i | 0 <= i < |a| ensures At(text, p + i) == a[i] {
      assert text[p + i] == text[p..][i];
    }
  }

  lemma ReadsEnd(text: string, p: nat, tail: string)
    requires Reads(text, p, "", tail)
    ensures At(text, p) == At(tail, 0)
  {
    if tail != "" {
      assert text[p] == text[p..][0];
    }
  }

  // The tree that is left is at p, where the interpreter stands.
  predicate Here(text: string, p: nat, t: Text, tail: string, nested: bool, afterSubst: bool) {
    Reads(text, p, Print(t), tail) && WF(t, nested, afterSubst) && (tail == "" || (nested && tail[0] == '}'))
  }

  /** What stands at p for each kind of tree. */
  lemma HereStep(text: string, p: nat, t: Text, tail: string, nested: bool, afterSubst: bool)
    requires Here(text, p, t, tail, nested, afterSubst)
    ensures match t
            case End => (p == |text| && At(text, p) == '\0') || (nested && At(text, p) == '}')
            case Raw(c, rest) =>
              p < |text| && text[p] == c && c !in {'$', '\0'} && (nested ==> c != '}') && Here(text, p + 1, rest, tail, nested, false)
            case Escape(c, rest) =>
              && p + 1 < |text| && text[p] == '$' && text[p + 1] == c && c in {'$', '}'}
              && Here(text, p + 2, rest, tail, nested, false)
            case Dollar(c, rest) =>
              && p + 1 < |text| && text[p] == '$' && text[p + 1] == c && c !in {'$', '}', '{'}
              && Here(text, p + 2, rest, tail, nested, false)
            case Subst(_, _, _) => p + 1 < |text| && text[p] == '$' && text[p + 1] == '{'
            case Unclosed(_) =>
              p + 1 < |text| && text[p] == '$' && text[p + 1] == '{' && '}' !in text[p + 2..]
  {
    match t
    case End => ReadsEnd(text, p, tail);
    case Raw(c, rest) =>
      ReadsMore(text, p, [c], Print(rest), tail);
      assert At(text, p + 0) == c;
    case Escape(c, rest) =>
      ReadsMore(text, p, ['$', c], Print(rest), tail);
      assert At(text, p + 0) == '$' && At(text, p + 1) == c;
    case Dollar(c, rest) =>
      ReadsMore(text, p, ['$', c], Print(rest), tail);
      assert At(text, p + 0) == '$' && At(text, p + 1) == c;
    case Subst(id, args, rest) =>
      assert Print(t) == "${" + (id + "}" + PrintArgs(args) + Print(rest));
      ReadsMore(text, p, "${", id + "}" + PrintArgs(args) + Print(rest), tail);
      assert At(text, p + 0) == '$' && At(text, p + 1) == '{';
    case Unclosed(s) =>
      ReadsMore(text, p, "${", s, tail);
      assert At(text, p + 0) == '$' && At(text, p + 1) == '{';
      assert text[p..] == "${" + s;
      assert text[p + 2..] == s;
  }

  // The arguments that are left are at p, and the text behind the substitution follows.
  predicate ArgsHere(text: string, p: nat, args: Args, rest: Text, tail: string, nested: bool) {
    && Reads(text, p, PrintArgs(args) + Print(rest), tail)
    && WFArgs(args) && WF(rest, nested, true) && (tail == "" || (nested && tail[0] == '}'))
  }

  lemma SubstStep(text: string, p: nat, t: Text, tail: string, nested: bool, afterSubst: bool)
    requires t.Subst? && Here(text, p, t, tail, nested, afterSubst)
    ensures var q := p + 2 + |t.id|;
            && q < |text| && text[q] == '}' && text[p + 2..q] == t.id && '}' !in t.id && WFArgs(t.args)
            && ArgsHere(text, q + 1, t.args, t.rest, tail, nested)
  {
    hide Reads;
    var after := PrintArgs(t.args) + Print(t.rest);
    var q := p + 2 + |t.id|;
    assert Print(t) == "${" + (t.id + ("}" + after));
    ReadsMore(text, p, "${", t.id + ("}" + after), tail);
    ReadsMore(text, p + 2, t.id, "}" + after, tail);
    ReadsMore(text, q, "}", after, tail);
    assert At(text, q + 0) == '}';
  }

  lemma ReadsArg(text: string, p: nat, arg: string, after: string, tail: string)
    requires Reads(text, p, "{" + (arg + ("}" + after)), tail)
    ensures var q := p + 1 + |arg|;
            && q < |text| && text[p] == '{' && text[q] == '}' && text[p + 1..q] == arg
            && Reads(text, p + 1, arg, ("}" + after) + tail) && Reads(text, q + 1, after, tail)
  {
    hide Reads;
    ReadsMore(text, p, "{", arg + ("}" + after), tail);
    assert At(text, p + 0) == '{';
    ReadsMore(text, p + 1, arg, "}" + after, tail);
    ReadsMore(text, p + 1 + |arg|, "}", after, tail);
    assert At(text, p + 1 + |arg| + 0) == '}';
  }

  // What stands behind an argument: its closing brace, the other arguments and the rest.
  function Behind(more: Args, rest: Text, tail: string): string {
    ("}" + (PrintArgs(more) + Print(rest))) + tail
  }

  lemma ArgsStep(text: string, p: nat, args: Args, rest: Text, tail: string, nested: bool)
    requires ArgsHere(text, p, args, rest, tail, nested)
    ensures match args
            case NoArgs => At(text, p) != '{' && Here(text, p, rest, tail, nested, true)
            case Arg(arg, more) =>
              var q := p + 1 + |Print(arg)|;
              && q < |text| && text[p] == '{' && text[q] == '}' && text[p + 1..q] == Print(arg)
              && Here(text, p + 1, arg, Behind(more, rest, tail), true, false)
              && ArgsHere(text, q + 1, more, rest, tail, nested)
  {
    hide Reads, Print, WF;
    match args
    case NoArgs =>
      assert PrintArgs(args) + Print(rest) == Print(rest);
      NoMoreArgs(text, p, rest, tail, nested);
    case Arg(arg, more) =>
      var after := PrintArgs(more) + Print(rest);
      assert PrintArgs(args) + Print(rest) == "{" + (Print(arg) + ("}" + after));
      ReadsArg(text, p, Print(arg), after, tail);
  }

  lemma NoMoreArgs(text: string, p: nat, rest: Text, tail: string, nested: bool)
    requires Here(text, p, rest, tail, nested, true)
    ensures At(text, p) != '{'
  {
    HereStep(text, p, rest, tail, nested, true);
  }

  // ---------------------------------------------------------------- The interpreter

  class Form {
    // form->format is a pointer: a text and an index into it
    var text: string
    var format: nat
    var depth: nat
    var name: string
    // the globals column, had_output and ostream
    var column: nat
    var hadOutput: bool
    var out: string
    var exited: bool
    // a vector of arguments was too short
    var overran: bool

    // print_interface starts at the top level; column and had_output are as the last one left them.
    constructor (format: string, name: string, column: nat, hadOutput: bool)
      ensures text == format && this.format == 0 && depth == 0
      ensures Now() == State("", column, hadOutput, name, false, false)
    {
      text, this.format, depth := format, 0, 0;
      this.name, this.column, this.hadOutput, out, exited, overran := name, column, hadOutput, "", false, false;
    }

    ghost function Now(): State
      reads this
    {
      State(out, column, hadOutput, name, exited, overran)
    }

    method PutChar(c: char)
      modifies this`column, this`hadOutput, this`out
      ensures Now() == Put(old(Now()), c)
    {
      if exited {
        return;
      }
      match c {
        case '\n' => column := 0;
        case '\t' => column := (column / TAB_STOP + 1) * TAB_STOP;
        case _ => column := column + 1;
      }
      out := out + [c];
      hadOutput := true;
    }

    method PutString(s: string)
      modifies this`column, this`hadOutput, this`out
      ensures Now() == PutAll(old(Now()), s)
    {
      var i := 0;
      while i < |s|
        invariant i <= |s| && PutAll(Now(), s[i..]) == PutAll(old(Now()), s)
      {
        assert s[i..][1..] == s[i + 1..];
        PutChar(s[i]);
        i := i + 1;
      }
    }

    // The idiom `quiet || (put_char (form, c), 0)`.
    method Emit(quiet: bool, c: char)
      modifies this`column, this`hadOutput, this`out
      ensures Now() == Emitted(quiet, old(Now()), c)
    {
      if !quiet {
        PutChar(c);
      }
    }

    /** print_interfaceX: interpret what format points to, down to the end of the text or, below the
        top level, to the first closing brace; a quiet pass only moves format there. */
    method PrintInterfaceX(d: Defs, quiet: bool, ghost t: Text, ghost tail: string, ghost rank: nat)
      requires Acyclic(d) && Ranked(d, t, rank)
      requires Here(text, format, t, tail, depth > 0, false) && (if quiet then depth > 0 else tail == "")
      modifies this
      ensures depth == old(depth) && text == old(text) && format == old(format) + |Print(t)|
      ensures Now() == if quiet then old(Now()) else Denote(d, t, old(Now()), rank)
      decreases rank, Size(t), 0
    {
      hide Here, Ranked, RankedArgs, Denote, Print, PrintArgs, Going, Emitted, Acyclic, Size, SizeArgs, PutAll, WF, WFArgs, Apply, ColumnAfter;
      ghost var nested := depth > 0;
      var buf, p: nat := text, format;
      depth := depth + 1;
      ghost var rem, after := t, false;
      ghost var goal := Start(d, buf, p, t, tail, nested, quiet, Now(), rank);
      while !(At(buf, p) == '\0' || (depth > 1 && At(buf, p) == '}'))
        invariant Going(d, buf, p, rem, tail, nested, after, quiet, Now(), goal, rank)
        invariant Size(rem) <= Size(t) && depth == old(depth) + 1
        decreases Size(rem)
      {
        ghost var size := Size(rem);
        while !(At(buf, p) == '$' || At(buf, p) == '\0' || (depth > 1 && At(buf, p) == '}'))
          invariant Going(d, buf, p, rem, tail, nested, after, quiet, Now(), goal, rank)
          invariant Size(rem) <= size && depth == old(depth) + 1
          decreases Size(rem)
        {
          Step(d, buf, p, rem, tail, nested, after, quiet, Now(), goal, rank);
          Emit(quiet, At(buf, p));
          p := p + 1;
          rem, after := rem.rest, false;
        }
        if At(buf, p) != '$' {
          break;
        }
        Step(d, buf, p, rem, tail, nested, after, quiet, Now(), goal, rank);
        p := p + 1;
        var c := At(buf, p);
        if c != '{' {
          if c != '$' && c != '}' {
            Emit(quiet, '$');
          }
          Emit(quiet, c);
          p := p + 1;
          rem, after := rem.rest, false;
          continue;
        }
        p := p + 1;
        var q := StrChr(buf, p);
        if q == |buf| {
          UnclosedStep(d, buf, p - 2, rem, tail, nested, after, quiet, Now(), goal, rank);
          p := p - 2;
          PutString(buf[p..]);
          p := |buf|;
          rem, after := End, false;
          continue;
        }
        BraceFound(d, buf, p - 2, rem, tail, nested, after, quiet, Now(), goal, q, rank);
        p := Substitute(d, quiet, buf, p, q, rem, tail, nested, after, goal, rank);
        rem, after := rem.rest, true;
      }
      Finish(d, buf, old(format), t, p, rem, tail, nested, after, quiet, Now(), goal, rank);
      text, format := buf, p;
      depth := depth - 1;
    }

    /** A substitution whose identifier is buf[p..q]; the result is the index behind it. */
    method Substitute(d: Defs, quiet: bool, buf: string, p: nat, q: nat, ghost t: Text, ghost tail: string,
                      ghost nested: bool, ghost after: bool, ghost goal: State, ghost rank: nat)
      returns (next: nat)
      requires Acyclic(d) && t.Subst? && depth > 0 && p >= 2
      requires Going(d, buf, p - 2, t, tail, nested, after, quiet, Now(), goal, rank)
      requires p <= q < |buf| && buf[q] == '}' && '}' !in buf[p..q]
      modifies this
      ensures depth == old(depth) && Going(d, buf, next, t.rest, tail, nested, true, quiet, Now(), goal, rank)
      decreases rank, SizeArgs(t.args), 2
    {
      hide Here, Ranked, RankedArgs, Denote, Apply, Applicable, ArgsHere, Texts, Going, Acyclic, Room, WFArgs;
      ghost var st := Now();
      SubstBegins(d, buf, p, q, t, tail, nested, after, quiet, st, goal, rank);
      var id := buf[p..q];
      text, format := buf, q + 1;
      if quiet {
        SkipArgs(d, t.args, t.rest, tail, nested, rank);
        next := format;
      } else {
        var argv, argc, overrun;
        argv, argc, next, overrun := TakeArgs(d, (|buf| - q) / 2, t.args, t.rest, tail, nested, rank);
        if !overrun {
          FormatHandler(d, id, argv[..argc], t.args, rank);
        } else if !exited {
          exited, overran := true, true;
        }
      }
      SubstEnds(d, buf, p - 2, t, tail, nested, after, quiet, st, goal, rank, next);
    }

    /** The arguments of a substitution in a quiet pass. */
    method SkipArgs(d: Defs, ghost args: Args, ghost rest: Text, ghost tail: string, ghost nested: bool, ghost rank: nat)
      requires Acyclic(d) && RankedArgs(d, args, rank)
      requires ArgsHere(text, format, args, rest, tail, nested) && depth > 0
      modifies this
      ensures depth == old(depth) && text == old(text) && Now() == old(Now())
      ensures Here(text, format, rest, tail, nested, true)
      decreases rank, SizeArgs(args), 1
    {
      hide Here, Ranked, ArgsHere, Print;
      ghost var rem := args;
      while At(text, format) == '{'
        invariant ArgsHere(text, format, rem, rest, tail, nested) && RankedArgs(d, rem, rank)
        invariant SizeArgs(rem) <= SizeArgs(args) && depth == old(depth) && text == old(text) && Now() == old(Now())
        decreases SizeArgs(rem)
      {
        ArgsStep(text, format, rem, rest, tail, nested);
        format := format + 1;
        PrintInterfaceX(d, true, rem.text, Behind(rem.more, rest, tail), rank);
        if At(text, format) == '}' {
          format := format + 1;
        }
        rem := rem.more;
      }
      ArgsStep(text, format, rem, rest, tail, nested);
    }

    /** The arguments of a substitution, copied one by one; p is behind them.  The vector has room for
        as many pointers as fit into `room` bytes, and more than those are an overrun. */
    method TakeArgs(d: Defs, room: nat, ghost args: Args, ghost rest: Text, ghost tail: string, ghost nested: bool, ghost rank: nat)
      returns (argv: array<string>, argc: nat, p: nat, overrun: bool)
      requires Acyclic(d) && RankedArgs(d, args, rank)
      requires ArgsHere(text, format, args, rest, tail, nested) && depth > 0
      modifies this
      ensures depth == old(depth) && text == old(text) && Now() == old(Now())
      ensures overrun <==> d.env.pointer * Count(args) > room
      ensures argc == Count(args) && Here(text, p, rest, tail, nested, true)
      ensures !overrun ==> argc <= argv.Length && argv[..argc] == Texts(args)
      decreases rank, SizeArgs(args), 1
    {
      hide Here, Ranked, Acyclic, ArgsHere, Print, Behind, Denote, Texts, Taken, WF, WFArgs;
      SameLength(d);
      Slots(d.env.pointer, Count(args), room);
      argv := new string[room / d.env.pointer](i => "");
      argc, p, overrun := 0, format, false;
      ghost var rem := args;
      TakeNone(args);
      assert argv[..0] == [];
      while At(text, p) == '{'
        invariant ArgsHere(text, p, rem, rest, tail, nested) && RankedArgs(d, rem, rank)
        invariant SizeArgs(rem) <= SizeArgs(args) && depth == old(depth) && text == old(text) && Now() == old(Now())
        invariant fresh(argv) && argv.Length == room / d.env.pointer
        invariant argc + Count(rem) == Count(args) && (overrun <==> argc > argv.Length)
        invariant !overrun ==> Taken(argv[..argc], rem, args)
        decreases SizeArgs(rem)
      {
        ArgsStep(text, p, rem, rest, tail, nested);
        p := p + 1;
        format := p;
        ghost var stored := if overrun then [] else argv[..argc];
        PrintInterfaceX(d, true, rem.text, Behind(rem.more, rest, tail), rank);
        var q := format;
        if argc < argv.Length {
          TakeOne(stored, rem, args);
          argv[argc] := text[p..q];
          assert argv[..argc + 1] == stored + [text[p..q]];
        } else {
          overrun := true;
        }
        if At(text, q) == '}' {
          q := q + 1;
        }
        p := q;
        argc := argc + 1;
        rem := rem.more;
      }
      ArgsStep(text, p, rem, rest, tail, nested);
      if !overrun {
        TakeAll(argv[..argc], args);
      }
    }

    /** format_handler: what a handler prints is the meaning of the substitution; the handler may
        leave format anywhere. */
    method FormatHandler(d: Defs, id: string, argv: seq<string>, ghost args: Args, ghost rank: nat)
      requires Acyclic(d) && Applicable(d, id, args, rank) && WFArgs(args)
      requires argv == Texts(args) && depth > 0
      modifies this
      ensures depth == old(depth) && Now() == Apply(d, id, args, old(Now()), rank)
      decreases rank, SizeArgs(args), 1
    {
      hide Denote, RankedArgs, WF, WFArgs, Select, Repeat, Each, JoinFrom, Acyclic, PutAll;
      var env := d.env;
      if id !in env.handlers {
        PutString("(" + id + " unknown)");
        return;
      }
      match env.handlers[id] {
        case Nothing =>
        case NewLine => PutChar('\n');
        case Tabulator => PutChar('\t');
        case Tab => FhTab(d, argv);
        case Name => PutString(name);
        case Docstr =>
          var k := FormatFind(env.formats, if |argv| == 0 then name else argv[0]);
          if k == |env.formats| {
            exited := true;
          } else {
            PutString(env.formats[k].docstr);
          }
        case Defn =>
          var k := FormatFind(env.formats, if |argv| == 0 then name else argv[0]);
          if k == |env.formats| {
            exited := true;
          } else {
            PutString(env.formats[k].templ);
          }
        case Choose(yes) => SelectArg(d, argv, if yes then 0 else 1, args, rank);
        case Value(value) => PutString(value);
        case FormatQuery =>
          if |argv| >= 1 {
            SelectArg(d, argv, if FormatFind(env.formats, argv[0]) < |env.formats| then 1 else 2, args, rank);
          }
        case Exists =>
          if |argv| > 0 {
            SelectArg(d, argv, if argv[0] in env.handlers then 1 else 2, args, rank);
          }
        case Rep => FhRep(d, argv, args, rank);
        case Join => FhJoin(d, argv, args, rank);
        case ForEachFormat => FhForEachFormat(d, argv, args, rank);
        case UseFormat => FhFormat(d, argv, args, rank);
      }
    }

    method FhTab(d: Defs, argv: seq<string>)
      modifies this`column, this`hadOutput, this`out
      ensures var goal := TabGoal(d.env, argv, old(column));
              Now() == if old(column) < goal then PutAll(old(Now()), Spaces(goal - old(column))) else old(Now())
    {
      var goal := 0;
      if |argv| >= 1 {
        goal := d.env.strtol(argv[0]);
      }
      if goal <= 0 {
        goal := (column / TAB_STOP + 1) * TAB_STOP;
      }
      if exited {
        PutAllExited(Now(), if column < goal then Spaces(goal - column) else "");
        return;
      }
      ghost var n := if column < goal then goal - column else 0;
      ghost var i := n;
      while column < goal
        invariant !exited && i == (if column < goal then goal - column else 0)
        invariant PutAll(Now(), Spaces(i)) == PutAll(old(Now()), Spaces(n))
        decreases goal - column
      {
        assert Spaces(i)[0] == ' ' && Spaces(i)[1..] == Spaces(i - 1);
        PutChar(' ');
        i := i - 1;
      }
      assert Spaces(0) == "";
    }

    /** select_arg: interpret one argument, if it is there. */
    method SelectArg(d: Defs, argv: seq<string>, nr: nat, ghost args: Args, ghost rank: nat)
      requires Acyclic(d) && RankedArgs(d, args, rank) && WFArgs(args)
      requires argv == Texts(args) && depth > 0
      modifies this
      ensures depth == old(depth) && Now() == Select(d, args, nr, old(Now()), rank)
      decreases rank, SizeArgs(args), 0
    {
      hide Denote, Ranked, Here;
      if nr < |argv| {
        ArgHere(d, args, nr, rank);
        text, format := argv[nr], 0;
        PrintInterfaceX(d, false, Nth(args, nr), "", rank);
      }
    }

    method FhRep(d: Defs, argv: seq<string>, ghost args: Args, ghost rank: nat)
      requires Acyclic(d) && RankedArgs(d, args, rank) && WFArgs(args)
      requires argv == Texts(args) && depth > 0
      modifies this
      ensures depth == old(depth)
      ensures Now() ==
              if |argv| < 2 then old(Now())
              else if !d.env.strtoul(argv[0]).1 then old(Now()).(exited := true)
              else
                (RankedNth(d, args, 1, rank);
                 Repeat(d, Nth(args, 1), d.env.strtoul(argv[0]).0 % 0x1_0000_0000, old(Now()), rank))
      decreases rank, SizeArgs(args), 0
    {
      hide Denote, Ranked, Here;
      if |argv| < 2 {
        return;
      }
      var (value, clean) := d.env.strtoul(argv[0]);
      var count: nat := value % 0x1_0000_0000;
      if !clean {
        exited := true;
        return;
      }
      ArgHere(d, args, 1, rank);
      ghost var t := Nth(args, 1);
      ghost var goal := Repeat(d, t, count, Now(), rank);
      while count > 0
        invariant depth == old(depth) && Repeat(d, t, count, Now(), rank) == goal
      {
        count := count - 1;
        text, format := argv[1], 0;
        PrintInterfaceX(d, false, t, "", rank);
      }
    }

    method FhJoin(d: Defs, argv: seq<string>, ghost args: Args, ghost rank: nat)
      requires Acyclic(d) && RankedArgs(d, args, rank) && WFArgs(args)
      requires argv == Texts(args) && depth > 0
      modifies this
      ensures depth == old(depth)
      ensures Now() ==
              if |argv| < 2 then old(Now())
              else JoinFrom(d, args, 1, old(Now()).(hadOutput := false), old(hadOutput), rank)
      decreases rank, SizeArgs(args), 0
    {
      hide Denote, Ranked, Here, PutAll;
      if |argv| < 2 {
        return;
      }
      var saved := hadOutput;
      hadOutput := false;
      ghost var goal := JoinFrom(d, args, 1, Now(), saved, rank);
      var count := 1;
      while count < |argv|
        invariant 1 <= count <= |argv| && depth == old(depth)
        invariant JoinFrom(d, args, count, Now(), saved, rank) == goal
      {
        if hadOutput {
          PutString(argv[0]);
          hadOutput := false;
          saved := true;
        }
        ArgHere(d, args, count, rank);
        text, format := argv[count], 0;
        PrintInterfaceX(d, false, Nth(args, count), "", rank);
        count := count + 1;
      }
      hadOutput := saved;
    }

    method FhForEachFormat(d: Defs, argv: seq<string>, ghost args: Args, ghost rank: nat)
      requires Acyclic(d) && RankedArgs(d, args, rank) && WFArgs(args)
      requires argv == Texts(args) && depth > 0
      modifies this
      ensures depth == old(depth)
      ensures Now() ==
              if argv == [] then old(Now())
              else
                (RankedNth(d, args, 0, rank);
                 Each(d, Nth(args, 0), 0, old(Now()), rank).(name := old(name)))
      decreases rank, SizeArgs(args), 0
    {
      hide Denote, Ranked, Here;
      if |argv| == 0 {
        return;
      }
      var saveName := name;
      ArgHere(d, args, 0, rank);
      ghost var t := Nth(args, 0);
      ghost var goal := Each(d, t, 0, Now(), rank);
      var k := 0;
      while k < |d.env.formats|
        invariant k <= |d.env.formats| && depth == old(depth) && Each(d, t, k, Now(), rank) == goal
      {
        name := d.env.formats[k].name;
        text, format := argv[0], 0;
        PrintInterfaceX(d, false, t, "", rank);
        k := k + 1;
      }
      name := saveName;
    }

    method FhFormat(d: Defs, argv: seq<string>, ghost args: Args, ghost rank: nat)
      requires Acyclic(d) && argv == Texts(args) && depth > 0
      requires var k := FirstFormat(d.env.formats, argv); k < |d.ranks| ==> d.ranks[k] < rank
      modifies this
      ensures depth == old(depth)
      ensures var k := FirstFormat(d.env.formats, argv);
              Now() == if k < |d.trees| then Denote(d, d.trees[k], old(Now()), d.ranks[k]) else old(Now())
      decreases rank, SizeArgs(args), 0
    {
      hide Denote, Ranked, Here;
      var i := 0;
      while i < |argv|
        invariant i <= |argv| && depth == old(depth) && Now() == old(Now())
        invariant FirstFormat(d.env.formats, argv) == FirstFormat(d.env.formats, argv[i..])
      {
        assert argv[i..][1..] == argv[i + 1..];
        var k := FormatFind(d.env.formats, argv[i]);
        if k < |d.env.formats| {
          text, format := d.env.formats[k].templ, 0;
          TemplateHere(d, k);
          PrintInterfaceX(d, false, d.trees[k], "", d.ranks[k]);
          return;
        }
        i := i + 1;
      }
    }
  }

  // argv holds the texts of args in front of rem.
  ghost predicate Taken(argv: seq<string>, rem: Args, args: Args) {
    argv + Texts(rem) == Texts(args)
  }

  lemma Slots(pointer: Pointer, n: nat, room: nat)
    ensures n <= room / pointer <==> pointer * n <= room
  {
    var slots := room / pointer;
    if n <= slots {
      assert pointer * n <= pointer * slots;
    } else {
      assert pointer * n >= pointer * (slots + 1);
    }
  }

  // What is behind an identifier at the end of the text, and so the room for its arguments.
  lemma RoomBehind(text: string, q: nat, args: Args, rest: Text, tail: string, nested: bool)
    requires q < |text| && ArgsHere(text, q + 1, args, rest, tail, nested) && tail == ""
    ensures (|text| - q) / 2 == Room(args, rest)
  {
    assert |text[q + 1..]| == |PrintArgs(args) + Print(rest)|;
  }

  lemma TakeNone(args: Args)
    ensures Taken([], args, args)
  {
  }

  lemma TakeOne(argv: seq<string>, rem: Args, args: Args)
    requires Taken(argv, rem, args) && rem.Arg?
    ensures Taken(argv + [Print(rem.text)], rem.more, args)
  {
  }

  lemma TakeAll(argv: seq<string>, args: Args)
    requires Taken(argv, NoArgs, args)
    ensures argv == Texts(args)
  {
  }

  lemma ArgHere(d: Defs, args: Args, i: nat, rank: nat)
    requires |d.ranks| == |d.env.formats| && RankedArgs(d, args, rank) && WFArgs(args) && i < Count(args)
    ensures Here(Texts(args)[i], 0, Nth(args, i), "", true, false) && Ranked(d, Nth(args, i), rank)
  {
    TextsNth(args, i);
    WFNth(args, i);
    RankedNth(d, args, i, rank);
    assert Texts(args)[i][0..] == Print(Nth(args, i)) + "";
  }

  lemma TemplateHere(d: Defs, k: nat)
    requires Acyclic(d) && k < |d.trees|
    ensures Here(d.env.formats[k].templ, 0, d.trees[k], "", true, false) && Ranked(d, d.trees[k], d.ranks[k])
  {
    assert d.env.formats[k].templ[0..] == Print(d.trees[k]) + "";
  }

  lemma {:induction false} PutAllExited(st: State, s: string)
    requires st.exited
    ensures PutAll(st, s) == st
    decreases |s|
  {
    if s != "" {
      PutAllExited(st, s[1..]);
    }
  }

  /** strchr for the brace that closes an identifier; |s| when there is none. */
  method StrChr(s: string, p: nat) returns (q: nat)
    requires p <= |s|
    ensures p <= q <= |s| && '}' !in s[p..q] && (q < |s| ==> s[q] == '}')
  {
    q := p;
    while q < |s| && s[q] != '}'
      invariant p <= q <= |s| && '}' !in s[p..q]
    {
      q := q + 1;
    }
  }

  lemma FirstBrace(s: string, p: nat, q: nat, id: string)
    requires p <= q < |s| && s[q] == '}' && '}' !in s[p..q]
    requires '}' !in id && p + |id| < |s| && s[p..p + |id|] == id && s[p + |id|] == '}'
    ensures q == p + |id|
  {
    var a, b := s[p..q], s[p..p + |id|];
    assert forall i :: 0 <= i < |a| ==> a[i] == s[p + i];
    assert forall i :: 0 <= i < |b| ==> b[i] == s[p + i];
  }

  // What a substitution finds behind its identifier.
  lemma SubstBegins(d: Defs, text: string, p: nat, q: nat, t: Text, tail: string, nested: bool, afterSubst: bool,
                    quiet: bool, st: State, goal: State, rank: nat)
    requires Acyclic(d) && t.Subst? && p >= 2 && Going(d, text, p - 2, t, tail, nested, afterSubst, quiet, st, goal, rank)
    requires p <= q < |text| && text[q] == '}' && '}' !in text[p..q]
    ensures text[p..q] == t.id && Applicable(d, t.id, t.args, rank) && RankedArgs(d, t.args, rank) && WFArgs(t.args)
    ensures ArgsHere(text, q + 1, t.args, t.rest, tail, nested)
    ensures !quiet ==> (|text| - q) / 2 == Room(t.args, t.rest)
  {
    hide Here, Ranked, Denote, Apply, Applicable, ArgsHere, Texts;
    SubstStep(text, p - 2, t, tail, nested, afterSubst);
    DenoteStep(d, t, st, rank);
    FirstBrace(text, p, q, t.id);
    RankedArgsOf(d, t.id, t.args, rank);
    if !quiet {
      RoomBehind(text, q, t.args, t.rest, tail, nested);
    }
  }

  // The interpreter goes on behind a substitution.
  lemma SubstEnds(d: Defs, text: string, p: nat, t: Text, tail: string, nested: bool, afterSubst: bool,
                  quiet: bool, st: State, goal: State, rank: nat, next: nat)
    requires Acyclic(d) && t.Subst? && Going(d, text, p, t, tail, nested, afterSubst, quiet, st, goal, rank)
    requires Applicable(d, t.id, t.args, rank) && Here(text, next, t.rest, tail, nested, true)
    ensures var st' := if quiet then st else if Overruns(d.env, t.args, t.rest) then Overrun(st)
                       else Apply(d, t.id, t.args, st, rank);
            Going(d, text, next, t.rest, tail, nested, true, quiet, st', goal, rank)
  {
    hide Here, Ranked, Denote, Apply, Applicable;
    DenoteStep(d, t, st, rank);
  }

  lemma RankedArgsOf(d: Defs, id: string, args: Args, rank: nat)
    requires |d.ranks| == |d.env.formats| && Applicable(d, id, args, rank)
    ensures RankedArgs(d, args, rank)
  {
  }

  lemma DenoteStep(d: Defs, t: Text, st: State, rank: nat)
    requires Acyclic(d) && Ranked(d, t, rank)
    ensures t.End? ==> Denote(d, t, st, rank) == st
    ensures t.Raw? || t.Escape? ==>
              Ranked(d, t.rest, rank) && Denote(d, t, st, rank) == Denote(d, t.rest, Put(st, t.c), rank)
    ensures t.Dollar? ==>
              Ranked(d, t.rest, rank) && Denote(d, t, st, rank) == Denote(d, t.rest, Put(Put(st, '$'), t.c), rank)
    ensures t.Subst? ==>
              && Ranked(d, t.rest, rank) && Applicable(d, t.id, t.args, rank)
              && Denote(d, t, st, rank)
                 == Denote(d, t.rest,
                           if Overruns(d.env, t.args, t.rest) then Overrun(st) else Apply(d, t.id, t.args, st, rank), rank)
    ensures t.Unclosed? ==> Denote(d, t, st, rank) == PutAll(st, "${" + t.s)
  {
  }

  function Emitted(quiet: bool, st: State, c: char): State {
    if quiet then st else Put(st, c)
  }

  /** The interpreter stands at p with the tree t left: in a quiet pass the state is the goal, in a
      printing pass the meaning of t takes it there. */
  ghost predicate Going(d: Defs, text: string, p: nat, t: Text, tail: string, nested: bool, afterSubst: bool,
                        quiet: bool, st: State, goal: State, rank: nat)
    requires Acyclic(d)
  {
    && Here(text, p, t, tail, nested, afterSubst) && Ranked(d, t, rank) && (if quiet then nested else tail == "")
    && (if quiet then st == goal else Denote(d, t, st, rank) == goal)
  }

  ghost function Start(d: Defs, text: string, p: nat, t: Text, tail: string, nested: bool, quiet: bool, st: State, rank: nat): (goal: State)
    requires Acyclic(d) && Here(text, p, t, tail, nested, false) && Ranked(d, t, rank)
    requires if quiet then nested else tail == ""
    ensures Going(d, text, p, t, tail, nested, false, quiet, st, goal, rank)
    ensures goal == if quiet then st else Denote(d, t, st, rank)
  {
    if quiet then st else Denote(d, t, st, rank)
  }

  /** One step of the interpreter, by the character at p. */
  lemma Step(d: Defs, text: string, p: nat, t: Text, tail: string, nested: bool, afterSubst: bool,
             quiet: bool, st: State, goal: State, rank: nat)
    requires Acyclic(d) && Going(d, text, p, t, tail, nested, afterSubst, quiet, st, goal, rank)
    requires At(text, p) != '\0' && !(nested && At(text, p) == '}')
    ensures At(text, p) != '$' ==>
              && t.Raw? && Size(t.rest) < Size(t)
              && Going(d, text, p + 1, t.rest, tail, nested, false, quiet, Emitted(quiet, st, At(text, p)), goal, rank)
    ensures At(text, p) == '$' ==>
              var c := At(text, p + 1);
              if c == '{' then p + 2 <= |text| && (t.Subst? || t.Unclosed?)
              else
                var st' := if c == '$' || c == '}' then st else Emitted(quiet, st, '$');
                && (t.Escape? || t.Dollar?) && Size(t.rest) < Size(t)
                && Going(d, text, p + 2, t.rest, tail, nested, false, quiet, Emitted(quiet, st', c), goal, rank)
  {
    hide Here, Ranked, Denote;
    HereStep(text, p, t, tail, nested, afterSubst);
    DenoteStep(d, t, st, rank);
  }

  lemma Finish(d: Defs, text: string, p0: nat, t0: Text, p: nat, t: Text, tail: string, nested: bool, afterSubst: bool,
               quiet: bool, st: State, goal: State, rank: nat)
    requires Acyclic(d) && Going(d, text, p, t, tail, nested, afterSubst, quiet, st, goal, rank)
    requires At(text, p) == '\0' || (nested && At(text, p) == '}')
    requires Here(text, p0, t0, tail, nested, false)
    ensures st == goal && p == p0 + |Print(t0)|
  {
    HereStep(text, p, t, tail, nested, afterSubst);
    assert t.End?;
    assert text[p..] == tail;
  }

  lemma UnclosedStep(d: Defs, text: string, p: nat, t: Text, tail: string, nested: bool, afterSubst: bool,
                     quiet: bool, st: State, goal: State, rank: nat)
    requires Acyclic(d) && Going(d, text, p, t, tail, nested, afterSubst, quiet, st, goal, rank)
    requires p + 2 <= |text| && '}' !in text[p + 2..] && (t.Unclosed? || t.Subst?)
    ensures Going(d, text, |text|, End, tail, nested, false, quiet, PutAll(st, text[p..]), goal, rank)
    ensures Size(End) < Size(t)
  {
    hide Ranked, Denote;
    HereStep(text, p, t, tail, nested, afterSubst);
    if t.Subst? {
      SubstHasBrace(text, p, t, tail, nested, afterSubst);
      assert false;
    }
    assert text[p..] == "${" + t.s;
    DenoteStep(d, t, st, rank);
    EndStep(d, PutAll(st, text[p..]), rank);
  }

  lemma SubstHasBrace(text: string, p: nat, t: Text, tail: string, nested: bool, afterSubst: bool)
    requires t.Subst? && Here(text, p, t, tail, nested, afterSubst)
    ensures p + 2 <= |text| && '}' in text[p + 2..]
  {
    SubstStep(text, p, t, tail, nested, afterSubst);
    assert text[p + 2..][|t.id|] == text[p + 2 + |t.id|];
  }

  lemma EndStep(d: Defs, st: State, rank: nat)
    requires Acyclic(d)
    ensures Ranked(d, End, rank) && Denote(d, End, st, rank) == st
  {
  }

  lemma BraceFound(d: Defs, text: string, p: nat, t: Text, tail: string, nested: bool, afterSubst: bool,
                   quiet: bool, st: State, goal: State, q: nat, rank: nat)
    requires Acyclic(d) && Going(d, text, p, t, tail, nested, afterSubst, quiet, st, goal, rank)
    requires p + 2 <= q < |text| && text[q] == '}' && (t.Unclosed? || t.Subst?)
    ensures t.Subst? && Size(t.rest) < Size(t) && SizeArgs(t.args) < Size(t)
  {
    HereStep(text, p, t, tail, nested, afterSubst);
    assert text[p + 2..][q - p - 2] == '}';
  }

  /** print_interface: the text printed for a template is the meaning of its tree, wherever the last
      one left the column, unless a vector of arguments is overrun on the way. */
  method PrintInterface(d: Defs, format: string, name: string, column: nat, hadOutput: bool, ghost t: Text, ghost rank: nat)
    returns (form: Form)
    requires Acyclic(d) && format == Print(t) && WF(t, false, false) && Ranked(d, t, rank)
    ensures var after := Denote(d, t, State("", column, hadOutput, name, false, false), rank);
            && (form.overran <==> after.overran)
            && (!form.overran ==> form.Now() == after)
    ensures Roomy(d.env, t) && RoomyDefs(d) ==> !form.overran
  {
    form := new Form(format, name, column, hadOutput);
    assert format[0..] == Print(t) + "";
    form.PrintInterfaceX(d, false, t, "", rank);
    if Roomy(d.env, t) && RoomyDefs(d) {
      DenoteRoomy(d, t, State("", column, hadOutput, name, false, false), rank);
    }
  }

  // ---------------------------------------------------------------- Room for the arguments

  lemma {:induction false} RoomyNth(env: Env, args: Args, i: nat)
    requires RoomyArgs(env, args) && i < Count(args)
    ensures Roomy(env, Nth(args, i))
  {
    if i > 0 {
      RoomyNth(env, args.more, i - 1);
    }
  }

  lemma {:induction false} PutAllRoomy(st: State, s: string)
    ensures PutAll(st, s).overran == st.overran
    decreases |s|
  {
    if s != "" {
      PutAllRoomy(Put(st, s[0]), s[1..]);
    }
  }

  /** A tree with room everywhere, interpreted with formats that have, overruns nothing. */
  lemma {:induction false} DenoteRoomy(d: Defs, t: Text, st: State, rank: nat)
    requires Acyclic(d) && Ranked(d, t, rank) && Roomy(d.env, t) && RoomyDefs(d)
    ensures Denote(d, t, st, rank).overran == st.overran
    decreases rank, Size(t), 0
  {
    hide Acyclic, Ranked, Apply, Applicable, RoomyDefs, Overruns;
    DenoteStep(d, t, st, rank);
    if t.Unclosed? {
      PutAllRoomy(st, "${" + t.s);
    } else if !t.End? {
      if t.Subst? {
        ApplyRoomy(d, t.id, t.args, st, rank);
      }
      var next :=
        if t.Dollar? then Put(Put(st, '$'), t.c)
        else if t.Subst? then Apply(d, t.id, t.args, st, rank)
        else Put(st, t.c);
      DenoteRoomy(d, t.rest, next, rank);
    }
  }

  lemma {:induction false} ApplyRoomy(d: Defs, id: string, args: Args, st: State, rank: nat)
    requires Acyclic(d) && Applicable(d, id, args, rank) && RoomyArgs(d.env, args) && RoomyDefs(d)
    ensures Apply(d, id, args, st, rank).overran == st.overran
    decreases rank, SizeArgs(args), |d.env.formats| + Count(args) + 2
  {
    hide Denote, Select, Repeat, JoinFrom, Each, PutAll, RankedArgs, FirstFormat, FormatFind, Spaces, Texts, Roomy, RoomyArgs;
    var texts, formats := Texts(args), d.env.formats;
    if id !in d.env.handlers {
      PutAllRoomy(st, "(" + id + " unknown)");
      return;
    }
    match d.env.handlers[id]
    case Tab =>
      var goal := TabGoal(d.env, texts, st.column);
      if st.column < goal {
        PutAllRoomy(st, Spaces(goal - st.column));
      }
    case Name => PutAllRoomy(st, st.name);
    case Docstr =>
      var k := FormatFind(formats, if texts == [] then st.name else texts[0]);
      if k < |formats| {
        PutAllRoomy(st, formats[k].docstr);
      }
    case Defn =>
      var k := FormatFind(formats, if texts == [] then st.name else texts[0]);
      if k < |formats| {
        PutAllRoomy(st, formats[k].templ);
      }
    case Choose(yes) => SelectRoomy(d, args, if yes then 0 else 1, st, rank);
    case Value(text) => PutAllRoomy(st, text);
    case FormatQuery =>
      if texts != [] {
        SelectRoomy(d, args, if FormatFind(formats, texts[0]) < |formats| then 1 else 2, st, rank);
      }
    case Exists =>
      if texts != [] {
        SelectRoomy(d, args, if texts[0] in d.env.handlers then 1 else 2, st, rank);
      }
    case Rep =>
      if |texts| >= 2 {
        RankedNth(d, args, 1, rank);
        RoomyNth(d.env, args, 1);
        RepeatRoomy(d, Nth(args, 1), d.env.strtoul(texts[0]).0 % 0x1_0000_0000, st, rank);
      }
    case Join =>
      if |texts| >= 2 {
        JoinRoomy(d, args, 1, st.(hadOutput := false), st.hadOutput, rank);
      }
    case ForEachFormat =>
      if texts != [] {
        RankedNth(d, args, 0, rank);
        RoomyNth(d.env, args, 0);
        EachRoomy(d, Nth(args, 0), 0, st, rank);
      }
    case UseFormat =>
      var k := FirstFormat(formats, texts);
      if k < |d.trees| {
        DenoteRoomy(d, d.trees[k], st, d.ranks[k]);
      }
    case _ =>
  }

  lemma {:induction false} SelectRoomy(d: Defs, args: Args, i: nat, st: State, rank: nat)
    requires Acyclic(d) && RankedArgs(d, args, rank) && RoomyArgs(d.env, args) && RoomyDefs(d)
    ensures Select(d, args, i, st, rank).overran == st.overran
    decreases rank, SizeArgs(args), 0
  {
    if i < Count(args) {
      RankedNth(d, args, i, rank);
      RoomyNth(d.env, args, i);
      DenoteRoomy(d, Nth(args, i), st, rank);
    }
  }

  lemma {:induction false} RepeatRoomy(d: Defs, t: Text, n: nat, st: State, rank: nat)
    requires Acyclic(d) && Ranked(d, t, rank) && Roomy(d.env, t) && RoomyDefs(d)
    ensures Repeat(d, t, n, st, rank).overran == st.overran
    decreases rank, Size(t), n + 1
  {
    hide Denote;
    if n > 0 {
      DenoteRoomy(d, t, st, rank);
      RepeatRoomy(d, t, n - 1, Denote(d, t, st, rank), rank);
    }
  }

  lemma {:induction false} JoinRoomy(d: Defs, args: Args, i: nat, st: State, saved: bool, rank: nat)
    requires Acyclic(d) && RankedArgs(d, args, rank) && RoomyArgs(d.env, args) && RoomyDefs(d) && 0 < i <= Count(args)
    ensures JoinFrom(d, args, i, st, saved, rank).overran == st.overran
    decreases rank, SizeArgs(args), Count(args) - i
  {
    hide Denote, PutAll;
    if i < Count(args) {
      PutAllRoomy(st, Texts(args)[0]);
      var delimited := if st.hadOutput then PutAll(st, Texts(args)[0]).(hadOutput := false) else st;
      RankedNth(d, args, i, rank);
      RoomyNth(d.env, args, i);
      DenoteRoomy(d, Nth(args, i), delimited, rank);
      JoinRoomy(d, args, i + 1, Denote(d, Nth(args, i), delimited, rank), saved || st.hadOutput, rank);
    }
  }

  lemma {:induction false} EachRoomy(d: Defs, t: Text, k: nat, st: State, rank: nat)
    requires Acyclic(d) && Ranked(d, t, rank) && Roomy(d.env, t) && RoomyDefs(d) && k <= |d.env.formats|
    ensures Each(d, t, k, st, rank).overran == st.overran
    decreases rank, Size(t), |d.env.formats| - k + 1
  {
    hide Denote;
    if k < |d.env.formats| {
      var named := st.(name := d.env.formats[k].name);
      DenoteRoomy(d, t, named, rank);
      EachRoomy(d, t, k + 1, Denote(d, t, named, rank), rank);
    }
  }

  // The first substitution of the tree overruns its vector.
  predicate FirstOverruns(env: Env, t: Text) {
    match t
    case End => false
    case Unclosed(_) => false
    case Subst(_, args, rest) => Overruns(env, args, rest)
    case _ => FirstOverruns(env, t.rest)
  }

  /** Such a template does overrun it, whatever its handlers are and whatever follows. */
  lemma {:induction false} DenoteOverruns(d: Defs, t: Text, st: State, rank: nat)
    requires Acyclic(d) && Ranked(d, t, rank) && FirstOverruns(d.env, t) && !st.exited
    ensures Denote(d, t, st, rank).overran
    decreases Size(t)
  {
    hide Acyclic, Ranked, Denote, Apply, Applicable, Overruns;
    DenoteStep(d, t, st, rank);
    if t.Subst? {
      DenoteKeeps(d, t.rest, Overrun(st), rank);
    } else {
      DenoteOverruns(d, t.rest, if t.Dollar? then Put(Put(st, '$'), t.c) else Put(st, t.c), rank);
    }
  }

  // An argument of one character.
  function Letter(c: char, more: Args): Args {
    Arg(Raw(c, End), more)
  }

  lemma LetterArg(d: Defs, c: char, more: Args, rank: nat)
    requires c !in {'\0', '$', '}'} && |d.ranks| == |d.env.formats| && RankedArgs(d, more, rank) && WFArgs(more)
    ensures PrintArgs(Letter(c, more)) == "{" + [c] + "}" + PrintArgs(more) && Count(Letter(c, more)) == 1 + Count(more)
    ensures RankedArgs(d, Letter(c, more), rank) && WFArgs(Letter(c, more))
  {
    RankedEnd(d, rank);
    assert Print(Raw(c, End)) == [c] + "" == [c];
    assert Ranked(d, Raw(c, End), rank) && WF(Raw(c, End), true, false);
  }

  // {x}{a}{b}
  lemma ThreeLetters(d: Defs, rank: nat)
    requires |d.ranks| == |d.env.formats|
    ensures var args := Letter('x', Letter('a', Letter('b', NoArgs)));
            && PrintArgs(args) == "{x}{a}{b}" && Count(args) == 3 && RankedArgs(d, args, rank) && WFArgs(args)
            && (d.env.pointer > 1 ==> Overruns(d.env, args, End))
  {
    hide RankedArgs, WFArgs, Ranked, WF;
    NoArgsAtAll(d, rank);
    LetterArg(d, 'b', NoArgs, rank);
    LetterArg(d, 'a', Letter('b', NoArgs), rank);
    LetterArg(d, 'x', Letter('a', Letter('b', NoArgs)), rank);
  }

  /** The template `${format?}{x}{a}{b}`: five bytes are allocated for three pointers. */
  lemma ThreeShortArguments(d: Defs, st: State, rank: nat)
    requires Acyclic(d) && d.env.pointer > 1 && !st.exited
    requires "format?" in d.env.handlers && d.env.handlers["format?"] == FormatQuery
    ensures var t := Subst("format?", Letter('x', Letter('a', Letter('b', NoArgs))), End);
            && Print(t) == "${format?}{x}{a}{b}" && WF(t, false, false) && Ranked(d, t, rank)
            && Denote(d, t, st, rank) == Overrun(st) && Overrun(st).overran
  {
    hide RankedArgs, Acyclic, Apply, Denote, Applicable, WFArgs, Overruns, PrintArgs, Letter, Ranked;
    SameLength(d);
    ThreeLetters(d, rank);
    var args := Letter('x', Letter('a', Letter('b', NoArgs)));
    RankedSubst(d, "format?", args, rank);
    DenoteStep(d, Subst("format?", args, End), st, rank);
    EndStep(d, Overrun(st), rank);
  }

  lemma SameLength(d: Defs)
    requires Acyclic(d)
    ensures |d.ranks| == |d.env.formats| == |d.trees|
  {
  }

  lemma NoArgsAtAll(d: Defs, rank: nat)
    requires |d.ranks| == |d.env.formats|
    ensures PrintArgs(NoArgs) == "" && Count(NoArgs) == 0 && RankedArgs(d, NoArgs, rank) && WFArgs(NoArgs)
  {
  }

  /** The format named "default" is the template `${format}{gnu}`: three bytes for one pointer. */
  lemma DefaultFormat(env: Env)
    ensures var args := Arg(Raw('g', Raw('n', Raw('u', End))), NoArgs);
            && Print(Subst("format", args, End)) == "${format}{gnu}"
            && (Overruns(env, args, End) <==> env.pointer > 3)
  {
    var args := Arg(Raw('g', Raw('n', Raw('u', End))), NoArgs);
    assert Print(args.text) == "gnu" && PrintArgs(args) == "{gnu}";
    assert Count(args) == 1;
  }

  // ---------------------------------------------------------------- What every template keeps

  // The column after writing s from column on.
  function ColumnOf(column: nat, s: string): nat
    decreases |s|
  {
    if s == "" then column else ColumnOf(ColumnAfter(column, s[0]), s[1..])
  }

  /** From st to after: output was only appended, the column is that of what was appended, the
      interface name is as before, and nothing was written once the program had exited. */
  ghost predicate Keeps(st: State, after: State) {
    && st.out <= after.out
    && after.column == ColumnOf(st.column, after.out[|st.out|..])
    && after.name == st.name
    && (st.exited ==> after.exited && after.out == st.out && after.overran == st.overran)
    && (st.overran ==> after.overran)
  }

  lemma {:induction false} ColumnOfConcat(column: nat, a: string, b: string)
    ensures ColumnOf(column, a + b) == ColumnOf(ColumnOf(column, a), b)
    decreases |a|
  {
    if a == "" {
      assert a + b == b;
    } else {
      assert (a + b)[1..] == a[1..] + b;
      ColumnOfConcat(ColumnAfter(column, a[0]), a[1..], b);
    }
  }

  lemma KeepsTrans(a: State, b: State, c: State)
    requires Keeps(a, b) && Keeps(b, c)
    ensures Keeps(a, c)
  {
    var x, y := b.out[|a.out|..], c.out[|b.out|..];
    ColumnOfConcat(a.column, x, y);
    assert c.out[|a.out|..] == x + y;
  }

  lemma {:induction false} PutAllKeeps(st: State, s: string)
    ensures Keeps(st, PutAll(st, s))
    ensures !st.exited ==> PutAll(st, s).out == st.out + s
    ensures PutAll(st, s).exited == st.exited
    decreases |s|
  {
    if s != "" {
      var next := Put(st, s[0]);
      assert !st.exited ==> next.out[|st.out|..] == [s[0]];
      PutAllKeeps(next, s[1..]);
      KeepsTrans(st, next, PutAll(st, s));
      assert s == [s[0]] + s[1..];
    }
  }

  /** Every template keeps output, column, name and exit in step. */
  lemma {:induction false} DenoteKeeps(d: Defs, t: Text, st: State, rank: nat)
    requires Acyclic(d) && Ranked(d, t, rank)
    ensures Keeps(st, Denote(d, t, st, rank))
    decreases rank, Size(t), 0
  {
    hide Keeps, Acyclic, Ranked, Apply, Applicable;
    DenoteStep(d, t, st, rank);
    PutAllKeeps(st, "");
    if t.Unclosed? {
      PutAllKeeps(st, "${" + t.s);
    } else if !t.End? {
      var next :=
        if t.Dollar? then Put(Put(st, '$'), t.c)
        else if t.Subst? then (if Overruns(d.env, t.args, t.rest) then Overrun(st) else Apply(d, t.id, t.args, st, rank))
        else Put(st, t.c);
      if t.Subst? {
        ApplyKeeps(d, t.id, t.args, st, rank);
        KeepsFlags(st, false);
      } else {
        PutKeeps(st, if t.Dollar? then '$' else t.c);
        PutKeeps(Put(st, '$'), t.c);
        if t.Dollar? {
          KeepsTrans(st, Put(st, '$'), next);
        }
      }
      DenoteKeeps(d, t.rest, next, rank);
      KeepsTrans(st, next, Denote(d, t, st, rank));
    }
  }

  lemma PutKeeps(st: State, c: char)
    ensures Keeps(st, Put(st, c))
  {
    PutAllKeeps(st, [c]);
    assert [c][1..] == "";
  }

  // The flag for output and the name of the interface may change on the way.
  lemma KeepsRename(a: State, b: State, had: bool, had': bool, name: string, name': string)
    requires Keeps(a.(hadOutput := had, name := name), b)
    ensures Keeps(a.(name := name'), b.(hadOutput := had', name := name'))
  {
  }

  lemma KeepsFlags(st: State, had: bool)
    ensures Keeps(st, st.(hadOutput := had)) && Keeps(st, st.(exited := true)) && Keeps(st, Overrun(st)) && Keeps(st, st)
  {
    assert st.out[|st.out|..] == "";
  }

  lemma {:induction false} ApplyKeeps(d: Defs, id: string, args: Args, st: State, rank: nat)
    requires Acyclic(d) && Applicable(d, id, args, rank)
    ensures Keeps(st, Apply(d, id, args, st, rank))
    decreases rank, SizeArgs(args), |d.env.formats| + Count(args) + 2
  {
    hide Denote, Select, Repeat, JoinFrom, Each, PutAll, Put, Keeps, RankedArgs, FirstFormat, FormatFind, Spaces, Texts;
    var texts, formats := Texts(args), d.env.formats;
    KeepsFlags(st, false);
    if id !in d.env.handlers {
      PutAllKeeps(st, "(" + id + " unknown)");
      return;
    }
    match d.env.handlers[id]
    case Nothing =>
    case NewLine => PutKeeps(st, '\n');
    case Tabulator => PutKeeps(st, '\t');
    case Tab =>
      var goal := TabGoal(d.env, texts, st.column);
      if st.column < goal {
        PutAllKeeps(st, Spaces(goal - st.column));
      }
    case Name => PutAllKeeps(st, st.name);
    case Docstr =>
      var k := FormatFind(formats, if texts == [] then st.name else texts[0]);
      if k < |formats| {
        PutAllKeeps(st, formats[k].docstr);
      }
    case Defn =>
      var k := FormatFind(formats, if texts == [] then st.name else texts[0]);
      if k < |formats| {
        PutAllKeeps(st, formats[k].templ);
      }
    case Choose(yes) => SelectKeeps(d, args, if yes then 0 else 1, st, rank);
    case Value(text) => PutAllKeeps(st, text);
    case FormatQuery =>
      if texts != [] {
        SelectKeeps(d, args, if FormatFind(formats, texts[0]) < |formats| then 1 else 2, st, rank);
      }
    case Exists =>
      if texts != [] {
        SelectKeeps(d, args, if texts[0] in d.env.handlers then 1 else 2, st, rank);
      }
    case Rep =>
      if |texts| >= 2 {
        RankedNth(d, args, 1, rank);
        RepeatKeeps(d, Nth(args, 1), d.env.strtoul(texts[0]).0 % 0x1_0000_0000, st, rank);
      }
    case Join =>
      if |texts| >= 2 {
        var quiet := st.(hadOutput := false);
        JoinKeeps(d, args, 1, quiet, st.hadOutput, rank);
        KeepsTrans(st, quiet, JoinFrom(d, args, 1, quiet, st.hadOutput, rank));
      }
    case ForEachFormat =>
      if texts != [] {
        RankedNth(d, args, 0, rank);
        EachKeeps(d, Nth(args, 0), 0, st, rank);
      }
    case UseFormat =>
      var k := FirstFormat(formats, texts);
      if k < |d.trees| {
        DenoteKeeps(d, d.trees[k], st, d.ranks[k]);
      }
  }

  lemma {:induction false} SelectKeeps(d: Defs, args: Args, i: nat, st: State, rank: nat)
    requires Acyclic(d) && RankedArgs(d, args, rank)
    ensures Keeps(st, Select(d, args, i, st, rank))
    decreases rank, SizeArgs(args), 0
  {
    KeepsFlags(st, false);
    if i < Count(args) {
      RankedNth(d, args, i, rank);
      DenoteKeeps(d, Nth(args, i), st, rank);
    }
  }

  lemma {:induction false} RepeatKeeps(d: Defs, t: Text, n: nat, st: State, rank: nat)
    requires Acyclic(d) && Ranked(d, t, rank)
    ensures Keeps(st, Repeat(d, t, n, st, rank))
    decreases rank, Size(t), n + 1
  {
    hide Denote, Keeps;
    KeepsFlags(st, false);
    if n > 0 {
      DenoteKeeps(d, t, st, rank);
      RepeatKeeps(d, t, n - 1, Denote(d, t, st, rank), rank);
      KeepsTrans(st, Denote(d, t, st, rank), Repeat(d, t, n, st, rank));
    }
  }

  lemma {:induction false} JoinKeeps(d: Defs, args: Args, i: nat, st: State, saved: bool, rank: nat)
    requires Acyclic(d) && RankedArgs(d, args, rank) && 0 < i <= Count(args)
    ensures Keeps(st, JoinFrom(d, args, i, st, saved, rank))
    decreases rank, SizeArgs(args), Count(args) - i
  {
    hide Denote, Keeps, PutAll;
    if i == Count(args) {
      KeepsFlags(st, saved);
    } else {
      var written := PutAll(st, Texts(args)[0]);
      PutAllKeeps(st, Texts(args)[0]);
      KeepsFlags(st, false);
      KeepsFlags(written, false);
      KeepsTrans(st, written, written.(hadOutput := false));
      var delimited := if st.hadOutput then written.(hadOutput := false) else st;
      RankedNth(d, args, i, rank);
      var next := Denote(d, Nth(args, i), delimited, rank);
      DenoteKeeps(d, Nth(args, i), delimited, rank);
      KeepsTrans(st, delimited, next);
      JoinKeeps(d, args, i + 1, next, saved || st.hadOutput, rank);
      KeepsTrans(st, next, JoinFrom(d, args, i, st, saved, rank));
    }
  }

  lemma {:induction false} EachKeeps(d: Defs, t: Text, k: nat, st: State, rank: nat)
    requires Acyclic(d) && Ranked(d, t, rank) && k <= |d.env.formats|
    ensures Keeps(st, Each(d, t, k, st, rank).(name := st.name))
    decreases rank, Size(t), |d.env.formats| - k + 1
  {
    hide Denote, Keeps;
    KeepsFlags(st, false);
    if k < |d.env.formats| {
      var named := st.(name := d.env.formats[k].name);
      var next := Denote(d, t, named, rank);
      var last := Each(d, t, k + 1, next, rank);
      DenoteKeeps(d, t, named, rank);
      KeepsRename(st, next, st.hadOutput, next.hadOutput, named.name, st.name);
      EachKeeps(d, t, k + 1, next, rank);
      KeepsRename(next, last.(name := next.name), next.hadOutput, last.hadOutput, next.name, st.name);
      KeepsTrans(st, next.(name := st.name), last.(name := st.name));
    }
  }

  /** Where `${tab}` ends up: at the column asked for, unless the line is already past it. */
  lemma TabReachesGoal(st: State, goal: nat)
    requires !st.exited && st.column <= goal
    ensures PutAll(st, Spaces(goal - st.column)).column == goal
    decreases goal - st.column
  {
    var n := goal - st.column;
    if n > 0 {
      assert Spaces(n)[0] == ' ' && Spaces(n)[1..] == Spaces(n - 1);
      TabReachesGoal(Put(st, ' '), goal);
    }
  }

  // ---------------------------------------------------------------- What a join reports

  // Whether one of the arguments before the last, from i on, had written something when the next
  // one came up.
  ghost predicate SomeDelimiter(d: Defs, args: Args, i: nat, st: State, rank: nat)
    requires Acyclic(d) && RankedArgs(d, args, rank) && 0 < i <= Count(args)
    decreases Count(args) - i
  {
    i < Count(args) &&
    (st.hadOutput ||
     (RankedNth(d, args, i, rank);
      SomeDelimiter(d, args, i + 1, Denote(d, Nth(args, i), st, rank), rank)))
  }

  /** A join reports output exactly when there was output before it or it wrote a delimiter: what
      its last argument writes goes unreported. */
  lemma {:induction false} JoinReports(d: Defs, args: Args, i: nat, st: State, saved: bool, rank: nat)
    requires Acyclic(d) && RankedArgs(d, args, rank) && 0 < i <= Count(args)
    ensures JoinFrom(d, args, i, st, saved, rank).hadOutput <==> saved || SomeDelimiter(d, args, i, st, rank)
    decreases Count(args) - i
  {
    if i < Count(args) {
      var delimited := if st.hadOutput then PutAll(st, Texts(args)[0]).(hadOutput := false) else st;
      RankedNth(d, args, i, rank);
      JoinReports(d, args, i + 1, Denote(d, Nth(args, i), delimited, rank), saved || st.hadOutput, rank);
    }
  }

  /** A join of one argument is that argument, unreported. */
  lemma JoinOfOne(d: Defs, delimiter: Text, a: Text, st: State, rank: nat)
    requires Acyclic(d) && "join" in d.env.handlers && d.env.handlers["join"] == Join
    requires Ranked(d, delimiter, rank) && Ranked(d, a, rank)
    ensures var t := Subst("join", Arg(delimiter, Arg(a, NoArgs)), End);
            && Ranked(d, t, rank)
            && Denote(d, t, st, rank)
               == if Overruns(d.env, t.args, End) then Overrun(st)
                  else Denote(d, a, st.(hadOutput := false), rank).(hadOutput := st.hadOutput)
  {
    hide Ranked;
    var args := Arg(delimiter, Arg(a, NoArgs));
    assert Count(NoArgs) == 0 && Count(Arg(a, NoArgs)) == 1 && Count(args) == 2;
    RankedEnd(d, rank);
    assert RankedArgs(d, NoArgs, rank) && RankedArgs(d, Arg(a, NoArgs), rank) && RankedArgs(d, args, rank);
    RankedSubst(d, "join", args, rank);
    assert Nth(args, 1) == a;
    var after := Denote(d, a, st.(hadOutput := false), rank);
    assert JoinFrom(d, args, 2, after, st.hadOutput, rank) == after.(hadOutput := st.hadOutput);
    DenoteStep(d, Subst("join", args, End), st, rank);
    EndStep(d, after.(hadOutput := st.hadOutput), rank);
    EndStep(d, Overrun(st), rank);
  }

  lemma RankedEnd(d: Defs, rank: nat)
    requires |d.ranks| == |d.env.formats|
    ensures Ranked(d, End, rank)
  {
  }

  lemma RankedSubst(d: Defs, id: string, args: Args, rank: nat)
    requires |d.ranks| == |d.env.formats| && RankedArgs(d, args, rank)
    requires id in d.env.handlers && !d.env.handlers[id].UseFormat?
    ensures Ranked(d, Subst(id, args, End), rank)
  {
  }

  /** So an outer join misses its delimiter behind an inner join of one argument:
      `${join}{,}{${join}{;}{a}}{b}` prints what a and b print, however much that is, as long as the pointers fit. */
  lemma NestedJoinLosesDelimiter(d: Defs, comma: Text, semicolon: Text, a: Text, b: Text, st: State, rank: nat)
    requires Acyclic(d) && "join" in d.env.handlers && d.env.handlers["join"] == Join
    requires Ranked(d, comma, rank) && Ranked(d, semicolon, rank) && Ranked(d, a, rank) && Ranked(d, b, rank)
    ensures var inner := Subst("join", Arg(semicolon, Arg(a, NoArgs)), End);
            var outer := Subst("join", Arg(comma, Arg(inner, Arg(b, NoArgs))), End);
            var afterA := Denote(d, a, st.(hadOutput := false), rank);
            && Ranked(d, outer, rank)
            && var enough := !Overruns(d.env, inner.args, End) && !Overruns(d.env, outer.args, End);
            enough ==> Denote(d, outer, st, rank) == Denote(d, b, afterA.(hadOutput := false), rank).(hadOutput := st.hadOutput)
  {
    hide Ranked;
    var inner := Subst("join", Arg(semicolon, Arg(a, NoArgs)), End);
    var args := Arg(comma, Arg(inner, Arg(b, NoArgs)));
    var start := st.(hadOutput := false);
    JoinOfOne(d, semicolon, a, start, rank);
    assert RankedArgs(d, NoArgs, rank) && RankedArgs(d, Arg(b, NoArgs), rank);
    assert RankedArgs(d, Arg(inner, Arg(b, NoArgs)), rank) && RankedArgs(d, args, rank);
    RankedSubst(d, "join", args, rank);
    assert Count(NoArgs) == 0 && Count(Arg(b, NoArgs)) == 1 && Count(args.more) == 2 && Count(args) == 3;
    assert Nth(args, 1) == inner;
    assert Nth(args.more, 1) == b;
    assert Nth(args, 2) == b;
    var middle := Denote(d, inner, start, rank);
    var after := Denote(d, b, middle, rank);
    assert JoinFrom(d, args, 3, after, st.hadOutput, rank) == after.(hadOutput := st.hadOutput);
    assert JoinFrom(d, args, 2, middle, st.hadOutput, rank) == after.(hadOutput := st.hadOutput);
    assert JoinFrom(d, args, 1, start, st.hadOutput, rank) == after.(hadOutput := st.hadOutput);
    DenoteStep(d, Subst("join", args, End), st, rank);
    EndStep(d, after.(hadOutput := st.hadOutput), rank);
  }

  // ---------------------------------------------------------------- What the handlers do

  // The substitution t with room for its arguments, whose handler is h.
  predicate Handles(d: Defs, t: Text, h: Handler, rank: nat)
    requires Acyclic(d)
  {
    && t.Subst? && Ranked(d, t, rank) && t.id in d.env.handlers && d.env.handlers[t.id] == h
    && !Overruns(d.env, t.args, t.rest)
  }

  lemma Handled(d: Defs, t: Text, h: Handler, st: State, rank: nat)
    requires Acyclic(d) && Handles(d, t, h, rank)
    ensures Ranked(d, t.rest, rank) && Applicable(d, t.id, t.args, rank)
    ensures Denote(d, t, st, rank) == Denote(d, t.rest, Apply(d, t.id, t.args, st, rank), rank)
  {
  }

  lemma RankedThree(d: Defs, x: Text, a: Text, b: Text, rank: nat)
    requires |d.ranks| == |d.env.formats| && RankedArgs(d, Arg(x, Arg(a, Arg(b, NoArgs))), rank)
    ensures Ranked(d, x, rank) && Ranked(d, a, rank) && Ranked(d, b, rank)
    ensures var args := Arg(x, Arg(a, Arg(b, NoArgs)));
            && Count(args) == 3 && Nth(args, 0) == x && Nth(args, 1) == a && Nth(args, 2) == b
            && |Texts(args)| == 3 && Texts(args)[0] == Print(x)
  {
    var args := Arg(x, Arg(a, Arg(b, NoArgs)));
    assert RankedArgs(d, args.more, rank) && RankedArgs(d, args.more.more, rank);
    assert Count(NoArgs) == 0 && Count(Arg(b, NoArgs)) == 1 && Count(args.more) == 2;
    assert Nth(args.more, 0) == a && Nth(args.more, 1) == Nth(args.more.more, 0) == b;
  }

  lemma RankedTwo(d: Defs, a: Text, b: Text, rank: nat)
    requires |d.ranks| == |d.env.formats| && RankedArgs(d, Arg(a, Arg(b, NoArgs)), rank)
    ensures Ranked(d, a, rank) && Ranked(d, b, rank)
    ensures var args := Arg(a, Arg(b, NoArgs));
            && Count(args) == 2 && Nth(args, 0) == a && Nth(args, 1) == b && |Texts(args)| == 2 && Texts(args)[0] == Print(a)
  {
    var args := Arg(a, Arg(b, NoArgs));
    assert RankedArgs(d, args.more, rank);
    assert Count(NoArgs) == 0 && Count(args.more) == 1;
    assert Nth(args.more, 0) == b;
  }

  lemma RankedOne(d: Defs, a: Text, rank: nat)
    requires |d.ranks| == |d.env.formats| && RankedArgs(d, Arg(a, NoArgs), rank)
    ensures Ranked(d, a, rank) && Count(Arg(a, NoArgs)) == 1 && Nth(Arg(a, NoArgs), 0) == a
    ensures Texts(Arg(a, NoArgs)) == [Print(a)]
  {
    assert Count(NoArgs) == 0 && Texts(NoArgs) == [];
  }

  /** `${exists?}{x}{a}{b}` is a where x is the name of a handler, else b. */
  lemma ExistsSelects(d: Defs, t: Text, x: Text, a: Text, b: Text, st: State, rank: nat)
    requires Acyclic(d) && Handles(d, t, Exists, rank) && t.args == Arg(x, Arg(a, Arg(b, NoArgs)))
    ensures Ranked(d, a, rank) && Ranked(d, b, rank) && Ranked(d, t.rest, rank)
    ensures Denote(d, t, st, rank)
            == Denote(d, t.rest, if Print(x) in d.env.handlers then Denote(d, a, st, rank) else Denote(d, b, st, rank), rank)
  {
    hide Ranked, Denote, Overruns;
    Handled(d, t, Exists, st, rank);
    RankedThree(d, x, a, b, rank);
  }

  /** `${format?}{x}{a}{b}` is a where x is the name of a format, else b. */
  lemma FormatQuerySelects(d: Defs, t: Text, x: Text, a: Text, b: Text, st: State, rank: nat)
    requires Acyclic(d) && Handles(d, t, FormatQuery, rank) && t.args == Arg(x, Arg(a, Arg(b, NoArgs)))
    ensures Ranked(d, a, rank) && Ranked(d, b, rank) && Ranked(d, t.rest, rank)
    ensures var named := exists k :: 0 <= k < |d.env.formats| && d.env.formats[k].name == Print(x);
            Denote(d, t, st, rank) == Denote(d, t.rest, if named then Denote(d, a, st, rank) else Denote(d, b, st, rank), rank)
  {
    hide Ranked, Denote, Overruns, FormatFind;
    Handled(d, t, FormatQuery, st, rank);
    RankedThree(d, x, a, b, rank);
    var k := FormatFind(d.env.formats, Print(x));
    assert k < |d.env.formats| ==> d.env.formats[k].name == Print(x);
  }

  /** A query with two arguments is the first where its answer is yes, else the second. */
  lemma ChooseSelects(d: Defs, t: Text, yes: bool, a: Text, b: Text, st: State, rank: nat)
    requires Acyclic(d) && Handles(d, t, Choose(yes), rank) && t.args == Arg(a, Arg(b, NoArgs))
    ensures Ranked(d, a, rank) && Ranked(d, b, rank) && Ranked(d, t.rest, rank)
    ensures Denote(d, t, st, rank)
            == Denote(d, t.rest, if yes then Denote(d, a, st, rank) else Denote(d, b, st, rank), rank)
  {
    hide Ranked, Denote, Overruns;
    Handled(d, t, Choose(yes), st, rank);
    RankedTwo(d, a, b, rank);
  }

  /** With one argument it is that argument or nothing. */
  lemma ChooseOrNothing(d: Defs, t: Text, yes: bool, a: Text, st: State, rank: nat)
    requires Acyclic(d) && Handles(d, t, Choose(yes), rank) && t.args == Arg(a, NoArgs)
    ensures Ranked(d, a, rank) && Ranked(d, t.rest, rank)
    ensures Denote(d, t, st, rank) == Denote(d, t.rest, if yes then Denote(d, a, st, rank) else st, rank)
  {
    hide Ranked, Denote, Overruns;
    Handled(d, t, Choose(yes), st, rank);
    RankedOne(d, a, rank);
  }

  /** `${newline}` starts a new line, a tabulator goes to the next multiple of eight, and what prints
      a name or a value prints that. */
  lemma PlainHandlers(d: Defs, t: Text, h: Handler, st: State, rank: nat)
    requires Acyclic(d) && Handles(d, t, h, rank) && t.rest == End && !st.exited
    ensures var after := Denote(d, t, st, rank);
            && (h.Nothing? ==> after == st)
            && (h.NewLine? ==> after == st.(out := st.out + "\n", column := 0, hadOutput := true))
            && (h.Tabulator? ==>
                  after == st.(out := st.out + "\t", column := after.column, hadOutput := true)
                  && st.column < after.column <= st.column + 8 && after.column % 8 == 0)
            && (h.Name? ==> after.out == st.out + st.name)
            && (h.Value? ==> after.out == st.out + h.text)
  {
    hide Ranked, Overruns, PutAll;
    Handled(d, t, h, st, rank);
    EndStep(d, Apply(d, t.id, t.args, st, rank), rank);
    PutAllKeeps(st, st.name);
    if h.Value? {
      PutAllKeeps(st, h.text);
    }
  }

  /** An unknown name is reported. */
  lemma UnknownHandler(d: Defs, t: Text, st: State, rank: nat)
    requires Acyclic(d) && t.Subst? && Ranked(d, t, rank) && t.id !in d.env.handlers && !Overruns(d.env, t.args, t.rest)
    requires t.rest == End && !st.exited
    ensures Denote(d, t, st, rank).out == st.out + ("(" + t.id + " unknown)")
  {
    hide Ranked, Overruns, PutAll;
    DenoteStep(d, t, st, rank);
    EndStep(d, Apply(d, t.id, t.args, st, rank), rank);
    PutAllKeeps(st, "(" + t.id + " unknown)");
  }

  /** `${tab}` fills up with spaces: to the column asked for, or to the next multiple of eight. */
  lemma TabFills(d: Defs, t: Text, st: State, rank: nat)
    requires Acyclic(d) && Handles(d, t, Tab, rank) && t.rest == End && !st.exited
    requires t.args == NoArgs || (t.args.more == NoArgs && d.env.strtol(Print(t.args.text)) >= st.column + 1)
    ensures var after := Denote(d, t, st, rank);
            var n := after.column - st.column;
            && n > 0 && after.out == st.out + Spaces(n)
            && if t.args == NoArgs then n <= 8 && after.column % 8 == 0 else after.column == d.env.strtol(Print(t.args.text))
  {
    hide Ranked, Overruns, PutAll;
    Handled(d, t, Tab, st, rank);
    EndStep(d, Apply(d, t.id, t.args, st, rank), rank);
    if t.args == NoArgs {
      assert Texts(t.args) == [];
    } else {
      RankedOne(d, t.args.text, rank);
    }
    var goal := TabGoal(d.env, Texts(t.args), st.column);
    TabReachesGoal(st, goal);
    PutAllKeeps(st, Spaces(goal - st.column));
  }

  // A text without substitutions.
  function Literal(s: string): Text {
    if s == "" then End else Raw(s[0], Literal(s[1..]))
  }

  lemma {:induction false} LiteralPrints(d: Defs, s: string, st: State, rank: nat)
    requires Acyclic(d)
    ensures Ranked(d, Literal(s), rank) && Denote(d, Literal(s), st, rank) == PutAll(st, s)
    decreases |s|
  {
    if s != "" {
      LiteralPrints(d, s[1..], Put(st, s[0]), rank);
    }
  }

  function Times(n: nat, s: string): string {
    if n == 0 then "" else s + Times(n - 1, s)
  }

  lemma {:induction false} RepeatPrints(d: Defs, n: nat, s: string, st: State, rank: nat)
    requires Acyclic(d) && !st.exited
    ensures Ranked(d, Literal(s), rank) && Repeat(d, Literal(s), n, st, rank).out == st.out + Times(n, s)
  {
    hide PutAll, Denote;
    LiteralPrints(d, s, st, rank);
    if n > 0 {
      var next := PutAll(st, s);
      PutAllKeeps(st, s);
      RepeatPrints(d, n - 1, s, next, rank);
      assert st.out + s + Times(n - 1, s) == st.out + (s + Times(n - 1, s));
    }
  }

  /** `${rep}{n}{s}` prints a literal n times. */
  lemma RepTimes(d: Defs, t: Text, x: Text, s: string, n: nat, st: State, rank: nat)
    requires Acyclic(d) && Handles(d, t, Rep, rank) && t.args == Arg(x, Arg(Literal(s), NoArgs))
    requires t.rest == End && !st.exited && d.env.strtoul(Print(x)) == (n, true) && n < 0x1_0000_0000
    ensures Denote(d, t, st, rank).out == st.out + Times(n, s)
  {
    hide Ranked, Overruns, Repeat, Literal;
    Handled(d, t, Rep, st, rank);
    EndStep(d, Apply(d, t.id, t.args, st, rank), rank);
    RankedTwo(d, x, Literal(s), rank);
    RepeatPrints(d, n, s, st, rank);
  }

  function Names(formats: seq<Format>): string {
    if formats == [] then "" else formats[0].name + Names(formats[1..])
  }

  lemma {:induction false} EachPrints(d: Defs, body: Text, k: nat, st: State, rank: nat)
    requires Acyclic(d) && Handles(d, body, Name, rank) && body.rest == End && !st.exited && k <= |d.env.formats|
    ensures Each(d, body, k, st, rank).out == st.out + Names(d.env.formats[k..])
    decreases |d.env.formats| - k
  {
    hide Handles, PutAll, Denote;
    var formats := d.env.formats;
    if k < |formats| {
      var named := st.(name := formats[k].name);
      assert Ranked(d, body, rank) by {
        HandledName(d, body, named, rank);
      }
      HandledName(d, body, named, rank);
      PutAllKeeps(named, named.name);
      EachPrints(d, body, k + 1, PutAll(named, named.name), rank);
      assert formats[k..][1..] == formats[k + 1..];
      assert st.out + formats[k].name + Names(formats[k + 1..]) == st.out + (formats[k].name + Names(formats[k + 1..]));
    }
  }

  lemma HandledName(d: Defs, body: Text, st: State, rank: nat)
    requires Acyclic(d) && Handles(d, body, Name, rank) && body.rest == End
    ensures Ranked(d, body, rank) && Denote(d, body, st, rank) == PutAll(st, st.name)
  {
    Handled(d, body, Name, st, rank);
    EndStep(d, PutAll(st, st.name), rank);
  }

  /** `${foreachformat}{${name}}` prints the names of the formats in their order. */
  lemma ForEachFormatInOrder(d: Defs, t: Text, body: Text, st: State, rank: nat)
    requires Acyclic(d) && Handles(d, t, ForEachFormat, rank) && t.args == Arg(body, NoArgs) && t.rest == End
    requires Handles(d, body, Name, rank) && body.rest == End && !st.exited
    ensures Denote(d, t, st, rank).out == st.out + Names(d.env.formats)
    ensures Denote(d, t, st, rank).name == st.name
  {
    Handled(d, t, ForEachFormat, st, rank);
    hide Ranked, Overruns, Each, Handles;
    EndStep(d, Apply(d, t.id, t.args, st, rank), rank);
    RankedOne(d, body, rank);
    EachPrints(d, body, 0, st, rank);
    assert d.env.formats[0..] == d.env.formats;
  }

  /** `${format}{x}` is the first format of that name. */
  lemma UseFormatByName(d: Defs, t: Text, x: Text, k: nat, st: State, rank: nat)
    requires Acyclic(d) && Handles(d, t, UseFormat, rank) && t.args == Arg(x, NoArgs)
    requires k < |d.trees| && d.env.formats[k].name == Print(x) && forall i :: 0 <= i < k ==> d.env.formats[i].name != Print(x)
    ensures Ranked(d, t.rest, rank) && Ranked(d, d.trees[k], d.ranks[k])
    ensures Denote(d, t, st, rank) == Denote(d, t.rest, Denote(d, d.trees[k], st, d.ranks[k]), rank)
  {
    hide Ranked, Overruns, Denote, FormatFind;
    Handled(d, t, UseFormat, st, rank);
    RankedOne(d, x, rank);
    var found := FormatFind(d.env.formats, Print(x));
    assert found == k;
    assert FirstFormat(d.env.formats, [Print(x)]) == k;
  }

  /** `${join}{d}{a}{b}` prints the delimiter between two literals. */
  lemma JoinLiterals(d: Defs, t: Text, delimiter: Text, a: string, b: string, st: State, rank: nat)
    requires Acyclic(d) && Handles(d, t, Join, rank) && t.args == Arg(delimiter, Arg(Literal(a), Arg(Literal(b), NoArgs)))
    requires t.rest == End && !st.exited && a != ""
    ensures Denote(d, t, st, rank).out == st.out + a + Print(delimiter) + b
  {
    hide Ranked, Overruns, Literal, PutAll, Denote;
    Handled(d, t, Join, st, rank);
    EndStep(d, Apply(d, t.id, t.args, st, rank), rank);
    RankedThree(d, delimiter, Literal(a), Literal(b), rank);
    var start := st.(hadOutput := false);
    LiteralPrints(d, a, start, rank);
    var first := PutAll(start, a);
    PutAllKeeps(start, a);
    PutAllHad(start, a);
    var delimited := PutAll(first, Print(delimiter)).(hadOutput := false);
    PutAllKeeps(first, Print(delimiter));
    LiteralPrints(d, b, delimited, rank);
    PutAllKeeps(delimited, b);
    var args := t.args;
    var last := PutAll(delimited, b);
    assert JoinFrom(d, args, 3, last, true, rank) == last.(hadOutput := true);
    assert JoinFrom(d, args, 2, first, st.hadOutput, rank) == last.(hadOutput := true);
    assert JoinFrom(d, args, 1, start, st.hadOutput, rank) == last.(hadOutput := true);
  }

  lemma {:induction false} PutAllHad(st: State, s: string)
    requires !st.exited && (s != "" || st.hadOutput)
    ensures PutAll(st, s).hadOutput
    decreases |s|
  {
    if s != "" {
      PutAllHad(Put(st, s[0]), s[1..]);
    }
  }

  /** The description or the text of the format named by the argument, or by the interface without
      one; a name that is not there ends the program. */
  lemma FormatTexts(d: Defs, t: Text, x: Text, k: nat, st: State, rank: nat)
    requires Acyclic(d) && (Handles(d, t, Docstr, rank) || Handles(d, t, Defn, rank)) && t.rest == End && !st.exited
    requires t.args == Arg(x, NoArgs) || (t.args == NoArgs && Print(x) == st.name)
    requires k <= |d.env.formats| && (forall i :: 0 <= i < k ==> d.env.formats[i].name != Print(x))
    requires k < |d.env.formats| ==> d.env.formats[k].name == Print(x)
    ensures var after := Denote(d, t, st, rank);
            if k == |d.env.formats| then after.exited && after.overran == st.overran && after.out == st.out
            else after.out == st.out + if d.env.handlers[t.id].Docstr? then d.env.formats[k].docstr else d.env.formats[k].templ
  {
    hide Ranked, Overruns, Denote, FormatFind, PutAll;
    Handled(d, t, d.env.handlers[t.id], st, rank);
    EndStep(d, Apply(d, t.id, t.args, st, rank), rank);
    if t.args != NoArgs {
      RankedOne(d, x, rank);
    } else {
      assert Texts(t.args) == [];
    }
    assert FormatFind(d.env.formats, Print(x)) == k;
    if k < |d.env.formats| {
      PutAllKeeps(st, d.env.formats[k].docstr);
      PutAllKeeps(st, d.env.formats[k].templ);
    }
  }

  /** What a dollar makes of the character behind it: `$$` and `$}` stand for that character, any other
      is printed with the dollar. */
  lemma DollarPrints(d: Defs, c: char, st: State, rank: nat)
    requires Acyclic(d) && !st.exited
    ensures Ranked(d, Escape(c, End), rank) && Denote(d, Escape(c, End), st, rank).out == st.out + [c]
    ensures Ranked(d, Dollar(c, End), rank) && Denote(d, Dollar(c, End), st, rank).out == st.out + ['$', c]
  {
    EndStep(d, Put(st, c), rank);
    EndStep(d, Put(Put(st, '$'), c), rank);
  }
}
