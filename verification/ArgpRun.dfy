/** A run of argp_parse: which keys the parsers of the groups are called with, from the first key to
    the last.  What getopt and the parsers answer is arbitrary. */
module ArgpRun {
  import opened Common
  import opened Argp
  import opened ArgpTables
  import D = ArgpDispatch

  const EBADKEY: int := 7
  const EINVAL: int := 22
  const KEY_END: int := -1
  const KEY_ARG: int := 1
  const KEY_ERR: int := 63

  /** The keys that are not the key of an option have the prefix ARGP_KEY_ in argp.h. */
  datatype Key = Init | UserOption(key: int) | Arg | Args | NoArgs | AtEnd | Success | Error | Fini

  datatype Step = Step(group: nat, key: Key)

  /** A call of a parser, with the error that it returned. */
  datatype Call = Call(step: Step, err: int)

  // 0 for a null pointer
  type Input = int

  /** What a call does: it returns an error, may move state->next, and leaves inputs for children. */
  datatype Answer = Answer(err: int, next: int, inputs: seq<Input>)

  // The parsers, all together: what they do may depend on every call so far.
  type Parsers = (seq<Call>, Step) -> Answer

  function Steps(calls: seq<Call>): seq<Step> {
    seq(|calls|, i requires 0 <= i < |calls| => calls[i].step)
  }

  lemma StepsConcat(a: seq<Call>, b: seq<Call>)
    ensures Steps(a + b) == Steps(a) + Steps(b)
  {
  }

  // ---------------------------------------------------------------- Rounds

  /** The groups below n that have a parser, upwards, but for those in skip. */
  function UpTo(nodes: seq<Argp>, key: Key, skip: set<nat>, n: nat): seq<Step>
    requires n <= |nodes|
  {
    if n == 0 then []
    else if nodes[n - 1].parser && n - 1 !in skip then UpTo(nodes, key, skip, n - 1) + [Step(n - 1, key)]
    else UpTo(nodes, key, skip, n - 1)
  }

  /** The groups that have a parser, downwards from the last to m. */
  function DownTo(nodes: seq<Argp>, key: Key, m: nat): seq<Step>
    requires m <= |nodes|
    decreases |nodes| - m
  {
    if m == |nodes| then []
    else if nodes[m].parser then DownTo(nodes, key, m + 1) + [Step(m, key)]
    else DownTo(nodes, key, m + 1)
  }

  /** How a run ends: NO_ARGS goes to groups below `waited`, END to those from `ended`, then ERROR to
      all or SUCCESS to those from `told`, and FINI to all. */
  datatype Ending = Ending(waited: nat, ended: nat, failed: bool, told: nat)

  predicate EndingFits(nodes: seq<Argp>, e: Ending) {
    e.waited <= |nodes| && e.ended <= |nodes| && e.told <= |nodes|
  }

  function EndingSteps(nodes: seq<Argp>, busy: set<nat>, e: Ending): seq<Step>
    requires EndingFits(nodes, e)
  {
    UpTo(nodes, NoArgs, busy, e.waited) + DownTo(nodes, AtEnd, e.ended)
    + (if e.failed then UpTo(nodes, Error, {}, |nodes|) else DownTo(nodes, Success, e.told))
    + DownTo(nodes, Fini, 0)
  }

  // ---------------------------------------------------------------- What one parser sees

  function Trace(steps: seq<Step>, g: nat): seq<Key>
    decreases |steps|
  {
    if steps == [] then []
    else if steps[|steps| - 1].group == g then Trace(steps[..|steps| - 1], g) + [steps[|steps| - 1].key]
    else Trace(steps[..|steps| - 1], g)
  }

  lemma {:induction false} TraceConcat(a: seq<Step>, b: seq<Step>, g: nat)
    ensures Trace(a + b, g) == Trace(a, g) + Trace(b, g)
    decreases |b|
  {
    if b == [] {
      assert a + b == a;
    } else {
      assert (a + b)[..|a + b| - 1] == a + b[..|b| - 1];
      TraceConcat(a, b[..|b| - 1], g);
    }
  }

  lemma TraceSnoc(a: seq<Step>, s: Step, g: nat)
    ensures Trace(a + [s], g) == if s.group == g then Trace(a, g) + [s.key] else Trace(a, g)
  {
    assert (a + [s])[..|a|] == a;
  }

  function Maybe(b: bool, key: Key): seq<Key> {
    if b then [key] else []
  }

  lemma TraceNone(g: nat)
    ensures Trace([], g) == []
  {
  }

  // At most one step of a round is for group g.
  lemma {:induction false} TraceUpTo(nodes: seq<Argp>, key: Key, skip: set<nat>, n: nat, g: nat)
    requires n <= |nodes|
    ensures Trace(UpTo(nodes, key, skip, n), g) == Maybe(g < n && nodes[g].parser && g !in skip, key)
  {
    hide Trace;
    TraceNone(g);
    if n > 0 {
      TraceUpTo(nodes, key, skip, n - 1, g);
      if nodes[n - 1].parser && n - 1 !in skip {
        TraceSnoc(UpTo(nodes, key, skip, n - 1), Step(n - 1, key), g);
      }
    }
  }

  lemma {:induction false} TraceDownTo(nodes: seq<Argp>, key: Key, m: nat, g: nat)
    requires m <= |nodes|
    ensures Trace(DownTo(nodes, key, m), g) == Maybe(m <= g < |nodes| && nodes[g].parser, key)
    decreases |nodes| - m
  {
    hide Trace;
    TraceNone(g);
    if m < |nodes| {
      TraceDownTo(nodes, key, m + 1, g);
      if nodes[m].parser {
        TraceSnoc(DownTo(nodes, key, m + 1), Step(m, key), g);
      }
    }
  }

  predicate Ordinary(key: Key) {
    key.UserOption? || key.Arg? || key.Args?
  }

  lemma {:induction false} TraceOrdinary(steps: seq<Step>, g: nat)
    requires forall s <- steps :: Ordinary(s.key)
    ensures forall k <- Trace(steps, g) :: Ordinary(k)
    decreases |steps|
  {
    if steps != [] {
      TraceOrdinary(steps[..|steps| - 1], g);
    }
  }

  /** A whole run after which everything was called: INIT for all groups, the keys of the arguments,
      and an ending. */
  function RunSteps(nodes: seq<Argp>, middle: seq<Step>, busy: set<nat>, e: Ending): seq<Step>
    requires EndingFits(nodes, e)
  {
    UpTo(nodes, Init, {}, |nodes|) + middle + EndingSteps(nodes, busy, e)
  }

  lemma TraceOfEnding(nodes: seq<Argp>, busy: set<nat>, e: Ending, g: nat)
    requires EndingFits(nodes, e) && g < |nodes|
    ensures Trace(EndingSteps(nodes, busy, e), g)
            == if !nodes[g].parser then []
               else Maybe(g < e.waited && g !in busy, NoArgs) + Maybe(g >= e.ended, AtEnd)
                    + (if e.failed then [Error] else Maybe(g >= e.told, Success)) + [Fini]
  {
    hide Trace, UpTo, DownTo;
    var wait, end := UpTo(nodes, NoArgs, busy, e.waited), DownTo(nodes, AtEnd, e.ended);
    var outcome := if e.failed then UpTo(nodes, Error, {}, |nodes|) else DownTo(nodes, Success, e.told);
    TraceConcat(wait + end + outcome, DownTo(nodes, Fini, 0), g);
    TraceConcat(wait + end, outcome, g);
    TraceConcat(wait, end, g);
    TraceUpTo(nodes, NoArgs, busy, e.waited, g);
    TraceDownTo(nodes, AtEnd, e.ended, g);
    TraceUpTo(nodes, Error, {}, |nodes|, g);
    TraceDownTo(nodes, Success, e.told, g);
    TraceDownTo(nodes, Fini, 0, g);
  }

  /** What any one parser sees of a run: INIT, then options and arguments, then at most one NO_ARGS,
      at most one END, at most one of ERROR and SUCCESS, and FINI. */
  lemma TraceOfRun(nodes: seq<Argp>, middle: seq<Step>, busy: set<nat>, e: Ending, g: nat)
    requires EndingFits(nodes, e) && g < |nodes| && nodes[g].parser
    ensures Trace(RunSteps(nodes, middle, busy, e), g)
            == [Init] + Trace(middle, g)
               + (Maybe(g < e.waited && g !in busy, NoArgs) + Maybe(g >= e.ended, AtEnd)
                  + (if e.failed then [Error] else Maybe(g >= e.told, Success)) + [Fini])
  {
    hide Trace, UpTo, EndingSteps;
    var init := UpTo(nodes, Init, {}, |nodes|);
    TraceUpTo(nodes, Init, {}, |nodes|, g);
    TraceConcat(init + middle, EndingSteps(nodes, busy, e), g);
    TraceConcat(init, middle, g);
    TraceOfEnding(nodes, busy, e, g);
  }

  /** An argp without a parser sees nothing. */
  lemma TraceOfNone(nodes: seq<Argp>, middle: seq<Step>, busy: set<nat>, e: Ending, g: nat)
    requires EndingFits(nodes, e) && g < |nodes| && !nodes[g].parser
    requires forall s <- middle :: s.group < |nodes| && nodes[s.group].parser
    ensures Trace(RunSteps(nodes, middle, busy, e), g) == []
  {
    hide Trace, UpTo, EndingSteps;
    var init := UpTo(nodes, Init, {}, |nodes|);
    TraceUpTo(nodes, Init, {}, |nodes|, g);
    NoTrace(middle, g);
    TraceConcat(init + middle, EndingSteps(nodes, busy, e), g);
    TraceConcat(init, middle, g);
    TraceOfEnding(nodes, busy, e, g);
  }

  lemma {:induction false} NoTrace(steps: seq<Step>, g: nat)
    requires forall s <- steps :: s.group != g
    ensures Trace(steps, g) == []
    decreases |steps|
  {
    if steps != [] {
      NoTrace(steps[..|steps| - 1], g);
    }
  }

  // ---------------------------------------------------------------- The order of the groups

  /** The argp of group d lies somewhere below that of group a in the tree. */
  predicate Below(argp: Argp, a: nat, d: nat)
    decreases argp, 1
  {
    if !IsGroup(argp) then BelowAll(argp.children, a, d)
    else if a == 0 then 0 < d < |Nodes(argp)|
    else d > 0 && BelowAll(argp.children, a - 1, d - 1)
  }

  predicate BelowAll(children: seq<Argp>, a: nat, d: nat)
    decreases children, 0
  {
    children != [] &&
    var n := |Nodes(children[0])|;
    if a < n then d < n && Below(children[0], a, d) else d >= n && BelowAll(children[1..], a - n, d - n)
  }

  lemma {:induction false} BelowIsBehind(argp: Argp, a: nat, d: nat)
    requires Below(argp, a, d)
    ensures a < d
    decreases argp, 1
  {
    if !IsGroup(argp) {
      BelowAllBehind(argp.children, a, d);
    } else if a > 0 {
      BelowAllBehind(argp.children, a - 1, d - 1);
    }
  }

  lemma {:induction false} BelowAllBehind(children: seq<Argp>, a: nat, d: nat)
    requires BelowAll(children, a, d)
    ensures a < d
    decreases children, 0
  {
    var n := |Nodes(children[0])|;
    if a < n {
      BelowIsBehind(children[0], a, d);
    } else {
      BelowAllBehind(children[1..], a - n, d - n);
    }
  }

  lemma {:induction false} DownDescends(nodes: seq<Argp>, key: Key, m: nat)
    requires m <= |nodes|
    ensures var steps := DownTo(nodes, key, m);
            && (forall s <- steps :: m <= s.group < |nodes|)
            && forall i, j :: 0 <= i < j < |steps| ==> steps[i].group > steps[j].group
    decreases |nodes| - m
  {
    if m < |nodes| {
      DownDescends(nodes, key, m + 1);
      var before, steps := DownTo(nodes, key, m + 1), DownTo(nodes, key, m);
      forall i, j | 0 <= i < j < |steps|
        ensures steps[i].group > steps[j].group
      {
        assert before[i] in before && (j < |before| ==> steps[j] == before[j]);
      }
    }
  }

  /** END, SUCCESS and FINI reach an argp after everything below it. */
  lemma DescendantsFirst(argp: Argp, key: Key, m: nat, i: nat, j: nat)
    requires m <= |Nodes(argp)|
    requires i < |DownTo(Nodes(argp), key, m)| && j < |DownTo(Nodes(argp), key, m)|
    requires Below(argp, DownTo(Nodes(argp), key, m)[j].group, DownTo(Nodes(argp), key, m)[i].group)
    ensures i < j
  {
    BelowIsBehind(argp, DownTo(Nodes(argp), key, m)[j].group, DownTo(Nodes(argp), key, m)[i].group);
    DownDescends(Nodes(argp), key, m);
  }

  lemma {:induction false} UpToKeys(nodes: seq<Argp>, key: Key, skip: set<nat>, n: nat)
    requires n <= |nodes|
    ensures forall s <- UpTo(nodes, key, skip, n) :: s.key == key
  {
    if n > 0 {
      UpToKeys(nodes, key, skip, n - 1);
    }
  }

  lemma {:induction false} DownToKeys(nodes: seq<Argp>, key: Key, m: nat)
    requires m <= |nodes|
    ensures forall s <- DownTo(nodes, key, m) :: s.key == key
    decreases |nodes| - m
  {
    if m < |nodes| {
      DownToKeys(nodes, key, m + 1);
    }
  }

  predicate Downward(key: Key) {
    key.AtEnd? || key.Success? || key.Fini?
  }

  // Steps of one key that all lie in a round in the middle.
  lemma WithinRound(front: seq<Step>, round: seq<Step>, back: seq<Step>, key: Key, i: nat)
    requires i < |front + round + back| && (front + round + back)[i].key == key
    requires (forall s <- front :: s.key != key) && forall s <- back :: s.key != key
    ensures |front| <= i < |front| + |round| && (front + round + back)[i] == round[i - |front|]
  {
    var all := front + round + back;
    assert forall k :: 0 <= k < |front| ==> all[k] in front;
    assert forall k :: |front| + |round| <= k < |all| ==> all[k] in back;
  }

  // The round of a key, and what is called before it and after it.
  lemma RoundOf(nodes: seq<Argp>, middle: seq<Step>, busy: set<nat>, e: Ending, key: Key)
    returns (front: seq<Step>, m: nat, back: seq<Step>)
    requires EndingFits(nodes, e) && Downward(key) && (key.Success? ==> !e.failed)
    requires forall s <- middle :: Ordinary(s.key)
    ensures m <= |nodes| && RunSteps(nodes, middle, busy, e) == front + DownTo(nodes, key, m) + back
    ensures (forall s <- front :: s.key != key) && forall s <- back :: s.key != key
  {
    hide UpTo, DownTo;
    var n := |nodes|;
    var init, wait, end := UpTo(nodes, Init, {}, n), UpTo(nodes, NoArgs, busy, e.waited), DownTo(nodes, AtEnd, e.ended);
    var outcome := if e.failed then UpTo(nodes, Error, {}, n) else DownTo(nodes, Success, e.told);
    var fini := DownTo(nodes, Fini, 0);
    UpToKeys(nodes, Init, {}, n);
    UpToKeys(nodes, NoArgs, busy, e.waited);
    DownToKeys(nodes, AtEnd, e.ended);
    UpToKeys(nodes, Error, {}, n);
    DownToKeys(nodes, Success, e.told);
    DownToKeys(nodes, Fini, 0);
    match key
    case AtEnd => front, m, back := init + middle + wait, e.ended, outcome + fini;
    case Success => front, m, back := init + middle + wait + end, e.told, fini;
    case Fini => front, m, back := init + middle + wait + end + outcome, 0, [];
  }

  /** In a whole run, END, SUCCESS and FINI reach an argp after everything below it. */
  lemma RunDescendants(argp: Argp, middle: seq<Step>, busy: set<nat>, e: Ending, i: nat, j: nat)
    requires EndingFits(Nodes(argp), e) && forall s <- middle :: Ordinary(s.key)
    requires var steps := RunSteps(Nodes(argp), middle, busy, e);
             && i < |steps| && j < |steps| && steps[i].key == steps[j].key && Downward(steps[i].key)
             && Below(argp, steps[j].group, steps[i].group)
    ensures i < j
  {
    hide UpTo, DownTo, RunSteps, Below;
    var nodes := Nodes(argp);
    var steps := RunSteps(nodes, middle, busy, e);
    var key := steps[i].key;
    if key.Success? && e.failed {
      NoSuccess(nodes, middle, busy, e, i);
    } else {
      var front, m, back := RoundOf(nodes, middle, busy, e, key);
      WithinRound(front, DownTo(nodes, key, m), back, key, i);
      WithinRound(front, DownTo(nodes, key, m), back, key, j);
      DescendantsFirst(argp, key, m, i - |front|, j - |front|);
    }
  }

  lemma NoSuccess(nodes: seq<Argp>, middle: seq<Step>, busy: set<nat>, e: Ending, i: nat)
    requires EndingFits(nodes, e) && e.failed && forall s <- middle :: Ordinary(s.key)
    requires i < |RunSteps(nodes, middle, busy, e)|
    ensures !RunSteps(nodes, middle, busy, e)[i].key.Success?
  {
    hide UpTo, DownTo;
    UpToKeys(nodes, Init, {}, |nodes|);
    UpToKeys(nodes, NoArgs, busy, e.waited);
    DownToKeys(nodes, AtEnd, e.ended);
    UpToKeys(nodes, Error, {}, |nodes|);
    DownToKeys(nodes, Fini, 0);
    assert forall s <- RunSteps(nodes, middle, busy, e) :: !s.key.Success?;
  }

  // ---------------------------------------------------------------- The INIT round

  /** All that a run depends on but getopt. */
  datatype World = World(nodes: seq<Argp>, links: seq<Link>, parsers: Parsers, input: Input)
  {
    ghost predicate Sound() {
      |links| == |nodes| && forall g :: 0 <= g < |nodes| ==> D.Tied(nodes, links[g], g)
    }
  }

  function Zeros(n: nat): (r: seq<Input>)
    ensures |r| == n
  {
    seq(n, i => 0)
  }

  function Padded(inputs: seq<Input>, n: nat): (r: seq<Input>)
    ensures |r| == n
  {
    if |inputs| >= n then inputs[..n] else inputs + Zeros(n - |inputs|)
  }

  function InitCalls(w: World, k: nat): seq<Call>
    requires k <= |w.nodes|
  {
    if k == 0 then []
    else
      var before, step := InitCalls(w, k - 1), Step(k - 1, Init);
      if w.nodes[k - 1].parser then before + [Call(step, w.parsers(before, step).err)] else before
  }

  /** The input of a group: what its parent left for it. */
  ghost function InputOf(w: World, g: nat): Input
    requires w.Sound() && g < |w.nodes|
    decreases g, 0
  {
    if w.links[g].parent.Some? then
      assert D.Tied(w.nodes, w.links[g], g);
      Left(w, w.links[g].parent.value)[w.links[g].index]
    else if g == 0 then w.input
    else 0
  }

  /** What a group leaves for its children: the parser decides, and an argp without a parser hands
      its own input to its first child. */
  ghost function Left(w: World, g: nat): (r: seq<Input>)
    requires w.Sound() && g < |w.nodes|
    ensures |r| == |w.nodes[g].children|
    decreases g, 1
  {
    var n := |w.nodes[g].children|;
    if w.nodes[g].parser then Padded(w.parsers(InitCalls(w, g), Step(g, Init)).inputs, n)
    else if n == 0 then []
    else [InputOf(w, g)] + Zeros(n - 1)
  }

  /** A group gets what its parent's parser left in its place at INIT, or 0 if nothing, or, below an
      argp without a parser, as the first child its parent's own input. */
  lemma InputFromParent(w: World, g: nat)
    requires w.Sound() && g < |w.nodes|
    ensures w.links[g].parent == None ==> InputOf(w, g) == if g == 0 then w.input else 0
    ensures w.links[g].parent.Some? ==>
              var p, i := w.links[g].parent.value, w.links[g].index;
              && p < g && i < |w.nodes[p].children|
              && InputOf(w, g) ==
                 if w.nodes[p].parser then
                   var left := w.parsers(InitCalls(w, p), Step(p, Init)).inputs;
                   if i < |left| then left[i] else 0
                 else if i == 0 then InputOf(w, p)
                 else 0
  {
    assert D.Tied(w.nodes, w.links[g], g);
  }

  ghost function AllLeft(w: World, k: nat): (r: seq<Input>)
    requires w.Sound() && k <= |w.nodes|
    ensures |r| == SlotCount(w.nodes[..k])
  {
    if k == 0 then []
    else
      assert w.nodes[..k][..k - 1] == w.nodes[..k - 1];
      AllLeft(w, k - 1) + Left(w, k - 1)
  }

  /** The slots of a group stay as it left them while the slots of later groups are filled. */
  lemma {:induction false} LeftAt(w: World, k: nat, p: nat, i: nat)
    requires w.Sound() && p < k <= |w.nodes| && i < |w.nodes[p].children|
    ensures SlotCount(w.nodes[..p]) + i < SlotCount(w.nodes[..k])
    ensures AllLeft(w, k)[SlotCount(w.nodes[..p]) + i] == Left(w, p)[i]
  {
    assert w.nodes[..k][..k - 1] == w.nodes[..k - 1];
    if p < k - 1 {
      LeftAt(w, k - 1, p, i);
    }
  }

  lemma {:induction false} InitRound(w: World, k: nat)
    requires k <= |w.nodes|
    ensures Steps(InitCalls(w, k)) == UpTo(w.nodes, Init, {}, k)
  {
    if k > 0 {
      InitRound(w, k - 1);
    }
  }

  /** Child inputs after a call: a parser writes the slots of its own group only. */
  function Stored(slots: seq<Input>, nodes: seq<Argp>, g: nat, inputs: seq<Input>): seq<Input>
    requires g < |nodes| && SlotCount(nodes[..g]) + |nodes[g].children| <= |slots|
  {
    var at := SlotCount(nodes[..g]);
    var n := if |inputs| < |nodes[g].children| then |inputs| else |nodes[g].children|;
    slots[..at] + inputs[..n] + slots[at + n..]
  }

  // ---------------------------------------------------------------- The run

  /** What getopt says: an option or an end, where it stopped, and whether a "--" is before that. */
  datatype Outcome = Outcome(opt: int, optopt: int, optind: int, quote: bool)

  // The calls for an argument that the groups below n refuse.
  function Refused(nodes: seq<Argp>, n: nat): seq<Call>
    requires n <= |nodes|
  {
    if n == 0 then []
    else if nodes[n - 1].parser then
      Refused(nodes, n - 1) + [Call(Step(n - 1, Arg), EBADKEY), Call(Step(n - 1, Args), EBADKEY)]
    else Refused(nodes, n - 1)
  }

  /** Every call in a log returned what its parser answers after the calls before it. */
  ghost predicate Answered(parsers: Parsers, calls: seq<Call>) {
    forall i :: 0 <= i < |calls| ==> calls[i].err == parsers(calls[..i], calls[i].step).err
  }

  // Where the last call left state->next.
  function LastNext(parsers: Parsers, calls: seq<Call>): int
    requires calls != []
  {
    parsers(calls[..|calls| - 1], calls[|calls| - 1].step).next
  }

  lemma AnsweredSnoc(parsers: Parsers, calls: seq<Call>, step: Step)
    requires Answered(parsers, calls)
    ensures var more := calls + [Call(step, parsers(calls, step).err)];
            Answered(parsers, more) && LastNext(parsers, more) == parsers(calls, step).next
  {
    var more := calls + [Call(step, parsers(calls, step).err)];
    assert more[..|calls|] == calls;
    forall i | 0 <= i < |calls|
      ensures more[i].err == parsers(more[..i], more[i].step).err
    {
      assert more[..i] == calls[..i];
    }
  }

  // ---------------------------------------------------------------- One step

  /** What the loop over the arguments works on. */
  datatype Snapshot =
    Snapshot(calls: seq<Call>, next: int, quoted: int, tryGetopt: bool, argEbadkey: bool, asked: nat, processed: seq<int>)

  datatype Upcoming = Upcoming(end: bool, opt: int, state: Snapshot)

  /** What comes next: an option of getopt, while it is asked, else an argument, unless none is left. */
  function Next(s: Snapshot, o: Outcome, argc: int, noArgs: bool): Upcoming {
    var s1 := if s.quoted != 0 && s.next < s.quoted then s.(quoted := 0) else s;
    var asks := s1.tryGetopt && s1.quoted == 0;
    var s2 := if asks then s1.(asked := s.asked + 1, next := o.optind) else s1;
    if asks && o.opt == KEY_ERR && o.optopt != KEY_END then Upcoming(true, o.opt, s2.(argEbadkey := false))
    else if asks && o.opt != KEY_END then Upcoming(false, o.opt, s2)
    else
      var s3 := if !asks then s2
                else s2.(tryGetopt := false, quoted := if o.optind > 1 && o.quote then o.optind else 0);
      if s3.next >= argc || noArgs then Upcoming(true, KEY_END, s3.(argEbadkey := true))
      else Upcoming(false, KEY_ARG, s3.(next := s3.next + 1))
  }

  /** The calls for an argument: all groups before the taker refuse it, alone and with the rest. */
  predicate Tried(nodes: seq<Argp>, before: seq<Call>, after: seq<Call>, err: int, taker: nat) {
    if err == EBADKEY then after == before + Refused(nodes, |nodes|)
    else
      taker < |nodes| && nodes[taker].parser
      && (|| after == before + (Refused(nodes, taker) + [Call(Step(taker, Arg), err)])
          || after == before + (Refused(nodes, taker) + [Call(Step(taker, Arg), EBADKEY), Call(Step(taker, Args), err)]))
  }

  /** An argument: a taker's count grows by the arguments that it consumed; when it put `next` back
      instead, getopt is asked again.  Taking all that are left moves `next` to the end. */
  predicate TookArg(parsers: Parsers, nodes: seq<Argp>, argc: int, s: Snapshot, t: Snapshot, err: int, taker: nat) {
    && Tried(nodes, s.calls, t.calls, err, taker) && t.quoted == s.quoted && t.asked == s.asked
    && |t.calls| >= |s.calls|
    && t.next == (if |t.calls| == |s.calls| then s.next - 1
                  else if err == 0 && t.calls[|t.calls| - 1].step.key.Args? then argc
                  else LastNext(parsers, t.calls))
    && (if err == 0 && t.next >= s.next then
          && taker < |s.processed| && t.processed == s.processed[taker := s.processed[taker] + (t.next - (s.next - 1))]
          && t.tryGetopt == s.tryGetopt
        else t.processed == s.processed && t.tryGetopt == (s.tryGetopt || err == 0))
  }

  /** An option: the parser of the group that it is dispatched to, if it has one, gets the key. */
  predicate TookOption(parsers: Parsers, prefix: string, nodes: seq<Argp>, opt: int, s: Snapshot, t: Snapshot, err: int,
                       g: Option<nat>, key: int) {
    && D.Dispatched(prefix, nodes, opt, g, key)
    && t.quoted == s.quoted && t.tryGetopt == s.tryGetopt && t.asked == s.asked && t.processed == s.processed
    && if g.Some? && g.value < |nodes| && nodes[g.value].parser then
         var step := Step(g.value, UserOption(key));
         t.calls == s.calls + [Call(step, err)] && t.next == parsers(s.calls, step).next
       else t.calls == s.calls && t.next == s.next && err == EBADKEY
  }

  // The run ended with an error, but for arguments that nobody took.
  predicate Aborted(s: Snapshot, err0: int) {
    err0 != 0 && !(err0 == EBADKEY && s.argEbadkey)
  }

  /** The calls behind the last argument: NO_ARGS and END, then ERROR or SUCCESS, then FINI. */
  datatype Winding = Winding(closing: seq<Call>, outcome: seq<Call>, cleanup: seq<Call>)

  predicate WindingSteps(nodes: seq<Argp>, busy: set<nat>, e: Ending, w: Winding)
    requires EndingFits(nodes, e)
  {
    && Steps(w.closing) == UpTo(nodes, NoArgs, busy, e.waited) + DownTo(nodes, AtEnd, e.ended)
    && Steps(w.outcome) == (if e.failed then UpTo(nodes, Error, {}, |nodes|) else DownTo(nodes, Success, e.told))
    && Steps(w.cleanup) == DownTo(nodes, Fini, 0)
  }

  // Any error but a refusal stops a round.
  predicate Fatal(err: int) {
    err != 0 && err != EBADKEY
  }

  /** A round stops at the first call that fails, and that call's error is the error of the round. */
  predicate Stops(more: seq<Call>, err: int) {
    && (forall i :: 0 <= i < |more| - 1 ==> !Fatal(more[i].err))
    && (Fatal(err) <==> more != [] && Fatal(more[|more| - 1].err))
    && (Fatal(err) ==> err == more[|more| - 1].err)
  }

  /** How a run that comes to its end in s with err0 is wound up: an error is told to all; left over
      arguments are an error unless the caller wants to know of them; when there are none the rounds of
      NO_ARGS and END go on until a call fails, whose error it is then; after SUCCESS the error is that
      of the call that failed, if one did. */
  predicate Ends(n: nat, argc: int, wantsIndex: bool, s: Snapshot, err0: int, err: int, e: Ending, w: Winding) {
    if Aborted(s, err0) then
      e == Ending(0, n, true, n) && w.closing == [] && err == if err0 == EBADKEY then EINVAL else err0
    else if s.next != argc && !wantsIndex then
      e == Ending(0, n, true, n) && w.closing == [] && err == EINVAL
    else
      && (if s.next == argc then
            Stops(w.closing, if e.failed then err else 0) && (e.failed ==> Fatal(err) && e.told == n)
            && (!e.failed ==> e.waited == n && e.ended == 0)
          else !e.failed && w.closing == [] && e.waited == 0 && e.ended == n)
      && (!e.failed ==> (err == 0 || Fatal(err)) && Stops(w.outcome, err) && (err == 0 ==> e.told == 0))
  }

  /** The state after the INIT round, when no call of it failed. */
  function Begun(w: World): Snapshot {
    var calls := InitCalls(w, |w.nodes|);
    Snapshot(calls, if calls == [] then 0 else LastNext(w.parsers, calls), 0, true, false, 0, Zeros(|w.nodes|))
  }

  /** The index of the first argument that nobody took: where the loop stopped, unless a call of
      NO_ARGS or END has moved it since. */
  function EndOf(parsers: Parsers, s: Snapshot, w: Winding): int {
    if w.closing == [] then s.next else LastNext(parsers, s.calls + w.closing)
  }

  class Run {
    const parser: Parser
    const egroup: nat
    const argc: int
    const noArgs: bool
    const wantsIndex: bool
    const input: Input
    const parsers: Parsers
    const getopt: nat -> Outcome
    // what the tables were made from
    ghost const prefix: string
    ghost const nodes: seq<Argp>
    ghost const links: seq<Link>

    var calls: seq<Call>
    var next: int
    var quoted: int
    var tryGetopt: bool
    var argEbadkey: bool
    var asked: nat
    var processed: seq<int>
    var inputs: seq<Input>
    var childInputs: seq<Input>
    var endIndex: Option<int>
    var freed: bool

    ghost predicate Tables()
      reads parser, parser.shortOpts, parser.longOpts, parser.groups
    {
      && parser.Filled(prefix, nodes, links) && '\0' !in prefix && egroup == |nodes|
      && (forall g :: 0 <= g < |nodes| ==> D.Tied(nodes, links[g], g))
      && (forall i :: getopt(i).opt == KEY_END || D.FromTables(nodes, getopt(i).opt))
    }

    ghost predicate Valid()
      reads this, parser, parser.shortOpts, parser.longOpts, parser.groups
    {
      && Tables() && |processed| == |inputs| == |nodes| && |childInputs| >= SlotCount(nodes)
      && (forall g :: 0 <= g < |nodes| ==> processed[g] >= 0) && Answered(parsers, calls)
    }

    function Now(): Snapshot
      reads this
    {
      Snapshot(calls, next, quoted, tryGetopt, argEbadkey, asked, processed)
    }

    /** One step of the loop over the arguments leads from s to t. */
    ghost predicate OneStep(s: Snapshot, t: Snapshot, err: int) {
      var up := Next(s, getopt(s.asked), argc, noArgs);
      if up.end then t == up.state && err == EBADKEY
      else if up.opt == KEY_ARG then
        exists taker :: TookArg(parsers, nodes, argc, up.state, t, err, taker)
                        && t.argEbadkey == (err == EBADKEY || up.state.argEbadkey)
      else
        exists g, key :: TookOption(parsers, prefix, nodes, up.opt, up.state, t, err, g, key)
                         && t.argEbadkey == (err != EBADKEY && up.state.argEbadkey)
    }

    ghost function TheWorld(): World {
      World(nodes, links, parsers, input)
    }

    /** What is left to do of parser_init after the tables are made. */
    constructor (parser: Parser, egroup: nat, argc: int, noArgs: bool, wantsIndex: bool, input: Input,
                 parsers: Parsers, getopt: nat -> Outcome, ghost prefix: string, ghost nodes: seq<Argp>, ghost links: seq<Link>)
      requires parser.Filled(prefix, nodes, links) && '\0' !in prefix && egroup == |nodes|
      requires SlotCount(nodes) <= parser.sizes.numChildInputs
      requires forall g :: 0 <= g < |nodes| ==> D.Tied(nodes, links[g], g)
      requires forall i :: getopt(i).opt == KEY_END || D.FromTables(nodes, getopt(i).opt)
      ensures Valid() && calls == [] && inputs == Zeros(|nodes|) && childInputs == Zeros(|childInputs|)
      ensures processed == Zeros(|nodes|) && tryGetopt && !freed && !argEbadkey && endIndex == None && next == quoted == asked == 0
      ensures this.parser == parser && this.egroup == egroup && this.argc == argc && this.noArgs == noArgs
      ensures this.wantsIndex == wantsIndex && this.input == input && this.parsers == parsers && this.getopt == getopt
      ensures this.prefix == prefix && this.nodes == nodes && this.links == links
    {
      this.parser, this.egroup, this.argc, this.noArgs := parser, egroup, argc, noArgs;
      this.wantsIndex, this.input, this.parsers, this.getopt := wantsIndex, input, parsers, getopt;
      this.prefix, this.nodes, this.links := prefix, nodes, links;
      calls, next, quoted, tryGetopt, argEbadkey, asked := [], 0, 0, true, false, 0;
      processed, inputs, childInputs := Zeros(egroup), Zeros(egroup), Zeros(parser.sizes.numChildInputs);
      endIndex, freed := None, false;
    }

    lemma GroupAt(g: nat)
      requires Tables() && g < |nodes|
      ensures |nodes| == |links| && g < parser.groups.Length
      ensures parser.groups[g] == Record(prefix, nodes, links[g], g) && D.Tied(nodes, links[g], g)
      ensures SlotCount(nodes[..g]) + |nodes[g].children| == SlotCount(nodes[..g + 1]) <= SlotCount(nodes)
      ensures TheWorld().Sound()
    {
      assert nodes[..g + 1][..g] == nodes[..g];
      assert nodes == nodes[..g + 1] + nodes[g + 1..];
      SlotConcat(nodes[..g + 1], nodes[g + 1..]);
    }

    method GroupParse(group: nat, key: Key) returns (err: int)
      requires Valid() && group < |nodes|
      modifies this`calls, this`next, this`childInputs
      ensures Valid()
      ensures var step := Step(group, key);
              var a := parsers(old(calls), step);
              SlotCount(nodes[..group]) + |nodes[group].children| <= |old(childInputs)| &&
              if nodes[group].parser then
                err == a.err && calls == old(calls) + [Call(step, err)] && next == a.next
                && childInputs == Stored(old(childInputs), nodes, group, a.inputs) && LastNext(parsers, calls) == next
              else err == EBADKEY && calls == old(calls) && next == old(next) && childInputs == old(childInputs)
    {
      hide Tables, SlotCount, D.Tied, Answered, LastNext;
      GroupAt(group);
      var g := parser.groups[group];
      if g.argp.parser {
        var step := Step(group, key);
        var a := parsers(calls, step);
        err := a.err;
        AnsweredSnoc(parsers, calls, step);
        calls, next := calls + [Call(step, err)], a.next;
        if g.slots.Some? {
          var at: nat := g.slots.value;
          var n := if |a.inputs| < |g.argp.children| then |a.inputs| else |g.argp.children|;
          childInputs := childInputs[..at] + a.inputs[..n] + childInputs[at + n..];
        } else {
          ghost var at := SlotCount(nodes[..group]);
          assert childInputs == childInputs[..at] + a.inputs[..0] + childInputs[at + 0..];
        }
      } else {
        err := EBADKEY;
      }
    }

    // A child gets its input; an argp without a parser hands it to its first child.
    method GiveInput(group: nat)
      requires Valid() && group < |nodes|
      requires InputsUpTo(TheWorld(), inputs, group) && SlotsUpTo(TheWorld(), childInputs, group)
      modifies this`inputs, this`childInputs
      ensures Valid() && InputsUpTo(TheWorld(), inputs, group + 1)
      ensures SlotCount(nodes[..group]) + |nodes[group].children| <= |old(childInputs)|
      ensures childInputs == Handed(TheWorld(), old(childInputs), group)
    {
      hide Tables, SlotCount, D.Tied, InputOf, AllLeft, World.Sound, SlotsUpTo, InputsUpTo;
      GroupAt(group);
      ghost var w := TheWorld();
      InputLength(w, inputs, group);
      var g := parser.groups[group];
      ghost var was := inputs;
      if g.link.parent.Some? {
        LeftFor(w, group, childInputs);
        GroupAt(g.link.parent.value);
        var up := parser.groups[g.link.parent.value];
        inputs := inputs[group := childInputs[up.slots.value + g.link.index]];
      }
      InputNow(w, was, inputs, group);
      if !g.argp.parser && g.argp.children != [] {
        childInputs := childInputs[g.slots.value := inputs[group]];
      }
    }

    /** Calls every parser for the first time, parents first; the inputs are handed down the tree. */
    method InitGroups() returns (err: int, ghost k: nat)
      requires Valid() && calls == [] && inputs == Zeros(|nodes|) && childInputs == Zeros(|childInputs|)
      modifies this`calls, this`next, this`childInputs, this`inputs
      ensures Valid() && TheWorld().Sound() && k <= |nodes| && calls == InitCalls(TheWorld(), k)
      ensures InputsUpTo(TheWorld(), inputs, k)
      ensures (err == 0 ==> k == |nodes|) && err != EBADKEY && Stops(calls, err)
      ensures next == if calls == [] then old(next) else LastNext(parsers, calls)
      ensures err != 0 ==> k > 0 && calls != [] && calls[|calls| - 1] == Call(Step(k - 1, Init), err)
    {
      hide Tables, SlotCount, D.Tied, World.Sound, SlotsUpTo, InputsUpTo, InitCalls, Handed, Stored, Zeros, Stops, LastNext, Answered;
      err := 0;
      StopsNone(0);
      var group := 0;
      WorldSound();
      ghost var w := TheWorld();
      NothingYet(w, |childInputs|);
      if group < egroup {
        inputs := inputs[0 := input];
      }
      while group < egroup && (err == 0 || err == EBADKEY)
        invariant Valid() && group <= egroup == |nodes| && calls == InitCalls(w, group)
        invariant InputsUpTo(w, inputs, group)
        invariant err == 0 || err == EBADKEY ==> SlotsUpTo(w, childInputs, group)
        invariant Stops(calls, err) && next == if calls == [] then old(next) else LastNext(parsers, calls)
        invariant Fatal(err) ==> group > 0 && calls != [] && calls[|calls| - 1] == Call(Step(group - 1, Init), err)
      {
        ghost var before := childInputs;
        GiveInput(group);
        ghost var handed := childInputs;
        ghost var soFar, was := calls, err;
        err := GroupParse(group, Init);
        StopsStep(soFar, was, calls, err);
        InitStep(w, group);
        LeftNow(w, group, before, handed, childInputs);
        group := group + 1;
      }
      k := group;
      if err == EBADKEY {
        StopsSettled(calls, err);
        err := 0;
      }
    }

    /** Each parser in turn, upwards, is offered the argument alone, then all that are left, until one
        does not refuse; `group` is behind that one. */
    method OfferArg() returns (err: int, key: Key, group: nat)
      requires Valid()
      modifies this`calls, this`next, this`childInputs
      ensures Valid() && group <= |nodes| && |calls| >= |old(calls)|
      ensures Tried(nodes, old(calls), calls, err, if group > 0 then group - 1 else 0)
      ensures next == if |calls| == |old(calls)| then old(next) else LastNext(parsers, calls)
      ensures err != EBADKEY ==> group > 0 && |calls| > |old(calls)| && calls[|calls| - 1].step.key == key
    {
      hide Tables, SlotCount, Stored, Answered, LastNext, Refused, Tried;
      TablesSize();
      err, key, group := EBADKEY, Init, 0;
      NoneRefused(calls);
      while group < egroup && err == EBADKEY
        invariant Valid() && group <= |nodes| && |calls| >= |old(calls)|
        invariant next == if |calls| == |old(calls)| then old(next) else LastNext(parsers, calls)
        invariant if err == EBADKEY then calls == old(calls) + Refused(nodes, group)
                  else group > 0 && Tried(nodes, old(calls), calls, err, group - 1)
                       && |calls| > |old(calls)| && calls[|calls| - 1].step.key == key
      {
        ghost var before := calls;
        next := next + 1;
        key := Arg;
        err := GroupParse(group, key);
        if err == EBADKEY {
          next := next - 1;
          key := Args;
          err := GroupParse(group, key);
        }
        TryStep(old(calls), before, calls, nodes, group, err);
        group := group + 1;
      }
      TriedAll(nodes, old(calls), calls, if group > 0 then group - 1 else 0);
    }

    /** A non-option argument.  `taker` is the group that did not refuse. */
    method ParseArg() returns (err: int, ghost taker: nat)
      requires Valid()
      modifies this`calls, this`next, this`childInputs, this`processed, this`tryGetopt
      ensures Valid() && TookArg(parsers, nodes, argc, old(Now()), Now(), err, taker)
    {
      hide Tables, SlotCount, Answered, LastNext, Refused, Tried;
      next := next - 1;
      var index := next;
      var key: Key, group: nat;
      err, key, group := OfferArg();
      taker := if group > 0 then group - 1 else 0;
      TakerInRange(nodes, old(calls), calls, err, taker);
      if err == 0 {
        if key == Args {
          next := argc;
        }
        if next > index {
          group := group - 1;
          processed := processed[group := processed[group] + (next - index)];
        } else {
          tryGetopt := true;
        }
      }
    }

    /** An option: the parser of the group that it is dispatched to. */
    method ParseOpt(opt: int) returns (err: int, ghost g: Option<nat>, ghost key: int)
      requires Valid() && D.FromTables(nodes, opt)
      modifies this`calls, this`next, this`childInputs
      ensures Valid() && TookOption(parsers, prefix, nodes, opt, old(Now()), Now(), err, g, key)
    {
      TablesSize();
      var group, k := D.GroupFor(parser, egroup, opt, prefix, nodes, links);
      g, key := group, k;
      hide Tables, SlotCount, Stored, D.Dispatched, D.FromTables, Answered;
      err := EBADKEY;
      if group.Some? {
        err := GroupParse(group.value, UserOption(k));
      }
    }

    /** What comes next, an option or an argument; `end` when there is neither or the option is
        unknown to getopt. */
    method NextOption() returns (opt: int, end: bool)
      modifies this`next, this`tryGetopt, this`quoted, this`asked, this`argEbadkey
      ensures Upcoming(end, opt, Now()) == Next(old(Now()), getopt(old(asked)), argc, noArgs)
    {
      if quoted != 0 && next < quoted {
        quoted := 0;
      }
      opt, end := KEY_END, true;
      if tryGetopt && quoted == 0 {
        var outcome := getopt(asked);
        asked := asked + 1;
        opt, next := outcome.opt, outcome.optind;
        if opt == KEY_END {
          tryGetopt := false;
          if next > 1 && outcome.quote {
            quoted := next;
          }
        } else if opt == KEY_ERR && outcome.optopt != KEY_END {
          argEbadkey := false;
          return;
        }
      }
      if opt == KEY_END {
        if next >= argc || noArgs {
          argEbadkey := true;
          return;
        }
        opt := KEY_ARG;
        next := next + 1;
      }
      end := false;
    }

    /** One step of the loop over the arguments.  `more` are the calls that it leads to. */
    method ParseNext() returns (err: int, ghost more: seq<Call>)
      requires Valid() && Busy(calls, processed)
      modifies this`calls, this`next, this`childInputs, this`processed, this`tryGetopt, this`quoted, this`asked, this`argEbadkey
      ensures Valid() && Busy(calls, processed) && calls == old(calls) + more
      ensures OneStep(old(Now()), Now(), err)
      ensures forall c <- more :: Ordinary(c.step.key)
      ensures err == EBADKEY ==> forall c <- more :: c.step.key.UserOption? <==> !argEbadkey
    {
      hide Tables, Busy, D.Dispatched, D.FromTables, Refused, Taken, Answered, TookArg, TookOption;
      more := [];
      NothingMore(calls);
      OutcomeAt(asked);
      var opt, end := NextOption();
      assert Valid() by {
        hide Next;
      }
      if end {
        return EBADKEY, [];
      }
      ghost var up := Now();
      if opt == KEY_ARG {
        ghost var taker: nat;
        err, taker := ParseArg();
        more := ArgCalls(parsers, nodes, argc, up, Now(), err, taker);
        FlagOfArg(parsers, nodes, argc, up, Now(), err, taker);
        StayBusy(old(calls), more, old(processed), processed, taker);
      } else {
        ghost var g: Option<nat>, key: int;
        err, g, key := ParseOpt(opt);
        more := OptionCalls(parsers, prefix, nodes, opt, up, Now(), err, g, key);
        FlagOfOption(parsers, prefix, nodes, opt, up, Now(), err, g, key);
        StayBusy(old(calls), more, old(processed), processed, 0);
      }
      if err == EBADKEY {
        argEbadkey := opt == KEY_END || opt == KEY_ARG;
      }
    }

    // Upwards: NO_ARGS to the idle groups until one fails, ERROR to all.
    method AskUp(key: Key, idle: bool, err0: int) returns (err: int, ghost n: nat, ghost more: seq<Call>)
      requires Valid() && (idle ==> !Fatal(err0))
      modifies this`calls, this`next, this`childInputs
      ensures Valid() && n <= |nodes| && calls == old(calls) + more
      ensures Steps(more) == UpTo(nodes, key, if idle then BusyGroups(processed) else {}, n)
      ensures if idle then Stops(more, err) && (n < |nodes| ==> Fatal(err)) else n == |nodes| && err == err0
      ensures next == if more == [] then old(next) else LastNext(parsers, calls)
    {
      hide Tables, SlotCount, Stored, Steps, Stops, Answered, LastNext;
      TablesSize();
      ghost var skip := if idle then BusyGroups(processed) else {};
      NoRound(nodes, key, skip);
      NothingMore(calls);
      StopsNone(err0);
      err, more := err0, [];
      var group := 0;
      while group < egroup && (!idle || !Fatal(err))
        invariant Valid() && group <= |nodes| && (if idle then Stops(more, err) else err == err0)
        invariant calls == old(calls) + more && Steps(more) == UpTo(nodes, key, skip, group)
        invariant next == if more == [] then old(next) else LastNext(parsers, calls)
      {
        ghost var before, was := more, err;
        if !idle || processed[group] == 0 {
          var e := GroupParse(group, key);
          if idle {
            err := e;
          }
          more := if nodes[group].parser then before + [Call(Step(group, key), e)] else before;
          Regroup(old(calls), before, [Call(Step(group, key), e)]);
        }
        if idle {
          StopsStep(before, was, more, err);
        }
        UpStep(before, more, nodes, key, skip, group);
        group := group + 1;
      }
      n := group;
    }

    // Downwards: END and SUCCESS until one fails, FINI to all.
    method AskDown(key: Key, err0: int) returns (err: int, ghost m: nat, ghost more: seq<Call>)
      requires Valid()
      modifies this`calls, this`next, this`childInputs
      ensures Valid() && m <= |nodes| && calls == old(calls) + more
      ensures Steps(more) == DownTo(nodes, key, m)
      ensures if key.Fini? then m == 0 && err == err0
              else if Fatal(err0) then m == |nodes| && err == err0 && more == []
              else Stops(more, err) && (m > 0 ==> Fatal(err))
      ensures next == if more == [] then old(next) else LastNext(parsers, calls)
    {
      hide Tables, SlotCount, Stored, Steps, Stops, Answered, LastNext;
      TablesSize();
      NoRound(nodes, key, {});
      NothingMore(calls);
      StopsNone(err0);
      err, more := err0, [];
      var group: nat := egroup;
      while group > 0 && (key.Fini? || !Fatal(err))
        invariant Valid() && group <= |nodes| && (key.Fini? ==> err == err0)
        invariant Fatal(err0) && !key.Fini? ==> group == |nodes| && err == err0 && more == []
        invariant !Fatal(err0) && !key.Fini? ==> Stops(more, err)
        invariant calls == old(calls) + more && Steps(more) == DownTo(nodes, key, group)
        invariant next == if more == [] then old(next) else LastNext(parsers, calls)
      {
        ghost var before, was := more, err;
        group := group - 1;
        var e := GroupParse(group, key);
        if !key.Fini? {
          err := e;
        }
        more := if nodes[group].parser then before + [Call(Step(group, key), e)] else before;
        Regroup(old(calls), before, [Call(Step(group, key), e)]);
        if !key.Fini? {
          StopsStep(before, was, more, err);
        }
        DownStep(before, more, nodes, key, group);
      }
      m := group;
    }

    /** After the last argument: NO_ARGS upwards to the idle groups, then END downwards to all, until
        one of them fails. */
    method FinishArgs() returns (err: int, ghost waited: nat, ghost ended: nat, ghost closing: seq<Call>)
      requires Valid()
      modifies this`calls, this`next, this`childInputs
      ensures Valid() && waited <= |nodes| && ended <= |nodes| && calls == old(calls) + closing
      ensures Steps(closing) == UpTo(nodes, NoArgs, BusyGroups(processed), waited) + DownTo(nodes, AtEnd, ended)
      ensures (err == 0 || Fatal(err)) && Stops(closing, err)
      ensures err == 0 ==> waited == |nodes| && ended == 0
      ensures next == if closing == [] then old(next) else LastNext(parsers, calls)
    {
      hide Tables, SlotCount, Steps, UpTo, DownTo, BusyGroups, Answered, Stops, LastNext;
      ghost var idle, ends: seq<Call>;
      err, waited, idle := AskUp(NoArgs, true, 0);
      ghost var was, soFar := err, calls;
      err, ended, ends := AskDown(AtEnd, err);
      closing := idle + ends;
      assert ends == [] ==> calls == soFar;
      Regroup(old(calls), idle, ends);
      StepsConcat(idle, ends);
      StopsConcat(idle, was, ends, err);
      if err == EBADKEY {
        StopsSettled(closing, err);
        err := 0;
      }
    }

    /** ERROR or SUCCESS, then FINI to all; the error that argp_parse returns. */
    method Notify(err0: int) returns (err: int, ghost told: nat, ghost outcome: seq<Call>, ghost cleanup: seq<Call>)
      requires Valid()
      modifies this`calls, this`next, this`childInputs, this`freed
      ensures Valid() && freed && told <= |nodes| && calls == old(calls) + (outcome + cleanup)
      ensures Steps(outcome) == if err0 != 0 then UpTo(nodes, Error, {}, |nodes|) else DownTo(nodes, Success, told)
      ensures Steps(cleanup) == DownTo(nodes, Fini, 0)
      ensures err0 != 0 ==> told == |nodes| && err == if err0 == EBADKEY then EINVAL else err0
      ensures err0 == 0 ==> (err == 0 || Fatal(err)) && Stops(outcome, err) && (err == 0 ==> told == 0)
    {
      hide Tables, SlotCount, Steps, UpTo, DownTo, Answered, Stops;
      err, told := err0, |nodes|;
      if err != 0 {
        ghost var n: nat;
        err, n, outcome := AskUp(Error, false, err);
      } else {
        err, told, outcome := AskDown(Success, err);
        if err == EBADKEY {
          StopsSettled(outcome, err);
          err := 0;
        }
      }
      ghost var m: nat;
      err, m, cleanup := AskDown(Fini, err);
      Regroup(old(calls), outcome, cleanup);
      if err == EBADKEY {
        err := EINVAL;
      }
      freed := true;
    }

    /** The end of a run: which keys are still delivered, and the error that argp_parse returns. */
    method Finalize(err0: int) returns (err: int, ghost e: Ending, ghost w: Winding)
      requires Valid()
      modifies this`calls, this`next, this`childInputs, this`endIndex, this`freed
      ensures Valid() && freed && EndingFits(nodes, e) && calls == old(calls) + (w.closing + (w.outcome + w.cleanup))
      ensures WindingSteps(nodes, BusyGroups(processed), e, w)
      ensures Ends(|nodes|, argc, wantsIndex, old(Now()), err0, err, e, w)
      ensures endIndex == if wantsIndex && !Aborted(old(Now()), err0) then Some(EndOf(parsers, old(Now()), w)) else old(endIndex)
    {
      hide Tables, SlotCount, Steps, UpTo, DownTo, BusyGroups, Answered, Stops, LastNext;
      NoRounds(nodes, BusyGroups(processed));
      NothingMore(calls);
      ghost var waited: nat, ended: nat, told: nat, closing: seq<Call> := 0, |nodes|, |nodes|, [];
      err := err0;
      if err == EBADKEY && argEbadkey {
        err := 0;
      }
      if err == 0 {
        if next == argc {
          err, waited, ended, closing := FinishArgs();
          if wantsIndex {
            endIndex := Some(next);
          }
        } else if wantsIndex {
          endIndex := Some(next);
        } else {
          err := EBADKEY;
        }
      }
      ghost var failed, outcome, cleanup := err != 0, [], [];
      err, told, outcome, cleanup := Notify(err);
      e, w := Ending(waited, ended, failed, told), Winding(closing, outcome, cleanup);
      Regroup(old(calls), closing, outcome + cleanup);
    }

    /** From each state the next step leads to the following one; only the last step ends the loop. */
    ghost predicate Chain(history: seq<Snapshot>, err: int) {
      && history != [] && (|history| == 1 ==> err == 0)
      && forall i :: 0 <= i < |history| - 1 ==> OneStep(history[i], history[i + 1], if i == |history| - 2 then err else 0)
    }

    /** A run, of which the loop over the arguments makes at most `limit` steps; `args` are the calls
        that it makes, `history` its states and `err0` the error that ends it.  Exactly when a call of
        the INIT round fails, nothing else is called, and nothing is freed. */
    method Parse(limit: nat)
      returns (err: int, finished: bool, ghost k: nat, ghost args: seq<Call>, ghost history: seq<Snapshot>, ghost err0: int,
               ghost e: Ending, ghost w: Winding)
      requires Valid() && calls == [] && inputs == Zeros(|nodes|) && childInputs == Zeros(|childInputs|)
      requires processed == Zeros(|nodes|) && !freed && tryGetopt && !argEbadkey && next == quoted == asked == 0
      modifies this
      ensures Valid() && EndingFits(nodes, e) && k <= |nodes| && (freed ==> finished)
      ensures forall c <- args :: Ordinary(c.step.key)
      ensures forall g <- BusyGroups(processed) :: Taken(args, g)
      ensures InputsUpTo(TheWorld(), inputs, k) && (Initialized(TheWorld()) ==> k == |nodes|)
      ensures finished ==> (freed <==> Initialized(TheWorld()))
      ensures finished && freed ==> history != []
      ensures endIndex == if finished && freed && wantsIndex && !Aborted(history[|history| - 1], err0) then
                            Some(EndOf(parsers, history[|history| - 1], w))
                          else old(endIndex)
      ensures !Initialized(TheWorld()) ==>
                && finished && calls == InitCalls(TheWorld(), k) && 0 < k && Fatal(err) && Stops(calls, err)
                && calls[|calls| - 1].step == Step(k - 1, Init)
      ensures !finished ==>
                && err == 0 && |history| == limit + 1 && Chain(history, 0)
                && history[0] == Begun(TheWorld()) && calls == history[|history| - 1].calls == history[0].calls + args
      ensures finished && freed ==>
                && calls == InitCalls(TheWorld(), |nodes|) + args + (w.closing + (w.outcome + w.cleanup))
                && WindingSteps(nodes, BusyGroups(processed), e, w)
                && Steps(calls) == RunSteps(nodes, Steps(args), BusyGroups(processed), e)
      ensures finished && freed ==>
                && Chain(history, err0) && err0 != 0
                && history[0] == Begun(TheWorld()) && history[|history| - 1].calls == history[0].calls + args
                && history[|history| - 1].processed == processed
                && Ends(|nodes|, argc, wantsIndex, history[|history| - 1], err0, err, e, w)
    {
      hide Tables, SlotCount, Steps, InitCalls, InputsUpTo, Busy, BusyGroups, UpTo, EndingSteps, Zeros, World.Sound, OneStep, Ends,
           Answered, Stops, RunSteps, WindingSteps, Initialized;
      args, history, err0, e, finished := [], [], 0, Ending(0, 0, false, 0), true;
      w := Winding([], [], []);
      NoneBusy(|nodes|);
      err, k := InitGroups();
      InitRound(TheWorld(), k);
      InitOutcome(TheWorld(), k, err);
      if err != 0 {
        BusyLater([], [], processed);
        BusyArgs(TheWorld(), k, [], [], processed);
        return;
      }
      ghost var init := calls;
      BusyLater([], init, processed);
      NothingMore(init);
      history := [Now()];
      ghost var given := inputs;
      var i := 0;
      while err == 0 && i < limit
        invariant Valid() && calls == init + args && Busy(calls, processed) && !freed && endIndex == old(endIndex)
        invariant i <= limit && |history| == i + 1 && inputs == given
        invariant Chain(history, err) && history[0] == Begun(TheWorld()) && history[|history| - 1] == Now()
        invariant forall c <- args :: Ordinary(c.step.key)
      {
        ghost var more: seq<Call>;
        ghost var before, past := args, history;
        err, more := ParseNext();
        args := before + more;
        history := past + [Now()];
        Regroup(init, before, more);
        i := i + 1;
      }
      BusyArgs(TheWorld(), k, init + args, args, processed);
      if err == 0 {
        finished := false;
        return;
      }
      err0 := err;
      err, e, w := Finalize(err);
      WoundUp(init, args, w, nodes, BusyGroups(processed), e);
    }

    lemma OutcomeAt(i: nat)
      requires Tables()
      ensures getopt(i).opt == KEY_END || D.FromTables(nodes, getopt(i).opt)
      ensures D.FromTables(nodes, KEY_ARG)
    {
    }

    lemma TablesSize()
      requires Tables()
      ensures egroup == |nodes|
    {
    }

    lemma WorldSound()
      requires Tables()
      ensures TheWorld().Sound() && egroup == |nodes|
    {
    }
  }

  // The inputs of the groups below k are known.
  ghost predicate InputsUpTo(w: World, inputs: seq<Input>, k: nat) {
    && w.Sound() && |inputs| == |w.nodes|
    && forall g :: 0 <= g < |inputs| ==> inputs[g] == if g < k then InputOf(w, g) else if g == 0 then w.input else 0
  }

  // The slots of the groups below k are filled, in the order of the groups.
  ghost predicate SlotsUpTo(w: World, slots: seq<Input>, k: nat) {
    && w.Sound() && k <= |w.nodes| && SlotCount(w.nodes[..k]) <= |slots|
    && slots == AllLeft(w, k) + Zeros(|slots| - SlotCount(w.nodes[..k]))
  }

  // An argp without a parser propagates its input to its first child.
  ghost function Handed(w: World, slots: seq<Input>, g: nat): seq<Input>
    requires w.Sound() && g < |w.nodes| && SlotCount(w.nodes[..g]) + |w.nodes[g].children| <= |slots|
  {
    if !w.nodes[g].parser && w.nodes[g].children != [] then slots[SlotCount(w.nodes[..g]) := InputOf(w, g)] else slots
  }

  lemma NothingYet(w: World, n: nat)
    requires w.Sound()
    ensures SlotsUpTo(w, Zeros(n), 0) && InitCalls(w, 0) == []
    ensures InputsUpTo(w, if w.nodes == [] then [] else Zeros(|w.nodes|)[0 := w.input], 0)
  {
  }

  lemma InputLength(w: World, inputs: seq<Input>, k: nat)
    requires InputsUpTo(w, inputs, k)
    ensures |inputs| == |w.nodes| && w.Sound()
  {
  }

  // A group finds in its parent's slots what the parent left there.
  lemma LeftFor(w: World, g: nat, slots: seq<Input>)
    requires g < |w.nodes| && SlotsUpTo(w, slots, g) && w.links[g].parent.Some?
    ensures w.links[g].parent.value < g && w.links[g].index < |w.nodes[w.links[g].parent.value].children|
    ensures var at := SlotCount(w.nodes[..w.links[g].parent.value]) + w.links[g].index;
            at < |slots| && slots[at] == InputOf(w, g)
  {
    assert D.Tied(w.nodes, w.links[g], g);
    LeftAt(w, g, w.links[g].parent.value, w.links[g].index);
  }

  lemma InputNow(w: World, was: seq<Input>, inputs: seq<Input>, g: nat)
    requires g < |w.nodes| && InputsUpTo(w, was, g)
    requires if w.links[g].parent.Some? then inputs == was[g := InputOf(w, g)] else inputs == was
    ensures InputsUpTo(w, inputs, g + 1) && inputs[g] == InputOf(w, g)
  {
  }

  lemma InitStep(w: World, g: nat)
    requires g < |w.nodes|
    ensures InitCalls(w, g + 1)
            == if w.nodes[g].parser then
                 InitCalls(w, g) + [Call(Step(g, Init), w.parsers(InitCalls(w, g), Step(g, Init)).err)]
               else InitCalls(w, g)
  {
  }

  lemma PadSlots(front: seq<Input>, inputs: seq<Input>, n: nat, rest: nat)
    ensures var slots := front + Zeros(n + rest);
            var m := if |inputs| < n then |inputs| else n;
            slots[..|front|] + inputs[..m] + slots[|front| + m..] == front + Padded(inputs, n) + Zeros(rest)
  {
    var slots := front + Zeros(n + rest);
    var m := if |inputs| < n then |inputs| else n;
    assert slots[..|front|] == front;
    assert slots[|front| + m..] == Zeros(n + rest - m) == Zeros(n - m) + Zeros(rest);
    assert Padded(inputs, n) == inputs[..m] + Zeros(n - m);
  }

  lemma HandSlot(front: seq<Input>, x: Input, n: nat, rest: nat)
    ensures var slots := front + Zeros(n + rest);
            n > 0 ==> slots[|front| := x] == front + ([x] + Zeros(n - 1)) + Zeros(rest)
    ensures n == 0 ==> front + Zeros(n + rest) == front + [] + Zeros(rest)
  {
  }

  lemma LeftNow(w: World, g: nat, before: seq<Input>, handed: seq<Input>, after: seq<Input>)
    requires g < |w.nodes| && SlotsUpTo(w, before, g) && SlotCount(w.nodes[..g]) + |w.nodes[g].children| <= |before|
    requires handed == Handed(w, before, g)
    requires after == if w.nodes[g].parser then Stored(handed, w.nodes, g, w.parsers(InitCalls(w, g), Step(g, Init)).inputs)
                      else handed
    ensures SlotsUpTo(w, after, g + 1)
  {
    var n := |w.nodes[g].children|;
    var rest := |before| - SlotCount(w.nodes[..g]) - n;
    SlotsOpen(w, g, before, rest);
    if w.nodes[g].parser {
      StoredOpen(AllLeft(w, g), w, g, before, rest);
    } else {
      hide SlotsUpTo, InputOf, World.Sound, SlotCount;
      HandSlot(AllLeft(w, g), InputOf(w, g), n, rest);
    }
    SlotsClose(w, g, after, rest);
  }

  lemma StoredOpen(front: seq<Input>, w: World, g: nat, slots: seq<Input>, rest: nat)
    requires w.Sound() && g < |w.nodes| && SlotCount(w.nodes[..g]) == |front| && w.nodes[g].parser
    requires slots == front + Zeros(|w.nodes[g].children| + rest)
    ensures Stored(slots, w.nodes, g, w.parsers(InitCalls(w, g), Step(g, Init)).inputs) == front + Left(w, g) + Zeros(rest)
  {
    hide SlotCount, Zeros, Padded, World.Sound, InitCalls;
    PadSlots(front, w.parsers(InitCalls(w, g), Step(g, Init)).inputs, |w.nodes[g].children|, rest);
  }

  lemma SlotsOpen(w: World, g: nat, slots: seq<Input>, rest: nat)
    requires g < |w.nodes| && SlotsUpTo(w, slots, g)
    requires |slots| == SlotCount(w.nodes[..g]) + |w.nodes[g].children| + rest
    ensures w.Sound() && slots == AllLeft(w, g) + Zeros(|w.nodes[g].children| + rest)
  {
  }

  lemma SlotsClose(w: World, g: nat, slots: seq<Input>, rest: nat)
    requires w.Sound() && g < |w.nodes| && slots == AllLeft(w, g) + Left(w, g) + Zeros(rest)
    ensures SlotsUpTo(w, slots, g + 1)
  {
    hide World.Sound, Left, Zeros;
    SlotsNext(w, g);
  }

  lemma SlotsNext(w: World, g: nat)
    requires w.Sound() && g < |w.nodes|
    ensures SlotCount(w.nodes[..g + 1]) == SlotCount(w.nodes[..g]) + |w.nodes[g].children|
    ensures AllLeft(w, g + 1) == AllLeft(w, g) + Left(w, g)
  {
    assert w.nodes[..g + 1][..g] == w.nodes[..g];
  }

  lemma NoneRefused(calls: seq<Call>)
    ensures forall nodes: seq<Argp> :: calls + Refused(nodes, 0) == calls
  {
  }

  // One group is offered the argument.
  lemma TryStep(start: seq<Call>, before: seq<Call>, after: seq<Call>, nodes: seq<Argp>, g: nat, err: int)
    requires g < |nodes| && before == start + Refused(nodes, g)
    requires if !nodes[g].parser then after == before && err == EBADKEY
             else
               || (err != EBADKEY && after == before + [Call(Step(g, Arg), err)])
               || after == before + [Call(Step(g, Arg), EBADKEY)] + [Call(Step(g, Args), err)]
    ensures if err == EBADKEY then after == start + Refused(nodes, g + 1) else Tried(nodes, start, after, err, g)
  {
  }

  lemma TriedAll(nodes: seq<Argp>, before: seq<Call>, after: seq<Call>, taker: nat)
    ensures after == before + Refused(nodes, |nodes|) ==> Tried(nodes, before, after, EBADKEY, taker)
  {
  }

  lemma TakerInRange(nodes: seq<Argp>, before: seq<Call>, after: seq<Call>, err: int, taker: nat)
    requires Tried(nodes, before, after, err, taker)
    ensures err != EBADKEY ==> taker < |nodes|
  {
  }

  // A group took an argument.
  predicate Taken(calls: seq<Call>, g: nat) {
    exists c <- calls :: c.step.group == g && (c.step.key.Arg? || c.step.key.Args?) && c.err == 0
  }

  /** Only a group that took an argument has arguments processed. */
  predicate Busy(calls: seq<Call>, processed: seq<int>) {
    forall g :: 0 <= g < |processed| && processed[g] > 0 ==> Taken(calls, g)
  }

  lemma StayBusy(calls: seq<Call>, more: seq<Call>, was: seq<int>, now: seq<int>, taker: nat)
    requires Busy(calls, was) && |was| == |now|
    requires forall g :: 0 <= g < |was| && now[g] != was[g] ==> g == taker && Taken(more, taker)
    ensures Busy(calls + more, now)
  {
    forall g | 0 <= g < |now| && now[g] > 0
      ensures Taken(calls + more, g)
    {
      if now[g] == was[g] {
        var c :| c in calls && c.step.group == g && (c.step.key.Arg? || c.step.key.Args?) && c.err == 0;
        assert c in calls + more;
      } else {
        var c :| c in more && c.step.group == g && (c.step.key.Arg? || c.step.key.Args?) && c.err == 0;
        assert c in calls + more;
      }
    }
  }

  lemma ArgCalls(parsers: Parsers, nodes: seq<Argp>, argc: int, s: Snapshot, t: Snapshot, err: int, taker: nat)
    returns (more: seq<Call>)
    requires TookArg(parsers, nodes, argc, s, t, err, taker)
    ensures t.calls == s.calls + more && |t.processed| == |s.processed|
    ensures forall c <- more :: c.step.key.Arg? || c.step.key.Args?
    ensures forall g :: 0 <= g < |s.processed| && t.processed[g] != s.processed[g] ==> g == taker && Taken(more, taker)
  {
    more := t.calls[|s.calls|..];
    if err == EBADKEY {
      RefusedOrdinary(nodes, |nodes|);
    } else {
      RefusedOrdinary(nodes, taker);
      assert more[|more| - 1] in more;
    }
  }

  lemma OptionCalls(parsers: Parsers, prefix: string, nodes: seq<Argp>, opt: int, s: Snapshot, t: Snapshot, err: int,
                    g: Option<nat>, key: int) returns (more: seq<Call>)
    requires TookOption(parsers, prefix, nodes, opt, s, t, err, g, key)
    ensures t.calls == s.calls + more && t.processed == s.processed
    ensures forall c <- more :: c.step.key.UserOption?
  {
    more := if t.calls == s.calls then [] else [t.calls[|s.calls|]];
  }

  // Neither relation is about the flag that says why an error is EBADKEY.
  lemma FlagOfArg(parsers: Parsers, nodes: seq<Argp>, argc: int, s: Snapshot, t: Snapshot, err: int, taker: nat)
    requires TookArg(parsers, nodes, argc, s, t, err, taker)
    ensures TookArg(parsers, nodes, argc, s, t.(argEbadkey := true), err, taker)
  {
  }

  lemma FlagOfOption(parsers: Parsers, prefix: string, nodes: seq<Argp>, opt: int, s: Snapshot, t: Snapshot, err: int,
                     g: Option<nat>, key: int)
    requires TookOption(parsers, prefix, nodes, opt, s, t, err, g, key)
    ensures TookOption(parsers, prefix, nodes, opt, s, t.(argEbadkey := false), err, g, key)
  {
  }

  lemma NothingMore(calls: seq<Call>)
    ensures calls + [] == calls
  {
  }

  lemma {:induction false} RefusedOrdinary(nodes: seq<Argp>, n: nat)
    requires n <= |nodes|
    ensures forall c <- Refused(nodes, n) :: c.step.key.Arg? || c.step.key.Args?
    decreases n
  {
    if n > 0 {
      RefusedOrdinary(nodes, n - 1);
    }
  }

  function BusyGroups(processed: seq<int>): set<nat> {
    set g: nat | g < |processed| && processed[g] != 0
  }

  lemma NoRound(nodes: seq<Argp>, key: Key, skip: set<nat>)
    ensures Steps([]) == UpTo(nodes, key, skip, 0) && Steps([]) == DownTo(nodes, key, |nodes|)
  {
  }

  lemma UpStep(before: seq<Call>, after: seq<Call>, nodes: seq<Argp>, key: Key, skip: set<nat>, g: nat)
    requires g < |nodes| && Steps(before) == UpTo(nodes, key, skip, g)
    requires if nodes[g].parser && g !in skip then |after| == |before| + 1 && after[..|before|] == before && after[|before|].step == Step(g, key)
             else after == before
    ensures Steps(after) == UpTo(nodes, key, skip, g + 1)
  {
    if nodes[g].parser && g !in skip {
      StepAfter(before, after);
    }
  }

  lemma DownStep(before: seq<Call>, after: seq<Call>, nodes: seq<Argp>, key: Key, g: nat)
    requires g < |nodes| && Steps(before) == DownTo(nodes, key, g + 1)
    requires if nodes[g].parser then |after| == |before| + 1 && after[..|before|] == before && after[|before|].step == Step(g, key)
             else after == before
    ensures Steps(after) == DownTo(nodes, key, g)
  {
    if nodes[g].parser {
      StepAfter(before, after);
    }
  }

  lemma StopsNone(err: int)
    ensures !Fatal(err) ==> Stops([], err)
  {
  }

  // A further call, or none for a group without a parser.
  lemma StopsStep(before: seq<Call>, was: int, after: seq<Call>, err: int)
    requires Stops(before, was) && !Fatal(was)
    requires if |after| == |before| then after == before && !Fatal(err)
             else |after| == |before| + 1 && after[..|before|] == before && after[|before|].err == err
    ensures Stops(after, err)
  {
    assert forall i :: 0 <= i < |before| ==> after[i] == after[..|before|][i];
  }

  lemma StopsConcat(a: seq<Call>, aErr: int, b: seq<Call>, bErr: int)
    requires Stops(a, aErr) && if Fatal(aErr) then b == [] && bErr == aErr else Stops(b, bErr)
    ensures Stops(a + b, bErr)
  {
    if Fatal(aErr) {
      assert a + b == a;
    }
  }

  lemma StopsSettled(more: seq<Call>, err: int)
    requires Stops(more, err) && !Fatal(err)
    ensures Stops(more, 0)
  {
  }

  lemma StepAfter(before: seq<Call>, after: seq<Call>)
    requires |after| == |before| + 1 && after[..|before|] == before
    ensures Steps(after) == Steps(before) + [after[|before|].step]
  {
    assert forall i :: 0 <= i < |before| ==> after[i] == after[..|before|][i];
  }

  lemma NoRounds(nodes: seq<Argp>, busy: set<nat>)
    ensures Steps([]) == UpTo(nodes, NoArgs, busy, 0) + DownTo(nodes, AtEnd, |nodes|)
    ensures Stops([], 0)
  {
  }

  // What is wound up comes behind what was called before.
  lemma WoundUp(init: seq<Call>, args: seq<Call>, w: Winding, nodes: seq<Argp>, busy: set<nat>, e: Ending)
    requires EndingFits(nodes, e) && WindingSteps(nodes, busy, e, w) && Steps(init) == UpTo(nodes, Init, {}, |nodes|)
    ensures Steps(init + args + (w.closing + (w.outcome + w.cleanup))) == RunSteps(nodes, Steps(args), busy, e)
  {
    hide UpTo, DownTo, Steps;
    StepsConcat(init + args, w.closing + (w.outcome + w.cleanup));
    StepsConcat(init, args);
    StepsConcat(w.closing, w.outcome + w.cleanup);
    StepsConcat(w.outcome, w.cleanup);
    Regroup(Steps(w.closing), Steps(w.outcome), Steps(w.cleanup));
  }

  lemma NoneBusy(n: nat)
    ensures Busy([], Zeros(n)) && BusyGroups(Zeros(n)) == {}
  {
  }

  lemma BusyLater(calls: seq<Call>, more: seq<Call>, processed: seq<int>)
    requires Busy(calls, processed)
    ensures Busy(calls + more, processed) && (calls == [] ==> Busy(more, processed))
  {
    StayBusy(calls, more, processed, processed, 0);
    assert calls == [] ==> calls + more == more;
  }

  lemma {:induction false} InitKeys(w: World, k: nat)
    requires k <= |w.nodes|
    ensures forall c <- InitCalls(w, k) :: c.step.key.Init?
  {
    if k > 0 {
      InitKeys(w, k - 1);
    }
  }

  lemma BusyArgs(w: World, k: nat, calls: seq<Call>, args: seq<Call>, processed: seq<int>)
    requires k <= |w.nodes| && Busy(calls, processed) && (calls == InitCalls(w, k) + args || calls == args)
    requires forall g :: 0 <= g < |processed| ==> processed[g] >= 0
    ensures forall g <- BusyGroups(processed) :: Taken(args, g)
  {
    InitKeys(w, k);
    forall g | g in BusyGroups(processed)
      ensures Taken(args, g)
    {
      var c :| c in calls && c.step.group == g && (c.step.key.Arg? || c.step.key.Args?) && c.err == 0;
      assert c in args;
    }
  }

  /** No call of a whole INIT round would fail. */
  predicate Initialized(w: World) {
    forall c <- InitCalls(w, |w.nodes|) :: !Fatal(c.err)
  }

  lemma {:induction false} InitPrefix(w: World, k: nat, n: nat)
    requires k <= n <= |w.nodes|
    ensures InitCalls(w, k) <= InitCalls(w, n)
  {
    if k < n {
      InitPrefix(w, k, n - 1);
    }
  }

  lemma InitOutcome(w: World, k: nat, err: int)
    requires k <= |w.nodes| && Stops(InitCalls(w, k), err) && (err == 0 || Fatal(err)) && (err == 0 ==> k == |w.nodes|)
    ensures err == 0 <==> Initialized(w)
  {
    var calls := InitCalls(w, k);
    InitPrefix(w, k, |w.nodes|);
    if err == 0 {
      forall c | c in calls
        ensures !Fatal(c.err)
      {
        var i :| 0 <= i < |calls| && calls[i] == c;
      }
    } else {
      assert calls[|calls| - 1] in InitCalls(w, |w.nodes|);
    }
  }

  lemma StopsIff(more: seq<Call>, err: int)
    requires Stops(more, err)
    ensures Fatal(err) <==> exists c <- more :: Fatal(c.err)
  {
    if c :| c in more && Fatal(c.err) {
      var i :| 0 <= i < |more| && more[i] == c;
    }
    assert Fatal(err) ==> more[|more| - 1] in more;
  }

  /** argp_parse returns no error exactly when its loop ended without one, no arguments are left or
      the caller wants to know of them, and no call behind the last argument failed. */
  lemma NoErrorIff(n: nat, argc: int, wantsIndex: bool, s: Snapshot, err0: int, err: int, e: Ending, w: Winding)
    requires Ends(n, argc, wantsIndex, s, err0, err, e, w)
    ensures err == 0
            <==> && !Aborted(s, err0) && (s.next == argc || wantsIndex)
                 && (forall c <- w.closing :: !Fatal(c.err)) && (e.failed || forall c <- w.outcome :: !Fatal(c.err))
  {
    hide Stops;
    if !Aborted(s, err0) && (s.next == argc || wantsIndex) {
      if s.next == argc {
        StopsIff(w.closing, if e.failed then err else 0);
      }
      if !e.failed {
        StopsIff(w.outcome, err);
      }
    }
  }

  /** A parser that takes ARGP_KEY_ARGS and moves `next` to where it has got: what is left counts as
      consumed all the same. */
  lemma ArgsTakesAll(argp: Argp)
    requires argp.parser
    ensures var parsers: Parsers := (calls: seq<Call>, step: Step) => if step.key.Args? then Answer(0, 2, []) else Answer(EBADKEY, 1, []);
            var s := Snapshot([], 2, 0, false, false, 1, [0]);
            var calls := [Call(Step(0, Arg), EBADKEY), Call(Step(0, Args), 0)];
            var t := s.(calls := calls, next := 5, processed := [4]);
            LastNext(parsers, calls) == 2 && TookArg(parsers, [argp], 5, s, t, 0, 0)
  {
    assert Refused([argp], 0) == [];
    var calls := [Call(Step(0, Arg), EBADKEY), Call(Step(0, Args), 0)];
    assert [] + (Refused([argp], 0) + calls) == calls;
  }

  /** Getopt takes all of two arguments, and the parser refuses what it is called with: the index is
      behind the last argument. */
  method OptionsOnly(argp: Argp) returns (run: Run, err: int)
    requires argp.parser && argp.children == []
    ensures run.endIndex == Some(2)
  {
    var parsers: Parsers := (calls: seq<Call>, step: Step) => Answer(EBADKEY, 2, []);
    var getopt: nat -> Outcome := i => Outcome(KEY_END, 0, 2, false);
    ghost var nodes := Nodes(argp);
    assert IsGroup(argp) && NodesAll(argp.children) == [] && nodes == [argp] + [] == [argp];
    assert NodesOf(Some(argp)) == nodes;
    var finished;
    ghost var k, args, history, err0, e, w;
    run, err, finished, k, args, history, err0, e, w := ArgpParse(Some(argp), false, false, 2, true, 0, parsers, getopt, 1);
    ghost var world := run.TheWorld();
    assert InitCalls(world, 0) == [];
    assert InitCalls(world, 1) == [Call(Step(0, Init), EBADKEY)];
    assert Initialized(world) && Begun(world).next == 2;
    hide InitCalls, Ends, WindingSteps, RunSteps, Run.Chain, Run.OneStep, Trace, InputsUpTo, Stops, Initialized, Run.Valid;
    OneStepEnds(run, history, if finished then err0 else 0);
  }

  // Where getopt is at the end of all arguments at once, the first step ends the loop.
  lemma OneStepEnds(run: Run, history: seq<Snapshot>, err: int)
    requires run.Chain(history, err) && 1 < |history| && history[0].tryGetopt && history[0].quoted == 0
    requires run.getopt(history[0].asked).opt == KEY_END && run.getopt(history[0].asked).optind >= run.argc
    ensures |history| == 2 && err == EBADKEY && history[1].argEbadkey
    ensures history[1].next == run.getopt(history[0].asked).optind
  {
    assert run.OneStep(history[0], history[1], if |history| == 2 then err else 0);
  }

  // ---------------------------------------------------------------- A run from its first call to its last

  // The parser of `prog -v -- a b c`: it takes -v and a, and of b and c only both together.
  const WordParsers: Parsers := (calls: seq<Call>, step: Step) =>
    Answer(if |calls| == 3 && step.key.Arg? then EBADKEY else 0,
           if |calls| == 0 then 0 else if |calls| == 1 then 2 else if |calls| == 2 || |calls| == 4 then 4 else 5, [])

  // Getopt finds -v, and then that only arguments are left, behind the `--`.
  const WordGetopt: nat -> Outcome := i => if i == 0 then Outcome('v' as int, 0, 2, false) else Outcome(KEY_END, 0, 3, true)

  const WordCalls: seq<Call> :=
    [Call(Step(0, Init), 0), Call(Step(0, UserOption('v' as int)), 0), Call(Step(0, Arg), 0), Call(Step(0, Arg), EBADKEY),
     Call(Step(0, Args), 0)]

  /** A parser alone is offered an argument, and after a refusal all that are left. */
  lemma SoleTaker(parsers: Parsers, argp: Argp, before: seq<Call>, after: seq<Call>, err: int, taker: nat, calls: seq<Call>)
    requires argp.parser && Tried([argp], before, after, err, taker) && after <= calls && Answered(parsers, calls)
    ensures var arg := Call(Step(0, Arg), parsers(before, Step(0, Arg)).err);
            var args := Call(Step(0, Args), parsers(before + [arg], Step(0, Args)).err);
            && after == before + (if arg.err == EBADKEY then [arg, args] else [arg])
            && err == (if arg.err == EBADKEY then args.err else arg.err) && (err != EBADKEY ==> taker == 0)
  {
    assert Refused([argp], 0) == [] && Refused([argp], 1) == [] + [Call(Step(0, Arg), EBADKEY), Call(Step(0, Args), EBADKEY)];
    var n := |before|;
    assert |after| > n && after[n].step == Step(0, Arg) && calls[n] == after[n];
    assert calls[..n] == before;
    if |after| > n + 1 {
      assert after[n + 1].step == Step(0, Args) && calls[n + 1] == after[n + 1];
      assert calls[..n + 1] == before + [after[n]];
    }
    assert after[..n] == before;
    assert after == before + after[n..];
  }

  // A step only adds calls.
  lemma StepAdds(run: Run, s: Snapshot, t: Snapshot, err: int)
    requires run.OneStep(s, t, err)
    ensures s.calls <= t.calls
  {
  }

  lemma {:induction false} ChainAdds(run: Run, history: seq<Snapshot>, err: int, i: nat)
    requires run.Chain(history, err) && i < |history|
    ensures history[i].calls <= history[|history| - 1].calls
    decreases |history| - i
  {
    if i < |history| - 1 {
      hide Run.OneStep;
      ChainAdds(run, history, err, i + 1);
      StepAdds(run, history[i], history[i + 1], if i == |history| - 2 then err else 0);
    }
  }

  ghost predicate WordRun(run: Run) {
    && run.parsers == WordParsers && run.getopt == WordGetopt && run.nodes == [D.OneOption(0, 'v')] && run.prefix == ""
    && run.argc == 5 && !run.noArgs
  }

  // Where the loop stands after step i.
  function WordState(i: nat): Snapshot {
    if i == 0 then Snapshot(WordCalls[..1], 0, 0, true, false, 0, [0])
    else if i == 1 then Snapshot(WordCalls[..2], 2, 0, true, false, 1, [0])
    else if i == 2 then Snapshot(WordCalls[..3], 4, 3, false, false, 2, [1])
    else Snapshot(WordCalls, 5, 3, false, i > 3, 2, [2])
  }

  lemma OptionStep(run: Run, t: Snapshot, err: int, calls: seq<Call>)
    requires WordRun(run) && run.OneStep(WordState(0), t, err) && t.calls <= calls && Answered(WordParsers, calls)
    ensures err == 0 && t == WordState(1)
  {
    var s, nodes := WordState(0), run.nodes;
    var up := Next(s, run.getopt(0), 5, false);
    assert up == Upcoming(false, 'v' as int, s.(asked := 1, next := 2));
    var g, key :| TookOption(WordParsers, "", nodes, 'v' as int, up.state, t, err, g, key)
                  && t.argEbadkey == (err != EBADKEY && up.state.argEbadkey);
    D.TakesOneOption(0, 'v', 'v');
    assert D.TakenWithin(nodes, 1, 'v');
    D.TextChars(nodes, 1, 'v');
    assert nodes[..1] == nodes && "" + ShortText(nodes) == ShortText(nodes);
    assert g == Some(0) && key == 'v' as int;
    assert calls[1] == t.calls[1] && calls[..1] == s.calls;
    assert t.calls == WordCalls[..2];
  }

  lemma ArgStep(run: Run, t: Snapshot, err: int, calls: seq<Call>)
    requires WordRun(run) && run.OneStep(WordState(1), t, err) && t.calls <= calls && Answered(WordParsers, calls)
    ensures err == 0 && t == WordState(2)
  {
    var s := WordState(1);
    var up := Next(s, run.getopt(1), 5, false);
    assert up == Upcoming(false, KEY_ARG, Snapshot(s.calls, 4, 3, false, false, 2, [0]));
    var taker: nat :| TookArg(WordParsers, run.nodes, 5, up.state, t, err, taker) && t.argEbadkey == (err == EBADKEY);
    SoleTaker(WordParsers, run.nodes[0], s.calls, t.calls, err, taker, calls);
    assert t.calls == WordCalls[..3] && t.calls[..2] == WordCalls[..2];
  }

  lemma ArgsStep(run: Run, t: Snapshot, err: int, calls: seq<Call>)
    requires WordRun(run) && run.OneStep(WordState(2), t, err) && t.calls <= calls && Answered(WordParsers, calls)
    ensures err == 0 && t == WordState(3)
  {
    var s := WordState(2);
    var up := Next(s, run.getopt(2), 5, false);
    assert up == Upcoming(false, KEY_ARG, s.(next := 5));
    var taker: nat :| TookArg(WordParsers, run.nodes, 5, up.state, t, err, taker) && t.argEbadkey == (err == EBADKEY);
    SoleTaker(WordParsers, run.nodes[0], s.calls, t.calls, err, taker, calls);
    assert t.calls == WordCalls;
  }

  lemma LastStep(run: Run, t: Snapshot, err: int)
    requires WordRun(run) && run.OneStep(WordState(3), t, err)
    ensures err == EBADKEY && t == WordState(4)
  {
  }

  lemma WordSteps(run: Run, history: seq<Snapshot>, err: int, calls: seq<Call>)
    requires WordRun(run) && run.Chain(history, err) && history[0] == WordState(0) && (err != 0 || |history| > 5)
    requires history[|history| - 1].calls <= calls && Answered(WordParsers, calls)
    ensures |history| == 5 && history[4] == WordState(4) && err == EBADKEY
    ensures history[4].processed == [2] && history[4].calls == WordCalls
    ensures !Aborted(WordState(4), EBADKEY)
  {
    hide Run.OneStep, Answered, WordRun;
    if |history| > 1 {
      ChainAdds(run, history, err, 1);
      OptionStep(run, history[1], if |history| == 2 then err else 0, calls);
      if |history| > 2 {
        ChainAdds(run, history, err, 2);
        ArgStep(run, history[2], if |history| == 3 then err else 0, calls);
        if |history| > 3 {
          ChainAdds(run, history, err, 3);
          ArgsStep(run, history[3], if |history| == 4 then err else 0, calls);
          if |history| > 4 {
            LastStep(run, history[4], if |history| == 5 then err else 0);
          }
        }
      }
    }
  }

  // No call of that parser fails.
  lemma WordErrors(calls: seq<Call>)
    requires Answered(WordParsers, calls)
    ensures forall c <- calls :: !Fatal(c.err)
  {
    forall c | c in calls
      ensures !Fatal(c.err)
    {
      var i :| 0 <= i < |calls| && calls[i] == c;
    }
  }

  lemma {:induction false} WordRounds(nodes: seq<Argp>)
    requires |nodes| == 1 && nodes[0].parser
    ensures UpTo(nodes, Init, {}, 1) == [Step(0, Init)] && UpTo(nodes, NoArgs, {0}, 1) == [] && BusyGroups([2]) == {0}
    ensures forall key :: DownTo(nodes, key, 0) == [Step(0, key)]
  {
    assert forall key :: DownTo(nodes, key, 1) == [];
  }

  lemma WordEnds(nodes: seq<Argp>, err: int, e: Ending, w: Winding)
    requires EndingFits(nodes, e) && |nodes| == 1 && nodes[0].parser
    requires Answered(WordParsers, WordCalls + (w.closing + (w.outcome + w.cleanup)))
    requires Ends(1, 5, true, WordState(4), EBADKEY, err, e, w) && WindingSteps(nodes, {0}, e, w)
    ensures err == 0 && e == Ending(1, 0, false, 0) && EndOf(WordParsers, WordState(4), w) == 5
  {
    hide Stops, UpTo, DownTo, Answered, Steps;
    var more := w.closing + (w.outcome + w.cleanup);
    WordErrors(WordCalls + more);
    assert (forall c <- w.closing :: c in WordCalls + more) && (forall c <- w.outcome :: c in WordCalls + more);
    assert WordState(4).next == 5 && WordState(4).argEbadkey;
    NoErrorIff(1, 5, true, WordState(4), EBADKEY, err, e, w);
    assert !Fatal(0) && err == 0 && !e.failed;
    WordRounds(nodes);
    OneStepCall(w.closing, Step(0, AtEnd));
    assert |w.closing| == 1 && |WordCalls + w.closing| == 6;
  }

  lemma OneStepCall(calls: seq<Call>, step: Step)
    requires Steps(calls) == [] + [step]
    ensures |calls| == 1
  {
    assert |Steps(calls)| == |calls|;
  }

  /** `prog -v -- a b c`, whose parser takes -v, then a, refuses b, and takes b and c together: its
      calls from the first to the last, the arguments counted, and the index behind the last. */
  method Words() returns (run: Run, err: int)
    ensures err == 0 && run.endIndex == Some(5) && run.processed == [2]
    ensures Steps(run.calls)
            == [Step(0, Init), Step(0, UserOption('v' as int)), Step(0, Arg), Step(0, Arg), Step(0, Args), Step(0, AtEnd),
                Step(0, Success), Step(0, Fini)]
  {
    hide InitCalls, Run.Chain, Run.OneStep, Trace, InputsUpTo, Initialized, Answered, Stops, Ends, UpTo, DownTo, WindingSteps,
         RunSteps, Begun, WordState, Nodes, NodesOf, LinksOf, EndOf, Taken, Aborted, D.FromTables, D.OneOption, Run.Tables, Fatal;
    var argp := D.OneOption(0, 'v');
    WordTables(argp);
    var finished;
    ghost var k, args, history, err0, e, w;
    run, err, finished, k, args, history, err0, e, w := ArgpParse(Some(argp), false, false, 5, true, 0, WordParsers, WordGetopt, 9);
    ghost var world := run.TheWorld();
    WordBegins(world);
    assert run.parsers == WordParsers && Answered(run.parsers, run.calls);
    ghost var reached, winding := history[|history| - 1].calls, w.closing + (w.outcome + w.cleanup);
    assert reached == WordCalls[..1] + args;
    assert run.calls == if finished then reached + winding else reached;
    WordSteps(run, history, if finished then err0 else 0, run.calls);
    WordRounds([argp]);
    WordEnds([argp], err, e, w);
    WordTrace([argp], args, e);
  }

  lemma WordTables(argp: Argp)
    requires argp == D.OneOption(0, 'v')
    ensures NodesOf(Some(argp)) == [argp] && argp.parser && Prefix(false, false) == ""
    ensures forall i :: WordGetopt(i).opt == KEY_END || D.FromTables([argp], WordGetopt(i).opt)
  {
    assert IsGroup(argp) && NodesAll(argp.children) == [] && Nodes(argp) == [argp] + [] == [argp];
  }

  lemma WordBegins(world: World)
    requires |world.nodes| == 1 && world.nodes[0].parser && world.parsers == WordParsers
    ensures Initialized(world) && Begun(world) == WordState(0) && Begun(world).calls == InitCalls(world, 1) == WordCalls[..1]
  {
    assert InitCalls(world, 0) == [];
    assert InitCalls(world, 1) == WordCalls[..1];
    assert Zeros(1) == [0] && WordCalls[..1][..0] == [];
  }

  lemma WordTrace(nodes: seq<Argp>, args: seq<Call>, e: Ending)
    requires |nodes| == 1 && nodes[0].parser && e == Ending(1, 0, false, 0) && WordCalls[..1] + args == WordCalls
    ensures RunSteps(nodes, Steps(args), {0}, e)
            == [Step(0, Init), Step(0, UserOption('v' as int)), Step(0, Arg), Step(0, Arg), Step(0, Args), Step(0, AtEnd),
                Step(0, Success), Step(0, Fini)]
  {
    hide UpTo, DownTo;
    WordRounds(nodes);
    assert args == WordCalls[1..];
  }

  /** One parser that answers INIT with an error: nothing else is called, not even FINI, and nothing
      is freed. */
  method FailingInit(argp: Argp, error: int) returns (run: Run, err: int)
    requires argp.parser && argp.children == [] && Fatal(error)
    ensures err == error && run.calls == [Call(Step(0, Init), error)] && !run.freed
  {
    var parsers: Parsers := (calls: seq<Call>, step: Step) => Answer(error, 0, []);
    var getopt: nat -> Outcome := i => Outcome(KEY_END, 0, 1, false);
    ghost var nodes := Nodes(argp);
    assert IsGroup(argp) && NodesAll(argp.children) == [] && nodes == [argp] + [] == [argp];
    assert NodesOf(Some(argp)) == nodes;
    var finished;
    ghost var k, args, history, err0, e, w;
    run, err, finished, k, args, history, err0, e, w := ArgpParse(Some(argp), false, false, 1, false, 0, parsers, getopt, 1);
    ghost var world := run.TheWorld();
    assert InitCalls(world, 0) == [];
    assert InitCalls(world, 1) == [Call(Step(0, Init), error)];
    assert InitCalls(world, 1)[0] in InitCalls(world, 1);
    assert k == 1;
  }

  /** argp_parse on its tables: in every run in which the INIT round succeeds, the calls in their
      order, and what every parser of the tree is called with. */
  method ArgpParse(argp: Option<Argp>, inOrder: bool, noArgs: bool, argc: int, wantsIndex: bool, input: Input,
                   parsers: Parsers, getopt: nat -> Outcome, limit: nat)
    returns (run: Run, err: int, finished: bool, ghost k: nat, ghost args: seq<Call>, ghost history: seq<Snapshot>,
             ghost err0: int, ghost e: Ending, ghost w: Winding)
    requires noArgs ==> exists node <- NodesOf(argp) :: !AllWidest(Own(node))
    requires forall i :: getopt(i).opt == KEY_END || D.FromTables(NodesOf(argp), getopt(i).opt)
    ensures fresh(run) && run.Valid() && EndingFits(NodesOf(argp), e) && k <= |NodesOf(argp)|
    ensures run.TheWorld() == World(NodesOf(argp), LinksOf(argp), parsers, input)
    ensures run.argc == argc && run.noArgs == noArgs && run.getopt == getopt && run.prefix == Prefix(inOrder, noArgs)
    ensures forall c <- args :: Ordinary(c.step.key)
    ensures InputsUpTo(run.TheWorld(), run.inputs, k) && (Initialized(run.TheWorld()) ==> k == |run.nodes|)
    ensures finished ==> (run.freed <==> Initialized(run.TheWorld()))
    ensures finished && run.freed ==> history != []
    ensures run.endIndex == if finished && run.freed && wantsIndex && !Aborted(history[|history| - 1], err0) then
                              Some(EndOf(parsers, history[|history| - 1], w))
                            else None
    ensures !Initialized(run.TheWorld()) ==>
              finished && run.calls == InitCalls(run.TheWorld(), k) && 0 < k && Fatal(err) && Stops(run.calls, err)
    ensures !finished ==>
              && err == 0 && |history| == limit + 1 && run.Chain(history, 0)
              && history[0] == Begun(run.TheWorld()) && run.calls == history[|history| - 1].calls == history[0].calls + args
    ensures finished && run.freed ==>
              && run.calls == InitCalls(run.TheWorld(), |run.nodes|) + args + (w.closing + (w.outcome + w.cleanup))
              && WindingSteps(run.nodes, BusyGroups(run.processed), e, w)
              && Steps(run.calls) == RunSteps(run.nodes, Steps(args), BusyGroups(run.processed), e)
    ensures finished && run.freed ==>
      forall g :: 0 <= g < |run.nodes| && run.nodes[g].parser ==>
        var idle := g !in BusyGroups(run.processed);
        && (!idle ==> Taken(args, g))
        && Trace(Steps(run.calls), g)
           == [Init] + Trace(Steps(args), g)
              + (Maybe(g < e.waited && idle, NoArgs) + Maybe(g >= e.ended, AtEnd)
                 + (if e.failed then [Error] else Maybe(g >= e.told, Success)) + [Fini])
    ensures finished && run.freed ==>
              && run.Chain(history, err0) && err0 != 0 && history[0] == Begun(run.TheWorld())
              && history[|history| - 1].calls == history[0].calls + args
              && history[|history| - 1].processed == run.processed
              && Ends(|run.nodes|, argc, wantsIndex, history[|history| - 1], err0, err, e, w)
  {
    hide NodesOf, LinksOf, SlotCount, AllWidest, Ends, Zeros, InputsUpTo, Answered, Run.Chain, Run.OneStep, RunSteps, WindingSteps, Stops,
         Initialized;
    var parser, egroup := NewParser(argp, inOrder, noArgs);
    TablesSound(argp, noArgs);
    run := new Run(parser, egroup, argc, noArgs, wantsIndex, input, parsers, getopt,
                   Prefix(inOrder, noArgs), NodesOf(argp), LinksOf(argp));
    err, finished, k, args, history, err0, e, w := run.Parse(limit);
    if finished && run.freed {
      forall g | 0 <= g < |run.nodes| && run.nodes[g].parser
        ensures Trace(Steps(run.calls), g)
                == [Init] + Trace(Steps(args), g)
                   + (Maybe(g < e.waited && g !in BusyGroups(run.processed), NoArgs) + Maybe(g >= e.ended, AtEnd)
                      + (if e.failed then [Error] else Maybe(g >= e.told, Success)) + [Fini])
      {
        TraceOfRun(run.nodes, Steps(args), BusyGroups(run.processed), e, g);
      }
    }
  }

  lemma TablesSound(argp: Option<Argp>, noArgs: bool)
    ensures SlotCount(NodesOf(argp)) <= SizesFor(argp, noArgs).numChildInputs && |LinksOf(argp)| == |NodesOf(argp)|
    ensures forall g :: 0 <= g < |NodesOf(argp)| ==> D.Tied(NodesOf(argp), LinksOf(argp)[g], g)
  {
    if argp.Some? {
      TreeSums(argp.value);
      D.EveryLinkTied(argp.value);
    }
  }
}
