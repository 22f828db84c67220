/** The tables of lib/argp-parse.c: a first pass over the tree computes their sizes, a second one
    fills them. */
module ArgpTables {
  import opened Common
  import opened Argp

  // ---------------------------------------------------------------- Groups

  // An argp gets a group when it has options or a parser.
  predicate IsGroup(argp: Argp) {
    argp.options.Some? || argp.parser
  }

  /** The argps of the groups, in preorder. */
  function Nodes(argp: Argp): seq<Argp>
    decreases argp, 1
  {
    (if IsGroup(argp) then [argp] else []) + NodesAll(argp.children)
  }

  function NodesAll(children: seq<Argp>): seq<Argp>
    decreases children, 0
  {
    if children == [] then [] else Nodes(children[0]) + NodesAll(children[1..])
  }

  /** How a group hangs below another: the group of its parent, unless the parent has none, and its
      place among the children there. */
  datatype Link = Link(parent: Option<nat>, index: nat)

  function Links(argp: Argp, parent: Option<nat>, index: nat, group: nat): seq<Link>
    decreases argp, 1
  {
    if IsGroup(argp) then [Link(parent, index)] + LinksAll(argp.children, Some(group), 0, group + 1)
    else LinksAll(argp.children, None, 0, group)
  }

  function LinksAll(children: seq<Argp>, parent: Option<nat>, index: nat, group: nat): seq<Link>
    decreases children, 0
  {
    if children == [] then []
    else
      var first := Links(children[0], parent, index, group);
      first + LinksAll(children[1..], parent, index + 1, group + |Nodes(children[0])|)
  }

  lemma {:induction false} LinksLength(argp: Argp, parent: Option<nat>, index: nat, group: nat)
    ensures |Links(argp, parent, index, group)| == |Nodes(argp)|
    decreases argp, 1
  {
    if IsGroup(argp) {
      LinksAllLength(argp.children, Some(group), 0, group + 1);
    } else {
      LinksAllLength(argp.children, None, 0, group);
    }
  }

  lemma {:induction false} LinksAllLength(children: seq<Argp>, parent: Option<nat>, index: nat, group: nat)
    ensures |LinksAll(children, parent, index, group)| == |NodesAll(children)|
    decreases children, 0
  {
    if children != [] {
      LinksLength(children[0], parent, index, group);
      LinksAllLength(children[1..], parent, index + 1, group + |Nodes(children[0])|);
    }
  }

  // ---------------------------------------------------------------- Short options

  /** The most recent option that is not an alias; a leading alias stands for itself. */
  function Real(opts: seq<Opt>): Opt
    requires opts != []
    decreases |opts|
  {
    if |opts| == 1 || !opts[|opts| - 1].alias then opts[|opts| - 1] else Real(opts[..|opts| - 1])
  }

  /** That is the last option that is no alias. */
  lemma {:induction false} RealIs(opts: seq<Opt>, q: nat)
    requires q < |opts| && (q == 0 || !opts[q].alias) && forall i :: q < i < |opts| ==> opts[i].alias
    ensures Real(opts) == opts[q]
    decreases |opts|
  {
    if q < |opts| - 1 {
      RealIs(opts[..|opts| - 1], q);
    }
  }

  function ShortOf(o: Opt, base: Opt): string {
    if base.doc || !IsShort(o) then ""
    else [Key(o)] + if !base.arg then "" else if base.argOptional then "::" else ":"
  }

  function OwnShort(opts: seq<Opt>): string
    decreases |opts|
  {
    if opts == [] then "" else OwnShort(opts[..|opts| - 1]) + ShortOf(opts[|opts| - 1], Real(opts))
  }

  /** What getopt gets as its short options, without the prefix. */
  function ShortText(nodes: seq<Argp>): string
    decreases |nodes|
  {
    if nodes == [] then "" else ShortText(nodes[..|nodes| - 1]) + OwnShort(Own(nodes[|nodes| - 1]))
  }

  function Prefix(inOrder: bool, noArgs: bool): string {
    if inOrder then "-" else if noArgs then "+" else ""
  }

  // ---------------------------------------------------------------- Long options

  const USER := 0x100_0000
  const WORD := 0x1_0000_0000

  // The value of a C int with these low 32 bits.
  function Wrap(x: int): (r: int)
    ensures -WORD / 2 <= r < WORD / 2 && (r - x) % WORD == 0
  {
    (x + WORD / 2) % WORD - WORD / 2
  }

  /** The value of a long option: the user's 24 bits below the number of the group. */
  function Pack(group: nat, key: int): int {
    Wrap(key % USER + (group + 1) * USER)
  }

  // opt >> USER_BITS
  function GroupKey(opt: int): int {
    opt / USER
  }

  // (opt << GROUP_BITS) >> GROUP_BITS
  function UserKey(opt: int): int {
    Wrap(opt * 0x100) / 0x100
  }

  datatype HasArg = NoArgument | RequiredArgument | OptionalArgument

  /** struct option; the name is None in the entry that ends the vector. */
  datatype LongOption = LongOption(name: Option<string>, hasArg: HasArg, val: int)

  predicate Named(table: seq<LongOption>, name: string) {
    exists i :: 0 <= i < |table| && table[i].name == Some(name)
  }

  function LongOf(group: nat, o: Opt, base: Opt): LongOption {
    LongOption(o.name,
               if !base.arg then NoArgument else if base.argOptional then OptionalArgument else RequiredArgument,
               Pack(group, if o.key != 0 then o.key else base.key))
  }

  function AddLong(table: seq<LongOption>, group: nat, o: Opt, base: Opt): seq<LongOption> {
    if !base.doc && o.name.Some? && !Named(table, o.name.value) then table + [LongOf(group, o, base)] else table
  }

  function AddOwn(table: seq<LongOption>, group: nat, opts: seq<Opt>): seq<LongOption>
    decreases |opts|
  {
    if opts == [] then table
    else AddLong(AddOwn(table, group, opts[..|opts| - 1]), group, opts[|opts| - 1], Real(opts))
  }

  function LongTable(nodes: seq<Argp>): seq<LongOption>
    decreases |nodes|
  {
    if nodes == [] then [] else AddOwn(LongTable(nodes[..|nodes| - 1]), |nodes| - 1, Own(nodes[|nodes| - 1]))
  }

  // ---------------------------------------------------------------- Child inputs

  function SlotCount(nodes: seq<Argp>): nat
    decreases |nodes|
  {
    if nodes == [] then 0 else SlotCount(nodes[..|nodes| - 1]) + |nodes[|nodes| - 1].children|
  }

  /** The part of struct group that the conversion sets; `slots` is where its child inputs begin. */
  datatype Group = Group(argp: Argp, shortEnd: nat, link: Link, slots: Option<nat>)

  function Record(prefix: string, nodes: seq<Argp>, link: Link, g: nat): Group
    requires g < |nodes|
  {
    Group(nodes[g], |prefix| + |ShortText(nodes[..g + 1])|, link,
          if nodes[g].children == [] then None else Some(SlotCount(nodes[..g])))
  }

  // ---------------------------------------------------------------- Growth

  lemma {:induction false} ShortConcat(a: seq<Argp>, b: seq<Argp>)
    ensures |ShortText(a)| <= |ShortText(a + b)| && ShortText(a + b)[..|ShortText(a)|] == ShortText(a)
    decreases |b|
  {
    if b == [] {
      assert a + b == a;
    } else {
      assert (a + b)[..|a + b| - 1] == a + b[..|b| - 1];
      ShortConcat(a, b[..|b| - 1]);
    }
  }

  lemma {:induction false} AddOwnGrows(table: seq<LongOption>, group: nat, opts: seq<Opt>)
    ensures |table| <= |AddOwn(table, group, opts)| <= |table| + |opts|
    ensures AddOwn(table, group, opts)[..|table|] == table
    decreases |opts|
  {
    if opts != [] {
      AddOwnGrows(table, group, opts[..|opts| - 1]);
    }
  }

  lemma {:induction false} LongConcat(a: seq<Argp>, b: seq<Argp>)
    ensures |LongTable(a)| <= |LongTable(a + b)| && LongTable(a + b)[..|LongTable(a)|] == LongTable(a)
    decreases |b|
  {
    if b == [] {
      assert a + b == a;
    } else {
      var init := a + b[..|b| - 1];
      assert (a + b)[..|a + b| - 1] == init;
      LongConcat(a, b[..|b| - 1]);
      AddOwnGrows(LongTable(init), |a + b| - 1, Own(b[|b| - 1]));
    }
  }

  lemma {:induction false} SlotConcat(a: seq<Argp>, b: seq<Argp>)
    ensures SlotCount(a) <= SlotCount(a + b)
    decreases |b|
  {
    if b == [] {
      assert a + b == a;
    } else {
      assert (a + b)[..|a + b| - 1] == a + b[..|b| - 1];
      SlotConcat(a, b[..|b| - 1]);
    }
  }

  // ---------------------------------------------------------------- The sizes

  function Options(argp: Argp): nat {
    |Preorder(argp)|
  }

  // All children vectors of the tree together, those of argps without a group too.
  function Children(argp: Argp): nat
    decreases argp, 1
  {
    ChildrenAll(argp.children)
  }

  function ChildrenAll(children: seq<Argp>): nat
    decreases children, 0
  {
    if children == [] then 0 else 1 + Children(children[0]) + ChildrenAll(children[1..])
  }

  lemma {:induction false} ShortBound(opts: seq<Opt>)
    ensures |OwnShort(opts)| <= 3 * |opts|
    decreases |opts|
  {
    if opts != [] {
      ShortBound(opts[..|opts| - 1]);
    }
  }

  function OptionSum(nodes: seq<Argp>): nat
    decreases |nodes|
  {
    if nodes == [] then 0 else OptionSum(nodes[..|nodes| - 1]) + |Own(nodes[|nodes| - 1])|
  }

  lemma {:induction false} OptionSumConcat(a: seq<Argp>, b: seq<Argp>)
    ensures OptionSum(a + b) == OptionSum(a) + OptionSum(b) && SlotCount(a + b) == SlotCount(a) + SlotCount(b)
    decreases |b|
  {
    if b == [] {
      assert a + b == a;
    } else {
      assert (a + b)[..|a + b| - 1] == a + b[..|b| - 1];
      OptionSumConcat(a, b[..|b| - 1]);
    }
  }

  lemma {:induction false} TreeSums(argp: Argp)
    ensures OptionSum(Nodes(argp)) == Options(argp)
    ensures SlotCount(Nodes(argp)) <= Children(argp)
    decreases argp, 1
  {
    TreeSumsAll(argp.children);
    if IsGroup(argp) {
      OptionSumConcat([argp], NodesAll(argp.children));
      assert OptionSum([argp]) == OptionSum([argp][..0]) + |Own(argp)|;
      assert SlotCount([argp]) == SlotCount([argp][..0]) + |argp.children|;
    } else {
      assert Nodes(argp) == NodesAll(argp.children);
    }
  }

  lemma {:induction false} TreeSumsAll(children: seq<Argp>)
    ensures OptionSum(NodesAll(children)) == |PreorderAll(children)|
    ensures SlotCount(NodesAll(children)) + |children| <= ChildrenAll(children)
    decreases children, 0
  {
    if children != [] {
      TreeSums(children[0]);
      TreeSumsAll(children[1..]);
      OptionSumConcat(Nodes(children[0]), NodesAll(children[1..]));
    }
  }

  lemma {:induction false} TextBound(nodes: seq<Argp>)
    ensures |ShortText(nodes)| <= 3 * OptionSum(nodes) && |LongTable(nodes)| <= OptionSum(nodes)
    decreases |nodes|
  {
    if nodes != [] {
      var init, last := nodes[..|nodes| - 1], nodes[|nodes| - 1];
      TextBound(init);
      ShortBound(Own(last));
      AddOwnGrows(LongTable(init), |nodes| - 1, Own(last));
    }
  }

  /** struct parser_sizes, and the sums that calc_sizes computes. */
  datatype Sizes = Sizes(shortLen: nat, longLen: nat, numGroups: nat, numChildInputs: nat)

  function SizesOf(argp: Argp, noArgs: bool): Sizes {
    Sizes((if noArgs then 0 else 1) + 3 * Options(argp), Options(argp), |Nodes(argp)|, Children(argp))
  }

  /** The tables fit: a terminator behind each text, a group and a slot for each that is used. */
  predicate Fits(sizes: Sizes, prefix: string, nodes: seq<Argp>) {
    && |prefix| + |ShortText(nodes)| < sizes.shortLen + 1
    && |LongTable(nodes)| < sizes.longLen + 1
    && |nodes| < sizes.numGroups + 1
    && SlotCount(nodes) <= sizes.numChildInputs
  }

  // A short option with an optional argument, for which all the room counted is used.
  predicate Widest(opts: seq<Opt>, k: nat)
    requires k < |opts|
  {
    var base := Real(opts[..k + 1]);
    IsShort(opts[k]) && !base.doc && base.arg && base.argOptional
  }

  predicate AllWidest(opts: seq<Opt>) {
    forall k :: 0 <= k < |opts| ==> Widest(opts, k)
  }

  lemma {:induction false} FullText(opts: seq<Opt>)
    ensures |OwnShort(opts)| == 3 * |opts| <==> AllWidest(opts)
    decreases |opts|
  {
    if opts != [] {
      var init := opts[..|opts| - 1];
      FullText(init);
      ShortBound(init);
      forall k | 0 <= k < |init|
        ensures Widest(init, k) == Widest(opts, k)
      {
        assert init[..k + 1] == opts[..k + 1];
      }
      assert opts[..|init| + 1] == opts;
      assert AllWidest(opts) <==> AllWidest(init) && Widest(opts, |init|);
    }
  }

  lemma {:induction false} FullTexts(nodes: seq<Argp>)
    ensures |ShortText(nodes)| == 3 * OptionSum(nodes) <==> forall node <- nodes :: AllWidest(Own(node))
    decreases |nodes|
  {
    hide OwnShort, AllWidest;
    if nodes != [] {
      var init, last := nodes[..|nodes| - 1], nodes[|nodes| - 1];
      FullTexts(init);
      FullText(Own(last));
      TextBound(init);
      ShortBound(Own(last));
      assert nodes == init + [last];
    }
  }

  /** The sizing pass covers the fill pass for every tree, unless ARGP_NO_ARGS is set, for which no
      room is counted, and each option of the tree is a short one with an optional argument. */
  lemma SizesSuffice(argp: Argp, inOrder: bool, noArgs: bool)
    ensures Fits(SizesOf(argp, noArgs), Prefix(inOrder, noArgs), Nodes(argp))
            <==> !noArgs || exists node <- Nodes(argp) :: !AllWidest(Own(node))
  {
    var nodes := Nodes(argp);
    TreeSums(argp);
    TextBound(nodes);
    FullTexts(nodes);
  }

  /** The smallest tree for which the sizes are too small. */
  lemma NoOptionsNoArgs(argp: Argp, inOrder: bool)
    requires argp.options == Some([]) && argp.children == []
    ensures !Fits(SizesOf(argp, true), Prefix(inOrder, true), Nodes(argp))
  {
    SizesSuffice(argp, inOrder, true);
    assert Nodes(argp) == [argp];
  }

  /** Everything that calc_sizes adds for a tree. */
  function Plus(a: Sizes, argp: Argp): Sizes {
    Sizes(a.shortLen + 3 * Options(argp), a.longLen + Options(argp), a.numGroups + |Nodes(argp)|,
          a.numChildInputs + Children(argp))
  }

  function PlusAll(a: Sizes, children: seq<Argp>): Sizes {
    Sizes(a.shortLen + 3 * |PreorderAll(children)|, a.longLen + |PreorderAll(children)|,
          a.numGroups + |NodesAll(children)|, a.numChildInputs + ChildrenAll(children))
  }

  // The struct that calc_sizes counts in.
  class Counter {
    var sizes: Sizes

    constructor (shortLen: nat)
      ensures sizes == Sizes(shortLen, 0, 0, 0)
    {
      sizes := Sizes(shortLen, 0, 0, 0);
    }

    method CalcSizes(argp: Argp)
      modifies this
      ensures sizes == Plus(old(sizes), argp)
      decreases argp
    {
      if IsGroup(argp) {
        sizes := sizes.(numGroups := sizes.numGroups + 1);
        if argp.options.Some? {
          var numOpts := 0;
          while numOpts < |argp.options.value|
            invariant numOpts <= |argp.options.value|
          {
            numOpts := numOpts + 1;
          }
          sizes := sizes.(shortLen := sizes.shortLen + numOpts * 3, longLen := sizes.longLen + numOpts);
        }
      }
      ghost var own := sizes;
      for c := 0 to |argp.children|
        invariant PlusAll(sizes, argp.children[c..]) == PlusAll(own, argp.children)
      {
        assert argp.children[c..][0] == argp.children[c] && argp.children[c..][1..] == argp.children[c + 1..];
        CalcSizes(argp.children[c]);
        sizes := sizes.(numChildInputs := sizes.numChildInputs + 1);
      }
    }
  }

  // ---------------------------------------------------------------- The fill pass

  lemma TextNone()
    ensures ShortText([]) == "" && LongTable([]) == [] && SlotCount([]) == 0
  {
  }

  lemma OwnStep(table: seq<LongOption>, group: nat, opts: seq<Opt>, k: nat)
    requires k < |opts|
    ensures var base := Real(opts[..k + 1]);
            && OwnShort(opts[..k + 1]) == OwnShort(opts[..k]) + ShortOf(opts[k], base)
            && AddOwn(table, group, opts[..k + 1]) == AddLong(AddOwn(table, group, opts[..k]), group, opts[k], base)
            && base == if k == 0 || !opts[k].alias then opts[k] else Real(opts[..k])
  {
    assert opts[..k + 1][..k] == opts[..k];
  }

  lemma OwnWithin(table: seq<LongOption>, group: nat, opts: seq<Opt>, k: nat)
    requires k <= |opts|
    ensures |OwnShort(opts[..k])| <= |OwnShort(opts)|
    ensures |AddOwn(table, group, opts[..k])| <= |AddOwn(table, group, opts)|
    decreases |opts| - k
  {
    if k == |opts| {
      assert opts[..k] == opts;
    } else {
      OwnStep(table, group, opts, k);
      OwnWithin(table, group, opts, k + 1);
    }
  }

  lemma NodeStep(nodes: seq<Argp>, argp: Argp)
    ensures ShortText(nodes + [argp]) == ShortText(nodes) + OwnShort(Own(argp))
    ensures LongTable(nodes + [argp]) == AddOwn(LongTable(nodes), |nodes|, Own(argp))
    ensures SlotCount(nodes + [argp]) == SlotCount(nodes) + |argp.children|
  {
    assert (nodes + [argp])[..|nodes|] == nodes;
  }

  lemma FitsWithin(sizes: Sizes, prefix: string, a: seq<Argp>, b: seq<Argp>)
    requires Fits(sizes, prefix, a + b)
    ensures Fits(sizes, prefix, a)
  {
    ShortConcat(a, b);
    LongConcat(a, b);
    SlotConcat(a, b);
  }

  class Parser {
    const shortOpts: array<char>
    const longOpts: array<LongOption>
    const groups: array<Group>
    const sizes: Sizes
    // struct parser_convert_state: the next usable entries
    var shortEnd: nat
    var longEnd: nat
    var childInputsEnd: nat

    // The text so far, with its terminator.
    ghost predicate TextIs(text: string)
      reads this, shortOpts
    {
      shortEnd == |text| < shortOpts.Length && shortOpts[..shortEnd] == text && shortOpts[shortEnd] == '\0'
    }

    ghost predicate TableIs(table: seq<LongOption>)
      reads this, longOpts
    {
      && longEnd == |table| < longOpts.Length && longOpts[..longEnd] == table && longOpts[longEnd].name.None?
      && forall i :: 0 <= i < |table| ==> table[i].name.Some?
    }

    ghost predicate GroupsAre(prefix: string, nodes: seq<Argp>, links: seq<Link>)
      reads groups
    {
      && |links| == |nodes| <= groups.Length
      && forall g :: 0 <= g < |nodes| ==> groups[g] == Record(prefix, nodes, links[g], g)
    }

    // The storage that parser_init lays out for these sizes.
    ghost predicate Allocated() {
      && shortOpts.Length == sizes.shortLen + 1 && longOpts.Length == sizes.longLen + 1
      && groups.Length == sizes.numGroups + 1
    }

    ghost predicate Filled(prefix: string, nodes: seq<Argp>, links: seq<Link>)
      reads this, shortOpts, longOpts, groups
    {
      && Allocated() && TextIs(prefix + ShortText(nodes)) && TableIs(LongTable(nodes))
      && GroupsAre(prefix, nodes, links) && childInputsEnd == SlotCount(nodes)
    }

    method PutShort(o: Opt, base: Opt, ghost text: string)
      requires TextIs(text) && shortEnd + |ShortOf(o, base)| < shortOpts.Length && !base.doc
      modifies this`shortEnd, shortOpts
      ensures TextIs(text + ShortOf(o, base))
    {
      if IsShort(o) {
        shortOpts[shortEnd] := Key(o);
        shortEnd := shortEnd + 1;
        if base.arg {
          shortOpts[shortEnd] := ':';
          shortEnd := shortEnd + 1;
          if base.argOptional {
            shortOpts[shortEnd] := ':';
            shortEnd := shortEnd + 1;
          }
        }
        shortOpts[shortEnd] := '\0';
      }
    }

    /** The offset of a long option with this name, -1 if there is none. */
    method FindLongOption(name: string, ghost table: seq<LongOption>) returns (at: int)
      requires TableIs(table)
      ensures if Named(table, name) then 0 <= at < |table| && table[at].name == Some(name) && !Named(table[..at], name)
              else at == -1
    {
      at := 0;
      while longOpts[at].name.Some?
        invariant 0 <= at <= |table| && !Named(table[..at], name)
        decreases |table| - at
      {
        assert longOpts[at] == table[at];
        if longOpts[at].name.value == name {
          return;
        }
        at := at + 1;
      }
      assert table[..at] == table;
      at := -1;
    }

    method PutLong(group: nat, o: Opt, base: Opt, ghost table: seq<LongOption>)
      requires TableIs(table) && |AddLong(table, group, o, base)| < longOpts.Length && !base.doc
      modifies this`longEnd, longOpts
      ensures TableIs(AddLong(table, group, o, base))
    {
      if o.name.Some? {
        var at := FindLongOption(o.name.value, table);
        if at < 0 {
          longOpts[longEnd] := LongOf(group, o, base);
          longEnd := longEnd + 1;
          longOpts[longEnd] := LongOption(None, NoArgument, 0);
        }
      }
    }

    // The options of one argp.
    method ConvertOwn(opts: seq<Opt>, group: nat, ghost text: string, ghost table: seq<LongOption>)
      requires TextIs(text) && |text| + |OwnShort(opts)| < shortOpts.Length
      requires TableIs(table) && |AddOwn(table, group, opts)| < longOpts.Length
      modifies this`shortEnd, this`longEnd, shortOpts, longOpts
      ensures TextIs(text + OwnShort(opts)) && TableIs(AddOwn(table, group, opts))
    {
      hide OwnShort, AddOwn, Real, ShortOf, AddLong;
      OwnNone(table, group);
      assert opts[..0] == [] && text + "" == text;
      var base := 0;
      for k := 0 to |opts|
        invariant TextIs(text + OwnShort(opts[..k])) && TableIs(AddOwn(table, group, opts[..k]))
        invariant if k == 0 then base == 0 else 0 <= base < k && opts[base] == Real(opts[..k])
      {
        if !opts[k].alias {
          base := k;
        }
        OwnStep(table, group, opts, k);
        OwnWithin(table, group, opts, k + 1);
        ghost var before := OwnShort(opts[..k]);
        if !opts[base].doc {
          PutShort(opts[k], opts[base], text + before);
          PutLong(group, opts[k], opts[base], AddOwn(table, group, opts[..k]));
          Regroup(text, before, ShortOf(opts[k], opts[base]));
        } else {
          NothingAdded(before, AddOwn(table, group, opts[..k]), group, opts[k], opts[base]);
        }
      }
      assert opts[..|opts|] == opts;
    }

    // The entry of one group.
    method AddGroup(argp: Argp, link: Link, group: nat, ghost prefix: string, ghost nodes: seq<Argp>, ghost links: seq<Link>)
      requires Filled(prefix, nodes, links) && group == |nodes| && Fits(sizes, prefix, nodes + [argp])
      modifies this`shortEnd, this`longEnd, this`childInputsEnd, shortOpts, longOpts, groups
      ensures Filled(prefix, nodes + [argp], links + [link])
    {
      hide Real, OwnShort, AddOwn, ShortText, LongTable, SlotCount;
      NodeStep(nodes, argp);
      if argp.options.Some? {
        ConvertOwn(argp.options.value, group, prefix + ShortText(nodes), LongTable(nodes));
      } else {
        OwnNone(LongTable(nodes), group);
      }
      assert prefix + ShortText(nodes) + OwnShort(Own(argp)) == prefix + ShortText(nodes + [argp]);
      var slots := if argp.children == [] then None else Some(childInputsEnd);
      groups[group] := Group(argp, shortEnd, link, slots);
      childInputsEnd := childInputsEnd + |argp.children|;
      forall g | 0 <= g <= group
        ensures groups[g] == Record(prefix, nodes + [argp], (links + [link])[g], g)
      {
        RecordKept(prefix, nodes, argp, (links + [link])[g], g);
      }
    }

    /** Appends the groups of a tree; the next unused group is returned. */
    method ConvertOptions(argp: Argp, parent: Option<nat>, parentIndex: nat, group: nat,
                          ghost prefix: string, ghost nodes: seq<Argp>, ghost links: seq<Link>) returns (next: nat)
      requires Filled(prefix, nodes, links) && group == |nodes| && Fits(sizes, prefix, nodes + Nodes(argp))
      modifies this`shortEnd, this`longEnd, this`childInputsEnd, shortOpts, longOpts, groups
      ensures Filled(prefix, nodes + Nodes(argp), links + Links(argp, parent, parentIndex, group))
      ensures next == |nodes + Nodes(argp)|
      decreases argp
    {
      hide Fits, Filled, Nodes, Links, NodesAll, LinksAll;
      next := group;
      var up: Option<nat> := None;
      ghost var done, tied := nodes, links;
      TreeStart(argp, parent, parentIndex, group);
      if IsGroup(argp) {
        FitsFirst(sizes, prefix, nodes, argp);
        AddGroup(argp, Link(parent, parentIndex), group, prefix, nodes, links);
        up, next := Some(group), group + 1;
        done, tied := nodes + [argp], links + [Link(parent, parentIndex)];
        Regroup(nodes, [argp], NodesAll(argp.children));
        Regroup(links, [Link(parent, parentIndex)], LinksAll(argp.children, up, 0, next));
      }
      for c := 0 to |argp.children|
        invariant Filled(prefix, done, tied) && next == |done|
        invariant done + NodesAll(argp.children[c..]) == nodes + Nodes(argp)
        invariant tied + LinksAll(argp.children[c..], up, c, next) == links + Links(argp, parent, parentIndex, group)
      {
        var child := argp.children[c];
        ChildStep(argp.children, up, c, next);
        Regroup(done, Nodes(child), NodesAll(argp.children[c + 1..]));
        Regroup(tied, Links(child, up, c, next), LinksAll(argp.children[c + 1..], up, c + 1, next + |Nodes(child)|));
        FitsWithin(sizes, prefix, done + Nodes(child), NodesAll(argp.children[c + 1..]));
        ghost var at := next;
        next := ConvertOptions(child, up, c, next, prefix, done, tied);
        done, tied := done + Nodes(child), tied + Links(child, up, c, at);
      }
      ChildEnd(argp.children, up, next);
      assert done + [] == done && tied + [] == tied;
    }

    /** The storage, laid out as parser_init does. */
    constructor (sizes: Sizes)
      ensures this.sizes == sizes && Allocated() && fresh(shortOpts) && fresh(longOpts) && fresh(groups)
    {
      this.sizes := sizes;
      shortOpts := new char[sizes.shortLen + 1];
      longOpts := new LongOption[sizes.longLen + 1];
      groups := new Group[sizes.numGroups + 1];
      shortEnd, longEnd, childInputsEnd := 0, 0, 0;
    }

    /** parser_convert; the number of groups is returned.  There may be no argp. */
    method Convert(argp: Option<Argp>, inOrder: bool, noArgs: bool) returns (egroup: nat)
      requires Allocated() && Fits(sizes, Prefix(inOrder, noArgs), NodesOf(argp))
      modifies this`shortEnd, this`longEnd, this`childInputsEnd, shortOpts, longOpts, groups
      ensures Filled(Prefix(inOrder, noArgs), NodesOf(argp), LinksOf(argp)) && egroup == |NodesOf(argp)|
    {
      hide Nodes, Links, ShortText, LongTable, SlotCount;
      shortEnd, longEnd, childInputsEnd := 0, 0, 0;
      ghost var prefix := Prefix(inOrder, noArgs);
      TextNone();
      if argp.Some? {
        assert [] + Nodes(argp.value) == Nodes(argp.value);
        FitsWithin(sizes, prefix, [], Nodes(argp.value));
      }
      if inOrder {
        shortOpts[shortEnd] := '-';
        shortEnd := shortEnd + 1;
      } else if noArgs {
        shortOpts[shortEnd] := '+';
        shortEnd := shortEnd + 1;
      }
      shortOpts[shortEnd] := '\0';
      longOpts[longEnd] := LongOption(None, NoArgument, 0);
      assert Filled(prefix, [], []);
      if argp.Some? {
        egroup := ConvertOptions(argp.value, None, 0, 0, prefix, [], []);
        assert [] + Nodes(argp.value) == Nodes(argp.value);
        assert [] + LinksOf(argp) == LinksOf(argp);
      } else {
        egroup := 0;
      }
    }
  }

  lemma NothingAdded(text: string, table: seq<LongOption>, group: nat, o: Opt, base: Opt)
    requires base.doc
    ensures text + ShortOf(o, base) == text && AddLong(table, group, o, base) == table
  {
  }

  lemma OwnNone(table: seq<LongOption>, group: nat)
    ensures OwnShort([]) == "" && AddOwn(table, group, []) == table
  {
  }

  lemma RecordKept(prefix: string, nodes: seq<Argp>, argp: Argp, link: Link, g: nat)
    requires g <= |nodes|
    ensures if g < |nodes| then Record(prefix, nodes + [argp], link, g) == Record(prefix, nodes, link, g)
            else Record(prefix, nodes + [argp], link, g)
                 == Group(argp, |prefix| + |ShortText(nodes + [argp])|, link,
                          if argp.children == [] then None else Some(SlotCount(nodes)))
  {
    var more := nodes + [argp];
    assert more[..g] == nodes[..g];
    if g < |nodes| {
      assert more[..g + 1] == nodes[..g + 1];
    } else {
      assert more[..g + 1] == more && nodes[..g] == nodes;
    }
  }

  lemma FitsFirst(sizes: Sizes, prefix: string, nodes: seq<Argp>, argp: Argp)
    requires IsGroup(argp) && Fits(sizes, prefix, nodes + Nodes(argp))
    ensures Fits(sizes, prefix, nodes + [argp])
  {
    Regroup(nodes, [argp], NodesAll(argp.children));
    FitsWithin(sizes, prefix, nodes + [argp], NodesAll(argp.children));
  }

  lemma TreeStart(argp: Argp, parent: Option<nat>, index: nat, group: nat)
    ensures argp.children[0..] == argp.children
    ensures Nodes(argp) == (if IsGroup(argp) then [argp] else []) + NodesAll(argp.children)
    ensures !IsGroup(argp) ==> Nodes(argp) == NodesAll(argp.children)
    ensures Links(argp, parent, index, group)
            == if IsGroup(argp) then [Link(parent, index)] + LinksAll(argp.children, Some(group), 0, group + 1)
               else LinksAll(argp.children, None, 0, group)
  {
  }

  lemma ChildStep(children: seq<Argp>, up: Option<nat>, c: nat, group: nat)
    requires c < |children|
    ensures NodesAll(children[c..]) == Nodes(children[c]) + NodesAll(children[c + 1..])
    ensures LinksAll(children[c..], up, c, group)
            == Links(children[c], up, c, group) + LinksAll(children[c + 1..], up, c + 1, group + |Nodes(children[c])|)
  {
    assert children[c..][0] == children[c] && children[c..][1..] == children[c + 1..];
  }

  lemma ChildEnd(children: seq<Argp>, up: Option<nat>, group: nat)
    ensures NodesAll(children[|children|..]) == [] && LinksAll(children[|children|..], up, |children|, group) == []
  {
  }

  function NodesOf(argp: Option<Argp>): seq<Argp> {
    if argp.Some? then Nodes(argp.value) else []
  }

  function LinksOf(argp: Option<Argp>): seq<Link> {
    if argp.Some? then Links(argp.value, None, 0, 0) else []
  }

  // Without an argp there is only room for the terminators and, unless ARGP_NO_ARGS is set, a prefix.
  function SizesFor(argp: Option<Argp>, noArgs: bool): Sizes {
    if argp.Some? then SizesOf(argp.value, noArgs) else Sizes(if noArgs then 0 else 1, 0, 0, 0)
  }

  lemma SizesFit(argp: Option<Argp>, inOrder: bool, noArgs: bool)
    requires noArgs ==> exists node <- NodesOf(argp) :: !AllWidest(Own(node))
    ensures Fits(SizesFor(argp, noArgs), Prefix(inOrder, noArgs), NodesOf(argp))
  {
    if argp.Some? {
      SizesSuffice(argp.value, inOrder, noArgs);
    } else {
      TextNone();
    }
  }

  /** Sizing, then filling, as parser_init does: no table is overrun for any tree without
      ARGP_NO_ARGS, and with it exactly where its prefix has room. */
  method NewParser(argp: Option<Argp>, inOrder: bool, noArgs: bool) returns (parser: Parser, egroup: nat)
    requires noArgs ==> exists node <- NodesOf(argp) :: !AllWidest(Own(node))
    ensures fresh(parser) && parser.sizes == SizesFor(argp, noArgs)
    ensures parser.Filled(Prefix(inOrder, noArgs), NodesOf(argp), LinksOf(argp)) && egroup == |NodesOf(argp)|
  {
    SizesFit(argp, inOrder, noArgs);
    hide Nodes, Links, NodesOf, LinksOf, Fits, Own, AllWidest, Options, Children, Parser.Filled;
    var counter := new Counter(if noArgs then 0 else 1);
    if argp.Some? {
      counter.CalcSizes(argp.value);
    }
    parser := new Parser(counter.sizes);
    egroup := parser.Convert(argp, inOrder, noArgs);
  }
}
