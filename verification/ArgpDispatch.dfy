/** What the tables of ArgpTables mean: where each group hangs in the tree, and to which group and
    with which key an option goes. */
module ArgpDispatch {
  import opened Common
  import opened Argp
  import opened ArgpTables
  import ArgpHelp

  // ---------------------------------------------------------------- The links

  // The parent comes first and has this group's argp at that place among its children.
  predicate Tied(nodes: seq<Argp>, link: Link, g: nat)
    requires g < |nodes|
  {
    link.parent.Some? ==>
      && link.parent.value < g && link.index < |nodes[link.parent.value].children|
      && nodes[link.parent.value].children[link.index] == nodes[g]
  }

  predicate AllTied(nodes: seq<Argp>, links: seq<Link>, group: nat) {
    group + |links| <= |nodes| && forall g :: 0 <= g < |links| ==> Tied(nodes, links[g], group + g)
  }

  // The groups from this one on are those of part.
  predicate Stands(nodes: seq<Argp>, group: nat, part: seq<Argp>) {
    group + |part| <= |nodes| && nodes[group..group + |part|] == part
  }

  lemma StandsParts(nodes: seq<Argp>, group: nat, a: seq<Argp>, b: seq<Argp>)
    requires Stands(nodes, group, a + b)
    ensures Stands(nodes, group, a) && Stands(nodes, group + |a|, b)
  {
    var all := nodes[group..group + |a| + |b|];
    assert nodes[group..group + |a|] == all[..|a|] == a;
    assert nodes[group + |a|..group + |a| + |b|] == all[|a|..] == b;
  }

  lemma {:induction false} LinksTied(nodes: seq<Argp>, argp: Argp, parent: Option<nat>, index: nat, group: nat)
    requires Stands(nodes, group, Nodes(argp))
    requires parent.Some? ==> parent.value < group && index < |nodes[parent.value].children|
                              && nodes[parent.value].children[index] == argp
    ensures AllTied(nodes, Links(argp, parent, index, group), group)
    ensures |Links(argp, parent, index, group)| == |Nodes(argp)|
    decreases argp, 1
  {
    LinksLength(argp, parent, index, group);
    if IsGroup(argp) {
      StandsParts(nodes, group, [argp], NodesAll(argp.children));
      assert nodes[group] == nodes[group..group + 1][0] == argp;
      LinksAllTied(nodes, argp.children, Some(group), 0, group + 1);
      JoinTied(nodes, [Link(parent, index)], LinksAll(argp.children, Some(group), 0, group + 1), group);
    } else {
      assert Nodes(argp) == NodesAll(argp.children);
      LinksAllTied(nodes, argp.children, None, 0, group);
    }
  }

  lemma {:induction false} LinksAllTied(nodes: seq<Argp>, children: seq<Argp>, parent: Option<nat>, index: nat, group: nat)
    requires Stands(nodes, group, NodesAll(children))
    requires parent.Some? ==> parent.value < group && index + |children| == |nodes[parent.value].children|
                              && nodes[parent.value].children[index..] == children
    ensures AllTied(nodes, LinksAll(children, parent, index, group), group)
    ensures |LinksAll(children, parent, index, group)| == |NodesAll(children)|
    decreases children, 0
  {
    LinksAllLength(children, parent, index, group);
    if children != [] {
      var n := |Nodes(children[0])|;
      StandsParts(nodes, group, Nodes(children[0]), NodesAll(children[1..]));
      hide AllTied, Stands;
      if parent.Some? {
        NextChild(nodes[parent.value].children, index, children);
      }
      LinksTied(nodes, children[0], parent, index, group);
      LinksAllTied(nodes, children[1..], parent, index + 1, group + n);
      JoinTied(nodes, Links(children[0], parent, index, group), LinksAll(children[1..], parent, index + 1, group + n), group);
    }
  }

  lemma NextChild(all: seq<Argp>, index: nat, children: seq<Argp>)
    requires children != [] && index + |children| == |all| && all[index..] == children
    ensures all[index] == children[0] && all[index + 1..] == children[1..]
  {
    assert all[index..][0] == all[index] && all[index..][1..] == all[index + 1..];
  }

  lemma JoinTied(nodes: seq<Argp>, a: seq<Link>, b: seq<Link>, group: nat)
    requires AllTied(nodes, a, group) && AllTied(nodes, b, group + |a|)
    ensures AllTied(nodes, a + b, group)
  {
    forall g | 0 <= g < |a + b|
      ensures Tied(nodes, (a + b)[g], group + g)
    {
      if g >= |a| {
        assert Tied(nodes, b[g - |a|], group + |a| + (g - |a|));
      }
    }
  }

  /** In the tables of a tree, every parent index is in range of its parent's children. */
  lemma EveryLinkTied(argp: Argp)
    ensures var nodes, links := Nodes(argp), Links(argp, None, 0, 0);
            |links| == |nodes| && forall g :: 0 <= g < |nodes| ==> Tied(nodes, links[g], g)
  {
    assert Nodes(argp)[0..|Nodes(argp)|] == Nodes(argp);
    LinksTied(Nodes(argp), argp, None, 0, 0);
  }

  // A link within a subtree of groups from..to, whose tops hang below `parent` at lo..hi.
  predicate Within(link: Link, parent: Option<nat>, lo: nat, hi: nat, from: nat, to: nat) {
    || link.parent.None?
    || (link.parent == parent && lo <= link.index < hi)
    || (from <= link.parent.value < to)
  }

  // Two groups below the same parent have different places there.
  predicate Apart(links: seq<Link>) {
    forall g, h :: 0 <= g < h < |links| && links[g].parent.Some? && links[g].parent == links[h].parent ==>
      links[g].index < links[h].index
  }

  predicate Placed(links: seq<Link>, parent: Option<nat>, lo: nat, hi: nat, from: nat, to: nat) {
    Apart(links) && forall l <- links :: Within(l, parent, lo, hi, from, to)
  }

  lemma {:induction false} LinksApart(argp: Argp, parent: Option<nat>, index: nat, group: nat)
    requires parent.Some? ==> parent.value < group
    ensures Placed(Links(argp, parent, index, group), parent, index, index + 1, group, group + |Nodes(argp)|)
    decreases argp, 1
  {
    if IsGroup(argp) {
      var rest := LinksAll(argp.children, Some(group), 0, group + 1);
      LinksAllApart(argp.children, Some(group), 0, group + 1);
      var links := Links(argp, parent, index, group);
      assert links == [Link(parent, index)] + rest;
      forall g, h | 0 <= g < h < |links| && links[g].parent.Some? && links[g].parent == links[h].parent
        ensures links[g].index < links[h].index
      {
        assert links[h] == rest[h - 1] && rest[h - 1] in rest;
        assert g > 0 ==> links[g] == rest[g - 1];
      }
    } else {
      LinksAllApart(argp.children, None, 0, group);
      assert Nodes(argp) == NodesAll(argp.children);
    }
  }

  lemma {:induction false} LinksAllApart(children: seq<Argp>, parent: Option<nat>, index: nat, group: nat)
    requires parent.Some? ==> parent.value < group
    ensures Placed(LinksAll(children, parent, index, group), parent, index, index + |children|, group,
                   group + |NodesAll(children)|)
    decreases children, 0
  {
    if children != [] {
      hide Placed;
      var next := group + |Nodes(children[0])|;
      LinksApart(children[0], parent, index, group);
      LinksAllApart(children[1..], parent, index + 1, next);
      JoinApart(Links(children[0], parent, index, group), LinksAll(children[1..], parent, index + 1, next),
                parent, index, index + |children|, group, next, group + |NodesAll(children)|);
    }
  }

  lemma JoinApart(a: seq<Link>, b: seq<Link>, parent: Option<nat>, index: nat, end: nat, from: nat, mid: nat, to: nat)
    requires from <= mid <= to && index < end && (parent.Some? ==> parent.value < from)
    requires Placed(a, parent, index, index + 1, from, mid) && Placed(b, parent, index + 1, end, mid, to)
    ensures Placed(a + b, parent, index, end, from, to)
  {
    forall g, h | 0 <= g < h < |a + b| && (a + b)[g].parent.Some? && (a + b)[g].parent == (a + b)[h].parent
      ensures (a + b)[g].index < (a + b)[h].index
    {
      if g < |a| <= h {
        assert a[g] in a && b[h - |a|] in b;
      }
    }
    forall l | l in a + b
      ensures Within(l, parent, index, end, from, to)
    {
      assert l in a || l in b;
    }
  }

  /** Where a group finds its input: the slot that its parent has for it. */
  function Slot(nodes: seq<Argp>, link: Link): nat
    requires link.parent.Some? && link.parent.value < |nodes|
  {
    SlotCount(nodes[..link.parent.value]) + link.index
  }

  // The slots of one group end where those of the next begin.
  lemma SlotsFollow(nodes: seq<Argp>, g: nat, h: nat)
    requires g < h <= |nodes|
    ensures SlotCount(nodes[..g]) + |nodes[g].children| <= SlotCount(nodes[..h]) <= SlotCount(nodes)
  {
    assert nodes[..g + 1][..g] == nodes[..g];
    assert nodes[..h] == nodes[..g + 1] + nodes[g + 1..h];
    SlotConcat(nodes[..g + 1], nodes[g + 1..h]);
    assert nodes == nodes[..h] + nodes[h..];
    SlotConcat(nodes[..h], nodes[h..]);
  }

  /** No two groups read the same slot, and each reads one that was laid out. */
  lemma SlotsDisjoint(argp: Argp, g: nat, h: nat)
    requires g < |Links(argp, None, 0, 0)| && h < |Links(argp, None, 0, 0)| && g != h
    requires Links(argp, None, 0, 0)[g].parent.Some? && Links(argp, None, 0, 0)[h].parent.Some?
    ensures var nodes, links := Nodes(argp), Links(argp, None, 0, 0);
            && |links| == |nodes| && links[g].parent.value < g && links[h].parent.value < h
            && Slot(nodes, links[g]) != Slot(nodes, links[h])
            && Slot(nodes, links[g]) < SlotCount(nodes) <= SizesOf(argp, false).numChildInputs
  {
    var nodes, links := Nodes(argp), Links(argp, None, 0, 0);
    EveryLinkTied(argp);
    LinksApart(argp, None, 0, 0);
    var p, q := links[g].parent.value, links[h].parent.value;
    assert Tied(nodes, links[g], g) && Tied(nodes, links[h], h);
    SlotsFollow(nodes, p, |nodes|);
    assert nodes[..|nodes|] == nodes;
    if p < q {
      SlotsFollow(nodes, p, q);
    } else if q < p {
      SlotsFollow(nodes, q, p);
    }
    TreeSums(argp);
  }

  // ---------------------------------------------------------------- Short options

  predicate TakesAt(opts: seq<Opt>, k: nat, c: char)
    requires k < |opts|
  {
    IsShort(opts[k]) && Key(opts[k]) == c && !Real(opts[..k + 1]).doc
  }

  /** The parser of this argp is there for the short option c. */
  predicate TakesShort(argp: Argp, c: char) {
    exists k :: 0 <= k < |Own(argp)| && TakesAt(Own(argp), k, c)
  }

  predicate FirstShort(nodes: seq<Argp>, g: nat, c: char) {
    g < |nodes| && TakesShort(nodes[g], c) && forall h :: 0 <= h < g ==> !TakesShort(nodes[h], c)
  }

  // One of its first n options does.
  predicate TakesWithin(opts: seq<Opt>, n: nat, c: char)
    requires n <= |opts|
  {
    exists k :: 0 <= k < n && TakesAt(opts, k, c)
  }

  lemma {:induction false} OwnChars(opts: seq<Opt>, n: nat, c: char)
    requires c != ':' && n <= |opts|
    ensures c in OwnShort(opts[..n]) <==> TakesWithin(opts, n, c)
  {
    hide ShortOf, TakesAt, Real, OwnShort;
    if n == 0 {
      OwnNone([], 0);
      assert opts[..n] == [];
    } else {
      OwnChars(opts, n - 1, c);
      OwnCharsStep(opts, n - 1, c);
      assert TakesWithin(opts, n, c) <==> TakesWithin(opts, n - 1, c) || TakesAt(opts, n - 1, c);
    }
  }

  lemma OwnCharsStep(opts: seq<Opt>, k: nat, c: char)
    requires c != ':' && k < |opts|
    ensures c in OwnShort(opts[..k + 1]) <==> c in OwnShort(opts[..k]) || TakesAt(opts, k, c)
  {
    hide OwnShort, AddOwn, Real;
    OwnStep([], 0, opts, k);
  }

  // One of the first n takes it.
  predicate TakenWithin(nodes: seq<Argp>, n: nat, c: char)
    requires n <= |nodes|
  {
    exists j :: 0 <= j < n && TakesShort(nodes[j], c)
  }

  lemma {:induction false} TextChars(nodes: seq<Argp>, n: nat, c: char)
    requires c != ':' && n <= |nodes|
    ensures c in ShortText(nodes[..n]) <==> TakenWithin(nodes, n, c)
  {
    hide TakesShort, OwnShort;
    if n > 0 {
      TextChars(nodes, n - 1, c);
      TakesByText(nodes[n - 1], c);
      assert nodes[..n][..n - 1] == nodes[..n - 1];
      assert TakenWithin(nodes, n, c) <==> TakenWithin(nodes, n - 1, c) || TakesShort(nodes[n - 1], c);
    }
  }

  lemma TakesByText(argp: Argp, c: char)
    requires c != ':'
    ensures c in OwnShort(Own(argp)) <==> TakesShort(argp, c)
  {
    OwnChars(Own(argp), |Own(argp)|, c);
    assert Own(argp)[..|Own(argp)|] == Own(argp);
  }

  lemma {:induction false} OwnPrefix(opts: seq<Opt>, k: nat)
    requires k <= |opts|
    ensures OwnShort(opts[..k]) <= OwnShort(opts)
    decreases |opts| - k
  {
    if k == |opts| {
      assert opts[..k] == opts;
    } else {
      OwnStep([], 0, opts, k);
      OwnPrefix(opts, k + 1);
    }
  }

  // Where the text of option k of group g begins.
  function TextStart(nodes: seq<Argp>, g: nat, k: nat): nat
    requires g < |nodes| && k <= |Own(nodes[g])|
  {
    |ShortText(nodes[..g])| + |OwnShort(Own(nodes[g])[..k])|
  }

  /** In the text stand the key of each short option and behind it no colon, one or two, for no
      argument, one, or one that may be missing; the text of the next option follows. */
  lemma ColonsBehind(nodes: seq<Argp>, g: nat, k: nat)
    requires g < |nodes| && k < |Own(nodes[g])| && IsShort(Own(nodes[g])[k]) && !Real(Own(nodes[g])[..k + 1]).doc
    ensures var base := Real(Own(nodes[g])[..k + 1]);
            var from, to := TextStart(nodes, g, k), TextStart(nodes, g, k + 1);
            && from < to <= |ShortText(nodes)| && ShortText(nodes)[from] == Key(Own(nodes[g])[k])
            && (!base.arg ==> to == from + 1)
            && (base.arg && !base.argOptional ==> to == from + 2 && ShortText(nodes)[from + 1] == ':')
            && (base.arg && base.argOptional ==>
                  to == from + 3 && ShortText(nodes)[from + 1] == ShortText(nodes)[from + 2] == ':')
  {
    hide Real, ShortText, OwnShort;
    var own := Own(nodes[g]);
    GroupInText(nodes, g);
    OwnStep([], 0, own, k);
    OwnPrefix(own, k + 1);
    var piece := ShortOf(own[k], Real(own[..k + 1]));
    PieceChars(ShortText(nodes), ShortText(nodes[..g]), OwnShort(own), OwnShort(own[..k]), piece);
    PieceBehind(ShortText(nodes), TextStart(nodes, g, k), own[k], Real(own[..k + 1]));
  }

  lemma GroupInText(nodes: seq<Argp>, g: nat)
    requires g < |nodes|
    ensures ShortText(nodes[..g]) + OwnShort(Own(nodes[g])) <= ShortText(nodes)
  {
    hide ShortText, OwnShort, Own;
    TextBefore(nodes, g + 1);
    CutLast(nodes, g);
    NodeStep(nodes[..g], nodes[g]);
  }

  lemma TextBefore(nodes: seq<Argp>, n: nat)
    requires n <= |nodes|
    ensures ShortText(nodes[..n]) <= ShortText(nodes)
  {
    hide ShortText, OwnShort, Own;
    Cut(nodes, n);
    ShortConcat(nodes[..n], nodes[n..]);
  }

  lemma PieceBehind(text: string, from: nat, o: Opt, base: Opt)
    requires IsShort(o) && !base.doc && from + |ShortOf(o, base)| <= |text|
    requires forall j :: 0 <= j < |ShortOf(o, base)| ==> text[from + j] == ShortOf(o, base)[j]
    ensures text[from] == Key(o)
    ensures |ShortOf(o, base)| == if !base.arg then 1 else if !base.argOptional then 2 else 3
    ensures base.arg ==> text[from + 1] == ':' && (base.argOptional ==> text[from + 2] == ':')
  {
    assert text[from + 0] == ShortOf(o, base)[0];
    if base.arg {
      assert text[from + 1] == ShortOf(o, base)[1];
      if base.argOptional {
        assert text[from + 2] == ShortOf(o, base)[2];
      }
    }
  }

  // The characters of a piece in the middle of a text.
  lemma PieceChars(text: string, before: string, whole: string, a: string, b: string)
    requires before + whole <= text && a + b <= whole
    ensures |before| + |a| + |b| <= |text|
    ensures forall j :: 0 <= j < |b| ==> text[|before| + |a| + j] == b[j]
  {
    forall j | 0 <= j < |b|
      ensures text[|before| + |a| + j] == b[j]
    {
      assert text[|before| + |a| + j] == (before + whole)[|before| + |a| + j] == whole[|a| + j] == (a + b)[|a| + j];
    }
  }

  // strchr
  function IndexOf(text: string, c: char): (i: nat)
    ensures i <= |text| && c !in text[..i] && (i < |text| ==> text[i] == c)
  {
    if text == "" || text[0] == c then 0 else 1 + IndexOf(text[1..], c)
  }

  lemma IndexWithin(a: string, b: string, c: char)
    ensures IndexOf(a + b, c) < |a| <==> c in a
  {
    var i := IndexOf(a + b, c);
    if i < |a| {
      assert (a + b)[i] == a[i];
    } else {
      assert (a + b)[..i][..|a|] == a;
    }
  }

  function End(prefix: string, nodes: seq<Argp>, g: nat): nat
    requires g < |nodes|
  {
    |prefix| + |ShortText(nodes[..g + 1])|
  }

  /** The part of the text that ends with group g holds the first c. */
  predicate Holds(prefix: string, nodes: seq<Argp>, g: nat, c: char) {
    var i := IndexOf(prefix + ShortText(nodes), c);
    g < |nodes| && i < End(prefix, nodes, g) && forall h :: 0 <= h < g ==> End(prefix, nodes, h) <= i
  }

  // The text up to the end of a group, and what the first c in the text says about it.
  lemma EndBounds(prefix: string, nodes: seq<Argp>, g: nat, c: char)
    requires c != ':' && c !in prefix && g < |nodes|
    ensures IndexOf(prefix + ShortText(nodes), c) < End(prefix, nodes, g) <==> TakenWithin(nodes, g + 1, c)
  {
    hide IndexOf, ShortText, TakenWithin;
    var front := nodes[..g + 1];
    assert nodes == front + nodes[g + 1..];
    ShortConcat(front, nodes[g + 1..]);
    TextChars(nodes, g + 1, c);
    var held, behind := prefix + ShortText(front), ShortText(nodes)[|ShortText(front)|..];
    assert prefix + ShortText(nodes) == held + behind;
    IndexWithin(held, behind, c);
  }

  lemma FirstByCount(nodes: seq<Argp>, g: nat, c: char)
    requires g < |nodes|
    ensures FirstShort(nodes, g, c) <==> TakenWithin(nodes, g + 1, c) && forall n :: 1 <= n <= g ==> !TakenWithin(nodes, n, c)
  {
    hide TakesShort;
    if FirstShort(nodes, g, c) {
    } else if TakenWithin(nodes, g + 1, c) {
      var j :| 0 <= j < g + 1 && TakesShort(nodes[j], c);
      if j == g {
        var h :| 0 <= h < g && TakesShort(nodes[h], c);
        assert TakenWithin(nodes, h + 1, c);
      } else {
        assert TakenWithin(nodes, j + 1, c);
      }
    }
  }

  /** A short option goes to the first group in preorder that takes it; '+' and '-' as the prefix of
      the text go to the first group of all. */
  lemma ShortReaches(inOrder: bool, noArgs: bool, nodes: seq<Argp>, g: nat, c: char)
    requires c != ':'
    ensures var prefix := Prefix(inOrder, noArgs);
            if c in prefix then Holds(prefix, nodes, g, c) <==> g == 0 < |nodes|
            else Holds(prefix, nodes, g, c) <==> FirstShort(nodes, g, c)
  {
    hide TakesShort, ShortText;
    var prefix := Prefix(inOrder, noArgs);
    if c in prefix {
      assert (prefix + ShortText(nodes))[0] == c;
      if g < |nodes| {
        assert 0 < End(prefix, nodes, 0);
      }
    } else if g < |nodes| {
      FirstByCount(nodes, g, c);
      forall h | 0 <= h <= g
        ensures IndexOf(prefix + ShortText(nodes), c) < End(prefix, nodes, h) <==> TakenWithin(nodes, h + 1, c)
      {
        EndBounds(prefix, nodes, h, c);
      }
      forall n | 1 <= n <= g
        ensures IndexOf(prefix + ShortText(nodes), c) < End(prefix, nodes, n - 1) <==> TakenWithin(nodes, n, c)
      {
        EndBounds(prefix, nodes, n - 1, c);
      }
    }
  }

  /** Dispatch is by the first declaration unless the key is the prefix character and another group
      than the first declares it. */
  lemma ShortReachesFirst(inOrder: bool, noArgs: bool, nodes: seq<Argp>, c: char, g: nat, first: nat)
    requires c != ':' && FirstShort(nodes, first, c) && Holds(Prefix(inOrder, noArgs), nodes, g, c)
    ensures g == first <==> c !in Prefix(inOrder, noArgs) || TakesShort(nodes[0], c)
  {
    ShortReaches(inOrder, noArgs, nodes, g, c);
  }

  // An argp with a single option, a short one.
  function OneOption(id: nat, key: char): Argp {
    Argp(id, Some([Opt(None, key as int, false, false, false, false, false)]), true, None, [])
  }

  lemma TakesOneOption(id: nat, key: char, c: char)
    requires ' ' <= key <= '~'
    ensures TakesShort(OneOption(id, key), c) <==> key == c
  {
    var own := Own(OneOption(id, key));
    assert TakesAt(own, 0, key);
  }

  /** With ARGP_NO_ARGS, a `+` that only the second of two argps declares goes to the first. */
  lemma PlusGoesAstray()
    ensures var nodes := [OneOption(0, 'a'), OneOption(1, '+')];
            FirstShort(nodes, 1, '+') && Holds(Prefix(false, true), nodes, 0, '+')
  {
    TakesOneOption(0, 'a', '+');
    TakesOneOption(1, '+', '+');
    ShortReaches(false, true, [OneOption(0, 'a'), OneOption(1, '+')], 0, '+');
  }

  // ---------------------------------------------------------------- Long options

  predicate DeclaresAt(opts: seq<Opt>, k: nat, name: string)
    requires k < |opts|
  {
    opts[k].name == Some(name) && !Real(opts[..k + 1]).doc
  }

  /** Option k of group g is the first in preorder that declares the name. */
  predicate FirstLong(nodes: seq<Argp>, g: nat, k: nat, name: string) {
    && g < |nodes| && k < |Own(nodes[g])| && DeclaresAt(Own(nodes[g]), k, name)
    && (forall j :: 0 <= j < k ==> !DeclaresAt(Own(nodes[g]), j, name))
    && forall h :: 0 <= h < g ==> !DeclaresName(nodes[h], name)
  }

  predicate DeclaresName(argp: Argp, name: string) {
    exists k :: 0 <= k < |Own(argp)| && DeclaresAt(Own(argp), k, name)
  }

  // The entry that option k of group g makes, if it is the first of its name.
  function EntryOf(nodes: seq<Argp>, g: nat, k: nat): LongOption
    requires g < |nodes| && k < |Own(nodes[g])|
  {
    LongOf(g, Own(nodes[g])[k], Real(Own(nodes[g])[..k + 1]))
  }

  // The names of the first g groups and of k options of the next.
  predicate DeclaredBefore(nodes: seq<Argp>, g: nat, k: nat, name: string)
    requires g <= |nodes| && (g == |nodes| ==> k == 0) && (g < |nodes| ==> k <= |Own(nodes[g])|)
  {
    || (exists h :: 0 <= h < g && DeclaresName(nodes[h], name))
    || (exists j :: 0 <= j < k && DeclaresAt(Own(nodes[g]), j, name))
  }

  ghost predicate FromFirst(nodes: seq<Argp>, entry: LongOption) {
    entry.name.Some? && exists h, m :: FirstLong(nodes, h, m, entry.name.value) && entry == EntryOf(nodes, h, m)
  }

  /** A table of exactly the names declared so far, each in one entry, that of its first option. */
  ghost predicate Exact(nodes: seq<Argp>, g: nat, k: nat, table: seq<LongOption>)
    requires g <= |nodes| && (g == |nodes| ==> k == 0) && (g < |nodes| ==> k <= |Own(nodes[g])|)
  {
    && (forall name :: Named(table, name) <==> DeclaredBefore(nodes, g, k, name))
    && (forall i, j :: 0 <= i < j < |table| ==> table[i].name != table[j].name)
    && (forall i :: 0 <= i < |table| ==> FromFirst(nodes, table[i]))
  }

  lemma DeclaredStep(nodes: seq<Argp>, g: nat, k: nat, name: string)
    requires g < |nodes| && k < |Own(nodes[g])|
    ensures DeclaredBefore(nodes, g, k + 1, name) <==> DeclaredBefore(nodes, g, k, name) || DeclaresAt(Own(nodes[g]), k, name)
    ensures DeclaresAt(Own(nodes[g]), k, name) && !DeclaredBefore(nodes, g, k, name) ==> FirstLong(nodes, g, k, name)
  {
    hide DeclaresAt, DeclaresName;
  }

  lemma NamedStep(table: seq<LongOption>, entry: LongOption, name: string)
    ensures Named(table + [entry], name) <==> Named(table, name) || entry.name == Some(name)
  {
    if Named(table, name) {
      var i :| 0 <= i < |table| && table[i].name == Some(name);
      assert (table + [entry])[i] == table[i];
    }
    if entry.name == Some(name) {
      assert (table + [entry])[|table|] == entry;
    }
  }

  lemma ExactStep(nodes: seq<Argp>, g: nat, k: nat, table: seq<LongOption>)
    requires g < |nodes| && k < |Own(nodes[g])| && Exact(nodes, g, k, table)
    ensures Exact(nodes, g, k + 1, AddLong(table, g, Own(nodes[g])[k], Real(Own(nodes[g])[..k + 1])))
  {
    hide DeclaredBefore, FirstLong, Real, Named;
    var o, base := Own(nodes[g])[k], Real(Own(nodes[g])[..k + 1]);
    var more := AddLong(table, g, o, base);
    var entry := LongOf(g, o, base);
    forall name
      ensures Named(more, name) <==> DeclaredBefore(nodes, g, k + 1, name)
    {
      DeclaredStep(nodes, g, k, name);
      NamedStep(table, entry, name);
    }
    if more != table {
      DeclaredStep(nodes, g, k, o.name.value);
      assert entry == EntryOf(nodes, g, k);
      forall i | 0 <= i < |table|
        ensures table[i].name != o.name
      {
        NamedAt(table, i);
      }
    }
  }

  lemma NamedAt(table: seq<LongOption>, i: nat)
    requires i < |table| && table[i].name.Some?
    ensures Named(table, table[i].name.value)
  {
  }

  lemma {:induction false} ExactOwn(nodes: seq<Argp>, g: nat, k: nat, table: seq<LongOption>)
    requires g < |nodes| && k <= |Own(nodes[g])| && Exact(nodes, g, 0, table)
    ensures Exact(nodes, g, k, AddOwn(table, g, Own(nodes[g])[..k]))
  {
    hide Exact, Real, AddOwn, AddLong, OwnShort, ShortOf;
    if k > 0 {
      ExactOwn(nodes, g, k - 1, table);
      OwnStep(table, g, Own(nodes[g]), k - 1);
      ExactStep(nodes, g, k - 1, AddOwn(table, g, Own(nodes[g])[..k - 1]));
    } else {
      assert Own(nodes[g])[..k] == [];
      OwnNone(table, g);
    }
  }

  lemma NextGroup(nodes: seq<Argp>, g: nat, table: seq<LongOption>)
    requires g < |nodes| && Exact(nodes, g, |Own(nodes[g])|, table)
    ensures Exact(nodes, g + 1, 0, table)
  {
    hide FirstLong, EntryOf, DeclaresAt, Named;
    forall name
      ensures Named(table, name) <==> DeclaredBefore(nodes, g + 1, 0, name)
    {
    }
  }

  lemma {:induction false} TableExact(nodes: seq<Argp>, g: nat)
    requires g <= |nodes|
    ensures Exact(nodes, g, 0, LongTable(nodes[..g]))
  {
    if g > 0 {
      hide Exact;
      TableExact(nodes, g - 1);
      var own := Own(nodes[g - 1]);
      ExactOwn(nodes, g - 1, |own|, LongTable(nodes[..g - 1]));
      assert own[..|own|] == own && nodes[..g][..g - 1] == nodes[..g - 1];
      NextGroup(nodes, g - 1, LongTable(nodes[..g]));
    }
  }

  /** The user's value again: the low 24 bits with their sign. */
  function Signed24(key: int): int {
    var low := key % USER;
    if low < USER / 2 then low else low - USER
  }

  /** What is packed is unpacked, the group exactly when it is one of the first 127. */
  lemma Unpack(group: nat, key: int)
    ensures GroupKey(Pack(group, key)) - 1 == group <==> group <= 126
    ensures group <= 126 ==> UserKey(Pack(group, key)) == Signed24(key)
    ensures Signed24(key) == key <==> -USER / 2 <= key < USER / 2
  {
    var low := key % USER;
    if group <= 126 {
      WrapOf(low + (group + 1) * USER, 0);
      WrapOf(low * 0x100 + (group + 1) * WORD, group + 1 + if low < USER / 2 then 0 else 1);
    }
  }

  lemma WrapOf(x: int, turns: int)
    requires -WORD / 2 <= x - turns * WORD < WORD / 2
    ensures Wrap(x) == x - turns * WORD
  {
  }

  /** A long option reaches the first group in preorder that declares its name, with the key that
      the option has there, its sign included; an alias without a key has that of its option. */
  lemma LongReachesFirst(nodes: seq<Argp>, name: string, g: nat, k: nat, i: nat)
    requires |nodes| <= 127 && FirstLong(nodes, g, k, name)
    requires i < |LongTable(nodes)| && LongTable(nodes)[i].name == Some(name)
    ensures var own, val := Own(nodes[g]), LongTable(nodes)[i].val;
            && GroupKey(val) - 1 == g
            && UserKey(val) == Signed24(if own[k].key != 0 then own[k].key else Real(own[..k + 1]).key)
  {
    TableExact(nodes, |nodes|);
    assert nodes[..|nodes|] == nodes && FromFirst(nodes, LongTable(nodes)[i]);
    var h, m :| FirstLong(nodes, h, m, name) && LongTable(nodes)[i] == EntryOf(nodes, h, m);
    FirstIsUnique(nodes, g, k, h, m, name);
    var own := Own(nodes[g]);
    Unpack(g, if own[k].key != 0 then own[k].key else Real(own[..k + 1]).key);
  }

  /** The entry of a name tells getopt about the argument of the option, or of the one that it is an
      alias of: none, one, or one that may be missing. */
  lemma LongHasArg(nodes: seq<Argp>, name: string, g: nat, k: nat, i: nat)
    requires FirstLong(nodes, g, k, name)
    requires i < |LongTable(nodes)| && LongTable(nodes)[i].name == Some(name)
    ensures var base, hasArg := Real(Own(nodes[g])[..k + 1]), LongTable(nodes)[i].hasArg;
            && (hasArg == NoArgument <==> !base.arg)
            && (hasArg == RequiredArgument <==> base.arg && !base.argOptional)
            && (hasArg == OptionalArgument <==> base.arg && base.argOptional)
  {
    TableExact(nodes, |nodes|);
    assert nodes[..|nodes|] == nodes && FromFirst(nodes, LongTable(nodes)[i]);
    var h, m :| FirstLong(nodes, h, m, name) && LongTable(nodes)[i] == EntryOf(nodes, h, m);
    FirstIsUnique(nodes, g, k, h, m, name);
  }

  lemma FirstIsUnique(nodes: seq<Argp>, g: nat, k: nat, h: nat, m: nat, name: string)
    requires FirstLong(nodes, g, k, name) && FirstLong(nodes, h, m, name)
    ensures g == h && k == m
  {
    assert DeclaresName(nodes[g], name) && DeclaresName(nodes[h], name);
  }

  // ---------------------------------------------------------------- The search for the group

  /** What getopt returns from these tables: a character, or the value of a long option. */
  predicate FromTables(nodes: seq<Argp>, opt: int) {
    0 < opt < 128 || 1 <= GroupKey(opt) <= |nodes|
  }

  /** The group and the key for an option: by the text for a character, else unpacked. */
  predicate Dispatched(prefix: string, nodes: seq<Argp>, opt: int, g: Option<nat>, key: int) {
    if GroupKey(opt) == 0 then
      && key == opt && 0 < opt < 128
      && match g {
        case Some(group) => Holds(prefix, nodes, group, opt as char)
        case None => opt as char in prefix + ShortText(nodes) ==> nodes == []
      }
    else g == Some(GroupKey(opt) - 1) && key == UserKey(opt)
  }

  method GroupFor(parser: Parser, egroup: nat, opt: int,
                  ghost prefix: string, ghost nodes: seq<Argp>, ghost links: seq<Link>) returns (g: Option<nat>, key: int)
    requires parser.Filled(prefix, nodes, links) && egroup == |nodes| && FromTables(nodes, opt) && '\0' !in prefix
    ensures Dispatched(prefix, nodes, opt, g, key) && (g.Some? ==> g.value < |nodes|)
  {
    hide ShortText, LongTable, SlotCount;
    var groupKey := GroupKey(opt);
    if groupKey != 0 {
      return Some(groupKey - 1), UserKey(opt);
    }
    key := opt;
    var c := opt as char;
    ghost var text := prefix + ShortText(nodes);
    var at: nat := 0;
    assert parser.shortOpts[..|text|] == text;
    while parser.shortOpts[at] != '\0' && parser.shortOpts[at] != c
      invariant at <= |text| && c !in text[..at]
      decreases |text| - at
    {
      at := at + 1;
    }
    NoNul(nodes);
    if parser.shortOpts[at] == '\0' {
      return None, key;
    }
    FoundAt(text, at, c);
    var group := 0;
    while group < egroup
      invariant group <= egroup && forall h :: 0 <= h < group ==> End(prefix, nodes, h) <= at
    {
      assert parser.groups[group] == Record(prefix, nodes, links[group], group);
      if parser.groups[group].shortEnd > at {
        return Some(group), key;
      }
      group := group + 1;
    }
    assert nodes != [] ==> nodes[..|nodes| - 1 + 1] == nodes && End(prefix, nodes, |nodes| - 1) == |text|;
    g := None;
  }

  lemma NoNul(nodes: seq<Argp>)
    ensures '\0' !in ShortText(nodes)
  {
    TextChars(nodes, |nodes|, '\0');
    assert nodes[..|nodes|] == nodes;
  }

  lemma FoundAt(text: string, at: nat, c: char)
    requires at < |text| && text[at] == c && c !in text[..at]
    ensures IndexOf(text, c) == at
  {
  }

  // ---------------------------------------------------------------- Dispatch against help

  // The argp of the first entry that has an option with this key.
  function FirstCell(cells: seq<ArgpHelp.Cell>, c: char): Option<Argp>
    decreases |cells|
  {
    if cells == [] then None
    else
      var before := FirstCell(cells[..|cells| - 1], c);
      if before.Some? then before
      else if ArgpHelp.Declares(cells[|cells| - 1].opts, c) then Some(cells[|cells| - 1].argp)
      else None
  }

  // The first of these argps with an option of this key, aliases of documentation included.
  function FirstNode(nodes: seq<Argp>, c: char): Option<Argp>
    decreases |nodes|
  {
    if nodes == [] then None
    else
      var before := FirstNode(nodes[..|nodes| - 1], c);
      if before.Some? then before
      else if ArgpHelp.Declares(Own(nodes[|nodes| - 1]), c) then Some(nodes[|nodes| - 1])
      else None
  }

  function OrElse(a: Option<Argp>, b: Option<Argp>): Option<Argp> {
    if a.Some? then a else b
  }

  lemma {:induction false} FirstCellConcat(a: seq<ArgpHelp.Cell>, b: seq<ArgpHelp.Cell>, c: char)
    ensures FirstCell(a + b, c) == OrElse(FirstCell(a, c), FirstCell(b, c))
    decreases |b|
  {
    if b == [] {
      assert a + b == a;
    } else {
      assert (a + b)[..|a + b| - 1] == a + b[..|b| - 1];
      FirstCellConcat(a, b[..|b| - 1], c);
    }
  }

  lemma FirstCellSnoc(cells: seq<ArgpHelp.Cell>, cell: ArgpHelp.Cell, c: char)
    ensures FirstCell(cells + [cell], c)
            == OrElse(FirstCell(cells, c), if ArgpHelp.Declares(cell.opts, c) then Some(cell.argp) else None)
  {
    assert (cells + [cell])[..|cells|] == cells;
  }

  lemma {:induction false} FirstNodeConcat(a: seq<Argp>, b: seq<Argp>, c: char)
    ensures FirstNode(a + b, c) == OrElse(FirstNode(a, c), FirstNode(b, c))
    decreases |b|
  {
    if b == [] {
      assert a + b == a;
    } else {
      assert (a + b)[..|a + b| - 1] == a + b[..|b| - 1];
      FirstNodeConcat(a, b[..|b| - 1], c);
    }
  }

  lemma DeclaresSnoc(opts: seq<Opt>, o: Opt, c: char)
    ensures ArgpHelp.Declares(opts + [o], c) <==> ArgpHelp.Declares(opts, c) || (IsShort(o) && Key(o) == c)
  {
    ArgpHelp.DeclaresConcat(opts, [o]);
    if IsShort(o) && Key(o) == c {
      assert [o][0] == o;
    }
  }

  lemma {:induction false} FirstOfSplit(argp: Argp, opts: seq<Opt>, c: char)
    ensures FirstCell(ArgpHelp.Split(argp, opts), c) == if ArgpHelp.Declares(opts, c) then Some(argp) else None
    decreases |opts|
  {
    if opts == [] {
      assert !ArgpHelp.Declares(opts, c);
    } else {
      hide ArgpHelp.Declares, ArgpHelp.Split, FirstCell;
      var front, o := opts[..|opts| - 1], opts[|opts| - 1];
      FirstOfSplit(argp, front, c);
      assert opts == front + [o];
      DeclaresSnoc(front, o, c);
      ArgpHelp.SplitSnoc(argp, front, o);
      FirstOfEntry(argp, ArgpHelp.Split(argp, front), o, c);
    }
  }

  // The last entry takes up an alias, or the option starts an entry of its own.
  lemma FirstOfEntry(argp: Argp, cells: seq<ArgpHelp.Cell>, o: Opt, c: char)
    ensures cells != [] ==>
              var last := cells[|cells| - 1];
              FirstCell(cells[..|cells| - 1] + [ArgpHelp.Cell(last.opts + [o], argp)], c)
              == OrElse(FirstCell(cells[..|cells| - 1], c),
                        if ArgpHelp.Declares(last.opts, c) || (IsShort(o) && Key(o) == c) then Some(argp) else None)
    ensures cells != [] ==>
              var last := cells[|cells| - 1];
              FirstCell(cells, c)
              == OrElse(FirstCell(cells[..|cells| - 1], c), if ArgpHelp.Declares(last.opts, c) then Some(last.argp) else None)
    ensures FirstCell(cells + [ArgpHelp.Cell([o], argp)], c)
            == OrElse(FirstCell(cells, c), if IsShort(o) && Key(o) == c then Some(argp) else None)
  {
    NothingDeclared(c);
    hide ArgpHelp.Declares, FirstCell;
    if cells != [] {
      var front, last := cells[..|cells| - 1], cells[|cells| - 1];
      DeclaresSnoc(last.opts, o, c);
      FirstCellSnoc(front, ArgpHelp.Cell(last.opts + [o], argp), c);
      FirstCellSnoc(front, last, c);
      assert cells == front + [last];
    }
    DeclaresSnoc([], o, c);
    assert [] + [o] == [o];
    FirstCellSnoc(cells, ArgpHelp.Cell([o], argp), c);
  }

  lemma {:induction false} FirstOfTree(argp: Argp, c: char)
    ensures FirstCell(ArgpHelp.TreeCells(argp), c) == FirstNode(Nodes(argp), c)
    decreases argp, 1
  {
    hide ArgpHelp.Declares;
    FirstOfSplit(argp, Own(argp), c);
    FirstOfChildren(argp.children, c);
    FirstCellConcat(ArgpHelp.Split(argp, Own(argp)), ArgpHelp.ChildCells(argp.children), c);
    if IsGroup(argp) {
      FirstNodeConcat([argp], NodesAll(argp.children), c);
      assert [argp][..0] == [];
      assert FirstNode([argp], c) == if ArgpHelp.Declares(Own(argp), c) then Some(argp) else None;
    } else {
      NothingDeclared(c);
      assert Nodes(argp) == NodesAll(argp.children);
    }
  }

  lemma NothingDeclared(c: char)
    ensures !ArgpHelp.Declares([], c)
  {
  }

  lemma {:induction false} FirstOfChildren(children: seq<Argp>, c: char)
    ensures FirstCell(ArgpHelp.ChildCells(children), c) == FirstNode(NodesAll(children), c)
    decreases children, 0
  {
    if children != [] {
      FirstOfTree(children[0], c);
      FirstOfChildren(children[1..], c);
      FirstCellConcat(ArgpHelp.TreeCells(children[0]), ArgpHelp.ChildCells(children[1..]), c);
      FirstNodeConcat(Nodes(children[0]), NodesAll(children[1..]), c);
    }
  }

  // The entry that shows a key is the first that declares it.
  lemma {:induction false} FirstCellAt(cells: seq<ArgpHelp.Cell>, i: nat, c: char)
    requires i < |cells| && ArgpHelp.Declares(cells[i].opts, c) && !ArgpHelp.Declares(ArgpHelp.Flat(cells[..i]), c)
    ensures FirstCell(cells, c) == Some(cells[i].argp)
  {
    hide ArgpHelp.Declares;
    assert cells == cells[..i] + [cells[i]] + cells[i + 1..];
    FirstCellConcat(cells[..i] + [cells[i]], cells[i + 1..], c);
    FirstCellSnoc(cells[..i], cells[i], c);
    NoneDeclares(cells[..i], c);
  }

  lemma {:induction false} NoneDeclares(cells: seq<ArgpHelp.Cell>, c: char)
    requires !ArgpHelp.Declares(ArgpHelp.Flat(cells), c)
    ensures FirstCell(cells, c) == None
    decreases |cells|
  {
    if cells != [] {
      hide ArgpHelp.Declares;
      var n := |cells| - 1;
      ArgpHelp.DeclaresConcat(ArgpHelp.Flat(cells[..n]), cells[n].opts);
      NoneDeclares(cells[..n], c);
    }
  }

  lemma TakenIsDeclared(argp: Argp, c: char)
    requires TakesShort(argp, c)
    ensures ArgpHelp.Declares(Own(argp), c)
  {
    var k :| 0 <= k < |Own(argp)| && TakesAt(Own(argp), k, c);
  }

  lemma {:induction false} FirstNodeAt(nodes: seq<Argp>, c: char) returns (g: nat)
    requires FirstNode(nodes, c).Some?
    ensures g < |nodes| && nodes[g] == FirstNode(nodes, c).value && ArgpHelp.Declares(Own(nodes[g]), c)
    ensures forall h :: 0 <= h < g ==> !ArgpHelp.Declares(Own(nodes[h]), c)
    decreases |nodes|
  {
    hide ArgpHelp.Declares;
    var init := nodes[..|nodes| - 1];
    if FirstNode(init, c).Some? {
      g := FirstNodeAt(init, c);
    } else {
      g := |nodes| - 1;
      forall h | 0 <= h < g
        ensures !ArgpHelp.Declares(Own(nodes[h]), c)
      {
        NoFirst(init, c, h);
      }
    }
  }

  lemma {:induction false} NoFirst(nodes: seq<Argp>, c: char, h: nat)
    requires h < |nodes| && FirstNode(nodes, c).None?
    ensures !ArgpHelp.Declares(Own(nodes[h]), c)
    decreases |nodes|
  {
    if h < |nodes| - 1 {
      NoFirst(nodes[..|nodes| - 1], c, h);
    }
  }

  /** A short option reaches the argp under whose entry the help output shows it, exactly when that
      argp has it as more than an alias of documentation. */
  lemma HelpAgrees(argp: Argp, entries: seq<ArgpHelp.Entry>, i: nat, c: char, g: nat)
    requires ArgpHelp.Cells(entries) == ArgpHelp.TreeCells(argp) && ArgpHelp.Pointed(entries) && i < |entries|
    requires c in ArgpHelp.Walk(ArgpHelp.Fresh("", Preorder(argp)), entries[i].so, entries[i].cell.opts)
    requires FirstShort(Nodes(argp), g, c)
    ensures Nodes(argp)[g] == entries[i].cell.argp <==> TakesShort(entries[i].cell.argp, c)
  {
    hide ArgpHelp.Declares, ArgpHelp.Walk, ArgpHelp.Pointed, ArgpHelp.Fresh, TakesShort;
    var cells := ArgpHelp.TreeCells(argp);
    ArgpHelp.TreeFlat(argp);
    ArgpHelp.EntryKeys(entries, i);
    assert cells[i] == entries[i].cell;
    FirstCellAt(cells, i, c);
    FirstOfTree(argp, c);
    var first := FirstNodeAt(Nodes(argp), c);
    TakenIsDeclared(Nodes(argp)[g], c);
  }

  // A parent with an alias of documentation, and a child with an option of the same key.
  function AliasedDoc(): Argp {
    var doc := Opt(Some("text"), 0, false, false, true, false, false);
    var alias := Opt(None, 'a' as int, false, true, false, false, false);
    Argp(0, Some([doc, alias]), true, None, [OneOption(1, 'a')])
  }

  lemma AliasNotTaken()
    ensures Nodes(AliasedDoc()) == [AliasedDoc(), OneOption(1, 'a')] && FirstShort(Nodes(AliasedDoc()), 1, 'a')
  {
    var argp, child := AliasedDoc(), OneOption(1, 'a');
    var own := Own(argp);
    assert Nodes(child) == [child] + NodesAll([]) == [child];
    assert NodesAll([child]) == Nodes(child) + NodesAll([]) == [child];
    assert Nodes(argp) == [argp] + [child] == [argp, child];
    TakesOneOption(1, 'a', 'a');
    assert Real(own[..2]) == Real(own[..2][..1]) == own[0];
    assert !TakesAt(own, 0, 'a') && !TakesAt(own, 1, 'a');
  }

  // An option and its alias share an entry.
  lemma EntryOfTwo(argp: Argp, o: Opt, alias: Opt)
    requires !o.alias && alias.alias
    ensures ArgpHelp.Split(argp, [o, alias]) == [ArgpHelp.Cell([o, alias], argp)]
  {
    ArgpHelp.SplitNone(argp);
    ArgpHelp.SplitSnoc(argp, [], o);
    assert [] + [o] == [o] && [] + [ArgpHelp.Cell([o], argp)] == [ArgpHelp.Cell([o], argp)];
    ArgpHelp.SplitSnoc(argp, [o], alias);
    assert [o] + [alias] == [o, alias];
    assert ArgpHelp.Split(argp, [o]) == [] + [ArgpHelp.Cell([o], argp)];
  }

  lemma AliasEntry()
    ensures var cells := ArgpHelp.TreeCells(AliasedDoc());
            cells != [] && cells[0] == ArgpHelp.Cell(Own(AliasedDoc()), AliasedDoc())
  {
    hide ArgpHelp.Split, ArgpHelp.ChildCells;
    var own := Own(AliasedDoc());
    EntryOfTwo(AliasedDoc(), own[0], own[1]);
    assert own == [own[0], own[1]];
  }

  /** Help shows the key under the parent, and the option reaches the child. */
  lemma AliasGoesAstray(entries: seq<ArgpHelp.Entry>)
    requires ArgpHelp.Cells(entries) == ArgpHelp.TreeCells(AliasedDoc()) && ArgpHelp.Pointed(entries)
    ensures |entries| > 0 && entries[0].cell.argp == AliasedDoc()
    ensures 'a' in ArgpHelp.Walk(ArgpHelp.Fresh("", Preorder(AliasedDoc())), entries[0].so, entries[0].cell.opts)
    ensures FirstShort(Nodes(AliasedDoc()), 1, 'a') && Nodes(AliasedDoc())[1] == OneOption(1, 'a')
  {
    AliasNotTaken();
    AliasEntry();
    var own := Own(AliasedDoc());
    assert IsShort(own[1]) && Key(own[1]) == 'a';
    assert ArgpHelp.Declares(own, 'a');
    assert ArgpHelp.Cells(entries)[..0] == [] && entries[0].cell == ArgpHelp.Cells(entries)[0];
    NothingDeclared('a');
    ArgpHelp.FlatNone();
    hide ArgpHelp.TreeCells, ArgpHelp.Pointed, ArgpHelp.Walk, ArgpHelp.Fresh, ArgpHelp.Flat, ArgpHelp.Declares, AliasedDoc, Preorder;
    ArgpHelp.TreeFlat(AliasedDoc());
    ArgpHelp.EntryKeys(entries, 0);
  }
}
