/** The option lists of lib/argp-help.c: one merged string of short options, cut into slices by
    the entries' pointers into it. */
module ArgpHelp {
  import opened Common
  import opened Argp

  // ---------------------------------------------------------------- First occurrences

  /** The short keys of opts that are not in prev, in the order of their first occurrence. */
  function Fresh(prev: string, opts: seq<Opt>): string
    decreases |opts|
  {
    if opts == [] then ""
    else
      var o := opts[|opts| - 1];
      var f := Fresh(prev, opts[..|opts| - 1]);
      if IsShort(o) && Key(o) !in prev && Key(o) !in f then f + [Key(o)] else f
  }

  predicate Declares(opts: seq<Opt>, c: char) {
    exists i :: 0 <= i < |opts| && IsShort(opts[i]) && Key(opts[i]) == c
  }

  lemma FreshSnoc(prev: string, opts: seq<Opt>, o: Opt)
    ensures var f := Fresh(prev, opts);
            Fresh(prev, opts + [o])
            == if IsShort(o) && Key(o) !in prev && Key(o) !in f then f + [Key(o)] else f
  {
    assert (opts + [o])[..|opts|] == opts;
  }

  /** Exactly the keys that opts declares and prev does not have, each once. */
  lemma {:induction false} FreshMembers(prev: string, opts: seq<Opt>)
    ensures forall c :: c in Fresh(prev, opts) <==> Declares(opts, c) && c !in prev
    ensures forall i, j :: 0 <= i < j < |Fresh(prev, opts)| ==> Fresh(prev, opts)[i] != Fresh(prev, opts)[j]
    decreases |opts|
  {
    if opts != [] {
      var init, o := opts[..|opts| - 1], opts[|opts| - 1];
      FreshMembers(prev, init);
      forall c ensures Declares(opts, c) <==> Declares(init, c) || (IsShort(o) && Key(o) == c) {
        if Declares(init, c) {
          var i :| 0 <= i < |init| && IsShort(init[i]) && Key(init[i]) == c;
          assert opts[i] == init[i];
        }
        if Declares(opts, c) {
          var i :| 0 <= i < |opts| && IsShort(opts[i]) && Key(opts[i]) == c;
          assert i < |init| ==> init[i] == opts[i];
        }
      }
    }
  }

  lemma {:induction false} FreshConcat(prev: string, a: seq<Opt>, b: seq<Opt>)
    ensures Fresh(prev, a + b) == Fresh(prev, a) + Fresh(prev + Fresh(prev, a), b)
    decreases |b|
  {
    if b == [] {
      assert a + b == a;
    } else {
      var init, o := b[..|b| - 1], b[|b| - 1];
      assert (a + b)[..|a + b| - 1] == a + init;
      FreshConcat(prev, a, init);
    }
  }

  lemma FreshShorter(prev: string, opts: seq<Opt>)
    ensures |Fresh(prev, opts)| <= |Fresh("", opts)|
    decreases |opts|
  {
    if opts != [] {
      FreshShorter(prev, opts[..|opts| - 1]);
      FreshMembers(prev, opts[..|opts| - 1]);
      FreshMembers("", opts[..|opts| - 1]);
    }
  }

  /** The character where opts stops in the whole string is the key of the next option, exactly when
      that option is short and its key is new. */
  lemma NextIsFresh(whole: seq<Opt>, opts: seq<Opt>, o: Opt, rest: seq<Opt>)
    requires whole == opts + [o] + rest
    ensures var text, at := Fresh("", whole), |Fresh("", opts)|;
            && at <= |text| && text[..at] == Fresh("", opts)
            && (IsShort(o) ==> ((at < |text| && text[at] == Key(o)) <==> Key(o) !in Fresh("", opts)))
  {
    FreshConcat("", opts + [o], rest);
    FreshSnoc("", opts, o);
    FreshMembers("", whole);
  }

  /** The order is that of first occurrence: the i-th key is declared first by an option that has
      exactly the i keys before it declared in front of it. */
  lemma {:induction false} FreshOrder(prev: string, opts: seq<Opt>, i: nat) returns (k: nat)
    requires i < |Fresh(prev, opts)|
    ensures k < |opts| && IsShort(opts[k]) && Key(opts[k]) == Fresh(prev, opts)[i]
    ensures !Declares(opts[..k], Fresh(prev, opts)[i]) && Fresh(prev, opts[..k]) == Fresh(prev, opts)[..i]
    decreases |opts|
  {
    var init := opts[..|opts| - 1];
    if i < |Fresh(prev, init)| {
      k := FreshOrder(prev, init, i);
      assert init[..k] == opts[..k];
    } else {
      k := |opts| - 1;
      FreshMembers(prev, init);
    }
  }

  // ---------------------------------------------------------------- Entries

  /** The options that share a help entry, an option with its aliases, and their argp. */
  datatype Cell = Cell(opts: seq<Opt>, argp: Argp)

  /** struct hol_entry; `so` is the pointer into the string of short options. */
  datatype Entry = Entry(cell: Cell, so: nat)

  function Flat(cells: seq<Cell>): seq<Opt> {
    if cells == [] then [] else Flat(cells[..|cells| - 1]) + cells[|cells| - 1].opts
  }

  lemma FlatSnoc(cells: seq<Cell>, cell: Cell)
    ensures Flat(cells + [cell]) == Flat(cells) + cell.opts
  {
    assert (cells + [cell])[..|cells|] == cells;
  }

  lemma {:induction false} FlatConcat(a: seq<Cell>, b: seq<Cell>)
    ensures Flat(a + b) == Flat(a) + Flat(b)
    decreases |b|
  {
    if b == [] {
      assert a + b == a;
    } else {
      assert (a + b)[..|a + b| - 1] == a + b[..|b| - 1];
      FlatConcat(a, b[..|b| - 1]);
    }
  }

  function Cells(entries: seq<Entry>): seq<Cell> {
    seq(|entries|, i requires 0 <= i < |entries| => entries[i].cell)
  }

  // Each pointer is where the keys declared in front of the entry end.
  predicate Pointed(entries: seq<Entry>) {
    forall i :: 0 <= i < |entries| ==> entries[i].so == |Fresh("", Flat(Cells(entries)[..i]))|
  }

  /** The keys that hol_entry_short_iterate recognises: it follows the string along the options. */
  function Walk(text: string, so: nat, opts: seq<Opt>): string
    decreases |opts|
  {
    if opts == [] then ""
    else if IsShort(opts[0]) && so < |text| && text[so] == Key(opts[0]) then
      [Key(opts[0])] + Walk(text, so + 1, opts[1..])
    else Walk(text, so, opts[1..])
  }

  lemma {:induction false} WalkIsFresh(before: seq<Opt>, opts: seq<Opt>, rest: seq<Opt>)
    ensures Walk(Fresh("", before + opts + rest), |Fresh("", before)|, opts) == Fresh(Fresh("", before), opts)
    decreases |opts|
  {
    if opts != [] {
      var o, tail := opts[0], opts[1..];
      var whole := before + opts + rest;
      assert whole == before + [o] + (tail + rest);
      assert whole == (before + [o]) + tail + rest;
      NextIsFresh(whole, before, o, tail + rest);
      FreshSnoc("", before, o);
      WalkIsFresh(before + [o], tail, rest);
      assert opts == [o] + tail;
      FreshConcat(Fresh("", before), [o], tail);
      FreshSnoc(Fresh("", before), [], o);
      assert [] + [o] == [o];
      assert Fresh("", before) + "" == Fresh("", before);
    }
  }

  /** Each entry's pointer recovers exactly the keys that the entry declares and no option in front
      of it declares, in the order in which it declares them. */
  lemma EntryKeys(entries: seq<Entry>, i: nat)
    requires Pointed(entries) && i < |entries|
    ensures var before := Flat(Cells(entries)[..i]);
            var keys := Walk(Fresh("", Flat(Cells(entries))), entries[i].so, entries[i].cell.opts);
            && keys == Fresh(Fresh("", before), entries[i].cell.opts)
            && (forall c :: c in keys <==> Declares(entries[i].cell.opts, c) && !Declares(before, c))
  {
    var cells := Cells(entries);
    var before, opts := Flat(cells[..i]), cells[i].opts;
    assert cells == cells[..i] + [cells[i]] + cells[i + 1..];
    FlatConcat(cells[..i] + [cells[i]], cells[i + 1..]);
    FlatSnoc(cells[..i], cells[i]);
    WalkIsFresh(before, opts, Flat(cells[i + 1..]));
    FreshMembers("", before);
    FreshMembers(Fresh("", before), opts);
  }

  // ---------------------------------------------------------------- The option list

  function CountReal(opts: seq<Opt>): nat {
    if opts == [] then 0 else CountReal(opts[..|opts| - 1]) + if opts[|opts| - 1].alias then 0 else 1
  }

  function CountShort(opts: seq<Opt>): (n: nat)
    ensures n <= |opts|
  {
    if opts == [] then 0 else CountShort(opts[..|opts| - 1]) + if IsShort(opts[|opts| - 1]) then 1 else 0
  }

  lemma {:induction false} CountMonotone(a: seq<Opt>, b: seq<Opt>)
    ensures CountReal(a) <= CountReal(a + b) && CountShort(a) <= CountShort(a + b)
    decreases |b|
  {
    if b == [] {
      assert a + b == a;
    } else {
      assert (a + b)[..|a + b| - 1] == a + b[..|b| - 1];
      CountMonotone(a, b[..|b| - 1]);
    }
  }

  lemma FreshAtMostShort(opts: seq<Opt>)
    ensures |Fresh("", opts)| <= CountShort(opts)
  {
  }

  /** struct hol.  Without entries the arrays are undefined. */
  class Hol {
    var entries: array?<Entry>
    var numEntries: nat
    var shortOptions: array?<char>

    ghost predicate Valid()
      reads this, entries, shortOptions
    {
      numEntries > 0 ==>
        && entries != null && entries.Length == numEntries && Pointed(entries[..])
        && shortOptions != null && Terminated(shortOptions[..], Fresh("", Flat(Cells(entries[..]))))
    }

    ghost function Content(): seq<Cell>
      reads this, entries
      requires numEntries > 0 ==> entries != null
    {
      if numEntries == 0 then [] else Cells(entries[..])
    }

    constructor ()
      ensures numEntries == 0
    {
      entries, numEntries, shortOptions := null, 0, null;
    }
  }

  // A NUL-terminated buffer that holds text.
  predicate Terminated(buffer: seq<char>, text: string) {
    |text| < |buffer| && buffer[..|text|] == text && buffer[|text|] == '\0'
  }

  lemma FreshHasNoNul(opts: seq<Opt>)
    ensures '\0' !in Fresh("", opts)
  {
    FreshMembers("", opts);
  }

  method StrLen(buffer: array<char>, ghost text: string) returns (n: nat)
    requires Terminated(buffer[..], text) && forall i :: 0 <= i < |text| ==> buffer[i] == text[i] != '\0'
    ensures n == |text|
  {
    n := 0;
    while buffer[n] != '\0'
      invariant n <= |text|
      decreases |text| - n
    {
      n := n + 1;
    }
  }

  /** find_char: whether ch is among the first end characters. */
  method FindChar(ch: char, buffer: array<char>, end: nat) returns (found: bool)
    requires end <= buffer.Length
    ensures found <==> ch in buffer[..end]
  {
    var beg := 0;
    while beg < end
      invariant beg <= end && ch !in buffer[..beg]
    {
      if buffer[beg] == ch {
        return true;
      }
      beg := beg + 1;
    }
    return false;
  }

  // The options split into each real option with the aliases behind it.
  function Split(argp: Argp, opts: seq<Opt>): seq<Cell> {
    if opts == [] then []
    else
      var init := Split(argp, opts[..|opts| - 1]);
      var o := opts[|opts| - 1];
      if o.alias && init != [] then
        init[..|init| - 1] + [Cell(init[|init| - 1].opts + [o], argp)]
      else init + [Cell([o], argp)]
  }

  lemma FlatExtend(front: seq<Cell>, last: Cell, o: Opt)
    ensures Flat(front + [Cell(last.opts + [o], last.argp)]) == Flat(front + [last]) + [o]
  {
    FlatSnoc(front, Cell(last.opts + [o], last.argp));
    FlatSnoc(front, last);
  }

  lemma {:induction false} SplitFlat(argp: Argp, opts: seq<Opt>)
    ensures Flat(Split(argp, opts)) == opts
    ensures forall i :: 0 <= i < |Split(argp, opts)| ==> Split(argp, opts)[i].argp == argp
    decreases |opts|
  {
    hide Flat, Split;
    FlatNone();
    SplitNone(argp);
    if opts != [] {
      var init, o := opts[..|opts| - 1], opts[|opts| - 1];
      var cells := Split(argp, init);
      assert opts == init + [o];
      SplitFlat(argp, init);
      SplitSnoc(argp, init, o);
      if o.alias && cells != [] {
        var front, last := cells[..|cells| - 1], cells[|cells| - 1];
        assert cells == front + [Cell(last.opts, argp)];
        FlatExtend(front, last, o);
      } else {
        FlatSnoc(cells, Cell([o], argp));
      }
    }
  }

  lemma FlatNone()
    ensures Flat([]) == []
  {
  }

  lemma SplitSnoc(argp: Argp, opts: seq<Opt>, o: Opt)
    ensures !o.alias || Split(argp, opts) == [] ==> Split(argp, opts + [o]) == Split(argp, opts) + [Cell([o], argp)]
    ensures o.alias ==> forall front: seq<Cell>, last: seq<Opt> ::
              Split(argp, opts) == front + [Cell(last, argp)] ==>
              Split(argp, opts + [o]) == front + [Cell(last + [o], argp)]
  {
    assert (opts + [o])[..|opts|] == opts;
    if o.alias {
      forall front: seq<Cell>, last: seq<Opt> | Split(argp, opts) == front + [Cell(last, argp)]
        ensures Split(argp, opts + [o]) == front + [Cell(last + [o], argp)]
      {
        assert (front + [Cell(last, argp)])[..|front|] == front;
      }
    }
  }

  lemma CountSnoc(opts: seq<Opt>, o: Opt)
    ensures CountReal(opts + [o]) == CountReal(opts) + if o.alias then 0 else 1
    ensures CountShort(opts + [o]) == CountShort(opts) + if IsShort(o) then 1 else 0
  {
    assert (opts + [o])[..|opts|] == opts;
  }

  lemma CellsSnoc(entries: seq<Entry>, entry: Entry)
    ensures Cells(entries + [entry]) == Cells(entries) + [entry.cell]
  {
  }

  lemma PointedSnoc(entries: seq<Entry>, entry: Entry)
    requires Pointed(entries) && entry.so == |Fresh("", Flat(Cells(entries)))|
    ensures Pointed(entries + [entry])
  {
    CellsSnoc(entries, entry);
    var more := entries + [entry];
    forall i | 0 <= i < |more| ensures more[i].so == |Fresh("", Flat(Cells(more)[..i]))| {
      assert Cells(more)[..i] == Cells(entries)[..i];
      assert i == |entries| ==> Cells(entries)[..i] == Cells(entries);
    }
  }

  // How much of the options up to o is in the buffer.
  predicate Filled(shorts: seq<char>, so: nat, opts: seq<Opt>) {
    so < |shorts| && so == |Fresh("", opts)| && shorts[..so] == Fresh("", opts)
  }

  lemma FillStep(opts: seq<Opt>, o: nat, shorts: seq<char>, so: nat)
    requires o < |opts| && CountShort(opts) < |shorts| && Filled(shorts, so, opts[..o])
    ensures opts[..o + 1] == opts[..o] + [opts[o]]
    ensures if IsShort(opts[o]) && Key(opts[o]) !in shorts[..so] then
              so + 1 < |shorts| && Filled(shorts[so := Key(opts[o])], so + 1, opts[..o + 1])
            else Filled(shorts, so, opts[..o + 1])
  {
    hide Fresh, CountShort, Filled;
    assert opts[..o + 1] == opts[..o] + [opts[o]];
    assert opts == opts[..o + 1] + opts[o + 1..];
    FreshSnoc("", opts[..o], opts[o]);
    FreshAtMostShort(opts[..o + 1]);
    CountMonotone(opts[..o + 1], opts[o + 1..]);
    FilledLength(shorts, so, opts[..o]);
    if Fresh("", opts[..o + 1]) == Fresh("", opts[..o]) {
      FilledSame(shorts, so, opts[..o], opts[..o + 1]);
    } else {
      FilledPush(shorts, so, opts[..o], opts[..o + 1], Key(opts[o]));
    }
  }

  lemma FilledSame(shorts: seq<char>, so: nat, opts: seq<Opt>, opts': seq<Opt>)
    requires Filled(shorts, so, opts) && Fresh("", opts') == Fresh("", opts)
    ensures Filled(shorts, so, opts')
  {
  }

  lemma FilledPush(shorts: seq<char>, so: nat, opts: seq<Opt>, opts': seq<Opt>, c: char)
    requires Filled(shorts, so, opts) && Fresh("", opts') == Fresh("", opts) + [c] && so + 1 < |shorts|
    ensures Filled(shorts[so := c], so + 1, opts')
  {
    hide Fresh;
    assert shorts[so := c][..so + 1] == shorts[..so] + [c];
  }

  lemma FilledLength(shorts: seq<char>, so: nat, opts: seq<Opt>)
    requires Filled(shorts, so, opts)
    ensures so < |shorts| && so == |Fresh("", opts)| && shorts[..so] == Fresh("", opts)
  {
  }

  /** The inner loop of make_hol: an option that is no alias, with the aliases behind it. */
  method FillEntry(argp: Argp, opts: seq<Opt>, start: nat, shorts: array<char>, so0: nat) returns (o: nat, so: nat)
    requires start < |opts| && !opts[start].alias
    requires CountShort(opts) < shorts.Length && Filled(shorts[..], so0, opts[..start])
    modifies shorts
    ensures start < o <= |opts| && (o < |opts| ==> !opts[o].alias)
    ensures Split(argp, opts[..o]) == Split(argp, opts[..start]) + [Cell(opts[start..o], argp)]
    ensures CountReal(opts[..o]) == CountReal(opts[..start]) + 1
    ensures Filled(shorts[..], so, opts[..o])
  {
    hide Split, Filled, CountReal, CountShort;
    o, so := start, so0;
    var first := true;
    while first || (o < |opts| && opts[o].alias)
      invariant start <= o <= |opts| && (first <==> o == start)
      invariant !first ==> CountReal(opts[..o]) == CountReal(opts[..start]) + 1
      invariant !first ==> Split(argp, opts[..o]) == Split(argp, opts[..start]) + [Cell(opts[start..o], argp)]
      invariant Filled(shorts[..], so, opts[..o])
      decreases |opts| - o, first
    {
      FilledLength(shorts[..], so, opts[..o]);
      FillStep(opts, o, shorts[..], so);
      SplitSnoc(argp, opts[..o], opts[o]);
      CountSnoc(opts[..o], opts[o]);
      assert opts[start..o + 1] == opts[start..o] + [opts[o]];
      if IsShort(opts[o]) {
        ghost var was := shorts[..];
        var used := FindChar(Key(opts[o]), shorts, so);
        if !used {
          shorts[so] := Key(opts[o]);
          assert shorts[..] == was[so := Key(opts[o])];
          so := so + 1;
        }
      }
      o := o + 1;
      first := false;
    }
  }

  /** The sizing loop of make_hol. */
  method CountSpace(opts: seq<Opt>) returns (n: nat, numShort: nat)
    ensures n == CountReal(opts) && numShort == CountShort(opts)
  {
    n, numShort := 0, 0;
    for i := 0 to |opts|
      invariant n == CountReal(opts[..i]) && numShort == CountShort(opts[..i])
    {
      assert opts[..i + 1][..i] == opts[..i];
      if !opts[i].alias {
        n := n + 1;
      }
      if IsShort(opts[i]) {
        numShort := numShort + 1;
      }
    }
    assert opts[..|opts|] == opts;
  }

  // The first e entries stand for the options up to o.
  predicate EntriesFor(argp: Argp, entries: seq<Entry>, opts: seq<Opt>) {
    Cells(entries) == Split(argp, opts) && Pointed(entries) && |entries| == CountReal(opts)
  }

  lemma EntryStep(argp: Argp, entries: seq<Entry>, opts: seq<Opt>, start: nat, o: nat, so: nat)
    requires start < o <= |opts| && EntriesFor(argp, entries, opts[..start])
    requires Split(argp, opts[..o]) == Split(argp, opts[..start]) + [Cell(opts[start..o], argp)]
    requires CountReal(opts[..o]) == CountReal(opts[..start]) + 1
    requires so == |Fresh("", opts[..start])|
    ensures EntriesFor(argp, entries + [Entry(Cell(opts[start..o], argp), so)], opts[..o])
  {
    var entry := Entry(Cell(opts[start..o], argp), so);
    SplitFlat(argp, opts[..start]);
    PointedSnoc(entries, entry);
    CellsSnoc(entries, entry);
  }

  lemma RoomForEntry(opts: seq<Opt>, o: nat)
    requires o < |opts| && !opts[o].alias
    ensures CountReal(opts[..o]) < CountReal(opts)
  {
    assert opts[..o + 1] == opts[..o] + [opts[o]];
    assert opts == opts[..o + 1] + opts[o + 1..];
    CountSnoc(opts[..o], opts[o]);
    CountMonotone(opts[..o + 1], opts[o + 1..]);
  }

  /** make_hol: the options of one argp, aliases with the option they follow. */
  method MakeHol(argp: Argp) returns (hol: Hol)
    requires Own(argp) != [] ==> !Own(argp)[0].alias
    ensures fresh(hol) && hol.Valid()
    ensures hol.numEntries > 0 ==> fresh(hol.entries) && fresh(hol.shortOptions)
    ensures hol.Content() == Split(argp, Own(argp))
  {
    hide Pointed, Split, Fresh, Cells, Flat;
    hol := new Hol();
    var opts := Own(argp);
    if |opts| == 0 {
      SplitNone(argp);
      return;
    }
    var n, numShort := CountSpace(opts);
    RoomForEntry(opts, 0);
    var entries := new Entry[n];
    var shorts := new char[numShort + 1];
    Fill(argp, opts, entries, shorts);
    hol.entries, hol.shortOptions, hol.numEntries := entries, shorts, n;
    SplitFlat(argp, opts);
  }

  lemma SplitNone(argp: Argp)
    ensures Split(argp, []) == []
  {
  }

  method Fill(argp: Argp, opts: seq<Opt>, entries: array<Entry>, shorts: array<char>)
    requires opts != [] && !opts[0].alias
    requires entries.Length == CountReal(opts) && shorts.Length == CountShort(opts) + 1
    modifies entries, shorts
    ensures EntriesFor(argp, entries[..], opts) && Terminated(shorts[..], Fresh("", opts))
  {
    hide Split, Filled, CountReal, CountShort, EntriesFor, Fresh;
    var so: nat, e: nat, o: nat := 0, 0, 0;
    assert opts[..0] == [];
    FillNone(argp, shorts[..]);
    assert entries[..0] == [];
    while o < |opts|
      invariant o <= |opts| && (o < |opts| ==> !opts[o].alias)
      invariant e == CountReal(opts[..o]) <= entries.Length && EntriesFor(argp, entries[..e], opts[..o])
      invariant Filled(shorts[..], so, opts[..o])
    {
      RoomForEntry(opts, o);
      FilledLength(shorts[..], so, opts[..o]);
      ghost var done := entries[..e];
      var start, soStart := o, so;
      o, so := FillEntry(argp, opts, start, shorts, so);
      assert entries[..e] == done;
      entries[e] := Entry(Cell(opts[start..o], argp), soStart);
      EntryStep(argp, done, opts, start, o, soStart);
      e := e + 1;
      assert entries[..e] == done + [entries[e - 1]];
      assert opts == opts[..o] + opts[o..];
      CountMonotone(opts[..o], opts[o..]);
    }
    assert opts[..o] == opts;
    FilledLength(shorts[..], so, opts);
    ghost var was := shorts[..];
    shorts[so] := '\0';
    assert shorts[..so] == was[..so];
    assert entries[..e] == entries[..];
  }

  lemma FillNone(argp: Argp, shorts: seq<char>)
    requires |shorts| > 0
    ensures CountReal([]) == 0 && EntriesFor(argp, [], []) && Filled(shorts, 0, [])
  {
  }

  // ---------------------------------------------------------------- Appending

  /** One option of the appended list: ours are the options of the list appended to, done those of
      the appended list that are already merged. */
  lemma MergeStep(ours: seq<Opt>, theirs: seq<Opt>, done: seq<Opt>, o: Opt, rest: seq<Opt>,
                  shorts: seq<char>, so: nat)
    requires theirs == done + [o] + rest
    requires |shorts| == |Fresh("", ours)| + |Fresh("", theirs)| + 1 && Filled(shorts, so, ours + done)
    ensures |Fresh("", ours)| <= so && shorts[..|Fresh("", ours)|] == Fresh("", ours)
    ensures var text, at := Fresh("", theirs), |Fresh("", done)|;
            && at <= |text|
            && if IsShort(o) && at < |text| && text[at] == Key(o) then
                 && |Fresh("", done + [o])| == at + 1
                 && if Key(o) in Fresh("", ours) then Filled(shorts, so, ours + (done + [o]))
                    else so + 1 < |shorts| && Filled(shorts[so := Key(o)], so + 1, ours + (done + [o]))
               else |Fresh("", done + [o])| == at && Filled(shorts, so, ours + (done + [o]))
  {
    hide Fresh, Filled;
    var now := done + [o];
    assert ours + now == (ours + done) + [o];
    FilledLength(shorts, so, ours + done);
    FreshConcat("", ours, done);
    FreshConcat("", ours, now);
    PrefixOf(Fresh("", ours), Fresh("" + Fresh("", ours), done), shorts, so);
    NextIsFresh(theirs, done, o, rest);
    FreshSnoc("", done, o);
    FreshSnoc("", ours + done, o);
    FreshMembers("", ours);
    FreshMembers("", done);
    FreshMembers("", ours + done);
    DeclaresConcat(ours, done);
    FreshShorter("" + Fresh("", ours), now);
    FreshConcat("", now, rest);
    if Fresh("", ours + now) == Fresh("", ours + done) {
      FilledSame(shorts, so, ours + done, ours + now);
    } else {
      FilledPush(shorts, so, ours + done, ours + now, Key(o));
    }
  }

  lemma PrefixOf(a: string, b: string, shorts: seq<char>, so: nat)
    requires so <= |shorts| && shorts[..so] == a + b
    ensures |a| <= so && shorts[..|a|] == a
  {
    assert shorts[..|a|] == shorts[..so][..|a|];
  }

  lemma DeclaresConcat(a: seq<Opt>, b: seq<Opt>)
    ensures forall c :: Declares(a + b, c) <==> Declares(a, c) || Declares(b, c)
  {
    forall c ensures Declares(a + b, c) <==> Declares(a, c) || Declares(b, c) {
      if Declares(a, c) {
        var i :| 0 <= i < |a| && IsShort(a[i]) && Key(a[i]) == c;
        assert (a + b)[i] == a[i];
      }
      if Declares(b, c) {
        var i :| 0 <= i < |b| && IsShort(b[i]) && Key(b[i]) == c;
        assert (a + b)[|a| + i] == b[i];
      }
    }
  }

  // What reading a terminated buffer gives: the character, or the terminator at the end.
  lemma ReadAt(buffer: seq<char>, text: string, i: nat)
    requires Terminated(buffer, text) && i <= |text|
    ensures i < |buffer| && buffer[i] == if i < |text| then text[i] else '\0'
  {
    assert i < |text| ==> buffer[..|text|][i] == text[i];
  }

  /** The inner loop of hol_append: the options of one entry. */
  method MergeOpts(opts: seq<Opt>, ghost ours: seq<Opt>, ghost theirs: seq<Opt>, ghost before: seq<Opt>, ghost after: seq<Opt>,
                   shorts: array<char>, holLen: nat, more: array<char>, so0: nat, moreSo0: nat)
    returns (so: nat, moreSo: nat)
    requires theirs == before + opts + after && shorts != more
    requires shorts.Length == |Fresh("", ours)| + |Fresh("", theirs)| + 1 && holLen == |Fresh("", ours)|
    requires Terminated(more[..], Fresh("", theirs))
    requires Filled(shorts[..], so0, ours + before) && moreSo0 == |Fresh("", before)|
    modifies shorts
    ensures Filled(shorts[..], so, ours + (before + opts)) && moreSo == |Fresh("", before + opts)|
  {
    hide Fresh, Filled, Terminated;
    so, moreSo := so0, moreSo0;
    var i := 0;
    assert before + opts[..0] == before;
    while i < |opts|
      invariant i <= |opts|
      invariant Filled(shorts[..], so, ours + (before + opts[..i])) && moreSo == |Fresh("", before + opts[..i])|
    {
      ghost var done, was := before + opts[..i], shorts[..];
      var o := opts[i];
      assert theirs == done + [o] + (opts[i + 1..] + after);
      assert before + opts[..i + 1] == done + [o];
      MergeStep(ours, theirs, done, o, opts[i + 1..] + after, shorts[..], so);
      ReadAt(more[..], Fresh("", theirs), moreSo);
      var ch := more[moreSo];
      if IsShort(o) && ch == Key(o) {
        var shadowed := FindChar(ch, shorts, holLen);
        if !shadowed {
          shorts[so] := ch;
          assert shorts[..] == was[so := ch];
          so := so + 1;
        }
        moreSo := moreSo + 1;
      }
      i := i + 1;
    }
    assert opts[..i] == opts;
  }

  // The entries up to e are in place: theirs up to that point with new pointers behind ours.
  ghost predicate Merged(entries: seq<Entry>, e: nat, cells: seq<Cell>) {
    e <= |entries| && Cells(entries) == cells && Pointed(entries[..e])
  }

  lemma MergedStep(entries: seq<Entry>, e: nat, cells: seq<Cell>, so: nat)
    requires Merged(entries, e, cells) && e < |entries| && so == |Fresh("", Flat(cells[..e]))|
    ensures Merged(entries[e := Entry(entries[e].cell, so)], e + 1, cells)
    ensures Flat(cells[..e + 1]) == Flat(cells[..e]) + entries[e].cell.opts
  {
    var entry := Entry(entries[e].cell, so);
    var next := entries[e := entry];
    assert Cells(entries[..e]) == cells[..e];
    PointedSnoc(entries[..e], entry);
    assert next[..e + 1] == entries[..e] + [entry];
    assert forall i :: 0 <= i < |next| ==> Cells(next)[i] == Cells(entries)[i];
    assert Cells(next) == cells;
    assert cells[..e + 1] == cells[..e] + [entries[e].cell];
    FlatSnoc(cells[..e], entries[e].cell);
  }

  lemma MergedStart(ours: seq<Entry>, theirs: seq<Entry>)
    requires Pointed(ours)
    ensures Merged(ours + theirs, |ours|, Cells(ours) + Cells(theirs))
  {
    assert (ours + theirs)[..|ours|] == ours;
  }

  /** The new buffers of hol_append, before the short options of more are added: the entries of
      both lists, and the short options of hol. */
  method Joined(hol: Hol, more: Hol, holLen: nat, moreLen: nat) returns (entries: array<Entry>, shorts: array<char>)
    requires hol.Valid() && more.Valid() && hol.numEntries > 0 && more.numEntries > 0
    requires holLen == |Fresh("", Flat(Cells(hol.entries[..])))|
    ensures fresh(entries) && fresh(shorts) && shorts.Length == holLen + moreLen + 1
    ensures entries[..] == hol.entries[..] + more.entries[..]
    ensures Filled(shorts[..], holLen, Flat(Cells(hol.entries[..])))
  {
    hide Fresh, Filled, Flat, Pointed, Cells;
    ghost var ourEntries := hol.entries[..];
    ghost var ours := Flat(Cells(ourEntries));
    ghost var both := hol.entries[..] + more.entries[..];
    var n := hol.numEntries;
    entries := new Entry[n + more.numEntries];
    shorts := new char[holLen + moreLen + 1];
    forall i | 0 <= i < n {
      entries[i] := hol.entries[i];
    }
    forall i | 0 <= i < more.numEntries {
      entries[n + i] := more.entries[i];
    }
    forall i | 0 <= i < holLen {
      shorts[i] := hol.shortOptions[i];
    }
    assert entries[..] == both;
    assert shorts[..holLen] == Fresh("", ours);
    FilledBy(shorts[..], holLen, ours);
    assert hol.entries[..] == ourEntries;
  }

  /** The main part of hol_append: both lists have entries. */
  method Merge(hol: Hol, more: Hol) returns (entries: array<Entry>, shorts: array<char>)
    requires hol.Valid() && more.Valid() && hol.numEntries > 0 && more.numEntries > 0
    ensures fresh(entries) && fresh(shorts) && entries.Length == hol.numEntries + more.numEntries
    ensures Cells(entries[..]) == hol.Content() + more.Content() && Pointed(entries[..])
    ensures Terminated(shorts[..], Fresh("", Flat(Cells(entries[..]))))
  {
    hide Fresh, Filled, Flat, Pointed, Merged, IsShort;
    ghost var ourEntries, theirEntries := hol.entries[..], more.entries[..];
    ghost var ourCells, theirCells := Cells(ourEntries), Cells(theirEntries);
    ghost var ours, theirs, cells := Flat(ourCells), Flat(theirCells), ourCells + theirCells;
    assert |theirCells| == more.numEntries && |ourCells| == hol.numEntries;
    MergedStart(ourEntries, theirEntries);
    FreshHasNoNul(ours);
    FreshHasNoNul(theirs);
    var holLen := StrLen(hol.shortOptions, Fresh("", ours));
    var moreLen := StrLen(more.shortOptions, Fresh("", theirs));
    entries, shorts := Joined(hol, more, holLen, moreLen);
    var n := hol.numEntries;
    var so: nat, moreSo: nat, e: nat := holLen, 0, n;
    assert theirCells[..0] == [];
    FlatNone();
    FreshNone();
    assert ours + [] == ours;
    hide Cells;
    while e < n + more.numEntries
      invariant n <= e <= n + more.numEntries && Merged(entries[..], e, cells)
      invariant Filled(shorts[..], so, ours + Flat(theirCells[..e - n]))
      invariant moreSo == |Fresh("", Flat(theirCells[..e - n]))|
    {
      ghost var done, was := theirCells[..e - n], entries[..];
      FlatAt(ourCells, theirCells, e - n);
      MergedCell(was, e, cells);
      FilledLength(shorts[..], so, ours + Flat(done));
      MergedStep(entries[..], e, cells, so);
      entries[e] := entries[e].(so := so);
      assert entries[..] == was[e := entries[e]];
      so, moreSo := MergeOpts(entries[e].cell.opts, ours, theirs, Flat(done), Flat(theirCells[e - n + 1..]),
                              shorts, holLen, more.shortOptions, so, moreSo);
      e := e + 1;
    }
    assert theirCells[..e - n] == theirCells;
    FlatConcat(ourCells, theirCells);
    FilledLength(shorts[..], so, ours + theirs);
    ghost var was := shorts[..];
    shorts[so] := '\0';
    assert shorts[..so] == was[..so];
    MergedEnd(entries[..], e, cells);
  }

  lemma FreshNone()
    ensures Fresh("", []) == ""
  {
  }

  lemma FlatAt(a: seq<Cell>, b: seq<Cell>, k: nat)
    requires k < |b|
    ensures (a + b)[..|a| + k] == a + b[..k] && (a + b)[|a| + k] == b[k]
    ensures Flat((a + b)[..|a| + k]) == Flat(a) + Flat(b[..k])
    ensures Flat(b) == Flat(b[..k]) + b[k].opts + Flat(b[k + 1..])
    ensures Flat(b[..k + 1]) == Flat(b[..k]) + b[k].opts
  {
    hide Flat;
    FlatConcat(a, b[..k]);
    assert b == b[..k + 1] + b[k + 1..];
    assert b[..k + 1] == b[..k] + [b[k]];
    FlatConcat(b[..k + 1], b[k + 1..]);
    FlatSnoc(b[..k], b[k]);
  }

  lemma MergedCell(entries: seq<Entry>, e: nat, cells: seq<Cell>)
    requires Merged(entries, e, cells) && e < |entries|
    ensures |cells| == |entries| && entries[e].cell == cells[e]
  {
  }

  lemma MergedEnd(entries: seq<Entry>, e: nat, cells: seq<Cell>)
    requires Merged(entries, e, cells) && e == |entries|
    ensures Cells(entries) == cells && Pointed(entries)
  {
    assert entries[..e] == entries;
  }

  lemma FilledBy(shorts: seq<char>, so: nat, opts: seq<Opt>)
    requires so < |shorts| && so == |Fresh("", opts)| && shorts[..so] == Fresh("", opts)
    ensures Filled(shorts, so, opts)
  {
  }

  /** hol_append: the entries of more go behind those of hol, in order, and the merged string has
      each short option once; more is used up. */
  method HolAppend(hol: Hol, more: Hol)
    requires hol != more && hol.Valid() && more.Valid()
    modifies hol, more
    ensures hol.Valid() && hol.Content() == old(hol.Content()) + old(more.Content())
    ensures hol.numEntries > 0 ==>
              || (fresh(hol.entries) && fresh(hol.shortOptions))
              || (old(hol.numEntries) > 0 && hol.entries == old(hol.entries) && hol.shortOptions == old(hol.shortOptions))
              || (old(more.numEntries) > 0 && hol.entries == old(more.entries) && hol.shortOptions == old(more.shortOptions))
  {
    hide Pointed, Fresh, Flat, Cells, Terminated;
    if more.numEntries > 0 {
      if hol.numEntries == 0 {
        hol.numEntries, hol.entries, hol.shortOptions := more.numEntries, more.entries, more.shortOptions;
        more.numEntries := 0;
      } else {
        var entries, shorts := Merge(hol, more);
        hol.numEntries, hol.entries, hol.shortOptions := hol.numEntries + more.numEntries, entries, shorts;
      }
    }
  }

  // ---------------------------------------------------------------- The whole tree

  // No vector of options starts with an alias.
  predicate WellFormed(argp: Argp)
    decreases argp
  {
    && (Own(argp) != [] ==> !Own(argp)[0].alias)
    && forall i :: 0 <= i < |argp.children| ==> WellFormed(argp.children[i])
  }

  /** The help entries of a tree: those of the node, then those of its children in order. */
  function TreeCells(argp: Argp): seq<Cell>
    decreases argp, 1
  {
    Split(argp, Own(argp)) + ChildCells(argp.children)
  }

  function ChildCells(children: seq<Argp>): seq<Cell>
    decreases children, 0
  {
    if children == [] then [] else TreeCells(children[0]) + ChildCells(children[1..])
  }

  lemma {:induction false} TreeFlat(argp: Argp)
    ensures Flat(TreeCells(argp)) == Preorder(argp)
    decreases argp, 1
  {
    SplitFlat(argp, Own(argp));
    ChildFlat(argp.children);
    FlatConcat(Split(argp, Own(argp)), ChildCells(argp.children));
  }

  lemma {:induction false} ChildFlat(children: seq<Argp>)
    ensures Flat(ChildCells(children)) == PreorderAll(children)
    decreases children, 0
  {
    if children != [] {
      TreeFlat(children[0]);
      ChildFlat(children[1..]);
      FlatConcat(TreeCells(children[0]), ChildCells(children[1..]));
    }
  }

  lemma TreeStart(argp: Argp)
    ensures argp.children[0..] == argp.children && argp.children[|argp.children|..] == []
    ensures TreeCells(argp) == Split(argp, Own(argp)) + ChildCells(argp.children)
    ensures forall done: seq<Cell> :: done + ChildCells([]) == done
  {
  }

  lemma ChildStep(done: seq<Cell>, children: seq<Argp>, c: nat)
    requires c < |children|
    ensures done + ChildCells(children[c..]) == done + TreeCells(children[c]) + ChildCells(children[c + 1..])
  {
    assert children[c..][0] == children[c] && children[c..][1..] == children[c + 1..];
  }

  /** argp_hol: the option list of a whole tree. */
  method ArgpHol(argp: Argp) returns (hol: Hol)
    requires WellFormed(argp)
    ensures fresh(hol) && hol.Valid() && hol.Content() == TreeCells(argp)
    ensures hol.numEntries > 0 ==> fresh(hol.entries) && fresh(hol.shortOptions)
    decreases argp
  {
    hide Pointed, Fresh, Flat, Cells, Split, Terminated, TreeCells, ChildCells;
    hol := MakeHol(argp);
    var c := 0;
    ghost var done := Split(argp, Own(argp));
    TreeStart(argp);
    while c < |argp.children|
      invariant c <= |argp.children| && fresh(hol) && hol.Valid()
      invariant hol.numEntries > 0 ==> fresh(hol.entries) && fresh(hol.shortOptions)
      invariant hol.Content() == done && done + ChildCells(argp.children[c..]) == TreeCells(argp)
    {
      ChildStep(done, argp.children, c);
      var more := ArgpHol(argp.children[c]);
      HolAppend(hol, more);
      done := done + TreeCells(argp.children[c]);
      c := c + 1;
    }
  }

  /** What the callback gets: an option that is recognised and not hidden, and the option that it is
      an alias of, if it is one of those recognised. */
  datatype Visit = Visit(opt: Opt, base: Opt)

  function Visits(text: string, so: nat, opts: seq<Opt>, base: Opt): seq<Visit>
    decreases |opts|
  {
    if opts == [] then []
    else if IsShort(opts[0]) && so < |text| && text[so] == Key(opts[0]) then
      var newBase := if opts[0].alias then base else opts[0];
      (if opts[0].hidden then [] else [Visit(opts[0], newBase)]) + Visits(text, so + 1, opts[1..], newBase)
    else Visits(text, so, opts[1..], base)
  }

  // The options that the walk recognises.
  function Recognised(text: string, so: nat, opts: seq<Opt>): seq<Opt>
    decreases |opts|
  {
    if opts == [] then []
    else if IsShort(opts[0]) && so < |text| && text[so] == Key(opts[0]) then
      [opts[0]] + Recognised(text, so + 1, opts[1..])
    else Recognised(text, so, opts[1..])
  }

  function KeysOf(opts: seq<Opt>): string {
    if opts == [] then "" else (if IsShort(opts[0]) then [Key(opts[0])] else "") + KeysOf(opts[1..])
  }

  function Visible(opts: seq<Opt>): seq<Opt> {
    if opts == [] then [] else (if opts[0].hidden then [] else [opts[0]]) + Visible(opts[1..])
  }

  function Visited(visits: seq<Visit>): seq<Opt> {
    if visits == [] then [] else [visits[0].opt] + Visited(visits[1..])
  }

  /** The options visited are those of the walk that are not hidden. */
  lemma {:induction false} VisitsFollowWalk(text: string, so: nat, opts: seq<Opt>, base: Opt)
    ensures KeysOf(Recognised(text, so, opts)) == Walk(text, so, opts)
    ensures Visited(Visits(text, so, opts, base)) == Visible(Recognised(text, so, opts))
    decreases |opts|
  {
    if opts != [] {
      if IsShort(opts[0]) && so < |text| && text[so] == Key(opts[0]) {
        var newBase := if opts[0].alias then base else opts[0];
        VisitsFollowWalk(text, so + 1, opts[1..], newBase);
        var rest, more := Recognised(text, so + 1, opts[1..]), Visits(text, so + 1, opts[1..], newBase);
        assert ([opts[0]] + rest)[1..] == rest && ([Visit(opts[0], newBase)] + more)[1..] == more;
        assert [] + more == more;
      } else {
        VisitsFollowWalk(text, so, opts[1..], base);
      }
    }
  }

  predicate AllAliases(opts: seq<Opt>) {
    forall i :: 0 <= i < |opts| ==> opts[i].alias
  }

  // Option q is no alias, and all behind it up to r are.
  predicate Behind(opts: seq<Opt>, q: nat, r: nat)
    requires q <= r < |opts|
  {
    !opts[q].alias && AllAliases(opts[q + 1..r + 1])
  }

  // What option r of opts stands for: the last up to it that is no alias, or `start` where none is.
  predicate StandsFor(opts: seq<Opt>, r: nat, start: Opt, target: Opt)
    requires r < |opts|
  {
    || (AllAliases(opts[..r + 1]) && target == start)
    || exists q :: 0 <= q <= r && Behind(opts, q, r) && target == opts[q]
  }

  lemma AllBehind(o: Opt, rest: seq<Opt>, k: nat)
    requires k < |rest| && AllAliases(rest[..k + 1])
    ensures if o.alias then AllAliases(([o] + rest)[..k + 2]) else Behind([o] + rest, 0, k + 1)
  {
    var opts := [o] + rest;
    assert opts[1..k + 2] == rest[..k + 1];
    assert opts[..k + 2] == [o] + rest[..k + 1];
  }

  lemma BehindStep(o: Opt, rest: seq<Opt>, q: nat, k: nat)
    requires q <= k < |rest| && Behind(rest, q, k)
    ensures Behind([o] + rest, q + 1, k + 1)
  {
    assert ([o] + rest)[q + 2..k + 2] == rest[q + 1..k + 1];
  }

  lemma StandsForStep(o: Opt, rest: seq<Opt>, k: nat, start: Opt, target: Opt)
    requires k < |rest| && StandsFor(rest, k, if o.alias then start else o, target)
    ensures StandsFor([o] + rest, k + 1, start, target)
  {
    hide Behind, AllAliases;
    var opts := [o] + rest;
    if AllAliases(rest[..k + 1]) && target == (if o.alias then start else o) {
      AllBehind(o, rest, k);
      assert opts[0] == o;
    } else {
      var q :| 0 <= q <= k && Behind(rest, q, k) && target == rest[q];
      BehindStep(o, rest, q, k);
      assert opts[q + 1] == rest[q];
    }
  }

  lemma VisibleStep(o: Opt, rest: seq<Opt>, k: nat)
    requires k <= |rest|
    ensures Visible(([o] + rest)[..k + 1]) == (if o.hidden then [] else [o]) + Visible(rest[..k])
  {
    assert ([o] + rest)[..k + 1] == [o] + rest[..k] && ([o] + rest[..k])[1..] == rest[..k];
  }

  /** Visit j is the j-th recognised option that is not hidden, and it comes with the option that it
      is an alias of: the last one recognised that is no alias, or the given one where none is. */
  lemma {:induction false} VisitBase(text: string, so: nat, opts: seq<Opt>, base: Opt, j: nat) returns (r: nat)
    requires j < |Visits(text, so, opts, base)|
    ensures var known, visit := Recognised(text, so, opts), Visits(text, so, opts, base)[j];
            && r < |known| && visit.opt == known[r] && !known[r].hidden && |Visible(known[..r])| == j
            && StandsFor(known, r, base, visit.base)
    decreases |opts|
  {
    hide StandsFor, Visible;
    if !(IsShort(opts[0]) && so < |text| && text[so] == Key(opts[0])) {
      r := VisitBase(text, so, opts[1..], base, j);
    } else {
      var newBase := if opts[0].alias then base else opts[0];
      var rest := Recognised(text, so + 1, opts[1..]);
      if !opts[0].hidden && j == 0 {
        r := 0;
        FirstStands(opts[0], rest, base);
      } else {
        var k := VisitBase(text, so + 1, opts[1..], newBase, if opts[0].hidden then j else j - 1);
        r := k + 1;
        VisibleStep(opts[0], rest, k);
        StandsForStep(opts[0], rest, k, base, Visits(text, so, opts, base)[j].base);
      }
    }
  }

  lemma FirstStands(o: Opt, rest: seq<Opt>, base: Opt)
    ensures StandsFor([o] + rest, 0, base, if o.alias then base else o) && Visible(([o] + rest)[..0]) == []
  {
    var opts := [o] + rest;
    if o.alias {
      assert opts[..0 + 1] == [o];
    } else {
      assert opts[0 + 1..0 + 1] == [];
      assert Behind(opts, 0, 0) && opts[0] == o;
    }
  }

  /** In an entry, an option with its aliases, every visited option is shown with the first. */
  lemma VisitsOfEntry(text: string, so: nat, opts: seq<Opt>, j: nat)
    requires OneEntry(opts) && j < |Visits(text, so, opts, opts[0])|
    ensures Visits(text, so, opts, opts[0])[j].base == opts[0]
  {
    SameBase(text, so, opts[1..], opts[0]);
    SameBase(text, so + 1, opts[1..], opts[0]);
  }

  // An option that is no alias, and its aliases.
  predicate OneEntry(opts: seq<Opt>) {
    opts != [] && !opts[0].alias && AllAliases(opts[1..])
  }

  lemma {:induction false} SplitEntries(argp: Argp, opts: seq<Opt>)
    requires opts != [] ==> !opts[0].alias
    ensures forall cell <- Split(argp, opts) :: OneEntry(cell.opts)
    decreases |opts|
  {
    if opts != [] {
      SplitEntries(argp, opts[..|opts| - 1]);
    }
  }

  /** Every entry of the help is one option with its aliases. */
  lemma {:induction false} TreeEntries(argp: Argp)
    requires WellFormed(argp)
    ensures forall cell <- TreeCells(argp) :: OneEntry(cell.opts)
    decreases argp, 1
  {
    SplitEntries(argp, Own(argp));
    ChildEntries(argp.children);
  }

  lemma {:induction false} ChildEntries(children: seq<Argp>)
    requires forall i :: 0 <= i < |children| ==> WellFormed(children[i])
    ensures forall cell <- ChildCells(children) :: OneEntry(cell.opts)
    decreases children, 0
  {
    if children != [] {
      TreeEntries(children[0]);
      ChildEntries(children[1..]);
    }
  }

  lemma {:induction false} SameBase(text: string, so: nat, aliases: seq<Opt>, base: Opt)
    requires AllAliases(aliases)
    ensures forall visit <- Visits(text, so, aliases, base) :: visit.base == base
    decreases |aliases|
  {
    if aliases != [] {
      SameBase(text, so, aliases[1..], base);
      SameBase(text, so + 1, aliases[1..], base);
    }
  }

  lemma VisitsStep(text: string, so: nat, opts: seq<Opt>, i: nat, base: Opt, visited: seq<Visit>)
    requires i < |opts|
    ensures var o, all := opts[i], visited + Visits(text, so, opts[i..], base);
            if IsShort(o) && so < |text| && text[so] == Key(o) then
              var newBase := if o.alias then base else o;
              all == (if o.hidden then visited else visited + [Visit(o, newBase)]) + Visits(text, so + 1, opts[i + 1..], newBase)
            else all == visited + Visits(text, so, opts[i + 1..], base)
  {
    assert opts[i..][0] == opts[i] && opts[i..][1..] == opts[i + 1..];
  }

  lemma NoVisits(text: string, so: nat, base: Opt, visited: seq<Visit>)
    ensures visited + Visits(text, so, [], base) == visited
  {
  }

  /** hol_entry_short_iterate: the callback is called for these options in order, until it returns
      something else than 0; what it returns may depend on all its calls. */
  method ShortIterate(entry: Entry, buffer: array<char>, func: seq<Visit> -> int, ghost text: string)
    returns (val: int, visited: seq<Visit>)
    requires Terminated(buffer[..], text) && entry.so <= |text| && entry.cell.opts != []
    ensures visited <= Visits(text, entry.so, entry.cell.opts, entry.cell.opts[0])
    ensures val == 0 ==> visited == Visits(text, entry.so, entry.cell.opts, entry.cell.opts[0])
    ensures val == if visited == [] then 0 else func(visited)
    ensures forall i :: 0 < i < |visited| ==> func(visited[..i]) == 0
  {
    hide Visits;
    val, visited := 0, [];
    var so: nat := entry.so;
    var opts := entry.cell.opts;
    var base := opts[0];
    var i := 0;
    assert opts[0..] == opts && visited + Visits(text, so, opts, base) == Visits(text, so, opts, base);
    while i < |opts| && val == 0
      invariant 0 <= i <= |opts| && so <= |text|
      invariant val == if visited == [] then 0 else func(visited)
      invariant forall k :: 0 < k < |visited| ==> func(visited[..k]) == 0
      invariant visited + Visits(text, so, opts[i..], base) == Visits(text, entry.so, opts, opts[0])
    {
      ReadAt(buffer[..], text, so);
      VisitsStep(text, so, opts, i, base, visited);
      if IsShort(opts[i]) && buffer[so] == Key(opts[i]) {
        if !opts[i].alias {
          base := opts[i];
        }
        if !opts[i].hidden {
          ghost var before := visited;
          visited := visited + [Visit(opts[i], base)];
          assert visited[..|before|] == before;
          assert forall k :: 0 < k < |before| ==> visited[..k] == before[..k];
          val := func(visited);
        }
        so := so + 1;
      }
      i := i + 1;
    }
    NoVisits(text, so, base, visited);
    assert i == |opts| ==> opts[i..] == [];
  }

  /** What the help output relies on: the merged string is the duplicate-free list of all short keys
      in preorder, and every entry's slice holds exactly the keys that are first declared there. */
  method HelpList(argp: Argp) returns (hol: Hol)
    requires WellFormed(argp)
    ensures hol.Valid() && hol.Content() == TreeCells(argp)
    ensures hol.numEntries > 0 ==>
              && Terminated(hol.shortOptions[..], Fresh("", Preorder(argp)))
              && forall i :: 0 <= i < hol.numEntries ==>
                   var before := Flat(TreeCells(argp)[..i]);
                   Walk(Fresh("", Preorder(argp)), hol.entries[i].so, hol.entries[i].cell.opts)
                   == Fresh(Fresh("", before), TreeCells(argp)[i].opts)
  {
    hol := ArgpHol(argp);
    TreeFlat(argp);
    if hol.numEntries > 0 {
      hide Fresh, Flat, Walk, Pointed;
      forall i | 0 <= i < hol.numEntries
        ensures var before := Flat(TreeCells(argp)[..i]);
                Walk(Fresh("", Preorder(argp)), hol.entries[i].so, hol.entries[i].cell.opts)
                == Fresh(Fresh("", before), TreeCells(argp)[i].opts)
      {
        EntryKeys(hol.entries[..], i);
      }
    }
  }
}
