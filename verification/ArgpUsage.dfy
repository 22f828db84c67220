/** The alternative usage lines of lib/argp-help.c: a vector of levels, one digit for every argp
    whose argument documentation has alternatives, counted through like an odometer. */
module ArgpUsage {
  import opened Common
  import opened Argp

  // ---------------------------------------------------------------- Mixed radix numbers

  lemma MixBound(v: int, c: int, w: int, n: int)
    requires 0 <= v < c && 0 <= w < n
    ensures 0 <= v + c * w < c * n
  {
    assert c * w + c == c * (w + 1);
    assert c * (w + 1) <= c * n;
  }

  lemma MixLess(v: int, c: int, w: int, v': int, w': int)
    requires 0 <= v < c && 0 <= v'
    ensures w < w' ==> v + c * w < v' + c * w'
  {
    if w < w' {
      assert c * w' >= c * (w + 1) == c * w + c;
    }
  }

  lemma MixInjective(v: int, c: int, w: int, v': int, w': int)
    requires 0 <= v < c && 0 <= v' < c && v + c * w == v' + c * w'
    ensures v == v' && w == w'
  {
    MixLess(v, c, w, v', w');
    MixLess(v', c, w', v, w);
  }

  lemma Distribute(a: int, b: int, c: int)
    ensures a * (b + c) == a * b + a * c && (a * b) * c == a * (b * c)
  {
  }

  // ---------------------------------------------------------------- Alternatives

  /** The index of the next newline from `from` on, or the end of the text. */
  function NewLine(doc: string, from: nat): (nl: nat)
    requires from <= |doc|
    ensures from <= nl <= |doc| && (nl < |doc| ==> doc[nl] == '\n') && '\n' !in doc[from..nl]
    decreases |doc| - from
  {
    if from == |doc| || doc[from] == '\n' then from else NewLine(doc, from + 1)
  }

  /** The alternatives from `from` on, separated by newlines. */
  function Alternatives(doc: string, from: nat): (r: seq<string>)
    requires from <= |doc|
    ensures |r| > 0
    decreases |doc| - from
  {
    var nl := NewLine(doc, from);
    [doc[from..nl]] + if nl < |doc| then Alternatives(doc, nl + 1) else []
  }

  function Radix(argp: Argp): (r: nat)
    ensures r > 0
  {
    match argp.argsDoc case None => 1 case Some(doc) => |Alternatives(doc, 0)|
  }

  // Whether the argp has a level of its own.
  predicate Multiple(argp: Argp) {
    argp.argsDoc.Some? && '\n' in argp.argsDoc.value
  }

  lemma MultipleRadix(argp: Argp)
    ensures Multiple(argp) <==> Radix(argp) > 1
  {
    if argp.argsDoc.Some? {
      var doc := argp.argsDoc.value;
      var nl := NewLine(doc, 0);
      assert nl == |doc| ==> doc[0..nl] == doc;
    }
  }

  // ---------------------------------------------------------------- Levels

  function OwnLevels(argp: Argp): nat {
    if Multiple(argp) then 1 else 0
  }

  function LevelCount(argp: Argp): nat
    decreases argp, 1
  {
    OwnLevels(argp) + LevelCountAll(argp.children)
  }

  function LevelCountAll(children: seq<Argp>): nat
    decreases children, 0
  {
    if children == [] then 0 else LevelCount(children[0]) + LevelCountAll(children[1..])
  }

  /** How many combinations of alternatives there are. */
  function Count(argp: Argp): (r: nat)
    ensures r > 0
    decreases argp, 1
  {
    Positive(CountAll(argp.children), Radix(argp));
    CountAll(argp.children) * Radix(argp)
  }

  function CountAll(children: seq<Argp>): (r: nat)
    ensures r > 0
    decreases children, 0
  {
    if children == [] then 1
    else
      Positive(Count(children[0]), CountAll(children[1..]));
      Count(children[0]) * CountAll(children[1..])
  }

  lemma Positive(a: nat, b: nat)
    requires a > 0 && b > 0
    ensures a * b > 0
  {
  }

  // The digit of the argp itself: without alternatives it is 0.
  function OwnDigit(argp: Argp, ds: seq<int>): int
    requires |ds| == LevelCount(argp)
  {
    if Multiple(argp) then ds[0] else 0
  }

  /** The number that the levels of a tree stand for: the digit of an argp weighs more than those
      of its descendants, and that of a later child more than those of the earlier ones. */
  function Val(argp: Argp, ds: seq<int>): int
    requires |ds| == LevelCount(argp)
    decreases argp, 1
  {
    ValAll(argp.children, ds[OwnLevels(argp)..]) + CountAll(argp.children) * OwnDigit(argp, ds)
  }

  function ValAll(children: seq<Argp>, ds: seq<int>): int
    requires |ds| == LevelCountAll(children)
    decreases children, 0
  {
    if children == [] then 0
    else
      var n := LevelCount(children[0]);
      Val(children[0], ds[..n]) + Count(children[0]) * ValAll(children[1..], ds[n..])
  }

  // The levels are signed bytes: the increment of 127 is -128.
  const BYTE: int := 128

  function NextByte(b: int): int {
    if b == BYTE - 1 then -BYTE else b + 1
  }

  /** No argp has more alternatives than a signed byte can count. */
  predicate FewAlternatives(argp: Argp)
    decreases argp, 1
  {
    Radix(argp) <= BYTE && FewInAll(argp.children)
  }

  predicate FewInAll(children: seq<Argp>)
    decreases children, 0
  {
    forall i :: 0 <= i < |children| ==> FewAlternatives(children[i])
  }

  // The level counts the alternatives, or as many of them as it can, and wraps around.
  predicate IsDigit(argp: Argp, d: int) {
    if Radix(argp) <= BYTE then 0 <= d < Radix(argp) else -BYTE <= d < BYTE
  }

  // The alternative that a level selects: from a negative one the search does not move on.
  function Choice(d: int): nat {
    if d < 0 then 0 else d
  }

  /** Every level is one that its argp can have. */
  predicate InRange(argp: Argp, ds: seq<int>)
    requires |ds| == LevelCount(argp)
    decreases argp, 1
  {
    IsDigit(argp, OwnDigit(argp, ds)) && InRangeAll(argp.children, ds[OwnLevels(argp)..])
  }

  predicate InRangeAll(children: seq<Argp>, ds: seq<int>)
    requires |ds| == LevelCountAll(children)
    decreases children, 0
  {
    children != [] ==>
      var n := LevelCount(children[0]);
      InRange(children[0], ds[..n]) && InRangeAll(children[1..], ds[n..])
  }

  /** The usage line that the levels choose: one alternative for every argp with documentation. */
  function Line(argp: Argp, ds: seq<int>): seq<string>
    requires |ds| == LevelCount(argp) && InRange(argp, ds)
    decreases argp, 1
  {
    (match argp.argsDoc case None => [] case Some(doc) => [Alternatives(doc, 0)[Choice(OwnDigit(argp, ds))]])
    + LineAll(argp.children, ds[OwnLevels(argp)..])
  }

  function LineAll(children: seq<Argp>, ds: seq<int>): seq<string>
    requires |ds| == LevelCountAll(children) && InRangeAll(children, ds)
    decreases children, 0
  {
    if children == [] then []
    else
      var n := LevelCount(children[0]);
      Line(children[0], ds[..n]) + LineAll(children[1..], ds[n..])
  }

  lemma {:induction false} ValBound(argp: Argp, ds: seq<int>)
    requires |ds| == LevelCount(argp) && InRange(argp, ds) && FewAlternatives(argp)
    ensures 0 <= Val(argp, ds) < Count(argp)
    decreases argp, 1
  {
    var rest := ds[OwnLevels(argp)..];
    ValAllBound(argp.children, rest);
    MixBound(ValAll(argp.children, rest), CountAll(argp.children), OwnDigit(argp, ds), Radix(argp));
  }

  lemma {:induction false} ValAllBound(children: seq<Argp>, ds: seq<int>)
    requires |ds| == LevelCountAll(children) && InRangeAll(children, ds) && FewInAll(children)
    ensures 0 <= ValAll(children, ds) < CountAll(children)
    decreases children, 0
  {
    if children != [] {
      var n := LevelCount(children[0]);
      ValBound(children[0], ds[..n]);
      ValAllBound(children[1..], ds[n..]);
      MixBound(Val(children[0], ds[..n]), Count(children[0]), ValAll(children[1..], ds[n..]), CountAll(children[1..]));
    }
  }

  /** Different levels stand for different numbers. */
  lemma {:induction false} ValInjective(argp: Argp, ds: seq<int>, ds': seq<int>)
    requires |ds| == |ds'| == LevelCount(argp) && InRange(argp, ds) && InRange(argp, ds') && FewAlternatives(argp)
    requires Val(argp, ds) == Val(argp, ds')
    ensures ds == ds'
    decreases argp, 1
  {
    var k := OwnLevels(argp);
    ValAllBound(argp.children, ds[k..]);
    ValAllBound(argp.children, ds'[k..]);
    MixInjective(ValAll(argp.children, ds[k..]), CountAll(argp.children), OwnDigit(argp, ds),
                 ValAll(argp.children, ds'[k..]), OwnDigit(argp, ds'));
    ValAllInjective(argp.children, ds[k..], ds'[k..]);
    assert ds == ds[..k] + ds[k..] && ds' == ds'[..k] + ds'[k..];
  }

  lemma {:induction false} ValAllInjective(children: seq<Argp>, ds: seq<int>, ds': seq<int>)
    requires |ds| == |ds'| == LevelCountAll(children) && InRangeAll(children, ds) && InRangeAll(children, ds') && FewInAll(children)
    requires ValAll(children, ds) == ValAll(children, ds')
    ensures ds == ds'
    decreases children, 0
  {
    if children != [] {
      var n := LevelCount(children[0]);
      ValBound(children[0], ds[..n]);
      ValBound(children[0], ds'[..n]);
      MixInjective(Val(children[0], ds[..n]), Count(children[0]), ValAll(children[1..], ds[n..]),
                   Val(children[0], ds'[..n]), ValAll(children[1..], ds'[n..]));
      ValInjective(children[0], ds[..n], ds'[..n]);
      ValAllInjective(children[1..], ds[n..], ds'[n..]);
      assert ds == ds[..n] + ds[n..] && ds' == ds'[..n] + ds'[n..];
    }
  }

  predicate AllZero(ds: seq<int>) {
    forall i :: 0 <= i < |ds| ==> ds[i] == 0
  }

  lemma {:induction false} ValZero(argp: Argp, ds: seq<int>)
    requires |ds| == LevelCount(argp) && AllZero(ds)
    ensures InRange(argp, ds) && Val(argp, ds) == 0
    decreases argp, 1
  {
    ValAllZero(argp.children, ds[OwnLevels(argp)..]);
  }

  lemma {:induction false} ValAllZero(children: seq<Argp>, ds: seq<int>)
    requires |ds| == LevelCountAll(children) && AllZero(ds)
    ensures InRangeAll(children, ds) && ValAll(children, ds) == 0
    decreases children, 0
  {
    if children != [] {
      var n := LevelCount(children[0]);
      ValZero(children[0], ds[..n]);
      ValAllZero(children[1..], ds[n..]);
    }
  }

  // ---------------------------------------------------------------- Children one by one

  lemma {:induction false} CountsConcat(a: seq<Argp>, b: seq<Argp>)
    ensures LevelCountAll(a + b) == LevelCountAll(a) + LevelCountAll(b)
    ensures CountAll(a + b) == CountAll(a) * CountAll(b)
    decreases |a|
  {
    if a == [] {
      assert a + b == b;
    } else {
      assert (a + b)[1..] == a[1..] + b && (a + b)[0] == a[0];
      CountsConcat(a[1..], b);
      Distribute(Count(a[0]), CountAll(a[1..]), CountAll(b));
      assert CountAll(a) == Count(a[0]) * CountAll(a[1..]);
    }
  }

  lemma SliceConcat(ds: seq<int>, es: seq<int>, n: nat)
    requires n <= |ds|
    ensures (ds + es)[..n] == ds[..n] && (ds + es)[n..] == ds[n..] + es
  {
  }

  lemma HeadTail(a: seq<Argp>, b: seq<Argp>)
    requires a != []
    ensures (a + b)[0] == a[0] && (a + b)[1..] == a[1..] + b
  {
  }

  lemma {:induction false} ValConcat(a: seq<Argp>, b: seq<Argp>, ds: seq<int>, es: seq<int>)
    requires |ds| == LevelCountAll(a) && |es| == LevelCountAll(b)
    ensures LevelCountAll(a + b) == |ds + es|
    ensures ValAll(a + b, ds + es) == ValAll(a, ds) + CountAll(a) * ValAll(b, es)
    ensures InRangeAll(a + b, ds + es) <==> InRangeAll(a, ds) && InRangeAll(b, es)
    decreases |a|
  {
    hide Val, Count, InRange, LevelCount;
    CountsConcat(a, b);
    if a == [] {
      assert a + b == b && ds + es == es;
    } else {
      var n := LevelCount(a[0]);
      HeadTail(a, b);
      SliceConcat(ds, es, n);
      ValConcat(a[1..], b, ds[n..], es);
      Distribute(Count(a[0]), ValAll(a[1..], ds[n..]), CountAll(a[1..]) * ValAll(b, es));
      Distribute(Count(a[0]), CountAll(a[1..]), ValAll(b, es));
    }
  }

  lemma LineAllCons(children: seq<Argp>, ds: seq<int>)
    requires children != [] && |ds| == LevelCountAll(children) && InRangeAll(children, ds)
    ensures var n := LevelCount(children[0]);
            && n <= |ds| && |ds[n..]| == LevelCountAll(children[1..])
            && InRange(children[0], ds[..n]) && InRangeAll(children[1..], ds[n..])
            && LineAll(children, ds) == Line(children[0], ds[..n]) + LineAll(children[1..], ds[n..])
  {
  }

  lemma {:induction false} LineConcat(a: seq<Argp>, b: seq<Argp>, ds: seq<int>, es: seq<int>)
    requires |ds| == LevelCountAll(a) && |es| == LevelCountAll(b) && InRangeAll(a, ds) && InRangeAll(b, es)
    ensures LevelCountAll(a + b) == |ds + es| && InRangeAll(a + b, ds + es)
    ensures LineAll(a + b, ds + es) == LineAll(a, ds) + LineAll(b, es)
    decreases |a|
  {
    ValConcat(a, b, ds, es);
    if a == [] {
      assert a + b == b && ds + es == es;
    } else {
      hide Line, ValAll, LineAll, InRangeAll, InRange, LevelCountAll, LevelCount, CountAll;
      var n := LevelCount(a[0]);
      LineAllCons(a, ds);
      LineAllCons(a + b, ds + es);
      HeadTail(a, b);
      SliceConcat(ds, es, n);
      LineConcat(a[1..], b, ds[n..], es);
      Regroup(Line(a[0], ds[..n]), LineAll(a[1..], ds[n..]), LineAll(b, es));
    }
  }

  lemma One(argp: Argp, ds: seq<int>)
    requires |ds| == LevelCount(argp)
    ensures LevelCountAll([argp]) == LevelCount(argp) && CountAll([argp]) == Count(argp)
    ensures ValAll([argp], ds) == Val(argp, ds) && (InRangeAll([argp], ds) <==> InRange(argp, ds))
    ensures InRange(argp, ds) ==> LineAll([argp], ds) == Line(argp, ds)
  {
    assert [argp][1..] == [] && ds[..|ds|] == ds && ds[|ds|..] == [];
    assert Count(argp) * CountAll([]) == Count(argp);
    assert InRangeAll([argp], ds) <==> InRange(argp, ds) && InRangeAll([], ds[|ds|..]);
  }

  // A carry into the number of an argp, and one out of it.
  function Carry(advance: bool): int {
    if advance then 1 else 0
  }

  /** The children up to c have been printed: from the old levels ds to new ones with the carry
      `advance` left over, where there was `first` at the start. */
  ghost predicate Advanced(children: seq<Argp>, ds: seq<int>, ds': seq<int>, first: bool, advance: bool) {
    && |ds| == |ds'| == LevelCountAll(children)
    && InRangeAll(children, ds) && InRangeAll(children, ds')
    && (FewInAll(children) ==>
          ValAll(children, ds') + CountAll(children) * Carry(advance) == ValAll(children, ds) + Carry(first))
    && (!FewInAll(children) ==> !advance)
  }

  lemma FewConcat(children: seq<Argp>, x: Argp)
    ensures FewInAll(children + [x]) <==> FewInAll(children) && FewAlternatives(x)
  {
    if FewInAll(children + [x]) {
      forall i | 0 <= i < |children|
        ensures FewAlternatives(children[i])
      {
        assert (children + [x])[i] == children[i];
      }
      assert (children + [x])[|children|] == x;
    }
  }

  // Where no carry goes in, none comes out.
  lemma NoCarry(x: Argp, es: seq<int>, es': seq<int>, last: bool)
    requires |es| == |es'| == LevelCount(x) && InRange(x, es) && InRange(x, es') && FewAlternatives(x)
    requires Val(x, es') + Count(x) * Carry(last) == Val(x, es)
    ensures !last
  {
    ValBound(x, es);
    ValBound(x, es');
  }

  lemma AdvanceStep(children: seq<Argp>, x: Argp, ds: seq<int>, ds': seq<int>, es: seq<int>, es': seq<int>,
                    first: bool, middle: bool, last: bool)
    requires Advanced(children, ds, ds', first, middle)
    requires |es| == |es'| == LevelCount(x) && InRange(x, es) && InRange(x, es')
    requires FewAlternatives(x) ==> Val(x, es') + Count(x) * Carry(last) == Val(x, es) + Carry(middle)
    requires !FewAlternatives(x) ==> !last
    ensures Advanced(children + [x], ds + es, ds' + es', first, last)
    ensures LineAll(children + [x], ds + es) == LineAll(children, ds) + Line(x, es)
  {
    hide ValAll, InRangeAll, LineAll, CountAll, Val, InRange, Line, Count;
    One(x, es);
    One(x, es');
    CountsConcat(children, [x]);
    ValConcat(children, [x], ds, es);
    ValConcat(children, [x], ds', es');
    LineConcat(children, [x], ds, es);
    FewConcat(children, x);
    if FewInAll(children + [x]) {
      CarryThrough(ValAll(children, ds'), ValAll(children, ds), CountAll(children), Val(x, es'), Val(x, es), Count(x),
                   Carry(first), Carry(middle), Carry(last));
    } else if FewAlternatives(x) {
      NoCarry(x, es, es', last);
    }
  }

  lemma CarryThrough(v': int, v: int, c: int, e': int, e: int, k: int, first: int, middle: int, last: int)
    requires v' + c * middle == v + first && e' + k * last == e + middle
    ensures (v' + c * e') + (c * k) * last == (v + c * e) + first
  {
    Distribute(c, e', k * last);
    Distribute(c, k, last);
    Distribute(c, e, middle);
    assert c * (e' + k * last) == c * (e + middle);
  }

  // ---------------------------------------------------------------- Printing

  /** argp_args_levels. */
  method ArgpArgsLevels(argp: Argp) returns (levels: nat)
    ensures levels == LevelCount(argp)
    decreases argp
  {
    levels := 0;
    if argp.argsDoc.Some? && '\n' in argp.argsDoc.value {
      levels := levels + 1;
    }
    var c := 0;
    while c < |argp.children|
      invariant c <= |argp.children|
      invariant levels == OwnLevels(argp) + LevelCountAll(argp.children[..c])
    {
      var x := argp.children[c];
      assert argp.children[..c + 1] == argp.children[..c] + [x];
      CountsConcat(argp.children[..c], [x]);
      assert [x][1..] == [];
      var more := ArgpArgsLevels(x);
      levels := levels + more;
      c := c + 1;
    }
    assert argp.children[..c] == argp.children;
  }

  /** strchrnul for a newline. */
  method StrChrNul(doc: string, from: nat) returns (nl: nat)
    requires from <= |doc|
    ensures nl == NewLine(doc, from)
  {
    nl := from;
    while nl < |doc| && doc[nl] != '\n'
      invariant from <= nl <= |doc| && NewLine(doc, nl) == NewLine(doc, from)
    {
      nl := nl + 1;
    }
  }

  lemma AlternativesFrom(doc: string, from: nat)
    requires from <= |doc|
    ensures var nl := NewLine(doc, from);
            && nl <= |doc| && Alternatives(doc, from)[0] == doc[from..nl]
            && (nl < |doc| <==> |Alternatives(doc, from)| > 1)
            && (nl < |doc| ==> Alternatives(doc, from)[1..] == Alternatives(doc, nl + 1))
  {
  }

  /** The alternative that a level selects, and the newline or end of text behind it. */
  method Select(doc: string, level: int) returns (text: string, nl: nat)
    requires level < |Alternatives(doc, 0)|
    ensures text == Alternatives(doc, 0)[Choice(level)] && nl <= |doc|
    ensures nl < |doc| <==> Choice(level) + 1 < |Alternatives(doc, 0)|
  {
    hide Alternatives, NewLine;
    ghost var all := Alternatives(doc, 0);
    var cp: nat := 0;
    nl := StrChrNul(doc, cp);
    var i := 0;
    while i < level
      invariant 0 <= i <= Choice(level) && cp <= |doc| && nl == NewLine(doc, cp)
      invariant all[i..] == Alternatives(doc, cp)
    {
      AlternativesFrom(doc, cp);
      assert all[i + 1..] == all[i..][1..];
      cp := nl + 1;
      nl := StrChrNul(doc, cp);
      i := i + 1;
    }
    AlternativesFrom(doc, cp);
    assert all[Choice(level)] == all[i..][0];
    text := doc[cp..nl];
  }

  lemma ValOf(argp: Argp, ds: seq<int>)
    requires |ds| == LevelCount(argp)
    ensures OwnLevels(argp) <= |ds| && |ds[OwnLevels(argp)..]| == LevelCountAll(argp.children)
    ensures Val(argp, ds) == ValAll(argp.children, ds[OwnLevels(argp)..]) + CountAll(argp.children) * OwnDigit(argp, ds)
    ensures InRange(argp, ds) <==> IsDigit(argp, OwnDigit(argp, ds)) && InRangeAll(argp.children, ds[OwnLevels(argp)..])
    ensures Count(argp) == CountAll(argp.children) * Radix(argp)
    ensures InRange(argp, ds) && argp.argsDoc.None? ==>
              Line(argp, ds) == LineAll(argp.children, ds[OwnLevels(argp)..])
    ensures InRange(argp, ds) && argp.argsDoc.Some? ==>
              Line(argp, ds)
              == [Alternatives(argp.argsDoc.value, 0)[Choice(OwnDigit(argp, ds))]] + LineAll(argp.children, ds[OwnLevels(argp)..])
  {
  }

  lemma CarryOwn(v': int, v: int, c: int, own: int, own': int, radix: int, first: int, middle: int, last: int)
    requires v' + c * middle == v + first && own' + radix * last == own + middle
    ensures (v' + c * own') + (c * radix) * last == (v + c * own) + first
  {
    CarryThrough(v', v, c, own', own, radix, first, middle, last);
  }

  lemma NoChildren(first: bool)
    ensures Advanced([], [], [], first, first) && LineAll([], []) == [] && LevelCountAll([]) == 0
  {
  }

  lemma ChildSlices(children: seq<Argp>, c: nat)
    requires c < |children|
    ensures children[..c + 1] == children[..c] + [children[c]]
    ensures LevelCountAll(children[..c + 1]) == LevelCountAll(children[..c]) + LevelCount(children[c])
    ensures LevelCountAll(children[..c + 1]) <= LevelCountAll(children)
  {
    hide LevelCount, LevelCountAll, CountAll;
    Cut(children, c + 1);
    CutLast(children, c);
    CountsConcat(children[..c + 1], children[c + 1..]);
    CountsConcat(children[..c], [children[c]]);
    LevelsOfOne(children[c]);
  }

  lemma LevelsOfOne(x: Argp)
    ensures LevelCountAll([x]) == LevelCount(x)
  {
    assert [x][1..] == [];
  }

  lemma CutAgain<T>(s: seq<T>, m: nat, n: nat)
    requires m <= n <= |s|
    ensures s[..n] == s[..m] + s[m..n]
  {
  }

  lemma ChildInRange(children: seq<Argp>, c: nat, ds: seq<int>)
    requires c < |children| && |ds| == LevelCountAll(children) && InRangeAll(children, ds)
    ensures var m, k := LevelCountAll(children[..c]), LevelCount(children[c]);
            m + k <= |ds| && InRange(children[c], ds[m..m + k])
  {
    ChildSlices(children, c);
    hide LevelCount, LevelCountAll, InRange, InRangeAll;
    var m, k := LevelCountAll(children[..c]), LevelCount(children[c]);
    Cut(children, c + 1);
    Cut(ds, m + k);
    CutAgain(ds, m, m + k);
    CountsConcat(children[..c + 1], children[c + 1..]);
    ValConcat(children[..c + 1], children[c + 1..], ds[..m + k], ds[m + k..]);
    One(children[c], ds[m..m + k]);
    ValConcat(children[..c], [children[c]], ds[..m], ds[m..m + k]);
  }

  /** Where the loop over the children stands: the levels of the first c are printed and advanced,
      those behind are as at the start. */
  ghost predicate Printed(children: seq<Argp>, c: nat, start: seq<int>, now: seq<int>, base: nat, end: nat,
                          first: bool, advance: bool, line: seq<string>)
  {
    && c <= |children| && |start| == |now| && base <= end <= |now| && end == base + LevelCountAll(children[..c])
    && Advanced(children[..c], start[base..end], now[base..end], first, advance)
    && line == LineAll(children[..c], start[base..end])
    && now[..base] == start[..base] && now[end..] == start[end..]
  }

  lemma PrintedStart(children: seq<Argp>, start: seq<int>, base: nat, first: bool)
    requires base <= |start|
    ensures Printed(children, 0, start, start, base, base, first, first, [])
  {
    NoChildren(first);
    assert children[..0] == [] && start[base..base] == [];
  }

  lemma PrintedStep(children: seq<Argp>, c: nat, start: seq<int>, now: seq<int>, next: seq<int>, base: nat, end: nat,
                    first: bool, middle: bool, last: bool, line: seq<string>)
    requires c < |children| && Printed(children, c, start, now, base, end, first, middle, line)
    requires var to := end + LevelCount(children[c]);
             && |next| == |now| && to <= |now| && next[..end] == now[..end] && next[to..] == now[to..]
             && InRange(children[c], now[end..to]) && InRange(children[c], next[end..to])
             && (FewAlternatives(children[c]) ==>
                   Val(children[c], next[end..to]) + Count(children[c]) * Carry(last)
                   == Val(children[c], now[end..to]) + Carry(middle))
             && (!FewAlternatives(children[c]) ==> !last)
    ensures var to := end + LevelCount(children[c]);
            Printed(children, c + 1, start, next, base, to, first, last, line + Line(children[c], now[end..to]))
  {
    hide LevelCount, LevelCountAll, InRange, Line, LineAll, Val, Count, Advanced;
    var to := end + LevelCount(children[c]);
    ChildSlices(children, c);
    assert start[end..to] == now[end..to] by {
      assert start[end..][..to - end] == now[end..][..to - end];
    }
    assert start[base..to] == start[base..end] + start[end..to];
    assert next[base..to] == next[..end][base..] + next[end..to];
    assert now[base..end] == now[..end][base..];
    AdvanceStep(children[..c], children[c], start[base..end], now[base..end], start[end..to], next[end..to],
                first, middle, last);
    assert next[..base] == next[..end][..base] == now[..end][..base] == now[..base];
    assert next[to..] == now[end..][to - end..] == start[end..][to - end..];
  }

  lemma PrintedInRange(children: seq<Argp>, c: nat, start: seq<int>, now: seq<int>, base: nat, end: nat,
                       first: bool, advance: bool, line: seq<string>)
    requires c < |children| && Printed(children, c, start, now, base, end, first, advance, line)
    requires base + LevelCountAll(children) <= |start|
    requires InRangeAll(children, start[base..base + LevelCountAll(children)])
    ensures end + LevelCount(children[c]) <= |now| && InRange(children[c], now[end..end + LevelCount(children[c])])
  {
    hide LevelCount, LevelCountAll, InRange, InRangeAll, LineAll, Advanced;
    var k := LevelCount(children[c]);
    var ds := start[base..base + LevelCountAll(children)];
    ChildSlices(children, c);
    ChildInRange(children, c, ds);
    assert now[end..end + k] == now[end..][..k] == start[end..][..k] == ds[end - base..end - base + k];
  }

  lemma PrintedEnd(children: seq<Argp>, start: seq<int>, now: seq<int>, base: nat, end: nat,
                   first: bool, advance: bool, line: seq<string>)
    requires Printed(children, |children|, start, now, base, end, first, advance, line)
    ensures end == base + LevelCountAll(children) <= |now| == |start|
    ensures Advanced(children, start[base..end], now[base..end], first, advance)
    ensures AdvancedLine(children, start[base..end], line)
    ensures now[..base] == start[..base] && now[end..] == start[end..]
  {
    assert children[..|children|] == children;
  }

  ghost predicate AdvancedLine(children: seq<Argp>, ds: seq<int>, line: seq<string>) {
    |ds| == LevelCountAll(children) && InRangeAll(children, ds) && line == LineAll(children, ds)
  }

  /** The loop over the children: each is printed and takes over the carry of the one before it. */
  method ChildrenUsage(argp: Argp, levels: array<int>, base: nat, first: bool)
    returns (advance: bool, end: nat, line: seq<string>)
    requires base + LevelCountAll(argp.children) <= levels.Length
    requires InRangeAll(argp.children, levels[base..base + LevelCountAll(argp.children)])
    modifies levels
    ensures end == base + LevelCountAll(argp.children)
    ensures Advanced(argp.children, old(levels[base..base + LevelCountAll(argp.children)]), levels[base..end], first, advance)
    ensures line == LineAll(argp.children, old(levels[base..base + LevelCountAll(argp.children)]))
    ensures levels[..base] == old(levels[..base])
    ensures levels[end..] == old(levels[base + LevelCountAll(argp.children)..])
    decreases argp, 0
  {
    hide LevelCountAll, LevelCount, InRangeAll, InRange, LineAll, Line, Advanced, Printed, Val, Count, FewAlternatives, FewInAll, AdvancedLine;
    ghost var start := levels[..];
    ghost var all := base + LevelCountAll(argp.children);
    assert start[base..all] == levels[base..all];
    advance, end, line := first, base, [];
    var c := 0;
    PrintedStart(argp.children, start, base, first);
    while c < |argp.children|
      invariant c <= |argp.children| && Printed(argp.children, c, start, levels[..], base, end, first, advance, line)
    {
      var x := argp.children[c];
      ghost var now, from := levels[..], end;
      PrintedInRange(argp.children, c, start, now, base, end, first, advance, line);
      assert levels[end..end + LevelCount(x)] == now[end..end + LevelCount(x)];
      var more, part;
      more, end, part := ArgpArgsUsage(x, levels, end, advance);
      ghost var next := levels[..];
      assert next[..from] == levels[..from] && next[end..] == levels[end..] && next[from..end] == levels[from..end];
      PrintedStep(argp.children, c, start, now, next, base, from, first, advance, !more, line);
      line := line + part;
      advance := !more;
      c := c + 1;
    }
    ghost var now := levels[..];
    PrintedEnd(argp.children, start, now, base, end, first, advance, line);
    assert levels[base..end] == now[base..end];
    assert levels[end..] == now[end..];
    AdvancedLineOf(argp.children, start[base..end], line);
  }

  lemma AdvancedLineOf(children: seq<Argp>, ds: seq<int>, line: seq<string>)
    requires AdvancedLine(children, ds, line)
    ensures |ds| == LevelCountAll(children) && InRangeAll(children, ds) && line == LineAll(children, ds)
  {
  }

  lemma AdvancedRange(children: seq<Argp>, ds: seq<int>, ds': seq<int>, first: bool, advance: bool)
    requires Advanced(children, ds, ds', first, advance)
    ensures |ds| == |ds'| == LevelCountAll(children) && InRangeAll(children, ds) && InRangeAll(children, ds')
    ensures FewInAll(children) ==>
              ValAll(children, ds') + CountAll(children) * Carry(advance) == ValAll(children, ds) + Carry(first)
    ensures !FewInAll(children) ==> !advance
  {
  }

  /** argp_args_usage: print the alternatives that the levels choose, and, if asked to advance, move
      the levels on to the next number; `more` is false when the number wrapped around to 0.  An argp
      with more alternatives than its level can count never passes a carry on. */
  method ArgpArgsUsage(argp: Argp, levels: array<int>, lp: nat, first: bool)
    returns (more: bool, end: nat, line: seq<string>)
    requires lp + LevelCount(argp) <= levels.Length
    requires InRange(argp, levels[lp..lp + LevelCount(argp)])
    modifies levels
    ensures end == lp + LevelCount(argp)
    ensures line == Line(argp, old(levels[lp..lp + LevelCount(argp)]))
    ensures InRange(argp, levels[lp..end])
    ensures FewAlternatives(argp) ==>
              Val(argp, levels[lp..end]) + Count(argp) * Carry(!more)
              == Val(argp, old(levels[lp..lp + LevelCount(argp)])) + Carry(first)
    ensures !FewAlternatives(argp) ==> more
    ensures levels[..lp] == old(levels[..lp])
    ensures levels[end..] == old(levels[lp + LevelCount(argp)..])
    decreases argp, 1
  {
    hide LevelCountAll, LevelCount, InRangeAll, InRange, LineAll, Line, ValAll, Val, Count, CountAll, Alternatives, Advanced, FewInAll,
         FewAlternatives;
    ghost var ds := levels[lp..lp + LevelCount(argp)];
    ValOf(argp, ds);
    MultipleRadix(argp);
    var ourLevel, base := lp, lp;
    var multiple := false;
    var nl: nat := 0;
    var doc := "";
    line := [];
    if argp.argsDoc.Some? {
      doc := argp.argsDoc.value;
      var level := 0;
      if '\n' in doc {
        multiple := true;
        level := levels[ourLevel];
        base := base + 1;
      }
      var text;
      text, nl := Select(doc, level);
      line := [text];
    }
    assert levels[base..base + LevelCountAll(argp.children)] == ds[OwnLevels(argp)..];
    var advance, part;
    advance, end, part := ChildrenUsage(argp, levels, base, first);
    line := line + part;
    ghost var middle, own := advance, OwnDigit(argp, ds);
    assert multiple ==> levels[ourLevel] == levels[..base][lp] == own;
    assert levels[..lp] == levels[..base][..lp];
    ghost var was := levels[..];
    if advance && multiple {
      if nl < |doc| {
        levels[ourLevel] := NextByte(levels[ourLevel]);
        advance := false;
      } else if levels[ourLevel] > 0 {
        levels[ourLevel] := 0;
      }
    }
    more := !advance;
    ghost var ds', now := levels[lp..end], levels[..];
    assert now[base..] == was[base..] && now[..lp] == was[..lp];
    assert ds'[OwnLevels(argp)..] == was[base..end] by {
      assert now[base..][..end - base] == was[base..][..end - base];
    }
    assert levels[end..] == was[end..] by {
      assert now[base..][end - base..] == was[base..][end - base..];
    }
    UsageStep(argp, ds, ds', first, middle, advance);
  }

  // A level in front of those of the children.
  lemma UsageStep(argp: Argp, ds: seq<int>, ds': seq<int>, first: bool, middle: bool, last: bool)
    requires |ds| == |ds'| == LevelCount(argp) && InRange(argp, ds)
    requires Advanced(argp.children, ds[OwnLevels(argp)..], ds'[OwnLevels(argp)..], first, middle)
    requires IsDigit(argp, OwnDigit(argp, ds')) && (last ==> middle && Radix(argp) <= BYTE)
    requires Radix(argp) <= BYTE ==> OwnDigit(argp, ds') + Radix(argp) * Carry(last) == OwnDigit(argp, ds) + Carry(middle)
    ensures InRange(argp, ds')
    ensures FewAlternatives(argp) ==> Val(argp, ds') + Count(argp) * Carry(last) == Val(argp, ds) + Carry(first)
    ensures !FewAlternatives(argp) ==> !last
  {
    hide LevelCount, LevelCountAll, InRange, InRangeAll, Val, ValAll, Count, CountAll, Line, LineAll, Advanced, FewInAll;
    ValOf(argp, ds);
    ValOf(argp, ds');
    var k := OwnLevels(argp);
    AdvancedRange(argp.children, ds[k..], ds'[k..], first, middle);
    if FewAlternatives(argp) {
      CarryOwn(ValAll(argp.children, ds'[k..]), ValAll(argp.children, ds[k..]), CountAll(argp.children),
               OwnDigit(argp, ds), OwnDigit(argp, ds'), Radix(argp), Carry(first), Carry(middle), Carry(last));
    }
  }

  /** The usage loop of _help, of which at most `limit` lines are looked at.  It comes to its end
      exactly when no argp has more than 128 alternatives, and then it has printed every combination
      of alternatives exactly once and leaves all levels at zero. */
  method UsageLines(argp: Argp, limit: nat)
    returns (ended: bool, lines: seq<seq<string>>, levelsLeft: seq<int>, ghost combinations: seq<seq<int>>)
    ensures ended <==> FewAlternatives(argp) && Count(argp) <= limit
    ensures |lines| == |combinations| == if ended then Count(argp) else limit
    ensures |levelsLeft| == LevelCount(argp) && (ended ==> AllZero(levelsLeft))
    ensures forall i :: 0 <= i < |lines| ==>
              && |combinations[i]| == LevelCount(argp) && InRange(argp, combinations[i])
              && lines[i] == Line(argp, combinations[i])
    ensures ended ==> forall ds: seq<int> :: |ds| == LevelCount(argp) && InRange(argp, ds) ==> ds in combinations
    ensures FewAlternatives(argp) ==> forall i, j :: 0 <= i < j < |combinations| ==> combinations[i] != combinations[j]
    ensures forall line <- lines :: Choices(Docs(argp), line)
    ensures ended ==> forall line :: Choices(Docs(argp), line) ==> line in lines
  {
    hide LevelCount, InRange, Line, Val, Count, FewAlternatives, Choices, Docs;
    var n := ArgpArgsLevels(argp);
    var levels := new int[n](i => 0);
    lines, combinations := [], [];
    assert levels[0..n] == levels[..];
    ValZero(argp, levels[..]);
    var more := true;
    while more && |lines| < limit
      invariant InRange(argp, levels[..]) && |lines| == |combinations| <= limit
      invariant !FewAlternatives(argp) ==> more
      invariant FewAlternatives(argp) && more ==> Val(argp, levels[..]) == |lines| < Count(argp)
      invariant !more ==> |lines| == Count(argp) && AllZero(levels[..])
      invariant forall i :: 0 <= i < |lines| ==>
                  && |combinations[i]| == n && InRange(argp, combinations[i]) && lines[i] == Line(argp, combinations[i])
                  && (FewAlternatives(argp) ==> Val(argp, combinations[i]) == i)
      invariant forall line <- lines :: Choices(Docs(argp), line)
      decreases limit - |lines|
    {
      ghost var ds := levels[..];
      LineChooses(argp, ds);
      assert levels[0..n] == ds;
      var end, line;
      more, end, line := ArgpArgsUsage(argp, levels, 0, true);
      assert levels[0..n] == levels[..];
      lines, combinations := lines + [line], combinations + [ds];
      if FewAlternatives(argp) {
        ValBound(argp, levels[..]);
        if !more {
          Zero(argp, levels[..]);
        }
      }
    }
    ended := !more;
    levelsLeft := levels[..];
    if ended {
      forall ds: seq<int> | |ds| == LevelCount(argp) && InRange(argp, ds) ensures ds in combinations {
        ValBound(argp, ds);
        ValInjective(argp, ds, combinations[Val(argp, ds)]);
      }
      forall line | Choices(Docs(argp), line) ensures line in lines {
        var ds := ChoiceHasLevels(argp, line);
        assert exists i :: 0 <= i < |combinations| && combinations[i] == ds;
      }
    }
  }

  // ---------------------------------------------------------------- What the lines are

  /** The text stands in doc at i, from a newline or the start up to a newline or the end. */
  predicate PieceAt(doc: string, i: nat, text: string) {
    && i + |text| <= |doc| && doc[i..i + |text|] == text && '\n' !in text
    && (i == 0 || doc[i - 1] == '\n') && (i + |text| == |doc| || doc[i + |text|] == '\n')
  }

  // There is such a place from `from` on.
  predicate PieceFrom(doc: string, from: nat, text: string) {
    exists i: nat :: from <= i <= |doc| && PieceAt(doc, i, text)
  }

  predicate Piece(doc: string, text: string) {
    PieceFrom(doc, 0, text)
  }

  lemma PieceChars(doc: string, i: nat, text: string)
    requires PieceAt(doc, i, text)
    ensures i + |text| <= |doc| && forall k :: i <= k < i + |text| ==> doc[k] == text[k - i] && doc[k] != '\n'
  {
    assert forall k :: i <= k < i + |text| ==> doc[i..i + |text|][k - i] == doc[k];
  }

  lemma BeforeNewLine(doc: string, from: nat)
    requires from <= |doc|
    ensures forall k :: from <= k < NewLine(doc, from) ==> doc[k] != '\n'
  {
    var nl := NewLine(doc, from);
    assert forall k :: from <= k < nl ==> doc[from..nl][k - from] == doc[k];
  }

  lemma FirstPiece(doc: string, from: nat, text: string)
    requires from <= |doc| && (from == 0 || doc[from - 1] == '\n')
    ensures PieceAt(doc, from, text) <==> text == doc[from..NewLine(doc, from)]
  {
    BeforeNewLine(doc, from);
    if PieceAt(doc, from, text) {
      PieceChars(doc, from, text);
    }
  }

  lemma PieceStep(doc: string, from: nat, text: string)
    requires from <= |doc| && (from == 0 || doc[from - 1] == '\n')
    ensures var nl := NewLine(doc, from);
            PieceFrom(doc, from, text) <==> text == doc[from..nl] || (nl < |doc| && PieceFrom(doc, nl + 1, text))
  {
    hide PieceAt;
    FirstPiece(doc, from, text);
    BeforeNewLine(doc, from);
    if i: nat :| from < i <= |doc| && PieceAt(doc, i, text) {
      AtNewLine(doc, i, text);
    }
  }

  lemma AlternativesStep(doc: string, from: nat, text: string)
    requires from <= |doc|
    ensures var nl := NewLine(doc, from);
            text in Alternatives(doc, from) <==> text == doc[from..nl] || (nl < |doc| && text in Alternatives(doc, nl + 1))
  {
  }

  lemma {:induction false} PiecesFrom(doc: string, from: nat, text: string)
    requires from <= |doc| && (from == 0 || doc[from - 1] == '\n')
    ensures text in Alternatives(doc, from) <==> PieceFrom(doc, from, text)
    decreases |doc| - from
  {
    hide PieceAt, PieceFrom, Alternatives;
    PieceStep(doc, from, text);
    AlternativesStep(doc, from, text);
    if NewLine(doc, from) < |doc| {
      PiecesFrom(doc, NewLine(doc, from) + 1, text);
    }
  }

  lemma AtNewLine(doc: string, i: nat, text: string)
    requires PieceAt(doc, i, text) && i > 0
    ensures i <= |doc| && doc[i - 1] == '\n'
  {
  }

  /** The alternatives of a text are its pieces between newlines. */
  lemma AlternativesArePieces(doc: string)
    ensures forall text :: text in Alternatives(doc, 0) <==> Piece(doc, text)
  {
    forall text
      ensures text in Alternatives(doc, 0) <==> Piece(doc, text)
    {
      PiecesFrom(doc, 0, text);
    }
  }

  /** The argument documentation of all argps of a tree that have one, in preorder. */
  function Docs(argp: Argp): seq<string>
    decreases argp, 1
  {
    (match argp.argsDoc case None => [] case Some(doc) => [doc]) + DocsOfAll(argp.children)
  }

  function DocsOfAll(children: seq<Argp>): seq<string>
    decreases children, 0
  {
    if children == [] then [] else Docs(children[0]) + DocsOfAll(children[1..])
  }

  /** One piece of each text. */
  predicate Choices(docs: seq<string>, line: seq<string>) {
    |line| == |docs| && forall i :: 0 <= i < |docs| ==> Piece(docs[i], line[i])
  }

  lemma ChoicesJoined(a: seq<string>, x: seq<string>, b: seq<string>, y: seq<string>)
    requires Choices(a, x) && Choices(b, y)
    ensures Choices(a + b, x + y)
  {
  }

  lemma ChoicesSplit(a: seq<string>, b: seq<string>, line: seq<string>)
    requires Choices(a + b, line)
    ensures |a| <= |line| && Choices(a, line[..|a|]) && Choices(b, line[|a|..]) && line == line[..|a|] + line[|a|..]
  {
    forall i | 0 <= i < |a|
      ensures Piece(a[i], line[..|a|][i])
    {
      assert (a + b)[i] == a[i];
    }
    forall i | 0 <= i < |b|
      ensures Piece(b[i], line[|a|..][i])
    {
      assert (a + b)[|a| + i] == b[i];
    }
  }

  lemma {:induction false} LineChooses(argp: Argp, ds: seq<int>)
    requires |ds| == LevelCount(argp) && InRange(argp, ds)
    ensures Choices(Docs(argp), Line(argp, ds))
    decreases argp, 1
  {
    hide Piece, Alternatives, Choices;
    var rest := ds[OwnLevels(argp)..];
    LineAllChooses(argp.children, rest);
    if argp.argsDoc.Some? {
      var text := Alternatives(argp.argsDoc.value, 0)[Choice(OwnDigit(argp, ds))];
      AlternativesArePieces(argp.argsDoc.value);
      OneChoice(argp.argsDoc.value, text);
      ChoicesJoined([argp.argsDoc.value], [text], DocsOfAll(argp.children), LineAll(argp.children, rest));
    } else {
      assert [] + LineAll(argp.children, rest) == LineAll(argp.children, rest);
      assert [] + DocsOfAll(argp.children) == DocsOfAll(argp.children);
    }
  }

  lemma OneChoice(doc: string, text: string)
    ensures Piece(doc, text) <==> Choices([doc], [text])
    ensures Choices([], [])
  {
    assert [doc][0] == doc && [text][0] == text;
  }

  lemma {:induction false} LineAllChooses(children: seq<Argp>, ds: seq<int>)
    requires |ds| == LevelCountAll(children) && InRangeAll(children, ds)
    ensures Choices(DocsOfAll(children), LineAll(children, ds))
    decreases children, 0
  {
    hide Piece;
    if children != [] {
      var n := LevelCount(children[0]);
      LineChooses(children[0], ds[..n]);
      LineAllChooses(children[1..], ds[n..]);
      ChoicesJoined(Docs(children[0]), Line(children[0], ds[..n]), DocsOfAll(children[1..]), LineAll(children[1..], ds[n..]));
    }
  }

  /** Where the levels can count the alternatives, some levels select a given choice. */
  lemma {:induction false} ChoiceHasLevels(argp: Argp, line: seq<string>) returns (ds: seq<int>)
    requires FewAlternatives(argp) && Choices(Docs(argp), line)
    ensures |ds| == LevelCount(argp) && InRange(argp, ds) && Line(argp, ds) == line
    decreases argp, 1
  {
    hide Piece, Alternatives, Choices;
    var n := if argp.argsDoc.Some? then 1 else 0;
    var own := if argp.argsDoc.Some? then [argp.argsDoc.value] else [];
    assert Docs(argp) == own + DocsOfAll(argp.children);
    ChoicesSplit(own, DocsOfAll(argp.children), line);
    var rest := ChoiceHasLevelsAll(argp.children, line[n..]);
    MultipleRadix(argp);
    if argp.argsDoc.None? {
      ds := rest;
      assert ds[0..] == ds && line[0..] == line;
    } else {
      var doc := argp.argsDoc.value;
      ChoiceOfOne(doc, line);
      var d :| 0 <= d < Radix(argp) && Alternatives(doc, 0)[d] == line[0];
      ds := (if Multiple(argp) then [d] else []) + rest;
      assert ds[OwnLevels(argp)..] == rest && OwnDigit(argp, ds) == d;
      assert line == [line[0]] + line[1..];
    }
  }

  lemma ChoiceOfOne(doc: string, line: seq<string>)
    requires |line| >= 1 && Choices([doc], line[..1])
    ensures line[0] in Alternatives(doc, 0)
  {
    assert line[..1] == [line[0]];
    OneChoice(doc, line[0]);
    AlternativesArePieces(doc);
  }

  lemma {:induction false} ChoiceHasLevelsAll(children: seq<Argp>, line: seq<string>) returns (ds: seq<int>)
    requires FewInAll(children) && Choices(DocsOfAll(children), line)
    ensures |ds| == LevelCountAll(children) && InRangeAll(children, ds) && LineAll(children, ds) == line
    decreases children, 0
  {
    hide Piece;
    if children == [] {
      ds := [];
    } else {
      var k := |Docs(children[0])|;
      ChoicesSplit(Docs(children[0]), DocsOfAll(children[1..]), line);
      var first := ChoiceHasLevels(children[0], line[..k]);
      var rest := ChoiceHasLevelsAll(children[1..], line[k..]);
      ds := first + rest;
      assert ds[..|first|] == first && ds[|first|..] == rest;
    }
  }

  // The alternatives of a text of newlines only.
  lemma {:induction false} NewLinesOnly(doc: string, from: nat)
    requires from <= |doc| && forall i :: 0 <= i < |doc| ==> doc[i] == '\n'
    ensures |Alternatives(doc, from)| == |doc| - from + 1
    decreases |doc| - from
  {
    if from < |doc| {
      NewLinesOnly(doc, from + 1);
    }
  }

  /** 129 alternatives or more are too many. */
  lemma TooManyAlternatives(argp: Argp, doc: string)
    requires argp.argsDoc == Some(doc) && |doc| >= 128 && forall i :: 0 <= i < |doc| ==> doc[i] == '\n'
    ensures !FewAlternatives(argp)
  {
    NewLinesOnly(doc, 0);
  }

  /** Only the levels that are all zero stand for 0. */
  lemma Zero(argp: Argp, ds: seq<int>)
    requires |ds| == LevelCount(argp) && InRange(argp, ds) && FewAlternatives(argp) && Val(argp, ds) == 0
    ensures AllZero(ds)
  {
    var zeros := seq(|ds|, i => 0);
    ValZero(argp, zeros);
    ValInjective(argp, ds, zeros);
  }
}
