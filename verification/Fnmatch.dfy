/** The backtracking glob matcher of lib/fnmatch_loop.c, single-byte ASCII, against a
    declarative reading of patterns: the string is cut into pieces, one per pattern element. */
module Fnmatch {

  // A C string: the terminator is not part of it, every character is ASCII.
  type CString = s: string | forall i :: 0 <= i < |s| ==> 0 < s[i] as int < 128

  /** The flags that stay free; `posix` says that POSIXLY_CORRECT is set in the environment. */
  datatype Flags = Flags(noEscape: bool, fileName: bool, leadingDir: bool, caseFold: bool, posix: bool)

  function Fold(fl: Flags, c: char): char {
    if fl.caseFold && 'A' <= c <= 'Z' then (c as int + 32) as char else c
  }

  /** Reading a C string at an index: the terminator is NUL. */
  function At(s: string, i: nat): char {
    if i < |s| then s[i] else '\0'
  }

  // ---------------------------------------------------------------- Bracket expressions

  datatype Item = Single(c: char) | Range(lo: char, hi: char)

  predicate ItemHas(item: Item, c: char) {
    match item
    case Single(d) => d == c
    case Range(lo, hi) => lo <= c <= hi
  }

  predicate Covers(items: seq<Item>, c: char) {
    exists i :: 0 <= i < |items| && ItemHas(items[i], c)
  }

  // The opening of [:class:], [=equivalence=] or [.symbol.] (not modelled) at i.
  predicate OpensClass(pat: string, i: nat) {
    At(pat, i) == '[' && At(pat, i + 1) in {':', '=', '.'}
  }

  predicate IsEscape(fl: Flags, c: char) {
    !fl.noEscape && c == '\\'
  }

  datatype ItemScan = Got(item: Item, next: nat) | NoItem(why: Scan)

  /** How a bracket expression ends: closed by `]`, by the end of the pattern, in the middle of
      an escape or of a range, or at a construct outside the model. */
  datatype Scan = Closed(items: seq<Item>, end: nat) | Open(items: seq<Item>) | Broken | Class

  /** The member of a bracket expression that starts at i. */
  function ItemAt(fl: Flags, pat: CString, i: nat): (r: ItemScan)
    requires i <= |pat|
    ensures r.Got? ==> i < r.next <= |pat|
  {
    var c := At(pat, i);
    if IsEscape(fl, c) then
      if At(pat, i + 1) == '\0' then NoItem(Broken) else RangeAt(fl, pat, Fold(fl, At(pat, i + 1)), i + 2)
    else if OpensClass(pat, i) then NoItem(Class)
    else if c == '\0' then NoItem(Open([]))
    else RangeAt(fl, pat, Fold(fl, c), i + 1)
  }

  /** The member whose first character is c and ends before p: c alone or a range. */
  function RangeAt(fl: Flags, pat: CString, c: char, p: nat): (r: ItemScan)
    requires p <= |pat|
    ensures r.Got? ==> p <= r.next <= |pat|
  {
    if At(pat, p) == '-' && At(pat, p + 1) != ']' then
      if OpensClass(pat, p + 1) then NoItem(Class)
      else
        var q := if IsEscape(fl, At(pat, p + 1)) then p + 2 else p + 1;
        if At(pat, q) == '\0' then NoItem(Broken) else Got(Range(c, At(pat, q)), q + 1)
    else Got(Single(c), p)
  }

  /** The members from i on.  The first member may be `]` itself. */
  function ScanItems(fl: Flags, pat: CString, i: nat): (r: Scan)
    requires i <= |pat|
    ensures r.Closed? ==> i < r.end <= |pat|
    decreases |pat| - i
  {
    match ItemAt(fl, pat, i)
    case NoItem(why) => (match why case Closed(_, _) => Open([]) case _ => why)
    case Got(item, next) =>
      if At(pat, next) == ']' then Closed([item], next + 1)
      else
        match ScanItems(fl, pat, next)
        case Closed(items, end) => Closed([item] + items, end)
        case Open(items) => Open([item] + items)
        case other => other
  }

  /** What follows a member that ended at k: the bracket closes, or more members come. */
  function AfterItem(fl: Flags, pat: CString, k: nat): Scan
    requires k <= |pat|
  {
    if At(pat, k) == ']' then Closed([], k + 1) else ScanItems(fl, pat, k)
  }

  // ---------------------------------------------------------------- Pattern elements

  /** `Never` matches nothing: a dangling escape, a bracket broken off in an escape or in a range,
      or an unterminated bracket that lists `[` itself. */
  datatype Elem = Lit(c: char) | One | Many | Set(negated: bool, items: seq<Item>) | Never | ClassBracket

  predicate Negates(fl: Flags, c: char) {
    c == '!' || (!fl.posix && c == '^')
  }

  /** The element that starts at i, and the index after it. */
  function ElemAt(fl: Flags, pat: CString, i: nat): (r: (Elem, nat))
    requires i < |pat|
    ensures i < r.1 <= |pat|
  {
    var c := pat[i];
    if c == '?' then (One, i + 1)
    else if c == '*' then (Many, i + 1)
    else if IsEscape(fl, c) then
      if i + 1 == |pat| then (Never, |pat|) else (Lit(Fold(fl, pat[i + 1])), i + 2)
    else if c == '[' then
      var neg := Negates(fl, At(pat, i + 1));
      match ScanItems(fl, pat, if neg then i + 2 else i + 1)
      case Closed(items, end) => (Set(neg, items), end)
      case Open(items) => (if Covers(items, '[') then Never else Lit('['), i + 1)
      case Broken => (Never, |pat|)
      case Class => (ClassBracket, |pat|)
    else (Lit(Fold(fl, c)), i + 1)
  }

  function Elems(fl: Flags, pat: CString, i: nat): seq<Elem>
    requires i <= |pat|
    decreases |pat| - i
  {
    if i == |pat| then []
    else var (e, next) := ElemAt(fl, pat, i); [e] + Elems(fl, pat, next)
  }

  // ---------------------------------------------------------------- The meaning of a pattern

  predicate ElemHas(fl: Flags, e: Elem, c: char) {
    match e
    case Lit(d) => Fold(fl, c) == d
    case One => !(fl.fileName && c == '/')
    case Set(neg, items) => !(fl.fileName && c == '/') && (Covers(items, Fold(fl, c)) != neg)
    case _ => false
  }

  predicate PieceOk(fl: Flags, e: Elem, piece: string) {
    if e.Many? then fl.fileName ==> '/' !in piece
    else |piece| == 1 && ElemHas(fl, e, piece[0])
  }

  function Flatten(pieces: seq<string>): string {
    if pieces == [] then "" else pieces[0] + Flatten(pieces[1..])
  }

  // With FNM_LEADING_DIR a rest that starts with a slash is ignored.
  predicate TailOk(fl: Flags, tail: string) {
    tail == "" || (fl.leadingDir && tail[0] == '/')
  }

  ghost predicate IsSplit(fl: Flags, es: seq<Elem>, s: string, pieces: seq<string>, tail: string) {
    && |pieces| == |es|
    && s == Flatten(pieces) + tail
    && TailOk(fl, tail)
    && forall i :: 0 <= i < |es| ==> PieceOk(fl, es[i], pieces[i])
  }

  /** The declarative relation: s can be cut into pieces matched element by element. */
  ghost predicate Splits(fl: Flags, es: seq<Elem>, s: string) {
    exists pieces: seq<string>, tail: string :: IsSplit(fl, es, s, pieces, tail)
  }

  /** The same relation by recursion, from position n of s on. */
  predicate Run(fl: Flags, es: seq<Elem>, s: string, n: nat)
    requires n <= |s|
    decreases |es|, |s| - n
  {
    if es == [] then n == |s| || (fl.leadingDir && s[n] == '/')
    else if es[0].Many? then
      Run(fl, es[1..], s, n) || (n < |s| && !(fl.fileName && s[n] == '/') && Run(fl, es, s, n + 1))
    else n < |s| && ElemHas(fl, es[0], s[n]) && Run(fl, es[1..], s, n + 1)
  }

  lemma AddPiece(fl: Flags, es: seq<Elem>, s: string, first: string, pieces: seq<string>, tail: string)
    requires es != [] && PieceOk(fl, es[0], first) && IsSplit(fl, es[1..], s, pieces, tail)
    ensures IsSplit(fl, es, first + s, [first] + pieces, tail)
  {
    assert ([first] + pieces)[1..] == pieces;
    assert first + (Flatten(pieces) + tail) == (first + Flatten(pieces)) + tail;
    forall i | 0 <= i < |es| ensures PieceOk(fl, es[i], ([first] + pieces)[i]) {
      if i > 0 {
        assert es[1..][i - 1] == es[i];
      }
    }
  }

  lemma LengthenPiece(fl: Flags, es: seq<Elem>, s: string, c: char, pieces: seq<string>, tail: string)
    requires es != [] && es[0].Many? && !(fl.fileName && c == '/') && IsSplit(fl, es, s, pieces, tail)
    ensures |pieces| > 0 && IsSplit(fl, es, [c] + s, [[c] + pieces[0]] + pieces[1..], tail)
  {
    var longer := [[c] + pieces[0]] + pieces[1..];
    assert longer[1..] == pieces[1..];
    assert Flatten(longer) + tail == [c] + (Flatten(pieces) + tail);
    forall i | 0 <= i < |es| ensures PieceOk(fl, es[i], longer[i]) {
      assert PieceOk(fl, es[i], pieces[i]);
    }
  }

  lemma {:induction false} RunSplits(fl: Flags, es: seq<Elem>, s: string, n: nat)
    requires n <= |s| && Run(fl, es, s, n)
    ensures Splits(fl, es, s[n..])
    decreases |es|, |s| - n
  {
    hide IsSplit;
    if es == [] {
      NoPieces(fl, s[n..]);
    } else if es[0].Many? && !Run(fl, es[1..], s, n) {
      RunSplits(fl, es, s, n + 1);
      var pieces, tail :| IsSplit(fl, es, s[n + 1..], pieces, tail);
      LengthenPiece(fl, es, s[n + 1..], s[n], pieces, tail);
      assert s[n..] == [s[n]] + s[n + 1..];
      assert IsSplit(fl, es, s[n..], [[s[n]] + pieces[0]] + pieces[1..], tail);
    } else {
      var first := if es[0].Many? then "" else [s[n]];
      RunSplits(fl, es[1..], s, n + |first|);
      var pieces, tail :| IsSplit(fl, es[1..], s[n + |first|..], pieces, tail);
      AddPiece(fl, es, s[n + |first|..], first, pieces, tail);
      assert s[n..] == first + s[n + |first|..];
      assert IsSplit(fl, es, s[n..], [first] + pieces, tail);
    }
  }

  lemma NoPieces(fl: Flags, s: string)
    ensures TailOk(fl, s) ==> IsSplit(fl, [], s, [], s)
  {
  }

  lemma DropPiece(fl: Flags, es: seq<Elem>, s: string, pieces: seq<string>, tail: string)
    requires es != [] && IsSplit(fl, es, s, pieces, tail)
    ensures |pieces| > 0 && |pieces[0]| <= |s| && pieces[0] == s[..|pieces[0]|] && PieceOk(fl, es[0], pieces[0])
    ensures IsSplit(fl, es[1..], s[|pieces[0]|..], pieces[1..], tail)
  {
    assert s == pieces[0] + (Flatten(pieces[1..]) + tail);
  }

  lemma ShortenPiece(fl: Flags, es: seq<Elem>, s: string, pieces: seq<string>, tail: string)
    requires es != [] && IsSplit(fl, es, s, pieces, tail) && es[0].Many? && pieces[0] != ""
    ensures IsSplit(fl, es, s[1..], [pieces[0][1..]] + pieces[1..], tail)
  {
    var shorter := [pieces[0][1..]] + pieces[1..];
    assert shorter[1..] == pieces[1..];
    assert s == pieces[0] + (Flatten(pieces[1..]) + tail);
    assert s[1..] == pieces[0][1..] + (Flatten(pieces[1..]) + tail);
    forall i | 0 <= i < |es| ensures PieceOk(fl, es[i], shorter[i]) {
      assert PieceOk(fl, es[i], pieces[i]);
    }
  }

  lemma {:induction false} SplitsRun(fl: Flags, es: seq<Elem>, s: string, n: nat, pieces: seq<string>, tail: string)
    requires n <= |s| && IsSplit(fl, es, s[n..], pieces, tail)
    ensures Run(fl, es, s, n)
    decreases |es|, |s| - n
  {
    if es == [] {
      assert s[n..] == tail;
    } else {
      hide IsSplit;
      DropPiece(fl, es, s[n..], pieces, tail);
      var k := |pieces[0]|;
      if es[0].Many? && k > 0 {
        ShortenPiece(fl, es, s[n..], pieces, tail);
        assert s[n..][1..] == s[n + 1..];
        assert s[n] == s[n..][0] == pieces[0][0];
        SplitsRun(fl, es, s, n + 1, [pieces[0][1..]] + pieces[1..], tail);
      } else {
        assert s[n..][k..] == s[n + k..];
        assert k == 1 ==> s[n] == s[n..][0] == pieces[0][0];
        SplitsRun(fl, es[1..], s, n + k, pieces[1..], tail);
      }
    }
  }

  lemma RunIffSplits(fl: Flags, es: seq<Elem>, s: string)
    ensures Run(fl, es, s, 0) <==> Splits(fl, es, s)
  {
    assert s[0..] == s;
    if Run(fl, es, s, 0) {
      RunSplits(fl, es, s, 0);
    }
    if Splits(fl, es, s) {
      var pieces, tail :| IsSplit(fl, es, s, pieces, tail);
      SplitsRun(fl, es, s, 0, pieces, tail);
    }
  }

  // ---------------------------------------------------------------- The two bracket scanners agree

  /** The skip loop from k on: the index after the closing `]`; one past the pattern's terminator
      when there is no such `]`, and one more when a construct outside the model is met. */
  function SkipEnd(fl: Flags, pat: CString, k: nat): (r: nat)
    requires k <= |pat|
    ensures k <= r <= |pat| + 2
    decreases |pat| - k
  {
    if k == |pat| then |pat| + 1
    else if IsEscape(fl, pat[k]) then
      if k + 1 == |pat| then |pat| + 1 else SkipEnd(fl, pat, k + 2)
    else if OpensClass(pat, k) then |pat| + 2
    else if pat[k] == ']' then k + 1
    else SkipEnd(fl, pat, k + 1)
  }

  /** A range is passed by the skip loop without stopping. */
  lemma SkipPastRange(fl: Flags, pat: CString, c: char, p: nat)
    requires p <= |pat|
    ensures match RangeAt(fl, pat, c, p)
            case Got(_, next) => SkipEnd(fl, pat, p) == SkipEnd(fl, pat, next)
            case NoItem(why) => why.Class? || (why.Broken? && SkipEnd(fl, pat, p) == |pat| + 1)
  {
    if At(pat, p) == '-' {
      assert SkipEnd(fl, pat, p) == SkipEnd(fl, pat, p + 1);
    }
  }

  /** A member of the matching loop is passed by the skip loop without stopping. */
  lemma SkipPastItem(fl: Flags, pat: CString, i: nat)
    requires i <= |pat| && At(pat, i) != ']'
    ensures match ItemAt(fl, pat, i)
            case Got(_, next) => SkipEnd(fl, pat, i) == SkipEnd(fl, pat, next)
            case NoItem(why) => why.Class? || SkipEnd(fl, pat, i) == |pat| + 1
  {
    var c := At(pat, i);
    if IsEscape(fl, c) {
      if i + 1 < |pat| {
        SkipPastRange(fl, pat, Fold(fl, pat[i + 1]), i + 2);
      }
    } else if i < |pat| {
      SkipPastRange(fl, pat, Fold(fl, c), i + 1);
    }
  }

  /** After a member ending at k the matching loop and the skip loop stop at the same `]`. */
  lemma {:induction false} ScannersAgree(fl: Flags, pat: CString, k: nat)
    requires k <= |pat|
    ensures match AfterItem(fl, pat, k)
            case Closed(_, end) => SkipEnd(fl, pat, k) == end
            case Class => true
            case _ => SkipEnd(fl, pat, k) == |pat| + 1
    decreases |pat| - k
  {
    if At(pat, k) != ']' {
      SkipPastItem(fl, pat, k);
      match ItemAt(fl, pat, k)
      case Got(_, next) => ScannersAgree(fl, pat, next);
      case NoItem(_) =>
    }
  }

  // ---------------------------------------------------------------- The matcher

  /** The skip loop: run once a member has matched, p just after it. */
  method SkipBracket(fl: Flags, pat: CString, p0: nat) returns (p: nat)
    requires p0 <= |pat| && SkipEnd(fl, pat, p0) <= |pat| + 1
    ensures p == SkipEnd(fl, pat, p0)
  {
    p := p0;
    var c := ' ';
    while c != ']'
      invariant p <= |pat|
      invariant if c == ']' then p == SkipEnd(fl, pat, p0) else SkipEnd(fl, pat, p) == SkipEnd(fl, pat, p0)
      decreases |pat| - p, c != ']'
    {
      c := At(pat, p);
      if c == '\0' {
        return |pat| + 1;
      }
      if IsEscape(fl, c) {
        if p + 1 == |pat| {
          return |pat| + 1;
        }
        p := p + 2;
      } else {
        assert !OpensClass(pat, p);
        p := p + 1;
      }
    }
  }

  datatype BracketResult = NoMatch | Matched(p: nat) | Literal

  datatype Verdict = Hit(end: nat) | Miss(end: nat) | Unclosed | Bad

  /** The matching loop from the member at i on: the first member that has fn decides, and the
      skip loop finds the end. */
  function Decide(fl: Flags, pat: CString, i: nat, fn: char): Verdict
    requires i <= |pat|
    decreases |pat| - i
  {
    match ItemAt(fl, pat, i)
    case NoItem(why) => if why.Open? then Unclosed else Bad
    case Got(item, next) =>
      if ItemHas(item, fn) then Hit(SkipEnd(fl, pat, next))
      else if At(pat, next) == ']' then Miss(next + 1)
      else Decide(fl, pat, next, fn)
  }

  function Result(neg: bool, v: Verdict, length: nat): BracketResult {
    match v
    case Hit(end) => if end <= length && !neg then Matched(end) else NoMatch
    case Miss(end) => if neg then Matched(end) else NoMatch
    case Unclosed => Literal
    case Bad => NoMatch
  }

  lemma PrependCovers(item: Item, items: seq<Item>, fn: char)
    ensures Covers([item] + items, fn) <==> ItemHas(item, fn) || Covers(items, fn)
  {
    if ItemHas(item, fn) {
      assert ItemHas(([item] + items)[0], fn);
    }
    if Covers(items, fn) {
      var i :| 0 <= i < |items| && ItemHas(items[i], fn);
      assert ItemHas(([item] + items)[i + 1], fn);
    }
  }

  /** The two-loop decision is set membership over the whole bracket. */
  lemma {:induction false} DecideIsMembership(fl: Flags, pat: CString, i: nat, fn: char)
    requires i <= |pat| && !ScanItems(fl, pat, i).Class?
    ensures match ScanItems(fl, pat, i)
            case Closed(items, end) => Decide(fl, pat, i, fn) == if Covers(items, fn) then Hit(end) else Miss(end)
            case Open(items) => Decide(fl, pat, i, fn) == if Covers(items, fn) then Hit(|pat| + 1) else Unclosed
            case _ => Decide(fl, pat, i, fn) in {Bad, Hit(|pat| + 1)}
    decreases |pat| - i
  {
    match ItemAt(fl, pat, i)
    case NoItem(_) =>
    case Got(item, next) =>
      ScannersAgree(fl, pat, next);
      if At(pat, next) == ']' {
        PrependCovers(item, [], fn);
        assert [item] + [] == [item];
      } else {
        DecideIsMembership(fl, pat, next, fn);
        match ScanItems(fl, pat, next)
        case Closed(items, _) => PrependCovers(item, items, fn);
        case Open(items) => PrependCovers(item, items, fn);
        case _ =>
      }
  }

  /** The member at i starts with c, and a range's dash, if any, is at p. */
  lemma MemberStart(fl: Flags, pat: CString, i: nat, c: char, p: nat, fn: char)
    requires i <= |pat| && p <= |pat| && !ScanItems(fl, pat, i).Class?
    requires ItemAt(fl, pat, i) == RangeAt(fl, pat, c, p)
    ensures
      if At(pat, p) == '-' && At(pat, p + 1) != ']' then
        var q := if IsEscape(fl, At(pat, p + 1)) then p + 2 else p + 1;
        if At(pat, q) == '\0' then
          && Decide(fl, pat, i, fn) == Bad
          && (At(pat, p + 1) == '\0' ==> SkipEnd(fl, pat, p) == |pat| + 1)
        else MemberDone(fl, pat, i, Range(c, At(pat, q)), q + 1, fn)
      else MemberDone(fl, pat, i, Single(c), p, fn)
  {
    if At(pat, p) == '-' && At(pat, p + 1) == '\0' {
      assert SkipEnd(fl, pat, p) == SkipEnd(fl, pat, p + 1);
    }
    if ItemAt(fl, pat, i).Got? {
      ScannersAgree(fl, pat, ItemAt(fl, pat, i).next);
    }
  }

  // What the member at i, which ends before next, means for the rest of the decision.
  ghost predicate MemberDone(fl: Flags, pat: CString, i: nat, item: Item, next: nat, fn: char)
    requires i <= |pat|
  {
    && next <= |pat|
    && if ItemHas(item, fn) then
         SkipEnd(fl, pat, next) <= |pat| + 1 && Decide(fl, pat, i, fn) == Hit(SkipEnd(fl, pat, next))
       else if At(pat, next) == ']' then Decide(fl, pat, i, fn) == Miss(next + 1)
       else Decide(fl, pat, i, fn) == Decide(fl, pat, next, fn) && !ScanItems(fl, pat, next).Class?
  }

  lemma MemberMissing(fl: Flags, pat: CString, i: nat, fn: char)
    requires i <= |pat| && !ScanItems(fl, pat, i).Class?
    ensures !IsEscape(fl, At(pat, i)) ==> !OpensClass(pat, i)
    ensures At(pat, i) == '\0' ==> Decide(fl, pat, i, fn) == Unclosed
    ensures IsEscape(fl, At(pat, i)) && At(pat, i + 1) == '\0' ==> Decide(fl, pat, i, fn) == Bad
  {
  }

  /** The matching loop and the skip loop of a bracket whose members start at start. */
  method MatchMembers(fl: Flags, pat: CString, start: nat, neg: bool, fn: char) returns (r: BracketResult)
    requires start <= |pat| && !ScanItems(fl, pat, start).Class?
    ensures r == Result(neg, Decide(fl, pat, start, fn), |pat|)
  {
    hide Decide, ScanItems, SkipEnd, Covers, RangeAt;
    ghost var verdict := Decide(fl, pat, start, fn);
    var matched := false;
    var p := start;
    var c := At(pat, p);
    p := p + 1;
    while true
      invariant start < p <= |pat| + 1 && c == At(pat, p - 1)
      invariant !ScanItems(fl, pat, p - 1).Class?
      invariant Decide(fl, pat, p - 1, fn) == verdict
      decreases |pat| + 1 - p
    {
      ghost var i := p - 1;
      MemberMissing(fl, pat, i, fn);
      if IsEscape(fl, c) {
        if At(pat, p) == '\0' {
          return NoMatch;
        }
        c := Fold(fl, At(pat, p));
        p := p + 1;
      } else if c == '\0' {
        return Literal;
      } else {
        c := Fold(fl, c);
      }
      assert ItemAt(fl, pat, i) == RangeAt(fl, pat, c, p);
      var isRange := At(pat, p) == '-' && At(pat, p + 1) != '\0' && At(pat, p + 1) != ']';
      MemberStart(fl, pat, i, c, p, fn);
      if !isRange && c == fn {
        matched := true;
        break;
      }
      var cold := c;
      c := At(pat, p);
      p := p + 1;
      if c == '-' && At(pat, p) != ']' {
        var cend := At(pat, p);
        p := p + 1;
        if IsEscape(fl, cend) {
          cend := At(pat, p);
          p := p + 1;
        }
        if cend == '\0' {
          return NoMatch;
        }
        if cold <= fn <= cend {
          matched := true;
          break;
        }
        c := At(pat, p);
        p := p + 1;
      }
      if c == ']' {
        break;
      }
    }
    if matched {
      p := SkipBracket(fl, pat, p);
      if p == |pat| + 1 || neg {
        return NoMatch;
      }
    } else if !neg {
      return NoMatch;
    }
    r := Matched(p);
  }

  /** What the bracket whose members start at p, or after a negation at p, decides about ch. */
  function BracketMeaning(fl: Flags, pat: CString, p: nat, ch: char): BracketResult
    requires p <= |pat|
  {
    var neg := Negates(fl, At(pat, p));
    match ScanItems(fl, pat, if neg then p + 1 else p)
    case Closed(items, end) => if Covers(items, Fold(fl, ch)) != neg then Matched(end) else NoMatch
    case Open(items) => if Covers(items, Fold(fl, ch)) then NoMatch else Literal
    case _ => NoMatch
  }

  /** The bracket case of the matcher: p is after the `[`. */
  method MatchBracket(fl: Flags, pat: CString, p: nat, ch: char) returns (r: BracketResult)
    requires p <= |pat|
    requires !ScanItems(fl, pat, if Negates(fl, At(pat, p)) then p + 1 else p).Class?
    ensures r == BracketMeaning(fl, pat, p, ch)
  {
    var neg := Negates(fl, At(pat, p));
    var start := if neg then p + 1 else p;
    DecideIsMembership(fl, pat, start, Fold(fl, ch));
    r := MatchMembers(fl, pat, start, neg, Fold(fl, ch));
  }

  // ---------------------------------------------------------------- Stars

  function StarRun(fl: Flags, rest: seq<Elem>, s: string, n: nat): bool
    requires n <= |s|
  {
    Run(fl, [Many] + rest, s, n)
  }

  // A star cannot take the character at n.
  predicate StarBlocked(fl: Flags, s: string, n: nat)
    requires n <= |s|
  {
    n == |s| || (fl.fileName && s[n] == '/')
  }

  lemma StarStep(fl: Flags, rest: seq<Elem>, s: string, n: nat)
    requires n <= |s|
    ensures StarRun(fl, rest, s, n)
            == (Run(fl, rest, s, n) || (!StarBlocked(fl, s, n) && StarRun(fl, rest, s, n + 1)))
  {
    assert ([Many] + rest)[1..] == rest;
  }

  /** A second star adds nothing. */
  lemma {:induction false} StarStar(fl: Flags, rest: seq<Elem>, s: string, n: nat)
    requires n <= |s|
    ensures StarRun(fl, [Many] + rest, s, n) == StarRun(fl, rest, s, n)
    decreases |s| - n
  {
    StarStep(fl, [Many] + rest, s, n);
    StarStep(fl, rest, s, n);
    if n < |s| {
      StarStar(fl, rest, s, n + 1);
    }
  }

  /** A question mark behind a star can take its character first. */
  lemma {:induction false} StarOne(fl: Flags, rest: seq<Elem>, s: string, n: nat)
    requires n <= |s|
    ensures StarRun(fl, [One] + rest, s, n) == (!StarBlocked(fl, s, n) && StarRun(fl, rest, s, n + 1))
    decreases |s| - n
  {
    StarStep(fl, [One] + rest, s, n);
    assert ([One] + rest)[1..] == rest;
    if n < |s| {
      StarStep(fl, rest, s, n + 1);
      StarOne(fl, rest, s, n + 1);
    }
  }

  /** A star at the end of the pattern. */
  lemma {:induction false} StarLast(fl: Flags, s: string, n: nat)
    requires n <= |s|
    ensures StarRun(fl, [], s, n) == (fl.fileName && !fl.leadingDir ==> '/' !in s[n..])
    decreases |s| - n
  {
    StarStep(fl, [], s, n);
    if n < |s| {
      StarLast(fl, s, n + 1);
      assert s[n..] == [s[n]] + s[n + 1..];
    }
  }

  // ---------------------------------------------------------------- The main loop

  // Under FNM_FILE_NAME an escaped slash, `\/`, is outside the model.
  predicate NoEscapedSlash(fl: Flags, pat: CString, p: nat)
    requires p <= |pat|
    decreases |pat| - p
  {
    p == |pat| || (!(IsEscape(fl, pat[p]) && At(pat, p + 1) == '/') && NoEscapedSlash(fl, pat, ElemAt(fl, pat, p).1))
  }

  // So are character classes.
  predicate Supported(fl: Flags, pat: CString, p: nat)
    requires p <= |pat|
  {
    && (forall i :: 0 <= i < |Elems(fl, pat, p)| ==> !Elems(fl, pat, p)[i].ClassBracket?)
    && (fl.fileName ==> NoEscapedSlash(fl, pat, p))
  }

  // The bracket whose members start at p, or after a negation at p, is within the model.
  predicate PlainBracket(fl: Flags, pat: CString, p: nat)
    requires p <= |pat|
  {
    !ScanItems(fl, pat, if Negates(fl, At(pat, p)) then p + 1 else p).Class?
  }

  lemma ElemStep(fl: Flags, pat: CString, p: nat, s: CString, n: nat)
    requires p < |pat| && n <= |s| && Supported(fl, pat, p)
    ensures var (e, next) := ElemAt(fl, pat, p);
            && Supported(fl, pat, next)
            && Elems(fl, pat, p) == [e] + Elems(fl, pat, next)
            && (e.Many? ==> Run(fl, Elems(fl, pat, p), s, n) == StarRun(fl, Elems(fl, pat, next), s, n))
            && (!e.Many? ==> Run(fl, Elems(fl, pat, p), s, n)
                             == (n < |s| && ElemHas(fl, e, s[n]) && Run(fl, Elems(fl, pat, next), s, n + 1)))
    ensures pat[p] == '[' ==> PlainBracket(fl, pat, p + 1)
  {
    var (e, next) := ElemAt(fl, pat, p);
    var es, rest := Elems(fl, pat, p), Elems(fl, pat, next);
    assert es == [e] + rest && es[1..] == rest;
    assert !es[0].ClassBracket?;
    forall i | 0 <= i < |rest| ensures !rest[i].ClassBracket? {
      assert rest[i] == es[i + 1];
    }
  }

  lemma ElemsEnd(fl: Flags, pat: CString, s: CString, n: nat)
    requires n <= |s|
    ensures Run(fl, Elems(fl, pat, |pat|), s, n) == (n == |s| || (fl.leadingDir && s[n] == '/'))
    ensures Elems(fl, pat, |pat|) == []
  {
  }

  /** The element that a bracket stands for, seen from the decision about one character. */
  lemma BracketStep(fl: Flags, pat: CString, p: nat, s: CString, n: nat)
    requires p < |pat| && n < |s| && Supported(fl, pat, p) && pat[p] == '[' && !(fl.fileName && s[n] == '/')
    ensures PlainBracket(fl, pat, p + 1)
    ensures match BracketMeaning(fl, pat, p + 1, s[n])
            case NoMatch => !Run(fl, Elems(fl, pat, p), s, n)
            case Matched(end) =>
              && p < end <= |pat| && Supported(fl, pat, end)
              && Run(fl, Elems(fl, pat, p), s, n) == Run(fl, Elems(fl, pat, end), s, n + 1)
            case Literal =>
              && Supported(fl, pat, p + 1)
              && Run(fl, Elems(fl, pat, p), s, n) == (s[n] == '[' && Run(fl, Elems(fl, pat, p + 1), s, n + 1))
  {
    ElemStep(fl, pat, p, s, n);
  }

  /** fnmatch without FNM_EXTMATCH and FNM_PERIOD: match pat from p0 on against s from n0 on. */
  method FnMatch(fl: Flags, pat: CString, p0: nat, s: CString, n0: nat) returns (ok: bool)
    requires p0 <= |pat| && n0 <= |s| && Supported(fl, pat, p0)
    ensures ok == Run(fl, Elems(fl, pat, p0), s, n0)
    decreases |pat| - p0, 0
  {
    hide Run, Elems, Supported, ScanItems, BracketMeaning, PlainBracket, StarRun;
    var p: nat, n: nat := p0, n0;
    while p < |pat|
      invariant p0 <= p <= |pat| && n <= |s| && Supported(fl, pat, p)
      invariant Run(fl, Elems(fl, pat, p), s, n) == Run(fl, Elems(fl, pat, p0), s, n0)
      decreases |pat| - p
    {
      ElemStep(fl, pat, p, s, n);
      var c := Fold(fl, pat[p]);
      if c == '?' {
        if n == |s| || (s[n] == '/' && fl.fileName) {
          return false;
        }
        p := p + 1;
      } else if c == '\\' {
        p := p + 1;
        if !fl.noEscape {
          if p == |pat| {
            return false;
          }
          c := Fold(fl, pat[p]);
          p := p + 1;
        }
        if n == |s| || Fold(fl, s[n]) != c {
          return false;
        }
      } else if c == '*' {
        ok := MatchStar(fl, pat, p + 1, s, n);
        return;
      } else if c == '[' {
        if n == |s| || (s[n] == '/' && fl.fileName) {
          return false;
        }
        BracketStep(fl, pat, p, s, n);
        var r := MatchBracket(fl, pat, p + 1, s[n]);
        match r
        case NoMatch => return false;
        case Matched(end) => p := end;
        case Literal =>
          if s[n] != '[' {
            return false;
          }
          p := p + 1;
      } else {
        p := p + 1;
        if n == |s| || c != Fold(fl, s[n]) {
          return false;
        }
      }
      n := n + 1;
    }
    ElemsEnd(fl, pat, s, n);
    ok := n == |s| || (fl.leadingDir && s[n] == '/');
  }

  // The character that the search behind a star looks for.
  function Wanted(fl: Flags, pat: CString, p: nat): char
    requires p < |pat|
  {
    Fold(fl, if IsEscape(fl, pat[p]) then At(pat, p + 1) else pat[p])
  }

  /** What has to stand at n for the element at p, which is no star or question mark, to match. */
  lemma SearchStep(fl: Flags, pat: CString, p: nat, s: CString, n: nat)
    requires p < |pat| && n <= |s| && Supported(fl, pat, p) && pat[p] != '*' && pat[p] != '?'
    ensures StarRun(fl, Elems(fl, pat, p), s, n)
            == (Run(fl, Elems(fl, pat, p), s, n) || (!StarBlocked(fl, s, n) && StarRun(fl, Elems(fl, pat, p), s, n + 1)))
    ensures n == |s| ==> !Run(fl, Elems(fl, pat, p), s, n)
    ensures n < |s| && pat[p] != '[' && Fold(fl, s[n]) != Wanted(fl, pat, p) ==> !Run(fl, Elems(fl, pat, p), s, n)
    ensures n < |s| && fl.fileName && s[n] == '/' && pat[p] != '/' ==> !Run(fl, Elems(fl, pat, p), s, n)
    ensures fl.fileName && pat[p] == '/' ==>
              && Supported(fl, pat, p + 1)
              && Run(fl, Elems(fl, pat, p), s, n)
                 == (n < |s| && s[n] == '/' && Run(fl, Elems(fl, pat, p + 1), s, n + 1))
  {
    ElemStep(fl, pat, p, s, n);
    StarStep(fl, Elems(fl, pat, p), s, n);
  }

  /** memchr for the end of the part that a star may cover. */
  method StarLimit(fl: Flags, s: CString, n: nat) returns (endp: nat)
    requires n <= |s|
    ensures n <= endp <= |s| && StarBlocked(fl, s, endp)
    ensures forall k :: n <= k < endp ==> !StarBlocked(fl, s, k)
  {
    endp := n;
    while endp < |s| && !(fl.fileName && s[endp] == '/')
      invariant n <= endp <= |s|
      invariant forall k :: n <= k < endp ==> !StarBlocked(fl, s, k)
    {
      endp := endp + 1;
    }
  }

  /** The star case: collapse the run of stars and question marks behind it, then try every
      position that the character behind the run allows. */
  method MatchStar(fl: Flags, pat: CString, p0: nat, s: CString, n0: nat) returns (ok: bool)
    requires p0 <= |pat| && n0 <= |s| && Supported(fl, pat, p0)
    ensures ok == StarRun(fl, Elems(fl, pat, p0), s, n0)
    decreases |pat| - p0, 1
  {
    hide Run, Elems, Supported, StarRun;
    var p: nat, n: nat := p0, n0;
    var c := At(pat, p);
    while c == '?' || c == '*'
      invariant p0 <= p <= |pat| && n <= |s| && Supported(fl, pat, p) && c == At(pat, p)
      invariant StarRun(fl, Elems(fl, pat, p), s, n) == StarRun(fl, Elems(fl, pat, p0), s, n0)
      decreases |pat| - p
    {
      ElemStep(fl, pat, p, s, n);
      if c == '?' {
        StarOne(fl, Elems(fl, pat, p + 1), s, n);
        if n == |s| || (s[n] == '/' && fl.fileName) {
          return false;
        }
        n := n + 1;
      } else {
        StarStar(fl, Elems(fl, pat, p + 1), s, n);
      }
      p := p + 1;
      c := At(pat, p);
    }
    if c == '\0' {
      ElemsEnd(fl, pat, s, n);
      StarLast(fl, s, n);
      if !fl.fileName || fl.leadingDir {
        return true;
      }
      return '/' !in s[n..];
    }
    var endp := StarLimit(fl, s, n);
    if c == '[' {
      while n < endp
        invariant n <= endp
        invariant StarRun(fl, Elems(fl, pat, p), s, n) == StarRun(fl, Elems(fl, pat, p0), s, n0)
      {
        SearchStep(fl, pat, p, s, n);
        ok := FnMatch(fl, pat, p, s, n);
        if ok {
          return;
        }
        n := n + 1;
      }
    } else if c == '/' && fl.fileName {
      while n < |s| && s[n] != '/'
        invariant n <= |s|
        invariant StarRun(fl, Elems(fl, pat, p), s, n) == StarRun(fl, Elems(fl, pat, p0), s, n0)
      {
        SearchStep(fl, pat, p, s, n);
        n := n + 1;
      }
      SearchStep(fl, pat, p, s, n);
      if n < |s| && s[n] == '/' {
        ok := FnMatch(fl, pat, p + 1, s, n + 1);
        return;
      }
      return false;
    } else {
      if c == '\\' && !fl.noEscape {
        c := At(pat, p + 1);
      }
      c := Fold(fl, c);
      while n < endp
        invariant n <= endp
        invariant StarRun(fl, Elems(fl, pat, p), s, n) == StarRun(fl, Elems(fl, pat, p0), s, n0)
      {
        SearchStep(fl, pat, p, s, n);
        if Fold(fl, s[n]) == c {
          ok := FnMatch(fl, pat, p, s, n);
          if ok {
            return;
          }
        }
        n := n + 1;
      }
    }
    SearchStep(fl, pat, p, s, n);
    ok := false;
  }

  /** fnmatch: the matcher accepts exactly the strings that split along the pattern. */
  method Match(fl: Flags, pat: CString, s: CString) returns (ok: bool)
    requires Supported(fl, pat, 0)
    ensures ok <==> Splits(fl, Elems(fl, pat, 0), s)
  {
    RunIffSplits(fl, Elems(fl, pat, 0), s);
    ok := FnMatch(fl, pat, 0, s, 0);
  }

  // The members behind the `[` at p, or behind its negation.
  function Members(fl: Flags, pat: CString, p: nat): Scan
    requires p < |pat|
  {
    ScanItems(fl, pat, if Negates(fl, At(pat, p + 1)) then p + 2 else p + 1)
  }

  /** An unterminated bracket is an ordinary `[` exactly when it does not break off in an escape or
      in a range and its members do not list `[`; otherwise it matches nothing, whatever follows. */
  lemma OpenBracket(fl: Flags, pat: CString, p: nat, s: string)
    requires p < |pat| && pat[p] == '[' && !Members(fl, pat, p).Closed? && !Members(fl, pat, p).Class?
    ensures var scan := Members(fl, pat, p);
            Splits(fl, Elems(fl, pat, p), s)
            <==> && scan.Open? && !Covers(scan.items, '[')
                 && s != "" && s[0] == '[' && Splits(fl, Elems(fl, pat, p + 1), s[1..])
  {
    var (e, next) := ElemAt(fl, pat, p);
    assert ([e] + Elems(fl, pat, next))[1..] == Elems(fl, pat, next);
    RunIffSplits(fl, Elems(fl, pat, p), s);
    if s != "" {
      var rest := Elems(fl, pat, p + 1);
      if Run(fl, rest, s, 1) {
        RunSplits(fl, rest, s, 1);
      }
      if Splits(fl, rest, s[1..]) {
        var pieces, tail :| IsSplit(fl, rest, s[1..], pieces, tail);
        SplitsRun(fl, rest, s, 1, pieces, tail);
      }
    }
  }

  /** So the pattern `[[` does not match itself, although neither bracket is closed. */
  lemma DoubleOpenBracket(fl: Flags)
    ensures !Splits(fl, Elems(fl, "[[", 0), "[[")
  {
    var pat: CString := "[[";
    assert ScanItems(fl, pat, 1) == Open([Single('[')]) by {
      assert ItemAt(fl, pat, 1) == Got(Single('['), 2);
      assert ScanItems(fl, pat, 2) == Open([]);
    }
    assert ItemHas([Single('[')][0], '[');
    OpenBracket(fl, pat, 0, pat);
  }

  /** Nor does `[a-`, which breaks off in a range and lists no bracket. */
  lemma OpenRange(fl: Flags)
    ensures !Splits(fl, Elems(fl, "[a-", 0), "[a-")
  {
    var pat: CString := "[a-";
    assert ItemAt(fl, pat, 1) == NoItem(Broken);
    OpenBracket(fl, pat, 0, pat);
  }

  /** Nor does `[a` with an escape of nothing behind it; without escapes it matches itself. */
  lemma OpenEscape(fl: Flags)
    ensures Splits(fl, Elems(fl, "[a\\", 0), "[a\\") <==> fl.noEscape
  {
    var pat: CString := "[a\\";
    assert ItemAt(fl, pat, 1) == Got(Single(Fold(fl, 'a')), 2);
    if fl.noEscape {
      assert ItemAt(fl, pat, 2) == Got(Single('\\'), 3);
      assert ScanItems(fl, pat, 3) == Open([]);
      assert ScanItems(fl, pat, 2) == Open([Single('\\')]);
      assert Elems(fl, pat, 3) == [];
      assert Elems(fl, pat, 2) == [Lit('\\')];
      assert Elems(fl, pat, 1) == [Lit('a'), Lit('\\')];
      assert Elems(fl, pat, 0) == [Lit('['), Lit('a'), Lit('\\')];
      var es := Elems(fl, pat, 0);
      assert Run(fl, es[1..][1..][1..], pat, 3);
      assert Run(fl, es[1..][1..], pat, 2) && Run(fl, es[1..], pat, 1) && Run(fl, es, pat, 0);
      RunIffSplits(fl, es, pat);
    } else {
      assert ItemAt(fl, pat, 2) == NoItem(Broken);
      OpenBracket(fl, pat, 0, pat);
    }
  }

  // ---------------------------------------------------------------- Single elements, as text

  // No character of pattern syntax.
  predicate PlainChar(c: char) {
    0 < c as int < 128 && c !in {'?', '*', '[', ']', '\\', '-', '!', '^', ':', '=', '.'}
  }

  /** Without FNM_CASEFOLD characters are themselves; with it, capitals are read as small letters. */
  lemma FoldsCapitals(fl: Flags, i: nat, c: char)
    requires i < 26 && c !in "ABCDEFGHIJKLMNOPQRSTUVWXYZ"
    ensures Fold(fl, c) == c
    ensures Fold(fl, "ABCDEFGHIJKLMNOPQRSTUVWXYZ"[i])
            == if fl.caseFold then "abcdefghijklmnopqrstuvwxyz"[i] else "ABCDEFGHIJKLMNOPQRSTUVWXYZ"[i]
  {
    var capitals := "ABCDEFGHIJKLMNOPQRSTUVWXYZ";
    assert forall k :: 0 <= k < 26 ==> capitals[k] as int == 65 + k;
    assert 'A' <= c <= 'Z' ==> capitals[c as int - 65] == c;
  }

  // A pattern of one element against a string of one character.
  lemma OneElement(fl: Flags, pat: CString, e: Elem, c: char)
    requires pat != "" && ElemAt(fl, pat, 0) == (e, |pat|)
    ensures Splits(fl, Elems(fl, pat, 0), [c]) <==> (e.Many? && (fl.leadingDir || !(fl.fileName && c == '/'))) || ElemHas(fl, e, c)
  {
    assert Elems(fl, pat, |pat|) == [];
    var es := Elems(fl, pat, 0);
    assert es == [e] && es[1..] == [];
    RunIffSplits(fl, es, [c]);
    assert Run(fl, [], [c], 1);
    assert Run(fl, [], [c], 0) <==> fl.leadingDir && c == '/';
    assert Run(fl, es, [c], 1) <==> e.Many?;
  }

  /** A plain character, escaped or not, matches itself, whatever the case under FNM_CASEFOLD. */
  lemma TextOfLiteral(fl: Flags, a: char, c: char)
    requires PlainChar(a)
    ensures Splits(fl, Elems(fl, [a], 0), [c]) <==> Fold(fl, a) == Fold(fl, c)
    ensures !fl.noEscape ==> (Splits(fl, Elems(fl, ['\\', a], 0), [c]) <==> Fold(fl, a) == Fold(fl, c))
  {
    OneElement(fl, [a], Lit(Fold(fl, a)), c);
    if !fl.noEscape {
      OneElement(fl, ['\\', a], Lit(Fold(fl, a)), c);
    }
  }

  /** `?` matches any character but a slash under FNM_FILE_NAME. */
  lemma TextOfOne(fl: Flags, c: char)
    ensures Splits(fl, Elems(fl, "?", 0), [c]) <==> !(fl.fileName && c == '/')
  {
    OneElement(fl, "?", One, c);
  }

  // The members of a bracket of one range.
  lemma RangeMembers(fl: Flags, pat: CString, p: nat, lo: char, hi: char)
    requires PlainChar(lo) && PlainChar(hi) && p + 4 == |pat| && pat[p..] == [lo, '-', hi, ']']
    ensures ScanItems(fl, pat, p) == Closed([Range(Fold(fl, lo), hi)], |pat|)
  {
    assert pat[p] == pat[p..][0] && pat[p + 1] == pat[p..][1] && pat[p + 2] == pat[p..][2] && pat[p + 3] == pat[p..][3];
    assert ItemAt(fl, pat, p) == Got(Range(Fold(fl, lo), hi), p + 3);
  }

  /** A range stands for its ends and all between them, but for a slash under FNM_FILE_NAME; the upper
      end is taken as it is written. */
  lemma TextOfRange(fl: Flags, lo: char, hi: char, c: char)
    requires PlainChar(lo) && PlainChar(hi)
    ensures Splits(fl, Elems(fl, ['[', lo, '-', hi, ']'], 0), [c])
            <==> !(fl.fileName && c == '/') && Fold(fl, lo) <= Fold(fl, c) <= hi
  {
    var pat: CString := ['[', lo, '-', hi, ']'];
    RangeMembers(fl, pat, 1, lo, hi);
    OneElement(fl, pat, Set(false, [Range(Fold(fl, lo), hi)]), c);
    CoversOne(Range(Fold(fl, lo), hi), Fold(fl, c));
  }

  /** Behind `!`, and behind `^` unless POSIXLY_CORRECT is set, it stands for all others. */
  lemma TextOfNegatedRange(fl: Flags, sign: char, lo: char, hi: char, c: char)
    requires PlainChar(lo) && PlainChar(hi) && (sign == '!' || (sign == '^' && !fl.posix))
    ensures Splits(fl, Elems(fl, ['[', sign, lo, '-', hi, ']'], 0), [c])
            <==> !(fl.fileName && c == '/') && !(Fold(fl, lo) <= Fold(fl, c) <= hi)
  {
    var pat: CString := ['[', sign, lo, '-', hi, ']'];
    RangeMembers(fl, pat, 2, lo, hi);
    OneElement(fl, pat, Set(true, [Range(Fold(fl, lo), hi)]), c);
    CoversOne(Range(Fold(fl, lo), hi), Fold(fl, c));
  }

  /** Members without a dash between them stand for themselves, a closing bracket in front too; `^` is
      one of them when POSIXLY_CORRECT is set. */
  lemma TextOfMembers(fl: Flags, a: char, b: char, c: char)
    requires (PlainChar(a) || a == ']' || (a == '^' && fl.posix)) && PlainChar(b)
    ensures Splits(fl, Elems(fl, ['[', a, b, ']'], 0), [c])
            <==> !(fl.fileName && c == '/') && (Fold(fl, c) == Fold(fl, a) || Fold(fl, c) == Fold(fl, b))
  {
    var pat: CString := ['[', a, b, ']'];
    var first, second := Single(Fold(fl, a)), Single(Fold(fl, b));
    assert ItemAt(fl, pat, 1) == Got(first, 2) && ItemAt(fl, pat, 2) == Got(second, 3);
    assert ScanItems(fl, pat, 2) == Closed([second], 4);
    assert ScanItems(fl, pat, 1) == Closed([first] + [second], 4);
    OneElement(fl, pat, Set(false, [first] + [second]), c);
    PrependCovers(first, [second], Fold(fl, c));
    CoversOne(second, Fold(fl, c));
  }

  lemma CoversOne(item: Item, c: char)
    ensures Covers([item], c) <==> ItemHas(item, c)
  {
    assert ItemHas([item][0], c) <==> ItemHas(item, c);
  }

  /** `*` matches every string without a slash; FNM_FILE_NAME clear or FNM_LEADING_DIR set, every
      string. */
  lemma TextOfStar(fl: Flags, s: string)
    ensures Splits(fl, Elems(fl, "*", 0), s) <==> !fl.fileName || fl.leadingDir || '/' !in s
  {
    var es := Elems(fl, "*", 0);
    assert Elems(fl, "*", 1) == [] && es == [Many];
    RunIffSplits(fl, es, s);
    StarLast(fl, s, 0);
    assert s[0..] == s && [Many] + [] == [Many];
  }

  /** With FNM_LEADING_DIR, and only with it, a slash and more may follow what matches. */
  lemma TextBeforeSlash(fl: Flags, a: char, rest: string)
    requires PlainChar(a)
    ensures Splits(fl, Elems(fl, [a], 0), [a, '/'] + rest) <==> fl.leadingDir
  {
    var pat: CString := [a];
    var es := Elems(fl, pat, 0);
    assert Elems(fl, pat, 1) == [] && es == [Lit(Fold(fl, a))] && es[1..] == [];
    RunIffSplits(fl, es, [a, '/'] + rest);
    assert Run(fl, [], [a, '/'] + rest, 1) <==> fl.leadingDir;
  }

  // ---------------------------------------------------------------- Writing a pattern down

  function Escaped(c: char): string {
    ['\\', c]
  }

  function PrintItem(item: Item): (r: string)
    ensures |r| > 0
  {
    match item case Single(c) => Escaped(c) case Range(lo, hi) => Escaped(lo) + "-" + Escaped(hi)
  }

  function PrintItems(items: seq<Item>): string {
    if items == [] then "" else PrintItem(items[0]) + PrintItems(items[1..])
  }

  function PrintElem(e: Elem): string {
    match e
    case Lit(c) => if c == '/' then "/" else Escaped(c)
    case One => "?"
    case Many => "*"
    case Set(neg, items) => (if neg then "[!" else "[") + PrintItems(items) + "]"
    case _ => ""
  }

  function Print(es: seq<Elem>): string {
    if es == [] then "" else PrintElem(es[0]) + Print(es[1..])
  }

  predicate IsChar(c: char) {
    0 < c as int < 128
  }

  // What a pattern can say: matching folds the string only, and so are the characters stored.
  predicate WellFormedItem(fl: Flags, item: Item) {
    match item
    case Single(c) => IsChar(c) && Fold(fl, c) == c
    case Range(lo, hi) => IsChar(lo) && IsChar(hi) && Fold(fl, lo) == lo
  }

  predicate WellFormedElem(fl: Flags, e: Elem) {
    match e
    case Lit(c) => IsChar(c) && Fold(fl, c) == c
    case Set(_, items) => items != [] && forall i :: 0 <= i < |items| ==> WellFormedItem(fl, items[i])
    case One => true
    case Many => true
    case _ => false
  }

  // pat has text at p
  predicate HasText(pat: string, p: nat, text: string) {
    p + |text| <= |pat| && pat[p..p + |text|] == text
  }

  lemma HasParts(pat: string, p: nat, a: string, b: string)
    requires HasText(pat, p, a + b)
    ensures HasText(pat, p, a) && HasText(pat, p + |a|, b)
    ensures forall i :: 0 <= i < |a| ==> At(pat, p + i) == a[i]
    ensures forall i :: 0 <= i < |b| ==> At(pat, p + |a| + i) == b[i]
  {
    var ab := a + b;
    assert pat[p..p + |a|] == ab[..|a|] == a;
    assert pat[p + |a|..p + |a| + |b|] == ab[|a|..] == b;
    forall i | 0 <= i < |ab| ensures pat[p + i] == ab[i] {
      assert pat[p..p + |ab|][i] == ab[i];
    }
  }

  lemma ItemRoundTrip(fl: Flags, pat: CString, p: nat, item: Item, next: nat)
    requires !fl.noEscape && WellFormedItem(fl, item) && next == p + |PrintItem(item)| <= |pat|
    requires forall i :: 0 <= i < |PrintItem(item)| ==> At(pat, p + i) == PrintItem(item)[i]
    requires At(pat, next) in {'\\', ']'}
    ensures ItemAt(fl, pat, p) == Got(item, next)
  {
    assert At(pat, p + 0) == PrintItem(item)[0];
    assert At(pat, p + 1) == PrintItem(item)[1];
    if item.Range? {
      assert At(pat, p + 2) == PrintItem(item)[2];
      assert At(pat, p + 3) == PrintItem(item)[3];
      assert At(pat, p + 4) == PrintItem(item)[4];
      assert ItemAt(fl, pat, p) == RangeAt(fl, pat, item.lo, p + 2);
    }
  }

  lemma {:induction false} ItemsRoundTrip(fl: Flags, pat: CString, p: nat, items: seq<Item>)
    requires !fl.noEscape && items != []
    requires forall i :: 0 <= i < |items| ==> WellFormedItem(fl, items[i])
    requires HasText(pat, p, PrintItems(items) + "]")
    ensures ScanItems(fl, pat, p) == Closed(items, p + |PrintItems(items)| + 1)
    decreases |items|
  {
    hide ItemAt, PrintItem, WellFormedItem;
    var first, rest := PrintItem(items[0]), PrintItems(items[1..]) + "]";
    assert PrintItems(items) + "]" == first + rest;
    HasParts(pat, p, first, rest);
    var next := p + |first|;
    assert At(pat, next + 0) == rest[0];
    if items[1..] == [] {
      assert rest == "]";
    } else {
      PrintItemStart(items[1]);
      assert rest[0] == PrintItem(items[1])[0];
    }
    ItemRoundTrip(fl, pat, p, items[0], next);
    assert items == [items[0]] + items[1..];
    if items[1..] != [] {
      ItemsRoundTrip(fl, pat, next, items[1..]);
    }
  }

  lemma PrintItemStart(item: Item)
    ensures PrintItem(item)[0] == '\\'
  {
  }

  lemma PrintItemsStart(items: seq<Item>)
    requires items != []
    ensures PrintItems(items) != "" && PrintItems(items)[0] == '\\'
  {
    PrintItemStart(items[0]);
    assert PrintItems(items)[0] == PrintItem(items[0])[0];
  }

  lemma SetRoundTrip(fl: Flags, pat: CString, p: nat, neg: bool, items: seq<Item>)
    requires !fl.noEscape && WellFormedElem(fl, Set(neg, items)) && HasText(pat, p, PrintElem(Set(neg, items)))
    ensures p < |pat| && ElemAt(fl, pat, p) == (Set(neg, items), p + |PrintElem(Set(neg, items))|)
  {
    hide ScanItems, PrintItems, HasText, ElemAt, Negates, ItemAt, At, PrintElem;
    var head, rest := if neg then "[!" else "[", PrintItems(items) + "]";
    SetText(neg, items);
    HasBehind(pat, p, head, rest);
    ItemsRoundTrip(fl, pat, p + |head|, items);
    SetHead(pat, p, neg, rest);
    SetAt(fl, pat, p, neg, items, p + |head| + |rest|);
  }

  lemma SetText(neg: bool, items: seq<Item>)
    requires items != []
    ensures PrintElem(Set(neg, items)) == (if neg then "[!" else "[") + (PrintItems(items) + "]")
    ensures (PrintItems(items) + "]")[0] == '\\'
  {
    PrintItemsStart(items);
  }

  lemma HasBehind(pat: string, p: nat, a: string, b: string)
    requires HasText(pat, p, a + b)
    ensures HasText(pat, p + |a|, b)
  {
    HasParts(pat, p, a, b);
  }

  lemma SetHead(pat: CString, p: nat, neg: bool, rest: string)
    requires var head := if neg then "[!" else "["; HasText(pat, p, head + rest) && rest != "" && rest[0] == '\\'
    ensures p + (if neg then 2 else 1) <= |pat|
    ensures At(pat, p) == '[' && At(pat, p + 1) == if neg then '!' else '\\'
  {
    var head := if neg then "[!" else "[";
    assert (head + rest)[0] == '[' && (head + rest)[1] == if neg then '!' else '\\';
  }

  lemma SetAt(fl: Flags, pat: CString, p: nat, neg: bool, items: seq<Item>, end: nat)
    requires p + (if neg then 2 else 1) <= |pat|
    requires At(pat, p) == '[' && At(pat, p + 1) == if neg then '!' else '\\'
    requires ScanItems(fl, pat, p + if neg then 2 else 1) == Closed(items, end)
    ensures ElemAt(fl, pat, p) == (Set(neg, items), end)
  {
    hide ScanItems;
  }

  lemma ElemRoundTrip(fl: Flags, pat: CString, p: nat, e: Elem)
    requires !fl.noEscape && WellFormedElem(fl, e) && HasText(pat, p, PrintElem(e))
    ensures p < |pat| && ElemAt(fl, pat, p) == (e, p + |PrintElem(e)|) && PrintElem(e) != ""
  {
    hide ScanItems, PrintItem, PrintItems, HasText, WellFormedItem;
    if e.Set? {
      SetRoundTrip(fl, pat, p, e.negated, e.items);
    } else {
      var text := PrintElem(e);
      assert text + "" == text;
      HasParts(pat, p, text, "");
      assert At(pat, p + 0) == text[0];
      assert |text| == 2 ==> At(pat, p + 1) == text[1];
    }
  }

  /** A printed pattern reads back as the elements it was printed from. */
  lemma {:induction false} RoundTrip(fl: Flags, pat: CString, p: nat, es: seq<Elem>)
    requires !fl.noEscape && p <= |pat| && pat[p..] == Print(es)
    requires forall i :: 0 <= i < |es| ==> WellFormedElem(fl, es[i])
    ensures Elems(fl, pat, p) == es && NoEscapedSlash(fl, pat, p)
    decreases |es|
  {
    hide ElemAt, PrintElem, WellFormedElem;
    if es != [] {
      var first := PrintElem(es[0]);
      var next := p + |first|;
      assert pat[p..] == first + Print(es[1..]);
      assert HasText(pat, p, first) by {
        assert pat[p..next] == pat[p..][..|first|];
      }
      ElemRoundTrip(fl, pat, p, es[0]);
      assert pat[next..] == pat[p..][|first|..] == Print(es[1..]);
      RoundTrip(fl, pat, next, es[1..]);
      assert es == [es[0]] + es[1..];
      if pat[p] == '\\' {
        SlashIsBare(pat, p, es[0]);
      }
    }
  }

  lemma SlashIsBare(pat: CString, p: nat, e: Elem)
    requires HasText(pat, p, PrintElem(e)) && PrintElem(e) != "" && pat[p] == '\\'
    ensures At(pat, p + 1) != '/'
  {
    assert PrintElem(e) + "" == PrintElem(e);
    HasParts(pat, p, PrintElem(e), "");
    assert At(pat, p + 0) == PrintElem(e)[0];
    if e.Lit? {
      assert At(pat, p + 1) == PrintElem(e)[1];
    }
  }

  lemma {:induction false} PrintedItemsAreCString(fl: Flags, items: seq<Item>)
    requires forall i :: 0 <= i < |items| ==> WellFormedItem(fl, items[i])
    ensures forall i :: 0 <= i < |PrintItems(items)| ==> IsChar(PrintItems(items)[i])
  {
    if items != [] {
      assert WellFormedItem(fl, items[0]);
      assert forall i :: 0 <= i < |PrintItem(items[0])| ==> IsChar(PrintItem(items[0])[i]);
      PrintedItemsAreCString(fl, items[1..]);
    }
  }

  lemma {:induction false} PrintedIsCString(fl: Flags, es: seq<Elem>)
    requires forall i :: 0 <= i < |es| ==> WellFormedElem(fl, es[i])
    ensures forall i :: 0 <= i < |Print(es)| ==> IsChar(Print(es)[i])
  {
    if es != [] {
      assert WellFormedElem(fl, es[0]);
      if es[0].Set? {
        PrintedItemsAreCString(fl, es[0].items);
      }
      assert forall i :: 0 <= i < |PrintElem(es[0])| ==> IsChar(PrintElem(es[0])[i]);
      PrintedIsCString(fl, es[1..]);
    }
  }

  /** For every pattern built from literals, `?`, `*` and terminated brackets, written down with
      escapes, and for every string: the matcher accepts exactly what splits element by element. */
  method MatchPrinted(fl: Flags, es: seq<Elem>, s: CString) returns (ok: bool)
    requires !fl.noEscape && forall i :: 0 <= i < |es| ==> WellFormedElem(fl, es[i])
    ensures ok <==> Splits(fl, es, s)
  {
    PrintedIsCString(fl, es);
    assert forall i :: 0 <= i < |Print(es)| ==> IsChar(Print(es)[i]);
    var pat: CString := Print(es);
    assert pat[0..] == pat;
    RoundTrip(fl, pat, 0, es);
    forall i | 0 <= i < |es| ensures !es[i].ClassBracket? {
      assert WellFormedElem(fl, es[i]);
    }
    ok := Match(fl, pat, s);
  }
}
