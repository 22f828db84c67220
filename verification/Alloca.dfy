/** The portable alloca of lib/alloca.c: a list of headers, newest first, from which every call pops
    the blocks of deeper stack frames until it meets one that is not deeper. */
module Alloca {

  /** A call: the address that stands for the stack depth, and the size asked for. */
  datatype Call = Call(depth: int, size: nat)

  /** The direction in which the stack grows; for a downward stack smaller addresses are deeper. */
  datatype Direction = Up | Down

  predicate Deeper(dir: Direction, a: int, b: int) {
    if dir.Up? then a > b else a < b
  }

  /** The block of call i is still allocated: it got one, and no later call was shallower. */
  ghost predicate LiveAt(dir: Direction, calls: seq<Call>, i: int) {
    && 0 <= i < |calls| && calls[i].size > 0
    && forall j :: i < j < |calls| ==> !Deeper(dir, calls[i].depth, calls[j].depth)
  }

  /** On a stack that grows downwards a block dies at the first later call from a greater address, on
      one that grows upwards at the first from a smaller one; a call from the same depth frees nothing. */
  lemma LiveByDepth(calls: seq<Call>, i: nat)
    requires i < |calls|
    ensures LiveAt(Down, calls, i) <==> calls[i].size > 0 && forall j :: i < j < |calls| ==> calls[j].depth <= calls[i].depth
    ensures LiveAt(Up, calls, i) <==> calls[i].size > 0 && forall j :: i < j < |calls| ==> calls[j].depth >= calls[i].depth
  {
  }

  /** Blocks from depths 100, 90 and 90, and alloca (0) from depth 95 on a downward stack: only the
      first block is left. */
  lemma InnerBlocksDie()
    ensures var calls := [Call(100, 8), Call(90, 16), Call(90, 24)];
            && LiveAt(Down, calls, 0) && LiveAt(Down, calls, 1) && LiveAt(Down, calls, 2)
            && var more := calls + [Call(95, 0)];
               forall i :: LiveAt(Down, more, i) <==> i == 0
  {
    var more := [Call(100, 8), Call(90, 16), Call(90, 24)] + [Call(95, 0)];
    forall i
      ensures LiveAt(Down, more, i) <==> i == 0
    {
      if i == 1 || i == 2 {
        assert more[3].depth == 95 && more[i].depth == 90;
      }
    }
  }

  /** union hdr: the next header and the depth; `index` is the call that made it. */
  class Header {
    const next: Header?
    const deep: int
    ghost const index: nat

    constructor (next: Header?, deep: int, ghost index: nat)
      ensures this.next == next && this.deep == deep && this.index == index
    {
      this.next, this.deep, this.index := next, deep, index;
    }
  }

  // The headers from h on are those of the calls in list.
  ghost predicate Chain(h: Header?, list: seq<nat>, calls: seq<Call>) {
    if h == null then list == []
    else
      && list != [] && h.index == list[0] && list[0] < |calls| && h.deep == calls[list[0]].depth
      && Chain(h.next, list[1..], calls)
  }

  lemma {:induction false} ChainMore(h: Header?, list: seq<nat>, calls: seq<Call>, c: Call)
    requires Chain(h, list, calls)
    ensures Chain(h, list, calls + [c])
    decreases |list|
  {
    if h != null {
      ChainMore(h.next, list[1..], calls, c);
    }
  }

  ghost predicate Decreasing(list: seq<nat>) {
    forall a, b :: 0 <= a < b < |list| ==> list[a] > list[b]
  }

  /** One more call ends the life of the deeper blocks and starts that of its own. */
  lemma LiveStep(dir: Direction, calls: seq<Call>, c: Call, i: int)
    ensures LiveAt(dir, calls + [c], i) <==>
              if i == |calls| then c.size > 0 else LiveAt(dir, calls, i) && !Deeper(dir, calls[i].depth, c.depth)
  {
    var more := calls + [c];
    assert forall j :: 0 <= j < |calls| ==> more[j] == calls[j];
    if LiveAt(dir, more, i) && i < |calls| {
      assert !Deeper(dir, more[i].depth, more[|calls|].depth);
    }
  }

  // The blocks of list, newest first, are exactly the live ones.
  ghost predicate Lists(dir: Direction, calls: seq<Call>, list: seq<nat>) {
    Decreasing(list) && forall i :: i in list <==> LiveAt(dir, calls, i)
  }

  /** Blocks further down the list are no deeper: once one is not deeper than depth, neither is any
      block behind it, so stopping there equals looking at the whole list. */
  lemma StopEarly(dir: Direction, calls: seq<Call>, list: seq<nat>, k: nat, depth: int)
    requires Lists(dir, calls, list) && k < |list| && list[k] < |calls|
    requires !Deeper(dir, calls[list[k]].depth, depth)
    ensures forall m :: k <= m < |list| ==> list[m] < |calls| && !Deeper(dir, calls[list[m]].depth, depth)
  {
    forall m | k <= m < |list| ensures list[m] < |calls| && !Deeper(dir, calls[list[m]].depth, depth) {
      assert list[m] in list && list[k] in list;
      assert LiveAt(dir, calls, list[m]) && LiveAt(dir, calls, list[k]);
    }
  }

  /** What is left when exactly the deeper blocks in front are popped. */
  lemma Popped(dir: Direction, calls: seq<Call>, list: seq<nat>, k: nat, c: Call)
    requires Lists(dir, calls, list) && k <= |list|
    requires forall m :: 0 <= m < k ==> list[m] < |calls| && Deeper(dir, calls[list[m]].depth, c.depth)
    requires forall m :: k <= m < |list| ==> list[m] < |calls| && !Deeper(dir, calls[list[m]].depth, c.depth)
    ensures Decreasing(list[k..])
    ensures forall i :: i in list[k..] <==> i < |calls| && LiveAt(dir, calls + [c], i)
    ensures forall i :: (exists m :: 0 <= m < k && list[m] == i) <==> LiveAt(dir, calls, i) && Deeper(dir, calls[i].depth, c.depth)
  {
    forall i ensures i in list[k..] <==> i < |calls| && LiveAt(dir, calls + [c], i) {
      LiveStep(dir, calls, c, i);
      assert i in list[k..] <==> exists m :: k <= m < |list| && list[m] == i;
      assert i in list <==> LiveAt(dir, calls, i);
    }
    forall i | LiveAt(dir, calls, i) && Deeper(dir, calls[i].depth, c.depth)
      ensures exists m :: 0 <= m < k && list[m] == i
    {
      assert i in list;
    }
    forall m | 0 <= m < k ensures LiveAt(dir, calls, list[m]) {
      assert list[m] in list;
    }
  }

  class Allocator {
    const dir: Direction
    var lastAllocaHeader: Header?
    ghost var calls: seq<Call>
    ghost var list: seq<nat>
    ghost var freed: set<nat>

    /** The list has exactly the live blocks, newest first; every other block was freed. */
    ghost predicate Valid()
      reads this
    {
      && Chain(lastAllocaHeader, list, calls) && Lists(dir, calls, list)
      && (forall i :: i in freed <==> 0 <= i < |calls| && calls[i].size > 0 && !LiveAt(dir, calls, i))
    }

    constructor (dir: Direction)
      ensures Valid() && calls == []
    {
      this.dir, lastAllocaHeader, calls, list, freed := dir, null, [], [], {};
    }

    /** alloca: although it stops at the first block that is not deeper, the blocks it frees are all
        the deeper ones; none is freed twice. */
    method Alloca(size: nat, depth: int) returns (block: Header?)
      requires Valid()
      modifies this
      ensures Valid() && calls == old(calls) + [Call(depth, size)]
      ensures block != null <==> size > 0
      ensures block != null ==> fresh(block) && block.index == |old(calls)| && block.index in list
      ensures forall i :: i in freed - old(freed) <==>
                LiveAt(dir, old(calls), i) && Deeper(dir, old(calls)[i].depth, depth)
    {
      hide Lists, LiveAt, Decreasing, Chain;
      ghost var c, n, before, was, freedBefore := Call(depth, size), |calls|, calls, list, freed;
      ghost var popped;
      lastAllocaHeader, popped := PopDeeper(depth);
      Popped(dir, before, was, popped, c);
      ChainMore(lastAllocaHeader, was[popped..], before, c);
      calls, list := before + [c], was[popped..];
      freed := freed + set k | 0 <= k < popped :: was[k];
      if size == 0 {
        block := null;
      } else {
        block := new Header(lastAllocaHeader, depth, n);
        lastAllocaHeader := block;
        list := [n] + list;
        ChainPush(block, was[popped..], calls);
      }
      Pushed(dir, before, c, was[popped..]);
      FreedStep(dir, before, c, freedBefore, freed);
    }

    /** The loop that looks for the first header that is not deeper. */
    method PopDeeper(depth: int) returns (hp: Header?, ghost popped: nat)
      requires Valid()
      ensures popped <= |list| && Chain(hp, list[popped..], calls)
      ensures forall k :: 0 <= k < popped ==> list[k] < |calls| && Deeper(dir, calls[list[k]].depth, depth)
      ensures forall k :: popped <= k < |list| ==> list[k] < |calls| && !Deeper(dir, calls[list[k]].depth, depth)
    {
      hide Lists, LiveAt, Decreasing;
      hp, popped := lastAllocaHeader, 0;
      assert list[0..] == list;
      while hp != null
        invariant popped <= |list| && Chain(hp, list[popped..], calls)
        invariant forall k :: 0 <= k < popped ==> list[k] < |calls| && Deeper(dir, calls[list[k]].depth, depth)
        decreases |list| - popped
      {
        assert list[popped..][0] == list[popped] && list[popped..][1..] == list[popped + 1..];
        if Deeper(dir, hp.deep, depth) {
          hp := hp.next;
          popped := popped + 1;
        } else {
          StopEarly(dir, calls, list, popped, depth);
          break;
        }
      }
    }
  }

  lemma ChainPush(h: Header, list: seq<nat>, calls: seq<Call>)
    requires Chain(h.next, list, calls) && h.index < |calls| && h.deep == calls[h.index].depth
    ensures Chain(h, [h.index] + list, calls)
  {
    assert ([h.index] + list)[1..] == list;
  }

  lemma FreedStep(dir: Direction, calls: seq<Call>, c: Call, before: set<nat>, after: set<nat>)
    requires forall i :: i in before <==> 0 <= i < |calls| && calls[i].size > 0 && !LiveAt(dir, calls, i)
    requires forall i :: i in after <==> i in before || (LiveAt(dir, calls, i) && Deeper(dir, calls[i].depth, c.depth))
    ensures var more := calls + [c];
            forall i :: i in after <==> 0 <= i < |more| && more[i].size > 0 && !LiveAt(dir, more, i)
  {
    hide LiveAt;
    var more := calls + [c];
    forall i ensures i in after <==> 0 <= i < |more| && more[i].size > 0 && !LiveAt(dir, more, i) {
      LiveStep(dir, calls, c, i);
      LiveHas(dir, calls, i);
    }
  }

  lemma LiveHas(dir: Direction, calls: seq<Call>, i: int)
    ensures LiveAt(dir, calls, i) ==> 0 <= i < |calls| && calls[i].size > 0
  {
  }

  lemma Pushed(dir: Direction, calls: seq<Call>, c: Call, list: seq<nat>)
    requires Decreasing(list) && forall i :: i in list <==> i < |calls| && LiveAt(dir, calls + [c], i)
    ensures Lists(dir, calls + [c], if c.size > 0 then [|calls|] + list else list)
  {
    var n, more := |calls|, if c.size > 0 then [|calls|] + list else list;
    assert forall k :: 0 <= k < |list| ==> list[k] in list;
    forall i ensures i in more <==> LiveAt(dir, calls + [c], i) {
      LiveStep(dir, calls, c, i);
      assert i in more <==> (c.size > 0 && i == n) || i in list;
    }
  }
}
