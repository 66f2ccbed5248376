/** The block allocator: subtract the used blocks, span what is left with prefix blocks, merge,
    and take the first fit. */
module Allocator {
  import opened Collections
  import opened PrefixBlocks
  import opened FreeSpace
  import opened Options

  /** A run of consecutive addresses; subtraction leaves such runs rather than prefix blocks. */
  datatype Range = Range(lo: nat, end: nat) {
    predicate Has(x: int) {
      lo <= x < end
    }
  }

  function AsRange(b: Block): (r: Range)
    ensures forall x :: r.Has(x) <==> b.Has(x)
  {
    Range(b.Lo(), b.End())
  }

  ghost predicate InRanges(rs: seq<Range>, x: int) {
    exists i :: 0 <= i < |rs| && rs[i].Has(x)
  }

  ghost predicate Sorted(rs: seq<Range>) {
    && (forall i | 0 <= i < |rs| :: rs[i].lo < rs[i].end)
    && (forall i, j | 0 <= i < j < |rs| :: rs[i].end <= rs[j].lo)
  }

  /** `rs` and all of its addresses lie in front of `limit`. */
  ghost predicate Below(rs: seq<Range>, limit: int) {
    forall i | 0 <= i < |rs| :: rs[i].end <= limit
  }

  lemma InRangesConcat(a: seq<Range>, b: seq<Range>, x: int)
    ensures InRanges(a + b, x) <==> InRanges(a, x) || InRanges(b, x)
  {
    var c := a + b;
    if InRanges(a, x) {
      var i :| 0 <= i < |a| && a[i].Has(x);
      assert c[i].Has(x);
    }
    if InRanges(b, x) {
      var i :| 0 <= i < |b| && b[i].Has(x);
      assert c[|a| + i].Has(x);
    }
  }

  /** What is left of `r` without the addresses of `u`: nothing, one range or two. */
  function Subtract(r: Range, u: Range): (rest: seq<Range>)
    requires r.lo < r.end && u.lo < u.end
    ensures Sorted(rest)
    ensures forall i | 0 <= i < |rest| :: r.lo <= rest[i].lo && rest[i].end <= r.end
    ensures forall x :: InRanges(rest, x) <==> r.Has(x) && !u.Has(x)
  {
    if u.end <= r.lo || r.end <= u.lo then
      assert [r][0] == r;
      [r]
    else
      var before := if r.lo < u.lo then [Range(r.lo, u.lo)] else [];
      var after := if u.end < r.end then [Range(u.end, r.end)] else [];
      assert forall x :: InRanges(before, x) <==> r.Has(x) && x < u.lo by {
        assert before != [] ==> before[0] == Range(r.lo, u.lo);
      }
      assert forall x :: InRanges(after, x) <==> r.Has(x) && u.end <= x by {
        assert after != [] ==> after[0] == Range(u.end, r.end);
      }
      assert forall x :: InRanges(before + after, x) <==> InRanges(before, x) || InRanges(after, x) by {
        forall x { InRangesConcat(before, after, x); }
      }
      before + after
  }

  /** Removes one used block from every free range. */
  method SubtractFromAll(free: seq<Range>, u: Range) returns (subtracted: seq<Range>)
    requires Sorted(free) && u.lo < u.end
    ensures Sorted(subtracted)
    ensures forall x :: InRanges(subtracted, x) <==> InRanges(free, x) && !u.Has(x)
  {
    subtracted := [];
    for j := 0 to |free|
      invariant Sorted(subtracted)
      invariant forall k | j <= k < |free| :: Below(subtracted, free[k].lo)
      invariant forall x :: InRanges(subtracted, x) <==> InRanges(free[..j], x) && !u.Has(x)
    {
      var rest := Subtract(free[j], u);
      ghost var before := subtracted;
      subtracted := subtracted + rest;
      forall x
        ensures InRanges(subtracted, x) <==> InRanges(free[..j + 1], x) && !u.Has(x)
      {
        InRangesConcat(before, rest, x);
        assert free[..j + 1] == free[..j] + [free[j]];
        InRangesConcat(free[..j], [free[j]], x);
        assert [free[j]][0] == free[j];
      }
    }
    assert free[..|free|] == free;
  }

  /** The largest prefix block that starts at `r.lo` and stays inside `r`. */
  method LargestBlockAt(r: Range) returns (b: Block)
    requires r.lo < r.end
    ensures b.Lo() == r.lo && b.End() <= r.end
  {
    b := Block(r.lo, 0);
    while b.prefix % 2 == 0 && b.Parent().End() <= r.end
      invariant b.Lo() == r.lo && b.End() <= r.end
      decreases r.end - b.End()
    {
      InParent(b);
      Halves(b.Parent());
      Size(b.Parent());
      Size(b.Parent().Right());
      b := b.Parent();
    }
  }

  method SpanWithPrefixBlocks(r: Range) returns (bs: seq<Block>)
    requires r.lo < r.end
    ensures Ascending(bs)
    ensures forall i | 0 <= i < |bs| :: r.lo <= bs[i].Lo() && bs[i].End() <= r.end
    ensures forall x :: Covers(bs, x) <==> r.Has(x)
  {
    bs := [];
    var at := r.lo;
    while at < r.end
      invariant r.lo <= at <= r.end
      invariant Ascending(bs)
      invariant forall i | 0 <= i < |bs| :: r.lo <= bs[i].Lo() && bs[i].End() <= at
      invariant forall x :: Covers(bs, x) <==> r.lo <= x < at
    {
      var b := LargestBlockAt(Range(at, r.end));
      Size(b);
      forall x
        ensures Covers(bs + [b], x) <==> r.lo <= x < b.End()
      {
        CoversConcat(bs, [b], x);
        assert [b][0] == b;
      }
      bs := bs + [b];
      at := b.End();
    }
  }

  /** Merges sibling pairs until none is left. */
  method MergeToPrefixBlocks(spanned: seq<Block>) returns (merged: seq<Block>)
    requires Ascending(spanned)
    ensures Canonical(merged)
    ensures SameAddresses(merged, spanned)
  {
    merged := [];
    for i := 0 to |spanned|
      invariant Canonical(merged)
      invariant forall m | 0 <= m < |merged| :: forall k | i <= k < |spanned| :: merged[m].End() <= spanned[k].Lo()
      invariant SameAddresses(merged, spanned[..i])
    {
      merged := PushMerging(merged, spanned[i]);
      forall x
        ensures Covers(merged, x) <==> Covers(spanned[..i + 1], x)
      {
        assert spanned[..i + 1] == spanned[..i] + [spanned[i]];
        CoversConcat(spanned[..i], [spanned[i]], x);
        assert [spanned[i]][0] == spanned[i];
      }
    }
    assert spanned[..|spanned|] == spanned;
  }

  /** Adds one more block at the end of a cover, merging upwards as long as possible. */
  method PushMerging(stack: seq<Block>, b: Block) returns (merged: seq<Block>)
    requires Canonical(stack)
    requires forall m | 0 <= m < |stack| :: stack[m].End() <= b.Lo()
    ensures Canonical(merged)
    ensures forall x :: Covers(merged, x) <==> Covers(stack, x) || b.Has(x)
    ensures forall m | 0 <= m < |merged| :: merged[m].End() <= b.End()
  {
    var top := b;
    merged := stack;
    Size(b);
    while |merged| > 0 && top.prefix % 2 == 1 && merged[|merged| - 1] == top.Sibling()
      invariant Canonical(merged)
      invariant forall m | 0 <= m < |merged| :: merged[m].End() <= top.Lo()
      invariant top.Lo() < top.End() == b.End()
      invariant forall x :: Covers(merged, x) || top.Has(x) <==> Covers(stack, x) || b.Has(x)
      decreases |merged|
    {
      MergeStep(merged, top);
      top := top.Parent();
      merged := merged[..|merged| - 1];
    }
    PushCanonical(merged, top);
    forall x
      ensures Covers(merged + [top], x) <==> Covers(stack, x) || b.Has(x)
    {
      CoversConcat(merged, [top], x);
      assert [top][0] == top;
    }
    merged := merged + [top];
  }

  lemma MergeStep(merged: seq<Block>, top: Block)
    requires |merged| > 0 && Canonical(merged) && top.prefix % 2 == 1
    requires merged[|merged| - 1] == top.Sibling()
    ensures var rest := merged[..|merged| - 1];
      && Canonical(rest)
      && (forall m | 0 <= m < |rest| :: rest[m].End() <= top.Parent().Lo())
      && top.Parent().Lo() < top.Parent().End() == top.End()
      && forall x :: Covers(rest, x) || top.Parent().Has(x) <==> Covers(merged, x) || top.Has(x)
  {
    var rest := merged[..|merged| - 1];
    InParent(top);
    Halves(top.Parent());
    Size(top);
    Size(top.Sibling());
    forall e | e in rest
      ensures e.Sibling() !in rest
    {
      assert e in merged;
    }
    forall x
      ensures Covers(rest, x) || top.Parent().Has(x) <==> Covers(merged, x) || top.Has(x)
    {
      assert merged == rest + [top.Sibling()];
      CoversConcat(rest, [top.Sibling()], x);
      assert [top.Sibling()][0] == top.Sibling();
    }
  }

  lemma PushCanonical(merged: seq<Block>, top: Block)
    requires Canonical(merged)
    requires forall m | 0 <= m < |merged| :: merged[m].End() <= top.Lo()
    requires top.prefix % 2 == 0 || |merged| == 0 || merged[|merged| - 1] != top.Sibling()
    ensures Canonical(merged + [top])
  {
    PushAscending(merged, top);
    PushNoSiblings(merged, top);
  }

  lemma PushAscending(merged: seq<Block>, top: Block)
    requires Ascending(merged)
    requires forall m | 0 <= m < |merged| :: merged[m].End() <= top.Lo()
    ensures Ascending(merged + [top])
  {
    Size(top);
  }

  lemma PushNoSiblings(merged: seq<Block>, top: Block)
    requires Canonical(merged)
    requires forall m | 0 <= m < |merged| :: merged[m].End() <= top.Lo()
    requires top.prefix % 2 == 0 || |merged| == 0 || merged[|merged| - 1] != top.Sibling()
    ensures forall e | e in merged + [top] :: e.Sibling() !in merged + [top]
  {
    var all := merged + [top];
    SiblingIsLast(merged, top);
    forall e | e in all
      ensures e.Sibling() !in all
    {
      assert e.Sibling().Sibling() == e;
      assert top.Sibling().Sibling() == top;
      assert top.Sibling() != top;
    }
  }

  /** The sibling of a new top element can only be the last element of the cover. */
  lemma SiblingIsLast(merged: seq<Block>, top: Block)
    requires Ascending(merged)
    requires forall m | 0 <= m < |merged| :: merged[m].End() <= top.Lo()
    ensures top.Sibling() in merged ==> top.prefix % 2 == 1 && merged[|merged| - 1] == top.Sibling()
  {
    InParent(top);
    Halves(top.Parent());
    Size(top);
    Size(top.Sibling());
    if top.Sibling() in merged {
      var m :| 0 <= m < |merged| && merged[m] == top.Sibling();
      Size(merged[|merged| - 1]);
    }
  }

  lemma UsedCovers(bs: seq<Block>, x: int)
    ensures Covers(bs, x) <==> Used(SetOf(bs), x)
  {
    if Covers(bs, x) {
      var i :| 0 <= i < |bs| && bs[i].Has(x);
      assert bs[i] in SetOf(bs);
    }
    if Used(SetOf(bs), x) {
      var u :| u in SetOf(bs) && u.Has(x);
      var i :| 0 <= i < |bs| && bs[i] == u;
    }
  }

  /** The free parts of `base`, computed by subtracting, spanning and merging. The result is the
      reference `FreeIn`, so neither the order nor the repetitions of `used` matter. */
  method FreeBlocks(base: Block, used: seq<Block>) returns (free: seq<Block>)
    ensures free == FreeIn(base, SetOf(used))
  {
    var ranges := SubtractUsed(base, used);
    if |ranges| == 0 {
      free := [];
    } else {
      var spanned := SpanAll(ranges);
      free := MergeToPrefixBlocks(spanned);
    }
    forall x
      ensures Covers(free, x) <==> Covers(FreeIn(base, SetOf(used)), x)
    {
      FreeDenotes(base, SetOf(used), x);
      UsedCovers(used, x);
    }
    FreeCanonical(base, SetOf(used));
    CanonicalUnique(free, FreeIn(base, SetOf(used)));
  }

  method SubtractUsed(base: Block, used: seq<Block>) returns (ranges: seq<Range>)
    ensures Sorted(ranges)
    ensures forall x :: InRanges(ranges, x) <==> base.Has(x) && !Covers(used, x)
  {
    Size(base);
    ranges := [AsRange(base)];
    assert ranges[0] == AsRange(base);
    for i := 0 to |used|
      invariant Sorted(ranges)
      invariant forall x :: InRanges(ranges, x) <==> base.Has(x) && !Covers(used[..i], x)
    {
      Size(used[i]);
      ranges := SubtractFromAll(ranges, AsRange(used[i]));
      forall x
        ensures Covers(used[..i + 1], x) <==> Covers(used[..i], x) || used[i].Has(x)
      {
        assert used[..i + 1] == used[..i] + [used[i]];
        CoversConcat(used[..i], [used[i]], x);
        assert [used[i]][0] == used[i];
      }
    }
    assert used[..|used|] == used;
  }

  method SpanAll(ranges: seq<Range>) returns (spanned: seq<Block>)
    requires Sorted(ranges)
    ensures Ascending(spanned)
    ensures forall x :: Covers(spanned, x) <==> InRanges(ranges, x)
  {
    spanned := [];
    for i := 0 to |ranges|
      invariant Ascending(spanned)
      invariant forall m | 0 <= m < |spanned| :: forall k | i <= k < |ranges| :: spanned[m].End() <= ranges[k].lo
      invariant forall x :: Covers(spanned, x) <==> InRanges(ranges[..i], x)
    {
      var bs := SpanWithPrefixBlocks(ranges[i]);
      forall x
        ensures Covers(spanned + bs, x) <==> InRanges(ranges[..i + 1], x)
      {
        CoversConcat(spanned, bs, x);
        assert ranges[..i + 1] == ranges[..i] + [ranges[i]];
        InRangesConcat(ranges[..i], [ranges[i]], x);
        assert [ranges[i]][0] == ranges[i];
      }
      spanned := spanned + bs;
    }
    assert ranges[..|ranges|] == ranges;
  }

  /** The first sub-block with 2^sizeBit addresses of the first block that is large enough. */
  method FindSubBlock(blocks: seq<Block>, sizeBit: nat) returns (found: Option<Block>)
    ensures found == FirstFit(blocks, sizeBit)
  {
    for i := 0 to |blocks|
      invariant FirstFit(blocks, sizeBit) == FirstFit(blocks[i..], sizeBit)
    {
      if blocks[i].host < sizeBit {
        assert blocks[i..][1..] == blocks[i + 1..];
        continue;
      }
      return Some(FirstSub(blocks[i], sizeBit));
    }
    return None;
  }

  /** The allocator as a whole: the lowest aligned free block of the size, if there is one. */
  method FindFree(base: Block, used: seq<Block>, sizeBit: nat) returns (found: Option<Block>)
    ensures found.None? <==> forall c :: !FreeSlot(base, SetOf(used), sizeBit, c)
    ensures found.Some? ==>
              && FreeSlot(base, SetOf(used), sizeBit, found.value)
              && forall c | FreeSlot(base, SetOf(used), sizeBit, c) :: found.value.Lo() <= c.Lo()
    ensures found == FirstFit(FreeIn(base, SetOf(used)), sizeBit)
  {
    var free := FreeBlocks(base, used);
    found := FindSubBlock(free, sizeBit);
    FirstFitLowest(base, SetOf(used), sizeBit);
  }
}
