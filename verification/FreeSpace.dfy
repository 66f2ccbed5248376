/** What it means for addresses of a base block to be free, independently of how the allocator
    computes it: the trie below the base is cut at the used blocks. */
module FreeSpace {
  import opened Powers
  import opened PrefixBlocks
  import opened Options

  ghost predicate Used(used: set<Block>, x: int) {
    exists u :: u in used && u.Has(x)
  }

  predicate Swallowed(b: Block, used: set<Block>) {
    exists u :: u in used && b.Within(u)
  }

  predicate Untouched(b: Block, used: set<Block>) {
    forall u | u in used :: u.Disjoint(b)
  }

  /** The free part of `b` as a list of blocks. It depends on the set of used blocks only. */
  function FreeIn(b: Block, used: set<Block>): (free: seq<Block>)
    decreases b.host
  {
    if Swallowed(b, used) then []
    else if Untouched(b, used) then [b]
    else
      HasRoomBelow(b, used);
      FreeIn(b.Left(), used) + FreeIn(b.Right(), used)
  }

  lemma HasRoomBelow(b: Block, used: set<Block>)
    requires !Swallowed(b, used) && !Untouched(b, used)
    ensures b.host > 0
  {
    var u :| u in used && !u.Disjoint(b);
    if b.host <= u.host {
      NestedOrDisjoint(b, u);
    }
  }

  lemma CoversConcat(a: seq<Block>, b: seq<Block>, x: int)
    ensures Covers(a + b, x) <==> Covers(a, x) || Covers(b, x)
  {
    var c := a + b;
    if Covers(a, x) {
      var i :| 0 <= i < |a| && a[i].Has(x);
      assert c[i].Has(x);
    }
    if Covers(b, x) {
      var i :| 0 <= i < |b| && b[i].Has(x);
      assert c[|a| + i].Has(x);
    }
  }

  /** `FreeIn` denotes exactly the addresses of `b` outside every used block. */
  lemma {:induction false} FreeDenotes(b: Block, used: set<Block>, x: int)
    ensures Covers(FreeIn(b, used), x) <==> b.Has(x) && !Used(used, x)
    decreases b.host
  {
    if Swallowed(b, used) {
    } else if Untouched(b, used) {
      assert b.Has(x) ==> [b][0].Has(x);
    } else {
      HasRoomBelow(b, used);
      Halves(b);
      FreeDenotes(b.Left(), used, x);
      FreeDenotes(b.Right(), used, x);
      CoversConcat(FreeIn(b.Left(), used), FreeIn(b.Right(), used), x);
      Size(b.Left());
      Size(b.Right());
    }
  }

  lemma {:induction false} FreeInside(b: Block, used: set<Block>)
    ensures Ascending(FreeIn(b, used))
    ensures forall e | e in FreeIn(b, used) :: e.Within(b)
    decreases b.host
  {
    if Swallowed(b, used) || Untouched(b, used) {
    } else {
      HasRoomBelow(b, used);
      FreeInside(b.Left(), used);
      FreeInside(b.Right(), used);
      JoinHalves(FreeIn(b.Left(), used), FreeIn(b.Right(), used), b);
    }
  }

  lemma JoinHalves(l: seq<Block>, r: seq<Block>, b: Block)
    requires b.host > 0 && Ascending(l) && Ascending(r)
    requires forall e | e in l :: e.Within(b.Left())
    requires forall e | e in r :: e.Within(b.Right())
    ensures Ascending(l + r)
    ensures forall e | e in l + r :: e.Within(b)
  {
    Halves(b);
    Size(b.Left());
    Size(b.Right());
    var lr := l + r;
    forall i, j | 0 <= i < j < |lr|
      ensures lr[i].End() <= lr[j].Lo()
    {
      if i < |l| <= j {
        assert l[i] in l && r[j - |l|] in r;
      }
    }
  }

  lemma ElementUntouched(b: Block, used: set<Block>, e: Block)
    requires e in FreeIn(b, used)
    ensures Untouched(e, used)
  {
    var free := FreeIn(b, used);
    var i :| 0 <= i < |free| && free[i] == e;
    Size(e);
    forall u | u in used
      ensures u.Disjoint(e)
    {
      var x := if u.Lo() <= e.Lo() then e.Lo() else u.Lo();
      Size(u);
      if !u.Disjoint(e) {
        assert u.Has(x) && e.Has(x);
        assert Covers(free, x);
        FreeDenotes(b, used, x);
      }
    }
  }

  lemma {:induction false} FreeNoSiblings(b: Block, used: set<Block>)
    ensures NoSiblings(FreeIn(b, used))
    decreases b.host
  {
    if Swallowed(b, used) {
    } else if Untouched(b, used) {
      assert b.Sibling() != b;
    } else {
      HasRoomBelow(b, used);
      var l, r := FreeIn(b.Left(), used), FreeIn(b.Right(), used);
      FreeNoSiblings(b.Left(), used);
      FreeNoSiblings(b.Right(), used);
      forall e: Block | e in l + r
        ensures e.Sibling() !in l + r
      {
        assert e.Sibling().Sibling() == e;
        if e in l {
          SiblingStaysOut(b, used, e);
        } else if e.Sibling() in l {
          SiblingStaysOut(b, used, e.Sibling());
        }
      }
    }
  }

  /** No sibling pair spans the two halves of a block that is only partly free. */
  lemma SiblingStaysOut(b: Block, used: set<Block>, e: Block)
    requires b.host > 0 && !Swallowed(b, used) && !Untouched(b, used)
    requires e in FreeIn(b.Left(), used)
    ensures e.Sibling() !in FreeIn(b.Right(), used)
  {
    Halves(b);
    Size(b.Left());
    Size(b.Right());
    FreeInside(b.Left(), used);
    FreeInside(b.Right(), used);
    WithinSmaller(e, b.Left());
    var s := e.Sibling();
    if s in FreeIn(b.Right(), used) {
      if e == b.Left() {
        ElementUntouched(b.Left(), used, e);
        ElementUntouched(b.Right(), used, s);
        HalvesUntouched(b, used);
      } else {
        InParent(e);
        InParent(s);
        Size(e);
        Size(s);
        NestedOrDisjoint(e.Parent(), b.Left());
      }
    }
  }

  lemma HalvesUntouched(b: Block, used: set<Block>)
    requires b.host > 0 && !Swallowed(b, used)
    requires Untouched(b.Left(), used) && Untouched(b.Right(), used)
    ensures Untouched(b, used)
  {
    Halves(b);
    forall u | u in used
      ensures u.Disjoint(b)
    {
      Size(u);
      Size(b.Left());
      Size(b.Right());
      assert u.Disjoint(b.Left()) && u.Disjoint(b.Right());
      if b.host <= u.host {
        NestedOrDisjoint(b, u);
      } else {
        NestedOrDisjoint(u, b);
        if u.Within(b) {
          WithinHalf(u, b);
        }
      }
    }
  }

  /** The free list is the canonical cover of the free addresses, hence by `CanonicalUnique` the
      only one and by `CanonicalMinimal` the shortest. */
  lemma FreeCanonical(b: Block, used: set<Block>)
    ensures Canonical(FreeIn(b, used))
  {
    FreeInside(b, used);
    FreeNoSiblings(b, used);
  }

  // ----- first fit

  /** `b` cut down to its first sub-block with 2^s addresses. */
  function FirstSub(b: Block, s: nat): Block
    requires s <= b.host
  {
    Block(b.prefix * Pow2(b.host - s), s)
  }

  lemma FirstSubAt(b: Block, s: nat)
    requires s <= b.host
    ensures FirstSub(b, s).Lo() == b.Lo()
    ensures FirstSub(b, s).Within(b)
  {
    var m, h := Pow2(b.host - s), Pow2(s);
    Pow2Add(b.host - s, s);
    assert b.prefix * m * h == b.prefix * (m * h);
    Pow2Monotone(s, b.host);
    Size(b);
    Size(FirstSub(b, s));
  }

  /** The first sub-block with 2^s addresses of the first block of the list that is large enough. */
  function FirstFit(blocks: seq<Block>, s: nat): Option<Block> {
    if blocks == [] then None
    else if blocks[0].host >= s then Some(FirstSub(blocks[0], s))
    else FirstFit(blocks[1..], s)
  }

  lemma {:induction false} FirstFitAt(blocks: seq<Block>, s: nat) returns (i: nat)
    ensures i <= |blocks|
    ensures forall j | 0 <= j < i :: blocks[j].host < s
    ensures i < |blocks| ==> blocks[i].host >= s && FirstFit(blocks, s) == Some(FirstSub(blocks[i], s))
    ensures i == |blocks| ==> FirstFit(blocks, s) == None
  {
    if blocks == [] || blocks[0].host >= s {
      i := 0;
    } else {
      i := FirstFitAt(blocks[1..], s);
      i := i + 1;
    }
  }

  /** `c` is an aligned block of 2^s free addresses of `base`. */
  ghost predicate FreeSlot(base: Block, used: set<Block>, s: nat, c: Block) {
    c.host == s && c.Within(base) && Untouched(c, used)
  }

  lemma SlotCovered(base: Block, used: set<Block>, s: nat, c: Block)
    requires FreeSlot(base, used, s, c)
    ensures CoversBlock(FreeIn(base, used), c)
  {
    forall x | c.Has(x)
      ensures Covers(FreeIn(base, used), x)
    {
      FreeDenotes(base, used, x);
    }
  }

  lemma SubSlot(base: Block, used: set<Block>, s: nat, e: Block)
    requires e in FreeIn(base, used) && s <= e.host
    ensures FreeSlot(base, used, s, FirstSub(e, s))
  {
    FirstSubAt(e, s);
    ElementUntouched(base, used, e);
    FreeInside(base, used);
    Size(FirstSub(e, s));
  }

  /** First fit over the free list yields the lowest-addressed aligned free block of the requested
      size, and nothing exactly when there is none. */
  lemma {:induction false} FirstFitLowest(base: Block, used: set<Block>, s: nat)
    ensures FirstFit(FreeIn(base, used), s).None? <==> forall c :: !FreeSlot(base, used, s, c)
    ensures FirstFit(FreeIn(base, used), s).Some? ==>
              var found := FirstFit(FreeIn(base, used), s).value;
              && FreeSlot(base, used, s, found)
              && forall c | FreeSlot(base, used, s, c) :: found.Lo() <= c.Lo()
  {
    var free := FreeIn(base, used);
    FreeCanonical(base, used);
    var i := FirstFitAt(free, s);
    forall c | FreeSlot(base, used, s, c)
      ensures i < |free| && free[i].Lo() <= c.Lo()
    {
      SlotCovered(base, used, s, c);
      CoveredInOne(free, c);
      var j :| 0 <= j < |free| && c.Within(free[j]);
      WithinSmaller(c, free[j]);
      Size(free[i]);
    }
    if i < |free| {
      SubSlot(base, used, s, free[i]);
      FirstSubAt(free[i], s);
    }
  }
}
