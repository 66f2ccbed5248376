/** Prefix blocks (CIDR notation, section 3.1 of RFC 4632) as nodes of the binary trie over
    addresses, and covers: ascending lists of blocks in which no two siblings could be merged. */
module PrefixBlocks {
  import opened Powers
  import opened Sorting

  /** The block whose network prefix has the value `prefix` and which leaves `host` bits free.
      Host bits are zero by construction, so these are exactly the aligned blocks. */
  datatype Block = Block(prefix: nat, host: nat) {

    /** The lowest address of the block. */
    function Lo(): nat {
      prefix * Pow2(host)
    }

    /** The first address after the block. */
    function End(): nat {
      (prefix + 1) * Pow2(host)
    }

    function Parent(): Block {
      Block(prefix / 2, host + 1)
    }

    function Left(): Block
      requires host > 0
    {
      Block(2 * prefix, host - 1)
    }

    function Right(): Block
      requires host > 0
    {
      Block(2 * prefix + 1, host - 1)
    }

    /** The other half of the parent. */
    function Sibling(): Block {
      Block(if prefix % 2 == 0 then prefix + 1 else prefix - 1, host)
    }

    predicate Has(x: int) {
      Lo() <= x < End()
    }

    /** Every address of `this` is an address of `b`. */
    predicate Within(b: Block) {
      b.Lo() <= Lo() && End() <= b.End()
    }

    /** The two blocks share no address. */
    predicate Disjoint(b: Block) {
      End() <= b.Lo() || b.End() <= Lo()
    }
  }

  lemma Size(b: Block)
    ensures b.End() == b.Lo() + Pow2(b.host)
    ensures b.Lo() < b.End()
  {
  }

  /** The two halves of a block split its addresses. */
  lemma Halves(b: Block)
    requires b.host > 0
    ensures b.Left().Lo() == b.Lo()
    ensures b.Left().End() == b.Right().Lo()
    ensures b.Right().End() == b.End()
    ensures b.Left().Parent() == b && b.Right().Parent() == b
    ensures b.Left().Sibling() == b.Right() && b.Right().Sibling() == b.Left()
  {
    var h := Pow2(b.host - 1);
    assert Pow2(b.host) == 2 * h;
    assert b.Left().Lo() == 2 * b.prefix * h == b.prefix * (2 * h);
    assert b.Left().End() == (2 * b.prefix + 1) * h;
    assert b.Right().End() == (2 * b.prefix + 2) * h == (b.prefix + 1) * (2 * h);
  }

  lemma InParent(b: Block)
    ensures b.Within(b.Parent())
    ensures b.prefix % 2 == 0 ==> b == b.Parent().Left() && b.Sibling() == b.Parent().Right()
    ensures b.prefix % 2 == 1 ==> b == b.Parent().Right() && b.Sibling() == b.Parent().Left()
  {
    Size(b);
    Size(b.Sibling());
    Halves(b.Parent());
  }

  lemma {:induction false} SameSizeDisjoint(a: Block, b: Block)
    requires a.host == b.host && a != b
    ensures a.Disjoint(b)
  {
    var h := Pow2(a.host);
    if a.prefix < b.prefix {
      assert (a.prefix + 1) * h <= b.prefix * h;
    } else {
      assert (b.prefix + 1) * h <= a.prefix * h;
    }
  }

  /** Prefix blocks are nested or disjoint. */
  lemma {:induction false} NestedOrDisjoint(a: Block, b: Block)
    requires a.host <= b.host
    ensures a.Within(b) || a.Disjoint(b)
    decreases b.host - a.host
  {
    if a.host == b.host {
      if a != b {
        SameSizeDisjoint(a, b);
      }
    } else {
      InParent(a);
      NestedOrDisjoint(a.Parent(), b);
    }
  }

  /** A block that lies within another one is not larger, and is equal to it when the sizes agree. */
  lemma {:induction false} WithinSmaller(a: Block, b: Block)
    requires a.Within(b)
    ensures a.host <= b.host
    ensures a.host == b.host ==> a == b
  {
    Size(a);
    Size(b);
    if a.host > b.host {
      Pow2Monotone(b.host + 1, a.host);
    } else if a.host == b.host && a != b {
      SameSizeDisjoint(a, b);
    }
  }

  /** A block strictly inside `b` lies in one of the halves of `b`. */
  lemma {:induction false} WithinHalf(a: Block, b: Block)
    requires a.Within(b) && a.host < b.host
    ensures a.Within(b.Left()) || a.Within(b.Right())
  {
    Halves(b);
    Size(a);
    Size(b.Left());
    Size(b.Right());
    NestedOrDisjoint(a, b.Left());
    NestedOrDisjoint(a, b.Right());
  }

  // ----- covers

  /** Address `x` lies in some block of the list. */
  ghost predicate Covers(bs: seq<Block>, x: int) {
    exists i :: 0 <= i < |bs| && bs[i].Has(x)
  }

  /** Every address of `b` lies in some block of the list. */
  ghost predicate CoversBlock(bs: seq<Block>, b: Block) {
    forall x | b.Has(x) :: Covers(bs, x)
  }

  ghost predicate SameAddresses(a: seq<Block>, b: seq<Block>) {
    forall x :: Covers(a, x) <==> Covers(b, x)
  }

  ghost predicate Ascending(bs: seq<Block>) {
    forall i, j | 0 <= i < j < |bs| :: bs[i].End() <= bs[j].Lo()
  }

  ghost predicate NoSiblings(bs: seq<Block>) {
    forall b | b in bs :: b.Sibling() !in bs
  }

  /** An ascending, pairwise disjoint list of prefix blocks without a mergeable pair. */
  ghost predicate Canonical(bs: seq<Block>) {
    Ascending(bs) && NoSiblings(bs)
  }

  /** In a canonical cover a covered block never straddles elements: it sits inside one of them. */
  lemma {:induction false} CoveredInOne(bs: seq<Block>, b: Block)
    requires Canonical(bs) && CoversBlock(bs, b)
    ensures exists i :: 0 <= i < |bs| && b.Within(bs[i])
    decreases b.host
  {
    Size(b);
    if b.host == 0 {
      assert b.Has(b.Lo());
      var i :| 0 <= i < |bs| && bs[i].Has(b.Lo());
      NestedOrDisjoint(b, bs[i]);
    } else {
      Halves(b);
      Size(b.Left());
      Size(b.Right());
      assert CoversBlock(bs, b.Left()) by {
        forall x | b.Left().Has(x) ensures Covers(bs, x) { assert b.Has(x); }
      }
      assert CoversBlock(bs, b.Right()) by {
        forall x | b.Right().Has(x) ensures Covers(bs, x) { assert b.Has(x); }
      }
      CoveredInOne(bs, b.Left());
      CoveredInOne(bs, b.Right());
      var i :| 0 <= i < |bs| && b.Left().Within(bs[i]);
      var j :| 0 <= j < |bs| && b.Right().Within(bs[j]);
      HalvesTogether(bs, b, i, j);
    }
  }

  lemma HalvesTogether(bs: seq<Block>, b: Block, i: nat, j: nat)
    requires NoSiblings(bs) && b.host > 0 && i < |bs| && j < |bs|
    requires b.Left().Within(bs[i]) && b.Right().Within(bs[j])
    ensures b.Within(bs[i]) || b.Within(bs[j])
  {
    Halves(b);
    WithinSmaller(b.Left(), bs[i]);
    WithinSmaller(b.Right(), bs[j]);
    Size(b.Left());
    Size(b.Right());
    assert bs[i] in bs && bs[j] in bs;
    assert bs[j] != bs[i].Sibling();
    if bs[i].host >= b.host {
      NestedOrDisjoint(b, bs[i]);
    } else if bs[j].host >= b.host {
      NestedOrDisjoint(b, bs[j]);
    }
  }

  lemma ElementCovered(bs: seq<Block>, i: nat)
    requires i < |bs|
    ensures CoversBlock(bs, bs[i])
  {
  }

  lemma ElementsOnceOnly(bs: seq<Block>, i: nat, j: nat, x: int)
    requires Ascending(bs) && i < |bs| && j < |bs| && bs[i].Has(x) && bs[j].Has(x)
    ensures i == j
  {
  }

  /** Covers of the same addresses consist of the same blocks. */
  lemma {:induction false} SameElements(a: seq<Block>, b: seq<Block>, i: nat)
    requires Canonical(a) && Canonical(b) && SameAddresses(a, b) && i < |a|
    ensures a[i] in b
  {
    ElementCovered(a, i);
    CoveredInOne(b, a[i]);
    var j :| 0 <= j < |b| && a[i].Within(b[j]);
    ElementCovered(b, j);
    CoveredInOne(a, b[j]);
    var k :| 0 <= k < |a| && b[j].Within(a[k]);
    Size(a[i]);
    ElementsOnceOnly(a, i, k, a[i].Lo());
    WithinSmaller(a[i], b[j]);
    WithinSmaller(b[j], a[i]);
  }

  function LoOf(): Block -> int {
    (b: Block) => b.Lo()
  }

  lemma AscendingByLo(bs: seq<Block>)
    requires Ascending(bs)
    ensures StrictlyBy(bs, LoOf())
  {
    forall i, j | 0 <= i < j < |bs|
      ensures bs[i].Lo() < bs[j].Lo()
    {
      Size(bs[i]);
    }
  }

  /** The canonical cover of a set of addresses is unique. */
  lemma {:induction false} CanonicalUnique(a: seq<Block>, b: seq<Block>)
    requires Canonical(a) && Canonical(b) && SameAddresses(a, b)
    ensures a == b
  {
    forall x
      ensures x in a <==> x in b
    {
      if x in a {
        var i :| 0 <= i < |a| && a[i] == x;
        SameElements(a, b, i);
      }
      if x in b {
        var i :| 0 <= i < |b| && b[i] == x;
        SameElements(b, a, i);
      }
    }
    AscendingByLo(a);
    AscendingByLo(b);
    StrictUnique(a, b, LoOf());
  }

  /** The canonical cover has the fewest blocks among all lists of prefix blocks, in any order and
      with any overlaps, that denote the same addresses. */
  lemma {:induction false} CanonicalMinimal(a: seq<Block>, other: seq<Block>)
    requires Canonical(a) && SameAddresses(a, other)
    ensures |a| <= |other|
  {
    forall i | 0 <= i < |a|
      ensures HoldsOneOf(a[i], other)
    {
      Size(a[i]);
      assert Covers(a, a[i].Lo());
      var j :| 0 <= j < |other| && other[j].Has(a[i].Lo());
      ElementCovered(other, j);
      CoveredInOne(a, other[j]);
      var k :| 0 <= k < |a| && other[j].Within(a[k]);
      Size(other[j]);
      assert a[k].Has(a[i].Lo());
      ElementsOnceOnly(a, i, k, a[i].Lo());
      assert other[j].Within(a[i]);
    }
    DistinctWitnesses(a, other, |a|, {});
  }

  /** Some block of the list lies in `b`. */
  ghost predicate HoldsOneOf(b: Block, bs: seq<Block>) {
    exists j :: 0 <= j < |bs| && bs[j].Within(b)
  }

  /** Each of the first `n` elements of `a` holds a block of `other`, and none holds the same one. */
  lemma {:induction false} DistinctWitnesses(a: seq<Block>, other: seq<Block>, n: nat, taken: set<nat>)
    requires Ascending(a) && n <= |a|
    requires forall i | 0 <= i < |a| :: HoldsOneOf(a[i], other)
    requires forall j | j in taken :: j < |other| && exists i :: n <= i < |a| && other[j].Within(a[i])
    ensures |taken| + n <= |other|
    decreases n
  {
    if n == 0 {
      CountBelow(taken, |other|);
    } else {
      var j :| 0 <= j < |other| && other[j].Within(a[n - 1]);
      forall i | n <= i < |a|
        ensures !other[j].Within(a[i])
      {
        NotWithinTwo(a, n - 1, i, other[j]);
      }
      assert j !in taken;
      forall m | m in taken + {j}
        ensures exists i :: n - 1 <= i < |a| && other[m].Within(a[i])
      {
        if m in taken {
          var i :| n <= i < |a| && other[m].Within(a[i]);
        }
      }
      DistinctWitnesses(a, other, n - 1, taken + {j});
    }
  }

  lemma NotWithinTwo(a: seq<Block>, i: nat, j: nat, b: Block)
    requires Ascending(a) && i < |a| && j < |a| && i != j && b.Within(a[i])
    ensures !b.Within(a[j])
  {
    Size(b);
  }

  lemma {:induction false} CountBelow(s: set<nat>, n: nat)
    requires forall j | j in s :: j < n
    ensures |s| <= n
  {
    if n == 0 {
      assert s == {};
    } else {
      CountBelow(s - {n - 1}, n - 1);
    }
  }
}
