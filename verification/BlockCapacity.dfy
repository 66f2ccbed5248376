/** How many claims of one size fit into one block. */
module BlockCapacity {
  import opened Powers
  import opened PrefixBlocks
  import opened FreeSpace
  import opened Options

  /** Requests for a single address must not receive the network address of the block. */
  function Reserved(base: Block, s: nat): set<Block> {
    if s == 0 then {Block(base.Lo(), 0)} else {}
  }

  /** What one CIDR block offers to a claim of 2^s addresses while `used` is taken. */
  function Offer(base: Block, used: set<Block>, s: nat): Option<Block> {
    FirstFit(FreeIn(base, used + Reserved(base, s)), s)
  }

  /** The number of claims of 2^s addresses that fit into `base`. */
  function Capacity(base: Block, s: nat): nat {
    if s > base.host then 0
    else if s == 0 then Pow2(base.host) - 1
    else Pow2(base.host - s)
  }

  /** The aligned blocks of 2^s addresses in `base`. */
  function Slots(base: Block, s: nat): set<Block>
    requires s <= base.host
  {
    var m := Pow2(base.host - s);
    set i | base.prefix * m <= i < (base.prefix + 1) * m :: Block(i, s)
  }

  lemma {:induction false} CountInterval(lo: nat, hi: nat, s: nat)
    requires lo <= hi
    ensures |(set i | lo <= i < hi :: Block(i, s))| == hi - lo
    decreases hi - lo
  {
    var all := set i | lo <= i < hi :: Block(i, s);
    if lo == hi {
      assert all == {};
    } else {
      var rest := set i | lo <= i < hi - 1 :: Block(i, s);
      CountInterval(lo, hi - 1, s);
      assert all == rest + {Block(hi - 1, s)};
    }
  }

  lemma SlotsExact(base: Block, s: nat, c: Block)
    requires s <= base.host && c.host == s
    ensures c in Slots(base, s) <==> c.Within(base)
  {
    var m, h := Pow2(base.host - s), Pow2(s);
    Pow2Add(base.host - s, s);
    TimesAssociates(base.prefix, m, h);
    TimesAssociates(base.prefix + 1, m, h);
    TimesOrder(base.prefix * m, c.prefix, h);
    TimesOrder(c.prefix + 1, (base.prefix + 1) * m, h);
  }

  lemma TimesAssociates(p: nat, m: nat, h: nat)
    ensures p * (m * h) == (p * m) * h
  {
  }

  lemma {:induction false} TimesOrder(a: nat, b: nat, h: nat)
    requires h > 0
    ensures a <= b <==> a * h <= b * h
  {
    if a <= b {
      TimesMonotone(a, b, h);
    } else {
      TimesMonotone(b + 1, a, h);
      assert (b + 1) * h == b * h + h;
    }
  }

  lemma {:induction false} TimesMonotone(a: nat, b: nat, h: nat)
    requires a <= b
    ensures a * h <= b * h
    decreases b - a
  {
    if a < b {
      TimesMonotone(a + 1, b, h);
      assert (a + 1) * h == a * h + h;
    }
  }

  lemma SlotCount(base: Block, s: nat)
    requires s <= base.host
    ensures |Slots(base, s)| == Pow2(base.host - s)
  {
    var m := Pow2(base.host - s);
    assert base.prefix * m + m == (base.prefix + 1) * m;
    CountInterval(base.prefix * m, (base.prefix + 1) * m, s);
  }

  lemma {:induction false} SubsetFull<T>(a: set<T>, b: set<T>)
    requires a <= b
    ensures |a| <= |b|
    ensures |a| == |b| <==> a == b
  {
    assert b == a + (b - a);
    assert |b| == |a| + |b - a|;
  }

  /** The network address of `base`, as a block of one address, is the first of its slots. */
  lemma NetworkAddress(base: Block)
    ensures Block(base.Lo(), 0) in Slots(base, 0)
  {
    FirstSubAt(base, 0);
    SlotsExact(base, 0, Block(base.Lo(), 0));
  }

  ghost predicate NoSlot(base: Block, taken: set<Block>, s: nat) {
    forall c :: !FreeSlot(base, taken, s, c)
  }

  lemma SlotsFree(base: Block, taken: set<Block>, s: nat)
    requires s <= base.host && taken <= Slots(base, s)
    ensures NoSlot(base, taken, s) <==> taken == Slots(base, s)
  {
    var slots := Slots(base, s);
    forall c: Block | c in slots && c !in taken
      ensures FreeSlot(base, taken, s, c)
    {
      SlotsExact(base, s, c);
      forall u | u in taken
        ensures u.Disjoint(c)
      {
        SameSizeDisjoint(u, c);
      }
    }
    forall c | FreeSlot(base, taken, s, c)
      ensures c in slots && c !in taken
    {
      SlotsExact(base, s, c);
      Size(c);
    }
  }

  /** A block has no slot that is larger than itself. */
  lemma TooLarge(base: Block, s: nat)
    requires s > base.host
    ensures forall c: Block | c.host == s :: !c.Within(base)
  {
    forall c: Block | c.host == s
      ensures !c.Within(base)
    {
      if c.Within(base) {
        WithinSmaller(c, base);
      }
    }
  }

  ghost predicate HeldIn(base: Block, used: set<Block>, s: nat) {
    forall u | u in used :: u.host == s && u.Within(base) && u !in Reserved(base, s)
  }

  /** What is held, together with what is reserved, consists of slots. */
  lemma TakenInSlots(base: Block, used: set<Block>, s: nat)
    requires s <= base.host && HeldIn(base, used, s)
    ensures used + Reserved(base, s) <= Slots(base, s)
    ensures |used + Reserved(base, s)| == |used| + if s == 0 then 1 else 0
  {
    if s == 0 {
      NetworkAddress(base);
    }
    forall u | u in used
      ensures u in Slots(base, s)
    {
      SlotsExact(base, s, u);
    }
    assert used !! Reserved(base, s);
  }

  /** All slots are taken exactly when the count says so. */
  lemma FullExactly(base: Block, used: set<Block>, s: nat)
    requires s <= base.host && HeldIn(base, used, s)
    ensures |used| <= Capacity(base, s)
    ensures used + Reserved(base, s) == Slots(base, s) <==> |used| == Capacity(base, s)
  {
    TakenInSlots(base, used, s);
    SlotCount(base, s);
    SubsetFull(used + Reserved(base, s), Slots(base, s));
  }

  /** Nothing is offered exactly when all slots are taken. */
  lemma RefusedExactly(base: Block, used: set<Block>, s: nat)
    requires s <= base.host && used + Reserved(base, s) <= Slots(base, s)
    ensures Offer(base, used, s).None? <==> used + Reserved(base, s) == Slots(base, s)
  {
    NothingFits(base, used + Reserved(base, s), s);
    SlotsFree(base, used + Reserved(base, s), s);
  }

  lemma NothingFits(base: Block, taken: set<Block>, s: nat)
    ensures FirstFit(FreeIn(base, taken), s).None? <==> NoSlot(base, taken, s)
  {
    FirstFitLowest(base, taken, s);
  }

  /** Exact capacity. Whatever the history that led there, a block in which only claims of 2^s
      addresses hold space refuses the next one if and only if `Capacity` of them hold space. */
  lemma CapacityExact(base: Block, used: set<Block>, s: nat)
    requires HeldIn(base, used, s)
    ensures |used| <= Capacity(base, s)
    ensures Offer(base, used, s).None? <==> |used| == Capacity(base, s)
  {
    if s > base.host {
      TooLarge(base, s);
      assert used == {};
      NothingFits(base, used + Reserved(base, s), s);
    } else {
      FullExactly(base, used, s);
      TakenInSlots(base, used, s);
      RefusedExactly(base, used, s);
    }
  }
}
