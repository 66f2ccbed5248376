/** How many claims of one size a block serves, over all histories of the step system. */
module ClaimCapacity {
  import opened Collections
  import opened PrefixBlocks
  import opened Options
  import opened BlockCapacity
  import opened Claims
  import opened ClaimRuns

  /** The other claims that hold space in block `b`. */
  function Holders(claims: map<string, Claim>, self: string, b: string): set<string> {
    set n | n in claims && n != self && claims[n].status.blockName == b && claims[n].status.cidr.Some?
  }

  predicate UsesSize(s: nat, step: Step) {
    (step.CreateClaim? || step.EditClaim?) ==> step.spec.sizeBit == s
  }

  predicate ClaimSize(s: nat, claim: Claim) {
    claim.spec.sizeBit == s && (claim.status.cidr.Some? ==> claim.status.cidr.value.host == s)
  }

  ghost predicate Uniform(s: nat, c: Cluster) {
    && (forall n | n in c.claims :: ClaimSize(s, c.claims[n]))
    && (!c.worker.Idle? ==> ClaimSize(s, c.worker.claim))
    && (c.worker.Patching? && c.worker.write.cidr.Some? ==> c.worker.write.cidr.value.host == s)
  }

  lemma UniformStep(s: nat, c: Cluster, step: Step)
    requires Uniform(s, c) && Enabled(c, step) && UsesSize(s, step)
    ensures Uniform(s, Next(c, step))
  {
    if step.ListClaims? {
      var w := c.worker;
      AllocateExact(w.claim.spec.sizeBit, step.order, w.selected, c.claims, w.name);
    }
  }

  lemma {:induction false} UniformRun(s: nat, c: Cluster, steps: seq<Step>)
    requires Uniform(s, c) && IsRun(c, steps) && forall step | step in steps :: UsesSize(s, step)
    ensures Uniform(s, After(c, steps))
    decreases |steps|
  {
    if steps == [] {
    } else {
      UniformStep(s, c, steps[0]);
      UniformRun(s, Next(c, steps[0]), steps[1..]);
    }
  }

  /** Distinct holders hold distinct blocks. */
  lemma {:induction false} CountHolders(claims: map<string, Claim>, names: set<string>)
    requires forall n | n in names :: n in claims && claims[n].status.cidr.Some?
    requires forall n, m | n in names && m in names && n != m ::
               claims[n].status.cidr.value.Disjoint(claims[m].status.cidr.value)
    ensures |set n | n in names :: claims[n].status.cidr.value| == |names|
  {
    var held := set n | n in names :: claims[n].status.cidr.value;
    if names == {} {
      assert held == {};
    } else {
      var n :| n in names;
      var rest := names - {n};
      CountHolders(claims, rest);
      var b := claims[n].status.cidr.value;
      Size(b);
      assert held == (set m | m in rest :: claims[m].status.cidr.value) + {b};
    }
  }

  /** What every run with one block name and claims of one size keeps. */
  ghost predicate Good(s: nat, base: Block, b: string, c: Cluster) {
    Inv(c) && AllInside(map[b := base], c) && Uniform(s, c)
  }

  lemma GoodStep(s: nat, base: Block, b: string, c: Cluster, step: Step)
    requires Good(s, base, b, c) && Enabled(c, step)
    requires FollowsPlan(map[b := base], step) && UsesSize(s, step)
    ensures Good(s, base, b, Next(c, step))
  {
    InvStep(c, step);
    InsideStep(map[b := base], c, step);
    UniformStep(s, c, step);
  }

  lemma HeldBlocks(s: nat, base: Block, b: string, c: Cluster, self: string)
    requires Good(s, base, b, c) && b != ""
    ensures |TakenIn(c.claims, self, b)| == |Holders(c.claims, self, b)|
    ensures forall u | u in TakenIn(c.claims, self, b) ::
              u.host == s && u.Within(base) && u !in Reserved(base, s)
  {
    var holders := Holders(c.claims, self, b);
    forall n, m | n in holders && m in holders && n != m
      ensures c.claims[n].status.cidr.value.Disjoint(c.claims[m].status.cidr.value)
    {
      assert ApartFromOthers(c.claims, m, c.claims[m].status);
      assert Apart(c.claims[n].status, c.claims[m].status);
    }
    CountHolders(c.claims, holders);
    assert TakenIn(c.claims, self, b) == set n | n in holders :: c.claims[n].status.cidr.value;
    forall u | u in TakenIn(c.claims, self, b)
      ensures u.host == s && u.Within(base) && u !in Reserved(base, s)
    {
      var n :| n in holders && c.claims[n].status.cidr.value == u;
      assert Inside(map[b := base], c.claims[n].status);
      assert ClaimSize(s, c.claims[n]);
    }
  }

  /** The worker has listed blocks, and the only selected one is `b`. */
  ghost predicate OneBlockListed(base: Block, b: string, c: Cluster) {
    c.worker.Listed? && c.worker.selected.Keys == {b} && c.worker.selected[b].cidr == Some(base)
  }

  /** With one selected block the outcome is what that block offers. */
  lemma DecideOne(base: Block, b: string, c: Cluster)
    requires OneBlockListed(base, b, c)
    ensures var w := c.worker;
      var offer := Offer(base, TakenIn(c.claims, w.name, b), w.claim.spec.sizeBit);
      var write := Decide(w.name, w.claim, w.selected, c.claims, [b]);
      && (offer.Some? ==> write.phase == Ready && write.blockName == b && write.cidr.Some?)
      && (offer.None? ==> write.phase == BindingError && write.message == "no available CIDRBlock"
                          && write.cidr == w.claim.status.cidr)
  {
    var w := c.worker;
    assert b in w.selected.Keys;
    assert |w.selected| == |w.selected.Keys| == 1;
    assert [b][1..] == [];
    assert Allocate(w.claim.spec.sizeBit, [b][1..], w.selected, c.claims, w.name).None?;
  }

  /** Such a claim becomes ready if and only if fewer claims than the capacity hold space. */
  lemma ReadyIffRoom(s: nat, base: Block, b: string, c: Cluster)
    requires Good(s, base, b, c) && OneBlockListed(base, b, c)
    ensures var w := c.worker;
      var held := |Holders(c.claims, w.name, b)|;
      var write := Decide(w.name, w.claim, w.selected, c.claims, [b]);
      && held <= Capacity(base, s)
      && (held < Capacity(base, s) ==> write.phase == Ready && write.blockName == b && write.cidr.Some?)
      && (held == Capacity(base, s) ==> write.phase == BindingError && write.message == "no available CIDRBlock"
                                        && write.cidr == w.claim.status.cidr)
  {
    var w := c.worker;
    assert b in w.selected.Keys && b != "";
    assert w.claim.spec.sizeBit == s;
    HeldBlocks(s, base, b, c, w.name);
    CapacityExact(base, TakenIn(c.claims, w.name, b), s);
    DecideOne(base, b, c);
  }

  /** Exact capacity over all runs: for any history of claims of one size and one block that is
      never moved, the next claim is served if and only if the block is not at its capacity, which
      is never exceeded. */
  lemma CapacityInRuns(s: nat, base: Block, b: string, steps: seq<Step>)
    requires IsRun(EMPTY, steps)
    requires forall step | step in steps :: FollowsPlan(map[b := base], step) && UsesSize(s, step)
    requires var w := After(EMPTY, steps).worker;
      w.Listed? && w.selected.Keys == {b} && w.selected[b].cidr == Some(base)
    ensures var c := After(EMPTY, steps);
      var w := c.worker;
      var held := |Holders(c.claims, w.name, b)|;
      && held <= Capacity(base, s)
      && (Decide(w.name, w.claim, w.selected, c.claims, [b]).phase == Ready <==> held < Capacity(base, s))
  {
    InvRun(EMPTY, steps);
    InsideFrom(map[b := base], EMPTY, steps);
    UniformRun(s, EMPTY, steps);
    ReadyIffRoom(s, base, b, After(EMPTY, steps));
  }

  // ----- serving one claim after the other

  function ServeSteps(n: string, spec: Spec, b: string): seq<Step> {
    [CreateClaim(n, spec), Get(n), ListBlocks, ListClaims([b]), Patch]
  }

  /** An idle cluster with the one block `b`. */
  ghost predicate Serving(base: Block, b: string, c: Cluster) {
    c.worker.Idle? && b != "" && c.blocks.Keys == {b} && c.blocks[b].cidr == Some(base)
  }

  predicate Selects(spec: Spec, block: CIDRBlock) {
    spec.selector.Matching? && spec.selector.matches(block.labels)
  }

  lemma RunFive(c: Cluster, a: seq<Step>)
    requires |a| == 5 && Enabled(c, a[0])
    requires Enabled(Next(c, a[0]), a[1])
    requires Enabled(Next(Next(c, a[0]), a[1]), a[2])
    requires Enabled(Next(Next(Next(c, a[0]), a[1]), a[2]), a[3])
    requires Enabled(Next(Next(Next(Next(c, a[0]), a[1]), a[2]), a[3]), a[4])
    ensures IsRun(c, a)
    ensures After(c, a) == Next(Next(Next(Next(Next(c, a[0]), a[1]), a[2]), a[3]), a[4])
  {
    var c1 := Next(c, a[0]);
    var c2 := Next(c1, a[1]);
    var c3 := Next(c2, a[2]);
    var c4 := Next(c3, a[3]);
    assert a[4..][1..] == [];
    assert IsRun(c4, a[4..]) && After(c4, a[4..]) == Next(c4, a[4]);
    assert a[3..][1..] == a[4..];
    assert IsRun(c3, a[3..]) && After(c3, a[3..]) == After(c4, a[4..]);
    assert a[2..][1..] == a[3..];
    assert IsRun(c2, a[2..]) && After(c2, a[2..]) == After(c3, a[3..]);
    assert a[1..][1..] == a[2..];
    assert IsRun(c1, a[1..]) && After(c1, a[1..]) == After(c2, a[2..]);
  }

  /** The cluster once a claim was created, read, and its block listed. */
  function ListedFor(c: Cluster, n: string, spec: Spec): Cluster {
    var claim := Claim(c.nextUid, 1, spec, FRESH);
    Cluster(c.claims[n := claim], c.blocks, c.nextUid + 1, Listed(n, claim, c.blocks))
  }

  lemma ServeUntilListed(base: Block, b: string, c: Cluster, n: string, spec: Spec)
    requires Serving(base, b, c) && n !in c.claims && Selects(spec, c.blocks[b])
    ensures Enabled(c, CreateClaim(n, spec))
    ensures var c1 := Next(c, CreateClaim(n, spec)); Enabled(c1, Get(n))
    ensures var c2 := Next(Next(c, CreateClaim(n, spec)), Get(n)); Enabled(c2, ListBlocks)
    ensures Next(Next(Next(c, CreateClaim(n, spec)), Get(n)), ListBlocks) == ListedFor(c, n, spec)
  {
    forall m | m in c.blocks
      ensures m == b
    {
      assert m in c.blocks.Keys;
    }
    assert Select(c.blocks, spec.selector) == c.blocks;
  }

  lemma GoodUntilListed(s: nat, base: Block, b: string, c: Cluster, n: string, spec: Spec)
    requires Serving(base, b, c) && n !in c.claims && Selects(spec, c.blocks[b])
    requires Good(s, base, b, c) && spec.sizeBit == s
    ensures Good(s, base, b, ListedFor(c, n, spec))
    ensures OneBlockListed(base, b, ListedFor(c, n, spec))
  {
    ServeUntilListed(base, b, c, n, spec);
    GoodStep(s, base, b, c, CreateClaim(n, spec));
    var c1 := Next(c, CreateClaim(n, spec));
    GoodStep(s, base, b, c1, Get(n));
    GoodStep(s, base, b, Next(c1, Get(n)), ListBlocks);
  }

  /** The cluster once the outcome was written. */
  function Served(c: Cluster, n: string, spec: Spec, b: string): Cluster
    requires b in c.blocks
  {
    var claim := Claim(c.nextUid, 1, spec, FRESH);
    var write := Decide(n, claim, c.blocks, c.claims[n := claim], [b]);
    Cluster(c.claims[n := claim.(status := write)], c.blocks, c.nextUid + 1, Idle)
  }

  lemma ServeFromListed(base: Block, b: string, c: Cluster, n: string, spec: Spec)
    requires Serving(base, b, c)
    ensures Enabled(ListedFor(c, n, spec), ListClaims([b]))
    ensures Enabled(Next(ListedFor(c, n, spec), ListClaims([b])), Patch)
    ensures Next(Next(ListedFor(c, n, spec), ListClaims([b])), Patch) == Served(c, n, spec, b)
  {
    ShuffleOfOne(b, c.blocks);
    var listed := ListedFor(c, n, spec);
    var claim := listed.claims[n];
    var write := Decide(n, claim, c.blocks, listed.claims, [b]);
    FirstPatch(claim, write);
    assert Next(listed, ListClaims([b])) == listed.(worker := Patching(n, claim, write));
  }

  lemma ShuffleOfOne(b: string, blocks: map<string, CIDRBlock>)
    requires blocks.Keys == {b}
    ensures IsShuffle([b], blocks.Keys)
  {
    assert [b][0] == b;
  }

  /** The first patch of a claim lands and stores what is written. */
  lemma FirstPatch(claim: Claim, write: Status)
    requires claim.status == FRESH && write.observedGeneration == claim.generation && write.phase != Unknown
    ensures Patched(claim.status, claim.status, write) == write
  {
  }

  lemma ServeRun(base: Block, b: string, c: Cluster, n: string, spec: Spec)
    requires Serving(base, b, c) && n !in c.claims && Selects(spec, c.blocks[b])
    ensures IsRun(c, ServeSteps(n, spec, b))
    ensures After(c, ServeSteps(n, spec, b)) == Served(c, n, spec, b)
  {
    ServeUntilListed(base, b, c, n, spec);
    ServeFromListed(base, b, c, n, spec);
    RunFive(c, ServeSteps(n, spec, b));
  }

  lemma ServeGood(s: nat, base: Block, b: string, c: Cluster, n: string, spec: Spec)
    requires Good(s, base, b, c) && Serving(base, b, c)
    requires n !in c.claims && spec.sizeBit == s && Selects(spec, c.blocks[b])
    ensures Good(s, base, b, Served(c, n, spec, b))
  {
    var c3 := ListedFor(c, n, spec);
    ServeFromListed(base, b, c, n, spec);
    GoodUntilListed(s, base, b, c, n, spec);
    GoodStep(s, base, b, c3, ListClaims([b]));
    GoodStep(s, base, b, Next(c3, ListClaims([b])), Patch);
  }

  /** Creating and reconciling one claim: it becomes ready exactly when there is room, and then
      holds space. */
  lemma ServeOutcome(s: nat, base: Block, b: string, c: Cluster, n: string, spec: Spec)
    requires Good(s, base, b, c) && Serving(base, b, c)
    requires n !in c.claims && spec.sizeBit == s && Selects(spec, c.blocks[b])
    ensures
      var held := |Holders(c.claims, n, b)|;
      var status := Served(c, n, spec, b).claims[n].status;
      && held <= Capacity(base, s)
      && (held < Capacity(base, s) ==> status.phase == Ready && status.blockName == b && status.cidr.Some?)
      && (held == Capacity(base, s) ==> status.phase == BindingError && status.cidr.None?)
  {
    var c3 := ListedFor(c, n, spec);
    GoodUntilListed(s, base, b, c, n, spec);
    ReadyIffRoom(s, base, b, c3);
    SameHolders(c, n, spec, b);
  }

  lemma SameHolders(c: Cluster, n: string, spec: Spec, b: string)
    requires n !in c.claims && b in c.blocks
    ensures Holders(ListedFor(c, n, spec).claims, n, b) == Holders(c.claims, n, b)
    ensures Served(c, n, spec, b).claims[n].status
         == Decide(n, Claim(c.nextUid, 1, spec, FRESH), c.blocks, ListedFor(c, n, spec).claims, [b])
  {
  }

  function ServeAll(names: seq<string>, spec: Spec, b: string): seq<Step> {
    if names == [] then [] else ServeSteps(names[0], spec, b) + ServeAll(names[1..], spec, b)
  }

  lemma {:induction false} RunConcat(c: Cluster, a: seq<Step>, rest: seq<Step>)
    requires IsRun(c, a) && IsRun(After(c, a), rest)
    ensures IsRun(c, a + rest) && After(c, a + rest) == After(After(c, a), rest)
    decreases |a|
  {
    if a == [] {
      assert a + rest == rest;
    } else {
      assert (a + rest)[1..] == a[1..] + rest;
      RunConcat(Next(c, a[0]), a[1..], rest);
    }
  }

  function ReadyClaims(claims: map<string, Claim>): set<string> {
    set n | n in claims && claims[n].status.phase == Ready
  }

  /** Ready claims are those that hold space in `b`. */
  ghost predicate ReadyHold(claims: map<string, Claim>, b: string) {
    forall n | n in claims ::
      claims[n].status.phase == Ready <==> claims[n].status.blockName == b && claims[n].status.cidr.Some?
  }

  lemma CountOneMore(claims: map<string, Claim>, b: string, n: string, claim: Claim, room: nat)
    requires ReadyHold(claims, b) && n !in claims
    requires |Holders(claims, n, b)| <= room
    requires |Holders(claims, n, b)| < room ==>
               claim.status.phase == Ready && claim.status.blockName == b && claim.status.cidr.Some?
    requires |Holders(claims, n, b)| == room ==> claim.status.phase == BindingError && claim.status.cidr.None?
    ensures ReadyHold(claims[n := claim], b)
    ensures |ReadyClaims(claims)| <= room
    ensures |ReadyClaims(claims[n := claim])| == Min(|ReadyClaims(claims)| + 1, room)
  {
    assert Holders(claims, n, b) == ReadyClaims(claims);
    var more := claims[n := claim];
    if claim.status.phase == Ready {
      assert ReadyClaims(more) == ReadyClaims(claims) + {n};
    } else {
      assert ReadyClaims(more) == ReadyClaims(claims);
    }
  }

  lemma ServeCount(s: nat, base: Block, b: string, c: Cluster, n: string, spec: Spec)
    requires Good(s, base, b, c) && Serving(base, b, c) && ReadyHold(c.claims, b)
    requires n !in c.claims && spec.sizeBit == s && Selects(spec, c.blocks[b])
    ensures var d := Served(c, n, spec, b);
      && Serving(base, b, d) && ReadyHold(d.claims, b)
      && d.blocks == c.blocks && d.claims.Keys == c.claims.Keys + {n}
      && |ReadyClaims(c.claims)| <= Capacity(base, s)
      && |ReadyClaims(d.claims)| == Min(|ReadyClaims(c.claims)| + 1, Capacity(base, s))
  {
    ServeOutcome(s, base, b, c, n, spec);
    var d := Served(c, n, spec, b);
    CountOneMore(c.claims, b, n, d.claims[n], Capacity(base, s));
  }

  lemma {:induction false} ServeFrom(s: nat, base: Block, b: string, c: Cluster, names: seq<string>, spec: Spec)
    requires Good(s, base, b, c) && Serving(base, b, c) && ReadyHold(c.claims, b)
    requires spec.sizeBit == s && Selects(spec, c.blocks[b])
    requires forall n | n in names :: n !in c.claims
    requires forall i, j | 0 <= i < j < |names| :: names[i] != names[j]
    requires |ReadyClaims(c.claims)| <= Capacity(base, s)
    ensures IsRun(c, ServeAll(names, spec, b))
    ensures |ReadyClaims(After(c, ServeAll(names, spec, b)).claims)|
         == Min(|ReadyClaims(c.claims)| + |names|, Capacity(base, s))
    decreases |names|
  {
    if names == [] {
    } else {
      var n := names[0];
      ServeRun(base, b, c, n, spec);
      ServeGood(s, base, b, c, n, spec);
      ServeCount(s, base, b, c, n, spec);
      var d := Served(c, n, spec, b);
      forall m | m in names[1..]
        ensures m !in d.claims
      {
        assert m in names && m != n;
        assert m !in d.claims.Keys;
      }
      ServeFrom(s, base, b, d, names[1..], spec);
      RunConcat(c, ServeSteps(n, spec, b), ServeAll(names[1..], spec, b));
    }
  }

  /** Starting from one unused block, serving any number of claims of 2^s addresses makes exactly as
      many of them ready as the capacity admits. */
  lemma ExactlyCapacityReady(s: nat, base: Block, b: string, labels: Labels, names: seq<string>, spec: Spec)
    requires b != "" && spec.sizeBit == s && Selects(spec, CIDRBlock(Some(base), labels))
    requires forall i, j | 0 <= i < j < |names| :: names[i] != names[j]
    ensures var start := Next(EMPTY, PutBlock(b, CIDRBlock(Some(base), labels)));
      && IsRun(start, ServeAll(names, spec, b))
      && |ReadyClaims(After(start, ServeAll(names, spec, b)).claims)| == Min(|names|, Capacity(base, s))
  {
    var start := Next(EMPTY, PutBlock(b, CIDRBlock(Some(base), labels)));
    GoodStep(s, base, b, EMPTY, PutBlock(b, CIDRBlock(Some(base), labels)));
    assert ReadyClaims(start.claims) == {};
    ServeFrom(s, base, b, start, names, spec);
  }
}
