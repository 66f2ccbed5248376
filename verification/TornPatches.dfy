/** Torn patches: a status patch goes by name, so it may reach a claim that was deleted and created
    anew after the worker read it. The server refuses those without generation or phase; the others
    are the only steps that can harm sizes and placement, and here is which of them do. */
module TornPatches {
  import opened PrefixBlocks
  import opened Claims
  import opened ClaimRuns

  predicate Torn(c: Cluster, s: Step) {
    s.Patch? && c.worker.Patching? && c.worker.name in c.claims
    && c.claims[c.worker.name].uid != c.worker.claim.uid
    && !Refused(c.claims[c.worker.name].status, c.worker.claim.status, c.worker.write)
  }

  /** What the worker is about to write takes no block away, and a new CIDR comes with a block. */
  ghost predicate Decided(c: Cluster) {
    c.worker.Patching? ==>
      var read, write := c.worker.claim.status, c.worker.write;
      && (read.blockName != "" ==> write.blockName != "")
      && (write.cidr != read.cidr ==> write.cidr.Some? && write.blockName != "")
  }

  lemma DecidedStep(c: Cluster, s: Step)
    requires Inv(c) && Decided(c) && Enabled(c, s)
    ensures Decided(Next(c, s))
  {
    if s.ListClaims? {
      var w := c.worker;
      AllocateExact(w.claim.spec.sizeBit, s.order, w.selected, c.claims, w.name);
    }
  }

  // ----- sizes

  /** A CIDR comes with the block it lies in and has 2^sizeBit addresses; ready claims have one. */
  predicate Sized(s: Status) {
    && (s.cidr.Some? <==> s.blockName != "")
    && s.sizeBit == (if s.cidr.Some? then s.cidr.value.host else 0)
    && (s.phase == Ready ==> s.cidr.Some?)
  }

  ghost predicate ClaimsSized(claims: map<string, Claim>) {
    forall n | n in claims :: Sized(claims[n].status)
  }

  ghost predicate AllSized(c: Cluster) {
    && ClaimsSized(c.claims)
    && (!c.worker.Idle? ==> Sized(c.worker.claim.status))
    && (c.worker.Patching? ==> Sized(c.worker.write))
  }

  /** The patch carries the whole allocation: the claim had none before, or keeps the one it had
      without being declared ready anew, or changes block, CIDR and size together. */
  predicate CarriesAll(read: Status, write: Status) {
    || read.blockName == ""
    || (write.blockName == read.blockName && write.cidr == read.cidr
        && (write.phase == Ready ==> read.phase == Ready))
    || (write.blockName != read.blockName && write.cidr != read.cidr
        && (write.sizeBit != read.sizeBit || write.sizeBit == 0))
  }

  lemma DecideSized(name: string, claim: Claim, selected: map<string, CIDRBlock>,
                    claims: map<string, Claim>, order: seq<string>)
    requires forall n | n in order :: n in selected
    requires Sized(claim.status) && "" !in selected
    ensures Sized(Decide(name, claim, selected, claims, order))
  {
    AllocateExact(claim.spec.sizeBit, order, selected, claims, name);
  }

  lemma UntornSized(c: Cluster, s: Step)
    requires Inv(c) && AllSized(c) && Enabled(c, s) && !Torn(c, s)
    ensures AllSized(Next(c, s))
  {
    if s.ListClaims? {
      var w := c.worker;
      DecideSized(w.name, w.claim, w.selected, c.claims, s.order);
    }
  }

  /** A torn patch leaves all sizes right exactly when it carries the whole allocation. */
  lemma TornExactly(c: Cluster, s: Step)
    requires Inv(c) && Decided(c) && AllSized(c) && Enabled(c, s) && Torn(c, s)
    ensures AllSized(Next(c, s)) <==> CarriesAll(c.worker.claim.status, c.worker.write)
    ensures ClaimsSized(Next(c, s).claims) <==> CarriesAll(c.worker.claim.status, c.worker.write)
  {
    var read, write := c.worker.claim.status, c.worker.write;
    var claims := Next(c, s).claims;
    assert claims[c.worker.name].status == MergePatch(FRESH, read, write);
    assert Sized(MergePatch(FRESH, read, write)) <==> CarriesAll(read, write);
    assert forall n | n in claims && n != c.worker.name :: claims[n] == c.claims[n];
  }

  ghost predicate AlwaysSized(c: Cluster, steps: seq<Step>)
    requires IsRun(c, steps)
    decreases |steps|
  {
    ClaimsSized(c.claims) && (steps == [] || AlwaysSized(Next(c, steps[0]), steps[1..]))
  }

  /** Every torn patch of the run carries the whole allocation. */
  ghost predicate TornCarryAll(c: Cluster, steps: seq<Step>)
    requires IsRun(c, steps)
    decreases |steps|
  {
    steps == [] ||
    ((Torn(c, steps[0]) ==> CarriesAll(c.worker.claim.status, c.worker.write))
     && TornCarryAll(Next(c, steps[0]), steps[1..]))
  }

  lemma {:induction false} SizedFrom(c: Cluster, steps: seq<Step>)
    requires Inv(c) && Decided(c) && AllSized(c) && IsRun(c, steps)
    ensures AlwaysSized(c, steps) <==> TornCarryAll(c, steps)
    decreases |steps|
  {
    if steps == [] {
    } else {
      var s, next := steps[0], Next(c, steps[0]);
      InvStep(c, s);
      DecidedStep(c, s);
      if Torn(c, s) {
        TornExactly(c, s);
      } else {
        UntornSized(c, s);
      }
      if AllSized(next) {
        SizedFrom(next, steps[1..]);
      }
    }
  }

  /** In a run from the empty cluster every CIDR always has 2^status.sizeBit addresses and every
      ready claim has one, if and only if every torn patch carries the whole allocation. */
  lemma SizesInRuns(steps: seq<Step>)
    requires IsRun(EMPTY, steps)
    ensures AlwaysSized(EMPTY, steps) <==> TornCarryAll(EMPTY, steps)
    ensures TornCarryAll(EMPTY, steps) ==> ClaimsSized(After(EMPTY, steps).claims)
  {
    SizedFrom(EMPTY, steps);
    if TornCarryAll(EMPTY, steps) {
      SizedAtTheEnd(EMPTY, steps);
    }
  }

  lemma {:induction false} SizedAtTheEnd(c: Cluster, steps: seq<Step>)
    requires IsRun(c, steps) && AlwaysSized(c, steps)
    ensures ClaimsSized(After(c, steps).claims)
    decreases |steps|
  {
    if steps == [] {
    } else {
      SizedAtTheEnd(Next(c, steps[0]), steps[1..]);
    }
  }

  // ----- placement

  /** A CIDR comes with the name of its block. */
  predicate Named(s: Status) {
    s.cidr.Some? ==> s.blockName != ""
  }

  ghost predicate ClaimsNamed(claims: map<string, Claim>) {
    forall n | n in claims :: Named(claims[n].status)
  }

  ghost predicate AllNamed(c: Cluster) {
    && ClaimsNamed(c.claims)
    && (!c.worker.Idle? ==> Named(c.worker.claim.status))
    && (c.worker.Patching? ==> Named(c.worker.write))
  }

  /** A patch with a new CIDR also carries the name of its block, which it does not if the claim had
      another CIDR of the same block before. */
  predicate CarriesName(read: Status, write: Status) {
    write.cidr != read.cidr ==> write.blockName != read.blockName
  }

  lemma UntornNamed(c: Cluster, s: Step)
    requires Inv(c) && Decided(c) && AllNamed(c) && Enabled(c, s) && !Torn(c, s)
    ensures AllNamed(Next(c, s))
  {
    DecidedStep(c, s);
  }

  /** A torn patch leaves a CIDR without block exactly when it carries a CIDR but no name. */
  lemma TornNamed(c: Cluster, s: Step)
    requires Inv(c) && Decided(c) && AllNamed(c) && Enabled(c, s) && Torn(c, s)
    ensures AllNamed(Next(c, s)) <==> CarriesName(c.worker.claim.status, c.worker.write)
    ensures ClaimsNamed(Next(c, s).claims) <==> CarriesName(c.worker.claim.status, c.worker.write)
  {
    var read, write := c.worker.claim.status, c.worker.write;
    var claims := Next(c, s).claims;
    assert claims[c.worker.name].status == MergePatch(FRESH, read, write);
    assert forall n | n in claims && n != c.worker.name :: claims[n] == c.claims[n];
  }

  /** Every CIDR lies in the block its claim names, and all of them are disjoint. */
  ghost predicate Placed(plan: map<string, Block>, claims: map<string, Claim>) {
    forall n | n in claims && claims[n].status.cidr.Some? ::
      && claims[n].status.blockName != "" && claims[n].status.blockName in plan
      && claims[n].status.cidr.value.Within(plan[claims[n].status.blockName])
      && forall m | m in claims && m != n && claims[m].status.cidr.Some? ::
           claims[n].status.cidr.value.Disjoint(claims[m].status.cidr.value)
  }

  ghost predicate DisjointPlan(plan: map<string, Block>) {
    forall a, b | a in plan && b in plan && a != b :: plan[a].Disjoint(plan[b])
  }

  lemma PlacedIffNamed(plan: map<string, Block>, c: Cluster)
    requires Inv(c) && AllInside(plan, c) && DisjointPlan(plan)
    ensures Placed(plan, c.claims) <==> ClaimsNamed(c.claims)
  {
    if ClaimsNamed(c.claims) {
      forall n, m | n in c.claims && m in c.claims && n != m
                    && c.claims[n].status.cidr.Some? && c.claims[m].status.cidr.Some?
        ensures c.claims[n].status.cidr.value.Disjoint(c.claims[m].status.cidr.value)
      {
        assert Inside(plan, c.claims[n].status) && Inside(plan, c.claims[m].status);
        assert ApartFromOthers(c.claims, m, c.claims[m].status);
      }
    }
  }

  ghost predicate AlwaysPlaced(plan: map<string, Block>, c: Cluster, steps: seq<Step>)
    requires IsRun(c, steps)
    decreases |steps|
  {
    Placed(plan, c.claims) && (steps == [] || AlwaysPlaced(plan, Next(c, steps[0]), steps[1..]))
  }

  /** No torn patch of the run carries a CIDR without the name of its block. */
  ghost predicate TornCarryNames(c: Cluster, steps: seq<Step>)
    requires IsRun(c, steps)
    decreases |steps|
  {
    steps == [] ||
    ((Torn(c, steps[0]) ==> CarriesName(c.worker.claim.status, c.worker.write))
     && TornCarryNames(Next(c, steps[0]), steps[1..]))
  }

  lemma {:induction false} PlacedFrom(plan: map<string, Block>, c: Cluster, steps: seq<Step>)
    requires Inv(c) && Decided(c) && AllNamed(c) && AllInside(plan, c) && DisjointPlan(plan)
    requires IsRun(c, steps) && forall s | s in steps :: FollowsPlan(plan, s)
    ensures AlwaysPlaced(plan, c, steps) <==> TornCarryNames(c, steps)
    decreases |steps|
  {
    PlacedIffNamed(plan, c);
    if steps == [] {
    } else {
      var s, next := steps[0], Next(c, steps[0]);
      InvStep(c, s);
      DecidedStep(c, s);
      InsideStep(plan, c, s);
      PlacedIffNamed(plan, next);
      if Torn(c, s) {
        TornNamed(c, s);
      } else {
        UntornNamed(c, s);
      }
      if AllNamed(next) {
        PlacedFrom(plan, next, steps[1..]);
      }
    }
  }

  /** When block names keep their CIDRs and those are disjoint: throughout a run every CIDR lies in
      its block and all claims are disjoint, if and only if no torn patch of the run carries a CIDR
      without the name of its block. */
  lemma GloballyDisjoint(plan: map<string, Block>, steps: seq<Step>)
    requires IsRun(EMPTY, steps) && DisjointPlan(plan)
    requires forall s | s in steps :: FollowsPlan(plan, s)
    ensures AlwaysPlaced(plan, EMPTY, steps) <==> TornCarryNames(EMPTY, steps)
    ensures TornCarryNames(EMPTY, steps) ==> Placed(plan, After(EMPTY, steps).claims)
  {
    PlacedFrom(plan, EMPTY, steps);
    if TornCarryNames(EMPTY, steps) {
      PlacedAtTheEnd(plan, EMPTY, steps);
    }
  }

  lemma {:induction false} PlacedAtTheEnd(plan: map<string, Block>, c: Cluster, steps: seq<Step>)
    requires IsRun(c, steps) && AlwaysPlaced(plan, c, steps)
    ensures Placed(plan, After(c, steps).claims)
    decreases |steps|
  {
    if steps == [] {
    } else {
      PlacedAtTheEnd(plan, Next(c, steps[0]), steps[1..]);
    }
  }
}
