/** One pass of the worker over a claim that nobody interrupts, and what it does to the claim. */
module ReconcilePass {
  import opened PrefixBlocks
  import opened FreeSpace
  import opened BlockCapacity
  import opened Claims
  import opened ClaimRuns

  /** The worker runs until it is idle, without any step of others in between. */
  ghost function Finish(c: Cluster, order: seq<string>): Cluster
    requires c.worker.Got? ==> c.worker.claim.spec.selector.Matching?
    requires c.worker.Got? ==> IsShuffle(order, Select(c.blocks, c.worker.claim.spec.selector).Keys)
    requires c.worker.Listed? ==> IsShuffle(order, c.worker.selected.Keys)
    decreases if c.worker.Got? then 3 else if c.worker.Listed? then 2 else if c.worker.Patching? then 1 else 0
  {
    match c.worker
    case Idle => c
    case Got(_, _) => Finish(Next(c, ListBlocks), order)
    case Listed(_, _, _) => Finish(Next(c, ListClaims(order)), order)
    case Patching(_, _, _) => Next(c, Patch)
  }

  lemma FinishIsRun(c: Cluster, order: seq<string>) returns (steps: seq<Step>)
    requires c.worker.Got? ==> c.worker.claim.spec.selector.Matching?
    requires c.worker.Got? ==> IsShuffle(order, Select(c.blocks, c.worker.claim.spec.selector).Keys)
    requires c.worker.Listed? ==> IsShuffle(order, c.worker.selected.Keys)
    ensures IsRun(c, steps) && After(c, steps) == Finish(c, order)
    decreases if c.worker.Got? then 3 else if c.worker.Listed? then 2 else if c.worker.Patching? then 1 else 0
  {
    match c.worker {
      case Idle => steps := [];
      case Got(_, _) =>
        var rest := FinishIsRun(Next(c, ListBlocks), order);
        steps := [ListBlocks] + rest;
        assert steps[1..] == rest;
      case Listed(_, _, _) =>
        var rest := FinishIsRun(Next(c, ListClaims(order)), order);
        steps := [ListClaims(order)] + rest;
        assert steps[1..] == rest;
      case Patching(_, _, _) =>
        steps := [Patch];
        assert steps[1..] == [];
    }
  }

  // ----- what a pass comes to

  /** The claim selects the block. */
  predicate Selects(c: Cluster, claim: Claim, n: string) {
    claim.spec.selector.Matching? && n in c.blocks && claim.spec.selector.matches(c.blocks[n].labels)
  }

  /** The claim could have this part of the block: it is of the size asked for, lies in the block, and
      overlaps no CIDR that another claim holds in it; a single address is not the block's first. */
  ghost predicate CanHave(c: Cluster, name: string, n: string, part: Block)
    requires name in c.claims
  {
    var claim := c.claims[name];
    && Selects(c, claim, n) && c.blocks[n].cidr.Some?
    && part.host == claim.spec.sizeBit && part.Within(c.blocks[n].cidr.value)
    && (claim.spec.sizeBit == 0 ==> part.Lo() != c.blocks[n].cidr.value.Lo())
    && forall m | m in c.claims && m != name && c.claims[m].status.blockName == n && c.claims[m].status.cidr.Some? ::
         part.Disjoint(c.claims[m].status.cidr.value)
  }

  predicate SameAllocation(s: Status, t: Status) {
    s.blockName == t.blockName && s.cidr == t.cidr && s.sizeBit == t.sizeBit
  }

  /** The status of a claim after a pass: as it was if it is up to date; otherwise an error for a
      malformed selector; the old allocation if it is ready in a block that is still selected; else a
      part of a selected block it can have; and an error only if there is none. */
  ghost predicate StatusOutcome(c: Cluster, name: string, s: Status)
    requires name in c.claims
  {
    var claim := c.claims[name];
    var was := claim.status;
    if was.phase == Ready && was.observedGeneration == claim.generation then s == was
    else
      && s.observedGeneration == claim.generation
      && if claim.spec.selector.Malformed? then
           s.phase == BindingError && SameAllocation(s, was)
           && s.message == "selector is invalid: " + claim.spec.selector.reason
         else if was.phase == Ready && Selects(c, claim, was.blockName) then
           s == was.(observedGeneration := claim.generation)
         else if s.phase == Ready then
           s.message == "" && s.cidr.Some? && CanHave(c, name, s.blockName, s.cidr.value)
           && s.sizeBit == claim.spec.sizeBit
         else
           s.phase == BindingError && SameAllocation(s, was)
           && (forall n, part :: !CanHave(c, name, n, part))
           && s.message == if exists n :: Selects(c, claim, n) then "no available CIDRBlock"
                           else "no matching CIDRBlock"
  }

  /** A pass touches the status of its own claim only. */
  ghost predicate PassOutcome(c: Cluster, name: string, after: map<string, Claim>) {
    && after.Keys == c.claims.Keys
    && (forall n | n in after && n != name :: after[n] == c.claims[n])
    && (name in after ==>
          && after[name] == c.claims[name].(status := after[name].status)
          && StatusOutcome(c, name, after[name].status))
  }

  lemma UsableIsCanHave(c: Cluster, name: string, n: string, part: Block)
    requires name in c.claims && "" !in c.blocks && Selects(c, c.claims[name], n)
    ensures var claim := c.claims[name];
      Usable(claim.spec.sizeBit, n, Select(c.blocks, claim.spec.selector), c.claims, name, part)
      <==> CanHave(c, name, n, part)
  {
    var claim := c.claims[name];
    if c.blocks[n].cidr.Some? && part.host == claim.spec.sizeBit {
      var base := c.blocks[n].cidr.value;
      var taken, reserved := TakenIn(c.claims, name, n), Reserved(base, claim.spec.sizeBit);
      assert Untouched(part, taken + reserved) <==> Untouched(part, taken) && Untouched(part, reserved);
      TakenUntouched(c, name, n, part);
      ReservedUntouched(base, part);
    }
  }

  lemma TakenUntouched(c: Cluster, name: string, n: string, part: Block)
    requires n != ""
    ensures Untouched(part, TakenIn(c.claims, name, n)) <==>
            forall m | m in c.claims && m != name && c.claims[m].status.blockName == n
                       && c.claims[m].status.cidr.Some? ::
              part.Disjoint(c.claims[m].status.cidr.value)
  {
    forall m | m in c.claims && m != name && c.claims[m].status.blockName == n && c.claims[m].status.cidr.Some?
      ensures c.claims[m].status.cidr.value in TakenIn(c.claims, name, n)
    {
    }
  }

  lemma ReservedUntouched(base: Block, part: Block)
    ensures Untouched(part, Reserved(base, part.host)) <==> (part.host == 0 ==> part.Lo() != base.Lo())
  {
    var first := Block(base.Lo(), 0);
    assert part.host == 0 ==> first in Reserved(base, part.host);
    Size(first);
    Size(part);
  }

  /** What is decided once blocks and claims are listed. */
  lemma DecideOutcome(c: Cluster, name: string, order: seq<string>)
    requires name in c.claims && "" !in c.blocks && c.claims[name].spec.selector.Matching?
    requires IsShuffle(order, Select(c.blocks, c.claims[name].spec.selector).Keys)
    requires !IsReady(c.claims[name], Select(c.blocks, c.claims[name].spec.selector)) && !UpToDate(c.claims[name])
    ensures var claim := c.claims[name];
      StatusOutcome(c, name, Decide(name, claim, Select(c.blocks, claim.spec.selector), c.claims, order))
  {
    var claim := c.claims[name];
    var selected := Select(c.blocks, claim.spec.selector);
    AllocateExact(claim.spec.sizeBit, order, selected, c.claims, name);
    forall n, part | n in selected
      ensures Usable(claim.spec.sizeBit, n, selected, c.claims, name, part) <==> CanHave(c, name, n, part)
    {
      UsableIsCanHave(c, name, n, part);
    }
    assert forall n :: n in selected.Keys <==> Selects(c, claim, n);
    assert |selected| == |selected.Keys|;
    assert |selected| == 0 <==> forall n :: n !in selected.Keys by {
      assert (forall n :: n !in selected.Keys) ==> selected.Keys == {};
    }
  }

  /** The status that a pass leaves, path by path. */
  ghost function Result(c: Cluster, name: string, order: seq<string>): Status
    requires name in c.claims
    requires c.claims[name].spec.selector.Matching? ==>
               IsShuffle(order, Select(c.blocks, c.claims[name].spec.selector).Keys)
  {
    var claim := c.claims[name];
    if UpToDate(claim) then claim.status
    else if claim.spec.selector.Malformed? then
      claim.status.(observedGeneration := claim.generation, phase := BindingError,
                    message := "selector is invalid: " + claim.spec.selector.reason)
    else
      var selected := Select(c.blocks, claim.spec.selector);
      if IsReady(claim, selected) then claim.status.(observedGeneration := claim.generation)
      else Decide(name, claim, selected, c.claims, order)
  }

  lemma PassResult(c: Cluster, name: string, order: seq<string>)
    requires c.worker.Idle? && name in c.claims
    requires c.claims[name].spec.selector.Matching? ==>
               IsShuffle(order, Select(c.blocks, c.claims[name].spec.selector).Keys)
    ensures Finish(Next(c, Get(name)), order).claims
         == c.claims[name := c.claims[name].(status := Result(c, name, order))]
  {
    var got := Next(c, Get(name));
    if got.worker.Got? {
      var listed := Next(got, ListBlocks);
      assert Finish(got, order) == Finish(listed, order);
      if listed.worker.Listed? {
        var decided := Next(listed, ListClaims(order));
        assert Finish(listed, order) == Finish(decided, order) == Next(decided, Patch);
      }
    }
  }

  /** Every pass, on every path, comes to this outcome. */
  lemma PassDecides(c: Cluster, name: string, order: seq<string>)
    requires c.worker.Idle? && "" !in c.blocks
    requires name in c.claims && c.claims[name].spec.selector.Matching? ==>
               IsShuffle(order, Select(c.blocks, c.claims[name].spec.selector).Keys)
    ensures PassOutcome(c, name, Finish(Next(c, Get(name)), order).claims)
  {
    if name in c.claims {
      PassResult(c, name, order);
      var claim := c.claims[name];
      if !UpToDate(claim) && claim.spec.selector.Matching? && !IsReady(claim, Select(c.blocks, claim.spec.selector)) {
        DecideOutcome(c, name, order);
      }
    }
  }

  /** A claim that counts as up to date after a pass, and did not before, names a block that it
      selects. */
  lemma UpToDateIsBound(c: Cluster, name: string, order: seq<string>)
    requires c.worker.Idle? && "" !in c.blocks && name in c.claims && !UpToDate(c.claims[name])
    requires c.claims[name].spec.selector.Matching? ==>
               IsShuffle(order, Select(c.blocks, c.claims[name].spec.selector).Keys)
    ensures var after := Finish(Next(c, Get(name)), order).claims;
      && name in after
      && (UpToDate(after[name]) ==> Selects(c, c.claims[name], after[name].status.blockName))
  {
    PassDecides(c, name, order);
    var after := Finish(Next(c, Get(name)), order).claims;
    assert name in after.Keys;
  }

  /** Editing a ready claim: as long as the new selector still matches its block, the next pass keeps
      block, CIDR and size, whatever size the new spec asks for, and the claim counts as up to date.
      Only a claim whose block is no longer selected is decided anew. */
  lemma EditOfReadyClaim(c: Cluster, name: string, spec: Spec, order: seq<string>)
    requires c.worker.Idle? && name in c.claims && c.claims[name].status.phase == Ready
    requires spec.selector.Matching? && IsShuffle(order, Select(c.blocks, spec.selector).Keys)
    ensures var before := c.claims[name].status;
      var edited := Next(c, EditClaim(name, spec));
      var selected := Select(c.blocks, spec.selector);
      var done := Finish(Next(edited, Get(name)), order);
      && name in done.claims
      && var claim := done.claims[name];
      && claim.spec == spec
      && (before.blockName in selected ==>
            UpToDate(claim) && claim.status == before.(observedGeneration := claim.generation))
      && (before.blockName !in selected && !UpToDate(edited.claims[name]) ==>
            claim.status == Decide(name, edited.claims[name], selected, edited.claims, order))
  {
    var got := Next(Next(c, EditClaim(name, spec)), Get(name));
    if got.worker.Got? {
      var listed := Next(got, ListBlocks);
      assert Finish(got, order) == Finish(listed, order);
      if listed.worker.Listed? {
        var decided := Next(listed, ListClaims(order));
        assert Finish(listed, order) == Finish(decided, order) == Next(decided, Patch);
      }
    }
  }
}
