/** The claim controller as a step system. One worker reconciles; creations, deletions and edits of
    claims and blocks may happen between any two of its requests. */
module ClaimRuns {
  import opened PrefixBlocks
  import opened BlockCapacity
  import opened Claims

  /** How far the worker got with the claim it is reconciling. */
  datatype Worker =
    | Idle
    | Got(name: string, claim: Claim)
    | Listed(name: string, claim: Claim, selected: map<string, CIDRBlock>)
    | Patching(name: string, claim: Claim, write: Status)

  datatype Cluster = Cluster(claims: map<string, Claim>, blocks: map<string, CIDRBlock>,
                             nextUid: nat, worker: Worker)

  datatype Step =
    | CreateClaim(name: string, spec: Spec)
    | EditClaim(name: string, spec: Spec)
    | DeleteClaim(name: string)
    | PutBlock(name: string, block: CIDRBlock)
    | DeleteBlock(name: string)
    | Get(name: string)
    | ListBlocks
    | ListClaims(order: seq<string>)
    | Patch
    | RequestFails

  ghost predicate Enabled(c: Cluster, s: Step) {
    match s
    case CreateClaim(name, _) => name !in c.claims
    case EditClaim(name, _) => name in c.claims
    case DeleteClaim(name) => name in c.claims
    case PutBlock(name, _) => name != ""
    case DeleteBlock(name) => name in c.blocks
    case Get(_) => c.worker.Idle?
    case ListBlocks => c.worker.Got? && c.worker.claim.spec.selector.Matching?
    case ListClaims(order) => c.worker.Listed? && IsShuffle(order, c.worker.selected.Keys)
    case Patch => c.worker.Patching?
    case RequestFails => !c.worker.Idle?
  }

  /** Writing the same spec again changes nothing. */
  ghost function EditedClaim(claim: Claim, spec: Spec): Claim {
    if spec == claim.spec then claim else claim.(spec := spec, generation := claim.generation + 1)
  }

  ghost function Next(c: Cluster, s: Step): Cluster
    requires Enabled(c, s)
  {
    match s
    case CreateClaim(name, spec) =>
      c.(claims := c.claims[name := Claim(c.nextUid, 1, spec, FRESH)], nextUid := c.nextUid + 1)
    case EditClaim(name, spec) =>
      var claim := c.claims[name];
      c.(claims := c.claims[name := EditedClaim(claim, spec)])
    case DeleteClaim(name) =>
      c.(claims := c.claims - {name})
    case PutBlock(name, block) =>
      c.(blocks := c.blocks[name := block])
    case DeleteBlock(name) =>
      c.(blocks := c.blocks - {name})
    case Get(name) =>
      if name !in c.claims || UpToDate(c.claims[name]) then c
      else
        var claim := c.claims[name];
        if claim.spec.selector.Malformed? then
          c.(worker := Patching(name, claim,
                                claim.status.(observedGeneration := claim.generation, phase := BindingError,
                                message := "selector is invalid: " + claim.spec.selector.reason)))
        else
          c.(worker := Got(name, claim))
    case ListBlocks =>
      var w := c.worker;
      var selected := Select(c.blocks, w.claim.spec.selector);
      if IsReady(w.claim, selected) then
        c.(worker := Patching(w.name, w.claim, w.claim.status.(observedGeneration := w.claim.generation)))
      else
        c.(worker := Listed(w.name, w.claim, selected))
    case ListClaims(order) =>
      var w := c.worker;
      c.(worker := Patching(w.name, w.claim, Decide(w.name, w.claim, w.selected, c.claims, order)))
    case Patch =>
      var w := c.worker;
      if w.name in c.claims then
        var claim := c.claims[w.name];
        c.(claims := c.claims[w.name := claim.(status := Patched(claim.status, w.claim.status, w.write))],
           worker := Idle)
      else c.(worker := Idle)
    case RequestFails =>
      c.(worker := Idle)
  }

  const EMPTY := Cluster(map[], map[], 0, Idle)

  /** The steps can be taken one after the other from `c`. */
  ghost predicate IsRun(c: Cluster, steps: seq<Step>)
    decreases |steps|
  {
    steps == [] || (Enabled(c, steps[0]) && IsRun(Next(c, steps[0]), steps[1..]))
  }

  ghost function After(c: Cluster, steps: seq<Step>): Cluster
    requires IsRun(c, steps)
    decreases |steps|
  {
    if steps == [] then c else After(Next(c, steps[0]), steps[1..])
  }

  // ----- disjointness

  /** Two statuses that name the same block hold disjoint CIDRs. */
  predicate Apart(s: Status, t: Status) {
    s.blockName == t.blockName != "" && s.cidr.Some? && t.cidr.Some? ==> s.cidr.value.Disjoint(t.cidr.value)
  }

  ghost predicate ApartFromOthers(claims: map<string, Claim>, self: string, s: Status) {
    forall n | n in claims && n != self :: Apart(claims[n].status, s)
  }

  ghost predicate SameBlockDisjoint(claims: map<string, Claim>) {
    forall n | n in claims :: ApartFromOthers(claims, n, claims[n].status)
  }

  /** What the worker holds agrees with the claim it read, if that is still the stored object; an
      object that took its name meanwhile still has the status of a new one. */
  ghost predicate WorkerConsistent(c: Cluster) {
    !c.worker.Idle? ==>
      var w := c.worker;
      && w.claim.uid < c.nextUid
      && (w.name in c.claims ==>
            c.claims[w.name].status == if c.claims[w.name].uid == w.claim.uid then w.claim.status else FRESH)
      && ApartFromOthers(c.claims, w.name, w.claim.status)
      && (w.Patching? ==> ApartFromOthers(c.claims, w.name, w.write))
      && (w.Listed? ==> "" !in w.selected)
  }

  ghost predicate Inv(c: Cluster) {
    && SameBlockDisjoint(c.claims)
    && (forall n | n in c.claims :: c.claims[n].uid < c.nextUid)
    && "" !in c.blocks
    && WorkerConsistent(c)
  }

  lemma DecideApart(name: string, claim: Claim, selected: map<string, CIDRBlock>,
                    claims: map<string, Claim>, order: seq<string>)
    requires forall n | n in order :: n in selected
    requires ApartFromOthers(claims, name, claim.status) && "" !in selected
    ensures ApartFromOthers(claims, name, Decide(name, claim, selected, claims, order))
  {
    AllocateExact(claim.spec.sizeBit, order, selected, claims, name);
    var write := Decide(name, claim, selected, claims, order);
    var got := Allocate(claim.spec.sizeBit, order, selected, claims, name);
    if |selected| != 0 && got.Some? {
      forall n | n in claims && n != name
        ensures Apart(claims[n].status, write)
      {
        var s := claims[n].status;
        if s.blockName == write.blockName && s.cidr.Some? {
          assert s.cidr.value in TakenIn(claims, name, got.value.0);
        }
      }
    }
  }

  lemma PatchApart(c: Cluster)
    requires Inv(c) && c.worker.Patching? && c.worker.name in c.claims
    ensures var w := c.worker;
      ApartFromOthers(c.claims, w.name, Patched(c.claims[w.name].status, w.claim.status, w.write))
  {
  }

  lemma InvStep(c: Cluster, s: Step)
    requires Inv(c) && Enabled(c, s)
    ensures Inv(Next(c, s))
  {
    match s
    case ListClaims(order) => ListClaimsStep(c, order);
    case Patch => PatchStep(c);
    case _ =>
  }

  lemma ListClaimsStep(c: Cluster, order: seq<string>)
    requires Inv(c) && Enabled(c, ListClaims(order))
    ensures Inv(Next(c, ListClaims(order)))
  {
    var w := c.worker;
    DecideApart(w.name, w.claim, w.selected, c.claims, order);
  }

  lemma PatchStep(c: Cluster)
    requires Inv(c) && Enabled(c, Patch)
    ensures Inv(Next(c, Patch))
  {
    if c.worker.name in c.claims {
      PatchApart(c);
    }
  }

  lemma {:induction false} InvRun(c: Cluster, steps: seq<Step>)
    requires Inv(c) && IsRun(c, steps)
    ensures Inv(After(c, steps))
    decreases |steps|
  {
    if steps == [] {
    } else {
      InvStep(c, steps[0]);
      InvRun(Next(c, steps[0]), steps[1..]);
    }
  }

  /** In every run, claims whose statuses name the same block hold pairwise disjoint CIDRs,
      whatever their phases and however blocks and claims are edited meanwhile. */
  lemma NeverOverlapping(steps: seq<Step>)
    requires IsRun(EMPTY, steps)
    ensures SameBlockDisjoint(After(EMPTY, steps).claims)
  {
    InvRun(EMPTY, steps);
  }

  // ----- blocks that are never moved

  /** Every CIDR that `steps` gives to a block name is the one that `plan` lists for the name. */
  predicate FollowsPlan(plan: map<string, Block>, s: Step) {
    s.PutBlock? && s.block.cidr.Some? ==> s.name in plan && plan[s.name] == s.block.cidr.value
  }

  ghost predicate OnPlan(plan: map<string, Block>, blocks: map<string, CIDRBlock>) {
    forall n | n in blocks && blocks[n].cidr.Some? :: n in plan && plan[n] == blocks[n].cidr.value
  }

  /** The CIDR lies in the planned block, and is not its network address. */
  predicate Inside(plan: map<string, Block>, s: Status) {
    s.blockName != "" && s.cidr.Some? ==>
      && s.blockName in plan
      && s.cidr.value.Within(plan[s.blockName])
      && s.cidr.value !in Reserved(plan[s.blockName], s.cidr.value.host)
  }

  ghost predicate AllInside(plan: map<string, Block>, c: Cluster) {
    && OnPlan(plan, c.blocks)
    && (c.worker.Listed? ==> OnPlan(plan, c.worker.selected))
    && (forall n | n in c.claims :: Inside(plan, c.claims[n].status))
    && (!c.worker.Idle? ==> Inside(plan, c.worker.claim.status))
    && (c.worker.Patching? ==> Inside(plan, c.worker.write))
  }

  lemma DecideInside(plan: map<string, Block>, name: string, claim: Claim, selected: map<string, CIDRBlock>,
                     claims: map<string, Claim>, order: seq<string>)
    requires forall n | n in order :: n in selected
    requires OnPlan(plan, selected) && Inside(plan, claim.status)
    ensures Inside(plan, Decide(name, claim, selected, claims, order))
  {
    AllocateExact(claim.spec.sizeBit, order, selected, claims, name);
    var got := Allocate(claim.spec.sizeBit, order, selected, claims, name);
    if |selected| != 0 && got.Some? {
      Size(got.value.1);
    }
  }

  lemma InsideStep(plan: map<string, Block>, c: Cluster, s: Step)
    requires Inv(c) && AllInside(plan, c) && Enabled(c, s) && FollowsPlan(plan, s)
    ensures AllInside(plan, Next(c, s))
  {
    if s.ListClaims? {
      var w := c.worker;
      DecideInside(plan, w.name, w.claim, w.selected, c.claims, s.order);
    }
  }

  lemma {:induction false} InsideFrom(plan: map<string, Block>, c: Cluster, steps: seq<Step>)
    requires Inv(c) && AllInside(plan, c) && IsRun(c, steps)
    requires forall s | s in steps :: FollowsPlan(plan, s)
    ensures AllInside(plan, After(c, steps))
    decreases |steps|
  {
    if steps == [] {
    } else {
      InvStep(c, steps[0]);
      InsideStep(plan, c, steps[0]);
      InsideFrom(plan, Next(c, steps[0]), steps[1..]);
    }
  }
}
