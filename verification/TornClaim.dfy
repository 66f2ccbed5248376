/** Two runs in which a patch meant for a deleted claim reaches its re-created namesake: one loses
    the size of a CIDR, the other gives the same CIDR to two ready claims. */
module TornClaim {
  import opened Powers
  import opened PrefixBlocks
  import opened FreeSpace
  import opened Options
  import opened BlockCapacity
  import opened Claims
  import opened ClaimRuns
  import opened TornPatches

  /** Some run leads from one cluster to the other and gives block names only their planned CIDRs. */
  ghost predicate Reaches(plan: map<string, Block>, c: Cluster, d: Cluster) {
    exists steps :: IsRun(c, steps) && After(c, steps) == d && forall s | s in steps :: FollowsPlan(plan, s)
  }

  lemma ReachesItself(plan: map<string, Block>, c: Cluster)
    ensures Reaches(plan, c, c)
  {
    assert IsRun(c, []) && After(c, []) == c;
  }

  lemma ReachesByStep(plan: map<string, Block>, c: Cluster, s: Step, d: Cluster)
    requires Enabled(c, s) && FollowsPlan(plan, s) && Reaches(plan, Next(c, s), d)
    ensures Reaches(plan, c, d)
  {
    var steps :| IsRun(Next(c, s), steps) && After(Next(c, s), steps) == d
                 && forall t | t in steps :: FollowsPlan(plan, t);
    var all := [s] + steps;
    assert all[0] == s && all[1..] == steps;
    assert IsRun(c, all) && After(c, all) == d;
  }

  /** An unused block offers its first part. */
  lemma UnusedOffer(base: Block, s: nat)
    requires 0 < s <= base.host
    ensures Offer(base, {}, s) == Some(FirstSub(base, s))
  {
    assert {} + Reserved(base, s) == {};
    assert Untouched(base, {});
    assert FreeIn(base, {}) == [base];
  }

  const ANY := Matching("", (l: Labels) => true)

  /** What a claim that selects anything is given in the only block, if nobody else holds space. */
  function Given(claim: Claim, name: string, base: Block): Status
    requires claim.spec.sizeBit <= base.host
  {
    Status(claim.generation, Ready, "", name, Some(FirstSub(base, claim.spec.sizeBit)), claim.spec.sizeBit)
  }

  /** The worker is idle, and a pass over the claim would allocate in the only block, of which
      nothing is counted as used. */
  ghost predicate Allocates(c: Cluster, n: string, name: string, base: Block) {
    && c.worker.Idle? && n in c.claims && name != ""
    && c.blocks == map[name := CIDRBlock(Some(base), map[])]
    && c.claims[n].spec.selector == ANY && 0 < c.claims[n].spec.sizeBit <= base.host
    && !(c.claims[n].status.phase == Ready
         && (c.claims[n].status.observedGeneration == c.claims[n].generation || c.claims[n].status.blockName == name))
    && TakenIn(c.claims, n, name) == {}
  }

  function AboutToPatch(c: Cluster, n: string, write: Status): Cluster
    requires n in c.claims
  {
    c.(worker := Patching(n, c.claims[n], write))
  }

  lemma DecideAlone(c: Cluster, n: string, name: string, base: Block)
    requires Allocates(c, n, name, base)
    ensures Decide(n, c.claims[n], c.blocks, c.claims, [name]) == Given(c.claims[n], name, base)
  {
    UnusedOffer(base, c.claims[n].spec.sizeBit);
    assert c.blocks.Keys == {name};
    assert |c.blocks| == 1;
  }

  /** The worker gets as far as its patch. */
  lemma Reconciling(plan: map<string, Block>, c: Cluster, n: string, name: string, base: Block, d: Cluster)
    requires Allocates(c, n, name, base)
    requires Reaches(plan, AboutToPatch(c, n, Given(c.claims[n], name, base)), d)
    ensures Reaches(plan, c, d)
  {
    var got := c.(worker := Got(n, c.claims[n]));
    var listed := c.(worker := Listed(n, c.claims[n], c.blocks));
    DecideAlone(c, n, name, base);
    assert c.blocks.Keys == {name} && [name][0] == name;
    assert IsShuffle([name], c.blocks.Keys);
    ReachesByStep(plan, listed, ListClaims([name]), d);
    assert Select(c.blocks, ANY) == c.blocks;
    assert Next(got, ListBlocks) == listed;
    ReachesByStep(plan, got, ListBlocks, d);
    assert Next(c, Get(n)) == got;
    ReachesByStep(plan, c, Get(n), d);
  }

  function One(claim: Claim): map<string, Claim> {
    map["x" := claim]
  }

  const INVALID := "selector is invalid: "

  /** A claim whose selector was edited to a malformed one: it keeps what it has, but is not ready. */
  function Broken(held: Status): Status {
    held.(observedGeneration := 2, phase := BindingError, message := INVALID)
  }

  lemma BreaksSelector(plan: map<string, Block>, c: Cluster, held: Status, want: Spec, bad: Spec, d: Cluster)
    requires bad.selector == Malformed("") && want.selector == ANY
    requires held.phase == Ready && held.observedGeneration == 1 && held.message == ""
    requires c.worker.Idle? && c.claims == One(Claim(0, 1, want, held))
    requires Reaches(plan, c.(claims := One(Claim(0, 2, bad, Broken(held)))), d)
    ensures Reaches(plan, c, d)
  {
    var claim := Claim(0, 2, bad, held);
    var c1 := c.(claims := One(claim));
    var c2 := AboutToPatch(c1, "x", Broken(held));
    assert Next(c2, Patch) == c.(claims := One(claim.(status := Broken(held))));
    ReachesByStep(plan, c2, Patch, d);
    assert INVALID + "" == INVALID;
    assert Next(c1, Get("x")) == c2;
    ReachesByStep(plan, c1, Get("x"), d);
    assert Next(c, EditClaim("x", bad)) == c1;
    ReachesByStep(plan, c, EditClaim("x", bad), d);
  }

  // ----- the size is lost

  const WANT := Spec(ANY, 2)
  const BAD := Spec(Malformed(""), 2)

  const OLD := Block(0, 4)
  const NEW := Block(1, 4)
  const TWO_BLOCKS: map<string, Block> := map["old" := OLD, "new" := NEW]

  function Holding(base: Block): map<string, CIDRBlock> {
    map[if base == OLD then "old" else "new" := CIDRBlock(Some(base), map[])]
  }

  /** What the claim was given in the old block, is about to be given in the new one, and what of
      that reaches its namesake: all but the size, which did not change. */
  const OLD_STATUS := Status(1, Ready, "", "old", Some(Block(0, 2)), 2)
  const NEW_STATUS := Status(3, Ready, "", "new", Some(Block(4, 2)), 2)
  const TORN_STATUS := Status(3, Ready, "", "new", Some(Block(4, 2)), 0)

  /** First part: the claim is served from the old block. */
  lemma ServedFromOld(d: Cluster)
    requires Reaches(TWO_BLOCKS, Cluster(One(Claim(0, 1, WANT, OLD_STATUS)), Holding(OLD), 1, Idle), d)
    ensures Reaches(TWO_BLOCKS, EMPTY, d)
  {
    var claim := Claim(0, 1, WANT, FRESH);
    var c1 := Cluster(map[], Holding(OLD), 0, Idle);
    var c2 := Cluster(One(claim), Holding(OLD), 1, Idle);
    assert FirstSub(OLD, 2) == Block(0, 2);
    assert TakenIn(c2.claims, "x", "old") == {};
    assert Next(AboutToPatch(c2, "x", OLD_STATUS), Patch) == c2.(claims := One(claim.(status := OLD_STATUS)));
    ReachesByStep(TWO_BLOCKS, AboutToPatch(c2, "x", OLD_STATUS), Patch, d);
    Reconciling(TWO_BLOCKS, c2, "x", "old", OLD, d);
    assert Next(c1, CreateClaim("x", WANT)) == c2;
    ReachesByStep(TWO_BLOCKS, c1, CreateClaim("x", WANT), d);
    var put := PutBlock("old", CIDRBlock(Some(OLD), map[]));
    assert Next(EMPTY, put) == c1;
    ReachesByStep(TWO_BLOCKS, EMPTY, put, d);
  }

  /** Second part, after its selector broke: the new block replaces the old one, the selector is
      mended, and the claim is to move. */
  lemma MovesToNew(d: Cluster)
    requires var claim := Claim(0, 3, WANT, Broken(OLD_STATUS));
      Reaches(TWO_BLOCKS, Cluster(One(claim), Holding(NEW), 1, Patching("x", claim, NEW_STATUS)), d)
    ensures Reaches(TWO_BLOCKS, Cluster(One(Claim(0, 2, BAD, Broken(OLD_STATUS))), Holding(OLD), 1, Idle), d)
  {
    var c0 := Cluster(One(Claim(0, 2, BAD, Broken(OLD_STATUS))), Holding(OLD), 1, Idle);
    var c1 := c0.(blocks := map[]);
    var c2 := c0.(blocks := Holding(NEW));
    var c3 := c2.(claims := One(Claim(0, 3, WANT, Broken(OLD_STATUS))));
    assert Pow2(2) == 4;
    assert FirstSub(NEW, 2) == Block(4, 2);
    assert TakenIn(c3.claims, "x", "new") == {};
    Reconciling(TWO_BLOCKS, c3, "x", "new", NEW, d);
    assert Next(c2, EditClaim("x", WANT)) == c3;
    ReachesByStep(TWO_BLOCKS, c2, EditClaim("x", WANT), d);
    var put := PutBlock("new", CIDRBlock(Some(NEW), map[]));
    assert Next(c1, put) == c2;
    ReachesByStep(TWO_BLOCKS, c1, put, d);
    assert Next(c0, DeleteBlock("old")) == c1;
    ReachesByStep(TWO_BLOCKS, c0, DeleteBlock("old"), d);
  }

  /** Third part: the claim is deleted and created anew, and the patch arrives. */
  lemma SizeTorn(d: Cluster)
    requires d == Cluster(One(Claim(1, 1, WANT, TORN_STATUS)), Holding(NEW), 2, Idle)
    ensures var claim := Claim(0, 3, WANT, Broken(OLD_STATUS));
      Reaches(TWO_BLOCKS, Cluster(One(claim), Holding(NEW), 1, Patching("x", claim, NEW_STATUS)), d)
  {
    var claim := Claim(0, 3, WANT, Broken(OLD_STATUS));
    var c0 := Cluster(One(claim), Holding(NEW), 1, Patching("x", claim, NEW_STATUS));
    var c1 := c0.(claims := map[]);
    var c2 := c0.(claims := One(Claim(1, 1, WANT, FRESH)), nextUid := 2);
    ReachesItself(TWO_BLOCKS, d);
    assert Next(c2, Patch) == d;
    ReachesByStep(TWO_BLOCKS, c2, Patch, d);
    assert Next(c1, CreateClaim("x", WANT)) == c2;
    ReachesByStep(TWO_BLOCKS, c1, CreateClaim("x", WANT), d);
    assert Next(c0, DeleteClaim("x")) == c1;
    ReachesByStep(TWO_BLOCKS, c0, DeleteClaim("x"), d);
  }

  /** A run from the empty cluster ends with a ready claim whose CIDR has 2^2 addresses while its
      status says 2^0. */
  lemma SizeCanBeLost()
    ensures Reaches(TWO_BLOCKS, EMPTY, Cluster(One(Claim(1, 1, WANT, TORN_STATUS)), Holding(NEW), 2, Idle))
    ensures !Sized(TORN_STATUS)
  {
    var d := Cluster(One(Claim(1, 1, WANT, TORN_STATUS)), Holding(NEW), 2, Idle);
    SizeTorn(d);
    MovesToNew(d);
    var served := Cluster(One(Claim(0, 1, WANT, OLD_STATUS)), Holding(OLD), 1, Idle);
    BreaksSelector(TWO_BLOCKS, served, OLD_STATUS, WANT, BAD, d);
    ServedFromOld(d);
  }

  // ----- the CIDR is given away twice

  const SMALL := Spec(ANY, 1)
  const BROKEN := Spec(Malformed(""), 1)
  const BASE := Block(0, 4)
  const ONE_BLOCK: map<string, Block> := map["b" := BASE]
  const BLOCKS: map<string, CIDRBlock> := map["b" := CIDRBlock(Some(BASE), map[])]

  const SMALL_STATUS := Status(1, Ready, "", "b", Some(Block(0, 1)), 1)
  const LARGE_STATUS := Status(3, Ready, "", "b", Some(Block(0, 2)), 2)

  /** What reaches the namesake: the CIDR, but not the block's name, which did not change. */
  const NAMELESS := Status(3, Ready, "", "", Some(Block(0, 2)), 2)

  /** The status of another claim that is served afterwards. */
  const OTHER_STATUS := Status(1, Ready, "", "b", Some(Block(0, 2)), 2)

  function Both(): map<string, Claim> {
    map["x" := Claim(1, 3, WANT, NAMELESS), "y" := Claim(2, 1, WANT, OTHER_STATUS)]
  }

  /** Fourth part: the nameless CIDR is not seen, and goes to the next claim. */
  lemma ServedAgain(d: Cluster)
    requires d == Cluster(Both(), BLOCKS, 3, Idle)
    ensures Reaches(ONE_BLOCK, Cluster(One(Claim(1, 3, WANT, NAMELESS)), BLOCKS, 2, Idle), d)
  {
    var c0 := Cluster(One(Claim(1, 3, WANT, NAMELESS)), BLOCKS, 2, Idle);
    var c1 := Next(c0, CreateClaim("y", WANT));
    assert FirstSub(BASE, 2) == Block(0, 2);
    assert TakenIn(c1.claims, "y", "b") == {};
    ReachesItself(ONE_BLOCK, d);
    assert Next(AboutToPatch(c1, "y", OTHER_STATUS), Patch) == d;
    ReachesByStep(ONE_BLOCK, AboutToPatch(c1, "y", OTHER_STATUS), Patch, d);
    Reconciling(ONE_BLOCK, c1, "y", "b", BASE, d);
    ReachesByStep(ONE_BLOCK, c0, CreateClaim("y", WANT), d);
  }

  /** Third part, at its end: the patch arrives at the re-created claim. */
  lemma NamelessArrives(d: Cluster)
    requires Reaches(ONE_BLOCK, Cluster(One(Claim(1, 3, WANT, NAMELESS)), BLOCKS, 2, Idle), d)
    ensures var claim := Claim(0, 3, WANT, Broken(SMALL_STATUS));
      Reaches(ONE_BLOCK, Cluster(One(Claim(1, 3, WANT, FRESH)), BLOCKS, 2, Patching("x", claim, LARGE_STATUS)), d)
  {
    var claim := Claim(0, 3, WANT, Broken(SMALL_STATUS));
    var c := Cluster(One(Claim(1, 3, WANT, FRESH)), BLOCKS, 2, Patching("x", claim, LARGE_STATUS));
    assert Patched(FRESH, Broken(SMALL_STATUS), LARGE_STATUS) == NAMELESS;
    assert Next(c, Patch) == Cluster(One(Claim(1, 3, WANT, NAMELESS)), BLOCKS, 2, Idle);
    ReachesByStep(ONE_BLOCK, c, Patch, d);
  }

  /** The claim is created anew and edited twice. */
  lemma EditedTwice(worker: Worker, d: Cluster)
    requires Reaches(ONE_BLOCK, Cluster(One(Claim(1, 3, WANT, FRESH)), BLOCKS, 2, worker), d)
    ensures Reaches(ONE_BLOCK, Cluster(map[], BLOCKS, 1, worker), d)
  {
    var c0 := Cluster(map[], BLOCKS, 1, worker);
    var c1 := Cluster(One(Claim(1, 1, WANT, FRESH)), BLOCKS, 2, worker);
    var c2 := c1.(claims := One(Claim(1, 2, SMALL, FRESH)));
    assert Next(c2, EditClaim("x", WANT)) == c1.(claims := One(Claim(1, 3, WANT, FRESH)));
    ReachesByStep(ONE_BLOCK, c2, EditClaim("x", WANT), d);
    assert Next(c1, EditClaim("x", SMALL)) == c2;
    ReachesByStep(ONE_BLOCK, c1, EditClaim("x", SMALL), d);
    assert Next(c0, CreateClaim("x", WANT)) == c1;
    ReachesByStep(ONE_BLOCK, c0, CreateClaim("x", WANT), d);
  }

  /** Third part: the claim is deleted, created anew and edited twice, and the patch arrives. */
  lemma NameTorn(d: Cluster)
    requires Reaches(ONE_BLOCK, Cluster(One(Claim(1, 3, WANT, NAMELESS)), BLOCKS, 2, Idle), d)
    ensures var claim := Claim(0, 3, WANT, Broken(SMALL_STATUS));
      Reaches(ONE_BLOCK, Cluster(One(claim), BLOCKS, 1, Patching("x", claim, LARGE_STATUS)), d)
  {
    var claim := Claim(0, 3, WANT, Broken(SMALL_STATUS));
    var worker := Patching("x", claim, LARGE_STATUS);
    NamelessArrives(d);
    EditedTwice(worker, d);
    assert Next(Cluster(One(claim), BLOCKS, 1, worker), DeleteClaim("x")) == Cluster(map[], BLOCKS, 1, worker);
    ReachesByStep(ONE_BLOCK, Cluster(One(claim), BLOCKS, 1, worker), DeleteClaim("x"), d);
  }

  /** Second part, after its selector broke: the mended claim asks for a larger CIDR. */
  lemma AsksForMore(d: Cluster)
    requires var claim := Claim(0, 3, WANT, Broken(SMALL_STATUS));
      Reaches(ONE_BLOCK, Cluster(One(claim), BLOCKS, 1, Patching("x", claim, LARGE_STATUS)), d)
    ensures Reaches(ONE_BLOCK, Cluster(One(Claim(0, 2, BROKEN, Broken(SMALL_STATUS))), BLOCKS, 1, Idle), d)
  {
    var c0 := Cluster(One(Claim(0, 2, BROKEN, Broken(SMALL_STATUS))), BLOCKS, 1, Idle);
    var c1 := c0.(claims := One(Claim(0, 3, WANT, Broken(SMALL_STATUS))));
    assert FirstSub(BASE, 2) == Block(0, 2);
    assert TakenIn(c1.claims, "x", "b") == {};
    Reconciling(ONE_BLOCK, c1, "x", "b", BASE, d);
    assert Next(c0, EditClaim("x", WANT)) == c1;
    ReachesByStep(ONE_BLOCK, c0, EditClaim("x", WANT), d);
  }

  /** First part: the claim is served from the only block. */
  lemma ServedSmall(d: Cluster)
    requires Reaches(ONE_BLOCK, Cluster(One(Claim(0, 1, SMALL, SMALL_STATUS)), BLOCKS, 1, Idle), d)
    ensures Reaches(ONE_BLOCK, EMPTY, d)
  {
    var c1 := Cluster(map[], BLOCKS, 0, Idle);
    var c2 := Cluster(One(Claim(0, 1, SMALL, FRESH)), BLOCKS, 1, Idle);
    assert FirstSub(BASE, 1) == Block(0, 1);
    assert TakenIn(c2.claims, "x", "b") == {};
    assert Next(AboutToPatch(c2, "x", SMALL_STATUS), Patch) == c2.(claims := One(Claim(0, 1, SMALL, SMALL_STATUS)));
    ReachesByStep(ONE_BLOCK, AboutToPatch(c2, "x", SMALL_STATUS), Patch, d);
    Reconciling(ONE_BLOCK, c2, "x", "b", BASE, d);
    assert Next(c1, CreateClaim("x", SMALL)) == c2;
    ReachesByStep(ONE_BLOCK, c1, CreateClaim("x", SMALL), d);
    var put := PutBlock("b", CIDRBlock(Some(BASE), map[]));
    assert Next(EMPTY, put) == c1;
    ReachesByStep(ONE_BLOCK, EMPTY, put, d);
  }

  /** A run from the empty cluster, in which the only block is never edited, ends with two claims
      that are ready, up to date and hold the same CIDR. */
  lemma CidrCanBeSharedByTwo()
    ensures Reaches(ONE_BLOCK, EMPTY, Cluster(Both(), BLOCKS, 3, Idle))
    ensures UpToDate(Both()["x"]) && UpToDate(Both()["y"])
    ensures Both()["x"].status.cidr == Both()["y"].status.cidr == Some(Block(0, 2))
  {
    var d := Cluster(Both(), BLOCKS, 3, Idle);
    ServedAgain(d);
    NameTorn(d);
    AsksForMore(d);
    var served := Cluster(One(Claim(0, 1, SMALL, SMALL_STATUS)), BLOCKS, 1, Idle);
    BreaksSelector(ONE_BLOCK, served, SMALL_STATUS, SMALL, BROKEN, d);
    ServedSmall(d);
  }
}
