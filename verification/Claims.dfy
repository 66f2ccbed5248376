/** CIDR claims and blocks of one namespace, and what one reconciliation of a claim decides. */
module Claims {
  import opened PrefixBlocks
  import opened FreeSpace
  import opened Options
  import opened BlockCapacity

  type Labels = map<string, string>

  /** A selector as it is written, and what it matches. */
  datatype Selector =
    | Malformed(reason: string)
    | Matching(text: string, matches: Labels -> bool)

  /** A CIDRBlock object; `cidr` is absent when the text in its spec does not parse. */
  datatype CIDRBlock = CIDRBlock(cidr: Option<Block>, labels: Labels)

  datatype Spec = Spec(selector: Selector, sizeBit: nat)

  datatype Phase = Unknown | Ready | BindingError

  datatype Status = Status(observedGeneration: nat, phase: Phase, message: string,
                           blockName: string, cidr: Option<Block>, sizeBit: nat)

  /** The status as it is read of a claim that has none, because it was just created. */
  const FRESH := Status(0, Unknown, "", "", None, 0)

  /** Counts the changes of a spec, from one. */
  type Generation = n: nat | n > 0 witness 1

  /** A CIDRClaim object; `uid` tells apart objects that had the same name at different times. */
  datatype Claim = Claim(uid: nat, generation: Generation, spec: Spec, status: Status)

  predicate UpToDate(claim: Claim) {
    claim.generation == claim.status.observedGeneration && claim.status.phase == Ready
  }

  /** The blocks a list request with the selector returns. */
  function Select(blocks: map<string, CIDRBlock>, selector: Selector): map<string, CIDRBlock>
    requires selector.Matching?
  {
    map n | n in blocks && selector.matches(blocks[n].labels) :: blocks[n]
  }

  /** A ready claim keeps its block as long as the block is still selected. */
  predicate IsReady(claim: Claim, selected: map<string, CIDRBlock>)
    requires claim.spec.selector.Matching?
  {
    && claim.status.phase == Ready
    && claim.status.blockName in selected
    && claim.spec.selector.matches(selected[claim.status.blockName].labels)
  }

  /** The CIDRs that other claims hold in block `name`, whatever their phase. */
  function TakenIn(claims: map<string, Claim>, self: string, name: string): set<Block> {
    set n | n in claims && n != self && name != "" && claims[n].status.blockName == name
            && claims[n].status.cidr.Some? :: claims[n].status.cidr.value
  }

  /** `order` lists each of the names exactly once. */
  ghost predicate IsShuffle(order: seq<string>, names: set<string>) {
    && (forall n :: n in order <==> n in names)
    && (forall i, j | 0 <= i < j < |order| :: order[i] != order[j])
  }

  /** The first block in shuffle order that can serve the claim, with the part it offers. */
  function Allocate(sizeBit: nat, order: seq<string>, selected: map<string, CIDRBlock>,
                    claims: map<string, Claim>, self: string): Option<(string, Block)>
    requires forall n | n in order :: n in selected
  {
    if order == [] then None
    else
      var rest := Allocate(sizeBit, order[1..], selected, claims, self);
      match selected[order[0]].cidr
      case None => rest
      case Some(base) =>
        match Offer(base, TakenIn(claims, self, order[0]), sizeBit)
        case None => rest
        case Some(b) => Some((order[0], b))
  }

  /** The status that is written once blocks and claims are listed. */
  function Decide(name: string, claim: Claim, selected: map<string, CIDRBlock>,
                  claims: map<string, Claim>, order: seq<string>): Status
    requires forall n | n in order :: n in selected
  {
    var status := claim.status.(observedGeneration := claim.generation);
    if |selected| == 0 then
      status.(phase := BindingError, message := "no matching CIDRBlock")
    else
      match Allocate(claim.spec.sizeBit, order, selected, claims, name)
      case None =>
        status.(phase := BindingError, message := "no available CIDRBlock")
      case Some((block, cidr)) =>
        status.(phase := Ready, message := "", cidr := Some(cidr), blockName := block,
                sizeBit := claim.spec.sizeBit)
  }

  /** A merge patch carries the fields in which `write` differs from what was read, and leaves the
      other fields of the stored object alone. */
  function MergePatch(stored: Status, read: Status, write: Status): Status {
    Status(
      if write.observedGeneration != read.observedGeneration then write.observedGeneration
      else stored.observedGeneration,
      if write.phase != read.phase then write.phase else stored.phase,
      if write.message != read.message then write.message else stored.message,
      if write.blockName != read.blockName then write.blockName else stored.blockName,
      if write.cidr != read.cidr then write.cidr else stored.cidr,
      if write.sizeBit != read.sizeBit then write.sizeBit else stored.sizeBit)
  }

  /** A status must have a generation and a phase, so the server refuses a patch that would give a
      claim without status a part of one without these. */
  predicate Refused(stored: Status, read: Status, write: Status) {
    stored == FRESH && write != read
    && (write.observedGeneration == read.observedGeneration || write.phase == read.phase)
  }

  /** The stored status after the patch. */
  function Patched(stored: Status, read: Status, write: Status): Status {
    if Refused(stored, read, write) then stored else MergePatch(stored, read, write)
  }

  /** The aligned free part of the selected block `n` that a claim of the size could get. */
  ghost predicate Usable(sizeBit: nat, n: string, selected: map<string, CIDRBlock>,
                         claims: map<string, Claim>, self: string, c: Block)
    requires n in selected
  {
    var block := selected[n];
    && block.cidr.Some?
    && FreeSlot(block.cidr.value, TakenIn(claims, self, n) + Reserved(block.cidr.value, sizeBit), sizeBit, c)
  }

  /** Allocation yields a usable part of a selected block, and fails exactly when no selected block
      has one: the shuffle decides which block is used but not whether the claim is served. */
  lemma {:induction false} AllocateExact(sizeBit: nat, order: seq<string>, selected: map<string, CIDRBlock>,
                                         claims: map<string, Claim>, self: string)
    requires forall n | n in order :: n in selected
    ensures var r := Allocate(sizeBit, order, selected, claims, self);
      && (r.None? <==> forall n, c | n in order :: !Usable(sizeBit, n, selected, claims, self, c))
      && (r.Some? ==> r.value.0 in order && Usable(sizeBit, r.value.0, selected, claims, self, r.value.1))
  {
    if order == [] {
    } else {
      AllocateExact(sizeBit, order[1..], selected, claims, self);
      var n := order[0];
      assert forall m :: m in order <==> m == n || m in order[1..];
      OfferExact(sizeBit, n, selected, claims, self);
      if selected[n].cidr.None? || Offer(selected[n].cidr.value, TakenIn(claims, self, n), sizeBit).None? {
        assert Allocate(sizeBit, order, selected, claims, self)
            == Allocate(sizeBit, order[1..], selected, claims, self);
      } else {
        assert n in order;
      }
    }
  }

  lemma OfferExact(sizeBit: nat, n: string, selected: map<string, CIDRBlock>,
                   claims: map<string, Claim>, self: string)
    requires n in selected
    ensures selected[n].cidr.None? ==> forall c :: !Usable(sizeBit, n, selected, claims, self, c)
    ensures selected[n].cidr.Some? ==>
              var r := Offer(selected[n].cidr.value, TakenIn(claims, self, n), sizeBit);
              && (r.None? <==> forall c :: !Usable(sizeBit, n, selected, claims, self, c))
              && (r.Some? ==> Usable(sizeBit, n, selected, claims, self, r.value))
  {
    if selected[n].cidr.Some? {
      var base := selected[n].cidr.value;
      var used := TakenIn(claims, self, n) + Reserved(base, sizeBit);
      FirstFitLowest(base, used, sizeBit);
      assert forall c :: FreeSlot(base, used, sizeBit, c) <==> Usable(sizeBit, n, selected, claims, self, c);
    }
  }
}
