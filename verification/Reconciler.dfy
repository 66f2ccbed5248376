/** The reconciler of CIDR claims as it works on the objects of its namespace: it lists, filters,
    groups, allocates and patches. When nothing interferes, one call is one uninterrupted pass of
    the worker of `ClaimRuns`. */
module Reconciler {
  import opened Collections
  import opened PrefixBlocks
  import opened Options
  import opened BlockCapacity
  import opened Claims
  import opened ClaimRuns
  import opened ReconcilePass
  import Allocator

  /** An element of a list of claims. */
  datatype Item = Item(name: string, claim: Claim)

  /** The list holds every claim once. */
  ghost predicate IsListOf(items: seq<Item>, claims: map<string, Claim>) {
    && (forall n | n in claims :: Item(n, claims[n]) in items)
    && (forall item | item in items :: item.name in claims && claims[item.name] == item.claim)
    && (forall i, j | 0 <= i < j < |items| :: items[i].name != items[j].name)
  }

  function UsedBy(used: map<string, seq<Claim>>, block: string): seq<Claim> {
    if block in used then used[block] else []
  }

  /** The list has the claim, and the claim names the block. */
  ghost predicate InGroup(items: seq<Item>, block: string, claim: Claim) {
    claim.status.blockName == block && exists i :: 0 <= i < |items| && items[i].claim == claim
  }

  /** The groups hold the claims of the list under the block they name, if they name one. */
  ghost predicate Grouped(used: map<string, seq<Claim>>, items: seq<Item>) {
    && "" !in used
    && forall b, claim {:trigger claim in UsedBy(used, b)} ::
         b != "" ==> (claim in UsedBy(used, b) <==> InGroup(items, b, claim))
  }

  ghost function CidrsOf(claims: seq<Claim>): set<Block> {
    set claim | claim in claims && claim.status.cidr.Some? :: claim.status.cidr.value
  }

  class CIDRClaimReconciler {
    var claims: map<string, Claim>
    var blocks: map<string, CIDRBlock>

    /** The objects as a cluster with an idle worker. */
    ghost function Seen(): Cluster
      reads this
    {
      Cluster(claims, blocks, 0, Idle)
    }

    /** Brings one claim up to date. `order` is the outcome of the shuffle of the selected blocks. */
    method Reconcile(name: string, order: seq<string>)
      requires name in claims && claims[name].spec.selector.Matching? ==>
                 IsShuffle(order, Select(blocks, claims[name].spec.selector).Keys)
      modifies this`claims
      ensures claims == Finish(Next(old(Seen()), Get(name)), order).claims
      ensures "" !in blocks ==> PassOutcome(old(Seen()), name, claims)
    {
      ghost var before := Seen();
      Pass(name, order);
      if "" !in blocks {
        PassDecides(before, name, order);
      }
    }

    method Pass(name: string, order: seq<string>)
      requires name in claims && claims[name].spec.selector.Matching? ==>
                 IsShuffle(order, Select(blocks, claims[name].spec.selector).Keys)
      modifies this`claims
      ensures claims == Finish(Next(old(Seen()), Get(name)), order).claims
    {
      if name !in claims {
        return;
      }
      var claim := claims[name];
      if claim.generation == claim.status.observedGeneration && claim.status.phase == Ready {
        return;
      }
      var status := claim.status;
      if claim.spec.selector.Malformed? {
        status := status.(phase := BindingError, message := "selector is invalid: " + claim.spec.selector.reason);
        UpdateStatus(name, claim, status);
        return;
      }
      var selected := Select(blocks, claim.spec.selector);
      if IsReady(claim, selected) {
        UpdateStatus(name, claim, status);
        return;
      }
      ghost var listed := Next(Next(Seen(), Get(name)), ListBlocks);
      ghost var decided := Next(listed, ListClaims(order));
      assert Finish(listed, order) == Finish(decided, order) == Next(decided, Patch);
      status := Bind(name, claim, order, selected);
      UpdateStatus(name, claim, status);
    }

    /** Decides on the status of a claim that is not bound yet, from the blocks it selects and the
        other claims. */
    method Bind(name: string, claim: Claim, order: seq<string>, selected: map<string, CIDRBlock>)
      returns (status: Status)
      requires forall n | n in order :: n in selected
      ensures status.(observedGeneration := claim.generation) == Decide(name, claim, selected, claims, order)
    {
      status := claim.status;
      var items := ListAll();
      items := WithoutSelf(items, name);
      var used := GroupByBlock(items);
      forall b
        ensures CidrsOf(UsedBy(used, b)) == TakenIn(claims, name, b)
      {
        GroupIsTaken(items, name, used, b);
      }
      if |selected| == 0 {
        return status.(phase := BindingError, message := "no matching CIDRBlock");
      }
      var found := AllocateFrom(claim.spec.sizeBit, order, selected, used, name);
      if found.None? {
        status := status.(phase := BindingError, message := "no available CIDRBlock");
      } else {
        status := status.(phase := Ready, message := "", cidr := Some(found.value.1),
          blockName := found.value.0, sizeBit := claim.spec.sizeBit);
      }
    }

    /** The claims in the order in which the server happens to list them. */
    method ListAll() returns (items: seq<Item>)
      ensures IsListOf(items, claims)
    {
      items := [];
      var rest := claims;
      while |rest.Keys| != 0
        invariant forall n | n in rest :: n in claims && rest[n] == claims[n]
        invariant forall n | n in claims :: n in rest || Item(n, claims[n]) in items
        invariant forall item | item in items ::
                    item.name in claims && item.name !in rest && claims[item.name] == item.claim
        invariant forall i, j | 0 <= i < j < |items| :: items[i].name != items[j].name
        decreases |rest.Keys|
      {
        var n :| n in rest.Keys;
        items := items + [Item(n, rest[n])];
        assert (rest - {n}).Keys == rest.Keys - {n};
        rest := rest - {n};
      }
      forall n | n in claims
        ensures Item(n, claims[n]) in items
      {
        assert n !in rest.Keys;
      }
    }

    /** Drops the first item with the name. */
    method WithoutSelf(items: seq<Item>, name: string) returns (others: seq<Item>)
      requires IsListOf(items, claims)
      ensures IsListOf(others, claims - {name})
    {
      others := items;
      for i := 0 to |items|
        invariant others == items
        invariant forall k | 0 <= k < i :: items[k].name != name
      {
        if items[i].name == name {
          others := items[..i] + items[i + 1..];
          OneLess(items, i, claims);
          return;
        }
      }
      assert forall item | item in items :: item.name != name;
      assert claims - {name} == claims;
    }

    lemma OneLess(items: seq<Item>, i: nat, claims: map<string, Claim>)
      requires IsListOf(items, claims) && i < |items|
      ensures IsListOf(items[..i] + items[i + 1..], claims - {items[i].name})
    {
      var others := items[..i] + items[i + 1..];
      forall n | n in claims && n != items[i].name
        ensures Item(n, claims[n]) in others
      {
        var k :| 0 <= k < |items| && items[k] == Item(n, claims[n]);
        assert if k < i then others[k] == items[k] else others[k - 1] == items[k];
      }
    }

    /** Groups the claims that name a block by that name. */
    method GroupByBlock(items: seq<Item>) returns (used: map<string, seq<Claim>>)
      ensures Grouped(used, items)
    {
      used := map[];
      for i := 0 to |items|
        invariant Grouped(used, items[..i])
      {
        var claim := items[i].claim;
        var b := claim.status.blockName;
        forall other, block
          ensures InGroup(items[..i + 1], block, other) <==>
                  InGroup(items[..i], block, other) || (other == claim && block == b)
        {
          OneMore(items, i, block, other);
        }
        if b == "" {
          continue;
        }
        ghost var before := used;
        used := used[b := UsedBy(used, b) + [claim]];
        forall block, other | block != ""
          ensures other in UsedBy(used, block) <==> InGroup(items[..i + 1], block, other)
        {
          assert other in UsedBy(before, block) <==> InGroup(items[..i], block, other);
          if block == b {
            assert UsedBy(used, block) == UsedBy(before, block) + [claim];
          } else {
            assert UsedBy(used, block) == UsedBy(before, block);
          }
        }
      }
      assert items[..|items|] == items;
    }

    lemma OneMore(items: seq<Item>, i: nat, block: string, claim: Claim)
      requires i < |items|
      ensures InGroup(items[..i + 1], block, claim) <==>
              InGroup(items[..i], block, claim) || (claim == items[i].claim && block == claim.status.blockName)
    {
      var longer, shorter := items[..i + 1], items[..i];
      if InGroup(shorter, block, claim) {
        var k :| 0 <= k < |shorter| && shorter[k].claim == claim;
        assert longer[k].claim == claim;
      }
      if claim == items[i].claim && block == claim.status.blockName {
        assert longer[i].claim == claim;
      }
      if InGroup(longer, block, claim) {
        var k :| 0 <= k < |longer| && longer[k].claim == claim;
        assert k < i ==> shorter[k].claim == claim;
      }
    }

    /** The CIDRs in the group of a block are those the other claims hold in it. */
    lemma GroupIsTaken(items: seq<Item>, name: string, used: map<string, seq<Claim>>, b: string)
      requires IsListOf(items, claims - {name}) && Grouped(used, items)
      ensures CidrsOf(UsedBy(used, b)) == TakenIn(claims, name, b)
    {
      if b != "" {
        forall cidr | cidr in CidrsOf(UsedBy(used, b))
          ensures cidr in TakenIn(claims, name, b)
        {
          var claim :| claim in UsedBy(used, b) && claim.status.cidr == Some(cidr);
          var i :| 0 <= i < |items| && items[i].claim == claim && claim.status.blockName == b;
          assert items[i] in items;
          assert items[i].name in claims && claims[items[i].name] == claim;
        }
        forall cidr | cidr in TakenIn(claims, name, b)
          ensures cidr in CidrsOf(UsedBy(used, b))
        {
          var n :| n in claims && n != name && claims[n].status.blockName == b && claims[n].status.cidr == Some(cidr);
          assert n in claims - {name};
          var i :| 0 <= i < |items| && items[i] == Item(n, claims[n]);
          assert items[i].claim == claims[n];
        }
      }
    }

    /** Tries the blocks in order until one serves the claim. */
    method AllocateFrom(sizeBit: nat, order: seq<string>, selected: map<string, CIDRBlock>,
                        used: map<string, seq<Claim>>, ghost self: string)
      returns (found: Option<(string, Block)>)
      requires forall n | n in order :: n in selected
      requires forall b :: CidrsOf(UsedBy(used, b)) == TakenIn(claims, self, b)
      ensures found == Allocate(sizeBit, order, selected, claims, self)
    {
      for i := 0 to |order|
        invariant Allocate(sizeBit, order, selected, claims, self)
               == Allocate(sizeBit, order[i..], selected, claims, self)
      {
        assert order[i..][1..] == order[i + 1..];
        var block := order[i];
        var subnet := selected[block].cidr;
        if subnet.None? {
          continue;
        }
        var taken := CollectCidrs(UsedBy(used, block));
        ghost var held := SetOf(taken);
        if sizeBit == 0 {
          taken := taken + [Block(subnet.value.Lo(), 0)];
        }
        assert SetOf(taken) == held + Reserved(subnet.value, sizeBit);
        var free := Allocator.FreeBlocks(subnet.value, taken);
        var part := Allocator.FindSubBlock(free, sizeBit);
        if part.None? {
          continue;
        }
        return Some((block, part.value));
      }
      return None;
    }

    /** The CIDRs in the statuses that have one. */
    method CollectCidrs(group: seq<Claim>) returns (cidrs: seq<Block>)
      ensures SetOf(cidrs) == CidrsOf(group)
    {
      cidrs := [];
      for i := 0 to |group|
        invariant forall b :: b in cidrs <==> exists k :: 0 <= k < i && group[k].status.cidr == Some(b)
      {
        if group[i].status.cidr.Some? {
          cidrs := cidrs + [group[i].status.cidr.value];
        }
      }
    }

    /** Writes the status with a patch against the claim as it was read. The patch is refused only if
        the claim has no status and would still have no phase. */
    method UpdateStatus(name: string, claim: Claim, status: Status)
      requires name in claims && claims[name] == claim
      modifies this`claims
      ensures var updated := status.(observedGeneration := claim.generation);
        && claims == old(claims)[name := claim.(status := Patched(claim.status, claim.status, updated))]
        && (claim.status != FRESH || status.phase != Unknown ==>
              claims == old(claims)[name := claim.(status := updated)])
    {
      var updated := status.(observedGeneration := claim.generation);
      claims := claims[name := claims[name].(status := Patched(claims[name].status, claim.status, updated))];
    }
  }
}
