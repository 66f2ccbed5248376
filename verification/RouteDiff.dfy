/** Bringing the addresses and routes of the interface to the desired ones by deleting and adding
    the difference. */
module RouteDiff {
  import opened Collections
  import opened Sorting

  /** A network in its text form; texts are compared by their order as Go strings. */
  type Text = int

  datatype Addr = Addr(ipNet: Text, attributes: int)

  datatype Route = Route(dst: Text, linkIndex: int, table: int, scope: int)

  // ----- what the difference means, for any kind of entry

  /** The desired entry of each key: the last of its duplicates. */
  function Wanted<T>(desired: seq<T>, key: T -> int): map<Text, T> {
    if desired == [] then map[]
    else
      var last := desired[|desired| - 1];
      Wanted(desired[..|desired| - 1], key)[key(last) := last]
  }

  datatype Scanned<T> = Scanned(deleted: seq<T>, kept: seq<T>, rest: map<Text, T>)

  /** Scanning the current entries: one is kept if its key is still wanted and the desired entry is
      the same in what matters, and then it satisfies that want. */
  function Scan<T>(current: seq<T>, wanted: map<Text, T>, key: T -> int, same: (T, T) -> bool): Scanned<T> {
    if current == [] then Scanned([], [], wanted)
    else
      var c := current[0];
      if key(c) in wanted && same(wanted[key(c)], c) then
        var s := Scan(current[1..], wanted - {key(c)}, key, same);
        s.(kept := [c] + s.kept)
      else
        var s := Scan(current[1..], wanted, key, same);
        s.(deleted := [c] + s.deleted)
  }

  /** `added` lists the wants that nothing satisfies, in the order of their keys. */
  ghost predicate IsAdded<T(!new)>(added: seq<T>, rest: map<Text, T>, key: T -> int) {
    && StrictlyBy(added, key)
    && (forall x :: x in added <==> key(x) in rest && rest[key(x)] == x)
  }

  /** So the list does not depend on the order in which the wants are enumerated. */
  lemma AddedUnique<T(!new)>(a: seq<T>, b: seq<T>, rest: map<Text, T>, key: T -> int)
    requires IsAdded(a, rest, key) && IsAdded(b, rest, key)
    ensures a == b
  {
    StrictUnique(a, b, key);
  }

  /** The entries have the wanted keys, each exactly once, and are the same as the wanted ones. */
  ghost predicate OnePerWant<T(!new)>(entries: seq<T>, wanted: map<Text, T>, key: T -> int, same: (T, T) -> bool) {
    && DistinctBy(entries, key)
    && (forall k :: k in wanted ==> exists x :: x in entries && key(x) == k)
    && (forall x | x in entries :: key(x) in wanted && same(wanted[key(x)], x))
  }

  ghost predicate KeyedBy<T>(wanted: map<Text, T>, key: T -> int) {
    forall k | k in wanted :: key(wanted[k]) == k
  }

  lemma {:induction false} WantedKeyed<T(!new)>(desired: seq<T>, key: T -> int)
    ensures KeyedBy(Wanted(desired, key), key)
    ensures forall k :: k in Wanted(desired, key) <==> exists i :: 0 <= i < |desired| && key(desired[i]) == k
  {
    if desired == [] {
    } else {
      var front, last := desired[..|desired| - 1], desired[|desired| - 1];
      WantedKeyed(front, key);
      forall k
        ensures k in Wanted(desired, key) <==> exists i :: 0 <= i < |desired| && key(desired[i]) == k
      {
        if exists i :: 0 <= i < |desired| && key(desired[i]) == k {
          var i :| 0 <= i < |desired| && key(desired[i]) == k;
          assert i < |front| ==> key(front[i]) == k;
        }
        if k in Wanted(front, key) {
          var i :| 0 <= i < |front| && key(front[i]) == k;
          assert key(desired[i]) == k;
        }
      }
    }
  }

  /** Nothing is lost: the current entries are the kept and the deleted ones. */
  lemma {:induction false} ScanSplits<T>(current: seq<T>, wanted: map<Text, T>, key: T -> int, same: (T, T) -> bool)
    ensures var s := Scan(current, wanted, key, same);
      multiset(current) == multiset(s.kept) + multiset(s.deleted)
  {
    if current == [] {
    } else {
      var c := current[0];
      assert current == [c] + current[1..];
      if key(c) in wanted && same(wanted[key(c)], c) {
        ScanSplits(current[1..], wanted - {key(c)}, key, same);
      } else {
        ScanSplits(current[1..], wanted, key, same);
      }
    }
  }

  ghost predicate Satisfied<T(!new)>(kept: seq<T>, k: Text, key: T -> int) {
    exists x :: x in kept && key(x) == k
  }

  /** The kept entries satisfy different wants, and nothing but these is left over. */
  ghost predicate KeepsWants<T(!new)>(s: Scanned<T>, wanted: map<Text, T>, key: T -> int, same: (T, T) -> bool) {
    && DistinctBy(s.kept, key)
    && (forall x | x in s.kept :: key(x) in wanted && key(x) !in s.rest && same(wanted[key(x)], x))
    && (forall k | k in s.rest :: k in wanted && s.rest[k] == wanted[k])
    && (forall k | k in wanted && k !in s.rest :: Satisfied(s.kept, k, key))
  }

  lemma KeepOneMore<T(!new)>(c: T, t: Scanned<T>, wanted: map<Text, T>, key: T -> int, same: (T, T) -> bool)
    requires key(c) in wanted && same(wanted[key(c)], c)
    requires KeepsWants(t, wanted - {key(c)}, key, same)
    ensures KeepsWants(t.(kept := [c] + t.kept), wanted, key, same)
  {
    var kept := [c] + t.kept;
    PrependDistinct(c, t.kept, key);
    forall k | k in wanted && k !in t.rest
      ensures Satisfied(kept, k, key)
    {
      if k == key(c) {
        assert kept[0] == c;
      } else {
        assert Satisfied(t.kept, k, key);
        var x :| x in t.kept && key(x) == k;
        assert x in kept;
      }
    }
  }

  /** A want is left over exactly when no kept entry satisfies it. */
  lemma {:induction false} ScanKeeps<T(!new)>(current: seq<T>, wanted: map<Text, T>, key: T -> int,
                                              same: (T, T) -> bool)
    ensures KeepsWants(Scan(current, wanted, key, same), wanted, key, same)
  {
    if current == [] {
    } else {
      var c := current[0];
      if key(c) in wanted && same(wanted[key(c)], c) {
        ScanKeeps(current[1..], wanted - {key(c)}, key, same);
        KeepOneMore(c, Scan(current[1..], wanted - {key(c)}, key, same), wanted, key, same);
      } else {
        ScanKeeps(current[1..], wanted, key, same);
      }
    }
  }

  /** The current entry is the first of its key that is as desired. */
  ghost predicate FirstGood<T(!new)>(current: seq<T>, wanted: map<Text, T>, key: T -> int, same: (T, T) -> bool, i: nat)
    requires i < |current|
  {
    && key(current[i]) in wanted && same(wanted[key(current[i])], current[i])
    && forall j | 0 <= j < i && key(current[j]) == key(current[i]) :: !same(wanted[key(current[i])], current[j])
  }

  ghost predicate SomeFirstGood<T(!new)>(current: seq<T>, wanted: map<Text, T>, key: T -> int,
                                         same: (T, T) -> bool, x: T) {
    exists i :: 0 <= i < |current| && current[i] == x && FirstGood(current, wanted, key, same, i)
  }

  lemma FirstGoodTail<T(!new)>(current: seq<T>, wanted: map<Text, T>, key: T -> int, same: (T, T) -> bool, x: T)
    requires current != []
    ensures var c := current[0];
      var good := key(c) in wanted && same(wanted[key(c)], c);
      SomeFirstGood(current, wanted, key, same, x) <==>
      (good && x == c) || SomeFirstGood(current[1..], if good then wanted - {key(c)} else wanted, key, same, x)
  {
    var c := current[0];
    var good := key(c) in wanted && same(wanted[key(c)], c);
    var rest, fewer := current[1..], if good then wanted - {key(c)} else wanted;
    forall i | 0 <= i < |rest|
      ensures FirstGood(rest, fewer, key, same, i) <==> FirstGood(current, wanted, key, same, i + 1)
    {
      assert rest[i] == current[i + 1];
      assert forall j | 0 <= j < i :: rest[j] == current[j + 1];
      if FirstGood(rest, fewer, key, same, i) {
        forall j | 0 <= j < i + 1 && key(current[j]) == key(current[i + 1])
          ensures !same(wanted[key(current[i + 1])], current[j])
        {
          assert j > 0 ==> current[j] == rest[j - 1];
        }
      }
    }
    assert good <==> FirstGood(current, wanted, key, same, 0);
    if SomeFirstGood(rest, fewer, key, same, x) {
      var i :| 0 <= i < |rest| && rest[i] == x && FirstGood(rest, fewer, key, same, i);
      assert current[i + 1] == x && FirstGood(current, wanted, key, same, i + 1);
    }
    if SomeFirstGood(current, wanted, key, same, x) {
      var i :| 0 <= i < |current| && current[i] == x && FirstGood(current, wanted, key, same, i);
      assert i > 0 ==> rest[i - 1] == x && FirstGood(rest, fewer, key, same, i - 1);
    }
  }

  /** No more is deleted than has to be: of the entries of a key, the first that is as desired stays. */
  lemma {:induction false} KeptExactly<T(!new)>(current: seq<T>, wanted: map<Text, T>, key: T -> int,
                                                same: (T, T) -> bool, x: T)
    ensures x in Scan(current, wanted, key, same).kept <==> SomeFirstGood(current, wanted, key, same, x)
  {
    if current == [] {
    } else {
      var c := current[0];
      FirstGoodTail(current, wanted, key, same, x);
      if key(c) in wanted && same(wanted[key(c)], c) {
        KeptExactly(current[1..], wanted - {key(c)}, key, same, x);
      } else {
        KeptExactly(current[1..], wanted, key, same, x);
      }
    }
  }

  /** Of several desired entries with the same key the last one counts. */
  lemma {:induction false} WantedIsLast<T(!new)>(desired: seq<T>, key: T -> int, i: nat)
    requires i < |desired| && forall j | i < j < |desired| :: key(desired[j]) != key(desired[i])
    ensures key(desired[i]) in Wanted(desired, key) && Wanted(desired, key)[key(desired[i])] == desired[i]
  {
    if i == |desired| - 1 {
    } else {
      var front := desired[..|desired| - 1];
      assert front[i] == desired[i];
      assert forall j | i < j < |front| :: front[j] == desired[j];
      WantedIsLast(front, key, i);
    }
  }

  lemma PrependDistinct<T>(c: T, rest: seq<T>, key: T -> int)
    requires DistinctBy(rest, key) && forall x | x in rest :: key(x) != key(c)
    ensures DistinctBy([c] + rest, key)
  {
    var all := [c] + rest;
    forall i, j | 0 <= i < j < |all|
      ensures key(all[i]) != key(all[j])
    {
      assert all[j] == rest[j - 1];
      assert rest[j - 1] in rest;
    }
  }

  /** Deleting and adding the difference leaves exactly one entry per desired key, equal in what
      matters to the last desired entry of that key, for arbitrary lists with any duplicates. */
  lemma {:induction false} DifferenceReachesDesired<T(!new)>(
    desired: seq<T>, current: seq<T>, added: seq<T>, key: T -> int, same: (T, T) -> bool)
    requires forall x :: same(x, x)
    requires IsAdded(added, Scan(current, Wanted(desired, key), key, same).rest, key)
    ensures var s := Scan(current, Wanted(desired, key), key, same);
      && multiset(current) - multiset(s.deleted) + multiset(added) == multiset(s.kept + added)
      && OnePerWant(s.kept + added, Wanted(desired, key), key, same)
  {
    var wanted := Wanted(desired, key);
    var s := Scan(current, wanted, key, same);
    WantedKeyed(desired, key);
    ScanSplits(current, wanted, key, same);
    ScanKeeps(current, wanted, key, same);
    JoinDistinct(s.kept, added, s.rest, key);
    forall k | k in wanted
      ensures exists x :: x in s.kept + added && key(x) == k
    {
      if k in s.rest {
        assert key(s.rest[k]) == k;
        assert s.rest[k] in s.kept + added;
      } else {
        var x :| x in s.kept && key(x) == k;
        assert x in s.kept + added;
      }
    }
  }

  lemma JoinDistinct<T(!new)>(kept: seq<T>, added: seq<T>, rest: map<Text, T>, key: T -> int)
    requires DistinctBy(kept, key) && IsAdded(added, rest, key)
    requires forall x | x in kept :: key(x) !in rest
    ensures DistinctBy(kept + added, key)
  {
    var all := kept + added;
    forall i, j | 0 <= i < j < |all|
      ensures key(all[i]) != key(all[j])
    {
      if i < |kept| <= j {
        assert kept[i] in kept && added[j - |kept|] in added;
      } else if |kept| <= i {
        assert key(added[i - |kept|]) < key(added[j - |kept|]);
      }
    }
  }

  // ----- the two differences of the engine

  function AddrKey(): Addr -> int {
    (a: Addr) => a.ipNet
  }

  function AnyAddr(): (Addr, Addr) -> bool {
    (a: Addr, b: Addr) => true
  }

  function RouteKey(): Route -> int {
    (r: Route) => r.dst
  }

  function SameLink(): (Route, Route) -> bool {
    (a: Route, b: Route) => a.linkIndex == b.linkIndex
  }

  /** The values of the map, enumerated in any order and then sorted by their keys. */
  method SortedValues<T(!new)>(rest: map<Text, T>, key: T -> int) returns (added: seq<T>)
    requires KeyedBy(rest, key)
    ensures IsAdded(added, rest, key)
  {
    var list: seq<T> := [];
    var left := rest.Keys;
    while |left| != 0
      invariant left <= rest.Keys
      invariant forall x :: x in list <==> key(x) in rest && key(x) !in left && rest[key(x)] == x
      invariant DistinctBy(list, key)
      decreases left
    {
      Inhabited(left);
      var k :| k in left;
      list := list + [rest[k]];
      left := left - {k};
    }
    added := SortBy(list, key);
    SortStrict(list, key);
    forall x
      ensures x in added <==> key(x) in rest && rest[key(x)] == x
    {
      SortMember(list, key, x);
    }
  }

  method LastByKey<T>(desired: seq<T>, key: T -> int) returns (desiredMap: map<Text, T>)
    ensures desiredMap == Wanted(desired, key)
  {
    desiredMap := map[];
    for i := 0 to |desired|
      invariant desiredMap == Wanted(desired[..i], key)
    {
      desiredMap := desiredMap[key(desired[i]) := desired[i]];
      assert desired[..i + 1][..i] == desired[..i];
    }
    assert desired[..|desired|] == desired;
  }

  method DiffIPs(desired: seq<Addr>, current: seq<Addr>) returns (added: seq<Addr>, deleted: seq<Addr>)
    ensures deleted == Scan(current, Wanted(desired, AddrKey()), AddrKey(), AnyAddr()).deleted
    ensures IsAdded(added, Scan(current, Wanted(desired, AddrKey()), AddrKey(), AnyAddr()).rest, AddrKey())
  {
    var desiredMap := LastByKey(desired, AddrKey());
    ghost var wanted := desiredMap;
    deleted := [];
    for i := 0 to |current|
      invariant Scan(current, wanted, AddrKey(), AnyAddr()).deleted
             == deleted + Scan(current[i..], desiredMap, AddrKey(), AnyAddr()).deleted
      invariant Scan(current, wanted, AddrKey(), AnyAddr()).rest
             == Scan(current[i..], desiredMap, AddrKey(), AnyAddr()).rest
    {
      assert current[i..][1..] == current[i + 1..];
      if current[i].ipNet !in desiredMap {
        deleted := deleted + [current[i]];
      } else {
        desiredMap := desiredMap - {current[i].ipNet};
      }
    }
    WantedKeyed(desired, AddrKey());
    ScanKeeps(current, wanted, AddrKey(), AnyAddr());
    added := SortedValues(desiredMap, AddrKey());
  }

  method DiffRoutes(desired: seq<Route>, current: seq<Route>) returns (added: seq<Route>, deleted: seq<Route>)
    ensures deleted == Scan(current, Wanted(desired, RouteKey()), RouteKey(), SameLink()).deleted
    ensures IsAdded(added, Scan(current, Wanted(desired, RouteKey()), RouteKey(), SameLink()).rest, RouteKey())
    ensures forall c | c in current && c !in deleted ::
              exists d :: d in desired && d.dst == c.dst && d.linkIndex == c.linkIndex
  {
    var desiredMap := LastByKey(desired, RouteKey());
    ghost var wanted := desiredMap;
    deleted := [];
    for i := 0 to |current|
      invariant Scan(current, wanted, RouteKey(), SameLink()).deleted
             == deleted + Scan(current[i..], desiredMap, RouteKey(), SameLink()).deleted
      invariant Scan(current, wanted, RouteKey(), SameLink()).rest
             == Scan(current[i..], desiredMap, RouteKey(), SameLink()).rest
    {
      assert current[i..][1..] == current[i + 1..];
      var c := current[i];
      if c.dst !in desiredMap {
        deleted := deleted + [c];
      } else if desiredMap[c.dst].linkIndex != c.linkIndex {
        deleted := deleted + [c];
      } else {
        desiredMap := desiredMap - {c.dst};
      }
    }
    WantedKeyed(desired, RouteKey());
    ScanKeeps(current, wanted, RouteKey(), SameLink());
    KeptOnLink(desired, current);
    added := SortedValues(desiredMap, RouteKey());
  }

  lemma {:induction false} WantedMember<T(!new)>(desired: seq<T>, key: T -> int, k: Text)
    requires k in Wanted(desired, key)
    ensures Wanted(desired, key)[k] in desired && key(Wanted(desired, key)[k]) == k
  {
    var front, last := desired[..|desired| - 1], desired[|desired| - 1];
    if key(last) == k {
    } else {
      WantedMember(front, key, k);
    }
  }

  /** What is not deleted is desired on the very link. */
  lemma KeptOnLink(desired: seq<Route>, current: seq<Route>)
    ensures var s := Scan(current, Wanted(desired, RouteKey()), RouteKey(), SameLink());
      forall c | c in current && c !in s.deleted ::
        exists d :: d in desired && d.dst == c.dst && d.linkIndex == c.linkIndex
  {
    var wanted := Wanted(desired, RouteKey());
    var s := Scan(current, wanted, RouteKey(), SameLink());
    ScanSplits(current, wanted, RouteKey(), SameLink());
    ScanKeeps(current, wanted, RouteKey(), SameLink());
    forall c | c in current && c !in s.deleted
      ensures exists d :: d in desired && d.dst == c.dst && d.linkIndex == c.linkIndex
    {
      assert c in multiset(current);
      assert c in s.kept;
      WantedMember(desired, RouteKey(), c.dst);
      assert wanted[c.dst] in desired;
    }
  }

  // ----- applying the difference to the addresses of the link

  /** The addresses have the desired networks, each once, and no others. */
  ghost predicate OneOfEach(addresses: seq<Addr>, desired: seq<Addr>) {
    && (forall i, j | 0 <= i < j < |addresses| :: addresses[i].ipNet != addresses[j].ipNet)
    && (forall a | a in addresses :: exists d :: d in desired && d.ipNet == a.ipNet)
    && (forall d | d in desired :: exists a :: a in addresses && a.ipNet == d.ipNet)
  }

  lemma OneOfEachDesired(entries: seq<Addr>, addresses: seq<Addr>, desired: seq<Addr>)
    requires multiset(entries) == multiset(addresses)
    requires OnePerWant(entries, Wanted(desired, AddrKey()), AddrKey(), AnyAddr())
    ensures OneOfEach(addresses, desired)
  {
    var wanted := Wanted(desired, AddrKey());
    WantedKeyed(desired, AddrKey());
    DistinctPermuted(entries, addresses, AddrKey());
    forall i, j | 0 <= i < j < |addresses|
      ensures addresses[i].ipNet != addresses[j].ipNet
    {
      assert AddrKey()(addresses[i]) != AddrKey()(addresses[j]);
    }
    forall a | a in addresses
      ensures exists d :: d in desired && d.ipNet == a.ipNet
    {
      assert a in multiset(entries);
      assert AddrKey()(a) in wanted;
      var i :| 0 <= i < |desired| && AddrKey()(desired[i]) == a.ipNet;
      assert desired[i] in desired;
    }
    forall d | d in desired
      ensures exists a :: a in addresses && a.ipNet == d.ipNet
    {
      var i :| 0 <= i < |desired| && desired[i] == d;
      assert AddrKey()(desired[i]) in wanted;
      var x :| x in entries && AddrKey()(x) == d.ipNet;
      assert x in multiset(addresses);
    }
  }

  class AddressTable {
    var addresses: seq<Addr>

    constructor (addresses: seq<Addr>)
      ensures this.addresses == addresses
    {
      this.addresses := addresses;
    }

    /** Afterwards every desired address is there exactly once, and nothing else. Attributes of an
        address that was there already stay as they are. */
    method Reconfig(desired: seq<Addr>)
      modifies this
      ensures var wanted := Wanted(desired, AddrKey());
              var s := Scan(old(addresses), wanted, AddrKey(), AnyAddr());
              exists added ::
                && IsAdded(added, s.rest, AddrKey())
                && multiset(addresses) == multiset(s.kept + added)
                && OnePerWant(s.kept + added, wanted, AddrKey(), AnyAddr())
      ensures OneOfEach(addresses, desired)
    {
      ghost var current := addresses;
      var added, deleted := DiffIPs(desired, addresses);
      ghost var s := Scan(current, Wanted(desired, AddrKey()), AddrKey(), AnyAddr());
      DifferenceReachesDesired(desired, current, added, AddrKey(), AnyAddr());
      ScanSplits(current, Wanted(desired, AddrKey()), AddrKey(), AnyAddr());
      DeleteAll(deleted, s.kept);
      AddAll(added);
      OneOfEachDesired(s.kept + added, addresses, desired);
    }

    method DeleteAll(deleted: seq<Addr>, ghost kept: seq<Addr>)
      requires multiset(addresses) == multiset(kept) + multiset(deleted)
      modifies this
      ensures multiset(addresses) == multiset(kept)
    {
      assert deleted[0..] == deleted;
      for i := 0 to |deleted|
        invariant multiset(addresses) == multiset(kept) + multiset(deleted[i..])
      {
        assert deleted[i..] == [deleted[i]] + deleted[i + 1..];
        assert deleted[i] in multiset(addresses);
        Delete(deleted[i]);
      }
    }

    method AddAll(added: seq<Addr>)
      modifies this
      ensures multiset(addresses) == multiset(old(addresses)) + multiset(added)
    {
      for i := 0 to |added|
        invariant multiset(addresses) == multiset(old(addresses)) + multiset(added[..i])
      {
        assert added[..i + 1] == added[..i] + [added[i]];
        addresses := addresses + [added[i]];
      }
      assert added[..|added|] == added;
    }

    /** Deletes the first such address. */
    method Delete(a: Addr)
      requires a in addresses
      modifies this
      ensures multiset(addresses) == multiset(old(addresses)) - multiset{a}
    {
      var i := 0;
      while addresses[i] != a
        invariant 0 <= i < |addresses|
        invariant a in addresses[i..]
        decreases |addresses| - i
      {
        i := i + 1;
      }
      assert addresses == addresses[..i] + [a] + addresses[i + 1..];
      addresses := addresses[..i] + addresses[i + 1..];
    }
  }
}
