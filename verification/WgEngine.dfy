/** The WireGuard engine: it remembers the configuration it applied last and sends the device only
    the difference to it. */
module WgEngine {
  import opened Options
  import opened Sorting
  import opened WireGuard
  import opened WireGuardSync

  // ----- diffPeers on arrays

  /** Whether the two entries for a key differ; allowed IPs are compared position by position. */
  method EntriesDiffer(e: PeerConfig, c: PeerConfig) returns (differs: bool)
    ensures differs <==> Differs(e, c)
  {
    if e.endpoint.None? != c.endpoint.None? || (e.endpoint.Some? && e.endpoint.value != c.endpoint.value) {
      return true;
    }
    if e.keepalive.None? != c.keepalive.None? || (e.keepalive.Some? && e.keepalive.value != c.keepalive.value) {
      return true;
    }
    if e.presharedKey.None? != c.presharedKey.None?
      || (e.presharedKey.Some? && e.presharedKey.value != c.presharedKey.value) {
      return true;
    }
    if |e.allowedIPs| != |c.allowedIPs| {
      return true;
    }
    for i := 0 to |e.allowedIPs|
      invariant e.allowedIPs[..i] == c.allowedIPs[..i]
    {
      if e.allowedIPs[i] != c.allowedIPs[i] {
        return true;
      }
    }
    assert e.allowedIPs[..|e.allowedIPs|] == e.allowedIPs && c.allowedIPs[..|c.allowedIPs|] == c.allowedIPs;
    return false;
  }

  /** Sorts both lists by key and merges them into the list of updates. The two may be the same. */
  method ComputePeerDiff(expected: array<PeerConfig>, current: array<PeerConfig>)
    returns (diff: seq<PeerConfig>)
    modifies expected, current
    ensures AscendingBy(expected[..], KeyOf()) && multiset(expected[..]) == multiset(old(expected[..]))
    ensures AscendingBy(current[..], KeyOf()) && multiset(current[..]) == multiset(old(current[..]))
    ensures diff == MergeDiff(expected[..], current[..])
    ensures DistinctBy(old(expected[..]), KeyOf()) && DistinctBy(old(current[..]), KeyOf()) ==>
              && diff == DiffPeers(old(expected[..]), old(current[..]))
              && expected[..] == SortBy(old(expected[..]), KeyOf())
              && current[..] == SortBy(old(current[..]), KeyOf())
  {
    SortInPlace(expected, KeyOf());
    if DistinctBy(old(current[..]), KeyOf()) {
      SortSorted(old(current[..]));
    }
    SortInPlace(current, KeyOf());
    diff := MergeSorted(expected, current);
  }

  lemma {:induction false} SortSorted(s: seq<PeerConfig>)
    requires DistinctBy(s, KeyOf())
    ensures DistinctBy(SortBy(s, KeyOf()), KeyOf())
    ensures SortBy(SortBy(s, KeyOf()), KeyOf()) == SortBy(s, KeyOf())
  {
    SortStrict(s, KeyOf());
    SortFacts(s, KeyOf());
    AscendingSorted(SortBy(s, KeyOf()));
  }

  lemma {:induction false} AscendingSorted(s: seq<PeerConfig>)
    requires AscendingBy(s, KeyOf())
    ensures SortBy(s, KeyOf()) == s
  {
    if s == [] {
    } else {
      AscendingSorted(s[1..]);
      assert s[1..] != [] ==> KeyOf()(s[0]) <= KeyOf()(s[1]);
    }
  }

  lemma Associates(a: seq<PeerConfig>, b: seq<PeerConfig>, c: seq<PeerConfig>)
    ensures a + (b + c) == a + b + c
  {
  }

  /** What the merge emits for the entries at `i` and `j`, and what it goes on with. */
  lemma AtHeads(e: seq<PeerConfig>, c: seq<PeerConfig>, i: nat, j: nat)
    requires i < |e| && j < |c|
    ensures e[i].publicKey > c[j].publicKey ==>
              MergeDiff(e[i..], c[j..]) == [c[j].(remove := true)] + MergeDiff(e[i..], c[j + 1..])
    ensures e[i].publicKey < c[j].publicKey ==>
              MergeDiff(e[i..], c[j..]) == [e[i]] + MergeDiff(e[i + 1..], c[j..])
    ensures e[i].publicKey == c[j].publicKey ==>
              MergeDiff(e[i..], c[j..])
              == (if Differs(e[i], c[j]) then [e[i].(replaceAllowedIPs := true)] else [])
                 + MergeDiff(e[i + 1..], c[j + 1..])
  {
    assert e[i..][1..] == e[i + 1..];
    assert c[j..][1..] == c[j + 1..];
  }

  /** One round of the merge loop. */
  lemma Round(all: seq<PeerConfig>, diff: seq<PeerConfig>, e: seq<PeerConfig>, c: seq<PeerConfig>, i: nat, j: nat)
    requires i < |e| && j < |c| && all == diff + MergeDiff(e[i..], c[j..])
    ensures e[i].publicKey > c[j].publicKey ==>
              all == diff + [c[j].(remove := true)] + MergeDiff(e[i..], c[j + 1..])
    ensures e[i].publicKey < c[j].publicKey ==>
              all == diff + [e[i]] + MergeDiff(e[i + 1..], c[j..])
    ensures e[i].publicKey == c[j].publicKey && Differs(e[i], c[j]) ==>
              all == diff + [e[i].(replaceAllowedIPs := true)] + MergeDiff(e[i + 1..], c[j + 1..])
    ensures e[i].publicKey == c[j].publicKey && !Differs(e[i], c[j]) ==>
              all == diff + MergeDiff(e[i + 1..], c[j + 1..])
  {
    AtHeads(e, c, i, j);
    if e[i].publicKey > c[j].publicKey {
      Associates(diff, [c[j].(remove := true)], MergeDiff(e[i..], c[j + 1..]));
    } else if e[i].publicKey < c[j].publicKey {
      Associates(diff, [e[i]], MergeDiff(e[i + 1..], c[j..]));
    } else if Differs(e[i], c[j]) {
      Associates(diff, [e[i].(replaceAllowedIPs := true)], MergeDiff(e[i + 1..], c[j + 1..]));
    }
  }

  /** The last round, when one of the lists is used up. */
  lemma LastRound(all: seq<PeerConfig>, diff: seq<PeerConfig>, e: seq<PeerConfig>, c: seq<PeerConfig>, i: nat, j: nat)
    requires i <= |e| && j <= |c| && all == diff + MergeDiff(e[i..], c[j..])
    ensures i == |e| ==> all == diff + Removals(c[j..])
    ensures i < |e| && j == |c| ==> all == diff + e[i..]
  {
  }

  method MergeSorted(expected: array<PeerConfig>, current: array<PeerConfig>) returns (diff: seq<PeerConfig>)
    ensures diff == MergeDiff(expected[..], current[..])
  {
    diff := [];
    var eIndex, cIndex := 0, 0;
    ghost var es, cs := expected[..], current[..];
    ghost var all := MergeDiff(es, cs);
    assert es[0..] == es && cs[0..] == cs;
    while true
      invariant 0 <= eIndex <= expected.Length && 0 <= cIndex <= current.Length
      invariant all == diff + MergeDiff(es[eIndex..], cs[cIndex..])
      decreases expected.Length - eIndex + current.Length - cIndex
    {
      if eIndex >= expected.Length || cIndex >= current.Length {
        LastRound(all, diff, es, cs, eIndex, cIndex);
      }
      if eIndex >= expected.Length {
        var rest := RemoveAll(current[cIndex..]);
        return diff + rest;
      }
      if cIndex >= current.Length {
        return diff + expected[eIndex..];
      }
      Round(all, diff, es, cs, eIndex, cIndex);
      var e, c := expected[eIndex], current[cIndex];
      if e.publicKey > c.publicKey {
        diff := diff + [c.(remove := true)];
        cIndex := cIndex + 1;
      } else if e.publicKey < c.publicKey {
        diff := diff + [e];
        eIndex := eIndex + 1;
      } else {
        var differs := EntriesDiffer(e, c);
        if differs {
          diff := diff + [e.(replaceAllowedIPs := true)];
        }
        eIndex, cIndex := eIndex + 1, cIndex + 1;
      }
    }
  }

  method RemoveAll(c: seq<PeerConfig>) returns (rest: seq<PeerConfig>)
    ensures rest == Removals(c)
  {
    rest := [];
    for i := 0 to |c|
      invariant Removals(c) == rest + Removals(c[i..])
    {
      assert c[i..][1..] == c[i + 1..];
      rest := rest + [c[i].(remove := true)];
    }
  }

  // ----- the engine on values

  /** The device and the configuration the engine believes it has. */
  datatype State = State(device: Device, prev: Config<seq<PeerConfig>>)

  /** What the engine remembers before the first call: Go's zero value. */
  const ZERO: Config<seq<PeerConfig>> := Config(None, None, None, false, [])

  function Sorted(c: Config<seq<PeerConfig>>): Config<seq<PeerConfig>> {
    c.(peers := SortBy(c.peers, KeyOf()))
  }

  /** One call; `fails` says whether the device refuses an update. */
  function Reconfigured(s: State, config: Config<seq<PeerConfig>>, fails: bool): State {
    if !HasDiff(config, s.prev) || fails then State(s.device, Sorted(s.prev))
    else State(Configure(s.device, DiffConfigs(config, s.prev)), Sorted(config))
  }

  predicate Succeeds(s: State, config: Config<seq<PeerConfig>>, fails: bool) {
    !HasDiff(config, s.prev) || !fails
  }

  /** A configuration that asks for nothing. */
  predicate Blank(c: Config<seq<PeerConfig>>) {
    c.privateKey.None? && c.listenPort.None? && c.firewallMark.None? && c.peers == []
  }

  /** The device agrees with what is remembered. */
  ghost predicate InSync(s: State) {
    DistinctBy(s.prev.peers, KeyOf()) && Agrees(s.prev, s.device)
  }

  /** Either nothing was asked for yet, or device and memory agree. */
  ghost predicate Consistent(s: State) {
    Blank(s.prev) || InSync(s)
  }

  /** The remembered configuration is as blank as the one asked for, and the device has peers. */
  predicate Overlooked(s: State, config: Config<seq<PeerConfig>>) {
    Blank(config) && Blank(s.prev) && s.device.peers != map[]
  }

  lemma SortedInSync(s: State)
    requires InSync(s)
    ensures InSync(State(s.device, Sorted(s.prev)))
  {
    SortStrict(s.prev.peers, KeyOf());
    SortedAgrees(s.prev.peers, s.device.peers);
  }

  lemma SortedBlank(c: Config<seq<PeerConfig>>)
    ensures Blank(Sorted(c)) <==> Blank(c)
    ensures Blank(c) ==> Sorted(c) == c
  {
    SortFacts(c.peers, KeyOf());
    assert |multiset(SortBy(c.peers, KeyOf()))| == |multiset(c.peers)|;
  }

  lemma EmptyMap(m: map<Key, DevicePeer>)
    ensures m == map[] <==> forall k :: k !in m
  {
    if forall k :: k !in m {
      assert m.Keys == {};
    }
  }

  lemma BlankAgrees(config: Config<seq<PeerConfig>>, device: Device)
    requires Blank(config)
    ensures Agrees(config, device) <==> device.peers == map[]
  {
    assert Keys(config.peers) == {};
    EmptyMap(device.peers);
  }

  /** A configuration that is sent takes effect. */
  lemma SentAgrees(s: State, config: Config<seq<PeerConfig>>)
    requires Consistent(s) && Plain(config.peers)
    ensures Agrees(config, Configure(s.device, DiffConfigs(config, s.prev)))
  {
    var start: map<Key, DevicePeer> := if |s.prev.peers| == 0 then map[] else s.device.peers;
    assert AgreesPeers(s.prev.peers, start);
    PlainSorted(config.peers, start, s.prev.peers);
    MergeRefinesReplace(SortBy(config.peers, KeyOf()), SortBy(s.prev.peers, KeyOf()), start);
    SortedAgrees(config.peers, ApplyPeers(start, DiffPeers(config.peers, s.prev.peers)));
  }

  lemma BlankDiff(config: Config<seq<PeerConfig>>, prev: Config<seq<PeerConfig>>)
    requires Blank(prev) && DistinctBy(config.peers, KeyOf())
    ensures HasDiff(config, prev) <==> !Blank(config)
  {
    NoDiffExactly(config.peers, prev.peers);
    assert config.peers != [] ==> config.peers[0] in config.peers && config.peers[0].publicKey in Keys(config.peers);
    assert Keys(prev.peers) == {};
  }

  /** An update is omitted only when the device already has what is asked for, or is overlooked. */
  lemma OmittedAgrees(s: State, config: Config<seq<PeerConfig>>)
    requires Consistent(s) && Plain(config.peers) && !HasDiff(config, s.prev)
    ensures Agrees(config, s.device) <==> !Overlooked(s, config)
  {
    if Blank(s.prev) {
      BlankDiff(config, s.prev);
      BlankAgrees(config, s.device);
    } else {
      PlainSorted(config.peers, s.device.peers, s.prev.peers);
      MergeRefinesReplace(SortBy(config.peers, KeyOf()), SortBy(s.prev.peers, KeyOf()), s.device.peers);
      assert DiffPeers(config.peers, s.prev.peers) == [];
      SortedAgrees(config.peers, s.device.peers);
    }
  }

  lemma AppliedInSync(s: State, config: Config<seq<PeerConfig>>)
    requires Consistent(s) && Plain(config.peers)
    ensures InSync(State(Configure(s.device, DiffConfigs(config, s.prev)), Sorted(config)))
  {
    SentAgrees(s, config);
    SortedInSync(State(Configure(s.device, DiffConfigs(config, s.prev)), config));
  }

  /** Every call keeps the engine consistent, and a successful one leaves the device as configured
      if and only if the configuration was not overlooked. */
  lemma CallKeeps(s: State, config: Config<seq<PeerConfig>>, fails: bool)
    requires Consistent(s) && Plain(config.peers)
    ensures Consistent(Reconfigured(s, config, fails))
    ensures InSync(s) ==> InSync(Reconfigured(s, config, fails))
    ensures Succeeds(s, config, fails) ==>
              (Agrees(config, Reconfigured(s, config, fails).device) <==> !Overlooked(s, config))
  {
    SortedBlank(s.prev);
    if InSync(s) {
      SortedInSync(s);
    }
    if !HasDiff(config, s.prev) {
      OmittedAgrees(s, config);
    } else if !fails {
      AppliedInSync(s, config);
      SentAgrees(s, config);
      if Blank(s.prev) {
        BlankDiff(config, s.prev);
      }
    }
  }

  /** A call fails only if an update was needed and the device refuses it; then the device stays as it
      is, and the next call tries again. */
  lemma FailsExactly(s: State, config: Config<seq<PeerConfig>>, fails: bool)
    requires Consistent(s) && Plain(config.peers)
    ensures !fails ==> Succeeds(s, config, fails)
    ensures fails && !Agrees(config, s.device) && !Overlooked(s, config) ==> !Succeeds(s, config, fails)
    ensures !Succeeds(s, config, fails) ==> Reconfigured(s, config, fails).device == s.device
  {
    if !HasDiff(config, s.prev) {
      OmittedAgrees(s, config);
    }
  }

  /** A configuration that was applied is not sent a second time. */
  lemma RepeatOmitted(s: State, config: Config<seq<PeerConfig>>, again: bool)
    requires Consistent(s) && Plain(config.peers) && HasDiff(config, s.prev)
    ensures var t := Reconfigured(s, config, false);
      Reconfigured(t, config, again).device == t.device && Succeeds(t, config, again)
  {
    var sorted := SortBy(config.peers, KeyOf());
    SortStrict(config.peers, KeyOf());
    SortSorted(config.peers);
    forall p
      ensures p in sorted <==> p in config.peers
    {
      SortMember(config.peers, KeyOf(), p);
    }
    assert Keys(sorted) == Keys(config.peers);
    forall p, q | p in config.peers && q in sorted && p.publicKey == q.publicKey
      ensures !Differs(p, q)
    {
      SameKeySame(config.peers, KeyOf(), p, q);
    }
    NoDiffExactly(config.peers, sorted);
  }

  datatype Call = Call(config: Config<seq<PeerConfig>>, fails: bool)

  /** The state after the first `n` calls on an engine created for a device in any state. */
  function AfterCalls(device: Device, calls: seq<Call>, n: nat): State
    requires n <= |calls|
  {
    if n == 0 then State(device, ZERO)
    else Reconfigured(AfterCalls(device, calls, n - 1), calls[n - 1].config, calls[n - 1].fails)
  }

  /** The device had peers to begin with, and each of the first `n` calls asked for nothing or met a
      device that refuses. */
  predicate NothingAsked(device: Device, calls: seq<Call>, n: nat)
    requires n <= |calls|
  {
    device.peers != map[] && forall i | 0 <= i < n :: Blank(calls[i].config) || calls[i].fails
  }

  /** A call that meets the untouched engine either leaves it untouched or brings it in sync. */
  lemma FirstEffect(device: Device, call: Call)
    requires Plain(call.config.peers)
    ensures var s := State(device, ZERO);
      if Blank(call.config) || call.fails then Reconfigured(s, call.config, call.fails) == s
      else InSync(Reconfigured(s, call.config, call.fails))
  {
    SortedBlank(ZERO);
    BlankDiff(call.config, ZERO);
    if !Blank(call.config) && !call.fails {
      AppliedInSync(State(device, ZERO), call.config);
    }
  }

  ghost predicate AllPlain(calls: seq<Call>) {
    forall i | 0 <= i < |calls| :: Plain(calls[i].config.peers)
  }

  lemma NothingAskedNext(device: Device, calls: seq<Call>, n: nat)
    requires n < |calls|
    ensures NothingAsked(device, calls, n + 1) <==>
            NothingAsked(device, calls, n) && (Blank(calls[n].config) || calls[n].fails)
  {
  }

  /** As long as nothing takes effect the engine and the device stay as they were; afterwards they
      are in agreement for good. */
  lemma {:induction false} SinceTheStart(device: Device, calls: seq<Call>, n: nat)
    requires n <= |calls| && AllPlain(calls)
    ensures if NothingAsked(device, calls, n) then AfterCalls(device, calls, n) == State(device, ZERO)
            else InSync(AfterCalls(device, calls, n))
  {
    if n == 0 {
      BlankAgrees(ZERO, device);
    } else {
      var call := calls[n - 1];
      SinceTheStart(device, calls, n - 1);
      NothingAskedNext(device, calls, n - 1);
      if NothingAsked(device, calls, n - 1) {
        FirstEffect(device, call);
      } else {
        CallKeeps(AfterCalls(device, calls, n - 1), call.config, call.fails);
      }
    }
  }

  lemma InSyncFollows(s: State, call: Call)
    requires InSync(s) && Plain(call.config.peers) && Succeeds(s, call.config, call.fails)
    ensures Agrees(call.config, Reconfigured(s, call.config, call.fails).device)
  {
    CallKeeps(s, call.config, call.fails);
    if Blank(s.prev) {
      BlankAgrees(s.prev, s.device);
    }
  }

  lemma StartFollows(device: Device, call: Call)
    requires Plain(call.config.peers) && Succeeds(State(device, ZERO), call.config, call.fails)
    ensures Agrees(call.config, Reconfigured(State(device, ZERO), call.config, call.fails).device)
            <==> !(device.peers != map[] && (Blank(call.config) || call.fails))
    ensures call.fails ==> Blank(call.config)
  {
    BlankDiff(call.config, ZERO);
    CallKeeps(State(device, ZERO), call.config, call.fails);
  }

  /** Over all runs, from any initial device state and with any failures in between: a successful
      call leaves the device with exactly the configured peers, allowed IPs and settings, if and only
      if it is not so that the device had peers to begin with and no call so far asked for anything
      that the device took. */
  lemma DeviceFollowsConfig(device: Device, calls: seq<Call>, n: nat)
    requires 0 < n <= |calls| && AllPlain(calls)
    requires Succeeds(AfterCalls(device, calls, n - 1), calls[n - 1].config, calls[n - 1].fails)
    ensures Agrees(calls[n - 1].config, AfterCalls(device, calls, n).device) <==> !NothingAsked(device, calls, n)
  {
    var s, call := AfterCalls(device, calls, n - 1), calls[n - 1];
    assert AfterCalls(device, calls, n) == Reconfigured(s, call.config, call.fails);
    SinceTheStart(device, calls, n - 1);
    NothingAskedNext(device, calls, n - 1);
    if NothingAsked(device, calls, n - 1) {
      StartFollows(device, call);
    } else {
      InSyncFollows(s, call);
    }
  }

  /** A configuration with a listen port, which is what the program asks for, always takes effect. */
  lemma PortIsEnough(device: Device, calls: seq<Call>, n: nat)
    requires 0 < n <= |calls| && AllPlain(calls)
    requires Succeeds(AfterCalls(device, calls, n - 1), calls[n - 1].config, calls[n - 1].fails)
    requires calls[n - 1].config.listenPort.Some?
    ensures Agrees(calls[n - 1].config, AfterCalls(device, calls, n).device)
  {
    SinceTheStart(device, calls, n - 1);
    if NothingAsked(device, calls, n - 1) {
      StartFollows(device, calls[n - 1]);
    } else {
      InSyncFollows(AfterCalls(device, calls, n - 1), calls[n - 1]);
    }
  }

  /** A device with a peer, and a first call that asks for nothing: it succeeds and changes nothing. */
  lemma PeerRemains()
    ensures var device := Device(None, None, None, map[1 := DevicePeer(None, None, None, {})]);
      var calls := [Call(ZERO, false)];
      && Plain(ZERO.peers)
      && Succeeds(AfterCalls(device, calls, 0), ZERO, false)
      && 1 in AfterCalls(device, calls, 1).device.peers
      && !Agrees(ZERO, AfterCalls(device, calls, 1).device)
  {
    var device := Device(None, None, None, map[1 := DevicePeer(None, None, None, {})]);
    var calls := [Call(ZERO, false)];
    assert 1 in device.peers;
    SinceTheStart(device, calls, 1);
    BlankDiff(ZERO, ZERO);
    BlankAgrees(ZERO, device);
  }

  // ----- the engine with its fields

  ghost function Value(c: Config<array<PeerConfig>>): Config<seq<PeerConfig>>
    reads c.peers
  {
    Config(c.privateKey, c.listenPort, c.firewallMark, c.replacePeers, c.peers[..])
  }

  /** The configuration to send, and whether there is anything to send. Sorts both lists of peers. */
  method ComputeConfigDiff(expected: Config<array<PeerConfig>>, current: Config<array<PeerConfig>>)
    returns (diff: Config<seq<PeerConfig>>, hasDiff: bool)
    modifies expected.peers, current.peers
    ensures DistinctBy(old(expected.peers[..]), KeyOf()) && DistinctBy(old(current.peers[..]), KeyOf()) ==>
              && diff == DiffConfigs(old(Value(expected)), old(Value(current)))
              && hasDiff == HasDiff(old(Value(expected)), old(Value(current)))
              && Value(expected) == Sorted(old(Value(expected)))
              && Value(current) == Sorted(old(Value(current)))
  {
    hasDiff := expected.firewallMark != current.firewallMark;
    if expected.listenPort != current.listenPort {
      hasDiff := true;
    }
    if expected.privateKey != current.privateKey {
      hasDiff := true;
    }
    var replacePeers := current.peers.Length == 0;
    var peers := ComputePeerDiff(expected.peers, current.peers);
    diff := Config(expected.privateKey, expected.listenPort, expected.firewallMark, replacePeers, peers);
    hasDiff := hasDiff || |peers| != 0;
  }

  class WireGuardEngine {
    var prevConfig: Config<array<PeerConfig>>
    var device: Device

    ghost function Current(): State
      reads this, prevConfig.peers
    {
      State(device, Value(prevConfig))
    }

    ghost predicate Valid()
      reads this, prevConfig.peers
    {
      Consistent(Current())
    }

    constructor (device: Device)
      ensures Valid() && Current() == State(device, ZERO)
      ensures fresh(prevConfig.peers)
    {
      var none := new PeerConfig[0];
      this.device := device;
      prevConfig := Config(None, None, None, false, none);
      new;
      assert prevConfig.peers[..] == [];
    }

    method ReconfigWireguard(config: Config<array<PeerConfig>>, deviceFails: bool) returns (ok: bool)
      modifies this, config.peers, prevConfig.peers
      ensures DistinctBy(old(config.peers[..]), KeyOf()) && DistinctBy(old(prevConfig.peers[..]), KeyOf()) ==>
                && Current() == Reconfigured(old(Current()), old(Value(config)), deviceFails)
                && ok == Succeeds(old(Current()), old(Value(config)), deviceFails)
      ensures old(Valid()) && Plain(old(Value(config)).peers) ==>
                && Valid()
                && (ok ==> (Agrees(old(Value(config)), device) <==> !old(Overlooked(Current(), Value(config)))))
                && (!deviceFails ==> ok) && (!ok ==> device == old(device))
      ensures prevConfig == old(prevConfig) || prevConfig == config
    {
      if Valid() && Plain(Value(config).peers) {
        CallKeeps(Current(), Value(config), deviceFails);
      }
      var diff, hasDiff := ComputeConfigDiff(config, prevConfig);
      if !hasDiff {
        return true;
      }
      if deviceFails {
        return false;
      }
      device := Configure(device, diff);
      prevConfig := config;
      return true;
    }
  }
}
