/** WireGuard device state, what configuring a device does to it, and the difference between two
    configurations. */
module WireGuard {
  import opened Collections
  import opened Options
  import opened Sorting

  /** A public key; keys are ordered as their base64 texts, which is a total order. */
  type Key = int

  /** An allowed IP in its canonical text form. */
  type Prefix = int

  datatype PeerConfig = PeerConfig(
    publicKey: Key, remove: bool, updateOnly: bool,
    presharedKey: Option<int>, endpoint: Option<int>, keepalive: Option<int>,
    replaceAllowedIPs: bool, allowedIPs: seq<Prefix>)

  /** `P` is the type of the list of peers: a sequence for values, an array for configurations that
      are sorted in place. */
  datatype Config<P> = Config(
    privateKey: Option<int>, listenPort: Option<int>, firewallMark: Option<int>,
    replacePeers: bool, peers: P)

  datatype DevicePeer = DevicePeer(
    presharedKey: Option<int>, endpoint: Option<int>, keepalive: Option<int>, allowed: set<Prefix>)

  datatype Device = Device(
    privateKey: Option<int>, listenPort: Option<int>, firewallMark: Option<int>,
    peers: map<Key, DevicePeer>)

  // ----- configuring a device

  function Or<T>(wanted: Option<T>, current: Option<T>): Option<T> {
    if wanted.Some? then wanted else current
  }

  /** Cryptokey routing: an allowed IP belongs to one peer, so giving it to one takes it from the
      others. Absent fields leave the peer as it is. */
  function ApplyPeer(peers: map<Key, DevicePeer>, p: PeerConfig): map<Key, DevicePeer> {
    if p.remove then peers - {p.publicKey}
    else if p.updateOnly && p.publicKey !in peers then peers
    else
      var was := if p.publicKey in peers then peers[p.publicKey] else DevicePeer(None, None, None, {});
      var given := SetOf(p.allowedIPs);
      var now := DevicePeer(
        Or(p.presharedKey, was.presharedKey), Or(p.endpoint, was.endpoint), Or(p.keepalive, was.keepalive),
        (if p.replaceAllowedIPs then {} else was.allowed) + given);
      (map k | k in peers :: peers[k].(allowed := peers[k].allowed - given))[p.publicKey := now]
  }

  function ApplyPeers(peers: map<Key, DevicePeer>, ps: seq<PeerConfig>): map<Key, DevicePeer>
    decreases |ps|
  {
    if ps == [] then peers else ApplyPeers(ApplyPeer(peers, ps[0]), ps[1..])
  }

  function Configure(device: Device, c: Config<seq<PeerConfig>>): Device {
    Device(Or(c.privateKey, device.privateKey), Or(c.listenPort, device.listenPort),
           Or(c.firewallMark, device.firewallMark),
           ApplyPeers(if c.replacePeers then map[] else device.peers, c.peers))
  }

  // ----- agreement of device and configuration

  function KeyOf(): PeerConfig -> Key {
    (p: PeerConfig) => p.publicKey
  }

  ghost predicate AgreesField<T>(wanted: Option<T>, actual: Option<T>) {
    wanted.Some? ==> actual == wanted
  }

  ghost predicate AgreesPeer(p: PeerConfig, d: DevicePeer) {
    && d.allowed == SetOf(p.allowedIPs)
    && AgreesField(p.presharedKey, d.presharedKey)
    && AgreesField(p.endpoint, d.endpoint)
    && AgreesField(p.keepalive, d.keepalive)
  }

  /** The device has exactly the configured keys, with exactly the configured allowed IPs and every
      configured endpoint, keepalive and preshared key. */
  ghost predicate AgreesPeers(ps: seq<PeerConfig>, peers: map<Key, DevicePeer>) {
    && (forall k :: k in peers <==> k in Keys(ps))
    && (forall p | p in ps :: p.publicKey in peers && AgreesPeer(p, peers[p.publicKey]))
  }

  function Keys(ps: seq<PeerConfig>): set<Key> {
    set p | p in ps :: p.publicKey
  }

  ghost predicate Agrees(c: Config<seq<PeerConfig>>, device: Device) {
    && AgreesField(c.privateKey, device.privateKey)
    && AgreesField(c.listenPort, device.listenPort)
    && AgreesField(c.firewallMark, device.firewallMark)
    && AgreesPeers(c.peers, device.peers)
  }

  /** What the engine asks for: distinct keys, allowed IPs disjoint between peers, and no entry that
      removes or only updates a peer. */
  ghost predicate Plain(ps: seq<PeerConfig>) {
    && DistinctBy(ps, KeyOf())
    && (forall p | p in ps :: !p.remove && !p.updateOnly)
    && (forall i, j | 0 <= i < j < |ps| :: SetOf(ps[i].allowedIPs) !! SetOf(ps[j].allowedIPs))
  }

  // ----- the difference of two lists of peers

  predicate Differs(e: PeerConfig, c: PeerConfig) {
    e.endpoint != c.endpoint || e.keepalive != c.keepalive || e.presharedKey != c.presharedKey
    || e.allowedIPs != c.allowedIPs
  }

  function Removals(c: seq<PeerConfig>): seq<PeerConfig> {
    if c == [] then [] else [c[0].(remove := true)] + Removals(c[1..])
  }

  /** The merge join of two lists in key order. */
  function MergeDiff(e: seq<PeerConfig>, c: seq<PeerConfig>): seq<PeerConfig>
    decreases |e| + |c|
  {
    if e == [] then Removals(c)
    else if c == [] then e
    else if e[0].publicKey > c[0].publicKey then [c[0].(remove := true)] + MergeDiff(e, c[1..])
    else if e[0].publicKey < c[0].publicKey then [e[0]] + MergeDiff(e[1..], c)
    else
      (if Differs(e[0], c[0]) then [e[0].(replaceAllowedIPs := true)] else []) + MergeDiff(e[1..], c[1..])
  }

  function DiffPeers(expected: seq<PeerConfig>, current: seq<PeerConfig>): seq<PeerConfig> {
    MergeDiff(SortBy(expected, KeyOf()), SortBy(current, KeyOf()))
  }

  function DiffConfigs(expected: Config<seq<PeerConfig>>, current: Config<seq<PeerConfig>>): Config<seq<PeerConfig>> {
    Config(expected.privateKey, expected.listenPort, expected.firewallMark,
           |current.peers| == 0, DiffPeers(expected.peers, current.peers))
  }

  predicate HasDiff(expected: Config<seq<PeerConfig>>, current: Config<seq<PeerConfig>>) {
    || expected.firewallMark != current.firewallMark
    || expected.listenPort != current.listenPort
    || expected.privateKey != current.privateKey
    || |DiffPeers(expected.peers, current.peers)| != 0
  }

  // ----- what the difference contains

  /** The entry that a key gets, read off the two lists without merging: nothing if it is in neither
      or unchanged. */
  ghost predicate IsEntry(e: seq<PeerConfig>, c: seq<PeerConfig>, p: PeerConfig) {
    || (p in e && p.publicKey !in Keys(c))
    || (exists q :: q in c && q.publicKey !in Keys(e) && p == q.(remove := true))
    || (exists q, r :: q in e && r in c && q.publicKey == r.publicKey && Differs(q, r)
                       && p == q.(replaceAllowedIPs := true))
  }

  ghost predicate InKeyOrder(ps: seq<PeerConfig>) {
    StrictlyBy(ps, KeyOf())
  }

  lemma TailKeys(ps: seq<PeerConfig>)
    requires ps != [] && InKeyOrder(ps)
    ensures InKeyOrder(ps[1..])
    ensures forall p | p in ps[1..] :: p in ps && ps[0].publicKey < p.publicKey
    ensures forall p | p in ps :: p == ps[0] || p in ps[1..]
    ensures forall p | p in ps && p.publicKey == ps[0].publicKey :: p == ps[0]
  {
    assert ps == [ps[0]] + ps[1..];
    forall p | p in ps[1..]
      ensures ps[0].publicKey < p.publicKey
    {
      var i :| 0 <= i < |ps[1..]| && ps[1..][i] == p;
      assert KeyOf()(ps[0]) < KeyOf()(ps[i + 1]);
    }
  }

  lemma {:induction false} RemovalsExact(c: seq<PeerConfig>, p: PeerConfig)
    ensures p in Removals(c) <==> exists q :: q in c && p == q.(remove := true)
  {
    if c == [] {
    } else {
      assert c == [c[0]] + c[1..];
      RemovalsExact(c[1..], p);
    }
  }

  /** The head of the current list has the least key: it is to be removed. */
  lemma RemovedHead(e: seq<PeerConfig>, c: seq<PeerConfig>, p: PeerConfig)
    requires InKeyOrder(e) && InKeyOrder(c) && e != [] && c != [] && e[0].publicKey > c[0].publicKey
    ensures IsEntry(e, c, p) <==> p == c[0].(remove := true) || IsEntry(e, c[1..], p)
  {
    TailKeys(e);
    TailKeys(c);
  }

  /** The head of the expected list has the least key: it is new. */
  lemma NewHead(e: seq<PeerConfig>, c: seq<PeerConfig>, p: PeerConfig)
    requires InKeyOrder(e) && InKeyOrder(c) && e != [] && c != [] && e[0].publicKey < c[0].publicKey
    ensures IsEntry(e, c, p) <==> p == e[0] || IsEntry(e[1..], c, p)
  {
    TailKeys(e);
    TailKeys(c);
  }

  lemma SharedHead(e: seq<PeerConfig>, c: seq<PeerConfig>, p: PeerConfig)
    requires InKeyOrder(e) && InKeyOrder(c) && e != [] && c != [] && e[0].publicKey == c[0].publicKey
    ensures IsEntry(e, c, p) <==>
            (Differs(e[0], c[0]) && p == e[0].(replaceAllowedIPs := true)) || IsEntry(e[1..], c[1..], p)
  {
    TailKeys(e);
    TailKeys(c);
  }

  /** The merge produces exactly these entries. */
  lemma {:induction false} MergeExact(e: seq<PeerConfig>, c: seq<PeerConfig>, p: PeerConfig)
    requires InKeyOrder(e) && InKeyOrder(c)
    ensures p in MergeDiff(e, c) <==> IsEntry(e, c, p)
    decreases |e| + |c|
  {
    if e == [] {
      RemovalsExact(c, p);
    } else if c == [] {
    } else if e[0].publicKey > c[0].publicKey {
      RemovedHead(e, c, p);
      MergeExact(e, c[1..], p);
    } else if e[0].publicKey < c[0].publicKey {
      NewHead(e, c, p);
      MergeExact(e[1..], c, p);
    } else {
      SharedHead(e, c, p);
      MergeExact(e[1..], c[1..], p);
    }
  }

  ghost predicate AllAbove(ps: seq<PeerConfig>, k: Key) {
    forall p | p in ps :: k < p.publicKey
  }

  lemma {:induction false} MergeAbove(e: seq<PeerConfig>, c: seq<PeerConfig>, k: Key)
    requires AllAbove(e, k) && AllAbove(c, k)
    ensures AllAbove(MergeDiff(e, c), k)
    decreases |e| + |c|
  {
    if e == [] {
      RemovalsAbove(c, k);
    } else if c == [] {
    } else if e[0].publicKey > c[0].publicKey {
      MergeAbove(e, c[1..], k);
    } else if e[0].publicKey < c[0].publicKey {
      MergeAbove(e[1..], c, k);
    } else {
      MergeAbove(e[1..], c[1..], k);
    }
  }

  lemma {:induction false} RemovalsAbove(c: seq<PeerConfig>, k: Key)
    requires AllAbove(c, k)
    ensures AllAbove(Removals(c), k)
  {
    if c == [] {
    } else {
      RemovalsAbove(c[1..], k);
    }
  }

  lemma AboveHead(ps: seq<PeerConfig>, k: Key)
    requires ps != [] && InKeyOrder(ps) && k < ps[0].publicKey
    ensures AllAbove(ps, k)
  {
    TailKeys(ps);
  }

  /** The entries come in strict key order, so no key has two. */
  lemma {:induction false} MergeInKeyOrder(e: seq<PeerConfig>, c: seq<PeerConfig>)
    requires InKeyOrder(e) && InKeyOrder(c)
    ensures InKeyOrder(MergeDiff(e, c))
    decreases |e| + |c|
  {
    if e == [] {
      RemovalsInKeyOrder(c);
    } else if c == [] {
    } else {
      TailKeys(e);
      TailKeys(c);
      if e[0].publicKey > c[0].publicKey {
        AboveHead(e, c[0].publicKey);
        MergeInKeyOrder(e, c[1..]);
        MergeAbove(e, c[1..], c[0].publicKey);
        Prepend(c[0].(remove := true), MergeDiff(e, c[1..]));
      } else if e[0].publicKey < c[0].publicKey {
        AboveHead(c, e[0].publicKey);
        MergeInKeyOrder(e[1..], c);
        MergeAbove(e[1..], c, e[0].publicKey);
        Prepend(e[0], MergeDiff(e[1..], c));
      } else {
        MergeInKeyOrder(e[1..], c[1..]);
        MergeAbove(e[1..], c[1..], e[0].publicKey);
        Prepend(e[0].(replaceAllowedIPs := true), MergeDiff(e[1..], c[1..]));
      }
    }
  }

  lemma {:induction false} RemovalsInKeyOrder(c: seq<PeerConfig>)
    requires InKeyOrder(c)
    ensures InKeyOrder(Removals(c))
  {
    if c == [] {
    } else {
      TailKeys(c);
      RemovalsInKeyOrder(c[1..]);
      RemovalsAbove(c[1..], c[0].publicKey);
      Prepend(c[0].(remove := true), Removals(c[1..]));
    }
  }

  lemma Prepend(p: PeerConfig, rest: seq<PeerConfig>)
    requires InKeyOrder(rest) && AllAbove(rest, p.publicKey)
    ensures InKeyOrder([p] + rest)
  {
    var all := [p] + rest;
    forall i, j | 0 <= i < j < |all|
      ensures KeyOf()(all[i]) < KeyOf()(all[j])
    {
      assert all[j] == rest[j - 1];
      assert rest[j - 1] in rest;
    }
  }
}
