/** Applying the difference of two configurations has the effect of replacing the one by the other. */
module WireGuardSync {
  import opened Collections
  import opened Sorting
  import opened WireGuard

  /** The allowed IPs that some entry gives to a peer. */
  function Given(ps: seq<PeerConfig>): set<Prefix> {
    set p, ip | p in ps && !p.remove && ip in p.allowedIPs :: ip
  }

  ghost predicate Effective(ps: seq<PeerConfig>) {
    forall p | p in ps :: p.remove || !p.updateOnly
  }

  lemma HeadTail(ps: seq<PeerConfig>)
    requires ps != []
    ensures forall p :: p in ps <==> p == ps[0] || p in ps[1..]
  {
    assert ps == [ps[0]] + ps[1..];
  }

  lemma GivenSplit(ps: seq<PeerConfig>)
    requires ps != []
    ensures Given(ps) == (if ps[0].remove then {} else SetOf(ps[0].allowedIPs)) + Given(ps[1..])
  {
    HeadTail(ps);
    var own := if ps[0].remove then {} else SetOf(ps[0].allowedIPs);
    forall ip
      ensures ip in Given(ps) <==> ip in own + Given(ps[1..])
    {
      if ip in Given(ps) {
        var p :| p in ps && !p.remove && ip in p.allowedIPs;
        assert p == ps[0] || p in ps[1..];
      }
      if ip in own {
        assert ps[0] in ps;
      }
      if ip in Given(ps[1..]) {
        var p :| p in ps[1..] && !p.remove && ip in p.allowedIPs;
        assert p in ps;
      }
    }
  }

  /** A peer without an entry keeps its settings and loses what entries give to others. */
  lemma {:induction false} Unmentioned(peers: map<Key, DevicePeer>, ps: seq<PeerConfig>, k: Key)
    requires Effective(ps) && forall p | p in ps :: p.publicKey != k
    ensures k in ApplyPeers(peers, ps) <==> k in peers
    ensures k in peers ==>
              ApplyPeers(peers, ps)[k] == peers[k].(allowed := peers[k].allowed - Given(ps))
    decreases |ps|
  {
    if ps == [] {
    } else {
      HeadTail(ps);
      var next := ApplyPeer(peers, ps[0]);
      assert k in next <==> k in peers;
      Unmentioned(next, ps[1..], k);
      var own := if ps[0].remove then {} else SetOf(ps[0].allowedIPs);
      GivenSplit(ps);
      if k in peers {
        assert next[k] == peers[k].(allowed := peers[k].allowed - own);
        assert peers[k].allowed - own - Given(ps[1..]) == peers[k].allowed - Given(ps);
      }
    }
  }

  lemma {:induction false} ApplyConcat(peers: map<Key, DevicePeer>, a: seq<PeerConfig>, b: seq<PeerConfig>)
    ensures ApplyPeers(peers, a + b) == ApplyPeers(ApplyPeers(peers, a), b)
    decreases |a|
  {
    if a == [] {
      assert a + b == b;
    } else {
      assert (a + b)[1..] == a[1..] + b;
      ApplyConcat(ApplyPeer(peers, a[0]), a[1..], b);
    }
  }

  lemma KeysApart(ps: seq<PeerConfig>, i: nat)
    requires InKeyOrder(ps) && i < |ps|
    ensures forall p | p in ps[..i] :: p.publicKey != ps[i].publicKey
    ensures forall p | p in ps[i + 1..] :: p.publicKey != ps[i].publicKey
  {
    forall p | p in ps[..i]
      ensures p.publicKey != ps[i].publicKey
    {
      var j :| 0 <= j < i && ps[j] == p;
      assert KeyOf()(ps[j]) < KeyOf()(ps[i]);
    }
    forall p | p in ps[i + 1..]
      ensures p.publicKey != ps[i].publicKey
    {
      var j :| 0 <= j < |ps| - i - 1 && ps[i + 1..][j] == p;
      assert KeyOf()(ps[i]) < KeyOf()(ps[i + 1 + j]);
    }
  }

  /** The effect of the entry at `i`: later entries can only take away what they give to others. */
  lemma EntryEffect(peers: map<Key, DevicePeer>, ps: seq<PeerConfig>, i: nat)
    requires InKeyOrder(ps) && Effective(ps) && i < |ps|
    requires ps[i].remove || ps[i].replaceAllowedIPs || ps[i].publicKey !in peers
    ensures var r := ApplyPeers(peers, ps);
      var p := ps[i];
      && (p.publicKey in r <==> !p.remove)
      && (!p.remove ==>
            && r[p.publicKey].allowed == SetOf(p.allowedIPs) - Given(ps[i + 1..])
            && AgreesField(p.presharedKey, r[p.publicKey].presharedKey)
            && AgreesField(p.endpoint, r[p.publicKey].endpoint)
            && AgreesField(p.keepalive, r[p.publicKey].keepalive))
  {
    var p := ps[i];
    KeysApart(ps, i);
    ApplySplit(peers, ps, i);
    PartsEffective(ps, i);
    var before := ApplyPeers(peers, ps[..i]);
    Unmentioned(peers, ps[..i], p.publicKey);
    Unmentioned(ApplyPeer(before, p), ps[i + 1..], p.publicKey);
  }

  lemma PartsEffective(ps: seq<PeerConfig>, i: nat)
    requires Effective(ps) && i < |ps|
    ensures Effective(ps[..i]) && Effective(ps[i + 1..]) && (ps[i].remove || !ps[i].updateOnly)
  {
    assert ps[i] in ps;
    assert forall q | q in ps[..i] || q in ps[i + 1..] :: q in ps;
  }

  lemma ApplySplit(peers: map<Key, DevicePeer>, ps: seq<PeerConfig>, i: nat)
    requires i < |ps|
    ensures ApplyPeers(peers, ps) == ApplyPeers(ApplyPeer(ApplyPeers(peers, ps[..i]), ps[i]), ps[i + 1..])
  {
    ApplyConcat(peers, ps[..i], ps[i..]);
    assert ps[..i] + ps[i..] == ps;
    assert ps[i..][1..] == ps[i + 1..];
  }

  // ----- from agreement to agreement

  /** What the merge may assume of its inputs. */
  ghost predicate Mergeable(e: seq<PeerConfig>, c: seq<PeerConfig>, peers: map<Key, DevicePeer>) {
    && InKeyOrder(e) && InKeyOrder(c)
    && (forall p | p in e :: !p.remove && !p.updateOnly)
    && (forall p, q | p in e && q in e && p.publicKey != q.publicKey :: SetOf(p.allowedIPs) !! SetOf(q.allowedIPs))
    && AgreesPeers(c, peers)
  }

  lemma OneOfKey(ps: seq<PeerConfig>, p: PeerConfig, q: PeerConfig)
    requires InKeyOrder(ps) && p in ps && q in ps && p.publicKey == q.publicKey
    ensures p == q
  {
    forall i, j | 0 <= i < j < |ps|
      ensures ps[i].publicKey != ps[j].publicKey
    {
      assert KeyOf()(ps[i]) < KeyOf()(ps[j]);
    }
  }

  lemma MergeEffective(e: seq<PeerConfig>, c: seq<PeerConfig>, peers: map<Key, DevicePeer>)
    requires Mergeable(e, c, peers)
    ensures Effective(MergeDiff(e, c)) && InKeyOrder(MergeDiff(e, c))
  {
    MergeInKeyOrder(e, c);
    forall p | p in MergeDiff(e, c)
      ensures p.remove || !p.updateOnly
    {
      MergeExact(e, c, p);
    }
  }

  /** Entries for other keys give nothing that the peer is to keep. */
  lemma NothingTaken(e: seq<PeerConfig>, c: seq<PeerConfig>, peers: map<Key, DevicePeer>, p: PeerConfig,
                     ps: seq<PeerConfig>)
    requires Mergeable(e, c, peers) && p in e
    requires forall q | q in ps :: q in MergeDiff(e, c) && q.publicKey != p.publicKey
    ensures SetOf(p.allowedIPs) - Given(ps) == SetOf(p.allowedIPs)
  {
    forall ip | ip in SetOf(p.allowedIPs)
      ensures ip !in Given(ps)
    {
      forall q | q in ps && !q.remove
        ensures ip !in q.allowedIPs
      {
        MergeExact(e, c, q);
        assert ip in SetOf(p.allowedIPs);
        var r :| r in e && r.publicKey == q.publicKey && r.allowedIPs == q.allowedIPs;
        assert SetOf(p.allowedIPs) !! SetOf(r.allowedIPs);
        assert ip !in SetOf(r.allowedIPs);
      }
    }
  }

  /** An expected peer ends up as configured. */
  lemma ExpectedAgrees(e: seq<PeerConfig>, c: seq<PeerConfig>, peers: map<Key, DevicePeer>, p: PeerConfig)
    requires Mergeable(e, c, peers) && p in e
    ensures var r := ApplyPeers(peers, MergeDiff(e, c));
      p.publicKey in r && AgreesPeer(p, r[p.publicKey])
  {
    var diff := MergeDiff(e, c);
    MergeEffective(e, c, peers);
    if p.publicKey !in Keys(c) {
      MergeExact(e, c, p);
      EntryAgrees(e, c, peers, p, p);
    } else {
      var r :| r in c && r.publicKey == p.publicKey;
      if Differs(p, r) {
        var q := p.(replaceAllowedIPs := true);
        MergeExact(e, c, q);
        EntryAgrees(e, c, peers, p, q);
      } else {
        forall q | q in diff
          ensures q.publicKey != p.publicKey
        {
          NoEntryIfSame(e, c, p, r, q);
        }
        Unmentioned(peers, diff, p.publicKey);
        NothingTaken(e, c, peers, p, diff);
        assert AgreesPeer(r, peers[p.publicKey]);
      }
    }
  }

  lemma NoEntryIfSame(e: seq<PeerConfig>, c: seq<PeerConfig>, p: PeerConfig, r: PeerConfig, q: PeerConfig)
    requires InKeyOrder(e) && InKeyOrder(c) && p in e && r in c && p.publicKey == r.publicKey && !Differs(p, r)
    requires q in MergeDiff(e, c)
    ensures q.publicKey != p.publicKey
  {
    MergeExact(e, c, q);
    if q.publicKey == p.publicKey {
      assert p.publicKey in Keys(e) && r.publicKey in Keys(c);
      assert exists a, b :: a in e && b in c && a.publicKey == b.publicKey && Differs(a, b)
                            && q == a.(replaceAllowedIPs := true);
      var a, b :| a in e && b in c && a.publicKey == b.publicKey && Differs(a, b)
                  && q == a.(replaceAllowedIPs := true);
      OneOfKey(e, a, p);
      OneOfKey(c, b, r);
    }
  }

  lemma EntryAgrees(e: seq<PeerConfig>, c: seq<PeerConfig>, peers: map<Key, DevicePeer>, p: PeerConfig, q: PeerConfig)
    requires Mergeable(e, c, peers) && p in e && q in MergeDiff(e, c)
    requires q == p.(replaceAllowedIPs := q.replaceAllowedIPs)
    requires q.replaceAllowedIPs || p.publicKey !in Keys(c)
    ensures var r := ApplyPeers(peers, MergeDiff(e, c));
      p.publicKey in r && AgreesPeer(p, r[p.publicKey])
  {
    var diff := MergeDiff(e, c);
    MergeEffective(e, c, peers);
    var i :| 0 <= i < |diff| && diff[i] == q;
    EntryEffect(peers, diff, i);
    KeysApart(diff, i);
    assert forall x | x in diff[i + 1..] :: x in diff;
    NothingTaken(e, c, peers, p, diff[i + 1..]);
  }

  /** A peer that is not expected is gone. */
  lemma OthersGone(e: seq<PeerConfig>, c: seq<PeerConfig>, peers: map<Key, DevicePeer>, k: Key)
    requires Mergeable(e, c, peers) && k !in Keys(e)
    ensures k !in ApplyPeers(peers, MergeDiff(e, c))
  {
    var diff := MergeDiff(e, c);
    MergeEffective(e, c, peers);
    if k in Keys(c) {
      var r :| r in c && r.publicKey == k;
      var q := r.(remove := true);
      MergeExact(e, c, q);
      var i :| 0 <= i < |diff| && diff[i] == q;
      EntryEffect(peers, diff, i);
    } else {
      forall q | q in diff
        ensures q.publicKey != k
      {
        MergeExact(e, c, q);
      }
      Unmentioned(peers, diff, k);
    }
  }

  /** The incremental update refines a full replacement: if the device agrees with the current list,
      then after the difference it agrees with the expected one. */
  lemma MergeRefinesReplace(e: seq<PeerConfig>, c: seq<PeerConfig>, peers: map<Key, DevicePeer>)
    requires Mergeable(e, c, peers)
    ensures AgreesPeers(e, ApplyPeers(peers, MergeDiff(e, c)))
  {
    var r := ApplyPeers(peers, MergeDiff(e, c));
    forall p | p in e
      ensures p.publicKey in r && AgreesPeer(p, r[p.publicKey])
    {
      ExpectedAgrees(e, c, peers, p);
    }
    forall k
      ensures k in r <==> k in Keys(e)
    {
      if k !in Keys(e) {
        OthersGone(e, c, peers, k);
      }
    }
  }

  // ----- unsorted lists

  lemma SortedAgrees(ps: seq<PeerConfig>, peers: map<Key, DevicePeer>)
    ensures AgreesPeers(SortBy(ps, KeyOf()), peers) <==> AgreesPeers(ps, peers)
  {
    var sorted := SortBy(ps, KeyOf());
    forall p
      ensures p in sorted <==> p in ps
    {
      SortMember(ps, KeyOf(), p);
    }
    assert Keys(sorted) == Keys(ps);
  }

  lemma PlainSorted(ps: seq<PeerConfig>, peers: map<Key, DevicePeer>, c: seq<PeerConfig>)
    requires Plain(ps) && DistinctBy(c, KeyOf()) && AgreesPeers(c, peers)
    ensures Mergeable(SortBy(ps, KeyOf()), SortBy(c, KeyOf()), peers)
  {
    SortStrict(ps, KeyOf());
    SortStrict(c, KeyOf());
    SortedAgrees(c, peers);
    var e := SortBy(ps, KeyOf());
    forall p | p in e
      ensures p in ps
    {
      SortMember(ps, KeyOf(), p);
    }
    forall p, q | p in e && q in e && p.publicKey != q.publicKey
      ensures SetOf(p.allowedIPs) !! SetOf(q.allowedIPs)
    {
      var i :| 0 <= i < |ps| && ps[i] == p;
      var j :| 0 <= j < |ps| && ps[j] == q;
      assert if i < j then SetOf(ps[i].allowedIPs) !! SetOf(ps[j].allowedIPs)
             else SetOf(ps[j].allowedIPs) !! SetOf(ps[i].allowedIPs);
    }
  }

  /** The difference is empty exactly when no peer was added, removed or changed. */
  lemma NoDiffExactly(expected: seq<PeerConfig>, current: seq<PeerConfig>)
    requires DistinctBy(expected, KeyOf()) && DistinctBy(current, KeyOf())
    ensures |DiffPeers(expected, current)| == 0 <==>
            && Keys(expected) == Keys(current)
            && forall p, q | p in expected && q in current && p.publicKey == q.publicKey :: !Differs(p, q)
  {
    var e, c := SortBy(expected, KeyOf()), SortBy(current, KeyOf());
    SortStrict(expected, KeyOf());
    SortStrict(current, KeyOf());
    forall p
      ensures (p in e <==> p in expected) && (p in c <==> p in current)
    {
      SortMember(expected, KeyOf(), p);
      SortMember(current, KeyOf(), p);
    }
    assert Keys(e) == Keys(expected) && Keys(c) == Keys(current);
    NoMergeExactly(e, c);
  }

  lemma NoMergeExactly(e: seq<PeerConfig>, c: seq<PeerConfig>)
    requires InKeyOrder(e) && InKeyOrder(c)
    ensures |MergeDiff(e, c)| == 0 <==>
            && Keys(e) == Keys(c)
            && forall p, q | p in e && q in c && p.publicKey == q.publicKey :: !Differs(p, q)
  {
    var diff := MergeDiff(e, c);
    if |diff| == 0 {
      forall p | p in e
        ensures p.publicKey in Keys(c)
      {
        MergeExact(e, c, p);
      }
      forall q | q in c
        ensures q.publicKey in Keys(e)
      {
        MergeExact(e, c, q.(remove := true));
      }
      forall p, q | p in e && q in c && p.publicKey == q.publicKey
        ensures !Differs(p, q)
      {
        MergeExact(e, c, p.(replaceAllowedIPs := true));
      }
    } else {
      MergeExact(e, c, diff[0]);
    }
  }
}
