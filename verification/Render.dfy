/** WireGuard and FRR peers derived from a replayed state (internal/render). Rendered output is a
    list of peer records rather than text. */
module Render {
  import opened Bytes
  import opened Sorting
  import opened Entries
  import opened States
  import opened Runs
  import Membership
  import Forks

  datatype Peer = Peer(nodeId: Text, publicKey: Text, allowedIps: Text, endpoint: Text)

  /** The three peer lists of an FRR configuration, and the router id. */
  datatype Frr = Frr(routerId: Text, bfd: seq<Text>, neighbors: seq<Text>, activated: seq<Text>)

  // ---- specification ----

  /** overlayHostOnly */
  function Host(p: Primitives, s: Subject): Option<Text> { p.prefixHost(s.overlayIp) }

  /** Every overlay parses, and no two members share a host. */
  ghost predicate UniqueOverlay(p: Primitives, m: map<Text, Subject>) {
    && (forall id :: id in m ==> Host(p, m[id]).Some?)
    && (forall a, b :: a in m && b in m && Host(p, m[a]) == Host(p, m[b]) ==> a == b)
  }

  ghost predicate AllHosts(p: Primitives, m: map<Text, Subject>, ids: seq<Text>) {
    forall id :: id in ids ==> id in m && Host(p, m[id]).Some?
  }

  function PeerOf(p: Primitives, s: Subject): Peer {
    var host := match Host(p, s) case Some(h) => h case None => [];
    Peer(s.nodeId, s.wgPubkey, host + Ascii("/32"), s.endpoint)
  }

  function PeersOf(p: Primitives, m: map<Text, Subject>, ids: seq<Text>): (r: seq<Peer>)
    requires forall id :: id in ids ==> id in m
    ensures |r| == |ids| && forall i :: 0 <= i < |ids| ==> r[i] == PeerOf(p, m[ids[i]])
  {
    if ids == [] then [] else [PeerOf(p, m[ids[0]])] + PeersOf(p, m, ids[1..])
  }

  function HostsOf(p: Primitives, m: map<Text, Subject>, ids: seq<Text>): (r: seq<Text>)
    requires forall id :: id in ids ==> id in m
    ensures |r| == |ids|
    ensures forall i :: 0 <= i < |ids| && Host(p, m[ids[i]]).Some? ==> r[i] == Host(p, m[ids[i]]).value
  {
    if ids == [] then []
    else [match Host(p, m[ids[0]]) case Some(h) => h case None => []] + HostsOf(p, m, ids[1..])
  }

  /** The other members in ascending order. */
  ghost function Others(m: map<Text, Subject>, self: Text): (ids: seq<Text>)
    ensures forall id :: id in ids <==> id in m && id != self
  {
    Ascending(m.Keys - {self})
  }

  // ---- the code ----

  method EnsureUniqueOverlay(state: State) returns (ok: bool)
    ensures ok <==> UniqueOverlay(state.p, state.members)
  {
    hide Ascending, Host, StrictlySorted;
    var p, m := state.p, state.members;
    var seen: map<Text, Text> := map[];
    var ids := state.MemberIDs();
    AscendingDistinct(m.Keys);
    ghost var hosts: seq<Text> := [];
    for i := 0 to |ids|
      invariant |hosts| == i && forall j :: 0 <= j < i ==> Host(p, m[ids[j]]) == Some(hosts[j])
      invariant forall h :: h in seen <==> h in hosts
      invariant forall j, k :: 0 <= j < k < i ==> hosts[j] != hosts[k]
    {
      var id := ids[i];
      assert id in m;
      var host := OverlayHostOnly(p, m[id]);
      if host.None? {
        assert !UniqueOverlay(p, m);
        return false;
      }
      if host.value in seen {
        ghost var j :| 0 <= j < i && hosts[j] == host.value;
        SharedHost(p, m, ids[j], id);
        return false;
      }
      seen := seen[host.value := id];
      hosts := hosts + [host.value];
    }
    DistinctHosts(p, m, ids, hosts);
    ok := true;
  }

  lemma SharedHost(p: Primitives, m: map<Text, Subject>, a: Text, b: Text)
    requires a in m && b in m && a != b && Host(p, m[a]) == Host(p, m[b])
    ensures !UniqueOverlay(p, m)
  {
  }

  method OverlayHostOnly(p: Primitives, s: Subject) returns (r: Option<Text>)
    ensures r == Host(p, s)
  {
    r := p.prefixHost(s.overlayIp);
  }

  lemma DistinctHosts(p: Primitives, m: map<Text, Subject>, ids: seq<Text>, hosts: seq<Text>)
    requires (forall id :: id in ids <==> id in m) && |hosts| == |ids|
    requires forall j :: 0 <= j < |ids| ==> Host(p, m[ids[j]]) == Some(hosts[j])
    requires forall j, k :: 0 <= j < k < |hosts| ==> hosts[j] != hosts[k]
    ensures UniqueOverlay(p, m)
  {
    hide Host;
    forall id | id in m ensures Host(p, m[id]).Some? {
      var j :| 0 <= j < |ids| && ids[j] == id;
    }
    forall a, b | a in m && b in m && Host(p, m[a]) == Host(p, m[b]) ensures a == b {
      var j :| 0 <= j < |ids| && ids[j] == a;
      var k :| 0 <= k < |ids| && ids[k] == b;
    }
  }

  lemma KeptOthers(m: map<Text, Subject>, self: Text, ids: seq<Text>, i: nat, kept: seq<Text>)
    requires ids == Ascending(m.Keys) && i <= |ids|
    requires StrictlySorted(Self, kept)
    requires forall x :: x in kept <==> x in ids[..i] && x != self
    ensures i < |ids| && ids[i] != self ==> StrictlySorted(Self, kept + [ids[i]])
    ensures i < |ids| ==> ids[i] in m && ids[..i + 1] == ids[..i] + [ids[i]]
    ensures i == |ids| ==> kept == Others(m, self)
  {
    hide Ascending, Less;
    if i < |ids| {
      assert ids[i] in ids;
      forall j | 0 <= j < |kept| ensures Less(kept[j], ids[i]) {
        assert kept[j] in ids[..i];
        var k :| 0 <= k < i && ids[k] == kept[j];
        assert Less(Self(ids[k]), Self(ids[i]));
      }
    } else {
      assert ids[..i] == ids;
      AscendingUnique(m.Keys - {self}, kept);
    }
  }

  lemma AllHostsSnoc(p: Primitives, m: map<Text, Subject>, kept: seq<Text>, id: Text)
    requires AllHosts(p, m, kept) && id in m && Host(p, m[id]).Some?
    ensures AllHosts(p, m, kept + [id])
  {
    hide Host;
  }

  lemma PeersOfSnoc(p: Primitives, m: map<Text, Subject>, kept: seq<Text>, id: Text)
    requires id in m && forall x :: x in kept ==> x in m
    ensures PeersOf(p, m, kept + [id]) == PeersOf(p, m, kept) + [PeerOf(p, m[id])]
  {
    hide PeerOf;
  }

  /** The peer loop of WireGuardConf. */
  method WireGuardConf(state: State, self: Text) returns (r: Option<seq<Peer>>)
    ensures r == if self in state.members && AllHosts(state.p, state.members, Others(state.members, self))
                 then Some(PeersOf(state.p, state.members, Others(state.members, self))) else None
  {
    hide StrictlySorted, Ascending, Others, PeerOf, PeersOf;
    var p, m := state.p, state.members;
    if self !in m { return None; }
    var ids := state.MemberIDs();
    var out: seq<Peer> := [];
    ghost var kept: seq<Text> := [];
    assert StrictlySorted(Self, kept) by { NothingSorted(); }
    for i := 0 to |ids|
      invariant StrictlySorted(Self, kept)
      invariant forall x :: x in kept <==> x in ids[..i] && x != self
      invariant AllHosts(p, m, kept)
      invariant out == PeersOf(p, m, kept)
    {
      var id := ids[i];
      KeptOthers(m, self, ids, i, kept);
      if id == self { continue; }
      var host := p.prefixHost(m[id].overlayIp);
      if host.None? {
        assert id in Others(m, self);
        return None;
      }
      AllHostsSnoc(p, m, kept, id);
      PeersOfSnoc(p, m, kept, id);
      PeerRecord(p, m[id], host.value);
      out := out + [Peer(m[id].nodeId, m[id].wgPubkey, host.value + Ascii("/32"), m[id].endpoint)];
      kept := kept + [id];
    }
    KeptOthers(m, self, ids, |ids|, kept);
    return Some(out);
  }

  lemma PeerRecord(p: Primitives, s: Subject, host: Text)
    requires Host(p, s) == Some(host)
    ensures PeerOf(p, s) == Peer(s.nodeId, s.wgPubkey, host + Ascii("/32"), s.endpoint)
  {
  }

  /** Every host of the other members parses as an address. */
  ghost predicate AllAddrs(p: Primitives, m: map<Text, Subject>, ids: seq<Text>) {
    forall id :: id in ids ==> id in m && Host(p, m[id]).Some? && p.isAddr(Host(p, m[id]).value)
  }

  /** The loop of FRRConf that builds the peer list. */
  method FrrPeers(state: State, self: Text) returns (r: Option<seq<Text>>)
    ensures r == if AllAddrs(state.p, state.members, Others(state.members, self))
                 then Some(HostsOf(state.p, state.members, Others(state.members, self))) else None
  {
    hide StrictlySorted, Ascending, Others;
    var p, m := state.p, state.members;
    var ids := state.MemberIDs();
    var peers: seq<Text> := [];
    ghost var kept: seq<Text> := [];
    assert StrictlySorted(Self, kept) by { NothingSorted(); }
    for i := 0 to |ids|
      invariant StrictlySorted(Self, kept)
      invariant forall x :: x in kept <==> x in ids[..i] && x != self
      invariant AllAddrs(p, m, kept)
      invariant |peers| == |kept| && forall j :: 0 <= j < |kept| ==> Host(p, m[kept[j]]) == Some(peers[j])
    {
      var id := ids[i];
      KeptOthers(m, self, ids, i, kept);
      if id == self { continue; }
      var host := p.prefixHost(m[id].overlayIp);
      if host.None? || !p.isAddr(host.value) {
        assert id in Others(m, self);
        return None;
      }
      peers := peers + [host.value];
      kept := kept + [id];
    }
    KeptOthers(m, self, ids, |ids|, kept);
    assert peers == HostsOf(p, m, kept);
    return Some(peers);
  }

  method FRRConf(state: State, self: Text, asn: nat) returns (r: Option<Frr>)
    ensures var p, m := state.p, state.members;
            r == if self in m && asn != 0 && Host(p, m[self]).Some? && AllAddrs(p, m, Others(m, self))
                 then var hosts := HostsOf(p, m, Others(m, self));
                      Some(Frr(Host(p, m[self]).value, hosts, hosts, hosts))
                 else None
  {
    hide AllAddrs, HostsOf, Others;
    if self !in state.members { return None; }
    if asn == 0 { return None; }
    var selfIp := state.p.prefixHost(state.members[self].overlayIp);
    if selfIp.None? { return None; }
    var found := FrrPeers(state, self);
    if found.None? { return None; }
    var peers := found.value;
    var bfd, neighbors, activated: seq<Text> := [], [], [];
    for i := 0 to |peers|
      invariant bfd == peers[..i]
    {
      bfd := bfd + [peers[i]];
    }
    for i := 0 to |peers|
      invariant neighbors == peers[..i]
    {
      neighbors := neighbors + [peers[i]];
    }
    for i := 0 to |peers|
      invariant activated == peers[..i]
    {
      activated := activated + [peers[i]];
    }
    assert peers[..|peers|] == peers;
    return Some(Frr(selfIp.value, bfd, neighbors, activated));
  }

  /** The conditions of both renderers in plain fields. */
  lemma RenderConditions(p: Primitives, m: map<Text, Subject>, self: Text)
    ensures AllHosts(p, m, Others(m, self)) <==>
            forall id :: id in m && id != self ==> p.prefixHost(m[id].overlayIp).Some?
    ensures AllAddrs(p, m, Others(m, self)) <==>
            forall id :: id in m && id != self ==>
              p.prefixHost(m[id].overlayIp).Some? && p.isAddr(p.prefixHost(m[id].overlayIp).value)
  {
    hide Ascending;
    var ids := Others(m, self);
    assert AllHosts(p, m, ids) <==> forall id :: id in m && id != self ==> Host(p, m[id]).Some?;
  }

  /** Hosts are unique when every overlay parses and no two members' overlays have one host. */
  lemma UniqueOverlayMeans(p: Primitives, m: map<Text, Subject>)
    ensures UniqueOverlay(p, m) <==>
            && (forall id :: id in m ==> p.prefixHost(m[id].overlayIp).Some?)
            && forall a, b :: a in m && b in m && a != b ==>
                 p.prefixHost(m[a].overlayIp) != p.prefixHost(m[b].overlayIp)
  {
    if UniqueOverlay(p, m) {
      forall id | id in m ensures p.prefixHost(m[id].overlayIp).Some? {
        assert Host(p, m[id]).Some?;
      }
      forall a, b | a in m && b in m && a != b
        ensures p.prefixHost(m[a].overlayIp) != p.prefixHost(m[b].overlayIp)
      {
        assert Host(p, m[a]) != Host(p, m[b]);
      }
    }
  }

  /** The i-th record of both peer lists: node id, WireGuard key and endpoint as in the ledger, the
      overlay host with "/32", and the host. */
  lemma PeerFields(p: Primitives, m: map<Text, Subject>, self: Text, i: nat)
    requires i < |Others(m, self)| && AllHosts(p, m, Others(m, self))
    ensures var s := m[Others(m, self)[i]];
            && p.prefixHost(s.overlayIp).Some?
            && PeersOf(p, m, Others(m, self))[i] ==
               Peer(s.nodeId, s.wgPubkey, p.prefixHost(s.overlayIp).value + Ascii("/32"), s.endpoint)
            && HostsOf(p, m, Others(m, self))[i] == p.prefixHost(s.overlayIp).value
  {
    hide Ascending;
    assert Others(m, self)[i] in Others(m, self);
    PeerRecord(p, m[Others(m, self)[i]], p.prefixHost(m[Others(m, self)[i]].overlayIp).value);
  }

  // ---- which ledgers have unique overlay hosts ----

  /** The subjects an entry brings in have hosts unlike one another's and unlike any member's. */
  ghost predicate FreshHosts(p: Primitives, m: map<Text, Subject>, e: Entry) {
    e.op.Remove? ||
    (&& (forall i, j :: 0 <= i < j < |Listed(e)| ==> Host(p, Listed(e)[i]) != Host(p, Listed(e)[j]))
     && (forall id, s :: id in m && s in Listed(e) ==> Host(p, m[id]) != Host(p, s)))
  }

  /** Apply does not look at hosts: an accepted entry keeps them unique exactly when the hosts it
      brings are fresh. */
  lemma OverlayKept(p: Primitives, st: St, e: Entry)
    requires Accepts(p, st, e) && UniqueOverlay(p, st.members)
    ensures UniqueOverlay(p, NextMembers(st, e)) <==> FreshHosts(p, st.members, e)
    ensures e.op.Add? ==>
              (UniqueOverlay(p, NextMembers(st, e)) <==>
               forall id :: id in st.members ==> Host(p, st.members[id]) != Host(p, e.subject.value))
  {
    hide *;
    AcceptedFacts(p, st, e);
    Membership.ListedDistinct(e);
    ListedHosts(p, e);
    if e.op.Remove? {
      RemoveKeepsHosts(p, st, e);
    } else {
      JoinedHosts(p, st, e);
      OneFreshHost(p, st.members, e);
    }
  }

  lemma ListedHosts(p: Primitives, e: Entry)
    requires HasPayload(p, e)
    ensures forall s :: s in Listed(e) ==> Host(p, s).Some?
  {
  }

  lemma RemoveKeepsHosts(p: Primitives, st: St, e: Entry)
    requires e.op.Remove? && UniqueOverlay(p, st.members)
    ensures UniqueOverlay(p, NextMembers(st, e)) && FreshHosts(p, st.members, e)
  {
    hide Host, Ids, Listed;
  }

  lemma OneFreshHost(p: Primitives, m: map<Text, Subject>, e: Entry)
    requires e.op.Add? ==> e.subject.Some?
    ensures e.op.Add? ==>
              (FreshHosts(p, m, e) <==> forall id :: id in m ==> Host(p, m[id]) != Host(p, e.subject.value))
  {
    hide Host;
  }

  lemma JoinedHosts(p: Primitives, st: St, e: Entry)
    requires !e.op.Remove? && UniqueOverlay(p, st.members)
    requires DistinctKeys(NodeIdOf, Listed(e)) && Ids(Listed(e)) !! st.members.Keys
    requires forall s :: s in Listed(e) ==> Host(p, s).Some?
    ensures UniqueOverlay(p, NextMembers(st, e)) <==> FreshHosts(p, st.members, e)
  {
    hide Host, Named, Listed;
    var m, subs, next := st.members, Listed(e), NextMembers(st, e);
    forall s | s in subs ensures s.nodeId in next && next[s.nodeId] == s && s.nodeId !in m {
      NamedAt(subs, s);
    }
    forall id | id in m ensures id in next && next[id] == m[id] {
    }
    if UniqueOverlay(p, next) {
      forall i, j | 0 <= i < j < |subs| ensures Host(p, subs[i]) != Host(p, subs[j]) {
        assert NodeIdOf(subs[i]) != NodeIdOf(subs[j]);
        assert subs[i] in subs && subs[j] in subs;
      }
    }
    if FreshHosts(p, m, e) {
      forall a, b | a in next && b in next && Host(p, next[a]) == Host(p, next[b]) ensures a == b {
        if a !in m && b !in m {
          SubjectsShareNoHost(p, m, e, Named(subs)[a], Named(subs)[b]);
        }
      }
    }
  }

  lemma SubjectsShareNoHost(p: Primitives, m: map<Text, Subject>, e: Entry, s: Subject, t: Subject)
    requires FreshHosts(p, m, e) && !e.op.Remove? && s in Listed(e) && t in Listed(e)
    requires Host(p, s) == Host(p, t)
    ensures s == t
  {
    hide Host, Listed;
    var i :| 0 <= i < |Listed(e)| && Listed(e)[i] == s;
    var j :| 0 <= j < |Listed(e)| && Listed(e)[j] == t;
  }

  lemma {:induction false} UniqueUpTo(p: Primitives, log: seq<Entry>, n: nat)
    requires Accepted(p, log) && n <= |log|
    requires forall i :: 0 <= i < n ==> FreshHosts(p, StateAt(p, log, i).members, log[i])
    ensures UniqueOverlay(p, StateAt(p, log, n).members)
  {
    hide Accepts, NextMembers, FreshHosts, StateAt, Accepted, Host;
    if n == 0 {
      EmptyStateAt(p, log);
    } else {
      UniqueUpTo(p, log, n - 1);
      EntryAt(p, log, n - 1);
      OverlayKept(p, StateAt(p, log, n - 1), log[n - 1]);
    }
  }

  /** Over a whole run: hosts are unique at every point exactly when every entry brings only fresh
      ones. */
  lemma UniqueThroughout(p: Primitives, log: seq<Entry>)
    requires Accepted(p, log)
    ensures (forall i :: 0 <= i <= |log| ==> UniqueOverlay(p, StateAt(p, log, i).members)) <==>
            (forall i :: 0 <= i < |log| ==> FreshHosts(p, StateAt(p, log, i).members, log[i]))
  {
    hide Accepts, NextMembers, UniqueOverlay, FreshHosts, StateAt, Accepted;
    if forall i :: 0 <= i <= |log| ==> UniqueOverlay(p, StateAt(p, log, i).members) {
      forall i | 0 <= i < |log| ensures FreshHosts(p, StateAt(p, log, i).members, log[i]) {
        EntryAt(p, log, i);
        OverlayKept(p, StateAt(p, log, i), log[i]);
        assert UniqueOverlay(p, StateAt(p, log, i + 1).members);
      }
    }
    if forall i :: 0 <= i < |log| ==> FreshHosts(p, StateAt(p, log, i).members, log[i]) {
      forall i | 0 <= i <= |log| ensures UniqueOverlay(p, StateAt(p, log, i).members) {
        UniqueUpTo(p, log, i);
      }
    }
  }

  // ---- what every reachable state renders to ----

  /** An address printed by netip parses again. */
  ghost predicate PrintedAddressesParse(p: Primitives) {
    forall cidr: Text :: p.prefixHost(cidr).Some? ==> p.isAddr(p.prefixHost(cidr).value)
  }

  /** WireGuardConf never fails for a member of a reachable state. */
  lemma WireGuardNeverFails(p: Primitives, log: seq<Entry>, self: Text)
    requires Accepted(p, log) && self in Final(p, log).members
    ensures AllHosts(p, Final(p, log).members, Others(Final(p, log).members, self))
  {
    hide Accepted, Final, Ascending;
    WellFormedMembers(p, log);
  }

  /** FRRConf, which parses the printed addresses again, never fails for a member of a reachable
      state and a nonzero ASN. */
  lemma FrrNeverFails(p: Primitives, log: seq<Entry>, self: Text)
    requires Accepted(p, log) && self in Final(p, log).members
    requires PrintedAddressesParse(p)
    ensures var m := Final(p, log).members;
            Host(p, m[self]).Some? && AllAddrs(p, m, Others(m, self))
  {
    hide Accepted, Final, Ascending;
    WellFormedMembers(p, log);
  }

  /** The lists before rendering: each other member once, with its host. */
  lemma OtherHosts(p: Primitives, m: map<Text, Subject>, a: Text)
    requires UniqueOverlay(p, m) && a in m
    ensures var ids := Others(m, a);
            && |ids| == |m| - 1
            && (forall i :: 0 <= i < |ids| ==> ids[i] in m && ids[i] != a && Host(p, m[ids[i]]).Some?)
            && (forall i, j :: 0 <= i < j < |ids| ==>
                  ids[i] != ids[j] && Host(p, m[ids[i]]) != Host(p, m[ids[j]]))
  {
    hide Ascending, Host;
    var ids := Others(m, a);
    Cardinality(m.Keys - {a}, {a});
    assert m.Keys - {a} + {a} == m.Keys;
    AscendingDistinct(m.Keys - {a});
    forall i | 0 <= i < |ids| ensures ids[i] in m && ids[i] != a {
      assert ids[i] in ids;
    }
  }

  /** Both peer lists denote the nodes `ids`, each once: record by record the same host, all
      AllowedIPs distinct. */
  ghost predicate SamePeers(ids: seq<Text>, wg: seq<Peer>, frr: seq<Text>) {
    && |wg| == |frr| == |ids|
    && (forall i :: 0 <= i < |ids| ==> wg[i].nodeId == ids[i] && wg[i].allowedIps == frr[i] + Ascii("/32"))
    && (forall i, j :: 0 <= i < j < |ids| ==>
          ids[i] != ids[j] && frr[i] != frr[j] && wg[i].allowedIps != wg[j].allowedIps)
  }

  lemma MeshOf(p: Primitives, m: map<Text, Subject>, a: Text)
    requires GoodMembers(p, m) && UniqueOverlay(p, m) && a in m
    ensures |Others(m, a)| == |m| - 1
    ensures SamePeers(Others(m, a), PeersOf(p, m, Others(m, a)), HostsOf(p, m, Others(m, a)))
  {
    hide Others, WellFormed, UniqueOverlay, Host, PeersOf, HostsOf, PeerOf, SamePeers;
    OtherHosts(p, m, a);
    var ids := Others(m, a);
    var wg, frr := PeersOf(p, m, ids), HostsOf(p, m, ids);
    forall i | 0 <= i < |ids|
      ensures wg[i].nodeId == ids[i] && wg[i].allowedIps == frr[i] + Ascii("/32")
      ensures Host(p, m[ids[i]]) == Some(frr[i])
    {
      PeerRecord(p, m[ids[i]], frr[i]);
    }
    DistinctAllowed(ids, wg, frr);
  }

  lemma DistinctAllowed(ids: seq<Text>, wg: seq<Peer>, frr: seq<Text>)
    requires |wg| == |frr| == |ids|
    requires forall i :: 0 <= i < |ids| ==> wg[i].nodeId == ids[i] && wg[i].allowedIps == frr[i] + Ascii("/32")
    requires forall i, j :: 0 <= i < j < |ids| ==> ids[i] != ids[j] && frr[i] != frr[j]
    ensures SamePeers(ids, wg, frr)
  {
    forall i, j | 0 <= i < j < |ids| ensures wg[i].allowedIps != wg[j].allowedIps {
      SameSuffix(frr[i], frr[j], Ascii("/32"));
    }
  }

  /** On a reachable state with unique overlay hosts, node a's WireGuard peers and the FRR peer list
      (which FRRConf repeats for bfd, neighbor and activate) list exactly the members other than a,
      each once and in the same order; AllowedIPs are pairwise distinct and are the FRR addresses
      with "/32". */
  lemma Mesh(p: Primitives, log: seq<Entry>, a: Text)
    requires Accepted(p, log) && UniqueOverlay(p, Final(p, log).members)
    requires a in Final(p, log).members
    ensures var m := Final(p, log).members;
            && |Others(m, a)| == |m| - 1
            && (forall b :: b in Others(m, a) <==> b in m && b != a)
            && SamePeers(Others(m, a), PeersOf(p, m, Others(m, a)), HostsOf(p, m, Others(m, a)))
  {
    hide *;
    WellFormedMembers(p, log);
    MeshOf(p, Final(p, log).members, a);
  }

  lemma SameSuffix(x: Text, y: Text, suffix: Text)
    ensures x + suffix == y + suffix <==> x == y
  {
    assert (x + suffix)[..|x|] == x;
    assert (y + suffix)[..|y|] == y;
  }

  /** What a WireGuard peer record means: endpoints roam, and keys count as bytes. */
  ghost predicate SameRecord(p: Primitives, x: Peer, y: Peer) {
    && x.nodeId == y.nodeId && x.allowedIps == y.allowedIps
    && KeyBytes(p, x.publicKey) == KeyBytes(p, y.publicKey)
  }

  lemma SameViewSamePeers(p: Primitives, m: map<Text, Subject>, m': map<Text, Subject>, self: Text)
    requires Forks.View(p, m) == Forks.View(p, m')
    ensures Others(m, self) == Others(m', self)
    ensures HostsOf(p, m, Others(m, self)) == HostsOf(p, m', Others(m', self))
    ensures var wg, wg' := PeersOf(p, m, Others(m, self)), PeersOf(p, m', Others(m', self));
            |wg| == |wg'| && forall i :: 0 <= i < |wg| ==> SameRecord(p, wg[i], wg'[i])
  {
    hide Ascending;
    Forks.SameViewSameKeys(p, m, m');
    var ids := Others(m, self);
    assert ids == Others(m', self);
    forall id | id in ids
      ensures Host(p, m[id]) == Host(p, m'[id]) && SameRecord(p, PeerOf(p, m[id]), PeerOf(p, m'[id]))
    {
      assert Forks.View(p, m)[id] == Forks.View(p, m')[id];
    }
    SameHosts(p, m, m', ids);
  }

  lemma {:induction false} SameHosts(p: Primitives, m: map<Text, Subject>, m': map<Text, Subject>, ids: seq<Text>)
    requires forall id :: id in ids ==> id in m && id in m' && Host(p, m[id]) == Host(p, m'[id])
    ensures HostsOf(p, m, ids) == HostsOf(p, m', ids)
  {
    if ids != [] {
      SameHosts(p, m, m', ids[1..]);
    }
  }

  /** Two hosts whose non-empty ledgers have the same tip render the same mesh for every node,
      unless two of their entries collide. */
  lemma SameTipSameMesh(p: Primitives, a: seq<Entry>, b: seq<Entry>, self: Text)
    requires Accepted(p, a) && Accepted(p, b)
    requires 0 < |a| < TWO64 && 0 < |b| < TWO64
    requires Forks.AllSized(p, a) && Forks.AllSized(p, b)
    requires Final(p, a).prevHash == Final(p, b).prevHash
    ensures Forks.CollisionIn(p, a, b) ||
            var m, m' := Final(p, a).members, Final(p, b).members;
            && HostsOf(p, m, Others(m, self)) == HostsOf(p, m', Others(m', self))
            && var wg, wg' := PeersOf(p, m, Others(m, self)), PeersOf(p, m', Others(m', self));
               |wg| == |wg'| && forall i :: 0 <= i < |wg| ==> SameRecord(p, wg[i], wg'[i])
  {
    hide *;
    Forks.TipDeterminesMembers(p, a, b);
    if !Forks.CollisionIn(p, a, b) {
      SameViewSamePeers(p, Final(p, a).members, Final(p, b).members, self);
    }
  }

  ghost predicate WgLists(p: Primitives, m: map<Text, Subject>, a: Text, b: Text) {
    exists i :: 0 <= i < |PeersOf(p, m, Others(m, a))| && PeersOf(p, m, Others(m, a))[i].nodeId == b
  }

  ghost predicate FrrLists(p: Primitives, m: map<Text, Subject>, a: Text, b: Text)
    requires b in m && Host(p, m[b]).Some?
  {
    Host(p, m[b]).value in HostsOf(p, m, Others(m, a))
  }

  /** The mesh is complete and symmetric: each member lists each other member, in WireGuard and in
      FRR, and nobody lists itself. */
  lemma MeshSymmetric(p: Primitives, log: seq<Entry>, a: Text, b: Text)
    requires Accepted(p, log) && UniqueOverlay(p, Final(p, log).members)
    requires a in Final(p, log).members && b in Final(p, log).members
    ensures var m := Final(p, log).members;
            && (WgLists(p, m, a, b) <==> a != b)
            && (WgLists(p, m, a, b) <==> WgLists(p, m, b, a))
            && (FrrLists(p, m, a, b) <==> a != b)
            && (FrrLists(p, m, a, b) <==> FrrLists(p, m, b, a))
  {
    hide Accepted, Final, WgLists, FrrLists, UniqueOverlay;
    WellFormedMembers(p, log);
    var m := Final(p, log).members;
    ListsExactly(p, m, a, b);
    ListsExactly(p, m, b, a);
  }

  lemma ListsExactly(p: Primitives, m: map<Text, Subject>, a: Text, b: Text)
    requires GoodMembers(p, m) && UniqueOverlay(p, m)
    requires a in m && b in m
    ensures WgLists(p, m, a, b) <==> a != b
    ensures FrrLists(p, m, a, b) <==> a != b
  {
    hide Ascending, WellFormed;
    var ids := Others(m, a);
    var wg, frr := PeersOf(p, m, ids), HostsOf(p, m, ids);
    forall i | 0 <= i < |ids|
      ensures ids[i] in m && ids[i] != a && wg[i].nodeId == ids[i] && Host(p, m[ids[i]]) == Some(frr[i])
    {
      assert ids[i] in ids;
    }
    if a != b {
      assert b in ids;
      var i :| 0 <= i < |ids| && ids[i] == b;
      assert wg[i].nodeId == b && frr[i] == Host(p, m[b]).value;
    }
    forall i | 0 <= i < |frr| && frr[i] == Host(p, m[b]).value ensures ids[i] == b {
      assert Host(p, m[ids[i]]) == Host(p, m[b]);
    }
  }
}
