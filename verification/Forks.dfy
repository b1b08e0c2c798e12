/** What the tip hash determines, and who is accountable for two diverging logs. SHA-256 is any
    function here, so each theorem offers the alternative of an explicit collision: two different
    payloads of the given logs with equal digests. */
module Forks {
  import opened Bytes
  import opened Sorting
  import opened Codec
  import opened Entries
  import opened States
  import opened Runs
  import Membership

  /** Two entries with different payloads and the same SHA-256 digest. */
  ghost predicate Collide(p: Primitives, e: Entry, f: Entry) {
    && Payload(p, e).Some? && Payload(p, f).Some? && Payload(p, e) != Payload(p, f)
    && p.sha256(Payload(p, e).value) == p.sha256(Payload(p, f).value)
  }

  ghost predicate CollisionIn(p: Primitives, a: seq<Entry>, b: seq<Entry>) {
    exists i, j :: 0 <= i < |a| && 0 <= j < |b| && Collide(p, a[i], b[j])
  }

  /** A collision in two logs is a collision of SHA-256. */
  lemma CollisionOfDigest(p: Primitives, a: seq<Entry>, b: seq<Entry>) returns (x: Bytes, y: Bytes)
    requires CollisionIn(p, a, b)
    ensures x != y && p.sha256(x) == p.sha256(y)
    ensures exists i, j :: 0 <= i < |a| && 0 <= j < |b| && Payload(p, a[i]) == Some(x) && Payload(p, b[j]) == Some(y)
  {
    hide Payload;
    var i, j :| 0 <= i < |a| && 0 <= j < |b| && Collide(p, a[i], b[j]);
    x, y := Payload(p, a[i]).value, Payload(p, b[j]).value;
  }

  /** Same length and the same signed bytes at every index. */
  ghost predicate SameHistory(p: Primitives, a: seq<Entry>, b: seq<Entry>) {
    && |a| == |b|
    && forall i :: 0 <= i < |a| ==> Payload(p, a[i]) == Payload(p, b[i])
  }

  ghost predicate AllSized(p: Primitives, log: seq<Entry>) {
    forall i :: 0 <= i < |log| ==> EntrySized(p, log[i])
  }

  /** Members as every host sees them: decoded keys, no endpoint. */
  ghost function View(p: Primitives, m: map<Text, Subject>): map<Text, Core> {
    map id | id in m :: CoreOf(p, m[id])
  }

  // ---- the tip determines the history ----

  /** Two non-empty accepted logs with the same tip hash have the same history, or two of their
      entries collide. */
  lemma {:induction false} TipDeterminesHistory(p: Primitives, a: seq<Entry>, b: seq<Entry>)
    requires Accepted(p, a) && Accepted(p, b)
    requires 0 < |a| < TWO64 && 0 < |b| < TWO64
    requires Final(p, a).prevHash == Final(p, b).prevHash
    ensures SameHistory(p, a, b) || CollisionIn(p, a, b)
  {
    hide Accepts, NextMembers, Payload, Final;
    var a', b' := a[..|a| - 1], b[..|b| - 1];
    var e, f := a[|a| - 1], b[|b| - 1];
    LastEntry(p, a);
    LastEntry(p, b);
    AcceptedFacts(p, Final(p, a'), e);
    AcceptedFacts(p, Final(p, b'), f);
    if Payload(p, e) != Payload(p, f) {
      assert Collide(p, a[|a| - 1], b[|b| - 1]);
    } else {
      SamePayloadSameHeader(p, e, f);
      SeqIsIndex(p, a, |a| - 1);
      SeqIsIndex(p, b, |b| - 1);
      if |a| > 1 {
        TipDeterminesHistory(p, a', b');
        ExtendHistory(p, a, b);
      }
    }
  }

  lemma ExtendHistory(p: Primitives, a: seq<Entry>, b: seq<Entry>)
    requires |a| == |b| > 0 && Payload(p, a[|a| - 1]) == Payload(p, b[|b| - 1])
    requires var a', b' := a[..|a| - 1], b[..|b| - 1]; SameHistory(p, a', b') || CollisionIn(p, a', b')
    ensures SameHistory(p, a, b) || CollisionIn(p, a, b)
  {
    hide Payload, Collide;
    var a', b' := a[..|a| - 1], b[..|b| - 1];
    if SameHistory(p, a', b') {
      forall i | 0 <= i < |a| ensures Payload(p, a[i]) == Payload(p, b[i]) {
        if i < |a'| { assert a'[i] == a[i] && b'[i] == b[i]; }
      }
    } else {
      var i, j :| 0 <= i < |a'| && 0 <= j < |b'| && Collide(p, a'[i], b'[j]);
      assert Collide(p, a[i], b[j]);
    }
  }

  // ---- the history determines the members ----

  /** The sorted cores of a list with distinct ids are exactly its entries in the name map. */
  lemma CoresAreNamed(p: Primitives, subs: seq<Subject>, c: Core)
    requires DistinctKeys(NodeIdOf, subs)
    ensures c in CoresOf(p, SortBy(NodeIdOf, subs)) <==>
            c.nodeId in Named(subs) && CoreOf(p, Named(subs)[c.nodeId]) == c
  {
    hide Named;
    var sorted := SortBy(NodeIdOf, subs);
    var cores := CoresOf(p, sorted);
    if c in cores {
      var i :| 0 <= i < |cores| && cores[i] == c;
      assert sorted[i] in subs;
      NamedAt(subs, sorted[i]);
    }
    if c.nodeId in Named(subs) && CoreOf(p, Named(subs)[c.nodeId]) == c {
      var s := Named(subs)[c.nodeId];
      assert s in sorted;
      var i :| 0 <= i < |sorted| && sorted[i] == s;
      assert cores[i] == c;
    }
  }

  lemma SameCoresSameView(p: Primitives, a: seq<Subject>, b: seq<Subject>)
    requires DistinctKeys(NodeIdOf, a) && DistinctKeys(NodeIdOf, b)
    requires CoresOf(p, SortBy(NodeIdOf, a)) == CoresOf(p, SortBy(NodeIdOf, b))
    ensures View(p, Named(a)) == View(p, Named(b))
  {
    hide Named, DistinctKeys;
    forall id
      ensures id in Named(a) <==> id in Named(b)
      ensures id in Named(a) ==> CoreOf(p, Named(a)[id]) == CoreOf(p, Named(b)[id])
    {
      if id in Named(a) {
        CoresAreNamed(p, a, CoreOf(p, Named(a)[id]));
        CoresAreNamed(p, b, CoreOf(p, Named(a)[id]));
      }
      if id in Named(b) {
        CoresAreNamed(p, a, CoreOf(p, Named(b)[id]));
        CoresAreNamed(p, b, CoreOf(p, Named(b)[id]));
      }
    }
  }

  /** Entries that sign the same content change equal views equally. */
  lemma SamePayloadSameEffect(p: Primitives, st: St, st': St, e: Entry, f: Entry)
    requires Accepts(p, st, e) && Accepts(p, st', f)
    requires EntrySized(p, e) && EntrySized(p, f)
    requires Payload(p, e) == Payload(p, f)
    requires View(p, st.members) == View(p, st'.members)
    ensures View(p, NextMembers(st, e)) == View(p, NextMembers(st', f))
  {
    hide *;
    AcceptedFacts(p, st, e);
    AcceptedFacts(p, st', f);
    SamePayloadSameContent(p, e, f);
    SameContentFields(p, e, f);
    Membership.ListedDistinct(e);
    Membership.ListedDistinct(f);
    SameCoresSameView(p, Listed(e), Listed(f));
    SameViewSameEffect(p, st, st', e, f);
  }

  lemma SameContentFields(p: Primitives, e: Entry, f: Entry)
    requires HasPayload(p, e) && HasPayload(p, f) && ContentOf(p, e) == ContentOf(p, f)
    ensures e.op == f.op
    ensures CoresOf(p, SortBy(NodeIdOf, Listed(e))) == CoresOf(p, SortBy(NodeIdOf, Listed(f)))
  {
    hide HasPayload;
  }

  lemma SameViewSameEffect(p: Primitives, st: St, st': St, e: Entry, f: Entry)
    requires e.op == f.op
    requires View(p, st.members) == View(p, st'.members)
    requires View(p, Named(Listed(e))) == View(p, Named(Listed(f)))
    ensures View(p, NextMembers(st, e)) == View(p, NextMembers(st', f))
  {
    hide Named, Listed, View, Ids;
    if e.op.Remove? {
      SameViewSameKeys(p, Named(Listed(e)), Named(Listed(f)));
      ViewMinus(p, st.members, Ids(Listed(e)));
      ViewMinus(p, st'.members, Ids(Listed(e)));
    } else {
      ViewPlus(p, st.members, Named(Listed(e)));
      ViewPlus(p, st'.members, Named(Listed(f)));
    }
  }

  lemma SameViewSameKeys(p: Primitives, a: map<Text, Subject>, b: map<Text, Subject>)
    requires View(p, a) == View(p, b)
    ensures a.Keys == b.Keys
  {
    assert a.Keys == View(p, a).Keys && b.Keys == View(p, b).Keys;
  }

  lemma ViewMinus(p: Primitives, m: map<Text, Subject>, ids: set<Text>)
    ensures View(p, m - ids) == View(p, m) - ids
  {
    hide CoreOf;
  }

  lemma ViewPlus(p: Primitives, m: map<Text, Subject>, n: map<Text, Subject>)
    ensures View(p, m + n) == View(p, m) + View(p, n)
  {
    hide CoreOf;
  }

  /** Logs with the same history (lengths below 2^32, so no length prefix is cut) replay to the
      same tip, sequence number and members. */
  lemma {:induction false} HistoryDeterminesState(p: Primitives, a: seq<Entry>, b: seq<Entry>)
    requires Accepted(p, a) && Accepted(p, b) && SameHistory(p, a, b)
    requires AllSized(p, a) && AllSized(p, b)
    ensures View(p, Final(p, a).members) == View(p, Final(p, b).members)
    ensures Final(p, a).prevHash == Final(p, b).prevHash && Final(p, a).nextSeq == Final(p, b).nextSeq
  {
    hide Accepts, NextMembers, Payload, Final, View, EntrySized;
    if a == [] {
      assert b == [];
    } else {
      var a', b' := a[..|a| - 1], b[..|b| - 1];
      var e, f := a[|a| - 1], b[|b| - 1];
      LastEntry(p, a);
      LastEntry(p, b);
      HistoryDeterminesState(p, a', b');
      SamePayloadSameEffect(p, Final(p, a'), Final(p, b'), e, f);
    }
  }

  /** Two non-empty accepted logs with the same tip hash have the same length, the same payloads
      and the same members, or two of their entries collide. */
  lemma TipDeterminesMembers(p: Primitives, a: seq<Entry>, b: seq<Entry>)
    requires Accepted(p, a) && Accepted(p, b)
    requires 0 < |a| < TWO64 && 0 < |b| < TWO64
    requires AllSized(p, a) && AllSized(p, b)
    requires Final(p, a).prevHash == Final(p, b).prevHash
    ensures (SameHistory(p, a, b) && View(p, Final(p, a).members) == View(p, Final(p, b).members))
            || CollisionIn(p, a, b)
  {
    hide *;
    TipDeterminesHistory(p, a, b);
    if SameHistory(p, a, b) {
      HistoryDeterminesState(p, a, b);
    }
  }

  // ---- fork accountability ----

  /** The members in m whose approvals on both entries verify under their key in m. */
  ghost function SignedBoth(p: Primitives, m: map<Text, Subject>, e: Entry, f: Entry): set<Text> {
    set id | id in m && Verified(p, m[id].identityPubkey, e, id) && Verified(p, m[id].identityPubkey, f, id)
  }

  ghost function Removals(e: Entry): nat {
    if e.op.Remove? then 1 else 0
  }

  /** The node a REMOVE takes out, which need not sign it. */
  ghost function Targets(e: Entry): set<Text> {
    if e.op.Remove? then Ids(Listed(e)) else {}
  }

  /** The members of st whose signatures both entries need. */
  ghost function Liable(st: St, e: Entry, f: Entry): set<Text> {
    st.members.Keys - Targets(e) - Targets(f)
  }

  /** Two accepted logs that agree before index k and fork there: both entries extend the same
      predecessor, and everyone who is a member at that point and not the target of a REMOVE among
      the two entries has signed both of them, each under one and the same key. With n members
      these are at least n minus the number of REMOVEs, and n-1 if both remove the same node. The
      entries' hashes differ, or they collide. */
  lemma ForkAccountability(p: Primitives, a: seq<Entry>, b: seq<Entry>, k: nat)
    requires Accepted(p, a) && Accepted(p, b)
    requires k < |a| < TWO64 && k < |b| < TWO64
    requires SameHistory(p, a[..k], b[..k])
    requires AllSized(p, a[..k]) && AllSized(p, b[..k])
    ensures a[k].seqNo == b[k].seqNo == k
    ensures HexDecode(a[k].prevHash) == HexDecode(b[k].prevHash)
    ensures Payload(p, a[k]).Some? && Payload(p, b[k]).Some?
    ensures Payload(p, a[k]) == Payload(p, b[k]) || Collide(p, a[k], b[k])
            || p.sha256(Payload(p, a[k]).value) != p.sha256(Payload(p, b[k]).value)
    ensures var m, m' := StateAt(p, a, k).members, StateAt(p, b, k).members;
            var both := SignedBoth(p, m, a[k], b[k]);
            && Liable(StateAt(p, a, k), a[k], b[k]) <= both
            && |both| >= |m| - |Targets(a[k]) + Targets(b[k])| >= |m| - Removals(a[k]) - Removals(b[k])
            && View(p, m) == View(p, m')
            && both == SignedBoth(p, m', a[k], b[k])
  {
    hide Accepts, NextMembers, Payload, Hash, View, EntrySized, SignedBoth, AllSized, SameHistory, Liable, Targets;
    EntryAt(p, a, k);
    EntryAt(p, b, k);
    PrefixAccepted(p, a, k);
    PrefixAccepted(p, b, k);
    StateAtPrefix(p, a, k, k);
    StateAtPrefix(p, b, k, k);
    HistoryDeterminesState(p, a[..k], b[..k]);
    EmptyAtZero(p, a[..k]);
    EmptyAtZero(p, b[..k]);
    var st, st' := StateAt(p, a, k), StateAt(p, b, k);
    AcceptedFacts(p, st, a[k]);
    AcceptedFacts(p, st', b[k]);
    assert HasKeys(p, st.members) && HasKeys(p, st'.members) by {
      WellFormedMembers(p, a[..k]);
      WellFormedMembers(p, b[..k]);
    }
    SignedBothAgree(p, st.members, st'.members, a[k], b[k]);
    ManySignBoth(p, st, st', a[k], b[k]);
  }

  /** Two accepted logs that start alike but differ somewhere in their first n entries have a first
      difference, and everyone who was a member there has signed both entries, except for the
      targets of a REMOVE. */
  lemma {:induction false} FirstFork(p: Primitives, a: seq<Entry>, b: seq<Entry>, n: nat) returns (k: nat)
    requires Accepted(p, a) && Accepted(p, b)
    requires 0 < n <= |a| < TWO64 && n <= |b| < TWO64
    requires AllSized(p, a[..n]) && AllSized(p, b[..n])
    requires Payload(p, a[0]) == Payload(p, b[0])
    requires !SameHistory(p, a[..n], b[..n])
    ensures 0 < k < n && SameHistory(p, a[..k], b[..k]) && Payload(p, a[k]) != Payload(p, b[k])
    ensures Liable(StateAt(p, a, k), a[k], b[k]) <= SignedBoth(p, StateAt(p, a, k).members, a[k], b[k])
  {
    hide *;
    k := n - 1;
    ShorterPrefix(p, a, b, k);
    if k > 0 && SameHistory(p, a[..k], b[..k]) {
      ForkAccountability(p, a, b, k);
    } else {
      k := FirstFork(p, a, b, k);
    }
  }

  lemma ShorterPrefix(p: Primitives, a: seq<Entry>, b: seq<Entry>, k: nat)
    requires k < |a| && k < |b|
    ensures AllSized(p, a[..k + 1]) ==> AllSized(p, a[..k])
    ensures AllSized(p, b[..k + 1]) ==> AllSized(p, b[..k])
    ensures SameHistory(p, a[..k + 1], b[..k + 1]) <==>
            SameHistory(p, a[..k], b[..k]) && Payload(p, a[k]) == Payload(p, b[k])
    ensures SameHistory(p, a[..0], b[..0])
  {
    hide Payload, EntrySized;
    assert forall i :: 0 <= i < k ==> a[..k][i] == a[..k + 1][i] && b[..k][i] == b[..k + 1][i];
    assert a[..k + 1][k] == a[k] && b[..k + 1][k] == b[k];
  }

  /** Safety from honesty: if two accepted logs start alike and, wherever they differ, one member
      who is not being removed there has not signed both entries, then they do not differ: one log
      is an extension of the other. */
  lemma NoDoubleSigningNoFork(p: Primitives, a: seq<Entry>, b: seq<Entry>, n: nat)
    requires Accepted(p, a) && Accepted(p, b)
    requires 0 < n <= |a| < TWO64 && n <= |b| < TWO64
    requires AllSized(p, a[..n]) && AllSized(p, b[..n])
    requires Payload(p, a[0]) == Payload(p, b[0])
    requires forall k :: 0 < k < n && Payload(p, a[k]) != Payload(p, b[k]) ==> OneHonest(p, a, b, k)
    ensures SameHistory(p, a[..n], b[..n])
  {
    hide *;
    if !SameHistory(p, a[..n], b[..n]) {
      var k := FirstFork(p, a, b, n);
      assert OneHonest(p, a, b, k);
      HonestIsLiable(p, a, b, k);
    }
  }

  /** Someone who has to sign both entries at index k has not done so. */
  ghost predicate OneHonest(p: Primitives, a: seq<Entry>, b: seq<Entry>, k: nat)
    requires k < |a| && k < |b|
  {
    exists id :: id in Liable(StateAt(p, a, k), a[k], b[k])
                 && id !in SignedBoth(p, StateAt(p, a, k).members, a[k], b[k])
  }

  lemma HonestIsLiable(p: Primitives, a: seq<Entry>, b: seq<Entry>, k: nat)
    requires k < |a| && k < |b| && OneHonest(p, a, b, k)
    ensures !(Liable(StateAt(p, a, k), a[k], b[k]) <= SignedBoth(p, StateAt(p, a, k).members, a[k], b[k]))
  {
    hide Liable, SignedBoth, StateAt;
  }

  lemma SignedBothAgree(p: Primitives, m: map<Text, Subject>, m': map<Text, Subject>, e: Entry, f: Entry)
    requires View(p, m) == View(p, m') && HasKeys(p, m) && HasKeys(p, m')
    ensures SignedBoth(p, m, e, f) == SignedBoth(p, m', e, f)
  {
    hide Verified, CoreOf, HasKeys;
    assert m.Keys == View(p, m).Keys == View(p, m').Keys == m'.Keys;
    forall id | id in m
      ensures Verified(p, m[id].identityPubkey, e, id) <==> Verified(p, m'[id].identityPubkey, e, id)
      ensures Verified(p, m[id].identityPubkey, f, id) <==> Verified(p, m'[id].identityPubkey, f, id)
    {
      assert View(p, m)[id] == View(p, m')[id];
      SameKeyVerified(p, m, m', e, id);
      SameKeyVerified(p, m, m', f, id);
    }
  }

  lemma SameKeyVerified(p: Primitives, m: map<Text, Subject>, m': map<Text, Subject>, e: Entry, id: Text)
    requires id in m && id in m' && CoreOf(p, m[id]) == CoreOf(p, m'[id])
    requires HasKeys(p, m) && HasKeys(p, m')
    ensures Verified(p, m[id].identityPubkey, e, id) <==> Verified(p, m'[id].identityPubkey, e, id)
  {
    hide Payload;
  }

  /** Every member but the target of a REMOVE has signed an accepted entry. */
  lemma NonTargetsSign(p: Primitives, st: St, e: Entry, id: Text)
    requires Accepts(p, st, e)
    requires st.nextSeq == 0 ==> st.members == map[]
    requires id in st.members && id !in Targets(e)
    ensures Verified(p, st.members[id].identityPubkey, e, id)
  {
    hide Accepts, Payload, HasPayload, Hash, Named, Signed, Verified;
    AcceptedFacts(p, st, e);
    AcceptedSignatures(p, st, e);
    assert id in e.approvals;
    NoKeyOverride(p, st, e, id);
    AcceptedKeys(p, st, e);
    SignedIsVerified(p, st.members, e, id);
  }

  lemma TargetsCount(p: Primitives, st: St, e: Entry)
    requires Accepts(p, st, e)
    ensures |Targets(e)| == Removals(e)
  {
    hide Accepts, Payload, HasPayload, Hash, Named;
    AcceptedFacts(p, st, e);
    if e.op.Remove? {
      assert Ids(Listed(e)) == {e.subject.value.nodeId};
    }
  }

  lemma ManySignBoth(p: Primitives, st: St, st': St, e: Entry, f: Entry)
    requires Accepts(p, st, e) && Accepts(p, st', f)
    requires View(p, st.members) == View(p, st'.members)
    requires st.nextSeq == 0 ==> st.members == map[]
    requires st'.nextSeq == 0 ==> st'.members == map[]
    ensures Liable(st, e, f) <= SignedBoth(p, st.members, e, f)
    ensures |SignedBoth(p, st.members, e, f)| >= |st.members| - |Targets(e) + Targets(f)|
    ensures |Targets(e) + Targets(f)| <= Removals(e) + Removals(f)
  {
    hide Accepts, Targets, Signed, CoreOf, Verified, HasKeys;
    var m := st.members;
    assert m.Keys == View(p, m).Keys == View(p, st'.members).Keys == st'.members.Keys;
    AcceptedKeys(p, st, e);
    AcceptedKeys(p, st', f);
    forall id | id in Liable(st, e, f)
      ensures Verified(p, m[id].identityPubkey, e, id) && Verified(p, m[id].identityPubkey, f, id)
    {
      NonTargetsSign(p, st, e, id);
      NonTargetsSign(p, st', f, id);
      assert View(p, m)[id] == View(p, st'.members)[id];
      SameKeyVerified(p, m, st'.members, f, id);
    }
    TargetsCount(p, st, e);
    TargetsCount(p, st', f);
    Shrink(m.Keys, Targets(e) + Targets(f), SignedBoth(p, m, e, f));
    Union(Targets(e), Targets(f));
  }

  lemma Shrink(all: set<Text>, x: set<Text>, rest: set<Text>)
    requires all - x <= rest
    ensures |rest| >= |all| - |x|
  {
    Subset(all, rest + x);
    Union(rest, x);
  }
}
