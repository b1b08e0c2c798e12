/** The on-disk home of a ledger: the log and the pending directories (internal/ledger/store.go). */
module Stores {
  import opened Bytes
  import opened Entries
  import opened States
  import opened Runs
  import opened Pendings

  /** log.jsonl and pending/. */
  datatype Disk = Disk(log: seq<Entry>, pending: map<Text, PendingDir>)

  // ---- directory names ----

  function Decimal(n: nat): Text {
    if n < 10 then [(48 + n) as uint8] else Decimal(n / 10) + [(48 + n % 10) as uint8]
  }

  function Zeros(k: nat): (t: Text)
    ensures |t| == k
  {
    if k == 0 then [] else [48] + Zeros(k - 1)
  }

  /** "%06d" */
  function Padded(n: nat): Text {
    var t := Decimal(n);
    if |t| < 6 then Zeros(6 - |t|) + t else t
  }

  /** "<seq:06d>-<hash:12hex>" */
  function NameOf(seqNo: nat, h: Bytes32): Text {
    Padded(seqNo) + Ascii("-") + HexEncode(h[..6])
  }

  ghost function PendingName(p: Primitives, e: Entry): Option<Text> {
    match Hash(p, e)
    case Some(h) => Some(NameOf(e.seqNo, h))
    case None => None
  }

  function FromDecimal(t: Text): int {
    if t == [] then 0 else 10 * FromDecimal(t[..|t| - 1]) + (t[|t| - 1] as int - 48)
  }

  lemma {:induction false} DecimalRoundTrip(n: nat)
    ensures FromDecimal(Decimal(n)) == n
  {
    if n < 10 {
      assert Decimal(n)[..0] == [];
    } else {
      DecimalRoundTrip(n / 10);
      assert Decimal(n)[..|Decimal(n)| - 1] == Decimal(n / 10);
    }
  }

  lemma {:induction false} LeadingZero(t: Text)
    ensures FromDecimal([48] + t) == FromDecimal(t)
  {
    var s := [48] + t;
    if t == [] {
      assert s[..0] == [];
    } else {
      LeadingZero(t[..|t| - 1]);
      assert s[..|s| - 1] == [48] + t[..|t| - 1];
    }
  }

  lemma {:induction false} LeadingZeros(k: nat, t: Text)
    ensures FromDecimal(Zeros(k) + t) == FromDecimal(t)
  {
    if k == 0 {
      assert Zeros(0) + t == t;
    } else {
      LeadingZeros(k - 1, t);
      assert Zeros(k) + t == [48] + (Zeros(k - 1) + t);
      LeadingZero(Zeros(k - 1) + t);
    }
  }

  lemma PaddedRoundTrip(n: nat)
    ensures FromDecimal(Padded(n)) == n
  {
    DecimalRoundTrip(n);
    LeadingZeros(if |Decimal(n)| < 6 then 6 - |Decimal(n)| else 0, Decimal(n));
  }

  lemma SameName(m: nat, g: Bytes32, n: nat, h: Bytes32)
    ensures NameOf(m, g) == NameOf(n, h) <==> m == n && g[..6] == h[..6]
  {
    var a, b := NameOf(m, g), NameOf(n, h);
    if a == b {
      assert a[..|a| - 13] == Padded(m) && b[..|b| - 13] == Padded(n);
      assert a[|a| - 12..] == HexEncode(g[..6]) && b[|b| - 12..] == HexEncode(h[..6]);
      PaddedRoundTrip(m);
      PaddedRoundTrip(n);
      HexRoundTrip(g[..6]);
      HexRoundTrip(h[..6]);
    }
  }

  /** Two proposals get the same directory exactly when they have the same sequence number and
      their hashes agree on the first six bytes; different hashes alone do not separate them. */
  lemma SameDirectory(p: Primitives, e: Entry, f: Entry)
    requires Hash(p, e).Some? && Hash(p, f).Some?
    ensures PendingName(p, e) == PendingName(p, f) <==>
            e.seqNo == f.seqNo && Hash(p, e).value[..6] == Hash(p, f).value[..6]
  {
    hide Hash, NameOf;
    SameName(e.seqNo, Hash(p, e).value, f.seqNo, Hash(p, f).value);
  }

  predicate Digits(t: Text) {
    forall i :: 0 <= i < |t| ==> 48 <= t[i] <= 57
  }

  lemma {:induction false} DecimalDigits(n: nat, width: nat, bound: nat)
    requires width > 0 && bound == Pow10(width) && n < bound
    ensures Digits(Decimal(n)) && 1 <= |Decimal(n)| <= width
    decreases width
  {
    if n >= 10 {
      assert width > 1;
      DecimalDigits(n / 10, width - 1, Pow10(width - 1));
    }
  }

  function Pow10(width: nat): nat {
    if width == 0 then 1 else 10 * Pow10(width - 1)
  }

  lemma {:induction false} ZerosAreDigits(k: nat)
    ensures Digits(Zeros(k))
  {
    if k > 0 {
      ZerosAreDigits(k - 1);
    }
  }

  /** A directory name ends in "-" and the hexadecimal text of six bytes of the payload's digest; what
      precedes it is the sequence number in decimal, six digits wide below one million. */
  lemma NameShape(p: Primitives, e: Entry, payload: Bytes)
    requires Payload(p, e) == Some(payload)
    ensures PendingName(p, e).Some?
    ensures var name := PendingName(p, e).value;
            && |name| >= 19
            && FromDecimal(name[..|name| - 13]) == e.seqNo
            && name[|name| - 13] as char == '-'
            && HexDecode(name[|name| - 12..]) == Some(p.sha256(payload)[..6])
            && (e.seqNo < 1_000_000 ==> |name| == 19 && Digits(name[..6]))
  {
    hide Payload, Decimal, Zeros, HexEncode, HexDecode, FromDecimal;
    var h := p.sha256(payload);
    var name := NameOf(e.seqNo, h);
    HexRoundTrip(h[..6]);
    PaddedRoundTrip(e.seqNo);
    assert name[..|name| - 13] == Padded(e.seqNo);
    assert name[|name| - 12..] == HexEncode(h[..6]);
    if e.seqNo < 1_000_000 {
      assert Pow10(6) == 1_000_000;
      DecimalDigits(e.seqNo, 6, 1_000_000);
      ZerosAreDigits(6 - |Decimal(e.seqNo)|);
    }
  }

  /** Among more than n numbers below n two are equal. */
  lemma {:induction false} Pigeonhole(xs: seq<nat>, n: nat) returns (i: nat, j: nat)
    requires |xs| > n && forall k :: 0 <= k < |xs| ==> xs[k] < n
    ensures i < j < |xs| && xs[i] == xs[j]
    decreases n
  {
    var k := |xs| - 1;
    if x :| 0 <= x < k && xs[x] == xs[k] {
      i, j := x, k;
    } else {
      // the largest number takes over the place of the last element
      var ys := seq(k, x requires 0 <= x < k => if xs[x] == n - 1 then xs[k] else xs[x]);
      i, j := Pigeonhole(ys, n - 1);
    }
  }

  /** Whatever the hash function, directory names cannot keep all proposals apart: among more than
      256^6 of them with one sequence number, two share a directory. */
  lemma NamesRunOut(p: Primitives, proposals: seq<Entry>, seqNo: uint64) returns (i: nat, j: nat)
    requires |proposals| > Pow256(6)
    requires forall k :: 0 <= k < |proposals| ==> proposals[k].seqNo == seqNo && Hash(p, proposals[k]).Some?
    ensures i < j < |proposals| && PendingName(p, proposals[i]) == PendingName(p, proposals[j])
  {
    hide Hash, PendingName, Pow256;
    var cut := seq(|proposals|, k requires 0 <= k < |proposals| => HashStart(p, proposals[k]));
    i, j := Pigeonhole(cut, Pow256(6));
    FromBigEndianRoundTrip(Hash(p, proposals[i]).value[..6]);
    FromBigEndianRoundTrip(Hash(p, proposals[j]).value[..6]);
    SameDirectory(p, proposals[i], proposals[j]);
  }

  /** The first six hash bytes as a number. */
  ghost function HashStart(p: Primitives, e: Entry): (n: nat)
    ensures n < Pow256(6)
  {
    match Hash(p, e)
    case Some(h) => FromBigEndian(h[..6])
    case None => 0
  }

  // ---- saving a proposal ----

  /** entry.json is written without approvals; signature files already in the directory stay. */
  function WithProposal(pending: map<Text, PendingDir>, name: Text, e: Entry): map<Text, PendingDir> {
    var sigs := if name in pending then pending[name].sigs else map[];
    pending[name := PendingDir(e.(approvals := map[]), sigs)]
  }

  /** Proposing keeps every signature file that is there already, writes the entry without approvals,
      and touches no other directory; proposing the same entry again keeps the collected approvals. */
  lemma ProposingKeeps(p: Primitives, pending: map<Text, PendingDir>, name: Text, e: Entry)
    ensures var after := WithProposal(pending, name, e);
            && name in after && after[name].entry == e.(approvals := map[])
            && (name in pending ==> after[name].sigs == pending[name].sigs)
            && (name !in pending ==> after[name].sigs == map[])
            && (forall other :: other != name ==>
                  (other in after <==> other in pending) && (other in pending ==> after[other] == pending[other]))
            && (name in pending && pending[name].entry == e.(approvals := map[]) ==>
                  Loaded(p, after[name]) == Loaded(p, pending[name]))
  {
    hide Loaded;
  }

  // ---- replay ----

  /** The length of the longest accepted prefix. */
  ghost function AcceptedPrefix(p: Primitives, log: seq<Entry>): (n: nat)
    ensures n <= |log|
  {
    if log == [] || Accepted(p, log) then |log| else AcceptedPrefix(p, log[..|log| - 1])
  }

  lemma {:induction false} PrefixIsLongest(p: Primitives, log: seq<Entry>)
    ensures Accepted(p, log[..AcceptedPrefix(p, log)])
    ensures AcceptedPrefix(p, log) < |log| ==> !Accepted(p, log[..AcceptedPrefix(p, log) + 1])
  {
    hide Accepted;
    assert log[..|log|] == log;
    if log == [] {
      EmptyStateAt(p, log);
    } else if !Accepted(p, log) {
      var init := log[..|log| - 1];
      var n := AcceptedPrefix(p, init);
      PrefixIsLongest(p, init);
      assert init[..n] == log[..n];
      assert n < |init| ==> init[..n + 1] == log[..n + 1];
    }
  }

  /** The state Replay returns: the final one, or where an entry is rejected the one it leaves. */
  ghost function Replayed(p: Primitives, log: seq<Entry>): St {
    var n := AcceptedPrefix(p, log);
    if n == |log| then Final(p, log) else Rejected(p, StateAt(p, log, n), log[n])
  }

  class Store {
    const p: Primitives
    var log: seq<Entry>
    var pending: map<Text, PendingDir>

    ghost function Value(): Disk
      reads this
    {
      Disk(log, pending)
    }

    constructor (p: Primitives)
      ensures Value() == Disk([], map[]) && this.p == p
    {
      this.p := p;
      log, pending := [], map[];
    }

    /** Applies the log to a fresh State; stops at the first entry that is rejected. */
    method Replay() returns (st: State, ok: bool)
      ensures fresh(st) && st.p == p
      ensures ok == Accepted(p, log)
      ensures ok ==> st.Value() == Final(p, log)
      ensures st.Value() == Replayed(p, log)
    {
      hide *;
      st := new State(p);
      EmptyStateAt(p, log);
      for i := 0 to |log|
        invariant fresh(st) && st.p == p
        invariant Accepted(p, log[..i]) && st.Value() == StateAt(p, log, i)
      {
        NextStateAt(p, log, i);
        ok := st.Apply(log[i]);
        if !ok {
          FirstRejected(p, log, i);
          ReplayedCases(p, log);
          return;
        }
      }
      assert log[..|log|] == log;
      ok := true;
      FinalIsStateAt(p, log);
      ReplayedCases(p, log);
    }

    method Append(e: Entry)
      modifies this`log
      ensures log == old(log) + [e]
    {
      log := log + [e];
    }

    method SavePending(e: Entry) returns (name: Option<Text>)
      modifies this`pending
      ensures name == PendingName(p, e)
      ensures pending == if name.Some? then WithProposal(old(pending), name.value, e) else old(pending)
    {
      hide Hash, Padded, HexEncode;
      var h := ComputeHash(p, e);
      if h.None? { return None; }
      var hex := HexText(h.value[..6]);
      var dir := Padded(e.seqNo) + Ascii("-") + hex;
      if dir !in pending {
        pending := pending[dir := PendingDir(e, map[])];
      }
      var bare := e.(approvals := map[]);
      pending := pending[dir := PendingDir(bare, pending[dir].sigs)];
      return Some(dir);
    }

    method SaveSig(name: Text, s: SigFile) returns (ok: bool)
      requires name in pending
      modifies this`pending
      ensures ok == Complete(s)
      ensures pending == if ok then old(pending)[name := Saved(old(pending)[name], s).value] else old(pending)
    {
      if s.nodeId == [] || s.signature == [] { return false; }
      var dir := pending[name];
      pending := pending[name := PendingDir(dir.entry, dir.sigs[FileOf(s) := s])];
      return true;
    }

    method Remove(name: Text)
      modifies this`pending
      ensures pending == old(pending) - {name}
    {
      pending := pending - {name};
    }
  }

  lemma FinalIsStateAt(p: Primitives, log: seq<Entry>)
    ensures Final(p, log) == StateAt(p, log, |log|)
  {
  }

  lemma ReplayedCases(p: Primitives, log: seq<Entry>)
    ensures Accepted(p, log) ==> Replayed(p, log) == Final(p, log)
    ensures var n := AcceptedPrefix(p, log);
            n < |log| ==> Replayed(p, log) == Rejected(p, StateAt(p, log, n), log[n])
  {
    hide Accepted, Rejected, Final;
  }

  /** A failed replay returns the partial state up to the failing entry, with nothing of that
      entry in it. */
  lemma PartialReplay(p: Primitives, log: seq<Entry>)
    requires !Accepted(p, log) && |log| < TWO64
    ensures var n := AcceptedPrefix(p, log);
            n < |log| && Accepted(p, log[..n]) && Replayed(p, log) == Final(p, log[..n])
  {
    hide Accepted, Rejected, Accepts, NextMembers;
    var n := AcceptedPrefix(p, log);
    PrefixIsLongest(p, log);
    assert log[..|log|] == log;
    ReplayedCases(p, log);
    NextStateAt(p, log, n);
    StateAtPrefix(p, log, n, n);
    AllOrNothing(p, log[..n], log[n]);
  }

  lemma NextStateAt(p: Primitives, log: seq<Entry>, i: nat)
    requires i < |log| && Accepted(p, log[..i])
    ensures Accepted(p, log[..i + 1]) <==> Accepts(p, StateAt(p, log, i), log[i])
    ensures Accepted(p, log[..i + 1]) ==> StateAt(p, log, i + 1) == Next(p, StateAt(p, log, i), log[i])
  {
    hide Accepts, NextMembers;
    StateAtPrefix(p, log, i, i);
    ReplayAppend(p, log[..i], log[i]);
    assert log[..i] + [log[i]] == log[..i + 1];
    StateAtPrefix(p, log, i + 1, i + 1);
  }

  lemma FirstRejected(p: Primitives, log: seq<Entry>, n: nat)
    requires n < |log| && Accepted(p, log[..n]) && !Accepted(p, log[..n + 1])
    ensures !Accepted(p, log) && AcceptedPrefix(p, log) == n
  {
    hide Accepted, Replay;
    assert log[..|log|] == log;
    var k := AcceptedPrefix(p, log);
    PrefixIsLongest(p, log);
    if Accepted(p, log) {
      PrefixAccepted(p, log, n + 1);
    }
    if k > n {
      assert log[..k][..n + 1] == log[..n + 1];
      PrefixAccepted(p, log[..k], n + 1);
    }
    if k < n {
      assert log[..n][..k + 1] == log[..k + 1];
      PrefixAccepted(p, log[..n], k + 1);
    }
  }
}
