/** Collecting signatures on a proposal (internal/ledger/pending.go). */
module Pendings {
  import opened Bytes
  import opened Sorting
  import opened Entries
  import opened States

  datatype SigFile = SigFile(nodeId: Text, entryHash: Text, signature: Text)

  /** A directory under pending/: entry.json, and the files of sigs/ by file name. */
  datatype PendingDir = PendingDir(entry: Entry, sigs: map<Text, SigFile>)

  function JsonSuffix(): Text { Ascii(".json") }

  function FileName(nodeId: Text): Text { nodeId + JsonSuffix() }

  function FileOf(s: SigFile): Text { FileName(s.nodeId) }

  predicate IsJson(name: Text) {
    |name| >= 5 && name[|name| - 5..] == JsonSuffix()
  }

  lemma FileNameInjective(a: Text, b: Text)
    ensures FileName(a) == FileName(b) <==> a == b
    ensures IsJson(FileName(a))
  {
    assert FileName(a)[..|FileName(a)| - 5] == a;
    assert FileName(b)[..|FileName(b)| - 5] == b;
    assert FileName(a)[|FileName(a)| - 5..] == JsonSuffix();
  }

  // ---- SaveSig ----

  predicate Complete(s: SigFile) {
    s.nodeId != [] && s.signature != []
  }

  /** SaveSig writes one file named after the signer; it is an error to save an incomplete one. */
  function Saved(dir: PendingDir, s: SigFile): Option<PendingDir> {
    if Complete(s) then Some(dir.(sigs := dir.sigs[FileOf(s) := s])) else None
  }

  // ---- LoadPending ----

  ghost function JsonNames(sigs: map<Text, SigFile>): set<Text> {
    set n | n in sigs && IsJson(n)
  }

  function FilesAt(sigs: map<Text, SigFile>, names: seq<Text>): (r: seq<SigFile>)
    requires forall n :: n in names ==> n in sigs
    ensures |r| == |names| && forall i :: 0 <= i < |names| ==> r[i] == sigs[names[i]]
  {
    if names == [] then [] else [sigs[names[0]]] + FilesAt(sigs, names[1..])
  }

  /** The signature files in the order os.ReadDir lists them. */
  ghost function Listing(sigs: map<Text, SigFile>): seq<SigFile> {
    FilesAt(sigs, Ascending(JsonNames(sigs)))
  }

  /** Approvals filled in from signature files; a later file wins. */
  function Collected(base: map<Text, Text>, files: seq<SigFile>): map<Text, Text> {
    if files == [] then base
    else
      var last := files[|files| - 1];
      Collected(base, files[..|files| - 1])[last.nodeId := last.signature]
  }

  /** A recorded entry hash, where there is one, is the proposal's. */
  ghost predicate HashMatches(p: Primitives, e: Entry, s: SigFile) {
    s.entryHash == [] || HashHex(p, e) == Some(s.entryHash)
  }

  ghost predicate Loadable(p: Primitives, dir: PendingDir) {
    && HashHex(p, dir.entry).Some?
    && forall n :: n in dir.sigs && IsJson(n) ==>
         Complete(dir.sigs[n]) && HashMatches(p, dir.entry, dir.sigs[n])
  }

  /** The proposal with every collected signature among its approvals. */
  ghost function Loaded(p: Primitives, dir: PendingDir): Option<Entry> {
    if Loadable(p, dir)
    then Some(dir.entry.(approvals := Collected(dir.entry.approvals, Listing(dir.sigs))))
    else None
  }

  /** os.ReadDir: the names of a directory in ascending order. */
  method ReadDir(sigs: map<Text, SigFile>) returns (names: seq<Text>)
    ensures names == Ascending(sigs.Keys)
  {
    names := [];
    var todo := sigs.Keys;
    while todo != {}
      invariant todo <= sigs.Keys
      invariant forall n :: n in names <==> n in sigs.Keys - todo
      invariant DistinctKeys(Self, names)
    {
      var n :| n in todo;
      todo := todo - {n};
      DistinctSnoc(names, n);
      names := names + [n];
    }
    names := SortStrings(names, sigs.Keys);
  }

  method ReadSigsDir(sigs: map<Text, SigFile>) returns (r: Option<seq<SigFile>>)
    ensures r == if forall n :: n in sigs && IsJson(n) ==> Complete(sigs[n])
                 then Some(Listing(sigs)) else None
  {
    hide IsJson, StrictlySorted, Ascending, Less;
    var names := ReadDir(sigs);
    var out: seq<SigFile> := [];
    ghost var kept: seq<Text> := [];
    assert StrictlySorted(Self, kept) by { NothingSorted(); }
    for i := 0 to |names|
      invariant forall n :: n in kept <==> n in names[..i] && IsJson(n)
      invariant StrictlySorted(Self, kept)
      invariant out == FilesAt(sigs, kept)
      invariant forall n :: n in kept ==> Complete(sigs[n])
    {
      assert names[i] in names;
      assert names[..i + 1] == names[..i] + [names[i]];
      if !IsJson(names[i]) { continue; }
      var s := sigs[names[i]];
      if s.nodeId == [] || s.signature == [] { return None; }
      SortedSnoc(names, i, kept);
      FilesAtSnoc(sigs, kept, names[i]);
      kept := kept + [names[i]];
      out := out + [s];
    }
    assert names[..|names|] == names;
    AscendingUnique(JsonNames(sigs), kept);
    return Some(out);
  }

  lemma FilesAtSnoc(sigs: map<Text, SigFile>, names: seq<Text>, n: Text)
    requires n in sigs && forall m :: m in names ==> m in sigs
    ensures FilesAt(sigs, names + [n]) == FilesAt(sigs, names) + [sigs[n]]
  {
  }

  lemma SortedSnoc(names: seq<Text>, i: nat, kept: seq<Text>)
    requires StrictlySorted(Self, names) && StrictlySorted(Self, kept) && i < |names|
    requires forall n :: n in kept ==> n in names[..i]
    ensures StrictlySorted(Self, kept + [names[i]])
  {
    forall j | 0 <= j < |kept| ensures Less(kept[j], names[i]) {
      assert kept[j] in names[..i];
      var k :| 0 <= k < i && names[k] == kept[j];
      assert Less(Self(names[k]), Self(names[i]));
    }
  }

  method LoadPending(p: Primitives, dir: PendingDir) returns (r: Option<Entry>)
    ensures r == Loaded(p, dir)
  {
    hide Hash, Listing, Complete, IsJson;
    LoadableByListing(p, dir);
    var e := dir.entry;
    var sigs := ReadSigsDir(dir.sigs);
    if sigs.None? { return None; }
    var hash := ComputeHash(p, e);
    if hash.None? { return None; }
    var h := HexText(hash.value);
    var approvals := e.approvals;
    var files := sigs.value;
    for i := 0 to |files|
      invariant approvals == Collected(e.approvals, files[..i])
      invariant forall j :: 0 <= j < i ==> HashMatches(p, e, files[j])
    {
      var s := files[i];
      if s.entryHash != [] && s.entryHash != h {
        assert !HashMatches(p, e, files[i]);
        return None;
      }
      assert files[..i + 1][..i] == files[..i];
      approvals := approvals[s.nodeId := s.signature];
    }
    assert files[..|files|] == files;
    return Some(e.(approvals := approvals));
  }

  lemma LoadableByListing(p: Primitives, dir: PendingDir)
    ensures Loadable(p, dir) <==>
            && HashHex(p, dir.entry).Some?
            && (forall n :: n in dir.sigs && IsJson(n) ==> Complete(dir.sigs[n]))
            && forall i :: 0 <= i < |Listing(dir.sigs)| ==> HashMatches(p, dir.entry, Listing(dir.sigs)[i])
  {
    hide HashMatches, Complete, HashHex, Listing, IsJson;
    var files := Listing(dir.sigs);
    forall n | n in dir.sigs && IsJson(n)
      ensures exists j :: 0 <= j < |files| && files[j] == dir.sigs[n]
    {
      ListingHas(dir.sigs, n);
    }
    forall i | 0 <= i < |files|
      ensures exists n :: n in dir.sigs && IsJson(n) && dir.sigs[n] == files[i]
    {
      ListingMembers(dir.sigs, files[i]);
    }
  }

  lemma ListingHas(sigs: map<Text, SigFile>, n: Text)
    requires n in sigs && IsJson(n)
    ensures sigs[n] in Listing(sigs)
  {
    var names := Ascending(JsonNames(sigs));
    assert n in names;
    var i :| 0 <= i < |names| && names[i] == n;
    assert Listing(sigs)[i] == sigs[n];
  }

  lemma ListingMembers(sigs: map<Text, SigFile>, s: SigFile)
    requires s in Listing(sigs)
    ensures exists n :: n in sigs && IsJson(n) && sigs[n] == s
  {
    var names := Ascending(JsonNames(sigs));
    var i :| 0 <= i < |names| && Listing(sigs)[i] == s;
    assert names[i] in JsonNames(sigs);
  }

  // ---- directories written by SaveSig ----

  /** Every signature file is named after its signer. */
  ghost predicate Tidy(sigs: map<Text, SigFile>) {
    forall n :: n in sigs ==> n == FileOf(sigs[n])
  }

  ghost predicate DistinctSigners(sigs: seq<SigFile>) {
    forall i, j :: 0 <= i < j < |sigs| ==> sigs[i].nodeId != sigs[j].nodeId
  }

  lemma {:induction false} CollectedDistinct(base: map<Text, Text>, files: seq<SigFile>, id: Text)
    requires DistinctSigners(files)
    ensures id in Collected(base, files) <==> id in base || exists i :: 0 <= i < |files| && files[i].nodeId == id
    ensures forall i :: 0 <= i < |files| && files[i].nodeId == id ==> Collected(base, files)[id] == files[i].signature
    ensures id in base && (forall i :: 0 <= i < |files| ==> files[i].nodeId != id) ==>
              Collected(base, files)[id] == base[id]
  {
    if files != [] {
      CollectedDistinct(base, files[..|files| - 1], id);
      assert forall i :: 0 <= i < |files| - 1 ==> files[..|files| - 1][i] == files[i];
    }
  }

  lemma ListingTidy(sigs: map<Text, SigFile>)
    requires Tidy(sigs)
    ensures DistinctSigners(Listing(sigs))
    ensures forall i :: 0 <= i < |Listing(sigs)| ==>
              FileOf(Listing(sigs)[i]) in sigs && sigs[FileOf(Listing(sigs)[i])] == Listing(sigs)[i]
  {
    hide FileName, IsJson;
    var names, files := Ascending(JsonNames(sigs)), Listing(sigs);
    forall i | 0 <= i < |files|
      ensures names[i] in sigs && FileOf(files[i]) == names[i]
    {
      assert names[i] in JsonNames(sigs);
    }
    forall i, j | 0 <= i < j < |files| ensures files[i].nodeId != files[j].nodeId {
      assert Less(Self(names[i]), Self(names[j]));
      LessAsymmetric(names[i], names[j]);
    }
  }

  /** In such a directory the order of the files is immaterial: id's approval is what its own file
      says, else what entry.json says. */
  lemma TidyApprovals(p: Primitives, dir: PendingDir, id: Text)
    requires Tidy(dir.sigs) && Loadable(p, dir)
    ensures var approvals := Loaded(p, dir).value.approvals;
            && (id in approvals <==> id in dir.entry.approvals || FileName(id) in dir.sigs)
            && (FileName(id) in dir.sigs ==> approvals[id] == dir.sigs[FileName(id)].signature)
            && (FileName(id) !in dir.sigs && id in dir.entry.approvals ==>
                  approvals[id] == dir.entry.approvals[id])
  {
    hide HashHex, Complete, HashMatches, FileName, Listing, Collected, IsJson, DistinctSigners, Loadable;
    var files := Listing(dir.sigs);
    ListingTidy(dir.sigs);
    CollectedDistinct(dir.entry.approvals, files, id);
    if FileName(id) in dir.sigs {
      FileNameInjective(id, dir.sigs[FileName(id)].nodeId);
      ListingHas(dir.sigs, FileName(id));
      var i :| 0 <= i < |files| && files[i] == dir.sigs[FileName(id)];
      assert files[i].nodeId == id;
    }
  }

  lemma SavedLoadable(p: Primitives, dir: PendingDir, s: SigFile)
    requires Tidy(dir.sigs) && Loadable(p, dir) && Complete(s) && HashMatches(p, dir.entry, s)
    ensures Tidy(Saved(dir, s).value.sigs) && Loadable(p, Saved(dir, s).value)
  {
    hide HashHex, HashMatches, FileName;
    FileNameInjective(s.nodeId, s.nodeId);
  }

  /** Saving one more signature adds exactly that approval. */
  lemma SavedApprovals(p: Primitives, dir: PendingDir, s: SigFile)
    requires Tidy(dir.sigs) && Loadable(p, dir) && Complete(s) && HashMatches(p, dir.entry, s)
    ensures Tidy(Saved(dir, s).value.sigs) && Loadable(p, Saved(dir, s).value)
    ensures var e := Loaded(p, dir).value;
            Loaded(p, Saved(dir, s).value) == Some(e.(approvals := e.approvals[s.nodeId := s.signature]))
  {
    hide HashMatches, FileName, Loadable, Complete, Listing, Collected;
    SavedLoadable(p, dir, s);
    var dir' := Saved(dir, s).value;
    var got, want := Loaded(p, dir').value.approvals, Loaded(p, dir).value.approvals[s.nodeId := s.signature];
    forall id
      ensures id in got <==> id in want
      ensures id in want ==> got[id] == want[id]
    {
      FileNameInjective(id, s.nodeId);
      TidyApprovals(p, dir, id);
      TidyApprovals(p, dir', id);
    }
    assert got == want;
  }

  /** Saving one more signature keeps the hash and takes exactly its signer off the missing list. */
  lemma SigningShrinksMissing(p: Primitives, st: St, dir: PendingDir, s: SigFile)
    requires Tidy(dir.sigs) && Loadable(p, dir) && Complete(s) && HashMatches(p, dir.entry, s)
    ensures var dir' := Saved(dir, s).value;
            && Loadable(p, dir')
            && var e, e' := Loaded(p, dir).value, Loaded(p, dir').value;
               && Hash(p, e') == Hash(p, e)
               && Missing(st, e').Some? == Missing(st, e).Some?
               && (Missing(st, e).Some? ==>
                     forall id :: id in Missing(st, e').value <==> id in Missing(st, e).value && id != s.nodeId)
  {
    hide *;
    SavedApprovals(p, dir, s);
    LoadedSome(p, dir);
    var e := Loaded(p, dir).value;
    SameHash(p, e, e.approvals[s.nodeId := s.signature]);
    OneLessMissing(st, e, s.nodeId, s.signature);
  }

  lemma LoadedSome(p: Primitives, dir: PendingDir)
    ensures Loadable(p, dir) <==> Loaded(p, dir).Some?
  {
    hide Loadable;
  }

  lemma OneLessMissing(st: St, e: Entry, id: Text, sig: Text)
    ensures var m, m' := Missing(st, e), Missing(st, e.(approvals := e.approvals[id := sig]));
            && m'.Some? == m.Some?
            && (m.Some? ==> forall x :: x in m'.value <==> x in m.value && x != id)
  {
    hide Required;
    var e' := e.(approvals := e.approvals[id := sig]);
    assert Required(st, e') == Required(st, e) by { RequiredUnsigned(st, e, e'.approvals); }
  }

  lemma RequiredUnsigned(st: St, e: Entry, approvals: map<Text, Text>)
    ensures Required(st, e.(approvals := approvals)) == Required(st, e)
  {
  }

  /** Approvals are outside the payload. */
  lemma SameHash(p: Primitives, e: Entry, approvals: map<Text, Text>)
    ensures Payload(p, e.(approvals := approvals)) == Payload(p, e)
    ensures Hash(p, e.(approvals := approvals)) == Hash(p, e)
  {
    UnsignedFields(p, e, e.(approvals := approvals));
  }

  // ---- concurrent signing ----

  /** Signature files saved one after the other. */
  function SaveAll(dir: PendingDir, sigs: seq<SigFile>): (r: PendingDir)
    ensures r.entry == dir.entry
  {
    if sigs == [] then dir
    else
      var before := SaveAll(dir, sigs[..|sigs| - 1]);
      match Saved(before, sigs[|sigs| - 1])
      case Some(after) => after
      case None => before
  }

  function FileAt(sigs: map<Text, SigFile>, n: Text): Option<SigFile> {
    if n in sigs then Some(sigs[n]) else None
  }

  /** What SaveAll leaves in each file. */
  lemma {:induction false} SaveAllAt(dir: PendingDir, sigs: seq<SigFile>, n: Text)
    requires DistinctSigners(sigs) && forall s :: s in sigs ==> Complete(s)
    ensures forall s :: s in sigs && FileOf(s) == n ==> FileAt(SaveAll(dir, sigs).sigs, n) == Some(s)
    ensures (forall s :: s in sigs ==> FileOf(s) != n) ==>
              FileAt(SaveAll(dir, sigs).sigs, n) == FileAt(dir.sigs, n)
  {
    hide FileName, DistinctSigners;
    if sigs != [] {
      var init, last := sigs[..|sigs| - 1], sigs[|sigs| - 1];
      assert sigs == init + [last];
      DistinctParts(init, [last]);
      SaveAllAt(dir, init, n);
      forall s | s in init ensures FileOf(s) != FileOf(last) {
        FileNameInjective(s.nodeId, last.nodeId);
      }
    }
  }

  /** Every interleaving of the same signatures by distinct nodes leaves the same directory. */
  lemma InterleavingIrrelevant(p: Primitives, dir: PendingDir, a: seq<SigFile>, b: seq<SigFile>)
    requires DistinctSigners(a) && DistinctSigners(b)
    requires forall s :: s in a ==> Complete(s)
    requires forall s :: s in a <==> s in b
    ensures SaveAll(dir, a) == SaveAll(dir, b)
    ensures Loaded(p, SaveAll(dir, a)) == Loaded(p, SaveAll(dir, b))
  {
    hide FileName, Loaded;
    var x, y := SaveAll(dir, a).sigs, SaveAll(dir, b).sigs;
    forall n ensures FileAt(x, n) == FileAt(y, n) {
      SaveAllAt(dir, a, n);
      SaveAllAt(dir, b, n);
    }
    SameFiles(x, y);
  }

  lemma SameFiles(x: map<Text, SigFile>, y: map<Text, SigFile>)
    requires forall n :: FileAt(x, n) == FileAt(y, n)
    ensures x == y
  {
    forall n ensures n in x <==> n in y {
      assert FileAt(x, n) == FileAt(y, n);
    }
    forall n | n in x ensures x[n] == y[n] {
      assert FileAt(x, n) == FileAt(y, n);
    }
  }

  /** A three-way merge of file trees: each file takes the side that changed it. There is no value
      for a file that both sides changed differently. */
  ghost predicate MergesTo(base: map<Text, SigFile>, x: map<Text, SigFile>, y: map<Text, SigFile>,
                           r: map<Text, SigFile>)
  {
    forall n ::
      || (FileAt(x, n) == FileAt(base, n) && FileAt(r, n) == FileAt(y, n))
      || (FileAt(y, n) == FileAt(base, n) && FileAt(r, n) == FileAt(x, n))
      || (FileAt(x, n) == FileAt(y, n) == FileAt(r, n))
  }

  /** A merge has at most one outcome. */
  lemma MergeUnique(base: map<Text, SigFile>, x: map<Text, SigFile>, y: map<Text, SigFile>,
                    r: map<Text, SigFile>, t: map<Text, SigFile>)
    requires MergesTo(base, x, y, r) && MergesTo(base, x, y, t)
    ensures r == t
  {
    forall n ensures FileAt(r, n) == FileAt(t, n) {
    }
    SameFiles(r, t);
  }

  /** Copies of a pending directory signed separately by distinct nodes merge without conflict, and
      the merge is the directory in which all of them signed one after the other. */
  lemma SeparateCopiesMerge(p: Primitives, dir: PendingDir, a: seq<SigFile>, b: seq<SigFile>)
    requires DistinctSigners(a + b) && forall s :: s in a + b ==> Complete(s)
    ensures MergesTo(dir.sigs, SaveAll(dir, a).sigs, SaveAll(dir, b).sigs, SaveAll(dir, a + b).sigs)
    ensures Loaded(p, SaveAll(dir, a + b)) == Loaded(p, SaveAll(dir, b + a))
  {
    hide SaveAll, FileAt, Loaded, DistinctSigners, Complete;
    forall n
      ensures
        var base, x, y, r := FileAt(dir.sigs, n), FileAt(SaveAll(dir, a).sigs, n),
                             FileAt(SaveAll(dir, b).sigs, n), FileAt(SaveAll(dir, a + b).sigs, n);
        (x == base && r == y) || (y == base && r == x) || (x == y == r)
    {
      MergedFile(dir, a, b, n);
    }
    DistinctSwapped(a, b);
    InterleavingIrrelevant(p, dir, a + b, b + a);
  }

  lemma MergedFile(dir: PendingDir, a: seq<SigFile>, b: seq<SigFile>, n: Text)
    requires DistinctSigners(a + b) && forall s :: s in a + b ==> Complete(s)
    ensures var base, x, y, r := FileAt(dir.sigs, n), FileAt(SaveAll(dir, a).sigs, n),
                                 FileAt(SaveAll(dir, b).sigs, n), FileAt(SaveAll(dir, a + b).sigs, n);
            (x == base && r == y) || (y == base && r == x)
  {
    hide FileName, SaveAll, FileAt, Complete;
    DistinctParts(a, b);
    SaveAllAt(dir, a, n);
    SaveAllAt(dir, b, n);
    SaveAllAt(dir, a + b, n);
    if s :| s in b && FileOf(s) == n {
      forall t | t in a ensures FileOf(t) != n {
        FileNameInjective(t.nodeId, s.nodeId);
      }
    }
  }

  lemma DistinctParts(a: seq<SigFile>, b: seq<SigFile>)
    requires DistinctSigners(a + b)
    ensures DistinctSigners(a) && DistinctSigners(b)
    ensures forall s, t :: s in a && t in b ==> s.nodeId != t.nodeId
  {
    assert forall i :: 0 <= i < |a| ==> (a + b)[i] == a[i];
    assert forall i :: 0 <= i < |b| ==> (a + b)[|a| + i] == b[i];
    forall s, t | s in a && t in b ensures s.nodeId != t.nodeId {
      var i :| 0 <= i < |a| && a[i] == s;
      var j :| 0 <= j < |b| && b[j] == t;
      assert (a + b)[i] == s && (a + b)[|a| + j] == t;
    }
  }

  lemma DistinctSwapped(a: seq<SigFile>, b: seq<SigFile>)
    requires DistinctSigners(a + b)
    ensures DistinctSigners(b + a)
  {
    forall i, j | 0 <= i < j < |b + a| ensures (b + a)[i].nodeId != (b + a)[j].nodeId {
      var i' := if i < |b| then |a| + i else i - |b|;
      var j' := if j < |b| then |a| + j else j - |b|;
      assert (b + a)[i] == (a + b)[i'] && (b + a)[j] == (a + b)[j'];
    }
  }

  // ---- in plain fields ----

  /** SaveSig refuses exactly a signature without signer or text, and otherwise writes the file
      <node id>.json and nothing else. */
  lemma SavedWhen(dir: PendingDir, s: SigFile)
    ensures Saved(dir, s).Some? <==> |s.nodeId| > 0 && |s.signature| > 0
    ensures Saved(dir, s).Some? ==>
              Saved(dir, s) == Some(PendingDir(dir.entry, dir.sigs[s.nodeId + Ascii(".json") := s]))
  {
  }

  /** A directory loads exactly when its entry has a payload and every file in it whose name ends in
      ".json" has a signer, a signature, and no entry hash other than the digest of that payload. */
  lemma LoadsWhen(p: Primitives, dir: PendingDir, payload: Option<Bytes>)
    requires payload == Payload(p, dir.entry)
    ensures Loaded(p, dir).Some? <==>
            && payload.Some?
            && forall n :: n in dir.sigs && |n| >= 5 && n[|n| - 5..] == Ascii(".json") ==>
                 && |dir.sigs[n].nodeId| > 0 && |dir.sigs[n].signature| > 0
                 && (dir.sigs[n].entryHash == [] || dir.sigs[n].entryHash == HexEncode(p.sha256(payload.value)))
  {
    hide Payload, HexEncode, Complete, HashMatches, HashHex, Collected, Listing;
    HashHexMeans(p, dir.entry);
    if Payload(p, dir.entry).Some? {
      forall s ensures Complete(s) && HashMatches(p, dir.entry, s) <==>
                         && |s.nodeId| > 0 && |s.signature| > 0
                         && (s.entryHash == [] || s.entryHash == HexEncode(p.sha256(Payload(p, dir.entry).value)))
      {
        FileMeans(p, dir.entry, s);
      }
    }
  }

  lemma HashHexMeans(p: Primitives, e: Entry)
    ensures HashHex(p, e) == if Payload(p, e).Some? then Some(HexEncode(p.sha256(Payload(p, e).value))) else None
  {
    hide Payload, HexEncode;
  }

  lemma FileMeans(p: Primitives, e: Entry, s: SigFile)
    requires Payload(p, e).Some?
    ensures Complete(s) && HashMatches(p, e, s) <==>
            && |s.nodeId| > 0 && |s.signature| > 0
            && (s.entryHash == [] || s.entryHash == HexEncode(p.sha256(Payload(p, e).value)))
  {
    hide Payload, HexEncode;
  }

  lemma {:induction false} LastCollected(base: map<Text, Text>, files: seq<SigFile>, i: nat)
    requires i < |files| && forall j :: i < j < |files| ==> files[j].nodeId != files[i].nodeId
    ensures files[i].nodeId in Collected(base, files)
    ensures Collected(base, files)[files[i].nodeId] == files[i].signature
  {
    if i < |files| - 1 {
      LastCollected(base, files[..|files| - 1], i);
    }
  }

  /** Where several files name the same signer, the one whose name comes last counts. */
  lemma LastFileWins(p: Primitives, dir: PendingDir, n: Text)
    requires Loaded(p, dir).Some? && n in dir.sigs && IsJson(n)
    requires forall m :: m in dir.sigs && IsJson(m) && dir.sigs[m].nodeId == dir.sigs[n].nodeId ==> m == n || Less(m, n)
    ensures var s, approvals := dir.sigs[n], Loaded(p, dir).value.approvals;
            s.nodeId in approvals && approvals[s.nodeId] == s.signature
  {
    hide HashHex, HashMatches, Complete, IsJson, Collected, Less;
    var names, files := Ascending(JsonNames(dir.sigs)), Listing(dir.sigs);
    assert n in names;
    var i :| 0 <= i < |names| && names[i] == n;
    forall j | i < j < |files| ensures files[j].nodeId != files[i].nodeId {
      assert names[j] in JsonNames(dir.sigs) && Less(Self(names[i]), Self(names[j]));
      LessAsymmetric(names[i], names[j]);
    }
    LastCollected(dir.entry.approvals, files, i);
  }
}
