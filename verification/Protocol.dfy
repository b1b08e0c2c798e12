/** Propose, sign, merge and commit as steps on the disk, and what every run of steps keeps. */
module Protocol {
  import opened Bytes
  import opened Entries
  import opened States
  import opened Runs
  import opened Pendings
  import opened Stores

  /** One step. Edit replaces or deletes a pending directory with any content whatsoever: proposing,
      signing, merging, pulling somebody else's files, and removing a proposal are edits. Commit
      appends; with `keep` the directory stays, as it also does when the process dies between the
      append and the removal. */
  datatype Action = Edit(name: Text, dir: Option<PendingDir>) | Commit(name: Text, keep: bool)

  /** The entry that committing this directory would append. */
  ghost function Committable(p: Primitives, d: Disk, name: Text): Option<Entry> {
    if Accepted(p, d.log) && name in d.pending && Loaded(p, d.pending[name]).Some?
       && Accepts(p, Final(p, d.log), Loaded(p, d.pending[name]).value)
    then Loaded(p, d.pending[name]) else None
  }

  ghost function Committed(p: Primitives, d: Disk, name: Text, keep: bool): Disk {
    match Committable(p, d, name)
    case Some(e) => Disk(d.log + [e], if keep then d.pending else d.pending - {name})
    case None => d
  }

  function Edited(d: Disk, name: Text, dir: Option<PendingDir>): Disk {
    d.(pending := if dir.Some? then d.pending[name := dir.value] else d.pending - {name})
  }

  ghost function Act(p: Primitives, d: Disk, a: Action): Disk {
    match a
    case Edit(name, dir) => Edited(d, name, dir)
    case Commit(name, keep) => Committed(p, d, name, keep)
  }

  ghost function Run(p: Primitives, d: Disk, actions: seq<Action>): Disk {
    if actions == [] then d
    else Act(p, Run(p, d, actions[..|actions| - 1]), actions[|actions| - 1])
  }

  ghost predicate Reaches(p: Primitives, d: Disk, d': Disk) {
    exists actions :: Run(p, d, actions) == d'
  }

  // ---- composing runs ----

  lemma ReachesSelf(p: Primitives, d: Disk)
    ensures Reaches(p, d, d)
  {
    assert Run(p, d, []) == d;
  }

  lemma ReachesAct(p: Primitives, d: Disk, d': Disk, a: Action)
    requires Reaches(p, d, d')
    ensures Reaches(p, d, Act(p, d', a))
  {
    hide Act;
    var actions :| Run(p, d, actions) == d';
    assert (actions + [a])[..|actions|] == actions;
    assert Run(p, d, actions + [a]) == Act(p, d', a);
  }

  lemma ReachesEdit(p: Primitives, d: Disk, d': Disk, name: Text, dir: PendingDir)
    requires Reaches(p, d, d')
    ensures Reaches(p, d, d'.(pending := d'.pending[name := dir]))
  {
    hide Reaches;
    ReachesAct(p, d, d', Edit(name, Some(dir)));
  }

  // ---- the log ----

  /** Every step keeps the log or appends one entry that is accepted, and then replaying the new log
      gives exactly the state that applying the entry produced. */
  lemma StepKeepsLog(p: Primitives, d: Disk, a: Action)
    requires Accepted(p, d.log)
    ensures var d' := Act(p, d, a);
            && Accepted(p, d'.log)
            && (d'.log == d.log ||
                (|d'.log| == |d.log| + 1 && d.log == d'.log[..|d.log|]
                 && Accepts(p, Final(p, d.log), d'.log[|d.log|])
                 && Final(p, d'.log) == Next(p, Final(p, d.log), d'.log[|d.log|])))
  {
    hide Accepts, NextMembers, Loaded, Final, Accepted;
    if a.Commit? {
      match Committable(p, d, a.name)
      case Some(e) => ReplayAppend(p, d.log, e);
      case None =>
    }
  }

  /** Over every run the log stays replayable and only grows at its end. */
  lemma {:induction false} RunKeepsLog(p: Primitives, d: Disk, actions: seq<Action>)
    requires Accepted(p, d.log)
    ensures Accepted(p, Run(p, d, actions).log)
    ensures d.log <= Run(p, d, actions).log
  {
    hide Act, Accepted, Accepts, Final, NextMembers;
    if actions != [] {
      var init := actions[..|actions| - 1];
      RunKeepsLog(p, d, init);
      StepKeepsLog(p, Run(p, d, init), actions[|actions| - 1]);
    }
  }

  lemma ReachesKeepsLog(p: Primitives, d: Disk, d': Disk)
    requires Accepted(p, d.log) && Reaches(p, d, d')
    ensures Accepted(p, d'.log) && d.log <= d'.log
  {
    hide Accepted, Run;
    var actions :| Run(p, d, actions) == d';
    RunKeepsLog(p, d, actions);
  }

  // ---- stale proposals ----

  /** Once an entry has been committed, no later step of any run commits a proposal with the same
      or a lower sequence number: not a competing one, and not the committed one itself left behind
      by a crash between append and removal. */
  lemma CommittedOnce(p: Primitives, d: Disk, name: Text, keep: bool, d': Disk, other: Text)
    requires Committable(p, d, name).Some?
    requires Reaches(p, Committed(p, d, name, keep), d') && |d'.log| < TWO64
    requires other in d'.pending && Loaded(p, d'.pending[other]).Some?
    requires Loaded(p, d'.pending[other]).value.seqNo <= Committable(p, d, name).value.seqNo
    ensures Committable(p, d', other) == None
    ensures Committed(p, d', other, keep) == d'
  {
    hide Accepts, Loaded, Final, Accepted, Reaches, Next;
    var e := Committable(p, d, name).value;
    ReplayAppend(p, d.log, e);
    ReachesKeepsLog(p, Committed(p, d, name, keep), d');
    PrefixSeq(p, d.log, e, d'.log);
    var f := Loaded(p, d'.pending[other]).value;
    assert d'.log == d'.log + [];
    StaleStaysDead(p, d'.log, [], f);
  }

  /** Commit takes its own directory away unless it is told to keep it, leaves every other one alone,
      and where it appends nothing changes nothing. */
  lemma CommitLeaves(p: Primitives, d: Disk, name: Text, keep: bool)
    ensures var after := Committed(p, d, name, keep);
            && (Committable(p, d, name) == None ==> after == d)
            && (Committable(p, d, name).Some? ==>
                  && Accepted(p, d.log) && name in d.pending
                  && Loaded(p, d.pending[name]).Some? && after.log == d.log + [Loaded(p, d.pending[name]).value]
                  && (name in after.pending <==> keep)
                  && (keep ==> after.pending[name] == d.pending[name])
                  && (forall other :: other != name ==>
                        (other in after.pending <==> other in d.pending)
                        && (other in d.pending ==> after.pending[other] == d.pending[other])))
  {
    hide Accepted, Accepts, Loaded, Final;
  }

  /** A crash between append and removal, or commit told to keep the directory: the directory is
      still there with its contents, and as long as it has them it is never committed again. */
  lemma LeftOverIsDead(p: Primitives, d: Disk, name: Text, d': Disk)
    requires Committable(p, d, name).Some?
    requires Reaches(p, Committed(p, d, name, true), d') && |d'.log| < TWO64
    ensures var after := Committed(p, d, name, true);
            && |after.log| == |d.log| + 1
            && name in d.pending && name in after.pending && after.pending[name] == d.pending[name]
    ensures name in d.pending && name in d'.pending && d'.pending[name] == d.pending[name] ==>
              Committable(p, d', name) == None
  {
    hide Accepted, Accepts, Loaded, Final, Reaches;
    CommitLeaves(p, d, name, true);
    if name in d'.pending && d'.pending[name] == d.pending[name] {
      CommittedOnce(p, d, name, true, d', name);
    }
  }

  lemma PrefixSeq(p: Primitives, log: seq<Entry>, e: Entry, longer: seq<Entry>)
    requires Accepted(p, longer) && log + [e] <= longer && |longer| < TWO64
    ensures e.seqNo < |longer|
  {
    SeqIsIndex(p, longer, |log|);
    assert longer[|log|] == e;
  }

  /** In every reachable log entry i has sequence number i, so at most one of any competing
      proposals is ever committed, and a GENESIS only as the first entry. */
  lemma OneEntryPerSeq(p: Primitives, d: Disk, d': Disk, i: nat, j: nat)
    requires Accepted(p, d.log) && Reaches(p, d, d') && |d'.log| < TWO64
    requires i < |d'.log| && j < |d'.log|
    ensures d'.log[i].seqNo == d'.log[j].seqNo <==> i == j
    ensures d'.log[i].op.Genesis? ==> i == 0
  {
    hide Accepted, Reaches;
    ReachesKeepsLog(p, d, d');
    SeqIsIndex(p, d'.log, i);
    SeqIsIndex(p, d'.log, j);
  }
}
