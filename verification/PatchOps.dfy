/** `Apply`, `Rollback` and `Verify` as they run on the disk, with the approval broker as their gate. */
module PatchOps {
  import opened Text
  import opened Paths
  import opened FileTree
  import opened PatchApply
  import opened PatchTheorems
  import opened PatchOutcome
  import Approval
  import BatchScopes

  datatype Journal = Journal(targetDir: Option<Path>, entries: seq<Entry>)

  datatype ApplyResult = Applied(journal: Journal) | Refused(why: Rejection) | Failed(at: nat, errs: seq<Errno>)

  datatype Credentials = Credentials(action: string, token: string, now: int)

  method VerifyNoSymlinkEscape(disk: Disk, target: Path, full: Path) returns (err: Option<PathError>)
    ensures err == Anchored(disk.State(), target, full)
  {
    var dir := full;
    while true
      invariant Anchored(disk.State(), target, dir) == Anchored(disk.State(), target, full)
      decreases |dir|
    {
      match Stat(disk.State(), dir) {
        case BelowFile => return Some(NotResolvable);
        case Absent =>
          if Dir(dir) == dir {
            return None;
          }
          dir := Dir(dir);
        case _ =>
          return if IsWithin(target, dir) then None else Some(Traversal);
      }
    }
  }

  method ResolvedPath(disk: Disk, target: Path, rel: string) returns (r: Resolved)
    ensures r == Resolve(disk.State(), target, rel)
  {
    r := ResolveLexical(target, rel);
    if r.Ok? {
      var err := VerifyNoSymlinkEscape(disk, target, r.full);
      if err.Some? {
        r := Bad(err.value);
      }
    }
  }

  lemma {:induction false} RejectedEarly(t: Tree, target: Path, changes: seq<Change>, i: nat)
    requires i <= |changes| && ValidatePaths(t, target, changes[..i]).Rejected?
    ensures ValidatePaths(t, target, changes) == ValidatePaths(t, target, changes[..i])
    decreases |changes|
  {
    if i < |changes| {
      assert changes[..|changes| - 1][..i] == changes[..i];
      RejectedEarly(t, target, changes[..|changes| - 1], i);
    } else {
      assert changes[..i] == changes;
    }
  }

  method ValidateChangePaths(disk: Disk, target: Path, changes: seq<Change>) returns (r: Checked<seq<Path>>)
    ensures r == ValidatePaths(disk.State(), target, changes)
  {
    hide Resolve;
    var fulls: seq<Path> := [];
    for i := 0 to |changes|
      invariant ValidatePaths(disk.State(), target, changes[..i]) == Accepted(fulls)
    {
      assert changes[..i + 1][..i] == changes[..i];
      var full := ResolvedPath(disk, target, changes[i].path);
      if full.Bad? {
        RejectedEarly(disk.State(), target, changes, i + 1);
        return Rejected(BadPath(i));
      }
      if full.full in fulls {
        RejectedEarly(disk.State(), target, changes, i + 1);
        return Rejected(DuplicateTarget(i));
      }
      fulls := fulls + [full.full];
    }
    assert changes[..|changes|] == changes;
    r := Accepted(fulls);
  }

  lemma {:induction false} CaptureRejectedEarly(t: Tree, changes: seq<Change>, fulls: seq<Path>, i: nat)
    requires |changes| == |fulls| && i <= |changes| && Capture(t, changes[..i], fulls[..i]).Rejected?
    ensures Capture(t, changes, fulls) == Capture(t, changes[..i], fulls[..i])
    decreases |changes|
  {
    if i < |changes| {
      var n := |changes| - 1;
      assert changes[..n][..i] == changes[..i] && fulls[..n][..i] == fulls[..i];
      CaptureRejectedEarly(t, changes[..n], fulls[..n], i);
    } else {
      assert changes[..i] == changes && fulls[..i] == fulls;
    }
  }

  method CaptureCurrentState(disk: Disk, changes: seq<Change>, fulls: seq<Path>) returns (r: Checked<seq<Entry>>)
    requires |changes| == |fulls|
    ensures r == Capture(disk.State(), changes, fulls)
  {
    hide CaptureOne;
    var entries: seq<Entry> := [];
    for i := 0 to |changes|
      invariant Capture(disk.State(), changes[..i], fulls[..i]) == Accepted(entries)
    {
      assert changes[..i + 1][..i] == changes[..i] && fulls[..i + 1][..i] == fulls[..i];
      var one := CaptureOne(disk.State(), changes[i], fulls[i], i);
      if one.Rejected? {
        CaptureRejectedEarly(disk.State(), changes, fulls, i + 1);
        return Rejected(one.why);
      }
      entries := entries + [one.value];
    }
    assert changes[..|changes|] == changes && fulls[..|changes|] == fulls;
    r := Accepted(entries);
  }

  // ----- Approval gate -----

  function ScopeCall(token: string, scope: Approval.Scope): Approval.Call {
    if token != "" then Approval.CheckToken(token, scope) else Approval.Check(scope)
  }

  method CheckBrokerScope(broker: Approval.Broker, cred: Credentials, scope: Approval.Scope) returns (pass: bool)
    requires broker.Valid()
    modifies broker
    ensures broker.Valid()
    ensures (broker.grants, if pass then Approval.Pass else Approval.ApprovalRequired) ==
            Approval.ImplStep(broker.hash, old(broker.grants), cred.now,
              if cred.token == "" then Approval.Check(scope) else Approval.CheckToken(cred.token, scope))
  {
    var answer;
    if cred.token != "" {
      answer := broker.CheckWithToken(cred.token, scope, cred.now);
    } else {
      answer := broker.CheckScope(scope, cred.now);
    }
    pass := answer.Pass?;
  }

  /** What the broker answers when it is asked to approve the paths, and the grants it then has left. */
  ghost function Asked(hash: string -> nat, grants: Approval.Grants, cred: Credentials, digest: string -> string,
                       paths: seq<string>): (Approval.Grants, Approval.Answer)
  {
    Approval.ImplStep(hash, grants, cred.now, ScopeCall(cred.token, BatchScopes.BatchScope(digest, cred.action, paths)))
  }

  function ChangePaths(changes: seq<Change>): (ps: seq<string>)
    ensures |ps| == |changes| && forall i | 0 <= i < |ps| :: ps[i] == changes[i].path
  {
    if changes == [] then [] else ChangePaths(changes[..|changes| - 1]) + [changes[|changes| - 1].path]
  }

  predicate HasDelete(changes: seq<Change>) {
    exists c | c in changes :: c.delete
  }

  /** `checkApproval`: a delete needs a broker, and a configured broker must pass exactly this batch's scope. */
  method CheckApproval(changes: seq<Change>, broker: Approval.Broker?, cred: Credentials, digest: string -> string)
    returns (ok: bool)
    requires broker != null ==> broker.Valid()
    modifies broker
    ensures broker != null ==> broker.Valid()
    ensures broker == null ==> ok == !HasDelete(changes)
    ensures broker != null ==>
              (broker.grants, if ok then Approval.Pass else Approval.ApprovalRequired) ==
              Asked(broker.hash, old(broker.grants), cred, digest, ChangePaths(changes))
  {
    var hasDelete := false;
    var paths: seq<string> := [];
    for i := 0 to |changes|
      invariant paths == ChangePaths(changes[..i])
      invariant hasDelete <==> HasDelete(changes[..i])
    {
      assert changes[..i + 1] == changes[..i] + [changes[i]];
      paths := paths + [changes[i].path];
      if changes[i].delete {
        hasDelete := true;
      }
    }
    assert changes[..|changes|] == changes;
    if broker == null {
      return !hasDelete;
    }
    ok := CheckBrokerScope(broker, cred, BatchScopes.BatchScope(digest, cred.action, paths));
  }

  // ----- Undo -----

  method RestoreEntry(disk: Disk, target: Path, full: Path, e: Entry) returns (err: Option<Errno>)
    requires WellFormed(disk.State())
    modifies disk
    ensures Outcome(disk.State(), err) == RestoreAt(old(disk.State()), target, full, e)
  {
    hide RemoveAt, RemoveCreatedAt, EnsureDirAt, WriteAt;
    if !e.existedBefore {
      err := disk.Remove(full);
      if err.Some? && err.value != NotExist {
        return;
      }
      if e.createdDir.None? {
        return None;
      }
      err := disk.RemoveCreatedDir(target, Dir(full), e.createdDir.value);
      return;
    }
    if e.originalContent.None? {
      return Some(NotRestorable);
    }
    var created;
    created, err := disk.EnsureDir(Dir(full), false);
    if err.Some? {
      return;
    }
    err := disk.WriteViaRename(full, e.originalContent.value, ModeOrDefault(e.originalMode));
  }

  /** One iteration of `rollbackEntries`. */
  method UndoEntry(disk: Disk, target: Path, e: Entry) returns (err: Option<Errno>)
    requires WellFormed(disk.State())
    modifies disk
    ensures WellFormed(disk.State())
    ensures Outcome(disk.State(), err) == UndoOne(old(disk.State()), target, e)
  {
    hide Resolve, RestoreAt, WellFormed;
    UndoFrame(disk.State(), target, e);
    var full := ResolvedPath(disk, target, e.path);
    if full.Bad? {
      return Some(Unresolved);
    }
    err := RestoreEntry(disk, target, full.full, e);
  }

  lemma RollbackNothing(t: Tree, target: Path)
    ensures RollbackAt(t, target, []) == Rolled(t, [])
  {
  }

  lemma RollbackUnfold(t: Tree, target: Path, entries: seq<Entry>, i: nat, o: Outcome)
    requires i < |entries| && o == UndoOne(t, target, entries[i])
    ensures var rest := RollbackAt(o.tree, target, entries[..i]);
            RollbackAt(t, target, entries[..i + 1]) == Rolled(rest.tree, ErrList(o.err) + rest.errs)
  {
    hide UndoOne;
    assert entries[..i + 1][..i] == entries[..i];
  }

  /** Undoes the entries last to first and keeps going past errors. */
  method RollbackEntries(disk: Disk, target: Path, entries: seq<Entry>) returns (errs: seq<Errno>)
    requires WellFormed(disk.State())
    modifies disk
    ensures WellFormed(disk.State())
    ensures Rolled(disk.State(), errs) == RollbackAt(old(disk.State()), target, entries)
  {
    hide UndoOne, WellFormed, RollbackAt;
    errs := [];
    var i := |entries|;
    assert entries[..i] == entries;
    while i > 0
      invariant 0 <= i <= |entries| && WellFormed(disk.State())
      invariant var rest := RollbackAt(disk.State(), target, entries[..i]);
                RollbackAt(old(disk.State()), target, entries) == Rolled(rest.tree, errs + rest.errs)
    {
      i := i - 1;
      ghost var t := disk.State();
      var err := UndoEntry(disk, target, entries[i]);
      RollbackUnfold(t, target, entries, i, Outcome(disk.State(), err));
      ghost var rest := RollbackAt(disk.State(), target, entries[..i]);
      assert errs + (ErrList(err) + rest.errs) == (errs + ErrList(err)) + rest.errs;
      errs := errs + ErrList(err);
    }
    assert entries[..0] == [];
    RollbackNothing(disk.State(), target);
  }

  // ----- Apply -----

  /** One iteration of `applyAll`'s loop: the delete or the write, with whatever fault strikes it. */
  method ApplyOne(disk: Disk, full: Path, c: Change, e: Entry, fault: Fault) returns (s: Step)
    requires WellFormed(disk.State())
    modifies disk
    ensures s == Forward(old(disk.State()), full, c, e, fault) && disk.State() == s.tree
  {
    hide RemoveAt, EnsureDirAt, WriteAt;
    if c.delete {
      if !e.existedBefore {
        return Step(disk.State(), e.(outcome := Noop), true, false);
      }
      if fault == RemoveFault {
        return Step(disk.State(), e, false, false);
      }
      var err := disk.Remove(full);
      if err.Some? {
        return Step(disk.State(), e, false, false);
      }
      return Step(disk.State(), e.(outcome := Deleted), true, false);
    }
    var mode := if e.existedBefore then ModeOrDefault(e.originalMode) else DEFAULT_NEW_FILE_MODE;
    var created, err := disk.EnsureDir(Dir(full), fault == MkdirFault);
    if err.Some? {
      return Step(disk.State(), e, false, true);
    }
    if fault == WriteFault {
      return Step(disk.State(), e.(createdDir := created), false, true);
    }
    err := disk.WriteViaRename(full, c.newContent, mode);
    if err.Some? {
      return Step(disk.State(), e.(createdDir := created), false, true);
    }
    return Step(disk.State(), e.(outcome := Written, createdDir := created), true, true);
  }

  method ApplyAll(disk: Disk, target: Path, changes: seq<Change>, fulls: seq<Path>, entries: seq<Entry>, faults: seq<Fault>)
    returns (r: ApplyResult, ghost b: Batch)
    requires Batch(disk.State(), target, changes, fulls, entries, faults).Ready()
    modifies disk
    ensures b == Batch(old(disk.State()), target, changes, fulls, entries, faults) && b.Sized()
    ensures disk.State() == ApplyAllAt(b).tree
    ensures r.Applied? <==> FirstFailure(b, 0) == |changes|
    ensures r.Applied? ==> r.journal == Journal(Some(target), b.Applied(|changes|))
    ensures !r.Applied? ==> r == Failed(FirstFailure(b, 0), ApplyAllAt(b).errs)
  {
    b := Batch(disk.State(), target, changes, fulls, entries, faults);
    r := ApplySized(disk, target, changes, fulls, entries, faults, b);
  }

  method ApplySized(disk: Disk, target: Path, changes: seq<Change>, fulls: seq<Path>, entries: seq<Entry>, faults: seq<Fault>, ghost b: Batch)
    returns (r: ApplyResult)
    requires b == Batch(disk.State(), target, changes, fulls, entries, faults) && b.Sized() && b.Ready()
    modifies disk
    ensures disk.State() == ApplyAllAt(b).tree
    ensures r.Applied? <==> FirstFailure(b, 0) == |changes|
    ensures r.Applied? ==> r.journal == Journal(Some(target), b.Applied(|changes|))
    ensures !r.Applied? ==> r == Failed(FirstFailure(b, 0), ApplyAllAt(b).errs)
  {
    hide Batch.Ready, Forward, RollbackAt, Between;
    var applied: seq<Entry> := [];
    for i := 0 to |changes|
      invariant disk.State() == b.At(i) && applied == b.Applied(i)
      invariant FirstFailure(b, 0) == FirstFailure(b, i)
      invariant b.Succeeds(i)
    {
      WellFormedAt(b, i);
      var fault := if i < |faults| then faults[i] else NoFault;
      var s := ApplyOne(disk, fulls[i], changes[i], entries[i], fault);
      assert s == b.StepAt(i);
      if !s.ok {
        FailedStepWellFormed(b, i);
        var undo := if s.undoSelf then applied + [s.entry] else applied;
        assert undo == UndoList(b, i);
        var errs := RollbackEntries(disk, target, undo);
        return Failed(i, errs);
      }
      applied := applied + [s.entry];
    }
    r := Applied(Journal(Some(target), applied));
  }

  lemma WellFormedAt(b: Batch, k: nat)
    requires b.Sized() && b.Ready() && k <= |b.changes| && b.Succeeds(k)
    ensures WellFormed(b.At(k))
  {
    hide Batch.Ready, Batch.StepAt;
    BetweenHolds(b, k);
  }

  lemma FailedStepWellFormed(b: Batch, k: nat)
    requires b.Sized() && b.Ready() && k < |b.changes| && b.Succeeds(k) && !b.StepAt(k).ok
    ensures WellFormed(b.StepAt(k).tree)
  {
    hide Batch.Ready, EnsureDirAt;
    WellFormedAt(b, k);
    RemovePreserves(b.At(k), b.fulls[k]);
    EnsureDirEffect(b.At(k), Dir(b.fulls[k]), b.Fault(k) == MkdirFault);
  }

  /** No file of the batch that is on disk has mode zero: what a caller can check beforehand. */
  ghost predicate NoZeroModes(t: Tree, target: Path, changes: seq<Change>) {
    forall c | c in changes ::
      var r := ResolveLexical(target, c.path);
      r.Ok? && r.full in t.files ==> t.files[r.full].mode != 0
  }

  /**
   * `Apply`. It refuses a batch for the first check that fails, and then nothing has changed. Otherwise it
   * stops at the first change that is blocked and leaves the tree as it found it (given nonzero modes), or,
   * when none is blocked, leaves exactly the tree the changes ask for and a journal that records each one.
   */
  method Apply(disk: Disk, target: Path, changes: seq<Change>, broker: Approval.Broker?, cred: Credentials,
               digest: string -> string, faults: seq<Fault>)
    returns (r: ApplyResult, ghost b: Batch, ghost gate: bool)
    requires WellFormed(disk.State())
    requires broker != null ==> broker.Valid()
    modifies disk, broker
    ensures broker == null ==> gate == forall c | c in changes :: !c.delete
    ensures broker != null ==>
              gate == (Asked(broker.hash, old(broker.grants), cred, digest, ChangePaths(changes)).1 == Approval.Pass)
    ensures forall why :: r == Refused(why) <==> RefusedFor(old(disk.State()), target, changes, gate, why)
    ensures r.Refused? ==> disk.State() == old(disk.State())
    ensures broker != null ==>
              broker.grants ==
              if r.Refused? && (r.why.NotADirectory? || r.why.BadPath? || r.why.DuplicateTarget?) then old(broker.grants)
              else Asked(broker.hash, old(broker.grants), cred, digest, ChangePaths(changes)).0
    ensures !r.Refused? <==> Admitted(old(disk.State()), target, changes, gate)
    ensures !r.Refused? ==>
              && b == Batch(old(disk.State()), target, changes, b.fulls, b.entries, faults) && b.Sized() && b.Ready()
              && (forall i | 0 <= i < |changes| :: ResolveLexical(target, changes[i].path) == Ok(b.fulls[i]))
              && (r.Applied? <==> forall k | 0 <= k < |changes| :: !Blocked(b, k))
    ensures r.Applied? ==>
              && Patched(old(disk.State()), changes, b.fulls, disk.State())
              && r.journal.targetDir == Some(target) && r.journal.entries == b.Applied(|changes|)
              && (forall k | 0 <= k < |changes| :: Records(b, k, r.journal.entries[k]))
    ensures r.Failed? ==>
              && r.at < |changes| && Blocked(b, r.at) && (forall k | 0 <= k < r.at :: !Blocked(b, k))
              && disk.State() == ApplyAllAt(b).tree && r.errs == ApplyAllAt(b).errs
    ensures r.Failed? && NoZeroModes(old(disk.State()), target, changes) ==> disk.State() == old(disk.State())
  {
    hide ValidatePaths, Capture, Approval.ImplStep, ApplyAllAt, FirstFailure, WellFormed, ResolveLexical, Resolvable, Repeats;
    hide Readable, AsExpected, Blocked, Records, Patched, BatchScopes.BatchScope;
    b := Batch(disk.State(), target, [], [], [], []);
    gate := if broker == null then !HasDelete(changes)
            else Asked(broker.hash, broker.grants, cred, digest, ChangePaths(changes)).1 == Approval.Pass;
    ghost var t := disk.State();
    if target !in disk.dirs {
      Reason(t, target, changes, gate, NotADirectory);
      return Refused(NotADirectory), b, gate;
    }
    var fulls := ValidateChangePaths(disk, target, changes);
    assert changes[..|changes|] == changes;
    ValidateExact(t, target, changes, |changes|);
    if fulls.Rejected? {
      Reason(t, target, changes, gate, fulls.why);
      return Refused(fulls.why), b, gate;
    }
    var ok := CheckApproval(changes, broker, cred, digest);
    assert ok == gate;
    if !ok {
      Reason(t, target, changes, gate, ApprovalRequired);
      return Refused(ApprovalRequired), b, gate;
    }
    var entries := CaptureCurrentState(disk, changes, fulls.value);
    assert fulls.value == Fulls(target, changes);
    assert fulls.value[..|changes|] == fulls.value;
    CaptureExact(t, changes, fulls.value, |changes|);
    if entries.Rejected? {
      Reason(t, target, changes, gate, entries.why);
      return Refused(entries.why), b, gate;
    }
    CapturedEntries(t, changes, fulls.value);
    NoReason(t, target, changes, gate);
    r, b := ApplyAll(disk, target, changes, fulls.value, entries.value, faults);
    StopsAtFirstBlocked(b);
    if r.Failed? {
      if NoZeroModes(b.before, target, changes) {
        NoZeroModesSuffices(b);
      }
    } else {
      SuccessPatches(b);
      forall k | 0 <= k < |changes| ensures Records(b, k, r.journal.entries[k]) {
        JournalRecords(b, k);
      }
    }
  }

  /** The reason found is the only one. */
  lemma Reason(t: Tree, target: Path, changes: seq<Change>, gate: bool, why: Rejection)
    requires RefusedFor(t, target, changes, gate, why)
    ensures !Admitted(t, target, changes, gate)
    ensures forall other :: RefusedFor(t, target, changes, gate, other) <==> other == why
  {
    hide RefusedFor, Admitted;
    OneReason(t, target, changes, gate, why, why);
    forall other | RefusedFor(t, target, changes, gate, other) ensures other == why {
      OneReason(t, target, changes, gate, why, other);
    }
  }

  lemma NoReason(t: Tree, target: Path, changes: seq<Change>, gate: bool)
    requires Admitted(t, target, changes, gate)
    ensures forall why :: !RefusedFor(t, target, changes, gate, why)
  {
    hide RefusedFor, Admitted;
    forall why | RefusedFor(t, target, changes, gate, why) ensures false {
      OneReason(t, target, changes, gate, why, why);
    }
  }

  lemma NoZeroModesSuffices(b: Batch)
    requires b.Sized() && b.Ready() && FirstFailure(b, 0) < |b.changes|
    requires NoZeroModes(b.before, b.target, b.changes)
    ensures ApplyAllAt(b).tree == b.before
  {
    hide Batch.Ready, ApplyAllAt, ResolveLexical, Batch.StepAt;
    AllOrNothing(b);
    var n := Undone(b, FirstFailure(b, 0));
    forall p | p in b.Existing(n) ensures p in b.before.files && b.before.files[p].mode != 0 {
      var j :| 0 <= j < n && b.entries[j].existedBefore && p == b.fulls[j];
      BatchFacts(b, j);
      assert b.changes[j] in b.changes;
    }
  }

  // ----- Rollback and Verify -----

  function DeletePaths(entries: seq<Entry>): seq<string> {
    if entries == [] then [] else
      var e := entries[|entries| - 1];
      DeletePaths(entries[..|entries| - 1]) + if e.existedBefore then [] else [e.path]
  }

  /** The entries whose path a rollback deletes. */
  function Deleting(entries: seq<Entry>, p: string): set<nat> {
    set k: nat | k < |entries| && !entries[k].existedBefore && entries[k].path == p
  }

  lemma DeletingLast(entries: seq<Entry>, p: string)
    requires entries != []
    ensures var i := |entries| - 1;
            |Deleting(entries, p)| ==
            |Deleting(entries[..i], p)| + if !entries[i].existedBefore && entries[i].path == p then 1 else 0
  {
    var i := |entries| - 1;
    var before, after := Deleting(entries[..i], p), Deleting(entries, p);
    assert forall k: nat | k != i :: k in after <==> k in before;
    if i in after {
      assert after == before + {i};
    } else {
      assert after == before;
    }
  }

  /** Each path is listed once for every entry that did not exist before. */
  lemma {:induction false} DeletePathsExact(entries: seq<Entry>, p: string)
    ensures multiset(DeletePaths(entries))[p] == |Deleting(entries, p)|
  {
    hide Deleting;
    if entries == [] {
      assert |Deleting(entries, p)| == 0 by { DeletingNone(p); }
    } else {
      var i := |entries| - 1;
      DeletePathsExact(entries[..i], p);
      DeletingLast(entries, p);
      var tail := if entries[i].existedBefore then [] else [entries[i].path];
      assert DeletePaths(entries) == DeletePaths(entries[..i]) + tail;
    }
  }

  lemma DeletingNone(p: string)
    ensures Deleting([], p) == {}
  {
  }

  /** `checkRollbackApproval`: only the paths a rollback will delete need approval. */
  method CheckRollbackApproval(entries: seq<Entry>, broker: Approval.Broker?, cred: Credentials, digest: string -> string)
    returns (ok: bool)
    requires broker != null ==> broker.Valid()
    modifies broker
    ensures DeletePaths(entries) == [] ==> ok && (broker != null ==> broker.grants == old(broker.grants))
    ensures DeletePaths(entries) != [] && broker == null ==> !ok
    ensures DeletePaths(entries) != [] && broker != null ==>
              (broker.grants, if ok then Approval.Pass else Approval.ApprovalRequired) ==
              Asked(broker.hash, old(broker.grants), cred, digest, DeletePaths(entries))
  {
    hide Approval.ImplStep;
    var deletePaths: seq<string> := [];
    for i := 0 to |entries|
      invariant deletePaths == DeletePaths(entries[..i])
    {
      assert entries[..i + 1][..i] == entries[..i];
      if !entries[i].existedBefore {
        deletePaths := deletePaths + [entries[i].path];
      }
    }
    assert entries[..|entries|] == entries;
    if deletePaths == [] {
      return true;
    }
    if broker == null {
      return false;
    }
    ok := CheckBrokerScope(broker, cred, BatchScopes.BatchScope(digest, cred.action, deletePaths));
  }

  datatype RollbackResult = RolledBack(errs: seq<Errno>) | NoTarget | WrongTarget | PathRefused | GateRefused

  /** What `filepath.EvalSymlinks` needs of a path in a tree without symlinks. */
  predicate Exists(t: Tree, p: Path) {
    Stat(t, p) == FileNode || Stat(t, p) == DirNode
  }

  predicate WrongJournal(j: Journal, target: Path) {
    j.targetDir.Some? && j.targetDir.value != target
  }

  /** `Rollback`: nothing is touched unless the journal fits, every path resolves and the deletions are approved. */
  method Rollback(disk: Disk, target: Path, j: Journal, broker: Approval.Broker?, cred: Credentials, digest: string -> string)
    returns (r: RollbackResult)
    requires WellFormed(disk.State())
    requires broker != null ==> broker.Valid()
    modifies disk, broker
    ensures !r.RolledBack? ==> disk.State() == old(disk.State())
    ensures r.RolledBack? ==> RollbackCall(old(disk.State()), target, j.entries) == Some(Rolled(disk.State(), r.errs))
    ensures r.NoTarget? <==> !Exists(old(disk.State()), target)
    ensures r.WrongTarget? <==> Exists(old(disk.State()), target) && WrongJournal(j, target)
    ensures !r.NoTarget? && !r.WrongTarget? ==> (r.PathRefused? <==> RollbackCall(old(disk.State()), target, j.entries).None?)
    ensures r.RolledBack? && DeletePaths(j.entries) != [] ==>
              broker != null && Asked(broker.hash, old(broker.grants), cred, digest, DeletePaths(j.entries)).1 == Approval.Pass
    ensures r.GateRefused? ==>
              DeletePaths(j.entries) != [] && (broker != null ==>
                Asked(broker.hash, old(broker.grants), cred, digest, DeletePaths(j.entries)).1 == Approval.ApprovalRequired)
    ensures broker != null ==>
              broker.grants ==
              if (r.RolledBack? || r.GateRefused?) && DeletePaths(j.entries) != [] then
                Asked(broker.hash, old(broker.grants), cred, digest, DeletePaths(j.entries)).0
              else old(broker.grants)
  {
    hide Resolve, RollbackAt, Approval.ImplStep, WellFormed, Stat;
    if !Exists(disk.State(), target) {
      return NoTarget;
    }
    if WrongJournal(j, target) {
      return WrongTarget;
    }
    for i := 0 to |j.entries|
      invariant forall k | 0 <= k < i :: Resolve(disk.State(), target, j.entries[k].path).Ok?
      invariant disk.State() == old(disk.State()) && (broker != null ==> broker.Valid() && broker.grants == old(broker.grants))
    {
      var full := ResolvedPath(disk, target, j.entries[i].path);
      if full.Bad? {
        return PathRefused;
      }
    }
    var ok := CheckRollbackApproval(j.entries, broker, cred, digest);
    if !ok {
      return GateRefused;
    }
    var errs := RollbackEntries(disk, target, j.entries);
    r := RolledBack(errs);
  }

  datatype VerifyResult = Mismatches(at: seq<nat>) | NotVerified

  /** `Verify` names exactly the entries that do not match, in journal order. */
  method Verify(disk: Disk, target: Path, j: Journal) returns (r: VerifyResult)
    ensures r.NotVerified? <==> !Exists(disk.State(), target) || WrongJournal(j, target)
    ensures r.Mismatches? ==>
              && (forall k :: k in r.at <==> 0 <= k < |j.entries| && !VerifyOne(disk.State(), target, j.entries[k]))
              && (forall a, b | 0 <= a < b < |r.at| :: r.at[a] < r.at[b])
  {
    hide VerifyOne, Stat;
    if !Exists(disk.State(), target) || WrongJournal(j, target) {
      return NotVerified;
    }
    var at: seq<nat> := [];
    for i := 0 to |j.entries|
      invariant forall k :: k in at <==> 0 <= k < i && !VerifyOne(disk.State(), target, j.entries[k])
      invariant forall a | 0 <= a < |at| :: at[a] < i
      invariant forall a, b | 0 <= a < b < |at| :: at[a] < at[b]
    {
      if !VerifyOne(disk.State(), target, j.entries[i]) {
        at := at + [i];
      }
    }
    return Mismatches(at);
  }
}
