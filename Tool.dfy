/** The order in which `main` (tools/cleanup_kdbx.py:176-218) runs the parts of
    the tool once its arguments are parsed and the database is open: read the
    allow-list, run the deletion pass over the requested groups, and save the
    database unless in dry-run. */
module Tool {
  import opened Wrappers
  import opened Errors
  import opened Store
  import opened GroupPath
  import opened AllowList
  import opened Cleanup

  /** How a run of `main` ends.
      `Rejected`: reading the allow-list failed; `main` returns 1 before the
      database is touched.
      `Aborted`: a group path failed; the error escapes `main`, which does not
      catch it, so the save is never reached.
      `Finished`: the reported titles, and the tree handed to `kp.save`, if
      any. */
  datatype Outcome =
    | Rejected(error: CleanupError)
    | Aborted(error: CleanupError)
    | Finished(titles: seq<string>, saved: Option<Group>)

  /** The outcome of `main` on a database holding tree `t`. */
  function MainOutcome(t: Group, headers: seq<string>, rows: seq<map<string, string>>, column: Option<string>,
                       groups: seq<string>, dryRun: bool): (o: Outcome)
    ensures o.Rejected? <==> AllowedEmails(headers, rows, column).Failure?
    ensures headers == [] ==> o == Rejected(NoHeaders)
    ensures rows == [] ==> o.Rejected?
    ensures o.Aborted? ==> o.error == EmptyGroupPath || o.error.GroupNotFound?
    ensures o.Finished? ==> (o.saved.Some? <==> !dryRun)
    ensures AllowedEmails(headers, rows, column).Success? ==>
              var run := RunPaths(t, groups, AllowedEmails(headers, rows, column).value, dryRun);
              && (run.result.Failure? ==> o == Aborted(run.result.error))
              && (run.result.Success? ==> o == Finished(Titles(run.result.value), if dryRun then None else Some(run.tree)))
  {
    match AllowedEmails(headers, rows, column)
    case Failure(e) => Rejected(e)
    case Success(allowed) =>
      var run := RunPaths(t, groups, allowed, dryRun);
      match run.result
      case Failure(e) =>
        PassErrors(t, groups, allowed, dryRun);
        Aborted(e)
      case Success(reported) =>
        Finished(Titles(reported), if dryRun then None else Some(run.tree))
  }

  /** `main` from reading the allow-list to saving. Saving is represented by
      the tree it writes. */
  method RunMain(db: Database, headers: seq<string>, rows: seq<map<string, string>>, column: Option<string>,
                 groups: seq<string>, dryRun: bool) returns (o: Outcome)
    modifies db
    ensures o == MainOutcome(old(db.root), headers, rows, column, groups, dryRun)
    ensures o.Rejected? ==> db.root == old(db.root)
    ensures !o.Rejected? ==>
              db.root == RunPaths(old(db.root), groups, AllowedEmails(headers, rows, column).value, dryRun).tree
  {
    var allowed := ReadAllowedEmails(headers, rows, column);
    if allowed.Failure? {
      return Rejected(allowed.error);
    }
    var deleted := DeleteObsoleteEntries(db, groups, allowed.value, dryRun);
    if deleted.Failure? {
      return Aborted(deleted.error);
    }
    var saved: Option<Group> := None;
    if !dryRun {
      saved := Some(db.root);
    }
    return Finished(deleted.value, saved);
  }

  /** What is saved is the tree the pass left: every entry left under each
      requested group is kept, and the saved tree is the original one without
      the reported entries. */
  lemma MainSavesOnlyAllowed(t: Group, headers: seq<string>, rows: seq<map<string, string>>, column: Option<string>,
                             groups: seq<string>)
    requires MainOutcome(t, headers, rows, column, groups, false).Finished?
    ensures var allowed := AllowedEmails(headers, rows, column).value;
            var saved := MainOutcome(t, headers, rows, column, groups, false).saved.value;
            && (forall k :: 0 <= k < |groups| ==> AllKept(saved, groups[k], allowed))
            && saved == Prune(t, UuidsOf(RunPaths(t, groups, allowed, false).result.value))
  {
    var allowed := AllowedEmails(headers, rows, column).value;
    ApplyLeavesOnlyAllowed(t, groups, allowed);
    ApplyRemovesReported(t, groups, allowed);
  }

  /** Outside dry-run the database is saved even when nothing was deleted,
      and what is saved is then the tree as it was opened. */
  lemma MainSavesWhenNothingDeleted(t: Group, headers: seq<string>, rows: seq<map<string, string>>,
                                    column: Option<string>, groups: seq<string>)
    requires MainOutcome(t, headers, rows, column, groups, false).Finished?
    requires MainOutcome(t, headers, rows, column, groups, false).titles == []
    ensures MainOutcome(t, headers, rows, column, groups, false).saved == Some(t)
  {
    var allowed := AllowedEmails(headers, rows, column).value;
    var run := RunPaths(t, groups, allowed, false);
    ApplyRemovesReported(t, groups, allowed);
    assert run.result.value == [];
    assert UuidsOf(run.result.value) == {};
    PruneNothing(t);
  }

  /** In dry-run nothing is saved, the tree is left as it was, and the reported
      titles are those of the entries under the requested groups that are not
      kept. */
  lemma MainDryRunChangesNothing(t: Group, headers: seq<string>, rows: seq<map<string, string>>,
                                 column: Option<string>, groups: seq<string>)
    requires MainOutcome(t, headers, rows, column, groups, true).Finished?
    ensures MainOutcome(t, headers, rows, column, groups, true).saved.None?
    ensures var allowed := AllowedEmails(headers, rows, column).value;
            var reported := RunPaths(t, groups, allowed, true).result.value;
            && RunPaths(t, groups, allowed, true).tree == t
            && MainOutcome(t, headers, rows, column, groups, true).titles == Titles(reported)
            && forall e :: e in reported <==>
                 !Keep(e, allowed) && exists k :: 0 <= k < |groups| && UnderPath(t, groups[k], e)
  {
    var allowed := AllowedEmails(headers, rows, column).value;
    DryRunLeavesTreeUnchanged(t, groups, allowed);
    forall e ensures e in RunPaths(t, groups, allowed, true).result.value <==>
                     !Keep(e, allowed) && exists k :: 0 <= k < |groups| && UnderPath(t, groups[k], e) {
      DryRunReportsExactly(t, groups, allowed, e);
    }
  }
}
