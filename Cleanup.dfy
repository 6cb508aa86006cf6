/** The decision and deletion pass `delete_obsolete_entries`
    (tools/cleanup_kdbx.py:123-145). */
module Cleanup {
  import opened Wrappers
  import opened Errors
  import opened Store
  import opened GroupPath
  import opened Identity
  import opened AllowList

  /** `entry.title or "<Untitled>"`: the title reported for an entry. */
  function TitleOf(e: Entry): (t: string)
    ensures t != ""
    ensures e.title.Some? && e.title.value != "" ==> t == e.title.value
    ensures e.title.None? || e.title.value == "" ==> t == "<Untitled>"
  {
    if e.title.None? || e.title.value == "" then "<Untitled>" else e.title.value
  }

  function Titles(es: seq<Entry>): (r: seq<string>)
    ensures |r| == |es| && forall i :: 0 <= i < |es| ==> r[i] == TitleOf(es[i])
  {
    seq(|es|, i requires 0 <= i < |es| => TitleOf(es[i]))
  }

  /** The keep decision: the entry's address is present and in the allow-list.
      An entry without an address is never kept. */
  predicate Keep(e: Entry, allowed: set<string>)
    ensures allowed == {} ==> !Keep(e, allowed)
    ensures e.username.None? && e.custom == map[] ==> !Keep(e, allowed)
  {
    ExtractEntryEmailPriority(e);
    var email := ExtractEntryEmail(e);
    email.Some? && email.value in allowed
  }

  /** The entries of `es` that are not kept, in their order. */
  function Obsolete(es: seq<Entry>, allowed: set<string>): (r: seq<Entry>)
    ensures |r| <= |es|
    ensures forall k :: 0 <= k < |r| ==> !Keep(r[k], allowed)
  {
    if es == [] then []
    else
      var init := es[..|es| - 1];
      var last := es[|es| - 1];
      assert es == init + [last];
      Obsolete(init, allowed) + (if Keep(last, allowed) then [] else [last])
  }

  /** An entry is reported exactly when it is in `es` and not kept. */
  lemma {:induction false} ObsoleteMembers(es: seq<Entry>, allowed: set<string>)
    ensures forall e :: e in Obsolete(es, allowed) <==> e in es && !Keep(e, allowed)
  {
    if es != [] {
      var init := es[..|es| - 1];
      assert es == init + [es[|es| - 1]];
      ObsoleteMembers(init, allowed);
    }
  }

  /** Deciding a list in two parts reports the first part's entries before
      the second part's: the report keeps the order of the entries. */
  lemma {:induction false} ObsoleteAppend(a: seq<Entry>, b: seq<Entry>, allowed: set<string>)
    ensures Obsolete(a + b, allowed) == Obsolete(a, allowed) + Obsolete(b, allowed)
    decreases |b|
  {
    if b == [] {
      assert a + b == a;
    } else {
      var init, last := b[..|b| - 1], b[|b| - 1];
      assert b == init + [last];
      assert a + b == (a + init) + [last];
      ObsoleteAppend(a, init, allowed);
      ObsoleteSnoc(a + init, last, allowed);
      ObsoleteSnoc(init, last, allowed);
    }
  }

  /** When every entry is kept, nothing is reported. */
  lemma ObsoleteAllKept(es: seq<Entry>, allowed: set<string>)
    requires forall e :: e in es ==> Keep(e, allowed)
    ensures Obsolete(es, allowed) == []
  {
    ObsoleteMembers(es, allowed);
    if Obsolete(es, allowed) != [] {
      assert Obsolete(es, allowed)[0] in Obsolete(es, allowed);
    }
  }

  /** When no entry is kept, every entry is reported, in order. */
  lemma {:induction false} ObsoleteNoneKept(es: seq<Entry>, allowed: set<string>)
    requires forall e :: e in es ==> !Keep(e, allowed)
    ensures Obsolete(es, allowed) == es
  {
    if es != [] {
      var init := es[..|es| - 1];
      assert es == init + [es[|es| - 1]];
      ObsoleteNoneKept(init, allowed);
    }
  }

  /** The state after a pass over some group paths: the tree, and either the
      entries reported for deletion or the error that ended the pass. */
  datatype Run = Run(tree: Group, result: Result<seq<Entry>, CleanupError>)

  /** A run preceded by entries already reported. An error discards them: the
      exception leaves `delete_obsolete_entries` without returning its list. */
  function After(done: seq<Entry>, run: Run): Run {
    Run(run.tree, match run.result
                  case Success(later) => Success(done + later)
                  case Failure(e) => Failure(e))
  }

  /** The effect of `delete_obsolete_entries(kp, paths, allowed, dry_run)` on a
      tree `t`: each path is resolved against the tree as the earlier paths
      left it; the subtree's entries are collected once, every entry that is
      not kept is reported and, unless in dry-run, deleted. */
  function RunPaths(t: Group, paths: seq<string>, allowed: set<string>, dryRun: bool): (r: Run)
    ensures r.result.Failure? ==> r.result.error == EmptyGroupPath || r.result.error.GroupNotFound?
    decreases |paths|
  {
    if paths == [] then Run(t, Success([]))
    else match Resolve(t, paths[0])
      case Failure(e) => Run(t, Failure(e))
      case Success(g) =>
        var doomed := Obsolete(CollectEntries(g), allowed);
        var next := if dryRun then t else Prune(t, UuidsOf(doomed));
        After(doomed, RunPaths(next, paths[1..], allowed, dryRun))
  }

  function TitlesResult(r: Result<seq<Entry>, CleanupError>): Result<seq<string>, CleanupError> {
    match r
    case Success(es) => Success(Titles(es))
    case Failure(e) => Failure(e)
  }

  lemma AfterAfter(a: seq<Entry>, b: seq<Entry>, run: Run)
    ensures After(a, After(b, run)) == After(a + b, run)
  {
    if run.result.Success? {
      assert a + (b + run.result.value) == (a + b) + run.result.value;
    }
  }

  lemma {:induction false} UuidsOfAppend(a: seq<Entry>, b: seq<Entry>)
    ensures UuidsOf(a + b) == UuidsOf(a) + UuidsOf(b)
  {
    forall u | u in UuidsOf(a + b) ensures u in UuidsOf(a) + UuidsOf(b) {
      var e := WithUuid(a + b, u);
    }
    forall u | u in UuidsOf(a) ensures u in UuidsOf(a + b) {
      var e := WithUuid(a, u);
    }
    forall u | u in UuidsOf(b) ensures u in UuidsOf(a + b) {
      var e := WithUuid(b, u);
    }
  }

  lemma ObsoleteSnoc(es: seq<Entry>, e: Entry, allowed: set<string>)
    ensures Obsolete(es + [e], allowed) == Obsolete(es, allowed) + (if Keep(e, allowed) then [] else [e])
  {
    assert (es + [e])[..|es|] == es;
  }

  /** One more entry of `es` decided. */
  lemma ObsoleteStep(es: seq<Entry>, j: nat, allowed: set<string>)
    requires j < |es|
    ensures Obsolete(es[..j + 1], allowed) == Obsolete(es[..j], allowed) + (if Keep(es[j], allowed) then [] else [es[j]])
  {
    assert es[..j + 1] == es[..j] + [es[j]];
    ObsoleteSnoc(es[..j], es[j], allowed);
  }

  /** Deleting one more entry after a list of them. */
  lemma PruneSnoc(t: Group, es: seq<Entry>, e: Entry)
    ensures Prune(Prune(t, UuidsOf(es)), {e.uuid}) == Prune(t, UuidsOf(es + [e]))
  {
    PrunePrune(t, UuidsOf(es), {e.uuid});
    UuidsOfAppend(es, [e]);
    assert [e][1..] == [];
    assert UuidsOf([e]) == {e.uuid};
  }

  lemma TitlesSnoc(es: seq<Entry>, e: Entry)
    ensures Titles(es + [e]) == Titles(es) + [TitleOf(e)]
  {
  }

  lemma TitlesAppend(a: seq<Entry>, b: seq<Entry>)
    ensures Titles(a + b) == Titles(a) + Titles(b)
  {
  }

  lemma AfterNothing(run: Run)
    ensures After([], run) == run
  {
    if run.result.Success? {
      assert [] + run.result.value == run.result.value;
    }
  }

  /** The inner loop of `delete_obsolete_entries` over the entries collected
      for one group path: each entry that is not kept is reported by title and,
      unless in dry-run, deleted at once. */
  method DeleteEach(db: Database, entries: seq<Entry>, allowed: set<string>, dryRun: bool)
    returns (titles: seq<string>, ghost doomed: seq<Entry>)
    modifies db
    ensures doomed == Obsolete(entries, allowed) && titles == Titles(doomed)
    ensures db.root == if dryRun then old(db.root) else Prune(old(db.root), UuidsOf(doomed))
  {
    titles, doomed := [], [];
    PruneNothing(db.root);
    for j := 0 to |entries|
      invariant doomed == Obsolete(entries[..j], allowed)
      invariant titles == Titles(doomed)
      invariant db.root == if dryRun then old(db.root) else Prune(old(db.root), UuidsOf(doomed))
    {
      var entry := entries[j];
      ObsoleteStep(entries, j, allowed);
      var entryEmail := ExtractEntryEmail(entry);
      if !(entryEmail.Some? && entryEmail.value in allowed) {
        titles := titles + [TitleOf(entry)];
        if !dryRun {
          db.DeleteEntry(entry);
          PruneSnoc(old(db.root), doomed, entry);
        }
        TitlesSnoc(doomed, entry);
        doomed := doomed + [entry];
      }
    }
    assert entries[..|entries|] == entries;
  }

  /** `delete_obsolete_entries(kp, groups, allowed_emails, dry_run)`. */
  method DeleteObsoleteEntries(db: Database, groups: seq<string>, allowed: set<string>, dryRun: bool)
    returns (r: Result<seq<string>, CleanupError>)
    modifies db
    ensures var run := RunPaths(old(db.root), groups, allowed, dryRun);
            db.root == run.tree && r == TitlesResult(run.result)
  {
    var deletedEntries: seq<string> := [];
    ghost var done: seq<Entry> := [];
    assert groups[0..] == groups;
    AfterNothing(RunPaths(db.root, groups, allowed, dryRun));
    for i := 0 to |groups|
      invariant deletedEntries == Titles(done)
      invariant RunPaths(old(db.root), groups, allowed, dryRun) == After(done, RunPaths(db.root, groups[i..], allowed, dryRun))
    {
      var group := ResolveGroup(db, groups[i]);
      assert groups[i..][0] == groups[i] && groups[i..][1..] == groups[i + 1..];
      if group.Failure? {
        assert RunPaths(db.root, groups[i..], allowed, dryRun) == Run(db.root, Failure(group.error));
        return Failure(group.error);
      }
      ghost var before := db.root;
      var entries := CollectEntries(group.value);
      var titles, doomed := DeleteEach(db, entries, allowed, dryRun);
      deletedEntries := deletedEntries + titles;
      assert RunPaths(before, groups[i..], allowed, dryRun) == After(doomed, RunPaths(db.root, groups[i + 1..], allowed, dryRun));
      AfterAfter(done, doomed, RunPaths(db.root, groups[i + 1..], allowed, dryRun));
      TitlesAppend(done, doomed);
      done := done + doomed;
    }
    assert groups[|groups|..] == [];
    assert done + [] == done;
    return Success(deletedEntries);
  }

  // ---------------------------------------------------------------------------
  // Properties of the pass

  /** The entries collected under `path` in tree `t`. */
  predicate UnderPath(t: Group, path: string, e: Entry) {
    Resolve(t, path).Success? && e in CollectEntries(Resolve(t, path).value)
  }

  /** Every entry under `path` is kept. */
  predicate AllKept(t: Group, path: string, allowed: set<string>) {
    Resolve(t, path).Success? && forall e :: e in CollectEntries(Resolve(t, path).value) ==> Keep(e, allowed)
  }

  lemma UnderPathPrune(t: Group, path: string, gone: set<nat>, e: Entry)
    ensures UnderPath(Prune(t, gone), path, e) <==> UnderPath(t, path, e) && e.uuid !in gone
  {
    ResolvePrune(t, path, gone);
    if Resolve(t, path).Success? {
      CollectPrune(Resolve(t, path).value, gone);
    }
  }

  /** Dry-run leaves the tree as it was. */
  lemma {:induction false} DryRunLeavesTreeUnchanged(t: Group, paths: seq<string>, allowed: set<string>)
    ensures RunPaths(t, paths, allowed, true).tree == t
    decreases |paths|
  {
    if paths != [] && Resolve(t, paths[0]).Success? {
      DryRunLeavesTreeUnchanged(t, paths[1..], allowed);
    }
  }

  /** No entry that is kept is ever reported, in either mode, and every
      reported entry was under one of the requested paths in the tree the pass
      started from. */
  lemma {:induction false} ReportedAreObsolete(t: Group, paths: seq<string>, allowed: set<string>, dryRun: bool, e: Entry)
    requires RunPaths(t, paths, allowed, dryRun).result.Success?
    requires e in RunPaths(t, paths, allowed, dryRun).result.value
    ensures !Keep(e, allowed)
    ensures exists k :: 0 <= k < |paths| && UnderPath(t, paths[k], e)
    decreases |paths|
  {
    var g := Resolve(t, paths[0]).value;
    var doomed := Obsolete(CollectEntries(g), allowed);
    var next := if dryRun then t else Prune(t, UuidsOf(doomed));
    ObsoleteMembers(CollectEntries(g), allowed);
    if e in doomed {
      assert UnderPath(t, paths[0], e);
    } else {
      ReportedAreObsolete(next, paths[1..], allowed, dryRun, e);
      var k :| 0 <= k < |paths[1..]| && UnderPath(next, paths[1..][k], e);
      if !dryRun {
        UnderPathPrune(t, paths[1..][k], UuidsOf(doomed), e);
      }
      assert UnderPath(t, paths[k + 1], e);
    }
  }

  /** In dry-run, an entry is reported exactly when it is under one of the
      requested paths and is not kept. */
  lemma {:induction false} DryRunReportsExactly(t: Group, paths: seq<string>, allowed: set<string>, e: Entry)
    requires RunPaths(t, paths, allowed, true).result.Success?
    ensures e in RunPaths(t, paths, allowed, true).result.value <==>
              !Keep(e, allowed) && exists k :: 0 <= k < |paths| && UnderPath(t, paths[k], e)
    decreases |paths|
  {
    if e in RunPaths(t, paths, allowed, true).result.value {
      ReportedAreObsolete(t, paths, allowed, true, e);
    }
    if !Keep(e, allowed) && exists k :: 0 <= k < |paths| && UnderPath(t, paths[k], e) {
      var k :| 0 <= k < |paths| && UnderPath(t, paths[k], e);
      var g := Resolve(t, paths[0]).value;
      var doomed := Obsolete(CollectEntries(g), allowed);
      DryRunLeavesTreeUnchanged(t, paths[1..], allowed);
      if k == 0 {
        ObsoleteMembers(CollectEntries(g), allowed);
        assert e in doomed;
      } else {
        DryRunReportsExactly(t, paths[1..], allowed, e);
        assert UnderPath(t, paths[1..][k - 1], e);
      }
    }
  }

  /** Outside dry-run, a successful pass deletes exactly the reported entries:
      the new tree is the old one without them, and its entries are the old
      entries minus the reported ones, in the same order. */
  lemma {:induction false} ApplyRemovesReported(t: Group, paths: seq<string>, allowed: set<string>)
    requires RunPaths(t, paths, allowed, false).result.Success?
    ensures var run := RunPaths(t, paths, allowed, false);
            run.tree == Prune(t, UuidsOf(run.result.value)) &&
            CollectEntries(run.tree) == Drop(CollectEntries(t), UuidsOf(run.result.value))
    decreases |paths|
  {
    var run := RunPaths(t, paths, allowed, false);
    if paths == [] {
      PruneNothing(t);
    } else {
      var g := Resolve(t, paths[0]).value;
      var doomed := Obsolete(CollectEntries(g), allowed);
      var next := Prune(t, UuidsOf(doomed));
      var rest := RunPaths(next, paths[1..], allowed, false);
      ApplyRemovesReported(next, paths[1..], allowed);
      PrunePrune(t, UuidsOf(doomed), UuidsOf(rest.result.value));
      UuidsOfAppend(doomed, rest.result.value);
    }
    CollectPrune(t, UuidsOf(run.result.value));
  }

  lemma AllKeptPrune(t: Group, path: string, allowed: set<string>, gone: set<nat>)
    requires AllKept(t, path, allowed)
    ensures AllKept(Prune(t, gone), path, allowed)
  {
    ResolvePrune(t, path, gone);
    forall e | UnderPath(Prune(t, gone), path, e) ensures Keep(e, allowed) {
      UnderPathPrune(t, path, gone, e);
    }
  }

  /** Right after the entries under `path` are decided and deleted, every
      entry left under `path` is kept. */
  lemma PathAllKept(t: Group, path: string, allowed: set<string>)
    requires Resolve(t, path).Success?
    ensures var doomed := Obsolete(CollectEntries(Resolve(t, path).value), allowed);
            AllKept(Prune(t, UuidsOf(doomed)), path, allowed)
  {
    var g := Resolve(t, path).value;
    var doomed := Obsolete(CollectEntries(g), allowed);
    ObsoleteMembers(CollectEntries(g), allowed);
    ResolvePrune(t, path, UuidsOf(doomed));
    forall e | UnderPath(Prune(t, UuidsOf(doomed)), path, e) ensures Keep(e, allowed) {
      UnderPathPrune(t, path, UuidsOf(doomed), e);
    }
  }

  /** The promise of the tool's description: after a successful pass outside
      dry-run, every entry left under each requested group is kept. */
  lemma {:induction false} ApplyLeavesOnlyAllowed(t: Group, paths: seq<string>, allowed: set<string>)
    requires RunPaths(t, paths, allowed, false).result.Success?
    ensures forall k :: 0 <= k < |paths| ==> AllKept(RunPaths(t, paths, allowed, false).tree, paths[k], allowed)
    decreases |paths|
  {
    if paths != [] {
      var g := Resolve(t, paths[0]).value;
      var doomed := Obsolete(CollectEntries(g), allowed);
      var next := Prune(t, UuidsOf(doomed));
      var rest := RunPaths(next, paths[1..], allowed, false);
      ApplyLeavesOnlyAllowed(next, paths[1..], allowed);
      PathAllKept(t, paths[0], allowed);
      ApplyRemovesReported(next, paths[1..], allowed);
      AllKeptPrune(next, paths[0], allowed, UuidsOf(rest.result.value));
      assert RunPaths(t, paths, allowed, false).tree == rest.tree == Prune(next, UuidsOf(rest.result.value));
      forall k | 0 <= k < |paths| ensures AllKept(rest.tree, paths[k], allowed) {
        if k == 0 {
          assert AllKept(Prune(next, UuidsOf(rest.result.value)), paths[0], allowed);
        } else {
          assert paths[k] == paths[1..][k - 1];
          assert AllKept(rest.tree, paths[1..][k - 1], allowed);
        }
      }
    }
  }

  /** On a tree where every entry under each path is kept, a pass reports
      nothing and changes nothing. */
  lemma {:induction false} NothingToDelete(t: Group, paths: seq<string>, allowed: set<string>, dryRun: bool)
    requires forall k :: 0 <= k < |paths| ==> AllKept(t, paths[k], allowed)
    ensures RunPaths(t, paths, allowed, dryRun) == Run(t, Success([]))
    decreases |paths|
  {
    if paths != [] {
      assert AllKept(t, paths[0], allowed);
      var g := Resolve(t, paths[0]).value;
      var es := CollectEntries(g);
      assert forall e :: e in es ==> Keep(e, allowed);
      var doomed := Obsolete(es, allowed);
      ObsoleteAllKept(es, allowed);
      assert UuidsOf(doomed) == {};
      PruneNothing(t);
      forall k | 0 <= k < |paths[1..]| ensures AllKept(t, paths[1..][k], allowed) {
        assert paths[1..][k] == paths[k + 1];
      }
      NothingToDelete(t, paths[1..], allowed, dryRun);
    }
  }

  /** Running the pass again on what a successful pass left reports nothing
      and changes nothing. */
  lemma ApplyIdempotent(t: Group, paths: seq<string>, allowed: set<string>, dryRun: bool)
    requires RunPaths(t, paths, allowed, false).result.Success?
    ensures var after := RunPaths(t, paths, allowed, false).tree;
            RunPaths(after, paths, allowed, dryRun) == Run(after, Success([]))
  {
    ApplyLeavesOnlyAllowed(t, paths, allowed);
    NothingToDelete(RunPaths(t, paths, allowed, false).tree, paths, allowed, dryRun);
  }

  lemma ObsoleteDrop(es: seq<Entry>, allowed: set<string>, gone: set<nat>)
    ensures UuidsOf(Obsolete(Drop(es, gone), allowed)) == UuidsOf(Obsolete(es, allowed)) - gone
  {
    ObsoleteMembers(es, allowed);
    ObsoleteMembers(Drop(es, gone), allowed);
    forall u | u in UuidsOf(Obsolete(es, allowed)) - gone ensures u in UuidsOf(Obsolete(Drop(es, gone), allowed)) {
      var e := WithUuid(Obsolete(es, allowed), u);
    }
    forall u | u in UuidsOf(Obsolete(Drop(es, gone), allowed)) ensures u in UuidsOf(Obsolete(es, allowed)) - gone {
      var e := WithUuid(Obsolete(Drop(es, gone), allowed), u);
    }
  }

  /** Dry-run and apply agree, from a tree already pruned of `gone` in apply
      mode: they fail on the same path with the same error, and apply reports
      the entries dry-run reports, except those already gone. */
  lemma {:induction false} ModesAgreeFrom(t: Group, gone: set<nat>, paths: seq<string>, allowed: set<string>)
    ensures var dry := RunPaths(t, paths, allowed, true);
            var apply := RunPaths(Prune(t, gone), paths, allowed, false);
            && (dry.result.Failure? <==> apply.result.Failure?)
            && (dry.result.Failure? ==> dry.result.error == apply.result.error)
            && (dry.result.Success? ==> UuidsOf(apply.result.value) == UuidsOf(dry.result.value) - gone)
    decreases |paths|
  {
    if paths != [] {
      ResolvePrune(t, paths[0], gone);
      if Resolve(t, paths[0]).Success? {
        var g := Resolve(t, paths[0]).value;
        var dryDoomed := Obsolete(CollectEntries(g), allowed);
        var applyDoomed := Obsolete(CollectEntries(Prune(g, gone)), allowed);
        CollectPrune(g, gone);
        ObsoleteDrop(CollectEntries(g), allowed, gone);
        var removed := gone + UuidsOf(applyDoomed);
        PrunePrune(t, gone, UuidsOf(applyDoomed));
        DryRunLeavesTreeUnchanged(t, paths, allowed);
        ModesAgreeFrom(t, removed, paths[1..], allowed);
        var dryRest := RunPaths(t, paths[1..], allowed, true);
        var applyRest := RunPaths(Prune(t, removed), paths[1..], allowed, false);
        if dryRest.result.Success? {
          UuidsOfAppend(dryDoomed, dryRest.result.value);
          UuidsOfAppend(applyDoomed, applyRest.result.value);
        }
      }
    }
  }

  /** Dry-run and apply, started on the same tree, succeed or fail alike, and
      report the same entries (as sets of UUIDs). With overlapping paths the
      dry-run list can hold an entry more than once (see
      `Examples.OverlapDryRun` and `Examples.OverlapApply`). */
  lemma ModesAgree(t: Group, paths: seq<string>, allowed: set<string>)
    ensures var dry := RunPaths(t, paths, allowed, true);
            var apply := RunPaths(t, paths, allowed, false);
            && (dry.result.Failure? <==> apply.result.Failure?)
            && (dry.result.Failure? ==> dry.result.error == apply.result.error)
            && (dry.result.Success? ==> UuidsOf(apply.result.value) == UuidsOf(dry.result.value))
  {
    ModesAgreeFrom(t, {}, paths, allowed);
    PruneNothing(t);
  }

  /** Paths are processed one after the other on the tree as it stands: a pass
      over `a + b` is a pass over `a` followed by a pass over `b` on the tree
      `a` left behind, unless `a` already failed. */
  lemma {:induction false} RunPathsAppend(t: Group, a: seq<string>, b: seq<string>, allowed: set<string>, dryRun: bool)
    ensures RunPaths(t, a + b, allowed, dryRun) ==
              var first := RunPaths(t, a, allowed, dryRun);
              match first.result
              case Success(done) => After(done, RunPaths(first.tree, b, allowed, dryRun))
              case Failure(_) => first
    decreases |a|
  {
    if a == [] {
      assert a + b == b;
      assert After([], RunPaths(t, b, allowed, dryRun)) == RunPaths(t, b, allowed, dryRun) by {
        var r := RunPaths(t, b, allowed, dryRun);
        if r.result.Success? { assert [] + r.result.value == r.result.value; }
      }
    } else {
      assert (a + b)[0] == a[0] && (a + b)[1..] == a[1..] + b;
      if Resolve(t, a[0]).Success? {
        var g := Resolve(t, a[0]).value;
        var doomed := Obsolete(CollectEntries(g), allowed);
        var next := if dryRun then t else Prune(t, UuidsOf(doomed));
        RunPathsAppend(next, a[1..], b, allowed, dryRun);
        var first := RunPaths(next, a[1..], allowed, dryRun);
        if first.result.Success? {
          AfterAfter(doomed, first.result.value, RunPaths(first.tree, b, allowed, dryRun));
        }
      }
    }
  }

  /** An error on a later path ends the pass with that error, and the
      deletions made for the earlier paths stay in the tree. */
  lemma ErrorKeepsEarlierDeletions(t: Group, a: seq<string>, bad: string, b: seq<string>, allowed: set<string>)
    requires RunPaths(t, a, allowed, false).result.Success?
    requires Resolve(RunPaths(t, a, allowed, false).tree, bad).Failure?
    ensures var first := RunPaths(t, a, allowed, false);
            RunPaths(t, a + [bad] + b, allowed, false) ==
              Run(Prune(t, UuidsOf(first.result.value)), Failure(Resolve(first.tree, bad).error))
  {
    assert a + [bad] + b == a + ([bad] + b);
    RunPathsAppend(t, a, [bad] + b, allowed, false);
    ApplyRemovesReported(t, a, allowed);
  }

  /** A pass fails only on a group path: one with no segments, or one with a
      segment that names no subgroup, and the error names that segment. */
  lemma {:induction false} PassErrors(t: Group, paths: seq<string>, allowed: set<string>, dryRun: bool)
    requires RunPaths(t, paths, allowed, dryRun).result.Failure?
    ensures var e := RunPaths(t, paths, allowed, dryRun).result.error;
            e == EmptyGroupPath ||
            (e.GroupNotFound? && exists k :: 0 <= k < |paths| && e.segment in Segments(paths[k]))
    decreases |paths|
  {
    var e := RunPaths(t, paths, allowed, dryRun).result.error;
    if Resolve(t, paths[0]).Failure? {
      if Segments(paths[0]) != [] {
        WalkFailure(t, Segments(paths[0]));
        assert e.segment in Segments(paths[0]);
      }
    } else {
      var g := Resolve(t, paths[0]).value;
      var doomed := Obsolete(CollectEntries(g), allowed);
      var next := if dryRun then t else Prune(t, UuidsOf(doomed));
      PassErrors(next, paths[1..], allowed, dryRun);
      if e.GroupNotFound? {
        var k :| 0 <= k < |paths[1..]| && e.segment in Segments(paths[1..][k]);
        assert paths[1..][k] == paths[k + 1];
      }
    }
  }
}
