/** Concrete runs of the model on small trees: the behaviours of
    `delete_obsolete_entries` (tools/cleanup_kdbx.py:123-145) that follow from
    deleting entries as soon as they are decided. */
module Examples {
  import opened Wrappers
  import opened Errors
  import opened Text
  import opened Store
  import opened GroupPath
  import opened Identity
  import opened Cleanup

  const Alice := Entry(1, Some("E1"), None, map["email" := "ALICE@EXAMPLE.COM"])
  const Carol := Entry(2, Some("E2"), Some("carol"), map[])
  const Allowed: set<string> := {"alice@example.com", "bob@example.com"}

  /** A database whose root group holds one group `Team` with both entries. */
  const TeamTree := Group("Root", [], [Group("Team", [Alice, Carol], [])])

  lemma AliceAddress()
    ensures ExtractEntryEmail(Alice) == Some("alice@example.com")
  {
    EmailFieldAddress(Alice, "ALICE@EXAMPLE.COM");
    AliceLower();
  }

  lemma AliceLower()
    ensures Lower("ALICE@EXAMPLE.COM") == "alice@example.com"
  {
  }

  /** An entry whose `email` field holds a value without surrounding
      whitespace is judged by that value, lower-cased. */
  lemma EmailFieldAddress(e: Entry, v: string)
    requires "email" in e.custom && e.custom["email"] == v
    requires v != [] && !IsSpace(v[0]) && !IsSpace(v[|v| - 1])
    ensures ExtractEntryEmail(e) == Some(Lower(v))
  {
    NormalizeTrimmed(v);
    ExtractEntryEmailPriority(e);
  }

  lemma CarolAddress()
    ensures ExtractEntryEmail(Carol) == Some("carol")
  {
    NormalizeTrimmed("carol");
    assert Lower("carol") == "carol";
  }

  lemma TeamResolves()
    ensures Resolve(TeamTree, "Team") == Success(Group("Team", [Alice, Carol], []))
  {
    SegmentsOfJoin(["Team"]);
    assert TeamTree.subgroups == [Group("Team", [Alice, Carol], [])];
    assert FindChild(TeamTree.subgroups, "Team") == Some(0);
    assert ["Team"][1..] == [];
  }

  lemma AliceKept()
    ensures Keep(Alice, Allowed)
  {
    AliceAddress();
  }

  lemma CarolNotKept()
    ensures !Keep(Carol, Allowed)
  {
    CarolAddress();
  }

  /** Two entries of which only the first is kept. */
  lemma ObsoleteSecond(a: Entry, b: Entry, allowed: set<string>)
    requires Keep(a, allowed) && !Keep(b, allowed)
    ensures Obsolete([a, b], allowed) == [b]
  {
    ObsoleteSnoc([], a, allowed);
    ObsoleteSnoc([a], b, allowed);
    assert [] + [a] == [a];
    assert [a] + [b] == [a, b];
  }

  lemma TeamObsolete()
    ensures Obsolete([Alice, Carol], Allowed) == [Carol]
  {
    AliceKept();
    CarolNotKept();
    ObsoleteSecond(Alice, Carol, Allowed);
  }

  /** `TeamTree` after deleting `Carol`. */
  const TeamTreeAfter := Group("Root", [], [Group("Team", [Alice], [])])

  lemma TeamPrune()
    ensures Prune(TeamTree, {2}) == TeamTreeAfter
  {
    var team := Group("Team", [Alice, Carol], []);
    assert Drop([Carol], {2}) == [];
    assert [Alice, Carol][1..] == [Carol];
    assert Drop([Alice, Carol], {2}) == [Alice];
    assert Prune(team, {2}) == Group("Team", [Alice], []);
    assert [team][1..] == [];
    assert PruneAll([team], {2}) == [Group("Team", [Alice], [])];
  }

  /** A pass over a single path that resolves. */
  lemma RunOnePath(t: Group, path: string, allowed: set<string>, dryRun: bool, g: Group, doomed: seq<Entry>)
    requires Resolve(t, path) == Success(g)
    requires Obsolete(CollectEntries(g), allowed) == doomed
    ensures RunPaths(t, [path], allowed, dryRun) ==
              Run(if dryRun then t else Prune(t, UuidsOf(doomed)), Success(doomed))
  {
    assert [path][1..] == [];
    assert doomed + [] == doomed;
  }

  /** The entry whose custom `email` field is in the allow-list (after
      normalisation) is kept; the one with only a username, which is not in
      the list, is deleted and reported by its title. */
  lemma TeamScenario()
    ensures RunPaths(TeamTree, ["Team"], Allowed, false) == Run(TeamTreeAfter, Success([Carol]))
  {
    var team := Group("Team", [Alice, Carol], []);
    TeamResolves();
    assert CollectEntries(team) == [Alice, Carol];
    TeamObsolete();
    RunOnePath(TeamTree, "Team", Allowed, false, team, [Carol]);
    UuidsOfOne(Carol);
    TeamPrune();
  }

  /** The report of that pass is the deleted entry's title. */
  lemma TeamReport()
    ensures TitlesResult(RunPaths(TeamTree, ["Team"], Allowed, false).result) == Success(["E2"])
  {
    TeamScenario();
    assert Titles([Carol]) == ["E2"];
  }

  /** Group paths start below the root group: the documented form
      `Root/Team` looks for a child of the root named `Root`. */
  lemma RootPrefixNotFound()
    ensures Resolve(TeamTree, "Root/Team") == Failure(GroupNotFound("Root", "Root"))
  {
    SegmentsOfJoin(["Root", "Team"]);
    assert Join(["Root", "Team"]) == "Root/Team";
  }

  /** Slashes at the ends and a doubled slash inside a path are ignored:
      `/Team//Sub/` has the segments `Team` and `Sub`. */
  lemma UntidyPathSegments()
    ensures Segments("/Team//Sub/") == ["Team", "Sub"]
  {
    UntidySegments("Team", "Sub");
    assert "/" + "Team" + "//" + "Sub" + "/" == "/Team//Sub/";
  }

  /** `/a//b/` has the segments `a` and `b`. */
  lemma UntidySegments(a: string, b: string)
    requires a != "" && SlashFree(a) && b != "" && SlashFree(b)
    ensures Segments("/" + a + "//" + b + "/") == [a, b]
  {
    var parts := ["", a, "", b, ""];
    assert Join(parts[4..]) == "";
    assert Join(parts[3..]) == b + "/";
    assert Join(parts[2..]) == "/" + b + "/";
    assert Join(parts[1..]) == a + "//" + b + "/";
    assert Join(parts) == "/" + a + "//" + b + "/";
    SplitJoin(parts);
    SegmentsAreNonEmptyPieces(Join(parts));
    assert parts == ["", a] + ["", b, ""];
    NonEmptyAppend(["", a], ["", b, ""]);
    NonEmptyAppend([""], [a]);
    NonEmptyAppend([""], [b, ""]);
    NonEmptyAppend([b], [""]);
  }

  /** A missing group ends the pass with an error naming the segment and the
      group it was looked for in. */
  lemma MissingGroup()
    ensures RunPaths(TeamTree, ["Missing"], Allowed, true) == Run(TeamTree, Failure(GroupNotFound("Missing", "Root")))
  {
    SegmentsOfJoin(["Missing"]);
  }

  lemma MissingAfterDeletion()
    ensures Resolve(TeamTreeAfter, "Missing") == Failure(GroupNotFound("Missing", "Root"))
  {
    SegmentsOfJoin(["Missing"]);
    assert TeamTreeAfter.subgroups == [Group("Team", [Alice], [])];
  }

  /** A pass whose first path fails. */
  lemma RunFailingPath(t: Group, path: string, allowed: set<string>, dryRun: bool)
    requires Resolve(t, path).Failure?
    ensures RunPaths(t, [path], allowed, dryRun) == Run(t, Failure(Resolve(t, path).error))
  {
  }

  /** An error on a later path keeps the deletions made for the earlier ones
      in the tree, and the pass reports only the error. */
  lemma ErrorAfterDeletion()
    ensures RunPaths(TeamTree, ["Team", "Missing"], Allowed, false) ==
              Run(TeamTreeAfter, Failure(GroupNotFound("Missing", "Root")))
  {
    TeamScenario();
    MissingAfterDeletion();
    RunFailingPath(TeamTreeAfter, "Missing", Allowed, false);
    RunPathsAppend(TeamTree, ["Team"], ["Missing"], Allowed, false);
    assert ["Team"] + ["Missing"] == ["Team", "Missing"];
  }

  // Overlapping paths: `A` and `A/B`, where `B` is a subgroup of `A`.

  const X := Entry(3, Some("X"), None, map[])
  const Y := Entry(4, Some("Y"), None, map[])
  const B := Group("B", [Y], [])
  const A := Group("A", [X], [B])
  const Nested := Group("Root", [], [A])
  /** `Nested` after deleting `X` and `Y`. */
  const NestedAfter := Group("Root", [], [Group("A", [], [Group("B", [], [])])])

  /** An entry without custom fields and without a username has no address,
      so it is never kept. */
  lemma NoAddressNotKept(e: Entry, allowed: set<string>)
    requires e.custom == map[] && e.username.None?
    ensures !Keep(e, allowed)
  {
    assert ExtractEntryEmail(e) == None;
  }

  lemma NestedResolves()
    ensures Resolve(Nested, "A") == Success(A)
    ensures Resolve(Nested, "A/B") == Success(B)
    ensures Resolve(NestedAfter, "A/B") == Success(Group("B", [], []))
  {
    SegmentsOfJoin(["A"]);
    SegmentsOfJoin(["A", "B"]);
    assert Join(["A", "B"]) == "A/B";
    assert ["A"][1..] == [] && ["A", "B"][1..] == ["B"] && ["B"][1..] == [];
    assert Nested.subgroups == [A] && A.subgroups == [B];
    assert FindChild([A], "A") == Some(0) && FindChild([B], "B") == Some(0);
    var a' := Group("A", [], [Group("B", [], [])]);
    assert NestedAfter.subgroups == [a'];
    assert FindChild([a'], "A") == Some(0) && FindChild(a'.subgroups, "B") == Some(0);
  }

  lemma NestedCollects()
    ensures CollectEntries(A) == [X, Y]
    ensures CollectEntries(B) == [Y]
    ensures CollectEntries(Group("B", [], [])) == []
    ensures Obsolete([X, Y], Allowed) == [X, Y]
    ensures Obsolete([Y], Allowed) == [Y]
    ensures Obsolete([], Allowed) == []
  {
    assert CollectAll([B]) == CollectEntries(B) + CollectAll([]);
    NoAddressNotKept(X, Allowed);
    NoAddressNotKept(Y, Allowed);
    ObsoleteNoneKept([X, Y], Allowed);
    ObsoleteNoneKept([Y], Allowed);
  }

  lemma NestedPrune()
    ensures Prune(Nested, {3, 4}) == NestedAfter
  {
    assert [X][1..] == [] && [Y][1..] == [] && [A][1..] == [] && [B][1..] == [];
    assert Drop([Y], {3, 4}) == [];
    assert Prune(B, {3, 4}) == Group("B", [], []);
    assert PruneAll([B], {3, 4}) == [Group("B", [], [])];
    assert Drop([X], {3, 4}) == [];
    assert Prune(A, {3, 4}) == Group("A", [], [Group("B", [], [])]);
    assert PruneAll([A], {3, 4}) == [Group("A", [], [Group("B", [], [])])];
  }

  /** A pass over two paths that both resolve; the second is resolved in the
      tree the first one left. */
  lemma RunTwoPaths(t: Group, p: string, q: string, allowed: set<string>, dryRun: bool,
                    g: Group, d: seq<Entry>, t': Group, h: Group, d': seq<Entry>)
    requires Resolve(t, p) == Success(g) && Obsolete(CollectEntries(g), allowed) == d
    requires t' == if dryRun then t else Prune(t, UuidsOf(d))
    requires Resolve(t', q) == Success(h) && Obsolete(CollectEntries(h), allowed) == d'
    ensures RunPaths(t, [p, q], allowed, dryRun) ==
              Run(if dryRun then t' else Prune(t', UuidsOf(d')), Success(d + d'))
  {
    assert [p, q][0] == p && [p, q][1..] == [q];
    assert RunPaths(t, [p, q], allowed, dryRun) == After(d, RunPaths(t', [q], allowed, dryRun));
    RunOnePath(t', q, allowed, dryRun, h, d');
  }

  lemma UuidsOfOne(a: Entry)
    ensures UuidsOf([a]) == {a.uuid}
  {
    assert [a][1..] == [];
  }

  lemma UuidsOfTwo(a: Entry, b: Entry)
    ensures UuidsOf([a, b]) == {a.uuid, b.uuid}
  {
    assert [a, b][0] == a && [a, b][1..] == [b];
    UuidsOfOne(b);
  }

  /** In dry-run the second path resolves against the unchanged tree, so `Y`
      is reported twice. */
  lemma OverlapDryRun()
    ensures RunPaths(Nested, ["A", "A/B"], Allowed, true) == Run(Nested, Success([X, Y, Y]))
  {
    NestedResolves();
    NestedCollects();
    RunTwoPaths(Nested, "A", "A/B", Allowed, true, A, [X, Y], Nested, B, [Y]);
    assert [X, Y] + [Y] == [X, Y, Y];
  }

  /** Outside dry-run `Y` is already gone when `A/B` is resolved, so it is
      reported once. */
  lemma OverlapApply()
    ensures RunPaths(Nested, ["A", "A/B"], Allowed, false) == Run(NestedAfter, Success([X, Y]))
  {
    NestedResolves();
    NestedCollects();
    UuidsOfTwo(X, Y);
    NestedPrune();
    RunTwoPaths(Nested, "A", "A/B", Allowed, false, A, [X, Y], NestedAfter, Group("B", [], []), []);
    assert UuidsOf([]) == {};
    PruneNothing(NestedAfter);
    assert [X, Y] + [] == [X, Y];
  }
}
