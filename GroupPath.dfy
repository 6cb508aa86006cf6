/** `resolve_group` (tools/cleanup_kdbx.py:100-112): a slash-delimited group
    path is split into segments and followed from the root group, one exactly
    named subgroup at a time. */
module GroupPath {
  import opened Wrappers
  import opened Errors
  import opened Store
  import Text

  predicate IsSlash(c: char) {
    c == '/'
  }

  predicate SlashFree(s: string) {
    forall j :: 0 <= j < |s| ==> s[j] != '/'
  }

  /** Python's `s.split("/")`: the pieces between slashes, empty ones included. */
  function Split(s: string): (parts: seq<string>)
    ensures |parts| >= 1
    ensures forall k :: 0 <= k < |parts| ==> SlashFree(parts[k])
  {
    if s == [] then [""]
    else
      var rest := Split(s[1..]);
      if s[0] == '/' then [""] + rest
      else [[s[0]] + rest[0]] + rest[1..]
  }

  /** Python's `"/".join(parts)`. */
  function Join(parts: seq<string>): string
    requires |parts| >= 1
  {
    if |parts| == 1 then parts[0] else parts[0] + "/" + Join(parts[1..])
  }

  /** Splitting loses nothing: joining the pieces gives the string back. */
  lemma {:induction false} JoinSplit(s: string)
    ensures Join(Split(s)) == s
  {
    if s != [] {
      var rest := Split(s[1..]);
      JoinSplit(s[1..]);
      if s[0] == '/' {
        assert ([""] + rest)[1..] == rest;
      } else if |rest| == 1 {
        assert Split(s) == [[s[0]] + rest[0]];
      } else {
        var parts := Split(s);
        assert parts[1..] == rest[1..];
        assert Join(rest) == rest[0] + "/" + Join(rest[1..]);
      }
    }
  }

  /** Joining slash-free pieces and splitting again gives the pieces back. */
  lemma {:induction false} SplitJoin(parts: seq<string>)
    requires |parts| >= 1
    requires forall k :: 0 <= k < |parts| ==> SlashFree(parts[k])
    ensures Split(Join(parts)) == parts
    decreases |parts|, |parts[0]|
  {
    var p := parts[0];
    if p == [] {
      if |parts| > 1 {
        SplitJoin(parts[1..]);
        assert Join(parts) == "/" + Join(parts[1..]);
        assert ("/" + Join(parts[1..]))[1..] == Join(parts[1..]);
      }
    } else {
      var tail := [p[1..]] + parts[1..];
      assert SlashFree(tail[0]) by {
        forall j | 0 <= j < |p[1..]| ensures p[1..][j] != '/' { assert p[1..][j] == p[j + 1]; }
      }
      SplitJoin(tail);
      if |parts| == 1 {
        assert Join(parts) == [p[0]] + Join(tail);
      } else {
        assert tail[1..] == parts[1..];
        assert Join(parts) == [p[0]] + Join(tail);
      }
      assert Join(parts)[1..] == Join(tail);
      assert [p[0]] + p[1..] == p;
      assert [p] + tail[1..] == parts;
    }
  }

  /** The list comprehension `[part for part in parts if part]`. */
  function NonEmpty(parts: seq<string>): (r: seq<string>)
    ensures forall k :: 0 <= k < |r| ==> r[k] != ""
    ensures forall p :: p in r <==> p in parts && p != ""
  {
    if parts == [] then []
    else (if parts[0] == "" then [] else [parts[0]]) + NonEmpty(parts[1..])
  }

  /** Dropping empty pieces from a list without any changes nothing. */
  lemma {:induction false} NonEmptyAll(parts: seq<string>)
    requires forall k :: 0 <= k < |parts| ==> parts[k] != ""
    ensures NonEmpty(parts) == parts
  {
    if parts != [] {
      NonEmptyAll(parts[1..]);
    }
  }

  /** The segments of a group path: slashes stripped at both ends, split on
      `/`, empty pieces dropped. */
  function Segments(path: string): (r: seq<string>)
    ensures forall k :: 0 <= k < |r| ==> r[k] != "" && SlashFree(r[k])
  {
    var parts := Split(Text.StripChars(path, IsSlash));
    var r := NonEmpty(parts);
    assert forall k :: 0 <= k < |r| ==> r[k] in parts;
    r
  }

  /** Joined non-empty pieces start with the first piece's first character and
      end with the last piece's last character. */
  lemma {:induction false} JoinEnds(parts: seq<string>)
    requires |parts| >= 1
    requires forall k :: 0 <= k < |parts| ==> parts[k] != ""
    ensures Join(parts) != []
    ensures Join(parts)[0] == parts[0][0]
    ensures Join(parts)[|Join(parts)| - 1] == parts[|parts| - 1][|parts[|parts| - 1]| - 1]
    decreases |parts|
  {
    if |parts| > 1 {
      JoinEnds(parts[1..]);
    }
  }

  /** A path written as its segments joined by single slashes has exactly
      those segments. */
  lemma SegmentsOfJoin(parts: seq<string>)
    requires |parts| >= 1
    requires forall k :: 0 <= k < |parts| ==> parts[k] != "" && SlashFree(parts[k])
    ensures Segments(Join(parts)) == parts
  {
    JoinEnds(parts);
    Text.StripCharsUnchanged(Join(parts), IsSlash);
    SplitJoin(parts);
    NonEmptyAll(parts);
  }

  /** A string that does not start with a slash splits into a non-empty first piece. */
  lemma SplitFirstPiece(s: string)
    requires s != [] && s[0] != '/'
    ensures Split(s)[0] != ""
  {
  }

  /** A string made only of slashes splits into empty pieces. */
  lemma {:induction false} SplitSlashes(s: string)
    requires forall k :: 0 <= k < |s| ==> s[k] == '/'
    ensures NonEmpty(Split(s)) == []
  {
    if s != [] {
      SplitSlashes(s[1..]);
    }
  }

  /** The path is rejected as empty exactly when it consists of slashes only
      (the empty string included). */
  lemma {:induction false} SegmentsEmptyIffSlashes(path: string)
    ensures Segments(path) == [] <==> forall k :: 0 <= k < |path| ==> path[k] == '/'
  {
    var s := Text.StripChars(path, IsSlash);
    if forall k :: 0 <= k < |path| ==> path[k] == '/' {
      assert s == [];
      assert Split(s) == [""];
      assert NonEmpty([""]) == [] + NonEmpty([]);
    } else {
      assert s != [] && s[0] != '/';
      SplitFirstPiece(s);
      assert Split(s)[0] in Split(s);
    }
  }

  /** Dropping empty pieces distributes over concatenation, so the pieces kept
      stay in their order and keep their number. */
  lemma {:induction false} NonEmptyAppend(a: seq<string>, b: seq<string>)
    ensures NonEmpty(a + b) == NonEmpty(a) + NonEmpty(b)
    decreases |a|
  {
    if a == [] {
      assert a + b == b;
    } else {
      assert (a + b)[1..] == a[1..] + b;
      NonEmptyAppend(a[1..], b);
    }
  }

  /** A slash in front of a string adds one empty piece in front. */
  lemma SplitLeadingSlash(s: string)
    ensures Split(['/'] + s) == [""] + Split(s)
  {
    assert (['/'] + s)[1..] == s;
  }

  /** A slash after a string adds one empty piece at the end. */
  lemma {:induction false} SplitTrailingSlash(s: string)
    ensures Split(s + ['/']) == Split(s) + [""]
    decreases |s|
  {
    if s == [] {
      assert s + ['/'] == ['/'] + s;
      SplitLeadingSlash(s);
    } else {
      assert (s + ['/'])[1..] == s[1..] + ['/'];
      SplitTrailingSlash(s[1..]);
      var rest := Split(s[1..]);
      assert (rest + [""])[0] == rest[0];
      assert (rest + [""])[1..] == rest[1..] + [""];
    }
  }

  /** Slashes in front of a string add only empty pieces. */
  lemma {:induction false} SplitAfterSlashes(pre: string, s: string)
    requires forall k :: 0 <= k < |pre| ==> pre[k] == '/'
    ensures NonEmpty(Split(pre + s)) == NonEmpty(Split(s))
    decreases |pre|
  {
    if pre == [] {
      assert pre + s == s;
    } else {
      assert pre + s == ['/'] + (pre[1..] + s);
      SplitLeadingSlash(pre[1..] + s);
      NonEmptyAppend([""], Split(pre[1..] + s));
      assert NonEmpty([""]) == [] + NonEmpty([]);
      SplitAfterSlashes(pre[1..], s);
    }
  }

  /** Slashes after a string add only empty pieces. */
  lemma {:induction false} SplitBeforeSlashes(s: string, post: string)
    requires forall k :: 0 <= k < |post| ==> post[k] == '/'
    ensures NonEmpty(Split(s + post)) == NonEmpty(Split(s))
    decreases |post|
  {
    if post == [] {
      assert s + post == s;
    } else {
      var init := post[..|post| - 1];
      assert s + post == (s + init) + ['/'];
      SplitTrailingSlash(s + init);
      NonEmptyAppend(Split(s + init), [""]);
      assert NonEmpty([""]) == [] + NonEmpty([]);
      SplitBeforeSlashes(s, init);
    }
  }

  /** The segments of any path, slashes at the ends and repeated slashes
      included, are its non-empty `/`-separated pieces in order: stripping the
      slashes at both ends removes only pieces the comprehension drops. */
  lemma SegmentsAreNonEmptyPieces(path: string)
    ensures Segments(path) == NonEmpty(Split(path))
  {
    var s := Text.StripChars(path, IsSlash);
    if s == [] {
      SegmentsEmptyIffSlashes(path);
      SplitSlashes(path);
    } else {
      StrippedPieces(path, s);
    }
  }

  /** Stripping the slashes at the ends of a path removes only empty pieces. */
  lemma StrippedPieces(path: string, s: string)
    requires s == Text.StripChars(path, IsSlash) && s != []
    ensures NonEmpty(Split(s)) == NonEmpty(Split(path))
  {
    var lo, hi := Text.StripCharsWindow(path, IsSlash);
    assert path == path[..lo] + s + path[hi..];
    PiecesAroundSlashes(path[..lo], s, path[hi..]);
  }

  /** Slashes on either side of a string add only empty pieces. */
  lemma PiecesAroundSlashes(pre: string, s: string, post: string)
    requires forall k :: 0 <= k < |pre| ==> pre[k] == '/'
    requires forall k :: 0 <= k < |post| ==> post[k] == '/'
    ensures NonEmpty(Split(pre + s + post)) == NonEmpty(Split(s))
  {
    assert pre + s + post == pre + (s + post);
    SplitAfterSlashes(pre, s + post);
    SplitBeforeSlashes(s, post);
  }

  /** `next((g for g in subgroups if g.name == name), None)`: the index of the
      first subgroup named exactly `name`. */
  function FindChild(gs: seq<Group>, name: string): (r: Option<nat>)
    ensures r.Some? ==> r.value < |gs| && gs[r.value].name == name
    ensures r.Some? ==> forall j :: 0 <= j < r.value ==> gs[j].name != name
    ensures r.None? <==> forall j :: 0 <= j < |gs| ==> gs[j].name != name
  {
    if gs == [] then None
    else if gs[0].name == name then Some(0)
    else match FindChild(gs[1..], name)
      case None => None
      case Some(k) => Some(k + 1)
  }

  /** Following `parts` down from `g`, one subgroup per segment. */
  function Walk(g: Group, parts: seq<string>): (r: Result<Group, CleanupError>)
    ensures r.Failure? ==> r.error.GroupNotFound? && r.error.segment in parts
    decreases |parts|
  {
    if parts == [] then Success(g)
    else match FindChild(g.subgroups, parts[0])
      case None => Failure(GroupNotFound(parts[0], g.name))
      case Some(k) => Walk(g.subgroups[k], parts[1..])
  }

  /** What `resolve_group` returns or raises for `path` on a tree with root `root`. */
  function Resolve(root: Group, path: string): (r: Result<Group, CleanupError>)
    ensures r == Failure(EmptyGroupPath) <==> Segments(path) == []
    ensures r.Failure? ==> r.error == EmptyGroupPath || (r.error.GroupNotFound? && r.error.segment in Segments(path))
  {
    var parts := Segments(path);
    if parts == [] then Failure(EmptyGroupPath) else Walk(root, parts)
  }

  /** `resolve_group(kp, group_path)`. */
  method ResolveGroup(db: Database, path: string) returns (r: Result<Group, CleanupError>)
    ensures r == Resolve(db.root, path)
  {
    var parts := Segments(path);
    if parts == [] {
      return Failure(EmptyGroupPath);
    }
    var group := db.root;
    for i := 0 to |parts|
      invariant Walk(db.root, parts) == Walk(group, parts[i..])
    {
      var next := FindChild(group.subgroups, parts[i]);
      if next.None? {
        return Failure(GroupNotFound(parts[i], group.name));
      }
      assert parts[i..][1..] == parts[i + 1..];
      group := group.subgroups[next.value];
    }
    return Success(group);
  }

  // ---------------------------------------------------------------------------
  // Properties of resolution

  /** A resolved group carries the last segment as its name. */
  lemma {:induction false} WalkEndsAtName(g: Group, parts: seq<string>)
    requires parts != [] && Walk(g, parts).Success?
    ensures Walk(g, parts).value.name == parts[|parts| - 1]
    decreases |parts|
  {
    var k := FindChild(g.subgroups, parts[0]).value;
    if |parts| > 1 {
      WalkEndsAtName(g.subgroups[k], parts[1..]);
    }
  }

  /** Walking a longer path is walking its first part, then the rest from
      the group reached. */
  lemma {:induction false} WalkAppend(g: Group, a: seq<string>, b: seq<string>)
    ensures Walk(g, a + b) == match Walk(g, a)
                              case Success(h) => Walk(h, b)
                              case Failure(e) => Failure(e)
    decreases |a|
  {
    if a == [] {
      assert a + b == b;
    } else {
      assert (a + b)[0] == a[0] && (a + b)[1..] == a[1..] + b;
      match FindChild(g.subgroups, a[0])
      case None =>
      case Some(k) => WalkAppend(g.subgroups[k], a[1..], b);
    }
  }

  /** A failed walk names a segment of the path and the group under which it
      was sought: the group reached by the segments before it, which has no
      subgroup of that name. */
  lemma {:induction false} WalkFailure(g: Group, parts: seq<string>)
    requires Walk(g, parts).Failure?
    ensures var e := Walk(g, parts).error;
            e.GroupNotFound? &&
            exists k :: 0 <= k < |parts| && e.segment == parts[k] && Walk(g, parts[..k]).Success? &&
                        Walk(g, parts[..k]).value.name == e.parent &&
                        FindChild(Walk(g, parts[..k]).value.subgroups, parts[k]).None?
    decreases |parts|
  {
    assert parts[..0] == [];
    match FindChild(g.subgroups, parts[0])
    case None =>
    case Some(c) =>
      var rest := parts[1..];
      var h := g.subgroups[c];
      WalkFailure(h, rest);
      var k :| 0 <= k < |rest| && Walk(g, parts).error.segment == rest[k] && Walk(h, rest[..k]).Success? &&
               Walk(h, rest[..k]).value.name == Walk(g, parts).error.parent &&
               FindChild(Walk(h, rest[..k]).value.subgroups, rest[k]).None?;
      assert parts[..k + 1] == [parts[0]] + rest[..k];
      assert ([parts[0]] + rest[..k])[1..] == rest[..k];
      assert Walk(g, parts[..k + 1]) == Walk(h, rest[..k]);
      assert parts[k + 1] == rest[k];
  }

  /** The groups reached along a successful walk lie within the starting
      group: the entries collected under the target are entries of the start. */
  lemma {:induction false} WalkWithin(g: Group, parts: seq<string>, e: Entry)
    requires Walk(g, parts).Success? && e in CollectEntries(Walk(g, parts).value)
    ensures e in CollectEntries(g)
    decreases |parts|
  {
    if parts != [] {
      var k := FindChild(g.subgroups, parts[0]).value;
      WalkWithin(g.subgroups[k], parts[1..], e);
      CollectEntriesPreorder(g, k);
    }
  }

  function PruneResult(r: Result<Group, CleanupError>, gone: set<nat>): Result<Group, CleanupError> {
    match r
    case Success(h) => Success(Prune(h, gone))
    case Failure(e) => Failure(e)
  }

  /** Deleting entries never changes which group a path resolves to, nor the
      error it raises: the resolved group is the old one minus the deleted entries. */
  lemma {:induction false} WalkPrune(g: Group, parts: seq<string>, gone: set<nat>)
    ensures Walk(Prune(g, gone), parts) == PruneResult(Walk(g, parts), gone)
    decreases |parts|
  {
    if parts != [] {
      var pg := Prune(g, gone);
      assert FindChild(pg.subgroups, parts[0]) == FindChild(g.subgroups, parts[0]) by {
        FindChildSameNames(pg.subgroups, g.subgroups, parts[0]);
      }
      match FindChild(g.subgroups, parts[0])
      case None =>
      case Some(k) =>
        PruneAllAt(g.subgroups, gone, k);
        WalkPrune(g.subgroups[k], parts[1..], gone);
    }
  }

  lemma {:induction false} FindChildSameNames(gs: seq<Group>, hs: seq<Group>, name: string)
    requires |gs| == |hs| && forall k :: 0 <= k < |gs| ==> gs[k].name == hs[k].name
    ensures FindChild(gs, name) == FindChild(hs, name)
  {
    if gs != [] {
      FindChildSameNames(gs[1..], hs[1..], name);
    }
  }

  lemma ResolvePrune(root: Group, path: string, gone: set<nat>)
    ensures Resolve(Prune(root, gone), path) == PruneResult(Resolve(root, path), gone)
  {
    if Segments(path) != [] {
      WalkPrune(root, Segments(path), gone);
    }
  }
}
