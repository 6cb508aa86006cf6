/** The in-memory KeePass tree the cleanup tool works on, as far as the tool
    uses it: groups with names, entries and subgroups; entries with a title, a
    username and custom string fields; `collect_entries`
    (tools/cleanup_kdbx.py:115-120); and the one mutation the tool performs,
    `kp.delete_entry` (tools/cleanup_kdbx.py:143). */
module Store {
  import opened Wrappers

  /** A KeePass entry. `uuid` is the entry's KeePass UUID, which is what makes
      two entries with equal fields distinct; `custom` maps each custom field
      key the store answers for to its value. */
  datatype Entry = Entry(uuid: nat, title: Option<string>, username: Option<string>, custom: map<string, string>)

  /** A KeePass group: its name, its own entries and its subgroups, in store order. */
  datatype Group = Group(name: string, entries: seq<Entry>, subgroups: seq<Group>)

  /** `collect_entries`: the group's own entries, then those of each subgroup in turn. */
  function CollectEntries(g: Group): (r: seq<Entry>)
    ensures g.entries <= r
    decreases g, 1
  {
    g.entries + CollectAll(g.subgroups)
  }

  /** The entries of a list of sibling groups, one group after the other. */
  function CollectAll(gs: seq<Group>): seq<Entry>
    decreases gs, 0
  {
    if gs == [] then [] else CollectEntries(gs[0]) + CollectAll(gs[1..])
  }

  /** The UUIDs of a list of entries. */
  function UuidsOf(es: seq<Entry>): (r: set<nat>)
    ensures forall e :: e in es ==> e.uuid in r
  {
    if es == [] then {} else {es[0].uuid} + UuidsOf(es[1..])
  }

  /** An entry of `es` that carries the UUID `u`: every UUID in `UuidsOf(es)`
      comes from an entry of `es`. */
  function WithUuid(es: seq<Entry>, u: nat): (e: Entry)
    requires u in UuidsOf(es)
    ensures e in es && e.uuid == u
  {
    if es[0].uuid == u then es[0] else WithUuid(es[1..], u)
  }

  /** The entries of `es` whose UUID is not in `gone`, in their order. */
  function Drop(es: seq<Entry>, gone: set<nat>): (r: seq<Entry>)
    ensures |r| <= |es|
    ensures forall e :: e in r <==> e in es && e.uuid !in gone
  {
    if es == [] then []
    else (if es[0].uuid in gone then [] else [es[0]]) + Drop(es[1..], gone)
  }

  /** The tree after deleting every entry whose UUID is in `gone`, wherever it
      sits; group names and the group structure are untouched. */
  function Prune(g: Group, gone: set<nat>): (r: Group)
    ensures r.name == g.name && |r.subgroups| == |g.subgroups|
    ensures forall e :: e in r.entries <==> e in g.entries && e.uuid !in gone
    decreases g, 1
  {
    Group(g.name, Drop(g.entries, gone), PruneAll(g.subgroups, gone))
  }

  function PruneAll(gs: seq<Group>, gone: set<nat>): (r: seq<Group>)
    ensures |r| == |gs|
    ensures forall k :: 0 <= k < |gs| ==> r[k].name == gs[k].name
    decreases gs, 0
  {
    if gs == [] then [] else [Prune(gs[0], gone)] + PruneAll(gs[1..], gone)
  }

  lemma {:induction false} PruneAllAt(gs: seq<Group>, gone: set<nat>, k: nat)
    requires k < |gs|
    ensures PruneAll(gs, gone)[k] == Prune(gs[k], gone)
  {
    if k > 0 {
      PruneAllAt(gs[1..], gone, k - 1);
    }
  }

  /** The opened database, reduced to its root group. The tool changes it only
      through `DeleteEntry`. */
  class Database {
    var root: Group

    constructor (root: Group)
      ensures this.root == root
    {
      this.root := root;
    }

    /** `kp.delete_entry(entry)`: the entry is removed from the group that holds it. */
    method DeleteEntry(e: Entry)
      modifies this
      ensures root == Prune(old(root), {e.uuid})
    {
      root := Prune(root, {e.uuid});
    }
  }

  // ---------------------------------------------------------------------------
  // Properties of the collection order and of deletion

  lemma {:induction false} DropAppend(a: seq<Entry>, b: seq<Entry>, gone: set<nat>)
    ensures Drop(a + b, gone) == Drop(a, gone) + Drop(b, gone)
  {
    if a == [] {
      assert a + b == b;
    } else {
      assert (a + b)[1..] == a[1..] + b;
      DropAppend(a[1..], b, gone);
    }
  }

  lemma {:induction false} DropDrop(es: seq<Entry>, gone: set<nat>, more: set<nat>)
    ensures Drop(Drop(es, gone), more) == Drop(es, gone + more)
  {
    if es != [] {
      DropDrop(es[1..], gone, more);
      DropAppend(if es[0].uuid in gone then [] else [es[0]], Drop(es[1..], gone), more);
    }
  }

  lemma {:induction false} DropNothing(es: seq<Entry>)
    ensures Drop(es, {}) == es
  {
    if es != [] {
      DropNothing(es[1..]);
    }
  }

  lemma {:induction false} CollectAllAppend(a: seq<Group>, b: seq<Group>)
    ensures CollectAll(a + b) == CollectAll(a) + CollectAll(b)
  {
    if a == [] {
      assert a + b == b;
    } else {
      assert (a + b)[1..] == a[1..] + b;
      CollectAllAppend(a[1..], b);
    }
  }

  /** Pre-order: the group's own entries come first, then subgroup `k`'s
      entries form one contiguous block, after the blocks of the subgroups
      before it and before those of the subgroups after it. */
  lemma {:induction false} CollectEntriesPreorder(g: Group, k: nat)
    requires k < |g.subgroups|
    ensures CollectEntries(g) == g.entries + CollectAll(g.subgroups[..k])
                               + CollectEntries(g.subgroups[k]) + CollectAll(g.subgroups[k + 1..])
  {
    var gs := g.subgroups;
    assert gs == gs[..k] + gs[k..];
    CollectAllAppend(gs[..k], gs[k..]);
    assert gs[k..][1..] == gs[k + 1..];
  }

  /** The number of entries in a subtree, counted group by group. */
  function EntryCount(g: Group): nat
    decreases g, 1
  {
    |g.entries| + EntryCountAll(g.subgroups)
  }

  function EntryCountAll(gs: seq<Group>): nat
    decreases gs, 0
  {
    if gs == [] then 0 else EntryCount(gs[0]) + EntryCountAll(gs[1..])
  }

  /** `collect_entries` returns every entry of the subtree once per occurrence:
      its length is the subtree's entry count. */
  lemma {:induction false} CollectEntriesLength(g: Group)
    ensures |CollectEntries(g)| == EntryCount(g)
    decreases g, 1
  {
    CollectAllLength(g.subgroups);
  }

  lemma {:induction false} CollectAllLength(gs: seq<Group>)
    ensures |CollectAll(gs)| == EntryCountAll(gs)
    decreases gs, 0
  {
    if gs != [] {
      CollectEntriesLength(gs[0]);
      CollectAllLength(gs[1..]);
    }
  }

  /** An entry is collected from a group exactly when it is one of the group's
      own entries or is collected from one of its subgroups. */
  lemma CollectEntriesMembers(g: Group, e: Entry)
    ensures e in CollectEntries(g) <==>
              e in g.entries || exists k :: 0 <= k < |g.subgroups| && e in CollectEntries(g.subgroups[k])
  {
    CollectAllMembers(g.subgroups, e);
  }

  lemma {:induction false} CollectAllMembers(gs: seq<Group>, e: Entry)
    ensures e in CollectAll(gs) <==> exists k :: 0 <= k < |gs| && e in CollectEntries(gs[k])
  {
    if gs != [] {
      CollectAllMembers(gs[1..], e);
      if e in CollectAll(gs[1..]) {
        var k :| 0 <= k < |gs[1..]| && e in CollectEntries(gs[1..][k]);
        assert e in CollectEntries(gs[k + 1]);
      }
      if exists k :: 0 <= k < |gs| && e in CollectEntries(gs[k]) {
        var k :| 0 <= k < |gs| && e in CollectEntries(gs[k]);
        if k > 0 {
          assert gs[k] == gs[1..][k - 1];
        }
      }
    }
  }

  /** Collecting after a deletion gives the earlier collection without the
      deleted entries, in the same order. */
  lemma {:induction false} CollectPrune(g: Group, gone: set<nat>)
    ensures CollectEntries(Prune(g, gone)) == Drop(CollectEntries(g), gone)
    decreases g, 1
  {
    CollectAllPrune(g.subgroups, gone);
    DropAppend(g.entries, CollectAll(g.subgroups), gone);
  }

  lemma {:induction false} CollectAllPrune(gs: seq<Group>, gone: set<nat>)
    ensures CollectAll(PruneAll(gs, gone)) == Drop(CollectAll(gs), gone)
    decreases gs, 0
  {
    if gs != [] {
      CollectPrune(gs[0], gone);
      CollectAllPrune(gs[1..], gone);
      assert PruneAll(gs, gone)[1..] == PruneAll(gs[1..], gone);
      DropAppend(CollectEntries(gs[0]), CollectAll(gs[1..]), gone);
    }
  }

  /** Deleting in two steps is deleting the union at once; in particular
      successive `delete_entry` calls add up. */
  lemma {:induction false} PrunePrune(g: Group, gone: set<nat>, more: set<nat>)
    ensures Prune(Prune(g, gone), more) == Prune(g, gone + more)
    decreases g, 1
  {
    DropDrop(g.entries, gone, more);
    PruneAllPruneAll(g.subgroups, gone, more);
  }

  lemma {:induction false} PruneAllPruneAll(gs: seq<Group>, gone: set<nat>, more: set<nat>)
    ensures PruneAll(PruneAll(gs, gone), more) == PruneAll(gs, gone + more)
    decreases gs, 0
  {
    if gs != [] {
      PrunePrune(gs[0], gone, more);
      PruneAllPruneAll(gs[1..], gone, more);
      assert PruneAll(gs, gone)[1..] == PruneAll(gs[1..], gone);
    }
  }

  /** Deleting nothing leaves the tree as it is. */
  lemma {:induction false} PruneNothing(g: Group)
    ensures Prune(g, {}) == g
    decreases g, 1
  {
    DropNothing(g.entries);
    PruneAllNothing(g.subgroups);
  }

  lemma {:induction false} PruneAllNothing(gs: seq<Group>)
    ensures PruneAll(gs, {}) == gs
    decreases gs, 0
  {
    if gs != [] {
      PruneNothing(gs[0]);
      PruneAllNothing(gs[1..]);
    }
  }
}
