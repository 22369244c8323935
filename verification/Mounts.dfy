/** The worklist of hotspot_metrics.py that spreads "test-only" over a mount graph. */
module Mounts {
  import opened Common

  datatype Mount = Mount(child: string, testOnly: bool)

  type MountMap = map<string, seq<Mount>>
  type Flags = map<string, bool>

  /** `path_module_mounts().get(path, [])` */
  function Children(mounts: MountMap, path: string): seq<Mount> {
    if path in mounts then mounts[path] else []
  }

  // ---------------------------------------------------------------------
  // What the result must be: reachability and taint over mount walks
  // ---------------------------------------------------------------------

  /** Hop i of the walk is one of the mounts of its parent, with the recorded flag. */
  ghost predicate Hop(mounts: MountMap, files: seq<string>, flags: seq<bool>, i: nat) {
    i + 1 < |files| && i < |flags| && Mount(files[i + 1], flags[i]) in Children(mounts, files[i])
  }

  ghost predicate IsWalk(initial: Flags, mounts: MountMap, files: seq<string>, flags: seq<bool>) {
    && |files| > 0 && |flags| == |files| - 1
    && files[0] in initial
    && forall i :: 0 <= i < |flags| ==> Hop(mounts, files, flags, i)
  }

  /** The walk passes a file that starts flagged, or a test-only mount. */
  ghost predicate Tainted(initial: Flags, files: seq<string>, flags: seq<bool>) {
    || (exists i :: 0 <= i < |files| && files[i] in initial && initial[files[i]])
    || (exists i :: 0 <= i < |flags| && flags[i])
  }

  ghost predicate WalkTo(initial: Flags, mounts: MountMap, files: seq<string>, flags: seq<bool>, f: string) {
    IsWalk(initial, mounts, files, flags) && files[|files| - 1] == f
  }

  ghost predicate Reachable(initial: Flags, mounts: MountMap, f: string) {
    exists files, flags :: WalkTo(initial, mounts, files, flags, f)
  }

  ghost predicate TestOnly(initial: Flags, mounts: MountMap, f: string) {
    exists files, flags :: WalkTo(initial, mounts, files, flags, f) && Tainted(initial, files, flags)
  }

  lemma StartReachable(initial: Flags, mounts: MountMap, f: string)
    requires f in initial
    ensures Reachable(initial, mounts, f)
    ensures initial[f] ==> TestOnly(initial, mounts, f)
  {
    var files, flags: seq<bool> := [f], [];
    assert files[0] == f && |files| == 1;
    assert WalkTo(initial, mounts, files, flags, f);
    if initial[f] {
      assert files[0] in initial && initial[files[0]];
      assert Tainted(initial, files, flags);
    }
  }

  lemma ExtendedWalk(initial: Flags, mounts: MountMap, files: seq<string>, flags: seq<bool>, parent: string, m: Mount)
    requires WalkTo(initial, mounts, files, flags, parent) && m in Children(mounts, parent)
    ensures WalkTo(initial, mounts, files + [m.child], flags + [m.testOnly], m.child)
    ensures Tainted(initial, files, flags) || m.testOnly ==> Tainted(initial, files + [m.child], flags + [m.testOnly])
  {
    var files', flags' := files + [m.child], flags + [m.testOnly];
    forall i | 0 <= i < |flags'|
      ensures Hop(mounts, files', flags', i)
    {
      if i < |flags| {
        assert Hop(mounts, files, flags, i);
      }
    }
    if m.testOnly {
      assert flags'[|flags|];
    } else if i :| 0 <= i < |files| && files[i] in initial && initial[files[i]] {
      assert files'[i] == files[i];
    } else if i :| 0 <= i < |flags| && flags[i] {
      assert flags'[i];
    }
  }

  /** A mount passes reachability and taint on to its child. */
  lemma ChildReachable(initial: Flags, mounts: MountMap, parent: string, m: Mount)
    requires Reachable(initial, mounts, parent) && m in Children(mounts, parent)
    ensures Reachable(initial, mounts, m.child)
    ensures TestOnly(initial, mounts, parent) || m.testOnly ==> TestOnly(initial, mounts, m.child)
  {
    hide WalkTo;
    hide Tainted;
    var files, flags :| WalkTo(initial, mounts, files, flags, parent);
    ExtendedWalk(initial, mounts, files, flags, parent, m);
    if TestOnly(initial, mounts, parent) {
      var ts, fs :| WalkTo(initial, mounts, ts, fs, parent) && Tainted(initial, ts, fs);
      ExtendedWalk(initial, mounts, ts, fs, parent, m);
    }
  }

  // ---------------------------------------------------------------------
  // A closed table contains everything reachable
  // ---------------------------------------------------------------------

  ghost predicate Includes(files: Flags, initial: Flags) {
    forall f :: f in initial ==> f in files && (initial[f] ==> files[f])
  }

  ghost predicate EdgeSettled(files: Flags, parent: string, m: Mount)
    requires parent in files
  {
    m.child in files && (files[parent] || m.testOnly ==> files[m.child])
  }

  ghost predicate Settled(files: Flags, mounts: MountMap, parent: string)
    requires parent in files
  {
    forall k :: 0 <= k < |Children(mounts, parent)| ==> EdgeSettled(files, parent, Children(mounts, parent)[k])
  }

  lemma {:induction false} ClosedTableCoversWalk(
      files: Flags, initial: Flags, mounts: MountMap, walk: seq<string>, flags: seq<bool>)
    requires Includes(files, initial)
    requires forall f :: f in files ==> Settled(files, mounts, f)
    requires IsWalk(initial, mounts, walk, flags)
    ensures walk[|walk| - 1] in files
    ensures Tainted(initial, walk, flags) ==> files[walk[|walk| - 1]]
    decreases |walk|
  {
    var n := |walk| - 1;
    var last := walk[n];
    if n > 0 {
      var init, initFlags := walk[..n], flags[..n - 1];
      forall i | 0 <= i < |initFlags|
        ensures Hop(mounts, init, initFlags, i)
      {
        assert Hop(mounts, walk, flags, i);
      }
      ClosedTableCoversWalk(files, initial, mounts, init, initFlags);
      assert Hop(mounts, walk, flags, n - 1);
      var parent := walk[n - 1];
      assert Settled(files, mounts, parent);
      var k :| 0 <= k < |Children(mounts, parent)| && Children(mounts, parent)[k] == Mount(last, flags[n - 1]);
      assert EdgeSettled(files, parent, Children(mounts, parent)[k]);
      if Tainted(initial, walk, flags) && !flags[n - 1] && !(last in initial && initial[last]) {
        TaintInPrefix(initial, walk, flags);
      }
    }
  }

  lemma TaintInPrefix(initial: Flags, walk: seq<string>, flags: seq<bool>)
    requires |walk| >= 2 && |flags| == |walk| - 1 && Tainted(initial, walk, flags)
    requires var n := |walk| - 1; !flags[n - 1] && !(walk[n] in initial && initial[walk[n]])
    ensures Tainted(initial, walk[..|walk| - 1], flags[..|walk| - 2])
  {
    var n := |walk| - 1;
    if i :| 0 <= i < |walk| && walk[i] in initial && initial[walk[i]] {
      assert i < n && walk[..n][i] == walk[i];
    } else {
      var i :| 0 <= i < |flags| && flags[i];
      assert i < n - 1 && flags[..n - 1][i];
    }
  }

  // ---------------------------------------------------------------------
  // The worklist
  // ---------------------------------------------------------------------

  /** Every file the table can ever mention. */
  ghost function Universe(initial: Flags, mounts: MountMap): set<string> {
    initial.Keys + set p, k | p in mounts && 0 <= k < |mounts[p]| :: mounts[p][k].child
  }

  ghost function Flagged(files: Flags): set<string> {
    set f | f in files && files[f]
  }

  /** Room left for the table to grow or for flags to rise. */
  ghost function Slack(universe: set<string>, files: Flags): int {
    2 * |universe| - |files.Keys| - |Flagged(files)|
  }

  lemma SlackBounds(universe: set<string>, files: Flags)
    requires files.Keys <= universe
    ensures Slack(universe, files) >= 0
  {
    SubsetSize(files.Keys, universe);
    SubsetSize(Flagged(files), universe);
  }

  /** Adding a file, or raising the flag of one, uses up slack. */
  lemma UpdateUsesSlack(universe: set<string>, files: Flags, child: string, flag: bool)
    requires child !in files || (flag && !files[child])
    ensures Slack(universe, files[child := flag]) < Slack(universe, files)
  {
    var after := files[child := flag];
    if child in files {
      assert after.Keys == files.Keys;
      assert Flagged(after) == Flagged(files) + {child};
    } else {
      assert after.Keys == files.Keys + {child};
      assert flag ==> Flagged(after) == Flagged(files) + {child};
      assert !flag ==> Flagged(after) == Flagged(files);
    }
  }

  /** Everything found so far is justified by a walk. */
  ghost predicate Justified(files: Flags, initial: Flags, mounts: MountMap) {
    forall f :: f in files ==>
      Reachable(initial, mounts, f) && (files[f] ==> TestOnly(initial, mounts, f))
  }

  /** Files not waiting in `pending` have been read and their edges are settled. */
  ghost predicate Processed(files: Flags, mounts: MountMap, pending: seq<string>, readable: set<string>) {
    && (forall f :: f in pending ==> f in files)
    && (forall f :: f in files ==> f in pending || (Settled(files, mounts, f) && f in readable))
  }

  /** Raising one entry keeps every other file's edges settled. */
  lemma UpdateKeepsSettled(files: Flags, mounts: MountMap, child: string, flag: bool, f: string)
    requires f in files && f != child && Settled(files, mounts, f)
    requires child !in files || (flag && !files[child])
    ensures Settled(files[child := flag], mounts, f)
  {
    var after := files[child := flag];
    forall k | 0 <= k < |Children(mounts, f)|
      ensures EdgeSettled(after, f, Children(mounts, f)[k])
    {
      assert EdgeSettled(files, f, Children(mounts, f)[k]);
    }
  }

  /** While the first k mounts of `parent` have been followed. */
  ghost predicate Following(
      files: Flags, mounts: MountMap, pending: seq<string>, readable: set<string>, parent: string, k: nat)
  {
    && parent in files && k <= |Children(mounts, parent)|
    && (forall f :: f in pending ==> f in files)
    && (forall f :: f in files ==> f in pending || f == parent || (Settled(files, mounts, f) && f in readable))
    && (parent in pending || forall i :: 0 <= i < k ==> EdgeSettled(files, parent, Children(mounts, parent)[i]))
  }

  /** Pushing the child of mount k after raising its entry. */
  lemma FollowedByPush(
      files: Flags, mounts: MountMap, pending: seq<string>, readable: set<string>, parent: string, k: nat, testOnly: bool)
    requires Following(files, mounts, pending, readable, parent, k) && k < |Children(mounts, parent)|
    requires var m := Children(mounts, parent)[k];
      parent in files && testOnly == (files[parent] || m.testOnly) && (m.child !in files || (testOnly && !files[m.child]))
    ensures var child := Children(mounts, parent)[k].child;
      Following(files[child := testOnly], mounts, pending + [child], readable, parent, k + 1)
  {
    var m := Children(mounts, parent)[k];
    var after := files[m.child := testOnly];
    forall f | f in after
      ensures f in pending + [m.child] || f == parent || (Settled(after, mounts, f) && f in readable)
    {
      if f != m.child && f != parent && f !in pending {
        UpdateKeepsSettled(files, mounts, m.child, testOnly, f);
      }
    }
    if parent !in pending + [m.child] {
      forall i | 0 <= i < k + 1
        ensures EdgeSettled(after, parent, Children(mounts, parent)[i])
      {
        assert i < k ==> EdgeSettled(files, parent, Children(mounts, parent)[i]);
      }
    }
  }

  lemma Followed(files: Flags, mounts: MountMap, pending: seq<string>, readable: set<string>, parent: string)
    requires parent in readable && Following(files, mounts, pending, readable, parent, |Children(mounts, parent)|)
    ensures Processed(files, mounts, pending, readable)
  {
  }

  /** The inner loop over the mounts of one parent. */
  method FollowMounts(initial: Flags, mounts: MountMap, readable: set<string>, before: Flags, waiting: seq<string>, parent: string)
    returns (files: Flags, pending: seq<string>)
    requires parent in before && parent in readable
    requires Processed(before, mounts, waiting + [parent], readable)
    requires Justified(before, initial, mounts) && Includes(before, initial)
    requires before.Keys <= Universe(initial, mounts)
    ensures Processed(files, mounts, pending, readable)
    ensures Justified(files, initial, mounts) && Includes(files, initial)
    ensures files.Keys <= Universe(initial, mounts)
    ensures var u := Universe(initial, mounts);
      Slack(u, files) < Slack(u, before) || (Slack(u, files) == Slack(u, before) && pending == waiting)
  {
    hide Slack, TestOnly, Reachable, Settled, Processed, Universe, EdgeSettled;
    files, pending := before, waiting;
    var children := Children(mounts, parent);
    ghost var u := Universe(initial, mounts);
    StartFollowing(files, mounts, pending, readable, parent);
    for k := 0 to |children|
      invariant Following(files, mounts, pending, readable, parent, k)
      invariant Justified(files, initial, mounts) && Includes(files, initial)
      invariant files.Keys <= u
      invariant Slack(u, files) < Slack(u, before) || (Slack(u, files) == Slack(u, before) && pending == waiting)
    {
      hide Following;
      var m := children[k];
      assert m in Children(mounts, parent);
      FollowingBounds(files, mounts, pending, readable, parent, k);
      ChildReachable(initial, mounts, parent, m);
      ChildInUniverse(initial, mounts, parent, m);
      var testOnly := files[parent] || m.testOnly;
      if m.child !in files || (testOnly && !files[m.child]) {
        UpdateUsesSlack(u, files, m.child, testOnly);
        FollowedByPush(files, mounts, pending, readable, parent, k, testOnly);
        files := files[m.child := testOnly];
        pending := pending + [m.child];
      } else {
        FollowedWithoutPush(files, mounts, pending, readable, parent, k);
      }
    }
    Followed(files, mounts, pending, readable, parent);
  }

  lemma StartFollowing(files: Flags, mounts: MountMap, pending: seq<string>, readable: set<string>, parent: string)
    requires parent in files && Processed(files, mounts, pending + [parent], readable)
    ensures Following(files, mounts, pending, readable, parent, 0)
  {
    hide Settled;
  }

  lemma FollowingBounds(
      files: Flags, mounts: MountMap, pending: seq<string>, readable: set<string>, parent: string, k: nat)
    requires Following(files, mounts, pending, readable, parent, k)
    ensures parent in files
  {
  }

  lemma FollowedWithoutPush(
      files: Flags, mounts: MountMap, pending: seq<string>, readable: set<string>, parent: string, k: nat)
    requires Following(files, mounts, pending, readable, parent, k) && k < |Children(mounts, parent)|
    requires parent in files && EdgeSettled(files, parent, Children(mounts, parent)[k])
    ensures Following(files, mounts, pending, readable, parent, k + 1)
  {
  }

  lemma ChildInUniverse(initial: Flags, mounts: MountMap, parent: string, m: Mount)
    requires m in Children(mounts, parent)
    ensures m.child in Universe(initial, mounts)
  {
    var k :| 0 <= k < |mounts[parent]| && mounts[parent][k] == m;
  }

  method KeysOf(files: Flags) returns (keys: seq<string>)
    ensures forall f :: f in keys <==> f in files
  {
    keys := [];
    var todo := files.Keys;
    while todo != {}
      invariant todo <= files.Keys
      invariant forall f :: f in files <==> f in todo || f in keys
      decreases todo
    {
      var f :| f in todo;
      todo := todo - {f};
      keys := keys + [f];
    }
  }

  /**
   * The table holds exactly the files reachable from the initial ones, flagged exactly
   * when some mount walk to them is tainted; it fails exactly when one of them cannot
   * be read.
   */
  method LogicalHotspotFiles(initial: Flags, mounts: MountMap, readable: set<string>)
    returns (r: Result<Flags, string>)
    ensures r.Ok? ==>
      && (forall f :: f in r.value <==> Reachable(initial, mounts, f))
      && (forall f :: f in r.value ==> (r.value[f] <==> TestOnly(initial, mounts, f)))
    ensures r.Ok? <==> forall f :: Reachable(initial, mounts, f) ==> f in readable
    ensures r.Err? ==> Reachable(initial, mounts, r.error) && r.error !in readable
  {
    hide Slack, TestOnly, Reachable, Settled;
    var files := initial;
    var pending := KeysOf(files);
    forall f | f in initial
      ensures Reachable(initial, mounts, f) && (initial[f] ==> TestOnly(initial, mounts, f))
    {
      StartReachable(initial, mounts, f);
    }
    ghost var u := Universe(initial, mounts);
    while pending != []
      invariant Processed(files, mounts, pending, readable)
      invariant Justified(files, initial, mounts) && Includes(files, initial)
      invariant files.Keys <= u
      decreases Slack(u, files), |pending|
    {
      var parent := pending[|pending| - 1];
      assert parent in pending;
      if parent !in readable {
        return Err(parent);
      }
      assert pending == pending[..|pending| - 1] + [parent];
      SlackBounds(u, files);
      files, pending := FollowMounts(initial, mounts, readable, files, pending[..|pending| - 1], parent);
      SlackBounds(u, files);
    }
    forall f | Reachable(initial, mounts, f)
      ensures f in files && (TestOnly(initial, mounts, f) ==> files[f])
    {
      ClosedTableIsComplete(files, initial, mounts, f);
    }
    return Ok(files);
  }

  lemma ClosedTableIsComplete(files: Flags, initial: Flags, mounts: MountMap, f: string)
    requires Includes(files, initial)
    requires forall g :: g in files ==> Settled(files, mounts, g)
    requires Reachable(initial, mounts, f)
    ensures f in files && (TestOnly(initial, mounts, f) ==> files[f])
  {
    var walk, flags :| WalkTo(initial, mounts, walk, flags, f);
    ClosedTableCoversWalk(files, initial, mounts, walk, flags);
    if TestOnly(initial, mounts, f) {
      var ts, fs :| WalkTo(initial, mounts, ts, fs, f) && Tainted(initial, ts, fs);
      ClosedTableCoversWalk(files, initial, mounts, ts, fs);
    }
  }
}
