/** `validate_issue_ledger` of check_policy.py, over typed records. */
module Ledger {
  import opened Common
  import opened CycleCheck

  datatype IssueState = Open | Closed

  datatype IssueKind = Epic | Slice

  datatype Issue = Issue(number: int, state: IssueState, kind: IssueKind, parents: seq<int>, dependsOn: seq<int>)

  datatype External = External(number: int, state: IssueState)

  datatype IssueLedger = IssueLedger(
    parentIssue: int, reauditIssue: int, issues: seq<Issue>, externals: seq<External>, sequence: seq<int>)

  type Entries = map<int, Issue>
  type ExternalEntries = map<int, External>

  datatype LedgerError =
    | BadParentIssue | BadReauditIssue | NoIssues
    | BadExternalNumber(index: nat) | DuplicateExternal(number: int)
    | BadIssueNumber(index: nat) | BadReferenceList(number: int) | DuplicateIssue(number: int)
    | DeclaredTwice
    | UnknownParent(number: int) | NonEpicParent(number: int) | UnknownDependency(number: int)
    | ClosedDependsOnOpen(number: int)
    | DesignatedAbsent | DesignatedClosed | ParentNotEpic | ReauditNotSlice
    | EmptySequence | BadSequenceNumber | DuplicateInSequence | UnknownInSequence | EpicInSequence | Unsequenced
    | DependencyCycle(cycle: seq<int>)
    | NotTopological

  // ---------------------------------------------------------------------
  // What an acceptable ledger is
  // ---------------------------------------------------------------------

  predicate AllPositive(s: seq<int>) {
    forall i :: 0 <= i < |s| ==> s[i] > 0
  }

  predicate ReferenceListOk(number: int, values: seq<int>) {
    AllPositive(values) && Distinct(values) && number !in values
  }

  predicate IssueShapeOk(issue: Issue) {
    issue.number > 0 && ReferenceListOk(issue.number, issue.parents) && ReferenceListOk(issue.number, issue.dependsOn)
  }

  /** The items under their numbers; a later item replaces an earlier one with its number. */
  function ByNumber<T>(items: seq<T>, number: T -> int): (m: map<int, T>)
    ensures forall n :: n in m ==> number(m[n]) == n && m[n] in items
    ensures forall k :: 0 <= k < |items| ==> number(items[k]) in m
  {
    if items == [] then map[]
    else
      var last := items[|items| - 1];
      ByNumber(items[..|items| - 1], number)[number(last) := last]
  }

  lemma ByNumberKeys<T>(items: seq<T>, number: T -> int, n: int)
    ensures n in ByNumber(items, number) <==> exists k :: 0 <= k < |items| && number(items[k]) == n
  {
    if n in ByNumber(items, number) {
      var item := ByNumber(items, number)[n];
      var k :| 0 <= k < |items| && items[k] == item;
    }
  }

  lemma ByNumberSnoc<T>(items: seq<T>, number: T -> int, k: nat)
    requires k < |items|
    ensures ByNumber(items[..k + 1], number) == ByNumber(items[..k], number)[number(items[k]) := items[k]]
  {
    assert items[..k + 1][..k] == items[..k];
  }

  lemma TakeOneMore<T>(items: seq<T>, k: nat)
    requires k < |items|
    ensures items[..k + 1] == items[..k] + [items[k]]
  {
  }

  function EntriesOf(issues: seq<Issue>): (m: Entries)
    ensures forall n :: n in m ==> m[n].number == n && m[n] in issues
    ensures forall k :: 0 <= k < |issues| ==> issues[k].number in m
  {
    ByNumber(issues, IssueNumber)
  }

  function ExternalsOf(externals: seq<External>): (m: ExternalEntries)
    ensures forall n :: n in m ==> m[n].number == n && m[n] in externals
    ensures forall k :: 0 <= k < |externals| ==> externals[k].number in m
  {
    ByNumber(externals, ExternalNumber)
  }

  function IssueNumber(issue: Issue): int { issue.number }

  function ExternalNumber(external: External): int { external.number }

  predicate IssuesOk(issues: seq<Issue>) {
    && (forall k :: 0 <= k < |issues| ==> IssueShapeOk(issues[k]))
    && (forall i, j :: 0 <= i < j < |issues| ==> issues[i].number != issues[j].number)
  }

  predicate ExternalsOk(externals: seq<External>) {
    && (forall k :: 0 <= k < |externals| ==> externals[k].number > 0)
    && (forall i, j :: 0 <= i < j < |externals| ==> externals[i].number != externals[j].number)
  }

  /** The issue or external prerequisite with this number is closed. */
  predicate IsClosed(entries: Entries, externals: ExternalEntries, n: int) {
    if n in entries then entries[n].state.Closed? else n in externals && externals[n].state.Closed?
  }

  predicate ReferencesOk(issue: Issue, entries: Entries, externals: ExternalEntries) {
    && (forall p :: p in issue.parents ==> p in entries && entries[p].kind.Epic?)
    && (forall d :: d in issue.dependsOn ==> d in entries || d in externals)
    && (issue.state.Closed? ==> forall d :: d in issue.dependsOn ==> IsClosed(entries, externals, d))
  }

  predicate DesignatedOk(ledger: IssueLedger, entries: Entries) {
    && ledger.parentIssue in entries && ledger.reauditIssue in entries
    && entries[ledger.parentIssue].state.Open? && entries[ledger.reauditIssue].state.Open?
    && entries[ledger.parentIssue].kind.Epic? && entries[ledger.reauditIssue].kind.Slice?
  }

  predicate IsSlice(entries: Entries, n: int) {
    n in entries && entries[n].kind.Slice?
  }

  /** The sequence lists every slice exactly once, and nothing else. */
  predicate SequenceOk(sequence: seq<int>, entries: Entries) {
    && sequence != [] && AllPositive(sequence) && Distinct(sequence)
    && (forall n :: n in sequence ==> IsSlice(entries, n))
    && (forall n :: n in entries && entries[n].kind.Slice? ==> n in sequence)
  }

  /** Dependencies on other ledger issues; external prerequisites have no dependencies of their own. */
  function InnerDependencies(deps: seq<int>, entries: Entries): (r: seq<int>)
    ensures forall d :: d in r <==> d in deps && d in entries
  {
    if deps == [] then []
    else (if deps[0] in entries then [deps[0]] else []) + InnerDependencies(deps[1..], entries)
  }

  function GraphOf(entries: Entries): (g: Graph)
    ensures g.Keys == entries.Keys
    ensures forall n, d :: n in g && d in g[n] <==> n in entries && d in entries[n].dependsOn && d in entries
  {
    map n | n in entries :: InnerDependencies(entries[n].dependsOn, entries)
  }

  /** Every slice comes after the slices it depends on. */
  predicate OrderOk(issue: Issue, entries: Entries, sequence: seq<int>)
    requires SequenceOk(sequence, entries)
    requires issue.number in entries && entries[issue.number] == issue
  {
    issue.kind.Slice? ==>
      forall d :: d in issue.dependsOn && IsSlice(entries, d) ==>
        FirstIndex(sequence, d) < FirstIndex(sequence, issue.number)
  }

  /** The tables an accepted ledger leaves behind: sound references, a complete sequence, no cycle, slices in order. */
  ghost predicate TablesOk(entries: Entries, externals: ExternalEntries, sequence: seq<int>) {
    && (forall n :: n in entries ==> entries[n].number == n)
    && (forall n :: n in entries ==> ReferencesOk(entries[n], entries, externals))
    && SequenceOk(sequence, entries)
    && Acyclic(GraphOf(entries))
    && (forall n :: n in entries ==> OrderOk(entries[n], entries, sequence))
  }

  ghost predicate LedgerOk(ledger: IssueLedger) {
    && ledger.parentIssue > 0 && ledger.reauditIssue > 0 && ledger.issues != []
    && ExternalsOk(ledger.externals) && IssuesOk(ledger.issues)
    && var entries, externals := EntriesOf(ledger.issues), ExternalsOf(ledger.externals);
    && entries.Keys !! externals.Keys && DesignatedOk(ledger, entries)
    && TablesOk(entries, externals, ledger.sequence)
  }

  /** In an accepted ledger numbers are positive, and no issue refers to itself or to another issue twice. */
  lemma ReferencesNameOthersOnce(ledger: IssueLedger, k: nat)
    requires LedgerOk(ledger) && k < |ledger.issues|
    ensures var issue := ledger.issues[k];
      && issue.number > 0
      && (forall i :: 0 <= i < |issue.parents| ==> issue.parents[i] > 0 && issue.parents[i] != issue.number)
      && (forall i :: 0 <= i < |issue.dependsOn| ==> issue.dependsOn[i] > 0 && issue.dependsOn[i] != issue.number)
      && (forall i, j :: 0 <= i < j < |issue.parents| ==> issue.parents[i] != issue.parents[j])
      && (forall i, j :: 0 <= i < j < |issue.dependsOn| ==> issue.dependsOn[i] != issue.dependsOn[j])
  {
    hide TablesOk, EntriesOf, ExternalsOf, DesignatedOk, ExternalsOk;
    assert IssueShapeOk(ledger.issues[k]);
  }

  // ---------------------------------------------------------------------
  // The checks, pass by pass
  // ---------------------------------------------------------------------

  lemma EntriesKeysAre(issues: seq<Issue>, n: int)
    ensures n in EntriesOf(issues) <==> exists k :: 0 <= k < |issues| && issues[k].number == n
  {
    ByNumberKeys(issues, IssueNumber, n);
  }

  lemma EntryIsIssue(issues: seq<Issue>, k: nat)
    requires k < |issues| && IssuesOk(issues)
    ensures EntriesOf(issues)[issues[k].number] == issues[k]
  {
    var n := issues[k].number;
    var entry := EntriesOf(issues)[n];
    var j :| 0 <= j < |issues| && issues[j] == entry;
    assert issues[j].number == issues[k].number;
  }

  lemma ExternalsOkAppend(init: seq<External>, x: External)
    ensures ExternalsOk(init + [x]) <==> ExternalsOk(init) && x.number > 0 && x.number !in ExternalsOf(init)
  {
    hide ExternalsOf;
    var all := init + [x];
    assert forall i :: 0 <= i < |init| ==> all[i] == init[i];
    assert all[|init|] == x;
    ExternalKeysAre(init, x.number);
    if x.number in ExternalsOf(init) {
      var i :| 0 <= i < |init| && init[i].number == x.number;
      assert all[i].number == all[|init|].number;
    }
  }

  lemma ExternalKeysAre(externals: seq<External>, n: int)
    ensures n in ExternalsOf(externals) <==> exists k :: 0 <= k < |externals| && externals[k].number == n
  {
    ByNumberKeys(externals, ExternalNumber, n);
  }

  lemma ExternalsSnoc(externals: seq<External>, k: nat)
    requires k < |externals|
    ensures ExternalsOf(externals[..k + 1]) == ExternalsOf(externals[..k])[externals[k].number := externals[k]]
    ensures ExternalsOk(externals[..k + 1]) <==>
      ExternalsOk(externals[..k]) && externals[k].number > 0 && externals[k].number !in ExternalsOf(externals[..k])
    ensures ExternalsOk(externals) ==> ExternalsOk(externals[..k + 1])
  {
    ExternalsPrefix(externals, k + 1);
    ByNumberSnoc(externals, ExternalNumber, k);
    hide ByNumber, ExternalsOk;
    TakeOneMore(externals, k);
    ExternalsOkAppend(externals[..k], externals[k]);
  }

  lemma ExternalsPrefix(externals: seq<External>, k: nat)
    requires k <= |externals|
    ensures ExternalsOk(externals) ==> ExternalsOk(externals[..k])
  {
  }

  method CollectExternals(externals: seq<External>) returns (r: Result<ExternalEntries, LedgerError>)
    ensures r.Ok? <==> ExternalsOk(externals)
    ensures r.Ok? ==> r.value == ExternalsOf(externals)
    ensures r.Err? ==> !r.error.DependencyCycle?
  {
    hide ExternalsOf, ExternalsOk;
    var m: ExternalEntries := map[];
    EmptyTables();
    for k := 0 to |externals|
      invariant m == ExternalsOf(externals[..k]) && ExternalsOk(externals[..k])
    {
      var entry := externals[k];
      ExternalsSnoc(externals, k);
      if entry.number <= 0 {
        return Err(BadExternalNumber(k));
      }
      if entry.number in m {
        return Err(DuplicateExternal(entry.number));
      }
      m := m[entry.number := entry];
    }
    assert externals[..|externals|] == externals;
    return Ok(m);
  }

  lemma EmptyTables()
    ensures ExternalsOf([]) == map[] && ExternalsOk([]) && EntriesOf([]) == map[] && IssuesOk([])
  {
  }

  lemma IssuesOkAppend(init: seq<Issue>, x: Issue)
    ensures IssuesOk(init + [x]) <==> IssuesOk(init) && IssueShapeOk(x) && x.number !in EntriesOf(init)
  {
    hide IssueShapeOk, EntriesOf;
    var all := init + [x];
    assert forall i :: 0 <= i < |init| ==> all[i] == init[i];
    assert all[|init|] == x;
    EntriesKeysAre(init, x.number);
    if x.number in EntriesOf(init) {
      var i :| 0 <= i < |init| && init[i].number == x.number;
      assert all[i].number == all[|init|].number;
    }
  }

  lemma IssuesSnoc(issues: seq<Issue>, k: nat)
    requires k < |issues|
    ensures EntriesOf(issues[..k + 1]) == EntriesOf(issues[..k])[issues[k].number := issues[k]]
    ensures IssuesOk(issues[..k + 1]) <==>
      IssuesOk(issues[..k]) && IssueShapeOk(issues[k]) && issues[k].number !in EntriesOf(issues[..k])
    ensures IssuesOk(issues) ==> IssuesOk(issues[..k + 1])
  {
    IssuesPrefix(issues, k + 1);
    ByNumberSnoc(issues, IssueNumber, k);
    hide ByNumber, IssuesOk, IssueShapeOk;
    TakeOneMore(issues, k);
    IssuesOkAppend(issues[..k], issues[k]);
  }

  lemma IssuesPrefix(issues: seq<Issue>, k: nat)
    requires k <= |issues|
    ensures IssuesOk(issues) ==> IssuesOk(issues[..k])
  {
    hide IssueShapeOk;
  }

  method CollectIssues(issues: seq<Issue>) returns (r: Result<Entries, LedgerError>)
    ensures r.Ok? <==> IssuesOk(issues)
    ensures r.Ok? ==> r.value == EntriesOf(issues)
    ensures r.Err? ==> !r.error.DependencyCycle?
  {
    hide EntriesOf, IssuesOk;
    var m: Entries := map[];
    EmptyTables();
    for k := 0 to |issues|
      invariant m == EntriesOf(issues[..k]) && IssuesOk(issues[..k])
    {
      var entry := issues[k];
      IssuesSnoc(issues, k);
      if entry.number <= 0 {
        return Err(BadIssueNumber(k));
      }
      if !ReferenceListOk(entry.number, entry.parents) || !ReferenceListOk(entry.number, entry.dependsOn) {
        return Err(BadReferenceList(entry.number));
      }
      if entry.number in m {
        return Err(DuplicateIssue(entry.number));
      }
      m := m[entry.number := entry];
    }
    assert issues[..|issues|] == issues;
    return Ok(m);
  }

  method CheckReferences(issues: seq<Issue>, entries: Entries, externals: ExternalEntries)
    returns (error: Option<LedgerError>)
    ensures error.None? <==> forall k :: 0 <= k < |issues| ==> ReferencesOk(issues[k], entries, externals)
    ensures error.Some? ==> !error.value.DependencyCycle?
  {
    for k := 0 to |issues|
      invariant forall i :: 0 <= i < k ==> ReferencesOk(issues[i], entries, externals)
    {
      var issue := issues[k];
      if exists p :: p in issue.parents && p !in entries {
        return Some(UnknownParent(issue.number));
      }
      if exists p :: p in issue.parents && !entries[p].kind.Epic? {
        return Some(NonEpicParent(issue.number));
      }
      if exists d :: d in issue.dependsOn && d !in entries && d !in externals {
        return Some(UnknownDependency(issue.number));
      }
      if issue.state.Closed? && exists d :: d in issue.dependsOn && !IsClosed(entries, externals, d) {
        return Some(ClosedDependsOnOpen(issue.number));
      }
    }
    return None;
  }

  method CheckDesignated(ledger: IssueLedger, entries: Entries) returns (error: Option<LedgerError>)
    ensures error.None? <==> DesignatedOk(ledger, entries)
    ensures error.Some? ==> !error.value.DependencyCycle?
  {
    var designated := [ledger.parentIssue, ledger.reauditIssue];
    for k := 0 to 2
      invariant forall i :: 0 <= i < k ==> designated[i] in entries && entries[designated[i]].state.Open?
    {
      if designated[k] !in entries {
        return Some(DesignatedAbsent);
      }
      if !entries[designated[k]].state.Open? {
        return Some(DesignatedClosed);
      }
    }
    assert designated[0] in entries && designated[1] in entries;
    if !entries[ledger.parentIssue].kind.Epic? {
      return Some(ParentNotEpic);
    }
    if !entries[ledger.reauditIssue].kind.Slice? {
      return Some(ReauditNotSlice);
    }
    return None;
  }

  method CheckSequence(sequence: seq<int>, entries: Entries) returns (error: Option<LedgerError>)
    ensures error.None? <==> SequenceOk(sequence, entries)
    ensures error.Some? ==> !error.value.DependencyCycle?
  {
    if sequence == [] {
      return Some(EmptySequence);
    }
    if !AllPositive(sequence) {
      return Some(BadSequenceNumber);
    }
    if !Distinct(sequence) {
      return Some(DuplicateInSequence);
    }
    if exists n :: n in sequence && n !in entries {
      return Some(UnknownInSequence);
    }
    if exists n :: n in sequence && entries[n].kind.Epic? {
      return Some(EpicInSequence);
    }
    if exists n :: n in entries && !entries[n].kind.Epic? && n !in sequence {
      return Some(Unsequenced);
    }
    return None;
  }

  /** The loop that compares positions before the search runs. */
  method FindOrderingErrors(issues: seq<Issue>, entries: Entries, sequence: seq<int>) returns (ok: bool)
    requires SequenceOk(sequence, entries)
    requires forall k :: 0 <= k < |issues| ==> issues[k].number in entries && entries[issues[k].number] == issues[k]
    ensures ok <==> forall k :: 0 <= k < |issues| ==> OrderOk(issues[k], entries, sequence)
  {
    ok := true;
    for k := 0 to |issues|
      invariant ok <==> forall i :: 0 <= i < k ==> OrderOk(issues[i], entries, sequence)
    {
      var issue := issues[k];
      if issue.kind.Slice?
         && exists d :: d in issue.dependsOn && IsSlice(entries, d)
              && FirstIndex(sequence, d) >= FirstIndex(sequence, issue.number) {
        ok := false;
        assert !OrderOk(issues[k], entries, sequence);
      }
    }
  }

  /** Ranging over the table is ranging over the list. */
  lemma TableIsList(issues: seq<Issue>)
    requires IssuesOk(issues)
    ensures forall k :: 0 <= k < |issues| ==> EntriesOf(issues)[issues[k].number] == issues[k]
    ensures forall n :: n in EntriesOf(issues) ==>
      exists k :: 0 <= k < |issues| && EntriesOf(issues)[n] == issues[k]
  {
    forall k | 0 <= k < |issues|
      ensures EntriesOf(issues)[issues[k].number] == issues[k]
    {
      EntryIsIssue(issues, k);
    }
    forall n | n in EntriesOf(issues)
      ensures exists k :: 0 <= k < |issues| && EntriesOf(issues)[n] == issues[k]
    {
      EntriesKeysAre(issues, n);
      var k :| 0 <= k < |issues| && issues[k].number == n;
      EntryIsIssue(issues, k);
    }
  }

  /** The passes that only read the tables. */
  method CheckTables(ledger: IssueLedger, entries: Entries, externals: ExternalEntries) returns (error: Option<LedgerError>)
    requires IssuesOk(ledger.issues) && entries == EntriesOf(ledger.issues)
    ensures error.None? <==>
      && (forall n :: n in entries ==> ReferencesOk(entries[n], entries, externals))
      && DesignatedOk(ledger, entries)
      && SequenceOk(ledger.sequence, entries)
    ensures error.Some? ==> !error.value.DependencyCycle?
  {
    hide ReferencesOk, DesignatedOk, SequenceOk, EntriesOf, IssuesOk;
    TableIsList(ledger.issues);
    error := CheckReferences(ledger.issues, entries, externals);
    if error.Some? {
      return;
    }
    error := CheckDesignated(ledger, entries);
    if error.Some? {
      return;
    }
    error := CheckSequence(ledger.sequence, entries);
  }

  /** Positions first, then the search; a cycle is reported before a misplaced slice. */
  method CheckOrder(ledger: IssueLedger, entries: Entries) returns (error: Option<LedgerError>)
    requires IssuesOk(ledger.issues) && entries == EntriesOf(ledger.issues)
    requires SequenceOk(ledger.sequence, entries)
    ensures error.None? <==>
      && Acyclic(GraphOf(entries))
      && (forall n :: n in entries ==> OrderOk(entries[n], entries, ledger.sequence))
    ensures error.Some? && error.value.DependencyCycle? ==> IsCycle(GraphOf(entries), error.value.cycle)
  {
    hide SequenceOk, OrderOk, EntriesOf, IssuesOk, IsCycle, Acyclic;
    TableIsList(ledger.issues);
    var ordered := FindOrderingErrors(ledger.issues, entries, ledger.sequence);
    var numbers := seq(|ledger.issues|, k requires 0 <= k < |ledger.issues| => ledger.issues[k].number);
    forall n: int
      ensures n in entries <==> n in numbers
    {
      EntriesKeysAre(ledger.issues, n);
      if k :| 0 <= k < |ledger.issues| && ledger.issues[k].number == n {
        assert numbers[k] == n;
      }
    }
    var cycle := FindCycle(GraphOf(entries), numbers);
    if cycle.Some? {
      return Some(DependencyCycle(cycle.value));
    }
    if !ordered {
      return Some(NotTopological);
    }
    return None;
  }

  /** Accepts exactly the ledgers described by `LedgerOk`; a reported cycle is a real one. */
  method ValidateIssueLedger(ledger: IssueLedger) returns (r: Result<(Entries, ExternalEntries), LedgerError>)
    ensures r.Ok? <==> LedgerOk(ledger)
    ensures r.Ok? ==> r.value == (EntriesOf(ledger.issues), ExternalsOf(ledger.externals))
    ensures r.Ok? ==> TablesOk(r.value.0, r.value.1, ledger.sequence)
    ensures r.Err? && r.error.DependencyCycle? ==> IsCycle(GraphOf(EntriesOf(ledger.issues)), r.error.cycle)
  {
    hide ReferencesOk, DesignatedOk, SequenceOk, OrderOk, IsCycle, Acyclic, GraphOf;
    hide EntriesOf, ExternalsOf, IssuesOk, ExternalsOk;
    if ledger.parentIssue <= 0 {
      return Err(BadParentIssue);
    }
    if ledger.reauditIssue <= 0 {
      return Err(BadReauditIssue);
    }
    if ledger.issues == [] {
      return Err(NoIssues);
    }
    var externals :- CollectExternals(ledger.externals);
    var entries :- CollectIssues(ledger.issues);
    if exists n :: n in entries && n in externals {
      return Err(DeclaredTwice);
    }
    var error := CheckTables(ledger, entries, externals);
    if error.Some? {
      return Err(error.value);
    }
    error := CheckOrder(ledger, entries);
    if error.Some? {
      return Err(error.value);
    }
    return Ok((entries, externals));
  }

  // ---------------------------------------------------------------------
  // What acceptance implies
  // ---------------------------------------------------------------------

  /** `p` follows depends_on from one ledger issue to the next; only its end may be external. */
  ghost predicate DependencyPath(entries: Entries, p: seq<int>) {
    |p| > 0 && forall i :: 0 <= i < |p| - 1 ==> DependencyStep(entries, p, i)
  }

  ghost predicate DependencyStep(entries: Entries, p: seq<int>, i: nat) {
    i + 1 < |p| && p[i] in entries && p[i + 1] in entries[p[i]].dependsOn
  }

  lemma PathTail(entries: Entries, p: seq<int>)
    requires DependencyPath(entries, p) && |p| > 1
    ensures p[0] in entries && p[1] in entries[p[0]].dependsOn && DependencyPath(entries, p[1..])
  {
    assert DependencyStep(entries, p, 0);
    var tail := p[1..];
    forall i | 0 <= i < |tail| - 1
      ensures DependencyStep(entries, tail, i)
    {
      assert DependencyStep(entries, p, i + 1);
    }
  }

  lemma {:induction false} ClosedAlongPath(entries: Entries, externals: ExternalEntries, p: seq<int>)
    requires forall n :: n in entries ==> ReferencesOk(entries[n], entries, externals)
    requires DependencyPath(entries, p) && IsClosed(entries, externals, p[0])
    ensures IsClosed(entries, externals, p[|p| - 1])
    decreases |p|
  {
    if |p| > 1 {
      PathTail(entries, p);
      var n := p[0];
      assert ReferencesOk(entries[n], entries, externals);
      ClosedAlongPath(entries, externals, p[1..]);
    }
  }

  /** In an accepted ledger everything a closed issue transitively depends on is closed. */
  lemma ClosedIssuesRestOnClosedIssues(entries: Entries, externals: ExternalEntries, sequence: seq<int>, p: seq<int>)
    requires TablesOk(entries, externals, sequence) && DependencyPath(entries, p) && IsClosed(entries, externals, p[0])
    ensures IsClosed(entries, externals, p[|p| - 1])
  {
    hide ReferencesOk, SequenceOk, OrderOk, Acyclic, GraphOf;
    ClosedAlongPath(entries, externals, p);
  }

  /** The sequence is a permutation of the slice issues. */
  lemma SequencePermutesSlices(entries: Entries, externals: ExternalEntries, sequence: seq<int>)
    requires TablesOk(entries, externals, sequence)
    ensures multiset(sequence) == multiset(set n | n in entries && entries[n].kind.Slice?)
  {
    hide ReferencesOk, OrderOk, Acyclic, GraphOf;
    var slices := set n | n in entries && entries[n].kind.Slice?;
    DistinctMultiset(sequence);
    forall n
      ensures n in sequence <==> n in slices
    {
      assert n in sequence ==> IsSlice(entries, n);
    }
    assert (set n | n in sequence) == slices;
  }

  lemma {:induction false} DistinctMultiset(s: seq<int>)
    requires Distinct(s)
    ensures multiset(s) == multiset(set n | n in s)
  {
    if s != [] {
      var init, last := s[..|s| - 1], s[|s| - 1];
      assert s == init + [last];
      DistinctMultiset(init);
      assert last !in init;
      assert (set n | n in s) == (set n | n in init) + {last};
    }
  }

  lemma {:induction false} ChainRunsBackwards(entries: Entries, sequence: seq<int>, p: seq<int>)
    requires SequenceOk(sequence, entries)
    requires forall n :: n in entries ==> entries[n].number == n
    requires forall n :: n in entries ==> OrderOk(entries[n], entries, sequence)
    requires DependencyPath(entries, p) && forall i :: 0 <= i < |p| ==> IsSlice(entries, p[i])
    ensures p[0] in sequence && p[|p| - 1] in sequence
    ensures FirstIndex(sequence, p[|p| - 1]) + |p| - 1 <= FirstIndex(sequence, p[0])
    decreases |p|
  {
    var n := p[0];
    assert IsSlice(entries, n);
    if |p| > 1 {
      PathTail(entries, p);
      assert forall i :: 0 <= i < |p| - 1 ==> p[1..][i] == p[i + 1];
      ChainRunsBackwards(entries, sequence, p[1..]);
      assert OrderOk(entries[n], entries, sequence);
      assert IsSlice(entries, p[1]);
    }
  }

  /** Along slice-to-slice dependencies the sequence position strictly decreases. */
  lemma SliceChainsRunBackwards(entries: Entries, externals: ExternalEntries, sequence: seq<int>, p: seq<int>)
    requires TablesOk(entries, externals, sequence)
    requires DependencyPath(entries, p) && forall i :: 0 <= i < |p| ==> IsSlice(entries, p[i])
    ensures p[0] in sequence && p[|p| - 1] in sequence
    ensures FirstIndex(sequence, p[|p| - 1]) + |p| - 1 <= FirstIndex(sequence, p[0])
  {
    hide ReferencesOk, SequenceOk, OrderOk, Acyclic, GraphOf;
    ChainRunsBackwards(entries, sequence, p);
  }

  lemma PathIsWalk(entries: Entries, p: seq<int>)
    requires DependencyPath(entries, p) && |p| > 1 && p[|p| - 1] in entries
    ensures IsWalk(GraphOf(entries), p)
  {
    var g := GraphOf(entries);
    assert DependencyStep(entries, p, 0);
    forall i | 0 <= i < |p| - 1
      ensures Step(g, p, i)
    {
      assert DependencyStep(entries, p, i);
      if i + 1 < |p| - 1 {
        assert DependencyStep(entries, p, i + 1);
      }
      var n, d := p[i], p[i + 1];
      assert n in entries && d in entries[n].dependsOn && d in entries;
    }
  }

  /** No issue transitively depends on itself, through epics or slices. */
  lemma NoIssueDependsOnItself(entries: Entries, externals: ExternalEntries, sequence: seq<int>, p: seq<int>)
    requires TablesOk(entries, externals, sequence) && DependencyPath(entries, p) && |p| > 1
    ensures p[0] != p[|p| - 1]
  {
    hide ReferencesOk, SequenceOk, OrderOk, GraphOf;
    PathTail(entries, p);
    if p[|p| - 1] in entries {
      PathIsWalk(entries, p);
      assert !IsCycle(GraphOf(entries), p);
    }
  }
}
