/**
 * The dependency ratchet of check_dependencies.py, over the policy that
 * `validate_policy` of check_policy.py accepts and the edges read from cargo.
 */
module DepPolicy {
  import opened Common

  type Name = string

  datatype Kind = Normal | Build

  datatype Edge = Edge(source: Name, target: Name)

  datatype WorkspaceEdge = WorkspaceEdge(edge: Edge, kind: Kind)

  datatype ExternalEdge = ExternalEdge(source: Name, target: Name, registry: Name, kind: Kind)

  datatype Exception = Exception(edge: Edge, trackingIssue: int)

  datatype ExternalException = ExternalException(source: Name, target: Name, kind: Kind, trackingIssue: int)

  datatype Reserved = Reserved(package: Name, issue: int)

  datatype Surface = Surface(normal: seq<Name>, build: seq<Name>) {
    function Of(kind: Kind): seq<Name> {
      match kind
      case Normal => normal
      case Build => build
    }
  }

  datatype Policy = Policy(
    categories: map<Name, seq<Name>>,
    allowed: map<Name, seq<Name>>,
    restricted: map<Name, seq<Name>>,
    exceptions: seq<Exception>,
    protectedCategories: seq<Name>,
    protectedPackages: seq<Name>,
    registry: Name,
    externalAllowed: map<Name, Surface>,
    externalExceptions: seq<ExternalException>,
    reserved: seq<Reserved>)

  /** The `_`-prefixed fields that validation stores back into the policy. */
  datatype Derived = Derived(
    packages: map<Name, Name>,
    restrictedAllowed: set<Edge>,
    exceptions: set<Edge>,
    protected: set<Name>,
    externalAllowed: set<ExternalEdge>,
    externalExceptions: set<ExternalEdge>,
    reserved: set<Name>)

  datatype Metadata = Metadata(
    packages: set<Name>, workspaceEdges: set<WorkspaceEdge>, externalEdges: set<ExternalEdge>)

  datatype PolicyError =
    | NoCategories | AllowedKeysDiffer | EmptyPackageName | ClassifiedTwice | UnknownAllowedCategory
    | RestrictedNotClassified | BadRestrictedTarget | BadException | DuplicateException
    | BadProtectedCategories | BadProtectedPackages | EmptyRegistry | RestrictedNotProtected | SurfaceKeysDiffer
    | BadExternalAllowance | BadExternalException | AllowedAndExceptional | DuplicateExternalException
    | BadReserved

  // ---------------------------------------------------------------------
  // What validation demands and derives
  // ---------------------------------------------------------------------

  /** A list of distinct non-empty names. */
  predicate NamesOk(names: seq<Name>) {
    "" !in names && Distinct(names)
  }

  predicate ListedIn(categories: map<Name, seq<Name>>, category: Name, package: Name) {
    category in categories && package in categories[category]
  }

  ghost predicate Consistent(categories: map<Name, seq<Name>>) {
    && (forall c :: c in categories ==> "" !in categories[c])
    && (forall c, d, p :: ListedIn(categories, c, p) && ListedIn(categories, d, p) ==> c == d)
  }

  /** `packages` sends exactly the listed packages to the category that lists them. */
  ghost predicate Classifies(packages: map<Name, Name>, categories: map<Name, seq<Name>>) {
    && (forall p :: p in packages ==> ListedIn(categories, packages[p], p))
    && (forall c, p :: ListedIn(categories, c, p) ==> p in packages)
  }

  ghost predicate CategoriesOk(p: Policy) {
    && |p.categories| > 0 && p.allowed.Keys == p.categories.Keys && Consistent(p.categories)
    && (forall c, t :: c in p.allowed && t in p.allowed[c] ==> t in p.categories)
  }

  predicate RestrictedListOk(packages: map<Name, Name>, package: Name, targets: seq<Name>) {
    package in packages && NamesOk(targets) && forall t :: t in targets ==> t in packages
  }

  predicate RestrictedOk(p: Policy, packages: map<Name, Name>) {
    forall s :: s in p.restricted ==> RestrictedListOk(packages, s, p.restricted[s])
  }

  predicate ExceptionOk(packages: map<Name, Name>, e: Exception) {
    e.edge.source in packages && e.edge.target in packages && e.trackingIssue > 0
  }

  predicate ExceptionsOk(exceptions: seq<Exception>, packages: map<Name, Name>) {
    && (forall k :: 0 <= k < |exceptions| ==> ExceptionOk(packages, exceptions[k]))
    && (forall i, j :: 0 <= i < j < |exceptions| ==> exceptions[i].edge != exceptions[j].edge)
  }

  function Protected(p: Policy, packages: map<Name, Name>): set<Name> {
    (set n | n in packages && packages[n] in p.protectedCategories) + (set n | n in p.protectedPackages)
  }

  predicate ProtectionOk(p: Policy, packages: map<Name, Name>) {
    && NamesOk(p.protectedCategories) && (forall c :: c in p.protectedCategories ==> c in p.categories)
    && NamesOk(p.protectedPackages) && (forall n :: n in p.protectedPackages ==> n in packages)
    && p.registry != ""
    && p.restricted.Keys <= Protected(p, packages) && p.externalAllowed.Keys == Protected(p, packages)
  }

  predicate ExternalListOk(packages: map<Name, Name>, targets: seq<Name>) {
    NamesOk(targets) && forall t :: t in targets ==> t !in packages
  }

  predicate SurfaceOk(packages: map<Name, Name>, surface: Surface) {
    ExternalListOk(packages, surface.normal) && ExternalListOk(packages, surface.build)
  }

  predicate ExternalAllowedOk(p: Policy, packages: map<Name, Name>) {
    forall s :: s in p.externalAllowed ==> SurfaceOk(packages, p.externalAllowed[s])
  }

  function ExternalKey(p: Policy, e: ExternalException): ExternalEdge {
    ExternalEdge(e.source, e.target, p.registry, e.kind)
  }

  predicate ExternalExceptionOk(p: Policy, packages: map<Name, Name>, e: ExternalException) {
    && e.source in Protected(p, packages) && e.target != "" && e.target !in packages && e.trackingIssue > 0
    && !IsExternalAllowance(p, ExternalKey(p, e))
  }

  predicate ExternalExceptionsOk(p: Policy, packages: map<Name, Name>) {
    && (forall k :: 0 <= k < |p.externalExceptions| ==> ExternalExceptionOk(p, packages, p.externalExceptions[k]))
    && (forall i, j :: 0 <= i < j < |p.externalExceptions| ==>
          ExternalKey(p, p.externalExceptions[i]) != ExternalKey(p, p.externalExceptions[j]))
  }

  predicate ReservedOk(reserved: seq<Reserved>, packages: map<Name, Name>) {
    && (forall k :: 0 <= k < |reserved| ==> reserved[k].package in packages && reserved[k].issue > 0)
    && (forall i, j :: 0 <= i < j < |reserved| ==> reserved[i].package != reserved[j].package)
  }

  /** The policy passes validation when its packages are classified by `packages`. */
  ghost predicate PolicyOk(p: Policy, packages: map<Name, Name>) {
    && CategoriesOk(p) && Classifies(packages, p.categories)
    && RestrictedOk(p, packages) && ExceptionsOk(p.exceptions, packages)
    && ProtectionOk(p, packages) && ExternalAllowedOk(p, packages) && ExternalExceptionsOk(p, packages)
    && ReservedOk(p.reserved, packages)
  }

  predicate IsRestrictedAllowance(p: Policy, e: Edge) {
    e.source in p.restricted && e.target in p.restricted[e.source]
  }

  predicate IsException(p: Policy, e: Edge) {
    exists k :: 0 <= k < |p.exceptions| && p.exceptions[k].edge == e
  }

  predicate IsExternalAllowance(p: Policy, e: ExternalEdge) {
    e.registry == p.registry && e.source in p.externalAllowed && e.target in p.externalAllowed[e.source].Of(e.kind)
  }

  predicate IsExternalException(p: Policy, e: ExternalEdge) {
    exists k :: 0 <= k < |p.externalExceptions| && ExternalKey(p, p.externalExceptions[k]) == e
  }

  /** The derived fields say exactly what the policy's lists say. */
  ghost predicate Derives(p: Policy, d: Derived) {
    && PolicyOk(p, d.packages)
    && (forall e :: e in d.restrictedAllowed <==> IsRestrictedAllowance(p, e))
    && (forall e :: e in d.exceptions <==> IsException(p, e))
    && d.protected == Protected(p, d.packages)
    && (forall e :: e in d.externalAllowed <==> IsExternalAllowance(p, e))
    && (forall e :: e in d.externalExceptions <==> IsExternalException(p, e))
    && (forall n :: n in d.reserved <==> exists k :: 0 <= k < |p.reserved| && p.reserved[k].package == n)
  }

  // ---------------------------------------------------------------------
  // Classification of one edge
  // ---------------------------------------------------------------------

  datatype Decision = Allowed | Excepted | Forbidden

  function ClassifyEdge(p: Policy, d: Derived, e: Edge): Decision {
    if e.source !in d.packages || e.target !in d.packages then Forbidden
    else if e.source in p.restricted then
      if e.target in p.restricted[e.source] then Allowed else if e in d.exceptions then Excepted else Forbidden
    else if d.packages[e.source] in p.allowed && d.packages[e.target] in p.allowed[d.packages[e.source]] then Allowed
    else if e in d.exceptions then Excepted
    else Forbidden
  }

  function ClassifyExternalDependency(d: Derived, e: ExternalEdge): Decision {
    if e.source !in d.protected then Allowed
    else if e in d.externalAllowed then Allowed
    else if e in d.externalExceptions then Excepted
    else Forbidden
  }

  // ---------------------------------------------------------------------
  // What the check accepts
  // ---------------------------------------------------------------------

  /** The edge is outside what the categories permit by themselves. */
  predicate NeedsGrant(p: Policy, packages: map<Name, Name>, e: Edge) {
    || e.source !in packages || e.target !in packages
    || e.source in p.restricted
    || !(packages[e.source] in p.allowed && packages[e.target] in p.allowed[packages[e.source]])
  }

  predicate IsEdgeOf(m: Metadata, e: Edge) {
    WorkspaceEdge(e, Normal) in m.workspaceEdges || WorkspaceEdge(e, Build) in m.workspaceEdges
  }

  /** Packages and reserved names, independently of what is granted. */
  predicate FrameAccepts(d: Derived, m: Metadata) {
    && m.packages == d.packages.Keys && d.reserved <= m.packages
    && (forall w :: w in m.workspaceEdges ==> w.edge.source !in d.reserved && w.edge.target !in d.reserved)
  }

  /** The exceptions and allowances grant exactly the edges that need it, each exactly once. */
  ghost predicate GrantsExactly(p: Policy, d: Derived, m: Metadata) {
    && (forall e :: e in d.restrictedAllowed || e in d.exceptions <==> IsEdgeOf(m, e) && NeedsGrant(p, d.packages, e))
    && d.restrictedAllowed !! d.exceptions
    && (forall e :: e in d.externalAllowed || e in d.externalExceptions <==> e in m.externalEdges && e.source in d.protected)
    && d.externalAllowed !! d.externalExceptions
  }

  function UsedRestricted(p: Policy, d: Derived, edges: set<WorkspaceEdge>): set<Edge> {
    set w | w in edges && ClassifyEdge(p, d, w.edge).Allowed? && w.edge in d.restrictedAllowed :: w.edge
  }

  function UsedExceptions(p: Policy, d: Derived, edges: set<WorkspaceEdge>): set<Edge> {
    set w | w in edges && ClassifyEdge(p, d, w.edge).Excepted? :: w.edge
  }

  function UsedExternalAllowed(d: Derived, edges: set<ExternalEdge>): set<ExternalEdge> {
    set e | e in edges && ClassifyExternalDependency(d, e).Allowed? && e in d.externalAllowed
  }

  function UsedExternalExceptions(d: Derived, edges: set<ExternalEdge>): set<ExternalEdge> {
    set e | e in edges && ClassifyExternalDependency(d, e).Excepted?
  }

  predicate ReferencesWorkspace(d: Derived, packages: set<Name>) {
    exists e :: e in d.externalAllowed + d.externalExceptions && e.target in packages
  }

  /** No error is appended. */
  predicate NoErrors(p: Policy, d: Derived, m: Metadata) {
    && FrameAccepts(d, m)
    && (forall w :: w in m.workspaceEdges ==> !ClassifyEdge(p, d, w.edge).Forbidden?)
    && d.restrictedAllowed <= UsedRestricted(p, d, m.workspaceEdges)
    && d.exceptions <= UsedExceptions(p, d, m.workspaceEdges)
    && !ReferencesWorkspace(d, m.packages)
    && (forall e :: e in m.externalEdges ==> !ClassifyExternalDependency(d, e).Forbidden?)
    && d.externalAllowed <= UsedExternalAllowed(d, m.externalEdges)
    && d.externalExceptions <= UsedExternalExceptions(d, m.externalEdges)
  }

  /** The check rejects nothing exactly when every grant is needed, every need is granted, and nothing is granted twice. */
  lemma AcceptanceIsExact(p: Policy, d: Derived, m: Metadata)
    requires Derives(p, d)
    ensures NoErrors(p, d, m) <==> FrameAccepts(d, m) && GrantsExactly(p, d, m)
  {
    if NoErrors(p, d, m) {
      WorkspaceGrantsAreNeeded(p, d, m);
      ExternalGrantsAreNeeded(p, d, m);
    }
    if FrameAccepts(d, m) && GrantsExactly(p, d, m) {
      WorkspaceNeedsAreGranted(p, d, m);
      ExternalNeedsAreGranted(p, d, m);
    }
  }

  lemma EdgeIsListed(m: Metadata, w: WorkspaceEdge)
    requires w in m.workspaceEdges
    ensures IsEdgeOf(m, w.edge)
  {
    match w.kind
    case Normal => assert w == WorkspaceEdge(w.edge, Normal);
    case Build => assert w == WorkspaceEdge(w.edge, Build);
  }

  lemma ListedEdge(m: Metadata, e: Edge) returns (w: WorkspaceEdge)
    requires IsEdgeOf(m, e)
    ensures w in m.workspaceEdges && w.edge == e
  {
    w := if WorkspaceEdge(e, Normal) in m.workspaceEdges then WorkspaceEdge(e, Normal) else WorkspaceEdge(e, Build);
  }

  /** Acceptance of the workspace half, given that the derived sets are those of a valid policy. */
  lemma WorkspaceGrantsAreNeeded(p: Policy, d: Derived, m: Metadata)
    requires Derives(p, d) && NoErrors(p, d, m)
    ensures forall e :: e in d.restrictedAllowed || e in d.exceptions <==> IsEdgeOf(m, e) && NeedsGrant(p, d.packages, e)
    ensures d.restrictedAllowed !! d.exceptions
  {
    forall e | e in d.restrictedAllowed
      ensures IsEdgeOf(m, e) && NeedsGrant(p, d.packages, e) && e !in d.exceptions
    {
      assert e in UsedRestricted(p, d, m.workspaceEdges);
      var w :| w in m.workspaceEdges && w.edge == e && ClassifyEdge(p, d, w.edge).Allowed?;
      EdgeIsListed(m, w);
      assert IsRestrictedAllowance(p, e);
      assert e !in UsedExceptions(p, d, m.workspaceEdges);
    }
    forall e | e in d.exceptions
      ensures IsEdgeOf(m, e) && NeedsGrant(p, d.packages, e)
    {
      assert e in UsedExceptions(p, d, m.workspaceEdges);
      var w :| w in m.workspaceEdges && w.edge == e && ClassifyEdge(p, d, w.edge).Excepted?;
      EdgeIsListed(m, w);
    }
    forall e | IsEdgeOf(m, e) && NeedsGrant(p, d.packages, e)
      ensures e in d.restrictedAllowed || e in d.exceptions
    {
      var w := ListedEdge(m, e);
      assert !ClassifyEdge(p, d, w.edge).Forbidden?;
    }
  }

  lemma ExternalGrantsAreNeeded(p: Policy, d: Derived, m: Metadata)
    requires Derives(p, d) && NoErrors(p, d, m)
    ensures forall e ::
      e in d.externalAllowed || e in d.externalExceptions <==> e in m.externalEdges && e.source in d.protected
    ensures d.externalAllowed !! d.externalExceptions
  {
    ExternalListsAreDisjoint(p, d);
    forall e | e in d.externalAllowed
      ensures e in m.externalEdges && e.source in d.protected
    {
      assert e in UsedExternalAllowed(d, m.externalEdges);
      assert IsExternalAllowance(p, e);
    }
    forall e | e in d.externalExceptions
      ensures e in m.externalEdges && e.source in d.protected
    {
      assert e in UsedExternalExceptions(d, m.externalEdges);
    }
    forall e | e in m.externalEdges && e.source in d.protected
      ensures e in d.externalAllowed || e in d.externalExceptions
    {
      assert !ClassifyExternalDependency(d, e).Forbidden?;
    }
  }

  /** Validation already refuses an external dependency that is both allowed and exceptional. */
  lemma ExternalListsAreDisjoint(p: Policy, d: Derived)
    requires Derives(p, d)
    ensures d.externalAllowed !! d.externalExceptions
  {
    forall e | e in d.externalExceptions
      ensures e !in d.externalAllowed
    {
      assert IsExternalException(p, e);
      var k :| 0 <= k < |p.externalExceptions| && ExternalKey(p, p.externalExceptions[k]) == e;
      assert ExternalExceptionOk(p, d.packages, p.externalExceptions[k]);
    }
  }

  lemma WorkspaceNeedsAreGranted(p: Policy, d: Derived, m: Metadata)
    requires Derives(p, d) && GrantsExactly(p, d, m) && FrameAccepts(d, m)
    ensures forall w :: w in m.workspaceEdges ==> !ClassifyEdge(p, d, w.edge).Forbidden?
    ensures d.restrictedAllowed <= UsedRestricted(p, d, m.workspaceEdges)
    ensures d.exceptions <= UsedExceptions(p, d, m.workspaceEdges)
  {
    forall w | w in m.workspaceEdges
      ensures !ClassifyEdge(p, d, w.edge).Forbidden?
    {
      var e := w.edge;
      EdgeIsListed(m, w);
      if NeedsGrant(p, d.packages, e) {
        assert e in d.restrictedAllowed || e in d.exceptions;
        GrantsAreClassified(p, d, e);
      }
    }
    forall e | e in d.restrictedAllowed
      ensures e in UsedRestricted(p, d, m.workspaceEdges)
    {
      GrantsAreClassified(p, d, e);
      assert IsEdgeOf(m, e);
      assert ClassifyEdge(p, d, e).Allowed?;
      var w := ListedEdge(m, e);
    }
    forall e | e in d.exceptions
      ensures e in UsedExceptions(p, d, m.workspaceEdges)
    {
      GrantsAreClassified(p, d, e);
      assert IsEdgeOf(m, e) && NeedsGrant(p, d.packages, e) && e !in d.restrictedAllowed;
      assert !IsRestrictedAllowance(p, e);
      assert ClassifyEdge(p, d, e).Excepted?;
      var w := ListedEdge(m, e);
    }
  }

  lemma GrantsAreClassified(p: Policy, d: Derived, e: Edge)
    requires Derives(p, d) && (e in d.restrictedAllowed || e in d.exceptions)
    ensures e.source in d.packages && e.target in d.packages
  {
    if e in d.restrictedAllowed {
      assert IsRestrictedAllowance(p, e);
      assert RestrictedListOk(d.packages, e.source, p.restricted[e.source]);
    } else {
      assert IsException(p, e);
      var k :| 0 <= k < |p.exceptions| && p.exceptions[k].edge == e;
      assert ExceptionOk(d.packages, p.exceptions[k]);
    }
  }

  lemma ExternalNeedsAreGranted(p: Policy, d: Derived, m: Metadata)
    requires Derives(p, d) && GrantsExactly(p, d, m) && FrameAccepts(d, m)
    ensures !ReferencesWorkspace(d, m.packages)
    ensures forall e :: e in m.externalEdges ==> !ClassifyExternalDependency(d, e).Forbidden?
    ensures d.externalAllowed <= UsedExternalAllowed(d, m.externalEdges)
    ensures d.externalExceptions <= UsedExternalExceptions(d, m.externalEdges)
  {
    forall e | e in d.externalAllowed + d.externalExceptions
      ensures e.target !in m.packages
    {
      ExternalTargetsAreOutside(p, d, e);
    }
  }

  /** The workspace-reference error is only reachable when the package lists already disagree. */
  lemma ExternalTargetsAreOutside(p: Policy, d: Derived, e: ExternalEdge)
    requires Derives(p, d) && (e in d.externalAllowed || e in d.externalExceptions)
    ensures e.target !in d.packages
  {
    if e in d.externalAllowed {
      assert IsExternalAllowance(p, e);
      assert SurfaceOk(d.packages, p.externalAllowed[e.source]);
    } else {
      assert IsExternalException(p, e);
      var k :| 0 <= k < |p.externalExceptions| && ExternalKey(p, p.externalExceptions[k]) == e;
      assert ExternalExceptionOk(p, d.packages, p.externalExceptions[k]);
    }
  }

  // ---------------------------------------------------------------------
  // The ratchet: accepted policies are minimal
  // ---------------------------------------------------------------------

  lemma ClassificationIsUnique(a: map<Name, Name>, b: map<Name, Name>, categories: map<Name, seq<Name>>)
    requires Consistent(categories) && Classifies(a, categories) && Classifies(b, categories)
    ensures a == b
  {
    forall n
      ensures n in a <==> n in b
      ensures n in a && n in b ==> a[n] == b[n]
    {
      if n in a {
        assert ListedIn(categories, a[n], n);
      }
      if n in b {
        assert ListedIn(categories, b[n], n);
      }
    }
  }

  /** Same categories, protected surfaces and reserved names; only the granted entries may differ. */
  predicate SameFrame(p: Policy, q: Policy) {
    && p.categories == q.categories && p.allowed == q.allowed && p.restricted.Keys == q.restricted.Keys
    && p.protectedCategories == q.protectedCategories && p.protectedPackages == q.protectedPackages
    && p.registry == q.registry && p.reserved == q.reserved
  }

  lemma SameFrameSameNeeds(p: Policy, dp: Derived, q: Policy, dq: Derived)
    requires SameFrame(p, q) && Derives(p, dp) && Derives(q, dq)
    ensures dp.packages == dq.packages && dp.protected == dq.protected
    ensures forall e :: NeedsGrant(p, dp.packages, e) <==> NeedsGrant(q, dq.packages, e)
  {
    ClassificationIsUnique(dp.packages, dq.packages, p.categories);
  }

  /** Within one frame the metadata alone decides what an accepted policy grants. */
  lemma AcceptedPoliciesGrantTheSame(p: Policy, dp: Derived, q: Policy, dq: Derived, m: Metadata)
    requires SameFrame(p, q) && Derives(p, dp) && Derives(q, dq)
    requires NoErrors(p, dp, m) && NoErrors(q, dq, m)
    ensures dp.restrictedAllowed + dp.exceptions == dq.restrictedAllowed + dq.exceptions
    ensures dp.externalAllowed + dp.externalExceptions == dq.externalAllowed + dq.externalExceptions
  {
    hide NoErrors, Derives, FrameAccepts, NeedsGrant, IsEdgeOf, SameFrame;
    AcceptanceIsExact(p, dp, m);
    AcceptanceIsExact(q, dq, m);
    SameFrameSameNeeds(p, dp, q, dq);
  }

  datatype Deletion =
    | DropException(k: nat)
    | DropAllowance(package: Name, k: nat)
    | DropExternalException(k: nat)
    | DropExternalAllowance(package: Name, kind: Kind, k: nat)

  predicate CanDelete(p: Policy, x: Deletion) {
    match x
    case DropException(k) => k < |p.exceptions|
    case DropAllowance(package, k) => package in p.restricted && k < |p.restricted[package]|
    case DropExternalException(k) => k < |p.externalExceptions|
    case DropExternalAllowance(package, kind, k) =>
      package in p.externalAllowed && k < |p.externalAllowed[package].Of(kind)|
  }

  function Without<T>(s: seq<T>, k: nat): seq<T>
    requires k < |s|
  {
    s[..k] + s[k + 1..]
  }

  function Delete(p: Policy, x: Deletion): Policy
    requires CanDelete(p, x)
  {
    match x
    case DropException(k) => p.(exceptions := Without(p.exceptions, k))
    case DropAllowance(package, k) =>
      p.(restricted := p.restricted[package := Without(p.restricted[package], k)])
    case DropExternalException(k) => p.(externalExceptions := Without(p.externalExceptions, k))
    case DropExternalAllowance(package, kind, k) =>
      var surface := p.externalAllowed[package];
      p.(externalAllowed := p.externalAllowed[package :=
        match kind
        case Normal => surface.(normal := Without(surface.normal, k))
        case Build => surface.(build := Without(surface.build, k))])
  }

  lemma WithoutKeepsDistinct<T>(s: seq<T>, k: nat)
    requires k < |s| && Distinct(s)
    ensures Distinct(Without(s, k)) && s[k] !in Without(s, k)
    ensures forall x :: x in Without(s, k) ==> x in s
  {
    var w := Without(s, k);
    assert forall i :: 0 <= i < |w| ==> w[i] == (if i < k then s[i] else s[i + 1]);
  }

  /** Index in the original list of the entry at index `i` of the shortened list. */
  function Original(k: nat, i: nat): nat {
    if i < k then i else i + 1
  }

  lemma WithoutAt<T>(s: seq<T>, k: nat)
    requires k < |s|
    ensures |Without(s, k)| == |s| - 1
    ensures forall i :: 0 <= i < |s| - 1 ==> Without(s, k)[i] == s[Original(k, i)]
  {
  }

  /** Validation of everything but the granted entries only looks at the frame. */
  lemma FrameSurvives(p: Policy, packages: map<Name, Name>, q: Policy)
    requires CategoriesOk(p) && ProtectionOk(p, packages)
    requires SameFrame(p, q) && q.externalAllowed.Keys == p.externalAllowed.Keys
    ensures CategoriesOk(q) && ProtectionOk(q, packages) && Protected(q, packages) == Protected(p, packages)
  {
    assert Protected(q, packages) == Protected(p, packages);
  }

  lemma DroppedException(p: Policy, packages: map<Name, Name>, k: nat)
    requires PolicyOk(p, packages) && k < |p.exceptions|
    ensures var q := Delete(p, DropException(k)); PolicyOk(q, packages) && !IsException(q, p.exceptions[k].edge)
  {
    hide CategoriesOk, ProtectionOk, Classifies, RestrictedListOk, SurfaceOk, ReservedOk, Without;
    WithoutAt(p.exceptions, k);
    var q := Delete(p, DropException(k));
    FrameSurvives(p, packages, q);
    assert ExternalExceptionsOk(q, packages) by {
      ExternalExceptionsSurvive(p, packages, q);
    }
  }

  lemma DroppedAllowance(p: Policy, packages: map<Name, Name>, package: Name, k: nat)
    requires PolicyOk(p, packages) && package in p.restricted && k < |p.restricted[package]|
    ensures var q := Delete(p, DropAllowance(package, k));
      PolicyOk(q, packages) && !IsRestrictedAllowance(q, Edge(package, p.restricted[package][k]))
  {
    hide CategoriesOk, ProtectionOk, Classifies, SurfaceOk, ReservedOk, Without, ExceptionsOk;
    assert RestrictedListOk(packages, package, p.restricted[package]);
    WithoutKeepsDistinct(p.restricted[package], k);
    var q := Delete(p, DropAllowance(package, k));
    FrameSurvives(p, packages, q);
    assert ExternalExceptionsOk(q, packages) by {
      ExternalExceptionsSurvive(p, packages, q);
    }
  }

  lemma DroppedExternalException(p: Policy, packages: map<Name, Name>, k: nat)
    requires PolicyOk(p, packages) && k < |p.externalExceptions|
    ensures var q := Delete(p, DropExternalException(k));
      && PolicyOk(q, packages) && !IsExternalException(q, ExternalKey(p, p.externalExceptions[k]))
      && !IsExternalAllowance(q, ExternalKey(p, p.externalExceptions[k]))
  {
    hide CategoriesOk, ProtectionOk, Classifies, RestrictedListOk, SurfaceOk, ReservedOk, Without, ExceptionsOk;
    WithoutAt(p.externalExceptions, k);
    var q := Delete(p, DropExternalException(k));
    FrameSurvives(p, packages, q);
    assert ExternalExceptionOk(p, packages, p.externalExceptions[k]);
    assert ExternalExceptionsOk(q, packages) by {
      forall i | 0 <= i < |q.externalExceptions|
        ensures ExternalExceptionOk(q, packages, q.externalExceptions[i])
      {
        assert ExternalExceptionOk(p, packages, p.externalExceptions[Original(k, i)]);
      }
    }
  }

  lemma DroppedExternalAllowance(p: Policy, packages: map<Name, Name>, package: Name, kind: Kind, k: nat)
    requires PolicyOk(p, packages)
    requires package in p.externalAllowed && k < |p.externalAllowed[package].Of(kind)|
    ensures var q := Delete(p, DropExternalAllowance(package, kind, k));
      var e := ExternalEdge(package, p.externalAllowed[package].Of(kind)[k], p.registry, kind);
      PolicyOk(q, packages) && !IsExternalAllowance(q, e)
  {
    hide CategoriesOk, ProtectionOk, Classifies, RestrictedListOk, ReservedOk, Without, ExceptionsOk;
    var surface := p.externalAllowed[package];
    assert SurfaceOk(packages, surface);
    WithoutKeepsDistinct(surface.Of(kind), k);
    var q := Delete(p, DropExternalAllowance(package, kind, k));
    FrameSurvives(p, packages, q);
    assert ExternalExceptionsOk(q, packages) by {
      ExternalExceptionsSurvive(p, packages, q);
    }
  }

  /** External exceptions depend on the rest of the policy only through the external allowances. */
  lemma ExternalExceptionsSurvive(p: Policy, packages: map<Name, Name>, q: Policy)
    requires ExternalExceptionsOk(p, packages)
    requires q.externalExceptions == p.externalExceptions && q.registry == p.registry
    requires Protected(q, packages) == Protected(p, packages)
    requires forall e :: IsExternalAllowance(q, e) ==> IsExternalAllowance(p, e)
    ensures ExternalExceptionsOk(q, packages)
  {
    forall i | 0 <= i < |q.externalExceptions|
      ensures ExternalExceptionOk(q, packages, q.externalExceptions[i])
    {
      assert ExternalExceptionOk(p, packages, p.externalExceptions[i]);
    }
    forall i | 0 <= i < |q.externalExceptions|
      ensures ExternalKey(q, q.externalExceptions[i]) == ExternalKey(p, p.externalExceptions[i])
    {
    }
  }

  /** Once a granted workspace edge is no longer granted the check rejects the same metadata. */
  lemma MissingGrantRejects(p: Policy, dp: Derived, q: Policy, dq: Derived, m: Metadata, e: Edge)
    requires SameFrame(p, q) && Derives(p, dp) && Derives(q, dq) && NoErrors(p, dp, m)
    requires e in dp.restrictedAllowed + dp.exceptions && e !in dq.restrictedAllowed + dq.exceptions
    ensures !NoErrors(q, dq, m)
  {
    hide NoErrors, Derives, FrameAccepts, NeedsGrant, IsEdgeOf, SameFrame;
    AcceptanceIsExact(p, dp, m);
    AcceptanceIsExact(q, dq, m);
    SameFrameSameNeeds(p, dp, q, dq);
    assert IsEdgeOf(m, e) && NeedsGrant(q, dq.packages, e);
  }

  lemma MissingExternalGrantRejects(p: Policy, dp: Derived, q: Policy, dq: Derived, m: Metadata, e: ExternalEdge)
    requires SameFrame(p, q) && Derives(p, dp) && Derives(q, dq) && NoErrors(p, dp, m)
    requires e in dp.externalAllowed + dp.externalExceptions && e !in dq.externalAllowed + dq.externalExceptions
    ensures !NoErrors(q, dq, m)
  {
    hide NoErrors, Derives, FrameAccepts, NeedsGrant, IsEdgeOf, SameFrame;
    AcceptanceIsExact(p, dp, m);
    AcceptanceIsExact(q, dq, m);
    SameFrameSameNeeds(p, dp, q, dq);
    assert e in m.externalEdges && e.source in dq.protected;
  }

  lemma ExceptionIsNeeded(p: Policy, dp: Derived, m: Metadata, k: nat, dq: Derived)
    requires Derives(p, dp) && NoErrors(p, dp, m) && k < |p.exceptions|
    requires Derives(Delete(p, DropException(k)), dq)
    ensures !NoErrors(Delete(p, DropException(k)), dq, m)
  {
    hide PolicyOk, NoErrors, FrameAccepts;
    var q, e := Delete(p, DropException(k)), p.exceptions[k].edge;
    DroppedException(p, dp.packages, k);
    AcceptanceIsExact(p, dp, m);
    assert IsException(p, e) && e in dp.exceptions;
    assert IsRestrictedAllowance(q, e) <==> IsRestrictedAllowance(p, e);
    MissingGrantRejects(p, dp, q, dq, m, e);
  }

  lemma AllowanceIsNeeded(p: Policy, dp: Derived, m: Metadata, package: Name, k: nat, dq: Derived)
    requires Derives(p, dp) && NoErrors(p, dp, m) && CanDelete(p, DropAllowance(package, k))
    requires Derives(Delete(p, DropAllowance(package, k)), dq)
    ensures !NoErrors(Delete(p, DropAllowance(package, k)), dq, m)
  {
    hide PolicyOk, NoErrors, FrameAccepts;
    var q, e := Delete(p, DropAllowance(package, k)), Edge(package, p.restricted[package][k]);
    DroppedAllowance(p, dp.packages, package, k);
    AcceptanceIsExact(p, dp, m);
    assert IsRestrictedAllowance(p, e) && e in dp.restrictedAllowed;
    assert IsException(q, e) <==> IsException(p, e);
    MissingGrantRejects(p, dp, q, dq, m, e);
  }

  lemma ExternalExceptionIsNeeded(p: Policy, dp: Derived, m: Metadata, k: nat, dq: Derived)
    requires Derives(p, dp) && NoErrors(p, dp, m) && k < |p.externalExceptions|
    requires Derives(Delete(p, DropExternalException(k)), dq)
    ensures !NoErrors(Delete(p, DropExternalException(k)), dq, m)
  {
    hide PolicyOk, NoErrors;
    var q, e := Delete(p, DropExternalException(k)), ExternalKey(p, p.externalExceptions[k]);
    DroppedExternalException(p, dp.packages, k);
    assert IsExternalException(p, e) && e in dp.externalExceptions;
    MissingExternalGrantRejects(p, dp, q, dq, m, e);
  }

  lemma ExternalAllowanceIsNeeded(p: Policy, dp: Derived, m: Metadata, package: Name, kind: Kind, k: nat, dq: Derived)
    requires Derives(p, dp) && NoErrors(p, dp, m) && CanDelete(p, DropExternalAllowance(package, kind, k))
    requires Derives(Delete(p, DropExternalAllowance(package, kind, k)), dq)
    ensures !NoErrors(Delete(p, DropExternalAllowance(package, kind, k)), dq, m)
  {
    hide PolicyOk, NoErrors, FrameAccepts;
    var q := Delete(p, DropExternalAllowance(package, kind, k));
    var e := ExternalEdge(package, p.externalAllowed[package].Of(kind)[k], p.registry, kind);
    DroppedExternalAllowance(p, dp.packages, package, kind, k);
    ExternalListsAreDisjoint(p, dp);
    assert IsExternalAllowance(p, e) && e in dp.externalAllowed;
    assert IsExternalException(q, e) <==> IsExternalException(p, e);
    MissingExternalGrantRejects(p, dp, q, dq, m, e);
  }

  /**
   * Deleting any single entry of an accepted policy leaves a policy that still
   * validates and is rejected on the same metadata.
   */
  lemma AcceptedPoliciesAreMinimal(p: Policy, dp: Derived, m: Metadata, x: Deletion, dq: Derived)
    requires Derives(p, dp) && NoErrors(p, dp, m) && CanDelete(p, x)
    ensures PolicyOk(Delete(p, x), dp.packages)
    ensures Derives(Delete(p, x), dq) ==> !NoErrors(Delete(p, x), dq, m)
  {
    hide PolicyOk, NoErrors;
    match x {
      case DropException(k) =>
        DroppedException(p, dp.packages, k);
        if Derives(Delete(p, x), dq) {
          ExceptionIsNeeded(p, dp, m, k, dq);
        }
      case DropAllowance(package, k) =>
        DroppedAllowance(p, dp.packages, package, k);
        if Derives(Delete(p, x), dq) {
          AllowanceIsNeeded(p, dp, m, package, k, dq);
        }
      case DropExternalException(k) =>
        DroppedExternalException(p, dp.packages, k);
        if Derives(Delete(p, x), dq) {
          ExternalExceptionIsNeeded(p, dp, m, k, dq);
        }
      case DropExternalAllowance(package, kind, k) =>
        DroppedExternalAllowance(p, dp.packages, package, kind, k);
        if Derives(Delete(p, x), dq) {
          ExternalAllowanceIsNeeded(p, dp, m, package, kind, k, dq);
        }
    }
  }

  // ---------------------------------------------------------------------
  // validate_policy
  // ---------------------------------------------------------------------

  /** Every package recorded so far is listed under its category, and the finished categories are recorded. */
  ghost predicate Recorded(categories: map<Name, seq<Name>>, packages: map<Name, Name>, todo: set<Name>) {
    && (forall p :: p in packages ==> ListedIn(categories, packages[p], p))
    && (forall c, p :: ListedIn(categories, c, p) && c !in todo ==> p in packages && packages[p] == c && p != "")
  }

  lemma RecordMore(categories: map<Name, seq<Name>>, before: map<Name, Name>, after: map<Name, Name>, category: Name, todo: set<Name>)
    requires Recorded(categories, before, todo) && category in categories
    requires forall p :: p in before ==> p in after && after[p] == before[p]
    requires forall p :: p in after ==> p in before || (p in categories[category] && after[p] == category)
    requires forall p :: p in categories[category] ==> p in after && after[p] == category && p != ""
    ensures Recorded(categories, after, todo - {category})
  {
  }

  /** Records one category; a package already recorded under another one is an error. */
  method ClassifyCategory(packages: map<Name, Name>, category: Name, listed: seq<Name>) returns (r: Result<map<Name, Name>, PolicyError>)
    ensures r.Ok? <==> "" !in listed && forall p :: p in listed && p in packages ==> packages[p] == category
    ensures r.Ok? ==> forall p :: p in packages ==> p in r.value && r.value[p] == packages[p]
    ensures r.Ok? ==> forall p :: p in r.value ==> p in packages || (p in listed && r.value[p] == category)
    ensures r.Ok? ==> forall p :: p in listed ==> p in r.value && r.value[p] == category
  {
    var after := packages;
    for k := 0 to |listed|
      invariant forall p :: p in packages ==> p in after && after[p] == packages[p]
      invariant forall p :: p in after ==> p in packages || (p in listed[..k] && after[p] == category)
      invariant forall p :: p in listed[..k] ==> p in after && after[p] == category && p != ""
    {
      var package := listed[k];
      assert listed[..k + 1] == listed[..k] + [package];
      if package == "" {
        return Err(EmptyPackageName);
      }
      if package !in after {
        after := after[package := category];
      } else if after[package] != category {
        return Err(ClassifiedTwice);
      }
    }
    assert listed[..|listed|] == listed;
    return Ok(after);
  }

  method ClassifyPackages(categories: map<Name, seq<Name>>) returns (r: Result<map<Name, Name>, PolicyError>)
    ensures r.Ok? <==> Consistent(categories)
    ensures r.Ok? ==> Classifies(r.value, categories)
  {
    var packages: map<Name, Name> := map[];
    var todo := categories.Keys;
    while todo != {}
      invariant todo <= categories.Keys && Recorded(categories, packages, todo)
      decreases todo
    {
      hide Recorded, Consistent;
      var category :| category in todo;
      var before := packages;
      var extended := ClassifyCategory(packages, category, categories[category]);
      if extended.Err? {
        ClashIsInconsistent(categories, packages, todo, category);
        return Err(extended.error);
      }
      packages := extended.value;
      ListsNoEmptyName(categories, category);
      RecordMore(categories, before, packages, category, todo);
      todo := todo - {category};
    }
    AllRecorded(categories, packages);
    return Ok(packages);
  }

  lemma ListsNoEmptyName(categories: map<Name, seq<Name>>, category: Name)
    requires category in categories && "" !in categories[category]
    ensures forall p :: p in categories[category] ==> p != ""
  {
  }

  lemma ClashIsInconsistent(categories: map<Name, seq<Name>>, packages: map<Name, Name>, todo: set<Name>, category: Name)
    requires Recorded(categories, packages, todo) && category in categories
    requires "" in categories[category] || exists p :: p in categories[category] && p in packages && packages[p] != category
    ensures !Consistent(categories)
  {
    if "" !in categories[category] {
      var p :| p in categories[category] && p in packages && packages[p] != category;
      assert ListedIn(categories, packages[p], p) && ListedIn(categories, category, p);
    }
  }

  lemma AllRecorded(categories: map<Name, seq<Name>>, packages: map<Name, Name>)
    requires Recorded(categories, packages, {})
    ensures Consistent(categories) && Classifies(packages, categories)
  {
    assert forall c :: c in categories ==> !ListedIn(categories, c, "");
  }

  method CollectRestricted(p: Policy, packages: map<Name, Name>) returns (r: Result<set<Edge>, PolicyError>)
    ensures r.Ok? <==> RestrictedOk(p, packages)
    ensures r.Ok? ==> forall e :: e in r.value <==> IsRestrictedAllowance(p, e)
  {
    var edges: set<Edge> := {};
    var todo := p.restricted.Keys;
    while todo != {}
      invariant todo <= p.restricted.Keys
      invariant forall s :: s in p.restricted && s !in todo ==> RestrictedListOk(packages, s, p.restricted[s])
      invariant forall e :: e in edges <==> IsRestrictedAllowance(p, e) && e.source !in todo
      decreases todo
    {
      var package :| package in todo;
      var targets := p.restricted[package];
      if package !in packages {
        return Err(RestrictedNotClassified);
      }
      if !NamesOk(targets) || exists t :: t in targets && t !in packages {
        return Err(BadRestrictedTarget);
      }
      edges := edges + set t | t in targets :: Edge(package, t);
      todo := todo - {package};
    }
    return Ok(edges);
  }

  method CollectExceptions(p: Policy, packages: map<Name, Name>) returns (r: Result<set<Edge>, PolicyError>)
    ensures r.Ok? <==> ExceptionsOk(p.exceptions, packages)
    ensures r.Ok? ==> forall e :: e in r.value <==> IsException(p, e)
  {
    var keys: set<Edge> := {};
    for k := 0 to |p.exceptions|
      invariant ExceptionsOk(p.exceptions[..k], packages)
      invariant forall e :: e in keys <==> exists j :: 0 <= j < k && p.exceptions[j].edge == e
    {
      var exception := p.exceptions[k];
      if !ExceptionOk(packages, exception) {
        return Err(BadException);
      }
      if exception.edge in keys {
        return Err(DuplicateException);
      }
      keys := keys + {exception.edge};
      assert p.exceptions[..k + 1] == p.exceptions[..k] + [exception];
    }
    assert p.exceptions[..|p.exceptions|] == p.exceptions;
    return Ok(keys);
  }

  method CheckProtection(p: Policy, packages: map<Name, Name>) returns (r: Result<set<Name>, PolicyError>)
    ensures r.Ok? <==> ProtectionOk(p, packages)
    ensures r.Ok? ==> r.value == Protected(p, packages)
  {
    if !NamesOk(p.protectedCategories) || exists c :: c in p.protectedCategories && c !in p.categories {
      return Err(BadProtectedCategories);
    }
    if !NamesOk(p.protectedPackages) || exists n :: n in p.protectedPackages && n !in packages {
      return Err(BadProtectedPackages);
    }
    if p.registry == "" {
      return Err(EmptyRegistry);
    }
    var protected :=
      (set n | n in packages && packages[n] in p.protectedCategories) + (set n | n in p.protectedPackages);
    var unprotected := p.restricted.Keys - protected;
    assert forall n :: n in p.restricted.Keys && n !in protected ==> n in unprotected;
    if unprotected != {} {
      return Err(RestrictedNotProtected);
    }
    if protected - p.externalAllowed.Keys != {} || p.externalAllowed.Keys - protected != {} {
      assert p.externalAllowed.Keys != protected;
      return Err(SurfaceKeysDiffer);
    }
    assert p.externalAllowed.Keys == protected && p.restricted.Keys <= protected;
    return Ok(protected);
  }

  function SurfaceEdges(p: Policy, package: Name, kind: Kind, targets: seq<Name>): (r: set<ExternalEdge>)
    ensures forall e :: e in r <==> e.source == package && e.kind == kind && e.registry == p.registry && e.target in targets
  {
    set t | t in targets :: ExternalEdge(package, t, p.registry, kind)
  }

  method CollectExternalAllowed(p: Policy, packages: map<Name, Name>) returns (r: Result<set<ExternalEdge>, PolicyError>)
    ensures r.Ok? <==> ExternalAllowedOk(p, packages)
    ensures r.Ok? ==> forall e :: e in r.value <==> IsExternalAllowance(p, e)
  {
    var edges: set<ExternalEdge> := {};
    var todo := p.externalAllowed.Keys;
    while todo != {}
      invariant todo <= p.externalAllowed.Keys
      invariant forall s :: s in p.externalAllowed && s !in todo ==> SurfaceOk(packages, p.externalAllowed[s])
      invariant forall e :: e in edges <==> IsExternalAllowance(p, e) && e.source !in todo
      decreases todo
    {
      var package :| package in todo;
      var surface := p.externalAllowed[package];
      if !SurfaceOk(packages, surface) {
        return Err(BadExternalAllowance);
      }
      edges := edges + SurfaceEdges(p, package, Normal, surface.normal) + SurfaceEdges(p, package, Build, surface.build);
      todo := todo - {package};
    }
    return Ok(edges);
  }

  method CollectExternalExceptions(p: Policy, packages: map<Name, Name>, protected: set<Name>, allowed: set<ExternalEdge>)
    returns (r: Result<set<ExternalEdge>, PolicyError>)
    requires protected == Protected(p, packages) && forall e :: e in allowed <==> IsExternalAllowance(p, e)
    ensures r.Ok? <==> ExternalExceptionsOk(p, packages)
    ensures r.Ok? ==> forall e :: e in r.value <==> IsExternalException(p, e)
  {
    hide Protected, IsExternalAllowance;
    var keys: set<ExternalEdge> := {};
    for k := 0 to |p.externalExceptions|
      invariant forall j :: 0 <= j < k ==> ExternalExceptionOk(p, packages, p.externalExceptions[j])
      invariant forall i, j :: 0 <= i < j < k ==>
        ExternalKey(p, p.externalExceptions[i]) != ExternalKey(p, p.externalExceptions[j])
      invariant forall e :: e in keys <==> exists j :: 0 <= j < k && ExternalKey(p, p.externalExceptions[j]) == e
    {
      var exception := p.externalExceptions[k];
      var key := ExternalKey(p, exception);
      if exception.source !in protected || exception.target == "" || exception.target in packages
         || exception.trackingIssue <= 0 {
        assert !ExternalExceptionOk(p, packages, exception);
        return Err(BadExternalException);
      }
      if key in allowed {
        assert !ExternalExceptionOk(p, packages, exception);
        return Err(AllowedAndExceptional);
      }
      if key in keys {
        return Err(DuplicateExternalException);
      }
      keys := keys + {key};
    }
    return Ok(keys);
  }

  method CollectReserved(reserved: seq<Reserved>, packages: map<Name, Name>) returns (r: Result<set<Name>, PolicyError>)
    ensures r.Ok? <==> ReservedOk(reserved, packages)
    ensures r.Ok? ==> forall n :: n in r.value <==> exists k :: 0 <= k < |reserved| && reserved[k].package == n
  {
    var seen: set<Name> := {};
    for k := 0 to |reserved|
      invariant forall j :: 0 <= j < k ==> reserved[j].package in packages && reserved[j].issue > 0
      invariant forall i, j :: 0 <= i < j < k ==> reserved[i].package != reserved[j].package
      invariant forall n :: n in seen <==> exists j :: 0 <= j < k && reserved[j].package == n
    {
      var entry := reserved[k];
      if entry.package !in packages || entry.package in seen || entry.issue <= 0 {
        return Err(BadReserved);
      }
      seen := seen + {entry.package};
    }
    return Ok(seen);
  }

  /** Some classification makes the policy valid. */
  ghost predicate Valid(p: Policy) {
    exists packages :: PolicyOk(p, packages)
  }

  method ValidatePolicy(p: Policy) returns (r: Result<Derived, PolicyError>)
    ensures r.Ok? <==> Valid(p)
    ensures r.Ok? ==> Derives(p, r.value)
  {
    hide Classifies, RestrictedOk, ExceptionsOk, ProtectionOk, ExternalAllowedOk, ExternalExceptionsOk, ReservedOk,
      Consistent, IsRestrictedAllowance, IsException, IsExternalAllowance, IsExternalException, Protected;
    if |p.categories| == 0 {
      return Err(NoCategories);
    }
    if p.allowed.Keys != p.categories.Keys {
      return Err(AllowedKeysDiffer);
    }
    var packages :- ClassifyPackages(p.categories);
    if exists c :: c in p.allowed && exists t :: t in p.allowed[c] && t !in p.categories {
      return Err(UnknownAllowedCategory);
    }
    assert CategoriesOk(p);
    assert forall other :: Classifies(other, p.categories) ==> other == packages by {
      forall other | Classifies(other, p.categories)
        ensures other == packages
      {
        ClassificationIsUnique(other, packages, p.categories);
      }
    }
    assert Valid(p) <==> PolicyOk(p, packages);
    var restrictedAllowed :- CollectRestricted(p, packages);
    var exceptions :- CollectExceptions(p, packages);
    var protected :- CheckProtection(p, packages);
    var externalAllowed :- CollectExternalAllowed(p, packages);
    var externalExceptions :- CollectExternalExceptions(p, packages, protected, externalAllowed);
    var reserved :- CollectReserved(p.reserved, packages);
    return Ok(Derived(packages, restrictedAllowed, exceptions, protected, externalAllowed, externalExceptions, reserved));
  }

  // ---------------------------------------------------------------------
  // check_dependencies
  // ---------------------------------------------------------------------

  datatype DependencyError =
    | UnclassifiedPackages(names: set<Name>)
    | StaleClassifications(names: set<Name>)
    | ReservedGone(name: Name)
    | ReservedHasDependent(at: WorkspaceEdge)
    | ReservedHasDependency(at: WorkspaceEdge)
    | ForbiddenEdge(at: WorkspaceEdge)
    | ObsoleteAllowance(edge: Edge)
    | ObsoleteException(edge: Edge)
    | PolicyNamesWorkspace(names: set<Name>)
    | ForbiddenExternal(external: ExternalEdge)
    | ObsoleteExternalAllowance(external: ExternalEdge)
    | ObsoleteExternalException(external: ExternalEdge)

  function TargetsInWorkspace(d: Derived, packages: set<Name>): set<Name> {
    set e | e in d.externalAllowed + d.externalExceptions && e.target in packages :: e.target
  }

  /** What the error list must contain. */
  predicate IsError(p: Policy, d: Derived, m: Metadata, x: DependencyError) {
    match x
    case UnclassifiedPackages(names) => names == m.packages - d.packages.Keys && names != {}
    case StaleClassifications(names) => names == d.packages.Keys - m.packages && names != {}
    case ReservedGone(name) => name in d.reserved && name !in m.packages
    case ReservedHasDependent(w) => w in m.workspaceEdges && w.edge.target in d.reserved
    case ReservedHasDependency(w) => w in m.workspaceEdges && w.edge.source in d.reserved
    case ForbiddenEdge(w) => w in m.workspaceEdges && ClassifyEdge(p, d, w.edge).Forbidden?
    case ObsoleteAllowance(e) => e in d.restrictedAllowed && e !in UsedRestricted(p, d, m.workspaceEdges)
    case ObsoleteException(e) => e in d.exceptions && e !in UsedExceptions(p, d, m.workspaceEdges)
    case PolicyNamesWorkspace(names) => names == TargetsInWorkspace(d, m.packages) && names != {}
    case ForbiddenExternal(e) => e in m.externalEdges && ClassifyExternalDependency(d, e).Forbidden?
    case ObsoleteExternalAllowance(e) => e in d.externalAllowed && e !in UsedExternalAllowed(d, m.externalEdges)
    case ObsoleteExternalException(e) => e in d.externalExceptions && e !in UsedExternalExceptions(d, m.externalEdges)
  }

  lemma NoErrorsMeansNone(p: Policy, d: Derived, m: Metadata)
    ensures NoErrors(p, d, m) <==> forall x :: !IsError(p, d, m, x)
  {
    hide IsError, NoErrors;
    if NoErrors(p, d, m) {
      forall x
        ensures !IsError(p, d, m, x)
      {
        AcceptedHasNone(p, d, m, x);
      }
    }
    if forall x :: !IsError(p, d, m, x) {
      NoneIsAccepted(p, d, m);
    }
  }

  lemma AcceptedHasNone(p: Policy, d: Derived, m: Metadata, x: DependencyError)
    requires NoErrors(p, d, m)
    ensures !IsError(p, d, m, x)
  {
    hide ClassifyEdge, ClassifyExternalDependency, UsedRestricted, UsedExceptions, UsedExternalAllowed, UsedExternalExceptions;
    assert m.packages - d.packages.Keys == {} && d.packages.Keys - m.packages == {};
  }

  lemma NoneIsAccepted(p: Policy, d: Derived, m: Metadata)
    requires forall x :: !IsError(p, d, m, x)
    ensures NoErrors(p, d, m)
  {
    hide ClassifyEdge, ClassifyExternalDependency, UsedRestricted, UsedExceptions, UsedExternalAllowed, UsedExternalExceptions;
    NoneMeansFrame(p, d, m);
    assert forall w :: w in m.workspaceEdges ==> !IsError(p, d, m, ForbiddenEdge(w));
    assert forall e :: e in d.restrictedAllowed ==> !IsError(p, d, m, ObsoleteAllowance(e));
    assert forall e :: e in d.exceptions ==> !IsError(p, d, m, ObsoleteException(e));
    assert forall e :: e in m.externalEdges ==> !IsError(p, d, m, ForbiddenExternal(e));
    assert forall e :: e in d.externalAllowed ==> !IsError(p, d, m, ObsoleteExternalAllowance(e));
    assert forall e :: e in d.externalExceptions ==> !IsError(p, d, m, ObsoleteExternalException(e));
  }

  lemma NoneMeansFrame(p: Policy, d: Derived, m: Metadata)
    requires forall x :: !IsError(p, d, m, x)
    ensures FrameAccepts(d, m) && !ReferencesWorkspace(d, m.packages)
  {
    hide ClassifyEdge, ClassifyExternalDependency, UsedRestricted, UsedExceptions, UsedExternalAllowed, UsedExternalExceptions;
    var unclassified, stale := m.packages - d.packages.Keys, d.packages.Keys - m.packages;
    assert !IsError(p, d, m, UnclassifiedPackages(unclassified)) && !IsError(p, d, m, StaleClassifications(stale));
    assert forall n :: n in m.packages && n !in d.packages.Keys ==> n in unclassified;
    assert forall n :: n in d.packages.Keys && n !in m.packages ==> n in stale;
    assert forall n :: n in d.reserved ==> !IsError(p, d, m, ReservedGone(n));
    assert forall w :: w in m.workspaceEdges ==> !IsError(p, d, m, ReservedHasDependent(w));
    assert forall w :: w in m.workspaceEdges ==> !IsError(p, d, m, ReservedHasDependency(w));
    assert !IsError(p, d, m, PolicyNamesWorkspace(TargetsInWorkspace(d, m.packages)));
    assert forall e :: e in d.externalAllowed + d.externalExceptions && e.target in m.packages ==>
      e.target in TargetsInWorkspace(d, m.packages);
  }

  /** The elements of a set in some order; the source sorts them for its messages. */
  method Listed<T(==)>(s: set<T>) returns (r: seq<T>)
    ensures |r| == |s| && forall x :: x in r <==> x in s
  {
    r := [];
    var todo := s;
    while todo != {}
      invariant todo <= s && |r| + |todo| == |s|
      invariant forall x :: x in r <==> x in s && x !in todo
      decreases todo
    {
      var x :| x in todo;
      r := r + [x];
      todo := todo - {x};
    }
  }

  method ReservedErrors(p: Policy, d: Derived, m: Metadata) returns (errors: seq<DependencyError>)
    ensures forall x :: x in errors <==>
      (x.ReservedGone? || x.ReservedHasDependent? || x.ReservedHasDependency?) && IsError(p, d, m, x)
  {
    errors := [];
    var names := Listed(d.reserved);
    for i := 0 to |names|
      invariant forall x :: x in errors <==> (x.ReservedGone? && x.name in names[..i] && x.name !in m.packages)
    {
      if names[i] !in m.packages {
        errors := errors + [ReservedGone(names[i])];
      }
    }
    assert names[..|names|] == names;
    ghost var gone := errors;
    var edges := Listed(m.workspaceEdges);
    for i := 0 to |edges|
      invariant forall x :: x in errors <==>
        (x in gone
         || (x.ReservedHasDependent? && x.at in edges[..i] && x.at.edge.target in d.reserved)
         || (x.ReservedHasDependency? && x.at in edges[..i] && x.at.edge.source in d.reserved))
    {
      if edges[i].edge.target in d.reserved {
        errors := errors + [ReservedHasDependent(edges[i])];
      }
      if edges[i].edge.source in d.reserved {
        errors := errors + [ReservedHasDependency(edges[i])];
      }
    }
    assert edges[..|edges|] == edges;
  }

  method PackageErrors(p: Policy, d: Derived, m: Metadata) returns (errors: seq<DependencyError>)
    ensures forall x :: x in errors <==>
      (x.UnclassifiedPackages? || x.StaleClassifications? || x.PolicyNamesWorkspace?) && IsError(p, d, m, x)
  {
    errors := [];
    var missing, stale := m.packages - d.packages.Keys, d.packages.Keys - m.packages;
    if missing != {} {
      errors := errors + [UnclassifiedPackages(missing)];
    }
    if stale != {} {
      errors := errors + [StaleClassifications(stale)];
    }
    var policyTargets := set e | e in d.externalAllowed + d.externalExceptions :: e.target;
    var inWorkspace := policyTargets * m.packages;
    assert inWorkspace == TargetsInWorkspace(d, m.packages);
    if inWorkspace != {} {
      errors := errors + [PolicyNamesWorkspace(inWorkspace)];
    }
  }

  /** Classifies every workspace edge and records which grants were used. */
  method ClassifyWorkspaceEdges(p: Policy, d: Derived, m: Metadata)
    returns (errors: seq<DependencyError>, usedAllowed: set<Edge>, usedExceptions: set<Edge>)
    ensures forall x :: x in errors <==> x.ForbiddenEdge? && IsError(p, d, m, x)
    ensures usedAllowed == UsedRestricted(p, d, m.workspaceEdges)
    ensures usedExceptions == UsedExceptions(p, d, m.workspaceEdges)
  {
    hide ClassifyEdge;
    errors, usedAllowed, usedExceptions := [], {}, {};
    var todo := m.workspaceEdges;
    ghost var done: set<WorkspaceEdge> := {};
    while todo != {}
      invariant done + todo == m.workspaceEdges
      invariant forall x :: x in errors <==> x.ForbiddenEdge? && x.at in done && ClassifyEdge(p, d, x.at.edge).Forbidden?
      invariant usedAllowed == UsedRestricted(p, d, done)
      invariant usedExceptions == UsedExceptions(p, d, done)
      decreases todo
    {
      var w :| w in todo;
      ghost var before := done;
      var decision := ClassifyEdge(p, d, w.edge);
      if decision.Allowed? && w.edge in d.restrictedAllowed {
        usedAllowed := usedAllowed + {w.edge};
      } else if decision.Excepted? {
        usedExceptions := usedExceptions + {w.edge};
      } else if decision.Forbidden? {
        errors := errors + [ForbiddenEdge(w)];
      }
      todo, done := todo - {w}, done + {w};
      UsedByOneMore(p, d, before, w);
    }
    assert done == m.workspaceEdges;
  }

  lemma UsedByOneMore(p: Policy, d: Derived, done: set<WorkspaceEdge>, w: WorkspaceEdge)
    ensures UsedRestricted(p, d, done + {w}) == UsedRestricted(p, d, done)
      + (if ClassifyEdge(p, d, w.edge).Allowed? && w.edge in d.restrictedAllowed then {w.edge} else {})
    ensures UsedExceptions(p, d, done + {w}) == UsedExceptions(p, d, done)
      + (if ClassifyEdge(p, d, w.edge).Excepted? then {w.edge} else {})
  {
    hide ClassifyEdge;
    var after := done + {w};
    assert forall e :: e in UsedRestricted(p, d, after) ==> exists v :: v in after && v.edge == e;
    assert forall e :: e in UsedExceptions(p, d, after) ==> exists v :: v in after && v.edge == e;
  }

  method WorkspaceErrors(p: Policy, d: Derived, m: Metadata) returns (errors: seq<DependencyError>, usedExceptions: set<Edge>)
    ensures forall x :: x in errors <==>
      (x.ForbiddenEdge? || x.ObsoleteAllowance? || x.ObsoleteException?) && IsError(p, d, m, x)
    ensures usedExceptions == UsedExceptions(p, d, m.workspaceEdges)
  {
    hide ClassifyEdge, UsedRestricted, UsedExceptions;
    var usedAllowed;
    errors, usedAllowed, usedExceptions := ClassifyWorkspaceEdges(p, d, m);
    ghost var forbidden := errors;
    var staleAllowed := Listed(d.restrictedAllowed - usedAllowed);
    for i := 0 to |staleAllowed|
      invariant forall x :: x in errors <==> (x in forbidden || (x.ObsoleteAllowance? && x.edge in staleAllowed[..i]))
    {
      errors := errors + [ObsoleteAllowance(staleAllowed[i])];
    }
    assert staleAllowed[..|staleAllowed|] == staleAllowed;
    ghost var allowances := errors;
    var staleExceptions := Listed(d.exceptions - usedExceptions);
    for i := 0 to |staleExceptions|
      invariant forall x :: x in errors <==> (x in allowances || (x.ObsoleteException? && x.edge in staleExceptions[..i]))
    {
      errors := errors + [ObsoleteException(staleExceptions[i])];
    }
    assert staleExceptions[..|staleExceptions|] == staleExceptions;
  }

  method ClassifyExternalEdges(p: Policy, d: Derived, m: Metadata)
    returns (errors: seq<DependencyError>, usedAllowed: set<ExternalEdge>, usedExceptions: set<ExternalEdge>)
    ensures forall x :: x in errors <==> x.ForbiddenExternal? && IsError(p, d, m, x)
    ensures usedAllowed == UsedExternalAllowed(d, m.externalEdges)
    ensures usedExceptions == UsedExternalExceptions(d, m.externalEdges)
  {
    hide ClassifyExternalDependency;
    errors, usedAllowed, usedExceptions := [], {}, {};
    var todo := m.externalEdges;
    ghost var done: set<ExternalEdge> := {};
    while todo != {}
      invariant done + todo == m.externalEdges
      invariant forall x :: x in errors <==>
        x.ForbiddenExternal? && x.external in done && ClassifyExternalDependency(d, x.external).Forbidden?
      invariant usedAllowed == UsedExternalAllowed(d, done)
      invariant usedExceptions == UsedExternalExceptions(d, done)
      decreases todo
    {
      var e :| e in todo;
      var decision := ClassifyExternalDependency(d, e);
      if decision.Allowed? && e in d.externalAllowed {
        usedAllowed := usedAllowed + {e};
      } else if decision.Excepted? {
        usedExceptions := usedExceptions + {e};
      } else if decision.Forbidden? {
        errors := errors + [ForbiddenExternal(e)];
      }
      todo, done := todo - {e}, done + {e};
    }
    assert done == m.externalEdges;
  }

  method ExternalErrors(p: Policy, d: Derived, m: Metadata)
    returns (errors: seq<DependencyError>, usedAllowed: set<ExternalEdge>, usedExceptions: set<ExternalEdge>)
    ensures forall x :: x in errors <==>
      (x.ForbiddenExternal? || x.ObsoleteExternalAllowance? || x.ObsoleteExternalException?) && IsError(p, d, m, x)
    ensures usedAllowed == UsedExternalAllowed(d, m.externalEdges)
    ensures usedExceptions == UsedExternalExceptions(d, m.externalEdges)
  {
    hide ClassifyExternalDependency, UsedExternalAllowed, UsedExternalExceptions;
    errors, usedAllowed, usedExceptions := ClassifyExternalEdges(p, d, m);
    ghost var forbidden := errors;
    var staleAllowed := Listed(d.externalAllowed - usedAllowed);
    for i := 0 to |staleAllowed|
      invariant forall x :: x in errors <==>
        (x in forbidden || (x.ObsoleteExternalAllowance? && x.external in staleAllowed[..i]))
    {
      errors := errors + [ObsoleteExternalAllowance(staleAllowed[i])];
    }
    assert staleAllowed[..|staleAllowed|] == staleAllowed;
    ghost var allowances := errors;
    var staleExceptions := Listed(d.externalExceptions - usedExceptions);
    for i := 0 to |staleExceptions|
      invariant forall x :: x in errors <==>
        (x in allowances || (x.ObsoleteExternalException? && x.external in staleExceptions[..i]))
    {
      errors := errors + [ObsoleteExternalException(staleExceptions[i])];
    }
    assert staleExceptions[..|staleExceptions|] == staleExceptions;
  }

  /** The counts reported on success. */
  datatype Summary = Summary(packages: nat, edges: nat, exceptions: nat, guardedExternal: nat, externalExceptions: nat)

  /** Accepts exactly the metadata without errors, otherwise reports each of them. */
  method CheckDependencies(p: Policy, d: Derived, m: Metadata) returns (r: Result<Summary, seq<DependencyError>>)
    requires Derives(p, d)
    ensures r.Ok? <==> NoErrors(p, d, m)
    ensures r.Ok? ==> r.value == Summary(|m.packages|, |m.workspaceEdges|, |d.exceptions|,
                                         |d.externalAllowed| + |d.externalExceptions|, |d.externalExceptions|)
    ensures r.Err? ==> forall x :: x in r.error <==> IsError(p, d, m, x)
  {
    hide Derives, IsError, ClassifyEdge, FrameAccepts, ReferencesWorkspace;
    var packageErrors := PackageErrors(p, d, m);
    var reservedErrors := ReservedErrors(p, d, m);
    var workspaceErrors, usedExceptions := WorkspaceErrors(p, d, m);
    var externalErrors, usedAllowed, usedExternal := ExternalErrors(p, d, m);
    var errors := packageErrors + reservedErrors + workspaceErrors + externalErrors;
    assert forall x :: x in errors <==> IsError(p, d, m, x);
    NoErrorsMeansNone(p, d, m);
    if errors != [] {
      assert IsError(p, d, m, errors[0]);
      return Err(errors);
    }
    UsedGrantsAreGrants(p, d, m);
    assert usedExceptions == d.exceptions && usedAllowed == d.externalAllowed && usedExternal == d.externalExceptions;
    ExternalListsAreDisjoint(p, d);
    assert |usedAllowed + usedExternal| == |usedAllowed| + |usedExternal|;
    return Ok(Summary(|m.packages|, |m.workspaceEdges|, |usedExceptions|, |usedAllowed + usedExternal|, |usedExternal|));
  }

  lemma UsedGrantsAreGrants(p: Policy, d: Derived, m: Metadata)
    ensures UsedExceptions(p, d, m.workspaceEdges) <= d.exceptions
    ensures UsedExternalAllowed(d, m.externalEdges) <= d.externalAllowed
    ensures UsedExternalExceptions(d, m.externalEdges) <= d.externalExceptions
  {
  }
}
