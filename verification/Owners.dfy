/** The owner-overlap loop of `validate_handler_module_policy` in check_policy.py. */
module Owners {
  import opened Common
  import opened Ledger
  import opened Text

  datatype Owner = Owner(
    capability: string, package: string, modulePath: string, allowDescendants: bool, trackingIssue: int)

  datatype OwnerError =
    | UnknownCapability | DuplicateCapability | NoPackage | InvalidModule | Overlap(previous: string, current: string)
    | BadTrackingIssue | AbsentIssue | ClosedIssue | MissingCapabilities

  // ---------------------------------------------------------------------
  // Logical modules: `crate(::identifier)*`
  // ---------------------------------------------------------------------

  predicate IsIdentifierStart(c: char) {
    'A' <= c <= 'Z' || 'a' <= c <= 'z' || c == '_'
  }

  predicate IsIdentifierChar(c: char) {
    IsIdentifierStart(c) || '0' <= c <= '9'
  }

  predicate IsIdentifier(s: string) {
    s != "" && IsIdentifierStart(s[0]) && forall i :: 0 <= i < |s| ==> IsIdentifierChar(s[i])
  }

  /** `s` is `crate` followed by any number of `::identifier`. */
  predicate IsLogicalModule(s: string)
    decreases |s|
  {
    s == "crate" || exists n :: 0 <= n && n + 2 < |s| && s[n..n + 2] == "::" && IsIdentifier(s[n + 2..]) && IsLogicalModule(s[..n])
  }

  lemma IdentifierChars(c: char)
    ensures IsIdentifierStart(c) <==> c in UPPER + LOWER + {'_'}
    ensures IsIdentifierChar(c) <==> c in UPPER + LOWER + DIGITS + {'_'}
  {
    CharacterRanges(c);
  }

  /** `crate::first::second`... */
  function PathOf(names: seq<string>): string {
    if names == [] then "crate" else PathOf(names[..|names| - 1]) + "::" + names[|names| - 1]
  }

  lemma {:induction false} PathIsLogical(names: seq<string>)
    requires forall name :: name in names ==> IsIdentifier(name)
    ensures IsLogicalModule(PathOf(names))
  {
    hide IsIdentifier;
    if names != [] {
      var init, last := names[..|names| - 1], names[|names| - 1];
      PathIsLogical(init);
      var s, n := PathOf(names), |PathOf(init)|;
      IdentifierIsNotEmpty(last);
      assert s[n..n + 2] == "::" && s[n + 2..] == last && s[..n] == PathOf(init);
    }
  }

  lemma IdentifierIsNotEmpty(name: string)
    requires IsIdentifier(name)
    ensures name != ""
  {
  }

  lemma {:induction false} LogicalIsPath(s: string) returns (names: seq<string>)
    requires IsLogicalModule(s)
    ensures s == PathOf(names) && forall name :: name in names ==> IsIdentifier(name)
    decreases |s|
  {
    hide IsIdentifier, PathOf;
    if s == "crate" {
      names := [];
      NoNames();
    } else {
      var n :| 0 <= n && n + 2 < |s| && s[n..n + 2] == "::" && IsIdentifier(s[n + 2..]) && IsLogicalModule(s[..n]);
      var init := LogicalIsPath(s[..n]);
      names := init + [s[n + 2..]];
      PathSnoc(init, s[n + 2..]);
      ThreeParts(s, n, n + 2);
    }
  }

  lemma NoNames()
    ensures PathOf([]) == "crate"
  {
  }

  lemma PathSnoc(names: seq<string>, last: string)
    ensures PathOf(names + [last]) == PathOf(names) + "::" + last
  {
    assert (names + [last])[..|names|] == names;
  }

  lemma ThreeParts(s: string, i: nat, j: nat)
    requires i <= j <= |s|
    ensures s == s[..i] + s[i..j] + s[j..]
  {
  }

  /** The accepted module paths are `crate` with any number of identifiers, each behind two colons. */
  lemma LogicalModulesArePaths(s: string)
    ensures IsLogicalModule(s) <==>
      exists names: seq<string> :: s == PathOf(names) && forall name :: name in names ==> IsIdentifier(name)
  {
    hide IsIdentifier, IsLogicalModule, PathOf;
    if IsLogicalModule(s) {
      var names := LogicalIsPath(s);
    }
    if names: seq<string> :| s == PathOf(names) && forall name :: name in names ==> IsIdentifier(name) {
      PathIsLogical(names);
    }
  }

  /** `child.startswith(parent + "::")` */
  predicate IsBelow(child: string, parent: string) {
    parent + "::" <= child
  }

  /** The logical modules an owner declares as its own. */
  predicate Owns(o: Owner, package: string, path: string) {
    o.package == package && (path == o.modulePath || (o.allowDescendants && IsBelow(path, o.modulePath)))
  }

  predicate Overlapping(a: Owner, b: Owner) {
    && a.package == b.package
    && (|| b.modulePath == a.modulePath || (a.allowDescendants && IsBelow(b.modulePath, a.modulePath))
        || (b.allowDescendants && IsBelow(a.modulePath, b.modulePath)))
  }

  lemma {:induction false} ModuleEndsInWord(s: string)
    requires IsLogicalModule(s)
    ensures s != "" && s[|s| - 1] != ':'
  {
    if s != "crate" {
      var n :| 0 <= n && n + 2 < |s| && s[n..n + 2] == "::" && IsIdentifier(s[n + 2..]) && IsLogicalModule(s[..n]);
      assert IsIdentifierChar(s[n + 2..][|s| - n - 3]);
    }
  }

  /** Two modules with a common descendant are one below the other, or the same. */
  lemma CommonDescendant(a: string, b: string, path: string)
    requires IsLogicalModule(a) && IsLogicalModule(b)
    requires IsBelow(path, a) && IsBelow(path, b) && |a| <= |b|
    ensures a == b || IsBelow(b, a)
  {
    ModuleEndsInWord(b);
    var x, y := a + "::", b + "::";
    assert x == path[..|x|] && y == path[..|y|];
    assert b == path[..|b|] && a == path[..|a|];
    assert path[|a|] == x[|a|] == ':';
    assert |b| > |a| ==> b[|a|] == ':';
    if |b| > |a| + 1 {
      assert b[..|x|] == path[..|x|];
    }
  }

  /** The pairwise test is exact: it fires if and only if some module has both owners. */
  lemma OverlapIsExact(a: Owner, b: Owner)
    requires IsLogicalModule(a.modulePath) && IsLogicalModule(b.modulePath)
    ensures Overlapping(a, b) <==> exists package, path :: Owns(a, package, path) && Owns(b, package, path)
  {
    if Overlapping(a, b) {
      var path := if b.modulePath == a.modulePath || (a.allowDescendants && IsBelow(b.modulePath, a.modulePath))
                  then b.modulePath else a.modulePath;
      assert Owns(a, a.package, path) && Owns(b, a.package, path);
    }
    forall package, path | Owns(a, package, path) && Owns(b, package, path)
      ensures Overlapping(a, b)
    {
      if path != a.modulePath && path != b.modulePath {
        if |a.modulePath| <= |b.modulePath| {
          CommonDescendant(a.modulePath, b.modulePath, path);
        } else {
          CommonDescendant(b.modulePath, a.modulePath, path);
        }
      }
    }
  }

  // ---------------------------------------------------------------------
  // The loop
  // ---------------------------------------------------------------------

  predicate OwnerOk(known: set<string>, issues: Entries, o: Owner) {
    && o.capability in known && o.package != "" && IsLogicalModule(o.modulePath) && o.trackingIssue > 0
    && o.trackingIssue in issues && issues[o.trackingIssue].state.Open?
  }

  predicate OwnersOk(known: set<string>, issues: Entries, owners: seq<Owner>) {
    && (forall i :: 0 <= i < |owners| ==> OwnerOk(known, issues, owners[i]))
    && (forall i, j :: 0 <= i < j < |owners| ==>
          owners[i].capability != owners[j].capability && !Overlapping(owners[i], owners[j]))
    && (forall c :: c in known ==> exists i :: 0 <= i < |owners| && owners[i].capability == c)
  }

  /** The first n owners are in order. */
  predicate OwnersUpTo(known: set<string>, issues: Entries, owners: seq<Owner>, n: nat)
    requires n <= |owners|
  {
    && (forall i :: 0 <= i < n ==> OwnerOk(known, issues, owners[i]))
    && (forall i, j :: 0 <= i < j < n ==>
          owners[i].capability != owners[j].capability && !Overlapping(owners[i], owners[j]))
  }

  /** What is wrong with owner k, given that the owners before it are in order. */
  predicate OwnerFaultAt(known: set<string>, issues: Entries, owners: seq<Owner>, k: nat, e: OwnerError)
    requires k < |owners|
  {
    var o := owners[k];
    match e
    case UnknownCapability => o.capability !in known
    case DuplicateCapability => exists i :: 0 <= i < k && owners[i].capability == o.capability
    case NoPackage => o.package == ""
    case InvalidModule => !IsLogicalModule(o.modulePath)
    case Overlap(previous, current) =>
      current == o.capability && exists i :: 0 <= i < k && owners[i].capability == previous && Overlapping(owners[i], o)
    case BadTrackingIssue => o.trackingIssue <= 0
    case AbsentIssue => o.trackingIssue > 0 && o.trackingIssue !in issues
    case ClosedIssue => o.trackingIssue in issues && !issues[o.trackingIssue].state.Open?
    case MissingCapabilities => false
  }

  /** What a refused policy is told: the fault of its first faulty owner, or that a capability is missing. */
  predicate OwnerFault(known: set<string>, issues: Entries, owners: seq<Owner>, e: OwnerError) {
    if e.MissingCapabilities? then
      OwnersUpTo(known, issues, owners, |owners|)
      && exists c :: c in known && forall i :: 0 <= i < |owners| ==> owners[i].capability != c
    else
      exists k :: 0 <= k < |owners| && OwnersUpTo(known, issues, owners, k) && OwnerFaultAt(known, issues, owners, k, e)
  }

  lemma FaultRefutes(known: set<string>, issues: Entries, owners: seq<Owner>, k: nat, e: OwnerError)
    requires k < |owners| && OwnersUpTo(known, issues, owners, k) && OwnerFaultAt(known, issues, owners, k, e)
    ensures OwnerFault(known, issues, owners, e) && !OwnersOk(known, issues, owners)
  {
    hide IsLogicalModule, Overlapping, OwnersUpTo;
    assert OwnersOk(known, issues, owners) ==> OwnerOk(known, issues, owners[k]);
  }

  lemma UpToOneMore(known: set<string>, issues: Entries, owners: seq<Owner>, k: nat)
    requires k < |owners| && OwnersUpTo(known, issues, owners, k) && OwnerOk(known, issues, owners[k])
    requires forall i :: 0 <= i < k ==> owners[i].capability != owners[k].capability && !Overlapping(owners[i], owners[k])
    ensures OwnersUpTo(known, issues, owners, k + 1)
  {
    hide OwnerOk, Overlapping;
  }

  /** The loop over the owners declared before. */
  method FirstOverlap(declared: seq<Owner>, owner: Owner) returns (p: nat)
    ensures p <= |declared| && (p < |declared| ==> Overlapping(declared[p], owner))
    ensures forall i :: 0 <= i < p ==> !Overlapping(declared[i], owner)
  {
    hide Overlapping;
    p := 0;
    while p < |declared|
      invariant p <= |declared| && forall i :: 0 <= i < p ==> !Overlapping(declared[i], owner)
    {
      if Overlapping(declared[p], owner) {
        return;
      }
      p := p + 1;
    }
  }

  method ValidateOwners(known: set<string>, issues: Entries, owners: seq<Owner>) returns (failed: Option<OwnerError>)
    ensures failed.None? <==> OwnersOk(known, issues, owners)
    ensures failed.Some? ==> OwnerFault(known, issues, owners, failed.value)
  {
    hide IsLogicalModule, Overlapping, OwnersUpTo, OwnerFault, OwnersOk;
    var seen: set<string> := {};
    var declared: seq<Owner> := [];
    NoneUpTo(known, issues, owners);
    for index := 0 to |owners|
      invariant declared == owners[..index]
      invariant OwnersUpTo(known, issues, owners, index)
      invariant forall c :: c in seen <==> exists i :: 0 <= i < index && owners[i].capability == c
    {
      var owner := owners[index];
      if owner.capability !in known {
        FaultRefutes(known, issues, owners, index, UnknownCapability);
        return Some(UnknownCapability);
      }
      if owner.capability in seen {
        FaultRefutes(known, issues, owners, index, DuplicateCapability);
        return Some(DuplicateCapability);
      }
      seen := seen + {owner.capability};
      if owner.package == "" {
        FaultRefutes(known, issues, owners, index, NoPackage);
        return Some(NoPackage);
      }
      if !IsLogicalModule(owner.modulePath) {
        FaultRefutes(known, issues, owners, index, InvalidModule);
        return Some(InvalidModule);
      }
      var p := FirstOverlap(declared, owner);
      if p < |declared| {
        FaultRefutes(known, issues, owners, index, Overlap(declared[p].capability, owner.capability));
        return Some(Overlap(declared[p].capability, owner.capability));
      }
      declared := declared + [owner];
      if owner.trackingIssue <= 0 {
        FaultRefutes(known, issues, owners, index, BadTrackingIssue);
        return Some(BadTrackingIssue);
      }
      if owner.trackingIssue !in issues {
        FaultRefutes(known, issues, owners, index, AbsentIssue);
        return Some(AbsentIssue);
      }
      if !issues[owner.trackingIssue].state.Open? {
        FaultRefutes(known, issues, owners, index, ClosedIssue);
        return Some(ClosedIssue);
      }
      UpToOneMore(known, issues, owners, index);
    }
    EndOfOwners(known, issues, owners, seen);
    if seen != known {
      return Some(MissingCapabilities);
    }
    return None;
  }

  lemma NoneUpTo(known: set<string>, issues: Entries, owners: seq<Owner>)
    ensures OwnersUpTo(known, issues, owners, 0)
  {
  }

  /** At the end only a capability without an owner can be missing. */
  lemma EndOfOwners(known: set<string>, issues: Entries, owners: seq<Owner>, seen: set<string>)
    requires OwnersUpTo(known, issues, owners, |owners|)
    requires forall c :: c in seen <==> exists i :: 0 <= i < |owners| && owners[i].capability == c
    ensures seen == known <==> OwnersOk(known, issues, owners)
    ensures seen != known ==> OwnerFault(known, issues, owners, MissingCapabilities)
  {
    hide IsLogicalModule, Overlapping;
    forall c | c in seen
      ensures c in known
    {
      var i :| 0 <= i < |owners| && owners[i].capability == c;
      assert OwnerOk(known, issues, owners[i]);
    }
    if seen != known {
      var c :| c in known && c !in seen;
      assert forall i :: 0 <= i < |owners| ==> owners[i].capability != c;
    }
  }

  /** In an accepted policy every logical module of every package has at most one owner. */
  lemma ModulesHaveOneOwner(known: set<string>, issues: Entries, owners: seq<Owner>, i: nat, j: nat, package: string, path: string)
    requires OwnersOk(known, issues, owners) && i < |owners| && j < |owners|
    requires Owns(owners[i], package, path) && Owns(owners[j], package, path)
    ensures i == j
  {
    hide Overlapping, Owns, IsLogicalModule;
    assert OwnerOk(known, issues, owners[i]) && OwnerOk(known, issues, owners[j]);
    OverlapIsExact(owners[i], owners[j]);
    OverlapIsExact(owners[j], owners[i]);
  }
}
