/** Configuration merging and composition order of compose.py. */
module Compose {
  import opened Common
  import opened Sorting
  import opened ConfigDigest

  // ---------------------------------------------------------------------
  // Configuration: package defaults, then operator overrides
  // ---------------------------------------------------------------------

  function Lookup(items: seq<Entry>, key: string): Option<Value> {
    if items == [] then None
    else if items[0].key == key then Some(items[0].value)
    else Lookup(items[1..], key)
  }

  /** `merged[key] = value` on an insertion-ordered mapping. */
  function Put(items: seq<Entry>, e: Entry): seq<Entry> {
    if items == [] then [e]
    else if items[0].key == e.key then [e] + items[1..]
    else [items[0]] + Put(items[1..], e)
  }

  lemma {:induction false} LookupFinds(items: seq<Entry>, key: string)
    requires DistinctKeys(items)
    ensures Lookup(items, key).None? ==> forall e :: e in items ==> e.key != key
    ensures forall v :: Entry(key, v) in items <==> Lookup(items, key) == Some(v)
  {
    if items != [] {
      LookupFinds(items[1..], key);
      assert items == [items[0]] + items[1..];
      assert forall i :: 1 <= i < |items| ==> items[i].key != items[0].key;
    }
  }

  lemma {:induction false} PutKeys(items: seq<Entry>, e: Entry)
    ensures forall x :: x in Put(items, e) ==> x == e || x in items
    ensures DistinctKeys(items) ==> DistinctKeys(Put(items, e))
    ensures ValidKeys(items) && ValidKey(e.key) ==> ValidKeys(Put(items, e))
  {
    hide DistinctKeys, ValidKey;
    if items == [] {
      NoKeys(e);
    } else {
      var rest := items[1..];
      assert items == [items[0]] + rest;
      PutKeys(rest, e);
      if DistinctKeys(items) {
        RestDistinct(items);
        ConsDistinct(if items[0].key == e.key then e else items[0], if items[0].key == e.key then rest else Put(rest, e));
      }
    }
  }

  lemma NoKeys(e: Entry)
    ensures DistinctKeys([e])
  {
  }

  lemma {:induction false} PutLookup(items: seq<Entry>, e: Entry, key: string)
    ensures Lookup(Put(items, e), key) == if key == e.key then Some(e.value) else Lookup(items, key)
  {
    if items != [] {
      PutLookup(items[1..], e, key);
    }
  }

  /** An override wins over a default; a key with neither is absent. */
  ghost predicate IsMerge(merged: seq<Entry>, defaults: seq<Entry>, overrides: seq<Entry>) {
    DistinctKeys(merged) && forall key ::
      Lookup(merged, key) == if Lookup(overrides, key).Some? then Lookup(overrides, key) else Lookup(defaults, key)
  }

  method PutAll(base: seq<Entry>, values: seq<Entry>) returns (r: Option<seq<Entry>>)
    requires DistinctKeys(base) && ValidKeys(base) && DistinctKeys(values)
    ensures r.Some? <==> ValidKeys(values)
    ensures r.Some? ==> IsMerge(r.value, base, values) && ValidKeys(r.value)
  {
    hide Put, ValidKey;
    var merged := base;
    for i := 0 to |values|
      invariant DistinctKeys(merged) && ValidKeys(merged) && ValidKeys(values[..i])
      invariant forall key ::
        Lookup(merged, key) == if Lookup(values[..i], key).Some? then Lookup(values[..i], key) else Lookup(base, key)
    {
      var e := values[i];
      if !ValidKey(e.key) {
        return None;
      }
      var before := merged;
      merged := Put(merged, e);
      PutKeys(before, e);
      assert values[..i + 1] == values[..i] + [e];
      forall key
        ensures Lookup(merged, key)
          == if Lookup(values[..i + 1], key).Some? then Lookup(values[..i + 1], key) else Lookup(base, key)
      {
        PutLookup(before, e, key);
        LookupSnoc(values[..i], e, key);
      }
    }
    assert values[..|values|] == values;
    return Some(merged);
  }

  lemma {:induction false} LookupSnoc(items: seq<Entry>, e: Entry, key: string)
    requires forall x :: x in items ==> x.key != e.key
    ensures Lookup(items + [e], key) == if key == e.key then Some(e.value) else Lookup(items, key)
  {
    if items == [] {
      assert items + [e] == [e];
      assert [e][1..] == [];
    } else {
      LookupSnoc(items[1..], e, key);
      assert (items + [e])[1..] == items[1..] + [e];
      assert items[0] in items;
    }
  }

  lemma SameEntriesSameLookup(a: seq<Entry>, b: seq<Entry>, key: string)
    requires DistinctKeys(a) && DistinctKeys(b) && multiset(a) == multiset(b)
    ensures Lookup(a, key) == Lookup(b, key)
  {
    LookupFinds(a, key);
    LookupFinds(b, key);
    assert forall e :: e in a <==> e in multiset(a);
    assert forall e :: e in b <==> e in multiset(b);
    assert forall v :: Lookup(a, key) == Some(v) <==> Lookup(b, key) == Some(v) by {
      forall v
        ensures Lookup(a, key) == Some(v) <==> Lookup(b, key) == Some(v)
      {
        assert Entry(key, v) in a <==> Entry(key, v) in b;
      }
    }
  }

  /** Counting form of distinct keys, which survives reordering. */
  lemma {:induction false} DistinctAfterSort(items: seq<Entry>)
    requires DistinctKeys(items)
    ensures DistinctKeys(Sort(EntryLess, items))
  {
    hide EntryLess;
    if items != [] {
      DistinctAfterSort(items[1..]);
      var s := Sort(EntryLess, items[1..]);
      assert forall x :: x in s ==> x in multiset(s);
      assert forall x :: x in s ==> x.key != items[0].key;
      InsertKeepsDistinct(items[0], s);
    }
  }

  lemma ConsDistinct(x: Entry, r: seq<Entry>)
    requires DistinctKeys(r) && forall y :: y in r ==> y.key != x.key
    ensures DistinctKeys([x] + r)
  {
    var all := [x] + r;
    assert forall i :: 1 <= i < |all| ==> all[i] == r[i - 1] && all[i] in r;
  }

  lemma RestDistinct(s: seq<Entry>)
    requires DistinctKeys(s) && s != []
    ensures DistinctKeys(s[1..]) && forall y :: y in s[1..] ==> y.key != s[0].key
  {
  }

  lemma InsertHas(e: Entry, s: seq<Entry>)
    ensures forall x :: x in Insert(EntryLess, e, s) ==> x == e || x in s
  {
    var r := Insert(EntryLess, e, s);
    assert forall x :: x in r ==> x in multiset(r);
  }

  lemma {:induction false} InsertKeepsDistinct(e: Entry, s: seq<Entry>)
    requires DistinctKeys(s) && forall x :: x in s ==> x.key != e.key
    ensures DistinctKeys(Insert(EntryLess, e, s))
  {
    hide EntryLess, DistinctKeys;
    if s == [] || !EntryLess(s[0], e) {
      ConsDistinct(e, s);
    } else {
      RestDistinct(s);
      InsertKeepsDistinct(e, s[1..]);
      InsertHas(e, s[1..]);
      ConsDistinct(s[0], Insert(EntryLess, e, s[1..]));
    }
  }

  /** Succeeds exactly on valid keys; the result is the merge, listed by key. */
  method LoadConfig(defaults: seq<Entry>, overrides: seq<Entry>) returns (r: Option<seq<Entry>>)
    requires DistinctKeys(defaults) && DistinctKeys(overrides)
    ensures r.Some? <==> ValidKeys(defaults) && ValidKeys(overrides)
    ensures r.Some? ==>
      IsMerge(r.value, defaults, overrides) && ValidKeys(r.value) && Sorted(EntryLess, r.value)
  {
    hide Lookup, EntryLess, Sorted, ValidKey;
    var first := PutAll([], defaults);
    if first.None? {
      return None;
    }
    var merged := PutAll(first.value, overrides);
    if merged.None? {
      return None;
    }
    var sorted := Sort(EntryLess, merged.value);
    DistinctAfterSort(merged.value);
    EntryLessIsOrder();
    SortSorts(EntryLess, merged.value);
    SortKeepsValidKeys(merged.value);
    forall key
      ensures Lookup(sorted, key)
        == if Lookup(overrides, key).Some? then Lookup(overrides, key) else Lookup(defaults, key)
    {
      SameEntriesSameLookup(sorted, merged.value, key);
      NothingLookedUp(key);
    }
    return Some(sorted);
  }

  lemma NothingLookedUp(key: string)
    ensures Lookup([], key).None?
  {
  }

  // ---------------------------------------------------------------------
  // Composition order
  // ---------------------------------------------------------------------

  datatype Module = Module(id: string, package: string, order: int)

  /** Ids are distinct and packages are distinct. */
  predicate NoCollisions(modules: seq<Module>) {
    forall i, j :: 0 <= i < j < |modules| ==>
      modules[i].id != modules[j].id && modules[i].package != modules[j].package
  }

  method HasDuplicate(values: seq<string>) returns (r: bool)
    ensures r <==> exists i, j :: 0 <= i < j < |values| && values[i] == values[j]
  {
    var seen: set<string> := {};
    for i := 0 to |values|
      invariant forall v :: v in seen <==> v in values[..i]
      invariant forall a, b :: 0 <= a < b < i ==> values[a] != values[b]
    {
      if values[i] in seen {
        var a :| 0 <= a < i && values[a] == values[i];
        return true;
      }
      seen := seen + {values[i]};
    }
    return false;
  }

  method RejectCollisions(modules: seq<Module>) returns (ok: bool)
    ensures ok <==> NoCollisions(modules)
  {
    var ids := seq(|modules|, i requires 0 <= i < |modules| => modules[i].id);
    var sameId := HasDuplicate(ids);
    if sameId {
      var i, j :| 0 <= i < j < |ids| && ids[i] == ids[j];
      assert modules[i].id == modules[j].id;
      return false;
    }
    var packages := seq(|modules|, i requires 0 <= i < |modules| => modules[i].package);
    var samePackage := HasDuplicate(packages);
    if samePackage {
      var i, j :| 0 <= i < j < |packages| && packages[i] == packages[j];
      assert modules[i].package == modules[j].package;
      return false;
    }
    forall i, j | 0 <= i < j < |modules|
      ensures modules[i].id != modules[j].id && modules[i].package != modules[j].package
    {
      assert ids[i] != ids[j] && packages[i] != packages[j];
    }
    return true;
  }

  /** Operator order first, then module id. */
  predicate ModuleLess(a: Module, b: Module) {
    a.order < b.order || (a.order == b.order && TextLess(a.id, b.id))
  }

  function Ordered(modules: seq<Module>): seq<Module> {
    Sort(ModuleLess, modules)
  }

  lemma ModuleLessIsOrder()
    ensures IsOrder(ModuleLess)
  {
    hide TextLess;
    TextLessIsOrder();
    forall a, b, c | !ModuleLess(b, a) && !ModuleLess(c, b)
      ensures !ModuleLess(c, a)
    {
      assert !TextLess(b.id, a.id) && !TextLess(c.id, b.id) ==> !TextLess(c.id, a.id);
    }
    assert forall a, b :: ModuleLess(a, b) ==> !ModuleLess(b, a);
  }

  /** The same modules, lower operator order first, and module ids ascending within one order. */
  lemma OrderedIsByOrderThenId(modules: seq<Module>)
    ensures multiset(Ordered(modules)) == multiset(modules)
    ensures forall i, j :: 0 <= i < j < |Ordered(modules)| ==>
      var x, y := Ordered(modules)[i], Ordered(modules)[j];
      x.order < y.order || (x.order == y.order && (x.id == y.id || TextLess(x.id, y.id)))
  {
    hide TextLess;
    ModuleLessIsOrder();
    SortSorts(ModuleLess, modules);
    forall i, j | 0 <= i < j < |Ordered(modules)|
      ensures var x, y := Ordered(modules)[i], Ordered(modules)[j];
        x.order < y.order || (x.order == y.order && (x.id == y.id || TextLess(x.id, y.id)))
    {
      TextLessIsTotal(Ordered(modules)[i].id, Ordered(modules)[j].id);
    }
  }

  /** Once collisions are rejected, composition order does not depend on discovery order. */
  lemma OrderedIsReproducible(a: seq<Module>, b: seq<Module>)
    requires NoCollisions(a)
    ensures multiset(a) == multiset(b) <==> Ordered(a) == Ordered(b)
  {
    hide TextLess;
    ModuleLessIsOrder();
    forall x, y | x in a && y in a && x != y
      ensures ModuleLess(x, y) || ModuleLess(y, x)
    {
      TextLessIsTotal(x.id, y.id);
    }
    SortIsCanonical(ModuleLess, a, b);
  }
}
