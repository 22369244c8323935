/** Reader and writer of the packet dump directory (rustdump.rs), over a map from file names to bytes. */
module RustDump {
  import opened Common
  import opened CaptureModel
  import opened Text
  import opened Utf8
  import opened Sorting
  import opened RustMeta
  import opened RustSidecar

  type Directory = map<string, seq<byte>>

  const MANIFEST := "rust.capture-manifest.json"
  const REPORT := "race.bot-report.json"

  datatype FileKind = Manifest | Report | MetaFile(stem: string) | BinFile(stem: string) | Unexpected

  predicate EndsWith(s: string, suffix: string) {
    |suffix| <= |s| && s[|s| - |suffix|..] == suffix
  }

  function Kind(name: string): FileKind {
    if name == MANIFEST then Manifest
    else if name == REPORT then Report
    else if EndsWith(name, ".meta") then MetaFile(name[..|name| - 5])
    else if EndsWith(name, ".bin") then BinFile(name[..|name| - 4])
    else Unexpected
  }

  function MetaName(stem: string): string {
    stem + ".meta"
  }

  function BinName(stem: string): string {
    stem + ".bin"
  }

  lemma StemOfName(stem: string, suffix: string)
    ensures var name := stem + suffix; EndsWith(name, suffix) && name[..|name| - |suffix|] == stem
  {
  }

  lemma LastLetters(name: string, suffix: string, k: nat)
    requires EndsWith(name, suffix) && 0 < k <= |suffix|
    ensures name[|name| - k] == suffix[|suffix| - k]
  {
    assert name[|name| - |suffix|..][|suffix| - k] == suffix[|suffix| - k];
  }

  lemma KindOfMeta(stem: string)
    ensures Kind(MetaName(stem)) == MetaFile(stem)
  {
    hide EndsWith;
    StemOfName(stem, ".meta");
    LastLetters(MetaName(stem), ".meta", 1);
    assert ".meta"[4] == 'a' && MANIFEST[|MANIFEST| - 1] == 'n' && REPORT[|REPORT| - 1] == 'n';
  }

  lemma KindOfBin(stem: string)
    ensures Kind(BinName(stem)) == BinFile(stem)
  {
    hide EndsWith;
    var name := BinName(stem);
    StemOfName(stem, ".bin");
    LastLetters(name, ".bin", 1);
    LastLetters(name, ".bin", 2);
    assert ".bin"[3] == 'n' && ".bin"[2] == 'i' && ".meta"[4] == 'a';
    assert MANIFEST[|MANIFEST| - 2] == 'o' && REPORT[|REPORT| - 2] == 'o';
    if EndsWith(name, ".meta") {
      LastLetters(name, ".meta", 1);
      assert false;
    }
  }

  lemma KindOfNames(stem: string)
    ensures Kind(MetaName(stem)) == MetaFile(stem) && Kind(BinName(stem)) == BinFile(stem)
  {
    hide Kind;
    KindOfMeta(stem);
    KindOfBin(stem);
  }

  lemma NameOfKind(name: string)
    ensures Kind(name).MetaFile? ==> name == MetaName(Kind(name).stem)
    ensures Kind(name).BinFile? ==> name == BinName(Kind(name).stem)
  {
  }

  // ---------------------------------------------------------------------
  // What a directory dumps
  // ---------------------------------------------------------------------

  predicate BinMatches(m: Meta, bin: seq<byte>, packet: CapturedPacket) {
    && |bin| == m.len && |bin| >= 2 && FromLe16(bin[..2]) == m.opcode
    && packet == CapturedPacket(m.direction, m.connectionId, m.opcode, bin[2..])
  }

  /** The stem's sidecar carries this sequence number and its body file holds this packet. */
  predicate PacketAt(env: Env, dir: Directory, stem: string, seqNo: nat, packet: CapturedPacket) {
    MetaName(stem) in dir && BinName(stem) in dir
    && var m := MetaOf(env, dir[MetaName(stem)], stem);
       m.Ok? && m.value.seqNo == seqNo && BinMatches(m.value, dir[BinName(stem)], packet)
  }

  predicate NameAllowed(name: string, stems: seq<string>) {
    match Kind(name)
    case Unexpected => false
    case MetaFile(stem) => stem in stems
    case BinFile(stem) => stem in stems
    case _ => true
  }

  /** Gap-free sequence numbers from `start`, one sidecar and one body file a packet, and no other file. */
  predicate DumpsAs(env: Env, dir: Directory, stems: seq<string>, start: nat, packets: seq<CapturedPacket>) {
    && packets != [] && |stems| == |packets| && start + |packets| <= USIZE_SIZE
    && (forall name :: name in dir ==> NameAllowed(name, stems))
    && (REPORT in dir ==> env.reportValid)
    && forall i :: 0 <= i < |stems| ==> PacketAt(env, dir, stems[i], start + i, packets[i])
  }

  ghost predicate Dumps(env: Env, dir: Directory, packets: seq<CapturedPacket>) {
    exists stems, start :: DumpsAs(env, dir, stems, start, packets)
  }

  ghost predicate NoDump(env: Env, dir: Directory) {
    forall packets :: !Dumps(env, dir, packets)
  }

  /** One stem holds one packet at one place. */
  lemma PacketAtUnique(env: Env, dir: Directory, stem: string, m: nat, x: CapturedPacket, n: nat, y: CapturedPacket)
    requires PacketAt(env, dir, stem, m, x) && PacketAt(env, dir, stem, n, y)
    ensures m == n && x == y
  {
    hide MetaOf, MetaName, BinName;
  }

  lemma PacketHasSidecar(env: Env, dir: Directory, stem: string, seqNo: nat, packet: CapturedPacket)
    requires PacketAt(env, dir, stem, seqNo, packet)
    ensures MetaName(stem) in dir
  {
    hide MetaOf, MetaName, BinName, BinMatches;
  }

  lemma SidecarIsListed(env: Env, dir: Directory, stems: seq<string>, start: nat, packets: seq<CapturedPacket>, stem: string)
    requires DumpsAs(env, dir, stems, start, packets) && MetaName(stem) in dir
    ensures stem in stems
  {
    hide PacketAt, Kind, MetaName;
    KindOfNames(stem);
    assert NameAllowed(MetaName(stem), stems);
  }

  /** Every packet of one reading sits at the same place of any other reading. */
  lemma SameSeqSameStem(env: Env, dir: Directory, a: seq<string>, s: nat, p: seq<CapturedPacket>,
                        b: seq<string>, t: nat, q: seq<CapturedPacket>, i: nat)
    requires DumpsAs(env, dir, a, s, p) && DumpsAs(env, dir, b, t, q) && i < |a|
    ensures t <= s + i < t + |b| && a[i] == b[s + i - t] && p[i] == q[s + i - t]
  {
    hide PacketAt, NameAllowed;
    assert PacketAt(env, dir, a[i], s + i, p[i]);
    PacketHasSidecar(env, dir, a[i], s + i, p[i]);
    SidecarIsListed(env, dir, b, t, q, a[i]);
    var j :| 0 <= j < |b| && b[j] == a[i];
    assert PacketAt(env, dir, b[j], t + j, q[j]);
    PacketAtUnique(env, dir, a[i], s + i, p[i], t + j, q[j]);
  }

  /** A directory dumps at most one packet list, so the listing order cannot matter. */
  lemma DumpIsUnique(env: Env, dir: Directory, p: seq<CapturedPacket>, q: seq<CapturedPacket>)
    requires Dumps(env, dir, p) && Dumps(env, dir, q)
    ensures p == q
  {
    hide DumpsAs;
    var a, s :| DumpsAs(env, dir, a, s, p);
    var b, t :| DumpsAs(env, dir, b, t, q);
    SameInterval(env, dir, a, s, p, b, t, q);
    SameInterval(env, dir, b, t, q, a, s, p);
    forall i | 0 <= i < |p|
      ensures p[i] == q[i]
    {
      SameSeqSameStem(env, dir, a, s, p, b, t, q, i);
    }
  }

  lemma SameInterval(env: Env, dir: Directory, a: seq<string>, s: nat, p: seq<CapturedPacket>,
                     b: seq<string>, t: nat, q: seq<CapturedPacket>)
    requires DumpsAs(env, dir, a, s, p) && DumpsAs(env, dir, b, t, q)
    ensures t <= s && s + |p| <= t + |q| && |p| == |a|
  {
    hide DumpsAs;
    SizeOf(env, dir, a, s, p);
    SizeOf(env, dir, b, t, q);
    SameSeqSameStem(env, dir, a, s, p, b, t, q, 0);
    SameSeqSameStem(env, dir, a, s, p, b, t, q, |a| - 1);
  }

  lemma SizeOf(env: Env, dir: Directory, stems: seq<string>, start: nat, packets: seq<CapturedPacket>)
    requires DumpsAs(env, dir, stems, start, packets)
    ensures |stems| == |packets| > 0
  {
  }

  // ---------------------------------------------------------------------
  // Reasons to reject
  // ---------------------------------------------------------------------

  lemma EmptyStemNeverParses(env: Env)
    ensures NeverParses(env, "")
  {
    hide Decode, ParseFields, HasAllKeys, OpcodeOf, Stem;
    StemIsNotEmpty();
  }

  lemma StemIsNotEmpty()
    ensures forall tag, n: nat, counter: nat, opcode, name, len: nat :: Stem(tag, n, counter, opcode, name, len) != ""
  {
    hide PadZeros, Decimal, Hex4;
  }

  lemma RejectUnexpected(env: Env, dir: Directory, name: string)
    requires name in dir && Kind(name).Unexpected?
    ensures NoDump(env, dir)
  {
  }

  lemma RejectReport(env: Env, dir: Directory)
    requires REPORT in dir && !env.reportValid
    ensures NoDump(env, dir)
  {
  }

  lemma RejectEmpty(env: Env, dir: Directory)
    requires forall stem :: MetaName(stem) !in dir
    ensures NoDump(env, dir)
  {
    hide Kind, MetaOf, MetaName, BinName;
    forall packets, stems, start: nat
      ensures !DumpsAs(env, dir, stems, start, packets)
    {
      if packets != [] && |stems| == |packets| {
        assert !PacketAt(env, dir, stems[0], start + 0, packets[0]);
      }
    }
  }

  lemma RejectUnpaired(env: Env, dir: Directory, stem: string)
    requires MetaName(stem) in dir <==> BinName(stem) !in dir
    ensures NoDump(env, dir)
  {
    hide Kind, MetaOf, MetaName, BinName;
    KindOfNames(stem);
    forall packets, stems, start: nat
      ensures !DumpsAs(env, dir, stems, start, packets)
    {
      if |stems| == |packets| && stem in stems {
        var i :| 0 <= i < |stems| && stems[i] == stem;
        assert !PacketAt(env, dir, stems[i], start + i, packets[i]);
      } else {
        assert stem !in stems ==> !NameAllowed(MetaName(stem), stems) && !NameAllowed(BinName(stem), stems);
      }
    }
  }

  /** A paired stem whose files cannot yield a packet at any position. */
  lemma RejectStem(env: Env, dir: Directory, stem: string)
    requires MetaName(stem) in dir && forall seqNo, packet :: !PacketAt(env, dir, stem, seqNo, packet)
    ensures NoDump(env, dir)
  {
    hide Kind, PacketAt, MetaName;
    KindOfNames(stem);
    forall packets, stems, start: nat
      ensures !DumpsAs(env, dir, stems, start, packets)
    {
      if |stems| == |packets| && stem in stems {
        var i :| 0 <= i < |stems| && stems[i] == stem;
        assert !PacketAt(env, dir, stems[i], start + i, packets[i]);
      } else {
        assert stem !in stems ==> !NameAllowed(MetaName(stem), stems);
      }
    }
  }

  /** No sidecar content can justify this stem. */
  ghost predicate NeverParses(env: Env, stem: string) {
    forall data :: MetaOf(env, data, stem).Err?
  }

  lemma RejectUnparsable(env: Env, dir: Directory, stem: string)
    requires NeverParses(env, stem) && (MetaName(stem) in dir || BinName(stem) in dir)
    ensures NoDump(env, dir)
  {
    hide NoDump, PacketAt, MetaName, BinName, MetaOf;
    if MetaName(stem) in dir && BinName(stem) in dir {
      RejectSidecar(env, dir, stem);
    } else {
      RejectUnpaired(env, dir, stem);
    }
  }

  lemma NotAPacket(env: Env, dir: Directory, stem: string)
    requires MetaName(stem) in dir && MetaOf(env, dir[MetaName(stem)], stem).Err?
    ensures forall seqNo, packet :: !PacketAt(env, dir, stem, seqNo, packet)
  {
    hide MetaOf, MetaName;
  }

  lemma RejectSidecar(env: Env, dir: Directory, stem: string)
    requires MetaName(stem) in dir && MetaOf(env, dir[MetaName(stem)], stem).Err?
    ensures NoDump(env, dir)
  {
    hide NoDump, PacketAt, MetaName, MetaOf;
    NotAPacket(env, dir, stem);
    RejectStem(env, dir, stem);
  }

  // ---------------------------------------------------------------------
  // Sorting by sequence number
  // ---------------------------------------------------------------------

  datatype Found = Found(stem: string, meta: Meta)

  /** The stem's sidecar is in the directory and parses to `meta`. */
  predicate IsSidecar(env: Env, dir: Directory, f: Found) {
    MetaName(f.stem) in dir && MetaOf(env, dir[MetaName(f.stem)], f.stem) == Ok(f.meta)
  }

  predicate SeqLess(a: Found, b: Found) {
    a.meta.seqNo < b.meta.seqNo
  }

  predicate Lists(found: seq<Found>, stem: string) {
    exists i :: 0 <= i < |found| && found[i].stem == stem
  }

  lemma ListsSnoc(found: seq<Found>, f: Found)
    ensures Lists(found + [f], f.stem)
    ensures forall stem :: Lists(found, stem) ==> Lists(found + [f], stem)
  {
    var r := found + [f];
    assert r[|found|] == f;
    forall stem | Lists(found, stem)
      ensures Lists(r, stem)
    {
      var i :| 0 <= i < |found| && found[i].stem == stem;
      assert r[i].stem == stem;
    }
  }

  /** Each sidecar of the directory exactly once, with what it parses to. */
  ghost predicate IsFound(env: Env, dir: Directory, found: seq<Found>) {
    && (forall i :: 0 <= i < |found| ==> IsSidecar(env, dir, found[i]))
    && (forall i, j :: 0 <= i < j < |found| ==> found[i].stem != found[j].stem)
    && (forall stem :: MetaName(stem) in dir ==> Lists(found, stem))
  }

  lemma {:induction false} DistinctCounts<T(!new)>(s: seq<T>, x: T)
    requires forall i, j :: 0 <= i < j < |s| ==> s[i] != s[j]
    ensures multiset(s)[x] == if x in s then 1 else 0
  {
    if s != [] {
      DistinctCounts(s[1..], x);
      assert s == [s[0]] + s[1..];
    }
  }

  lemma SameElementsSameMultiset<T(!new)>(a: seq<T>, b: seq<T>)
    requires forall i, j :: 0 <= i < j < |a| ==> a[i] != a[j]
    requires forall i, j :: 0 <= i < j < |b| ==> b[i] != b[j]
    requires forall x :: x in a <==> x in b
    ensures multiset(a) == multiset(b)
  {
    forall x
      ensures multiset(a)[x] == multiset(b)[x]
    {
      DistinctCounts(a, x);
      DistinctCounts(b, x);
    }
  }

  lemma SeqLessIsOrder()
    ensures IsOrder(SeqLess)
  {
  }

  /** The sidecars of a dump in packet order. */
  ghost function Expected(env: Env, dir: Directory, stems: seq<string>, start: nat, packets: seq<CapturedPacket>): (r: seq<Found>)
    requires DumpsAs(env, dir, stems, start, packets)
    ensures |r| == |stems|
    ensures forall i :: 0 <= i < |r| ==> r[i].stem == stems[i] && r[i].meta.seqNo == start + i && IsSidecar(env, dir, r[i])
  {
    assert forall i :: 0 <= i < |stems| ==> PacketAt(env, dir, stems[i], start + i, packets[i]);
    seq(|stems|, i requires 0 <= i < |stems| => Found(stems[i], MetaOf(env, dir[MetaName(stems[i])], stems[i]).value))
  }

  lemma FoundIsExpected(env: Env, dir: Directory, stems: seq<string>, start: nat, packets: seq<CapturedPacket>, found: seq<Found>)
    requires DumpsAs(env, dir, stems, start, packets) && IsFound(env, dir, found)
    ensures multiset(found) == multiset(Expected(env, dir, stems, start, packets))
  {
    hide MetaOf, Kind, MetaName, PacketAt;
    var e := Expected(env, dir, stems, start, packets);
    forall x | x in found
      ensures x in e
    {
      KindOfNames(x.stem);
      assert NameAllowed(MetaName(x.stem), stems);
      var i :| 0 <= i < |stems| && stems[i] == x.stem;
      assert e[i] == x;
    }
    forall x | x in e
      ensures x in found
    {
      assert MetaName(x.stem) in dir && Lists(found, x.stem);
      var i :| 0 <= i < |found| && found[i].stem == x.stem;
      assert found[i] == x;
    }
    SameElementsSameMultiset(found, e);
  }

  /** Sorting the sidecars of a dump lists them gap-free. */
  lemma SortedIsExpected(env: Env, dir: Directory, stems: seq<string>, start: nat, packets: seq<CapturedPacket>, found: seq<Found>)
    requires DumpsAs(env, dir, stems, start, packets) && IsFound(env, dir, found)
    ensures Sort(SeqLess, found) == Expected(env, dir, stems, start, packets)
  {
    hide MetaOf, MetaName, PacketAt, DumpsAs, Sort;
    var e := Expected(env, dir, stems, start, packets);
    FoundIsExpected(env, dir, stems, start, packets, found);
    SeqLessIsOrder();
    SortSorts(SeqLess, found);
    SortedIsUnique(SeqLess, e, Sort(SeqLess, found));
  }

  lemma RejectGap(env: Env, dir: Directory, found: seq<Found>, i: nat)
    requires IsFound(env, dir, found) && i + 1 < |Sort(SeqLess, found)|
    requires var s := Sort(SeqLess, found); s[i + 1].meta.seqNo != s[i].meta.seqNo + 1
    ensures NoDump(env, dir)
  {
    hide IsFound, DumpsAs, Sort;
    forall packets, stems, start: nat
      ensures !DumpsAs(env, dir, stems, start, packets)
    {
      if DumpsAs(env, dir, stems, start, packets) {
        SortedIsExpected(env, dir, stems, start, packets, found);
        assert false;
      }
    }
  }

  // ---------------------------------------------------------------------
  // parse_rust_dump
  // ---------------------------------------------------------------------

  /** A directory listing: every file once, in whatever order. */
  ghost predicate Enumerates(listing: seq<string>, dir: Directory) {
    && (forall i, j :: 0 <= i < j < |listing| ==> listing[i] != listing[j])
    && (forall name :: name in listing <==> name in dir)
  }

  method ClassifyFiles(env: Env, dir: Directory, listing: seq<string>)
    returns (failed: Option<DumpError>, metaStems: set<string>, binStems: set<string>, sawReport: bool)
    requires Enumerates(listing, dir)
    ensures failed.Some? ==> NoDump(env, dir)
    ensures failed.None? ==>
      && (forall name :: name in dir ==> !Kind(name).Unexpected?)
      && (forall name :: name in dir && Kind(name).MetaFile? ==> Kind(name).stem in metaStems)
      && (forall name :: name in dir && Kind(name).BinFile? ==> Kind(name).stem in binStems)
      && (forall stem :: stem in metaStems ==> MetaName(stem) in dir)
      && (forall stem :: stem in binStems ==> BinName(stem) in dir)
      && (sawReport <==> REPORT in dir)
  {
    hide Kind, MetaName, BinName, NoDump;
    failed, metaStems, binStems, sawReport := None, {}, {}, false;
    ReportIsReport();
    for i := 0 to |listing|
      invariant forall name :: name in listing[..i] ==> !Kind(name).Unexpected?
      invariant forall stem :: stem in metaStems <==> MetaName(stem) in listing[..i]
      invariant forall stem :: stem in binStems <==> BinName(stem) in listing[..i]
      invariant forall name :: name in listing[..i] && Kind(name).MetaFile? ==> Kind(name).stem in metaStems
      invariant forall name :: name in listing[..i] && Kind(name).BinFile? ==> Kind(name).stem in binStems
      invariant sawReport <==> REPORT in listing[..i]
    {
      var name := listing[i];
      assert name in dir;
      assert listing[..i + 1] == listing[..i] + [name];
      assert name !in listing[..i];
      NameOfKind(name);
      match Kind(name) {
        case Manifest =>
          OnlyKind(name);
        case Report =>
          OnlyKind(name);
          sawReport := true;
        case MetaFile(stem) =>
          OnlyKind(name);
          if stem == "" || stem in metaStems {
            EmptyStemNeverParses(env);
            RejectUnparsable(env, dir, stem);
            failed := Some(BadStem);
            return;
          }
          metaStems := metaStems + {stem};
        case BinFile(stem) =>
          OnlyKind(name);
          if stem == "" || stem in binStems {
            EmptyStemNeverParses(env);
            RejectUnparsable(env, dir, stem);
            failed := Some(BadStem);
            return;
          }
          binStems := binStems + {stem};
        case Unexpected =>
          RejectUnexpected(env, dir, name);
          failed := Some(UnexpectedFile);
          return;
      }
    }
    assert listing[..|listing|] == listing;
  }

  lemma ReportIsReport()
    ensures Kind(REPORT) == Report
  {
  }

  /** No two kinds share a name. */
  lemma OnlyKind(name: string)
    ensures forall stem :: name == MetaName(stem) ==> Kind(name) == MetaFile(stem)
    ensures forall stem :: name == BinName(stem) ==> Kind(name) == BinFile(stem)
    ensures name == REPORT <==> Kind(name) == Report
  {
    hide MetaName, BinName;
    forall stem
      ensures name == MetaName(stem) ==> Kind(name) == MetaFile(stem)
      ensures name == BinName(stem) ==> Kind(name) == BinFile(stem)
    {
      KindOfNames(stem);
    }
  }

  /** The sidecars of the stems done so far, each once. */
  ghost predicate FoundSoFar(env: Env, dir: Directory, found: seq<Found>, done: set<string>) {
    && (forall i :: 0 <= i < |found| ==> found[i].stem in done && IsSidecar(env, dir, found[i]))
    && (forall i, j :: 0 <= i < j < |found| ==> found[i].stem != found[j].stem)
    && (forall stem :: stem in done ==> Lists(found, stem))
  }

  lemma FoundOneMore(env: Env, dir: Directory, found: seq<Found>, done: set<string>, f: Found)
    requires FoundSoFar(env, dir, found, done) && f.stem !in done && IsSidecar(env, dir, f)
    ensures FoundSoFar(env, dir, found + [f], done + {f.stem})
  {
    hide IsSidecar, Lists;
    ListsSnoc(found, f);
  }

  lemma FoundAll(env: Env, dir: Directory, found: seq<Found>, stems: set<string>)
    requires FoundSoFar(env, dir, found, stems) && forall stem :: stem in stems <==> MetaName(stem) in dir
    ensures IsFound(env, dir, found)
  {
    hide IsSidecar, Lists, MetaName;
  }

  method ReadMetas(env: Env, dir: Directory, stems: set<string>) returns (r: Result<seq<Found>, DumpError>)
    requires forall stem :: stem in stems <==> MetaName(stem) in dir
    ensures r.Ok? ==> IsFound(env, dir, r.value)
    ensures r.Err? ==> NoDump(env, dir)
  {
    hide MetaOf, MetaName, NoDump, IsFound;
    var found: seq<Found> := [];
    var todo := stems;
    while todo != {}
      invariant todo <= stems && FoundSoFar(env, dir, found, stems - todo)
      decreases todo
    {
      hide FoundSoFar;
      var stem :| stem in todo;
      var meta := ParseMeta(env, dir[MetaName(stem)], stem);
      if meta.Err? {
        RejectSidecar(env, dir, stem);
        return Err(meta.error);
      }
      FoundOneMore(env, dir, found, stems - todo, Found(stem, meta.value));
      found := found + [Found(stem, meta.value)];
      assert stems - (todo - {stem}) == stems - todo + {stem};
      todo := todo - {stem};
    }
    assert stems - todo == stems;
    FoundAll(env, dir, found, stems);
    return Ok(found);
  }

  method CheckContiguous(env: Env, dir: Directory, found: seq<Found>) returns (failed: Option<DumpError>)
    requires IsFound(env, dir, found)
    ensures failed.Some? ==> NoDump(env, dir)
    ensures failed.None? ==> var s := Sort(SeqLess, found);
      forall i :: 0 <= i < |s| ==> s[i].meta.seqNo == s[0].meta.seqNo + i
  {
    hide IsFound, NoDump, Sort;
    var sorted := Sort(SeqLess, found);
    var i := 0;
    while i + 1 < |sorted|
      invariant 0 <= i && (|sorted| > 0 ==> i < |sorted|)
      invariant forall k :: 0 <= k <= i && k < |sorted| ==> sorted[k].meta.seqNo == sorted[0].meta.seqNo + k
    {
      if sorted[i].meta.seqNo + 1 == USIZE_SIZE {
        RejectGap(env, dir, found, i);
        return Some(SequenceOverflow);
      }
      if sorted[i + 1].meta.seqNo != sorted[i].meta.seqNo + 1 {
        RejectGap(env, dir, found, i);
        return Some(NonContiguousSequence);
      }
      i := i + 1;
    }
    return None;
  }

  method ReadBodies(env: Env, dir: Directory, sorted: seq<Found>) returns (r: Result<seq<CapturedPacket>, DumpError>)
    requires forall i :: 0 <= i < |sorted| ==> IsSidecar(env, dir, sorted[i]) && BinName(sorted[i].stem) in dir
    ensures r.Err? ==> NoDump(env, dir)
    ensures r.Ok? ==> |r.value| == |sorted|
    ensures r.Ok? ==> forall i :: 0 <= i < |sorted| ==> PacketAt(env, dir, sorted[i].stem, sorted[i].meta.seqNo, r.value[i])
  {
    hide MetaOf, MetaName, BinName, NoDump;
    var packets: seq<CapturedPacket> := [];
    for i := 0 to |sorted|
      invariant |packets| == i
      invariant forall k :: 0 <= k < i ==> PacketAt(env, dir, sorted[k].stem, sorted[k].meta.seqNo, packets[k])
    {
      var meta, stem := sorted[i].meta, sorted[i].stem;
      var bin := dir[BinName(stem)];
      if |bin| != meta.len || |bin| < 2 {
        RejectStem(env, dir, stem);
        return Err(LengthMismatch);
      }
      if FromLe16(bin[..2]) != meta.opcode {
        RejectStem(env, dir, stem);
        return Err(OpcodeMismatch);
      }
      var packet := CapturedPacket(meta.direction, meta.connectionId, meta.opcode, bin[2..]);
      assert PacketAt(env, dir, stem, meta.seqNo, packet);
      packets := packets + [packet];
    }
    return Ok(packets);
  }

  /** Accepts exactly the directories that dump something, and returns what they dump. */
  method ParseRustDump(env: Env, dir: Directory, listing: seq<string>) returns (r: Result<seq<CapturedPacket>, DumpError>)
    requires Enumerates(listing, dir)
    ensures r.Ok? ==> Dumps(env, dir, r.value)
    ensures r.Err? ==> NoDump(env, dir)
  {
    hide MetaOf, Kind, NoDump, PacketAt, Sort, IsFound, MetaName, BinName, Enumerates;
    var failed, metaStems, binStems, sawReport := ClassifyFiles(env, dir, listing);
    if failed.Some? {
      return Err(failed.value);
    }
    if sawReport && !env.reportValid {
      RejectReport(env, dir);
      return Err(InvalidRaceReport);
    }
    StemsAreComplete(dir, metaStems, binStems);
    if metaStems == {} {
      RejectEmpty(env, dir);
      return Err(NoMetaFiles);
    }
    if metaStems != binStems {
      ghost var odd := OddStem(metaStems, binStems);
      RejectUnpaired(env, dir, odd);
      return Err(UnpairedFiles);
    }
    var metas := ReadMetas(env, dir, metaStems);
    if metas.Err? {
      return Err(metas.error);
    }
    var gap := CheckContiguous(env, dir, metas.value);
    if gap.Some? {
      return Err(gap.value);
    }
    var sorted := Sort(SeqLess, metas.value);
    SortedFacts(env, dir, metas.value, metaStems);
    var packets :- ReadBodies(env, dir, sorted);
    Assemble(env, dir, metaStems, sorted, packets);
    return Ok(packets);
  }

  lemma StemsAreComplete(dir: Directory, metaStems: set<string>, binStems: set<string>)
    requires forall name :: name in dir && Kind(name).MetaFile? ==> Kind(name).stem in metaStems
    requires forall name :: name in dir && Kind(name).BinFile? ==> Kind(name).stem in binStems
    requires forall stem :: stem in metaStems ==> MetaName(stem) in dir
    requires forall stem :: stem in binStems ==> BinName(stem) in dir
    ensures forall stem :: stem in metaStems <==> MetaName(stem) in dir
    ensures forall stem :: stem in binStems <==> BinName(stem) in dir
  {
    hide Kind, MetaName, BinName;
    forall stem
      ensures MetaName(stem) in dir ==> stem in metaStems
      ensures BinName(stem) in dir ==> stem in binStems
    {
      KindOfNames(stem);
    }
  }

  lemma OddStem(a: set<string>, b: set<string>) returns (x: string)
    requires a != b
    ensures x in a <==> x !in b
  {
    if a <= b {
      x :| x in b && x !in a;
    } else {
      x :| x in a && x !in b;
    }
  }

  lemma SortedFacts(env: Env, dir: Directory, found: seq<Found>, stems: set<string>)
    requires IsFound(env, dir, found) && stems != {} && forall stem :: stem in stems <==> MetaName(stem) in dir
    ensures var s := Sort(SeqLess, found);
      && s != [] && (forall i :: 0 <= i < |s| ==> s[i].stem in stems && IsSidecar(env, dir, s[i]))
      && (forall stem :: stem in stems ==> Lists(s, stem))
  {
    hide MetaOf, MetaName, Sort;
    var s := Sort(SeqLess, found);
    assert forall x :: x in s <==> x in multiset(s);
    assert forall x :: x in found <==> x in multiset(found);
    forall i | 0 <= i < |s|
      ensures s[i] in found
    {
      assert s[i] in s;
    }
    forall stem | stem in stems
      ensures Lists(s, stem)
    {
      assert Lists(found, stem);
      var i :| 0 <= i < |found| && found[i].stem == stem;
      assert found[i] in s;
    }
    var stem :| stem in stems;
  }

  /** All checks passed: the sorted sidecars and their bodies are a dump. */
  lemma Assemble(env: Env, dir: Directory, stems: set<string>, sorted: seq<Found>, packets: seq<CapturedPacket>)
    requires sorted != [] && |packets| == |sorted|
    requires forall name :: name in dir ==> !Kind(name).Unexpected?
    requires forall name :: name in dir && Kind(name).MetaFile? ==> Kind(name).stem in stems
    requires forall name :: name in dir && Kind(name).BinFile? ==> Kind(name).stem in stems
    requires REPORT in dir ==> env.reportValid
    requires forall stem :: stem in stems ==> Lists(sorted, stem)
    requires forall i :: 0 <= i < |sorted| ==> sorted[i].meta.seqNo == sorted[0].meta.seqNo + i
    requires forall i :: 0 <= i < |sorted| ==> PacketAt(env, dir, sorted[i].stem, sorted[i].meta.seqNo, packets[i])
    ensures Dumps(env, dir, packets)
  {
    hide Kind, PacketAt;
    var names := seq(|sorted|, i requires 0 <= i < |sorted| => sorted[i].stem);
    var start := sorted[0].meta.seqNo;
    assert forall stem :: stem in stems ==> stem in names by {
      forall stem | stem in stems
        ensures stem in names
      {
        assert Lists(sorted, stem);
        var i :| 0 <= i < |sorted| && sorted[i].stem == stem;
        assert names[i] == stem;
      }
    }
    assert sorted[|sorted| - 1].meta.seqNo == start + |sorted| - 1;
    assert DumpsAs(env, dir, names, start, packets);
  }

  // ---------------------------------------------------------------------
  // write_rust_dump
  // ---------------------------------------------------------------------

  function BinOf(packet: CapturedPacket): seq<byte> {
    ToLe16(packet.opcode) + packet.body
  }

  function NameIn(env: Env, packet: CapturedPacket): string {
    env.opcodeName(packet.direction, packet.opcode)
  }

  function StemAt(env: Env, packets: seq<CapturedPacket>, n: nat): string
    requires n < |packets|
  {
    WrittenStem(packets[n], NameIn(env, packets[n]), n, |packets[n].body| + 2)
  }

  function SidecarAt(env: Env, packets: seq<CapturedPacket>, n: nat): seq<byte>
    requires n < |packets|
  {
    Encode(MetaText(packets[n], NameIn(env, packets[n]), n, |packets[n].body| + 2))
  }

  /** The directory after writing the first `n` packets. */
  function Written(env: Env, dir: Directory, packets: seq<CapturedPacket>, n: nat): Directory
    requires n <= |packets|
  {
    if n == 0 then dir
    else
      var stem := StemAt(env, packets, n - 1);
      Written(env, dir, packets, n - 1)
        [BinName(stem) := BinOf(packets[n - 1])][MetaName(stem) := SidecarAt(env, packets, n - 1)]
  }

  method WriteRustDump(env: Env, dir: Directory, packets: seq<CapturedPacket>) returns (r: Directory)
    ensures r == Written(env, dir, packets, |packets|)
  {
    hide MetaText, BinName, MetaName, Encode;
    r := dir;
    for n := 0 to |packets|
      invariant r == Written(env, dir, packets, n)
    {
      var packet := packets[n];
      var name := NameIn(env, packet);
      var bin := ToLe16(packet.opcode);
      bin := bin + packet.body;
      var stem := Stem(Tag(packet.direction), n, n, packet.opcode, name, |bin|);
      r := r[BinName(stem) := bin];
      r := r[MetaName(stem) := Encode(MetaText(packet, name, n, |bin|))];
    }
  }

  /** The opcode table yields identifiers and the written address is one. */
  ghost predicate Usable(env: Env) {
    && env.validAddress("127.0.0.1:0")
    && forall d, o :: env.opcodeName(d, o) != "" && IsSafeName(env.opcodeName(d, o))
  }

  /** What fits in memory: slices never exceed `isize::MAX`. */
  predicate Storable(packets: seq<CapturedPacket>) {
    |packets| <= ISIZE_MAX && forall i :: 0 <= i < |packets| ==> |packets[i].body| + 2 <= ISIZE_MAX
  }

  lemma StemNumber(tag: string, n: nat, other: string, m: nat, a: string, b: string)
    requires "rust-" + tag + "-" + PadZeros(Decimal(n), 8) + "-" + a == "rust-" + other + "-" + PadZeros(Decimal(m), 8) + "-" + b
    requires |tag| == |other|
    ensures n == m
  {
    hide PadZeros, Decimal;
    var x, y := PadZeros(Decimal(n), 8), PadZeros(Decimal(m), 8);
    var s, t := "rust-" + tag + "-" + x + "-" + a, "rust-" + other + "-" + y + "-" + b;
    var k := 6 + |tag|;
    assert s[k..] == x + ['-'] + a;
    assert t[k..] == y + ['-'] + b;
    SplitAtDelimiter(x, y, '-', a, b);
    PadZerosValue(Decimal(n), 8);
    PadZerosValue(Decimal(m), 8);
    DecimalRoundTrip(n);
    DecimalRoundTrip(m);
  }

  /** Files of different packets never collide. */
  lemma StemsDiffer(env: Env, packets: seq<CapturedPacket>, n: nat, m: nat)
    requires n < |packets| && m < |packets| && StemAt(env, packets, n) == StemAt(env, packets, m)
    ensures n == m
  {
    hide PadZeros, Decimal, Hex4;
    var p, q := packets[n], packets[m];
    var a := "counter" + Decimal(n) + "-" + Hex4(p.opcode) + "-" + NameIn(env, p) + "-len" + Decimal(|p.body| + 2);
    var b := "counter" + Decimal(m) + "-" + Hex4(q.opcode) + "-" + NameIn(env, q) + "-len" + Decimal(|q.body| + 2);
    StemText(Tag(p.direction), n, p.opcode, NameIn(env, p), |p.body| + 2);
    StemText(Tag(q.direction), m, q.opcode, NameIn(env, q), |q.body| + 2);
    StemNumber(Tag(p.direction), n, Tag(q.direction), m, a, b);
  }

  lemma StemText(tag: string, n: nat, opcode: uint16, name: string, len: nat)
    ensures Stem(tag, n, n, opcode, name, len)
      == "rust-" + tag + "-" + PadZeros(Decimal(n), 8) + "-"
         + ("counter" + Decimal(n) + "-" + Hex4(opcode) + "-" + name + "-len" + Decimal(len))
  {
    hide PadZeros, Decimal, Hex4;
    var head := "rust-" + tag + "-" + PadZeros(Decimal(n), 8);
    assert "-counter" == "-" + "counter";
  }

  predicate IsWrittenName(env: Env, packets: seq<CapturedPacket>, n: nat, name: string)
    requires n <= |packets|
  {
    exists i :: 0 <= i < n && (name == BinName(StemAt(env, packets, i)) || name == MetaName(StemAt(env, packets, i)))
  }

  lemma NamesDiffer(a: string, b: string)
    ensures BinName(a) != MetaName(b)
    ensures BinName(a) == BinName(b) ==> a == b
    ensures MetaName(a) == MetaName(b) ==> a == b
  {
    KindOfNames(a);
    KindOfNames(b);
  }

  /** The files written so far, and what they hold. */
  ghost predicate HoldsFirst(env: Env, packets: seq<CapturedPacket>, n: nat, dir: Directory)
    requires n <= |packets|
  {
    && (forall name :: name in dir ==> IsWrittenName(env, packets, n, name))
    && forall i :: 0 <= i < n ==> HoldsPacket(env, packets, i, dir)
  }

  predicate HoldsPacket(env: Env, packets: seq<CapturedPacket>, i: nat, dir: Directory)
    requires i < |packets|
  {
    var stem := StemAt(env, packets, i);
    && BinName(stem) in dir && dir[BinName(stem)] == BinOf(packets[i])
    && MetaName(stem) in dir && dir[MetaName(stem)] == SidecarAt(env, packets, i)
  }

  lemma {:induction false} WrittenHolds(env: Env, packets: seq<CapturedPacket>, n: nat)
    requires n <= |packets|
    ensures HoldsFirst(env, packets, n, Written(env, map[], packets, n))
  {
    hide StemAt, SidecarAt, BinOf, BinName, MetaName;
    if n > 0 {
      WrittenHolds(env, packets, n - 1);
      var before, after := Written(env, map[], packets, n - 1), Written(env, map[], packets, n);
      var last := StemAt(env, packets, n - 1);
      NamesDiffer(last, last);
      forall i | 0 <= i < n
        ensures HoldsPacket(env, packets, i, after)
      {
        if i < n - 1 {
          assert HoldsPacket(env, packets, i, before);
          var stem := StemAt(env, packets, i);
          if stem == last {
            StemsDiffer(env, packets, i, n - 1);
          }
          NamesDiffer(stem, last);
          NamesDiffer(last, stem);
        }
      }
      forall name | name in after
        ensures IsWrittenName(env, packets, n, name)
      {
        if name in before {
          assert IsWrittenName(env, packets, n - 1, name);
        }
      }
    }
  }

  lemma WrittenPacketReads(env: Env, packets: seq<CapturedPacket>, i: nat, dir: Directory)
    requires Usable(env) && Storable(packets) && i < |packets| && HoldsPacket(env, packets, i, dir)
    ensures packets[i].connectionId <= 1 ==> PacketAt(env, dir, StemAt(env, packets, i), i, packets[i])
    ensures packets[i].connectionId > 1 ==> forall seqNo, packet :: !PacketAt(env, dir, StemAt(env, packets, i), seqNo, packet)
  {
    hide MetaOf, MetaText, WrittenStem, Encode, BinName, MetaName, ToLe16, FromLe16;
    var p := packets[i];
    MetaReadsBack(env, p, NameIn(env, p), i, |p.body| + 2);
    var bin := BinOf(p);
    assert bin[..2] == ToLe16(p.opcode) && bin[2..] == p.body;
    ToLe16ReadsBack(p.opcode);
  }

  lemma ToLe16ReadsBack(v: uint16)
    ensures FromLe16(ToLe16(v)) == v
  {
  }

  /** Connection ids the world server uses, and at least one packet. */
  predicate Dumpable(packets: seq<CapturedPacket>) {
    packets != [] && forall i :: 0 <= i < |packets| ==> packets[i].connectionId <= 1
  }

  /**
   * What is written into a fresh directory is read back, and nothing else is
   * read, exactly for non-empty captures of connections 0 and 1.
   */
  lemma RustDumpRoundTrip(env: Env, packets: seq<CapturedPacket>)
    requires Usable(env) && Storable(packets)
    ensures var dir := Written(env, map[], packets, |packets|);
      if Dumpable(packets) then forall q :: Dumps(env, dir, q) <==> q == packets else NoDump(env, dir)
  {
    hide NoDump, Usable, Storable, Dumps, Written;
    var dir := Written(env, map[], packets, |packets|);
    WrittenHolds(env, packets, |packets|);
    if Dumpable(packets) {
      WrittenDumps(env, packets, dir);
      forall q | Dumps(env, dir, q)
        ensures q == packets
      {
        DumpIsUnique(env, dir, packets, q);
      }
    } else if packets == [] {
      EmptyDumpsNothing(env, packets, dir);
    } else {
      var i :| 0 <= i < |packets| && packets[i].connectionId > 1;
      BadConnectionDumpsNothing(env, packets, dir, i);
    }
  }

  lemma EmptyDumpsNothing(env: Env, packets: seq<CapturedPacket>, dir: Directory)
    requires packets == [] && HoldsFirst(env, packets, |packets|, dir)
    ensures NoDump(env, dir)
  {
    hide NoDump;
    forall name
      ensures name !in dir
    {
      assert !IsWrittenName(env, packets, 0, name);
    }
    RejectEmpty(env, dir);
  }

  lemma BadConnectionDumpsNothing(env: Env, packets: seq<CapturedPacket>, dir: Directory, i: nat)
    requires Usable(env) && Storable(packets) && HoldsFirst(env, packets, |packets|, dir)
    requires i < |packets| && packets[i].connectionId > 1
    ensures NoDump(env, dir)
  {
    hide NoDump, Usable, Storable, PacketAt, StemAt, SidecarAt;
    assert HoldsPacket(env, packets, i, dir);
    WrittenPacketReads(env, packets, i, dir);
    RejectStem(env, dir, StemAt(env, packets, i));
  }

  lemma WrittenDumps(env: Env, packets: seq<CapturedPacket>, dir: Directory)
    requires Usable(env) && Storable(packets) && Dumpable(packets) && HoldsFirst(env, packets, |packets|, dir)
    ensures Dumps(env, dir, packets)
  {
    hide Usable, PacketAt, StemAt, HoldsPacket, BinName, MetaName, Kind;
    var stems := seq(|packets|, i requires 0 <= i < |packets| => StemAt(env, packets, i));
    forall i | 0 <= i < |stems|
      ensures PacketAt(env, dir, stems[i], i, packets[i])
    {
      WrittenPacketReads(env, packets, i, dir);
    }
    forall name | name in dir
      ensures NameAllowed(name, stems) && name != REPORT
    {
      assert IsWrittenName(env, packets, |packets|, name);
      var i :| 0 <= i < |packets|
        && (name == BinName(StemAt(env, packets, i)) || name == MetaName(StemAt(env, packets, i)));
      KindOfNames(stems[i]);
      ReportIsReport();
    }
    assert DumpsAs(env, dir, stems, 0, packets);
  }
}
