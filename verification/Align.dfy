/** The longest-common-subsequence alignment of diff.rs. */
module Align {
  import opened Common

  datatype Step =
    | Match(cpp: nat, rust: nat)
    | Del(cpp: nat)
    | Ins(rust: nat)

  // ---------------------------------------------------------------------
  // What an alignment is: an independent definition of common subsequences.
  // ---------------------------------------------------------------------

  /** `pairs` selects a common subsequence of golden[i..] and rust[j..]. */
  ghost predicate CommonSubsequence(golden: seq<uint16>, rust: seq<uint16>, i: nat, j: nat, pairs: seq<(nat, nat)>) {
    && (forall k :: 0 <= k < |pairs| ==>
          && i <= pairs[k].0 < |golden|
          && j <= pairs[k].1 < |rust|
          && golden[pairs[k].0] == rust[pairs[k].1])
    && (forall k, l :: 0 <= k < l < |pairs| ==> pairs[k].0 < pairs[l].0 && pairs[k].1 < pairs[l].1)
  }

  /** Length of the longest common subsequence of golden[i..] and rust[j..]. */
  function Lcs(golden: seq<uint16>, rust: seq<uint16>, i: nat, j: nat): (r: nat)
    requires i <= |golden| && j <= |rust|
    ensures r <= |golden| - i && r <= |rust| - j
    decreases |golden| - i + |rust| - j
  {
    if i == |golden| || j == |rust| then 0
    else if golden[i] == rust[j] then Lcs(golden, rust, i + 1, j + 1) + 1
    else Max(Lcs(golden, rust, i + 1, j), Lcs(golden, rust, i, j + 1))
  }

  function Max(x: nat, y: nat): nat {
    if x < y then y else x
  }

  /** No common subsequence is longer than `Lcs`. */
  lemma {:induction false} LcsIsUpperBound(golden: seq<uint16>, rust: seq<uint16>, i: nat, j: nat, pairs: seq<(nat, nat)>)
    requires i <= |golden| && j <= |rust|
    requires CommonSubsequence(golden, rust, i, j, pairs)
    ensures |pairs| <= Lcs(golden, rust, i, j)
    decreases |golden| - i + |rust| - j
  {
    if pairs == [] { return; }
    assert i <= pairs[0].0 < |golden| && j <= pairs[0].1 < |rust|;
    if golden[i] == rust[j] {
      forall k | 0 <= k < |pairs[1..]|
        ensures i < pairs[1..][k].0 && j < pairs[1..][k].1
      {
        assert pairs[1..][k] == pairs[k + 1] && pairs[0].0 < pairs[k + 1].0;
      }
      LcsIsUpperBound(golden, rust, i + 1, j + 1, pairs[1..]);
    } else if pairs[0].0 > i {
      assert forall k :: 0 <= k < |pairs| ==> i < pairs[k].0;
      LcsIsUpperBound(golden, rust, i + 1, j, pairs);
    } else {
      assert j < pairs[0].1;
      assert forall k :: 0 <= k < |pairs| ==> j < pairs[k].1;
      LcsIsUpperBound(golden, rust, i, j + 1, pairs);
    }
  }

  // ---------------------------------------------------------------------
  // The edit script, as a function of the two streams.
  // ---------------------------------------------------------------------

  /** The script `align` emits from position (i, j). */
  function Script(golden: seq<uint16>, rust: seq<uint16>, i: nat, j: nat): seq<Step>
    requires i <= |golden| && j <= |rust|
    decreases |golden| - i + |rust| - j
  {
    if i < |golden| && j < |rust| then
      if golden[i] == rust[j] then [Match(i, j)] + Script(golden, rust, i + 1, j + 1)
      else if Lcs(golden, rust, i + 1, j) >= Lcs(golden, rust, i, j + 1) then
        [Del(i)] + Script(golden, rust, i + 1, j)
      else [Ins(j)] + Script(golden, rust, i, j + 1)
    else if i < |golden| then [Del(i)] + Script(golden, rust, i + 1, j)
    else if j < |rust| then [Ins(j)] + Script(golden, rust, i, j + 1)
    else []
  }

  /** Positions of the C++ stream a script visits, in order. */
  function CppIndices(steps: seq<Step>): seq<nat> {
    if steps == [] then []
    else (match steps[0] case Match(i, _) => [i] case Del(i) => [i] case Ins(_) => []) + CppIndices(steps[1..])
  }

  /** Positions of the Rust stream a script visits, in order. */
  function RustIndices(steps: seq<Step>): seq<nat> {
    if steps == [] then []
    else (match steps[0] case Match(_, j) => [j] case Ins(j) => [j] case Del(_) => []) + RustIndices(steps[1..])
  }

  function MatchPairs(steps: seq<Step>): seq<(nat, nat)> {
    if steps == [] then []
    else (if steps[0].Match? then [(steps[0].cpp, steps[0].rust)] else []) + MatchPairs(steps[1..])
  }

  /** lo, lo + 1, ..., hi - 1 */
  function Range(lo: nat, hi: nat): (r: seq<nat>)
    requires lo <= hi
    ensures |r| == hi - lo && forall k :: 0 <= k < |r| ==> r[k] == lo + k
    decreases hi - lo
  {
    if lo == hi then [] else [lo] + Range(lo + 1, hi)
  }

  /** `steps` is an edit script from golden[i..] to rust[j..]: it only matches equal opcodes. */
  predicate EditScript(steps: seq<Step>, golden: seq<uint16>, rust: seq<uint16>, i: nat, j: nat) {
    if steps == [] then i == |golden| && j == |rust|
    else
      match steps[0]
      case Match(a, b) =>
        && a == i < |golden| && b == j < |rust| && golden[i] == rust[j]
        && EditScript(steps[1..], golden, rust, i + 1, j + 1)
      case Del(a) => a == i < |golden| && EditScript(steps[1..], golden, rust, i + 1, j)
      case Ins(b) => b == j < |rust| && EditScript(steps[1..], golden, rust, i, j + 1)
  }

  lemma {:induction false} ScriptIsEditScript(golden: seq<uint16>, rust: seq<uint16>, i: nat, j: nat)
    requires i <= |golden| && j <= |rust|
    ensures EditScript(Script(golden, rust, i, j), golden, rust, i, j)
    decreases |golden| - i + |rust| - j
  {
    hide Lcs;
    var s := Script(golden, rust, i, j);
    if s != [] {
      var (i', j') := AfterStep(s[0], i, j);
      ScriptIsEditScript(golden, rust, i', j');
      assert s[1..] == Script(golden, rust, i', j');
    }
  }

  function AfterStep(step: Step, i: nat, j: nat): (nat, nat) {
    match step
    case Match(_, _) => (i + 1, j + 1)
    case Del(_) => (i + 1, j)
    case Ins(_) => (i, j + 1)
  }

  /** An edit script visits every packet of both streams exactly once, in order. */
  lemma {:induction false} EditScriptVisitsEveryPacketOnce(
      steps: seq<Step>, golden: seq<uint16>, rust: seq<uint16>, i: nat, j: nat)
    requires EditScript(steps, golden, rust, i, j)
    ensures i <= |golden| && CppIndices(steps) == Range(i, |golden|)
    ensures j <= |rust| && RustIndices(steps) == Range(j, |rust|)
    decreases |steps|
  {
    if steps != [] {
      var (i', j') := AfterStep(steps[0], i, j);
      EditScriptVisitsEveryPacketOnce(steps[1..], golden, rust, i', j');
    }
  }

  predicate StepInBounds(s: Step, golden: seq<uint16>, rust: seq<uint16>) {
    match s
    case Match(i, j) => i < |golden| && j < |rust| && golden[i] == rust[j]
    case Del(i) => i < |golden|
    case Ins(j) => j < |rust|
  }

  lemma {:induction false} EditScriptInBounds(
      steps: seq<Step>, golden: seq<uint16>, rust: seq<uint16>, i: nat, j: nat)
    requires EditScript(steps, golden, rust, i, j)
    ensures forall k :: 0 <= k < |steps| ==> StepInBounds(steps[k], golden, rust)
    decreases |steps|
  {
    if steps != [] {
      var (i', j') := AfterStep(steps[0], i, j);
      EditScriptInBounds(steps[1..], golden, rust, i', j');
      assert forall k :: 0 < k < |steps| ==> steps[k] == steps[1..][k - 1];
    }
  }

  lemma PrependPair(golden: seq<uint16>, rust: seq<uint16>, i: nat, j: nat, tail: seq<(nat, nat)>)
    requires i < |golden| && j < |rust| && golden[i] == rust[j]
    requires CommonSubsequence(golden, rust, i + 1, j + 1, tail)
    ensures CommonSubsequence(golden, rust, i, j, [(i, j)] + tail)
  {
    var pairs := [(i, j)] + tail;
    assert forall k :: 0 < k < |pairs| ==> pairs[k] == tail[k - 1];
  }

  lemma WidenSubsequence(
      golden: seq<uint16>, rust: seq<uint16>, i: nat, j: nat, i': nat, j': nat, pairs: seq<(nat, nat)>)
    requires i <= i' && j <= j' && CommonSubsequence(golden, rust, i', j', pairs)
    ensures CommonSubsequence(golden, rust, i, j, pairs)
  {
  }

  /** The matched pairs of an edit script form a common subsequence. */
  lemma {:induction false} MatchesAreCommonSubsequence(
      steps: seq<Step>, golden: seq<uint16>, rust: seq<uint16>, i: nat, j: nat)
    requires EditScript(steps, golden, rust, i, j)
    ensures CommonSubsequence(golden, rust, i, j, MatchPairs(steps))
    decreases |steps|
  {
    if steps != [] {
      var (i', j') := AfterStep(steps[0], i, j);
      MatchesAreCommonSubsequence(steps[1..], golden, rust, i', j');
      if steps[0].Match? {
        PrependPair(golden, rust, i, j, MatchPairs(steps[1..]));
      } else {
        WidenSubsequence(golden, rust, i, j, i', j', MatchPairs(steps[1..]));
        assert MatchPairs(steps) == MatchPairs(steps[1..]);
      }
    }
  }

  lemma {:induction false} ScriptMatchesLcs(golden: seq<uint16>, rust: seq<uint16>, i: nat, j: nat)
    requires i <= |golden| && j <= |rust|
    ensures |MatchPairs(Script(golden, rust, i, j))| == Lcs(golden, rust, i, j)
    decreases |golden| - i + |rust| - j
  {
    var s := Script(golden, rust, i, j);
    if s != [] {
      var (i', j') := AfterStep(s[0], i, j);
      ScriptMatchesLcs(golden, rust, i', j');
      assert s[1..] == Script(golden, rust, i', j');
    }
  }

  /** No common subsequence of the two streams is longer than the set of matched packets. */
  lemma AlignmentIsOptimal(golden: seq<uint16>, rust: seq<uint16>, pairs: seq<(nat, nat)>)
    requires CommonSubsequence(golden, rust, 0, 0, pairs)
    ensures CommonSubsequence(golden, rust, 0, 0, MatchPairs(Script(golden, rust, 0, 0)))
    ensures |pairs| <= |MatchPairs(Script(golden, rust, 0, 0))|
  {
    ScriptIsEditScript(golden, rust, 0, 0);
    MatchesAreCommonSubsequence(Script(golden, rust, 0, 0), golden, rust, 0, 0);
    ScriptMatchesLcs(golden, rust, 0, 0);
    LcsIsUpperBound(golden, rust, 0, 0, pairs);
  }

  /** How many packets with this opcode a script reports as missing in Rust. */
  function MissingCount(steps: seq<Step>, golden: seq<uint16>, opcode: uint16): nat {
    if steps == [] then 0
    else
      (if steps[0].Del? && steps[0].cpp < |golden| && golden[steps[0].cpp] == opcode then 1 else 0)
      + MissingCount(steps[1..], golden, opcode)
  }

  /** How many packets with this opcode a script reports as extra in Rust. */
  function ExtraCount(steps: seq<Step>, rust: seq<uint16>, opcode: uint16): nat {
    if steps == [] then 0
    else
      (if steps[0].Ins? && steps[0].rust < |rust| && rust[steps[0].rust] == opcode then 1 else 0)
      + ExtraCount(steps[1..], rust, opcode)
  }

  /**
   * Conservation: for every opcode, missing minus extra is its count in the C++
   * stream minus its count in the Rust stream.
   */
  lemma {:induction false} EditScriptConservesOpcodes(
      steps: seq<Step>, golden: seq<uint16>, rust: seq<uint16>, i: nat, j: nat, opcode: uint16)
    requires EditScript(steps, golden, rust, i, j)
    ensures i <= |golden| && j <= |rust|
    ensures multiset(golden[i..])[opcode] + ExtraCount(steps, rust, opcode)
         == multiset(rust[j..])[opcode] + MissingCount(steps, golden, opcode)
    decreases |steps|
  {
    if steps == [] {
      assert golden[i..] == [] && rust[j..] == [];
    } else {
      var (i', j') := AfterStep(steps[0], i, j);
      EditScriptConservesOpcodes(steps[1..], golden, rust, i', j', opcode);
      if i' > i { assert golden[i..] == [golden[i]] + golden[i'..]; }
      if j' > j { assert rust[j..] == [rust[j]] + rust[j'..]; }
    }
  }

  /** A pure reordering shows up as equally many missing and extra packets of each opcode. */
  lemma MovedPacketsPairUp(golden: seq<uint16>, rust: seq<uint16>, opcode: uint16)
    requires multiset(golden) == multiset(rust)
    ensures MissingCount(Script(golden, rust, 0, 0), golden, opcode) == ExtraCount(Script(golden, rust, 0, 0), rust, opcode)
  {
    ScriptIsEditScript(golden, rust, 0, 0);
    EditScriptConservesOpcodes(Script(golden, rust, 0, 0), golden, rust, 0, 0, opcode);
    assert golden[0..] == golden && rust[0..] == rust;
  }

  /** A script without missing or extra packets exists exactly for equal opcode streams. */
  lemma {:induction false} ScriptIsAllMatches(golden: seq<uint16>, rust: seq<uint16>, i: nat, j: nat)
    requires i <= |golden| && j <= |rust|
    ensures (forall s :: s in Script(golden, rust, i, j) ==> s.Match?) <==> golden[i..] == rust[j..]
    ensures golden[i..] == rust[j..] ==>
      Script(golden, rust, i, j) == seq(|golden| - i, k requires 0 <= k => Match(i + k, j + k))
    decreases |golden| - i + |rust| - j
  {
    hide Lcs;
    var s := Script(golden, rust, i, j);
    if s == [] {
      assert golden[i..] == [] && rust[j..] == [];
    } else {
      var (i', j') := AfterStep(s[0], i, j);
      ScriptIsAllMatches(golden, rust, i', j');
      assert s == [s[0]] + Script(golden, rust, i', j');
      if s[0].Match? {
        assert golden[i..] == [golden[i]] + golden[i'..];
        assert rust[j..] == [rust[j]] + rust[j'..];
        if golden[i..] == rust[j..] {
          assert golden[i'..] == golden[i..][1..] && rust[j'..] == rust[j..][1..];
        }
      } else {
        assert !s[0].Match? && s[0] in s;
        if i < |golden| && j < |rust| {
          assert golden[i..][0] != rust[j..][0];
        } else {
          assert |golden[i..]| != |rust[j..]|;
        }
      }
    }
  }

  // ---------------------------------------------------------------------
  // The algorithm
  // ---------------------------------------------------------------------

  /** No opcode occurs in both remaining streams. */
  predicate NothingInCommon(golden: seq<uint16>, rust: seq<uint16>, i: nat, j: nat) {
    forall x, y :: i <= x < |golden| && j <= y < |rust| ==> golden[x] != rust[y]
  }

  lemma {:induction false} NoCommonLcs(golden: seq<uint16>, rust: seq<uint16>, i: nat, j: nat)
    requires i <= |golden| && j <= |rust| && NothingInCommon(golden, rust, i, j)
    ensures Lcs(golden, rust, i, j) == 0
    decreases |golden| - i + |rust| - j
  {
    if i < |golden| && j < |rust| {
      NoCommonLcs(golden, rust, i + 1, j);
      NoCommonLcs(golden, rust, i, j + 1);
    }
  }

  /** Deletions of golden[i..], then insertions of rust[j..]. */
  predicate AllMissingThenAllExtra(s: seq<Step>, golden: seq<uint16>, rust: seq<uint16>, i: nat, j: nat) {
    && i <= |golden| && j <= |rust| && |s| == |golden| - i + |rust| - j
    && forall k :: 0 <= k < |s| ==> s[k] == if k < |golden| - i then Del(i + k) else Ins(j + k - (|golden| - i))
  }

  lemma FirstIsMissing(s: seq<Step>, golden: seq<uint16>, rust: seq<uint16>, i: nat, j: nat)
    requires i < |golden| && AllMissingThenAllExtra(s, golden, rust, i + 1, j)
    ensures AllMissingThenAllExtra([Del(i)] + s, golden, rust, i, j)
  {
  }

  lemma FirstIsExtra(s: seq<Step>, golden: seq<uint16>, rust: seq<uint16>, j: nat)
    requires j < |rust| && AllMissingThenAllExtra(s, golden, rust, |golden|, j + 1)
    ensures AllMissingThenAllExtra([Ins(j)] + s, golden, rust, |golden|, j)
  {
  }

  /** Ties are broken for the golden stream: with nothing to match, everything is missing before anything is extra. */
  lemma {:induction false} MissingComesFirst(golden: seq<uint16>, rust: seq<uint16>, i: nat, j: nat)
    requires i <= |golden| && j <= |rust| && NothingInCommon(golden, rust, i, j)
    ensures AllMissingThenAllExtra(Script(golden, rust, i, j), golden, rust, i, j)
    decreases |golden| - i + |rust| - j
  {
    if i < |golden| {
      if j < |rust| {
        NoCommonLcs(golden, rust, i + 1, j);
        NoCommonLcs(golden, rust, i, j + 1);
      }
      hide Lcs, AllMissingThenAllExtra;
      MissingComesFirst(golden, rust, i + 1, j);
      FirstIsMissing(Script(golden, rust, i + 1, j), golden, rust, i, j);
    } else if j < |rust| {
      hide Lcs, AllMissingThenAllExtra;
      MissingComesFirst(golden, rust, i, j + 1);
      FirstIsExtra(Script(golden, rust, i, j + 1), golden, rust, j);
    }
  }

  /** dp[i, j] is the LCS length of golden[i..] and rust[j..]. */
  ghost predicate TableRow(dp: array2<uint32>, golden: seq<uint16>, rust: seq<uint16>, r: nat)
    requires r <= |golden| && dp.Length0 == |golden| + 1 && dp.Length1 == |rust| + 1
    reads dp
  {
    forall c :: 0 <= c <= |rust| ==> dp[r, c] == Lcs(golden, rust, r, c)
  }

  /**
   * First half of `align`: the table, filled backwards. Its cells are u32 in the
   * source, so the shorter stream must have fewer than 2^32 packets (the table of a
   * longer pair could not be allocated).
   */
  method FillTable(golden: seq<uint16>, rust: seq<uint16>) returns (dp: array2<uint32>)
    requires |golden| < U32_SIZE || |rust| < U32_SIZE
    ensures fresh(dp) && dp.Length0 == |golden| + 1 && dp.Length1 == |rust| + 1
    ensures forall r :: 0 <= r <= |golden| ==> TableRow(dp, golden, rust, r)
  {
    var m, n := |golden|, |rust|;
    dp := new uint32[m + 1, n + 1]((_, _) => 0);
    assert TableRow(dp, golden, rust, m);
    var i := m;
    while i > 0
      invariant 0 <= i <= m
      invariant forall r :: i <= r <= m ==> TableRow(dp, golden, rust, r)
      invariant forall r :: 0 <= r < i ==> dp[r, n] == 0
    {
      i := i - 1;
      FillRow(golden, rust, dp, i);
    }
  }

  lemma LcsUnfolds(golden: seq<uint16>, rust: seq<uint16>, i: nat, j: nat)
    requires i < |golden| && j < |rust|
    ensures Lcs(golden, rust, i, j) ==
      if golden[i] == rust[j] then Lcs(golden, rust, i + 1, j + 1) + 1
      else Max(Lcs(golden, rust, i + 1, j), Lcs(golden, rust, i, j + 1))
  {
  }

  lemma EdgeOfTable(golden: seq<uint16>, rust: seq<uint16>, i: nat)
    requires i <= |golden|
    ensures Lcs(golden, rust, i, |rust|) == 0
  {
  }

  /** The inner loop of the table: one row, right to left. */
  method FillRow(golden: seq<uint16>, rust: seq<uint16>, dp: array2<uint32>, i: nat)
    requires |golden| < U32_SIZE || |rust| < U32_SIZE
    requires i < |golden| && dp.Length0 == |golden| + 1 && dp.Length1 == |rust| + 1
    requires TableRow(dp, golden, rust, i + 1)
    requires dp[i, |rust|] == 0
    modifies dp
    ensures TableRow(dp, golden, rust, i)
    ensures forall r, c :: 0 <= r < i && 0 <= c <= |rust| ==> dp[r, c] == old(dp[r, c])
    ensures forall r :: i < r <= |golden| && old(TableRow(dp, golden, rust, r)) ==> TableRow(dp, golden, rust, r)
  {
    EdgeOfTable(golden, rust, i);
    hide Lcs;
    var j := |rust|;
    while j > 0
      invariant 0 <= j <= |rust|
      invariant forall c :: j <= c <= |rust| ==> dp[i, c] == Lcs(golden, rust, i, c)
      invariant forall r, c :: 0 <= r <= |golden| && 0 <= c <= |rust| && r != i ==> dp[r, c] == old(dp[r, c])
    {
      j := j - 1;
      LcsUnfolds(golden, rust, i, j);
      assert dp[i + 1, j] == Lcs(golden, rust, i + 1, j);
      assert dp[i + 1, j + 1] == Lcs(golden, rust, i + 1, j + 1);
      assert Lcs(golden, rust, i, j) < U32_SIZE;
      dp[i, j] :=
        if golden[i] == rust[j] then dp[i + 1, j + 1] + 1
        else Max(dp[i + 1, j], dp[i, j + 1]);
    }
  }

  /** The steps taken and the script of what is left make up the whole script. */
  ghost predicate Walked(golden: seq<uint16>, rust: seq<uint16>, i: nat, j: nat, steps: seq<Step>) {
    i <= |golden| && j <= |rust| && steps + Script(golden, rust, i, j) == Script(golden, rust, 0, 0)
  }

  lemma WalkedNothing(golden: seq<uint16>, rust: seq<uint16>)
    ensures Walked(golden, rust, 0, 0, [])
  {
    hide Script;
    var s := Script(golden, rust, 0, 0);
    assert [] + s == s;
  }

  lemma WalkedAll(golden: seq<uint16>, rust: seq<uint16>, steps: seq<Step>)
    requires Walked(golden, rust, |golden|, |rust|, steps)
    ensures steps == Script(golden, rust, 0, 0)
  {
    assert Script(golden, rust, |golden|, |rust|) == [];
    assert steps + [] == steps;
  }

  /** One more step of the walk, by the comparison that chooses it. */
  lemma WalkedOneMore(golden: seq<uint16>, rust: seq<uint16>, i: nat, j: nat, steps: seq<Step>)
    requires Walked(golden, rust, i, j, steps)
    ensures i < |golden| && j < |rust| && golden[i] == rust[j] ==>
      Walked(golden, rust, i + 1, j + 1, steps + [Match(i, j)])
    ensures i < |golden| && (j < |rust| ==>
      golden[i] != rust[j] && Lcs(golden, rust, i + 1, j) >= Lcs(golden, rust, i, j + 1)) ==>
      Walked(golden, rust, i + 1, j, steps + [Del(i)])
    ensures j < |rust| && (i < |golden| ==>
      golden[i] != rust[j] && Lcs(golden, rust, i + 1, j) < Lcs(golden, rust, i, j + 1)) ==>
      Walked(golden, rust, i, j + 1, steps + [Ins(j)])
  {
    hide Lcs;
    ShiftFirst(steps, Script(golden, rust, i, j));
  }

  /** `align`: the greedy walk over the table. */
  method AlignStreams(golden: seq<uint16>, rust: seq<uint16>) returns (steps: seq<Step>)
    requires |golden| < U32_SIZE || |rust| < U32_SIZE
    ensures steps == Script(golden, rust, 0, 0)
  {
    hide Script, Walked, Lcs;
    var m, n := |golden|, |rust|;
    var dp := FillTable(golden, rust);
    steps := [];
    var i, j := 0, 0;
    WalkedNothing(golden, rust);
    while i < m && j < n
      invariant 0 <= i <= m && 0 <= j <= n
      invariant Walked(golden, rust, i, j, steps)
      invariant forall r :: 0 <= r <= m ==> TableRow(dp, golden, rust, r)
      decreases m - i + n - j
    {
      assert TableRow(dp, golden, rust, i) && TableRow(dp, golden, rust, i + 1);
      WalkedOneMore(golden, rust, i, j, steps);
      if golden[i] == rust[j] {
        steps := steps + [Match(i, j)];
        i, j := i + 1, j + 1;
      } else if dp[i + 1, j] >= dp[i, j + 1] {
        steps := steps + [Del(i)];
        i := i + 1;
      } else {
        steps := steps + [Ins(j)];
        j := j + 1;
      }
    }
    while i < m
      invariant 0 <= i <= m && 0 <= j <= n && (i == m || j == n)
      invariant Walked(golden, rust, i, j, steps)
    {
      WalkedOneMore(golden, rust, i, j, steps);
      steps := steps + [Del(i)];
      i := i + 1;
    }
    while j < n
      invariant 0 <= j <= n && i == m
      invariant Walked(golden, rust, i, j, steps)
    {
      WalkedOneMore(golden, rust, i, j, steps);
      steps := steps + [Ins(j)];
      j := j + 1;
    }
    WalkedAll(golden, rust, steps);
  }

  lemma ShiftFirst<T>(done: seq<T>, rest: seq<T>)
    ensures rest != [] ==> (done + [rest[0]]) + rest[1..] == done + rest
  {
  }
}
