/** Types shared by every component of the model. */
module Common {

  datatype Option<+T> = None | Some(value: T) {
    predicate IsFailure() { None? }

    function PropagateFailure<U>(): Option<U>
      requires None?
    {
      None
    }

    function Extract(): T
      requires Some?
    {
      value
    }
  }

  datatype Result<+T, +E> = Ok(value: T) | Err(error: E) {
    predicate IsFailure() { Err? }

    function PropagateFailure<U>(): Result<U, E>
      requires Err?
    {
      Err(error)
    }

    function Extract(): T
      requires Ok?
    {
      value
    }
  }

  type byte = x: int | 0 <= x < 0x100
  type uint16 = x: int | 0 <= x < 0x1_0000
  type uint32 = x: int | 0 <= x < 0x1_0000_0000
  type uint64 = x: int | 0 <= x < 0x1_0000_0000_0000_0000

  const U32_SIZE: int := 0x1_0000_0000
  const USIZE_SIZE: int := 0x1_0000_0000_0000_0000

  // A Rust slice never holds more than isize::MAX bytes (64-bit targets).
  const ISIZE_MAX: int := 0x7FFF_FFFF_FFFF_FFFF

  /** The value of four little-endian bytes. */
  function FromLe32(b: seq<byte>): uint32
    requires |b| == 4
  {
    b[0] as int + 0x100 * b[1] as int + 0x1_0000 * b[2] as int + 0x100_0000 * b[3] as int
  }

  function ToLe32(v: uint32): (b: seq<byte>)
    ensures |b| == 4
  {
    [v % 0x100, (v / 0x100) % 0x100, (v / 0x1_0000) % 0x100, v / 0x100_0000]
  }

  lemma Le32RoundTrip(v: uint32)
    ensures FromLe32(ToLe32(v)) == v
  {
    assert v / 0x100_0000 == ((v / 0x1_0000) / 0x100);
    assert v / 0x1_0000 == (v / 0x100) / 0x100;
  }

  lemma Le32Unique(b: seq<byte>)
    requires |b| == 4
    ensures ToLe32(FromLe32(b)) == b
  {
    var v := FromLe32(b);
    assert v / 0x100 == b[1] as int + 0x100 * b[2] as int + 0x1_0000 * b[3] as int;
    assert v / 0x1_0000 == b[2] as int + 0x100 * b[3] as int;
    assert v / 0x100_0000 == b[3];
  }

  function FromLe16(b: seq<byte>): uint16
    requires |b| == 2
  {
    b[0] as int + 0x100 * b[1] as int
  }

  function ToLe16(v: uint16): (b: seq<byte>)
    ensures |b| == 2 && FromLe16(b) == v
  {
    [v % 0x100, v / 0x100]
  }

  /** What is read from the front of the input, and the unread rest. */
  type Parsed<T> = Option<(T, seq<byte>)>

  function TakeBytes(n: nat, s: seq<byte>): Parsed<seq<byte>> {
    if n <= |s| then Some((s[..n], s[n..])) else None
  }

  lemma TakeBytesWritten(b: seq<byte>, rest: seq<byte>)
    ensures TakeBytes(|b|, b + rest) == Some((b, rest))
  {
    assert (b + rest)[..|b|] == b && (b + rest)[|b|..] == rest;
  }

  lemma TakeBytesReads(n: nat, s: seq<byte>)
    ensures var p := TakeBytes(n, s); p.Some? ==> |p.value.0| == n && s == p.value.0 + p.value.1
  {
  }

  function ParseU32(s: seq<byte>): Parsed<uint32> {
    var (b, rest) :- TakeBytes(4, s);
    Some((FromLe32(b), rest))
  }

  lemma ParseU32Written(v: uint32, rest: seq<byte>)
    ensures ParseU32(ToLe32(v) + rest) == Some((v, rest))
  {
    TakeBytesWritten(ToLe32(v), rest);
    Le32RoundTrip(v);
  }

  lemma ParseU32Reads(s: seq<byte>)
    ensures var p := ParseU32(s); p.Some? ==> s == ToLe32(p.value.0) + p.value.1
  {
    if |s| >= 4 {
      Le32Unique(s[..4]);
      assert s == s[..4] + s[4..];
    }
  }

  /** The number that bytes spell, least significant first. */
  function FromLe(b: seq<byte>): nat {
    if b == [] then 0 else b[0] as int + 0x100 * FromLe(b[1..])
  }

  lemma FixedWidthsAreLittleEndian(b: seq<byte>)
    ensures |b| == 2 ==> FromLe16(b) == FromLe(b)
    ensures |b| == 4 ==> FromLe32(b) == FromLe(b)
  {
    if |b| == 2 {
      assert b[1..][1..] == [];
    } else if |b| == 4 {
      assert b[1..][1..] == b[2..] && b[2..][1..] == b[3..] && b[3..][1..] == [];
      assert FromLe(b[3..]) == b[3] as int && FromLe(b[2..]) == b[2] as int + 0x100 * b[3] as int;
      assert FromLe(b[1..]) == b[1] as int + 0x100 * FromLe(b[2..]);
    }
  }

  function Zeros(n: nat): (z: seq<byte>)
    ensures |z| == n
  {
    seq(n, _ => 0)
  }

  function Pow2(n: nat): (p: nat)
    ensures p >= 1
  {
    if n == 0 then 1 else 2 * Pow2(n - 1)
  }

  lemma Pow2Of8()
    ensures Pow2(8) == 0x100
  {
    assert Pow2(4) == 16 && Pow2(6) == 4 * Pow2(4) && Pow2(8) == 4 * Pow2(6);
  }

  /** Positions at which the list has the property. */
  ghost function Where<T>(s: seq<T>, p: T -> bool): set<nat> {
    set k: nat | k < |s| && p(s[k])
  }

  lemma WhereSnoc<T>(s: seq<T>, p: T -> bool, x: T)
    ensures |Where(s + [x], p)| == |Where(s, p)| + if p(x) then 1 else 0
  {
    var more := Where(s + [x], p);
    if p(x) {
      assert more == Where(s, p) + {|s|};
    } else {
      assert more == Where(s, p);
    }
  }

  /** No element occurs twice. */
  predicate Distinct<T(==)>(s: seq<T>) {
    forall i, j :: 0 <= i < j < |s| ==> s[i] != s[j]
  }

  lemma {:induction false} SubsetSize<T>(a: set<T>, b: set<T>)
    requires a <= b
    ensures |a| <= |b|
  {
    if a != {} {
      var x :| x in a;
      SubsetSize(a - {x}, b - {x});
    }
  }
}
