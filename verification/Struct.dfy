/** Python's `struct` with little-endian formats, as field widths.  A four-byte signature
    is read as the little-endian number it spells. */
module Struct {
  type byte = x: nat | x < 256

  function Pow256(n: nat): nat {
    if n == 0 then 1 else 256 * Pow256(n - 1)
  }

  function Encode(width: nat, v: nat): (s: seq<byte>)
    ensures |s| == width
  {
    if width == 0 then [] else [v % 256] + Encode(width - 1, v / 256)
  }

  function Decode(s: seq<byte>): nat {
    if s == [] then 0 else s[0] + 256 * Decode(s[1..])
  }

  lemma {:induction false} DecodeEncode(width: nat, v: nat)
    requires v < Pow256(width)
    ensures Decode(Encode(width, v)) == v
  {
    if width > 0 {
      DecodeEncode(width - 1, v / 256);
      assert Encode(width, v)[1..] == Encode(width - 1, v / 256);
    }
  }

  type Format = seq<nat>

  function Size(fmt: Format): nat {
    if fmt == [] then 0 else fmt[0] + Size(fmt[1..])
  }

  /** `n` fields of one width, as in `5H`. */
  function Run(n: nat, width: nat): (fmt: Format)
    ensures |fmt| == n && forall i :: 0 <= i < n ==> fmt[i] == width
  {
    seq(n, _ => width)
  }

  lemma {:induction false} SizeOfRun(n: nat, width: nat)
    ensures Size(Run(n, width)) == n * width
  {
    if n > 0 {
      SizeOfRun(n - 1, width);
      assert Run(n, width)[1..] == Run(n - 1, width);
    }
  }

  lemma {:induction false} SizeOfAppend(a: Format, b: Format)
    ensures Size(a + b) == Size(a) + Size(b)
  {
    if a == [] {
      assert a + b == b;
    } else {
      SizeOfAppend(a[1..], b);
      assert (a + b)[1..] == a[1..] + b;
    }
  }

  function Pack(fmt: Format, vals: seq<nat>): (s: seq<byte>)
    requires |fmt| == |vals|
    ensures |s| == Size(fmt)
  {
    if fmt == [] then [] else Encode(fmt[0], vals[0]) + Pack(fmt[1..], vals[1..])
  }

  function Unpack(fmt: Format, s: seq<byte>): (vals: seq<nat>)
    requires |s| >= Size(fmt)
    ensures |vals| == |fmt|
  {
    if fmt == [] then [] else [Decode(s[..fmt[0]])] + Unpack(fmt[1..], s[fmt[0]..])
  }

  ghost predicate Fits(fmt: Format, vals: seq<nat>) {
    |fmt| == |vals| && forall i :: 0 <= i < |fmt| ==> vals[i] < Pow256(fmt[i])
  }

  /** Unpacking recovers what was packed, whatever follows it. */
  lemma {:induction false} UnpackPack(fmt: Format, vals: seq<nat>, rest: seq<byte>)
    requires Fits(fmt, vals)
    ensures Unpack(fmt, Pack(fmt, vals) + rest) == vals
  {
    if fmt != [] {
      var s := Pack(fmt, vals) + rest;
      var head := Encode(fmt[0], vals[0]);
      assert s == head + (Pack(fmt[1..], vals[1..]) + rest);
      assert s[..fmt[0]] == head && s[fmt[0]..] == Pack(fmt[1..], vals[1..]) + rest;
      DecodeEncode(fmt[0], vals[0]);
      UnpackPack(fmt[1..], vals[1..], rest);
    }
  }

  lemma PowersOf256()
    ensures Pow256(2) == 0x1_0000 && Pow256(4) == 0x1_0000_0000 && Pow256(8) == 0x1_0000_0000_0000_0000
  {
    assert Pow256(1) == 256 && Pow256(3) == 256 * Pow256(2);
    assert Pow256(5) == 256 * Pow256(4) && Pow256(6) == 256 * Pow256(5) && Pow256(7) == 256 * Pow256(6);
  }

  /** `s[a:a + n]`, clamped to the end as a Python slice is. */
  function Slice<T>(s: seq<T>, a: nat, n: nat): seq<T> {
    if a >= |s| then [] else if a + n >= |s| then s[a..] else s[a..a + n]
  }

  function From<T>(s: seq<T>, a: nat): seq<T> {
    if a >= |s| then [] else s[a..]
  }

  ghost predicate Occurs(s: seq<byte>, pattern: seq<byte>, p: nat) {
    p + |pattern| <= |s| && s[p..p + |pattern|] == pattern
  }

  /** `s.rfind(pattern, 0, end)` */
  function RFind(s: seq<byte>, pattern: seq<byte>, end: nat): (p: int)
    requires end <= |s|
    ensures p == -1 ==> forall q: nat :: q + |pattern| <= end ==> !Occurs(s, pattern, q)
    ensures p != -1 ==> p >= 0 && p + |pattern| <= end && Occurs(s, pattern, p)
    ensures p != -1 ==> forall q: nat :: p < q && q + |pattern| <= end ==> !Occurs(s, pattern, q)
    decreases end
  {
    if end < |pattern| then -1
    else if s[end - |pattern|..end] == pattern then end - |pattern|
    else if end == 0 then -1
    else RFind(s, pattern, end - 1)
  }
}
