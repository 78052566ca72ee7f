/** Byte strings: overwriting a range, and little-endian integers. */
module Bytes {
  type u8 = x: nat | x < 256

  /** `s` with the bytes from `at` on replaced by `b`. */
  function Splice(s: seq<u8>, at: nat, b: seq<u8>): (r: seq<u8>)
    requires at + |b| <= |s|
    ensures |r| == |s|
    ensures forall i: nat | i < |s| :: r[i] == if at <= i < at + |b| then b[i - at] else s[i]
  {
    s[..at] + b + s[at + |b|..]
  }

  function Le16(s: seq<u8>, at: nat): nat
    requires at + 2 <= |s|
  {
    s[at] as nat + 0x100 * s[at + 1] as nat
  }

  function Le32(s: seq<u8>, at: nat): nat
    requires at + 4 <= |s|
  {
    s[at] as nat + 0x100 * s[at + 1] as nat + 0x1_0000 * s[at + 2] as nat + 0x100_0000 * s[at + 3] as nat
  }

  function ToLe16(v: nat): (r: seq<u8>)
    ensures |r| == 2 && Le16(r, 0) == v % 0x1_0000
  {
    [v % 0x100, v / 0x100 % 0x100]
  }

  function ToLe32(v: nat): (r: seq<u8>)
    ensures |r| == 4 && Le32(r, 0) == v % 0x1_0000_0000
  {
    var q := v / 0x100;
    var r := q / 0x100;
    var t := r / 0x100;
    Remainder32(v, q, r, t, t / 0x100);
    [v % 0x100, q % 0x100, r % 0x100, t % 0x100]
  }

  lemma Remainder32(v: nat, q: nat, r: nat, t: nat, u: nat)
    requires q == v / 0x100 && r == q / 0x100 && t == r / 0x100 && u == t / 0x100
    ensures v % 0x100 + 0x100 * (q % 0x100) + 0x1_0000 * (r % 0x100) + 0x100_0000 * (t % 0x100) == v % 0x1_0000_0000
  {
    var a, b, c, d := v % 0x100, q % 0x100, r % 0x100, t % 0x100;
    assert v == 0x100 * q + a && q == 0x100 * r + b && r == 0x100 * t + c && t == 0x100 * u + d;
    var w := a + 0x100 * b + 0x1_0000 * c + 0x100_0000 * d;
    assert v == w + 0x1_0000_0000 * u && 0 <= w < 0x1_0000_0000;
    LowWord(w, u);
  }

  lemma LowWord(w: nat, u: nat)
    requires w < 0x1_0000_0000
    ensures (w + 0x1_0000_0000 * u) % 0x1_0000_0000 == w
  {
  }

  /** The number that bytes stand for, least significant first. */
  function LittleEndian(s: seq<u8>): nat {
    if s == [] then 0 else s[0] + 0x100 * LittleEndian(s[1..])
  }

  lemma Le16Is(s: seq<u8>, at: nat)
    requires at + 2 <= |s|
    ensures Le16(s, at) == LittleEndian(s[at..at + 2])
  {
    var t := s[at..at + 2];
    assert t[1..][1..] == [];
    assert LittleEndian(t[1..]) == t[1];
  }

  lemma Le32Is(s: seq<u8>, at: nat)
    requires at + 4 <= |s|
    ensures Le32(s, at) == LittleEndian(s[at..at + 4])
  {
    var t := s[at..at + 4];
    assert t[1..][1..] == t[2..] && t[2..][1..] == t[3..] && t[3..][1..] == [];
    assert LittleEndian(t[3..]) == t[3];
    assert LittleEndian(t[2..]) == t[2] + 0x100 * LittleEndian(t[3..]);
    assert LittleEndian(t[1..]) == t[1] + 0x100 * LittleEndian(t[2..]);
  }

  function Zeros(n: nat): (r: seq<u8>)
    ensures |r| == n && forall i | 0 <= i < n :: r[i] == 0
  {
    seq(n, _ => 0)
  }

  lemma Le32Bound(s: seq<u8>, at: nat)
    requires at + 4 <= |s|
    ensures Le32(s, at) < 0x1_0000_0000
  {
  }

  lemma Le32Splice(s: seq<u8>, at: nat, b: seq<u8>, x: nat)
    requires at + |b| <= |s| && x + 4 <= |s|
    requires x + 4 <= at || at + |b| <= x || (at <= x && x + 4 <= at + |b|)
    ensures Le32(Splice(s, at, b), x) == if at <= x && x + 4 <= at + |b| then Le32(b, x - at) else Le32(s, x)
  {
  }

  lemma Le32Slice(s: seq<u8>, lo: nat, hi: nat, x: nat)
    requires lo <= hi <= |s| && x + 4 <= hi - lo
    ensures Le32(s[lo..hi], x) == Le32(s, lo + x)
  {
  }
}
