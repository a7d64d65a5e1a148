/** Bytes, fixed-width unsigned integers and little-endian fields. */
module Bytes {
  type byte = x: int | 0 <= x < 0x100
  type u8 = byte
  type u16 = x: int | 0 <= x < 0x1_0000
  type u32 = x: int | 0 <= x < 0x1_0000_0000
  type u64 = x: int | 0 <= x < 0x1_0000_0000_0000_0000

  const U32_SIZE := 0x1_0000_0000

  datatype Option<+T> = None | Some(value: T)

  function Pow256(n: nat): (p: nat)
    ensures p > 0
  {
    if n == 0 then 1 else 256 * Pow256(n - 1)
  }

  lemma Pow256Values()
    ensures Pow256(1) == 0x100
    ensures Pow256(2) == 0x1_0000
    ensures Pow256(4) == U32_SIZE
    ensures Pow256(8) == 0x1_0000_0000_0000_0000
  {
    assert Pow256(4) == 256 * 256 * Pow256(2);
    assert Pow256(6) == 256 * 256 * Pow256(4);
    assert Pow256(8) == 256 * 256 * Pow256(6);
  }

  /** The `n` low bytes of `v`, least significant first. */
  function LE(n: nat, v: nat): (s: seq<byte>)
    ensures |s| == n
  {
    if n == 0 then [] else [v % 256] + LE(n - 1, v / 256)
  }

  /** The number whose little-endian bytes are `s`. */
  function FromLE(s: seq<byte>): nat {
    if s == [] then 0 else s[0] + 256 * FromLE(s[1..])
  }

  lemma {:induction false} FromLEBound(s: seq<byte>)
    ensures FromLE(s) < Pow256(|s|)
  {
    if s != [] {
      FromLEBound(s[1..]);
    }
  }

  lemma {:induction false} ReadBack(n: nat, v: nat)
    requires v < Pow256(n)
    ensures FromLE(LE(n, v)) == v
  {
    if n > 0 {
      ReadBack(n - 1, v / 256);
      assert LE(n, v)[1..] == LE(n - 1, v / 256);
    }
  }

  lemma {:induction false} WriteBack(s: seq<byte>)
    ensures LE(|s|, FromLE(s)) == s
  {
    if s != [] {
      WriteBack(s[1..]);
      assert FromLE(s) % 256 == s[0] && FromLE(s) / 256 == FromLE(s[1..]);
    }
  }

  /** Appending one more significant byte: what the read loops do, one byte a turn. */
  lemma {:induction false} FromLESnoc(s: seq<byte>, b: byte)
    ensures FromLE(s + [b]) == FromLE(s) + b * Pow256(|s|)
  {
    if s == [] {
      assert [] + [b] == [b];
    } else {
      FromLESnoc(s[1..], b);
      assert (s + [b])[1..] == s[1..] + [b];
      assert b * Pow256(|s|) == 256 * (b * Pow256(|s| - 1));
    }
  }

  /** The next more significant byte: what the write loops do, one byte a turn. */
  lemma {:induction false} LESnoc(n: nat, v: nat)
    ensures LE(n + 1, v) == LE(n, v) + [(v / Pow256(n)) % 256]
  {
    if n > 0 {
      LESnoc(n - 1, v / 256);
      assert v / 256 / Pow256(n - 1) == v / Pow256(n) by { DivDiv(v, Pow256(n - 1)); }
    }
  }

  lemma DivDiv(v: nat, d: nat)
    requires d > 0
    ensures v / 256 / d == v / (256 * d)
  {
    var q := v / 256 / d;
    var r := v / 256 - q * d;
    assert 0 <= r < d;
    var low := v - 256 * (v / 256);
    assert 0 <= low < 256;
    assert v == q * (256 * d) + (256 * r + low);
    assert 0 <= 256 * r + low < 256 * d;
    QuotientUnique(v, 256 * d, q, 256 * r + low);
  }

  lemma QuotientUnique(v: int, d: int, q: int, r: int)
    requires 0 <= r < d && v == q * d + r
    ensures v / d == q && v % d == r
  {
    RemainderUnique(d, q, r, v / d, v % d);
  }

  lemma RemainderUnique(d: int, q: int, r: int, q': int, r': int)
    requires 0 <= r < d && 0 <= r' < d && q * d + r == q' * d + r'
    ensures q == q' && r == r'
  {
    if q > q' {
      TimesMonotone(q' + 1, q, d);
    } else if q < q' {
      TimesMonotone(q + 1, q', d);
    }
  }

  lemma TimesMonotone(a: int, b: int, d: int)
    requires a <= b && d >= 0
    ensures a * d <= b * d
  {
  }

  /** The `n`-byte little-endian field at offset `at`. */
  function Field(s: seq<byte>, at: nat, n: nat): (v: nat)
    requires at + n <= |s|
    ensures v < Pow256(n)
  {
    FromLEBound(s[at..at + n]);
    FromLE(s[at..at + n])
  }

  lemma FourBytesOf(n: u32)
    ensures LE(4, n) == [n % 256, n / 256 % 256, n / 0x1_0000 % 256, n / 0x100_0000 % 256]
  {
    Pow256Values();
    assert Pow256(3) == 0x100_0000 && LE(0, n) == [];
    LESnoc(0, n);
    LESnoc(1, n);
    LESnoc(2, n);
    LESnoc(3, n);
  }

  lemma FourBytes(s: seq<byte>, b0: int, b1: int, b2: int, b3: int)
    requires |s| >= 4 && b0 == s[0] && b1 == s[1] && b2 == s[2] && b3 == s[3]
    ensures Field(s, 0, 4) == b0 + 0x100 * b1 + 0x1_0000 * b2 + 0x100_0000 * b3
  {
    Pow256Values();
    assert Pow256(3) == 0x100_0000 && s[0..0] == [];
    FromLESnoc(s[0..0], s[0]);
    FromLESnoc(s[0..1], s[1]);
    FromLESnoc(s[0..2], s[2]);
    FromLESnoc(s[0..3], s[3]);
    assert s[0..0] + [s[0]] == s[0..1] && s[0..1] + [s[1]] == s[0..2] && s[0..2] + [s[2]] == s[0..3]
           && s[0..3] + [s[3]] == s[0..4];
  }

  lemma TwoBytes(s: seq<byte>, at: nat)
    requires at + 2 <= |s|
    ensures Field(s, at, 2) == s[at] as int + 0x100 * s[at + 1] as int
  {
    var t := s[at..at + 2];
    assert t[1..] == [t[1]] && t[1..][1..] == [];
    assert FromLE(t[1..]) == t[1] + 256 * FromLE([]);
  }

  /** Byte `i` of a little-endian field. */
  lemma {:induction false} LEByte(n: nat, v: nat, i: nat)
    requires i < n
    ensures LE(n, v)[i] == v / Pow256(i) % 256
  {
    if i > 0 {
      LEByte(n - 1, v / 256, i - 1);
      DivDiv(v, Pow256(i - 1));
    }
  }

  lemma ByteField(s: seq<byte>, at: nat)
    requires at < |s|
    ensures Field(s, at, 1) == s[at]
  {
    assert s[at..at + 1] == [s[at]];
  }

  /** All the pieces, end to end. */
  function Flatten<T>(pieces: seq<seq<T>>): seq<T> {
    if pieces == [] then [] else pieces[0] + Flatten(pieces[1..])
  }

  lemma {:induction false} FlattenConcat<T>(a: seq<seq<T>>, b: seq<seq<T>>)
    ensures Flatten(a + b) == Flatten(a) + Flatten(b)
  {
    if a == [] {
      assert a + b == b;
    } else {
      FlattenConcat(a[1..], b);
      assert (a + b)[1..] == a[1..] + b && (a + b)[0] == a[0];
      Regroup(a[0], Flatten(a[1..]), Flatten(b));
    }
  }

  lemma Regroup<T>(a: seq<T>, b: seq<T>, c: seq<T>)
    ensures a + b + c == a + (b + c)
  {
  }

  lemma DropFront<T>(a: seq<T>, b: seq<T>, n: nat)
    requires n <= |a|
    ensures (a + b)[n..] == a[n..] + b
  {
  }

  lemma FlattenNone<T>(pieces: seq<seq<T>>)
    ensures Flatten(pieces[..0]) == []
  {
  }

  lemma FlattenOne<T>(x: seq<T>)
    ensures Flatten([x]) == x
  {
    assert Flatten([x]) == x + Flatten([]);
  }
}
