// Bytes, optional values and "this text occurs here" reasoning shared by the other modules.
module Bytes {

  type byte = b: int | 0 <= b < 256
  type bytes = seq<byte>

  datatype Option<+T> = None | Some(value: T)

  // The bytes of a text in ASCII.
  function Ascii(text: string): (r: bytes)
    ensures |r| == |text| && forall i :: 0 <= i < |r| && text[i] < 128 as char ==> r[i] == text[i] as int
  {
    seq(|text|, i requires 0 <= i < |text| => if text[i] < 128 as char then text[i] as byte else 0)
  }

  // C limits of `int`.
  const INT_MAX: int := 2147483647
  const INT_MIN: int := -2147483648

  // The bytes p stand in s at position off.
  predicate At(s: bytes, off: nat, p: bytes) {
    off + |p| <= |s| && s[off..off + |p|] == p
  }

  lemma AtConcat(s: bytes, off: nat, p: bytes, q: bytes)
    ensures At(s, off, p + q) <==> At(s, off, p) && At(s, off + |p|, q)
  {
    if At(s, off, p + q) {
      assert s[off..off + |p|] == (p + q)[..|p|] == p;
      assert s[off + |p|..off + |p| + |q|] == (p + q)[|p|..] == q;
    }
    if At(s, off, p) && At(s, off + |p|, q) {
      assert s[off..off + |p + q|] == s[off..off + |p|] + s[off + |p|..off + |p| + |q|];
    }
  }

  // Dropping the first n bytes of a text that stands before q.
  lemma AtRest(s: bytes, off: nat, p: bytes, q: bytes, n: nat)
    requires At(s, off, p + q) && n <= |p|
    ensures At(s, off + n, p[n..] + q)
  {
    assert p + q == p[..n] + (p[n..] + q);
    AtConcat(s, off, p[..n], p[n..] + q);
  }

  lemma AtFront(s: bytes, off: nat, p: bytes, q: bytes)
    requires At(s, off, p + q)
    ensures At(s, off, p) && off + |p| + |q| <= |s|
  {
    AtConcat(s, off, p, q);
  }

  lemma AtByte(s: bytes, off: nat, p: bytes, i: nat)
    requires At(s, off, p) && i < |p|
    ensures off + i < |s| && s[off + i] == p[i]
  {
    assert s[off..off + |p|][i] == p[i];
  }

  // The C string held in a buffer: everything before the first NUL.
  function CString(s: bytes): (r: bytes)
    ensures 0 !in r && r <= s
    ensures 0 !in s ==> r == s
    ensures |r| < |s| ==> s[|r|] == 0
  {
    if s == [] || s[0] == 0 then [] else [s[0]] + CString(s[1..])
  }

  // Text that a C string can hold.
  predicate NoNul(p: bytes) {
    forall i :: 0 <= i < |p| ==> p[i] != 0
  }

  lemma NoNulConcat(p: bytes, q: bytes)
    requires NoNul(p) && NoNul(q)
    ensures NoNul(p + q)
  {
  }

  // ----- Little-endian numbers, as this machine stores them -----

  function EncodeLE(n: nat, width: nat): (r: bytes)
    ensures |r| == width
  {
    if width == 0 then [] else [n % 256] + EncodeLE(n / 256, width - 1)
  }

  function DecodeLE(b: bytes): nat {
    if b == [] then 0 else Low(b[0]) + 256 * DecodeLE(b[1..])
  }

  function Low(b: byte): nat { b }

  function Range(width: nat): (r: nat)
    ensures r > 0
  {
    if width == 0 then 1 else 256 * Range(width - 1)
  }

  lemma {:induction false} DecodeEncodeLE(n: nat, width: nat)
    requires n < Range(width)
    ensures DecodeLE(EncodeLE(n, width)) == n
  {
    if width > 0 {
      DecodeEncodeLE(n / 256, width - 1);
      assert EncodeLE(n, width)[1..] == EncodeLE(n / 256, width - 1);
    }
  }

  // Which byte stands where: byte k counts multiples of 256 to the k, so the least significant byte comes first.
  lemma {:induction false} EncodedByte(n: nat, width: nat, k: nat)
    requires k < width
    ensures EncodeLE(n, width)[k] == Whole(n, Range(k)) % 256
    ensures Range(0) == 1 && Range(k + 1) == 256 * Range(k)
  {
    if k > 0 {
      EncodedByte(n / 256, width - 1, k - 1);
      DivideTwice(n, Range(k - 1));
    } else {
      assert Whole(n, 1) == n;
    }
  }

  function Whole(n: nat, d: nat): nat
    requires d > 0
  {
    n / d
  }

  lemma DivideTwice(n: nat, d: nat)
    requires d > 0
    ensures Whole(n / 256, d) == Whole(n, 256 * d)
  {
    var q, x := n / 256, Whole(n / 256, d);
    assert q == x * d + q % d;
    assert x * (256 * d) == 256 * (x * d);
    WholeIs(n, 256 * d, x);
  }

  lemma WholeIs(n: nat, d: nat, x: nat)
    requires d > 0 && x * d <= n < x * d + d
    ensures Whole(n, d) == x
  {
    var w := n / d;
    assert n == w * d + n % d;
    Multiples(w, x, d);
    Multiples(x, w, d);
  }

  // ----- Multiples -----

  lemma {:induction false} Scale(a: nat, b: nat, size: nat)
    requires a <= b
    ensures a * size <= b * size
    decreases b - a
  {
    if a < b {
      Scale(a + 1, b, size);
      assert (a + 1) * size == a * size + size;
    }
  }

  lemma Multiples(a: nat, b: nat, size: nat)
    ensures a < b ==> a * size + size <= b * size
  {
    if a < b {
      Scale(a + 1, b, size);
      assert (a + 1) * size == a * size + size;
    }
  }
}
