/** Fixed-width unsigned integers and their little-endian byte encoding,
    as Rust's `to_le_bytes` / `from_le_bytes` provide them. */
module LittleEndian {

  /** A `u8`. */
  type Byte = x: int | 0 <= x < 0x100
  /** A `u32`. */
  type U32 = x: int | 0 <= x < 0x1_0000_0000
  /** A `u64`. */
  type U64 = x: int | 0 <= x < 0x1_0000_0000_0000_0000

  /** 256^n: the number of values an n-byte unsigned integer can hold. */
  function Pow256(n: nat): (p: nat)
    ensures p > 0
  {
    if n == 0 then 1 else 0x100 * Pow256(n - 1)
  }

  lemma WidthsArePowers()
    ensures Pow256(4) == 0x1_0000_0000
    ensures Pow256(8) == 0x1_0000_0000_0000_0000
  {
  }

  /** `x.to_le_bytes()` for an n-byte unsigned integer x: least significant byte first. */
  function ToLe(x: nat, n: nat): (s: seq<Byte>)
    requires x < Pow256(n)
    ensures |s| == n
  {
    if n == 0 then [] else [x % 0x100] + ToLe(x / 0x100, n - 1)
  }

  /** `from_le_bytes(s)`: the unsigned integer whose little-endian bytes are s. */
  function FromLe(s: seq<Byte>): (x: nat)
    ensures x < Pow256(|s|)
  {
    if s == [] then 0
    else
      var rest := FromLe(s[1..]);
      assert rest <= Pow256(|s| - 1) - 1;
      assert 0x100 * rest <= 0x100 * Pow256(|s| - 1) - 0x100;
      s[0] + 0x100 * rest
  }

  /** Decoding what was encoded gives back the value. */
  lemma {:induction false} FromLeToLe(x: nat, n: nat)
    requires x < Pow256(n)
    ensures FromLe(ToLe(x, n)) == x
  {
    if n > 0 {
      var s := ToLe(x, n);
      assert s[1..] == ToLe(x / 0x100, n - 1);
      FromLeToLe(x / 0x100, n - 1);
    }
  }

  /** Encoding what was decoded gives back the bytes: every byte pattern is accepted. */
  lemma {:induction false} ToLeFromLe(s: seq<Byte>)
    ensures ToLe(FromLe(s), |s|) == s
  {
    if s != [] {
      var x := FromLe(s);
      assert x == s[0] + 0x100 * FromLe(s[1..]);
      assert x % 0x100 == s[0];
      assert x / 0x100 == FromLe(s[1..]);
      ToLeFromLe(s[1..]);
    }
  }

  /** Byte k of the little-endian encoding is digit k of x in base 256. */
  lemma {:induction false} ToLeAt(x: nat, n: nat, k: nat)
    requires x < Pow256(n) && k < n
    ensures ToLe(x, n)[k] == (x / Pow256(k)) % 0x100
  {
    if k > 0 {
      ToLeAt(x / 0x100, n - 1, k - 1);
      DivDiv256(x, Pow256(k - 1));
    }
  }

  lemma DivDiv256(x: nat, p: nat)
    requires p > 0
    ensures x / 0x100 / p == x / (0x100 * p)
  {
    var m := 0x100 * p;
    var q, r := x / m, x % m;
    assert x == m * q + r && r < m;
    var r2, r1 := r / 0x100, r % 0x100;
    assert r == 0x100 * r2 + r1 && r1 < 0x100;
    assert r2 < p;
    assert m * q == 0x100 * (p * q);
    DivUnique(x, 0x100, p * q + r2, r1);
    DivUnique(p * q + r2, p, q, r2);
  }

  lemma MulMono(a: nat, b: nat, c: nat)
    requires b <= c
    ensures a * b <= a * c
  {
  }

  lemma DivUnique(x: nat, a: nat, q: nat, r: nat)
    requires 0 <= r < a && x == a * q + r
    ensures x / a == q
  {
    var q', r' := x / a, x % a;
    assert x == a * q' + r' && 0 <= r' < a;
    if q' < q {
      MulMono(a, q' + 1, q);
      MulAddOne(a, q');
    } else if q < q' {
      MulMono(a, q + 1, q');
      MulAddOne(a, q);
    }
  }

  lemma MulAddOne(a: int, q: int)
    ensures a * (q + 1) == a * q + a
  {
  }
}
