/**
 * Bytes, endianness and the fixed-width integer stores used by the
 * Merkle-Damgard engine: `store_be` / `store_le` for the length counter and
 * the per-word digest serialisation.
 */
module ByteOrder {

  type byte = x: int | 0 <= x < 256

  /** MD_Endian: which end of a word (or of the pad byte) comes first. */
  datatype Endian = Little | Big

  /** 2^64: the modulus of the engine's `uint64_t` byte counter. */
  const U64: nat := 0x1_0000_0000_0000_0000

  function Pow256(n: nat): (r: nat)
    ensures r >= 1
  {
    if n == 0 then 1 else 256 * Pow256(n - 1)
  }

  /** `n` zero bytes. */
  function Zeros(n: nat): (r: seq<byte>)
    ensures |r| == n
    ensures forall i :: 0 <= i < n ==> r[i] == 0
  {
    seq(n, _ => 0)
  }

  /** The low `n` bytes of `x`, most significant byte first. */
  function StoreBE(x: nat, n: nat): (r: seq<byte>)
    ensures |r| == n
  {
    if n == 0 then [] else StoreBE(x / 256, n - 1) + [x % 256]
  }

  /** The low `n` bytes of `x`, least significant byte first. */
  function StoreLE(x: nat, n: nat): (r: seq<byte>)
    ensures |r| == n
  {
    if n == 0 then [] else [x % 256] + StoreLE(x / 256, n - 1)
  }

  /** The number whose big-endian representation is `s`. */
  function LoadBE(s: seq<byte>): (r: nat)
  {
    if s == [] then 0 else LoadBE(s[..|s| - 1]) * 256 + s[|s| - 1]
  }

  /** The number whose little-endian representation is `s`. */
  function LoadLE(s: seq<byte>): (r: nat)
  {
    if s == [] then 0 else s[0] + 256 * LoadLE(s[1..])
  }

  function Store(e: Endian, x: nat, n: nat): (r: seq<byte>)
    ensures |r| == n
  {
    if e == Big then StoreBE(x, n) else StoreLE(x, n)
  }

  function Load(e: Endian, s: seq<byte>): (r: nat)
  {
    if e == Big then LoadBE(s) else LoadLE(s)
  }

  function Reverse(s: seq<byte>): (r: seq<byte>)
    ensures |r| == |s|
  {
    if s == [] then [] else Reverse(s[1..]) + [s[0]]
  }

  /** Splitting a number at its lowest byte. */
  lemma DivModStep(x: nat, p: nat)
    requires p >= 1
    ensures x % (256 * p) == (x / 256) % p * 256 + x % 256
  {
    var q, r := x / 256, x % 256;
    var a, b := q / p, q % p;
    assert q == a * p + b;
    assert x == (256 * p) * a + (b * 256 + r) by {
      assert x == 256 * q + r;
      assert 256 * q == 256 * (a * p) + 256 * b;
      assert 256 * (a * p) == (256 * p) * a;
    }
    assert 0 <= b * 256 + r < 256 * p by {
      assert b <= p - 1;
      assert b * 256 <= (p - 1) * 256;
    }
    ModUnique(x, 256 * p, a, b * 256 + r);
  }

  lemma ModUnique(x: int, m: int, k: int, r: int)
    requires m > 0 && 0 <= r < m && x == k * m + r
    ensures x % m == r && x / m == k
  {
    var q, s := x / m, x % m;
    var d := k - q;
    assert d * m == s - r by {
      assert k * m - q * m == d * m;
    }
    if d >= 1 {
      MulAtLeast(d, m);
    }
  }

  lemma MulAtLeast(d: int, m: int)
    requires d >= 1 && m > 0
    ensures d * m >= m
  {
  }

  /** store_be keeps exactly the low `n` bytes: loading them back gives x mod 256^n. */
  lemma {:induction false} LoadStoreBE(x: nat, n: nat)
    ensures LoadBE(StoreBE(x, n)) == x % Pow256(n)
  {
    if n > 0 {
      var s := StoreBE(x, n);
      assert s[..|s| - 1] == StoreBE(x / 256, n - 1);
      LoadStoreBE(x / 256, n - 1);
      DivModStep(x, Pow256(n - 1));
    }
  }

  /** store_le keeps exactly the low `n` bytes: loading them back gives x mod 256^n. */
  lemma {:induction false} LoadStoreLE(x: nat, n: nat)
    ensures LoadLE(StoreLE(x, n)) == x % Pow256(n)
  {
    if n > 0 {
      var s := StoreLE(x, n);
      assert s[1..] == StoreLE(x / 256, n - 1);
      LoadStoreLE(x / 256, n - 1);
      DivModStep(x, Pow256(n - 1));
    }
  }

  /** An n-byte big-endian representation denotes a number below 256^n. */
  lemma {:induction false} LoadBEBound(s: seq<byte>)
    ensures LoadBE(s) < Pow256(|s|)
  {
    if s != [] {
      LoadBEBound(s[..|s| - 1]);
      assert LoadBE(s) <= (Pow256(|s| - 1) - 1) * 256 + 255;
    }
  }

  /** An n-byte little-endian representation denotes a number below 256^n. */
  lemma {:induction false} LoadLEBound(s: seq<byte>)
    ensures LoadLE(s) < Pow256(|s|)
  {
    if s != [] {
      LoadLEBound(s[1..]);
      assert LoadLE(s) <= 255 + 256 * (Pow256(|s| - 1) - 1);
    }
  }

  /** Every byte string is the big-endian store of the number it denotes. */
  lemma {:induction false} StoreLoadBE(s: seq<byte>)
    ensures StoreBE(LoadBE(s), |s|) == s
  {
    if s != [] {
      var init, last := s[..|s| - 1], s[|s| - 1];
      var x := LoadBE(s);
      ModUnique(x, 256, LoadBE(init), last);
      StoreLoadBE(init);
      assert s == init + [last];
    }
  }

  /** Every byte string is the little-endian store of the number it denotes. */
  lemma {:induction false} StoreLoadLE(s: seq<byte>)
    ensures StoreLE(LoadLE(s), |s|) == s
  {
    if s != [] {
      var x := LoadLE(s);
      ModUnique(x, 256, LoadLE(s[1..]), s[0]);
      StoreLoadLE(s[1..]);
      assert s == [s[0]] + s[1..];
    }
  }

  /** Round trip through either byte order. */
  lemma LoadStore(e: Endian, x: nat, n: nat)
    ensures Load(e, Store(e, x, n)) == x % Pow256(n)
  {
    if e == Big { LoadStoreBE(x, n); } else { LoadStoreLE(x, n); }
  }

  /** Little-endian order is big-endian order read backwards. */
  lemma {:induction false} StoreLEIsReversedBE(x: nat, n: nat)
    ensures StoreLE(x, n) == Reverse(StoreBE(x, n))
  {
    if n > 0 {
      StoreLEIsReversedBE(x / 256, n - 1);
      ReverseAppend(StoreBE(x / 256, n - 1), [x % 256]);
    }
  }

  lemma {:induction false} ReverseAppend(a: seq<byte>, b: seq<byte>)
    ensures Reverse(a + b) == Reverse(b) + Reverse(a)
  {
    if a == [] {
      assert a + b == b;
    } else {
      assert (a + b)[1..] == a[1..] + b;
      ReverseAppend(a[1..], b);
    }
  }

  /** 256^8 is the modulus of a uint64_t. */
  lemma Pow256Eight()
    ensures Pow256(8) == U64
  {
  }
}
