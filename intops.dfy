/** Integer helpers for the C++ operators the rasteriser relies on, and the
    row-major index arithmetic that replaces its pixel pointers. */
module IntOps {

  function Min(a: int, b: int): int { if a <= b then a else b }

  function Max(a: int, b: int): int { if a >= b then a else b }

  function Abs(a: int): nat { if a < 0 then -a else a }

  /** The `v < 0 ? -1 : 1` step direction of the line rasteriser. */
  function Sign(v: int): int { if v < 0 then -1 else 1 }

  /** C++ `/` on signed integers: the quotient is truncated toward zero
      (Dafny's own `/` is Euclidean). */
  function TruncDiv(n: int, d: int): (q: int)
    requires d != 0
    ensures Abs(q) == Abs(n) / Abs(d)
    ensures (n >= 0) == (d > 0) ==> q >= 0
    ensures (n >= 0) != (d > 0) ==> q <= 0
  {
    var m := Abs(n) / Abs(d);
    DivBounds(Abs(n), Abs(d));
    assert m >= 0 by {
      if m < 0 { MulAtLeast(-m, Abs(d)); }
    }
    if (n < 0) == (d < 0) then m else -m
  }

  lemma DivBounds(a: int, b: int)
    requires b > 0
    ensures (a / b) * b <= a < (a / b) * b + b
  {
  }

  /** `v >> 16` on a signed value: an arithmetic shift, i.e. division by
      65536 rounded toward minus infinity. */
  function Asr16(v: int): (r: int)
    ensures r * 65536 <= v < r * 65536 + 65536
  {
    v / 65536
  }

  /** Index of pixel (x, y) in a row-major buffer with `w` pixels per row
      (the source's `frame_buffer + x + y * bounds.w`). */
  function Idx(w: int, x: int, y: int): int { x + y * w }

  lemma MulAtLeast(k: int, w: int)
    requires k >= 1 && w >= 0
    ensures k * w >= w
  {
    assert k * w == (k - 1) * w + w;
  }

  lemma MulMono(a: int, b: int, c: int)
    requires a <= b && c >= 0
    ensures a * c <= b * c
  {
    if a < b { MulAtLeast(b - a, c); assert (b - a) * c == b * c - a * c; }
  }

  lemma IdxInRange(w: int, h: int, x: int, y: int)
    requires 0 <= x < w && 0 <= y < h
    ensures 0 <= Idx(w, x, y) < w * h
  {
    MulAtLeast(h - y, w);
    assert (h - y) * w == h * w - y * w;
  }

  /** Distinct cells of the canvas have distinct buffer indices. */
  lemma IdxInjective(w: int)
    ensures forall x, y, x2, y2 {:trigger Idx(w, x, y), Idx(w, x2, y2)} ::
      0 <= x < w && 0 <= x2 < w && Idx(w, x, y) == Idx(w, x2, y2) ==> x == x2 && y == y2
  {
    forall x, y, x2, y2 | 0 <= x < w && 0 <= x2 < w && Idx(w, x, y) == Idx(w, x2, y2)
      ensures x == x2 && y == y2
    {
      assert x - x2 == (y2 - y) * w;
      if y2 > y {
        MulAtLeast(y2 - y, w);
      } else if y > y2 {
        MulAtLeast(y - y2, w);
      }
    }
  }

  /** A block of `s` cells starting at `c * s` holds exactly the offsets whose
      floor quotient by `s` is `c`: the basis of nearest-neighbour scaling. */
  lemma BlockDiv(d: int, c: int, s: int)
    requires s > 0
    ensures (c * s <= d < c * s + s) <==> d / s == c
  {
    var q := d / s;
    assert q * s <= d < q * s + s;
    if q > c {
      MulAtLeast(q - c, s);
      assert (q - c) * s == q * s - c * s;
    } else if q < c {
      MulAtLeast(c - q, s);
      assert (c - q) * s == c * s - q * s;
    }
  }

  /** Counting one more bit: how `k % 8`, `k / 8` and the rounded-up byte
      count `(k + 7) / 8` move, and that a `uint8_t` counter keeps the low
      three bits of `k`. */
  lemma BitCount(k: int)
    requires k >= 0
    ensures (k % 256) % 8 == k % 8
    ensures (k + 1) % 256 == (k % 256 + 1) % 256
    ensures k % 8 == 0 ==> (k + 7) / 8 == k / 8 && (k + 8) / 8 == k / 8 + 1
    ensures k % 8 != 0 ==> (k + 7) / 8 == k / 8 + 1 && (k + 8) / 8 == k / 8 + 1
    ensures k % 8 != 7 ==> (k + 1) % 8 == k % 8 + 1 && (k + 1) / 8 == k / 8
    ensures k % 8 == 7 ==> (k + 1) % 8 == 0
  {
    var q8, r8 := k / 8, k % 8;
    assert k == 8 * q8 + r8 && 0 <= r8 < 8;
    var q := k / 256;
    assert k % 256 == 8 * (q8 - 32 * q) + r8;
    BlockDiv(k % 256, q8 - 32 * q, 8);
    ModAdd(k, 1, 256);
    BlockDiv(k + 8, q8 + 1, 8);
    if r8 == 0 {
      BlockDiv(k + 7, q8, 8);
    } else {
      BlockDiv(k + 7, q8 + 1, 8);
    }
    if r8 != 7 {
      BlockDiv(k + 1, q8, 8);
    } else {
      BlockDiv(k + 1, q8 + 1, 8);
    }
  }

  /** A pixel before the last lies in a byte before the rounded-up count. */
  lemma ByteOfPixel(k: int, n: int)
    requires 0 <= k < n
    ensures k / 8 < (n + 7) / 8
  {
    assert k / 8 <= (n - 1) / 8 by {
      var a, b := k / 8, (n - 1) / 8;
      assert 8 * a <= k && n - 1 < 8 * b + 8;
      if a > b { MulMono(b + 1, a, 8); }
    }
    assert (n + 7) / 8 == (n - 1) / 8 + 1;
  }

  /** Reducing a running sum after every addition gives the reduced total. */
  lemma ModAdd(a: int, b: int, m: int)
    requires m > 0
    ensures (a % m + b) % m == (a + b) % m
  {
    var q, x := a / m, a % m + b;
    var c := x / m;
    BlockDiv(x, c, m);
    assert a == q * m + a % m;
    assert (c + q) * m == c * m + q * m;
    BlockDiv(a + b, c + q, m);
    assert (a + b) / m == c + q;
    assert x % m == x - c * m;
    assert (a + b) % m == (a + b) - (c + q) * m;
  }
}
