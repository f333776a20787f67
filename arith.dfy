/** Small facts of nonlinear integer arithmetic that the solver needs spelled out. */
module Arith {

  lemma MulNonneg(a: int, b: int)
    requires 0 <= a && 0 <= b
    ensures 0 <= a * b
  {
  }

  lemma MulMono(a: int, b: int, k: int)
    requires 0 <= a <= b && k >= 0
    ensures a * k <= b * k && 0 <= a * k
  {
    MulNonneg(b - a, k);
    MulNonneg(a, k);
    assert b * k == a * k + (b - a) * k;
  }

  lemma MulGap(a: int, b: int, d: int)
    requires a < b && d > 0
    ensures b * d - a * d >= d
  {
    var k := b - a - 1;
    MulNonneg(k, d);
    assert b * d == (a + 1 + k) * d;
    assert (a + 1 + k) * d == a * d + d + k * d;
  }

  /** Quotient and remainder are determined by `n == q * d + r` with `0 <= r < d`. */
  lemma DivModUnique(n: int, d: int, q: int, r: int)
    requires d > 0 && 0 <= r < d && n == q * d + r
    ensures n / d == q && n % d == r
  {
    var q' := n / d;
    if q' < q {
      MulGap(q', q, d);
    } else if q' > q {
      MulGap(q, q', d);
    }
  }

  lemma DivLe(x: int, d: int)
    requires 0 <= x && d > 0
    ensures 0 <= x / d <= x
  {
    var q := x / d;
    if q > x {
      MulMono(1, d, q);
    }
  }

  /** Sums and differences of multiples of `d` are multiples of `d`. */
  lemma AddAligned(a: int, b: int, d: int)
    requires d > 0 && a % d == 0 && b % d == 0
    ensures (a + b) % d == 0 && (a - b) % d == 0
  {
    var x, y := a / d, b / d;
    assert a == x * d && b == y * d;
    assert a + b == (x + y) * d;
    assert a - b == (x - y) * d;
    DivModUnique(a + b, d, x + y, 0);
    DivModUnique(a - b, d, x - y, 0);
  }

  lemma ScaleAligned(k: int, b: int, d: int)
    requires d > 0 && b % d == 0
    ensures (k * b) % d == 0
  {
    var y := b / d;
    assert b == y * d;
    assert k * b == (k * y) * d;
    DivModUnique(k * b, d, k * y, 0);
  }

  /** Two distinct multiples of `d` are at least `d` apart. */
  lemma AlignedGap(a: int, b: int, d: int)
    requires d > 0 && a % d == 0 && b % d == 0 && a > b
    ensures (a - b) % d == 0 && a - b >= d && a / d > b / d
  {
    AddAligned(a, b, d);
    var x, y := a / d, b / d;
    assert a == x * d && b == y * d;
    if x <= y {
      MulMono(x, y, d);
    }
    MulGap(y, x, d);
  }

  lemma MulAtLeast(w: int, k: int)
    requires w >= 0 && k >= 1
    ensures w * k >= w
  {
    MulMono(1, k, w);
  }

  /** One more step of `d` adds one to the quotient. */
  lemma DivStep(n: int, d: int)
    requires d > 0 && n >= d
    ensures n / d == (n - d) / d + 1
  {
    var q, r := (n - d) / d, (n - d) % d;
    assert n - d == q * d + r;
    assert n == (q + 1) * d + r;
    DivModUnique(n, d, q + 1, r);
  }

  lemma DivSmall(n: int, d: int)
    requires 0 <= n < d
    ensures n / d == 0
  {
    DivModUnique(n, d, 0, n);
  }

  lemma MulSucc(k: int, d: int)
    ensures (k + 1) * d == k * d + d
  {
  }

  /** `n` lies in block `q` of `d` when `q * d <= n < q * d + d`. */
  lemma DivBlock(n: int, d: int, q: int)
    requires d > 0 && q * d <= n < q * d + d
    ensures n / d == q
  {
    DivModUnique(n, d, q, n - q * d);
  }

  lemma DivMono(a: int, b: int, d: int)
    requires 0 <= a <= b && d > 0
    ensures a / d <= b / d
  {
    if a / d > b / d {
      MulGap(b / d, a / d, d);
    }
  }

  /** Adding `m` whole units of `d` adds `m` to the quotient. */
  lemma DivAddMultiple(a: int, m: int, d: int)
    requires 0 <= a && 0 <= m && d > 0
    ensures (a + m * d) / d == a / d + m
  {
    DivModUnique(a + m * d, d, a / d + m, a % d);
  }

  /**
   * Chunk `c + w` of a round-robin layout of `w` members lies in the same
   * member as chunk `c`, one member chunk further: its block is `m` blocks
   * past that of byte `o` of chunk `c`, when `o + m * d` is one chunk.
   */
  lemma RoundRobinNext(c: int, w: int, b: int, chunk: int, o: int, m: int, d: int)
    requires c >= 0 && w >= 1 && b >= 0 && chunk > 0 && d > 0 && o >= 0 && m >= 0
    requires o + m * d == chunk
    ensures ((c + w) % w) * b + ((c + w) / w) * chunk + 0 >= 0
    ensures (((c + w) % w) * b + ((c + w) / w) * chunk + 0) / d
         == ((c % w) * b + (c / w) * chunk + o) / d + m
  {
    assert c + w == (c / w + 1) * w + c % w;
    DivModUnique(c + w, w, c / w + 1, c % w);
    MulNonneg(c % w, b);
    MulNonneg(c / w, chunk);
    var num := (c % w) * b + (c / w) * chunk + o;
    assert (c / w + 1) * chunk == (c / w) * chunk + chunk;
    DivAddMultiple(num, m, d);
  }

  /** `(x + y - 1) / y` blocks of `y` cover `x`, and one fewer would not. */
  lemma CeilBounds(x: int, y: int)
    requires x >= 0 && y > 0
    ensures ((x + y - 1) / y) * y >= x
    ensures (x + y - 1) / y == 0 || ((x + y - 1) / y - 1) * y < x
  {
    var n := x + y - 1;
    var q := n / y;
    assert q * y + n % y == n;
    assert (q - 1) * y == q * y - y;
  }

  /** A nonempty multiple of `d` of at most `k` units is `n / d` whole units. */
  lemma WholeUnits(n: int, d: int, k: int)
    requires d > 0
    ensures n % d == 0 && d <= n <= k * d ==> 1 <= n / d <= k && (n / d) * d == n
  {
    if n % d == 0 && d <= n <= k * d {
      var q := n / d;
      assert q * d == n;
      if q < 1 {
        MulMono(q, 0, d);
      }
      if q > k {
        MulGap(k, q, d);
      }
    }
  }

  lemma SmallDivMod(n: int, d: int)
    requires 0 <= n && d > 0
    ensures n < d ==> n / d == 0 && n % d == n
  {
    if n < d {
      DivModUnique(n, d, 0, n);
    }
  }

  /** Reducing modulo `d` changes a number by a multiple of `d`. */
  lemma ModDiff(p: int, d: int)
    requires d > 0
    ensures (p % d - p) % d == 0
  {
    DivModUnique(p % d - p, d, -(p / d), 0);
  }

  lemma MulDistrib(a: int, b: int, c: int)
    ensures a * c + b * c == (a + b) * c
  {
  }
}
