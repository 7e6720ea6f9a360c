/** Circular ROB tags against unbounded sequence numbers. A tag is a sequence
    number modulo `span`; the live numbers of one thread fit in one window. */
module Tags {

  lemma MulAtLeast(d: int, m: int)
    requires m > 0
    ensures d >= 1 ==> d * m >= m
    ensures d <= -1 ==> d * m <= -m
  {
  }

  lemma ModUnique(x: int, q: int, r: int, m: int)
    requires m > 0 && x == q * m + r && 0 <= r < m
    ensures x % m == r
  {
    MulAtLeast(x / m - q, m);
  }

  lemma DivModIs(x: nat, q: nat, r: nat, n: nat)
    requires r < n && x == q * n + r
    ensures x / n == q && x % n == r
  {
    ModUnique(x, q, r, n);
    MulAtLeast(x / n - q, n);
    assert (x / n - q) * n == 0;
  }

  /** One field of a number between its coarser and its finer truncation. */
  lemma Telescope(x: nat, lo: nat, size: nat)
    requires lo > 0 && size > 0
    ensures lo * size > 0
    ensures x / (lo * size) == x / lo / size
    ensures x / lo * lo == x / (lo * size) * (lo * size) + x / lo % size * lo
  {
    Division(x, lo);
    var q := x / lo;
    Division(q, size);
    var r, s := q / size, q % size;
    FieldBound(s, size, x % lo, lo);
    Regrouped(r, size, s, lo);
    DivModIs(x, r, s * lo + x % lo, lo * size);
  }

  lemma Division(x: nat, d: nat)
    requires d > 0
    ensures x / d >= 0 && 0 <= x % d < d && x == x / d * d + x % d
  {
  }

  lemma FieldBound(s: nat, size: nat, low: nat, lo: nat)
    requires s < size && low < lo
    ensures 0 <= s * lo && s * lo + low < lo * size
  {
    assert (size - s) * lo == lo * size - s * lo;
    MulAtLeast(size - s, lo);
  }

  lemma Regrouped(r: int, size: int, s: int, lo: int)
    ensures (r * size + s) * lo == r * (lo * size) + s * lo
  {
  }

  lemma MulMono(a: int, b: int, d: nat)
    ensures a <= b ==> a * d <= b * d
  {
    assert b * d == a * d + (b - a) * d;
  }

  /** Inside one window a tag names one sequence number. */
  lemma TagIsUnique(x: nat, y: nat, head: nat, span: nat)
    requires span > 0 && head <= x < head + span && head <= y < head + span
    requires x % span == y % span
    ensures x == y
  {
    var d := x / span - y / span;
    assert x - y == d * span;
    MulAtLeast(d, span);
  }

  /** The wrapped tag difference is the true distance from the head. */
  lemma TagAge(x: nat, head: nat, span: nat)
    requires span > 0 && head <= x < head + span
    ensures (x % span - head % span) % span == x - head
  {
    var q := x / span - head / span;
    var diff := x % span - head % span;
    assert diff == (-q) * span + (x - head);
    ModUnique(diff, -q, x - head, span);
  }
}
