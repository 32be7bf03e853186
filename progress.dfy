/** The progress value the downloader reports after each non-empty chunk:
    `int(((index + received / total) / count) * 100)`, the share of whole
    files already behind plus the share of the current file, as a
    percentage. Modelled as the exact integer floor. */
module Progress {

  /** Progress while file `index` of `count` has `received` of `total` bytes. */
  function Percent(index: nat, received: nat, total: int, count: nat): (p: int)
    requires total > 0 && count > 0
    ensures p >= 0
  {
    (100 * (index * total + received)) / (count * total)
  }

  /** Progress at the start of file `index`: the share of whole files behind. */
  function FilesBehind(index: nat, count: nat): (p: int)
    requires count > 0
    ensures p >= 0
  {
    (100 * index) / count
  }

  // ---------------------------------------------------------------------------
  // Integer division facts

  lemma DivMonotone(a: int, b: int, c: int)
    requires 0 <= a <= b && c > 0
    ensures a / c <= b / c
  {
    if a / c > b / c {
      assert c * (a / c) >= c * (b / c + 1) by {
        MulMonotone(c, b / c + 1, a / c);
      }
      assert false;
    }
  }

  lemma MulMonotone(c: int, x: int, y: int)
    requires c >= 0 && x <= y
    ensures c * x <= c * y
  {
    assert c * y - c * x == c * (y - x);
  }

  /** Scaling numerator and denominator by the same positive factor. */
  lemma DivCancel(a: int, c: int, t: int)
    requires a >= 0 && c > 0 && t > 0
    ensures (a * t) / (c * t) == a / c
  {
    var q, r := a / c, a % c;
    assert a == c * q + r && 0 <= r < c;
    assert a * t == (c * t) * q + r * t by {
      assert a * t == (c * q + r) * t;
    }
    assert 0 <= r * t < c * t by {
      MulMonotone(t, r, c - 1);
      assert t * (c - 1) == c * t - t;
    }
    DivUnique(a * t, c * t, q, r * t);
  }

  lemma DivUnique(n: int, d: int, q: int, r: int)
    requires d > 0 && n == d * q + r && 0 <= r < d
    ensures n / d == q
  {
    var q', r' := n / d, n % d;
    assert n == d * q' + r' && 0 <= r' < d;
    if q' < q {
      MulMonotone(d, q' + 1, q);
      assert false;
    } else if q' > q {
      MulMonotone(d, q + 1, q');
      assert false;
    }
  }

  // ---------------------------------------------------------------------------
  // Properties of the reported value

  /** Within one file, progress does not go down as bytes arrive. */
  lemma PercentMonotone(index: nat, received: nat, more: nat, total: int, count: nat)
    requires total > 0 && count > 0 && received <= more
    ensures Percent(index, received, total, count) <= Percent(index, more, total, count)
  {
    DivMonotone(100 * (index * total + received), 100 * (index * total + more), count * total);
  }

  /** Before any byte of file `index`, progress is the share of whole files behind. */
  lemma PercentAtStart(index: nat, total: int, count: nat)
    requires total > 0 && count > 0
    ensures Percent(index, 0, total, count) == FilesBehind(index, count)
  {
    assert 100 * (index * total + 0) == (100 * index) * total;
    DivCancel(100 * index, count, total);
  }

  /** While the bytes received stay within the declared length, progress
      inside file `index` stays at or below the share of files up to and including it. */
  lemma PercentWithinFile(index: nat, received: nat, total: int, count: nat)
    requires total > 0 && count > 0 && received <= total
    ensures Percent(index, received, total, count) <= FilesBehind(index + 1, count)
  {
    assert 100 * (index * total + received) <= (100 * (index + 1)) * total by {
      assert (100 * (index + 1)) * total == 100 * (index * total + total);
    }
    DivMonotone(100 * (index * total + received), (100 * (index + 1)) * total, count * total);
    DivCancel(100 * (index + 1), count, total);
  }

  /** Never above 100 while the bytes received stay within the declared length. */
  lemma PercentAtMost100(index: nat, received: nat, total: int, count: nat)
    requires total > 0 && count > 0 && index < count && received <= total
    ensures Percent(index, received, total, count) <= 100
  {
    PercentWithinFile(index, received, total, count);
    DivMonotone(100 * (index + 1), 100 * count, count);
    assert (100 * count) / count == 100 by {
      DivUnique(100 * count, count, 100, 0);
    }
  }

  /** The share of files behind grows with the file index. */
  lemma FilesBehindMonotone(i: nat, j: nat, count: nat)
    requires count > 0 && i <= j
    ensures FilesBehind(i, count) <= FilesBehind(j, count)
  {
    DivMonotone(100 * i, 100 * j, count);
  }

  /** The last byte of the last file reports exactly 100. */
  lemma PercentComplete(total: int, count: nat)
    requires total > 0 && count > 0
    ensures Percent(count - 1, total, total, count) == 100
  {
    assert 100 * ((count - 1) * total + total) == 100 * (count * total);
    DivUnique(100 * (count * total), count * total, 100, 0);
  }
}
