/** The product-detail image gallery: which image is selected, stepping with
    wrap-around, and the "k / n" counter shown over the main image. */
module Gallery {

  /** The product page shows a fixed product with four images. */
  const ProductImageCount: nat := 4

  /** `nextImage`: one step forward, wrapping from the last image to the first. */
  function NextIndex(i: int, n: int): (r: int)
    requires 0 <= i < n
    ensures 0 <= r < n
    ensures i < n - 1 ==> r == i + 1
    ensures i == n - 1 ==> r == 0
  {
    (i + 1) % n
  }

  /** `prevImage`: one step back, wrapping from the first image to the last. */
  function PrevIndex(i: int, n: int): (r: int)
    requires 0 <= i < n
    ensures 0 <= r < n
    ensures i > 0 ==> r == i - 1
    ensures i == 0 ==> r == n - 1
  {
    (i - 1 + n) % n
  }

  /** Stepping back undoes stepping forward, and vice versa. */
  lemma PrevUndoesNext(i: int, n: int)
    requires 0 <= i < n
    ensures PrevIndex(NextIndex(i, n), n) == i
    ensures NextIndex(PrevIndex(i, n), n) == i
  {
  }

  /** The index after `k` successive `nextImage` calls. */
  function NextTimes(i: int, n: int, k: nat): (r: int)
    requires 0 <= i < n
    ensures 0 <= r < n
  {
    if k == 0 then i else NextIndex(NextTimes(i, n, k - 1), n)
  }

  lemma MulAtLeast(d: int, n: int)
    requires d >= 1 && n > 0
    ensures d * n >= n
  {
  }

  /** Euclidean remainder is determined by any quotient/remainder split. */
  lemma ModUnique(a: int, n: int, q: int, r: int)
    requires n > 0 && 0 <= r < n && a == q * n + r
    ensures a % n == r
  {
    var q0, r0 := a / n, a % n;
    var d := q - q0;
    assert d * n == r0 - r by {
      assert q * n - q0 * n == (q - q0) * n;
    }
    if d >= 1 {
      MulAtLeast(d, n);
    } else if d <= -1 {
      MulAtLeast(-d, n);
    }
  }

  lemma ModStep(a: int, n: int)
    requires n > 0 && a >= 0
    ensures (a % n + 1) % n == (a + 1) % n
  {
    var q, r := a / n, a % n;
    if r + 1 == n {
      ModUnique(r + 1, n, 1, 0);
      ModUnique(a + 1, n, q + 1, 0);
    } else {
      ModUnique(r + 1, n, 0, r + 1);
      ModUnique(a + 1, n, q, r + 1);
    }
  }

  /** `k` forward steps move the selection by `k` modulo the image count. */
  lemma {:induction false} NextTimesIsShift(i: int, n: int, k: nat)
    requires 0 <= i < n
    ensures NextTimes(i, n, k) == (i + k) % n
  {
    if k > 0 {
      NextTimesIsShift(i, n, k - 1);
      ModStep(i + k - 1, n);
    }
  }

  /** `n` forward steps return to the starting image. */
  lemma NextCycles(i: int, n: int)
    requires 0 <= i < n
    ensures NextTimes(i, n, n) == i
  {
    NextTimesIsShift(i, n, n);
    ModUnique(i + n, n, 1, i);
  }

  /** The image counter reads "position / count", position being 1-based. */
  function CounterText(i: int, n: int): (r: (int, int))
    requires 0 <= i < n
    ensures 1 <= r.0 <= n && r.1 == n
    ensures r.0 - 1 == i
  {
    (i + 1, n)
  }
}
