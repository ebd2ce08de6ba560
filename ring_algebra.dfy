/** Index arithmetic of the ring buffer and the sequence-level meaning of its
    operations: the Euclidean remainder that maps a logical index to a physical
    slot, the logical view that the iterators walk, and the effect of the two
    vector operations `resize` relies on (rotate_left and resize). */
module RingAlgebra {

  // ---------------------------------------------------------------------------
  // Euclidean remainder
  // ---------------------------------------------------------------------------

  lemma MulAtLeast(n: int, d: int)
    requires n > 0 && d >= 1
    ensures n * d >= n
  {}

  /** Quotient and remainder are unique: any decomposition a == n * q + r with
      0 <= r < n is the one `/` and `%` compute. */
  lemma DivModUnique(a: int, n: int, q: int, r: int)
    requires n > 0 && 0 <= r < n && a == n * q + r
    ensures a % n == r && a / n == q
  {
    var q0, r0 := a / n, a % n;
    assert a == n * q0 + r0;
    assert n * (q - q0) == r0 - r;
    if q > q0 {
      MulAtLeast(n, q - q0);
    } else if q < q0 {
      MulAtLeast(n, q0 - q);
    }
  }

  /** `a.rem_euclid(n)` for a positive modulus: a remainder in [0, n),
      whatever the sign of a (RemEuclidCongruent: congruent to a). A zero
      modulus is a division by zero in the source (it panics), hence the
      precondition. */
  function RemEuclid(a: int, n: int): (r: int)
    requires n > 0
    ensures 0 <= r < n
  {
    a % n
  }

  /** The remainder differs from its argument by a multiple of n; with the
      range of RemEuclid this determines it uniquely (RemEuclidUnique). */
  lemma RemEuclidCongruent(a: int, n: int)
    requires n > 0
    ensures (a - RemEuclid(a, n)) % n == 0
  {
    DivModUnique(a - a % n, n, a / n, 0);
  }

  /** Any r in [0, n) that differs from a by a multiple of n is RemEuclid(a, n). */
  lemma RemEuclidUnique(a: int, n: int, q: int, r: int)
    requires n > 0 && 0 <= r < n && a == n * q + r
    ensures RemEuclid(a, n) == r
  {
    DivModUnique(a, n, q, r);
  }

  /** Adding any multiple of the modulus does not change the remainder. */
  lemma RemEuclidPeriodic(a: int, k: int, n: int)
    requires n > 0
    ensures RemEuclid(a + n * k, n) == RemEuclid(a, n)
  {
    DivModUnique(a + n * k, n, a / n + k, a % n);
  }

  /** An index already in [0, n) is its own remainder. */
  lemma RemEuclidOfSlot(a: int, n: int)
    requires 0 <= a < n
    ensures RemEuclid(a, n) == a
  {
    DivModUnique(a, n, 0, a);
  }

  /** Reducing one summand first does not change the remainder of a sum. */
  lemma RemEuclidAdd(a: int, b: int, n: int)
    requires n > 0
    ensures RemEuclid(a + RemEuclid(b, n), n) == RemEuclid(a + b, n)
  {
    var q := b / n;
    assert b == n * q + b % n;
    RemEuclidPeriodic(a + RemEuclid(b, n), q, n);
    assert a + RemEuclid(b, n) + n * q == a + b;
  }

  /** For a fixed offset, logical index k in [0, n) goes to slot
      RemEuclid(offset + k, n), and slot p comes back to logical index
      RemEuclid(p - offset, n): the two maps are inverse bijections of [0, n). */
  lemma {:induction false} SlotMapInverse(offset: int, k: int, p: int, n: int)
    requires n > 0 && 0 <= k < n && 0 <= p < n
    ensures RemEuclid(RemEuclid(offset + k, n) - offset, n) == k
    ensures RemEuclid(offset + RemEuclid(p - offset, n), n) == p
  {
    RemEuclidAdd(-offset, offset + k, n);
    assert -offset + (offset + k) == k;
    RemEuclidOfSlot(k, n);
    RemEuclidAdd(offset, p - offset, n);
    assert offset + (p - offset) == p;
    RemEuclidOfSlot(p, n);
  }

  /** The slot of any integer index i lies i positions past the offset,
      modulo n. */
  lemma SlotDistance(offset: int, i: int, n: int)
    requires n > 0
    ensures RemEuclid(RemEuclid(offset + i, n) - offset, n) == RemEuclid(i, n)
  {
    var a, b := -offset, offset + i;
    RemEuclidAdd(a, b, n);
    var s := RemEuclid(b, n);
    assert a + s == s - offset;
    assert a + b == i;
  }

  /** Distinct logical indices in [0, n) use distinct slots. */
  lemma SlotsDistinct(offset: int, i: int, j: int, n: int)
    requires n > 0 && 0 <= i < n && 0 <= j < n
    ensures RemEuclid(offset + i, n) == RemEuclid(offset + j, n) <==> i == j
  {
    SlotMapInverse(offset, i, 0, n);
    SlotMapInverse(offset, j, 0, n);
  }

  // ---------------------------------------------------------------------------
  // The logical view and the vector operations
  // ---------------------------------------------------------------------------

  /** The contents in logical order: position k holds the element in slot
      RemEuclid(offset + k, |elements|). */
  function View<T>(elements: seq<T>, offset: int): (v: seq<T>)
    ensures |v| == |elements|
  {
    seq(|elements|, k requires 0 <= k < |elements| => elements[RemEuclid(offset + k, |elements|)])
  }

  /** `slice::rotate_left(mid)`: the element at `mid` moves to the front. */
  function RotateLeft<T>(s: seq<T>, mid: nat): (r: seq<T>)
    requires mid <= |s|
    ensures |r| == |s|
    ensures r[..|s| - mid] == s[mid..] && r[|s| - mid..] == s[..mid]
  {
    s[mid..] + s[..mid]
  }

  /** `Vec::resize(n, d)`: truncate to n elements, or pad with copies of d. */
  function Resized<T>(s: seq<T>, n: nat, d: T): (r: seq<T>)
    ensures |r| == n
    ensures forall k :: 0 <= k < n && k < |s| ==> r[k] == s[k]
    ensures forall k :: |s| <= k < n ==> r[k] == d
  {
    if n <= |s| then s[..n] else s + seq(n - |s|, _ => d)
  }

  /** Rotating left by mid reads the original at index RemEuclid(mid + j). */
  lemma RotateLeftAt<T>(s: seq<T>, mid: nat, j: int)
    requires mid <= |s| && 0 <= j < |s|
    ensures RotateLeft(s, mid)[j] == s[RemEuclid(mid + j, |s|)]
  {
    var n := |s|;
    if mid + j < n {
      RemEuclidOfSlot(mid + j, n);
    } else {
      RemEuclidOfSlot(mid + j - n, n);
      RemEuclidPeriodic(mid + j - n, 1, n);
    }
  }

  /** Indexing with any integer i reads the logical view at RemEuclid(i, n):
      out-of-range and negative indices wrap onto [0, n). */
  lemma ViewAt<T>(elements: seq<T>, offset: int, i: int)
    requires |elements| > 0
    ensures elements[RemEuclid(offset + i, |elements|)] == View(elements, offset)[RemEuclid(i, |elements|)]
  {
    RemEuclidAdd(offset, i, |elements|);
  }

  /** With offset 0 the logical view is the storage itself. */
  lemma ViewUnrotated<T>(elements: seq<T>)
    ensures View(elements, 0) == elements
  {
    forall k | 0 <= k < |elements|
      ensures View(elements, 0)[k] == elements[k]
    {
      RemEuclidOfSlot(k, |elements|);
    }
  }

  /** The logical view is the storage rotated left by the reduced offset; this
      is why `resize` linearises the contents with rotate_left. */
  lemma ViewIsRotateLeft<T>(elements: seq<T>, offset: int)
    requires |elements| > 0
    ensures View(elements, offset) == RotateLeft(elements, RemEuclid(offset, |elements|))
  {
    var n := |elements|;
    forall k | 0 <= k < n
      ensures View(elements, offset)[k] == RotateLeft(elements, RemEuclid(offset, n))[k]
    {
      RotateLeftAt(elements, RemEuclid(offset, n), k);
      RemEuclidAdd(k, offset, n);
      assert k + RemEuclid(offset, n) == RemEuclid(offset, n) + k;
      assert k + offset == offset + k;
    }
  }

  /** Adding delta to the offset rotates the logical view left by
      RemEuclid(delta, n): what was at logical index delta is now at 0. */
  lemma ViewRotate<T>(elements: seq<T>, offset: int, delta: int)
    requires |elements| > 0
    ensures View(elements, offset + delta) == RotateLeft(View(elements, offset), RemEuclid(delta, |elements|))
  {
    var n := |elements|;
    var m := RemEuclid(delta, n);
    var v := View(elements, offset);
    forall j | 0 <= j < n
      ensures View(elements, offset + delta)[j] == RotateLeft(v, m)[j]
    {
      RotateLeftAt(v, m, j);
      RemEuclidAdd(offset, m + j, n);
      RemEuclidAdd(offset + j, delta, n);
      assert offset + (m + j) == (offset + j) + m;
      assert (offset + j) + delta == offset + delta + j;
    }
  }

  /** Writing slot RemEuclid(offset + i) changes exactly logical position
      RemEuclid(i) of the view, and no other. */
  lemma ViewUpdate<T>(elements: seq<T>, offset: int, i: int, x: T)
    requires |elements| > 0
    ensures View(elements[RemEuclid(offset + i, |elements|) := x], offset)
         == View(elements, offset)[RemEuclid(i, |elements|) := x]
  {
    var n := |elements|;
    var slot := RemEuclid(offset + i, n);
    var ri := RemEuclid(i, n);
    RemEuclidAdd(offset, i, n);
    var after := View(elements[slot := x], offset);
    var expected := View(elements, offset)[ri := x];
    forall j | 0 <= j < n
      ensures after[j] == expected[j]
    {
      SlotsDistinct(offset, j, ri, n);
    }
  }

  /** Resizing after linearising keeps the old logical order: a prefix of the
      old view, then the padding; the first element survives a non-empty
      resize. */
  lemma ResizeKeepsLogicalOrder<T>(elements: seq<T>, offset: int, n: nat, d: T)
    requires |elements| > 0
    ensures var r := Resized(RotateLeft(elements, RemEuclid(offset, |elements|)), n, d);
            && |r| == n
            && (forall k :: 0 <= k < n && k < |elements| ==> r[k] == View(elements, offset)[k])
            && (forall k :: |elements| <= k < n ==> r[k] == d)
            && (n > 0 ==> r[0] == elements[RemEuclid(offset, |elements|)])
  {
    ViewIsRotateLeft(elements, offset);
    if n > 0 {
      assert View(elements, offset)[0] == elements[RemEuclid(offset + 0, |elements|)];
    }
  }
}
