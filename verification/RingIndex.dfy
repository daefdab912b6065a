/**
 The index arithmetic every descriptor ring of the driver shares.

 The C code keeps ring indices below a power-of-two `size`, advances them with
 `(i + 1) & (size - 1)` and computes occupancy from the difference of two indices.
 Here the masked expressions are written bit by bit and related to `Slot`, the ring
 position of an unbounded counter, so that the rest of the project can argue about
 counters that never wrap.
 */
module RingIndex {
  import opened Machine

  const MAX_RING_ORDER: nat := 14 // `size` is read into an int16_t

  /** C's `&` on non-negative operands. */
  function And(x: nat, y: nat): nat {
    if x == 0 || y == 0 then 0
    else 2 * And(x / 2, y / 2) + (if x % 2 == 1 && y % 2 == 1 then 1 else 0)
  }

  function Pow2(k: nat): (p: nat)
    ensures p > 0
  {
    if k == 0 then 1 else 2 * Pow2(k - 1)
  }

  ghost predicate IsRingSize(size: nat) {
    exists k: nat :: k <= MAX_RING_ORDER && size == Pow2(k)
  }

  /** Ring position of the `k`-th descriptor ever put on a ring of `size` slots. */
  function Slot(k: nat, size: nat): (i: nat)
    requires size > 0
    ensures i < size
  {
    if k < size then k else Slot(k - size, size)
  }

  /** `(i + 1) & mask` */
  function Next(i: nat, size: nat): nat
    requires size > 0
  {
    And(i + 1, size - 1)
  }

  /** `((nss - hlos - 1) + size) & mask`: descriptors the host may still add. */
  function FreeCount(nss: nat, hlos: nat, size: nat): nat
    requires size > 0 && nss < size && hlos < size
  {
    And(nss - hlos - 1 + size, size - 1)
  }

  /** `((nss - hlos) + size) & mask` on uint32_t operands: descriptors waiting for the host. */
  function PendingCount(nss: nat, hlos: nat, size: nat): nat
    requires size > 0 && nss < size && hlos < size
  {
    And(U32(U32(nss - hlos) + size), size - 1)
  }

  /** Doubling a counter and the ring doubles the slot. */
  lemma {:induction false} SlotDoubled(y: nat, p: nat, b: nat)
    requires p > 0 && b <= 1
    ensures Slot(2 * y + b, 2 * p) == 2 * Slot(y, p) + b
  {
    if y >= p {
      SlotDoubled(y - p, p, b);
      assert 2 * y + b - 2 * p == 2 * (y - p) + b;
    }
  }

  /** Masking with `size - 1` is reduction to a ring position. */
  lemma {:induction false} AndMask(x: nat, k: nat)
    ensures And(x, Pow2(k) - 1) == Slot(x, Pow2(k))
  {
    if k == 0 {
      SlotOne(x);
    } else if x != 0 {
      AndMask(x / 2, k - 1);
      SlotDoubled(x / 2, Pow2(k - 1), x % 2);
      assert (Pow2(k) - 1) / 2 == Pow2(k - 1) - 1;
    }
  }

  lemma {:induction false} SlotOne(x: nat)
    ensures Slot(x, 1) == 0
  {
    if x > 0 {
      SlotOne(x - 1);
    }
  }

  lemma EuclidUnique(q: int, r: int, q': int, r': int, m: int)
    requires q * m + r == q' * m + r'
    requires 0 <= r < m && 0 <= r' < m
    ensures r == r'
  {
    var d := q - q';
    assert d * m == r' - r;
    if d >= 1 {
      assert d * m == m + (d - 1) * m;
    } else if d <= -1 {
      assert d * m == -m + (d + 1) * m;
    }
  }

  lemma ModStep(k: nat, m: nat)
    requires 0 < m <= k
    ensures (k - m) % m == k % m
  {
    var q, r := k / m, k % m;
    var q', r' := (k - m) / m, (k - m) % m;
    assert q * m + r == k;
    assert (q' + 1) * m + r' == k by {
      assert q' * m + r' == k - m;
    }
    EuclidUnique(q, r, q' + 1, r', m);
  }

  /** `Slot` is C's `%`. */
  lemma {:induction false} SlotIsMod(k: nat, size: nat)
    requires size > 0
    ensures Slot(k, size) == k % size
  {
    if k < size {
    } else {
      SlotIsMod(k - size, size);
      ModStep(k, size);
    }
  }

  lemma MaskIsSlot(x: nat, size: nat)
    requires IsRingSize(size)
    ensures size > 0 && And(x, size - 1) == Slot(x, size)
  {
    var k: nat :| k <= MAX_RING_ORDER && size == Pow2(k);
    AndMask(x, k);
  }

  lemma {:induction false} Pow2Below(k: nat)
    requires k <= MAX_RING_ORDER
    ensures Pow2(k) <= 16384
  {
    if k < MAX_RING_ORDER {
      Pow2Monotone(k, MAX_RING_ORDER);
    }
    assert Pow2(14) == 2 * Pow2(13) == 4 * Pow2(12) == 8 * Pow2(11) == 16 * Pow2(10);
    assert Pow2(10) == 2 * Pow2(9) == 4 * Pow2(8) == 8 * Pow2(7) == 16 * Pow2(6) == 32 * Pow2(5);
    assert Pow2(5) == 32;
  }

  lemma {:induction false} Pow2Monotone(k: nat, m: nat)
    requires k <= m
    ensures Pow2(k) <= Pow2(m)
  {
    if k < m {
      Pow2Monotone(k, m - 1);
    }
  }

  lemma RingSizeBound(size: nat)
    requires IsRingSize(size)
    ensures 0 < size <= 16384
  {
    var k: nat :| k <= MAX_RING_ORDER && size == Pow2(k);
    Pow2Below(k);
  }

  /** Counters at most one lap apart share a slot only when they are equal. */
  lemma {:induction false} SlotInjective(a: nat, b: nat, size: nat)
    requires size > 0 && a <= b < a + size
    ensures Slot(a, size) == Slot(b, size) <==> a == b
    decreases b
  {
    if a >= size {
      SlotInjective(a - size, b - size, size);
    }
  }

  /** Adding the lap distance to a slot and reducing once gives the later slot. */
  lemma {:induction false} SlotAdd(a: nat, d: nat, size: nat)
    requires size > 0 && d <= size
    ensures var i := Slot(a, size);
            Slot(a + d, size) == if i + d < size then i + d else i + d - size
  {
    if a >= size {
      SlotAdd(a - size, d, size);
    }
  }

  /** The masked increment moves an index to the slot of the next counter. */
  lemma NextSlot(k: nat, size: nat)
    requires IsRingSize(size)
    ensures size > 0 && Next(Slot(k, size), size) == Slot(k + 1, size)
  {
    AdvanceSlot(k, 1, size);
  }

  /** `(hlos + count) & mask` moves an index over a whole frame at once. */
  lemma AdvanceSlot(k: nat, d: nat, size: nat)
    requires IsRingSize(size) && d <= size
    ensures size > 0 && And(Slot(k, size) + d, size - 1) == Slot(k + d, size)
  {
    MaskIsSlot(Slot(k, size) + d, size);
    SlotAdd(k, d, size);
  }

  /**
   The free-space expression is exact: with `read` descriptors taken and `written`
   descriptors published it yields the capacity `size - 1` less those in flight.
   */
  lemma FreeCountExact(read: nat, written: nat, size: nat)
    requires IsRingSize(size) && read <= written < read + size
    ensures size > 0 && FreeCount(Slot(read, size), Slot(written, size), size) == size - 1 - (written - read)
  {
    RingSizeBound(size);
    SlotAdd(read, written - read, size);
    MaskIsSlot(Slot(read, size) - Slot(written, size) - 1 + size, size);
  }

  lemma PendingUnwrapped(nss: nat, hlos: nat, size: nat)
    requires nss < size <= 16384 && hlos < size
    ensures PendingCount(nss, hlos, size) == And(nss - hlos + size, size - 1)
  {
    assert U32(U32(nss - hlos) + size) == nss - hlos + size;
  }

  lemma MaskedDifference(nss: nat, hlos: nat, size: nat)
    requires IsRingSize(size) && nss < size && hlos < size
    ensures And(nss - hlos + size, size - 1) == if nss >= hlos then nss - hlos else nss - hlos + size
  {
    MaskIsSlot(nss - hlos + size, size);
  }

  lemma SlotDifference(read: nat, written: nat, size: nat)
    requires size > 0 && read <= written < read + size
    ensures var nss, hlos := Slot(written, size), Slot(read, size);
            written - read == if nss >= hlos then nss - hlos else nss - hlos + size
  {
    SlotAdd(read, written - read, size);
  }

  /** The pending expression is exact too, although its subtraction wraps modulo 2^32. */
  lemma PendingCountExact(read: nat, written: nat, size: nat)
    requires IsRingSize(size) && read <= written < read + size
    ensures size > 0 && PendingCount(Slot(written, size), Slot(read, size), size) == written - read
  {
    RingSizeBound(size);
    SlotDifference(read, written, size);
    PendingUnwrapped(Slot(written, size), Slot(read, size), size);
    MaskedDifference(Slot(written, size), Slot(read, size), size);
  }
}

/**
 What a reader and a writer of a ring agree on: `history` is every element the writer
 ever published, the first `read` of which the reader has taken. The unread ones are in
 the slots, and at least one slot is always spare.
 */
module RingWindow {
  import opened RingIndex

  ghost predicate Window<T>(slots: seq<T>, history: seq<T>, read: nat) {
    && |slots| > 0
    && read <= |history| < read + |slots|
    && forall k :: read <= k < |history| ==> slots[Slot(k, |slots|)] == history[k]
  }

  /** `pending` sits in the slots just past the published part, not yet visible to the reader. */
  ghost predicate Staged<T>(slots: seq<T>, start: nat, pending: seq<T>) {
    && |slots| > 0
    && forall j :: 0 <= j < |pending| ==> slots[Slot(start + j, |slots|)] == pending[j]
  }

  /** Writing a spare slot leaves every unread element in place. */
  lemma WindowKept<T>(slots: seq<T>, history: seq<T>, read: nat, k: nat, x: T)
    requires Window(slots, history, read)
    requires |history| <= k < read + |slots|
    ensures Window(slots[Slot(k, |slots|) := x], history, read)
  {
    forall m | read <= m < |history|
      ensures Slot(m, |slots|) != Slot(k, |slots|)
    {
      SlotInjective(m, k, |slots|);
    }
  }

  /** Staging one more element keeps those already staged. */
  lemma StagedExtended<T>(slots: seq<T>, start: nat, pending: seq<T>, x: T)
    requires Staged(slots, start, pending) && |pending| < |slots|
    ensures Staged(slots[Slot(start + |pending|, |slots|) := x], start, pending + [x])
  {
    forall j | 0 <= j < |pending + [x]|
      ensures slots[Slot(start + |pending|, |slots|) := x][Slot(start + j, |slots|)] == (pending + [x])[j]
    {
      SlotInjective(start + j, start + |pending|, |slots|);
    }
  }

  /** Rewriting the newest staged element keeps the others. */
  lemma StagedPatched<T>(slots: seq<T>, start: nat, pending: seq<T>, x: T)
    requires Staged(slots, start, pending) && 0 < |pending| <= |slots|
    ensures Staged(slots[Slot(start + |pending| - 1, |slots|) := x], start, pending[..|pending| - 1] + [x])
  {
    StagedExtended(slots, start, pending[..|pending| - 1], x);
  }

  lemma NothingStaged<T>(slots: seq<T>, start: nat)
    requires |slots| > 0
    ensures Staged(slots, start, [])
  {
  }

  lemma StagedPrefix<T>(slots: seq<T>, start: nat, pending: seq<T>, n: nat)
    requires Staged(slots, start, pending) && n <= |pending|
    ensures Staged(slots, start, pending[..n])
  {
  }

  /** One index store makes everything staged visible at once. */
  lemma WindowPublished<T>(slots: seq<T>, history: seq<T>, read: nat, pending: seq<T>)
    requires Window(slots, history, read) && Staged(slots, |history|, pending)
    requires |history| + |pending| < read + |slots|
    ensures Window(slots, history + pending, read)
  {
    forall k | read <= k < |history + pending|
      ensures slots[Slot(k, |slots|)] == (history + pending)[k]
    {
      if |history| <= k {
        assert slots[Slot(|history| + (k - |history|), |slots|)] == pending[k - |history|];
      }
    }
  }
}
