/**
 * The art gallery that cycles through its images: every tick the current
 * image loses the `active` class, the index moves on by one modulo the
 * number of images, and the new current image gains it.  The class list is
 * modelled as one flag per image.
 */
module Gallery {

  /** (i + 1) % n: the index shown after i. */
  function NextIndex(i: nat, n: nat): (j: nat)
    requires n > 0
    ensures j < n
    ensures i < n ==> j == (if i + 1 == n then 0 else i + 1)
  {
    (i + 1) % n
  }

  /** The index shown k ticks after index i. */
  function IndexAfter(i: nat, n: nat, k: nat): (j: nat)
    requires n > 0
    ensures i < n || k > 0 ==> j < n
  {
    if k == 0 then i else NextIndex(IndexAfter(i, n, k - 1), n)
  }

  lemma MulAtLeast(d: int, n: int)
    requires d >= 1 && n > 0
    ensures d * n >= n
  {
  }

  /** Quotient and remainder of a division by a positive number are unique. */
  lemma ModUnique(a: int, n: int, q: int, r: int)
    requires n > 0 && 0 <= r < n && a == q * n + r
    ensures a % n == r && a / n == q
  {
    var q', r' := a / n, a % n;
    assert a == q' * n + r';
    assert (q - q') * n == q * n - q' * n;
    assert (q - q') * n == r' - r;
    if q > q' {
      MulAtLeast(q - q', n);
    } else if q < q' {
      MulAtLeast(q' - q, n);
    }
  }

  /** Adding one to a number moves its remainder on by one, wrapping at n. */
  lemma ModSucc(a: nat, n: nat)
    requires n > 0
    ensures (a + 1) % n == if a % n + 1 == n then 0 else a % n + 1
  {
    var q, r := a / n, a % n;
    if r + 1 < n {
      ModUnique(a + 1, n, q, r + 1);
    } else {
      assert (q + 1) * n == q * n + n;
      ModUnique(a + 1, n, q + 1, 0);
    }
  }

  /** After k ticks from a valid index, the index is (i + k) % n. */
  lemma {:induction false} IndexAfterIsModular(i: nat, n: nat, k: nat)
    requires n > 0 && i < n
    ensures IndexAfter(i, n, k) == (i + k) % n
  {
    if k > 0 {
      IndexAfterIsModular(i, n, k - 1);
      ModSucc(i + k - 1, n);
    }
  }

  /**
   * Cycling is periodic with period n, and every image becomes the current
   * one within n ticks.
   */
  lemma EveryImageShown(i: nat, n: nat, j: nat)
    requires n > 0 && i < n && j < n
    ensures IndexAfter(i, n, n) == i
    ensures IndexAfter(i, n, (j + n - i) % n) == j
  {
    IndexAfterIsModular(i, n, n);
    ModUnique(i + n, n, 1, i);
    var k := (j + n - i) % n;
    IndexAfterIsModular(i, n, k);
    if j >= i {
      ModUnique(j + n - i, n, 1, j - i);
      ModUnique(i + k, n, 0, j);
    } else {
      ModUnique(j + n - i, n, 0, j + n - i);
      ModUnique(i + k, n, 1, j);
    }
  }

  /** Exactly image i carries the `active` class. */
  predicate OnlyActive(active: seq<bool>, i: nat) {
    forall j :: 0 <= j < |active| ==> (active[j] <==> j == i)
  }

  class ArtGallery {
    /** `images.length`. */
    const count: nat
    /** `currentIndex`. */
    var currentIndex: nat
    /** Whether each image carries the `active` class. */
    var active: seq<bool>

    ghost predicate Valid()
      reads this
    {
      count > 0 && |active| == count && currentIndex < count
    }

    /** The gallery as found on the page, starting at image 0. */
    constructor (initiallyActive: seq<bool>)
      requires |initiallyActive| > 0
      ensures Valid()
      ensures count == |initiallyActive| && active == initiallyActive && currentIndex == 0
    {
      count := |initiallyActive|;
      active := initiallyActive;
      currentIndex := 0;
    }

    /**
     * One `cycleArtwork` tick.  Only the old and the new current image change
     * their class; with a single image that image stays active.  If exactly
     * the current image was active before, exactly the new one is after.
     */
    method CycleArtwork()
      requires Valid()
      modifies this`currentIndex, this`active
      ensures Valid()
      ensures currentIndex == NextIndex(old(currentIndex), count)
      ensures active == old(active)[old(currentIndex) := false][currentIndex := true]
      ensures OnlyActive(old(active), old(currentIndex)) ==> OnlyActive(active, currentIndex)
    {
      active := active[currentIndex := false];
      currentIndex := (currentIndex + 1) % count;
      active := active[currentIndex := true];
    }
  }
}
