/**
 The search of the boot-time page allocator in kernel/mm/pmem.c.  Its comment
 promises the start of the first run of `n` clear bits.  The loop counts set bits
 in `first`, so what it returns is the number of set bits before that run.
 */
module BootBitmap {

  ghost predicate ClearRun(bitmap: seq<bool>, s: int, n: nat) {
    0 <= s && s + n <= |bitmap| && forall i :: s <= i < s + n ==> !bitmap[i]
  }

  /** `s` starts the first run of `n` clear bits. */
  ghost predicate FirstFit(bitmap: seq<bool>, s: int, n: nat) {
    ClearRun(bitmap, s, n) && forall t :: 0 <= t < s ==> !ClearRun(bitmap, t, n)
  }

  function CountSet(bits: seq<bool>): (c: nat)
    ensures c <= |bits|
  {
    if bits == [] then 0 else CountSet(bits[..|bits| - 1]) + if bits[|bits| - 1] then 1 else 0
  }

  lemma {:induction false} CountSetFull(bits: seq<bool>)
    ensures CountSet(bits) == |bits| <==> forall i :: 0 <= i < |bits| ==> bits[i]
  {
    if bits != [] {
      var init := bits[..|bits| - 1];
      CountSetFull(init);
      assert forall i :: 0 <= i < |init| ==> init[i] == bits[i];
    }
  }

  lemma {:induction false} CountSetClearTail(bits: seq<bool>, s: nat)
    requires s <= |bits| && forall i :: s <= i < |bits| ==> !bits[i]
    ensures CountSet(bits) == CountSet(bits[..s])
  {
    if s == |bits| {
      assert bits[..s] == bits;
    } else {
      var init := bits[..|bits| - 1];
      CountSetClearTail(init, s);
      assert init[..s] == bits[..s];
    }
  }

  /** The answer counted up to the end of the first fitting run. */
  lemma FoundAt(bitmap: seq<bool>, s: nat, n: nat)
    requires FirstFit(bitmap, s, n)
    ensures CountSet(bitmap[..s + n]) == CountSet(bitmap[..s])
    ensures CountSet(bitmap[..s]) == s <==> forall i :: 0 <= i < s ==> bitmap[i]
    ensures forall t :: FirstFit(bitmap, t, n) ==> t == s
  {
    CountSetClearTail(bitmap[..s + n], s);
    assert bitmap[..s + n][..s] == bitmap[..s];
    CountSetFull(bitmap[..s]);
  }

  /** No clear run of length `n` ends at bit `i`. */
  lemma NoRunEndsAt(bitmap: seq<bool>, i: nat, nFree: nat, n: nat)
    requires i < |bitmap| && nFree <= i && n > 0
    requires bitmap[i] || (nFree + 1 < n && (nFree < i ==> bitmap[i - nFree - 1]))
    ensures forall s :: s + n == i + 1 ==> !ClearRun(bitmap, s, n)
  {
  }

  /**
   The result is right exactly when no free page lies below the run that was
   found; otherwise it is too small, and may be the index of an allocated page.
   */
  method BitmapFind(bitmap: seq<bool>, n: nat) returns (r: int)
    requires n > 0
    ensures r >= -1
    ensures r == -1 ==> forall s :: !ClearRun(bitmap, s, n)
    ensures r >= 0 ==> exists s :: FirstFit(bitmap, s, n)
    ensures forall s :: FirstFit(bitmap, s, n) ==>
              && 0 <= r == CountSet(bitmap[..s]) <= s
              && (r == s <==> forall i :: 0 <= i < s ==> bitmap[i])
  {
    var first, nFree := 0, 0;
    for i := 0 to |bitmap|
      invariant 0 <= nFree <= i && nFree < n
      invariant forall j :: i - nFree <= j < i ==> !bitmap[j]
      invariant nFree < i ==> bitmap[i - nFree - 1]
      invariant forall s :: 0 <= s && s + n <= i ==> !ClearRun(bitmap, s, n)
      invariant first == CountSet(bitmap[..i])
    {
      assert bitmap[..i + 1][..i] == bitmap[..i];
      if bitmap[i] || nFree + 1 < n { NoRunEndsAt(bitmap, i, nFree, n); }
      if bitmap[i] {
        nFree := 0;
        first := first + 1;
      } else {
        nFree := nFree + 1;
        if nFree >= n {
          assert FirstFit(bitmap, i + 1 - n, n);
          FoundAt(bitmap, i + 1 - n, n);
          return first;
        }
      }
    }
    r := -1;
  }

  /** With one free page below the first fitting run, the answer is an allocated page. */
  lemma BitmapFindCanMiss()
    ensures var bitmap := [true, false, true, false, false];
            FirstFit(bitmap, 3, 2) && CountSet(bitmap[..3]) == 2 && bitmap[2]
  {
    var bitmap := [true, false, true, false, false];
    assert !ClearRun(bitmap, 0, 2) by { assert bitmap[0]; }
    assert !ClearRun(bitmap, 1, 2) by { assert bitmap[2]; }
    assert !ClearRun(bitmap, 2, 2) by { assert bitmap[2]; }
    var p := bitmap[..3];
    assert p == [true, false, true] && p[..2] == [true, false] && p[..2][..1] == [true];
    assert CountSet([true]) == 1 by { assert [true][..0] == []; }
    assert CountSet(p[..2]) == 1;
  }
}
