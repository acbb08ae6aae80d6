/**
 Where `next_image` and `prev_image` land. Both step the current index by one
 (forward or backward, wrapping around the list) until they reach an eligible
 image; if the scan comes back to where it started without finding one, the
 viewer shows "Done" and the index stays where it was. The eligibility test
 runs before the back-at-start test, so after a full cycle the starting image
 itself is tested last and is chosen when it is eligible.
 */
module Navigation {

  import opened Options
  import opened Tags
  import Filter

  datatype Direction = Forward | Backward

  /**
   The image at `i` may be shown: it passes the filter and, while skipping is
   on, it is not tagged.
   */
  predicate Eligible(files: seq<Path>, tags: Store, skip: bool, i: nat)
    requires i < |files|
    ensures Eligible(files, tags, skip, i) ==> Filter.IsImageValid(files[i])
    ensures Eligible(files, tags, skip, i) && skip ==> TagsOf(tags, files[i]) == []
    ensures !skip ==> (Eligible(files, tags, skip, i) <==> Filter.IsImageValid(files[i]))
  {
    Filter.IsImageValid(files[i]) && !(skip && HasTags(tags, files[i]))
  }

  /** One step of the scan, with Python's modulo (never negative for n > 0). */
  function Step(i: nat, dir: Direction, n: nat): (j: nat)
    requires n > 0
    ensures j < n
  {
    if dir == Forward then (i + 1) % n else (i - 1) % n
  }

  /** The index `k` steps from `start`. */
  function Offset(start: nat, dir: Direction, k: nat, n: nat): (j: nat)
    requires n > 0
    ensures j < n
  {
    if dir == Forward then (start + k) % n else (start - k) % n
  }

  lemma ModSmall(x: int, n: int)
    requires n > 0 && -n <= x < 2 * n
    ensures x % n == if x < 0 then x + n else if x < n then x else x - n
  {
    if x < 0 {
      assert x == (-1) * n + (x + n);
    } else if x >= n {
      assert x == 1 * n + (x - n);
    }
  }

  lemma MulAtLeast(a: int, n: int)
    requires a >= 1 && n > 0
    ensures a * n >= n
  {
  }

  /** Euclidean remainder is determined by any decomposition `y == q * n + r` with `0 <= r < n`. */
  lemma ModUnique(y: int, q: int, r: int, n: int)
    requires n > 0 && 0 <= r < n && y == q * n + r
    ensures y % n == r
  {
    var q2, r2 := y / n, y % n;
    assert y == q2 * n + r2;
    assert (q - q2) * n == r2 - r;
    if q > q2 {
      MulAtLeast(q - q2, n);
    } else if q < q2 {
      MulAtLeast(q2 - q, n);
    }
  }

  /** Adding a multiple of `n` does not change a value modulo `n`. */
  lemma ModAddMultiple(x: int, q: int, n: int)
    requires n > 0
    ensures (x + q * n) % n == x % n
  {
    var r := x % n;
    assert x == (x / n) * n + r;
    assert x + q * n == (x / n + q) * n + r;
    ModUnique(x + q * n, x / n + q, r, n);
  }

  /** Taking one more step from the index `k` steps away gives the index `k + 1` steps away. */
  lemma StepOffset(start: nat, dir: Direction, k: nat, n: nat)
    requires n > 0
    ensures Step(Offset(start, dir, k, n), dir, n) == Offset(start, dir, k + 1, n)
  {
    var d := if dir == Forward then 1 else -1;
    var x := if dir == Forward then start + k else start - k;
    assert Offset(start, dir, k, n) == x % n;
    assert x == (x / n) * n + x % n;
    ModAddMultiple(x % n + d, x / n, n);
    assert x % n + d + (x / n) * n == x + d;
  }

  /** Within one cycle the scan is back at the start only after exactly `n` steps. */
  lemma OffsetReturns(start: nat, dir: Direction, k: nat, n: nat)
    requires start < n && 0 < k <= n
    ensures Offset(start, dir, k, n) == start <==> k == n
  {
    if dir == Forward {
      ModSmall(start + k, n);
    } else {
      ModSmall(start - k, n);
    }
  }

  /** Every index is reached within one cycle. */
  lemma OffsetCovers(start: nat, dir: Direction, i: nat, n: nat)
    requires start < n && i < n
    ensures exists m :: 1 <= m <= n && Offset(start, dir, m, n) == i
  {
    var m: nat;
    if dir == Forward {
      m := if i > start then i - start else i - start + n;
      ModSmall(start + m, n);
    } else {
      m := if start > i then start - i else start - i + n;
      ModSmall(start - m, n);
    }
    assert Offset(start, dir, m, n) == i;
  }

  /** The scan from the `k`-th step on: the first eligible index it meets, if any. */
  function Scan(files: seq<Path>, tags: Store, skip: bool, start: nat, dir: Direction, k: nat): (r: Option<nat>)
    requires start < |files| && 1 <= k <= |files|
    ensures r.Some? ==> r.value < |files| && Eligible(files, tags, skip, r.value)
    decreases |files| - k
  {
    var i := Offset(start, dir, k, |files|);
    if Eligible(files, tags, skip, i) then Some(i)
    else if k == |files| then None
    else Scan(files, tags, skip, start, dir, k + 1)
  }

  /** Where navigation from `start` lands: `None` is the "Done" outcome. */
  function Target(files: seq<Path>, tags: Store, skip: bool, start: nat, dir: Direction): (r: Option<nat>)
    requires start < |files|
    ensures r.Some? ==> r.value < |files| && Eligible(files, tags, skip, r.value)
  {
    Scan(files, tags, skip, start, dir, 1)
  }

  /** A found index is eligible, and every index the scan passed before it is not. */
  lemma {:induction false} ScanFindsFirst(files: seq<Path>, tags: Store, skip: bool, start: nat, dir: Direction, k: nat)
    requires start < |files| && 1 <= k <= |files|
    requires Scan(files, tags, skip, start, dir, k).Some?
    ensures var i := Scan(files, tags, skip, start, dir, k).value;
            && i < |files| && Eligible(files, tags, skip, i)
            && exists m :: k <= m <= |files| && i == Offset(start, dir, m, |files|)
                 && forall j :: k <= j < m ==> !Eligible(files, tags, skip, Offset(start, dir, j, |files|))
    decreases |files| - k
  {
    var n := |files|;
    var i := Offset(start, dir, k, n);
    if !Eligible(files, tags, skip, i) {
      ScanFindsFirst(files, tags, skip, start, dir, k + 1);
      var r := Scan(files, tags, skip, start, dir, k + 1).value;
      var m :| k + 1 <= m <= n && r == Offset(start, dir, m, n)
               && forall j :: k + 1 <= j < m ==> !Eligible(files, tags, skip, Offset(start, dir, j, n));
      assert forall j :: k <= j < m ==> !Eligible(files, tags, skip, Offset(start, dir, j, n));
    }
  }

  /** The scan finds nothing exactly when no index it can still visit is eligible. */
  lemma {:induction false} ScanNone(files: seq<Path>, tags: Store, skip: bool, start: nat, dir: Direction, k: nat)
    requires start < |files| && 1 <= k <= |files|
    ensures Scan(files, tags, skip, start, dir, k).None? <==>
            forall j :: k <= j <= |files| ==> !Eligible(files, tags, skip, Offset(start, dir, j, |files|))
    decreases |files| - k
  {
    if k < |files| {
      ScanNone(files, tags, skip, start, dir, k + 1);
    }
  }

  /**
   Navigation lands on an eligible index, the first one met in its direction,
   and it comes back to the start only when no other index is eligible.
   */
  lemma TargetIsFirstEligible(files: seq<Path>, tags: Store, skip: bool, start: nat, dir: Direction)
    requires start < |files|
    requires Target(files, tags, skip, start, dir).Some?
    ensures var i := Target(files, tags, skip, start, dir).value;
            && i < |files| && Eligible(files, tags, skip, i)
            && exists m :: 1 <= m <= |files| && i == Offset(start, dir, m, |files|)
                 && forall j :: 1 <= j < m ==> !Eligible(files, tags, skip, Offset(start, dir, j, |files|))
    ensures Target(files, tags, skip, start, dir).value == start ==>
              forall i :: 0 <= i < |files| && i != start ==> !Eligible(files, tags, skip, i)
  {
    var n := |files|;
    ScanFindsFirst(files, tags, skip, start, dir, 1);
    var i := Target(files, tags, skip, start, dir).value;
    var m :| 1 <= m <= n && i == Offset(start, dir, m, n)
             && forall j :: 1 <= j < m ==> !Eligible(files, tags, skip, Offset(start, dir, j, n));
    if i == start {
      OffsetReturns(start, dir, m, n);
      forall i' | 0 <= i' < n && i' != start ensures !Eligible(files, tags, skip, i') {
        OffsetCovers(start, dir, i', n);
        var m' :| 1 <= m' <= n && Offset(start, dir, m', n) == i';
        OffsetReturns(start, dir, m', n);
      }
    }
  }

  /** "Done" is reached exactly when no image at all is eligible. */
  lemma DoneIffNoneEligible(files: seq<Path>, tags: Store, skip: bool, start: nat, dir: Direction)
    requires start < |files|
    ensures Target(files, tags, skip, start, dir).None? <==>
            forall i :: 0 <= i < |files| ==> !Eligible(files, tags, skip, i)
  {
    var n := |files|;
    ScanNone(files, tags, skip, start, dir, 1);
    if Target(files, tags, skip, start, dir).None? {
      forall i | 0 <= i < n ensures !Eligible(files, tags, skip, i) {
        OffsetCovers(start, dir, i, n);
      }
    }
  }
}
