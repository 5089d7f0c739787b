/** The frame a lowest-first allocator hands out next. */
module FrameSet {
  ghost predicate IsLeastFree(locked: set<nat>, f: nat) {
    f !in locked && forall g: nat | g < f :: g in locked
  }

  ghost function LeastFree(locked: set<nat>): (f: nat)
    ensures IsLeastFree(locked, f)
  {
    LeastFreeExists(locked, 0);
    var f: nat :| IsLeastFree(locked, f);
    f
  }

  lemma {:induction false} LeastFreeExists(locked: set<nat>, from: nat)
    requires forall g: nat | g < from :: g in locked
    ensures exists f: nat :: IsLeastFree(locked, f)
    decreases |locked - Below(from)|
  {
    if from in locked {
      assert locked - Below(from + 1) < locked - Below(from) by {
        assert from in locked - Below(from);
      }
      SetSmaller(locked - Below(from + 1), locked - Below(from));
      LeastFreeExists(locked, from + 1);
    } else {
      assert IsLeastFree(locked, from);
    }
  }

  ghost function Below(n: nat): (s: set<nat>)
    ensures forall k: nat :: k in s <==> k < n
    ensures |s| == n
  {
    if n == 0 then {} else Below(n - 1) + {n - 1}
  }

  lemma {:induction false} SetSmaller<T>(a: set<T>, b: set<T>)
    requires a < b
    ensures |a| < |b|
  {
    var x :| x in b && x !in a;
    SubsetSize(a, b - {x});
  }

  lemma {:induction false} SubsetSize<T>(a: set<T>, b: set<T>)
    requires a <= b
    ensures |a| <= |b|
    decreases a
  {
    if a != {} {
      var x :| x in a;
      SubsetSize(a - {x}, b - {x});
    }
  }

  lemma LeastFreeUnique(locked: set<nat>, f: nat, g: nat)
    requires IsLeastFree(locked, f) && IsLeastFree(locked, g)
    ensures f == g
  {
  }

  /** The next `n` frames a lowest-first allocator hands out are locked as well. */
  ghost function Taking(locked: set<nat>, n: nat): (s: set<nat>)
    ensures locked <= s && |s| == |locked| + n
    ensures n > 0 ==> LeastFree(locked) in s
    decreases n
  {
    if n == 0 then locked
    else
      var f := LeastFree(locked);
      Taking(locked + {f}, n - 1)
  }
}
