/** Equal shares: tasklet tid takes the items from tid * per on, per of them. */
module Shares {
  import Words

  lemma ProductMonotone(a: nat, b: nat, k: nat)
    requires a <= b
    ensures a * k <= b * k
  {
  }

  lemma ProductStep(a: nat, b: nat, k: nat)
    requires a < b
    ensures a * k + k <= b * k
  {
    ProductMonotone(a + 1, b, k);
    assert (a + 1) * k == a * k + k;
  }

  lemma Nonzero(a: nat, b: nat)
    requires a * b > 0
    ensures a > 0
  {
  }

  lemma QuotientBounds(r: nat, per: nat) returns (q: nat)
    requires per > 0
    ensures q == r / per && q * per <= r < q * per + per
  {
    q := r / per;
  }

  lemma RemainderSmall(a: nat, n: nat)
    requires n > 0
    ensures a % n <= a
  {
  }

  lemma RemainderOfNext(a: nat, n: nat)
    requires n > 0
    ensures (a + n) % n == a % n
  {
    assert a + n == (a / n + 1) * n + a % n;
    Words.ModUnique(a + n, n, a / n + 1, a % n);
  }

  /** Equal remainders lie at least n apart. */
  lemma SameRemainder(a: nat, b: nat, n: nat)
    requires n > 0 && a > b && a % n == b % n
    ensures a >= b + n
  {
    assert a - b == (a / n - b / n) * n;
    ProductMonotone(1, a / n - b / n, n);
  }

  /** When tasklet x % n strides by n: of its items, those before its next one are those up to this one. */
  lemma NextOfTasklet(n: nat, y: nat, x: nat)
    requires n > 0 && y % n == x % n
    ensures y < x + n <==> y <= x
  {
    if y > x {
      SameRemainder(y, x, n);
    }
  }

  predicate InShare(per: nat, tid: nat, r: nat)
  {
    tid * per <= r < tid * per + per
  }

  /** When the shares of `tasklets` tasklets cover n items, every item is in exactly one share. */
  lemma Owner(n: nat, per: nat, tasklets: nat, r: nat) returns (owner: nat)
    requires per > 0 && r < n <= tasklets * per
    ensures owner < tasklets && InShare(per, owner, r)
    ensures forall tid: nat :: InShare(per, tid, r) ==> tid == owner
  {
    owner := QuotientBounds(r, per);
    if owner >= tasklets {
      ProductMonotone(tasklets, owner, per);
    }
    forall tid: nat | InShare(per, tid, r) ensures tid == owner {
      if tid < owner {
        ProductStep(tid, owner, per);
      } else if owner < tid {
        ProductStep(owner, tid, per);
      }
    }
  }
}
