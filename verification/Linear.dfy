/** The linear-recurrence scorer: Berlekamp-Massey over GF(2).
    A register is a connection polynomial c (c[0] = 1, coefficients past the
    end of the sequence are zero) and a length; it generates s up to n when
    every bit from index `length` on is the recurrence applied to its
    predecessors.  Addition in GF(2) is `!=`, multiplication is `&&`. */
module LinearRecurrence {

  predicate Coef(c: seq<bool>, j: nat) {
    j < |c| && c[j]
  }

  // The sum of c[j] * s[i - j] over j < k.
  function Dot(c: seq<bool>, s: seq<bool>, i: nat, k: nat): bool
    requires i < |s| && k <= i + 1
  {
    if k == 0 then false
    else Dot(c, s, i, k - 1) != (Coef(c, k - 1) && s[i - (k - 1)])
  }

  // The register (c, length) predicts bit i wrongly.
  predicate Fails(c: seq<bool>, length: nat, s: seq<bool>, i: nat)
    requires length <= i < |s|
  {
    Dot(c, s, i, length + 1)
  }

  ghost predicate Generates(c: seq<bool>, length: nat, s: seq<bool>, n: nat)
    requires n <= |s|
  {
    Coef(c, 0) && forall i :: length <= i < n ==> !Fails(c, length, s, i)
  }

  // Linear complexity of the first n bits: some register of that length
  // generates them and no shorter one does.
  ghost predicate IsLinearComplexity(s: seq<bool>, n: nat, length: nat)
    requires n <= |s|
  {
    && (exists c :: Generates(c, length, s, n))
    && forall c, shorter: nat :: shorter < length ==> !Generates(c, shorter, s, n)
  }

  lemma LinearComplexityUnique(s: seq<bool>, n: nat, a: nat, b: nat)
    requires n <= |s| && IsLinearComplexity(s, n, a) && IsLinearComplexity(s, n, b)
    ensures a == b
  {
  }

  // ----- Massey's bound -----

  // The sum over j < p of a[j] * Dot(b, s, n - j, q).
  function Outer(a: seq<bool>, b: seq<bool>, s: seq<bool>, n: nat, p: nat, q: nat): bool
    requires n < |s| && p + q <= n + 2 && (p > 0 ==> q <= n + 2 - p) && p <= n + 1
  {
    if p == 0 then false
    else Outer(a, b, s, n, p - 1, q) != (Coef(a, p - 1) && Dot(b, s, n - (p - 1), q))
  }

  lemma {:induction false} OuterZeroWidth(a: seq<bool>, b: seq<bool>, s: seq<bool>, n: nat, p: nat)
    requires n < |s| && p <= n + 1
    ensures !Outer(a, b, s, n, p, 0)
  {
    if p != 0 {
      OuterZeroWidth(a, b, s, n, p - 1);
    }
  }

  // Widening the inner sums by one column.
  lemma {:induction false} OuterColumn(a: seq<bool>, b: seq<bool>, s: seq<bool>, n: nat, p: nat, q: nat)
    requires n < |s| && 1 <= q && p + q <= n + 2 && 1 <= p
    ensures Outer(a, b, s, n, p, q) ==
            (Outer(a, b, s, n, p, q - 1) != (Coef(b, q - 1) && Dot(a, s, n - (q - 1), p)))
  {
    if p > 1 {
      OuterColumn(a, b, s, n, p - 1, q);
    }
  }

  // The double sum does not depend on the order of summation.
  lemma {:induction false} OuterExchange(a: seq<bool>, b: seq<bool>, s: seq<bool>, n: nat, p: nat, q: nat)
    requires n < |s| && 1 <= p && 1 <= q && p + q <= n + 2
    ensures Outer(a, b, s, n, p, q) == Outer(b, a, s, n, q, p)
  {
    OuterColumn(a, b, s, n, p, q);
    if q == 1 {
      OuterZeroWidth(a, b, s, n, p);
    } else {
      OuterExchange(a, b, s, n, p, q - 1);
    }
  }

  // If every inner sum but the first vanishes, so does all but the first term.
  lemma {:induction false} OuterCollapse(a: seq<bool>, b: seq<bool>, s: seq<bool>, n: nat, p: nat, q: nat)
    requires n < |s| && 1 <= p && 1 <= q && p + q <= n + 2
    requires Coef(a, 0)
    requires forall i: nat :: n + 1 - p <= i < n ==> !Dot(b, s, i, q)
    ensures Outer(a, b, s, n, p, q) == Dot(b, s, n, q)
  {
    if p > 1 {
      OuterCollapse(a, b, s, n, p - 1, q);
    }
  }

  // A register of length `length` that first fails at index n forces every
  // register that also gets bit n right to be at least n + 1 - length long.
  lemma {:induction false} MasseyBound(c: seq<bool>, length: nat, s: seq<bool>, n: nat, d: seq<bool>, other: nat)
    requires length <= n < |s|
    requires Generates(c, length, s, n) && Fails(c, length, s, n)
    requires Generates(d, other, s, n + 1)
    ensures n + 1 <= length + other
  {
    if length + other <= n {
      var p, q := other + 1, length + 1;
      forall i: nat | length <= i < n
        ensures !Dot(c, s, i, q)
      {
        assert !Fails(c, length, s, i);
      }
      forall i: nat | other <= i <= n
        ensures !Dot(d, s, i, p)
      {
        assert !Fails(d, other, s, i);
      }
      OuterCollapse(d, c, s, n, p, q);
      OuterCollapse(c, d, s, n, q, p);
      OuterExchange(d, c, s, n, p, q);
      assert false;
    }
  }

  // ----- The update c + x^shift * b -----

  ghost predicate ZeroBeyond(c: seq<bool>, length: nat) {
    forall j :: length < j < |c| ==> !c[j]
  }

  lemma {:induction false} DotTail(c: seq<bool>, s: seq<bool>, i: nat, length: nat, k: nat)
    requires i < |s| && length + 1 <= k <= i + 1
    requires ZeroBeyond(c, length)
    ensures Dot(c, s, i, k) == Dot(c, s, i, length + 1)
  {
    if k > length + 1 {
      DotTail(c, s, i, length, k - 1);
    }
  }

  function Combine(c: seq<bool>, b: seq<bool>, shift: nat): (d: seq<bool>)
    requires |b| == |c|
    ensures |d| == |c|
  {
    seq(|c|, j requires 0 <= j < |c| => c[j] != (shift <= j && b[j - shift]))
  }

  // Cutting the polynomial at |c| entries never matters for an index below |c|.
  lemma {:induction false} DotCombine(c: seq<bool>, b: seq<bool>, shift: nat, s: seq<bool>, i: nat, k: nat)
    requires |b| == |c| && i < |s| && k <= i + 1 && k <= |c|
    ensures Dot(Combine(c, b, shift), s, i, k) ==
            (Dot(c, s, i, k) != (k > shift && Dot(b, s, i - shift, k - shift)))
  {
    if k > 0 {
      DotCombine(c, b, shift, s, i, k - 1);
    }
  }

  // What holds at the head of iteration n, for a stream s of |c| assessed bits.
  // `shift` counts the steps since index n - shift, where the register
  // `previous`, of length n - shift + 1 - length, last failed.
  ghost predicate Invariant(s: seq<bool>, n: nat, c: seq<bool>, previous: seq<bool>, length: nat, shift: nat) {
    && n <= |s| == |c| == |previous| && 0 < |s|
    && length <= n
    && ZeroBeyond(c, length)
    && Generates(c, length, s, n)
    && (forall d, shorter: nat :: shorter < length ==> !Generates(d, shorter, s, n))
    && 1 <= shift && Coef(previous, 0)
    && (if length == 0 then shift == n + 1 && ZeroBeyond(previous, 0)
        else LastFailure(s, n, previous, length, shift))
  }

  ghost predicate LastFailure(s: seq<bool>, n: nat, previous: seq<bool>, length: nat, shift: nat)
    requires n <= |s|
  {
    && shift <= n < |s| + shift && length + shift <= n + 1
    && var was := n + 1 - length - shift;
    && ZeroBeyond(previous, was)
    && was <= n - shift
    && Generates(previous, was, s, n - shift)
    && Fails(previous, was, s, n - shift)
  }

  lemma InvariantInit(s: seq<bool>, one: seq<bool>)
    requires |one| == |s| > 0
    requires one[0] && forall j :: 0 < j < |one| ==> !one[j]
    ensures Invariant(s, 0, one, one, 0, 1)
  {
  }

  lemma GeneratesLess(c: seq<bool>, length: nat, s: seq<bool>, n: nat, m: nat)
    requires m <= n <= |s| && Generates(c, length, s, n)
    ensures Generates(c, length, s, m)
  {
  }

  lemma {:induction false} InvariantNoDiscrepancy(s: seq<bool>, n: nat, c: seq<bool>, previous: seq<bool>,
                                                  length: nat, shift: nat)
    requires Invariant(s, n, c, previous, length, shift) && n < |s|
    requires !Fails(c, length, s, n)
    ensures Invariant(s, n + 1, c, previous, length, shift + 1)
  {
    var m := n + 1;
    forall d, shorter: nat
      ensures shorter < length ==> !Generates(d, shorter, s, m)
    {
      if shorter < length && Generates(d, shorter, s, m) {
        GeneratesLess(d, shorter, s, m, n);
      }
    }
  }

  // The new register reproduces every bit up to and including n.
  lemma {:induction false} CombineGenerates(s: seq<bool>, n: nat, c: seq<bool>, previous: seq<bool>,
                                            length: nat, shift: nat, next: nat)
    requires Invariant(s, n, c, previous, length, shift) && n < |s|
    requires Fails(c, length, s, n)
    requires next == if 2 * length <= n then n + 1 - length else length
    ensures ZeroBeyond(Combine(c, previous, shift), next)
    ensures Generates(Combine(c, previous, shift), next, s, n + 1)
  {
    var d := Combine(c, previous, shift);
    forall i | next <= i < n + 1
      ensures !Fails(d, next, s, i)
    {
      assert length > 0 && shift <= n;
      var was := n + 1 - length - shift;
      assert was <= i - shift && was + 1 <= next + 1 - shift;
      DotCombine(c, previous, shift, s, i, next + 1);
      DotTail(c, s, i, length, next + 1);
      DotTail(previous, s, i - shift, was, next + 1 - shift);
      assert Dot(c, s, i, length + 1) == Fails(c, length, s, i);
      assert Dot(previous, s, i - shift, was + 1) == Fails(previous, was, s, i - shift);
    }
  }

  // Extending by one bit with a discrepancy: the shortest length becomes
  // max(length, n + 1 - length), by Massey's bound.
  lemma {:induction false} InvariantDiscrepancy(s: seq<bool>, n: nat, c: seq<bool>, previous: seq<bool>,
                                                length: nat, shift: nat)
    requires Invariant(s, n, c, previous, length, shift) && n < |s|
    requires Fails(c, length, s, n)
    ensures 2 * length <= n ==> Invariant(s, n + 1, Combine(c, previous, shift), c, n + 1 - length, 1)
    ensures 2 * length > n ==> Invariant(s, n + 1, Combine(c, previous, shift), previous, length, shift + 1)
  {
    var next := if 2 * length <= n then n + 1 - length else length;
    CombineGenerates(s, n, c, previous, length, shift, next);
    var m := n + 1;
    forall d, shorter: nat
      ensures shorter < next ==> !Generates(d, shorter, s, m)
    {
      if shorter < next && Generates(d, shorter, s, m) {
        GeneratesLess(d, shorter, s, m, n);
        MasseyBound(c, length, s, n, d, shorter);
      }
    }
  }
}
