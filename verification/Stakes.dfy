/** Rescaling a node's contributions so that they add up to the staking requirement.

    The script computes with floating-point numbers; here a * 0.54 and a / (S + 1) * R stand
    for the exact rationals 54a/100 and aR/(S+1), rounded down as int() does.
    RoundingRobust covers every way of computing the quotients inexactly. */
module Stakes {

  const STAKING_REQUIREMENT: nat := 25_000_000_000_000

  /** A contribution in the new coin: the largest whole number within 54 per cent of it. */
  function Converted(amount: nat): (c: nat)
    ensures 100 * c <= 54 * amount < 100 * (c + 1)
  {
    amount * 54 / 100
  }

  function Sum(s: seq<nat>): nat {
    if s == [] then 0 else Sum(s[..|s| - 1]) + s[|s| - 1]
  }

  /** The share of r that an amount makes of s + 1, rounded down. */
  function Share(amount: nat, r: nat, s: nat): nat {
    amount * r / (s + 1)
  }

  function Shares(amounts: seq<nat>, r: nat, s: nat): seq<nat> {
    seq(|amounts|, i requires 0 <= i < |amounts| => Share(amounts[i], r, s))
  }

  function Scaled(amounts: seq<nat>, r: nat): seq<nat> {
    Shares(amounts, r, Sum(amounts))
  }

  /** What is missing to r goes to the operator, the first contributor. */
  function TopUp(scaled: seq<nat>, r: nat): seq<nat>
    requires scaled != []
  {
    if Sum(scaled) < r then scaled[0 := scaled[0] + (r - Sum(scaled))] else scaled
  }

  /** The contributions of a node once they have been adjusted to r. */
  function Normalised(amounts: seq<nat>, r: nat): (s: seq<nat>)
    requires amounts != []
    ensures |s| == |amounts|
  {
    if Sum(amounts) == r then amounts else TopUp(Scaled(amounts, r), r)
  }

  // ----- sums

  lemma SumSnoc(s: seq<nat>, x: nat)
    ensures Sum(s + [x]) == Sum(s) + x
  {
    assert (s + [x])[..|s|] == s;
  }

  lemma {:induction false} SumUpdate(s: seq<nat>, i: nat, x: nat)
    requires i < |s|
    ensures Sum(s[i := x]) == Sum(s) - s[i] + x
  {
    var last := |s| - 1;
    if i == last {
      assert s[i := x][..last] == s[..last];
    } else {
      assert s[i := x][..last] == s[..last][i := x];
      SumUpdate(s[..last], i, x);
    }
  }

  lemma {:induction false} SumBounds(s: seq<nat>, i: nat)
    requires i < |s|
    ensures s[i] <= Sum(s)
  {
    if i == |s| - 1 {
    } else {
      SumBounds(s[..|s| - 1], i);
    }
  }

  lemma ShareBounds(a: nat, r: nat, s: nat)
    ensures Share(a, r, s) * (s + 1) <= a * r <= Share(a, r, s) * (s + 1) + s
  {
  }

  lemma Distribute(x: int, y: int, z: int)
    ensures (x + y) * z == x * z + y * z
  {
  }

  /** Rounding down every share loses less than one unit for each of them. */
  lemma {:induction false} ShareSum(amounts: seq<nat>, r: nat, s: nat)
    ensures Sum(Shares(amounts, r, s)) * (s + 1) <= Sum(amounts) * r
    ensures Sum(amounts) * r <= Sum(Shares(amounts, r, s)) * (s + 1) + |amounts| * s
  {
    if amounts == [] {
    } else {
      var n := |amounts| - 1;
      var x := amounts[n];
      ShareSum(amounts[..n], r, s);
      assert Shares(amounts, r, s)[..n] == Shares(amounts[..n], r, s);
      ShareBounds(x, r, s);
      Distribute(Sum(amounts[..n]), x, r);
      Distribute(Sum(Shares(amounts[..n], r, s)), Share(x, r, s), s + 1);
      Distribute(n, 1, s);
    }
  }

  // ----- conservation

  lemma Larger(q: nat, r: nat, d: nat)
    requires q >= r
    ensures q * d >= r * d
  {
  }

  lemma FallsShortArithmetic(q: nat, s: nat, r: nat)
    requires q * (s + 1) <= s * r && r > 0
    ensures q < r
  {
    if q >= r {
      Larger(q, r, s + 1);
    }
  }

  /** Before the top-up the rescaled contributions always fall short of the requirement. */
  lemma ScaledFallsShort(amounts: seq<nat>, r: nat)
    requires r > 0
    ensures Sum(Scaled(amounts, r)) < r
  {
    ShareSum(amounts, r, Sum(amounts));
    FallsShortArithmetic(Sum(Scaled(amounts, r)), Sum(amounts), r);
  }

  /** However the rescaled amounts were computed, topping them up gives exactly the
      requirement if and only if they did not exceed it. */
  lemma TopUpSum(scaled: seq<nat>, r: nat)
    requires scaled != []
    ensures Sum(TopUp(scaled, r)) == r <==> Sum(scaled) <= r
  {
    if Sum(scaled) < r {
      SumUpdate(scaled, 0, scaled[0] + (r - Sum(scaled)));
    }
  }

  /** The contributions of a migrated node sum to exactly the staking requirement. */
  lemma Conservation(amounts: seq<nat>, r: nat)
    requires amounts != [] && r > 0
    ensures Sum(Normalised(amounts, r)) == r
  {
    ScaledFallsShort(amounts, r);
    TopUpSum(Scaled(amounts, r), r);
  }

  /** Contributions are left alone if and only if they already add up to the requirement. */
  lemma LeftAlone(amounts: seq<nat>, r: nat)
    requires amounts != [] && r > 0
    ensures Normalised(amounts, r) == amounts <==> Sum(amounts) == r
  {
    Conservation(amounts, r);
  }

  // ----- fairness

  /** What the operator receives on top of their own rounded share. */
  function Surplus(amounts: seq<nat>, r: nat): int {
    r - Sum(Scaled(amounts, r))
  }

  lemma SurplusTotal(amounts: seq<nat>, r: nat, s: nat, n: nat) returns (q: nat)
    requires s == Sum(amounts) && n == |amounts|
    ensures q == Sum(Scaled(amounts, r)) && s * r <= q * (s + 1) + n * s
  {
    q := Sum(Shares(amounts, r, s));
    ShareSum(amounts, r, s);
  }

  lemma SurplusArithmetic(r: int, q: int, n: int, s: int)
    requires s * r <= q * (s + 1) + n * s && n >= 1
    ensures (r - q - n) * (s + 1) < r
  {
    calc {
      (r - q - n) * (s + 1);
      r * (s + 1) - q * (s + 1) - n * (s + 1);
      s * r + r - q * (s + 1) - n * s - n;
    }
  }

  /** The surplus t is at least one unit and, but for one unit a contributor, less than one
      (S+1)-th of the requirement. */
  lemma SurplusBounds(amounts: seq<nat>, r: nat, s: nat, n: nat, t: int)
    requires amounts != [] && r > 0
    requires s == Sum(amounts) && n == |amounts| && t == Surplus(amounts, r)
    ensures t >= 1
    ensures (t - n) * (s + 1) < r
  {
    ScaledFallsShort(amounts, r);
    var q := SurplusTotal(amounts, r, s, n);
    SurplusArithmetic(r, q, n, s);
  }

  lemma ContributorArithmetic(q: nat, x: nat, s: nat)
    requires q * (s + 1) <= x <= q * (s + 1) + s
    ensures q * s <= x < (q + 1) * (s + 1)
  {
    assert q * (s + 1) == q * s + q;
    Distribute(q, 1, s + 1);
  }

  lemma ContributorShareOf(a: nat, r: nat, s: nat)
    ensures Share(a, r, s) * s <= a * r < (Share(a, r, s) + 1) * (s + 1)
  {
    ShareBounds(a, r, s);
    ContributorArithmetic(Share(a, r, s), a * r, s);
  }

  lemma NormalisedOthers(amounts: seq<nat>, r: nat, i: nat)
    requires 0 < i < |amounts| && Sum(amounts) != r
    ensures Normalised(amounts, r)[i] == Share(amounts[i], r, Sum(amounts))
  {
    assert Normalised(amounts, r)[i] == Scaled(amounts, r)[i];
  }

  /** Nobody but the operator receives more than their exact share, and nobody loses a
      whole unit against their share of S+1: q is what contributor i gets for a. */
  lemma ContributorShare(amounts: seq<nat>, r: nat, i: nat, s: nat, a: nat, q: nat)
    requires 0 < i < |amounts| && r > 0 && Sum(amounts) == s != r
    requires a == amounts[i] && q == Normalised(amounts, r)[i]
    ensures q * s <= a * r < (q + 1) * (s + 1)
  {
    NormalisedOthers(amounts, r, i);
    ContributorShareOf(a, r, s);
  }

  lemma NormalisedOperator(amounts: seq<nat>, r: nat)
    requires amounts != [] && r > 0 && Sum(amounts) != r
    ensures Normalised(amounts, r)[0] == Share(amounts[0], r, Sum(amounts)) + Surplus(amounts, r)
    ensures Surplus(amounts, r) >= 1
  {
    ScaledFallsShort(amounts, r);
    assert Scaled(amounts, r)[0] == Share(amounts[0], r, Sum(amounts));
  }

  lemma ShareTotal(amounts: seq<nat>, r: nat, s: nat) returns (total: nat)
    ensures total == Sum(Shares(amounts, r, s)) && total * (s + 1) <= Sum(amounts) * r
  {
    total := Sum(Shares(amounts, r, s));
    ShareSum(amounts, r, s);
  }

  lemma NoShare(r: nat, s: nat)
    ensures Share(0, r, s) == 0
  {
  }

  lemma OthersTotal(amounts: seq<nat>, r: nat, s: nat) returns (others: nat)
    requires amounts != [] && s == Sum(amounts)
    ensures others == Sum(Shares(amounts[0 := 0], r, s))
    ensures others == Sum(Scaled(amounts, r)) - Share(amounts[0], r, s)
  {
    var scaled := Scaled(amounts, r);
    SumUpdate(scaled, 0, 0);
    NoShare(r, s);
    assert Shares(amounts[0 := 0], r, s) == scaled[0 := 0];
    others := Sum(scaled[0 := 0]);
  }

  /** All contributors but the operator get no more than their share of S+1. */
  lemma OthersShare(amounts: seq<nat>, r: nat, s: nat) returns (others: nat)
    requires amounts != [] && r > 0 && Sum(amounts) == s != r
    ensures others <= r && Normalised(amounts, r)[0] == r - others
    ensures amounts[0] <= s && others * (s + 1) <= (s - amounts[0]) * r
  {
    // the same amounts, with the operator's set to zero
    var rest := amounts[0 := 0];
    others := OthersTotal(amounts, r, s);
    NormalisedOperator(amounts, r);
    SumBounds(amounts, 0);
    SumUpdate(amounts, 0, 0);
    var total := ShareTotal(rest, r, s);
    assert total == others;
  }

  lemma ShareOrder(q: nat, a: nat, s: nat, r: nat)
    requires q * (s + 1) >= (a + 1) * r && a <= s
    ensures q * s >= a * r
  {
    if s > 0 && q * s < a * r {
      calc {
        q * s * (s + 1);
      <  { assert q * s + 1 <= a * r; Larger(a * r, q * s + 1, s + 1); Distribute(q * s, 1, s + 1); }
        a * r * (s + 1);
      == a * r * s + a * r;
      <= { Larger(s, a, r); }
        a * r * s + s * r;
      == { Distribute(a, 1, r); Distribute(a * r, r, s); }
        (a + 1) * r * s;
      <= { Larger(q * (s + 1), (a + 1) * r, s); }
        q * (s + 1) * s;
      == { assert q * (s + 1) * s == q * s * (s + 1); }
        q * s * (s + 1);
      }
    }
  }

  /** With the others held to their share of S+1, the operator gets (a+1)/(S+1) of r or
      more, which is at least a/S of it. */
  lemma OperatorArithmetic(r: nat, others: nat, s: nat, a: nat, q: nat)
    requires others * (s + 1) <= (s - a) * r && a <= s && q == r - others
    ensures q * s >= a * r
  {
    calc {
      (r - others) * (s + 1);
      r * (s + 1) - others * (s + 1);
    >=
      r * (s + 1) - (s - a) * r;
      (a + 1) * r;
    }
    ShareOrder(q, a, s, r);
  }

  /** The operator never receives less than their exact share: q is what they get for a. */
  lemma OperatorShare(amounts: seq<nat>, r: nat, s: nat, a: nat, q: nat)
    requires amounts != [] && r > 0 && s == Sum(amounts)
    requires a == amounts[0] && q == Normalised(amounts, r)[0]
    ensures q * s >= a * r
  {
    if s != r {
      var others := OthersShare(amounts, r, s);
      OperatorArithmetic(r, others, s, a, q);
    }
  }

  lemma QuotientOrder(p: nat, q: nat, s: nat)
    requires p * (s + 1) <= q * (s + 1) + s
    ensures p <= q
  {
    if p > q {
      Larger(p, q + 1, s + 1);
    }
  }

  lemma ShareMonotone(a: nat, b: nat, r: nat, s: nat)
    requires a <= b
    ensures Share(a, r, s) <= Share(b, r, s)
  {
    Larger(b, a, r);
    ShareBounds(a, r, s);
    ShareBounds(b, r, s);
    QuotientOrder(Share(a, r, s), Share(b, r, s), s);
  }

  /** Rescaling keeps the order of the contributors, and an operator who contributed most
      still does. */
  lemma OrderKept(amounts: seq<nat>, r: nat, i: nat, j: nat)
    requires i < |amounts| && 0 < j < |amounts| && r > 0
    requires amounts[j] <= amounts[i]
    ensures Normalised(amounts, r)[j] <= Normalised(amounts, r)[i]
  {
    if Sum(amounts) != r {
      ShareMonotone(amounts[j], amounts[i], r, Sum(amounts));
      NormalisedOthers(amounts, r, j);
      if i == 0 {
        NormalisedOperator(amounts, r);
      } else {
        NormalisedOthers(amounts, r, i);
      }
    }
  }

  // ----- inexact quotients

  ghost predicate Capped(amounts: seq<nat>, scaled: seq<nat>, num: nat, den: nat) {
    |scaled| == |amounts| && forall i :: 0 <= i < |amounts| ==> scaled[i] * den <= amounts[i] * num
  }

  /** If no amount grew by more than the factor num/den, then neither did their sum. */
  lemma {:induction false} CappedSum(amounts: seq<nat>, scaled: seq<nat>, num: nat, den: nat)
    requires Capped(amounts, scaled, num, den)
    ensures Sum(scaled) * den <= Sum(amounts) * num
  {
    if amounts == [] {
    } else {
      var n := |amounts| - 1;
      CappedSum(amounts[..n], scaled[..n], num, den);
      Distribute(Sum(scaled[..n]), scaled[n], den);
      Distribute(Sum(amounts[..n]), amounts[n], num);
    }
  }

  lemma CapArithmetic(q: nat, s: nat, r: nat, k: nat)
    requires q * ((s + 1) * k) <= s * (r * (k + 1)) && s <= k && 0 < k
    ensures q <= r
  {
    var d := (s + 1) * k;
    calc {
      s * (r * (k + 1));
      r * (s * (k + 1));
    <= { assert s * (k + 1) <= d; Larger(d, s * (k + 1), r); }
      r * d;
    }
    if q > r {
      Larger(q, r + 1, d);
      Distribute(r, 1, d);
    }
  }

  /** Conservation survives every inexact way of computing the shares a*R/(S+1) that is never
      too large by more than the factor 1 + 1/k, for some k no smaller than the sum S.
      In particular it survives binary64 arithmetic, whose two roundings together stay
      within 1 + 1/2^51, for every sum up to 2^51. */
  lemma RoundingRobust(amounts: seq<nat>, scaled: seq<nat>, r: nat, k: nat, s: nat, num: nat, den: nat)
    requires amounts != [] && s == Sum(amounts) <= k && 0 < k
    requires num == r * (k + 1) && den == (s + 1) * k && Capped(amounts, scaled, num, den)
    ensures Sum(TopUp(scaled, r)) == r
  {
    assert Sum(scaled) <= r by {
      CappedSum(amounts, scaled, num, den);
      CapArithmetic(Sum(scaled), s, r, k);
    }
    TopUpSum(scaled, r);
  }
}
