/** Sharing a total in proportion to weights so that the parts add up to it exactly. */
module Allocation {
  import opened Arithmetic
  import opened Results
  import opened Rounding

  /** The quotient without its fraction: towards zero. */
  function Truncated(num: int, den: nat): int
    requires den > 0
  {
    if num < 0 then -((-num) / den) else num / den
  }

  predicate NonNegative(weights: seq<int>) {
    forall i :: 0 <= i < |weights| ==> weights[i] >= 0
  }

  /** The share of each weight, truncated. */
  function Shares(total: int, weights: seq<int>, whole: nat): seq<int>
    requires whole > 0
  {
    if weights == [] then []
    else Shares(total, weights[..|weights| - 1], whole) + [Truncated(total * weights[|weights| - 1], whole)]
  }

  predicate SameDirection(part: int, total: int) {
    (total >= 0 ==> part >= 0) && (total <= 0 ==> part <= 0)
  }

  /** The parts add up, all but the first are the truncated shares, and the first takes what is left. */
  predicate IsAllocation(total: int, weights: seq<int>, parts: seq<int>) {
    && |parts| == |weights| > 0
    && Sum(weights) > 0
    && Sum(parts) == total
    && (forall i :: 1 <= i < |parts| ==> parts[i] == Truncated(total * weights[i], Sum(weights)))
    && (forall i :: 0 <= i < |parts| ==> SameDirection(parts[i], total))
    && Abs(parts[0] - Truncated(total * weights[0], Sum(weights))) <= |weights| - 1
  }

  lemma {:induction false} SumConcat(a: seq<int>, b: seq<int>)
    ensures Sum(a + b) == Sum(a) + Sum(b)
    decreases |b|
  {
    if b == [] {
      assert a + b == a;
    } else {
      assert (a + b)[..|a + b| - 1] == a + b[..|b| - 1];
      SumConcat(a, b[..|b| - 1]);
    }
  }

  lemma {:induction false} SumNonNegative(weights: seq<int>)
    requires NonNegative(weights)
    ensures Sum(weights) >= 0
    decreases |weights|
  {
    if weights != [] {
      SumNonNegative(weights[..|weights| - 1]);
    }
  }

  lemma {:induction false} SharesAt(total: int, weights: seq<int>, whole: nat)
    requires whole > 0
    ensures var shares := Shares(total, weights, whole);
            |shares| == |weights| && forall i :: 0 <= i < |shares| ==> shares[i] == Truncated(total * weights[i], whole)
    decreases |weights|
  {
    if weights != [] {
      SharesAt(total, weights[..|weights| - 1], whole);
    }
  }

  /** One share leaves less than the whole of its product. */
  lemma ShareDeficit(num: nat, whole: nat)
    requires whole > 0
    ensures 0 <= num - Truncated(num, whole) * whole <= whole - 1
  {
    assert num == (num / whole) * whole + num % whole;
  }

  lemma DeficitStep(total: nat, weights: int, last: nat, shared: int, share: int, whole: nat, count: nat)
    requires whole > 0
    requires 0 <= total * weights - shared * whole <= count * (whole - 1)
    requires 0 <= total * last - share * whole <= whole - 1
    ensures 0 <= total * (weights + last) - (shared + share) * whole <= (count + 1) * (whole - 1)
  {
    Distribute(shared, share, whole);
    assert total * (weights + last) == total * weights + total * last;
    MulSucc(count, whole - 1);
  }

  lemma SharesNext(total: int, init: seq<int>, last: int, whole: nat)
    requires whole > 0
    ensures Sum(Shares(total, init + [last], whole)) == Sum(Shares(total, init, whole)) + Truncated(total * last, whole)
    ensures Sum(init + [last]) == Sum(init) + last
  {
    assert (init + [last])[..|init|] == init;
    SumAppend(Shares(total, init, whole), Truncated(total * last, whole));
  }

  /** What truncation leaves of a non-negative total, in units of the sum of the weights. */
  lemma {:induction false} SharesDeficit(total: nat, weights: seq<int>, whole: nat)
    requires whole > 0 && NonNegative(weights)
    ensures 0 <= total * Sum(weights) - Sum(Shares(total, weights, whole)) * whole <= |weights| * (whole - 1)
    decreases |weights|
  {
    if weights != [] {
      var init, last := weights[..|weights| - 1], weights[|weights| - 1];
      SharesDeficit(total, init, whole);
      ProductNonNegative(total, last);
      ShareDeficit(total * last, whole);
      assert weights == init + [last];
      SharesNext(total, init, last, whole);
      DeficitStep(total, Sum(init), last, Sum(Shares(total, init, whole)), Truncated(total * last, whole), whole,
        |init|);
    }
  }

  lemma TruncatedNegates(num: int, den: nat)
    requires den > 0
    ensures Truncated(-num, den) == -Truncated(num, den)
  {
    if num == 0 {
      QuotientUnique(0, den, 0, 0);
    } else if num > 0 {
      DoubleNegation(num, -num, den);
    }
  }

  lemma DoubleNegation(num: int, negated: int, den: nat)
    requires den > 0 && negated == -num
    ensures (-negated) / den == num / den
  {
    assert -negated == num;
  }

  lemma SumAppend(values: seq<int>, last: int)
    ensures Sum(values + [last]) == Sum(values) + last
  {
    assert (values + [last])[..|values|] == values;
  }

  lemma {:induction false} SharesNegated(total: int, weights: seq<int>, whole: nat)
    requires whole > 0
    ensures Sum(Shares(-total, weights, whole)) == -Sum(Shares(total, weights, whole))
    decreases |weights|
  {
    if weights != [] {
      var init, last := weights[..|weights| - 1], weights[|weights| - 1];
      SharesNegated(total, init, whole);
      NegatedProduct(total, last);
      TruncatedNegates(total * last, whole);
      SumAppend(Shares(total, init, whole), Truncated(total * last, whole));
      SumAppend(Shares(-total, init, whole), Truncated((-total) * last, whole));
    }
  }

  lemma DeficitCount(rest: int, whole: nat, count: nat)
    requires whole > 0 && count > 0 && 0 <= rest * whole <= count * (whole - 1)
    ensures 0 <= rest <= count - 1
  {
    assert count * (whole - 1) == count * whole - count;
    if rest < 0 {
      ProductGap(rest, 0, whole);
    } else if rest >= count {
      MulMonotone(count, rest, whole);
    }
  }

  /** The residue has the sign of the total and is smaller than the number of parts. */
  lemma ResidueBound(total: int, weights: seq<int>)
    requires weights != [] && NonNegative(weights) && Sum(weights) > 0
    ensures var rest := total - Sum(Shares(total, weights, Sum(weights)));
            SameDirection(rest, total) && Abs(rest) <= |weights| - 1
  {
    var whole := Sum(weights);
    var magnitude := Abs(total);
    SharesDeficit(magnitude, weights, whole);
    SharesNegated(magnitude, weights, whole);
    var shared := Sum(Shares(magnitude, weights, whole));
    Distribute(magnitude, -shared, whole);
    NegatedProduct(shared, whole);
    DeficitCount(magnitude - shared, whole, |weights|);
  }

  lemma ProductDirection(total: int, weight: nat)
    ensures SameDirection(total * weight, total)
  {
    NegatedProduct(total, weight);
  }

  lemma ShareDirection(total: int, weight: nat, whole: nat)
    requires whole > 0
    ensures SameDirection(Truncated(total * weight, whole), total)
  {
    ProductDirection(total, weight);
    TruncatedDirection(total * weight, whole);
  }

  lemma TruncatedDirection(num: int, den: nat)
    requires den > 0
    ensures SameDirection(Truncated(num, den), num)
  {
  }

  method SumMinor(values: seq<int>) returns (total: int)
    ensures total == Sum(values)
  {
    total := 0;
    for i := 0 to |values|
      invariant total == Sum(values[..i])
    {
      assert values[..i + 1][..i] == values[..i];
      total := total + values[i];
    }
    assert values[..|values|] == values;
  }

  /** Giving the residue to the first share makes an allocation. */
  lemma ResidueToFirst(total: int, weights: seq<int>, parts: seq<int>)
    requires weights != [] && NonNegative(weights) && Sum(weights) > 0
    requires var shares := Shares(total, weights, Sum(weights));
             |shares| == |weights| && parts == [shares[0] + (total - Sum(shares))] + shares[1..]
    ensures IsAllocation(total, weights, parts)
  {
    var shares := Shares(total, weights, Sum(weights));
    SharesAt(total, weights, Sum(weights));
    ResidueBound(total, weights);
    SumConcat([parts[0]], shares[1..]);
    SumConcat([shares[0]], shares[1..]);
    assert shares == [shares[0]] + shares[1..];
    assert Sum([parts[0]]) == parts[0] && Sum([shares[0]]) == shares[0];
    forall i | 0 <= i < |parts|
      ensures SameDirection(parts[i], total)
    {
      ShareDirection(total, weights[i], Sum(weights));
    }
  }

  method AllocateProportionally(total: int, weights: seq<int>) returns (result: Result<seq<int>>)
    ensures result.Ok? <==> weights != [] && NonNegative(weights) && Sum(weights) != 0
    ensures result.Ok? ==> IsAllocation(total, weights, result.value)
    ensures weights == [] ==> result == Err("NoParts")
    ensures weights != [] && !NonNegative(weights) ==> result == Err("NegativeWeight")
    ensures weights != [] && NonNegative(weights) && Sum(weights) == 0 ==> result == Err("ZeroWeights")
  {
    if |weights| == 0 {
      return Err("NoParts");
    }
    if exists i :: 0 <= i < |weights| && weights[i] < 0 {
      return Err("NegativeWeight");
    }
    var weightTotal := SumMinor(weights);
    if weightTotal == 0 {
      return Err("ZeroWeights");
    }
    SumNonNegative(weights);
    var parts := new int[|weights|];
    for i := 0 to |weights|
      invariant parts[..i] == Shares(total, weights[..i], weightTotal)
    {
      parts[i] := Truncated(total * weights[i], weightTotal);
      assert weights[..i + 1][..i] == weights[..i];
      assert parts[..i + 1] == parts[..i] + [parts[i]];
    }
    assert weights[..|weights|] == weights && parts[..|weights|] == parts[..];
    ghost var shares := parts[..];
    var shared := SumMinor(parts[..]);
    parts[0] := parts[0] + (total - shared);
    ResidueToFirst(total, weights, parts[..]);
    return Ok(parts[..]);
  }

  /** An allocation is determined by the total and the weights. */
  lemma AllocationUnique(total: int, weights: seq<int>, parts: seq<int>, others: seq<int>)
    requires IsAllocation(total, weights, parts) && IsAllocation(total, weights, others)
    ensures parts == others
  {
    SumConcat([parts[0]], parts[1..]);
    SumConcat([others[0]], others[1..]);
    assert parts[1..] == others[1..];
    assert parts == [parts[0]] + parts[1..] && others == [others[0]] + others[1..];
    assert Sum([parts[0]]) == parts[0] && Sum([others[0]]) == others[0];
  }

  lemma {:induction false} SumOfOnes(weights: seq<int>)
    requires forall i :: 0 <= i < |weights| ==> weights[i] == 1
    ensures Sum(weights) == |weights|
    decreases |weights|
  {
    if weights != [] {
      SumOfOnes(weights[..|weights| - 1]);
    }
  }

  lemma {:induction false} SumOfEqual(parts: seq<int>, value: int)
    requires forall i :: 0 <= i < |parts| ==> parts[i] == value
    ensures Sum(parts) == |parts| * value
    decreases |parts|
  {
    if parts != [] {
      SumOfEqual(parts[..|parts| - 1], value);
      Distribute(|parts| - 1, 1, value);
    }
  }

  /** Equal parts: all but the first are the truncated quotient, and the first has the remainder on top. */
  method SplitEvenly(total: int, count: int) returns (result: Result<seq<int>>)
    ensures result.Ok? <==> count >= 1
    ensures result.Ok? ==>
      && |result.value| == count
      && Sum(result.value) == total
      && (forall i :: 1 <= i < count ==> result.value[i] == Truncated(total, count))
      && result.value[0] == Truncated(total, count) + Signed(total < 0, Abs(total) % count)
  {
    if count < 1 {
      return Err("InvalidCount");
    }
    var ones := seq(count, _ => 1);
    SumOfOnes(ones);
    result := AllocateProportionally(total, ones);
    EvenParts(total, count, ones, result.value);
  }

  lemma EvenParts(total: int, count: nat, ones: seq<int>, parts: seq<int>)
    requires count >= 1 && |ones| == count && Sum(ones) == count
    requires forall i :: 0 <= i < count ==> ones[i] == 1
    requires IsAllocation(total, ones, parts)
    ensures forall i :: 1 <= i < count ==> parts[i] == Truncated(total, count)
    ensures parts[0] == Truncated(total, count) + Signed(total < 0, Abs(total) % count)
  {
    var share, first, rest := Truncated(total, count), parts[0], parts[1..];
    EvenShares(total, count, ones, parts, share);
    FirstAndRest(parts, first, rest);
    SumOfEqual(rest, share);
    EvenRemainder(total, count, share, first);
  }

  lemma EvenShares(total: int, count: nat, ones: seq<int>, parts: seq<int>, share: int)
    requires |ones| == count && Sum(ones) == count && IsAllocation(total, ones, parts)
    requires forall i :: 0 <= i < count ==> ones[i] == 1
    requires share == Truncated(total, count)
    ensures forall i :: 1 <= i < count ==> parts[i] == share
  {
    forall i | 1 <= i < count
      ensures parts[i] == share
    {
      assert total * ones[i] == total;
    }
  }

  lemma FirstAndRest(parts: seq<int>, first: int, rest: seq<int>)
    requires parts == [first] + rest
    ensures Sum(parts) == first + Sum(rest)
  {
    SumConcat([first], rest);
    assert [first][..0] == [] && Sum([first]) == first;
  }

  lemma EvenRemainder(total: int, count: nat, share: int, first: int)
    requires count >= 1 && share == Truncated(total, count)
    requires first + (count - 1) * share == total
    ensures first == share + Signed(total < 0, Abs(total) % count)
  {
    var quotient := Abs(total) / count;
    assert Abs(total) == quotient * count + Abs(total) % count;
    NegatedProduct(quotient, count);
    assert (count - 1) * share == share * count - share;
  }
}
