/** The fee and change arithmetic of `Wallet.transaction_create`.
  *
  * Amounts are integers, the random split uses exact rationals. What is proved is conservation: no
  * branch creates or loses value, and the final check of the totals can fail in one case only.
  */
module Change {

  function Sum(xs: seq<int>): int {
    if xs == [] then 0 else xs[0] + Sum(xs[1..])
  }

  function SumReal(xs: seq<real>): real {
    if xs == [] then 0.0 else xs[0] + SumReal(xs[1..])
  }

  /** Python's `int` of a float: truncation towards zero. */
  function Truncate(x: real): int {
    if x >= 0.0 then x.Floor else -((-x).Floor)
  }

  // ---------------------------------------------------------------- splitting the change

  /** Weights as `random.random()` draws them, not all zero. */
  ghost predicate AreWeights(ws: seq<real>) {
    (forall i :: 0 <= i < |ws| ==> ws[i] >= 0.0) && SumReal(ws) > 0.0
  }

  /** What a weight entitles to, before rounding: the minimum and a share of what is above it. */
  function Share(w: real, total: real, min: int, rest: int): real
    requires total > 0.0
  {
    min as real + (w / total) * rest as real
  }

  lemma {:induction false} SumAppend(xs: seq<int>, x: int)
    ensures Sum(xs + [x]) == Sum(xs) + x
  {
    if xs == [] {
      assert [x][1..] == [];
    } else {
      assert (xs + [x])[1..] == xs[1..] + [x];
      SumAppend(xs[1..], x);
    }
  }

  lemma {:induction false} SumRealAppend(xs: seq<real>, x: real)
    ensures SumReal(xs + [x]) == SumReal(xs) + x
  {
    if xs == [] {
      assert [x][1..] == [];
    } else {
      assert (xs + [x])[1..] == xs[1..] + [x];
      SumRealAppend(xs[1..], x);
    }
  }

  lemma SumUpdateFirst(xs: seq<int>, d: int)
    requires xs != []
    ensures Sum(xs[0 := xs[0] + d]) == Sum(xs) + d
  {
    assert xs[0 := xs[0] + d][1..] == xs[1..];
  }

  lemma ShareBounds(w: real, total: real, min: nat, rest: nat)
    requires w >= 0.0 && total > 0.0
    ensures Truncate(Share(w, total, min, rest)) >= min
    ensures Truncate(Share(w, total, min, rest)) as real <= Share(w, total, min, rest)
  {
    assert w / total >= 0.0;
    assert (w / total) * rest as real >= 0.0;
  }

  /** What is promised of an amount behind the first one. */
  ghost predicate IsShare(amount: int, w: real, total: real, min: int, rest: int)
    requires total > 0.0
  {
    amount == min + ((w / total) * rest as real).Floor
  }

  lemma ShareIs(w: real, total: real, min: nat, rest: nat)
    requires w >= 0.0 && total > 0.0
    ensures IsShare(Truncate(Share(w, total, min, rest)), w, total, min, rest)
  {
    assert w / total >= 0.0;
    var x := (w / total) * rest as real;
    assert x >= 0.0;
    assert (min as real + x).Floor == min + x.Floor;
  }

  /** What `n` weights summing to `s` entitle to together. */
  function Entitled(n: nat, s: real, total: real, min: int, rest: int): real
    requires total > 0.0
  {
    (n * min) as real + (s / total) * rest as real
  }

  lemma EntitledGrows(n: nat, s: real, w: real, total: real, min: int, rest: int)
    requires total > 0.0
    ensures Entitled(n + 1, s + w, total, min, rest) == Entitled(n, s, total, min, rest) + Share(w, total, min, rest)
  {
    assert (s + w) / total == s / total + w / total;
    var a, b, r := s / total, w / total, rest as real;
    assert (a + b) * r == a * r + b * r;
    assert (n + 1) * min == n * min + min;
  }

  lemma EntitledAll(n: nat, total: real, min: int, rest: int)
    requires total > 0.0
    ensures Entitled(0, 0.0, total, min, rest) == 0.0
    ensures Entitled(n, total, total, min, rest) == (n * min + rest) as real
  {
    assert total / total == 1.0 && 0.0 / total == 0.0;
  }

  /** The amounts sum to the change exactly, and each is at least the minimum. */
  method SplitChange(change: int, min: nat, weights: seq<real>) returns (amounts: seq<int>)
    requires AreWeights(weights) && |weights| * min <= change
    ensures |amounts| == |weights|
    ensures Sum(amounts) == change
    ensures forall i :: 0 <= i < |amounts| ==> amounts[i] >= min
    ensures forall i :: 1 <= i < |amounts| ==>
              IsShare(amounts[i], weights[i], SumReal(weights), min, change - |weights| * min)
  {
    hide Share, Truncate, Entitled, IsShare;
    var total := SumReal(weights);
    var totalMinusMin := change - |weights| * min;
    EntitledAll(|weights|, total, min, totalMinusMin);
    amounts := [];
    for i := 0 to |weights|
      invariant |amounts| == i
      invariant forall j :: 0 <= j < i ==>
                  amounts[j] >= min && IsShare(amounts[j], weights[j], total, min, totalMinusMin)
      invariant Sum(amounts) as real <= Entitled(i, SumReal(weights[..i]), total, min, totalMinusMin)
    {
      assert weights[..i + 1] == weights[..i] + [weights[i]];
      SumRealAppend(weights[..i], weights[i]);
      var amount := Truncate(Share(weights[i], total, min, totalMinusMin));
      ShareBounds(weights[i], total, min, totalMinusMin);
      ShareIs(weights[i], total, min, totalMinusMin);
      EntitledGrows(i, SumReal(weights[..i]), weights[i], total, min, totalMinusMin);
      SumAppend(amounts, amount);
      amounts := amounts + [amount];
    }
    assert weights[..|weights|] == weights;
    var roundingDiff := change - Sum(amounts);
    assert roundingDiff >= 0;
    SumUpdateFirst(amounts, roundingDiff);
    amounts := amounts[0 := amounts[0] + roundingDiff];
  }

  // ---------------------------------------------------------------- transaction_create

  datatype Error = TooFewFunds | OutputsExceedInputs | TotalsDiffer

  datatype Outcome = Created | Failed(error: Error)

  /** The `fee` argument once names of priorities are replaced by estimates. */
  datatype FeeArgument = NotGiven | Given(fee: int)

  /** What network and fee estimation contribute. `sizeFee` is the fee for the estimated size,
      `feePerOutput` the fee one more output costs. */
  datatype Estimates = Estimates(dust: nat, feeMin: nat, sizeFee: nat, feePerOutput: nat, minOutputValue: nat)

  /** Fee and change when `asked` is the fee and what is left has to be more than the dust limit and no less
      than `least` to be kept as change. */
  ghost predicate IsSettled(fee: int, change: int, left: int, asked: int, dust: int, least: int) {
    if left - asked > dust && left - asked >= least then fee == asked && change == left - asked
    else fee == left && change == 0
  }

  class Transaction {
    const totalIn: int
    var outputs: seq<int>
    var fee: int
    var change: int

    constructor (totalIn: int, outputs: seq<int>)
      ensures this.totalIn == totalIn && this.outputs == outputs
    {
      this.totalIn := totalIn;
      this.outputs := outputs;
      fee, change := 0, 0;
    }

    /** `Calculate fees` and `Skip change`. Whatever the branch, fee and change are what the inputs leave over. */
    method SetFee(feeArgument: FeeArgument, ownInputs: bool, e: Estimates)
      modifies this`fee, this`change
      ensures fee + change == totalIn - Sum(outputs)
      ensures change == 0 || change > e.dust
      // inputs chosen by the wallet: the fee for the estimated size
      ensures feeArgument == NotGiven && !ownInputs ==>
                IsSettled(fee, change, totalIn - Sum(outputs), e.sizeFee, e.dust, e.feePerOutput)
      // own inputs: everything that is left over
      ensures feeArgument == NotGiven && ownInputs && totalIn != 0 && Sum(outputs) != 0 ==>
                fee == totalIn - Sum(outputs) && change == 0
      ensures feeArgument == NotGiven && ownInputs && (totalIn == 0 || Sum(outputs) == 0) ==>
                IsSettled(fee, change, totalIn - Sum(outputs), 0, e.dust, 0)
      ensures feeArgument.Given? ==> IsSettled(fee, change, totalIn - Sum(outputs), feeArgument.fee, e.dust, 0)
    {
      var totalOut := Sum(outputs);
      var asked := feeArgument;
      var perOutput := 0;
      if feeArgument == NotGiven {
        if !ownInputs {
          asked := Given(e.sizeFee);
          perOutput := e.feePerOutput;
        } else if totalOut == 0 || totalIn == 0 {
          asked := Given(0);
        }
      }
      if asked == NotGiven {
        change := 0;
        fee := totalIn - totalOut;
      } else {
        fee := asked.fee;
        change := totalIn - (totalOut + fee);
      }
      if (perOutput != 0 && change < perOutput) || change <= e.dust {
        fee := fee + change;
        change := 0;
      }
    }

    method AddOutputs(amounts: seq<int>)
      modifies this`outputs
      ensures outputs == old(outputs) + amounts
    {
      for idx := 0 to |amounts|
        invariant outputs == old(outputs) + amounts[..idx]
      {
        outputs := outputs + [amounts[idx]];
      }
    }

    /** The change outputs and the final check. `number` is the number of change outputs, after a
        request for 0 has been replaced by a random choice; a wallet with one key has one change key. */
    method AddChange(number: nat, oneKey: bool, weights: seq<real>, e: Estimates) returns (r: Outcome)
      requires |weights| == number >= 1 && AreWeights(weights)
      requires fee + change == totalIn - Sum(outputs)
      modifies this`outputs
      ensures r == Failed(OutputsExceedInputs) <==> change < 0
      ensures r == Failed(TooFewFunds) <==> change > 0 && number > 1 && change / number < e.minOutputValue
      ensures r == Created ==> totalIn == Sum(outputs) + fee
      ensures r == Created ==> old(outputs) <= outputs
      ensures r == Created && (!oneKey || number == 1) ==>
                AreChange(outputs[old(|outputs|)..], change, number, e.minOutputValue)
      ensures r == Failed(TotalsDiffer) ==> oneKey && number > 1 && change > 0
      ensures e.minOutputValue > 0 ==>
                (r == Failed(TotalsDiffer)
                 <==> oneKey && number > 1 && change > 0 && change / number >= e.minOutputValue)
    {
      hide Sum, AreWeights;
      ghost var before := outputs;
      if change < 0 {
        return Failed(OutputsExceedInputs);
      }
      if change != 0 {
        var averageChange := change / number;
        if number > 1 && averageChange < e.minOutputValue {
          return Failed(TooFewFunds);
        }
        EnoughForAll(change, number, e.minOutputValue);
        var changeKeys := if oneKey then 1 else number;
        var changeAmounts := ChangeAmounts(change, e.minOutputValue, weights);
        AddOutputs(changeAmounts[..changeKeys]);
        assert outputs[|before|..] == changeAmounts[..changeKeys];
        SumConcat(before, changeAmounts[..changeKeys]);
        SumOfPart(changeAmounts, changeKeys, e.minOutputValue);
      } else {
        SumOfOne(change);
        assert outputs[|before|..] == [];
      }
      if totalIn != fee + Sum(outputs) {
        return Failed(TotalsDiffer);
      }
      return Created;
    }

    /** Fee, change and outputs together. The error about outputs that exceed the inputs is never
        raised: a shortfall has been taken out of the fee by then. */
    method Complete(feeArgument: FeeArgument, ownInputs: bool, number: nat, oneKey: bool,
                    weights: seq<real>, e: Estimates) returns (r: Outcome)
      requires |weights| == number >= 1 && AreWeights(weights)
      modifies this`fee, this`change, this`outputs
      ensures r != Failed(OutputsExceedInputs)
      ensures r == Created ==> totalIn == Sum(outputs) + fee
      ensures r == Created ==> old(outputs) <= outputs
      ensures r == Created && (!oneKey || number == 1) ==>
                AreChange(outputs[old(|outputs|)..], change, number, e.minOutputValue)
      ensures r == Failed(TotalsDiffer) ==> oneKey && number > 1
      ensures fee + change == totalIn - old(Sum(outputs))
      ensures feeArgument == NotGiven && !ownInputs ==>
                IsSettled(fee, change, totalIn - old(Sum(outputs)), e.sizeFee, e.dust, e.feePerOutput)
      ensures feeArgument == NotGiven && ownInputs && totalIn != 0 && old(Sum(outputs)) != 0 ==>
                fee == totalIn - old(Sum(outputs)) && change == 0
      ensures feeArgument == NotGiven && ownInputs && (totalIn == 0 || old(Sum(outputs)) == 0) ==>
                IsSettled(fee, change, totalIn - old(Sum(outputs)), 0, e.dust, 0)
      ensures feeArgument.Given? ==> IsSettled(fee, change, totalIn - old(Sum(outputs)), feeArgument.fee, e.dust, 0)
    {
      SetFee(feeArgument, ownInputs, e);
      r := AddChange(number, oneKey, weights, e);
    }
  }

  /** The outputs added are the change: none, or as many as asked for, none below the minimum. */
  ghost predicate AreChange(added: seq<int>, change: int, number: nat, min: nat) {
    && Sum(added) == change
    && |added| == (if change == 0 then 0 else number)
    && (number > 1 ==> forall i :: 0 <= i < |added| ==> added[i] >= min)
  }

  method ChangeAmounts(change: int, min: nat, weights: seq<real>) returns (amounts: seq<int>)
    requires weights != [] && AreWeights(weights)
    requires |weights| > 1 ==> |weights| * min <= change
    ensures |amounts| == |weights| && Sum(amounts) == change
    ensures |weights| > 1 ==> forall i :: 0 <= i < |amounts| ==> amounts[i] >= min
  {
    if |weights| > 1 {
      amounts := SplitChange(change, min, weights);
    } else {
      SumOfOne(change);
      amounts := [change];
    }
  }

  lemma SumOfOne(x: int)
    ensures Sum([x]) == x && Sum([]) == 0
  {
    assert [x][1..] == [];
  }

  /** A wallet with one change key adds the first amount only; the totals then miss the others, which
      are at least the minimum each. */
  lemma SumOfPart(amounts: seq<int>, k: nat, min: nat)
    requires 1 <= k <= |amounts|
    requires |amounts| > 1 ==> forall i :: 0 <= i < |amounts| ==> amounts[i] >= min
    ensures k == |amounts| ==> amounts[..k] == amounts
    ensures Sum(amounts) - Sum(amounts[..k]) == Sum(amounts[k..])
    ensures k < |amounts| ==> Sum(amounts[k..]) >= (|amounts| - k) * min
    ensures k < |amounts| && min > 0 ==> Sum(amounts[..k]) < Sum(amounts)
  {
    hide Sum;
    var rest := amounts[k..];
    assert amounts == amounts[..k] + rest;
    SumConcat(amounts[..k], rest);
    if k < |amounts| {
      forall i | 0 <= i < |rest| ensures rest[i] >= min {
        assert rest[i] == amounts[k + i];
      }
      SumAtLeast(rest, min);
      AtLeastOnce(|rest|, min);
    }
  }

  lemma AtLeastOnce(n: nat, min: nat)
    requires n > 0
    ensures n * min >= min
  {
  }

  lemma EnoughForAll(change: int, number: nat, min: nat)
    requires number >= 1 && change >= 0
    ensures change / number >= min ==> number * min <= change
  {
    var q := change / number;
    assert number * q <= change;
    if q >= min {
      assert number * min <= number * q;
    }
  }

  lemma {:induction false} SumConcat(xs: seq<int>, ys: seq<int>)
    ensures Sum(xs + ys) == Sum(xs) + Sum(ys)
  {
    if xs == [] {
      assert xs + ys == ys;
    } else {
      assert (xs + ys)[1..] == xs[1..] + ys;
      SumConcat(xs[1..], ys);
    }
  }

  lemma {:induction false} SumAtLeast(xs: seq<int>, min: nat)
    requires forall i :: 0 <= i < |xs| ==> xs[i] >= min
    ensures Sum(xs) >= |xs| * min
  {
    if xs != [] {
      SumAtLeast(xs[1..], min);
      assert |xs| * min == (|xs| - 1) * min + min;
    }
  }
}
