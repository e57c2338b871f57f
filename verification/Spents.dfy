/** Spent outputs and the balance of an address.
  *
  * `transaction_update_spents` marks which outputs of an address are spent by the transactions in a
  * list; `BcoinClient.getbalance` adds the outputs an address received and subtracts the inputs it
  * spent. The two are proved to agree on a complete list.
  */
module Spents {
  import opened Wrappers

  type TxId = string
  type Address = string

  datatype Outpoint = Outpoint(txid: TxId, n: nat)

  datatype Input = Input(prev: Outpoint, address: Address, value: nat, indexN: nat)

  /** How an output was spent: by which transaction, through which of its inputs. */
  datatype Spending = Spending(txid: TxId, indexN: nat)

  class Output {
    const n: nat
    const address: Address
    const value: nat
    var spent: bool
    var spending: Option<Spending>

    constructor (n: nat, address: Address, value: nat)
      ensures this.n == n && this.address == address && this.value == value
    {
      this.n, this.address, this.value := n, address, value;
      spent, spending := false, None;
    }
  }

  datatype Transaction = Transaction(txid: TxId, inputs: seq<Input>, outputs: seq<Output>)

  /** Transactions are told apart by their ids, outputs by their numbers, and no two list entries
      share an output object. */
  ghost predicate IsList(txs: seq<Transaction>) {
    && (forall i, j :: 0 <= i < j < |txs| ==> txs[i].txid != txs[j].txid)
    && (forall i, j :: 0 <= i < |txs| && 0 <= j < |txs[i].outputs| ==> txs[i].outputs[j].n == j)
    && (forall i, j, i', j' | 0 <= i < |txs| && 0 <= j < |txs[i].outputs|
                              && 0 <= i' < |txs| && 0 <= j' < |txs[i'].outputs| ::
          txs[i].outputs[j] == txs[i'].outputs[j'] ==> i == i' && j == j')
  }

  // ---------------------------------------------------------------- marking

  /** Transaction `k` spends the output through an input of the address. */
  ghost predicate Spends(txs: seq<Transaction>, address: Address, op: Outpoint, k: nat)
    requires k < |txs|
  {
    exists m :: 0 <= m < |txs[k].inputs| && txs[k].inputs[m].prev == op && txs[k].inputs[m].address == address
  }

  ghost predicate IsSpent(txs: seq<Transaction>, address: Address, op: Outpoint) {
    exists k :: 0 <= k < |txs| && Spends(txs, address, op, k)
  }

  /** No transaction behind `k` spends the output. */
  ghost predicate IsLastSpender(txs: seq<Transaction>, address: Address, op: Outpoint, k: nat) {
    && k < |txs| && Spends(txs, address, op, k)
    && forall i :: k < i < |txs| ==> !Spends(txs, address, op, i)
  }

  /** Input `m` is the first that spends the output, for whatever address. */
  ghost predicate IsFirstInput(inputs: seq<Input>, op: Outpoint, m: nat) {
    m < |inputs| && inputs[m].prev == op && forall i :: 0 <= i < m ==> inputs[i].prev != op
  }

  /** The recorded spending names the last transaction that spends the output and its first input that does. */
  ghost predicate IsLastSpending(txs: seq<Transaction>, address: Address, op: Outpoint, s: Spending) {
    exists k: nat, m: nat :: IsLastSpender(txs, address, op, k) && IsFirstInput(txs[k].inputs, op, m)
      && s == Spending(txs[k].txid, txs[k].inputs[m].indexN)
  }

  /** The dictionary of spent outputs: for each, the position of the last transaction that spends it. */
  method SpendList(txs: seq<Transaction>, address: Address) returns (spends: map<Outpoint, nat>)
    ensures forall op :: op in spends ==> spends[op] < |txs| && Spends(txs, address, op, spends[op])
    ensures forall op, k :: 0 <= k < |txs| && Spends(txs, address, op, k) ==> op in spends && k <= spends[op]
  {
    spends := map[];
    for i := 0 to |txs|
      invariant forall op :: op in spends ==> spends[op] < i && Spends(txs, address, op, spends[op])
      invariant forall op, k :: 0 <= k < i && Spends(txs, address, op, k) ==> op in spends && k <= spends[op]
    {
      var inputs := txs[i].inputs;
      for m := 0 to |inputs|
        invariant forall op :: op in spends ==> spends[op] <= i && Spends(txs, address, op, spends[op])
        invariant forall op, k :: 0 <= k < i && Spends(txs, address, op, k) ==> op in spends && k <= spends[op]
        invariant forall m' :: 0 <= m' < m && inputs[m'].address == address ==>
                    inputs[m'].prev in spends && spends[inputs[m'].prev] == i
      {
        if inputs[m].address == address {
          assert Spends(txs, address, inputs[m].prev, i);
          spends := spends[inputs[m].prev := i];
        }
      }
    }
  }

  /** The position of the first input that spends the output. */
  method FindInput(inputs: seq<Input>, op: Outpoint) returns (m: nat)
    requires exists i :: 0 <= i < |inputs| && inputs[i].prev == op
    ensures IsFirstInput(inputs, op, m)
  {
    m := 0;
    while inputs[m].prev != op
      invariant m < |inputs| && forall i :: 0 <= i < m ==> inputs[i].prev != op
      decreases |inputs| - m
    {
      m := m + 1;
    }
  }

  /** What `transaction_update_spents` promises about an output of the address. */
  ghost predicate IsMarked(txs: seq<Transaction>, address: Address, txid: TxId, o: Output)
    reads o
  {
    var op := Outpoint(txid, o.n);
    && (o.spent <==> IsSpent(txs, address, op))
    && (o.spent ==> o.spending.Some? && IsLastSpending(txs, address, op, o.spending.value))
  }

  ghost function OutputObjects(txs: seq<Transaction>): set<object> {
    set i, j | 0 <= i < |txs| && 0 <= j < |txs[i].outputs| :: txs[i].outputs[j]
  }

  method MarkOutput(txs: seq<Transaction>, address: Address, spends: map<Outpoint, nat>, txid: TxId, o: Output)
    requires forall op :: op in spends ==> spends[op] < |txs| && Spends(txs, address, op, spends[op])
    requires forall op, k :: 0 <= k < |txs| && Spends(txs, address, op, k) ==> op in spends && k <= spends[op]
    modifies o
    ensures IsMarked(txs, address, txid, o)
    ensures !o.spent ==> o.spending == old(o.spending)
  {
    var op := Outpoint(txid, o.n);
    o.spent := op in spends;
    if o.spent {
      var t := txs[spends[op]];
      var m := FindInput(t.inputs, op);
      assert IsLastSpender(txs, address, op, spends[op]);
      o.spending := Some(Spending(t.txid, t.inputs[m].indexN));
    }
  }

  method UpdateSpents(txs: seq<Transaction>, address: Address)
    requires IsList(txs)
    modifies OutputObjects(txs)
    ensures forall i, j :: 0 <= i < |txs| && 0 <= j < |txs[i].outputs| && txs[i].outputs[j].address == address ==>
              IsMarked(txs, address, txs[i].txid, txs[i].outputs[j])
    ensures forall i, j :: 0 <= i < |txs| && 0 <= j < |txs[i].outputs| && txs[i].outputs[j].address != address ==>
              && txs[i].outputs[j].spent == old(txs[i].outputs[j].spent)
              && txs[i].outputs[j].spending == old(txs[i].outputs[j].spending)
  {
    var spends := SpendList(txs, address);
    hide IsSpent, IsLastSpending, Spends;
    for i := 0 to |txs|
      invariant forall i', j :: 0 <= i' < i && 0 <= j < |txs[i'].outputs| && txs[i'].outputs[j].address == address ==>
                  IsMarked(txs, address, txs[i'].txid, txs[i'].outputs[j])
      invariant forall i', j :: 0 <= i' < |txs| && 0 <= j < |txs[i'].outputs| && txs[i'].outputs[j].address != address ==>
                  && txs[i'].outputs[j].spent == old(txs[i'].outputs[j].spent)
                  && txs[i'].outputs[j].spending == old(txs[i'].outputs[j].spending)
    {
      for j := 0 to |txs[i].outputs|
        invariant forall i', j :: 0 <= i' < i && 0 <= j < |txs[i'].outputs| && txs[i'].outputs[j].address == address ==>
                    IsMarked(txs, address, txs[i'].txid, txs[i'].outputs[j])
        invariant forall j' :: 0 <= j' < j && txs[i].outputs[j'].address == address ==>
                    IsMarked(txs, address, txs[i].txid, txs[i].outputs[j'])
        invariant forall i', j :: 0 <= i' < |txs| && 0 <= j < |txs[i'].outputs| && txs[i'].outputs[j].address != address ==>
                    && txs[i'].outputs[j].spent == old(txs[i'].outputs[j].spent)
                    && txs[i'].outputs[j].spending == old(txs[i'].outputs[j].spending)
      {
        var to := txs[i].outputs[j];
        if to.address == address {
          MarkOutput(txs, address, spends, txs[i].txid, txs[i].outputs[to.n]);
        }
      }
    }
  }

  // ---------------------------------------------------------------- the balance

  /** An amount at an outpoint. */
  datatype Coin = Coin(op: Outpoint, value: nat)

  function Sum(coins: seq<Coin>): nat {
    if coins == [] then 0 else coins[0].value + Sum(coins[1..])
  }

  /** The outputs an address received, in the order the balance loop adds them. */
  function CoinsOf(t: Transaction, address: Address, n: nat): seq<Coin>
    requires n <= |t.outputs|
  {
    if n == 0 then []
    else
      var o := t.outputs[n - 1];
      CoinsOf(t, address, n - 1) + if o.address == address then [Coin(Outpoint(t.txid, o.n), o.value)] else []
  }

  function Received(txs: seq<Transaction>, address: Address): seq<Coin> {
    if txs == [] then []
    else
      var t := txs[|txs| - 1];
      Received(txs[..|txs| - 1], address) + CoinsOf(t, address, |t.outputs|)
  }

  function SpentBy(inputs: seq<Input>, address: Address): seq<Coin> {
    if inputs == [] then []
    else
      var i := inputs[|inputs| - 1];
      SpentBy(inputs[..|inputs| - 1], address) + if i.address == address then [Coin(i.prev, i.value)] else []
  }

  function AllSpent(txs: seq<Transaction>, address: Address): seq<Coin> {
    if txs == [] then [] else AllSpent(txs[..|txs| - 1], address) + SpentBy(txs[|txs| - 1].inputs, address)
  }

  lemma {:induction false} SumConcat(a: seq<Coin>, b: seq<Coin>)
    ensures Sum(a + b) == Sum(a) + Sum(b)
  {
    if a == [] {
      assert a + b == b;
    } else {
      assert (a + b)[1..] == a[1..] + b;
      SumConcat(a[1..], b);
    }
  }

  lemma SumOne(c: Coin)
    ensures Sum([c]) == c.value
  {
    assert [c][1..] == [];
  }

  /** The first summation loop of `getbalance`, for one address. */
  method AddOutputs(txs: seq<Transaction>, address: Address, start: int) returns (balance: int)
    ensures balance == start + Sum(Received(txs, address))
  {
    balance := start;
    for i := 0 to |txs|
      invariant balance == start + Sum(Received(txs[..i], address))
    {
      assert txs[..i + 1][..i] == txs[..i];
      SumConcat(Received(txs[..i], address), CoinsOf(txs[i], address, |txs[i].outputs|));
      ghost var before := balance;
      for j := 0 to |txs[i].outputs|
        invariant balance == before + Sum(CoinsOf(txs[i], address, j))
      {
        var a := txs[i].outputs[j];
        var coins := CoinsOf(txs[i], address, j);
        if a.address == address {
          balance := balance + a.value;
          SumConcat(coins, [Coin(Outpoint(txs[i].txid, a.n), a.value)]);
          SumOne(Coin(Outpoint(txs[i].txid, a.n), a.value));
        } else {
          assert coins + [] == coins;
        }
      }
    }
    assert txs[..|txs|] == txs;
  }

  /** The second summation loop. */
  method SubtractInputs(txs: seq<Transaction>, address: Address, start: int) returns (balance: int)
    ensures balance == start - Sum(AllSpent(txs, address))
  {
    balance := start;
    for i := 0 to |txs|
      invariant balance == start - Sum(AllSpent(txs[..i], address))
    {
      assert txs[..i + 1][..i] == txs[..i];
      SumConcat(AllSpent(txs[..i], address), SpentBy(txs[i].inputs, address));
      ghost var before := balance;
      var inputs := txs[i].inputs;
      for m := 0 to |inputs|
        invariant balance == before - Sum(SpentBy(inputs[..m], address))
      {
        assert inputs[..m + 1][..m] == inputs[..m];
        var a := inputs[m];
        var coins := SpentBy(inputs[..m], address);
        if a.address == address {
          balance := balance - a.value;
          SumConcat(coins, [Coin(a.prev, a.value)]);
          SumOne(Coin(a.prev, a.value));
        } else {
          assert coins + [] == coins;
        }
      }
      assert inputs[..|inputs|] == inputs;
    }
    assert txs[..|txs|] == txs;
  }

  function AddressBalance(txs: seq<Transaction>, address: Address): int {
    Sum(Received(txs, address)) - Sum(AllSpent(txs, address))
  }

  /** The history a service knows of an address; None when it is not complete. */
  type History = Option<seq<Transaction>>

  /** The sum over the first `n` addresses; None as soon as a history is not complete. */
  function TotalBalance(addresses: seq<Address>, histories: seq<History>, n: nat): Option<int>
    requires n <= |addresses| == |histories|
  {
    if n == 0 then Some(0)
    else
      match TotalBalance(addresses, histories, n - 1)
      case None => None
      case Some(balance) =>
        match histories[n - 1]
        case None => None
        case Some(txs) => Some(balance + AddressBalance(txs, addresses[n - 1]))
  }

  lemma {:induction false} NoTotalBehind(addresses: seq<Address>, histories: seq<History>, n: nat, m: nat)
    requires n <= m <= |addresses| == |histories| && TotalBalance(addresses, histories, n) == None
    ensures TotalBalance(addresses, histories, m) == None
  {
    if n < m {
      NoTotalBehind(addresses, histories, n, m - 1);
    }
  }

  /** There is no balance exactly when a history is not complete. */
  lemma {:induction false} NoTotalIff(addresses: seq<Address>, histories: seq<History>, n: nat)
    requires n <= |addresses| == |histories|
    ensures TotalBalance(addresses, histories, n) == None <==> exists h :: 0 <= h < n && histories[h] == None
  {
    if n > 0 {
      NoTotalIff(addresses, histories, n - 1);
    }
  }

  /** The two loops for one address. */
  method AddBalance(txs: seq<Transaction>, address: Address, start: int) returns (balance: int)
    ensures balance == start + AddressBalance(txs, address)
  {
    hide Received, AllSpent, Sum;
    balance := AddOutputs(txs, address, start);
    balance := SubtractInputs(txs, address, balance);
  }

  /** `BcoinClient.getbalance`; None when it raises. */
  method GetBalance(addresses: seq<Address>, histories: seq<History>) returns (r: Option<int>)
    requires |addresses| == |histories|
    ensures r == TotalBalance(addresses, histories, |addresses|)
    ensures r == None <==> None in histories
  {
    hide AddressBalance;
    NoTotalIff(addresses, histories, |addresses|);
    var balance := 0;
    for i := 0 to |addresses|
      invariant TotalBalance(addresses, histories, i) == Some(balance)
    {
      if histories[i] == None {
        NoTotalBehind(addresses, histories, i + 1, |addresses|);
        return None;
      }
      balance := AddBalance(histories[i].value, addresses[i], balance);
    }
    r := Some(balance);
  }

  // ---------------------------------------------------------------- conservation

  /** The coins not in `gone`. */
  function Left(coins: seq<Coin>, gone: set<Outpoint>): seq<Coin> {
    if coins == [] then []
    else (if coins[0].op in gone then [] else [coins[0]]) + Left(coins[1..], gone)
  }

  ghost predicate Distinct(coins: seq<Coin>) {
    forall i, j :: 0 <= i < j < |coins| ==> coins[i].op != coins[j].op
  }

  function Ops(coins: seq<Coin>): set<Outpoint> {
    set c | c in coins :: c.op
  }

  /** Spending one more coin lowers what is left by its value. */
  lemma {:induction false} LeftLess(coins: seq<Coin>, gone: set<Outpoint>, c: Coin)
    requires Distinct(coins) && c.op !in gone
    ensures c in coins ==> Sum(Left(coins, gone)) == Sum(Left(coins, gone + {c.op})) + c.value
    ensures (forall d :: d in coins ==> d.op != c.op) ==> Left(coins, gone + {c.op}) == Left(coins, gone)
  {
    if coins != [] {
      LeftLess(coins[1..], gone, c);
      var rest, rest' := Left(coins[1..], gone), Left(coins[1..], gone + {c.op});
      SumConcat(if coins[0].op in gone then [] else [coins[0]], rest);
      SumConcat(if coins[0].op in gone + {c.op} then [] else [coins[0]], rest');
      SumOne(coins[0]);
    }
  }

  lemma {:induction false} LeftAll(coins: seq<Coin>)
    ensures Left(coins, {}) == coins
  {
    if coins != [] {
      LeftAll(coins[1..]);
    }
  }

  /** Spending a list of distinct coins lowers what is left by their sum. */
  lemma {:induction false} LeftAfter(coins: seq<Coin>, spent: seq<Coin>)
    requires Distinct(coins) && Distinct(spent) && forall c :: c in spent ==> c in coins
    ensures Sum(Left(coins, Ops(spent))) == Sum(coins) - Sum(spent)
  {
    if spent == [] {
      assert Ops(spent) == {};
      LeftAll(coins);
    } else {
      var rest := spent[1..];
      LeftAfter(coins, rest);
      assert spent[0].op !in Ops(rest);
      LeftLess(coins, Ops(rest), spent[0]);
      assert Ops(spent) == Ops(rest) + {spent[0].op} by {
        assert spent == [spent[0]] + rest;
      }
    }
  }

  /** The list holds every transaction of the address, and none of its coins is spent twice. */
  ghost predicate IsComplete(txs: seq<Transaction>, address: Address) {
    && (forall c :: c in AllSpent(txs, address) ==> c in Received(txs, address))
    && Distinct(AllSpent(txs, address))
  }

  lemma {:induction false} CoinsOfMembers(t: Transaction, address: Address, n: nat)
    requires n <= |t.outputs| && forall j :: 0 <= j < |t.outputs| ==> t.outputs[j].n == j
    ensures Distinct(CoinsOf(t, address, n))
    ensures forall c :: c in CoinsOf(t, address, n) ==> c.op.txid == t.txid && c.op.n < n
  {
    if n > 0 {
      CoinsOfMembers(t, address, n - 1);
    }
  }

  lemma {:induction false} ReceivedDistinct(txs: seq<Transaction>, address: Address)
    requires IsList(txs)
    ensures Distinct(Received(txs, address))
    ensures forall c :: c in Received(txs, address) ==> exists i :: 0 <= i < |txs| && txs[i].txid == c.op.txid
  {
    if txs != [] {
      var init, t := txs[..|txs| - 1], txs[|txs| - 1];
      ReceivedDistinct(init, address);
      CoinsOfMembers(t, address, |t.outputs|);
      var a, b := Received(init, address), CoinsOf(t, address, |t.outputs|);
      forall i, j | 0 <= i < |a| && 0 <= j < |b| ensures a[i].op != b[j].op {
        assert a[i] in a && b[j] in b;
      }
      forall c | c in a + b ensures exists i :: 0 <= i < |txs| && txs[i].txid == c.op.txid {
        if c in a {
          var i :| 0 <= i < |init| && init[i].txid == c.op.txid;
          assert txs[i].txid == c.op.txid;
        } else {
          assert txs[|txs| - 1].txid == c.op.txid;
        }
      }
    }
  }

  lemma {:induction false} SpentByMembers(inputs: seq<Input>, address: Address, op: Outpoint)
    ensures op in Ops(SpentBy(inputs, address)) <==>
            exists m :: 0 <= m < |inputs| && inputs[m].prev == op && inputs[m].address == address
  {
    if inputs != [] {
      var init, i := inputs[..|inputs| - 1], inputs[|inputs| - 1];
      SpentByMembers(init, address, op);
      var a := SpentBy(init, address);
      assert i.address == address ==> Ops(a + [Coin(i.prev, i.value)]) == Ops(a) + {i.prev} by {
        OpsAppend(a, Coin(i.prev, i.value));
      }
      assert a + [] == a;
      if op in Ops(a) {
        var m :| 0 <= m < |init| && init[m].prev == op && init[m].address == address;
        assert inputs[m].prev == op;
      }
      if exists m :: 0 <= m < |inputs| && inputs[m].prev == op && inputs[m].address == address {
        var m :| 0 <= m < |inputs| && inputs[m].prev == op && inputs[m].address == address;
        assert m < |init| ==> init[m].prev == op && init[m].address == address;
      }
    }
  }

  lemma OpsAppend(a: seq<Coin>, c: Coin)
    ensures Ops(a + [c]) == Ops(a) + {c.op}
  {
    assert c in a + [c];
    forall d | d in a ensures d in a + [c] {
    }
  }

  lemma OpsConcat(a: seq<Coin>, b: seq<Coin>)
    ensures Ops(a + b) == Ops(a) + Ops(b)
  {
    forall d | d in a || d in b ensures d in a + b {
    }
  }

  /** An outpoint is among the spent coins exactly when the marking calls it spent. */
  lemma {:induction false} AllSpentMembers(txs: seq<Transaction>, address: Address, op: Outpoint)
    ensures op in Ops(AllSpent(txs, address)) <==> IsSpent(txs, address, op)
  {
    if txs != [] {
      var init, k := txs[..|txs| - 1], |txs| - 1;
      AllSpentMembers(init, address, op);
      SpentByMembers(txs[k].inputs, address, op);
      OpsConcat(AllSpent(init, address), SpentBy(txs[k].inputs, address));
      assert op in Ops(SpentBy(txs[k].inputs, address)) <==> Spends(txs, address, op, k);
      if IsSpent(init, address, op) {
        var i :| 0 <= i < |init| && Spends(init, address, op, i);
        assert Spends(txs, address, op, i);
      }
      if IsSpent(txs, address, op) {
        var i :| 0 <= i < |txs| && Spends(txs, address, op, i);
        assert i < k ==> Spends(init, address, op, i);
      }
    }
  }

  /** The values of the address's outputs that are not marked spent. */
  function Unspent(t: Transaction, address: Address, n: nat): nat
    requires n <= |t.outputs|
    reads t.outputs
  {
    if n == 0 then 0
    else
      var o := t.outputs[n - 1];
      Unspent(t, address, n - 1) + if o.address == address && !o.spent then o.value else 0
  }

  function AllUnspent(txs: seq<Transaction>, address: Address): nat
    reads set i, j | 0 <= i < |txs| && 0 <= j < |txs[i].outputs| :: txs[i].outputs[j]
  {
    if txs == [] then 0
    else
      var t := txs[|txs| - 1];
      AllUnspent(txs[..|txs| - 1], address) + Unspent(t, address, |t.outputs|)
  }

  lemma {:induction false} LeftConcat(a: seq<Coin>, b: seq<Coin>, gone: set<Outpoint>)
    ensures Left(a + b, gone) == Left(a, gone) + Left(b, gone)
  {
    if a == [] {
      assert a + b == b;
    } else {
      assert (a + b)[1..] == a[1..] + b;
      LeftConcat(a[1..], b, gone);
    }
  }

  /** The spent flags of the address's outputs in `t` say which of its coins are gone. */
  ghost predicate FlagsAgree(t: Transaction, address: Address, gone: set<Outpoint>)
    reads t.outputs
  {
    forall j :: 0 <= j < |t.outputs| && t.outputs[j].address == address ==>
      (t.outputs[j].spent <==> Outpoint(t.txid, t.outputs[j].n) in gone)
  }

  lemma {:induction false} UnspentIsLeft(t: Transaction, address: Address, n: nat, gone: set<Outpoint>)
    requires n <= |t.outputs| && FlagsAgree(t, address, gone)
    ensures Unspent(t, address, n) == Sum(Left(CoinsOf(t, address, n), gone))
  {
    if n > 0 {
      UnspentIsLeft(t, address, n - 1, gone);
      var o := t.outputs[n - 1];
      var coins := CoinsOf(t, address, n - 1);
      if o.address == address {
        var c := Coin(Outpoint(t.txid, o.n), o.value);
        LeftConcat(coins, [c], gone);
        assert [c][1..] == [];
        SumConcat(Left(coins, gone), Left([c], gone));
        SumOne(c);
        assert Left([c], gone) == if c.op in gone then [] else [c];
      } else {
        assert coins + [] == coins;
      }
    }
  }

  lemma {:induction false} AllUnspentIsLeft(txs: seq<Transaction>, address: Address, gone: set<Outpoint>)
    requires forall i :: 0 <= i < |txs| ==> FlagsAgree(txs[i], address, gone)
    ensures AllUnspent(txs, address) == Sum(Left(Received(txs, address), gone))
  {
    if txs != [] {
      var init, t := txs[..|txs| - 1], txs[|txs| - 1];
      AllUnspentIsLeft(init, address, gone);
      UnspentIsLeft(t, address, |t.outputs|, gone);
      LeftConcat(Received(init, address), CoinsOf(t, address, |t.outputs|), gone);
      SumConcat(Left(Received(init, address), gone), Left(CoinsOf(t, address, |t.outputs|), gone));
    }
  }

  /** The list has been marked for the address. */
  ghost predicate IsMarkedFor(txs: seq<Transaction>, address: Address)
    reads set i, j | 0 <= i < |txs| && 0 <= j < |txs[i].outputs| :: txs[i].outputs[j]
  {
    forall i, j :: 0 <= i < |txs| && 0 <= j < |txs[i].outputs| && txs[i].outputs[j].address == address ==>
      IsMarked(txs, address, txs[i].txid, txs[i].outputs[j])
  }

  /** On a complete list that has been marked, the balance is the value of the outputs left unspent. */
  lemma BalanceIsUnspent(txs: seq<Transaction>, address: Address)
    requires IsList(txs) && IsComplete(txs, address)
    requires IsMarkedFor(txs, address)
    ensures AddressBalance(txs, address) == AllUnspent(txs, address)
  {
    var gone := Ops(AllSpent(txs, address));
    ReceivedDistinct(txs, address);
    LeftAfter(Received(txs, address), AllSpent(txs, address));
    forall i | 0 <= i < |txs| ensures FlagsAgree(txs[i], address, gone) {
      forall j | 0 <= j < |txs[i].outputs| && txs[i].outputs[j].address == address
        ensures txs[i].outputs[j].spent <==> Outpoint(txs[i].txid, txs[i].outputs[j].n) in gone
      {
        AllSpentMembers(txs, address, Outpoint(txs[i].txid, txs[i].outputs[j].n));
      }
    }
    AllUnspentIsLeft(txs, address, gone);
  }

  /** The objects of all histories. */
  ghost function HistoryObjects(histories: seq<History>): set<object> {
    set h, i, j | 0 <= h < |histories| && histories[h].Some? && 0 <= i < |histories[h].value|
                  && 0 <= j < |histories[h].value[i].outputs| :: histories[h].value[i].outputs[j]
  }

  /** What the first `n` addresses have left unspent, each in its own history. */
  function TotalUnspent(addresses: seq<Address>, histories: seq<History>, n: nat): nat
    requires n <= |addresses| == |histories| && forall h :: 0 <= h < n ==> histories[h].Some?
    reads HistoryObjects(histories)
  {
    if n == 0 then 0
    else TotalUnspent(addresses, histories, n - 1) + AllUnspent(histories[n - 1].value, addresses[n - 1])
  }

  /** The balance of a list of addresses with complete and marked histories is all they have unspent. */
  lemma {:induction false} BalancesAreUnspent(addresses: seq<Address>, histories: seq<History>, n: nat)
    requires n <= |addresses| == |histories|
    requires forall h :: 0 <= h < n ==>
               && histories[h].Some? && IsList(histories[h].value) && IsComplete(histories[h].value, addresses[h])
               && IsMarkedFor(histories[h].value, addresses[h])
    ensures TotalBalance(addresses, histories, n) == Some(TotalUnspent(addresses, histories, n))
  {
    hide IsList, IsComplete, IsMarkedFor, AddressBalance, AllUnspent, HistoryObjects;
    if n > 0 {
      BalancesAreUnspent(addresses, histories, n - 1);
      BalanceIsUnspent(histories[n - 1].value, addresses[n - 1]);
    }
  }
}
