/** Unspent transaction outputs as the chain data provider lists them, their
    total value, and the first-fit selection rule used when spending them. */
module Utxos {

  /** Transaction identifiers and addresses are opaque strings to this model. */
  type TxId = string
  type Address = string

  /** One unspent output: the transaction that created it, its output index
      within that transaction and its value in satoshis. */
  datatype Utxo = Utxo(txid: TxId, vout: nat, value: nat)

  /** Total value, in satoshis, of a list of unspent outputs. */
  function Total(us: seq<Utxo>): nat
  {
    if us == [] then 0 else us[0].value + Total(us[1..])
  }

  /** The number of outputs the first-fit rule takes from the front of `us`
      to cover `target`: it takes nothing more once the target is covered,
      and takes everything when the list cannot cover it. This is the
      reference definition the selection loop is proved against. */
  function FirstFit(us: seq<Utxo>, target: int): (k: nat)
    ensures k <= |us|
  {
    if target <= 0 || us == [] then 0
    else 1 + FirstFit(us[1..], target - us[0].value)
  }

  /** `k` is where a front-to-back scan over `us` that stops as soon as the
      running total reaches `target` comes to rest: no shorter prefix covers
      the target, and the prefix of length `k` either covers it or is the
      whole list. */
  ghost predicate StopsAt(us: seq<Utxo>, target: int, k: nat)
  {
    k <= |us| &&
    (forall j :: 0 <= j < k ==> Total(us[..j]) < target) &&
    (k == |us| || target <= Total(us[..k]))
  }

  /** Splitting off the first output of a non-empty prefix. */
  lemma {:induction false} TotalPrefixCons(us: seq<Utxo>, j: nat)
    requires j < |us|
    ensures Total(us[..j + 1]) == us[0].value + Total(us[1..][..j])
  {
    assert us[..j + 1][1..] == us[1..][..j];
  }

  /** Extending a prefix by one output adds that output's value: this is the
      running-total update of the selection loop. */
  lemma {:induction false} TotalSnoc(us: seq<Utxo>, i: nat)
    requires i < |us|
    ensures Total(us[..i + 1]) == Total(us[..i]) + us[i].value
  {
    if i == 0 {
      assert us[..1][1..] == [];
    } else {
      TotalSnoc(us[1..], i - 1);
      TotalPrefixCons(us, i);
      TotalPrefixCons(us, i - 1);
    }
  }

  /** Values are never negative, so a prefix is worth at most the whole list. */
  lemma {:induction false} TotalPrefixBounded(us: seq<Utxo>, i: nat)
    requires i <= |us|
    ensures Total(us[..i]) <= Total(us)
  {
    if i == 0 {
    } else {
      TotalPrefixBounded(us[1..], i - 1);
      TotalPrefixCons(us, i - 1);
    }
  }

  /** The reference definition has the outright first-fit property. */
  lemma {:induction false} FirstFitStops(us: seq<Utxo>, target: int)
    ensures StopsAt(us, target, FirstFit(us, target))
  {
    if target <= 0 || us == [] {
    } else {
      var rest := target - us[0].value;
      FirstFitStops(us[1..], rest);
      var k := FirstFit(us, target);
      forall j | 0 <= j < k
        ensures Total(us[..j]) < target
      {
        if j > 0 {
          TotalPrefixCons(us, j - 1);
        }
      }
      if k < |us| {
        TotalPrefixCons(us, k - 1);
      }
    }
  }

  /** Conversely, any stopping point with the first-fit property is the one
      the reference definition gives: the stopping point is unique. */
  lemma {:induction false} StopsAtIsFirstFit(us: seq<Utxo>, target: int, k: nat)
    requires StopsAt(us, target, k)
    ensures k == FirstFit(us, target)
  {
    if k == 0 {
      assert us == [] || target <= Total(us[..0]);
    } else {
      assert Total(us[..0]) < target;
      var rest := target - us[0].value;
      forall j | 0 <= j < k - 1
        ensures Total(us[1..][..j]) < rest
      {
        TotalPrefixCons(us, j);
      }
      if k < |us| {
        TotalPrefixCons(us, k - 1);
      }
      StopsAtIsFirstFit(us[1..], rest, k - 1);
    }
  }

  /** Raising the amount or the fee never makes first-fit take fewer outputs. */
  lemma {:induction false} FirstFitMonotone(us: seq<Utxo>, t1: int, t2: int)
    requires t1 <= t2
    ensures FirstFit(us, t1) <= FirstFit(us, t2)
  {
    if t1 <= 0 || us == [] {
    } else {
      FirstFitMonotone(us[1..], t1 - us[0].value, t2 - us[0].value);
    }
  }

  /** First-fit covers the target exactly when the whole list does. */
  lemma FirstFitCovers(us: seq<Utxo>, target: int)
    ensures target <= Total(us[..FirstFit(us, target)]) <==> target <= Total(us)
  {
    var k := FirstFit(us, target);
    FirstFitStops(us, target);
    TotalPrefixBounded(us, k);
    if k == |us| {
      assert us[..k] == us;
    }
  }
}
