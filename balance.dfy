/** The balance query: the indexer reports, for an address, the total value
    of every output ever paid to it and the total value of those already
    spent; the balance is their difference. */
module CheckBalance {
  import opened Utxos

  /** The indexer's chain statistics for one address, in satoshis. */
  datatype ChainStats = ChainStats(fundedTxoSum: nat, spentTxoSum: nat)

  /** The displayed balance, in satoshis. */
  function Balance(stats: ChainStats): int
  {
    stats.fundedTxoSum - stats.spentTxoSum
  }

  /** One output ever paid to the address, and whether it has been spent. */
  datatype Txo = Txo(out: Utxo, spent: bool)

  /** The statistics an indexer derives from an address's output history:
      every output counts as funded, the spent ones also as spent. */
  function StatsOf(history: seq<Txo>): (s: ChainStats)
    ensures s.spentTxoSum <= s.fundedTxoSum
  {
    if history == [] then ChainStats(0, 0)
    else
      var rest := StatsOf(history[1..]);
      var v := history[0].out.value;
      ChainStats(v + rest.fundedTxoSum, (if history[0].spent then v else 0) + rest.spentTxoSum)
  }

  /** The outputs of the history not yet spent, in order. When the UTXO
      list an indexer serves agrees with its chain statistics, this is that
      list. */
  function Unspent(history: seq<Txo>): seq<Utxo>
  {
    if history == [] then []
    else (if history[0].spent then [] else [history[0].out]) + Unspent(history[1..])
  }

  /** Funded minus spent is exactly the value still unspent. */
  lemma {:induction false} BalanceIsUnspentValue(history: seq<Txo>)
    ensures Balance(StatsOf(history)) == Total(Unspent(history))
    ensures Balance(StatsOf(history)) >= 0
  {
    if history != [] {
      var rest := history[1..];
      BalanceIsUnspentValue(rest);
      if !history[0].spent {
        var u := history[0].out;
        assert Unspent(history) == [u] + Unspent(rest);
        assert ([u] + Unspent(rest))[1..] == Unspent(rest);
      } else {
        assert Unspent(history) == [] + Unspent(rest) == Unspent(rest);
      }
    }
  }

  /** Under that indexer model, the balance falls short of a target exactly
      when the unspent outputs do: the condition on which a send from the
      address reports insufficient funds. */
  lemma BalanceDecidesShortfall(history: seq<Txo>, target: int)
    ensures Balance(StatsOf(history)) < target <==> Total(Unspent(history)) < target
  {
    BalanceIsUnspentValue(history);
  }
}
