/** Two worked send scenarios, derived from the contract of PlanSend alone. */
module Scenarios {
  import opened Utxos
  import opened PsbtBuilder
  import opened SendBitcoin

  /** Outputs worth 50000 and 30000, paying 60000 with a fee of 1000: the
      first output alone does not cover 61000, so both are spent and 19000
      comes back as change. */
  method BothOutputsSpent(prevTx: TxId -> RawTx) returns (r: SendPlan)
    ensures r.Planned? && |r.inputs| == 2 && r.totalInput == 80000
    ensures r.outputs == [PsbtOutput("dest", 60000), PsbtOutput("self", 19000)]
  {
    var utxos := [Utxo("aa", 0, 50000), Utxo("bb", 1, 30000)];
    r := PlanSend(utxos, prevTx, "self", "dest", 60000, 1000);
    assert Total(utxos) == 80000;
    assert FirstFit(utxos, 61000) == 2;
    assert utxos[..2] == utxos;
  }

  /** Outputs worth 10000 in all cannot pay 20000 plus a fee of 1000. */
  method NotEnoughFunds(prevTx: TxId -> RawTx) returns (r: SendPlan)
    ensures r == InsufficientFunds(10000)
  {
    var utxos := [Utxo("cc", 0, 4000), Utxo("dd", 2, 6000)];
    r := PlanSend(utxos, prevTx, "self", "dest", 20000, 1000);
    assert Total(utxos) == 10000;
  }
}
