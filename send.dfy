/** The coin selection and output planning of the send operation: walk the
    provider's unspent outputs in order, add them as inputs until they cover
    amount plus fee, then pay the destination and return any change to the
    sender. Signing, finalisation and broadcast are not part of this model. */
module SendBitcoin {
  import opened Utxos
  import opened PsbtBuilder

  /** What the planning step ends with: either the funds do not suffice
      (`available` is what all outputs together are worth), or the builder's
      inputs and outputs together with the value of the chosen inputs. */
  datatype SendPlan =
    | InsufficientFunds(available: nat)
    | Planned(inputs: seq<PsbtInput>, outputs: seq<PsbtOutput>, totalInput: nat)

  /** Plans a payment of `amount` satoshis to `toAddress` with a fixed `fee`,
      spending outputs owned by `fromAddress`. `utxos` is the provider's list
      in the order it was returned and `prevTx` stands for the provider's
      raw-transaction lookup. */
  method PlanSend(utxos: seq<Utxo>, prevTx: TxId -> RawTx, fromAddress: Address,
                  toAddress: Address, amount: int, fee: int) returns (r: SendPlan)
    // the payment fails exactly when all outputs together fall short
    ensures r.InsufficientFunds? <==> Total(utxos) < amount + fee
    ensures r.InsufficientFunds? ==> r.available == Total(utxos)
    // the inputs spend a prefix of the list, in order
    ensures r.Planned? ==> |r.inputs| <= |utxos|
    // each input carries that output's txid, vout and fetched previous transaction
    ensures r.Planned? ==> forall j :: 0 <= j < |r.inputs| ==>
              r.inputs[j].hash == utxos[j].txid && r.inputs[j].index == utxos[j].vout &&
              r.inputs[j].nonWitnessUtxo == prevTx(utxos[j].txid)
    // that prefix is where first-fit stops, and the running total is its value
    ensures r.Planned? ==> |r.inputs| == FirstFit(utxos, amount + fee)
    ensures r.Planned? ==> r.totalInput == Total(utxos[..|r.inputs|])
    ensures r.Planned? ==> amount + fee <= r.totalInput
    ensures r.Planned? ==> forall j :: 0 <= j < |r.inputs| ==> Total(utxos[..j]) < amount + fee
    // the destination is paid first; change, if any, goes back to the sender
    ensures r.Planned? ==> 1 <= |r.outputs| <= 2 && r.outputs[0] == PsbtOutput(toAddress, amount)
    ensures r.Planned? ==> (|r.outputs| == 2 <==> r.totalInput - (amount + fee) > 0)
    ensures r.Planned? && |r.outputs| == 2 ==>
              r.outputs[1] == PsbtOutput(fromAddress, r.totalInput - (amount + fee))
    // outputs plus the fee use up exactly what the inputs bring in
    ensures r.Planned? ==> OutputSum(r.outputs) + fee == r.totalInput
  {
    var psbt := new Psbt();
    var totalInput: nat := 0;
    var i := 0;
    while i < |utxos|
      invariant 0 <= i <= |utxos|
      invariant |psbt.inputs| == i && psbt.outputs == []
      invariant forall j :: 0 <= j < i ==>
                  psbt.inputs[j] == PsbtInput(utxos[j].txid, utxos[j].vout, prevTx(utxos[j].txid))
      invariant totalInput == Total(utxos[..i])
      invariant forall j :: 0 <= j < i ==> Total(utxos[..j]) < amount + fee
    {
      if totalInput >= amount + fee {
        break;
      }
      var utxo := utxos[i];
      var txHex := prevTx(utxo.txid);
      psbt.AddInput(PsbtInput(utxo.txid, utxo.vout, txHex));
      TotalSnoc(utxos, i);
      totalInput := totalInput + utxo.value;
      i := i + 1;
    }

    TotalPrefixBounded(utxos, i);
    if totalInput < amount + fee {
      assert utxos[..i] == utxos;
      return InsufficientFunds(totalInput);
    }
    StopsAtIsFirstFit(utxos, amount + fee, i);

    psbt.AddOutput(PsbtOutput(toAddress, amount));
    var change := totalInput - (amount + fee);
    if change > 0 {
      psbt.AddOutput(PsbtOutput(fromAddress, change));
      assert OutputSum(psbt.outputs[1..]) == change;
    }
    r := Planned(psbt.inputs, psbt.outputs, totalInput);
  }
}
