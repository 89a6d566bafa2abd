/** The partially signed transaction builder that the send operation fills in
    place: inputs and outputs are appended one at a time, in call order. */
module PsbtBuilder {
  import opened Utxos

  /** The previous transaction's raw bytes, as fetched from the provider. */
  type RawTx = seq<bv8>

  /** An input reference: the spent transaction's id (`hash`), the output
      index within it (`index`) and that whole transaction (`nonWitnessUtxo`),
      which legacy signing needs. */
  datatype PsbtInput = PsbtInput(hash: TxId, index: nat, nonWitnessUtxo: RawTx)

  /** An output paying `value` satoshis to `address`. */
  datatype PsbtOutput = PsbtOutput(address: Address, value: int)

  /** Total value paid by a list of outputs. */
  function OutputSum(os: seq<PsbtOutput>): int
  {
    if os == [] then 0 else os[0].value + OutputSum(os[1..])
  }

  /** A builder holding the inputs and outputs added so far. */
  class Psbt {
    var inputs: seq<PsbtInput>
    var outputs: seq<PsbtOutput>

    /** A new builder has no inputs and no outputs. */
    constructor ()
      ensures inputs == [] && outputs == []
    {
      inputs := [];
      outputs := [];
    }

    /** Appends one input after those already present; the outputs are untouched. */
    method AddInput(input: PsbtInput)
      modifies this
      ensures inputs == old(inputs) + [input]
      ensures outputs == old(outputs)
    {
      inputs := inputs + [input];
    }

    /** Appends one output after those already present; the inputs are untouched. */
    method AddOutput(output: PsbtOutput)
      modifies this
      ensures outputs == old(outputs) + [output]
      ensures inputs == old(inputs)
    {
      outputs := outputs + [output];
    }
  }
}
