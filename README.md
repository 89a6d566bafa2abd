# bitcoin-cli: coin selection and output planning

This project models the part of the `bitcoin-cli` wallet utility that the
repository computes itself. The wallet is a terminal program. Its send
operation takes the unspent outputs (UTXOs) that a chain indexer lists for
the sender's address. It walks them in the order returned and adds each as an
input to a partially signed transaction (PSBT) builder. It stops as soon as
the inputs cover amount plus fee. It then pays the destination and sends any
change back to the sender. Beside that, the balance query subtracts the
indexer's spent total from its funded total.

- `utxos.dfy` (module `Utxos`): the UTXO record, the total value of a list,
  and `FirstFit`, a recursive reference definition of how many outputs the
  selection takes. The predicate `StopsAt` states the first-fit rule directly,
  and lemmas show the two agree in both directions.
- `psbt.dfy` (module `PsbtBuilder`): the builder as a class whose
  `AddInput`/`AddOutput` append to its input and output lists in place.
- `send.dfy` (module `SendBitcoin`): `PlanSend`, the selection loop with its
  `break`, the insufficient-funds check and the output construction. It is
  proved against `Total`, `FirstFit` and `StopsAt`.
- `balance.dfy` (module `CheckBalance`): the balance, and a reference model
  of an address's output history. It shows that funded minus spent equals
  the value still unspent.
- `scenarios.dfy` (module `Scenarios`): two worked sends derived from
  `PlanSend`'s contract alone.

Amounts are integer satoshis. Amount and fee are unbounded integers with no
precondition, as in the source, which accepts any number typed at the
prompt. UTXO values are natural numbers. Addresses and transaction ids are
opaque strings. The provider's previous-transaction lookup is a function
parameter `prevTx`, whose result is attached to each chosen input as its
`nonWitnessUtxo`.

## Model

| member | source | states |
|---|---|---|
| `Utxos.FirstFit` | btc-cli.js:59-60 | the number of outputs first-fit takes never exceeds the list's length |
| `Utxos.TotalSnoc` | btc-cli.js:70 | adding the next output to the chosen prefix raises the running total by exactly that output's value |
| `Utxos.TotalPrefixBounded` | btc-cli.js:73 | a prefix of the list is never worth more than the whole list, so a loop that stops early never reports a shortfall the full list would not |
| `Utxos.FirstFitStops` | btc-cli.js:59-60 | the reference count has the first-fit property: every shorter prefix is below the target, and the chosen prefix covers it or is the whole list |
| `Utxos.StopsAtIsFirstFit` | btc-cli.js:59-60 | any stopping point with the first-fit property equals the reference count, so the stopping point is unique |
| `Utxos.FirstFitMonotone` | btc-cli.js:59-60 | raising amount plus fee never makes the selection take fewer outputs |
| `Utxos.FirstFitCovers` | btc-cli.js:59-76 | the selected prefix covers the target if and only if the whole list does |
| `PsbtBuilder.Psbt.constructor` | btc-cli.js:56 | a new builder has no inputs and no outputs |
| `PsbtBuilder.Psbt.AddInput` | btc-cli.js:64-68 | the input is appended after the existing ones; outputs are unchanged |
| `PsbtBuilder.Psbt.AddOutput` | btc-cli.js:78-82 | the output is appended after the existing ones; inputs are unchanged |
| `SendBitcoin.PlanSend` | btc-cli.js:56-83 | insufficient funds if and only if all UTXOs together are below amount plus fee, with nothing planned; otherwise the inputs are the first-fit prefix in provider order, each carrying that UTXO's txid, vout and the fetched previous transaction; the running total is that prefix's value and covers the target while no shorter prefix does; the first output pays the amount to the destination; there are at most two outputs; a second output returns the change to the sender if and only if the change is positive; outputs plus fee equal the inputs' total |
| `CheckBalance.Balance` | btc-cli.js:35 | the balance is funded minus spent; what that means is proved in `BalanceIsUnspentValue`: it equals the value still unspent |
| `CheckBalance.StatsOf` | btc-cli.js:35 | the indexer's spent total never exceeds its funded total |
| `CheckBalance.BalanceIsUnspentValue` | btc-cli.js:35 | funded minus spent equals the total value of the outputs not yet spent, and is never negative |
| `CheckBalance.BalanceDecidesShortfall` | btc-cli.js:35 | when the indexer's statistics and its UTXO list describe the same output history, the balance is below a target exactly when the unspent outputs are, which is the shortfall test of `PlanSend` |
| `Scenarios.BothOutputsSpent` | btc-cli.js:56-83 | outputs of 50000 and 30000 paying 60000 with fee 1000: both are spent, total 80000, and 19000 change comes back after the destination output |
| `Scenarios.NotEnoughFunds` | btc-cli.js:73-76 | outputs worth 10000 in all cannot pay 20000 plus 1000: insufficient funds |

## Left out

- Mnemonic generation, seed stretching and HD derivation at `m/44'/0'/0'/0/0` (btc-cli.js:12-17): calls into the `bip39` and `bip32` libraries, whose internals are not part of this model.
- WIF import and export and P2PKH address computation (btc-cli.js:16-17, 51-52): `bitcoinjs-lib` calls. `fromAddress` is a parameter of `PlanSend`.
- Signing, signature validation, finalisation and extraction of the transaction (btc-cli.js:85-92): `Psbt` library methods. The model stops at the planned inputs and outputs.
- HTTP requests for the balance, the UTXO list, previous-transaction hex and broadcast (btc-cli.js:33-34, 54, 62, 93): network I/O. The UTXO list and the chain statistics are inputs. The hex lookup is the `prevTx` parameter. Hex decoding of its answer is not modelled.
- Library checks inside `addInput` and `addOutput` (for example, refusing a duplicate input or a negative amount): not visible in the repository. `Psbt.AddInput` and `Psbt.AddOutput` append whatever they are given, and `PlanSend` plans whatever amount it is given.
- The balance (btc-cli.js:35) and the UTXO list (btc-cli.js:54) come from two different indexer endpoints; the model links them only through a shared output history, which assumes the indexer answers both consistently.
- Prompts, the menu loop and console output (btc-cli.js:26-30, 43-48, 101-124), including the `isNaN` validation and the `+amount` number coercion: UI. Amounts are integers here.
- The display conversion `balance/100000000` (btc-cli.js:36): floating-point division.
- Error reporting via `try`/`catch` around provider failures: the model has no failing provider. Insufficient funds is a result value instead of a console message.
