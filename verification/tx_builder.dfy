/**
 * `buildTransaction`: the unsigned transaction handed to the signer, as an
 * abstract record of inputs and outputs, with the network parameters
 * chosen by currency.
 */
module TxBuilder {
  import opened UtxoStore

  /** Extended-key version bytes (section "Serialization format" of BIP 32). */
  datatype Bip32Versions = Bip32Versions(public: nat, private: nat)

  /** Address, key and message encoding parameters of one chain. */
  datatype Network = Network(
    messagePrefix: string,
    bech32: string,
    bip32: Bip32Versions,
    pubKeyHash: nat,
    scriptHash: nat,
    wif: nat)

  /** The Litecoin table written out in the service. */
  const Litecoin: Network := Network(
    [0x19 as char] + "Litecoin Signed Message:\n",
    "ltc",
    Bip32Versions(0x019da462, 0x019d9cfe),
    0x30,
    0x32,
    0xb0)

  /**
   * Bitcoin mainnet as the bitcoinjs-lib library defines it: bech32 prefix
   * "bc" (BIP 173), xpub/xprv versions (BIP 32), P2PKH 0x00, P2SH 0x05 and
   * WIF 0x80.
   */
  const Bitcoin: Network := Network(
    [0x18 as char] + "Bitcoin Signed Message:\n",
    "bc",
    Bip32Versions(0x0488b21e, 0x0488ade4),
    0x00,
    0x05,
    0x80)

  /**
   * The network chosen for a currency: Litecoin's for LTC and Bitcoin's for
   * every other currency; the two never share an encoding parameter.
   */
  function NetworkFor(c: Currency): (n: Network)
    ensures n.wif == (if c == LTC then 0xb0 else 0x80)
    ensures c == LTC ==> n.pubKeyHash == 0x30 && n.scriptHash == 0x32 && n.bip32 == Bip32Versions(0x019da462, 0x019d9cfe)
    ensures c == LTC <==> n.bech32 == "ltc"
    ensures c != LTC ==>
      && n.wif != Litecoin.wif && n.pubKeyHash != Litecoin.pubKeyHash
      && n.scriptHash != Litecoin.scriptHash && n.bech32 != Litecoin.bech32
      && n.bip32.public != Litecoin.bip32.public && n.bip32.private != Litecoin.bip32.private
      && n.messagePrefix != Litecoin.messagePrefix
  {
    if c == LTC then Litecoin else Bitcoin
  }

  datatype TxInput = TxInput(txHash: string, vout: nat)

  datatype TxOutput = TxOutput(address: string, value: nat)

  datatype UnsignedTx = UnsignedTx(network: Network, inputs: seq<TxInput>, outputs: seq<TxOutput>)

  /** The value `buildTransaction` returns. */
  datatype BuiltTx = BuiltTx(unsignedTx: UnsignedTx, inputs: nat, outputs: nat)

  /**
   * One input per selected output, in order; the payment first; a change
   * output exactly when there is change.
   */
  method BuildTransaction(utxos: seq<Utxo>, toAddress: string, amount: nat, changeAmount: int,
                          changeAddress: string, currency: Currency) returns (r: BuiltTx)
    ensures r.unsignedTx.network == NetworkFor(currency)
    ensures r.inputs == |utxos| == |r.unsignedTx.inputs|
    ensures forall i :: 0 <= i < |utxos| ==> r.unsignedTx.inputs[i] == TxInput(utxos[i].txHash, utxos[i].vout)
    ensures r.outputs == |r.unsignedTx.outputs| == (if changeAmount > 0 then 2 else 1)
    ensures r.unsignedTx.outputs[0] == TxOutput(toAddress, amount)
    ensures changeAmount > 0 ==> r.unsignedTx.outputs[1] == TxOutput(changeAddress, changeAmount)
  {
    var network := NetworkFor(currency);
    var inputs: seq<TxInput> := [];
    for i := 0 to |utxos|
      invariant |inputs| == i
      invariant forall j :: 0 <= j < i ==> inputs[j] == TxInput(utxos[j].txHash, utxos[j].vout)
    {
      inputs := inputs + [TxInput(utxos[i].txHash, utxos[i].vout)];
    }
    var outputs := [TxOutput(toAddress, amount)];
    if changeAmount > 0 {
      outputs := outputs + [TxOutput(changeAddress, changeAmount)];
    }
    r := BuiltTx(UnsignedTx(network, inputs, outputs), |utxos|, if changeAmount > 0 then 2 else 1);
  }
}
