/** The types the crate takes from `solana_sdk`, `base64` and `bincode`, and the
    library calls it makes into them. The calls are foreign code, so they are not
    defined here: a `Lib` value carries them, and every operation of the model takes
    it as a parameter. What the model takes for granted of them is stated as predicates on
    `Lib` and required only where a property depends on it. */
module Foreign {
  import opened Results

  newtype byte = x: int | 0 <= x < 256

  /** `solana_sdk::pubkey::Pubkey`; its 32-byte layout plays no part here. */
  datatype Pubkey = Pubkey(bytes: seq<byte>)

  /** `solana_sdk::pubkey::ParsePubkeyError`. */
  datatype ParsePubkeyError = WrongSize | Invalid

  /** `base64::DecodeError`. */
  datatype Base64Error =
    | InvalidByte(offset: nat, symbol: byte)
    | InvalidLength
    | InvalidLastSymbol(offset: nat, symbol: byte)
    | InvalidPadding

  /** `bincode::Error`, kept as an opaque message. */
  datatype BincodeError = BincodeError(message: string)

  /** `solana_sdk::instruction::AccountMeta`. */
  datatype AccountMeta = AccountMeta(pubkey: Pubkey, isSigner: bool, isWritable: bool)

  /** `solana_sdk::instruction::Instruction`. */
  datatype Instruction = Instruction(programId: Pubkey, accounts: seq<AccountMeta>, data: seq<byte>)

  /** `solana_sdk::transaction::Transaction`; only bincode looks inside it, so it is
      kept as the value bincode produced. */
  datatype Transaction = Transaction(contents: seq<byte>)

  /** The foreign calls: `Pubkey::from_str`, `Pubkey::to_string`, base64 with the
      standard alphabet of section 4 of RFC 4648 (decode, and the encoder that the
      remote service uses to produce instruction data and transactions), and
      `bincode::deserialize` at type `Transaction` with the serializer the remote
      service uses. */
  datatype Lib = Lib(
    pubkeyFromStr: string -> Result<Pubkey, ParsePubkeyError>,
    pubkeyToString: Pubkey -> string,
    base64Decode: string -> Result<seq<byte>, Base64Error>,
    base64Encode: seq<byte> -> string,
    bincodeDeserialize: seq<byte> -> Result<Transaction, BincodeError>,
    bincodeSerialize: Transaction -> seq<byte>)

  /** `Pubkey::from_str` parses back what `Pubkey::to_string` prints. */
  ghost predicate PubkeyStringsRoundTrip(lib: Lib)
  {
    forall k: Pubkey :: lib.pubkeyFromStr(lib.pubkeyToString(k)) == Ok(k)
  }

  /** Standard base64 decodes what it encodes. */
  ghost predicate Base64RoundTrips(lib: Lib)
  {
    forall b: seq<byte> :: lib.base64Decode(lib.base64Encode(b)) == Ok(b)
  }

  /** bincode deserializes what it serializes. */
  ghost predicate BincodeRoundTrips(lib: Lib)
  {
    forall t: Transaction :: lib.bincodeDeserialize(lib.bincodeSerialize(t)) == Ok(t)
  }
}
