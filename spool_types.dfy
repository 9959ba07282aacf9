/**
  Values shared by the SPOOL provenance reconstructor: the transaction
  records it reads, the verbs the SPOOL codec decodes from them, the events
  it assembles, and the errors that abort a reconstruction.
*/
module SpoolTypes {

  datatype Option<T> = None | Some(value: T)

  datatype Result<T, E> = Ok(value: T) | Err(error: E)

  newtype byte = b: int | 0 <= b < 256

  type Bytes = seq<byte>

  type Address = string

  type TxId = string

  /** Why a reconstruction stops. */
  datatype Error =
      /** No OP_RETURN output decodes to a supported action ("Invalid ascribe transaction"). */
    | UnsupportedTransaction
      /** The hex decoder or the verb codec raised on an OP_RETURN payload. */
    | DecodeFailed
      /** The inputs of a transaction come from other than exactly one address. */
    | InvalidTransaction(senders: set<Address>)
      /** A list was indexed past its end (too few outputs, or a chain of loans only). */
    | IndexError

  /** The actions of the SPOOL protocol; EDITIONS announces the number of editions. */
  datatype Action = Register | Consign | Transfer | Loan | Unconsign | Fuel | Editions

  /** What the SPOOL codec reads out of a payload. */
  datatype Verb = Verb(action: Action, editionNumber: int, numEditions: int)

  /** One input of a transaction: only the spending address matters here. */
  datatype Vin = Vin(address: Address)

  /** One output: its position `n`, its address and its script as hex. */
  datatype Vout = Vout(n: int, address: Address, hex: string)

  /** A transaction as the transaction client returns it. */
  datatype Tx = Tx(txid: TxId, vins: seq<Vin>, vouts: seq<Vout>, time: int)

  /**
    The collaborators whose code is not part of this model: the hex decoder
    (None where it raises), the SPOOL verb codec (None where it raises) and
    the set of actions the codec supports.
  */
  datatype Codec = Codec(
    unhexlify: string -> Option<Bytes>,
    fromVerb: Bytes -> Option<Verb>,
    supportedActions: set<Action>)

  /** One record of the ownership tree. */
  datatype Event = Event(
    txid: TxId,
    verb: Bytes,
    fromAddress: Address,
    toAddress: Address,
    pieceAddress: Address,
    timestampUtc: int,
    action: Action,
    numberEditions: int,
    editionNumber: int)

  /** The sort key of a chain. */
  function Timestamp(e: Event): (t: int) { e.timestampUtc }

  /** The bucket an event belongs to. */
  function EditionOf(e: Event): (k: int) { e.editionNumber }

  /** The sort key of the outputs of a transaction. */
  function OutputIndex(v: Vout): (n: int) { v.n }
}
