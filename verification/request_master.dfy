/**
 * The data model of the handshake codec (`RequestMaster`): the one-byte request
 * type tag, the static size table, the validator interface and the codec's
 * initial state. Signature checking, key derivation and reply construction live
 * in an implementation file that is not part of this model; they appear here
 * only as the opaque `Validator` and `SizeTable` parameters.
 */
module RequestMaster {
  import opened Wrappers

  /** One octet of the byte stream. */
  newtype byte = b: int | 0 <= b < 256

  /** The request kinds of the handshake, declared in this order. */
  datatype RequestType = KeyExchangeQuery | KeyExchangeReply | DataTransfer | Unknown

  /** The enum's underlying type is one byte: a tag is its enumerator's ordinal. */
  function Encode(t: RequestType): (b: byte)
    ensures b <= 3
    ensures Decode(b) == Some(t)
  {
    match t
    case KeyExchangeQuery => 0
    case KeyExchangeReply => 1
    case DataTransfer => 2
    case Unknown => 3
  }

  /** The request type a wire byte names, if it names one. */
  function Decode(b: byte): (r: Option<RequestType>)
    ensures r.Some? <==> b <= 3
  {
    if b == 0 then Some(KeyExchangeQuery)
    else if b == 1 then Some(KeyExchangeReply)
    else if b == 2 then Some(DataTransfer)
    else if b == 3 then Some(Unknown)
    else None
  }

  /** Decoding is the exact inverse of encoding on the four tags. */
  lemma DecodeInvertsEncode(b: byte, t: RequestType)
    ensures Decode(b) == Some(t) <==> Encode(t) == b
  {
  }

  /** The wire value of the `Unknown` sentinel. */
  const UnknownTag: byte := Encode(Unknown)

  /**
   * `requestSize` is a static member: its result depends on the tag byte and on
   * nothing else (no codec instance, no role). The frame reader passes the raw
   * byte it read, so the table is total over all 256 byte values.
   */
  type SizeTable = byte -> nat

  /** The codec's `validate` entry point: given the tag and the payload, accept or reject. */
  type Validator = (byte, seq<byte>) -> bool

  /** The long-term signing key pair the codec is built with. */
  datatype KeyPair = KeyPair(publicKey: seq<byte>, privateKey: seq<byte>)

  /** The completion report: the two derived session keys in base58, one per direction. */
  datatype SessionKeys = SessionKeys(b58SendSk: string, b58ReceiveSk: string)

  /**
   * The codec's visible state: its own keys, the role flag (fixed at
   * construction, no setter) and the request type recorded so far.
   */
  datatype Codec = Codec(ownKeys: KeyPair, serverSide: bool, containingType: RequestType)

  /** Construction: nothing is recorded yet; the role is the one given, the server side by default. */
  function NewCodec(ownKeys: KeyPair, serverSide: bool := true): (c: Codec)
    ensures c.containingType == Unknown && Encode(c.containingType) == UnknownTag
    ensures c.serverSide == serverSide
    ensures c.ownKeys == ownKeys
  {
    Codec(ownKeys, serverSide, Unknown)
  }
}
