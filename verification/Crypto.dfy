/** The cryptographic library as ideal functions. Nothing here is assumed of a caller: a
    `Primitives` value is passed around and the proofs that need it ask for `Ideal`. */
module Crypto {
  import opened Bytes

  const PK_LEN: nat := 32
  const SK_LEN: nat := 64
  const SIG_LEN: nat := 64
  const STREAM_HEADER_LEN: nat := 24
  const ABYTES: nat := 17

  type Key = seq<byte>

  /** Session keys of one side: it decrypts with `rx` and encrypts with `tx`. */
  datatype Keys = Keys(rx: Key, tx: Key)

  /** One direction of an encrypted connection: its key and its stream header. */
  datatype Stream = Stream(key: Key, header: seq<byte>)

  datatype Primitives = Primitives(
    sign: (Key, seq<byte>) -> seq<byte>,
    verify: (seq<byte>, seq<byte>, Key) -> bool,
    isKxPair: (Key, Key) -> bool,
    serverKeys: (Key, Key, Key) -> Option<Keys>,
    clientKeys: (Key, Key, Key) -> Option<Keys>,
    newHeader: Key -> seq<byte>,
    seal: (Stream, nat, seq<byte>) -> seq<byte>,
    tape: Stream -> seq<seq<byte>>)
  {
    /** `seal(st, n, p)` is the n-th record of stream `st`; `tape(st)` lists what the peer seals
        on `st`, in order. Two honest key-exchange pairs derive crossed keys. */
    ghost predicate Ideal() {
      && (forall sk, m :: |sign(sk, m)| == SIG_LEN)
      && (forall k :: |newHeader(k)| == STREAM_HEADER_LEN)
      && (forall st, n, p :: |seal(st, n, p)| == |p| + ABYTES)
      && (forall spk, ssk, cpk, csk ::
            isKxPair(spk, ssk) && isKxPair(cpk, csk) ==>
              Crossed(serverKeys(spk, ssk, cpk), clientKeys(cpk, csk, spk)))
    }

    /** The record opens as the `n`-th of stream `st`: it is exactly what the peer sealed there. */
    predicate Opens(st: Stream, n: nat, record: seq<byte>) {
      n < |tape(st)| && record == seal(st, n, tape(st)[n])
    }
  }

  const SERVER_SENDS: Key := [1]
  const CLIENT_SENDS: Key := [2]

  /** Primitives with one key for each direction, on which just the given plaintexts were sealed. */
  function Example(fromServer: seq<seq<byte>>, fromClient: seq<seq<byte>>): Primitives {
    Primitives((_, _) => seq(SIG_LEN, _ => 0), (_, _, _) => true, (_, _) => true,
               (_, _, _) => Some(Keys(CLIENT_SENDS, SERVER_SENDS)), (_, _, _) => Some(Keys(SERVER_SENDS, CLIENT_SENDS)),
               _ => seq(STREAM_HEADER_LEN, _ => 0), (_, _, x) => x + seq(ABYTES, _ => 0),
               (st: Stream) => if st.key == SERVER_SENDS then fromServer else fromClient)
  }

  /** Ideal primitives exist, whatever the two sides send. */
  lemma ExampleIsIdeal(fromServer: seq<seq<byte>>, fromClient: seq<seq<byte>>)
    ensures Example(fromServer, fromClient).Ideal()
  {
  }

  predicate Crossed(server: Option<Keys>, client: Option<Keys>) {
    match (server, client)
    case (Some(s), Some(c)) => s.rx == c.tx && s.tx == c.rx
    case (None, None) => true
    case _ => false
  }
}
