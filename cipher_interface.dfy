/** The shared contract of every cipher module: byte buffers, the optional
    nonce, the two failure kinds an algorithm reports, and the descriptor
    `{name, encrypt, decrypt}` that each loadable unit hands to the host. */
module CipherInterface {
  import opened Bits

  /** An optional value, such as a nonce that may be absent (null). */
  datatype Option<+T> = None | Some(value: T)

  /** The `invalid_argument` exceptions the algorithms throw, split by cause. */
  datatype CipherError = InvalidKey | InvalidNonce

  /** A call either returns its whole output buffer or throws before
      producing any byte. */
  datatype Result<+T> = Success(value: T) | Failure(error: CipherError)

  /** `CipherFunc`: (input, key, optional nonce) -> output. The arrow is
      partial because an algorithm may read bytes its caller must supply. */
  type CipherFunc = (seq<byte>, seq<byte>, Option<seq<byte>>) --> Result<seq<byte>>

  /** `struct CipherModule`: a name and two operations. */
  datatype CipherModule = CipherModule(name: string, encrypt: CipherFunc, decrypt: CipherFunc)

  /** Decrypting what encrypt produced, under the same key and nonce, gives
      back the input exactly. */
  ghost predicate RoundTrips(m: CipherModule)
  {
    forall p, k, n | m.encrypt.requires(p, k, n) && m.encrypt(p, k, n).Success? ::
      m.decrypt.requires(m.encrypt(p, k, n).value, k, n) &&
      m.decrypt(m.encrypt(p, k, n).value, k, n) == Success(p)
  }

  /** Both operations return a buffer exactly as long as their input. */
  ghost predicate PreservesLength(m: CipherModule)
  {
    (forall p, k, n | m.encrypt.requires(p, k, n) && m.encrypt(p, k, n).Success? ::
       |m.encrypt(p, k, n).value| == |p|) &&
    (forall c, k, n | m.decrypt.requires(c, k, n) && m.decrypt(c, k, n).Success? ::
       |m.decrypt(c, k, n).value| == |c|)
  }

  /** The nonce argument has no influence on either operation. */
  ghost predicate IgnoresNonce(m: CipherModule)
  {
    (forall p, k, n1, n2 | m.encrypt.requires(p, k, n1) ::
       m.encrypt.requires(p, k, n2) && m.encrypt(p, k, n1) == m.encrypt(p, k, n2)) &&
    (forall c, k, n1, n2 | m.decrypt.requires(c, k, n1) ::
       m.decrypt.requires(c, k, n2) && m.decrypt(c, k, n1) == m.decrypt(c, k, n2))
  }
}
