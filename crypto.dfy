/** The cryptographic and operating-system primitives the key store calls.
    Their internals are library or platform code; the model takes them as
    function-valued parameters and fixes only their shapes. */
module Crypto {
  import opened Bytes

  datatype Option<+T> = None | Some(value: T)

  /** `hmac.new(key)` in Python 2 uses MD5, whose digest is 16 bytes. */
  const MD5_DIGEST_SIZE: nat := 16

  type Md5Digest = d: Bytes | |d| == MD5_DIGEST_SIZE
    witness [0, 0, 0, 0, 0, 0, 0, 0, 0, 0, 0, 0, 0, 0, 0, 0]

  /** The primitives, supplied by the environment:
      - hmacMd5(key, message): HMAC (RFC 2104) with MD5, always a 16-byte digest;
      - cryptUnprotectData(dataIn, entropy): `win32crypt.CryptUnprotectData` with
        the extra entropy and CRYPTPROTECT_UI_FORBIDDEN, None when Windows refuses;
      - pbkdf2(passphrase, salt, iterations): the derived-key byte stream
        T_1 || T_2 || ... of PBKDF2 (section 5.2 of RFC 8018), byte i at index i. */
  datatype Primitives = Primitives(
    hmacMd5: (Bytes, Bytes) -> Md5Digest,
    cryptUnprotectData: (Bytes, Bytes) -> Option<Bytes>,
    pbkdf2: (Bytes, Bytes, nat) -> (nat -> byte))

  /** `PBKDF2(passphrase, salt, iterations).read(n)`: the first n bytes of the derived-key stream. */
  function Pbkdf2Read(p: Primitives, passphrase: Bytes, salt: Bytes, iterations: nat, n: nat): (dk: Bytes)
    ensures |dk| == n
    ensures forall i :: 0 <= i < n ==> dk[i] == p.pbkdf2(passphrase, salt, iterations)(i)
  {
    seq<byte>(n, i requires 0 <= i < n => p.pbkdf2(passphrase, salt, iterations)(i))
  }
}
