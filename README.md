# dbx-keygen-windows: the versioned key record, modelled in Dafny

The tool recovers Dropbox's local database key on Windows. It reads a binary
value from the registry and drops the one byte the registry API appends. Then
it parses the result as a versioned record: a version byte, padding, a 4-byte
payload length, the payload and an HMAC-MD5 digest. It checks the digest under
the HMAC key for that version. Only then does it pass the payload to
`CryptUnprotectData`. The unprotected user key goes through PBKDF2
(1066 iterations, `APP_KEY` as salt) to give the 16-byte database key.

The model has four modules:

- `Bytes` (bytes.dfy): bytes as integers 0..255; Python's `s[:-k]` slice
  (`DropLast`); little-endian unsigned integers (`FromLE`/`ToLE`), with round
  trips in both directions.
- `Crypto` (crypto.dfy): the three primitives the code calls. They are
  function-valued fields of a `Primitives` value. HMAC-MD5 always returns
  16 bytes. `CryptUnprotectData` may fail (`None`). PBKDF2 is its derived-key
  byte stream, and `.read(n)` takes its first n bytes.
- `KeyStore` (keystore.dfy): `get_versioned_key` as a pure function
  returning a `Result`. It comes with the record layout, its encoder, and
  lemmas for soundness, completeness, check order and tamper detection.
- `MapReduce` (mapreduce.dfy): `Version0` is a datatype whose constants are the
  class constants of `Version0`. `DBKeyStore` is a class whose tables are
  `const` fields, set once by its constructor.

Facts about the code that the model keeps:

- The header is 8 bytes. `struct` format `'BL'` in native mode aligns the
  unsigned long to offset 4, so bytes 1..3 are padding. The HMAC covers
  these padding bytes.
- Exactly one trailing byte is removed, whatever its value.
- The digest comparison is Python's plain `!=`.
- HMAC-MD5 gives a 16-byte digest, so the digest field must be 16 bytes.
- An unknown version fails at the HMAC key lookup ("bad version").
  `KeychainAuthCanceled` then indexes `parsers` by the record's version.
  That lookup cannot fail, because `hmac_keys` and `parsers` have the same
  keys (`DBKeyStore.GetUserKey`).

## Model

| member | source | states |
|---|---|---|
| Bytes.DropLast | dbx-keygen-windows.py:36 | Python `s[:-k]` is a prefix of s that is k bytes shorter, or empty when k is 0 or at least the length |
| Bytes.FromLE | dbx-keygen-windows.py:38 | a little-endian unsigned integer of k bytes is below 256^k |
| Bytes.FromToLE | dbx-keygen-windows.py:38 | decoding the 4-byte little-endian encoding of a value below 2^32 gives that value back |
| Bytes.ToFromLE | dbx-keygen-windows.py:38 | re-encoding a decoded little-endian field at its own width reproduces its bytes |
| Bytes.Pow256Of4 | dbx-keygen-windows.py:38 | 256^4 is 2^32, the bound of the 4-byte unsigned long; documents that WellFormed's bound on the length is the range of the field FromLE decodes |
| Crypto.Pbkdf2Read | dbx-keygen-windows.py:71 | `PBKDF2(...).read(n)` returns exactly n bytes, the first n of the derived-key stream |
| KeyStore.StripTerminator | dbx-keygen-windows.py:35-36 | exactly one trailing byte is removed, whatever its value; an empty value stays empty |
| KeyStore.ParseRecord | dbx-keygen-windows.py:38-40 | parsing succeeds iff the buffer has at least 8 bytes and the payload length at offset 4 is at most len - 8; otherwise Malformed, with no read out of bounds; on success the version is byte 0, the length is the little-endian field at offset 4, and 8 + payload_len + hmac_size == len |
| KeyStore.ParseEncode | dbx-keygen-windows.py:38-40 | parsing the layout of any well-formed record, whatever its padding bytes, returns that record |
| KeyStore.EncodeParse | dbx-keygen-windows.py:38-40 | a parsed buffer is header, payload and digest concatenated: laying the record out again with the buffer's padding reproduces the buffer |
| KeyStore.SignedBytes | dbx-keygen-windows.py:51 | `hmaced_payload[:-digest_size]` is exactly the 8-byte header followed by the payload |
| KeyStore.GetVersionedKey | dbx-keygen-windows.py:28-57 | each failure holds exactly when its check is the first to fail, in the order `get_versioned_key` performs them: Malformed iff framing fails; BadVersion iff framed with an unknown version; BadDigestSize iff known version and digest field not 16 bytes; BadDigest iff all that passes and the HMAC of header and payload differs from the digest; UnprotectFailed iff every check passes and CryptUnprotectData refuses; no other failure occurs. Success implies a known version, a 16-byte digest equal to the HMAC of header and payload under that version's key, and a key that is CryptUnprotectData of the payload with that HMAC key as entropy |
| KeyStore.AcceptsAuthentic | dbx-keygen-windows.py:36-57 | any well-formed record with a known version, a correct HMAC and an unprotectable payload is accepted, whatever its padding and trailing byte, and yields its version and the unprotected payload |
| KeyStore.AcceptedIsAuthentic | dbx-keygen-windows.py:36-57 | every accepted value is such a record, laid out exactly, with the HMAC of its header and payload as digest |
| KeyStore.UnknownVersionBeforeDigest | dbx-keygen-windows.py:42-45 | a version missing from the HMAC key table fails with BadVersion whatever the primitives, so no digest is computed or compared |
| KeyStore.DigestSizeBeforeDigest | dbx-keygen-windows.py:47-49 | a digest field that is not 16 bytes long fails with BadDigestSize whatever the primitives |
| KeyStore.UnprotectOnlyAfterChecks | dbx-keygen-windows.py:51-55 | every failure except UnprotectFailed is the same whatever CryptUnprotectData does, so it is reached only after all checks pass |
| KeyStore.MismatchIsBadDigest | dbx-keygen-windows.py:51-53 | any well-framed value with a known version and a 16-byte digest field whose digest is not the HMAC of its header and payload fails with BadDigest |
| KeyStore.UnprotectFailedAfterChecks | dbx-keygen-windows.py:42-56 | UnprotectFailed is reported only after framing, version lookup, digest size and digest comparison all passed, and CryptUnprotectData returned nothing for the payload with the version's HMAC key |
| KeyStore.TerminatorIgnored | dbx-keygen-windows.py:36 | the value of the appended trailing byte never changes the outcome |
| KeyStore.TamperedDigestRejected | dbx-keygen-windows.py:51-53 | changing any digest byte of an accepted value makes it fail with BadDigest |
| MapReduce.Parser.GetDatabaseKey | dbx-keygen-windows.py:62-71 | the database key is DB_KEYLEN = 16 bytes: the first 16 bytes of PBKDF2 over the user key with APP_KEY as salt and 1066 iterations |
| MapReduce.HmacKeyTable | dbx-keygen-windows.py:80 | the HMAC key table has the same versions as the parser table and maps each to that parser's USER_HMAC_KEY |
| MapReduce.DBKeyStore.constructor | dbx-keygen-windows.py:78-85 | the tables are {0: Version0} and {0: USER_HMAC_KEY}, max_version is 0, and the two tables agree |
| MapReduce.DBKeyStore.GetUserKey | dbx-keygen-windows.py:87-92 | returns exactly what `get_versioned_key` gives for the 'Client' value and this object's HMAC key table, errors included; a returned version is the record's byte 0 and has a parser, the digest is the HMAC of header and payload under that parser's key, and the key is the unprotected payload under it |
| MapReduce.DBKeyStore.KeychainAuthCanceled | dbx-keygen-windows.py:94-98 | a nonzero version argument fails; for 0 the outcome succeeds iff the user key was recovered and carries its error otherwise; the key is 16 bytes of PBKDF2 over the user key |
| MapReduce.RecoverVersion0 | dbx-keygen-windows.py:94-98 | end to end: an authentic version-0 record yields `Version0.get_database_key` of its unprotected payload |
| MapReduce.TamperedRecordYieldsNoKey | dbx-keygen-windows.py:94-98 | end to end: one changed digest byte yields BadDigest and no database key |

## Left out

- Registry access (`_winreg.OpenKey`, `QueryValueEx`, lines 30-33) is OS I/O. The stored value is an input byte string, so a missing value or a denied access is not modelled.
- `win32crypt.CryptUnprotectData` (lines 15-17) is a Windows primitive. It is a function of (data, entropy) that returns a value or fails. The `unprotect_data` wrapper adds nothing else, so it has no member of its own.
- HMAC-MD5 and PBKDF2 internals (lines 5, 8, 47, 71) are library cryptography. Only their shapes are fixed: a 16-byte digest, and a derived-key stream read by prefix. PBKDF2's default pseudorandom function is not modelled.
- No tamper property for header or payload bytes: it would need HMAC to be collision-free, which an uninterpreted function does not give. Only changes to the digest are proved to be rejected.
- The digest comparison is a plain `!=` (line 52), so there is no constant-time property.
- Error: the name `KeychainMissingItem`, raised at lines 45, 49 and 53, is never defined or imported, so as written each of those `raise` statements fails with `NameError`, the same exception for all three. The model keeps the three intended kinds: BadVersion, BadDigestSize and BadDigest.
- The `ks` field of `DBKeyStore` is not modelled. It holds a `KeyStore`, which has no state, and the model calls `KeyStore.GetVersionedKey` directly.
- The registry value name `'Client'` is not modelled. The value stored under it is passed in as `clientValue`.
- `APP_IV` and `USER_KEYLEN` are kept as constants. The code never uses them.
- Printing, `binascii.hexlify` and the top-level script (lines 91, 103-112) are console output.
- The `dropbox_hash` step named in the comment at lines 89-90 is not part of this model, because its definition is not in this file (it lives in client_api/hashing.py).
