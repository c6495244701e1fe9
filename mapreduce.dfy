/** The per-version key derivation (`Version0`) and the object that wires the
    key store to it (`DBKeyStore`). */
module MapReduce {
  import opened Bytes
  import opened Crypto
  import opened KeyStore

  /** One strategy per record version; only version 0 exists. */
  datatype Parser = Version0 {
    const userHmacKey: Bytes := [0xd1, 0x14, 0xa5, 0x52, 0x12, 0x65, 0x5f, 0x74, 0xbd, 0x77, 0x2e, 0x37, 0xe6, 0x4a, 0xee, 0x9b]
    const appKey: Bytes := [0x0d, 0x63, 0x8c, 0x09, 0x2e, 0x8b, 0x82, 0xfc, 0x45, 0x28, 0x83, 0xf9, 0x5f, 0x35, 0x5b, 0x8e]
    /** Kept for completeness: the key derivation does not use it. */
    const appIv: Bytes := [0xd8, 0x9b, 0x43, 0x1f, 0xb6, 0x1d, 0xde, 0x1a, 0xfd, 0xa4, 0xb7, 0xf9, 0xf4, 0xb8, 0x0d, 0x05]
    const appIter: nat := 1066
    const userKeylen: nat := 16
    const dbKeylen: nat := 16

    /** `get_database_key(user_key)`: PBKDF2 with the user key as passphrase, APP_KEY as
        salt and APP_ITER iterations, reading DB_KEYLEN bytes. */
    function GetDatabaseKey(userKey: Bytes, p: Primitives): (dbKey: Bytes)
      ensures |dbKey| == dbKeylen == 16
      ensures forall i :: 0 <= i < |dbKey| ==> dbKey[i] == p.pbkdf2(userKey, appKey, 1066)(i)
    {
      Pbkdf2Read(p, userKey, appKey, appIter, dbKeylen)
    }
  }

  /** `dict((v, parsers[v].USER_HMAC_KEY) for v in parsers)`. */
  function HmacKeyTable(parsers: map<int, Parser>): (hmacKeys: map<int, Bytes>)
    ensures hmacKeys.Keys == parsers.Keys
    ensures forall v :: v in parsers ==> hmacKeys[v] == parsers[v].userHmacKey
  {
    map v | v in parsers :: parsers[v].userHmacKey
  }

  /** `DBKeyStore`: its tables are set once by the constructor and never changed. The
      `ks` field holds a stateless KeyStore; the model calls KeyStore.GetVersionedKey
      directly. The registry value named 'Client' is passed in as clientValue. */
  class DBKeyStore {
    const parsers: map<int, Parser>
    const hmacKeys: map<int, Bytes>
    const maxVersion: int

    /** Every version with a parser has exactly that parser's HMAC key, and no other
        version has one. */
    ghost predicate Valid() {
      hmacKeys.Keys == parsers.Keys &&
      forall v :: v in parsers ==> hmacKeys[v] == parsers[v].userHmacKey
    }

    constructor ()
      ensures Valid()
      ensures parsers == map[0 := Version0]
      ensures hmacKeys == map[0 := Version0.userHmacKey]
      ensures maxVersion == 0
    {
      parsers := map[0 := Version0];
      hmacKeys := HmacKeyTable(map[0 := Version0]);
      maxVersion := 0;
    }

    /** `get_user_key()`: the versioned key stored under 'Client', checked against this
        object's HMAC key table and returned as `get_versioned_key` gives it, errors
        included. A version it returns is the record's byte 0 and always has a parser. */
    function GetUserKey(clientValue: Bytes, p: Primitives): (r: Result<VersionedKey>)
      requires Valid()
      ensures r == GetVersionedKey(clientValue, hmacKeys, p)
      ensures r.Ok? ==> r.value.version in parsers
      ensures r.Ok? ==>
                var buf := StripTerminator(clientValue);
                var rec := ParseRecord(buf).value;
                && ParseRecord(buf).Ok?
                && r.value.version == buf[0]
                && |rec.digest| == MD5_DIGEST_SIZE
                && p.hmacMd5(parsers[r.value.version].userHmacKey, buf[..HEADER_SIZE + rec.payloadLen]) == rec.digest
                && p.cryptUnprotectData(rec.payload, parsers[r.value.version].userHmacKey) == Some(r.value.key)
    {
      GetVersionedKey(clientValue, hmacKeys, p)
    }

    /** `KeychainAuthCanceled(version = 0)`: a call without an argument is the call with 0.
        It rejects any nonzero version argument, then derives
        the database key from the user key with the parser of the version the record
        carries. */
    function KeychainAuthCanceled(version: int, clientValue: Bytes, p: Primitives): (r: Result<Bytes>)
      requires Valid()
      ensures version != 0 ==> r == Err(InvalidVersionNumber)
      ensures version == 0 ==> (r.Ok? <==> GetUserKey(clientValue, p).Ok?)
      ensures version == 0 && r.Err? ==> r.error == GetUserKey(clientValue, p).error
      ensures r.Ok? ==> |r.value| == 16
      ensures r.Ok? ==>
                r.value == Pbkdf2Read(p, GetUserKey(clientValue, p).value.key, Version0.appKey, 1066, 16)
    {
      if version != 0 then Err(InvalidVersionNumber)
      else
        match GetUserKey(clientValue, p)
        case Err(e) => Err(e)
        case Ok(vk) => Ok(parsers[vk.version].GetDatabaseKey(vk.key, p))
    }
  }

  /** End to end on the tables the constructor builds: a version-0 record whose digest
      is the HMAC of its header and payload under USER_HMAC_KEY yields, as database key,
      the first 16 bytes of PBKDF2 over the unprotected payload with APP_KEY as salt and
      1066 iterations. */
  lemma RecoverVersion0(ks: DBKeyStore, rec: Record, pad: Bytes, t: byte, p: Primitives, userKey: Bytes)
    requires ks.Valid() && ks.parsers == map[0 := Version0]
    requires WellFormed(rec) && |pad| == PAD_SIZE && rec.version == 0
    requires |rec.digest| == MD5_DIGEST_SIZE
    requires p.hmacMd5(Version0.userHmacKey, EncodeRecord(rec.(digest := []), pad)) == rec.digest
    requires p.cryptUnprotectData(rec.payload, Version0.userHmacKey) == Some(userKey)
    ensures ks.KeychainAuthCanceled(0, EncodeRecord(rec, pad) + [t], p) == Ok(Version0.GetDatabaseKey(userKey, p))
  {
    AcceptsAuthentic(rec, pad, t, ks.hmacKeys, p, userKey);
  }

  /** The same record with any digest byte changed fails with "Bad digest", and no
      database key is derived. */
  lemma TamperedRecordYieldsNoKey(ks: DBKeyStore, clientValue: Bytes, p: Primitives, i: nat, b: byte)
    requires ks.Valid()
    requires ks.GetUserKey(clientValue, p).Ok?
    requires HEADER_SIZE + ParseRecord(StripTerminator(clientValue)).value.payloadLen <= i < |clientValue| - 1
    requires b != clientValue[i]
    ensures ks.KeychainAuthCanceled(0, clientValue[i := b], p) == Err(BadDigest)
  {
  }
}
