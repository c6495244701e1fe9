/** `KeyStore.get_versioned_key`: turns the raw value stored under
    HKCU\SOFTWARE\Dropbox\ks into a versioned, HMAC-checked, unprotected key.

    Stored value layout, after the trailing byte the registry API appends is
    dropped (struct format 'BL%ds%ds', native alignment on Windows):

      offset 0      version, unsigned byte
      offset 1..3   alignment padding of the native 'BL' layout
      offset 4..7   payload length, unsigned long, little-endian
      offset 8..    payload, then the HMAC-MD5 digest of everything before it */
module KeyStore {
  import opened Bytes
  import opened Crypto

  /** Size of the native 'BL' header: a byte, three padding bytes, a 4-byte unsigned long. */
  const HEADER_SIZE: nat := 8
  const PAD_SIZE: nat := 3
  const LENGTH_OFFSET: nat := 4
  const LENGTH_SIZE: nat := 4

  /** The failures of the key store: a `struct.error` on a malformed buffer, the three
      integrity failures the code means to raise as `KeychainMissingItem` ('bad version',
      'Bad digest size', 'Bad digest'), an exception from CryptUnprotectData, and the
      exception of `DBKeyStore.KeychainAuthCanceled` for a nonzero version argument. */
  datatype Error =
    | Malformed
    | BadVersion
    | BadDigestSize
    | BadDigest
    | UnprotectFailed
    | InvalidVersionNumber

  datatype Result<+T> = Ok(value: T) | Err(error: Error)

  /** The fields `struct.unpack('BL%ds%ds', ...)` yields: v, l, payload, h. */
  datatype Record = Record(version: byte, payloadLen: nat, payload: Bytes, digest: Bytes)

  /** The `(v, unprotected_payload)` pair returned on success. */
  datatype VersionedKey = VersionedKey(version: byte, key: Bytes)

  /** A record that the layout can carry: the length field fits an unsigned long
      and agrees with the payload. */
  ghost predicate WellFormed(rec: Record) {
    |rec.payload| == rec.payloadLen && rec.payloadLen < 0x1_0000_0000
  }

  /** The bytes of a record as laid out in the buffer, with pad as the alignment bytes. */
  function EncodeRecord(rec: Record, pad: Bytes): (buf: Bytes)
    ensures |buf| == 1 + |pad| + LENGTH_SIZE + |rec.payload| + |rec.digest|
  {
    [rec.version] + pad + ToLE(rec.payloadLen, LENGTH_SIZE) + rec.payload + rec.digest
  }

  /** `hmaced_payload[:-1]`: drops exactly one trailing byte, whatever its value. */
  function StripTerminator(stored: Bytes): (buf: Bytes)
    ensures stored != [] ==> buf + [stored[|stored| - 1]] == stored
    ensures stored == [] ==> buf == []
  {
    DropLast(stored, 1)
  }

  /** `struct.unpack_from('BL', ...)` then `struct.unpack('BL%ds%ds' % (payload_len, hmac_size), ...)`
      with hmac_size = len - payload_len - 8. The first unpack needs 8 bytes; the second
      fails on a negative hmac_size; otherwise the format covers the buffer exactly. */
  function ParseRecord(buf: Bytes): (r: Result<Record>)
    ensures r.Ok? <==> |buf| >= HEADER_SIZE && FromLE(buf[LENGTH_OFFSET..HEADER_SIZE]) <= |buf| - HEADER_SIZE
    ensures r.Err? ==> r.error == Malformed
    ensures r.Ok? ==> r.value.version == buf[0] && r.value.payloadLen == FromLE(buf[LENGTH_OFFSET..HEADER_SIZE])
    ensures r.Ok? ==> HEADER_SIZE + |r.value.payload| + |r.value.digest| == |buf|
    ensures r.Ok? ==> WellFormed(r.value)
  {
    if |buf| < HEADER_SIZE then Err(Malformed)
    else
      var version := buf[0];
      var payloadLen := FromLE(buf[LENGTH_OFFSET..HEADER_SIZE]);
      var hmacSize := |buf| - payloadLen - HEADER_SIZE;
      if hmacSize < 0 then Err(Malformed)
      else
        Ok(Record(version, payloadLen, buf[HEADER_SIZE..HEADER_SIZE + payloadLen], buf[HEADER_SIZE + payloadLen..]))
  }

  /** Parsing the layout of a well-formed record gives that record back, whatever the padding. */
  lemma ParseEncode(rec: Record, pad: Bytes)
    requires WellFormed(rec) && |pad| == PAD_SIZE
    ensures ParseRecord(EncodeRecord(rec, pad)) == Ok(rec)
  {
    var buf := EncodeRecord(rec, pad);
    var n := rec.payloadLen;
    assert buf[LENGTH_OFFSET..HEADER_SIZE] == ToLE(n, LENGTH_SIZE);
    FromToLE(n, LENGTH_SIZE);
    assert buf[HEADER_SIZE..HEADER_SIZE + n] == rec.payload;
    assert buf[HEADER_SIZE + n..] == rec.digest;
  }

  /** A buffer that parses is header || payload || digest: laying the parsed record out
      again, with the buffer's own padding bytes, reproduces it. */
  lemma EncodeParse(buf: Bytes)
    requires ParseRecord(buf).Ok?
    ensures EncodeRecord(ParseRecord(buf).value, buf[1..LENGTH_OFFSET]) == buf
  {
    var rec := ParseRecord(buf).value;
    ToFromLE(buf[LENGTH_OFFSET..HEADER_SIZE]);
    assert buf == [buf[0]] + buf[1..LENGTH_OFFSET] + buf[LENGTH_OFFSET..HEADER_SIZE]
                  + buf[HEADER_SIZE..HEADER_SIZE + rec.payloadLen] + buf[HEADER_SIZE + rec.payloadLen..];
  }

  /** `hmaced_payload[:-hm.digest_size]` on a parsed buffer whose digest field has the
      digest size: exactly the header and the payload, which is the record laid out
      without its digest. */
  lemma SignedBytes(buf: Bytes)
    requires ParseRecord(buf).Ok? && |ParseRecord(buf).value.digest| == MD5_DIGEST_SIZE
    ensures DropLast(buf, MD5_DIGEST_SIZE) == buf[..HEADER_SIZE + ParseRecord(buf).value.payloadLen]
    ensures DropLast(buf, MD5_DIGEST_SIZE) == EncodeRecord(ParseRecord(buf).value.(digest := []), buf[1..LENGTH_OFFSET])
  {
    var rec := ParseRecord(buf).value;
    EncodeParse(buf);
    assert EncodeRecord(rec, buf[1..LENGTH_OFFSET]) == EncodeRecord(rec.(digest := []), buf[1..LENGTH_OFFSET]) + rec.digest;
  }

  /** `get_versioned_key(name, hmac_keys)`, with the registry value already read into stored.
      The checks run in the order `get_versioned_key` performs them: framing, version lookup, digest size, digest;
      CryptUnprotectData sees the payload only after all of them pass, with the version's
      HMAC key as extra entropy. */
  function GetVersionedKey(stored: Bytes, hmacKeys: map<int, Bytes>, p: Primitives): (r: Result<VersionedKey>)
    ensures r == Err(Malformed) <==> ParseRecord(StripTerminator(stored)).Err?
    ensures r == Err(BadVersion) <==>
              ParseRecord(StripTerminator(stored)).Ok? && ParseRecord(StripTerminator(stored)).value.version !in hmacKeys
    ensures r == Err(BadDigestSize) <==>
              var parsed := ParseRecord(StripTerminator(stored));
              parsed.Ok? && parsed.value.version in hmacKeys && |parsed.value.digest| != MD5_DIGEST_SIZE
    ensures r == Err(BadDigest) <==>
              var buf := StripTerminator(stored);
              var parsed := ParseRecord(buf);
              && parsed.Ok? && parsed.value.version in hmacKeys && |parsed.value.digest| == MD5_DIGEST_SIZE
              && p.hmacMd5(hmacKeys[parsed.value.version], buf[..HEADER_SIZE + parsed.value.payloadLen]) != parsed.value.digest
    ensures r == Err(UnprotectFailed) <==>
              var buf := StripTerminator(stored);
              var parsed := ParseRecord(buf);
              && parsed.Ok? && parsed.value.version in hmacKeys && |parsed.value.digest| == MD5_DIGEST_SIZE
              && p.hmacMd5(hmacKeys[parsed.value.version], buf[..HEADER_SIZE + parsed.value.payloadLen]) == parsed.value.digest
              && p.cryptUnprotectData(parsed.value.payload, hmacKeys[parsed.value.version]).None?
    ensures r.Err? ==> r.error in {Malformed, BadVersion, BadDigestSize, BadDigest, UnprotectFailed}
    ensures r.Ok? ==>
              var buf := StripTerminator(stored);
              var rec := ParseRecord(buf).value;
              && ParseRecord(buf).Ok?
              && r.value.version == rec.version == buf[0]
              && rec.version in hmacKeys
              && |rec.digest| == MD5_DIGEST_SIZE
              && p.hmacMd5(hmacKeys[rec.version], buf[..HEADER_SIZE + rec.payloadLen]) == rec.digest
              && p.cryptUnprotectData(rec.payload, hmacKeys[rec.version]) == Some(r.value.key)
  {
    var buf := StripTerminator(stored);
    match ParseRecord(buf)
    case Err(e) => Err(e)
    case Ok(rec) =>
      if rec.version !in hmacKeys then Err(BadVersion)
      else
        var hmKey := hmacKeys[rec.version];
        if MD5_DIGEST_SIZE != |rec.digest| then Err(BadDigestSize)
        else if p.hmacMd5(hmKey, DropLast(buf, MD5_DIGEST_SIZE)) != rec.digest then Err(BadDigest)
        else
          match p.cryptUnprotectData(rec.payload, hmKey)
          case None => Err(UnprotectFailed)
          case Some(out) => Ok(VersionedKey(rec.version, out))
  }

  /** The authentic records are accepted: a well-formed record whose version has a key,
      whose digest is the HMAC of its header and payload under that key, and whose
      payload Windows can unprotect, yields its version and the unprotected bytes,
      whatever the padding and the trailing byte. */
  lemma AcceptsAuthentic(rec: Record, pad: Bytes, t: byte, hmacKeys: map<int, Bytes>, p: Primitives, unprotected: Bytes)
    requires WellFormed(rec) && |pad| == PAD_SIZE
    requires rec.version in hmacKeys
    requires |rec.digest| == MD5_DIGEST_SIZE
    requires p.hmacMd5(hmacKeys[rec.version], EncodeRecord(rec.(digest := []), pad)) == rec.digest
    requires p.cryptUnprotectData(rec.payload, hmacKeys[rec.version]) == Some(unprotected)
    ensures GetVersionedKey(EncodeRecord(rec, pad) + [t], hmacKeys, p) == Ok(VersionedKey(rec.version, unprotected))
  {
    var buf := EncodeRecord(rec, pad);
    assert StripTerminator(buf + [t]) == buf;
    ParseEncode(rec, pad);
    assert buf[1..LENGTH_OFFSET] == pad;
    SignedBytes(buf);
  }

  /** Only authentic records are accepted: an accepted value is, after its trailing byte,
      a well-formed record laid out exactly, under a known version, carrying the HMAC
      of its header and payload, and the key returned is what Windows unprotects. */
  lemma AcceptedIsAuthentic(stored: Bytes, hmacKeys: map<int, Bytes>, p: Primitives)
    requires GetVersionedKey(stored, hmacKeys, p).Ok?
    ensures var buf := StripTerminator(stored);
            var rec := ParseRecord(buf).value;
            var pad := buf[1..LENGTH_OFFSET];
            && ParseRecord(buf).Ok?
            && WellFormed(rec)
            && buf == EncodeRecord(rec, pad)
            && rec.version in hmacKeys
            && p.hmacMd5(hmacKeys[rec.version], EncodeRecord(rec.(digest := []), pad)) == rec.digest
            && GetVersionedKey(stored, hmacKeys, p) == Ok(VersionedKey(rec.version, p.cryptUnprotectData(rec.payload, hmacKeys[rec.version]).value))
  {
    var buf := StripTerminator(stored);
    EncodeParse(buf);
    SignedBytes(buf);
  }

  /** A version with no HMAC key fails with "bad version" before any digest is computed
      or compared and before anything is unprotected: the outcome does not depend on
      the primitives. */
  lemma UnknownVersionBeforeDigest(stored: Bytes, hmacKeys: map<int, Bytes>, p: Primitives, q: Primitives)
    requires ParseRecord(StripTerminator(stored)).Ok?
    requires ParseRecord(StripTerminator(stored)).value.version !in hmacKeys
    ensures GetVersionedKey(stored, hmacKeys, p) == GetVersionedKey(stored, hmacKeys, q) == Err(BadVersion)
  {
  }

  /** A digest field whose length is not the HMAC-MD5 digest size fails with "Bad digest
      size", again without consulting any primitive. */
  lemma DigestSizeBeforeDigest(stored: Bytes, hmacKeys: map<int, Bytes>, p: Primitives, q: Primitives)
    requires ParseRecord(StripTerminator(stored)).Ok?
    requires ParseRecord(StripTerminator(stored)).value.version in hmacKeys
    requires |ParseRecord(StripTerminator(stored)).value.digest| != MD5_DIGEST_SIZE
    ensures GetVersionedKey(stored, hmacKeys, p) == GetVersionedKey(stored, hmacKeys, q) == Err(BadDigestSize)
  {
  }

  /** The unprotect primitive is reached only after every check passed: whenever the
      outcome is a failure other than UnprotectFailed, replacing CryptUnprotectData by
      any other function leaves the outcome unchanged. */
  lemma UnprotectOnlyAfterChecks(stored: Bytes, hmacKeys: map<int, Bytes>, p: Primitives, unprotect: (Bytes, Bytes) -> Option<Bytes>)
    requires GetVersionedKey(stored, hmacKeys, p).Err?
    requires GetVersionedKey(stored, hmacKeys, p).error != UnprotectFailed
    ensures GetVersionedKey(stored, hmacKeys, p.(cryptUnprotectData := unprotect)) == GetVersionedKey(stored, hmacKeys, p)
  {
  }

  /** Any well-framed value with a known version and a 16-byte digest field whose
      digest is not the HMAC of its header and payload fails with "Bad digest". */
  lemma MismatchIsBadDigest(stored: Bytes, hmacKeys: map<int, Bytes>, p: Primitives)
    requires ParseRecord(StripTerminator(stored)).Ok?
    requires ParseRecord(StripTerminator(stored)).value.version in hmacKeys
    requires |ParseRecord(StripTerminator(stored)).value.digest| == MD5_DIGEST_SIZE
    requires var buf := StripTerminator(stored);
             var rec := ParseRecord(buf).value;
             p.hmacMd5(hmacKeys[rec.version], EncodeRecord(rec.(digest := []), buf[1..LENGTH_OFFSET])) != rec.digest
    ensures GetVersionedKey(stored, hmacKeys, p) == Err(BadDigest)
  {
    SignedBytes(StripTerminator(stored));
  }

  /** "Unprotect failed" is reported only for a value that passed framing, the version
      lookup, the digest size and the digest comparison, and whose payload Windows then
      refused to unprotect with the version's HMAC key as entropy. */
  lemma UnprotectFailedAfterChecks(stored: Bytes, hmacKeys: map<int, Bytes>, p: Primitives)
    requires GetVersionedKey(stored, hmacKeys, p) == Err(UnprotectFailed)
    ensures var buf := StripTerminator(stored);
            var rec := ParseRecord(buf).value;
            && ParseRecord(buf).Ok?
            && rec.version in hmacKeys
            && |rec.digest| == MD5_DIGEST_SIZE
            && p.hmacMd5(hmacKeys[rec.version], EncodeRecord(rec.(digest := []), buf[1..LENGTH_OFFSET])) == rec.digest
            && p.cryptUnprotectData(rec.payload, hmacKeys[rec.version]) == None
  {
    SignedBytes(StripTerminator(stored));
  }

  /** Whatever byte the registry API appended, the outcome is the same. */
  lemma TerminatorIgnored(buf: Bytes, t: byte, u: byte, hmacKeys: map<int, Bytes>, p: Primitives)
    ensures GetVersionedKey(buf + [t], hmacKeys, p) == GetVersionedKey(buf + [u], hmacKeys, p)
  {
  }

  /** Changing any byte of the digest field of an accepted value makes it fail with
      "Bad digest". */
  lemma TamperedDigestRejected(stored: Bytes, hmacKeys: map<int, Bytes>, p: Primitives, i: nat, b: byte)
    requires GetVersionedKey(stored, hmacKeys, p).Ok?
    requires HEADER_SIZE + ParseRecord(StripTerminator(stored)).value.payloadLen <= i < |stored| - 1
    requires b != stored[i]
    ensures GetVersionedKey(stored[i := b], hmacKeys, p) == Err(BadDigest)
  {
  }
}
