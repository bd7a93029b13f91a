/** The facts an object is bound to and the associated data of its two encryptions. */
module AssociatedData {
  import opened ByteCodec
  import opened Objects
  import opened Wrappers

  const ENVELOPE_PROFILE: string := "radishmemory.phase1-encrypted-source-vault/1"
  const OBJECT_CIPHER_PROFILE: string := "radishmemory.xchacha20poly1305-stream-be32/1"
  const DEK_WRAP_PROFILE: string := "radishmemory.xchacha20poly1305-dek-wrap/1"
  const PROVIDER_PROFILE: string := "radishmemory.platform-key-store/1"
  const DIGEST_PROFILE: string := "exact-bytes-v1"
  const SEGMENT_PLAINTEXT_BYTES: nat := 1024 * 1024
  const MAX_OBJECT_PLAINTEXT_BYTES: nat := 8 * 1024 * 1024
  const STREAM_NONCE_PREFIX_BYTES: nat := 19
  const WRAP_NONCE_BYTES: nat := 24
  const KEY_BYTES: nat := 32
  const AEAD_TAG_BYTES: nat := 16

  const OBJECT_AAD_DOMAIN: string := "radishmemory.source-object-aad/1"
  const WRAP_AAD_DOMAIN: string := "radishmemory.source-object-dek-wrap-aad/1"

  /** `RMAAD` and the version. */
  function AadPrefix(): Bytes { Ascii("RMAAD") + [1] }

  datatype ObjectMetadata = ObjectMetadata(space: Bytes, source: Bytes, digest: Bytes, length: nat, media: Bytes) {
    /** The widths of the program's types. */
    predicate Typed() {
      |digest| == 32 && length < U64_LIMIT
    }

    /** What the constructor lets through. */
    predicate Valid() {
      Typed() && 0 < |space| < U32_LIMIT && 0 < |source| < U32_LIMIT && 0 < |media| < U32_LIMIT
    }
  }

  datatype VaultError =
    | InvalidMetadata
    | PlaintextTooLarge
    | LengthMismatch
    | DigestMismatch
    | MalformedCiphertext
    | AuthenticationFailed
    | InvalidEnvelope
    | MetadataMismatch

  method NewMetadata(metadata: ObjectMetadata) returns (r: Result<ObjectMetadata, VaultError>)
    requires metadata.Typed()
    ensures r == if metadata.Valid() then Success(metadata) else Failure(InvalidMetadata)
    ensures r.Success? <==> forall text <- [metadata.space, metadata.source, metadata.media] :: 1 <= |text| <= 0xFFFF_FFFF
  {
    var values := [metadata.space, metadata.source, metadata.media];
    for i := 0 to |values|
      invariant forall k :: 0 <= k < i ==> 0 < |values[k]| < U32_LIMIT
    {
      if values[i] == [] || |values[i]| > U32_LIMIT - 1 { return Failure(InvalidMetadata); }
    }
    assert 0 < |values[0]| < U32_LIMIT && 0 < |values[1]| < U32_LIMIT && 0 < |values[2]| < U32_LIMIT;
    return Success(metadata);
  }

  function ObjectValues(m: ObjectMetadata, prefix: Bytes): seq<Bytes> {
    [Ascii(OBJECT_AAD_DOMAIN), Ascii(ENVELOPE_PROFILE), Ascii(OBJECT_CIPHER_PROFILE), m.space, m.source,
     Ascii(DIGEST_PROFILE), m.digest, BigEndian(m.length, 8), m.media, BigEndian(SEGMENT_PLAINTEXT_BYTES, 4), prefix,
     Ascii(DEK_WRAP_PROFILE), Ascii(PROVIDER_PROFILE)]
  }

  function WrapValues(m: ObjectMetadata, prefix: Bytes): seq<Bytes> {
    [Ascii(WRAP_AAD_DOMAIN), Ascii(ENVELOPE_PROFILE), Ascii(DEK_WRAP_PROFILE), Ascii(PROVIDER_PROFILE), m.space,
     m.source, Ascii(DIGEST_PROFILE), m.digest, BigEndian(m.length, 8), m.media, prefix]
  }

  /** The associated data of an object's segments. */
  function ObjectAad(m: ObjectMetadata, prefix: Bytes): Bytes {
    AadPrefix() + Fields(ObjectValues(m, prefix), 1)
  }

  /** The associated data of an object's wrapped key. */
  function WrapAad(m: ObjectMetadata, prefix: Bytes): Bytes {
    AadPrefix() + Fields(WrapValues(m, prefix), 1)
  }

  /** The thirteen fields of the segments' associated data, in order. */
  lemma ObjectAadFields(m: ObjectMetadata, prefix: Bytes)
    ensures ObjectAad(m, prefix) == Ascii("RMAAD") + [1] + Fields([
              Ascii("radishmemory.source-object-aad/1"),
              Ascii("radishmemory.phase1-encrypted-source-vault/1"),
              Ascii("radishmemory.xchacha20poly1305-stream-be32/1"),
              m.space, m.source, Ascii("exact-bytes-v1"), m.digest, BigEndian(m.length, 8), m.media,
              BigEndian(0x10_0000, 4), prefix,
              Ascii("radishmemory.xchacha20poly1305-dek-wrap/1"), Ascii("radishmemory.platform-key-store/1")], 1)
  {
  }

  /** The eleven fields of a wrapped key's associated data, in order. */
  lemma WrapAadFields(m: ObjectMetadata, prefix: Bytes)
    ensures WrapAad(m, prefix) == Ascii("RMAAD") + [1] + Fields([
              Ascii("radishmemory.source-object-dek-wrap-aad/1"),
              Ascii("radishmemory.phase1-encrypted-source-vault/1"),
              Ascii("radishmemory.xchacha20poly1305-dek-wrap/1"), Ascii("radishmemory.platform-key-store/1"),
              m.space, m.source, Ascii("exact-bytes-v1"), m.digest, BigEndian(m.length, 8), m.media, prefix], 1)
  {
  }

  lemma ValuesShort(m: ObjectMetadata, prefix: Bytes)
    requires m.Valid() && |prefix| == STREAM_NONCE_PREFIX_BYTES
    ensures Short(ObjectValues(m, prefix)) && Short(WrapValues(m, prefix))
  {
  }

  lemma LengthRead(m: ObjectMetadata, n: ObjectMetadata)
    requires m.Valid() && n.Valid() && BigEndian(m.length, 8) == BigEndian(n.length, 8)
    ensures m.length == n.length
  {
    Widths();
    NumberRead(m.length, 8);
    NumberRead(n.length, 8);
  }

  lemma SameFields(a: seq<Bytes>, b: seq<Bytes>)
    requires |a| == |b| < 0x100 && Short(a) && Short(b) && AadPrefix() + Fields(a, 1) == AadPrefix() + Fields(b, 1)
    ensures a == b
  {
    SameFront(AadPrefix(), Fields(a, 1), AadPrefix(), Fields(b, 1));
    assert Fields(a, 1) + [] == Fields(a, 1) && Fields(b, 1) + [] == Fields(b, 1);
    FieldsInjective(a, b, 1, [], []);
  }

  /** Equal associated data of segments mean equal metadata and stream nonce prefix. */
  lemma ObjectAadInjective(m: ObjectMetadata, p: Bytes, n: ObjectMetadata, q: Bytes)
    requires m.Valid() && n.Valid() && |p| == |q| == STREAM_NONCE_PREFIX_BYTES
    requires ObjectAad(m, p) == ObjectAad(n, q)
    ensures m == n && p == q
  {
    hide Ascii, BigEndian;
    var a, b := ObjectValues(m, p), ObjectValues(n, q);
    ValuesShort(m, p);
    ValuesShort(n, q);
    SameFields(a, b);
    assert a[3] == b[3] && a[4] == b[4] && a[6] == b[6] && a[7] == b[7] && a[8] == b[8] && a[10] == b[10];
    LengthRead(m, n);
  }

  /** Equal associated data of wrapped keys mean equal metadata and stream nonce prefix. */
  lemma WrapAadInjective(m: ObjectMetadata, p: Bytes, n: ObjectMetadata, q: Bytes)
    requires m.Valid() && n.Valid() && |p| == |q| == STREAM_NONCE_PREFIX_BYTES
    requires WrapAad(m, p) == WrapAad(n, q)
    ensures m == n && p == q
  {
    hide Ascii, BigEndian;
    var a, b := WrapValues(m, p), WrapValues(n, q);
    ValuesShort(m, p);
    ValuesShort(n, q);
    SameFields(a, b);
    assert a[4] == b[4] && a[5] == b[5] && a[7] == b[7] && a[8] == b[8] && a[9] == b[9] && a[10] == b[10];
    LengthRead(m, n);
  }

  /** No associated data of segments is the associated data of a wrapped key. */
  lemma DomainsAreSeparate(m: ObjectMetadata, p: Bytes, n: ObjectMetadata, q: Bytes)
    requires m.Valid() && n.Valid() && |p| == |q| == STREAM_NONCE_PREFIX_BYTES
    ensures ObjectAad(m, p) != WrapAad(n, q)
  {
    hide Ascii, BigEndian;
    var a, b := ObjectValues(m, p), WrapValues(n, q);
    assert |a[0]| != |b[0]|;
    if ObjectAad(m, p) == WrapAad(n, q) {
      SameFront(AadPrefix(), Fields(a, 1), AadPrefix(), Fields(b, 1));
      FieldsHead(a, 1, []);
      FieldsHead(b, 1, []);
      assert Fields(a, 1) + [] == Fields(a, 1) && Fields(b, 1) + [] == Fields(b, 1);
      FieldSplits(1, a[0], Fields(a[1..], 2) + [], b[0], Fields(b[1..], 2) + []);
    }
  }

  // ---------------------------------------------------------------- the program

  class Buffer {
    var bytes: Bytes

    constructor ()
      ensures bytes == []
    {
      bytes := [];
    }

    method Push(b: Bytes)
      modifies this
      ensures bytes == old(bytes) + b
    {
      bytes := bytes + b;
    }

    method PushField(tag: Byte, value: Bytes)
      modifies this
      ensures bytes == old(bytes) + Field(tag, value)
    {
      bytes := bytes + [tag];
      bytes := bytes + BigEndian(|value| % U32_LIMIT, 4);
      bytes := bytes + value;
      assert bytes == old(bytes) + Field(tag, value);
    }

    /** Pushes values as fields with consecutive tags. */
    method PushFields(values: seq<Bytes>, first: nat)
      requires first + |values| <= 0x100
      modifies this
      ensures bytes == old(bytes) + Fields(values, first)
    {
      hide Field;
      for i := 0 to |values|
        invariant bytes == old(bytes) + Fields(values[..i], first)
      {
        PushField(first + i, values[i]);
        FieldsAppend(values[..i], [values[i]], first);
        assert values[..i + 1] == values[..i] + [values[i]];
        assert Fields([values[i]], first + i) == Field(first + i, values[i]);
        Together(old(bytes), Fields(values[..i], first), Field(first + i, values[i]));
      }
      assert values[..|values|] == values;
    }
  }

  lemma Together(a: Bytes, b: Bytes, c: Bytes)
    ensures a + b + c == a + (b + c)
  {
  }

  method BuildObjectAad(m: ObjectMetadata, prefix: Bytes) returns (output: Bytes)
    ensures output == ObjectAad(m, prefix)
  {
    var buffer := new Buffer();
    buffer.Push(AadPrefix());
    buffer.PushFields(ObjectValues(m, prefix), 1);
    assert [] + AadPrefix() == AadPrefix();
    return buffer.bytes;
  }

  method BuildWrapAad(m: ObjectMetadata, prefix: Bytes) returns (output: Bytes)
    ensures output == WrapAad(m, prefix)
  {
    var buffer := new Buffer();
    buffer.Push(AadPrefix());
    buffer.PushFields(WrapValues(m, prefix), 1);
    assert [] + AadPrefix() == AadPrefix();
    return buffer.bytes;
  }
}
