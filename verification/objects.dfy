/**
 Identities of sealed objects, with the cryptography taken symbolically.

 Digests are collision free: a digest is modelled by the bytes it was computed from. Authenticated
 encryption is ideal: a file either holds the complete envelope that was sealed for some metadata,
 stream nonce prefix and body, or it holds bytes that open under no metadata at all.
 */
module Objects {
  import opened Wrappers

  type Byte = b: int | 0 <= b < 0x100
  type Id = string

  datatype Digest = Sha256(preimage: seq<Byte>)

  /** The canonical facts an envelope is bound to. */
  datatype Metadata = Metadata(namespace: Id, source: Id, digest: Digest, length: nat, media: string)

  datatype Locator = LocatorOf(namespace: Id, source: Id, digest: Digest)

  /** One sealing attempt: the locator and the stream nonce prefix are its digest's pre-image. */
  datatype Attempt = AttemptOf(locator: Locator, prefix: nat)

  /** What a file holds. */
  datatype Content =
    | Raw(bytes: seq<Byte>)
    | Sealed(meta: Metadata, prefix: nat, body: seq<Byte>)

  datatype Error =
    | ObjectExists
    | ObjectMissing
    | InvalidLocator
    | NotAuthentic
    | AttemptMismatch
    | FilesystemChanged
    | UnknownInventory
    | InvalidStored
    | Io
    | Interrupted

  function LocatorFor(meta: Metadata): Locator {
    LocatorOf(meta.namespace, meta.source, meta.digest)
  }

  /** The metadata's declared digest and length are those of `body`. */
  predicate Matches(meta: Metadata, body: seq<Byte>) {
    meta.digest == Sha256(body) && meta.length == |body|
  }

  /** The envelope decodes and opens under `meta`. */
  predicate Opens(content: Content, meta: Metadata) {
    content.Sealed? && content.meta == meta && Matches(meta, content.body)
  }

  /** The file opens under `meta` and carries the stream nonce of exactly this attempt. */
  predicate Authenticates(content: Content, meta: Metadata, attempt: Attempt) {
    && Opens(content, meta)
    && AttemptOf(attempt.locator, content.prefix) == attempt
  }

  /** Sealing rejects a body that disagrees with the declared digest or length. */
  function Seal(meta: Metadata, prefix: nat, body: seq<Byte>): (r: Result<ObjectWrite, Error>)
    ensures r.Success? <==> meta.digest == Sha256(body) && meta.length == |body|
    ensures r.Success? ==> r.value.meta == meta && Ready(r.value) && r.value.envelope == Sealed(meta, prefix, body)
    ensures r.Success? ==> r.value.attempt == AttemptOf(LocatorOf(meta.namespace, meta.source, meta.digest), prefix)
    ensures r.Failure? ==> r.error == NotAuthentic
  {
    if Matches(meta, body) then
      Success(ObjectWrite(meta, AttemptOf(LocatorFor(meta), prefix), Sealed(meta, prefix, body)))
    else
      Failure(NotAuthentic)
  }

  datatype ObjectWrite = ObjectWrite(meta: Metadata, attempt: Attempt, envelope: Content)

  /** A write whose locator and attempt are the ones its envelope authenticates. */
  predicate Ready(w: ObjectWrite) {
    w.attempt.locator == LocatorFor(w.meta) && Authenticates(w.envelope, w.meta, w.attempt)
  }

  /** One locator determines one source and one body, whatever the other metadata and the nonces are. */
  lemma LocatorDeterminesBody(x: Content, y: Content, m: Metadata, n: Metadata)
    requires Opens(x, m) && Opens(y, n) && LocatorFor(m) == LocatorFor(n)
    ensures m.namespace == n.namespace && m.source == n.source
    ensures x.body == y.body && m.length == n.length
  {
    assert Sha256(x.body) == Sha256(y.body);
  }
}
