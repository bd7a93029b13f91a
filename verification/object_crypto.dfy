/**
 Sealing and opening of one object: the body in segments under a fresh data key, the data key wrapped
 under the key encryption key. The cipher is a parameter; an ideal one opens exactly what it sealed.
 */
module ObjectCrypto {
  import opened AssociatedData
  import opened ByteCodec
  import opened Objects
  import opened Wrappers

  /** Authenticated encryption: key, nonce, associated data, message. */
  datatype Aead = Aead(seal: (Bytes, Bytes, Bytes, Bytes) -> Bytes, open: (Bytes, Bytes, Bytes, Bytes) -> Option<Bytes>)

  /** A sealed message opens to itself, nothing else opens, and the tag adds sixteen bytes. */
  ghost predicate Ideal(aead: Aead) {
    && (forall k, n, a, m :: |aead.seal(k, n, a, m)| == |m| + AEAD_TAG_BYTES)
    && (forall k, n, a, m :: aead.open(k, n, a, aead.seal(k, n, a, m)) == Some(m))
    && (forall k, n, a, c :: aead.open(k, n, a, c).Some? ==> aead.seal(k, n, a, aead.open(k, n, a, c).value) == c)
  }

  /** The nonce of a segment: the prefix, its number in 32 bits, whether it is the last. */
  function SegmentNonce(prefix: Bytes, counter: nat, last: bool): Bytes {
    prefix + BigEndian(counter, 4) + [if last then 1 else 0]
  }

  lemma SegmentNonceInjective(prefix: Bytes, i: nat, a: bool, j: nat, b: bool)
    requires i < U32_LIMIT && j < U32_LIMIT && SegmentNonce(prefix, i, a) == SegmentNonce(prefix, j, b)
    ensures i == j && a == b
  {
    Widths();
    var x: Bytes, y: Bytes := [if a then 1 else 0], [if b then 1 else 0];
    assert prefix + (BigEndian(i, 4) + x) == SegmentNonce(prefix, i, a);
    assert prefix + (BigEndian(j, 4) + y) == SegmentNonce(prefix, j, b);
    SameFront(prefix, BigEndian(i, 4) + x, prefix, BigEndian(j, 4) + y);
    NumberSplits(i, x, j, y, 4);
    assert x[0] == y[0];
  }

  // ---------------------------------------------------------------- layout

  function DivCeil(n: nat, d: nat): nat
    requires d > 0
  {
    (n + d - 1) / d
  }

  function ExpectedSegmentCount(length: nat): (n: nat)
    ensures n > 0
  {
    if length == 0 then 1 else DivCeil(length, SEGMENT_PLAINTEXT_BYTES)
  }

  function FinalLength(length: nat): nat {
    if length == 0 then 0 else (length - 1) % SEGMENT_PLAINTEXT_BYTES + 1
  }

  /** Full segments before the last, and a last one that completes the length. */
  predicate LaidOut(length: nat, segments: seq<Bytes>) {
    && |segments| == ExpectedSegmentCount(length)
    && (forall i :: 0 <= i < |segments| - 1 ==> |segments[i]| == SEGMENT_PLAINTEXT_BYTES + AEAD_TAG_BYTES)
    && |segments[|segments| - 1]| == FinalLength(length) + AEAD_TAG_BYTES
  }

  /** The body cut into segments; an empty body is one empty segment. */
  function Pieces(body: Bytes): (pieces: seq<Bytes>)
    ensures pieces != []
    decreases |body|
  {
    if |body| <= SEGMENT_PLAINTEXT_BYTES then [body]
    else [body[..SEGMENT_PLAINTEXT_BYTES]] + Pieces(body[SEGMENT_PLAINTEXT_BYTES..])
  }

  function Join(pieces: seq<Bytes>): Bytes {
    if pieces == [] then [] else pieces[0] + Join(pieces[1..])
  }

  lemma {:induction false} JoinAppend(pieces: seq<Bytes>, last: Bytes)
    ensures Join(pieces + [last]) == Join(pieces) + last
  {
    if pieces == [] {
      assert Join([last]) == last + Join([]);
    } else {
      JoinAppend(pieces[1..], last);
      assert (pieces + [last])[1..] == pieces[1..] + [last];
    }
  }

  /** Cutting loses nothing, and the three ways to compute the layout agree. */
  lemma {:induction false} PiecesLayout(body: Bytes)
    ensures Join(Pieces(body)) == body
    ensures |Pieces(body)| == ExpectedSegmentCount(|body|)
    ensures forall i :: 0 <= i < |Pieces(body)| - 1 ==> |Pieces(body)[i]| == SEGMENT_PLAINTEXT_BYTES
    ensures |Pieces(body)[|Pieces(body)| - 1]| == FinalLength(|body|)
    decreases |body|
  {
    if |body| <= SEGMENT_PLAINTEXT_BYTES {
      assert Join([body]) == body + Join([]);
    } else {
      var rest := body[SEGMENT_PLAINTEXT_BYTES..];
      PiecesLayout(rest);
      SegmentArithmetic(|rest|);
      assert body == body[..SEGMENT_PLAINTEXT_BYTES] + rest;
      assert Pieces(body)[1..] == Pieces(rest);
    }
  }

  lemma SegmentArithmetic(n: nat)
    requires n > 0
    ensures ExpectedSegmentCount(n + SEGMENT_PLAINTEXT_BYTES) == ExpectedSegmentCount(n) + 1
    ensures FinalLength(n + SEGMENT_PLAINTEXT_BYTES) == FinalLength(n)
  {
  }

  /** Pieces of the segment size before a last one that is not empty unless it is alone. */
  predicate Cut(pieces: seq<Bytes>) {
    && pieces != []
    && (forall i :: 0 <= i < |pieces| - 1 ==> |pieces[i]| == SEGMENT_PLAINTEXT_BYTES)
    && |pieces[|pieces| - 1]| <= SEGMENT_PLAINTEXT_BYTES
    && (|pieces| > 1 ==> pieces[|pieces| - 1] != [])
  }

  /** Such pieces are the only way to cut what they join to. */
  lemma {:induction false} PiecesUnique(pieces: seq<Bytes>)
    requires Cut(pieces)
    ensures Pieces(Join(pieces)) == pieces
  {
    var body := Join(pieces);
    if |pieces| == 1 {
      assert body == pieces[0] + Join([]);
      assert body == pieces[0] && pieces == [body];
    } else {
      var rest := Join(pieces[1..]);
      assert body == pieces[0] + rest;
      assert Cut(pieces[1..]);
      PiecesUnique(pieces[1..]);
      RestNotEmpty(pieces[1..]);
      assert body[..SEGMENT_PLAINTEXT_BYTES] == pieces[0] && body[SEGMENT_PLAINTEXT_BYTES..] == rest;
    }
  }

  lemma {:induction false} RestNotEmpty(pieces: seq<Bytes>)
    requires pieces != [] && pieces[|pieces| - 1] != []
    ensures Join(pieces) != []
  {
    if |pieces| > 1 { RestNotEmpty(pieces[1..]); }
  }

  // ---------------------------------------------------------------- streams

  /** Every piece sealed under its own nonce, the last one marked. */
  function SealPieces(aead: Aead, dek: Bytes, prefix: Bytes, aad: Bytes, pieces: seq<Bytes>): (segments: seq<Bytes>)
    ensures |segments| == |pieces|
    ensures forall i :: 0 <= i < |pieces| ==>
      segments[i] == aead.seal(dek, SegmentNonce(prefix, i, i == |pieces| - 1), aad, pieces[i])
  {
    seq(|pieces|, i requires 0 <= i < |pieces| => aead.seal(dek, SegmentNonce(prefix, i, i == |pieces| - 1), aad, pieces[i]))
  }

  /** The stream of a body. */
  function Encrypted(aead: Aead, dek: Bytes, prefix: Bytes, aad: Bytes, body: Bytes): seq<Bytes> {
    SealPieces(aead, dek, prefix, aad, Pieces(body))
  }

  lemma EncryptedIsLaidOut(aead: Aead, dek: Bytes, prefix: Bytes, aad: Bytes, body: Bytes)
    requires Ideal(aead)
    ensures LaidOut(|body|, Encrypted(aead, dek, prefix, aad, body))
  {
    PiecesLayout(body);
  }

  /** Where the last segment of a body starts. */
  function FinalOffset(length: nat): (n: nat)
    ensures n <= length
  {
    if length == 0 then 0 else (length - 1) / SEGMENT_PLAINTEXT_BYTES * SEGMENT_PLAINTEXT_BYTES
  }

  lemma FinalOffsetSteps(length: nat)
    ensures FinalOffset(length) == 0 <==> length <= SEGMENT_PLAINTEXT_BYTES
    ensures length > SEGMENT_PLAINTEXT_BYTES ==>
              FinalOffset(length) == FinalOffset(length - SEGMENT_PLAINTEXT_BYTES) + SEGMENT_PLAINTEXT_BYTES
  {
  }

  /** Seals the full segments of a body one after another, then the rest as the last one. */
  method EncryptStream(aead: Aead, dek: Bytes, prefix: Bytes, body: Bytes, aad: Bytes) returns (segments: seq<Bytes>)
    ensures segments == Encrypted(aead, dek, prefix, aad, body)
  {
    hide SegmentNonce, FinalOffset, Pieces;
    var finalOffset := FinalOffset(|body|);
    segments := [];
    ghost var pieces := Pieces(body);
    var offset := 0;
    assert body[0..] == body && pieces[0..] == pieces;
    while offset < finalOffset
      invariant offset <= |body| && finalOffset == offset + FinalOffset(|body| - offset)
      invariant |segments| < |pieces| && pieces[|segments|..] == Pieces(body[offset..])
      invariant forall i :: 0 <= i < |segments| ==> segments[i] == aead.seal(dek, SegmentNonce(prefix, i, false), aad, pieces[i])
    {
      FinalOffsetSteps(|body| - offset);
      NextPiece(body, pieces, offset, |segments|);
      var chunk := body[offset..offset + SEGMENT_PLAINTEXT_BYTES];
      segments := segments + [aead.seal(dek, SegmentNonce(prefix, |segments|, false), aad, chunk)];
      offset := offset + SEGMENT_PLAINTEXT_BYTES;
    }
    FinalOffsetSteps(|body| - offset);
    LastPiece(body, pieces, offset, |segments|);
    segments := segments + [aead.seal(dek, SegmentNonce(prefix, |segments|, true), aad, body[finalOffset..])];
    assert segments == SealPieces(aead, dek, prefix, aad, pieces);
  }

  lemma LastPiece(body: Bytes, pieces: seq<Bytes>, offset: nat, counter: nat)
    requires counter < |pieces| && offset <= |body| <= offset + SEGMENT_PLAINTEXT_BYTES
    requires pieces[counter..] == Pieces(body[offset..])
    ensures |pieces| == counter + 1 && pieces[counter] == body[offset..]
  {
    assert pieces[counter..] == [body[offset..]];
    assert pieces[counter] == pieces[counter..][0];
  }

  lemma NextPiece(body: Bytes, pieces: seq<Bytes>, offset: nat, counter: nat)
    requires counter < |pieces| && offset + SEGMENT_PLAINTEXT_BYTES < |body| && pieces[counter..] == Pieces(body[offset..])
    ensures counter + 1 < |pieces| && pieces[counter] == body[offset..offset + SEGMENT_PLAINTEXT_BYTES]
    ensures pieces[counter + 1..] == Pieces(body[offset + SEGMENT_PLAINTEXT_BYTES..])
  {
    var rest := body[offset..];
    assert rest[..SEGMENT_PLAINTEXT_BYTES] == body[offset..offset + SEGMENT_PLAINTEXT_BYTES];
    assert rest[SEGMENT_PLAINTEXT_BYTES..] == body[offset + SEGMENT_PLAINTEXT_BYTES..];
    assert pieces[counter] == pieces[counter..][0];
    assert pieces[counter + 1..] == pieces[counter..][1..];
  }

  /** Opens the segments in order; the pieces it found are those that were sealed. */
  method DecryptStream(aead: Aead, dek: Bytes, prefix: Bytes, segments: seq<Bytes>, aad: Bytes)
    returns (r: Result<Bytes, VaultError>, ghost pieces: seq<Bytes>)
    requires segments != []
    ensures r.Failure? ==> r.error == AuthenticationFailed
    ensures r.Success? <==> forall i :: 0 <= i < |segments| ==> Opened(aead, dek, prefix, segments, aad, i).Some?
    ensures r.Success? ==> |pieces| == |segments| && r.value == Join(pieces)
    ensures r.Success? ==> forall i :: 0 <= i < |segments| ==> Opened(aead, dek, prefix, segments, aad, i) == Some(pieces[i])
  {
    var plaintext: Bytes := [];
    pieces := [];
    for i := 0 to |segments| - 1
      invariant |pieces| == i && plaintext == Join(pieces)
      invariant forall j :: 0 <= j < i ==> Opened(aead, dek, prefix, segments, aad, j) == Some(pieces[j])
    {
      var chunk := aead.open(dek, SegmentNonce(prefix, i, false), aad, segments[i]);
      assert chunk == Opened(aead, dek, prefix, segments, aad, i);
      if chunk.None? { return Failure(AuthenticationFailed), pieces; }
      JoinAppend(pieces, chunk.value);
      plaintext, pieces := plaintext + chunk.value, pieces + [chunk.value];
    }
    var last := |segments| - 1;
    var chunk := aead.open(dek, SegmentNonce(prefix, last, true), aad, segments[last]);
    assert chunk == Opened(aead, dek, prefix, segments, aad, last);
    if chunk.None? { return Failure(AuthenticationFailed), pieces; }
    JoinAppend(pieces, chunk.value);
    return Success(plaintext + chunk.value), pieces + [chunk.value];
  }

  function Opened(aead: Aead, dek: Bytes, prefix: Bytes, segments: seq<Bytes>, aad: Bytes, i: nat): Option<Bytes>
    requires i < |segments|
  {
    aead.open(dek, SegmentNonce(prefix, i, i == |segments| - 1), aad, segments[i])
  }

  // ---------------------------------------------------------------- objects

  datatype SealedObject = SealedObject(prefix: Bytes, wrapNonce: Bytes, wrappedDek: Bytes, segments: seq<Bytes>) {
    /** The widths of the program's arrays. */
    predicate Typed() {
      |prefix| == STREAM_NONCE_PREFIX_BYTES && |wrapNonce| == WRAP_NONCE_BYTES && |wrappedDek| == KEY_BYTES + AEAD_TAG_BYTES
    }
  }

  /** The sealing of a body under a key, a data key and two nonces. */
  function SealedWith(aead: Aead, kek: Bytes, m: ObjectMetadata, body: Bytes, dek: Bytes, prefix: Bytes, wrapNonce: Bytes): SealedObject {
    SealedObject(prefix, wrapNonce, aead.seal(kek, wrapNonce, WrapAad(m, prefix), dek),
                 Encrypted(aead, dek, prefix, ObjectAad(m, prefix), body))
  }

  /** The `i`-th mebibyte of a body, or what is left of it. */
  function Stretch(body: Bytes, i: nat): Bytes
    requires i * 0x10_0000 <= |body|
  {
    if |body| <= (i + 1) * 0x10_0000 then body[i * 0x10_0000..] else body[i * 0x10_0000..(i + 1) * 0x10_0000]
  }

  lemma {:induction false} PieceIsStretch(body: Bytes, i: nat)
    requires i < |Pieces(body)|
    ensures i * 0x10_0000 <= |body| && Pieces(body)[i] == Stretch(body, i)
    ensures i == |Pieces(body)| - 1 <==> |body| <= (i + 1) * 0x10_0000
    decreases |body|
  {
    PiecesLayout(body);
    if i > 0 {
      var rest := body[SEGMENT_PLAINTEXT_BYTES..];
      PieceIsStretch(rest, i - 1);
      assert Stretch(rest, i - 1) == Stretch(body, i);
    } else if |body| > SEGMENT_PLAINTEXT_BYTES {
      PiecesLayout(body[SEGMENT_PLAINTEXT_BYTES..]);
    }
  }

  /**
   The segments of a sealed body, one by one: a mebibyte each, under the nonce of prefix, number and final
   flag, with the metadata and the prefix as associated data; the last one is the one the body ends in.
   */
  lemma SegmentExactly(aead: Aead, dek: Bytes, prefix: Bytes, aad: Bytes, body: Bytes, i: nat)
    requires i < U32_LIMIT && i < |Encrypted(aead, dek, prefix, aad, body)|
    ensures i * 0x10_0000 <= |body|
    ensures var final: Byte := if |body| <= (i + 1) * 0x10_0000 then 1 else 0;
            Encrypted(aead, dek, prefix, aad, body)[i] ==
              aead.seal(dek, prefix + [i / 0x100_0000, i / 0x1_0000 % 0x100, i / 0x100 % 0x100, i % 0x100, final], aad, Stretch(body, i))
    ensures i == |Encrypted(aead, dek, prefix, aad, body)| - 1 <==> |body| <= (i + 1) * 0x10_0000
  {
    hide BigEndian, Pieces, Stretch;
    PieceIsStretch(body, i);
    FourBytes(i);
    var final: Byte := if |body| <= (i + 1) * 0x10_0000 then 1 else 0;
    assert BigEndian(i, 4) + [final] == [i / 0x100_0000, i / 0x1_0000 % 0x100, i / 0x100 % 0x100, i % 0x100, final];
    assert SegmentNonce(prefix, i, final == 1) == prefix + (BigEndian(i, 4) + [final]);
  }

  /** The metadata declares exactly this body, within the limit. */
  predicate Declares(m: ObjectMetadata, body: Bytes, sha256: Bytes -> Bytes) {
    m.length == |body| <= MAX_OBJECT_PLAINTEXT_BYTES && m.digest == sha256(body)
  }

  /** Refuses a body that is not the declared one, then seals it under fresh random values. */
  method SealObject(aead: Aead, sha256: Bytes -> Bytes, kek: Bytes, m: ObjectMetadata, body: Bytes,
                    dek: Bytes, prefix: Bytes, wrapNonce: Bytes)
    returns (r: Result<SealedObject, VaultError>)
    ensures r.Success? <==> Declares(m, body, sha256)
    ensures r.Success? ==> r.value == SealedWith(aead, kek, m, body, dek, prefix, wrapNonce)
    ensures r.Success? ==>
      && r.value.prefix == prefix && r.value.wrapNonce == wrapNonce
      && r.value.wrappedDek == aead.seal(kek, wrapNonce, WrapAad(m, prefix), dek)
      && r.value.segments == Encrypted(aead, dek, prefix, ObjectAad(m, prefix), body)
    ensures r.Failure? ==> r.error == if m.length > MAX_OBJECT_PLAINTEXT_BYTES then PlaintextTooLarge
                                      else if m.length != |body| then LengthMismatch
                                      else DigestMismatch
  {
    if m.length > MAX_OBJECT_PLAINTEXT_BYTES { return Failure(PlaintextTooLarge); }
    if |body| != m.length { return Failure(LengthMismatch); }
    if sha256(body) != m.digest { return Failure(DigestMismatch); }
    var objectAad := BuildObjectAad(m, prefix);
    var segments := EncryptStream(aead, dek, prefix, body, objectAad);
    var wrapAad := BuildWrapAad(m, prefix);
    return Success(SealedObject(prefix, wrapNonce, aead.seal(kek, wrapNonce, wrapAad, dek), segments));
  }

  method ValidateSegmentLayout(length: nat, segments: seq<Bytes>) returns (ok: bool)
    ensures ok <==> LaidOut(length, segments)
  {
    if |segments| != ExpectedSegmentCount(length) { return false; }
    for i := 0 to |segments| - 1
      invariant forall j :: 0 <= j < i ==> |segments[j]| == SEGMENT_PLAINTEXT_BYTES + AEAD_TAG_BYTES
    {
      if |segments[i]| != SEGMENT_PLAINTEXT_BYTES + AEAD_TAG_BYTES { return false; }
    }
    return |segments[|segments| - 1]| == FinalLength(length) + AEAD_TAG_BYTES;
  }

  /** The object is the sealing of this body under the data key it carries. */
  ghost predicate IsSealing(aead: Aead, kek: Bytes, m: ObjectMetadata, body: Bytes, sealed: SealedObject) {
    exists dek :: |dek| == KEY_BYTES && sealed == SealedWith(aead, kek, m, body, dek, sealed.prefix, sealed.wrapNonce)
  }

  /** Opening is the exact inverse of sealing: it returns a body exactly when the object is its sealing. */
  method OpenObject(aead: Aead, sha256: Bytes -> Bytes, kek: Bytes, m: ObjectMetadata, sealed: SealedObject)
    returns (r: Result<Bytes, VaultError>)
    requires Ideal(aead) && sealed.Typed()
    ensures r.Success? ==> IsSealing(aead, kek, m, r.value, sealed) && Declares(m, r.value, sha256)
    ensures forall body :: IsSealing(aead, kek, m, body, sealed) && Declares(m, body, sha256) ==> r == Success(body)
    ensures r.Failure? && r.error == PlaintextTooLarge <==> m.length > MAX_OBJECT_PLAINTEXT_BYTES
    ensures m.length <= MAX_OBJECT_PLAINTEXT_BYTES && !LaidOut(m.length, sealed.segments) ==> r == Failure(MalformedCiphertext)
  {
    hide ObjectAad, WrapAad, SegmentNonce, Join, Pieces, IsSealing, Opened, Encrypted, Ideal;
    if m.length > MAX_OBJECT_PLAINTEXT_BYTES { return Failure(PlaintextTooLarge); }
    var laidOut := ValidateSegmentLayout(m.length, sealed.segments);
    SealingsAreLaidOut(aead, kek, m, sealed);
    if !laidOut { return Failure(MalformedCiphertext); }
    var wrapAad := BuildWrapAad(m, sealed.prefix);
    var dek := aead.open(kek, sealed.wrapNonce, wrapAad, sealed.wrappedDek);
    SealingsUnwrap(aead, kek, m, sealed);
    if dek.None? { return Failure(AuthenticationFailed); }
    UnwrappedWidth(aead, kek, sealed.wrapNonce, wrapAad, sealed.wrappedDek);
    assert sealed.segments != [];
    var objectAad := BuildObjectAad(m, sealed.prefix);
    var plaintext, pieces := DecryptStream(aead, dek.value, sealed.prefix, sealed.segments, objectAad);
    SealingsDecrypt(aead, kek, m, sealed, dek.value);
    if plaintext.Failure? { return Failure(AuthenticationFailed); }
    OpenedIsSealing(aead, kek, m, sealed, dek.value, pieces);
    if |plaintext.value| != m.length { return Failure(LengthMismatch); }
    if sha256(plaintext.value) != m.digest { return Failure(DigestMismatch); }
    return Success(plaintext.value);
  }

  lemma SealingsAreLaidOut(aead: Aead, kek: Bytes, m: ObjectMetadata, sealed: SealedObject)
    requires Ideal(aead)
    ensures forall body :: IsSealing(aead, kek, m, body, sealed) ==> LaidOut(|body|, sealed.segments)
  {
    forall body | IsSealing(aead, kek, m, body, sealed) ensures LaidOut(|body|, sealed.segments) {
      var dek :| |dek| == KEY_BYTES && sealed == SealedWith(aead, kek, m, body, dek, sealed.prefix, sealed.wrapNonce);
      EncryptedIsLaidOut(aead, dek, sealed.prefix, ObjectAad(m, sealed.prefix), body);
    }
  }

  lemma UnwrappedWidth(aead: Aead, kek: Bytes, nonce: Bytes, aad: Bytes, wrapped: Bytes)
    requires Ideal(aead) && aead.open(kek, nonce, aad, wrapped).Some?
    ensures |aead.open(kek, nonce, aad, wrapped).value| + AEAD_TAG_BYTES == |wrapped|
  {
    assert aead.seal(kek, nonce, aad, aead.open(kek, nonce, aad, wrapped).value) == wrapped;
  }

  /** A sealing's wrapped key opens to the one data key it can have been made with. */
  lemma SealingsUnwrap(aead: Aead, kek: Bytes, m: ObjectMetadata, sealed: SealedObject)
    requires Ideal(aead)
    ensures var dek := aead.open(kek, sealed.wrapNonce, WrapAad(m, sealed.prefix), sealed.wrappedDek);
            forall body :: IsSealing(aead, kek, m, body, sealed) ==>
              dek.Some? && sealed == SealedWith(aead, kek, m, body, dek.value, sealed.prefix, sealed.wrapNonce)
  {
  }

  lemma SealingsDecrypt(aead: Aead, kek: Bytes, m: ObjectMetadata, sealed: SealedObject, dek: Bytes)
    requires Ideal(aead) && aead.open(kek, sealed.wrapNonce, WrapAad(m, sealed.prefix), sealed.wrappedDek) == Some(dek)
    ensures forall body :: IsSealing(aead, kek, m, body, sealed) ==>
              && |sealed.segments| == |Pieces(body)| && Join(Pieces(body)) == body
              && forall i :: 0 <= i < |sealed.segments| ==>
                   Opened(aead, dek, sealed.prefix, sealed.segments, ObjectAad(m, sealed.prefix), i) == Some(Pieces(body)[i])
  {
    SealingsUnwrap(aead, kek, m, sealed);
    forall body | IsSealing(aead, kek, m, body, sealed)
      ensures |sealed.segments| == |Pieces(body)| && Join(Pieces(body)) == body
      ensures forall i :: 0 <= i < |sealed.segments| ==>
                Opened(aead, dek, sealed.prefix, sealed.segments, ObjectAad(m, sealed.prefix), i) == Some(Pieces(body)[i])
    {
      PiecesLayout(body);
    }
  }

  /** What opened under the right layout was sealed from exactly the joined pieces. */
  lemma OpenedIsSealing(aead: Aead, kek: Bytes, m: ObjectMetadata, sealed: SealedObject, dek: Bytes, pieces: seq<Bytes>)
    requires Ideal(aead) && LaidOut(m.length, sealed.segments) && |dek| == KEY_BYTES && |pieces| == |sealed.segments|
    requires aead.open(kek, sealed.wrapNonce, WrapAad(m, sealed.prefix), sealed.wrappedDek) == Some(dek)
    requires forall i :: 0 <= i < |pieces| ==>
      Opened(aead, dek, sealed.prefix, sealed.segments, ObjectAad(m, sealed.prefix), i) == Some(pieces[i])
    ensures IsSealing(aead, kek, m, Join(pieces), sealed)
    ensures forall body :: IsSealing(aead, kek, m, body, sealed) ==> body == Join(pieces)
  {
    hide ObjectAad, WrapAad, SegmentNonce, LaidOut, Join, Pieces;
    var aad := ObjectAad(m, sealed.prefix);
    forall i | 0 <= i < |pieces|
      ensures sealed.segments[i] == aead.seal(dek, SegmentNonce(sealed.prefix, i, i == |pieces| - 1), aad, pieces[i])
    {
      assert Opened(aead, dek, sealed.prefix, sealed.segments, aad, i) == Some(pieces[i]);
    }
    CutFromLayout(m.length, sealed.segments, pieces);
    PiecesUnique(pieces);
    assert sealed.segments == SealPieces(aead, dek, sealed.prefix, aad, pieces);
    SealingFound(aead, kek, m, sealed, dek, pieces);
    SealingsDecrypt(aead, kek, m, sealed, dek);
    forall body | IsSealing(aead, kek, m, body, sealed) ensures body == Join(pieces) { assert Pieces(body) == pieces; }
  }

  lemma SealingFound(aead: Aead, kek: Bytes, m: ObjectMetadata, sealed: SealedObject, dek: Bytes, pieces: seq<Bytes>)
    requires Ideal(aead) && |dek| == KEY_BYTES && pieces == Pieces(Join(pieces))
    requires aead.open(kek, sealed.wrapNonce, WrapAad(m, sealed.prefix), sealed.wrappedDek) == Some(dek)
    requires sealed.segments == SealPieces(aead, dek, sealed.prefix, ObjectAad(m, sealed.prefix), pieces)
    ensures IsSealing(aead, kek, m, Join(pieces), sealed)
  {
    hide ObjectAad, WrapAad, Join, Pieces, SealPieces;
    assert sealed == SealedWith(aead, kek, m, Join(pieces), dek, sealed.prefix, sealed.wrapNonce);
  }

  lemma CutFromLayout(length: nat, segments: seq<Bytes>, pieces: seq<Bytes>)
    requires LaidOut(length, segments) && |pieces| == |segments|
    requires forall i :: 0 <= i < |pieces| ==> |segments[i]| == |pieces[i]| + AEAD_TAG_BYTES
    ensures Cut(pieces)
  {
    assert length > 0 ==> FinalLength(length) > 0;
  }

  /** What was sealed under one nonce of the stream opens under no other nonce of the stream. */
  ghost predicate SeparatesStream(aead: Aead, dek: Bytes, prefix: Bytes, aad: Bytes) {
    forall i: nat, a, j: nat, b, m :: SegmentNonce(prefix, i, a) != SegmentNonce(prefix, j, b) ==>
      aead.open(dek, SegmentNonce(prefix, j, b), aad, aead.seal(dek, SegmentNonce(prefix, i, a), aad, m)) == None
  }

  /** A cipher that appends the last sixteen bytes of the nonce as its tag. */
  function NonceTag(nonce: Bytes): (tag: Bytes)
    ensures |tag| == AEAD_TAG_BYTES
  {
    if |nonce| < AEAD_TAG_BYTES then seq(AEAD_TAG_BYTES, _ => 0) else nonce[|nonce| - AEAD_TAG_BYTES..]
  }

  function TaggingAead(): Aead {
    Aead((k, n, a, m) => m + NonceTag(n),
         (k, n, a, c) =>
           if |c| >= AEAD_TAG_BYTES && c[|c| - AEAD_TAG_BYTES..] == NonceTag(n) then Some(c[..|c| - AEAD_TAG_BYTES]) else None)
  }

  lemma Tagged(m: Bytes, tag: Bytes)
    requires |tag| == AEAD_TAG_BYTES
    ensures (m + tag)[|m + tag| - AEAD_TAG_BYTES..] == tag && (m + tag)[..|m + tag| - AEAD_TAG_BYTES] == m
  {
  }

  lemma TagCut(c: Bytes)
    requires |c| >= AEAD_TAG_BYTES
    ensures c[..|c| - AEAD_TAG_BYTES] + c[|c| - AEAD_TAG_BYTES..] == c
  {
  }

  lemma TaggingIsIdeal()
    ensures Ideal(TaggingAead())
  {
    hide NonceTag;
    var aead := TaggingAead();
    forall k: Bytes, n: Bytes, a: Bytes, m: Bytes ensures aead.open(k, n, a, aead.seal(k, n, a, m)) == Some(m) { Tagged(m, NonceTag(n)); }
    forall k: Bytes, n: Bytes, a: Bytes, c: Bytes | aead.open(k, n, a, c).Some?
      ensures aead.seal(k, n, a, aead.open(k, n, a, c).value) == c
    {
      TagCut(c);
    }
  }

  /** Both assumptions on the cipher can be met at once, for every key, prefix of the program's width and data. */
  lemma AssumptionsAreConsistent(dek: Bytes, prefix: Bytes, aad: Bytes)
    requires |prefix| == STREAM_NONCE_PREFIX_BYTES
    ensures Ideal(TaggingAead()) && SeparatesStream(TaggingAead(), dek, prefix, aad)
  {
    hide NonceTag, Ideal;
    TaggingIsIdeal();
    var aead := TaggingAead();
    forall i: nat, a, j: nat, b, m: Bytes | SegmentNonce(prefix, i, a) != SegmentNonce(prefix, j, b)
      ensures aead.open(dek, SegmentNonce(prefix, j, b), aad, aead.seal(dek, SegmentNonce(prefix, i, a), aad, m)) == None
    {
      TagsDiffer(prefix, SegmentNonce(prefix, i, a), SegmentNonce(prefix, j, b));
      Tagged(m, NonceTag(SegmentNonce(prefix, i, a)));
    }
  }

  /** Nonces that share a prefix longer than the rest leaves out differ in their last sixteen bytes. */
  lemma TagsDiffer(prefix: Bytes, x: Bytes, y: Bytes)
    requires |prefix| == STREAM_NONCE_PREFIX_BYTES && prefix <= x && prefix <= y && x != y
    requires |x| == |y| == STREAM_NONCE_PREFIX_BYTES + 5
    ensures NonceTag(x) != NonceTag(y)
  {
    var k :| 0 <= k < |x| && x[k] != y[k];
    assert k >= |prefix|;
    assert NonceTag(x)[k - (|x| - AEAD_TAG_BYTES)] == x[k] && NonceTag(y)[k - (|y| - AEAD_TAG_BYTES)] == y[k];
  }

  lemma AtMostEight(body: Bytes)
    requires |body| <= MAX_OBJECT_PLAINTEXT_BYTES
    ensures |Pieces(body)| <= 8
  {
    PiecesLayout(body);
  }

  /** The nonce layout tells places apart, so a segment of the stream opens only where it was sealed. */
  lemma SegmentStays(aead: Aead, dek: Bytes, prefix: Bytes, aad: Bytes, body: Bytes, moved: seq<Bytes>, i: nat)
    requires SeparatesStream(aead, dek, prefix, aad) && |Encrypted(aead, dek, prefix, aad, body)| < U32_LIMIT
    requires i < |moved| < U32_LIMIT && moved[i] in Encrypted(aead, dek, prefix, aad, body)
    requires Opened(aead, dek, prefix, moved, aad, i).Some?
    ensures var segments := Encrypted(aead, dek, prefix, aad, body);
            i < |segments| && moved[i] == segments[i] && (i == |moved| - 1 <==> i == |segments| - 1)
  {
    hide SegmentNonce, Pieces;
    var segments := Encrypted(aead, dek, prefix, aad, body);
    var j :| 0 <= j < |segments| && segments[j] == moved[i];
    if SegmentNonce(prefix, j, j == |segments| - 1) == SegmentNonce(prefix, i, i == |moved| - 1) {
      SegmentNonceInjective(prefix, j, j == |segments| - 1, i, i == |moved| - 1);
    }
  }

  /**
   No arrangement of an object's own segments opens except the original one: no segment can be moved,
   dropped or repeated, and the last cannot leave the end.
   */
  lemma SegmentsCannotMove(aead: Aead, dek: Bytes, prefix: Bytes, aad: Bytes, body: Bytes, moved: seq<Bytes>)
    requires Ideal(aead) && SeparatesStream(aead, dek, prefix, aad) && |body| <= MAX_OBJECT_PLAINTEXT_BYTES
    requires moved != [] && |moved| < U32_LIMIT
    requires forall s :: s in moved ==> s in Encrypted(aead, dek, prefix, aad, body)
    requires forall i :: 0 <= i < |moved| ==> Opened(aead, dek, prefix, moved, aad, i).Some?
    ensures moved == Encrypted(aead, dek, prefix, aad, body)
  {
    var segments := Encrypted(aead, dek, prefix, aad, body);
    AtMostEight(body);
    assert |segments| == |Pieces(body)|;
    hide SegmentNonce, Pieces, Encrypted, Ideal, SeparatesStream, Opened;
    forall i | 0 <= i < |moved|
      ensures i < |segments| && moved[i] == segments[i] && (i == |moved| - 1 <==> i == |segments| - 1)
    {
      SegmentStays(aead, dek, prefix, aad, body, moved, i);
    }
    assert moved[|moved| - 1] == segments[|moved| - 1];
  }
}
