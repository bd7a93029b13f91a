/** The file form of a sealed object: sixteen fields in a fixed order behind a magic number. */
module Envelope {
  import opened AssociatedData
  import opened ByteCodec
  import opened ObjectCrypto
  import opened Objects
  import opened Wrappers

  const GENERATOR: string := "radishmemory.source-object-writer/1"
  const MAX_METADATA_FIELD: nat := 4096
  const MAX_ENVELOPE_BYTES: nat := MAX_OBJECT_PLAINTEXT_BYTES + 3 * MAX_METADATA_FIELD + 2048

  /** `RMOBJ` and the version. */
  function Magic(): (b: Bytes)
    ensures |b| == 6
  {
    Ascii("RMOBJ") + [1]
  }

  function ProfileValues(): (v: seq<Bytes>)
    ensures |v| == 6 && Short(v) && Total(v) == 211
  {
    var v := [Ascii(ENVELOPE_PROFILE), Ascii(GENERATOR), Ascii(OBJECT_CIPHER_PROFILE), Ascii(DEK_WRAP_PROFILE),
              Ascii(PROVIDER_PROFILE), Ascii(DIGEST_PROFILE)];
    TotalOfSix(v);
    v
  }

  lemma TotalFrom(v: seq<Bytes>, i: nat)
    requires i < |v|
    ensures Total(v[i..]) == |v[i]| + Total(v[i + 1..])
  {
    assert v[i..][1..] == v[i + 1..];
  }

  lemma TotalOfSix(v: seq<Bytes>)
    requires |v| == 6
    ensures Total(v) == |v[0]| + |v[1]| + |v[2]| + |v[3]| + |v[4]| + |v[5]|
  {
    assert v[0..] == v;
    TotalFrom(v, 0);
    TotalFrom(v, 1);
    TotalFrom(v, 2);
    TotalFrom(v, 3);
    TotalFrom(v, 4);
    TotalFrom(v, 5);
  }

  function MetadataValues(m: ObjectMetadata): seq<Bytes> {
    [m.space, m.source, m.digest, BigEndian(m.length, 8), m.media]
  }

  /** Metadata the file form can carry. */
  predicate Storable(m: ObjectMetadata) {
    m.length <= MAX_OBJECT_PLAINTEXT_BYTES && |m.space| <= MAX_METADATA_FIELD && |m.source| <= MAX_METADATA_FIELD
    && |m.media| <= MAX_METADATA_FIELD
  }

  function MetadataError(m: ObjectMetadata): VaultError {
    if m.length > MAX_OBJECT_PLAINTEXT_BYTES then PlaintextTooLarge else InvalidMetadata
  }

  function SegmentSize(): Bytes { BigEndian(SEGMENT_PLAINTEXT_BYTES, 4) }

  /** The fields that differ from object to object. */
  function SealedFields(s: SealedObject): Bytes {
    Field(13, s.prefix) + (Field(14, s.wrapNonce) + (Field(15, s.wrappedDek) + Field(16, Join(s.segments))))
  }

  /** The file form of an object under its metadata. */
  function Encoded(m: ObjectMetadata, s: SealedObject): Bytes {
    Magic() + (Fields(ProfileValues(), 1) + (Fields(MetadataValues(m), 7) + (Fields([SegmentSize()], 12) + SealedFields(s))))
  }

  /** The sixteen fields of the file form, in order, behind the magic number. */
  lemma EncodedFields(m: ObjectMetadata, s: SealedObject)
    ensures Encoded(m, s) == Ascii("RMOBJ") + [1] + Fields([
              Ascii("radishmemory.phase1-encrypted-source-vault/1"),
              Ascii("radishmemory.source-object-writer/1"),
              Ascii("radishmemory.xchacha20poly1305-stream-be32/1"),
              Ascii("radishmemory.xchacha20poly1305-dek-wrap/1"),
              Ascii("radishmemory.platform-key-store/1"),
              Ascii("exact-bytes-v1"),
              m.space, m.source, m.digest, BigEndian(m.length, 8), m.media, BigEndian(0x10_0000, 4),
              s.prefix, s.wrapNonce, s.wrappedDek, Join(s.segments)], 1)
  {
    hide Field, Ascii, BigEndian, Join;
    var p, v, z := ProfileValues(), MetadataValues(m), [SegmentSize()];
    var t := [s.prefix, s.wrapNonce, s.wrappedDek, Join(s.segments)];
    LastFields(s);
    FieldsAppend(z, t, 12);
    FieldsAppend(v, z + t, 7);
    FieldsAppend(p, v + (z + t), 1);
    var a, b, c, d := Magic(), Fields(p, 1), Fields(v, 7), Fields(z, 12);
    assert Fields(p + (v + (z + t)), 1) == b + (c + (d + SealedFields(s)));
    assert Encoded(m, s) == a + (b + (c + (d + SealedFields(s))));
    var all := [
      Ascii("radishmemory.phase1-encrypted-source-vault/1"),
      Ascii("radishmemory.source-object-writer/1"),
      Ascii("radishmemory.xchacha20poly1305-stream-be32/1"),
      Ascii("radishmemory.xchacha20poly1305-dek-wrap/1"),
      Ascii("radishmemory.platform-key-store/1"),
      Ascii("exact-bytes-v1"),
      m.space, m.source, m.digest, BigEndian(m.length, 8), m.media, BigEndian(0x10_0000, 4),
      s.prefix, s.wrapNonce, s.wrappedDek, Join(s.segments)];
    assert p + (v + (z + t)) == all;
    assert Encoded(m, s) == a + Fields(all, 1);
  }

  lemma LastFields(s: SealedObject)
    ensures Fields([s.prefix, s.wrapNonce, s.wrappedDek, Join(s.segments)], 13) == SealedFields(s)
  {
    hide Field, Join;
    var j := Join(s.segments);
    OneField(s.prefix, [s.wrapNonce, s.wrappedDek, j], 13);
    OneField(s.wrapNonce, [s.wrappedDek, j], 14);
    OneField(s.wrappedDek, [j], 15);
    OneField(j, [], 16);
    assert Fields([], 17) == [];
    hide Fields;
    assert [s.prefix, s.wrapNonce, s.wrappedDek, j] == [s.prefix] + [s.wrapNonce, s.wrappedDek, j];
    assert [s.wrapNonce, s.wrappedDek, j] == [s.wrapNonce] + [s.wrappedDek, j];
    assert [s.wrappedDek, j] == [s.wrappedDek] + [j];
    assert [j] == [j] + [];
    assert Field(16, j) + [] == Field(16, j);
  }

  lemma OneField(v: Bytes, rest: seq<Bytes>, tag: nat)
    requires tag + |rest| < 0x100
    ensures Fields([v] + rest, tag) == Field(tag, v) + Fields(rest, tag + 1)
  {
    assert ([v] + rest)[1..] == rest;
  }

  /** An object of the right widths and layout for its metadata. */
  predicate Proper(m: ObjectMetadata, s: SealedObject) {
    s.Typed() && LaidOut(m.length, s.segments)
  }

  // ---------------------------------------------------------------- sizes

  lemma {:induction false} JoinLength(segments: seq<Bytes>, size: nat)
    requires segments != [] && forall i :: 0 <= i < |segments| - 1 ==> |segments[i]| == size
    ensures |Join(segments)| == (|segments| - 1) * size + |segments[|segments| - 1]|
  {
    if |segments| == 1 {
      assert Join(segments) == segments[0] + Join([]);
    } else {
      JoinLength(segments[1..], size);
      OneMore(|segments| - 2, size);
    }
  }

  lemma OneMore(n: nat, size: nat)
    ensures n * size + size == (n + 1) * size
  {
  }

  /** The segments together: the body and one tag each. */
  lemma CiphertextLength(length: nat, segments: seq<Bytes>)
    requires LaidOut(length, segments)
    ensures |Join(segments)| == length + ExpectedSegmentCount(length) * AEAD_TAG_BYTES
  {
    JoinLength(segments, SEGMENT_PLAINTEXT_BYTES + AEAD_TAG_BYTES);
    LayoutSum(length, |segments| - 1);
  }

  lemma LayoutSum(length: nat, full: nat)
    requires full + 1 == ExpectedSegmentCount(length)
    ensures full * (SEGMENT_PLAINTEXT_BYTES + AEAD_TAG_BYTES) + FinalLength(length) + AEAD_TAG_BYTES == length + (full + 1) * AEAD_TAG_BYTES
  {
    assert full * SEGMENT_PLAINTEXT_BYTES + FinalLength(length) == length by { FullSegments(length, full); }
  }

  lemma FullSegments(length: nat, full: nat)
    requires full + 1 == ExpectedSegmentCount(length)
    ensures full * SEGMENT_PLAINTEXT_BYTES + FinalLength(length) == length
  {
    if length > 0 { assert full == (length - 1) / SEGMENT_PLAINTEXT_BYTES; }
  }

  /** No encoding is longer than the limit the reader enforces. */
  lemma EncodingFits(m: ObjectMetadata, s: SealedObject)
    requires m.Typed() && Storable(m) && Proper(m, s)
    ensures |Encoded(m, s)| <= MAX_ENVELOPE_BYTES && |Join(s.segments)| < U32_LIMIT
  {
    CiphertextLength(m.length, s.segments);
    assert ExpectedSegmentCount(m.length) <= 8;
    FieldsLength(ProfileValues(), 1);
    MetadataTotal(m);
    FieldsLength(MetadataValues(m), 7);
    FieldsLength([SegmentSize()], 12);
    assert Total([SegmentSize()]) == 4 + Total([]);
  }

  lemma MetadataTotal(m: ObjectMetadata)
    requires m.Typed() && Storable(m)
    ensures Total(MetadataValues(m)) <= 3 * MAX_METADATA_FIELD + 40
  {
    hide BigEndian;
    var v := MetadataValues(m);
    assert v[0..] == v;
    TotalFrom(v, 0);
    TotalFrom(v, 1);
    TotalFrom(v, 2);
    TotalFrom(v, 3);
    TotalFrom(v, 4);
  }

  // ---------------------------------------------------------------- chunks

  /** Consecutive pieces of this size, the last one possibly shorter. */
  function Chunks(b: Bytes, size: nat): seq<Bytes>
    requires size > 0
    decreases |b|
  {
    if b == [] then [] else if |b| <= size then [b] else [b[..size]] + Chunks(b[size..], size)
  }

  /** Chunking undoes joining for full segments before a last one that is not empty. */
  lemma {:induction false} ChunksOfJoin(segments: seq<Bytes>, size: nat)
    requires size > 0 && segments != []
    requires forall i :: 0 <= i < |segments| - 1 ==> |segments[i]| == size
    requires 0 < |segments[|segments| - 1]| <= size
    ensures Join(segments) != [] && Chunks(Join(segments), size) == segments
  {
    var b := Join(segments);
    if |segments| == 1 {
      assert b == segments[0] + Join([]);
      assert b == segments[0] && segments == [b];
    } else {
      ChunksOfJoin(segments[1..], size);
      assert b == segments[0] + Join(segments[1..]);
      assert b[..size] == segments[0] && b[size..] == Join(segments[1..]);
    }
  }

  lemma JoinHead(x: Bytes, rest: seq<Bytes>)
    ensures Join([x] + rest) == x + Join(rest)
  {
    assert ([x] + rest)[1..] == rest;
  }

  /** Joining undoes chunking; the chunks of a ciphertext of the declared length are laid out. */
  lemma {:induction false} JoinOfChunks(b: Bytes, size: nat)
    requires size > 0
    ensures Join(Chunks(b, size)) == b
    decreases |b|
  {
    if |b| > size {
      JoinOfChunks(b[size..], size);
      JoinHead(b[..size], Chunks(b[size..], size));
      assert b == b[..size] + b[size..];
    } else if b != [] {
      assert Join([b]) == b + Join([]);
    }
  }

  lemma {:induction false} ChunksLaidOut(b: Bytes, length: nat)
    requires |b| == length + ExpectedSegmentCount(length) * AEAD_TAG_BYTES
    ensures LaidOut(length, Chunks(b, SEGMENT_PLAINTEXT_BYTES + AEAD_TAG_BYTES))
    decreases length
  {
    var size := SEGMENT_PLAINTEXT_BYTES + AEAD_TAG_BYTES;
    if length > SEGMENT_PLAINTEXT_BYTES {
      var rest := length - SEGMENT_PLAINTEXT_BYTES;
      SegmentArithmetic(rest);
      ChunksLaidOut(b[size..], rest);
      assert Chunks(b, size)[1..] == Chunks(b[size..], size);
    }
  }

  // ---------------------------------------------------------------- matching

  datatype Outcome = Matched(rest: Bytes) | Malformed | Mismatched

  /** Takes fields with consecutive tags and compares them with expected values. */
  function Match(input: Bytes, values: seq<Bytes>, first: nat): Outcome
    requires first + |values| <= 0x100
  {
    if values == [] then Matched(input)
    else match Take(input, first)
         case None => Malformed
         case Some(t) => if t.value != values[0] then Mismatched else Match(t.rest, values[1..], first + 1)
  }

  lemma {:induction false} MatchedFields(input: Bytes, values: seq<Bytes>, first: nat, rest: Bytes)
    requires first + |values| <= 0x100 && Match(input, values, first) == Matched(rest)
    ensures input == Fields(values, first) + rest
    decreases |values|
  {
    hide Take, Field;
    if values == [] {
      assert Fields(values, first) + rest == rest;
    } else {
      TakenIsField(input, first);
      MatchedFields(Take(input, first).value.rest, values[1..], first + 1, rest);
      FieldsHead(values, first, rest);
    }
  }

  lemma {:induction false} FieldsMatch(values: seq<Bytes>, first: nat, rest: Bytes)
    requires first + |values| <= 0x100 && Short(values)
    ensures Match(Fields(values, first) + rest, values, first) == Matched(rest)
    decreases |values|
  {
    hide Take, Field;
    if values == [] {
      assert Fields(values, first) + rest == rest;
    } else {
      FieldsHead(values, first, rest);
      TakesField(first, values[0], Fields(values[1..], first + 1) + rest);
      FieldsMatch(values[1..], first + 1, rest);
    }
  }

  /** The fields match exactly when the input is these fields and the rest. */
  lemma MatchesFields(input: Bytes, values: seq<Bytes>, first: nat, rest: Bytes)
    requires first + |values| <= 0x100 && Short(values)
    ensures Match(input, values, first) == Matched(rest) <==> input == Fields(values, first) + rest
  {
    hide Match;
    if Match(input, values, first) == Matched(rest) { MatchedFields(input, values, first, rest); }
    FieldsMatch(values, first, rest);
  }

  /** After `k` of the expected fields stands a field of the next tag with another value. */
  predicate DiffersAt(input: Bytes, values: seq<Bytes>, first: nat, k: nat, value: Bytes, rest: Bytes)
    requires first + |values| <= 0x100
  {
    && k < |values| && |value| < U32_LIMIT && value != values[k]
    && input == Fields(values[..k], first) + (Field(first + k, value) + rest)
  }

  /** The fields mismatch exactly when the first thing that is not as expected is a value. */
  lemma {:induction false} DiffersExactly(input: Bytes, values: seq<Bytes>, first: nat)
    requires first + |values| <= 0x100 && Short(values)
    ensures Match(input, values, first) == Mismatched <==>
              exists k: nat, value: Bytes, rest: Bytes :: DiffersAt(input, values, first, k, value, rest)
    decreases |values|
  {
    hide Take, Field;
    if Match(input, values, first) == Mismatched { DiffersWhere(input, values, first); }
    if k: nat, value: Bytes, rest: Bytes :| DiffersAt(input, values, first, k, value, rest) {
      var next := Field(first + k, value) + rest;
      PrefixMatches(input, values, first, k, next);
      TakesField(first + k, value, rest);
    }
  }

  lemma {:induction false} DiffersWhere(input: Bytes, values: seq<Bytes>, first: nat)
    requires first + |values| <= 0x100 && Short(values) && Match(input, values, first) == Mismatched
    ensures exists k: nat, value: Bytes, rest: Bytes :: DiffersAt(input, values, first, k, value, rest)
    decreases |values|
  {
    hide Take, Field;
    TakenIsField(input, first);
    var t := Take(input, first).value;
    if t.value != values[0] {
      assert Fields(values[..0], first) + (Field(first + 0, t.value) + t.rest) == input;
      assert DiffersAt(input, values, first, 0, t.value, t.rest);
    } else {
      DiffersWhere(t.rest, values[1..], first + 1);
      var k: nat, value: Bytes, rest: Bytes :| DiffersAt(t.rest, values[1..], first + 1, k, value, rest);
      assert values[..k + 1][0] == values[0] && values[..k + 1][1..] == values[1..][..k];
      FieldsHead(values[..k + 1], first, Field(first + k + 1, value) + rest);
      assert DiffersAt(input, values, first, k + 1, value, rest);
    }
  }

  /** Behind expected fields the rest of the fields decides. */
  lemma {:induction false} PrefixMatches(input: Bytes, values: seq<Bytes>, first: nat, k: nat, next: Bytes)
    requires first + |values| <= 0x100 && Short(values) && k <= |values| && input == Fields(values[..k], first) + next
    ensures Match(input, values, first) == Match(next, values[k..], first + k)
    decreases k
  {
    hide Take, Field;
    if k == 0 {
      assert input == next && values[0..] == values;
    } else {
      assert values[..k][0] == values[0] && values[..k][1..] == values[1..][..k - 1];
      FieldsHead(values[..k], first, next);
      var inner := Fields(values[1..][..k - 1], first + 1) + next;
      TakesField(first, values[0], inner);
      PrefixMatches(inner, values[1..], first + 1, k - 1, next);
      assert values[1..][k - 1..] == values[k..];
    }
  }

  method ExpectFields(input: Bytes, values: seq<Bytes>, first: nat) returns (r: Outcome)
    requires first + |values| <= 0x100
    ensures r == Match(input, values, first)
  {
    var rest := input;
    assert values[0..] == values;
    for i := 0 to |values|
      invariant Match(input, values, first) == Match(rest, values[i..], first + i)
    {
      assert values[i..][1..] == values[i + 1..];
      var taken := Take(rest, first + i);
      if taken.None? { return Malformed; }
      if taken.value.value != values[i] { return Mismatched; }
      rest := taken.value.rest;
    }
    return Matched(rest);
  }

  // ---------------------------------------------------------------- the program

  method ValidateMetadata(m: ObjectMetadata) returns (ok: bool)
    ensures ok <==> Storable(m)
    ensures ok <==> m.length <= 0x80_0000 && forall text <- [m.space, m.source, m.media] :: |text| <= 4096
  {
    if m.length > MAX_OBJECT_PLAINTEXT_BYTES { return false; }
    var values := [m.space, m.source, m.media];
    for i := 0 to |values|
      invariant forall k :: 0 <= k < i ==> |values[k]| <= MAX_METADATA_FIELD
    {
      if |values[i]| > MAX_METADATA_FIELD {
        assert |m.space| > MAX_METADATA_FIELD || |m.source| > MAX_METADATA_FIELD || |m.media| > MAX_METADATA_FIELD;
        return false;
      }
    }
    assert |values[0]| <= MAX_METADATA_FIELD && |values[1]| <= MAX_METADATA_FIELD && |values[2]| <= MAX_METADATA_FIELD;
    return true;
  }

  /** The encoder writes exactly the file form. */
  method Encode(m: ObjectMetadata, s: SealedObject) returns (r: Result<Bytes, VaultError>)
    ensures r == if Storable(m) then Success(Encoded(m, s)) else Failure(MetadataError(m))
    ensures r.Failure? ==> r.error == if m.length > 0x80_0000 then PlaintextTooLarge else InvalidMetadata
  {
    hide Field, Fields, BigEndian;
    var ok := ValidateMetadata(m);
    if !ok { return Failure(MetadataError(m)); }
    var out := new Buffer();
    out.Push(Magic());
    out.PushFields(ProfileValues(), 1);
    out.PushFields(MetadataValues(m), 7);
    out.PushFields([SegmentSize()], 12);
    out.PushField(13, s.prefix);
    out.PushField(14, s.wrapNonce);
    out.PushField(15, s.wrappedDek);
    PushSegments(s.segments, out);
    EncodedInOrder(m, s);
    return Success(out.bytes);
  }

  /** The last field is written segment by segment. */
  method PushSegments(segments: seq<Bytes>, out: Buffer)
    modifies out
    ensures out.bytes == old(out.bytes) + Field(16, Join(segments))
  {
    var length := 0;
    for i := 0 to |segments|
      invariant length == |Join(segments[..i])| && out.bytes == old(out.bytes)
    {
      JoinAppend(segments[..i], segments[i]);
      assert segments[..i + 1] == segments[..i] + [segments[i]];
      length := length + |segments[i]|;
    }
    assert segments[..|segments|] == segments;
    ghost var start := out.bytes;
    out.Push([16]);
    out.Push(BigEndian(length % U32_LIMIT, 4));
    for i := 0 to |segments|
      invariant out.bytes == start + [16] + BigEndian(length % U32_LIMIT, 4) + Join(segments[..i])
    {
      JoinAppend(segments[..i], segments[i]);
      assert segments[..i + 1] == segments[..i] + [segments[i]];
      out.Push(segments[i]);
      Together(start + [16] + BigEndian(length % U32_LIMIT, 4), Join(segments[..i]), segments[i]);
    }
    var size := BigEndian(length % U32_LIMIT, 4);
    Together(start, [16], size);
    Together(start, [16] + size, Join(segments));
    assert Field(16, Join(segments)) == [16] + size + Join(segments);
  }

  lemma EncodedInOrder(m: ObjectMetadata, s: SealedObject)
    ensures Encoded(m, s) == [] + Magic() + Fields(ProfileValues(), 1) + Fields(MetadataValues(m), 7)
              + Fields([SegmentSize()], 12) + Field(13, s.prefix) + Field(14, s.wrapNonce) + Field(15, s.wrappedDek)
              + Field(16, Join(s.segments))
  {
    hide Field, Fields, Magic, BigEndian;
    var a, b, c, d := Magic(), Fields(ProfileValues(), 1), Fields(MetadataValues(m), 7), Fields([SegmentSize()], 12);
    var e, f, g, h := Field(13, s.prefix), Field(14, s.wrapNonce), Field(15, s.wrappedDek), Field(16, Join(s.segments));
    Together(e + f, g, h);
    Together(e, f, g + h);
    Together(a + b + c, d, SealedFields(s));
    Together(a + b, c, d + SealedFields(s));
    Together(a, b, c + (d + SealedFields(s)));
    var front := a + b + c + d;
    Together(front, e, f);
    Together(front, e + f, g);
    Together(front, e + f + g, h);
    assert [] + a == a;
  }

  /** The three fixed-width fields and the ciphertext, in a form of their own widths. */
  method DecodeSealed(input: Bytes, length: nat) returns (r: Option<SealedObject>)
    ensures r.Some? ==> input == SealedFields(r.value) && r.value.Typed() && LaidOut(length, r.value.segments)
    ensures r.None? ==> forall s: SealedObject :: s.Typed() && LaidOut(length, s.segments) && |Join(s.segments)| < U32_LIMIT ==>
              input != SealedFields(s)
  {
    hide Take, Field;
    forall s: SealedObject | s.Typed() && |Join(s.segments)| < U32_LIMIT && input == SealedFields(s)
      ensures TakesSealed(input, s)
    {
      SealedTaken(s);
    }
    var prefix := Take(input, 13);
    if prefix.None? || |prefix.value.value| != STREAM_NONCE_PREFIX_BYTES { return None; }
    var wrapNonce := Take(prefix.value.rest, 14);
    if wrapNonce.None? || |wrapNonce.value.value| != WRAP_NONCE_BYTES { return None; }
    var wrapped := Take(wrapNonce.value.rest, 15);
    if wrapped.None? || |wrapped.value.value| != KEY_BYTES + AEAD_TAG_BYTES { return None; }
    var ciphertext := Take(wrapped.value.rest, 16);
    if ciphertext.None? { return None; }
    var count := if DivCeil(length, SEGMENT_PLAINTEXT_BYTES) > 1 then DivCeil(length, SEGMENT_PLAINTEXT_BYTES) else 1;
    CountsAgree(length);
    if ciphertext.value.rest != [] || |ciphertext.value.value| != length + count * AEAD_TAG_BYTES {
      forall s: SealedObject | LaidOut(length, s.segments)
        ensures |Join(s.segments)| == length + ExpectedSegmentCount(length) * AEAD_TAG_BYTES
      {
        CiphertextLength(length, s.segments);
      }
      return None;
    }
    var segments := Chunks(ciphertext.value.value, SEGMENT_PLAINTEXT_BYTES + AEAD_TAG_BYTES);
    ChunksLaidOut(ciphertext.value.value, length);
    JoinOfChunks(ciphertext.value.value, SEGMENT_PLAINTEXT_BYTES + AEAD_TAG_BYTES);
    TakenIsField(input, 13);
    TakenIsField(prefix.value.rest, 14);
    TakenIsField(wrapNonce.value.rest, 15);
    TakenIsField(wrapped.value.rest, 16);
    assert Field(16, ciphertext.value.value) + [] == Field(16, ciphertext.value.value);
    return Some(SealedObject(prefix.value.value, wrapNonce.value.value, wrapped.value.value, segments));
  }

  lemma CountsAgree(length: nat)
    ensures ExpectedSegmentCount(length) == if DivCeil(length, SEGMENT_PLAINTEXT_BYTES) > 1 then DivCeil(length, SEGMENT_PLAINTEXT_BYTES) else 1
  {
  }

  /** How the fields of an object are taken one after another. */
  ghost predicate TakesSealed(input: Bytes, s: SealedObject) {
    var a, b, c := Field(14, s.wrapNonce), Field(15, s.wrappedDek), Field(16, Join(s.segments));
    && Take(input, 13) == Some(Taken(s.prefix, a + (b + c)))
    && Take(a + (b + c), 14) == Some(Taken(s.wrapNonce, b + c))
    && Take(b + c, 15) == Some(Taken(s.wrappedDek, c))
    && Take(c, 16) == Some(Taken(Join(s.segments), []))
  }

  lemma SealedTaken(s: SealedObject)
    requires s.Typed() && |Join(s.segments)| < U32_LIMIT
    ensures TakesSealed(SealedFields(s), s)
  {
    hide Take, Field;
    var a, b, c := Field(14, s.wrapNonce), Field(15, s.wrappedDek), Field(16, Join(s.segments));
    TakesField(13, s.prefix, a + (b + c));
    TakesField(14, s.wrapNonce, b + c);
    TakesField(15, s.wrappedDek, c);
    TakesField(16, Join(s.segments), []);
    assert c + [] == c;
  }

  /** Behind the magic number and the profiles stands a field that contradicts the expected metadata. */
  predicate Contradicts(bytes: Bytes, m: ObjectMetadata) {
    Magic() <= bytes
    && var profiles := Match(bytes[|Magic()|..], ProfileValues(), 1);
       profiles.Matched? && Match(profiles.rest, MetadataValues(m), 7) == Mismatched
  }

  /**
   The decoder accepts exactly the encodings of proper objects under the expected metadata, and
   returns the object that was encoded.
   */
  method Decode(bytes: Bytes, m: ObjectMetadata) returns (r: Result<SealedObject, VaultError>)
    requires m.Typed()
    ensures r.Success? ==> Storable(m) && Proper(m, r.value) && bytes == Encoded(m, r.value)
    ensures Storable(m) ==> forall s: SealedObject :: Proper(m, s) && bytes == Encoded(m, s) ==> r == Success(s)
    ensures !Storable(m) ==> r == Failure(MetadataError(m))
    ensures r.Failure? && Storable(m) ==>
              r.error == if |bytes| <= MAX_ENVELOPE_BYTES && Contradicts(bytes, m) then MetadataMismatch else InvalidEnvelope
  {
    hide Field, Fields, Match, BigEndian, Take;
    var ok := ValidateMetadata(m);
    if !ok { return Failure(MetadataError(m)); }
    forall s: SealedObject | Proper(m, s) && bytes == Encoded(m, s)
      ensures |bytes| <= MAX_ENVELOPE_BYTES && |Join(s.segments)| < U32_LIMIT && Parsed(bytes, m, s)
    {
      EncodingFits(m, s);
      EncodedParses(m, s);
    }
    if |bytes| > MAX_ENVELOPE_BYTES || !(Magic() <= bytes) { return Failure(InvalidEnvelope); }
    var input := bytes[|Magic()|..];
    var profiles := ExpectFields(input, ProfileValues(), 1);
    if !profiles.Matched? { return Failure(InvalidEnvelope); }
    MatchesFields(input, ProfileValues(), 1, profiles.rest);
    var facts := ExpectFields(profiles.rest, MetadataValues(m), 7);
    if !facts.Matched? { return Failure(if facts.Mismatched? then MetadataMismatch else InvalidEnvelope); }
    ShortMetadata(m);
    MatchesFields(profiles.rest, MetadataValues(m), 7, facts.rest);
    var size := ExpectFields(facts.rest, [SegmentSize()], 12);
    if !size.Matched? { return Failure(InvalidEnvelope); }
    MatchesFields(facts.rest, [SegmentSize()], 12, size.rest);
    var sealed := DecodeSealed(size.rest, m.length);
    if sealed.None? { return Failure(InvalidEnvelope); }
    assert bytes == Magic() + input;
    assert bytes == Encoded(m, sealed.value);
    forall s: SealedObject | Proper(m, s) && bytes == Encoded(m, s) ensures s == sealed.value {
      EncodedInjective(m, s, sealed.value);
    }
    return Success(sealed.value);
  }

  lemma ShortMetadata(m: ObjectMetadata)
    requires m.Typed() && Storable(m)
    ensures Short(MetadataValues(m)) && Short([SegmentSize()])
  {
    hide BigEndian;
  }

  /** How an encoding is read up to its last four fields. */
  ghost predicate Parsed(bytes: Bytes, m: ObjectMetadata, s: SealedObject) {
    var d := Fields([SegmentSize()], 12) + SealedFields(s);
    var c := Fields(MetadataValues(m), 7) + d;
    && Magic() <= bytes
    && Match(bytes[|Magic()|..], ProfileValues(), 1) == Matched(c)
    && Match(c, MetadataValues(m), 7) == Matched(d)
    && Match(d, [SegmentSize()], 12) == Matched(SealedFields(s))
  }

  lemma EncodedParses(m: ObjectMetadata, s: SealedObject)
    requires m.Typed() && Storable(m)
    ensures Parsed(Encoded(m, s), m, s)
  {
    hide Field, Fields, Match, BigEndian, SealedFields;
    var d := Fields([SegmentSize()], 12) + SealedFields(s);
    var c := Fields(MetadataValues(m), 7) + d;
    assert Encoded(m, s)[|Magic()|..] == Fields(ProfileValues(), 1) + c;
    ShortMetadata(m);
    FieldsMatch(ProfileValues(), 1, c);
    FieldsMatch(MetadataValues(m), 7, d);
    FieldsMatch([SegmentSize()], 12, SealedFields(s));
  }

  /** An encoding determines the object. */
  lemma EncodedInjective(m: ObjectMetadata, s: SealedObject, t: SealedObject)
    requires m.Typed() && Storable(m) && Proper(m, s) && Proper(m, t) && Encoded(m, s) == Encoded(m, t)
    ensures s == t
  {
    hide Field, Fields, Match, BigEndian, SealedFields, Encoded, Take;
    EncodingFits(m, s);
    EncodingFits(m, t);
    EncodedParses(m, s);
    EncodedParses(m, t);
    SealedTaken(s);
    SealedTaken(t);
    SegmentsFromJoin(m.length, s.segments);
    SegmentsFromJoin(m.length, t.segments);
  }

  lemma SegmentsFromJoin(length: nat, segments: seq<Bytes>)
    requires LaidOut(length, segments)
    ensures Chunks(Join(segments), SEGMENT_PLAINTEXT_BYTES + AEAD_TAG_BYTES) == segments
  {
    ChunksOfJoin(segments, SEGMENT_PLAINTEXT_BYTES + AEAD_TAG_BYTES);
  }
}
