/**
  What the glue encoding promises: reads invert writes, a message decoded
  into a freshly built message of the same type gives back every field,
  the header is checked before any field is read, and a message cut short
  anywhere is rejected.
*/
module GlueLaws {
  import opened GlueWire

  // ---------------------------------------------------------------------
  // Reading back what was written

  lemma {:induction false} TakeU32Of(x: U32, rest: Bytes)
    ensures TakeU32(U32Bytes(x) + rest) == Ok((x, rest))
  {
    var s := U32Bytes(x) + rest;
    assert s[..4] == U32Bytes(x);
    assert s[4..] == rest;
    U32RoundTrip(x);
  }

  lemma {:induction false} TakeBlobOf(b: Bytes, rest: Bytes)
    requires |b| < 0x1_0000_0000
    ensures TakeBlob(Blob(b) + rest) == Ok((b, rest))
  {
    assert Blob(b) + rest == U32Bytes(|b|) + (b + rest);
    TakeU32Of(|b|, b + rest);
    assert (b + rest)[..|b|] == b;
    assert (b + rest)[|b|..] == rest;
  }

  lemma {:induction false} TakeWordsOf(ws: seq<U32>, rest: Bytes)
    ensures TakeWords(Words(ws) + rest, |ws|) == Ok((ws, rest))
  {
    if ws != [] {
      var tail := Words(ws[1..]) + rest;
      assert Words(ws) + rest == U32Bytes(ws[0]) + tail;
      TakeU32Of(ws[0], tail);
      TakeWordsOf(ws[1..], rest);
      assert TakeWords(tail, |ws| - 1) == Ok((ws[1..], rest));
      assert [ws[0]] + ws[1..] == ws;
    } else {
      assert Words(ws) + rest == rest;
    }
  }

  /** Every length the array-of-blob encoding stores fits in a uint32_t. */
  predicate BlobsFit(bs: seq<Bytes>)
  {
    forall i :: 0 <= i < |bs| ==> |bs[i]| < 0x1_0000_0000
  }

  lemma {:induction false} TakeBlobsOf(bs: seq<Bytes>, rest: Bytes)
    requires BlobsFit(bs)
    ensures TakeBlobs(Blobs(bs) + rest, |bs|) == Ok((bs, rest))
  {
    if bs != [] {
      assert Blobs(bs) + rest == Blob(bs[0]) + (Blobs(bs[1..]) + rest);
      TakeBlobOf(bs[0], Blobs(bs[1..]) + rest);
      TakeBlobsOf(bs[1..], rest);
      assert [bs[0]] + bs[1..] == bs;
    } else {
      assert Blobs(bs) + rest == rest;
    }
  }

  /** Conversely, what the blob reader accepts is exactly a blob followed by the rest. */
  lemma TakeBlobEncodes(s: Bytes, b: Bytes, rest: Bytes)
    requires TakeBlob(s) == Ok((b, rest))
    ensures s == Blob(b) + rest
  {
    var (n, s1) := TakeU32(s).value;
    assert |b| == n;
    SeqAssoc(U32Bytes(n), b, rest);
  }

  lemma {:induction false} TakeBlobsEncodes(s: Bytes, n: nat, bs: seq<Bytes>, rest: Bytes)
    requires TakeBlobs(s, n) == Ok((bs, rest))
    ensures s == Blobs(bs) + rest
  {
    if n > 0 {
      var (b, s1) := TakeBlob(s).value;
      var (bs1, s2) := TakeBlobs(s1, n - 1).value;
      assert TakeBlobs(s1, n - 1) == Ok((bs1, s2));
      assert bs == [b] + bs1 && rest == s2;
      TakeBlobEncodes(s, b, s1);
      TakeBlobsEncodes(s1, n - 1, bs1, s2);
      assert bs[1..] == bs1;
      SeqAssoc(Blob(b), Blobs(bs1), rest);
    }
  }

  lemma TakeWordsCons(s: Bytes, n: nat, w: U32, s1: Bytes, ws: seq<U32>, s2: Bytes)
    requires n > 0 && TakeU32(s) == Ok((w, s1)) && TakeWords(s1, n - 1) == Ok((ws, s2))
    ensures TakeWords(s, n) == Ok(([w] + ws, s2))
  {
  }

  lemma TakeWordsUncons(s: Bytes, n: nat, ws: seq<U32>, s2: Bytes) returns (w: U32, s1: Bytes)
    requires n > 0 && TakeWords(s, n) == Ok((ws, s2))
    ensures TakeU32(s) == Ok((w, s1)) && |ws| == n && ws[0] == w
    ensures TakeWords(s1, n - 1) == Ok((ws[1..], s2))
  {
    w, s1 := TakeU32(s).value.0, TakeU32(s).value.1;
  }

  lemma TakeBlobsCons(s: Bytes, n: nat, b: Bytes, s1: Bytes, bs: seq<Bytes>, s2: Bytes)
    requires n > 0 && TakeBlob(s) == Ok((b, s1)) && TakeBlobs(s1, n - 1) == Ok((bs, s2))
    ensures TakeBlobs(s, n) == Ok(([b] + bs, s2))
  {
  }

  lemma TakeBlobsUncons(s: Bytes, n: nat, bs: seq<Bytes>, s2: Bytes) returns (b: Bytes, s1: Bytes)
    requires n > 0 && TakeBlobs(s, n) == Ok((bs, s2))
    ensures TakeBlob(s) == Ok((b, s1)) && |bs| == n && bs[0] == b
    ensures TakeBlobs(s1, n - 1) == Ok((bs[1..], s2))
  {
    b, s1 := TakeBlob(s).value.0, TakeBlob(s).value.1;
  }

  lemma SeqAssoc(a: Bytes, b: Bytes, c: Bytes)
    ensures a + b + c == a + (b + c)
  {
  }

  lemma TakeCountedWordsOf(ws: seq<U32>, rest: Bytes)
    requires |ws| < 0x1_0000_0000
    ensures TakeCountedWords(U32Bytes(Len32(|ws|)) + Words(ws) + rest) == Ok((ws, rest))
  {
    var tail := Words(ws) + rest;
    var n := |ws|;
    assert U32Bytes(Len32(n)) == U32Bytes(n);
    SeqAssoc(U32Bytes(n), Words(ws), rest);
    assert TakeU32(U32Bytes(n) + tail) == Ok((n, tail)) by {
      TakeU32Of(n, tail);
    }
    assert TakeWords(tail, n) == Ok((ws, rest)) by {
      TakeWordsOf(ws, rest);
    }
  }

  lemma TakeCountedBlobsOf(bs: seq<Bytes>, rest: Bytes)
    requires |bs| < 0x1_0000_0000 && BlobsFit(bs)
    ensures TakeCountedBlobs(U32Bytes(Len32(|bs|)) + Blobs(bs) + rest) == Ok((bs, rest))
  {
    var tail := Blobs(bs) + rest;
    var n := |bs|;
    assert U32Bytes(Len32(n)) == U32Bytes(n);
    SeqAssoc(U32Bytes(n), Blobs(bs), rest);
    assert TakeU32(U32Bytes(n) + tail) == Ok((n, tail)) by {
      TakeU32Of(n, tail);
    }
    assert TakeBlobs(tail, n) == Ok((bs, rest)) by {
      TakeBlobsOf(bs, rest);
    }
  }

  lemma IntWordsRoundTrip(xs: seq<I32>)
    ensures WordsToInts(IntsToWords(xs)) == xs
  {
    forall k | 0 <= k < |xs|
      ensures WordsToInts(IntsToWords(xs))[k] == xs[k]
    {
      I32RoundTrip(xs[k]);
    }
  }

  /**
    What a receiving value holds after the payload of `v` is read into it:
    `v` itself, except that arrays keep what they held and get `v`'s
    elements appended.
  */
  function Appended(r: Value, v: Value): Value
    requires r.Kind() == v.Kind()
  {
    match v
    case ArrBoolVal(ws) => ArrBoolVal(r.words + ws)
    case ArrIntVal(xs) => ArrIntVal(r.ints + xs)
    case ArrFloatVal(ws) => ArrFloatVal(r.floats + ws)
    case ArrStrVal(bs) => ArrStrVal(r.strs + bs)
    case ArrRawVal(bs) => ArrRawVal(r.bufs + bs)
    case _ => v
  }

  lemma AppendedToDefault(v: Value)
    ensures Appended(Default(v.Kind()), v) == v
  {
  }

  lemma {:induction false} PayloadRoundTrip(r: Value, v: Value, rest: Bytes)
    requires r.Kind() == v.Kind() && Fits32(v)
    ensures DecodePayload(r, Payload(v) + rest) == Ok((Appended(r, v), rest))
  {
    match v
    case BoolVal(b) =>
      TakeU32Of(if b then 1 else 0, rest);
    case IntVal(i) =>
      TakeU32Of(I32Bits(i), rest);
      I32RoundTrip(i);
    case FloatVal(f) =>
      TakeU32Of(f, rest);
    case StrVal(s) =>
      TakeBlobOf(s, rest);
    case RawVal(b) =>
      TakeBlobOf(b, rest);
    case ArrBoolVal(ws) =>
      TakeCountedWordsOf(ws, rest);
    case ArrIntVal(xs) =>
      TakeCountedWordsOf(IntsToWords(xs), rest);
      IntWordsRoundTrip(xs);
    case ArrFloatVal(ws) =>
      TakeCountedWordsOf(ws, rest);
    case ArrStrVal(bs) =>
      TakeCountedBlobsOf(bs, rest);
    case ArrRawVal(bs) =>
      TakeCountedBlobsOf(bs, rest);
  }

  /** A bool payload is any uint32_t; every non-zero word reads as true. */
  lemma BoolDecodesNonZero(b: bool, w: U32, rest: Bytes)
    ensures DecodePayload(BoolVal(b), U32Bytes(w) + rest) == Ok((BoolVal(w != 0), rest))
  {
    TakeU32Of(w, rest);
  }

  // ---------------------------------------------------------------------
  // One field

  /**
    A receiving field that will read the payload of `f`: it carries its own
    kind's tag (as every field of a freshly built message does) and has the
    same kind as `f`.
  */
  predicate Receives(r: Field, f: Field)
  {
    r.value.Kind() == f.value.Kind() && r.dtype == Code(r.value.Kind())
  }

  /** The receiving field `r` after it has decoded the encoding of `f`. */
  function Received(r: Field, f: Field): Field
    requires r.value.Kind() == f.value.Kind()
  {
    if f.IsNull() then r.(dtype := NULL_TAG)
    else r.(dtype := f.dtype, value := Appended(r.value, f.value))
  }

  /**
    A NULL tag makes any field that dispatches null, reads no payload and
    leaves the stored value as it was.
  */
  lemma NullTagReadsNoPayload(r: Field, rest: Bytes)
    requires Dispatchable(r) && r.dtype <= LAST_TAG
    ensures DecodeField(r, U32Bytes(NULL_TAG) + rest) == Ok((r.(dtype := NULL_TAG), rest))
  {
    TakeU32Of(NULL_TAG, rest);
  }

  /**
    The tag read is stored without checking it against the field's kind:
    any non-null tag is followed by a payload of the receiving field's kind.
  */
  lemma TagStoredUnchecked(r: Field, t: U32, v: Value, rest: Bytes)
    requires r.dtype == Code(r.value.Kind()) && t != NULL_TAG
    requires v.Kind() == r.value.Kind() && Fits32(v)
    ensures DecodeField(r, U32Bytes(t) + Payload(v) + rest)
         == Ok((r.(dtype := t, value := Appended(r.value, v)), rest))
  {
    assert U32Bytes(t) + Payload(v) + rest == U32Bytes(t) + (Payload(v) + rest);
    TakeU32Of(t, Payload(v) + rest);
    PayloadRoundTrip(r.value, v, rest);
  }

  lemma {:induction false} FieldRoundTrip(r: Field, f: Field, rest: Bytes)
    requires Receives(r, f) && Settled(f) && Fits32(f.value)
    ensures DecodeField(r, EncodeField(f) + rest) == Ok((Received(r, f), rest))
  {
    if f.IsNull() {
      NullTagReadsNoPayload(r, rest);
    } else {
      TagStoredUnchecked(r, f.dtype, f.value, rest);
    }
  }

  /** A freshly built field of the same kind reads back a non-null field exactly. */
  lemma FreshFieldRoundTrip(f: Field, rest: Bytes)
    requires f.dtype == Code(f.value.Kind()) && Fits32(f.value)
    ensures DecodeField(Fresh(f.name, f.value.Kind()), EncodeField(f) + rest) == Ok((f, rest))
  {
    var r := Fresh(f.name, f.value.Kind());
    FieldRoundTrip(r, f, rest);
    AppendedToDefault(f.value);
  }

  // ---------------------------------------------------------------------
  // A whole message

  predicate AllDispatchable(fs: seq<Field>)
  {
    forall i :: 0 <= i < |fs| ==> Dispatchable(fs[i])
  }

  /** Fields the program built or set, with lengths that fit the wire. */
  predicate Sendable(fs: seq<Field>)
  {
    forall i :: 0 <= i < |fs| ==> Settled(fs[i]) && Fits32(fs[i].value)
  }

  predicate AllReceive(rs: seq<Field>, fs: seq<Field>)
  {
    |rs| == |fs| && forall i :: 0 <= i < |fs| ==> Receives(rs[i], fs[i])
  }

  function ReceivedAll(rs: seq<Field>, fs: seq<Field>): (out: seq<Field>)
    requires AllReceive(rs, fs)
    ensures |out| == |fs|
  {
    seq(|fs|, i requires 0 <= i < |fs| => Received(rs[i], fs[i]))
  }

  /** The fields of a freshly built message of the same type as `fs`. */
  function FreshLike(fs: seq<Field>): (rs: seq<Field>)
    ensures AllReceive(rs, fs)
  {
    seq(|fs|, i requires 0 <= i < |fs| => Fresh(fs[i].name, fs[i].value.Kind()))
  }

  lemma {:induction false} EncodeFieldsAppend(fs: seq<Field>, gs: seq<Field>)
    requires AllDispatchable(fs) && AllDispatchable(gs)
    ensures AllDispatchable(fs + gs)
    ensures EncodeFields(fs + gs) == EncodeFields(fs) + EncodeFields(gs)
  {
    if fs != [] {
      assert (fs + gs)[1..] == fs[1..] + gs;
      EncodeFieldsAppend(fs[1..], gs);
    } else {
      assert fs + gs == gs;
    }
  }

  lemma {:induction false} FieldsRoundTrip(rs: seq<Field>, fs: seq<Field>, rest: Bytes)
    requires AllReceive(rs, fs) && Sendable(fs)
    ensures AllDispatchable(rs) && AllDispatchable(fs)
    ensures DecodeFields(rs, EncodeFields(fs) + rest) == Ok((ReceivedAll(rs, fs), rest))
  {
    if fs != [] {
      var tail := EncodeFields(fs[1..]) + rest;
      var s := EncodeFields(fs) + rest;
      assert s == EncodeField(fs[0]) + tail by {
        SeqAssoc(EncodeField(fs[0]), EncodeFields(fs[1..]), rest);
      }
      var g := Received(rs[0], fs[0]);
      var gs := ReceivedAll(rs[1..], fs[1..]);
      assert DecodeField(rs[0], s) == Ok((g, tail)) by {
        FieldRoundTrip(rs[0], fs[0], tail);
      }
      assert DecodeFields(rs[1..], tail) == Ok((gs, rest)) by {
        FieldsRoundTrip(rs[1..], fs[1..], rest);
      }
      assert DecodeFields(rs, s) == Ok(([g] + gs, rest));
      assert [g] + gs == ReceivedAll(rs, fs);
    } else {
      assert EncodeFields(fs) + rest == rest;
    }
  }

  /**
    A field as the receiving side sees it: itself, except that a null field
    holds the value its constructor gave it.
  */
  function Restored(f: Field): (g: Field)
    ensures g.name == f.name && g.dtype == f.dtype && g.value.Kind() == f.value.Kind()
    ensures !f.IsNull() ==> g == f
  {
    if f.IsNull() then f.(value := Default(f.value.Kind())) else f
  }

  function RestoredAll(fs: seq<Field>): (gs: seq<Field>)
    ensures |gs| == |fs|
  {
    seq(|fs|, i requires 0 <= i < |fs| => Restored(fs[i]))
  }

  lemma FreshReceivesRestored(fs: seq<Field>)
    ensures ReceivedAll(FreshLike(fs), fs) == RestoredAll(fs)
  {
    forall i | 0 <= i < |fs|
      ensures ReceivedAll(FreshLike(fs), fs)[i] == RestoredAll(fs)[i]
    {
      AppendedToDefault(fs[i].value);
    }
  }

  /**
    A message deserialized into a freshly built message of the same type
    gives every field back, null fields as null with their default value,
    and consumes the whole buffer.
  */
  lemma MessageRoundTrip(id: Bytes, fs: seq<Field>)
    requires |id| == PROTO_ID_LEN && Sendable(fs)
    ensures AllDispatchable(fs) && AllDispatchable(FreshLike(fs))
    ensures DecodeMessage(id, FreshLike(fs), EncodeMessage(id, fs)) == Ok((RestoredAll(fs), []))
  {
    HeaderThen(id, EncodeFields(fs));
    FreshFieldsRoundTrip(fs);
  }

  /** The fields part of MessageRoundTrip. */
  lemma FreshFieldsRoundTrip(fs: seq<Field>)
    requires Sendable(fs)
    ensures AllDispatchable(fs) && AllDispatchable(FreshLike(fs))
    ensures DecodeFields(FreshLike(fs), EncodeFields(fs)) == Ok((RestoredAll(fs), []))
  {
    var body := EncodeFields(fs);
    assert body + [] == body;
    FieldsRoundTrip(FreshLike(fs), fs, []);
    FreshReceivesRestored(fs);
  }

  /** With no null field, restoring changes nothing. */
  lemma RestoredNoNull(fs: seq<Field>)
    requires forall i :: 0 <= i < |fs| ==> !fs[i].IsNull()
    ensures RestoredAll(fs) == fs
  {
  }

  /**
    Encoding what a fresh message decoded gives the same bytes again: null
    fields are written as the bare tag whatever value they hold.
  */
  lemma {:induction false} ReencodeIdentical(fs: seq<Field>)
    requires Sendable(fs)
    ensures AllDispatchable(fs) && AllDispatchable(RestoredAll(fs))
    ensures EncodeFields(RestoredAll(fs)) == EncodeFields(fs)
  {
    if fs != [] {
      ReencodeIdentical(fs[1..]);
      assert RestoredAll(fs)[1..] == RestoredAll(fs[1..]);
    }
  }

  // ---------------------------------------------------------------------
  // The header

  /** The first 16 bytes: "GLUE", version 1, the prototype id. */
  lemma HeaderLayout(id: Bytes, fs: seq<Field>)
    requires |id| == PROTO_ID_LEN && AllDispatchable(fs)
    ensures EncodeMessage(id, fs)[..4] == [0x47, 0x4c, 0x55, 0x45]
    ensures EncodeMessage(id, fs)[4..8] == [1, 0, 0, 0]
    ensures EncodeMessage(id, fs)[8..16] == id
  {
    var m := EncodeMessage(id, fs);
    var h := Header(id);
    Parts(h, EncodeFields(fs));
    Parts3(U32Bytes(MAGIC), U32Bytes(VERSION), id);
    MagicVersionBytes();
    assert m[..4] == h[..4];
    assert m[4..8] == h[4..8];
    assert m[8..16] == h[8..16];
  }

  lemma MagicVersionBytes()
    ensures U32Bytes(MAGIC) == [0x47, 0x4c, 0x55, 0x45]
    ensures U32Bytes(VERSION) == [1, 0, 0, 0]
  {
  }

  lemma Parts(a: Bytes, b: Bytes)
    ensures (a + b)[..|a|] == a && (a + b)[|a|..] == b
  {
  }

  lemma PrefixOfJoin(a: Bytes, b: Bytes, n: nat)
    requires |a| <= n <= |a| + |b|
    ensures (a + b)[..n] == a + b[..n - |a|]
  {
  }

  lemma Rejoin(b: Bytes, k: nat)
    requires k <= |b|
    ensures b[..k] + b[k..] == b
  {
  }

  lemma Parts3(a: Bytes, b: Bytes, c: Bytes)
    ensures (a + b + c)[..|a|] == a
    ensures (a + b + c)[|a|..|a| + |b|] == b
    ensures (a + b + c)[|a| + |b|..] == c
  {
  }

  /** A well-formed header is accepted and what follows it is handed on untouched. */
  lemma HeaderThen(id: Bytes, rest: Bytes)
    requires |id| == PROTO_ID_LEN
    ensures DecodeHeader(id, Header(id) + rest) == Ok(rest)
  {
    var m := U32Bytes(MAGIC);
    var v := U32Bytes(VERSION);
    var tail := id + rest;
    SeqAssoc(m + v, id, rest);
    SeqAssoc(m, v, tail);
    TakeU32Of(MAGIC, v + tail);
    TakeU32Of(VERSION, tail);
    Parts(id, rest);
  }

  /** The header check passes exactly when the buffer starts with this message type's header. */
  lemma HeaderAccepted(id: Bytes, s: Bytes)
    ensures DecodeHeader(id, s).Ok? <==> |id| == PROTO_ID_LEN && |s| >= 16 && s[..16] == Header(id)
    ensures DecodeHeader(id, s).Ok? ==> DecodeHeader(id, s).value == s[16..]
  {
    if |s| >= 16 && |id| == PROTO_ID_LEN && s[..16] == Header(id) {
      assert s == Header(id) + s[16..];
      HeaderThen(id, s[16..]);
    }
    if DecodeHeader(id, s).Ok? {
      var (m, s1) := TakeU32(s).value;
      var (v, s2) := TakeU32(s1).value;
      assert s == U32Bytes(MAGIC) + U32Bytes(VERSION) + s2;
    }
  }

  /** A wrong magic number is reported before anything else is read. */
  lemma BadMagicRejected(id: Bytes, rs: seq<Field>, s: Bytes)
    requires AllDispatchable(rs)
    requires |s| >= 4 && s[..4] != U32Bytes(MAGIC)
    ensures DecodeMessage(id, rs, s) == Err(BadMagic(U32Of(s[..4])))
  {
    U32BytesOf(s[..4]);
  }

  /** With the right magic, a wrong version is reported next. */
  lemma WrongVersionRejected(id: Bytes, rs: seq<Field>, s: Bytes)
    requires AllDispatchable(rs)
    requires |s| >= 8 && s[..4] == U32Bytes(MAGIC) && s[4..8] != U32Bytes(VERSION)
    ensures DecodeMessage(id, rs, s) == Err(VersionMismatch(U32Of(s[4..8])))
  {
    assert s == U32Bytes(MAGIC) + s[4..];
    TakeU32Of(MAGIC, s[4..]);
    U32BytesOf(s[4..8]);
    assert s[4..][..4] == s[4..8];
  }

  /** A message of another type is rejected with both prototype ids. */
  lemma OtherPrototypeRejected(id: Bytes, other: Bytes, fs: seq<Field>, rs: seq<Field>)
    requires |other| == PROTO_ID_LEN && other != id
    requires AllDispatchable(fs) && AllDispatchable(rs)
    ensures DecodeMessage(id, rs, EncodeMessage(other, fs)) == Err(PrototypeMismatch(other, id))
  {
    var body := EncodeFields(fs);
    assert EncodeMessage(other, fs) == U32Bytes(MAGIC) + (U32Bytes(VERSION) + (other + body));
    TakeU32Of(MAGIC, U32Bytes(VERSION) + (other + body));
    TakeU32Of(VERSION, other + body);
    assert (other + body)[..8] == other;
  }
}
