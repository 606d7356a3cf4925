/**
  Reading a message that was cut short.

  The reader never looks past the bytes it consumes: whatever it reads from
  `t` it reads the same way from `t + e`, leaving `e` after what it left.
  Together with the round trip this shows that a serialized message cut
  short at any byte is rejected with Truncated.
*/
module GlueTruncation {
  import opened GlueWire
  import opened GlueLaws

  lemma TakeU32Extends(t: Bytes, e: Bytes, v: U32, r: Bytes)
    requires TakeU32(t) == Ok((v, r))
    ensures TakeU32(t + e) == Ok((v, r + e))
  {
    assert (t + e)[..4] == t[..4];
    assert (t + e)[4..] == t[4..] + e;
  }

  lemma TakeBytesExtends(t: Bytes, e: Bytes, n: nat, b: Bytes, r: Bytes)
    requires TakeBytes(t, n) == Ok((b, r))
    ensures TakeBytes(t + e, n) == Ok((b, r + e))
  {
    assert (t + e)[..n] == t[..n];
    assert (t + e)[n..] == t[n..] + e;
  }

  lemma TakeBlobExtends(t: Bytes, e: Bytes, b: Bytes, r: Bytes)
    requires TakeBlob(t) == Ok((b, r))
    ensures TakeBlob(t + e) == Ok((b, r + e))
  {
    var (n, t1) := TakeU32(t).value;
    TakeU32Extends(t, e, n, t1);
    TakeBytesExtends(t1, e, n, b, r);
  }

  lemma {:induction false} TakeWordsExtends(t: Bytes, e: Bytes, n: nat, ws: seq<U32>, r: Bytes)
    requires TakeWords(t, n) == Ok((ws, r))
    ensures TakeWords(t + e, n) == Ok((ws, r + e))
  {
    if n > 0 {
      var (w, t1) := TakeU32(t).value;
      var (ws1, r1) := TakeWords(t1, n - 1).value;
      assert TakeWords(t1, n - 1) == Ok((ws1, r1));
      TakeU32Extends(t, e, w, t1);
      TakeWordsExtends(t1, e, n - 1, ws1, r1);
    }
  }

  lemma {:induction false} TakeBlobsExtends(t: Bytes, e: Bytes, n: nat, bs: seq<Bytes>, r: Bytes)
    requires TakeBlobs(t, n) == Ok((bs, r))
    ensures TakeBlobs(t + e, n) == Ok((bs, r + e))
  {
    if n > 0 {
      var b, t1 := TakeBlobsUncons(t, n, bs, r);
      TakeBlobExtends(t, e, b, t1);
      TakeBlobsExtends(t1, e, n - 1, bs[1..], r);
      TakeBlobsCons(t + e, n, b, t1 + e, bs[1..], r + e);
      assert [b] + bs[1..] == bs;
    }
  }

  lemma TakeCountedWordsExtends(t: Bytes, e: Bytes, ws: seq<U32>, r: Bytes)
    requires TakeCountedWords(t) == Ok((ws, r))
    ensures TakeCountedWords(t + e) == Ok((ws, r + e))
  {
    var (n, t1) := TakeU32(t).value;
    TakeU32Extends(t, e, n, t1);
    TakeWordsExtends(t1, e, n, ws, r);
  }

  lemma TakeCountedBlobsExtends(t: Bytes, e: Bytes, bs: seq<Bytes>, r: Bytes)
    requires TakeCountedBlobs(t) == Ok((bs, r))
    ensures TakeCountedBlobs(t + e) == Ok((bs, r + e))
  {
    var (n, t1) := TakeU32(t).value;
    TakeU32Extends(t, e, n, t1);
    TakeBlobsExtends(t1, e, n, bs, r);
  }

  lemma PayloadExtends(v: Value, t: Bytes, e: Bytes, w: Value, r: Bytes)
    requires DecodePayload(v, t) == Ok((w, r))
    ensures DecodePayload(v, t + e) == Ok((w, r + e))
  {
    match v
    case BoolVal(_) => TakeU32Extends(t, e, TakeU32(t).value.0, r);
    case IntVal(_) => TakeU32Extends(t, e, TakeU32(t).value.0, r);
    case FloatVal(_) => TakeU32Extends(t, e, TakeU32(t).value.0, r);
    case StrVal(_) => TakeBlobExtends(t, e, TakeBlob(t).value.0, r);
    case RawVal(_) => TakeBlobExtends(t, e, TakeBlob(t).value.0, r);
    case ArrBoolVal(_) => TakeCountedWordsExtends(t, e, TakeCountedWords(t).value.0, r);
    case ArrIntVal(_) => TakeCountedWordsExtends(t, e, TakeCountedWords(t).value.0, r);
    case ArrFloatVal(_) => TakeCountedWordsExtends(t, e, TakeCountedWords(t).value.0, r);
    case ArrStrVal(_) => TakeCountedBlobsExtends(t, e, TakeCountedBlobs(t).value.0, r);
    case ArrRawVal(_) => TakeCountedBlobsExtends(t, e, TakeCountedBlobs(t).value.0, r);
  }

  lemma FieldExtends(f: Field, t: Bytes, e: Bytes, g: Field, r: Bytes)
    requires Dispatchable(f) && DecodeField(f, t) == Ok((g, r))
    ensures DecodeField(f, t + e) == Ok((g, r + e))
  {
    if f.dtype <= LAST_TAG {
      var (tag, t1) := TakeU32(t).value;
      TakeU32Extends(t, e, tag, t1);
      if f.dtype != NULL_TAG && tag != NULL_TAG {
        var w := DecodePayload(f.value, t1).value.0;
        PayloadExtends(f.value, t1, e, w, r);
      }
    }
  }

  lemma {:induction false} FieldsExtends(fs: seq<Field>, t: Bytes, e: Bytes, gs: seq<Field>, r: Bytes)
    requires AllDispatchable(fs) && DecodeFields(fs, t) == Ok((gs, r))
    ensures DecodeFields(fs, t + e) == Ok((gs, r + e))
  {
    if fs != [] {
      var (g, t1) := DecodeField(fs[0], t).value;
      var (gs1, r1) := DecodeFields(fs[1..], t1).value;
      assert DecodeFields(fs[1..], t1) == Ok((gs1, r1));
      FieldExtends(fs[0], t, e, g, t1);
      FieldsExtends(fs[1..], t1, e, gs1, r1);
    }
  }

  /** A header cut short, before the prototype id is complete, is Truncated. */
  lemma HeaderCut(id: Bytes, s: Bytes, n: nat)
    requires DecodeHeader(id, s).Ok? && n < 16
    ensures DecodeHeader(id, s[..n]) == Err(Truncated)
  {
    HeaderAccepted(id, s);
    var t := s[..n];
    if n >= 4 {
      assert t[..4] == s[..4];
      assert TakeU32(t) == Ok((MAGIC, t[4..]));
      if n >= 8 {
        assert t[4..][..4] == s[4..][..4];
        assert TakeU32(t[4..]) == Ok((VERSION, t[8..]));
        assert TakeBytes(t[8..], PROTO_ID_LEN) == Err(Truncated);
      }
    }
  }

  /**
    A serialized message cut short at any byte is rejected with Truncated
    by a freshly built message of the same type.
  */
  lemma TruncatedMessageRejected(id: Bytes, fs: seq<Field>, n: nat)
    requires |id| == PROTO_ID_LEN && Sendable(fs)
    requires n < |EncodeMessage(id, fs)|
    ensures DecodeMessage(id, FreshLike(fs), EncodeMessage(id, fs)[..n]) == Err(Truncated)
  {
    var s := EncodeMessage(id, fs);
    var rs := FreshLike(fs);
    MessageRoundTrip(id, fs);
    if n < 16 {
      HeaderCut(id, s, n);
    } else {
      var body := EncodeFields(fs);
      var head := body[..n - 16];
      PrefixOfJoin(Header(id), body, n);
      HeaderThen(id, head);
      HeaderThen(id, body);
      var d := DecodeFields(rs, head);
      if d.Ok? {
        Rejoin(body, n - 16);
        FieldsExtends(rs, head, body[n - 16..], d.value.0, d.value.1);
      }
    }
  }
}
