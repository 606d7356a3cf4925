/**
  The message handler (glue_handler): a prototype id and the message's
  fields in declaration order, written to an output buffer and read back
  from an input buffer. Each field kind's serialize and parse routine is a
  method here, proved against the pure encoding in GlueWire.
*/
module GlueHandler {
  import opened GlueWire
  import opened GlueLaws
  import opened GlueBuffers

  // ---------------------------------------------------------------------
  // Writing

  lemma {:induction false} WordsSnoc(ws: seq<U32>, w: U32)
    ensures Words(ws + [w]) == Words(ws) + U32Bytes(w)
  {
    if ws == [] {
      assert ws + [w] == [w];
      assert Words([w][1..]) == [];
    } else {
      assert (ws + [w])[1..] == ws[1..] + [w];
      WordsSnoc(ws[1..], w);
      SeqAssoc(U32Bytes(ws[0]), Words(ws[1..]), U32Bytes(w));
    }
  }

  lemma {:induction false} BlobsSnoc(bs: seq<Bytes>, b: Bytes)
    ensures Blobs(bs + [b]) == Blobs(bs) + Blob(b)
  {
    if bs == [] {
      assert bs + [b] == [b];
      assert Blobs([b][1..]) == [];
    } else {
      assert (bs + [b])[1..] == bs[1..] + [b];
      BlobsSnoc(bs[1..], b);
      SeqAssoc(Blob(bs[0]), Blobs(bs[1..]), Blob(b));
    }
  }

  lemma BlobsPrefixStep(bs: seq<Bytes>, i: nat)
    requires i < |bs|
    ensures Blobs(bs[..i + 1]) == Blobs(bs[..i]) + Blob(bs[i])
  {
    assert bs[..i + 1] == bs[..i] + [bs[i]];
    BlobsSnoc(bs[..i], bs[i]);
  }

  /** The element loop of the bool and float array serializers. */
  method SerializeWords(ws: seq<U32>, output: OutBuf)
    modifies output
    ensures output.data == old(output.data) + Words(ws)
  {
    var i := 0;
    while i < |ws|
      invariant i <= |ws|
      invariant output.data == old(output.data) + Words(ws[..i])
    {
      output.AppendU32(ws[i]);
      WordsSnoc(ws[..i], ws[i]);
      assert ws[..i + 1] == ws[..i] + [ws[i]];
      i := i + 1;
    }
    assert ws[..i] == ws;
  }

  /** The element loop of the int array serializer. */
  method SerializeInts(xs: seq<I32>, output: OutBuf)
    modifies output
    ensures output.data == old(output.data) + Words(IntsToWords(xs))
  {
    var i := 0;
    while i < |xs|
      invariant i <= |xs|
      invariant output.data == old(output.data) + Words(IntsToWords(xs[..i]))
    {
      output.AppendI32(xs[i]);
      WordsSnoc(IntsToWords(xs[..i]), I32Bits(xs[i]));
      assert IntsToWords(xs[..i + 1]) == IntsToWords(xs[..i]) + [I32Bits(xs[i])];
      i := i + 1;
    }
    assert xs[..i] == xs;
  }

  /** The element loop of the string and raw array serializers: each element's size, then its bytes. */
  method SerializeBlobs(bs: seq<Bytes>, output: OutBuf)
    modifies output
    ensures output.data == old(output.data) + Blobs(bs)
  {
    var i := 0;
    while i < |bs|
      invariant i <= |bs|
      invariant output.data == old(output.data) + Blobs(bs[..i])
    {
      output.AppendU32(Len32(|bs[i]|));
      output.Append(bs[i]);
      BlobsPrefixStep(bs, i);
      SeqAssoc(old(output.data), Blobs(bs[..i]), Blob(bs[i]));
      i := i + 1;
    }
    assert bs[..i] == bs;
  }

  /** The payload writer of the kind of `v`: scalars, a string's size then bytes, an array's count then elements. */
  method SerializePayload(v: Value, output: OutBuf)
    modifies output
    ensures output.data == old(output.data) + Payload(v)
  {
    ghost var before := output.data;
    match v {
      case BoolVal(b) =>
        output.AppendU32(if b then 1 else 0);
      case IntVal(i) =>
        output.AppendI32(i);
      case FloatVal(x) =>
        output.AppendF32(x);
      case StrVal(s) =>
        output.AppendU32(Len32(|s|));
        output.Append(s);
        SeqAssoc(before, U32Bytes(Len32(|s|)), s);
      case RawVal(b) =>
        output.AppendU32(Len32(|b|));
        output.Append(b);
        SeqAssoc(before, U32Bytes(Len32(|b|)), b);
      case ArrBoolVal(ws) =>
        output.AppendU32(Len32(|ws|));
        SerializeWords(ws, output);
        SeqAssoc(before, U32Bytes(Len32(|ws|)), Words(ws));
      case ArrIntVal(xs) =>
        output.AppendU32(Len32(|xs|));
        SerializeInts(xs, output);
        SeqAssoc(before, U32Bytes(Len32(|xs|)), Words(IntsToWords(xs)));
      case ArrFloatVal(ws) =>
        output.AppendU32(Len32(|ws|));
        SerializeWords(ws, output);
        SeqAssoc(before, U32Bytes(Len32(|ws|)), Words(ws));
      case ArrStrVal(bs) =>
        output.AppendU32(Len32(|bs|));
        SerializeBlobs(bs, output);
        SeqAssoc(before, U32Bytes(Len32(|bs|)), Blobs(bs));
      case ArrRawVal(bs) =>
        output.AppendU32(Len32(|bs|));
        SerializeBlobs(bs, output);
        SeqAssoc(before, U32Bytes(Len32(|bs|)), Blobs(bs));
    }
  }

  /**
    One field, as the serialize switch writes it: a null field is the bare
    NULL tag, any other its tag then its payload; a tag past the last kind
    matches no case and writes nothing.
  */
  method SerializeField(f: Field, output: OutBuf)
    requires Dispatchable(f)
    modifies output
    ensures output.data == old(output.data) + EncodeField(f)
  {
    if f.dtype == NULL_TAG {
      output.AppendU32(NULL_TAG);
      return;
    }
    if f.dtype > LAST_TAG {
      assert EncodeField(f) == [];
      return;
    }
    ghost var before := output.data;
    output.AppendU32(f.dtype);
    SerializePayload(f.value, output);
    SeqAssoc(before, U32Bytes(f.dtype), Payload(f.value));
  }

  lemma {:induction false} EncodeFieldsSnoc(fs: seq<Field>, f: Field)
    requires AllDispatchable(fs) && Dispatchable(f)
    ensures AllDispatchable(fs + [f])
    ensures EncodeFields(fs + [f]) == EncodeFields(fs) + EncodeField(f)
  {
    if fs == [] {
      assert fs + [f] == [f];
      assert EncodeFields([f]) == EncodeField(f) + EncodeFields([]);
    } else {
      var t := fs + [f];
      assert t[1..] == fs[1..] + [f];
      EncodeFieldsSnoc(fs[1..], f);
      SeqAssoc(EncodeField(fs[0]), EncodeFields(fs[1..]), EncodeField(f));
    }
  }

  /** The header and the first `i` fields, then field `i`, are the header and the first `i + 1` fields. */
  lemma SerializeStep(id: Bytes, fs: seq<Field>, i: nat)
    requires AllDispatchable(fs) && i < |fs|
    ensures Header(id) + EncodeFields(fs[..i]) + EncodeField(fs[i]) == Header(id) + EncodeFields(fs[..i + 1])
  {
    var p, f := fs[..i], fs[i];
    assert fs[..i + 1] == p + [f];
    EncodeFieldsSnoc(p, f);
    SeqAssoc(Header(id), EncodeFields(p), EncodeField(f));
  }

  // ---------------------------------------------------------------------
  // Reading

  /** `xs` put in front of the elements a successful read returns. */
  function Prefixed<T>(xs: seq<T>, r: Result<(seq<T>, Bytes)>): Result<(seq<T>, Bytes)>
  {
    match r
    case Ok((ys, rest)) => Ok((xs + ys, rest))
    case Err(e) => Err(e)
  }

  lemma PrefixedNested<T>(xs: seq<T>, ys: seq<T>, r: Result<(seq<T>, Bytes)>)
    ensures Prefixed(xs, Prefixed(ys, r)) == Prefixed(xs + ys, r)
  {
    if r.Ok? {
      assert xs + (ys + r.value.0) == xs + ys + r.value.0;
    }
  }

  lemma PrefixedNothing<T>(r: Result<(seq<T>, Bytes)>)
    ensures Prefixed([], r) == r
  {
    if r.Ok? {
      assert [] + r.value.0 == r.value.0;
    }
  }

  /** Reading one more word after `i` words extends what `i` words gave. */
  lemma {:induction false} TakeWordsSnoc(s: Bytes, i: nat, ws: seq<U32>, rem: Bytes, w: U32, rem1: Bytes)
    requires TakeWords(s, i) == Ok((ws, rem)) && TakeU32(rem) == Ok((w, rem1))
    ensures TakeWords(s, i + 1) == Ok((ws + [w], rem1))
  {
    if i == 0 {
      TakeWordsCons(s, 1, w, rem1, [], rem1);
      assert ws + [w] == [w] + [];
    } else {
      var w0, s1 := TakeWordsUncons(s, i, ws, rem);
      TakeWordsSnoc(s1, i - 1, ws[1..], rem, w, rem1);
      TakeWordsCons(s, i + 1, w0, s1, ws[1..] + [w], rem1);
      assert [w0] + (ws[1..] + [w]) == ws + [w];
    }
  }

  /** A word that cannot be read after `i < n` words makes the read of `n` words fail. */
  lemma {:induction false} TakeWordsStops(s: Bytes, i: nat, n: nat, ws: seq<U32>, rem: Bytes)
    requires i < n && TakeWords(s, i) == Ok((ws, rem)) && TakeU32(rem).Err?
    ensures TakeWords(s, n) == Err(Truncated)
  {
    if i > 0 {
      var w0, s1 := TakeWordsUncons(s, i, ws, rem);
      TakeWordsStops(s1, i - 1, n - 1, ws[1..], rem);
    }
  }

  /** Reading one more element after `i` elements extends what `i` elements gave. */
  lemma {:induction false} TakeBlobsSnoc(s: Bytes, i: nat, bs: seq<Bytes>, rem: Bytes, b: Bytes, rem1: Bytes)
    requires TakeBlobs(s, i) == Ok((bs, rem)) && TakeBlob(rem) == Ok((b, rem1))
    ensures TakeBlobs(s, i + 1) == Ok((bs + [b], rem1))
  {
    if i == 0 {
      TakeBlobsCons(s, 1, b, rem1, [], rem1);
      assert bs + [b] == [b] + [];
    } else {
      var b0, s1 := TakeBlobsUncons(s, i, bs, rem);
      TakeBlobsSnoc(s1, i - 1, bs[1..], rem, b, rem1);
      TakeBlobsCons(s, i + 1, b0, s1, bs[1..] + [b], rem1);
      assert [b0] + (bs[1..] + [b]) == bs + [b];
    }
  }

  /** An element that cannot be read after `i < n` elements makes the read of `n` elements fail. */
  lemma {:induction false} TakeBlobsStops(s: Bytes, i: nat, n: nat, bs: seq<Bytes>, rem: Bytes)
    requires i < n && TakeBlobs(s, i) == Ok((bs, rem)) && TakeBlob(rem).Err?
    ensures TakeBlobs(s, n) == Err(Truncated)
  {
    if i > 0 {
      var b0, s1 := TakeBlobsUncons(s, i, bs, rem);
      TakeBlobsStops(s1, i - 1, n - 1, bs[1..], rem);
    }
  }

  lemma DecodeFieldsStep(rs: seq<Field>, s: Bytes, g: Field, s1: Bytes)
    requires AllDispatchable(rs) && rs != [] && DecodeField(rs[0], s) == Ok((g, s1))
    ensures DecodeFields(rs, s) == Prefixed([g], DecodeFields(rs[1..], s1))
  {
  }

  /** The element loop of the bool, int and float array parsers. */
  method ParseWords(input: InBuf, n: U32) returns (r: Result<seq<U32>>)
    requires input.Valid()
    modifies input
    ensures input.Valid()
    ensures Follows(r, TakeWords(old(input.Remaining()), n), input.Remaining())
  {
    ghost var s0 := input.Remaining();
    var ws: seq<U32> := [];
    var i: nat := 0;
    while i < n
      invariant input.Valid() && i <= n
      invariant TakeWords(s0, i) == Ok((ws, input.Remaining()))
    {
      ghost var rem := input.Remaining();
      var w := input.ReadU32();
      if w.Err? {
        TakeWordsStops(s0, i, n, ws, rem);
        return Err(Truncated);
      }
      TakeWordsSnoc(s0, i, ws, rem, w.value, input.Remaining());
      ws := ws + [w.value];
      i := i + 1;
    }
    r := Ok(ws);
  }

  /** The element loop of the string and raw array parsers. */
  method ParseBlobs(input: InBuf, n: U32) returns (r: Result<seq<Bytes>>)
    requires input.Valid()
    modifies input
    ensures input.Valid()
    ensures Follows(r, TakeBlobs(old(input.Remaining()), n), input.Remaining())
  {
    ghost var s0 := input.Remaining();
    var bs: seq<Bytes> := [];
    var i: nat := 0;
    while i < n
      invariant input.Valid() && i <= n
      invariant TakeBlobs(s0, i) == Ok((bs, input.Remaining()))
    {
      ghost var rem := input.Remaining();
      var b := input.ReadBlob();
      if b.Err? {
        TakeBlobsStops(s0, i, n, bs, rem);
        return Err(Truncated);
      }
      TakeBlobsSnoc(s0, i, bs, rem, b.value, input.Remaining());
      bs := bs + [b.value];
      i := i + 1;
    }
    r := Ok(bs);
  }

  /** An array field's element count, then its elements (bool, int and float arrays). */
  method ParseCountedWords(input: InBuf) returns (r: Result<seq<U32>>)
    requires input.Valid()
    modifies input
    ensures input.Valid()
    ensures Follows(r, TakeCountedWords(old(input.Remaining())), input.Remaining())
  {
    var size := input.ReadU32();
    if size.Err? {
      return Err(size.error);
    }
    r := ParseWords(input, size.value);
  }

  /** An array field's element count, then its elements (string and raw arrays). */
  method ParseCountedBlobs(input: InBuf) returns (r: Result<seq<Bytes>>)
    requires input.Valid()
    modifies input
    ensures input.Valid()
    ensures Follows(r, TakeCountedBlobs(old(input.Remaining())), input.Remaining())
  {
    var size := input.ReadU32();
    if size.Err? {
      return Err(size.error);
    }
    r := ParseBlobs(input, size.value);
  }

  /** The payload parser of the kind of `v`; arrays append what they read to `v`'s elements. */
  method ParsePayload(v: Value, input: InBuf) returns (r: Result<Value>)
    requires input.Valid()
    modifies input
    ensures input.Valid()
    ensures Follows(r, DecodePayload(v, old(input.Remaining())), input.Remaining())
  {
    match v {
      case BoolVal(_) =>
        var w := input.ReadU32();
        if w.Err? { return Err(w.error); }
        r := Ok(BoolVal(w.value != 0));
      case IntVal(_) =>
        var i := input.ReadI32();
        if i.Err? { return Err(i.error); }
        r := Ok(IntVal(i.value));
      case FloatVal(_) =>
        var x := input.ReadF32();
        if x.Err? { return Err(x.error); }
        r := Ok(FloatVal(x.value));
      case StrVal(_) =>
        var s := input.ReadBlob();
        if s.Err? { return Err(s.error); }
        r := Ok(StrVal(s.value));
      case RawVal(_) =>
        var b := input.ReadBlob();
        if b.Err? { return Err(b.error); }
        r := Ok(RawVal(b.value));
      case ArrBoolVal(old_) =>
        var ws := ParseCountedWords(input);
        if ws.Err? { return Err(ws.error); }
        r := Ok(ArrBoolVal(old_ + ws.value));
      case ArrIntVal(old_) =>
        var ws := ParseCountedWords(input);
        if ws.Err? { return Err(ws.error); }
        r := Ok(ArrIntVal(old_ + WordsToInts(ws.value)));
      case ArrFloatVal(old_) =>
        var ws := ParseCountedWords(input);
        if ws.Err? { return Err(ws.error); }
        r := Ok(ArrFloatVal(old_ + ws.value));
      case ArrStrVal(old_) =>
        var bs := ParseCountedBlobs(input);
        if bs.Err? { return Err(bs.error); }
        r := Ok(ArrStrVal(old_ + bs.value));
      case ArrRawVal(old_) =>
        var bs := ParseCountedBlobs(input);
        if bs.Err? { return Err(bs.error); }
        r := Ok(ArrRawVal(old_ + bs.value));
    }
  }

  /**
    One field, as the deserialize switch reads it into `f` (with the
    intended `break` after the raw case). Which parser runs is chosen by the
    tag `f` carries before the read.
  */
  method ParseField(f: Field, input: InBuf) returns (r: Result<Field>)
    requires Dispatchable(f) && input.Valid()
    modifies input
    ensures input.Valid()
    ensures Follows(r, DecodeField(f, old(input.Remaining())), input.Remaining())
  {
    if f.dtype > LAST_TAG {
      return Ok(f);
    }
    // parse_type
    var t := input.ReadU32();
    if t.Err? {
      return Err(t.error);
    }
    if f.dtype == NULL_TAG || t.value == NULL_TAG {
      return Ok(f.(dtype := t.value));
    }
    var v := ParsePayload(f.value, input);
    if v.Err? {
      return Err(v.error);
    }
    r := Ok(f.(dtype := t.value, value := v.value));
  }

  // ---------------------------------------------------------------------
  // The handler

  class Handler {
    /** The 8-byte prototype id. */
    const name: Bytes
    /** The message's fields, in the order their declarations registered them. */
    var fields: seq<Field>

    constructor(name: Bytes)
      requires |name| == PROTO_ID_LEN
      ensures this.name == name && fields == []
    {
      this.name := name;
      fields := [];
    }

    /** A field declaration: the field is built with its kind's tag and registers itself last. */
    method RegisterField(fieldName: string, k: Kind)
      modifies this
      ensures fields == old(fields) + [Fresh(fieldName, k)]
    {
      fields := fields + [Fresh(fieldName, k)];
    }

    /** set_null: only the tag changes; the stored value stays. */
    method SetNull(i: nat)
      requires i < |fields|
      modifies this
      ensures fields == old(fields)[i := old(fields)[i].(dtype := NULL_TAG)]
    {
      fields := fields[i := fields[i].(dtype := NULL_TAG)];
    }

    /** Assigning a field's value leaves its tag alone, so a null field stays null. */
    method SetValue(i: nat, v: Value)
      requires i < |fields| && v.Kind() == fields[i].value.Kind()
      modifies this
      ensures fields == old(fields)[i := old(fields)[i].(value := v)]
    {
      fields := fields[i := fields[i].(value := v)];
    }

    /** The output is cleared, then the header, then every field in order. */
    method Serialize(output: OutBuf)
      requires AllDispatchable(fields)
      modifies output
      ensures output.data == EncodeMessage(name, fields)
    {
      output.Clear();
      output.AppendU32(MAGIC);
      output.AppendU32(VERSION);
      output.Append(name);
      var fs := fields;
      var i := 0;
      while i < |fs|
        invariant i <= |fs|
        invariant output.data == Header(name) + EncodeFields(fs[..i])
      {
        SerializeField(fs[i], output);
        SerializeStep(name, fs, i);
        i := i + 1;
      }
      assert fs[..i] == fs;
    }

    /**
      Check magic, version and prototype id in that order, then read every
      field in order. The fields change only when the whole message reads.
    */
    method Deserialize(input: InBuf) returns (res: Result<()>)
      requires input.Valid() && AllDispatchable(fields)
      modifies this, input
      ensures input.Valid()
      ensures match DecodeMessage(name, old(fields), old(input.Remaining()))
        case Ok((fs, rest)) => res == Ok(()) && fields == fs && input.Remaining() == rest
        case Err(e) => res == Err(e) && fields == old(fields)
    {
      ghost var s0 := input.Remaining();
      var magic := input.ReadU32();
      if magic.Err? {
        return Err(magic.error);
      }
      if magic.value != MAGIC {
        return Err(BadMagic(magic.value));
      }
      var version := input.ReadU32();
      if version.Err? {
        return Err(version.error);
      }
      if version.value != VERSION {
        return Err(VersionMismatch(version.value));
      }
      var protoId := input.ReadBytes(PROTO_ID_LEN);
      if protoId.Err? {
        return Err(protoId.error);
      }
      if protoId.value != name {
        return Err(PrototypeMismatch(protoId.value, name));
      }
      assert DecodeHeader(name, s0) == Ok(input.Remaining());
      ghost var body := input.Remaining();
      var decoded: seq<Field> := [];
      var i := 0;
      PrefixedNothing(DecodeFields(fields, body));
      while i < |fields|
        invariant input.Valid() && i <= |fields| && fields == old(fields)
        invariant DecodeFields(fields, body) == Prefixed(decoded, DecodeFields(fields[i..], input.Remaining()))
      {
        ghost var rem := input.Remaining();
        var g := ParseField(fields[i], input);
        if g.Err? {
          return Err(g.error);
        }
        assert fields[i..][1..] == fields[i + 1..];
        DecodeFieldsStep(fields[i..], rem, g.value, input.Remaining());
        PrefixedNested(decoded, [g.value], DecodeFields(fields[i + 1..], input.Remaining()));
        decoded := decoded + [g.value];
        i := i + 1;
      }
      assert decoded + [] == decoded;
      fields := decoded;
      res := Ok(());
    }
  }
}
