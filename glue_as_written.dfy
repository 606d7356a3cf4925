/**
  The handler's deserialize switch as it is written: the raw case has no
  `break`, so after a raw field is parsed control falls into the
  array-of-bool case, which parses the same field again as an array of
  uint32_t words. That second parse reads one more tag into the field. A
  NULL tag there turns the raw field null; any other tag makes it read a
  word count and append words to the raw field's byte vector viewed as a
  vector of uint32_t, which is undefined behaviour.

  Everything else in the switch is as in GlueWire.DecodeField, which is the
  corrected reader the rest of the model uses.
*/
module GlueAsWritten {
  import opened GlueWire
  import opened GlueLaws

  /** A read that the source defines, or one whose behaviour is undefined. */
  datatype Step<T> = Defined(res: Result<T>) | Undefined

  /** One field, read by the switch as written. */
  function DecodeFieldAsWritten(r: Field, s: Bytes): (o: Step<(Field, Bytes)>)
    requires Dispatchable(r)
  {
    if r.dtype != Code(Raw) then Defined(DecodeField(r, s))
    else
      match DecodeField(r, s)
      case Err(e) => Defined(Err(e))
      case Ok((g, s1)) =>
        match TakeU32(s1)
        case Err(e) => Defined(Err(e))
        case Ok((t, s2)) =>
          if t == NULL_TAG then Defined(Ok((g.(dtype := t), s2))) else Undefined
  }

  function DecodeFieldsAsWritten(rs: seq<Field>, s: Bytes): (o: Step<(seq<Field>, Bytes)>)
    requires AllDispatchable(rs)
  {
    if rs == [] then Defined(Ok(([], s)))
    else
      match DecodeFieldAsWritten(rs[0], s)
      case Undefined => Undefined
      case Defined(Err(e)) => Defined(Err(e))
      case Defined(Ok((f, s1))) =>
        match DecodeFieldsAsWritten(rs[1..], s1)
        case Undefined => Undefined
        case Defined(Err(e)) => Defined(Err(e))
        case Defined(Ok((fs, s2))) => Defined(Ok(([f] + fs, s2)))
  }

  predicate NoRaw(rs: seq<Field>)
  {
    forall i :: 0 <= i < |rs| ==> rs[i].dtype != Code(Raw)
  }

  /** Where no receiving field dispatches as raw, the switch as written is the corrected reader. */
  lemma {:induction false} AgreesWithoutRaw(rs: seq<Field>, s: Bytes)
    requires AllDispatchable(rs) && NoRaw(rs)
    ensures DecodeFieldsAsWritten(rs, s) == Defined(DecodeFields(rs, s))
  {
    if rs != [] {
      match DecodeField(rs[0], s)
      case Err(_) =>
      case Ok((f, s1)) =>
        AgreesWithoutRaw(rs[1..], s1);
    }
  }

  /**
    After a raw field's own encoding, the switch as written reads one more
    tag into the same field: it needs four more bytes, a NULL tag there
    makes the field null, and any other tag is undefined behaviour.
  */
  lemma RawReadsAnotherTag(r: Field, f: Field, rest: Bytes)
    requires Receives(r, f) && Settled(f) && Fits32(f.value) && f.value.RawVal? && !f.IsNull()
    ensures |rest| < 4 ==> DecodeFieldAsWritten(r, EncodeField(f) + rest) == Defined(Err(Truncated))
    ensures |rest| >= 4 && U32Of(rest[..4]) == NULL_TAG
            ==> DecodeFieldAsWritten(r, EncodeField(f) + rest) == Defined(Ok((Field(r.name, NULL_TAG, f.value), rest[4..])))
    ensures |rest| >= 4 && U32Of(rest[..4]) != NULL_TAG ==> DecodeFieldAsWritten(r, EncodeField(f) + rest) == Undefined
  {
    FieldRoundTrip(r, f, rest);
  }

  /** The first four bytes of a non-null field's encoding are its tag. */
  lemma LeadsWithTag(g: Field, rest: Bytes)
    requires Settled(g) && !g.IsNull()
    ensures |EncodeField(g) + rest| >= 4 && U32Of((EncodeField(g) + rest)[..4]) == g.dtype
  {
    SeqAssoc(U32Bytes(g.dtype), Payload(g.value), rest);
    Parts(U32Bytes(g.dtype), Payload(g.value) + rest);
    U32RoundTrip(g.dtype);
  }

  lemma EncodeFieldsCons(fs: seq<Field>, rest: Bytes)
    requires AllDispatchable(fs) && fs != []
    ensures EncodeFields(fs) + rest == EncodeField(fs[0]) + (EncodeFields(fs[1..]) + rest)
  {
    SeqAssoc(EncodeField(fs[0]), EncodeFields(fs[1..]), rest);
  }

  /** A field the switch as written reads to completion leaves the outcome to the fields after it. */
  lemma AsWrittenThen(rs: seq<Field>, s: Bytes, f: Field, s1: Bytes)
    requires AllDispatchable(rs) && rs != [] && DecodeFieldAsWritten(rs[0], s) == Defined(Ok((f, s1)))
    ensures DecodeFieldsAsWritten(rs[1..], s1) == Undefined ==> DecodeFieldsAsWritten(rs, s) == Undefined
    ensures DecodeFieldsAsWritten(rs[1..], s1) == Defined(Err(Truncated))
            ==> DecodeFieldsAsWritten(rs, s) == Defined(Err(Truncated))
  {
  }

  /** A field that does not dispatch as raw is read by the switch as written as by the corrected one. */
  lemma PassesThrough(rs: seq<Field>, fs: seq<Field>, rest: Bytes)
    requires AllReceive(rs, fs) && Sendable(fs) && fs != [] && rs[0].dtype != Code(Raw)
    ensures AllDispatchable(rs) && AllDispatchable(fs)
    ensures DecodeFieldAsWritten(rs[0], EncodeField(fs[0]) + (EncodeFields(fs[1..]) + rest))
            == Defined(Ok((Received(rs[0], fs[0]), EncodeFields(fs[1..]) + rest)))
  {
    FieldRoundTrip(rs[0], fs[0], EncodeFields(fs[1..]) + rest);
  }

  lemma Tails(rs: seq<Field>, fs: seq<Field>)
    requires AllReceive(rs, fs) && Sendable(fs) && fs != []
    ensures AllReceive(rs[1..], fs[1..]) && Sendable(fs[1..])
  {
  }

  lemma NoRawTail(rs: seq<Field>, k: nat)
    requires 0 < k <= |rs| && NoRaw(rs[..k])
    ensures rs[0].dtype != Code(Raw) && NoRaw(rs[1..][..k - 1])
  {
    assert rs[0] == rs[..k][0];
    var t := rs[1..][..k - 1];
    forall i | 0 <= i < |t|
      ensures t[i].dtype != Code(Raw)
    {
      assert t[i] == rs[..k][i + 1];
    }
  }

  /** A message that is a single raw field holding a value. */
  lemma RawOnlyReadsPastEnd(rs: seq<Field>, fs: seq<Field>)
    requires AllReceive(rs, fs) && Sendable(fs) && |fs| == 1 && fs[0].value.RawVal? && !fs[0].IsNull()
    ensures AllDispatchable(rs) && AllDispatchable(fs)
    ensures DecodeFieldsAsWritten(rs, EncodeFields(fs)) == Defined(Err(Truncated))
  {
    assert EncodeFields(fs) == EncodeField(fs[0]) + [] by {
      assert EncodeFields(fs[1..]) == [];
    }
    RawReadsAnotherTag(rs[0], fs[0], []);
  }

  /**
    A message whose last field is a raw field holding a value, with no raw
    field before it, decoded into receiving fields of the same kinds: the
    switch as written reads a tag past the end of the message. This is the
    detokenize response (a bool `success`, then the raw `buffer`). The
    corrected reader gives the fields back (GlueLaws.FieldsRoundTrip).
  */
  lemma {:induction false} RawLastReadsPastEnd(rs: seq<Field>, fs: seq<Field>)
    requires AllReceive(rs, fs) && Sendable(fs) && |fs| > 0
    requires NoRaw(rs[..|rs| - 1]) && fs[|fs| - 1].value.RawVal? && !fs[|fs| - 1].IsNull()
    ensures AllDispatchable(rs) && AllDispatchable(fs)
    ensures DecodeFieldsAsWritten(rs, EncodeFields(fs)) == Defined(Err(Truncated))
  {
    if |fs| == 1 {
      RawOnlyReadsPastEnd(rs, fs);
    } else {
      var body := EncodeFields(fs);
      var tail := EncodeFields(fs[1..]);
      EncodeFieldsCons(fs, []);
      assert body + [] == body && tail + [] == tail;
      NoRawTail(rs, |rs| - 1);
      Tails(rs, fs);
      PassesThrough(rs, fs, []);
      var rs1, fs1 := rs[1..], fs[1..];
      assert |rs1| - 1 == |rs| - 2 && fs1[|fs1| - 1] == fs[|fs| - 1];
      RawLastReadsPastEnd(rs1, fs1);
      AsWrittenThen(rs, body, Received(rs[0], fs[0]), tail);
    }
  }

  /** The raw field first, a field holding a value right after it. */
  lemma RawFirstUndefined(rs: seq<Field>, fs: seq<Field>, rest: Bytes)
    requires AllReceive(rs, fs) && Sendable(fs) && 1 < |fs|
    requires fs[0].value.RawVal? && !fs[0].IsNull() && !fs[1].IsNull()
    ensures AllDispatchable(rs) && AllDispatchable(fs)
    ensures DecodeFieldsAsWritten(rs, EncodeFields(fs) + rest) == Undefined
  {
    var tail := EncodeFields(fs[1..]) + rest;
    EncodeFieldsCons(fs, rest);
    Tails(rs, fs);
    EncodeFieldsCons(fs[1..], rest);
    assert fs[1..][1..] == fs[2..];
    LeadsWithTag(fs[1], EncodeFields(fs[2..]) + rest);
    RawReadsAnotherTag(rs[0], fs[0], tail);
  }

  /**
    A message with a raw field holding a value at position `k`, no raw field
    before it, and a field holding a value right after it: the switch as
    written takes the next field's tag as a second tag of the raw field and
    goes on into undefined behaviour. This is the sampled-token response
    (`success`, the raw `piece`, then the int `token`).
  */
  lemma {:induction false} RawThenValueUndefined(rs: seq<Field>, fs: seq<Field>, k: nat, rest: Bytes)
    requires AllReceive(rs, fs) && Sendable(fs) && k + 1 < |fs|
    requires NoRaw(rs[..k]) && fs[k].value.RawVal? && !fs[k].IsNull() && !fs[k + 1].IsNull()
    ensures AllDispatchable(rs) && AllDispatchable(fs)
    ensures DecodeFieldsAsWritten(rs, EncodeFields(fs) + rest) == Undefined
  {
    if k == 0 {
      RawFirstUndefined(rs, fs, rest);
    } else {
      var rs1, fs1 := rs[1..], fs[1..];
      var s, tail := EncodeFields(fs) + rest, EncodeFields(fs1) + rest;
      EncodeFieldsCons(fs, rest);
      NoRawTail(rs, k);
      Tails(rs, fs);
      PassesThrough(rs, fs, rest);
      assert fs1[k - 1] == fs[k] && fs1[k] == fs[k + 1];
      RawThenValueUndefined(rs1, fs1, k - 1, rest);
      AsWrittenThen(rs, s, Received(rs[0], fs[0]), tail);
    }
  }
}
