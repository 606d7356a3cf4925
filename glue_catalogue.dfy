/**
  The catalogue of message types: for each, its 8-character prototype id
  and its fields in declaration order. A message type is a struct whose
  handler is named by the id and whose field members register themselves
  with that handler as they are constructed, in the order they are
  declared. A nullable declaration builds exactly the same field as a plain
  one; it only documents that the sender may set the field null.
*/
module GlueCatalogue {
  import opened GlueWire
  import opened GlueLaws
  import opened GlueBuffers
  import opened GlueHandler
  import opened GlueAsWritten

  datatype FieldDecl = FieldDecl(name: string, kind: Kind, nullable: bool)
  datatype Schema = Schema(id: string, fields: seq<FieldDecl>)

  function Decl(name: string, kind: Kind): FieldDecl { FieldDecl(name, kind, false) }
  function Nullable(name: string, kind: Kind): FieldDecl { FieldDecl(name, kind, true) }

  const ErrorEvt: Schema := Schema("erro_evt", [Decl("message", Str)])
  const LoadReq: Schema := Schema("load_req", [
    Decl("model_paths", ArrStr),
    Decl("n_ctx_auto", Bool),
    Decl("use_mmap", Bool),
    Decl("use_mlock", Bool),
    Decl("n_gpu_layers", Int),
    Decl("seed", Int),
    Decl("n_ctx", Int),
    Decl("n_threads", Int),
    Nullable("embeddings", Bool),
    Nullable("offload_kqv", Bool),
    Nullable("n_batch", Int),
    Nullable("n_seq_max", Int),
    Nullable("pooling_type", Str),
    Nullable("rope_scaling_type", Str),
    Nullable("rope_freq_base", Float),
    Nullable("rope_freq_scale", Float),
    Nullable("yarn_ext_factor", Float),
    Nullable("yarn_attn_factor", Float),
    Nullable("yarn_beta_fast", Float),
    Nullable("yarn_beta_slow", Float),
    Nullable("yarn_orig_ctx", Int),
    Nullable("cache_type_k", Str),
    Nullable("cache_type_v", Str)
  ])
  const LoadRes: Schema := Schema("load_res", [
    Decl("success", Bool),
    Decl("n_ctx", Int),
    Decl("n_batch", Int),
    Decl("n_ubatch", Int),
    Decl("n_vocab", Int),
    Decl("n_ctx_train", Int),
    Decl("n_embd", Int),
    Decl("n_layer", Int),
    Decl("metadata_key", ArrStr),
    Decl("metadata_val", ArrStr),
    Decl("token_bos", Int),
    Decl("token_eos", Int),
    Decl("token_eot", Int),
    Decl("list_tokens_eog", ArrInt),
    Decl("add_bos_token", Bool),
    Decl("add_eos_token", Bool),
    Decl("has_encoder", Bool),
    Decl("token_decoder_start", Int)
  ])
  const SetOptionsReq: Schema := Schema("opti_req", [Decl("embeddings", Bool)])
  const SetOptionsRes: Schema := Schema("opti_res", [Decl("success", Bool)])
  const SamplingInitReq: Schema := Schema("sint_req", [
    Nullable("mirostat", Int),
    Nullable("mirostat_tau", Float),
    Nullable("mirostat_eta", Float),
    Nullable("temp", Float),
    Nullable("top_p", Float),
    Nullable("top_k", Int),
    Nullable("penalty_last_n", Int),
    Nullable("penalty_repeat", Float),
    Nullable("penalty_freq", Float),
    Nullable("penalty_present", Float),
    Nullable("dynatemp_range", Float),
    Nullable("dynatemp_exponent", Float),
    Nullable("samplers_sequence", ArrStr),
    Nullable("grammar", Str),
    Nullable("n_prev", Int),
    Nullable("n_probs", Int),
    Nullable("min_p", Float),
    Nullable("typical_p", Float),
    Nullable("typ_p", Float),
    Nullable("logit_bias_toks", ArrInt),
    Nullable("logit_bias_vals", ArrFloat),
    Nullable("tokens", ArrInt)
  ])
  const SamplingInitRes: Schema := Schema("sint_res", [Decl("success", Bool)])
  const GetVocabReq: Schema := Schema("gvoc_req", [])
  const GetVocabRes: Schema := Schema("gvoc_res", [Decl("success", Bool), Decl("vocab", ArrRaw)])
  const LookupTokenReq: Schema := Schema("lkup_req", [Decl("piece", Str)])
  const LookupTokenRes: Schema := Schema("lkup_res", [Decl("success", Bool), Decl("token", Int)])
  const TokenizeReq: Schema := Schema("tokn_req", [Decl("text", Str), Decl("special", Bool)])
  const TokenizeRes: Schema := Schema("tokn_res", [Decl("success", Bool), Decl("tokens", ArrInt)])
  const DetokenizeReq: Schema := Schema("dtkn_req", [Decl("tokens", ArrInt)])
  const DetokenizeRes: Schema := Schema("dtkn_res", [Decl("success", Bool), Decl("buffer", Raw)])
  const DecodeReq: Schema := Schema("deco_req", [Decl("tokens", ArrInt), Decl("skip_logits", Bool)])
  const DecodeRes: Schema := Schema("deco_res", [Decl("success", Bool), Decl("message", Str), Decl("n_past", Int)])
  const EncodeReq: Schema := Schema("enco_req", [Decl("tokens", ArrInt)])
  const EncodeRes: Schema := Schema("enco_res", [Decl("success", Bool), Decl("message", Str), Decl("n_past", Int)])
  const SamplingSampleReq: Schema := Schema("ssam_req", [])
  const SamplingSampleRes: Schema := Schema("ssam_res", [Decl("success", Bool), Decl("piece", Raw), Decl("token", Int)])
  const SamplingAcceptReq: Schema := Schema("sacc_req", [Decl("tokens", ArrInt)])
  const SamplingAcceptRes: Schema := Schema("sacc_res", [Decl("success", Bool)])
  const GetLogitsReq: Schema := Schema("glog_req", [Decl("top_k", Int)])
  const GetLogitsRes: Schema := Schema("glog_res", [Decl("success", Bool), Decl("tokens", ArrInt), Decl("probs", ArrFloat)])
  const GetEmbeddingsReq: Schema := Schema("gemb_req", [Decl("tokens", ArrInt)])
  const GetEmbeddingsRes: Schema := Schema("gemb_res", [Decl("success", Bool), Decl("message", Str), Decl("embeddings", ArrFloat)])
  const GetKvRemoveReq: Schema := Schema("kvcr_req", [Decl("n_keep", Int), Decl("n_discard", Int)])
  const GetKvRemoveRes: Schema := Schema("kvcr_res", [Decl("n_past", Int), Decl("success", Bool)])
  const GetKvClearReq: Schema := Schema("kvcc_req", [])
  const GetKvClearRes: Schema := Schema("kvcc_res", [Decl("n_past", Int), Decl("success", Bool)])
  const SessionSaveReq: Schema := Schema("sesa_req", [Decl("session_path", Str)])
  const SessionSaveRes: Schema := Schema("sesa_res", [Decl("success", Bool), Decl("tokens", ArrInt)])
  const SessionLoadReq: Schema := Schema("sesl_req", [Decl("session_path", Str), Decl("tokens", ArrInt)])
  const SessionLoadRes: Schema := Schema("sesl_res", [Decl("success", Bool)])
  const StatusReq: Schema := Schema("stat_req", [])
  const StatusRes: Schema := Schema("stat_res", [Decl("success", Bool), Decl("tokens", ArrInt)])
  const TestBenchmarkReq: Schema := Schema("tben_req", [Decl("type", Str), Decl("n_samples", Int)])
  const TestBenchmarkRes: Schema := Schema("tben_res", [Decl("success", Bool), Decl("message", Str), Decl("t_ms", Int)])
  const TestPerplexityReq: Schema := Schema("tper_req", [Decl("tokens", ArrInt)])
  const TestPerplexityRes: Schema := Schema("tper_res", [
    Decl("success", Bool),
    Decl("message", Str),
    Decl("ppl", Float),
    Decl("nll", Float),
    Decl("cross_entropy", Float),
    Decl("n_tokens", Int),
    Decl("t_ms", Int)
  ])
  const ChatFormatReq: Schema := Schema("cfmt_req", [
    Nullable("tmpl", Str),
    Nullable("add_ass", Bool),
    Decl("roles", ArrStr),
    Decl("contents", ArrStr)
  ])
  const ChatFormatRes: Schema := Schema("cfmt_res", [Decl("success", Bool), Decl("message", Str), Decl("formatted_chat", Str)])

  const Catalogue: seq<Schema> := [
    ErrorEvt, LoadReq, LoadRes, SetOptionsReq, SetOptionsRes, SamplingInitReq,
    SamplingInitRes, GetVocabReq, GetVocabRes, LookupTokenReq, LookupTokenRes, TokenizeReq,
    TokenizeRes, DetokenizeReq, DetokenizeRes, DecodeReq, DecodeRes, EncodeReq,
    EncodeRes, SamplingSampleReq, SamplingSampleRes, SamplingAcceptReq, SamplingAcceptRes, GetLogitsReq,
    GetLogitsRes, GetEmbeddingsReq, GetEmbeddingsRes, GetKvRemoveReq, GetKvRemoveRes, GetKvClearReq,
    GetKvClearRes, SessionSaveReq, SessionSaveRes, SessionLoadReq, SessionLoadRes, StatusReq,
    StatusRes, TestBenchmarkReq, TestBenchmarkRes, TestPerplexityReq, TestPerplexityRes, ChatFormatReq,
    ChatFormatRes
  ]


  /** An id the handler accepts: eight characters, each one byte. */
  predicate WellFormedId(id: string)
  {
    |id| == PROTO_ID_LEN && forall i :: 0 <= i < |id| ==> id[i] as int < 0x100
  }

  /** The id's characters as the bytes that go on the wire. */
  function IdBytes(id: string): (b: Bytes)
    requires WellFormedId(id)
    ensures |b| == PROTO_ID_LEN && forall i :: 0 <= i < |id| ==> b[i] == id[i] as int
  {
    seq(|id|, i requires 0 <= i < |id| => id[i] as int)
  }

  /** The fields a freshly constructed message holds: one per declaration, in order, not null, default value. */
  function FreshFields(sc: Schema): (fs: seq<Field>)
    ensures |fs| == |sc.fields|
    ensures forall i :: 0 <= i < |fs| ==>
      fs[i].name == sc.fields[i].name && fs[i].value == Default(sc.fields[i].kind) && !fs[i].IsNull()
      && fs[i].dtype == Code(sc.fields[i].kind)
  {
    seq(|sc.fields|, i requires 0 <= i < |sc.fields| => Fresh(sc.fields[i].name, sc.fields[i].kind))
  }

  /**
    Constructing a message: the handler is named by the id, then each field
    member is constructed in declaration order and registers itself.
  */
  method NewMessage(sc: Schema) returns (h: Handler)
    requires WellFormedId(sc.id)
    ensures fresh(h) && h.name == IdBytes(sc.id) && h.fields == FreshFields(sc)
  {
    h := new Handler(IdBytes(sc.id));
    var i := 0;
    while i < |sc.fields|
      invariant i <= |sc.fields| && h.name == IdBytes(sc.id)
      invariant h.fields == FreshFields(sc)[..i]
    {
      h.RegisterField(sc.fields[i].name, sc.fields[i].kind);
      assert FreshFields(sc)[..i + 1] == FreshFields(sc)[..i] + [FreshFields(sc)[i]];
      i := i + 1;
    }
    assert FreshFields(sc)[..i] == FreshFields(sc);
  }

  /** `fs` holds, field by field, values of the kinds `sc` declares. */
  predicate Conforms(sc: Schema, fs: seq<Field>)
  {
    |fs| == |sc.fields|
    && forall i :: 0 <= i < |fs| ==> fs[i].name == sc.fields[i].name && fs[i].value.Kind() == sc.fields[i].kind
  }

  /** A freshly constructed message of the type is a receiving message for every message of the type. */
  lemma FreshFieldsReceive(sc: Schema, fs: seq<Field>)
    requires Conforms(sc, fs)
    ensures FreshFields(sc) == FreshLike(fs)
  {
  }

  /**
    Serialising a message of a catalogue type and deserialising it into a
    freshly constructed message of the same type gives every field back:
    fields holding a value with that value, null fields null with their
    default value. The corrected raw reader is the one meant here; with the
    switch as written, see GlueAsWritten.
  */
  lemma {:induction false} SchemaRoundTrip(sc: Schema, fs: seq<Field>)
    requires WellFormedId(sc.id) && Conforms(sc, fs) && Sendable(fs)
    ensures AllDispatchable(fs) && AllDispatchable(FreshFields(sc))
    ensures DecodeMessage(IdBytes(sc.id), FreshFields(sc), EncodeMessage(IdBytes(sc.id), fs)) == Ok((RestoredAll(fs), []))
  {
    FreshFieldsReceive(sc, fs);
    MessageRoundTrip(IdBytes(sc.id), fs);
  }

  predicate NoNull(fs: seq<Field>)
  {
    forall i :: 0 <= i < |fs| ==> !fs[i].IsNull()
  }

  /** A value the sender may store in field `i` of a message of type `sc`. */
  predicate Storable(sc: Schema, i: nat, v: Value)
  {
    i < |sc.fields| && v.Kind() == sc.fields[i].kind && Fits32(v)
  }

  /** A freshly constructed message conforms to its type, and every field holds a value. */
  lemma FreshConforms(sc: Schema)
    ensures Conforms(sc, FreshFields(sc)) && Sendable(FreshFields(sc)) && NoNull(FreshFields(sc))
  {
    var fs := FreshFields(sc);
    forall i | 0 <= i < |fs|
      ensures Fits32(fs[i].value)
    {
      match fs[i].value
      case ArrStrVal(bs) => assert bs == [];
      case ArrRawVal(bs) => assert bs == [];
      case _ =>
    }
  }

  /** The fields after assigning the values `sets`, in order, to a message's fields. */
  function Assigned(fs: seq<Field>, sets: seq<(nat, Value)>): (gs: seq<Field>)
    ensures |gs| == |fs|
  {
    if sets == [] then fs
    else
      var prior := Assigned(fs, sets[..|sets| - 1]);
      var (i, v) := sets[|sets| - 1];
      if i < |prior| then prior[i := prior[i].(value := v)] else prior
  }

  /**
    Assigning to distinct fields: each assigned field holds the value
    assigned to it, and every other field is as it was.
  */
  lemma {:induction false} AssignedHolds(fs: seq<Field>, sets: seq<(nat, Value)>)
    requires forall j :: 0 <= j < |sets| ==> sets[j].0 < |fs|
    requires forall j, k :: 0 <= j < k < |sets| ==> sets[j].0 != sets[k].0
    ensures forall j :: 0 <= j < |sets| ==> Assigned(fs, sets)[sets[j].0].value == sets[j].1
    ensures forall i :: 0 <= i < |fs| && (forall j :: 0 <= j < |sets| ==> sets[j].0 != i)
              ==> Assigned(fs, sets)[i] == fs[i]
  {
    if sets != [] {
      var init := sets[..|sets| - 1];
      AssignedHolds(fs, init);
      forall j | 0 <= j < |init|
        ensures init[j] == sets[j]
      {
      }
    }
  }

  /** Storing a value the type allows keeps a message conforming and sendable. */
  lemma AssignConforms(sc: Schema, fs: seq<Field>, i: nat, v: Value)
    requires Conforms(sc, fs) && Sendable(fs) && NoNull(fs) && Storable(sc, i, v)
    ensures var gs := fs[i := fs[i].(value := v)];
      Conforms(sc, gs) && Sendable(gs) && NoNull(gs)
  {
  }

  /**
    The exchange the unit tests perform: construct a message of type `sc`,
    store the values `sets`, serialise it, construct a second message of the
    same type and deserialise the bytes into it. The second message
    succeeds and holds exactly the fields of the first.
  */
  method Exchange(sc: Schema, sets: seq<(nat, Value)>) returns (res: Result<()>, received: seq<Field>)
    requires WellFormedId(sc.id)
    requires forall j :: 0 <= j < |sets| ==> Storable(sc, sets[j].0, sets[j].1)
    ensures res == Ok(()) && received == Assigned(FreshFields(sc), sets)
  {
    var req := NewMessage(sc);
    FreshConforms(sc);
    var j := 0;
    while j < |sets|
      invariant j <= |sets| && req.name == IdBytes(sc.id)
      invariant req.fields == Assigned(FreshFields(sc), sets[..j])
      invariant Conforms(sc, req.fields) && Sendable(req.fields) && NoNull(req.fields)
    {
      var (i, v) := sets[j];
      assert sets[..j + 1][..j] == sets[..j];
      AssignConforms(sc, req.fields, i, v);
      req.SetValue(i, v);
      j := j + 1;
    }
    assert sets[..j] == sets;
    var sent := req.fields;
    SchemaRoundTrip(sc, sent);
    var outbuf := new OutBuf();
    req.Serialize(outbuf);
    var req2 := NewMessage(sc);
    var inbuf := new InBuf(outbuf.data);
    res := req2.Deserialize(inbuf);
    RestoredNoNull(sent);
    received := req2.fields;
  }

  /** "mean" as bytes. */
  const MEAN: Bytes := [0x6d, 0x65, 0x61, 0x6e]

  /** The values the load-request test stores: use_mmap, n_gpu_layers, seed, n_ctx, embeddings, pooling_type. */
  const LoadRequestSettings: seq<(nat, Value)> :=
    [(2, BoolVal(true)), (4, IntVal(32)), (5, IntVal(42)), (6, IntVal(2048)), (8, BoolVal(false)), (12, StrVal(MEAN))]

  lemma LoadRequestStorable()
    ensures WellFormedId(LoadReq.id)
    ensures forall j :: 0 <= j < |LoadRequestSettings| ==> Storable(LoadReq, LoadRequestSettings[j].0, LoadRequestSettings[j].1)
  {
  }

  /** After the load-request settings, the fields the test inspects hold the values it stored. */
  lemma LoadRequestValues()
    ensures var fs := Assigned(FreshFields(LoadReq), LoadRequestSettings);
      |fs| == |LoadReq.fields|
      && fs[2].value == BoolVal(true) && fs[4].value == IntVal(32) && fs[5].value == IntVal(42)
      && fs[6].value == IntVal(2048) && fs[8].value == BoolVal(false) && fs[12].value == StrVal(MEAN)
  {
    var sets, fs := LoadRequestSettings, Assigned(FreshFields(LoadReq), LoadRequestSettings);
    AssignedHolds(FreshFields(LoadReq), sets);
    assert fs[sets[0].0].value == sets[0].1 && fs[sets[1].0].value == sets[1].1;
    assert fs[sets[2].0].value == sets[2].1 && fs[sets[3].0].value == sets[3].1;
    assert fs[sets[4].0].value == sets[4].1 && fs[sets[5].0].value == sets[5].1;
  }

  /**
    The load-request test: use_mmap, n_gpu_layers, seed, n_ctx, embeddings
    and pooling_type are set, the message goes through serialise and
    deserialise, and the receiving message holds the same values.
  */
  method LoadRequestTest() returns (received: seq<Field>)
    ensures |received| == |LoadReq.fields|
    ensures received[2].value == BoolVal(true) && received[4].value == IntVal(32)
    ensures received[5].value == IntVal(42) && received[6].value == IntVal(2048)
    ensures received[8].value == BoolVal(false) && received[12].value == StrVal(MEAN)
  {
    LoadRequestStorable();
    var _, fs := Exchange(LoadReq, LoadRequestSettings);
    LoadRequestValues();
    received := fs;
  }

  /** "test grammar" as bytes. */
  const TEST_GRAMMAR: Bytes := [0x74, 0x65, 0x73, 0x74, 0x20, 0x67, 0x72, 0x61, 0x6d, 0x6d, 0x61, 0x72]

  /** The single-precision bit patterns of 0.8, 0.95 and 1.1. */
  const F32_0_8: U32 := 0x3F4C_CCCD
  const F32_0_95: U32 := 0x3F73_3333
  const F32_1_1: U32 := 0x3F8C_CCCD

  /** The values the sampling-init test stores: mirostat, temp, top_p, penalty_repeat, grammar, tokens. */
  const SamplingInitSettings: seq<(nat, Value)> :=
    [(0, IntVal(2)), (3, FloatVal(F32_0_8)), (4, FloatVal(F32_0_95)), (7, FloatVal(F32_1_1)),
     (13, StrVal(TEST_GRAMMAR)), (21, ArrIntVal([1, 2, 3, 4, 5]))]

  lemma SamplingInitStorable()
    ensures WellFormedId(SamplingInitReq.id)
    ensures forall j :: 0 <= j < |SamplingInitSettings| ==>
      Storable(SamplingInitReq, SamplingInitSettings[j].0, SamplingInitSettings[j].1)
  {
  }

  /** After the sampling-init settings, the fields the test inspects hold the values it stored. */
  lemma SamplingInitValues()
    ensures var fs := Assigned(FreshFields(SamplingInitReq), SamplingInitSettings);
      |fs| == |SamplingInitReq.fields|
      && fs[0].value == IntVal(2) && fs[3].value == FloatVal(F32_0_8) && fs[4].value == FloatVal(F32_0_95)
      && fs[7].value == FloatVal(F32_1_1) && fs[13].value == StrVal(TEST_GRAMMAR)
      && fs[21].value == ArrIntVal([1, 2, 3, 4, 5])
  {
    var sets, fs := SamplingInitSettings, Assigned(FreshFields(SamplingInitReq), SamplingInitSettings);
    AssignedHolds(FreshFields(SamplingInitReq), sets);
    assert fs[sets[0].0].value == sets[0].1 && fs[sets[1].0].value == sets[1].1;
    assert fs[sets[2].0].value == sets[2].1 && fs[sets[3].0].value == sets[3].1;
    assert fs[sets[4].0].value == sets[4].1 && fs[sets[5].0].value == sets[5].1;
  }

  /**
    The sampling-init test: mirostat, temp, top_p, penalty_repeat, grammar
    and the token array are set, the message goes through serialise and
    deserialise, and the receiving message holds the same values (the
    floats bit for bit, so within any tolerance).
  */
  method SamplingInitTest() returns (received: seq<Field>)
    ensures |received| == |SamplingInitReq.fields|
    ensures received[0].value == IntVal(2) && received[3].value == FloatVal(F32_0_8)
    ensures received[4].value == FloatVal(F32_0_95) && received[7].value == FloatVal(F32_1_1)
    ensures received[13].value == StrVal(TEST_GRAMMAR) && received[21].value == ArrIntVal([1, 2, 3, 4, 5])
  {
    SamplingInitStorable();
    var _, fs := Exchange(SamplingInitReq, SamplingInitSettings);
    SamplingInitValues();
    received := fs;
  }

  /**
    A detokenize response whose buffer holds a value, deserialised by the
    switch as written into a freshly constructed detokenize response: the
    reader runs past the end of the message.
  */
  lemma {:induction false} DetokenizeResponseAsWritten(fs: seq<Field>)
    requires Conforms(DetokenizeRes, fs) && Sendable(fs) && !fs[1].IsNull()
    ensures AllDispatchable(FreshFields(DetokenizeRes)) && AllDispatchable(fs)
    ensures DecodeFieldsAsWritten(FreshFields(DetokenizeRes), EncodeFields(fs)) == Defined(Err(Truncated))
  {
    var rs := FreshFields(DetokenizeRes);
    FreshFieldsReceive(DetokenizeRes, fs);
    assert rs[..1][0] == rs[0];
    RawLastReadsPastEnd(rs, fs);
  }

  /**
    A sampled-token response whose piece and token hold values, deserialised
    by the switch as written: the token's tag is taken as a second tag of
    the piece, and the read goes on into undefined behaviour.
  */
  lemma {:induction false} SampleResponseAsWritten(fs: seq<Field>, rest: Bytes)
    requires Conforms(SamplingSampleRes, fs) && Sendable(fs) && !fs[1].IsNull() && !fs[2].IsNull()
    ensures AllDispatchable(FreshFields(SamplingSampleRes)) && AllDispatchable(fs)
    ensures DecodeFieldsAsWritten(FreshFields(SamplingSampleRes), EncodeFields(fs) + rest) == Undefined
  {
    var rs := FreshFields(SamplingSampleRes);
    FreshFieldsReceive(SamplingSampleRes, fs);
    assert rs[..1][0] == rs[0];
    RawThenValueUndefined(rs, fs, 1, rest);
  }
}
