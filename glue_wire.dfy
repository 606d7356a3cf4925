/**
  The byte layout of the "glue" protocol, as pure functions.

  A message on the wire is the 4-byte magic, the 4-byte version, the 8 bytes
  of the prototype id, then every field of the message in declaration order.
  A field is a 4-byte tag followed by a payload whose shape the tag selects.
  All 4-byte numbers are little-endian (the engine runs on WebAssembly and
  the writer copies the native bytes of each number).

  Decoding functions take the bytes that remain to be read and return the
  value read with the bytes that follow it. Running out of bytes is the
  explicit `Truncated` error; the reader this models does not check bounds.
*/
module GlueWire {

  type Byte = b: int | 0 <= b < 0x100
  type Bytes = seq<Byte>
  /** uint32_t */
  type U32 = x: int | 0 <= x < 0x1_0000_0000
  /** int32_t */
  type I32 = x: int | -0x8000_0000 <= x < 0x8000_0000

  const MAGIC: U32 := 0x45554c47   // "GLUE"
  const VERSION: U32 := 1
  const PROTO_ID_LEN: nat := 8
  const NULL_TAG: U32 := 0
  const LAST_TAG: U32 := 10

  // ---------------------------------------------------------------------
  // Fixed-width numbers

  /** The low `k` bytes of `x`, least significant first. */
  function LeBytes(x: nat, k: nat): (b: Bytes)
    ensures |b| == k
  {
    if k == 0 then [] else [x % 0x100] + LeBytes(x / 0x100, k - 1)
  }

  /** The four bytes of `x`, least significant first. */
  function U32Bytes(x: U32): (b: Bytes)
    ensures |b| == 4
  {
    LeBytes(x, 4)
  }

  /** The number whose little-endian bytes are `b`. */
  function U32Of(b: Bytes): (x: U32)
    requires |b| == 4
  {
    b[0] as int + 0x100 * (b[1] as int + 0x100 * (b[2] as int + 0x100 * b[3] as int))
  }

  /** The four bytes of `x`, spelled out. */
  lemma U32BytesAre(x: U32)
    ensures U32Bytes(x) == [x % 0x100, x / 0x100 % 0x100, x / 0x100 / 0x100 % 0x100, x / 0x100 / 0x100 / 0x100]
  {
    var x1 := x / 0x100;
    var x2 := x1 / 0x100;
    var x3 := x2 / 0x100;
    assert LeBytes(x, 4) == [x % 0x100] + LeBytes(x1, 3);
    assert LeBytes(x1, 3) == [x1 % 0x100] + LeBytes(x2, 2);
    assert LeBytes(x2, 2) == [x2 % 0x100] + LeBytes(x3, 1);
    assert LeBytes(x3, 1) == [x3 % 0x100];
  }

  lemma DivMod256(lo: int, hi: int)
    requires 0 <= lo < 0x100 && 0 <= hi
    ensures (lo + 0x100 * hi) % 0x100 == lo && (lo + 0x100 * hi) / 0x100 == hi
  {
  }

  lemma U32RoundTrip(x: U32)
    ensures U32Of(U32Bytes(x)) == x
  {
    U32BytesAre(x);
  }

  lemma U32BytesOf(b: Bytes)
    requires |b| == 4
    ensures U32Bytes(U32Of(b)) == b
  {
    var x2 := b[2] as int + 0x100 * b[3] as int;
    var x1 := b[1] as int + 0x100 * x2;
    DivMod256(b[0], x1);
    DivMod256(b[1], x2);
    DivMod256(b[2], b[3]);
    U32BytesAre(U32Of(b));
  }

  /** Two's-complement bit pattern of an int32_t. */
  function I32Bits(i: I32): (x: U32)
    ensures i >= 0 ==> x == i
  {
    if i < 0 then i + 0x1_0000_0000 else i
  }

  /** The int32_t whose two's-complement bit pattern is `x`. */
  function I32Of(x: U32): (i: I32)
    ensures I32Bits(i) == x
  {
    if x >= 0x8000_0000 then x - 0x1_0000_0000 else x
  }

  lemma I32RoundTrip(i: I32)
    ensures I32Of(I32Bits(i)) == i
  {
  }

  /** A size_t length stored in a uint32_t: the high bits are dropped. */
  function Len32(n: nat): (x: U32)
    ensures n < 0x1_0000_0000 ==> x == n
  {
    n % 0x1_0000_0000
  }

  // ---------------------------------------------------------------------
  // Field kinds and values

  /** The kinds a field can be declared with; the wire tag of each is its Code. */
  datatype Kind = Bool | Int | Float | Str | Raw | ArrBool | ArrInt | ArrFloat | ArrStr | ArrRaw

  function Code(k: Kind): (c: U32)
    ensures NULL_TAG < c <= LAST_TAG
  {
    match k
    case Bool => 1
    case Int => 2
    case Float => 3
    case Str => 4
    case Raw => 5
    case ArrBool => 6
    case ArrInt => 7
    case ArrFloat => 8
    case ArrStr => 9
    case ArrRaw => 10
  }

  lemma CodeInjective(j: Kind, k: Kind)
    ensures Code(j) == Code(k) ==> j == k
  {
  }

  /**
    The value a field holds. Floats are carried as their 32-bit pattern.
    Array-of-bool elements are uint32_t words, as in the source.
  */
  datatype Value =
    | BoolVal(b: bool)
    | IntVal(i: I32)
    | FloatVal(f: U32)
    | StrVal(s: Bytes)
    | RawVal(buf: Bytes)
    | ArrBoolVal(words: seq<U32>)
    | ArrIntVal(ints: seq<I32>)
    | ArrFloatVal(floats: seq<U32>)
    | ArrStrVal(strs: seq<Bytes>)
    | ArrRawVal(bufs: seq<Bytes>)
  {
    function Kind(): Kind
    {
      match this
      case BoolVal(_) => Bool
      case IntVal(_) => Int
      case FloatVal(_) => Float
      case StrVal(_) => Str
      case RawVal(_) => Raw
      case ArrBoolVal(_) => ArrBool
      case ArrIntVal(_) => ArrInt
      case ArrFloatVal(_) => ArrFloat
      case ArrStrVal(_) => ArrStr
      case ArrRawVal(_) => ArrRaw
    }
  }

  /** The value a freshly constructed field of kind `k` holds. */
  function Default(k: Kind): (v: Value)
    ensures v.Kind() == k
  {
    match k
    case Bool => BoolVal(false)
    case Int => IntVal(0)
    case Float => FloatVal(0)
    case Str => StrVal([])
    case Raw => RawVal([])
    case ArrBool => ArrBoolVal([])
    case ArrInt => ArrIntVal([])
    case ArrFloat => ArrFloatVal([])
    case ArrStr => ArrStrVal([])
    case ArrRaw => ArrRawVal([])
  }

  /**
    One field of a message. `dtype` is the tag the field currently carries:
    its kind's Code when it holds a value, NULL_TAG when it is null, and
    whatever tag the last decode read otherwise. The name is never sent.
  */
  datatype Field = Field(name: string, dtype: U32, value: Value)
  {
    predicate IsNull() { dtype == NULL_TAG }
  }

  /** A field as its message's constructor makes it: not null, default value. */
  function Fresh(name: string, k: Kind): (f: Field)
    ensures !f.IsNull() && f.value.Kind() == k
  {
    Field(name, Code(k), Default(k))
  }

  /**
    The tags the writer and the reader can dispatch on: null, the field's
    own kind, or a tag past the enumeration (which no switch case matches).
    A tag naming another kind would make the source cast the field to the
    wrong struct.
  */
  predicate Dispatchable(f: Field)
  {
    f.dtype == NULL_TAG || f.dtype == Code(f.value.Kind()) || f.dtype > LAST_TAG
  }

  /** The tag a field carries when the program itself built or set it. */
  predicate Settled(f: Field)
  {
    f.dtype == NULL_TAG || f.dtype == Code(f.value.Kind())
  }

  /** Every length the encoding stores fits in a uint32_t. */
  predicate Fits32(v: Value)
  {
    match v
    case StrVal(s) => |s| < 0x1_0000_0000
    case RawVal(b) => |b| < 0x1_0000_0000
    case ArrBoolVal(ws) => |ws| < 0x1_0000_0000
    case ArrIntVal(xs) => |xs| < 0x1_0000_0000
    case ArrFloatVal(ws) => |ws| < 0x1_0000_0000
    case ArrStrVal(bs) => |bs| < 0x1_0000_0000 && forall i :: 0 <= i < |bs| ==> |bs[i]| < 0x1_0000_0000
    case ArrRawVal(bs) => |bs| < 0x1_0000_0000 && forall i :: 0 <= i < |bs| ==> |bs[i]| < 0x1_0000_0000
    case _ => true
  }

  // ---------------------------------------------------------------------
  // Encoding

  /** A string or byte buffer: its uint32_t length, then its bytes. */
  function Blob(b: Bytes): Bytes
  {
    U32Bytes(Len32(|b|)) + b
  }

  /** Densely packed 4-byte elements. */
  function Words(ws: seq<U32>): (r: Bytes)
    ensures |r| == 4 * |ws|
  {
    if ws == [] then [] else U32Bytes(ws[0]) + Words(ws[1..])
  }

  /** Each element length-prefixed, one after the other. */
  function Blobs(bs: seq<Bytes>): Bytes
  {
    if bs == [] then [] else Blob(bs[0]) + Blobs(bs[1..])
  }

  function IntsToWords(xs: seq<I32>): (ws: seq<U32>)
    ensures |ws| == |xs|
  {
    seq(|xs|, k requires 0 <= k < |xs| => I32Bits(xs[k]))
  }

  function WordsToInts(ws: seq<U32>): (xs: seq<I32>)
    ensures |xs| == |ws|
  {
    seq(|ws|, k requires 0 <= k < |ws| => I32Of(ws[k]))
  }

  /** What follows a non-null tag. */
  function Payload(v: Value): Bytes
  {
    match v
    case BoolVal(b) => U32Bytes(if b then 1 else 0)
    case IntVal(i) => U32Bytes(I32Bits(i))
    case FloatVal(f) => U32Bytes(f)
    case StrVal(s) => Blob(s)
    case RawVal(b) => Blob(b)
    case ArrBoolVal(ws) => U32Bytes(Len32(|ws|)) + Words(ws)
    case ArrIntVal(xs) => U32Bytes(Len32(|xs|)) + Words(IntsToWords(xs))
    case ArrFloatVal(ws) => U32Bytes(Len32(|ws|)) + Words(ws)
    case ArrStrVal(bs) => U32Bytes(Len32(|bs|)) + Blobs(bs)
    case ArrRawVal(bs) => U32Bytes(Len32(|bs|)) + Blobs(bs)
  }

  /** One field as the handler's serialize switch writes it. */
  function EncodeField(f: Field): Bytes
    requires Dispatchable(f)
  {
    if f.dtype == NULL_TAG then U32Bytes(NULL_TAG)
    else if f.dtype > LAST_TAG then []
    else U32Bytes(f.dtype) + Payload(f.value)
  }

  function EncodeFields(fs: seq<Field>): Bytes
    requires forall i :: 0 <= i < |fs| ==> Dispatchable(fs[i])
  {
    if fs == [] then [] else EncodeField(fs[0]) + EncodeFields(fs[1..])
  }

  /** Magic, version, then the prototype id verbatim; no message length. */
  function Header(id: Bytes): Bytes
  {
    U32Bytes(MAGIC) + U32Bytes(VERSION) + id
  }

  function EncodeMessage(id: Bytes, fs: seq<Field>): Bytes
    requires forall i :: 0 <= i < |fs| ==> Dispatchable(fs[i])
  {
    Header(id) + EncodeFields(fs)
  }

  // ---------------------------------------------------------------------
  // Decoding

  datatype Error =
    | BadMagic(magic: U32)
    | VersionMismatch(version: U32)
    | PrototypeMismatch(got: Bytes, expected: Bytes)
    | Truncated

  datatype Result<T> = Ok(value: T) | Err(error: Error)
  {
    predicate IsFailure() { Err? }

    function PropagateFailure<U>(): Result<U>
      requires Err?
    {
      Err(error)
    }

    function Extract(): T
      requires Ok?
    {
      value
    }
  }

  /** Read a uint32_t. */
  function TakeU32(s: Bytes): (r: Result<(U32, Bytes)>)
    ensures r.Ok? <==> |s| >= 4
    ensures r.Ok? ==> s == U32Bytes(r.value.0) + r.value.1
    ensures r.Err? ==> r.error == Truncated
  {
    if |s| < 4 then Err(Truncated)
    else
      U32BytesOf(s[..4]);
      Ok((U32Of(s[..4]), s[4..]))
  }

  /** Read `n` bytes. */
  function TakeBytes(s: Bytes, n: nat): (r: Result<(Bytes, Bytes)>)
    ensures r.Ok? <==> |s| >= n
    ensures r.Ok? ==> |r.value.0| == n && s == r.value.0 + r.value.1
    ensures r.Err? ==> r.error == Truncated
  {
    if |s| < n then Err(Truncated) else Ok((s[..n], s[n..]))
  }

  /** Read a length-prefixed string or byte buffer. */
  function TakeBlob(s: Bytes): (r: Result<(Bytes, Bytes)>)
    ensures r.Err? ==> r.error == Truncated
  {
    var (n, s1) :- TakeU32(s);
    TakeBytes(s1, n)
  }

  /** Read `n` 4-byte elements. */
  function TakeWords(s: Bytes, n: nat): (r: Result<(seq<U32>, Bytes)>)
    ensures r.Ok? ==> |r.value.0| == n
    ensures r.Err? ==> r.error == Truncated
  {
    if n == 0 then Ok(([], s))
    else
      var (w, s1) :- TakeU32(s);
      var (ws, s2) :- TakeWords(s1, n - 1);
      assert ([w] + ws)[1..] == ws;
      Ok(([w] + ws, s2))
  }

  /** Read `n` length-prefixed elements. */
  function TakeBlobs(s: Bytes, n: nat): (r: Result<(seq<Bytes>, Bytes)>)
    ensures r.Ok? ==> |r.value.0| == n
    ensures r.Err? ==> r.error == Truncated
  {
    if n == 0 then Ok(([], s))
    else
      var (b, s1) :- TakeBlob(s);
      var (bs, s2) :- TakeBlobs(s1, n - 1);
      assert ([b] + bs)[1..] == bs;
      Ok(([b] + bs, s2))
  }

  /** Read an element count, then that many 4-byte elements. */
  function TakeCountedWords(s: Bytes): (r: Result<(seq<U32>, Bytes)>)
    ensures r.Err? ==> r.error == Truncated
  {
    var (n, s1) :- TakeU32(s);
    TakeWords(s1, n)
  }

  /** Read an element count, then that many length-prefixed elements. */
  function TakeCountedBlobs(s: Bytes): (r: Result<(seq<Bytes>, Bytes)>)
    ensures r.Err? ==> r.error == Truncated
  {
    var (n, s1) :- TakeU32(s);
    TakeBlobs(s1, n)
  }

  /**
    Read the payload of a field whose current value is `v`. Scalars and
    strings are replaced; arrays get the elements read appended to what
    they held, in wire order.
  */
  function DecodePayload(v: Value, s: Bytes): (r: Result<(Value, Bytes)>)
    ensures r.Ok? ==> r.value.0.Kind() == v.Kind()
    ensures r.Err? ==> r.error == Truncated
  {
    match v
    case BoolVal(_) =>
      var (w, rest) :- TakeU32(s);
      Ok((BoolVal(w != 0), rest))
    case IntVal(_) =>
      var (w, rest) :- TakeU32(s);
      Ok((IntVal(I32Of(w)), rest))
    case FloatVal(_) =>
      var (w, rest) :- TakeU32(s);
      Ok((FloatVal(w), rest))
    case StrVal(_) =>
      var (b, rest) :- TakeBlob(s);
      Ok((StrVal(b), rest))
    case RawVal(_) =>
      var (b, rest) :- TakeBlob(s);
      Ok((RawVal(b), rest))
    case ArrBoolVal(old_) =>
      var (ws, rest) :- TakeCountedWords(s);
      Ok((ArrBoolVal(old_ + ws), rest))
    case ArrIntVal(old_) =>
      var (ws, rest) :- TakeCountedWords(s);
      Ok((ArrIntVal(old_ + WordsToInts(ws)), rest))
    case ArrFloatVal(old_) =>
      var (ws, rest) :- TakeCountedWords(s);
      Ok((ArrFloatVal(old_ + ws), rest))
    case ArrStrVal(old_) =>
      var (bs, rest) :- TakeCountedBlobs(s);
      Ok((ArrStrVal(old_ + bs), rest))
    case ArrRawVal(old_) =>
      var (bs, rest) :- TakeCountedBlobs(s);
      Ok((ArrRawVal(old_ + bs), rest))
  }

  /**
    Decode one field into the receiving field `r`, the way the handler's
    deserialize switch does with the intended `break` after the raw case.
    The switch dispatches on the tag `r` carries before the read. A null `r`
    reads only a tag. Otherwise the tag read replaces `r.dtype` unchecked,
    and unless it is NULL_TAG the payload of `r`'s kind follows.
  */
  function DecodeField(r: Field, s: Bytes): (res: Result<(Field, Bytes)>)
    requires Dispatchable(r)
    ensures res.Ok? ==> res.value.0.name == r.name && res.value.0.value.Kind() == r.value.Kind()
    ensures res.Err? ==> res.error == Truncated
  {
    if r.dtype > LAST_TAG then Ok((r, s))
    else
      var (t, s1) :- TakeU32(s);
      if r.dtype == NULL_TAG || t == NULL_TAG then Ok((r.(dtype := t), s1))
      else
        var (v, s2) :- DecodePayload(r.value, s1);
        Ok((r.(dtype := t, value := v), s2))
  }

  /** Decode the fields in order; there are no names or field numbers on the wire. */
  function DecodeFields(rs: seq<Field>, s: Bytes): (res: Result<(seq<Field>, Bytes)>)
    requires forall i :: 0 <= i < |rs| ==> Dispatchable(rs[i])
    ensures res.Ok? ==> |res.value.0| == |rs|
    ensures res.Err? ==> res.error == Truncated
  {
    if rs == [] then Ok(([], s))
    else
      var (f, s1) :- DecodeField(rs[0], s);
      var (fs, s2) :- DecodeFields(rs[1..], s1);
      Ok(([f] + fs, s2))
  }

  /** Check magic, then version, then prototype id; return what follows. */
  function DecodeHeader(id: Bytes, s: Bytes): Result<Bytes>
  {
    var (magic, s1) :- TakeU32(s);
    if magic != MAGIC then Err(BadMagic(magic))
    else
      var (version, s2) :- TakeU32(s1);
      if version != VERSION then Err(VersionMismatch(version))
      else
        var (got, s3) :- TakeBytes(s2, PROTO_ID_LEN);
        if got != id then Err(PrototypeMismatch(got, id))
        else Ok(s3)
  }

  /** Decode a whole message into the receiving fields `rs`. Trailing bytes are returned, not rejected. */
  function DecodeMessage(id: Bytes, rs: seq<Field>, s: Bytes): Result<(seq<Field>, Bytes)>
    requires forall i :: 0 <= i < |rs| ==> Dispatchable(rs[i])
  {
    var s1 :- DecodeHeader(id, s);
    DecodeFields(rs, s1)
  }
}
