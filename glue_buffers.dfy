/**
  The writer and the reader the glue handler works through: a growable
  byte vector that numbers and strings are appended to, and a cursor over a
  received buffer that numbers and strings are read from in order.
*/
module GlueBuffers {
  import opened GlueWire

  /** The growable output vector (glue_outbuf). */
  class OutBuf {
    var data: Bytes

    constructor()
      ensures data == []
    {
      data := [];
    }

    /** Append bytes verbatim; models both `append` and `append_str`. */
    method Append(val: Bytes)
      modifies this
      ensures data == old(data) + val
    {
      data := data + val;
    }

    method AppendU32(x: U32)
      modifies this
      ensures data == old(data) + U32Bytes(x)
    {
      Append(U32Bytes(x));
    }

    /** An int32_t goes out as its two's-complement bit pattern. */
    method AppendI32(i: I32)
      modifies this
      ensures data == old(data) + U32Bytes(I32Bits(i))
    {
      Append(U32Bytes(I32Bits(i)));
    }

    /** A float goes out as its 32-bit pattern. */
    method AppendF32(f: U32)
      modifies this
      ensures data == old(data) + U32Bytes(f)
    {
      Append(U32Bytes(f));
    }

    method Clear()
      modifies this
      ensures data == []
    {
      data := [];
    }
  }

  /**
    What a reader call did, measured against the pure reader `spec` run on
    the bytes that remained before the call: on success the same value and
    `rem` is what the pure reader leaves, on failure the same error.
  */
  predicate Follows<T(==)>(r: Result<T>, spec: Result<(T, Bytes)>, rem: Bytes)
  {
    match spec
    case Ok((v, rest)) => r == Ok(v) && rem == rest
    case Err(e) => r == Err(e)
  }

  /** The input cursor (glue_inbuf): a received buffer and a read position in it. */
  class InBuf {
    const base: Bytes
    var cur: nat

    predicate Valid()
      reads this
    {
      cur <= |base|
    }

    /** The bytes not read yet. */
    function Remaining(): (rem: Bytes)
      reads this
      requires Valid()
      ensures |rem| == |base| - cur
    {
      base[cur..]
    }

    constructor(data: Bytes)
      ensures Valid() && base == data && cur == 0 && Remaining() == data
    {
      base := data;
      cur := 0;
    }

    lemma Window(n: nat)
      requires Valid() && cur + n <= |base|
      ensures Remaining()[..n] == base[cur..cur + n]
      ensures Remaining()[n..] == base[cur + n..]
    {
    }

    method ReadU32() returns (r: Result<U32>)
      requires Valid()
      modifies this
      ensures Valid()
      ensures Follows(r, TakeU32(old(Remaining())), Remaining())
    {
      if |base| - cur < 4 {
        return Err(Truncated);
      }
      Window(4);
      r := Ok(U32Of(base[cur..cur + 4]));
      cur := cur + 4;
    }

    /** The four bytes reinterpreted as an int32_t. */
    method ReadI32() returns (r: Result<I32>)
      requires Valid()
      modifies this
      ensures Valid()
      ensures match TakeU32(old(Remaining()))
        case Ok((w, rest)) => r == Ok(I32Of(w)) && Remaining() == rest
        case Err(e) => r == Err(e)
    {
      var w := ReadU32();
      if w.Err? {
        return Err(w.error);
      }
      r := Ok(I32Of(w.value));
    }

    /** The four bytes as a float's bit pattern. */
    method ReadF32() returns (r: Result<U32>)
      requires Valid()
      modifies this
      ensures Valid()
      ensures Follows(r, TakeU32(old(Remaining())), Remaining())
    {
      r := ReadU32();
    }

    /** `size` bytes; models both `read_str` and `read_raw`. */
    method ReadBytes(size: U32) returns (r: Result<Bytes>)
      requires Valid()
      modifies this
      ensures Valid()
      ensures Follows(r, TakeBytes(old(Remaining()), size), Remaining())
    {
      if |base| - cur < size {
        return Err(Truncated);
      }
      Window(size);
      r := Ok(base[cur..cur + size]);
      cur := cur + size;
    }

    /** A length-prefixed string or byte vector: the array element readers. */
    method ReadBlob() returns (r: Result<Bytes>)
      requires Valid()
      modifies this
      ensures Valid()
      ensures Follows(r, TakeBlob(old(Remaining())), Remaining())
    {
      var size := ReadU32();
      if size.Err? {
        return Err(size.error);
      }
      r := ReadBytes(size.value);
    }
  }
}
