/**
  string_process_escapes: the escape sequences of a string are decoded in
  place, the decoded text is written over the front of the buffer and the
  string is cut to its new length.

  A character of the string stands for one byte. `\x` followed by two
  characters takes a byte from std::strtol in base 16 when strtol consumes
  exactly those two characters, which it also does for a leading
  whitespace character, `+` or `-` before one hex digit.
*/
module WcommonEscapes {
  import opened WcommonText

  /** The escapes that stand for one character: `\n \r \t \' \" \\`. */
  function SimpleEscape(c: char): Option<char>
  {
    match c
    case 'n' => Some('\n')
    case 'r' => Some('\r')
    case 't' => Some('\t')
    case '\'' => Some('\'')
    case '"' => Some('"')
    case '\\' => Some('\\')
    case _ => None
  }

  /** std::isxdigit, with the digit's value. */
  function HexDigit(c: char): Option<nat>
  {
    if '0' <= c <= '9' then Some(c as nat - '0' as nat)
    else if 'a' <= c <= 'f' then Some(c as nat - 'a' as nat + 10)
    else if 'A' <= c <= 'F' then Some(c as nat - 'A' as nat + 10)
    else None
  }

  /**
    std::strtol in base 16 on the two characters `c1 c2` (then a NUL), when
    it consumes both of them. It skips leading whitespace and takes a sign
    before the digits; a `0x` prefix with no digit after it converts only
    the `0`.
  */
  function HexPair(c1: char, c2: char): Option<int>
  {
    match (HexDigit(c1), HexDigit(c2))
    case (Some(h1), Some(h2)) => Some(16 * h1 + h2)
    case (None, Some(h2)) =>
      if IsSpace(c1) || c1 == '+' then Some(h2)
      else if c1 == '-' then Some(-(h2 as int))
      else None
    case _ => None
  }

  /** char(val): the low byte of the value, as a character. */
  function ByteChar(v: int): char
  {
    (v % 256) as char
  }

  /**
    The escape (or plain character) at the front of `r`: the text it
    decodes to, and how many characters of `r` it takes.
  */
  function Token(r: string): (t: (string, nat))
    requires r != []
    ensures 1 <= t.1 <= |r| && |t.0| <= t.1
  {
    if r[0] == '\\' && 1 < |r| then
      match SimpleEscape(r[1])
      case Some(c) => ([c], 2)
      case None =>
        if r[1] == 'x' && 3 < |r| && HexPair(r[2], r[3]).Some? then
          ([ByteChar(HexPair(r[2], r[3]).value)], 4)
        else (['\\', r[1]], 2)
    else ([r[0]], 1)
  }

  /** The decoding of `s`, token by token from the left. */
  function Unescape(s: string): string
    decreases |s|
  {
    if s == [] then [] else Token(s).0 + Unescape(s[Token(s).1..])
  }

  /**
    The body of the decoding loop: the escape or character at `i` is
    decoded and written at `out`, which never passes `i`.
  */
  method DecodeAt(input: array<char>, i: nat, out: nat) returns (next: nat, written: nat)
    requires out <= i < input.Length
    modifies input
    ensures next == i + Token(old(input[i..])).1
    ensures written == out + |Token(old(input[i..])).0| && written <= next
    ensures input[..written] == old(input[..out]) + Token(old(input[i..])).0
    ensures input[next..] == old(input[next..])
  {
    ghost var r := input[i..];
    var n := input.Length;
    assert r[0] == input[i];
    if input[i] == '\\' && i + 1 < n {
      var j := i + 1;
      assert r[1] == input[j];
      var simple := SimpleEscape(input[j]);
      var val: Option<int> := None;
      if simple.None? && input[j] == 'x' && j + 2 < n {
        assert r[2] == input[j + 1] && r[3] == input[j + 2];
        val := HexPair(input[j + 1], input[j + 2]);
      }
      if simple.Some? {
        input[out] := simple.value;
        next, written := j + 1, out + 1;
      } else if val.Some? {
        input[out] := ByteChar(val.value);
        next, written := j + 3, out + 1;
      } else {
        input[out] := '\\';
        input[out + 1] := input[j];
        next, written := j + 1, out + 2;
      }
    } else {
      input[out] := input[i];
      next, written := i + 1, out + 1;
    }
  }

  /** The decoding loop's invariant survives one more token. */
  lemma DecodeLoopStep(s: string, before: string, i: nat, done: string)
    requires i < |s| == |before| && before[i..] == s[i..]
    requires done + Unescape(s[i..]) == Unescape(s)
    ensures var t := Token(before[i..]);
      i + t.1 <= |s| && before[i + t.1..] == s[i + t.1..]
      && (done + t.0) + Unescape(s[i + t.1..]) == Unescape(s)
  {
    var t := Token(s[i..]);
    assert Token(before[i..]) == t;
    DropMore(before, s, i, t.1);
    assert Unescape(s[i..]) == t.0 + Unescape(s[i + t.1..]) by {
      assert s[i..][t.1..] == s[i + t.1..];
    }
  }

  /** Two strings that agree from `i` on agree from any later position. */
  lemma DropMore(a: string, b: string, i: nat, w: nat)
    requires i + w <= |a| == |b| && a[i..] == b[i..]
    ensures a[i + w..] == b[i + w..]
  {
    assert a[i + w..] == a[i..][w..];
    assert b[i + w..] == b[i..][w..];
  }

  /**
    string_process_escapes. The characters of the string are the array; the
    returned length is where the string is cut.
  */
  method ProcessEscapes(input: array<char>) returns (len: nat)
    modifies input
    ensures len <= input.Length
    ensures input[..len] == Unescape(old(input[..]))
  {
    ghost var s := input[..];
    var n := input.Length;
    var out: nat := 0;
    var i: nat := 0;
    assert s[0..] == s;
    while i < n
      invariant out <= i <= n
      invariant input[i..] == s[i..]
      invariant input[..out] + Unescape(s[i..]) == Unescape(s)
      decreases n - i
    {
      ghost var before := input[..];
      assert before[i..] == input[i..];
      DecodeLoopStep(s, before, i, input[..out]);
      i, out := DecodeAt(input, i, out);
      assert input[i..] == before[i..] == s[i..];
    }
    len := out;
  }

  // ---------------------------------------------------------------------
  // Properties

  /** Decoding never makes the string longer. */
  lemma {:induction false} UnescapeShorter(s: string)
    ensures |Unescape(s)| <= |s|
    decreases |s|
  {
    if s != [] {
      UnescapeShorter(s[Token(s).1..]);
    }
  }

  /** A string without a backslash is left as it is. */
  lemma {:induction false} UnescapePlain(s: string)
    requires forall k :: 0 <= k < |s| ==> s[k] != '\\'
    ensures Unescape(s) == s
    decreases |s|
  {
    if s != [] {
      assert Token(s) == ([s[0]], 1);
      UnescapePlain(s[1..]);
      assert s == [s[0]] + s[1..];
    }
  }

  /** The first token and the decoding of what follows it. */
  lemma UnescapeFront(front: string, rest: string)
    requires front != [] && Token(front + rest).1 == |front|
    ensures Unescape(front + rest) == Token(front + rest).0 + Unescape(rest)
  {
    assert (front + rest)[|front|..] == rest;
  }

  /** A plain character is copied. */
  lemma UnescapeChar(c: char, rest: string)
    requires c != '\\'
    ensures Unescape([c] + rest) == [c] + Unescape(rest)
  {
    assert ([c] + rest)[0] == c;
    UnescapeFront([c], rest);
  }

  /** `\n \r \t \' \" \\` each become one character. */
  lemma UnescapeSimple(c: char, rest: string)
    requires SimpleEscape(c).Some?
    ensures Unescape(['\\', c] + rest) == [SimpleEscape(c).value] + Unescape(rest)
  {
    var s := ['\\', c] + rest;
    assert s[0] == '\\' && s[1] == c;
    UnescapeFront(['\\', c], rest);
  }

  /** `\x` and two characters strtol reads as a number become the byte of that number. */
  lemma UnescapeHex(c1: char, c2: char, rest: string)
    requires HexPair(c1, c2).Some?
    ensures Unescape(['\\', 'x', c1, c2] + rest) == [ByteChar(HexPair(c1, c2).value)] + Unescape(rest)
  {
    var s := ['\\', 'x', c1, c2] + rest;
    assert s[0] == '\\' && s[1] == 'x' && s[2] == c1 && s[3] == c2;
    UnescapeFront(['\\', 'x', c1, c2], rest);
  }

  /** Two hex digits give the byte they spell. */
  lemma HexPairDigits(c1: char, c2: char)
    requires HexDigit(c1).Some? && HexDigit(c2).Some?
    ensures HexPair(c1, c2) == Some(16 * HexDigit(c1).value + HexDigit(c2).value)
    ensures ByteChar(HexPair(c1, c2).value) as int == 16 * HexDigit(c1).value + HexDigit(c2).value
  {
  }

  /**
    `\x` followed by fewer than two characters, or by two that strtol does
    not read to the end, is kept as the two characters `\x`.
  */
  lemma UnescapeBadHex(rest: string)
    requires |rest| < 2 || HexPair(rest[0], rest[1]).None?
    ensures Unescape(['\\', 'x'] + rest) == ['\\', 'x'] + Unescape(rest)
  {
    BadHexToken(rest);
    UnescapeFront(['\\', 'x'], rest);
  }

  lemma BadHexToken(rest: string)
    requires |rest| < 2 || HexPair(rest[0], rest[1]).None?
    ensures Token(['\\', 'x'] + rest) == (['\\', 'x'], 2)
  {
    var s := ['\\', 'x'] + rest;
    assert s[0] == '\\' && s[1] == 'x';
    if |rest| >= 2 {
      assert s[2] == rest[0] && s[3] == rest[1];
    }
    KeptEscape(s);
  }

  /** A backslash before a character that starts no escape is kept with it. */
  lemma KeptEscape(s: string)
    requires |s| >= 2 && s[0] == '\\' && SimpleEscape(s[1]).None?
    requires s[1] == 'x' && |s| >= 4 ==> HexPair(s[2], s[3]).None?
    ensures Token(s) == (['\\', s[1]], 2)
  {
  }

  /** An unknown escape keeps the backslash and the character. */
  lemma UnescapeUnknown(c: char, rest: string)
    requires SimpleEscape(c).None? && c != 'x'
    ensures Unescape(['\\', c] + rest) == ['\\', c] + Unescape(rest)
  {
    var s := ['\\', c] + rest;
    assert s[0] == '\\' && s[1] == c;
    UnescapeFront(['\\', c], rest);
  }

  /** The strtol quirks: a sign or a space before one hex digit is accepted, `0x` is not. */
  lemma HexPairQuirks()
    ensures HexPair('-', '1') == Some(-1) && ByteChar(-1) == 255 as char
    ensures HexPair(' ', 'f') == Some(15) && HexPair('+', 'A') == Some(10)
    ensures HexPair('0', 'x') == None && HexPair('x', '1') == None
  {
  }

  /** The token that ends on a final backslash decodes to a backslash. */
  lemma LastToken(s: string)
    requires s != [] && Token(s).1 == |s| && s[|s| - 1] == '\\'
    ensures Token(s).0 == ['\\']
  {
    if s[0] == '\\' && 1 < |s| {
      assert SimpleEscape(s[1]) == Some('\\');
    }
  }

  predicate EndsInBackslash(u: string)
  {
    u != [] && u[|u| - 1] == '\\'
  }

  lemma EndsInBackslashJoin(x: string, y: string)
    requires EndsInBackslash(y)
    ensures EndsInBackslash(x + y)
  {
    assert (x + y)[|x + y| - 1] == y[|y| - 1];
  }

  /**
    A backslash at the end of the string survives: it is copied when it
    stands alone, and decoded to a backslash when it ends `\\`.
  */
  lemma {:induction false} UnescapeTrailing(s: string)
    requires s != [] && s[|s| - 1] == '\\'
    ensures EndsInBackslash(Unescape(s))
    decreases |s|
  {
    var t := Token(s);
    var rest := s[t.1..];
    if rest != [] {
      assert rest[|rest| - 1] == s[|s| - 1];
      UnescapeTrailing(rest);
      EndsInBackslashJoin(t.0, Unescape(rest));
    } else {
      LastToken(s);
      assert Unescape(rest) == [];
      assert t.0 + Unescape(rest) == ['\\'];
    }
  }
}
