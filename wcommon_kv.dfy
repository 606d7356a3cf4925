/**
  string_parse_kv_override: a model metadata override given on the command
  line as `KEY=TYPE:VALUE`, with TYPE one of int, float, bool and str. A
  parsed override is appended to the list; a malformed one appends nothing.
*/
module WcommonKv {
  import opened WcommonText

  /** The key buffer holds 128 bytes with the NUL, so a key has at most 127 characters. */
  const KEY_SIZE: nat := 128
  /** The longest string value, 127 characters. */
  const MAX_STR: nat := 127

  /** The tagged value of an override. A float keeps the text that std::atof reads. */
  datatype KvValue = IntKv(i: int) | FloatKv(text: string) | BoolKv(b: bool) | StrKv(s: string)

  datatype KvOverride = KvOverride(key: string, value: KvValue)

  /** The characters of a C string, before its terminating NUL. */
  predicate CString(s: string)
  {
    forall k :: 0 <= k < |s| ==> s[k] != '\0'
  }

  predicate HasPrefix(s: string, p: string)
  {
    |p| <= |s| && s[..|p|] == p
  }

  predicate IsDigit(c: char)
  {
    '0' <= c <= '9'
  }

  function DigitValue(c: char): nat
    requires IsDigit(c)
  {
    c as nat - '0' as nat
  }

  /** The run of decimal digits at the front of `s`. */
  function LeadingDigits(s: string): (d: string)
    ensures |d| <= |s| && d == s[..|d|]
    ensures forall k :: 0 <= k < |d| ==> IsDigit(d[k])
    ensures |d| == |s| || !IsDigit(s[|d|])
  {
    if s != [] && IsDigit(s[0]) then [s[0]] + LeadingDigits(s[1..]) else []
  }

  /** The number a string of decimal digits spells, most significant digit first. */
  function DecimalValue(d: string): nat
    requires forall k :: 0 <= k < |d| ==> IsDigit(d[k])
  {
    if d == [] then 0 else 10 * DecimalValue(d[..|d| - 1]) + DigitValue(d[|d| - 1])
  }

  /**
    std::atol: leading whitespace is skipped, then an optional sign, then the
    decimal digits that follow; no digit gives 0.
  */
  function Atol(s: string): int
  {
    SkipSpaceFacts(s, 0);
    var t := s[SkipSpace(s, 0)..];
    if t != [] && (t[0] == '+' || t[0] == '-') then
      var v: int := DecimalValue(LeadingDigits(t[1..]));
      if t[0] == '-' then -v else v
    else DecimalValue(LeadingDigits(t))
  }

  /** The `TYPE:VALUE` part after the `=`. */
  function ParseTypedValue(spec: string): Option<KvValue>
  {
    if HasPrefix(spec, "int:") then Some(IntKv(Atol(spec[4..])))
    else if HasPrefix(spec, "float:") then Some(FloatKv(spec[6..]))
    else if HasPrefix(spec, "bool:") then
      if spec[5..] == "true" then Some(BoolKv(true))
      else if spec[5..] == "false" then Some(BoolKv(false))
      else None
    else if HasPrefix(spec, "str:") then
      if |spec[4..]| > MAX_STR then None else Some(StrKv(spec[4..]))
    else None
  }

  /** The override `data` describes: the key is everything before the first `=`. */
  function ParseKv(data: string): Option<KvOverride>
  {
    FindFacts(data, "=", 0);
    match Find(data, "=", 0)
    case None => None
    case Some(sep) =>
      if sep >= KEY_SIZE then None
      else
        match ParseTypedValue(data[sep + 1..])
        case None => None
        case Some(v) => Some(KvOverride(data[..sep], v))
  }

  /**
    string_parse_kv_override, with the vector passed by reference returned
    as the new value: whether `data` parsed, and the overrides after it.
  */
  function ParseKvOverride(data: string, overrides: seq<KvOverride>): (r: (bool, seq<KvOverride>))
    requires CString(data)
    ensures |r.1| == |overrides| + (if r.0 then 1 else 0) && r.1[..|overrides|] == overrides
    ensures r.0 ==> var kv := r.1[|overrides|];
      |kv.key| < KEY_SIZE && HasPrefix(data, kv.key + "=") && '=' !in kv.key
  {
    match ParseKv(data)
    case None => (false, overrides)
    case Some(kv) =>
      FindFacts(data, "=", 0);
      assert data[..|kv.key| + 1] == kv.key + "=" by {
        assert data[|kv.key|..|kv.key| + 1] == "=";
      }
      assert '=' !in kv.key by {
        forall k | 0 <= k < |kv.key| ensures kv.key[k] != '=' {
          assert !OccursAt(data, "=", k);
          assert data[k..k + 1] == [data[k]];
        }
      }
      (true, overrides + [kv])
  }

  /** The command-line text `KEY=SPEC`. */
  function Line(key: string, spec: string): string
  {
    key + "=" + spec
  }

  // ---------------------------------------------------------------------
  // Error cases

  /** Without an `=` nothing is appended. */
  lemma NoSeparator(data: string, overrides: seq<KvOverride>)
    requires CString(data) && '=' !in data
    ensures ParseKvOverride(data, overrides) == (false, overrides)
  {
    forall q | 0 <= q
      ensures !OccursAt(data, "=", q)
    {
      if q + 1 <= |data| {
        assert data[q..q + 1] == [data[q]];
      }
    }
    FindFacts(data, "=", 0);
  }

  /** A key of 128 characters or more is refused. */
  lemma KeyTooLong(key: string, rest: string, overrides: seq<KvOverride>)
    requires CString(Line(key, rest)) && '=' !in key && |key| >= KEY_SIZE
    ensures ParseKvOverride(Line(key, rest), overrides) == (false, overrides)
  {
    AfterKey(key, rest, overrides);
  }

  /** A type other than int, float, bool and str is refused. */
  lemma UnknownType(key: string, spec: string, overrides: seq<KvOverride>)
    requires CString(Line(key, spec)) && '=' !in key
    requires !HasPrefix(spec, "int:") && !HasPrefix(spec, "float:") && !HasPrefix(spec, "bool:") && !HasPrefix(spec, "str:")
    ensures ParseKvOverride(Line(key, spec), overrides) == (false, overrides)
  {
    AfterKey(key, spec, overrides);
  }

  /** A bool other than exactly `true` or `false` is refused. */
  lemma BadBool(key: string, text: string, overrides: seq<KvOverride>)
    requires CString(Line(key, "bool:" + text)) && '=' !in key
    requires text != "true" && text != "false"
    ensures ParseKvOverride(Line(key, "bool:" + text), overrides) == (false, overrides)
  {
    AfterKey(key, "bool:" + text, overrides);
    TypedBool(text);
  }

  /** A string value longer than 127 characters is refused. */
  lemma StrTooLong(key: string, text: string, overrides: seq<KvOverride>)
    requires CString(Line(key, "str:" + text)) && '=' !in key && |text| > MAX_STR
    ensures ParseKvOverride(Line(key, "str:" + text), overrides) == (false, overrides)
  {
    AfterKey(key, "str:" + text, overrides);
    TypedStr(text);
  }

  // ---------------------------------------------------------------------
  // Parsed overrides

  /** The separator is the `=` after a key without one. */
  lemma KeyFound(key: string, rest: string)
    requires '=' !in key
    ensures Find(Line(key, rest), "=", 0) == Some(|key|)
    ensures Line(key, rest)[..|key|] == key && Line(key, rest)[|key| + 1..] == rest
  {
    var data := Line(key, rest);
    assert data[|key|..|key| + 1] == "=";
    forall q | 0 <= q < |key|
      ensures !OccursAt(data, "=", q)
    {
      assert data[q..q + 1] == [key[q]];
    }
    FindFirst(data, "=", 0, |key|);
  }

  /** After a key without an `=`, the rest is the typed value. */
  lemma AfterKey(key: string, spec: string, overrides: seq<KvOverride>)
    requires '=' !in key && CString(Line(key, spec))
    ensures ParseKvOverride(Line(key, spec), overrides)
            == if |key| >= KEY_SIZE then (false, overrides)
               else match ParseTypedValue(spec)
                 case None => (false, overrides)
                 case Some(v) => (true, overrides + [KvOverride(key, v)])
  {
    KeyFound(key, spec);
  }

  /** The value after an `int:` tag is read by std::atol. */
  lemma TypedInt(text: string)
    ensures ParseTypedValue("int:" + text) == Some(IntKv(Atol(text)))
  {
    assert ("int:" + text)[..4] == "int:" && ("int:" + text)[4..] == text;
  }

  /** The value after a `bool:` tag is exactly `true` or `false`. */
  lemma TypedBool(text: string)
    ensures ParseTypedValue("bool:" + text)
            == if text == "true" then Some(BoolKv(true)) else if text == "false" then Some(BoolKv(false)) else None
  {
    var spec := "bool:" + text;
    assert spec[0] == 'b' && spec[..5] == "bool:" && spec[5..] == text;
    assert !HasPrefix(spec, "int:") && !HasPrefix(spec, "float:");
  }

  /** The value after a `str:` tag is kept when it has at most 127 characters. */
  lemma TypedStr(text: string)
    ensures ParseTypedValue("str:" + text) == if |text| > MAX_STR then None else Some(StrKv(text))
  {
    var spec := "str:" + text;
    assert spec[0] == 's' && spec[..4] == "str:" && spec[4..] == text;
    assert !HasPrefix(spec, "int:") && !HasPrefix(spec, "float:") && !HasPrefix(spec, "bool:");
  }

  /** The text of a bool parses back to that bool. */
  lemma BoolRoundTrip(key: string, b: bool, overrides: seq<KvOverride>)
    requires CString(Line(key, "bool:" + StringFromBool(b))) && '=' !in key && |key| < KEY_SIZE
    ensures ParseKvOverride(Line(key, "bool:" + StringFromBool(b)), overrides)
            == (true, overrides + [KvOverride(key, BoolKv(b))])
  {
    AfterKey(key, "bool:" + StringFromBool(b), overrides);
    TypedBool(StringFromBool(b));
  }

  /** A string value of at most 127 characters is kept as it is. */
  lemma StrRoundTrip(key: string, text: string, overrides: seq<KvOverride>)
    requires CString(Line(key, "str:" + text)) && '=' !in key && |key| < KEY_SIZE && |text| <= MAX_STR
    ensures ParseKvOverride(Line(key, "str:" + text), overrides) == (true, overrides + [KvOverride(key, StrKv(text))])
  {
    AfterKey(key, "str:" + text, overrides);
    TypedStr(text);
  }

  /** The decimal text of a natural number. */
  function Decimal(n: nat): (d: string)
    ensures d != [] && forall k :: 0 <= k < |d| ==> IsDigit(d[k])
  {
    var c := ('0' as int + n % 10) as char;
    if n < 10 then [c] else Decimal(n / 10) + [c]
  }

  lemma {:induction false} DecimalValueOf(n: nat)
    ensures DecimalValue(Decimal(n)) == n
  {
    var d := Decimal(n);
    if n >= 10 {
      DecimalValueOf(n / 10);
      assert d[..|d| - 1] == Decimal(n / 10);
    }
  }

  lemma {:induction false} AllDigitsLead(d: string)
    requires forall k :: 0 <= k < |d| ==> IsDigit(d[k])
    ensures LeadingDigits(d) == d
  {
    if d != [] {
      AllDigitsLead(d[1..]);
    }
  }

  /** std::atol reads the decimal text of an integer, with its sign, back to the integer. */
  lemma AtolDecimal(n: int)
    ensures Atol(if n < 0 then "-" + Decimal(-n) else Decimal(n)) == n
  {
    var m: nat := if n < 0 then -n else n;
    var d := Decimal(m);
    DecimalValueOf(m);
    AllDigitsLead(d);
    if n < 0 {
      var t := "-" + d;
      assert SkipSpace(t, 0) == 0 && t[0..] == t;
      assert t[1..] == d;
    } else {
      assert SkipSpace(d, 0) == 0 && d[0..] == d;
    }
  }

  /** An int override of a number's decimal text parses back to that number. */
  lemma IntRoundTrip(key: string, n: int, overrides: seq<KvOverride>)
    requires CString(Line(key, "int:" + (if n < 0 then "-" + Decimal(-n) else Decimal(n))))
    requires '=' !in key && |key| < KEY_SIZE
    ensures ParseKvOverride(Line(key, "int:" + (if n < 0 then "-" + Decimal(-n) else Decimal(n))), overrides)
            == (true, overrides + [KvOverride(key, IntKv(n))])
  {
    var text := if n < 0 then "-" + Decimal(-n) else Decimal(n);
    AfterKey(key, "int:" + text, overrides);
    TypedInt(text);
    AtolDecimal(n);
  }
}
