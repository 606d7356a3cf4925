/**
  The string helpers of the common utilities: strip, replace-all, join,
  split, repeat and the text of a boolean. A std::string is a sequence of
  characters; the library search std::string::find is the function Find.
*/
module WcommonText {
  datatype Option<T> = None | Some(value: T)

  /** std::isspace in the "C" locale: the space, and tab through carriage return. */
  predicate IsSpace(c: char)
  {
    c == ' ' || '\t' <= c <= '\r'
  }

  predicate AllSpace(s: string)
  {
    forall i :: 0 <= i < |s| ==> IsSpace(s[i])
  }

  // ---------------------------------------------------------------------
  // string_strip

  /** The first position at or after `i` that does not hold whitespace (or the end). */
  function SkipSpace(s: string, i: nat): nat
    decreases |s| - i
  {
    if i < |s| && IsSpace(s[i]) then SkipSpace(s, i + 1) else i
  }

  /** The end of `s[lo..hi]` once its trailing whitespace is dropped. */
  function DropSpace(s: string, lo: nat, hi: nat): nat
    requires lo <= hi <= |s|
  {
    if hi > lo && IsSpace(s[hi - 1]) then DropSpace(s, lo, hi - 1) else hi
  }

  lemma {:induction false} SkipSpaceFacts(s: string, i: nat)
    requires i <= |s|
    ensures var f := SkipSpace(s, i);
      i <= f <= |s| && (forall k :: i <= k < f ==> IsSpace(s[k])) && (f == |s| || !IsSpace(s[f]))
    decreases |s| - i
  {
    if i < |s| && IsSpace(s[i]) {
      SkipSpaceFacts(s, i + 1);
    }
  }

  lemma {:induction false} DropSpaceFacts(s: string, lo: nat, hi: nat)
    requires lo <= hi <= |s|
    ensures var e := DropSpace(s, lo, hi);
      lo <= e <= hi && (forall k :: e <= k < hi ==> IsSpace(s[k])) && (e == lo || !IsSpace(s[e - 1]))
  {
    if hi > lo && IsSpace(s[hi - 1]) {
      DropSpaceFacts(s, lo, hi - 1);
    }
  }

  /** What string_strip returns: `s` without its leading and trailing whitespace. */
  function Stripped(s: string): string
  {
    SkipSpaceFacts(s, 0);
    var start := SkipSpace(s, 0);
    DropSpaceFacts(s, start, |s|);
    s[start..DropSpace(s, start, |s|)]
  }

  /** string_strip: advance the start past whitespace, then pull the end back past whitespace. */
  method Strip(str: string) returns (r: string)
    ensures r == Stripped(str)
  {
    var start, end := 0, |str|;
    while start < end && IsSpace(str[start])
      invariant start <= end == |str|
      invariant SkipSpace(str, start) == SkipSpace(str, 0)
    {
      start := start + 1;
    }
    while end > start && IsSpace(str[end - 1])
      invariant start <= end <= |str|
      invariant DropSpace(str, start, end) == DropSpace(str, start, |str|)
    {
      end := end - 1;
    }
    r := str[start..end];
  }

  /**
    The stripped string has no whitespace at either end, and it is the part
    of `s` between a run of leading and a run of trailing whitespace.
  */
  lemma StrippedCore(s: string)
    ensures var r := Stripped(s);
      (r == [] || (!IsSpace(r[0]) && !IsSpace(r[|r| - 1])))
      && exists i :: 0 <= i <= |s| - |r| && s[i..i + |r|] == r && AllSpace(s[..i]) && AllSpace(s[i + |r|..])
  {
    SkipSpaceFacts(s, 0);
    var start := SkipSpace(s, 0);
    DropSpaceFacts(s, start, |s|);
    var end := DropSpace(s, start, |s|);
    var r := s[start..end];
    if start < end {
      assert r[0] == s[start] && r[|r| - 1] == s[end - 1];
    }
    assert s[start..start + |r|] == r;
    assert AllSpace(s[..start]) by {
      forall k | 0 <= k < start ensures IsSpace(s[..start][k]) {
        assert s[..start][k] == s[k];
      }
    }
    assert AllSpace(s[end..]) by {
      forall k | 0 <= k < |s| - end ensures IsSpace(s[end..][k]) {
        assert s[end..][k] == s[end + k];
      }
    }
  }

  /** Stripping twice strips nothing more. */
  lemma StripIdempotent(s: string)
    ensures Stripped(Stripped(s)) == Stripped(s)
  {
    var r := Stripped(s);
    StrippedCore(s);
    assert SkipSpace(r, 0) == 0;
    assert DropSpace(r, 0, |r|) == |r|;
    assert r[0..|r|] == r;
  }

  /** Only an all-whitespace string strips to nothing. */
  lemma StrippedEmpty(s: string)
    ensures Stripped(s) == [] <==> AllSpace(s)
  {
    SkipSpaceFacts(s, 0);
    var start := SkipSpace(s, 0);
    DropSpaceFacts(s, start, |s|);
    if start < |s| {
      assert !AllSpace(s) by {
        assert !IsSpace(s[start]);
      }
      assert DropSpace(s, start, |s|) > start;
    }
  }

  // ---------------------------------------------------------------------
  // Searching

  predicate OccursAt(s: string, pat: string, p: nat)
  {
    p + |pat| <= |s| && s[p..p + |pat|] == pat
  }

  /** std::string::find(pat, from): the first position at or after `from` where `pat` occurs. */
  function Find(s: string, pat: string, from: nat): Option<nat>
    decreases |s| - from
  {
    if from + |pat| > |s| then None
    else if s[from..from + |pat|] == pat then Some(from)
    else Find(s, pat, from + 1)
  }

  /** Find gives an occurrence at or after `from` with none between, or there is none at all. */
  lemma {:induction false} FindFacts(s: string, pat: string, from: nat)
    ensures var r := Find(s, pat, from);
      (r.Some? ==> from <= r.value && OccursAt(s, pat, r.value))
      && forall q :: from <= q && (r.None? || q < r.value) ==> !OccursAt(s, pat, q)
    decreases |s| - from
  {
    if from + |pat| <= |s| && s[from..from + |pat|] != pat {
      FindFacts(s, pat, from + 1);
    }
  }

  /** Where `pat` does not occur at `from`, the search goes on at the next position. */
  lemma FindSkip(s: string, pat: string, from: nat)
    requires from < |s| && !OccursAt(s, pat, from)
    ensures Find(s, pat, from) == Find(s, pat, from + 1)
  {
  }

  /** An occurrence with none before it, from `from` on, is what the search finds. */
  lemma {:induction false} FindFirst(s: string, pat: string, from: nat, p: nat)
    requires from <= p && OccursAt(s, pat, p)
    requires forall q :: from <= q < p ==> !OccursAt(s, pat, q)
    ensures Find(s, pat, from) == Some(p)
    decreases p - from
  {
    if from < p {
      FindSkip(s, pat, from);
      FindFirst(s, pat, from + 1, p);
    }
  }

  /** The occurrences of a non-empty `pat` from position `i` on, counted left to right without overlap. */
  function OccurrencesFrom(s: string, pat: string, i: nat): nat
    requires pat != []
    decreases |s| - i
  {
    if OccursAt(s, pat, i) then 1 + OccurrencesFrom(s, pat, i + |pat|)
    else if i >= |s| then 0
    else OccurrencesFrom(s, pat, i + 1)
  }

  function Occurrences(s: string, pat: string): nat
    requires pat != []
  {
    OccurrencesFrom(s, pat, 0)
  }

  // ---------------------------------------------------------------------
  // string_replace_all

  /**
    From position `i` on: every occurrence of a non-empty `search`, taken
    left to right without overlap, replaced by `rep`, and the text between
    occurrences kept verbatim.
  */
  function ReplacedFrom(s: string, search: string, rep: string, i: nat): string
    requires search != []
    decreases |s| - i
  {
    if OccursAt(s, search, i) then rep + ReplacedFrom(s, search, rep, i + |search|)
    else if i >= |s| then []
    else [s[i]] + ReplacedFrom(s, search, rep, i + 1)
  }

  function Replaced(s: string, search: string, rep: string): string
    requires search != []
  {
    ReplacedFrom(s, search, rep, 0)
  }

  /** Between `from` and the next occurrence `p`, the reference replacement copies the text verbatim. */
  lemma {:induction false} ReplacedGap(s: string, search: string, rep: string, from: nat, p: nat)
    requires search != [] && from <= p <= |s|
    requires forall q :: from <= q < p ==> !OccursAt(s, search, q)
    ensures ReplacedFrom(s, search, rep, from) == s[from..p] + ReplacedFrom(s, search, rep, p)
    decreases p - from
  {
    if from < p {
      ReplacedGap(s, search, rep, from + 1, p);
      assert s[from..p] == [s[from]] + s[from + 1..p];
    }
  }

  /** The next occurrence the search finds is replaced; the text before it is copied. */
  lemma ReplacedNext(s: string, search: string, rep: string, from: nat)
    requires search != [] && from <= |s| && Find(s, search, from).Some?
    ensures var p := Find(s, search, from).value;
      from <= p && p + |search| <= |s|
      && ReplacedFrom(s, search, rep, from) == s[from..p] + rep + ReplacedFrom(s, search, rep, p + |search|)
  {
    var p := Find(s, search, from).value;
    FindFacts(s, search, from);
    ReplacedGap(s, search, rep, from, p);
  }

  /** Where the search finds nothing more, the rest is copied. */
  lemma ReplacedRest(s: string, search: string, rep: string, from: nat)
    requires search != [] && from <= |s| && Find(s, search, from).None?
    ensures ReplacedFrom(s, search, rep, from) == s[from..]
  {
    FindFacts(s, search, from);
    ReplacedGap(s, search, rep, from, |s|);
  }

  /** The replacement loop's invariant survives one more occurrence. */
  lemma ReplaceLoopStep(s: string, search: string, rep: string, builder: string, from: nat)
    requires search != [] && from <= |s| && Find(s, search, from).Some?
    requires builder + ReplacedFrom(s, search, rep, from) == Replaced(s, search, rep)
    ensures var p := Find(s, search, from).value;
      from <= p && p + |search| <= |s|
      && (builder + s[from..p] + rep) + ReplacedFrom(s, search, rep, p + |search|) == Replaced(s, search, rep)
  {
    ReplacedNext(s, search, rep, from);
  }

  /** string_replace_all, with the string passed by reference returned as the new value. */
  method ReplaceAll(s: string, search: string, rep: string) returns (r: string)
    ensures search == [] ==> r == s
    ensures search != [] ==> r == Replaced(s, search, rep)
  {
    if search == [] {
      return s;
    }
    var builder := "";
    var lastPos := 0;
    var pos := Find(s, search, lastPos);
    while pos.Some?
      invariant lastPos <= |s| && pos == Find(s, search, lastPos)
      invariant builder + ReplacedFrom(s, search, rep, lastPos) == Replaced(s, search, rep)
      decreases |s| - lastPos
    {
      var p := pos.value;
      ReplaceLoopStep(s, search, rep, builder, lastPos);
      builder := builder + s[lastPos..p] + rep;
      lastPos := p + |search|;
      pos := Find(s, search, lastPos);
    }
    ReplacedRest(s, search, rep, lastPos);
    r := builder + s[lastPos..];
  }

  lemma {:induction false} ReplacedFromAbsent(s: string, search: string, rep: string, i: nat)
    requires search != [] && i <= |s| && forall p :: !OccursAt(s, search, p)
    ensures ReplacedFrom(s, search, rep, i) == s[i..]
    decreases |s| - i
  {
    if i < |s| {
      ReplacedFromAbsent(s, search, rep, i + 1);
      assert s[i..] == [s[i]] + s[i + 1..];
    }
  }

  /** Where `search` does not occur, nothing is replaced. */
  lemma ReplacedAbsent(s: string, search: string, rep: string)
    requires search != [] && forall p :: !OccursAt(s, search, p)
    ensures Replaced(s, search, rep) == s
  {
    ReplacedFromAbsent(s, search, rep, 0);
  }

  lemma {:induction false} ReplacedFromSelf(s: string, search: string, i: nat)
    requires search != [] && i <= |s|
    ensures ReplacedFrom(s, search, search, i) == s[i..]
    decreases |s| - i
  {
    if OccursAt(s, search, i) {
      ReplacedFromSelf(s, search, i + |search|);
      assert s[i..] == s[i..i + |search|] + s[i + |search|..];
    } else if i < |s| {
      ReplacedFromSelf(s, search, i + 1);
      assert s[i..] == [s[i]] + s[i + 1..];
    }
  }

  /** Replacing a string by itself changes nothing. */
  lemma ReplacedSelf(s: string, search: string)
    requires search != []
    ensures Replaced(s, search, search) == s
  {
    ReplacedFromSelf(s, search, 0);
  }

  lemma {:induction false} ReplacedFromLength(s: string, search: string, rep: string, i: nat)
    requires search != [] && i <= |s|
    ensures |ReplacedFrom(s, search, rep, i)| == |s| - i + OccurrencesFrom(s, search, i) * (|rep| - |search|)
    decreases |s| - i
  {
    if OccursAt(s, search, i) {
      ReplacedFromLength(s, search, rep, i + |search|);
      Distribute(OccurrencesFrom(s, search, i + |search|), |rep| - |search|);
    } else if i < |s| {
      ReplacedFromLength(s, search, rep, i + 1);
    }
  }

  lemma Distribute(k: int, d: int)
    ensures (1 + k) * d == d + k * d
  {
  }

  /** Each replacement changes the length by the difference of the two strings. */
  lemma ReplacedLength(s: string, search: string, rep: string)
    requires search != []
    ensures |Replaced(s, search, rep)| == |s| + Occurrences(s, search) * (|rep| - |search|)
  {
    ReplacedFromLength(s, search, rep, 0);
  }

  // ---------------------------------------------------------------------
  // string_join

  /** The values with the separator between each two neighbours. */
  function Joined(values: seq<string>, sep: string): string
  {
    if |values| == 0 then []
    else if |values| == 1 then values[0]
    else values[0] + sep + Joined(values[1..], sep)
  }

  lemma {:induction false} JoinedSnoc(vs: seq<string>, v: string, sep: string)
    requires vs != []
    ensures Joined(vs + [v], sep) == Joined(vs, sep) + sep + v
    decreases |vs|
  {
    if |vs| > 1 {
      assert (vs + [v])[1..] == vs[1..] + [v];
      JoinedSnoc(vs[1..], v, sep);
    } else {
      assert (vs + [v])[1..] == [v];
    }
  }

  /** string_join: the values written one after the other, the separator before each but the first. */
  method Join(values: seq<string>, separator: string) returns (r: string)
    ensures r == Joined(values, separator)
  {
    r := "";
    var i := 0;
    while i < |values|
      invariant i <= |values| && r == Joined(values[..i], separator)
    {
      assert values[..i + 1] == values[..i] + [values[i]];
      if i > 0 {
        r := r + separator;
        JoinedSnoc(values[..i], values[i], separator);
      }
      r := r + values[i];
      i := i + 1;
    }
    assert values[..i] == values;
  }

  // ---------------------------------------------------------------------
  // string_split

  /**
    The parts of `s` from position `i` on between the occurrences of a
    non-empty delimiter, scanning from the left: a delimiter ends the
    current part (empty or not); any other character extends it.
  */
  function PiecesFrom(s: string, d: string, i: nat): (parts: seq<string>)
    requires d != []
    ensures |parts| > 0
    decreases |s| - i
  {
    if OccursAt(s, d, i) then [[]] + PiecesFrom(s, d, i + |d|)
    else if i >= |s| then [[]]
    else
      var ps := PiecesFrom(s, d, i + 1);
      [[s[i]] + ps[0]] + ps[1..]
  }

  function Pieces(s: string, d: string): (parts: seq<string>)
    requires d != []
  {
    PiecesFrom(s, d, 0)
  }

  /** Before the next occurrence `p`, every character extends the first part. */
  lemma {:induction false} PiecesGap(s: string, d: string, from: nat, p: nat)
    requires d != [] && from <= p <= |s|
    requires forall q :: from <= q < p ==> !OccursAt(s, d, q)
    ensures var ps := PiecesFrom(s, d, p);
      PiecesFrom(s, d, from) == [s[from..p] + ps[0]] + ps[1..]
    decreases p - from
  {
    var ps := PiecesFrom(s, d, p);
    if from < p {
      PiecesGap(s, d, from + 1, p);
      var ps1 := PiecesFrom(s, d, from + 1);
      assert ps1[0] == s[from + 1..p] + ps[0] && ps1[1..] == ps[1..];
      assert s[from..p] + ps[0] == [s[from]] + ps1[0] by {
        assert s[from..p] == [s[from]] + s[from + 1..p];
      }
    } else {
      assert s[from..p] + ps[0] == ps[0] && [ps[0]] + ps[1..] == ps;
    }
  }

  /** The next occurrence the search finds ends the current part. */
  lemma PiecesNext(s: string, d: string, from: nat)
    requires d != [] && from <= |s| && Find(s, d, from).Some?
    ensures var p := Find(s, d, from).value;
      from <= p && p + |d| <= |s| && PiecesFrom(s, d, from) == [s[from..p]] + PiecesFrom(s, d, p + |d|)
  {
    var p := Find(s, d, from).value;
    FindFacts(s, d, from);
    PiecesGap(s, d, from, p);
    assert s[from..p] + [] == s[from..p];
  }

  /** Where the search finds nothing more, the rest is the last part. */
  lemma PiecesRest(s: string, d: string, from: nat)
    requires d != [] && from <= |s| && Find(s, d, from).None?
    ensures PiecesFrom(s, d, from) == [s[from..]]
  {
    FindFacts(s, d, from);
    PiecesGap(s, d, from, |s|);
    assert s[from..|s|] + [] == s[from..];
  }

  /** The split loop's invariant survives one more delimiter. */
  lemma SplitLoopStep(s: string, d: string, parts: seq<string>, from: nat)
    requires d != [] && from <= |s| && Find(s, d, from).Some?
    requires parts + PiecesFrom(s, d, from) == Pieces(s, d)
    ensures var p := Find(s, d, from).value;
      from <= p && p + |d| <= |s| && (parts + [s[from..p]]) + PiecesFrom(s, d, p + |d|) == Pieces(s, d)
  {
    PiecesNext(s, d, from);
  }

  /**
    string_split with a non-empty delimiter. With an empty delimiter the
    source's loop finds the delimiter at the same position forever.
  */
  method Split(str: string, delimiter: string) returns (parts: seq<string>)
    requires delimiter != []
    ensures parts == Pieces(str, delimiter)
  {
    parts := [];
    var start := 0;
    var end := Find(str, delimiter, 0);
    while end.Some?
      invariant start <= |str| && end == Find(str, delimiter, start)
      invariant parts + PiecesFrom(str, delimiter, start) == Pieces(str, delimiter)
      decreases |str| - start
    {
      var e := end.value;
      SplitLoopStep(str, delimiter, parts, start);
      parts := parts + [str[start..e]];
      start := e + |delimiter|;
      end := Find(str, delimiter, start);
    }
    PiecesRest(str, delimiter, start);
    parts := parts + [str[start..]];
  }

  /**
    string_split as written, with an empty delimiter: the search finds the
    delimiter where it starts, so the loop goes on and its next start,
    the position found plus the delimiter's length, is the start again.
  */
  lemma EmptyDelimiterStalls(str: string, delimiter: string, start: nat)
    requires delimiter == [] && start <= |str|
    ensures Find(str, delimiter, start).Some?
    ensures Find(str, delimiter, start).value + |delimiter| == start
  {
    assert str[start..start + |delimiter|] == delimiter;
  }

  lemma JoinedCons(v: string, vs: seq<string>, sep: string)
    requires vs != []
    ensures Joined([v] + vs, sep) == v + sep + Joined(vs, sep)
  {
    assert ([v] + vs)[1..] == vs;
  }

  lemma JoinedExtend(c: char, ps: seq<string>, sep: string)
    requires ps != []
    ensures Joined([[c] + ps[0]] + ps[1..], sep) == [c] + Joined(ps, sep)
  {
    if |ps| > 1 {
      JoinedCons([c] + ps[0], ps[1..], sep);
    }
  }

  lemma {:induction false} JoinPiecesFrom(s: string, d: string, i: nat)
    requires d != [] && i <= |s|
    ensures Joined(PiecesFrom(s, d, i), d) == s[i..]
    decreases |s| - i
  {
    if OccursAt(s, d, i) {
      var rest := PiecesFrom(s, d, i + |d|);
      JoinedCons([], rest, d);
      JoinPiecesFrom(s, d, i + |d|);
      assert s[i..] == d + s[i + |d|..];
    } else if i < |s| {
      var ps := PiecesFrom(s, d, i + 1);
      JoinedExtend(s[i], ps, d);
      JoinPiecesFrom(s, d, i + 1);
      assert s[i..] == [s[i]] + s[i + 1..];
    }
  }

  /** Joining the parts with the delimiter gives the string back. */
  lemma JoinPieces(s: string, d: string)
    requires d != []
    ensures Joined(Pieces(s, d), d) == s
  {
    JoinPiecesFrom(s, d, 0);
  }

  lemma {:induction false} PiecesFromCount(s: string, d: string, i: nat)
    requires d != []
    ensures |PiecesFrom(s, d, i)| == OccurrencesFrom(s, d, i) + 1
    decreases |s| - i
  {
    if OccursAt(s, d, i) {
      PiecesFromCount(s, d, i + |d|);
    } else if i < |s| {
      PiecesFromCount(s, d, i + 1);
    }
  }

  /** There is one more part than there are occurrences of the delimiter. */
  lemma PiecesCount(s: string, d: string)
    requires d != []
    ensures |Pieces(s, d)| == Occurrences(s, d) + 1
  {
    PiecesFromCount(s, d, 0);
  }

  // ---------------------------------------------------------------------
  // string_repeat

  /** `n` copies of `str`, one after the other. */
  function Repeated(str: string, n: nat): string
  {
    if n == 0 then [] else Repeated(str, n - 1) + str
  }

  /** string_repeat: nothing for `n` = 0, otherwise `str` appended `n` times. */
  method Repeat(str: string, n: nat) returns (r: string)
    ensures r == Repeated(str, n)
  {
    if n == 0 {
      return "";
    }
    r := "";
    var i := 0;
    while i < n
      invariant i <= n && r == Repeated(str, i)
    {
      r := r + str;
      i := i + 1;
    }
  }

  lemma {:induction false} RepeatedLength(str: string, n: nat)
    ensures |Repeated(str, n)| == |str| * n
  {
    if n > 0 {
      RepeatedLength(str, n - 1);
      assert |str| * n == |str| * (n - 1) + |str|;
    }
  }

  /** Repeating is joining `n` copies with an empty separator. */
  lemma {:induction false} RepeatedIsJoin(str: string, n: nat)
    ensures Repeated(str, n) == Joined(seq(n, _ => str), "")
  {
    if n > 1 {
      RepeatedIsJoin(str, n - 1);
      assert seq(n, _ => str) == seq(n - 1, _ => str) + [str];
      JoinedSnoc(seq(n - 1, _ => str), str, "");
    } else if n == 1 {
      assert Repeated(str, 1) == [] + str;
    }
  }

  // ---------------------------------------------------------------------
  // string_from(bool)

  function StringFromBool(value: bool): (r: string)
  {
    if value then "true" else "false"
  }
}
