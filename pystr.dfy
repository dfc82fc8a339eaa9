/**
 * The handful of Python `str` operations the visualizer relies on:
 * `strip()`, `split(None, n)` (whitespace splitting with a split limit),
 * `split(sep)` on one character and `sep.join(parts)`.
 * A Python string is a sequence of code points, so `string` is used throughout.
 */
module PyStr {

  /** The characters for which Python's `str.isspace()` holds; `strip()` and
      `split()` without arguments use exactly these. */
  predicate IsSpace(c: char) {
    || '\t' <= c <= '\r'
    || '\U{1C}' <= c <= ' '
    || c == '\U{85}' || c == '\U{A0}' || c == '\U{1680}'
    || '\U{2000}' <= c <= '\U{200A}'
    || c == '\U{2028}' || c == '\U{2029}' || c == '\U{202F}'
    || c == '\U{205F}' || c == '\U{3000}'
  }

  predicate AllSpace(s: string) {
    forall i :: 0 <= i < |s| ==> IsSpace(s[i])
  }

  predicate NoSpace(s: string) {
    forall i :: 0 <= i < |s| ==> !IsSpace(s[i])
  }

  /** Every character of `s` in `[i, j)` is whitespace. */
  predicate SpaceBetween(s: string, i: int, j: int) {
    forall k :: i <= k < j && 0 <= k < |s| ==> IsSpace(s[k])
  }

  /** No character of `s` in `[i, j)` is whitespace. */
  predicate WordBetween(s: string, i: int, j: int) {
    forall k :: i <= k < j && 0 <= k < |s| ==> !IsSpace(s[k])
  }

  /** The first position at or after `i` that holds no whitespace (or the end). */
  function SkipSpace(s: string, i: nat): (n: nat)
    requires i <= |s|
    ensures i <= n <= |s| && SpaceBetween(s, i, n)
    ensures n == |s| || !IsSpace(s[n])
    decreases |s| - i
  {
    if i < |s| && IsSpace(s[i]) then SkipSpace(s, i + 1) else i
  }

  /** The first position at or after `i` that holds whitespace (or the end). */
  function SkipWord(s: string, i: nat): (n: nat)
    requires i <= |s|
    ensures i <= n <= |s| && WordBetween(s, i, n)
    ensures n == |s| || IsSpace(s[n])
    decreases |s| - i
  {
    if i < |s| && !IsSpace(s[i]) then SkipWord(s, i + 1) else i
  }

  /** The end of `s[..j]` once its trailing whitespace is removed. */
  function TrimEnd(s: string, j: nat): (n: nat)
    requires j <= |s|
    ensures n <= j && SpaceBetween(s, n, j)
    ensures n == 0 || !IsSpace(s[n - 1])
  {
    if j > 0 && IsSpace(s[j - 1]) then TrimEnd(s, j - 1) else j
  }

  /** `s.lstrip()`. */
  function LStrip(s: string): string {
    s[SkipSpace(s, 0)..]
  }

  /** `s.rstrip()`. */
  function RStrip(s: string): string {
    s[..TrimEnd(s, |s|)]
  }

  /** `s.strip()`. */
  function Strip(s: string): string {
    RStrip(LStrip(s))
  }

  /** The first field of `s.split()`, when there is one. */
  function Head(s: string): string {
    var a := SkipSpace(s, 0);
    s[a..SkipWord(s, a)]
  }

  /** What follows the first field of `s.split()`: empty or whitespace first. */
  function Tail(s: string): (r: string)
    ensures SkipSpace(s, 0) < |s| ==> |r| < |s|
  {
    s[SkipWord(s, SkipSpace(s, 0))..]
  }

  /** `s.split(None, maxsplit)`: leading whitespace is skipped, fields are
      separated by runs of whitespace, and once `maxsplit` fields have been
      cut off the rest (after its leading whitespace) is the last field. */
  function SplitWs(s: string, maxsplit: nat): (fields: seq<string>)
    ensures |fields| <= maxsplit + 1
    decreases |s|
  {
    if SkipSpace(s, 0) == |s| then []
    else if maxsplit == 0 then [LStrip(s)]
    else [Head(s)] + SplitWs(Tail(s), maxsplit - 1)
  }

  /** `s.split()`: every maximal run of non-space characters, in order. */
  function Words(s: string): (ws: seq<string>)
    decreases |s|
  {
    if SkipSpace(s, 0) == |s| then [] else [Head(s)] + Words(Tail(s))
  }

  function Min(a: int, b: int): int {
    if a <= b then a else b
  }

  // SkipSpace, SkipWord and TrimEnd are pinned down by their postconditions.

  lemma {:induction false} SkipSpaceIs(s: string, i: nat, j: nat)
    requires i <= j <= |s| && SpaceBetween(s, i, j)
    requires j == |s| || !IsSpace(s[j])
    ensures SkipSpace(s, i) == j
    decreases j - i
  {
    if i < j {
      SkipSpaceIs(s, i + 1, j);
    }
  }

  lemma {:induction false} SkipWordIs(s: string, i: nat, j: nat)
    requires i <= j <= |s| && WordBetween(s, i, j)
    requires j == |s| || IsSpace(s[j])
    ensures SkipWord(s, i) == j
    decreases j - i
  {
    if i < j {
      SkipWordIs(s, i + 1, j);
    }
  }

  lemma {:induction false} TrimEndIs(s: string, j: nat, n: nat)
    requires n <= j <= |s| && SpaceBetween(s, n, j)
    requires n == 0 || !IsSpace(s[n - 1])
    ensures TrimEnd(s, j) == n
  {
    if n < j {
      TrimEndIs(s, j - 1, n);
    }
  }

  // The shape of SplitWs and Words one field at a time.

  /** Field `k > 0` of a split is field `k - 1` of the split of what
      follows the first field. */
  lemma SplitWsAt(s: string, n: nat, k: nat)
    requires 0 < k < |SplitWs(s, n)|
    ensures SkipSpace(s, 0) < |s| && n > 0
    ensures k - 1 < |SplitWs(Tail(s), n - 1)| && SplitWs(s, n)[k] == SplitWs(Tail(s), n - 1)[k - 1]
  {
  }

  lemma SplitWsFirst(s: string, n: nat)
    requires n > 0 && 0 < |SplitWs(s, n)|
    ensures SplitWs(s, n)[0] == Head(s)
  {
  }

  lemma WordsFirst(s: string)
    requires 0 < |Words(s)|
    ensures Words(s)[0] == Head(s)
  {
  }

  lemma WordsAt(s: string, k: nat)
    requires 0 < k < |Words(s)|
    ensures SkipSpace(s, 0) < |s|
    ensures k - 1 < |Words(Tail(s))| && Words(s)[k] == Words(Tail(s))[k - 1]
  {
  }

  /** Every field of `s.split()` is a non-empty run of non-space characters. */
  lemma {:induction false} WordsAreWords(s: string, k: nat)
    requires k < |Words(s)|
    ensures Words(s)[k] != [] && NoSpace(Words(s)[k])
    decreases |s|
  {
    if k == 0 {
      WordsFirst(s);
      var a := SkipSpace(s, 0);
      var b := SkipWord(s, a);
      assert a < |s| && !IsSpace(s[a]);
      assert forall i :: 0 <= i < b - a ==> s[a..b][i] == s[a + i];
    } else {
      WordsAt(s, k);
      WordsAreWords(Tail(s), k - 1);
    }
  }

  /** A split limited to `n` cuts has as many fields as the unlimited split,
      up to `n + 1`. */
  lemma {:induction false} SplitWsLength(s: string, n: nat)
    ensures |SplitWs(s, n)| == Min(n + 1, |Words(s)|)
    decreases |s|
  {
    if SkipSpace(s, 0) < |s| && n > 0 {
      SplitWsLength(Tail(s), n - 1);
    }
  }

  /** ... and agrees with it on each of its first `n` fields. */
  lemma {:induction false} SplitWsAgreesWithWords(s: string, n: nat, k: nat)
    requires k < n && k < |SplitWs(s, n)|
    ensures k < |Words(s)| && SplitWs(s, n)[k] == Words(s)[k]
    decreases |s|
  {
    SplitWsLength(s, n);
    if k == 0 {
      SplitWsFirst(s, n);
      WordsFirst(s);
    } else {
      SplitWsAt(s, n, k);
      WordsAt(s, k);
      SplitWsAgreesWithWords(Tail(s), n - 1, k - 1);
    }
  }

  predicate IsSuffix(f: string, s: string) {
    |f| <= |s| && f == s[|s| - |f|..]
  }

  lemma SuffixTrans(f: string, t: string, s: string)
    requires IsSuffix(f, t) && IsSuffix(t, s)
    ensures IsSuffix(f, s)
  {
    assert s[|s| - |t|..][|t| - |f|..] == s[|s| - |f|..];
  }

  /** When a limited split uses all its cuts, its last field is a suffix of
      the string and starts with a non-space. */
  lemma {:induction false} SplitWsLastIsSuffix(s: string, n: nat)
    requires |SplitWs(s, n)| == n + 1
    ensures var f := SplitWs(s, n)[n];
            f != [] && !IsSpace(f[0]) && IsSuffix(f, s)
    decreases |s|
  {
    if n > 0 {
      SplitWsAt(s, n, n);
      SplitWsLastIsSuffix(Tail(s), n - 1);
      SuffixTrans(SplitWs(s, n)[n], Tail(s), s);
    }
  }

  /** Appending whitespace never changes the fields of `s.split()`. */
  lemma {:induction false} WordsIgnoreTrailingSpace(s: string, ws: string)
    requires AllSpace(ws)
    ensures Words(s + ws) == Words(s)
    decreases |s|
  {
    var x := s + ws;
    var a := SkipSpace(s, 0);
    if a == |s| {
      SkipSpaceIs(x, 0, |x|);
    } else {
      SkipSpaceIs(x, 0, a);
      var b := SkipWord(s, a);
      SkipWordIs(x, a, b);
      assert Head(x) == Head(s);
      assert Tail(x) == Tail(s) + ws;
      WordsIgnoreTrailingSpace(Tail(s), ws);
    }
  }

  /** Leading whitespace never changes the fields of `s.split()`. */
  lemma WordsOfLStrip(s: string)
    ensures Words(LStrip(s)) == Words(s)
  {
    var a := SkipSpace(s, 0);
    var t := s[a..];
    SkipSpaceIs(t, 0, 0);
    if a < |s| {
      var b := SkipWord(s, a);
      SkipWordIs(t, 0, b - a);
      assert Head(t) == Head(s);
      assert Tail(t) == Tail(s);
    }
  }

  /** Trailing whitespace never changes the fields of `s.split()`. */
  lemma WordsOfRStrip(t: string)
    ensures Words(RStrip(t)) == Words(t)
  {
    var r := RStrip(t);
    assert t == r + t[|r|..];
    WordsIgnoreTrailingSpace(r, t[|r|..]);
  }

  /** `line.strip().split()` has the same fields as `line.split()`. */
  lemma WordsOfStrip(s: string)
    ensures Words(Strip(s)) == Words(s)
  {
    WordsOfRStrip(LStrip(s));
    WordsOfLStrip(s);
  }

  /** A stripped string is empty or ends with a non-space. */
  lemma StripEnds(s: string)
    ensures Strip(s) == [] || !IsSpace(Strip(s)[|Strip(s)| - 1])
  {
  }

  /** `Strip` removes exactly the surrounding whitespace of a core that
      starts and ends with a non-space. */
  lemma StripSurrounded(lead: string, core: string, trail: string)
    requires AllSpace(lead) && AllSpace(trail)
    requires core != [] && !IsSpace(core[0]) && !IsSpace(core[|core| - 1])
    ensures Strip(lead + core + trail) == core
  {
    var x := lead + core + trail;
    SkipSpaceIs(x, 0, |lead|);
    var t := core + trail;
    assert LStrip(x) == t;
    TrimEndIs(t, |t|, |core|);
  }

  /** A space-free word followed by whitespace splits off as the next field. */
  lemma SplitWsCons(sep: string, w: string, rest: string, n: nat)
    requires AllSpace(sep)
    requires w != [] && NoSpace(w)
    requires rest == [] || IsSpace(rest[0])
    ensures SplitWs(sep + w + rest, n + 1) == [w] + SplitWs(rest, n)
  {
    var x := sep + w + rest;
    SkipSpaceIs(x, 0, |sep|);
    SkipWordIs(x, |sep|, |sep| + |w|);
    assert Head(x) == w;
    assert Tail(x) == rest;
  }

  /** With no split left, the rest of the string (after whitespace) is one field. */
  lemma SplitWsLast(sep: string, rest: string)
    requires AllSpace(sep)
    requires rest != [] && !IsSpace(rest[0])
    ensures SplitWs(sep + rest, 0) == [rest]
  {
    SkipSpaceIs(sep + rest, 0, |sep|);
    assert LStrip(sep + rest) == rest;
  }

  /** Three space-free words and a last field that starts with a non-space,
      separated by whitespace runs, split into exactly those four fields. */
  lemma SplitFour(w1: string, sep1: string, w2: string, sep2: string, w3: string, sep3: string, last: string)
    requires w1 != [] && NoSpace(w1) && w2 != [] && NoSpace(w2) && w3 != [] && NoSpace(w3)
    requires sep1 != [] && AllSpace(sep1) && sep2 != [] && AllSpace(sep2) && sep3 != [] && AllSpace(sep3)
    requires last != [] && !IsSpace(last[0])
    ensures SplitWs(w1 + sep1 + w2 + sep2 + w3 + sep3 + last, 3) == [w1, w2, w3, last]
  {
    var r3 := sep3 + last;
    var r2 := sep2 + w3 + r3;
    var r1 := sep1 + w2 + r2;
    Regroup(w1, sep1, w2, sep2, w3, sep3, last);
    SplitThree(w1, r1, sep1, w2, r2, sep2, w3, r3, sep3, last);
  }

  lemma Regroup(w1: string, sep1: string, w2: string, sep2: string, w3: string, sep3: string, last: string)
    ensures w1 + sep1 + w2 + sep2 + w3 + sep3 + last
         == [] + w1 + (sep1 + w2 + (sep2 + w3 + (sep3 + last)))
  {
    var r3 := sep3 + last;
    var r2 := sep2 + w3 + r3;
    var r1 := sep1 + w2 + r2;
    calc {
      w1 + sep1 + w2 + sep2 + w3 + sep3 + last;
      w1 + sep1 + w2 + sep2 + w3 + r3;
      w1 + sep1 + w2 + r2;
      w1 + r1;
      [] + w1 + r1;
    }
  }

  lemma SplitThree(w1: string, r1: string, sep1: string, w2: string, r2: string,
                   sep2: string, w3: string, r3: string, sep3: string, last: string)
    requires w1 != [] && NoSpace(w1) && w2 != [] && NoSpace(w2) && w3 != [] && NoSpace(w3)
    requires sep1 != [] && AllSpace(sep1) && sep2 != [] && AllSpace(sep2) && sep3 != [] && AllSpace(sep3)
    requires last != [] && !IsSpace(last[0])
    requires r3 == sep3 + last && r2 == sep2 + w3 + r3 && r1 == sep1 + w2 + r2
    ensures SplitWs([] + w1 + r1, 3) == [w1, w2, w3, last]
  {
    SplitTwo(r2, sep2, w3, r3, sep3, last);
    assert r1[0] == sep1[0];
    SplitWsCons(sep1, w2, r2, 1);
    SplitWsCons([], w1, r1, 2);
    Cons4(w1, w2, w3, last);
  }

  lemma Cons4<T>(a: T, b: T, c: T, d: T)
    ensures [a] + ([b] + [c, d]) == [a, b, c, d]
  {
  }

  lemma SplitTwo(r2: string, sep2: string, w3: string, r3: string, sep3: string, last: string)
    requires w3 != [] && NoSpace(w3)
    requires sep2 != [] && AllSpace(sep2) && sep3 != [] && AllSpace(sep3)
    requires last != [] && !IsSpace(last[0])
    requires r3 == sep3 + last && r2 == sep2 + w3 + r3
    ensures r2 != [] && IsSpace(r2[0]) && SplitWs(r2, 1) == [w3, last]
  {
    SplitWsLast(sep3, last);
    assert r3[0] == sep3[0];
    SplitWsCons(sep2, w3, r3, 0);
    assert r2[0] == sep2[0];
  }

  // ---------------------------------------------------------------------
  // `s.split(sep)` and `sep.join(parts)` for a one-character separator.

  /** Number of occurrences of `c` in `s`. */
  function Count(s: string, c: char): nat {
    if s == [] then 0 else (if s[0] == c then 1 else 0) + Count(s[1..], c)
  }

  /** `s.split(sep)`: cut at every occurrence of `sep`, keeping empty fields,
      so there is always one more field than separators. */
  function Split(s: string, sep: char): (parts: seq<string>)
    ensures |parts| == Count(s, sep) + 1
    ensures forall i :: 0 <= i < |parts| ==> sep !in parts[i]
  {
    if s == [] then [""]
    else
      var rest := Split(s[1..], sep);
      if s[0] == sep then [""] + rest
      else [[s[0]] + rest[0]] + rest[1..]
  }

  /** `sep.join(parts)`. */
  function Join(parts: seq<string>, sep: char): string {
    if parts == [] then ""
    else if |parts| == 1 then parts[0]
    else parts[0] + [sep] + Join(parts[1..], sep)
  }

  /** Joining the fields of a split gives back the original string. */
  lemma {:induction false} JoinSplit(s: string, sep: char)
    ensures Join(Split(s, sep), sep) == s
  {
    if s != [] {
      JoinSplit(s[1..], sep);
      var rest := Split(s[1..], sep);
      if s[0] == sep {
        assert ([""] + rest)[1..] == rest;
      } else {
        var parts := [[s[0]] + rest[0]] + rest[1..];
        if |rest| > 1 {
          assert parts[1..] == rest[1..];
          assert Join(rest, sep) == rest[0] + [sep] + Join(rest[1..], sep);
        }
      }
    }
  }

  /** Splitting a join of separator-free fields gives back the fields. */
  lemma {:induction false} SplitJoin(parts: seq<string>, sep: char)
    requires parts != []
    requires forall i :: 0 <= i < |parts| ==> sep !in parts[i]
    ensures Split(Join(parts, sep), sep) == parts
  {
    if |parts| == 1 {
      SplitNoSep(parts[0], sep);
    } else {
      SplitJoin(parts[1..], sep);
      SplitAfterWord(parts[0], Join(parts[1..], sep), sep);
      assert parts == [parts[0]] + parts[1..];
    }
  }

  lemma {:induction false} SplitNoSep(w: string, sep: char)
    requires sep !in w
    ensures Split(w, sep) == [w]
  {
    if w != [] {
      SplitNoSep(w[1..], sep);
      assert [w[0]] + w[1..] == w;
    }
  }

  lemma {:induction false} SplitAfterWord(w: string, rest: string, sep: char)
    requires sep !in w
    ensures Split(w + [sep] + rest, sep) == [w] + Split(rest, sep)
  {
    if w == [] {
      assert (w + [sep] + rest)[1..] == rest;
    } else {
      assert (w + [sep] + rest)[1..] == w[1..] + [sep] + rest;
      SplitAfterWord(w[1..], rest, sep);
      assert [w[0]] + w[1..] == w;
    }
  }

  /** Joining one more field adds the separator and that field at the end. */
  lemma {:induction false} JoinSnoc(parts: seq<string>, x: string, sep: char)
    requires parts != []
    ensures Join(parts + [x], sep) == Join(parts, sep) + [sep] + x
  {
    if |parts| > 1 {
      assert (parts + [x])[1..] == parts[1..] + [x];
      JoinSnoc(parts[1..], x, sep);
    }
  }

  lemma {:induction false} CountAppend(a: string, b: string, c: char)
    ensures Count(a + b, c) == Count(a, c) + Count(b, c)
  {
    if a != [] {
      assert (a + b)[1..] == a[1..] + b;
      CountAppend(a[1..], b, c);
    } else {
      assert a + b == b;
    }
  }

  lemma {:induction false} CountAbsent(s: string, c: char)
    requires c !in s
    ensures Count(s, c) == 0
  {
    if s != [] {
      CountAbsent(s[1..], c);
    }
  }
}
