/**
 * The environment pattern `(\\begin{(.*?)})([\w\W]*)\\end{\2}` with the `g`
 * flag, written out as a matcher. One `exec` from position `from` finds the
 * leftmost start; at that start the shortest name (no line terminator in it)
 * for which a close exists; for that name the longest body, so that the
 * close is the last `\end{NAME}` that still fits in the text.
 */
module EnvironmentMatch {
  import opened Common
  import opened LineIndex

  const BeginToken: string := "\\begin{"
  const EndToken: string := "\\end{"

  /**
   * A candidate match: `\begin{` at `start`, a name of `nameLen` characters,
   * `}`, a body of `bodyLen` characters, `\end{`, the name again, `}`.
   */
  datatype EnvMatch = EnvMatch(start: nat, nameLen: nat, bodyLen: nat) {
    /** Where the name starts. */
    function NameStart(): (p: nat) { start + 7 }
    /** Where the body starts: the length of `\begin{NAME}` after `start`. */
    function BodyStart(): (p: nat) { start + 8 + nameLen }
    /** Where `\end{NAME}` starts. */
    function CloseStart(): (p: nat) { start + 8 + nameLen + bodyLen }
    /** One past the final `}`: the regex's `lastIndex` after the match. */
    function End(): (p: nat) { start + 14 + 2 * nameLen + bodyLen }
  }

  /** `m` is a match of the pattern in `text`. */
  predicate IsEnvMatch(text: string, m: EnvMatch) {
    m.End() <= |text| &&
    text[m.start..m.NameStart()] == BeginToken &&
    NoLineBreak(text[m.NameStart()..m.NameStart() + m.nameLen]) &&
    text[m.BodyStart() - 1] == '}' &&
    text[m.CloseStart()..m.CloseStart() + 5] == EndToken &&
    text[m.CloseStart() + 5..m.End() - 1] == text[m.NameStart()..m.NameStart() + m.nameLen] &&
    text[m.End() - 1] == '}'
  }

  /** The name a match captures (group 2). */
  function Name(text: string, m: EnvMatch): (name: string)
    requires m.End() <= |text|
  {
    text[m.NameStart()..m.NameStart() + m.nameLen]
  }

  /** The body a match captures (group 3). */
  function Body(text: string, m: EnvMatch): (body: string)
    requires m.End() <= |text|
  {
    text[m.BodyStart()..m.CloseStart()]
  }

  /**
   * A match is `\begin{NAME}`, the body, and `\end{NAME}` with the same NAME,
   * and NAME holds no line terminator.
   */
  lemma MatchShape(text: string, m: EnvMatch)
    requires IsEnvMatch(text, m)
    ensures text[m.start..m.End()] ==
              BeginToken + Name(text, m) + "}" + Body(text, m) + EndToken + Name(text, m) + "}"
  {
    var a, b, c, d := m.start, m.NameStart(), m.BodyStart(), m.CloseStart();
    var e, f := m.CloseStart() + 5, m.End();
    SevenPieces(text, a, b, c - 1, c, d, e, f - 1, f);
    assert text[c - 1..c] == "}" by { assert text[c - 1..c] == [text[c - 1]]; }
    assert text[f - 1..f] == "}" by { assert text[f - 1..f] == [text[f - 1]]; }
    SamePieces(text[a..b], text[b..c - 1], text[c - 1..c], text[c..d], text[d..e], text[e..f - 1], text[f - 1..f],
               BeginToken, Name(text, m), "}", Body(text, m), EndToken, Name(text, m), "}");
  }

  /** Concatenations of equal pieces are equal. */
  lemma SamePieces(x1: string, x2: string, x3: string, x4: string, x5: string, x6: string, x7: string,
                   y1: string, y2: string, y3: string, y4: string, y5: string, y6: string, y7: string)
    requires x1 == y1 && x2 == y2 && x3 == y3 && x4 == y4 && x5 == y5 && x6 == y6 && x7 == y7
    ensures x1 + x2 + x3 + x4 + x5 + x6 + x7 == y1 + y2 + y3 + y4 + y5 + y6 + y7
  {
  }

  /** A slice cut at six inner points is the concatenation of the seven pieces. */
  lemma SevenPieces(s: string, a: nat, b: nat, c: nat, d: nat, e: nat, f: nat, g: nat, h: nat)
    requires a <= b <= c <= d <= e <= f <= g <= h <= |s|
    ensures s[a..h] == s[a..b] + s[b..c] + s[c..d] + s[d..e] + s[e..f] + s[f..g] + s[g..h]
  {
    SliceSplit(s, a, g, h);
    SliceSplit(s, a, f, g);
    SliceSplit(s, a, e, f);
    SliceSplit(s, a, d, e);
    SliceSplit(s, a, c, d);
    SliceSplit(s, a, b, c);
  }

  /** A slice is the concatenation of its two halves at any split point. */
  lemma SliceSplit(s: string, a: nat, b: nat, c: nat)
    requires a <= b <= c <= |s|
    ensures s[a..c] == s[a..b] + s[b..c]
  {
  }

  /** The close `\end{NAME}` of a match lies on one line. */
  lemma CloseOnOneLine(text: string, m: EnvMatch)
    requires IsEnvMatch(text, m)
    ensures '\n' !in text[m.CloseStart()..m.End()]
  {
    var d, e, f := m.CloseStart(), m.CloseStart() + 5, m.End();
    SliceSplit(text, d, e, f);
    SliceSplit(text, e, f - 1, f);
    assert '\n' !in text[d..e] by {
      assert text[d..e] == EndToken;
      assert forall j :: 0 <= j < 5 ==> EndToken[j] != '\n';
    }
    assert '\n' !in text[e..f - 1] by {
      assert text[e..f - 1] == Name(text, m);
      assert forall j :: 0 <= j < |Name(text, m)| ==> !IsLineTerminator(Name(text, m)[j]);
    }
    assert '\n' !in text[f - 1..f] by { assert text[f - 1..f] == [text[f - 1]]; }
  }

  /** Greedy body: at this start and name, the longest body up to `b` that closes. */
  function LongestBody(text: string, s: nat, n: nat, b: int): (r: Option<EnvMatch>)
    ensures r.Some? ==>
              r.value.start == s && r.value.nameLen == n && r.value.bodyLen <= b &&
              IsEnvMatch(text, r.value) &&
              forall b': nat :: r.value.bodyLen < b' <= b ==> !IsEnvMatch(text, EnvMatch(s, n, b'))
    ensures r.None? ==> forall b': nat :: b' <= b ==> !IsEnvMatch(text, EnvMatch(s, n, b'))
    decreases b + 1
  {
    if b < 0 then None
    else if IsEnvMatch(text, EnvMatch(s, n, b)) then Some(EnvMatch(s, n, b))
    else
      var r := LongestBody(text, s, n, b - 1);
      ShorterBody(text, s, n, b, r);
      r
  }

  /** When the body of length b does not close, the search from b - 1 answers for b. */
  lemma ShorterBody(text: string, s: nat, n: nat, b: nat, r: Option<EnvMatch>)
    requires !IsEnvMatch(text, EnvMatch(s, n, b))
    requires r.Some? ==>
               r.value.start == s && r.value.nameLen == n && r.value.bodyLen <= b - 1 &&
               IsEnvMatch(text, r.value) &&
               forall b': nat :: r.value.bodyLen < b' <= b - 1 ==> !IsEnvMatch(text, EnvMatch(s, n, b'))
    requires r.None? ==> forall b': nat :: b' <= b - 1 ==> !IsEnvMatch(text, EnvMatch(s, n, b'))
    ensures r.Some? ==>
              r.value.start == s && r.value.nameLen == n && r.value.bodyLen <= b &&
              IsEnvMatch(text, r.value) &&
              forall b': nat :: r.value.bodyLen < b' <= b ==> !IsEnvMatch(text, EnvMatch(s, n, b'))
    ensures r.None? ==> forall b': nat :: b' <= b ==> !IsEnvMatch(text, EnvMatch(s, n, b'))
  {
  }

  /** The longest body that could fit at start s with a name of n characters. */
  function MaxBody(text: string, s: nat, n: nat): (b: int) {
    |text| - (s + 14 + 2 * n)
  }

  /** The match whose name has exactly n characters, when `}` follows them, with its longest body. */
  function NameOfLength(text: string, s: nat, n: nat): (r: Option<EnvMatch>)
    requires s + 7 + n < |text|
    ensures r.Some? ==>
              r.value.start == s && r.value.nameLen == n && IsEnvMatch(text, r.value) &&
              forall b': nat :: r.value.bodyLen < b' ==> !IsEnvMatch(text, EnvMatch(s, n, b'))
    ensures r.None? ==> forall b': nat :: !IsEnvMatch(text, EnvMatch(s, n, b'))
  {
    if text[s + 7 + n] == '}' then LongestBody(text, s, n, MaxBody(text, s, n)) else None
  }

  /**
   * Lazy name: the shortest name of at least n characters at start s for which
   * some body closes; the first n name characters are known to be no line
   * terminators.
   */
  function ShortestName(text: string, s: nat, n: nat): (r: Option<EnvMatch>)
    requires s + 7 + n <= |text|
    requires NoLineBreak(text[s + 7..s + 7 + n])
    ensures r.Some? ==>
              r.value.start == s && n <= r.value.nameLen && IsEnvMatch(text, r.value) &&
              (forall n': nat, b': nat :: n <= n' < r.value.nameLen ==> !IsEnvMatch(text, EnvMatch(s, n', b'))) &&
              forall b': nat :: r.value.bodyLen < b' ==> !IsEnvMatch(text, EnvMatch(s, r.value.nameLen, b'))
    ensures r.None? ==> forall n': nat, b': nat :: n <= n' ==> !IsEnvMatch(text, EnvMatch(s, n', b'))
    decreases |text| - n
  {
    if s + 7 + n == |text| then None
    else
      var c := text[s + 7 + n];
      var here := NameOfLength(text, s, n);
      if here.Some? then here
      else if IsLineTerminator(c) then
        NameStopsAt(text, s, n);
        None
      else
        assert text[s + 7..s + 7 + n + 1] == text[s + 7..s + 7 + n] + [c];
        var r := ShortestName(text, s, n + 1);
        LongerName(text, s, n, r);
        r
  }

  /** When no name of exactly n characters closes, the search from n + 1 answers for n. */
  lemma LongerName(text: string, s: nat, n: nat, r: Option<EnvMatch>)
    requires forall b': nat :: !IsEnvMatch(text, EnvMatch(s, n, b'))
    requires r.Some? ==>
               r.value.start == s && n + 1 <= r.value.nameLen && IsEnvMatch(text, r.value) &&
               (forall n': nat, b': nat :: n + 1 <= n' < r.value.nameLen ==> !IsEnvMatch(text, EnvMatch(s, n', b'))) &&
               forall b': nat :: r.value.bodyLen < b' ==> !IsEnvMatch(text, EnvMatch(s, r.value.nameLen, b'))
    requires r.None? ==> forall n': nat, b': nat :: n + 1 <= n' ==> !IsEnvMatch(text, EnvMatch(s, n', b'))
    ensures r.Some? ==>
              r.value.start == s && n <= r.value.nameLen && IsEnvMatch(text, r.value) &&
              (forall n': nat, b': nat :: n <= n' < r.value.nameLen ==> !IsEnvMatch(text, EnvMatch(s, n', b'))) &&
              forall b': nat :: r.value.bodyLen < b' ==> !IsEnvMatch(text, EnvMatch(s, r.value.nameLen, b'))
    ensures r.None? ==> forall n': nat, b': nat :: n <= n' ==> !IsEnvMatch(text, EnvMatch(s, n', b'))
  {
  }

  /**
   * A line terminator at name position n ends the search: no name of n
   * characters closes there, and no longer name may contain it.
   */
  lemma NameStopsAt(text: string, s: nat, n: nat)
    requires s + 7 + n < |text| && IsLineTerminator(text[s + 7 + n])
    ensures forall n': nat, b': nat :: n <= n' ==> !IsEnvMatch(text, EnvMatch(s, n', b'))
  {
    forall n': nat, b': nat | n <= n'
      ensures !IsEnvMatch(text, EnvMatch(s, n', b'))
    {
      var m := EnvMatch(s, n', b');
      if n < n' && m.End() <= |text| {
        assert text[m.NameStart()..m.NameStart() + n'][n] == text[s + 7 + n];
      }
    }
  }

  /** A match attempt at exactly position s. */
  function MatchAt(text: string, s: nat): (r: Option<EnvMatch>)
    ensures r.Some? ==>
              r.value.start == s && IsEnvMatch(text, r.value) &&
              (forall n': nat, b': nat :: n' < r.value.nameLen ==> !IsEnvMatch(text, EnvMatch(s, n', b'))) &&
              forall b': nat :: r.value.bodyLen < b' ==> !IsEnvMatch(text, EnvMatch(s, r.value.nameLen, b'))
    ensures r.None? ==> forall n': nat, b': nat :: !IsEnvMatch(text, EnvMatch(s, n', b'))
  {
    if s + 7 <= |text| && text[s..s + 7] == BeginToken then
      assert NoLineBreak(text[s + 7..s + 7]);
      ShortestName(text, s, 0)
    else None
  }

  /**
   * One `exec` with `lastIndex == from`: the leftmost start at or after
   * `from`, then the shortest name, then the longest body.
   */
  function FindMatch(text: string, from: nat): (r: Option<EnvMatch>)
    ensures r.Some? ==>
              from <= r.value.start && IsEnvMatch(text, r.value) &&
              (forall m: EnvMatch {:trigger IsEnvMatch(text, m)} :: from <= m.start < r.value.start ==> !IsEnvMatch(text, m)) &&
              (forall m: EnvMatch {:trigger IsEnvMatch(text, m)} :: m.start == r.value.start && m.nameLen < r.value.nameLen ==> !IsEnvMatch(text, m)) &&
              (forall m: EnvMatch {:trigger IsEnvMatch(text, m)} :: m.start == r.value.start && m.nameLen == r.value.nameLen && m.bodyLen > r.value.bodyLen ==>
                 !IsEnvMatch(text, m))
    ensures r.None? ==> forall m: EnvMatch {:trigger IsEnvMatch(text, m)} :: from <= m.start ==> !IsEnvMatch(text, m)
    decreases |text| - from
  {
    if |text| < from + 14 then None
    else
      var here := MatchAt(text, from);
      if here.Some? then here else FindMatch(text, from + 1)
  }

  /** The matches of successive `exec` calls from `from` until one fails. */
  function MatchesFrom(text: string, from: nat): (ms: seq<EnvMatch>)
    ensures OrderedMatches(text, from, ms)
    ensures |ms| == 0 <==> FindMatch(text, from).None?
    decreases |text| - from
  {
    var r := FindMatch(text, from);
    if r.None? then []
    else
      var rest := MatchesFrom(text, r.value.End());
      MatchesStep(text, from, r.value, rest);
      [r.value] + rest
  }

  /**
   * Where the scan stands once `ms` has been found from `from`: `from`
   * itself, or the end of the last match.
   */
  function ScanEnd(from: nat, ms: seq<EnvMatch>): (end: nat) {
    if |ms| == 0 then from else ms[|ms| - 1].End()
  }

  /**
   * The scan stops only when `exec` fails: no match starts at or after
   * the end of the last one found (or at or after `from` if none was).
   */
  lemma {:induction false} MatchesComplete(text: string, from: nat)
    ensures forall m: EnvMatch {:trigger IsEnvMatch(text, m)} ::
              ScanEnd(from, MatchesFrom(text, from)) <= m.start ==> !IsEnvMatch(text, m)
    decreases |text| - from
  {
    var r := FindMatch(text, from);
    if r.Some? {
      var rest := MatchesFrom(text, r.value.End());
      MatchesComplete(text, r.value.End());
      assert MatchesFrom(text, from) == [r.value] + rest;
      if |rest| > 0 {
        assert ([r.value] + rest)[|rest|] == rest[|rest| - 1];
      }
    }
  }

  /**
   * Each listed match is the next `exec` result: the first is the `exec`
   * from `from`, and each later one the `exec` from the end of the one
   * before it, where `lastIndex` then stands.
   */
  lemma {:induction false} MatchesSuccessive(text: string, from: nat)
    ensures var ms := MatchesFrom(text, from);
      (|ms| > 0 ==> FindMatch(text, from) == Some(ms[0])) &&
      forall k :: 0 <= k < |ms| - 1 ==> FindMatch(text, ms[k].End()) == Some(ms[k + 1])
    decreases |text| - from
  {
    var r := FindMatch(text, from);
    if r.Some? {
      var ms := MatchesFrom(text, from);
      var rest := MatchesFrom(text, r.value.End());
      MatchesSuccessive(text, r.value.End());
      assert ms == [r.value] + rest;
      forall k | 0 <= k < |ms| - 1
        ensures FindMatch(text, ms[k].End()) == Some(ms[k + 1])
      {
        assert ms[k + 1] == rest[k];
        if k > 0 {
          assert ms[k] == rest[k - 1];
        }
      }
    }
  }

  /** Successive matches are listed in order and do not overlap. */
  ghost predicate OrderedMatches(text: string, from: nat, ms: seq<EnvMatch>) {
    AllMatches(text, from, ms) && NonOverlapping(ms)
  }

  ghost predicate AllMatches(text: string, from: nat, ms: seq<EnvMatch>) {
    forall k :: 0 <= k < |ms| ==> from <= ms[k].start && IsEnvMatch(text, ms[k])
  }

  ghost predicate NonOverlapping(ms: seq<EnvMatch>) {
    forall k :: 0 <= k < |ms| - 1 ==> ms[k].End() <= ms[k + 1].start
  }

  lemma MatchesStep(text: string, from: nat, m: EnvMatch, rest: seq<EnvMatch>)
    requires from <= m.start && IsEnvMatch(text, m)
    requires OrderedMatches(text, m.End(), rest)
    ensures OrderedMatches(text, from, [m] + rest)
  {
    AllMatchesStep(text, from, m, rest);
    NonOverlappingStep(text, m, rest);
  }

  lemma AllMatchesStep(text: string, from: nat, m: EnvMatch, rest: seq<EnvMatch>)
    requires from <= m.start && IsEnvMatch(text, m)
    requires AllMatches(text, m.End(), rest)
    ensures AllMatches(text, from, [m] + rest)
  {
    var ms := [m] + rest;
    forall k | 0 <= k < |ms|
      ensures from <= ms[k].start && IsEnvMatch(text, ms[k])
    {
      if k > 0 {
        assert ms[k] == rest[k - 1];
      }
    }
  }

  lemma NonOverlappingStep(text: string, m: EnvMatch, rest: seq<EnvMatch>)
    requires NonOverlapping(rest)
    requires forall k :: 0 <= k < |rest| ==> m.End() <= rest[k].start
    ensures NonOverlapping([m] + rest)
  {
    var ms := [m] + rest;
    forall k | 0 <= k < |ms| - 1
      ensures ms[k].End() <= ms[k + 1].start
    {
      assert ms[k + 1] == rest[k];
      if k > 0 {
        assert ms[k] == rest[k - 1];
      }
    }
  }
}
