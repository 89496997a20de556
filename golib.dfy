/** The few routines of Go's `strings`, `bytes` and `regexp` packages that the
    not-words filter calls. A Go string is a sequence of bytes; here each `char`
    of a Dafny `string` stands for one byte. Every delimiter the filter searches
    for is ASCII, so searching by byte and searching by code point agree. */
module GoLib {

  /** strings.IndexByte: the index of the first `c` in `s`, or -1 when there is none. */
  function IndexByte(s: string, c: char): (r: int)
    ensures r == -1 <==> forall j :: 0 <= j < |s| ==> s[j] != c
    ensures r != -1 ==> 0 <= r < |s| && s[r] == c
    ensures forall j :: 0 <= j < r ==> s[j] != c
  {
    IndexByteFrom(s, c, 0)
  }

  /** The search of IndexByte, from index `i` on. */
  function IndexByteFrom(s: string, c: char, i: nat): (r: int)
    requires i <= |s|
    ensures r == -1 <==> forall j :: i <= j < |s| ==> s[j] != c
    ensures r != -1 ==> i <= r < |s| && s[r] == c
    ensures forall j :: i <= j < r ==> s[j] != c
    decreases |s| - i
  {
    if i == |s| then -1
    else if s[i] == c then i
    else IndexByteFrom(s, c, i + 1)
  }

  /** The first occurrence is the only index with those properties. */
  lemma {:induction false} IndexByteAt(s: string, c: char, k: nat)
    requires k < |s| && s[k] == c
    requires forall j :: 0 <= j < k ==> s[j] != c
    ensures IndexByte(s, c) == k
  {
  }

  /** strings.IndexAny: the index of the first byte of `s` that occurs in
      `chars`, or -1. Only membership in `chars` matters, so the Go string of
      characters is modelled as a set. */
  function IndexAny(s: string, chars: set<char>): (r: int)
    ensures r == -1 <==> forall j :: 0 <= j < |s| ==> s[j] !in chars
    ensures r != -1 ==> 0 <= r < |s| && s[r] in chars
    ensures forall j :: 0 <= j < r ==> s[j] !in chars
  {
    IndexAnyFrom(s, chars, 0)
  }

  /** The search of IndexAny, from index `i` on. */
  function IndexAnyFrom(s: string, chars: set<char>, i: nat): (r: int)
    requires i <= |s|
    ensures r == -1 <==> forall j :: i <= j < |s| ==> s[j] !in chars
    ensures r != -1 ==> i <= r < |s| && s[r] in chars
    ensures forall j :: i <= j < r ==> s[j] !in chars
    decreases |s| - i
  {
    if i == |s| then -1
    else if s[i] in chars then i
    else IndexAnyFrom(s, chars, i + 1)
  }

  lemma {:induction false} IndexAnyAt(s: string, chars: set<char>, k: nat)
    requires k < |s| && s[k] in chars
    requires forall j :: 0 <= j < k ==> s[j] !in chars
    ensures IndexAny(s, chars) == k
  {
  }

  /** strings.Repeat and bytes.Repeat with a one-byte unit: `n` copies of `c`. */
  function Repeat(c: char, n: nat): (r: string)
    ensures |r| == n
    ensures forall i :: 0 <= i < n ==> r[i] == c
  {
    if n == 0 then "" else [c] + Repeat(c, n - 1)
  }

  /** One match of a regular expression, as the half-open byte range
      [lo, hi) that Regexp.FindAllStringIndex reports. */
  datatype Span = Span(lo: nat, hi: nat)

  /** `ms` is a list of matches of `s` as Go's regexp produces them: in order,
      non-overlapping, inside `s`, and none starting before `pos`. */
  predicate MatchesFrom(s: string, ms: seq<Span>, pos: nat)
    decreases |ms|
  {
    pos <= |s| &&
    (ms == [] || (pos <= ms[0].lo <= ms[0].hi <= |s| && MatchesFrom(s, ms[1..], ms[0].hi)))
  }

  /** Position `i` lies inside one of the matches. */
  ghost predicate Covered(ms: seq<Span>, i: int) {
    exists k :: 0 <= k < |ms| && ms[k].lo <= i < ms[k].hi
  }

  /** The text from `pos` on, with every match replaced by `repl` of its text. */
  function ReplaceFrom(s: string, ms: seq<Span>, repl: string -> string, pos: nat): string
    requires MatchesFrom(s, ms, pos)
    decreases |ms|
  {
    if ms == [] then s[pos..]
    else s[pos..ms[0].lo] + repl(s[ms[0].lo..ms[0].hi]) + ReplaceFrom(s, ms[1..], repl, ms[0].hi)
  }

  /** Every match's replacement is as long as the text it replaces. */
  ghost predicate KeepsLengths(s: string, ms: seq<Span>, repl: string -> string) {
    forall k :: 0 <= k < |ms| && ms[k].lo <= ms[k].hi <= |s| ==>
      |repl(s[ms[k].lo..ms[k].hi])| == ms[k].hi - ms[k].lo
  }

  /** Regexp.ReplaceAllStringFunc, given the matches the expression finds in
      `s`: a copy of `s` with each match replaced by `repl` of the matched
      text. When every replacement keeps its length, the copy is as long as
      `s`, each byte outside the matches stays at its index, and each match's
      bytes are the replacement of that match. */
  function ReplaceAllStringFunc(s: string, ms: seq<Span>, repl: string -> string): (r: string)
    requires MatchesFrom(s, ms, 0)
    ensures KeepsLengths(s, ms, repl) ==>
      |r| == |s| &&
      (forall i :: 0 <= i < |s| && !Covered(ms, i) ==> r[i] == s[i]) &&
      (forall k :: 0 <= k < |ms| ==>
        ms[k].lo <= ms[k].hi <= |s| && r[ms[k].lo..ms[k].hi] == repl(s[ms[k].lo..ms[k].hi]))
  {
    assert KeepsLengths(s, ms, repl) ==>
      |ReplaceFrom(s, ms, repl, 0)| == |s| &&
      (forall i :: 0 <= i < |s| && !Covered(ms, i) ==> ReplaceFrom(s, ms, repl, 0)[i] == s[i]) &&
      (forall k :: 0 <= k < |ms| ==>
        ms[k].lo <= ms[k].hi <= |s| &&
        ReplaceFrom(s, ms, repl, 0)[ms[k].lo..ms[k].hi] == repl(s[ms[k].lo..ms[k].hi])) by {
      if KeepsLengths(s, ms, repl) {
        ReplaceFromKeeps(s, ms, repl, 0);
      }
    }
    ReplaceFrom(s, ms, repl, 0)
  }

  /** With length-keeping replacements, ReplaceFrom's text has the length of
      `s` from `pos` on, the bytes no match covers are copied to their own
      index, and each match's bytes are its replacement. */
  lemma {:induction false} ReplaceFromKeeps(s: string, ms: seq<Span>, repl: string -> string, pos: nat)
    requires MatchesFrom(s, ms, pos) && KeepsLengths(s, ms, repl)
    ensures |ReplaceFrom(s, ms, repl, pos)| == |s| - pos
    ensures forall i :: pos <= i < |s| && !Covered(ms, i) ==> ReplaceFrom(s, ms, repl, pos)[i - pos] == s[i]
    ensures forall k :: 0 <= k < |ms| ==>
      pos <= ms[k].lo <= ms[k].hi <= |s| &&
      ReplaceFrom(s, ms, repl, pos)[ms[k].lo - pos..ms[k].hi - pos] == repl(s[ms[k].lo..ms[k].hi])
  {
    MatchesInside(s, ms, pos);
    ReplaceFromLength(s, ms, repl, pos);
    forall i | pos <= i < |s| && !Covered(ms, i) ensures ReplaceFrom(s, ms, repl, pos)[i - pos] == s[i] {
      ReplaceFromUncovered(s, ms, repl, pos, i);
    }
    forall k | 0 <= k < |ms|
      ensures ReplaceFrom(s, ms, repl, pos)[ms[k].lo - pos..ms[k].hi - pos] == repl(s[ms[k].lo..ms[k].hi])
    {
      ReplaceFromMatch(s, ms, repl, pos, k);
    }
  }

  /** The bytes of match `k` are the replacement of its text. */
  lemma {:induction false} ReplaceFromMatch(s: string, ms: seq<Span>, repl: string -> string, pos: nat, k: nat)
    requires MatchesFrom(s, ms, pos) && KeepsLengths(s, ms, repl) && k < |ms|
    ensures pos <= ms[k].lo <= ms[k].hi <= |s| && |ReplaceFrom(s, ms, repl, pos)| == |s| - pos
    ensures ReplaceFrom(s, ms, repl, pos)[ms[k].lo - pos..ms[k].hi - pos] == repl(s[ms[k].lo..ms[k].hi])
  {
    MatchesInside(s, ms, pos);
    ReplaceFromLength(s, ms, repl, pos);
    var m := ms[k];
    var r, w := ReplaceFrom(s, ms, repl, pos), repl(s[m.lo..m.hi]);
    assert |w| == m.hi - m.lo;
    var slice := r[m.lo - pos..m.hi - pos];
    forall j | 0 <= j < |w| ensures slice[j] == w[j] {
      ReplaceFromInMatch(s, ms, repl, pos, k, m.lo + j);
    }
    assert slice == w;
  }

  /** The matches after the first keep their lengths too. */
  lemma {:induction false} KeepsLengthsTail(s: string, ms: seq<Span>, repl: string -> string)
    requires ms != [] && KeepsLengths(s, ms, repl)
    ensures KeepsLengths(s, ms[1..], repl)
  {
    var later := ms[1..];
    forall k | 0 <= k < |later| && later[k].lo <= later[k].hi <= |s|
      ensures |repl(s[later[k].lo..later[k].hi])| == later[k].hi - later[k].lo
    {
      assert later[k] == ms[k + 1];
    }
  }

  /** A position is covered when the first match or a later one covers it. */
  lemma {:induction false} CoveredCons(ms: seq<Span>, i: int)
    requires ms != []
    ensures Covered(ms, i) <==> ms[0].lo <= i < ms[0].hi || Covered(ms[1..], i)
  {
    if Covered(ms[1..], i) {
      var k :| 0 <= k < |ms[1..]| && ms[1..][k].lo <= i < ms[1..][k].hi;
      assert ms[k + 1] == ms[1..][k];
    }
    if Covered(ms, i) && !(ms[0].lo <= i < ms[0].hi) {
      var k :| 0 <= k < |ms| && ms[k].lo <= i < ms[k].hi;
      assert ms[1..][k - 1] == ms[k];
    }
  }

  lemma {:induction false} ReplaceFromLength(s: string, ms: seq<Span>, repl: string -> string, pos: nat)
    requires MatchesFrom(s, ms, pos) && KeepsLengths(s, ms, repl)
    ensures |ReplaceFrom(s, ms, repl, pos)| == |s| - pos
    decreases |ms|
  {
    if ms != [] {
      KeepsLengthsTail(s, ms, repl);
      ReplaceFromLength(s, ms[1..], repl, ms[0].hi);
    }
  }

  /** A byte no match covers is copied to its own index. */
  lemma {:induction false} ReplaceFromUncovered(s: string, ms: seq<Span>, repl: string -> string, pos: nat, i: nat)
    requires MatchesFrom(s, ms, pos) && KeepsLengths(s, ms, repl)
    requires pos <= i < |s| && !Covered(ms, i)
    ensures |ReplaceFrom(s, ms, repl, pos)| == |s| - pos
    ensures ReplaceFrom(s, ms, repl, pos)[i - pos] == s[i]
    decreases |ms|
  {
    ReplaceFromLength(s, ms, repl, pos);
    if ms != [] {
      var m := ms[0];
      var later := ms[1..];
      CoveredCons(ms, i);
      KeepsLengthsTail(s, ms, repl);
      ReplaceFromLength(s, later, repl, m.hi);
      var a, b, c := s[pos..m.lo], repl(s[m.lo..m.hi]), ReplaceFrom(s, later, repl, m.hi);
      assert ReplaceFrom(s, ms, repl, pos) == a + b + c;
      if i < m.lo {
        assert (a + b + c)[i - pos] == a[i - pos];
      } else {
        ReplaceFromUncovered(s, later, repl, m.hi, i);
        assert (a + b + c)[i - pos] == c[i - m.hi];
      }
    }
  }

  /** A byte inside match `k` is the byte at the same offset of the match's
      replacement. */
  lemma {:induction false} ReplaceFromInMatch(s: string, ms: seq<Span>, repl: string -> string, pos: nat, k: nat, i: nat)
    requires MatchesFrom(s, ms, pos) && KeepsLengths(s, ms, repl)
    requires k < |ms| && ms[k].lo <= i < ms[k].hi
    ensures pos <= ms[k].lo && ms[k].hi <= |s| && |ReplaceFrom(s, ms, repl, pos)| == |s| - pos
    ensures |repl(s[ms[k].lo..ms[k].hi])| == ms[k].hi - ms[k].lo
    ensures ReplaceFrom(s, ms, repl, pos)[i - pos] == repl(s[ms[k].lo..ms[k].hi])[i - ms[k].lo]
    decreases |ms|
  {
    ReplaceFromLength(s, ms, repl, pos);
    KeepsLengthsTail(s, ms, repl);
    ReplaceFromLength(s, ms[1..], repl, ms[0].hi);
    if k == 0 {
      InFirstMatch(s, ms, repl, pos, i);
    } else {
      ReplaceFromInMatch(s, ms[1..], repl, ms[0].hi, k - 1, i);
      InLaterMatch(s, ms, repl, pos, k, i);
    }
  }

  lemma {:induction false} InFirstMatch(s: string, ms: seq<Span>, repl: string -> string, pos: nat, i: nat)
    requires MatchesFrom(s, ms, pos) && ms != [] && ms[0].lo <= i < ms[0].hi
    requires pos <= ms[0].lo <= ms[0].hi <= |s|
    requires |repl(s[ms[0].lo..ms[0].hi])| == ms[0].hi - ms[0].lo
    ensures ReplaceFrom(s, ms, repl, pos)[i - pos] == repl(s[ms[0].lo..ms[0].hi])[i - ms[0].lo]
  {
    var m := ms[0];
    var a, b, c := s[pos..m.lo], repl(s[m.lo..m.hi]), ReplaceFrom(s, ms[1..], repl, m.hi);
    assert ReplaceFrom(s, ms, repl, pos) == a + b + c;
    assert (a + b + c)[i - pos] == b[i - m.lo];
  }

  lemma {:induction false} InLaterMatch(s: string, ms: seq<Span>, repl: string -> string, pos: nat, k: nat, i: nat)
    requires MatchesFrom(s, ms, pos) && 0 < k < |ms|
    requires pos <= ms[0].lo <= ms[0].hi <= |s| && MatchesFrom(s, ms[1..], ms[0].hi)
    requires |repl(s[ms[0].lo..ms[0].hi])| == ms[0].hi - ms[0].lo
    requires |ReplaceFrom(s, ms[1..], repl, ms[0].hi)| == |s| - ms[0].hi
    requires ms[0].hi <= ms[1..][k - 1].lo <= i < ms[1..][k - 1].hi <= |s|
    requires |repl(s[ms[1..][k - 1].lo..ms[1..][k - 1].hi])| == ms[1..][k - 1].hi - ms[1..][k - 1].lo
    requires ReplaceFrom(s, ms[1..], repl, ms[0].hi)[i - ms[0].hi] == repl(s[ms[1..][k - 1].lo..ms[1..][k - 1].hi])[i - ms[1..][k - 1].lo]
    ensures ReplaceFrom(s, ms, repl, pos)[i - pos] == repl(s[ms[k].lo..ms[k].hi])[i - ms[k].lo]
  {
    var m := ms[0];
    var a, b, c := s[pos..m.lo], repl(s[m.lo..m.hi]), ReplaceFrom(s, ms[1..], repl, m.hi);
    assert ReplaceFrom(s, ms, repl, pos) == a + b + c;
    assert ms[k] == ms[1..][k - 1];
    assert (a + b + c)[i - pos] == c[i - m.hi];
  }

  /** Every match of a well-formed list starts at or after `pos` and ends inside `s`. */
  lemma {:induction false} MatchesInside(s: string, ms: seq<Span>, pos: nat)
    requires MatchesFrom(s, ms, pos)
    ensures forall k :: 0 <= k < |ms| ==> pos <= ms[k].lo <= ms[k].hi <= |s|
    decreases |ms|
  {
    if ms != [] {
      MatchesInside(s, ms[1..], ms[0].hi);
      forall k | 1 <= k < |ms| ensures pos <= ms[k].lo <= ms[k].hi <= |s| {
        assert ms[k] == ms[1..][k - 1];
      }
    }
  }
}
