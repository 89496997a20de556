/** The "not words" filter of the misspell spell checker: before words are
    looked up, text that is not prose (file system paths, e-mail addresses,
    host names) is overwritten with spaces, so that no word is reported inside
    it and every remaining word keeps its byte offset. */
module NotWords {
  import opened GoLib

  datatype Option<T> = None | Some(value: T)

  /** The whitespace class, which ends a path that follows whitespace or a slash. */
  const Whitespace: set<char> := {' ', '\n', '\r', '\t'}

  /** The terminator class RemovePath chooses from the byte just before a
      slash (or from the slash itself when it starts the remaining text):
      whitespace after whitespace or a slash, `]` or a newline after `[`,
      `)` or a newline after `(`, and no path at all after any other byte. */
  function Terminators(c: char): (r: Option<set<char>>)
    ensures r.Some? ==> '\n' in r.value && '/' !in r.value
  {
    if c == '/' || c == ' ' || c == '\n' || c == '\t' || c == '\r' then Some(Whitespace)
    else if c == '[' then Some({']', '\n'})
    else if c == '(' then Some({')', '\n'})
    else None
  }

  /** What one turn of RemovePath's loop does to the text `s` it has not
      consumed yet: it copies the first `copied` bytes to the output, then
      writes `blanks` spaces for the next `blanks` bytes. A turn that stops
      the loop copies all of `s`. */
  datatype Turn = Turn(copied: nat, blanks: nat)

  function Scan(s: string): (t: Turn)
    requires |s| > 0
    ensures 0 < t.copied + t.blanks <= |s|
  {
    var k := IndexByte(s, '/');
    if k == -1 then Turn(|s|, 0)
    else
      var idx := if k > 0 then k - 1 else 0;
      match Terminators(s[idx])
      case None => Turn(idx + 2, 0)
      case Some(chclass) =>
        var endx := IndexAny(s[idx + 1..], chclass);
        if endx == -1 then Turn(|s|, 0)
        else Turn(idx + 1, endx)
  }

  /** What RemovePath returns for `s`: the turns of its loop, one after the other. */
  function Removed(s: string): (r: string)
    ensures |r| == |s|
    decreases |s|
  {
    if |s| == 0 then ""
    else
      var t := Scan(s);
      s[..t.copied] + Repeat(' ', t.blanks) + Removed(s[t.copied + t.blanks..])
  }

  /** RemovePath: blanks out embedded file system paths such as `/foo/bar`.
      The loop consumes the text from the front and appends what it keeps,
      or the spaces that replace a path, to the output buffer `out`. */
  method RemovePath(input: string) returns (out: string)
    ensures out == Removed(input)
    ensures |out| == |input|
    ensures forall i :: 0 <= i < |input| ==> out[i] == input[i] || out[i] == ' '
    ensures '/' !in input ==> out == input
  {
    out := "";
    var s := input;
    while |s| > 0
      invariant Pending(input, out, s)
      decreases |s|
    {
      var idx := IndexByte(s, '/');
      if idx == -1 {
        StepNoSlash(input, out, s);
        out := out + s;
        break;
      }
      if idx > 0 {
        idx := idx - 1;
      }
      var chclass := Terminators(s[idx]);
      if chclass.None? {
        StepCopy(input, out, s, idx);
        out := out + s[..idx + 2];
        s := s[idx + 2..];
        continue;
      }
      var endx := IndexAny(s[idx + 1..], chclass.value);
      if endx != -1 {
        StepBlank(input, out, s, idx, endx);
        out := out + (s[..idx + 1] + Repeat(' ', endx));
        s := s[idx + endx + 1..];
      } else {
        StepUnterminated(input, out, s, idx);
        out := out + s;
        break;
      }
    }
    RemovedKeepsOrBlanks(input);
    if '/' !in input {
      RemovedNoSlash(input);
    }
  }

  /** The loop's invariant: the buffer followed by what the rest of the
      text turns into is the whole result. */
  ghost predicate Pending(input: string, out: string, s: string) {
    out + Removed(s) == Removed(input)
  }

  /** The turn for text without a slash copies all of it. */
  lemma {:induction false} ScanNoSlash(s: string)
    requires |s| > 0 && IndexByte(s, '/') == -1
    ensures Scan(s) == Turn(|s|, 0)
  {
  }

  /** The turn for a slash after a byte that starts no path copies up to and
      including the slash. */
  lemma {:induction false} ScanCopy(s: string, idx: nat)
    requires |s| > 0 && IndexByte(s, '/') != -1
    requires idx == if IndexByte(s, '/') > 0 then IndexByte(s, '/') - 1 else 0
    requires Terminators(s[idx]).None?
    ensures Scan(s) == Turn(idx + 2, 0)
  {
  }

  /** The turn for a terminated path copies up to the delimiter and blanks
      the path. */
  lemma {:induction false} ScanBlank(s: string, idx: nat, endx: nat)
    requires |s| > 0 && IndexByte(s, '/') != -1
    requires idx == if IndexByte(s, '/') > 0 then IndexByte(s, '/') - 1 else 0
    requires Terminators(s[idx]).Some?
    requires endx == IndexAny(s[idx + 1..], Terminators(s[idx]).value)
    ensures Scan(s) == Turn(idx + 1, endx)
  {
  }

  /** The turn for an unterminated path copies everything. */
  lemma {:induction false} ScanUnterminated(s: string, idx: nat)
    requires |s| > 0 && IndexByte(s, '/') != -1
    requires idx == if IndexByte(s, '/') > 0 then IndexByte(s, '/') - 1 else 0
    requires Terminators(s[idx]).Some?
    requires IndexAny(s[idx + 1..], Terminators(s[idx]).value) == -1
    ensures Scan(s) == Turn(|s|, 0)
  {
  }

  /** One unfolding of Removed, for a turn already worked out. */
  lemma {:induction false} RemovedTurn(s: string, c: nat, b: nat, n: nat)
    requires |s| > 0 && Scan(s) == Turn(c, b) && n == c + b
    ensures n <= |s|
    ensures Removed(s) == (s[..c] + Repeat(' ', b)) + Removed(s[n..])
  {
    var t := Scan(s);
    assert t.copied == c && t.blanks == b;
    assert Removed(s) == (s[..t.copied] + Repeat(' ', t.blanks)) + Removed(s[t.copied + t.blanks..]);
  }

  /** Zero spaces add nothing. */
  lemma {:induction false} NoBlanks(x: string)
    ensures x + Repeat(' ', 0) == x
  {
  }

  /** Appending `w + r` to a buffer is appending `w`, then `r`. */
  lemma {:induction false} AppendSplit(out: string, x: string, w: string, r: string)
    requires x == w + r
    ensures out + x == (out + w) + r
  {
  }

  /** Moving one turn's output from the pending text to the buffer keeps the
      buffer followed by the rest's result the same. */
  lemma {:induction false} Advance(input: string, out: string, s: string, c: nat, b: nat, n: nat)
    requires Pending(input, out, s)
    requires |s| > 0 && Scan(s) == Turn(c, b) && n == c + b
    ensures n <= |s|
    ensures Pending(input, out + (s[..c] + Repeat(' ', b)), s[n..])
  {
    RemovedTurn(s, c, b, n);
    AppendSplit(out, Removed(s), s[..c] + Repeat(' ', b), Removed(s[n..]));
  }

  /** Advance for a turn that blanks nothing. */
  lemma {:induction false} AdvanceCopy(out: string, s: string, c: nat)
    requires |s| > 0 && Scan(s) == Turn(c, 0)
    ensures c <= |s|
    ensures out + Removed(s) == (out + s[..c]) + Removed(s[c..])
  {
    RemovedTurn(s, c, 0, c);
    NoBlanks(s[..c]);
    AppendSplit(out, Removed(s), s[..c], Removed(s[c..]));
  }

  /** A turn that copies all of `s` ends the result. */
  lemma {:induction false} AdvanceLast(input: string, out: string, s: string)
    requires out + Removed(s) == Removed(input)
    requires |s| > 0 && Scan(s) == Turn(|s|, 0)
    ensures out + s == Removed(input)
  {
    RemovedLastTurn(s);
  }

  /** The four ways one turn of RemovePath's loop can go, each keeping the
      loop's invariant or finishing the result: no slash left; a slash that
      starts no path; a terminated path; an unterminated path. */
  lemma {:induction false} StepNoSlash(input: string, out: string, s: string)
    requires Pending(input, out, s)
    requires |s| > 0 && IndexByte(s, '/') == -1
    ensures out + s == Removed(input)
  {
    ScanNoSlash(s);
    AdvanceLast(input, out, s);
  }

  lemma {:induction false} StepCopy(input: string, out: string, s: string, idx: nat)
    requires Pending(input, out, s)
    requires |s| > 0 && IndexByte(s, '/') != -1
    requires idx == if IndexByte(s, '/') > 0 then IndexByte(s, '/') - 1 else 0
    requires Terminators(s[idx]).None?
    ensures idx + 2 <= |s|
    ensures Pending(input, out + s[..idx + 2], s[idx + 2..])
  {
    ScanCopy(s, idx);
    AdvanceCopy(out, s, idx + 2);
  }

  lemma {:induction false} StepBlank(input: string, out: string, s: string, idx: nat, endx: nat)
    requires Pending(input, out, s)
    requires |s| > 0 && IndexByte(s, '/') != -1
    requires idx == if IndexByte(s, '/') > 0 then IndexByte(s, '/') - 1 else 0
    requires Terminators(s[idx]).Some?
    requires endx == IndexAny(s[idx + 1..], Terminators(s[idx]).value)
    ensures idx + endx + 1 <= |s|
    ensures Pending(input, out + (s[..idx + 1] + Repeat(' ', endx)), s[idx + endx + 1..])
  {
    ScanBlank(s, idx, endx);
    AdvanceBlank(input, out, s, idx, endx);
  }

  /** Advance for the turn of a terminated path after the delimiter `s[idx]`. */
  lemma {:induction false} AdvanceBlank(input: string, out: string, s: string, idx: nat, endx: nat)
    requires Pending(input, out, s)
    requires |s| > 0 && Scan(s) == Turn(idx + 1, endx)
    ensures Pending(input, out + (s[..idx + 1] + Repeat(' ', endx)), s[idx + endx + 1..])
  {
    var chunk := s[..idx + 1] + Repeat(' ', endx);
    Advance(input, out, s, idx + 1, endx, idx + endx + 1);
    assert Pending(input, out + chunk, s[idx + endx + 1..]);
  }

  lemma {:induction false} StepUnterminated(input: string, out: string, s: string, idx: nat)
    requires Pending(input, out, s)
    requires |s| > 0 && IndexByte(s, '/') != -1
    requires idx == if IndexByte(s, '/') > 0 then IndexByte(s, '/') - 1 else 0
    requires Terminators(s[idx]).Some?
    requires IndexAny(s[idx + 1..], Terminators(s[idx]).value) == -1
    ensures out + s == Removed(input)
  {
    ScanUnterminated(s, idx);
    AdvanceLast(input, out, s);
  }

  /** `r` is `s` with some bytes other than newlines overwritten by spaces. */
  ghost predicate OnlyBlanks(s: string, r: string) {
    |r| == |s| && forall i :: 0 <= i < |s| ==> r[i] == s[i] || (r[i] == ' ' && s[i] != '\n')
  }

  lemma {:induction false} OnlyBlanksConcat(a: string, a': string, b: string, b': string)
    requires OnlyBlanks(a, a') && OnlyBlanks(b, b')
    ensures OnlyBlanks(a + b, a' + b')
  {
    forall i | 0 <= i < |a + b| ensures (a' + b')[i] == (a + b)[i] || ((a' + b')[i] == ' ' && (a + b)[i] != '\n') {
      if i >= |a| {
        assert (a + b)[i] == b[i - |a|] && (a' + b')[i] == b'[i - |a|];
      }
    }
  }

  /** The bytes a turn blanks form a path span, which never holds a newline:
      the span ends before the first byte of the terminator class, and every
      terminator class contains the newline. */
  lemma {:induction false} ScanBlanksNoNewline(s: string)
    requires |s| > 0
    ensures forall j :: Scan(s).copied <= j < Scan(s).copied + Scan(s).blanks ==> s[j] != '\n'
  {
    var k := IndexByte(s, '/');
    if k != -1 {
      var idx := if k > 0 then k - 1 else 0;
      var cls := Terminators(s[idx]);
      if cls.Some? {
        var endx := IndexAny(s[idx + 1..], cls.value);
        if endx != -1 {
          ScanBlank(s, idx, endx);
          forall j | idx + 1 <= j < idx + 1 + endx ensures s[j] != '\n' {
            assert s[j] == s[idx + 1..][j - idx - 1];
          }
        }
      }
    }
  }

  /** Copying `c` bytes and then blanking `b` bytes none of which is a newline
      only overwrites bytes other than newlines with spaces. */
  lemma {:induction false} CopyThenBlank(s: string, c: nat, b: nat)
    requires c + b <= |s|
    requires forall j :: c <= j < c + b ==> s[j] != '\n'
    ensures OnlyBlanks(s[..c + b], s[..c] + Repeat(' ', b))
  {
    var span := s[c..c + b];
    assert s[..c + b] == s[..c] + span;
    assert OnlyBlanks(span, Repeat(' ', b)) by {
      forall j | 0 <= j < b ensures span[j] != '\n' {
        assert span[j] == s[c + j];
      }
    }
    OnlyBlanksConcat(s[..c], s[..c], span, Repeat(' ', b));
  }

  /** Joining the result of a prefix and of the rest of `s`. */
  lemma {:induction false} OnlyBlanksJoin(s: string, n: nat, w: string, r: string, whole: string)
    requires n <= |s| && OnlyBlanks(s[..n], w) && OnlyBlanks(s[n..], r)
    requires whole == w + r
    ensures OnlyBlanks(s, whole)
  {
    OnlyBlanksConcat(s[..n], w, s[n..], r);
    assert s[..n] + s[n..] == s;
  }

  /** RemovePath changes bytes only by overwriting them with spaces, and never
      overwrites a newline. */
  lemma {:induction false} RemovedOnlyBlanks(s: string)
    ensures OnlyBlanks(s, Removed(s))
    decreases |s|
  {
    if |s| > 0 {
      var t := Scan(s);
      var c, b := t.copied, t.blanks;
      RemovedTurn(s, c, b, c + b);
      ScanBlanksNoNewline(s);
      CopyThenBlank(s, c, b);
      RemovedOnlyBlanks(s[c + b..]);
      OnlyBlanksJoin(s, c + b, s[..c] + Repeat(' ', b), Removed(s[c + b..]), Removed(s));
    }
  }

  /** Each output byte is the input byte at the same index or a space. */
  lemma {:induction false} RemovedKeepsOrBlanks(s: string)
    ensures |Removed(s)| == |s|
    ensures forall i :: 0 <= i < |s| ==> Removed(s)[i] == s[i] || Removed(s)[i] == ' '
  {
    RemovedOnlyBlanks(s);
  }

  /** Line structure survives: a byte of the output is a newline exactly when
      the input byte at that index is one. */
  lemma {:induction false} RemovedKeepsNewlines(s: string)
    ensures forall i :: 0 <= i < |s| ==> (Removed(s)[i] == '\n' <==> s[i] == '\n')
  {
    RemovedOnlyBlanks(s);
  }

  /** A turn that copies all of `s` leaves it as it is. */
  lemma {:induction false} RemovedLastTurn(s: string)
    requires |s| > 0 && Scan(s) == Turn(|s|, 0)
    ensures Removed(s) == s
  {
    assert s[..|s|] + Repeat(' ', 0) == s;
    assert Removed(s[|s|..]) == "";
  }

  /** Text without a slash comes back unchanged. */
  lemma {:induction false} RemovedNoSlash(s: string)
    requires '/' !in s
    ensures Removed(s) == s
  {
    if |s| > 0 {
      assert IndexByte(s, '/') == -1;
      ScanNoSlash(s);
      RemovedLastTurn(s);
    }
  }

  /** A turn copies everything before the first slash unchanged. */
  lemma {:induction false} ScanKeepsBeforeFirstSlash(s: string, k: nat)
    requires 0 < k <= |s|
    requires forall j :: 0 <= j < k ==> s[j] != '/'
    ensures k <= Scan(s).copied
  {
  }

  /** Everything before the first slash of the text is copied unchanged. */
  lemma {:induction false} RemovedKeepsBeforeFirstSlash(s: string, k: nat)
    requires k <= |s|
    requires forall j :: 0 <= j < k ==> s[j] != '/'
    ensures Removed(s)[..k] == s[..k]
  {
    if k > 0 {
      ScanKeepsBeforeFirstSlash(s, k);
      var t := Scan(s);
      var w := s[..t.copied] + Repeat(' ', t.blanks);
      assert Removed(s) == w + Removed(s[t.copied + t.blanks..]);
      assert w[..k] == s[..k];
    }
  }

  /** In particular a text that does not start with a slash keeps its first byte. */
  lemma {:induction false} RemovedFirstByte(s: string)
    requires |s| > 0 && s[0] != '/'
    ensures Removed(s)[0] == s[0]
  {
    RemovedKeepsBeforeFirstSlash(s, 1);
    assert Removed(s)[0] == Removed(s)[..1][0];
  }

  /** A slash that follows a byte other than whitespace, `[` or `(` (as in
      "and/or") is copied, together with everything before it, and the scan
      goes on after it. */
  lemma {:induction false} WordSlashKept(p: string, rest: string)
    requires '/' !in p && |p| > 0
    requires p[|p| - 1] !in {' ', '\n', '\t', '\r', '[', '('}
    ensures Removed(p + "/" + rest) == p + "/" + Removed(rest)
  {
    var s := p + "/" + rest;
    assert forall j :: 0 <= j < |p| ==> s[j] == p[j];
    IndexByteAt(s, '/', |p|);
    ScanCopy(s, |p| - 1);
    assert s[..|p| + 1] + Repeat(' ', 0) == p + "/";
    assert s[|p| + 1..] == rest;
  }

  /** The turn for a path after a delimiter `s[d]` that comes just before the
      first slash, ended by the terminator `s[e]`. */
  lemma {:induction false} ScanTerminated(s: string, d: nat, e: nat)
    requires d + 1 < e < |s|
    requires forall j :: 0 <= j < d ==> s[j] != '/'
    requires s[d] != '/' && Terminators(s[d]).Some? && s[d + 1] == '/'
    requires forall j :: d + 1 < j < e ==> s[j] !in Terminators(s[d]).value
    requires s[e] in Terminators(s[d]).value
    ensures Scan(s) == Turn(d + 1, e - d - 1)
  {
    IndexByteAt(s, '/', d + 1);
    var after := s[d + 1..];
    assert forall j :: 0 <= j < e - d - 1 ==> after[j] == s[d + 1 + j];
    IndexAnyAt(after, Terminators(s[d]).value, e - d - 1);
    ScanBlank(s, d, e - d - 1);
  }

  /** The general step for a path after a delimiter `s[d]` (whitespace, `[`
      or `(`) followed by a slash at `d + 1`, the first slash of `s`: the bytes
      from the slash up to the first byte `s[e]` of the terminator class become
      spaces; the delimiter and all before it are kept, and the scan goes on at
      the terminator, which is kept too. */
  lemma {:induction false} TerminatedPathBlanked(s: string, d: nat, e: nat)
    requires d + 1 < e < |s|
    requires forall j :: 0 <= j < d ==> s[j] != '/'
    requires s[d] != '/' && Terminators(s[d]).Some? && s[d + 1] == '/'
    requires forall j :: d + 1 < j < e ==> s[j] !in Terminators(s[d]).value
    requires s[e] in Terminators(s[d]).value
    ensures Removed(s) == s[..d + 1] + Repeat(' ', e - d - 1) + Removed(s[e..])
    ensures Removed(s[e..])[0] == s[e]
  {
    ScanTerminated(s, d, e);
    RemovedTurn(s, d + 1, e - d - 1, e);
    assert s[e..][0] == s[e];
    RemovedFirstByte(s[e..]);
  }

  /** Where the parts of `p + [c] + "/" + path + [t] + rest` lie. */
  lemma {:induction false} PathLayout(p: string, c: char, path: string, t: char, rest: string)
    ensures var s := p + [c] + "/" + path + [t] + rest;
      && |s| == |p| + |path| + 3 + |rest|
      && (forall j :: 0 <= j < |p| ==> s[j] == p[j])
      && s[|p|] == c && s[|p| + 1] == '/'
      && (forall j :: 0 <= j < |path| ==> s[|p| + 2 + j] == path[j])
      && s[|p| + 2 + |path|] == t
      && s[..|p| + 1] == p + [c]
      && s[|p| + 2 + |path|..] == [t] + rest
  {
    var s := p + [c] + "/" + path + [t] + rest;
    var front := p + [c];
    var back := [t] + rest;
    assert s == front + ("/" + path) + back;
  }

  /** TerminatedPathBlanked with the kept prefix, the number of spaces and the
      rest of the text named by the caller. */
  lemma {:induction false} TerminatedPathParts(s: string, d: nat, e: nat, head: string, b: nat, tail: string)
    requires d + 1 < e < |s|
    requires forall j :: 0 <= j < d ==> s[j] != '/'
    requires s[d] != '/' && Terminators(s[d]).Some? && s[d + 1] == '/'
    requires forall j :: d + 1 < j < e ==> s[j] !in Terminators(s[d]).value
    requires s[e] in Terminators(s[d]).value
    requires head == s[..d + 1] && b == e - d - 1 && tail == s[e..]
    ensures Removed(s) == head + Repeat(' ', b) + Removed(tail)
    ensures Removed(tail)[0] == s[e]
  {
    TerminatedPathBlanked(s, d, e);
  }

  /** A path after a delimiter `c` (whitespace, `[` or `(`) is blanked up to
      the first byte `t` of the delimiter's terminator class; `c` and `t` are
      kept, and the scan goes on at `t`. */
  lemma {:induction false} DelimitedPathBlanked(p: string, c: char, path: string, t: char, rest: string)
    requires '/' !in p && c != '/' && Terminators(c).Some?
    requires forall i :: 0 <= i < |path| ==> path[i] !in Terminators(c).value
    requires t in Terminators(c).value
    ensures Removed(p + [c] + "/" + path + [t] + rest)
         == p + [c] + Repeat(' ', 1 + |path|) + Removed([t] + rest)
    ensures Removed([t] + rest)[0] == t
  {
    var s, e := p + [c] + "/" + path + [t] + rest, |p| + 2 + |path|;
    PathLayout(p, c, path, t, rest);
    forall j | |p| + 1 < j < e ensures s[j] !in Terminators(c).value {
      assert s[j] == path[j - |p| - 2];
    }
    TerminatedPathParts(s, |p|, e, p + [c], 1 + |path|, [t] + rest);
  }

  /** A path after `[` (or `(`) is blanked up to the first `]` (or `)`) or
      newline; the opening bracket and the terminator are kept. */
  lemma {:induction false} BracketedPathBlanked(p: string, open: char, close: char, path: string, t: char, rest: string)
    requires '/' !in p
    requires (open == '[' && close == ']') || (open == '(' && close == ')')
    requires forall i :: 0 <= i < |path| ==> path[i] != close && path[i] != '\n'
    requires t == close || t == '\n'
    ensures Removed(p + [open] + "/" + path + [t] + rest)
         == p + [open] + Repeat(' ', 1 + |path|) + Removed([t] + rest)
    ensures Removed([t] + rest)[0] == t
  {
    DelimitedPathBlanked(p, open, path, t, rest);
  }

  /** A path after a space, tab, newline or carriage return is blanked up to
      the next of those four bytes; the delimiter and the terminator are kept. */
  lemma {:induction false} WhitespacePathBlanked(p: string, ws: char, path: string, t: char, rest: string)
    requires '/' !in p
    requires ws in Whitespace && t in Whitespace
    requires forall i :: 0 <= i < |path| ==> path[i] !in Whitespace
    ensures Removed(p + [ws] + "/" + path + [t] + rest)
         == p + [ws] + Repeat(' ', 1 + |path|) + Removed([t] + rest)
    ensures Removed([t] + rest)[0] == t
  {
    DelimitedPathBlanked(p, ws, path, t, rest);
  }

  /** A slash at the very front of the remaining text is itself kept; only the
      bytes after it, up to the next whitespace byte, become spaces. */
  lemma {:induction false} LeadingSlashPathBlanked(path: string, t: char, rest: string)
    requires t in Whitespace
    requires forall i :: 0 <= i < |path| ==> path[i] !in Whitespace
    ensures Removed("/" + path + [t] + rest) == "/" + Repeat(' ', |path|) + Removed([t] + rest)
    ensures Removed([t] + rest)[0] == t
  {
    var s := "/" + path + [t] + rest;
    ScanLeadingSlash(path, t, rest);
    assert s[..1] == "/" && s[|path| + 1..] == [t] + rest;
    RemovedTurnParts(s, 1, |path|, |path| + 1, "/", [t] + rest);
    RemovedFirstByte([t] + rest);
  }

  /** RemovedTurn with the kept prefix and the rest of the text named by the caller. */
  lemma {:induction false} RemovedTurnParts(s: string, c: nat, b: nat, n: nat, head: string, tail: string)
    requires |s| > 0 && Scan(s) == Turn(c, b) && n == c + b
    requires c <= |s| && head == s[..c]
    requires n <= |s| && tail == s[n..]
    ensures Removed(s) == head + Repeat(' ', b) + Removed(tail)
  {
    RemovedTurn(s, c, b, n);
  }

  /** The turn for a leading slash followed by a path ended by whitespace. */
  lemma {:induction false} ScanLeadingSlash(path: string, t: char, rest: string)
    requires t in Whitespace
    requires forall i :: 0 <= i < |path| ==> path[i] !in Whitespace
    ensures Scan("/" + path + [t] + rest) == Turn(1, |path|)
  {
    var s := "/" + path + [t] + rest;
    IndexByteAt(s, '/', 0);
    var after := s[1..];
    assert after == path + [t] + rest;
    assert forall i :: 0 <= i < |path| ==> after[i] == path[i];
    IndexAnyAt(after, Whitespace, |path|);
    ScanBlank(s, 0, |path|);
  }

  /** A path after whitespace, `[` or `(` with no terminator after it: the
      whole remaining text is copied unchanged and the scan stops. */
  lemma {:induction false} UnterminatedPathKept(p: string, c: char, tail: string)
    requires '/' !in p && c != '/' && Terminators(c).Some?
    requires forall i :: 0 <= i < |tail| ==> tail[i] !in Terminators(c).value
    ensures Removed(p + [c] + "/" + tail) == p + [c] + "/" + tail
  {
    ScanUnterminatedPath(p, c, tail);
    RemovedLastTurn(p + [c] + "/" + tail);
  }

  /** The turn for a path after a delimiter with no terminator after it. */
  lemma {:induction false} ScanUnterminatedPath(p: string, c: char, tail: string)
    requires '/' !in p && c != '/' && Terminators(c).Some?
    requires forall i :: 0 <= i < |tail| ==> tail[i] !in Terminators(c).value
    ensures Scan(p + [c] + "/" + tail) == Turn(|p| + 2 + |tail|, 0)
  {
    var s := p + [c] + "/" + tail;
    assert forall j :: 0 <= j < |p| ==> s[j] == p[j];
    IndexByteAt(s, '/', |p| + 1);
    var after := s[|p| + 1..];
    assert after == "/" + tail;
    assert forall i :: 0 <= i < |tail| ==> after[1 + i] == tail[i];
    assert IndexAny(after, Terminators(c).value) == -1;
    assert s[|p|] == c;
    ScanUnterminated(s, |p|);
  }

  /** The same at the front: a leading slash with no whitespace after it
      leaves the whole remaining text unchanged. */
  lemma {:induction false} UnterminatedLeadingSlashKept(tail: string)
    requires forall i :: 0 <= i < |tail| ==> tail[i] !in Whitespace
    ensures Removed("/" + tail) == "/" + tail
  {
    var s := "/" + tail;
    IndexByteAt(s, '/', 0);
    assert s[1..] == tail;
    assert IndexAny(s[1..], Whitespace) == -1;
    ScanUnterminated(s, 0);
    RemovedLastTurn(s);
  }

  /** replaceWithBlanks: as many spaces as `s` has bytes. */
  function ReplaceWithBlanks(s: string): (r: string)
    ensures |r| == |s|
    ensures forall i :: 0 <= i < |r| ==> r[i] == ' '
  {
    Repeat(' ', |s|)
  }

  /** Replacing matches by ReplaceWithBlanks blanks exactly the matched
      bytes and keeps every other byte where it was. */
  lemma {:induction false} BlankedMatches(s: string, ms: seq<Span>)
    requires MatchesFrom(s, ms, 0)
    ensures |ReplaceAllStringFunc(s, ms, ReplaceWithBlanks)| == |s|
    ensures forall i :: 0 <= i < |s| ==>
      ReplaceAllStringFunc(s, ms, ReplaceWithBlanks)[i] == if Covered(ms, i) then ' ' else s[i]
  {
    var r := ReplaceAllStringFunc(s, ms, ReplaceWithBlanks);
    assert KeepsLengths(s, ms, ReplaceWithBlanks);
    assert forall k :: 0 <= k < |ms| ==>
      ms[k].lo <= ms[k].hi <= |s| && r[ms[k].lo..ms[k].hi] == ReplaceWithBlanks(s[ms[k].lo..ms[k].hi]);
    forall i | 0 <= i < |s| && Covered(ms, i) ensures r[i] == ' ' {
      var k :| 0 <= k < |ms| && ms[k].lo <= i < ms[k].hi;
      BlankInside(r, ms[k].lo, ms[k].hi, i);
    }
  }

  /** A byte inside a run of spaces is a space. */
  lemma {:induction false} BlankInside(r: string, lo: nat, hi: nat, i: nat)
    requires lo <= i < hi <= |r| && r[lo..hi] == ReplaceWithBlanks(r[lo..hi])
    ensures r[i] == ' '
  {
    assert r[i] == r[lo..hi][i - lo];
  }

  /** Blanks every match in `ms` (the value of ReplaceAllStringFunc with
      replaceWithBlanks). */
  function BlankMatches(s: string, ms: seq<Span>): (r: string)
    requires MatchesFrom(s, ms, 0)
    ensures |r| == |s|
    ensures forall i :: 0 <= i < |s| ==> r[i] == if Covered(ms, i) then ' ' else s[i]
  {
    BlankedMatches(s, ms);
    ReplaceAllStringFunc(s, ms, ReplaceWithBlanks)
  }

  /** RemoveEmail: blanks every e-mail-like match. `reEmail` stands for the
      expression's FindAllStringIndex, which is not modelled. */
  function RemoveEmail(s: string, reEmail: string -> seq<Span>): (r: string)
    requires MatchesFrom(s, reEmail(s), 0)
    ensures |r| == |s|
    ensures forall i :: 0 <= i < |s| ==> r[i] == if Covered(reEmail(s), i) then ' ' else s[i]
  {
    BlankMatches(s, reEmail(s))
  }

  /** RemoveHost: blanks every host-name-like match. `reHost` stands for the
      expression's FindAllStringIndex, which is not modelled. */
  function RemoveHost(s: string, reHost: string -> seq<Span>): (r: string)
    requires MatchesFrom(s, reHost(s), 0)
    ensures |r| == |s|
    ensures forall i :: 0 <= i < |s| ==> r[i] == if Covered(reHost(s), i) then ' ' else s[i]
  {
    BlankMatches(s, reHost(s))
  }

  /** RemoveNotWords on the text StripURL returned: paths first, then e-mail
      addresses, then host names. The result has the length of its input
      and differs from it only by spaces. */
  function RemoveNotWords(urlStripped: string, reEmail: string -> seq<Span>, reHost: string -> seq<Span>): (r: string)
    requires forall t :: MatchesFrom(t, reEmail(t), 0)
    requires forall t :: MatchesFrom(t, reHost(t), 0)
    ensures |r| == |urlStripped|
    ensures forall i :: 0 <= i < |r| ==> r[i] == urlStripped[i] || r[i] == ' '
  {
    var paths := Removed(urlStripped);
    RemovedOnlyBlanks(urlStripped);
    RemoveHost(RemoveEmail(paths, reEmail), reHost)
  }
}
