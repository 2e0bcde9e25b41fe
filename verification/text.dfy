/** Python string primitives the application relies on, over `string = seq<char>`:
    `str.isspace`/`strip`, ASCII `lower`, `split(sep)`, `sep.join`, `startswith`,
    `endswith` and `find(sub, start)`. */
module Text {

  /** The characters Python's `str.isspace` accepts, which are exactly the ones
      `str.strip()` (no argument) removes. */
  predicate IsSpace(c: char) {
    || c == ' '
    || ('\t' <= c <= '\r')
    || ('\U{1C}' <= c <= '\U{1F}')
    || c == '\U{85}' || c == '\U{A0}' || c == '\U{1680}'
    || ('\U{2000}' <= c <= '\U{200A}')
    || c == '\U{2028}' || c == '\U{2029}' || c == '\U{202F}' || c == '\U{205F}' || c == '\U{3000}'
  }

  /** Number of leading whitespace characters. */
  function LeadingSpaces(s: string): (n: nat)
    ensures n <= |s|
    ensures forall k :: 0 <= k < n ==> IsSpace(s[k])
    ensures n == |s| || !IsSpace(s[n])
  {
    if |s| > 0 && IsSpace(s[0]) then 1 + LeadingSpaces(s[1..]) else 0
  }

  /** Number of trailing whitespace characters. */
  function TrailingSpaces(s: string): (n: nat)
    ensures n <= |s|
    ensures forall k :: |s| - n <= k < |s| ==> IsSpace(s[k])
    ensures n == |s| || !IsSpace(s[|s| - n - 1])
  {
    if |s| > 0 && IsSpace(s[|s| - 1]) then 1 + TrailingSpaces(s[..|s| - 1]) else 0
  }

  /** Python `s.strip()`. */
  function Strip(s: string): (r: string)
    ensures LeadingSpaces(s) + |r| <= |s|
    ensures r == s[LeadingSpaces(s)..LeadingSpaces(s) + |r|]
    ensures r == "" <==> forall k :: 0 <= k < |s| ==> IsSpace(s[k])
    ensures r != "" ==> !IsSpace(r[0]) && !IsSpace(r[|r| - 1])
    ensures forall k :: LeadingSpaces(s) + |r| <= k < |s| ==> IsSpace(s[k])
  {
    var t := s[LeadingSpaces(s)..];
    var r := t[..|t| - TrailingSpaces(t)];
    assert r != "" ==> r[0] == s[LeadingSpaces(s)];
    r
  }

  /** Stripping twice strips nothing more. */
  lemma StripIdempotent(s: string)
    ensures Strip(Strip(s)) == Strip(s)
  {
    var r := Strip(s);
    if r != "" {
      assert LeadingSpaces(r) == 0;
      assert TrailingSpaces(r) == 0;
    }
  }

  /** Stripping adds no character. */
  lemma StripKeepsOut(s: string, c: char)
    requires c !in s
    ensures c !in Strip(s)
  {
  }

  /** A string that neither starts nor ends with whitespace is its own
      strip. */
  lemma StripUnspaced(s: string)
    requires |s| > 0 && !IsSpace(s[0]) && !IsSpace(s[|s| - 1])
    ensures Strip(s) == s
  {
    assert LeadingSpaces(s) == 0;
    assert TrailingSpaces(s) == 0;
    assert s[0..] == s;
  }

  /** Stripping keeps every character between two non-space characters. */
  lemma StripSpan(s: string, p: int, q: int)
    requires 0 <= p <= q < |s| && !IsSpace(s[p]) && !IsSpace(s[q])
    ensures |Strip(s)| >= q - p + 1
  {
  }

  /** ASCII case mapping used for Python's `lower()` (see README for the
      non-ASCII part left out). */
  function LowerChar(c: char): char {
    if 'A' <= c <= 'Z' then (c as int - 'A' as int + 'a' as int) as char else c
  }

  /** Python `s.lower()`: one character for one character. */
  function Lower(s: string): (r: string)
    ensures |r| == |s|
    ensures forall k :: 0 <= k < |s| ==> r[k] == LowerChar(s[k])
  {
    if |s| == 0 then "" else [LowerChar(s[0])] + Lower(s[1..])
  }

  /** Python `s.startswith(p)`. */
  predicate StartsWith(s: string, p: string) {
    |p| <= |s| && s[..|p|] == p
  }

  /** Python `s.endswith(p)`. */
  predicate EndsWith(s: string, p: string) {
    |p| <= |s| && s[|s| - |p|..] == p
  }

  /** Python `sep.join(parts)`. */
  function Join(parts: seq<string>, sep: string): string {
    if |parts| == 0 then ""
    else if |parts| == 1 then parts[0]
    else parts[0] + sep + Join(parts[1..], sep)
  }

  /** Concatenation of a list of strings (`"".join(parts)`). */
  function Concat(parts: seq<string>): string {
    if |parts| == 0 then "" else parts[0] + Concat(parts[1..])
  }

  lemma ConcatAppend(a: seq<string>, b: seq<string>)
    ensures Concat(a + b) == Concat(a) + Concat(b)
  {
    if |a| > 0 {
      assert (a + b)[1..] == a[1..] + b;
      ConcatAppend(a[1..], b);
    } else {
      assert a + b == b;
    }
  }

  lemma JoinConsHead(c: char, parts: seq<string>, sep: string)
    requires |parts| > 0
    ensures Join([[c] + parts[0]] + parts[1..], sep) == [c] + Join(parts, sep)
  {
    var ps := [[c] + parts[0]] + parts[1..];
    assert ps[1..] == parts[1..];
  }

  /** Python `s.split(c)` with an explicit one-character separator: the pieces
      between separators, empty pieces included; joining them back with `c`
      gives `s` again. */
  function Split(s: string, c: char): (r: seq<string>)
    ensures |r| >= 1
    ensures forall i :: 0 <= i < |r| ==> c !in r[i]
    ensures Join(r, [c]) == s
  {
    if |s| == 0 then [""]
    else
      var rest := Split(s[1..], c);
      if s[0] == c then
        assert Join([""] + rest, [c]) == [c] + Join(rest, [c]) by {
          assert ([""] + rest)[1..] == rest;
        }
        [""] + rest
      else
        JoinConsHead(s[0], rest, [c]);
        [[s[0]] + rest[0]] + rest[1..]
  }

  /** The text after the last `c` of `s`: the last piece of
      `s.split(c)`, the whole of `s` when it has no `c`. */
  function LastPiece(s: string, c: char): (r: string)
    ensures c !in r
    ensures |r| <= |s|
    decreases |s|
  {
    if |s| == 0 then ""
    else if s[|s| - 1] == c then ""
    else LastPiece(s[..|s| - 1], c) + [s[|s| - 1]]
  }

  /** The last piece ends `s`, and is either all of `s` or follows a `c`. */
  lemma {:induction false} LastPieceSuffix(s: string, c: char)
    ensures EndsWith(s, LastPiece(s, c))
    ensures |LastPiece(s, c)| < |s| ==> s[|s| - |LastPiece(s, c)| - 1] == c
    decreases |s|
  {
    if |s| > 0 && s[|s| - 1] != c {
      var front := s[..|s| - 1];
      LastPieceSuffix(front, c);
      var p := LastPiece(front, c);
      assert LastPiece(s, c) == p + [s[|s| - 1]];
      assert s[|s| - |p| - 1..] == front[|front| - |p|..] + [s[|s| - 1]];
      if |p| < |front| {
        assert s[|s| - |p| - 2] == front[|front| - |p| - 1];
      }
    }
  }

  /** A string without the separator is its own last piece. */
  lemma {:induction false} LastPieceWithout(s: string, c: char)
    requires c !in s
    ensures LastPiece(s, c) == s
    decreases |s|
  {
    if |s| > 0 {
      assert c !in s[..|s| - 1];
      LastPieceWithout(s[..|s| - 1], c);
      assert s == s[..|s| - 1] + [s[|s| - 1]];
    }
  }

  /** Text in front does not change the last piece of a string that holds
      the separator. */
  lemma {:induction false} LastPiecePrefixed(p: string, s: string, c: char)
    requires c in s
    ensures LastPiece(p + s, c) == LastPiece(s, c)
    decreases |s|
  {
    var x := p + s;
    var last := s[|s| - 1];
    assert x[|x| - 1] == last;
    if last != c {
      assert c in s[..|s| - 1] by {
        var k :| 0 <= k < |s| && s[k] == c;
        assert s[..|s| - 1][k] == c;
      }
      assert x[..|x| - 1] == p + s[..|s| - 1];
      LastPiecePrefixed(p, s[..|s| - 1], c);
    }
  }

  /** `r` ends `s`, holds no `c`, and is all of `s` or follows a `c`. */
  predicate IsLastPiece(s: string, c: char, r: string) {
    EndsWith(s, r) && c !in r && (|r| < |s| ==> s[|s| - |r| - 1] == c)
  }

  /** Only one suffix of `s` is its last piece. */
  lemma {:induction false} SuffixAfterLastUnique(s: string, c: char, a: string, b: string)
    requires IsLastPiece(s, c, a) && IsLastPiece(s, c, b)
    ensures a == b
  {
  }

  /** The last piece of a join ends the joined string, right after the last
      separator. */
  lemma {:induction false} JoinLast(r: seq<string>, sep: string)
    requires |r| >= 1
    ensures EndsWith(Join(r, sep), r[|r| - 1])
    ensures |r| > 1 ==> Join(r, sep) == Join(r[..|r| - 1], sep) + sep + r[|r| - 1]
  {
    if |r| > 1 {
      JoinLast(r[1..], sep);
      if |r| > 2 {
        assert r[1..][..|r[1..]| - 1] == r[..|r| - 1][1..];
      }
    }
  }

  /** The last piece of `split` is the last piece of the string. */
  lemma {:induction false} SplitLastIsLastPiece(s: string, c: char)
    ensures IsLastPiece(s, c, Split(s, c)[|Split(s, c)| - 1])
  {
    var r := Split(s, c);
    var last := r[|r| - 1];
    JoinLast(r, [c]);
    assert c !in last;
    if |r| > 1 {
      var front := Join(r[..|r| - 1], [c]);
      assert s == front + [c] + last;
      assert s[|s| - |last| - 1] == ([c] + last)[0];
    }
  }

  /** `LastPiece` is the last piece of `split`. */
  lemma {:induction false} LastPieceIsLastSplit(s: string, c: char)
    ensures LastPiece(s, c) == Split(s, c)[|Split(s, c)| - 1]
  {
    LastPieceSuffix(s, c);
    SplitLastIsLastPiece(s, c);
    SuffixAfterLastUnique(s, c, LastPiece(s, c), Split(s, c)[|Split(s, c)| - 1]);
  }

  /** A string holding the separator splits into more than one piece. */
  lemma {:induction false} SplitHasSeparator(s: string, c: char)
    requires c in s
    ensures |Split(s, c)| > 1
  {
  }

  /** The lower-cased extension of a file name:
      `name.split('.')[-1].lower()`, the whole name when it has no dot. */
  function ExtOf(fileName: string): (ext: string)
    ensures '.' !in ext
    ensures |ext| <= |fileName|
    ensures ext == Lower(fileName[|fileName| - |ext|..])
    ensures '.' !in fileName[|fileName| - |ext|..]
    ensures |ext| < |fileName| ==> fileName[|fileName| - |ext| - 1] == '.'
  {
    var piece := LastPiece(fileName, '.');
    LastPieceSuffix(fileName, '.');
    assert piece == fileName[|fileName| - |piece|..];
    LowerKeepsOut(piece, '.');
    var ext := Lower(piece);
    assert |ext| == |piece|;
    ext
  }

  /** Lower-casing introduces no character outside 'a'..'z'. */
  lemma {:induction false} LowerKeepsOut(s: string, c: char)
    requires c !in s && !('a' <= c <= 'z')
    ensures c !in Lower(s)
  {
  }

  /** The extension is the lower-cased last piece of `split('.')`. */
  lemma {:induction false} ExtOfIsLastSplit(fileName: string)
    ensures ExtOf(fileName) == Lower(Split(fileName, '.')[|Split(fileName, '.')| - 1])
  {
    LastPieceIsLastSplit(fileName, '.');
  }

  /** The extension of a name that has a dot survives any directory in
      front. */
  lemma ExtOfPrefixed(dir: string, name: string)
    requires '.' in name
    ensures ExtOf(dir + name) == ExtOf(name)
  {
    LastPiecePrefixed(dir, name, '.');
  }


  /** `sub` occurs in `s` at index `i` (for the empty `sub`: `i <= |s|`). */
  predicate OccursAt(s: string, sub: string, i: int) {
    0 <= i && i + |sub| <= |s| && s[i..i + |sub|] == sub
  }

  /** Python `s.find(sub, start)` for `start >= 0`: the least occurrence index
      at or after `start`, or -1 when there is none. */
  function Find(s: string, sub: string, start: nat): (r: int)
    ensures r == -1 || (start <= r && OccursAt(s, sub, r))
    decreases |s| + 1 - start
  {
    if start + |sub| > |s| then -1
    else if OccursAt(s, sub, start) then start
    else Find(s, sub, start + 1)
  }

  /** `find` skips no occurrence: any occurrence at or after `start` is
      found, or an earlier one is. */
  lemma {:induction false} FindLeast(s: string, sub: string, start: nat, j: int)
    requires start <= j && OccursAt(s, sub, j)
    ensures Find(s, sub, start) != -1 && Find(s, sub, start) <= j
    decreases |s| + 1 - start
  {
    if start + |sub| <= |s| && !OccursAt(s, sub, start) {
      FindLeast(s, sub, start + 1, j);
    }
  }

  /** Every text followed by '\n'. */
  function TerminateAll(ts: seq<string>): string {
    if |ts| == 0 then "" else ts[0] + "\n" + TerminateAll(ts[1..])
  }

  lemma TerminateAllAppend(a: seq<string>, b: seq<string>)
    ensures TerminateAll(a + b) == TerminateAll(a) + TerminateAll(b)
  {
    if |a| > 0 {
      assert (a + b)[1..] == a[1..] + b;
      TerminateAllAppend(a[1..], b);
    } else {
      assert a + b == b;
    }
  }

  /** Joining with '\n' and adding a final '\n' terminates every part. */
  lemma {:induction false} JoinTerminated(g: seq<string>)
    requires |g| > 0
    ensures Join(g, "\n") + "\n" == TerminateAll(g)
  {
    if |g| > 1 {
      JoinTerminated(g[1..]);
    }
  }
}
