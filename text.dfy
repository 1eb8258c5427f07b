// The `str` operations the viewer relies on: trimming Unicode white space,
// ASCII lower-casing, prefix/suffix/substring tests, `replace` and `lines`.
module Text {
  import opened Wrappers

  /** The Unicode White_Space property, which `char::is_whitespace` and
      `str::trim` use. */
  predicate IsWhitespace(c: char)
  {
    var n := c as int;
    (0x09 <= n <= 0x0D) || n == 0x20 || n == 0x85 || n == 0xA0 || n == 0x1680
    || (0x2000 <= n <= 0x200A) || n == 0x2028 || n == 0x2029 || n == 0x202F
    || n == 0x205F || n == 0x3000
  }

  predicate AllWhitespace(s: string)
  {
    forall i :: 0 <= i < |s| ==> IsWhitespace(s[i])
  }

  /** `str::trim_start`: drops the leading white space and nothing else. */
  function TrimStart(s: string): (r: string)
    ensures |r| <= |s| && r == s[|s| - |r|..]
    ensures r != [] ==> !IsWhitespace(r[0])
    ensures AllWhitespace(s[..|s| - |r|])
  {
    if s != [] && IsWhitespace(s[0]) then
      var r := TrimStart(s[1..]);
      assert s[..|s| - |r|] == [s[0]] + s[1..][..|s[1..]| - |r|];
      r
    else s
  }

  /** `str::trim_end`: drops the trailing white space and nothing else. */
  function TrimEnd(s: string): (r: string)
    ensures |r| <= |s| && r == s[..|r|]
    ensures r != [] ==> !IsWhitespace(r[|r| - 1])
    ensures AllWhitespace(s[|r|..])
  {
    if s != [] && IsWhitespace(s[|s| - 1]) then
      var r := TrimEnd(s[..|s| - 1]);
      assert s[|r|..] == s[..|s| - 1][|r|..] + [s[|s| - 1]];
      r
    else s
  }

  /** `str::trim`: both ends' white space removed; empty exactly when the
      whole string is white space. */
  function Trim(s: string): (r: string)
    ensures |r| <= |s|
    ensures r != [] ==> !IsWhitespace(r[0]) && !IsWhitespace(r[|r| - 1])
    ensures r == [] <==> AllWhitespace(s)
  {
    var t := TrimStart(s);
    var r := TrimEnd(t);
    if r == [] then
      assert s == s[..|s| - |t|] + t;
      assert t == t[|r|..];
      r
    else
      assert !AllWhitespace(s) by { assert s[|s| - |t|] == r[0]; }
      r
  }

  /** `s.trim().is_empty()`. */
  predicate IsBlank(s: string)
  {
    Trim(s) == []
  }

  function AsciiLower(c: char): (r: char)
    ensures 'A' <= c <= 'Z' ==> r as int == c as int + 32
    ensures !('A' <= c <= 'Z') ==> r == c
  {
    if 'A' <= c <= 'Z' then (c as int + 32) as char else c
  }

  /** `str::to_ascii_lowercase`: maps `A`-`Z` to `a`-`z`, keeps every other character. */
  function ToAsciiLowercase(s: string): (r: string)
    ensures |r| == |s|
    ensures forall i :: 0 <= i < |s| ==> r[i] == AsciiLower(s[i])
  {
    if s == [] then [] else [AsciiLower(s[0])] + ToAsciiLowercase(s[1..])
  }

  lemma LowercaseIdempotent(s: string)
    ensures ToAsciiLowercase(ToAsciiLowercase(s)) == ToAsciiLowercase(s)
  {
  }

  /** A prefix or suffix without capital letters survives lower-casing. */
  lemma StartsWithLowercase(s: string, p: string)
    requires StartsWith(s, p) && ToAsciiLowercase(p) == p
    ensures StartsWith(ToAsciiLowercase(s), p)
  {
    var l := ToAsciiLowercase(s);
    forall i | 0 <= i < |p| ensures l[i] == p[i] {
      assert l[i] == AsciiLower(s[i]) && s[i] == p[i];
      assert ToAsciiLowercase(p)[i] == AsciiLower(p[i]);
    }
  }

  lemma EndsWithLowercase(s: string, p: string)
    requires EndsWith(s, p) && ToAsciiLowercase(p) == p
    ensures EndsWith(ToAsciiLowercase(s), p)
  {
    var l := ToAsciiLowercase(s);
    var d := |s| - |p|;
    forall i | 0 <= i < |p| ensures l[d + i] == p[i] {
      assert l[d + i] == AsciiLower(s[d + i]) && s[d + i] == p[i];
      assert ToAsciiLowercase(p)[i] == AsciiLower(p[i]);
    }
  }

  predicate StartsWith(s: string, p: string)
  {
    |p| <= |s| && s[..|p|] == p
  }

  predicate EndsWith(s: string, p: string)
  {
    |p| <= |s| && s[|s| - |p|..] == p
  }

  /** Whether `p` occurs somewhere in `s` (`str::contains`). */
  predicate Contains(s: string, p: string)
    decreases |s|
  {
    StartsWith(s, p) || (s != [] && Contains(s[1..], p))
  }

  lemma {:induction false} SuffixIsContained(s: string, p: string)
    requires EndsWith(s, p)
    ensures Contains(s, p)
    decreases |s|
  {
    if |s| > |p| {
      assert s[1..][|s[1..]| - |p|..] == s[|s| - |p|..];
      SuffixIsContained(s[1..], p);
    } else {
      assert s[..|p|] == s[|s| - |p|..];
    }
  }

  /** A string starts with a pattern only if it contains it. */
  lemma StartsWithContains(s: string, p: string)
    requires StartsWith(s, p)
    ensures Contains(s, p)
  {
  }

  /** A longer prefix implies the shorter one. */
  lemma StartsWithPrefix(s: string, p: string, q: string)
    requires StartsWith(s, p + q)
    ensures StartsWith(s, p)
  {
    assert s[..|p|] == (p + q)[..|p|];
  }

  /** `str::replace(from, to)` for a non-empty pattern: every match, taken
      left to right without overlap, becomes `to`. */
  function Replace(s: string, from: string, to: string): (r: string)
    requires from != []
    decreases |s|
  {
    if |s| < |from| then s
    else if s[..|from|] == from then to + Replace(s[|from|..], from, to)
    else [s[0]] + Replace(s[1..], from, to)
  }

  /** Text without the pattern is left alone by `replace`. */
  lemma {:induction false} ReplaceAbsent(s: string, from: string, to: string)
    requires from != [] && !Contains(s, from)
    ensures Replace(s, from, to) == s
    decreases |s|
  {
    if |s| >= |from| {
      ReplaceAbsent(s[1..], from, to);
      assert s == [s[0]] + s[1..];
    }
  }

  /** The pattern itself is replaced whole. */
  lemma ReplaceWhole(from: string, to: string)
    requires from != []
    ensures Replace(from, from, to) == to
  {
    assert from[..|from|] == from && from[|from|..] == [];
    assert to + [] == to;
  }

  function IndexOfChar(s: string, c: char): (r: Option<nat>)
    ensures r.Some? ==> r.value < |s| && s[r.value] == c && c !in s[..r.value]
    ensures r.None? ==> c !in s
  {
    if s == [] then None
    else if s[0] == c then Some(0)
    else
      var r := IndexOfChar(s[1..], c);
      assert s == [s[0]] + s[1..];
      match r
      case None => None
      case Some(i) =>
        assert s[..i + 1] == [s[0]] + s[1..][..i];
        Some(i + 1)
  }

  /** Drops one trailing carriage return. */
  function StripCr(s: string): (r: string)
    ensures r == s || r + "\r" == s
    ensures forall c :: c in r ==> c in s
  {
    if s != [] && s[|s| - 1] == '\r' then s[..|s| - 1] else s
  }

  /** `str::lines`: the pieces between `\n` characters, each without a
      trailing `\r`; a final `\n` does not start another line. */
  function Lines(s: string): (r: seq<string>)
    ensures s == [] <==> r == []
    ensures forall i :: 0 <= i < |r| ==> '\n' !in r[i]
    decreases |s|
  {
    if s == [] then []
    else match IndexOfChar(s, '\n')
      case None => [s]
      case Some(i) =>
        var line := StripCr(s[..i]);
        [line] + Lines(s[i + 1..])
  }

  /** `str::split(c)`: the pieces between occurrences of `c`, empty ones
      included; the empty string is one empty piece. */
  function Split(s: string, c: char): (r: seq<string>)
    ensures |r| >= 1
    ensures forall i :: 0 <= i < |r| ==> c !in r[i]
    decreases |s|
  {
    match IndexOfChar(s, c)
    case None => [s]
    case Some(i) => [s[..i]] + Split(s[i + 1..], c)
  }

  /** `join` with a one-character separator. */
  function Join(parts: seq<string>, c: char): (r: string)
    requires |parts| >= 1
  {
    if |parts| == 1 then parts[0] else parts[0] + [c] + Join(parts[1..], c)
  }

  /** The first `c` of `p + [c] + t` is the one after `p` when `p` has
      none. */
  lemma IndexOfCharAfter(p: string, t: string, c: char)
    requires c !in p
    ensures IndexOfChar(p + [c] + t, c) == Some(|p|)
  {
    var s := p + [c] + t;
    assert s[|p|] == c;
    assert s[..|p|] == p;
    assert forall k :: 0 <= k < |p| ==> s[k] == p[k];
  }

  /** Splitting a joined list gives the list back when no piece holds the
      separator. */
  lemma {:induction false} SplitJoin(parts: seq<string>, c: char)
    requires |parts| >= 1 && forall i :: 0 <= i < |parts| ==> c !in parts[i]
    ensures Split(Join(parts, c), c) == parts
    decreases |parts|
  {
    if |parts| > 1 {
      var rest := Join(parts[1..], c);
      IndexOfCharAfter(parts[0], rest, c);
      var s := parts[0] + [c] + rest;
      assert s[..|parts[0]|] == parts[0];
      assert s[|parts[0]| + 1..] == rest;
      SplitJoin(parts[1..], c);
      assert parts == [parts[0]] + parts[1..];
    }
  }

  /** Joining the pieces of a split gives the string back. */
  lemma {:induction false} JoinSplit(s: string, c: char)
    ensures Join(Split(s, c), c) == s
    decreases |s|
  {
    match IndexOfChar(s, c)
    case None =>
    case Some(i) =>
      var rest := Split(s[i + 1..], c);
      JoinSplit(s[i + 1..], c);
      var r := [s[..i]] + rest;
      assert Split(s, c) == r;
      assert r[0] == s[..i] && r[1..] == rest && |r| > 1;
      assert Join(r, c) == s[..i] + [c] + Join(rest, c);
      assert s == s[..i] + [c] + s[i + 1..];
  }

  /** `lines` as `split('\n')`: every piece but the last loses one trailing
      `\r`, and the last piece is a line of its own unless it is empty
      (the string ends in `\n`, or is empty). */
  function LinesOfPieces(parts: seq<string>): seq<string>
    requires |parts| >= 1
  {
    seq(|parts| - 1, i requires 0 <= i < |parts| - 1 => StripCr(parts[i]))
      + (if parts[|parts| - 1] == [] then [] else [parts[|parts| - 1]])
  }

  /** The lines of a string are its newline-separated pieces, each but the
      last with one trailing carriage return dropped, and without a final
      empty piece. */
  lemma {:induction false} LinesSplit(s: string)
    ensures Lines(s) == LinesOfPieces(Split(s, '\n'))
    decreases |s|
  {
    match IndexOfChar(s, '\n')
    case None =>
    case Some(i) =>
      var rest := s[i + 1..];
      var q := Split(rest, '\n');
      LinesSplit(rest);
      assert Split(s, '\n') == [s[..i]] + q;
      assert Lines(s) == [StripCr(s[..i])] + Lines(rest);
      LinesOfPiecesCons(s[..i], q);
  }

  /** One more piece in front adds its line, carriage return dropped. */
  lemma LinesOfPiecesCons(h: string, q: seq<string>)
    requires |q| >= 1
    ensures LinesOfPieces([h] + q) == [StripCr(h)] + LinesOfPieces(q)
  {
    var p := [h] + q;
    var a := seq(|p| - 1, k requires 0 <= k < |p| - 1 => StripCr(p[k]));
    var b := seq(|q| - 1, k requires 0 <= k < |q| - 1 => StripCr(q[k]));
    assert a == [StripCr(h)] + b by {
      forall k | 0 <= k < |a|
        ensures a[k] == ([StripCr(h)] + b)[k]
      {
        if k > 0 {
          assert p[k] == q[k - 1];
        }
      }
    }
    assert p[|p| - 1] == q[|q| - 1];
  }

  /** Text without white space is its own trim. */
  lemma TrimWithoutWhitespace(s: string)
    requires forall i :: 0 <= i < |s| ==> !IsWhitespace(s[i])
    ensures Trim(s) == s
  {
    var t := TrimStart(s);
    var r := TrimEnd(t);
  }
}
