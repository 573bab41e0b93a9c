/**
 * The few JavaScript string operations the controllers rely on, with their
 * ECMAScript meaning: `trim`, `trimStart`, `toLowerCase` (ASCII letters),
 * `endsWith`, `replace` with a one-character pattern, `indexOf` and
 * `split(sep)[1]`.
 */
module JsString {
  import opened Wrappers

  /** ECMAScript WhiteSpace and LineTerminator code points: what `trim` removes. */
  predicate IsWhitespace(c: char) {
    c == '\t' || c == '\n' || c == '\U{B}' || c == '\U{C}' || c == '\r' || c == ' '
    || c == '\U{A0}' || c == '\U{1680}' || ('\U{2000}' <= c <= '\U{200A}')
    || c == '\U{2028}' || c == '\U{2029}' || c == '\U{202F}' || c == '\U{205F}'
    || c == '\U{3000}' || c == '\U{FEFF}'
  }

  /** `s.trimStart()`: the suffix left after dropping the leading white space. */
  function TrimStart(s: string): (r: string)
    ensures |r| <= |s| && r == s[|s| - |r|..]
    ensures forall k :: 0 <= k < |s| - |r| ==> IsWhitespace(s[k])
    ensures r == [] || !IsWhitespace(r[0])
  {
    if s != [] && IsWhitespace(s[0]) then TrimStart(s[1..]) else s
  }

  /** `s.trimEnd()`: the prefix left after dropping the trailing white space. */
  function TrimEnd(s: string): (r: string)
    ensures |r| <= |s| && r == s[..|r|]
    ensures forall k :: |r| <= k < |s| ==> IsWhitespace(s[k])
    ensures r == [] || !IsWhitespace(r[|r| - 1])
  {
    if s != [] && IsWhitespace(s[|s| - 1]) then TrimEnd(s[..|s| - 1]) else s
  }

  /** `s.trim()`. */
  function Trim(s: string): (r: string)
  {
    TrimEnd(TrimStart(s))
  }

  /** A string that neither starts nor ends with white space is its own trim. */
  lemma TrimKeeps(s: string)
    requires s == [] || (!IsWhitespace(s[0]) && !IsWhitespace(s[|s| - 1]))
    ensures TrimStart(s) == s && TrimEnd(s) == s && Trim(s) == s
  {
  }

  /** Trimming gives a string that neither starts nor ends with white space,
      and it is empty exactly when the input is all white space. */
  lemma TrimShape(s: string)
    ensures var r := Trim(s);
      (r == [] || (!IsWhitespace(r[0]) && !IsWhitespace(r[|r| - 1])))
      && (r == [] <==> forall k :: 0 <= k < |s| ==> IsWhitespace(s[k]))
  {
    var t := TrimStart(s);
    var r := TrimEnd(t);
    if r == [] {
      assert forall k :: 0 <= k < |s| ==> IsWhitespace(s[k]);
    } else {
      assert r[0] == t[0];
      var k := |s| - |t|;
      assert s[k] == t[0];
    }
  }

  /** Trimming twice is trimming once. */
  lemma TrimIdempotent(s: string)
    ensures Trim(Trim(s)) == Trim(s)
  {
    TrimShape(s);
    TrimKeeps(Trim(s));
  }

  /** `toLowerCase` on one character; only the ASCII letters are mapped. */
  function LowerChar(c: char): char {
    if 'A' <= c <= 'Z' then (c as int + 32) as char else c
  }

  /** `s.toLowerCase()` restricted to ASCII letters. */
  function ToLower(s: string): string {
    if s == [] then [] else [LowerChar(s[0])] + ToLower(s[1..])
  }

  /** Lower-casing leaves no ASCII capital behind, is idempotent, and keeps
      white space where it was (so it commutes with trimming). */
  lemma ToLowerProperties(s: string)
    ensures |ToLower(s)| == |s|
    ensures forall k :: 0 <= k < |s| ==> !('A' <= ToLower(s)[k] <= 'Z')
    ensures ToLower(ToLower(s)) == ToLower(s)
    ensures forall k :: 0 <= k < |s| ==> (IsWhitespace(ToLower(s)[k]) <==> IsWhitespace(s[k]))
  {
    if s != [] {
      ToLowerProperties(s[1..]);
    }
  }

  /** `s.endsWith(suffix)`. */
  predicate EndsWith(s: string, suffix: string) {
    |suffix| <= |s| && s[|s| - |suffix|..] == suffix
  }

  /** `s` ends with `suffix` exactly when `s` is some string followed by
      `suffix`. */
  lemma EndsWithConcat(s: string, suffix: string)
    ensures EndsWith(s, suffix) <==> exists stem :: s == stem + suffix
  {
    if EndsWith(s, suffix) {
      var stem := s[..|s| - |suffix|];
      assert s == stem + suffix;
    }
    forall stem | s == stem + suffix
      ensures EndsWith(s, suffix)
    {
      assert s[|stem|..] == suffix;
    }
  }

  /** `s.replace(a, b)` with one-character strings: only the FIRST `a` is replaced. */
  function ReplaceFirst(s: string, a: char, b: char): (r: string)
    ensures |r| == |s|
    ensures forall k :: 0 <= k < |s| ==> r[k] == (if s[k] == a && a !in s[..k] then b else s[k])
  {
    if s == [] then []
    else if s[0] == a then [b] + s[1..]
    else
      var rest := ReplaceFirst(s[1..], a, b);
      assert forall k :: 1 <= k < |s| ==> s[1..][..k - 1] == s[1..k];
      [s[0]] + rest
  }

  /** Replacing the first `a` in `x + [a] + y`, where `x` has no `a`, touches only that one. */
  lemma ReplaceFirstAt(x: string, a: char, b: char, y: string)
    requires a !in x
    ensures ReplaceFirst(x + [a] + y, a, b) == x + [b] + y
  {
    var s := x + [a] + y;
    var t := x + [b] + y;
    var r := ReplaceFirst(s, a, b);
    forall k | 0 <= k < |s| ensures r[k] == t[k] {
      if k < |x| {
        assert s[k] == x[k] == t[k];
        assert x[k] in x;
      } else if k == |x| {
        assert s[k] == a && t[k] == b;
        assert s[..k] == x;
      } else {
        assert s[k] == y[k - |x| - 1] == t[k];
        assert s[..k][|x|] == a;
      }
    }
    assert r == t;
  }

  /** Without an `a` there is nothing to replace. */
  lemma ReplaceFirstAbsent(s: string, a: char, b: char)
    requires a !in s
    ensures ReplaceFirst(s, a, b) == s
  {
    var r := ReplaceFirst(s, a, b);
    forall k | 0 <= k < |s| ensures r[k] == s[k] {
      assert s[k] in s;
    }
  }

  /** `sep` occurs in `s` starting at index `i`. */
  predicate OccursAt(s: string, sep: string, i: int) {
    0 <= i && i + |sep| <= |s| && s[i..i + |sep|] == sep
  }

  /** `s.indexOf(sep, from)`: the first occurrence of `sep` at or after `from`. */
  function IndexOf(s: string, sep: string, from: nat): (r: Option<nat>)
    ensures r.Some? ==> from <= r.value && OccursAt(s, sep, r.value)
    ensures r.Some? ==> forall k :: from <= k < r.value ==> !OccursAt(s, sep, k)
    ensures r.None? ==> forall k :: from <= k ==> !OccursAt(s, sep, k)
    decreases |s| - from
  {
    if from + |sep| > |s| then None
    else if OccursAt(s, sep, from) then Some(from)
    else IndexOf(s, sep, from + 1)
  }

  /** `s.split(sep)[1]` for a non-empty separator: the piece between the
      first occurrence and the next one (or the end), or `None` (JavaScript's
      `undefined`) when `sep` does not occur. */
  function SplitPieceOne(s: string, sep: string): Option<string>
    requires |sep| > 0
  {
    match IndexOf(s, sep, 0)
    case None => None
    case Some(i) =>
      var j := i + |sep|;
      match IndexOf(s, sep, j)
      case None => Some(s[j..])
      case Some(k) => Some(s[j..k])
  }

  /** Where `sep` first occurs right after `p`, `split(sep)[1]` is everything
      after it exactly when that remainder holds no further `sep`. */
  lemma SplitPieceOneAfter(p: string, sep: string, x: string)
    requires |sep| > 0
    requires forall k :: 0 <= k < |p| ==> !OccursAt(p + sep + x, sep, k)
    ensures SplitPieceOne(p + sep + x, sep) == Some(x) <==> forall k :: 0 <= k ==> !OccursAt(x, sep, k)
  {
    var s := p + sep + x;
    var j := |p| + |sep|;
    FirstOccurrenceAfter(p, sep, x);
    assert s[j..] == x;
    match IndexOf(s, sep, j)
    case None =>
      forall k | 0 <= k
        ensures !OccursAt(x, sep, k)
      {
        OccursShifted(s, j, sep, k);
      }
    case Some(m) =>
      OccursShifted(s, j, sep, m - j);
      assert |s[j..m]| < |x|;
  }

  /** `split(sep)[1]` is `undefined` exactly when `sep` does not occur, and
      otherwise holds no `sep` itself. */
  lemma SplitPieceOneShape(s: string, sep: string)
    requires |sep| > 0
    ensures SplitPieceOne(s, sep).None? <==> forall k :: 0 <= k ==> !OccursAt(s, sep, k)
    ensures SplitPieceOne(s, sep).Some? ==> forall k :: 0 <= k ==> !OccursAt(SplitPieceOne(s, sep).value, sep, k)
  {
    match IndexOf(s, sep, 0)
    case None =>
    case Some(i) =>
      var j := i + |sep|;
      match IndexOf(s, sep, j)
      case None =>
        forall k | 0 <= k
          ensures !OccursAt(s[j..], sep, k)
        {
          OccursShifted(s, j, sep, k);
        }
      case Some(m) =>
        forall k | 0 <= k
          ensures !OccursAt(s[j..m], sep, k)
        {
          OccursInSlice(s, j, m, sep, k);
        }
  }

  /** An occurrence in a slice is an occurrence in the whole, shifted, that
      ends inside the slice. */
  lemma OccursInSlice(s: string, j: nat, end: nat, sep: string, k: nat)
    requires j <= end <= |s|
    ensures OccursAt(s[j..end], sep, k) ==> OccursAt(s, sep, j + k) && j + k + |sep| <= end
  {
    if OccursAt(s[j..end], sep, k) {
      var piece := s[j..end];
      assert k + |sep| <= |piece|;
      forall t | 0 <= t < |sep|
        ensures s[j + k..j + k + |sep|][t] == sep[t]
      {
        assert piece[k..k + |sep|][t] == sep[t];
        assert piece[k + t] == s[j + k + t];
      }
    }
  }

  lemma FirstOccurrenceAfter(p: string, sep: string, x: string)
    requires forall k :: 0 <= k < |p| ==> !OccursAt(p + sep + x, sep, k)
    ensures IndexOf(p + sep + x, sep, 0) == Some(|p|)
  {
    var s := p + sep + x;
    assert s[|p|..|p| + |sep|] == sep;
    assert OccursAt(s, sep, |p|);
    var first := IndexOf(s, sep, 0);
    assert first.Some?;
    assert !(first.value < |p|);
    assert !(|p| < first.value);
  }

  /** An occurrence in a suffix is an occurrence in the whole, shifted. */
  lemma OccursShifted(s: string, j: nat, sep: string, k: nat)
    requires j <= |s|
    ensures OccursAt(s[j..], sep, k) <==> OccursAt(s, sep, j + k)
  {
    if j + k + |sep| <= |s| {
      assert s[j..][k..k + |sep|] == s[j + k..j + k + |sep|];
    }
  }

}
