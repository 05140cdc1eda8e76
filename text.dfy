/** The JavaScript string operations the tool relies on, written out over
    `seq<char>`: `trim`, `split`, `join`, `includes`, `indexOf`, `replace` with a
    string pattern, `slice(-n)` and ASCII `toLowerCase`. */
module Text {
  import opened Wrappers

  /** The characters JavaScript treats as white space: the set matched by `\s` in a
      regular expression and stripped by `String.prototype.trim`
      (WhiteSpace and LineTerminator of ECMA-262). */
  predicate IsJsWhitespace(c: char)
  {
    c == '\t' || c == '\n' || c == '\U{000B}' || c == '\U{000C}' || c == '\r' || c == ' ' ||
    c == '\U{00A0}' || c == '\U{1680}' || ('\U{2000}' <= c <= '\U{200A}') ||
    c == '\U{2028}' || c == '\U{2029}' || c == '\U{202F}' || c == '\U{205F}' ||
    c == '\U{3000}' || c == '\U{FEFF}'
  }

  predicate AllWhitespace(s: string)
  {
    forall k :: 0 <= k < |s| ==> IsJsWhitespace(s[k])
  }

  /** `s` neither starts nor ends with white space. */
  predicate IsTrimmed(s: string)
  {
    s == [] || (!IsJsWhitespace(s[0]) && !IsJsWhitespace(s[|s| - 1]))
  }

  /** One more white-space character at either end keeps a run of white space. */
  lemma WhitespaceAround(c: char, s: string)
    requires IsJsWhitespace(c) && AllWhitespace(s)
    ensures AllWhitespace([c] + s) && AllWhitespace(s + [c])
  {
    assert forall k :: 0 < k <= |s| ==> ([c] + s)[k] == s[k - 1];
    assert forall k :: 0 <= k < |s| ==> (s + [c])[k] == s[k];
  }

  // ---------------------------------------------------------------- indexOf

  /** `s.indexOf(x)`: the first position holding `x`, or None where JavaScript gives -1. */
  function IndexOf<T(==)>(s: seq<T>, x: T): (r: Option<nat>)
    ensures r.None? <==> x !in s
    ensures r.Some? ==> r.value < |s| && s[r.value] == x && x !in s[..r.value]
  {
    if |s| == 0 then None
    else if s[0] == x then Some(0)
    else match IndexOf(s[1..], x)
      case None => None
      case Some(k) =>
        assert s[1..][..k] == s[1..k + 1];
        assert s[..k + 1] == [s[0]] + s[1..k + 1];
        Some(k + 1)
  }

  /** The first occurrence is the only position with `x` and none before it. */
  lemma IndexOfUnique<T>(s: seq<T>, x: T, i: nat)
    requires i < |s| && s[i] == x && x !in s[..i]
    ensures IndexOf(s, x) == Some(i)
  {
  }

  // ------------------------------------------------------------------- trim

  function TrimStart(s: string): (r: string)
    ensures |r| <= |s| && r == s[|s| - |r|..]
    ensures AllWhitespace(s[..|s| - |r|])
    ensures r == [] || !IsJsWhitespace(r[0])
  {
    if |s| > 0 && IsJsWhitespace(s[0]) then
      var r := TrimStart(s[1..]);
      var cut := s[1..][..|s[1..]| - |r|];
      WhitespaceAround(s[0], cut);
      assert s[..|s| - |r|] == [s[0]] + cut;
      r
    else s
  }

  function TrimEnd(s: string): (r: string)
    ensures |r| <= |s| && r == s[..|r|]
    ensures AllWhitespace(s[|r|..])
    ensures r == [] || !IsJsWhitespace(r[|r| - 1])
  {
    if |s| > 0 && IsJsWhitespace(s[|s| - 1]) then
      var r := TrimEnd(s[..|s| - 1]);
      var cut := s[..|s| - 1][|r|..];
      WhitespaceAround(s[|s| - 1], cut);
      assert s[|r|..] == cut + [s[|s| - 1]];
      r
    else s
  }

  /** `s.trim()`: the white space at both ends removed. */
  function Trim(s: string): (r: string)
    ensures |r| <= |s|
    ensures IsTrimmed(r)
  {
    var t := TrimStart(s);
    var r := TrimEnd(t);
    assert r != [] ==> r[0] == t[0];
    r
  }

  /** What `Trim` removes is white space at either end, and what it keeps is the infix
      between. */
  lemma TrimInfix(s: string) returns (a: nat, b: nat)
    ensures a <= b <= |s| && Trim(s) == s[a..b]
    ensures AllWhitespace(s[..a]) && AllWhitespace(s[b..])
  {
    var t := TrimStart(s);
    var r := TrimEnd(t);
    a := |s| - |t|;
    b := a + |r|;
    assert r == s[a..b];
    assert s[b..] == t[|r|..];
  }

  /** Trimming is the identity exactly on strings that have no white space at either end. */
  lemma TrimIdentity(s: string)
    ensures Trim(s) == s <==> IsTrimmed(s)
  {
    if IsTrimmed(s) && s != [] {
      assert TrimStart(s) == s;
      assert TrimEnd(s) == s;
    }
  }

  // ------------------------------------------------------------ split, join

  /** `s.split(c)` for a one-character separator: the pieces between occurrences of `c`.
      There is always at least one piece (`"".split(c)` is `[""]`). */
  function Split(s: string, c: char): (r: seq<string>)
    ensures |r| >= 1
    ensures forall k :: 0 <= k < |r| ==> c !in r[k]
    decreases |s|
  {
    match IndexOf(s, c)
    case None => [s]
    case Some(i) => [s[..i]] + Split(s[i + 1..], c)
  }

  /** `xs.join(sep)`. */
  function Join(xs: seq<string>, sep: string): string
  {
    if |xs| == 0 then ""
    else if |xs| == 1 then xs[0]
    else xs[0] + sep + Join(xs[1..], sep)
  }

  /** A prefix of the left operand is a prefix of the concatenation. */
  lemma PrefixThroughAppend<T>(a: seq<T>, b: seq<T>, n: nat)
    requires n <= |a|
    ensures (a + b)[..n] == a[..n]
  {
  }

  /** The right operand is the suffix of the concatenation. */
  lemma SuffixOfAppend<T>(a: seq<T>, b: seq<T>)
    ensures (a + b)[|a + b| - |b|..] == b
  {
  }

  lemma AppendAssoc<T>(x: seq<T>, y: seq<T>, z: seq<T>)
    ensures x + (y + z) == (x + y) + z
  {
  }

  /** Text without the separator is one piece. */
  lemma SplitWithout(s: string, c: char)
    requires c !in s
    ensures Split(s, c) == [s]
  {
  }

  /** At the first separator the text splits into the piece before it and the pieces of
      the rest. */
  lemma SplitAtFirst(s: string, c: char, i: nat)
    requires i < |s| && s[i] == c && c !in s[..i]
    ensures Split(s, c) == [s[..i]] + Split(s[i + 1..], c)
  {
    IndexOfUnique(s, c, i);
  }

  /** A piece without the separator, then the separator: the piece comes first. */
  lemma SplitAfterPiece(a: string, c: char, b: string)
    requires c !in a
    ensures Split(a + [c] + b, c) == [a] + Split(b, c)
  {
    var s := a + [c] + b;
    assert s[..|a|] == a && s[|a| + 1..] == b;
    SplitAtFirst(s, c, |a|);
  }

  /** The first piece runs up to the first separator or the end. */
  lemma SplitFirstPiece(s: string, c: char)
    ensures var p := Split(s, c)[0];
      |p| <= |s| && p == s[..|p|] && (|p| == |s| || s[|p|] == c)
    ensures |Split(s, c)| == 1 <==> c !in s
  {
  }

  lemma SplitBeforeFirst(a: string, c: char, b: string, i: nat)
    requires i < |a| && a[i] == c && c !in a[..i]
    ensures Split(a + [c] + b, c) == [a[..i]] + Split(a[i + 1..] + [c] + b, c)
    ensures Split(a, c) == [a[..i]] + Split(a[i + 1..], c)
  {
    var s := a + [c] + b;
    assert s[..i] == a[..i] && s[i + 1..] == a[i + 1..] + [c] + b;
    SplitAtFirst(s, c, i);
    SplitAtFirst(a, c, i);
  }

  /** Splitting distributes over one separator character. */
  lemma {:induction false} SplitAround(a: string, c: char, b: string)
    ensures Split(a + [c] + b, c) == Split(a, c) + Split(b, c)
    decreases |a|
  {
    var s := a + [c] + b;
    if c !in a {
      SplitAfterPiece(a, c, b);
      SplitWithout(a, c);
    } else {
      var i := IndexOf(a, c).value;
      var rest := a[i + 1..];
      SplitBeforeFirst(a, c, b, i);
      SplitAround(rest, c, b);
      AppendAssoc([a[..i]], Split(rest, c), Split(b, c));
    }
  }

  /** Joining the pieces of a split restores the text. */
  lemma {:induction false} JoinSplit(s: string, c: char)
    ensures Join(Split(s, c), [c]) == s
    decreases |s|
  {
    if c in s {
      var i := IndexOf(s, c).value;
      SplitAtFirst(s, c, i);
      JoinSplit(s[i + 1..], c);
      assert s == s[..i] + [c] + s[i + 1..];
    } else {
      SplitWithout(s, c);
    }
  }

  /** Splitting a join restores the pieces, when no piece holds the separator. */
  lemma {:induction false} SplitJoin(xs: seq<string>, c: char)
    requires |xs| >= 1
    requires forall k :: 0 <= k < |xs| ==> c !in xs[k]
    ensures Split(Join(xs, [c]), c) == xs
    decreases |xs|
  {
    var x := xs[0];
    SplitWithout(x, c);
    if |xs| > 1 {
      var tail := xs[1..];
      var j := Join(tail, [c]);
      assert Join(xs, [c]) == x + [c] + j;
      SplitJoin(tail, c);
      SplitAround(x, c, j);
      assert [x] + tail == xs;
    }
  }

  // ------------------------------------------------- replace, slice, lower

  /** Whether `p` occurs in `s` starting at position `k`. */
  predicate OccursAt(s: string, p: string, k: nat)
  {
    k + |p| <= |s| && s[k..k + |p|] == p
  }

  /** `s.indexOf(p)` for a string pattern: the first position where `p` occurs. */
  function FindSub(s: string, p: string): (r: Option<nat>)
    ensures r.Some? ==> OccursAt(s, p, r.value) && forall j: nat :: j < r.value ==> !OccursAt(s, p, j)
    ensures r.None? ==> forall j: nat :: !OccursAt(s, p, j)
    decreases |s|
  {
    if |s| < |p| then None
    else if s[..|p|] == p then Some(0)
    else match FindSub(s[1..], p)
      case None =>
        assert forall j: nat :: 1 <= j ==> OccursAt(s, p, j) == OccursAt(s[1..], p, j - 1);
        None
      case Some(k) =>
        assert forall j: nat :: 1 <= j ==> OccursAt(s, p, j) == OccursAt(s[1..], p, j - 1);
        Some(k + 1)
  }

  /** `s.replace(p, q)` with a string pattern: only the first occurrence of `p` is replaced. */
  function ReplaceFirst(s: string, p: string, q: string): (r: string)
    ensures (forall j: nat :: !OccursAt(s, p, j)) ==> r == s
    ensures forall k: nat :: OccursAt(s, p, k) && (forall j: nat :: j < k ==> !OccursAt(s, p, j)) ==>
      r == s[..k] + q + s[k + |p|..]
  {
    match FindSub(s, p)
    case None => s
    case Some(k) => s[..k] + q + s[k + |p|..]
  }

  /** `s.slice(-n)` for `n > 0`: the last `n` characters, or all of `s` when it is shorter. */
  function LastChars(s: string, n: nat): (r: string)
    ensures |r| == if |s| < n then |s| else n
    ensures r == s[|s| - |r|..]
  {
    if |s| < n then s else s[|s| - n..]
  }

  function LowerChar(c: char): char
  {
    if 'A' <= c <= 'Z' then (c as int + 32) as char else c
  }

  /** `s.toLowerCase()` restricted to the ASCII letters. */
  function LowerAscii(s: string): (r: string)
    ensures |r| == |s|
    ensures forall k :: 0 <= k < |s| ==> r[k] == LowerChar(s[k])
  {
    seq(|s|, k requires 0 <= k < |s| => LowerChar(s[k]))
  }
}
