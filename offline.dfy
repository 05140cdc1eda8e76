/** The offline classifier `offlineValidate`: a shape check standing for the regular
    expression `^[^\s@]+@[^\s@]+\.[^\s@]+$` and a lookup in a fixed list of
    disposable domains. */
module Offline {
  import opened Wrappers
  import opened Text
  import opened Api

  /** A character the class `[^\s@]` admits. */
  predicate IsPlain(c: char)
  {
    !IsJsWhitespace(c) && c != '@'
  }

  predicate AllPlain(s: string)
  {
    forall k :: 0 <= k < |s| ==> IsPlain(s[k])
  }

  /** The language of the regular expression, position by position: an `@` at `i` and a
      `.` at `j` split the address into three non-empty runs of `[^\s@]`. */
  ghost predicate MatchesShape(e: string)
  {
    exists i, j :: 0 < i && i + 1 < j && j + 1 < |e| && e[i] == '@' && e[j] == '.' &&
      AllPlain(e[..i]) && AllPlain(e[i + 1..j]) && AllPlain(e[j + 1..])
  }

  /** `d` has a `.` that is neither its first nor its last character. */
  predicate HasInnerDot(d: string)
  {
    exists k :: 0 < k < |d| - 1 && d[k] == '.'
  }

  /** The hand-written shape check: split at the first `@`, then a non-empty plain local
      part and a plain domain with an inner dot. */
  predicate IsWellFormed(e: string)
  {
    match IndexOf(e, '@')
    case None => false
    case Some(i) => i > 0 && AllPlain(e[..i]) && AllPlain(e[i + 1..]) && HasInnerDot(e[i + 1..])
  }

  /** The list `disposableDomains`. */
  const DisposableDomains: seq<string> :=
    ["mailinator.com", "guerrillamail.com", "tempmail.com", "yopmail.com", "10minutemail.com"]

  /** `email.split('@')[1]`: the text after the first `@` up to the next `@` or the end;
      None (JavaScript's `undefined`) when there is no `@`. */
  function DomainSegment(e: string): (r: Option<string>)
    ensures r.None? <==> '@' !in e
  {
    var parts := Split(e, '@');
    if |parts| >= 2 then Some(parts[1]) else None
  }

  /** `disposableDomains.includes(domain?.toLowerCase())`. */
  predicate IsDisposable(e: string)
  {
    match DomainSegment(e)
    case None => false
    case Some(d) => LowerAscii(d) in DisposableDomains
  }

  /** `offlineValidate(email)`. */
  function OfflineValidate(e: string): (r: Response)
    ensures r.email == Some(e) && r.offline == Some(true)
    ensures r.result.None? && r.error.None?
    ensures r.format == Some(if MatchesShape(e) then "valid" else "invalid")
    ensures r.disposable == Some(IsDisposable(e))
  {
    WellFormedIsShape(e);
    Response(
      email := Some(e),
      result := None,
      format := Some(if IsWellFormed(e) then "valid" else "invalid"),
      disposable := Some(IsDisposable(e)),
      offline := Some(true),
      error := None)
  }

  // ------------------------------------------------------------------ lemmas

  /** The hand-written check accepts exactly the language of the regular expression. */
  lemma WellFormedIsShape(e: string)
    ensures IsWellFormed(e) <==> MatchesShape(e)
  {
    if IsWellFormed(e) {
      WellFormedHasShape(e);
    }
    if MatchesShape(e) {
      var i, j :| 0 < i && i + 1 < j && j + 1 < |e| && e[i] == '@' && e[j] == '.' &&
        AllPlain(e[..i]) && AllPlain(e[i + 1..j]) && AllPlain(e[j + 1..]);
      ShapeIsWellFormed(e, i, j);
    }
  }

  lemma WellFormedHasShape(e: string)
    requires IsWellFormed(e)
    ensures MatchesShape(e)
  {
    var i := IndexOf(e, '@').value;
    var d := e[i + 1..];
    var k :| 0 < k < |d| - 1 && d[k] == '.';
    var j := i + 1 + k;
    assert e[i + 1..j] == d[..k];
    assert e[j + 1..] == d[k + 1..];
    assert e[i] == '@' && e[j] == '.';
  }

  lemma ShapeIsWellFormed(e: string, i: nat, j: nat)
    requires 0 < i && i + 1 < j && j + 1 < |e| && e[i] == '@' && e[j] == '.'
    requires AllPlain(e[..i]) && AllPlain(e[i + 1..j]) && AllPlain(e[j + 1..])
    ensures IsWellFormed(e)
  {
    assert '@' !in e[..i] by {
      assert forall k :: 0 <= k < i ==> e[..i][k] != '@';
    }
    IndexOfUnique(e, '@', i);
    var d := e[i + 1..];
    assert d == e[i + 1..j] + ['.'] + e[j + 1..];
    assert d[j - i - 1] == '.';
  }

  /** No character of `e` is white space. */
  predicate NoWhitespace(e: string)
  {
    forall k :: 0 <= k < |e| ==> !IsJsWhitespace(e[k])
  }

  /** `e` has an `@` at `i` and nowhere else. */
  predicate OnlyAtSignAt(e: string, i: nat)
  {
    i < |e| && e[i] == '@' && forall k :: 0 <= k < |e| && e[k] == '@' ==> k == i
  }

  /** The shape check in plain terms: exactly one `@`, a non-empty local part, no white
      space anywhere, and a domain with a `.` that is neither first nor last. */
  lemma FormatValidIff(e: string)
    ensures IsWellFormed(e) <==>
      exists i: nat :: 0 < i && OnlyAtSignAt(e, i) && NoWhitespace(e) && HasInnerDot(e[i + 1..])
  {
    if IsWellFormed(e) {
      var i := IndexOf(e, '@').value;
      WellFormedPlainTerms(e, i);
    }
    if exists i: nat :: 0 < i && OnlyAtSignAt(e, i) && NoWhitespace(e) && HasInnerDot(e[i + 1..]) {
      var i: nat :| 0 < i && OnlyAtSignAt(e, i) && NoWhitespace(e) && HasInnerDot(e[i + 1..]);
      PlainTermsWellFormed(e, i);
    }
  }

  lemma WellFormedPlainTerms(e: string, i: nat)
    requires IsWellFormed(e) && IndexOf(e, '@') == Some(i)
    ensures 0 < i && OnlyAtSignAt(e, i) && NoWhitespace(e) && HasInnerDot(e[i + 1..])
  {
    forall k | 0 <= k < |e| ensures (e[k] == '@' ==> k == i) && !IsJsWhitespace(e[k]) {
      if k < i { assert e[..i][k] == e[k]; }
      else if k > i { assert e[i + 1..][k - i - 1] == e[k]; }
    }
  }

  lemma PlainTermsWellFormed(e: string, i: nat)
    requires 0 < i && OnlyAtSignAt(e, i) && NoWhitespace(e) && HasInnerDot(e[i + 1..])
    ensures IsWellFormed(e)
  {
    assert '@' !in e[..i] by {
      assert forall k :: 0 <= k < i ==> e[..i][k] == e[k];
    }
    IndexOfUnique(e, '@', i);
    assert AllPlain(e[..i]) by {
      assert forall k :: 0 <= k < i ==> e[..i][k] == e[k];
    }
    var d := e[i + 1..];
    assert AllPlain(d) by {
      forall k | 0 <= k < |d| ensures IsPlain(d[k]) {
        assert d[k] == e[i + 1 + k];
      }
    }
  }

  /** Which `@` the lookup uses: the segment starts after the first `@` and stops at the
      next one. */
  lemma DomainSegmentIsAfterFirstAt(e: string, i: nat)
    requires i < |e| && e[i] == '@' && '@' !in e[..i]
    ensures DomainSegment(e).Some?
    ensures var d := DomainSegment(e).value;
      i + 1 + |d| <= |e| && d == e[i + 1..i + 1 + |d|] && '@' !in d &&
      (i + 1 + |d| == |e| || e[i + 1 + |d|] == '@')
  {
    SplitAtFirst(e, '@', i);
    var rest := e[i + 1..];
    SplitFirstPiece(rest, '@');
    var d := Split(rest, '@')[0];
    assert DomainSegment(e) == Some(d);
    assert rest[..|d|] == e[i + 1..i + 1 + |d|];
  }

  /** For a well-formed address the segment is the whole text after its only `@`. */
  lemma WellFormedDomain(e: string, i: nat)
    requires IsWellFormed(e) && i < |e| && e[i] == '@'
    ensures DomainSegment(e) == Some(e[i + 1..])
  {
    var rest := e[i + 1..];
    assert '@' !in rest;
    IndexOfUnique(e, '@', i);
    SplitAtFirst(e, '@', i);
    SplitWithout(rest, '@');
  }

  /** An address without `@` is invalid and never disposable. */
  lemma NoAtSign(e: string)
    requires '@' !in e
    ensures OfflineValidate(e).format == Some("invalid")
    ensures OfflineValidate(e).disposable == Some(false)
  {
    WellFormedIsShape(e);
  }

  /** The lookup is case-insensitive for ASCII letters: upper-casing letters of the
      segment does not change the flag. */
  lemma DisposableIgnoresCase(e: string, e': string)
    requires |e| == |e'|
    requires forall k :: 0 <= k < |e| ==> LowerChar(e[k]) == LowerChar(e'[k])
    ensures IsDisposable(e) == IsDisposable(e')
  {
    if '@' in e {
      var i := IndexOf(e, '@').value;
      assert forall k :: 0 <= k < |e| ==> (e[k] == '@' <==> e'[k] == '@');
      assert '@' !in e'[..i] by {
        forall k | 0 <= k < i ensures e'[..i][k] != '@' { assert e[..i][k] != '@'; }
      }
      DomainSegmentIsAfterFirstAt(e, i);
      DomainSegmentIsAfterFirstAt(e', i);
      var d, d' := DomainSegment(e).value, DomainSegment(e').value;
      assert LowerAscii(d) == LowerAscii(d');
    } else {
      assert forall k :: 0 <= k < |e| ==> e'[k] != '@' by {
        forall k | 0 <= k < |e| ensures e'[k] != '@' { assert e[k] != '@'; }
      }
    }
  }

  /** Conversely to the shape check: a plain non-empty local part, `@`, and a plain domain
      with an inner dot make a well-formed address whose segment is that domain. */
  lemma ComposedAddress(local: string, d: string)
    requires local != [] && AllPlain(local) && AllPlain(d) && HasInnerDot(d)
    ensures IsWellFormed(local + "@" + d)
    ensures DomainSegment(local + "@" + d) == Some(d)
  {
    var e := local + "@" + d;
    var i := |local|;
    assert e[..i] == local && e[i] == '@' && e[i + 1..] == d;
    assert '@' !in local by {
      assert forall k :: 0 <= k < i ==> local[k] != '@';
    }
    assert '@' !in d by {
      assert forall k :: 0 <= k < |d| ==> d[k] != '@';
    }
    IndexOfUnique(e, '@', i);
    SplitAfterPiece(local, '@', d);
    SplitWithout(d, '@');
  }

  lemma MailinatorFacts(d: string)
    requires d == "mailinator.com"
    ensures AllPlain(d) && HasInnerDot(d) && LowerAscii(d) == d
  {
    assert d[10] == '.';
  }

  /** An address `local@domain.tld` is valid, and disposable exactly when its domain,
      lower-cased, is listed: the flag never changes the format verdict. */
  lemma ComposedVerdict(local: string, d: string)
    requires local != [] && AllPlain(local) && AllPlain(d) && HasInnerDot(d)
    ensures OfflineValidate(local + "@" + d).format == Some("valid")
    ensures OfflineValidate(local + "@" + d).disposable == Some(LowerAscii(d) in DisposableDomains)
  {
    ComposedAddress(local, d);
    WellFormedIsShape(local + "@" + d);
  }

  /** `user@mailinator.com` is valid and disposable. */
  lemma MailinatorExample(e: string)
    requires e == "user@mailinator.com"
    ensures OfflineValidate(e).format == Some("valid")
    ensures OfflineValidate(e).disposable == Some(true)
  {
    var d := "mailinator.com";
    assert e == "user" + "@" + d;
    assert AllPlain("user") && AllPlain(d) && HasInnerDot(d) && LowerAscii(d) in DisposableDomains by {
      MailinatorFacts(d);
    }
    ComposedVerdict("user", d);
  }

  /** The lengths of the listed domains. */
  lemma ListedLengths(d: string)
    requires d in DisposableDomains
    ensures |d| == 11 || |d| == 12 || |d| == 14 || |d| == 16 || |d| == 17
  {
  }

  lemma SubdomainFacts(d: string)
    requires d == "a.yopmail.com"
    ensures AllPlain(d) && HasInnerDot(d) && LowerAscii(d) !in DisposableDomains
  {
    assert d[1] == '.';
    if LowerAscii(d) in DisposableDomains {
      ListedLengths(LowerAscii(d));
    }
  }

  /** The list is matched exactly, not as a suffix: `u@a.yopmail.com`, on a subdomain
      of a listed domain, is valid and not disposable. */
  lemma SubdomainExample(e: string)
    requires e == "u@a.yopmail.com"
    ensures OfflineValidate(e).format == Some("valid")
    ensures OfflineValidate(e).disposable == Some(false)
  {
    var d := "a.yopmail.com";
    assert e == "u" + "@" + d;
    assert AllPlain("u") && AllPlain(d) && HasInnerDot(d) && LowerAscii(d) !in DisposableDomains by {
      SubdomainFacts(d);
    }
    ComposedVerdict("u", d);
  }

  /** The segment stops at a second `@`: for `l@m@r` the lookup sees `m` only, so a
      listed domain in `r` is not noticed. */
  lemma SegmentStopsAtSecondAt(l: string, m: string, r: string)
    requires '@' !in l && '@' !in m
    ensures DomainSegment(l + "@" + m + "@" + r) == Some(m)
    ensures IsDisposable(l + "@" + m + "@" + r) <==> LowerAscii(m) in DisposableDomains
  {
    var rest := m + "@" + r;
    assert l + "@" + m + "@" + r == l + "@" + rest;
    SplitAfterPiece(l, '@', rest);
    SplitAfterPiece(m, '@', r);
  }

  /** An address with two `@` signs is invalid. */
  lemma TwoAtSignsInvalid(e: string, i: nat, j: nat)
    requires i < j < |e| && e[i] == '@' && e[j] == '@'
    ensures OfflineValidate(e).format == Some("invalid")
  {
    WellFormedIsShape(e);
    if IsWellFormed(e) {
      WellFormedPlainTerms(e, IndexOf(e, '@').value);
    }
  }

  /** The example without `@`: invalid and not disposable. */
  lemma NotAnEmailExample(e: string)
    requires e == "not-an-email"
    ensures OfflineValidate(e).format == Some("invalid")
    ensures OfflineValidate(e).disposable == Some(false)
  {
    NoAtSign(e);
  }
}
