/** Unity's test-name filter: the substring matcher, and the loop over the tokens of a filter argument. */
module Matcher {
  /** The character of a C string at `i`; the terminator follows the last one, and nothing may be read beyond it. */
  function At(s: string, i: nat): char
    requires i <= |s|
  {
    if i < |s| then s[i] else 0 as char
  }

  /** A C string holds no terminator before its end. */
  predicate IsCString(s: string) {
    forall i :: 0 <= i < |s| ==> s[i] != 0 as char
  }

  /** The characters that end a pattern once at least one character has matched. */
  predicate EndsPattern(c: char) {
    c == '*' || c == ',' || c == '"' || c == '\'' || c == ':' || c == 0 as char
  }

  predicate IsQuote(c: char) {
    c == '"' || c == '\''
  }

  /** A comma or a quote ends a token. */
  predicate EndsToken(c: char) {
    c == ',' || IsQuote(c)
  }

  predicate Separates(c: char) {
    c == ':' || EndsToken(c)
  }

  // ----- the substring matcher -----

  /** `k` is the length of the pattern at the front of `s`: up to the first ending character at index 1 or later. */
  ghost predicate PatternLength(s: string, k: nat) {
    && 1 <= k <= |s| && EndsPattern(At(s, k))
    && forall i: nat :: 1 <= i < k ==> !EndsPattern(At(s, i))
  }

  ghost predicate OccursAt(long: string, pattern: string, i: nat) {
    i + |pattern| <= |long| && long[i..i + |pattern|] == pattern
  }

  ghost predicate Occurs(long: string, pattern: string) {
    exists i: nat :: OccursAt(long, pattern, i)
  }

  /** What the matcher answers: 1 for a match, 2 for a match that ended at a colon, 0 for none. */
  ghost predicate Answers(long: string, short: string, r: int) {
    if At(short, 0) == '*' then r == 1
    else
      && (r == 0 || r == 1 || r == 2)
      && (r != 0 <==> exists k: nat :: PatternLength(short, k) && Occurs(long, short[..k]))
      && (forall k: nat :: r != 0 && PatternLength(short, k) ==> (r == 2 <==> At(short, k) == ':'))
  }

  lemma PatternLengthUnique(s: string, j: nat, k: nat)
    requires PatternLength(s, j) && PatternLength(s, k)
    ensures j == k
  {
  }

  lemma OccursChars(long: string, pattern: string, start: nat)
    ensures OccursAt(long, pattern, start) ==>
              start + |pattern| <= |long| && forall i: nat :: i < |pattern| ==> long[start + i] == pattern[i]
  {
    if OccursAt(long, pattern, start) {
      forall i: nat | i < |pattern| ensures long[start + i] == pattern[i] {
        assert long[start..start + |pattern|][i] == pattern[i];
      }
    }
  }

  /** A mismatch, or the end of the long string, before the pattern is complete rules this position out. */
  lemma NoMatchAt(long: string, short: string, start: nat, s: nat)
    requires start + s <= |long| && s <= |short|
    requires long[start..start + s] == short[..s]
    requires forall i: nat :: 1 <= i <= s ==> !EndsPattern(At(short, i))
    requires start + s == |long| || s == |short| || long[start + s] != short[s]
    ensures forall k: nat :: PatternLength(short, k) ==> !OccursAt(long, short[..k], start)
  {
    forall k: nat | PatternLength(short, k) ensures !OccursAt(long, short[..k], start) {
      OccursChars(long, short[..k], start);
    }
  }

  lemma AnswersUnique(long: string, short: string, a: int, b: int)
    requires Answers(long, short, a) && Answers(long, short, b)
    ensures a == b
  {
  }

  method IsStringInBiggerString(long: string, short: string) returns (r: int)
    requires IsCString(long) && IsCString(short)
    ensures Answers(long, short, r)
  {
    if At(short, 0) == '*' {
      return 1;
    }
    var l: nat := 0;
    while At(long, l) != 0 as char
      invariant l <= |long|
      invariant forall i: nat, k: nat :: i < l && PatternLength(short, k) ==> !OccursAt(long, short[..k], i)
      decreases |long| - l
    {
      var start: nat, next: nat, s: nat := l, l + 1, 0;
      while At(long, l) != 0 as char && At(short, s) != 0 as char && At(long, l) == At(short, s)
        invariant l == start + s <= |long| && s <= |short|
        invariant long[start..l] == short[..s]
        invariant forall i: nat :: 1 <= i <= s ==> !EndsPattern(At(short, i))
        decreases |long| - l
      {
        l := l + 1;
        s := s + 1;
        assert long[start..l] == short[..s];
        if EndsPattern(At(short, s)) {
          assert PatternLength(short, s);
          assert |short[..s]| == s && OccursAt(long, short[..s], start);
          assert Occurs(long, short[..s]);
          forall k: nat | PatternLength(short, k) ensures k == s {
            PatternLengthUnique(short, k, s);
          }
          return if At(short, s) == ':' then 2 else 1;
        }
      }
      NoMatchAt(long, short, start, s);
      l := next;
    }
    forall i: nat, k: nat | PatternLength(short, k) ensures !OccursAt(long, short[..k], i) {
      if |long| <= i {
        assert i + k > |long|;
      }
    }
    return 0;
  }

  // ----- the tokens of a filter argument -----

  /** Where the first token starts: after an opening quote. */
  function First(str: string): nat {
    if str != "" && IsQuote(str[0]) then 1 else 0
  }

  /** A token ended at `j`, and only separators follow up to `p`. */
  ghost predicate EndsBefore(str: string, j: nat, p: nat)
    requires p <= |str|
  {
    First(str) < j < p && EndsToken(str[j]) && forall i: nat :: j <= i < p ==> Separates(str[i])
  }

  /** A token starts at the front, or at the first character after a comma or quote that is no separator. */
  ghost predicate IsStart(str: string, p: nat) {
    && p < |str|
    && (p == First(str) || (First(str) < p && !Separates(str[p]) && exists j: nat :: EndsBefore(str, j, p)))
  }

  /** The token that starts at `p` ends at `e`, the first comma or quote after its first character. */
  ghost predicate TokenEnd(str: string, p: nat, e: nat) {
    p < e <= |str| && (e == |str| || EndsToken(str[e])) && forall i: nat :: p < i < e ==> !EndsToken(str[i])
  }

  /** `q` is the last colon after `p` and up to `e` that has a character after it. */
  ghost predicate LastColon(str: string, p: nat, e: nat, q: nat) {
    && p < q <= e && q + 1 < |str| && str[q] == ':'
    && forall i: nat :: q < i <= e && i + 1 < |str| ==> str[i] != ':'
  }

  ghost predicate RestMatches(name: string, str: string, p: nat, e: nat, q: nat) {
    TokenEnd(str, p, e) && LastColon(str, p, e, q) && !Answers(name, str[q + 1..], 0)
  }

  /** The file name matches, or it matches up to a colon and the test name the rest, or the test name matches. */
  ghost predicate TokenMatches(file: string, name: string, str: string, p: nat)
    requires p <= |str|
  {
    || Answers(file, str[p..], 1)
    || (Answers(file, str[p..], 2) && exists e: nat, q: nat :: RestMatches(name, str, p, e, q))
    || Answers(name, str[p..], 1)
  }

  /** Some token of the argument matches. */
  ghost predicate Selected(file: string, name: string, str: string) {
    exists p: nat :: IsStart(str, p) && TokenMatches(file, name, str, p)
  }

  /** The end of a token and the position of its last colon, or -1; or a read beyond the terminator. */
  datatype Scan = Overrun | Token(e: nat, colon: int)

  /** Scans a token from its second character. At the terminator there is none: the first read is out of bounds. */
  method ScanToken(str: string, p: nat) returns (s: Scan)
    requires IsCString(str) && p <= |str|
    ensures s == Overrun <==> p == |str|
    ensures s.Token? ==> TokenEnd(str, p, s.e)
    ensures s.Token? && s.colon >= 0 ==> LastColon(str, p, s.e, s.colon)
    ensures s.Token? && s.colon < 0 ==> forall q: nat :: !LastColon(str, p, s.e, q)
  {
    var e: nat, colon: int := p + 1, -1;
    if e > |str| {
      return Overrun;
    }
    if At(str, e) == ':' && At(str, e + 1) != 0 as char {
      colon := e;
    }
    while At(str, e) != 0 as char && !EndsToken(At(str, e))
      invariant p < e <= |str|
      invariant forall i: nat :: p < i < e ==> !EndsToken(str[i])
      invariant colon >= 0 ==> LastColon(str, p, e, colon)
      invariant colon < 0 ==> forall q: nat :: p < q <= e && q + 1 < |str| ==> str[q] != ':'
      decreases |str| - e
    {
      e := e + 1;
      if At(str, e) == ':' && At(str, e + 1) != 0 as char {
        colon := e;
      }
    }
    return Token(e, colon);
  }

  /** Skips separators. */
  method SkipSeparators(str: string, e: nat) returns (next: nat)
    requires IsCString(str) && e <= |str|
    ensures e <= next <= |str|
    ensures forall i: nat :: e <= i < next ==> Separates(str[i])
    ensures next < |str| ==> !Separates(str[next])
  {
    next := e;
    while At(str, next) != 0 as char && Separates(At(str, next))
      invariant e <= next <= |str|
      invariant forall i: nat :: e <= i < next ==> Separates(str[i])
      decreases |str| - next
    {
      next := next + 1;
    }
  }

  lemma TokenEndUnique(str: string, p: nat, e: nat, e': nat)
    requires TokenEnd(str, p, e) && TokenEnd(str, p, e')
    ensures e == e'
  {
  }

  /** Whether the token at `p` matches. */
  method MatchToken(file: string, name: string, str: string, p: nat, e: nat, colon: int) returns (matches: bool)
    requires IsCString(file) && IsCString(name) && IsCString(str)
    requires p <= |str| && TokenEnd(str, p, e)
    requires if colon >= 0 then LastColon(str, p, e, colon) else forall q: nat :: !LastColon(str, p, e, q)
    ensures matches <==> TokenMatches(file, name, str, p)
  {
    var byFile := IsStringInBiggerString(file, str[p..]);
    forall r: int | Answers(file, str[p..], r) ensures r == byFile {
      AnswersUnique(file, str[p..], r, byFile);
    }
    if byFile == 1 {
      return true;
    }
    if byFile == 2 && colon >= 0 {
      var byRest := IsStringInBiggerString(name, str[colon + 1..]);
      if byRest != 0 {
        assert RestMatches(name, str, p, e, colon) by {
          if Answers(name, str[colon + 1..], 0) {
            AnswersUnique(name, str[colon + 1..], 0, byRest);
          }
        }
        return true;
      }
    }
    var byName := IsStringInBiggerString(name, str[p..]);
    forall r: int | Answers(name, str[p..], r) ensures r == byName {
      AnswersUnique(name, str[p..], r, byName);
    }
    forall e': nat, q: nat ensures byFile == 2 ==> !RestMatches(name, str, p, e', q) {
      if TokenEnd(str, p, e') {
        TokenEndUnique(str, p, e, e');
      }
    }
    return byName == 1;
  }

  /** Between one token start and the place the loop goes on from, no other token starts. */
  lemma NoStartBetween(str: string, p: nat, e: nat, next: nat, q: nat)
    requires p < |str| && (p == First(str) || !Separates(str[p])) && First(str) <= p
    requires TokenEnd(str, p, e) && e <= next <= |str|
    requires forall i: nat :: e <= i < next ==> Separates(str[i])
    requires p < q < next
    ensures !IsStart(str, q)
  {
    if q < e {
      forall j: nat ensures !EndsBefore(str, j, q) {
        assert First(str) < j <= p < q && p != First(str) ==> !Separates(str[p]);
      }
    }
  }

  /** A lone quote is the only nonempty string that ends where its first token would start. */
  lemma LoneQuote(str: string)
    ensures str != "" && First(str) == |str| <==> str == "\"" || str == "'"
  {
    if |str| == 1 {
      assert str == [str[0]];
    }
  }

  /** The answer 0 or 1, or a read beyond the terminator of the argument, after which C promises nothing. */
  datatype Answer = OutOfBounds | Result(r: int)

  /**
   Answers 1 exactly when some token of the argument matches, and reads out of bounds exactly when the
   argument is a lone quote.
   */
  method StringArgumentMatches(file: string, name: string, str: string) returns (a: Answer)
    requires IsCString(file) && IsCString(name) && IsCString(str)
    ensures a == OutOfBounds <==> str == "\"" || str == "'"
    ensures a.Result? ==> a.r == 0 || a.r == 1
    ensures a.Result? ==> (a.r == 1 <==> Selected(file, name, str))
  {
    LoneQuote(str);
    var p: nat := 0;
    while At(str, p) != 0 as char
      invariant p <= |str|
      invariant 0 < p ==> First(str) < p && First(str) < |str|
      invariant 0 < p < |str| ==> IsStart(str, p)
      invariant forall q: nat :: q < p && IsStart(str, q) ==> !TokenMatches(file, name, str, q)
      decreases |str| - p
    {
      var from := p;
      if IsQuote(At(str, p)) {
        from := p + 1;
      }
      assert (p == 0 ==> from == First(str)) && (0 < p ==> from == p);
      var scan := ScanToken(str, from);
      if scan == Overrun {
        return OutOfBounds;
      }
      assert IsStart(str, from);
      var next := SkipSeparators(str, scan.e);
      var matches := MatchToken(file, name, str, from, scan.e, scan.colon);
      if matches {
        return Result(1);
      }
      forall q: nat | from < q < next ensures !IsStart(str, q) {
        NoStartBetween(str, from, scan.e, next, q);
      }
      assert next < |str| ==> EndsBefore(str, scan.e, next);
      p := next;
    }
    return Result(0);
  }
}
