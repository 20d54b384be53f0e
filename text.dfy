/** JavaScript string operations the application relies on: `String.prototype.trim`
    (used to reject blank parameter names) and `toLowerCase` (used for the
    case-insensitive duplicate checks), restricted to what the model needs. */
module Text {

  /** The characters `trim` removes: ECMAScript WhiteSpace and LineTerminator. */
  predicate IsJsWhitespace(c: char) {
    var n := c as int;
    n == 0x09 || n == 0x0A || n == 0x0B || n == 0x0C || n == 0x0D || n == 0x20
    || n == 0xA0 || n == 0x1680 || (0x2000 <= n <= 0x200A) || n == 0x2028 || n == 0x2029
    || n == 0x202F || n == 0x205F || n == 0x3000 || n == 0xFEFF
  }

  predicate AllWhitespace(s: string) {
    forall i :: 0 <= i < |s| ==> IsJsWhitespace(s[i])
  }

  /** Drops leading whitespace: the result is the suffix of `s` that starts at the
      first non-whitespace character. */
  function TrimStart(s: string): (r: string)
    ensures |r| <= |s| && r == s[|s| - |r|..]
    ensures forall i :: 0 <= i < |s| - |r| ==> IsJsWhitespace(s[i])
    ensures r != [] ==> !IsJsWhitespace(r[0])
  {
    if s != [] && IsJsWhitespace(s[0]) then TrimStart(s[1..]) else s
  }

  /** Drops trailing whitespace: the result is the prefix of `s` that ends at the
      last non-whitespace character. */
  function TrimEnd(s: string): (r: string)
    ensures |r| <= |s| && r == s[..|r|]
    ensures forall i :: |r| <= i < |s| ==> IsJsWhitespace(s[i])
    ensures r != [] ==> !IsJsWhitespace(r[|r| - 1])
  {
    if s != [] && IsJsWhitespace(s[|s| - 1]) then TrimEnd(s[..|s| - 1]) else s
  }

  /** `s.trim()`: the stretch of `s` between its leading and its trailing
      whitespace, which neither starts nor ends with whitespace. */
  function Trim(s: string): (r: string)
    ensures |r| <= |s|
    ensures exists k :: IsSliceBetweenWhitespace(s, k, r)
    ensures r != [] ==> !IsJsWhitespace(r[0]) && !IsJsWhitespace(r[|r| - 1])
  {
    var t := TrimStart(s);
    var r := TrimEnd(t);
    SliceBetweenWhitespace(s, t, r);
    r
  }

  /** `r` sits in `s` at offset `k`, with only whitespace before and after it. */
  predicate IsSliceBetweenWhitespace(s: string, k: int, r: string) {
    && 0 <= k <= |s| - |r| && s[k..k + |r|] == r
    && AllWhitespace(s[..k]) && AllWhitespace(s[k + |r|..])
  }

  /** Whitespace before the suffix `t` of `s`, and whitespace after the prefix `r`
      of `t`, put `r` in `s` between whitespace. */
  lemma SliceBetweenWhitespace(s: string, t: string, r: string)
    requires |t| <= |s| && t == s[|s| - |t|..]
    requires forall i :: 0 <= i < |s| - |t| ==> IsJsWhitespace(s[i])
    requires |r| <= |t| && r == t[..|r|]
    requires forall i :: |r| <= i < |t| ==> IsJsWhitespace(t[i])
    ensures IsSliceBetweenWhitespace(s, |s| - |t|, r)
  {
    var k := |s| - |t|;
    PrefixWhitespace(s, k);
    SuffixWhitespace(t, |r|);
    SliceOfSuffix(s, k, t, r);
  }

  /** A run of whitespace characters is all whitespace. */
  lemma PrefixWhitespace(s: string, k: nat)
    requires k <= |s|
    requires forall i :: 0 <= i < k ==> IsJsWhitespace(s[i])
    ensures AllWhitespace(s[..k])
  {
    var head := s[..k];
    forall i | 0 <= i < |head| ensures IsJsWhitespace(head[i]) {
      assert head[i] == s[i];
    }
  }

  lemma SuffixWhitespace(s: string, k: nat)
    requires k <= |s|
    requires forall i :: k <= i < |s| ==> IsJsWhitespace(s[i])
    ensures AllWhitespace(s[k..])
  {
    var tail := s[k..];
    forall i | 0 <= i < |tail| ensures IsJsWhitespace(tail[i]) {
      assert tail[i] == s[k + i];
    }
  }

  /** A prefix `r` of the suffix `t` of `s` at offset `k` is the slice of `s` at
      `k`, and what follows it in `s` is what follows it in `t`. */
  lemma SliceOfSuffix(s: string, k: nat, t: string, r: string)
    requires k <= |s| && t == s[k..] && |r| <= |t| && r == t[..|r|]
    ensures s[k..k + |r|] == r && s[k + |r|..] == t[|r|..]
  {
  }

  /** `s.trim()` is the empty string exactly when every character of `s` is whitespace. */
  lemma TrimEmptyIff(s: string)
    ensures Trim(s) == "" <==> AllWhitespace(s)
  {
    var t := TrimStart(s);
    if Trim(s) != "" {
      assert !IsJsWhitespace(s[|s| - |t|]);
    }
  }

  /** Evaluates `s.trim() === ""`; callers see only what the test means. */
  method IsBlank(s: string) returns (blank: bool)
    ensures blank <==> AllWhitespace(s)
  {
    blank := Trim(s) == "";
    TrimEmptyIff(s);
  }

  /** `toLowerCase` on one character, for the ASCII letters. */
  function LowerChar(c: char): char {
    if 'A' <= c <= 'Z' then (c as int + 32) as char else c
  }

  /** `s.toLowerCase()` with ASCII case folding. */
  function Lower(s: string): string {
    seq(|s|, i requires 0 <= i < |s| => LowerChar(s[i]))
  }

  /** Two strings compare equal ignoring case. */
  predicate SameIgnoringCase(a: string, b: string) {
    Lower(a) == Lower(b)
  }

  /** `x` and `y` are the same ASCII letter in its two cases. */
  predicate CasePair(x: char, y: char) {
    || ('A' <= x <= 'Z' && y as int == x as int + 32)
    || ('A' <= y <= 'Z' && x as int == y as int + 32)
  }

  /** Two characters fold alike exactly when they are equal or are one letter in
      its two cases. */
  lemma LowerCharAlike(x: char, y: char)
    ensures LowerChar(x) == LowerChar(y) <==> x == y || CasePair(x, y)
  {
  }

  /** Comparing ignoring case is comparing position by position, where a
      position matches when its characters are equal or are one letter in its
      two cases. */
  lemma SameIgnoringCaseIff(a: string, b: string)
    ensures SameIgnoringCase(a, b) <==>
      |a| == |b| && forall i :: 0 <= i < |a| ==> a[i] == b[i] || CasePair(a[i], b[i])
  {
    if SameIgnoringCase(a, b) {
      forall i | 0 <= i < |a| ensures a[i] == b[i] || CasePair(a[i], b[i]) {
        assert Lower(a)[i] == Lower(b)[i];
        LowerCharAlike(a[i], b[i]);
      }
    }
    if |a| == |b| && forall i :: 0 <= i < |a| ==> a[i] == b[i] || CasePair(a[i], b[i]) {
      forall i | 0 <= i < |a| ensures Lower(a)[i] == Lower(b)[i] {
        LowerCharAlike(a[i], b[i]);
      }
    }
  }

  /** Folding is idempotent, and a folded string holds no ASCII capital. */
  lemma LowerIdempotent(s: string)
    ensures Lower(Lower(s)) == Lower(s)
    ensures forall i :: 0 <= i < |s| ==> !('A' <= Lower(s)[i] <= 'Z')
  {
    forall i | 0 <= i < |s| ensures Lower(Lower(s))[i] == Lower(s)[i] {
      assert Lower(s)[i] == LowerChar(s[i]);
    }
  }

  /** Folding is not injective: "Foo" and "foo" differ but agree ignoring case. */
  lemma FoldingIsNotInjective()
    ensures "Foo" != "foo" && SameIgnoringCase("Foo", "foo")
  {
    assert Lower("Foo")[0] == 'f';
    assert Lower("Foo") == "foo";
  }
}
