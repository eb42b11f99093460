/** The string operations the form handlers use: `trim`, `toLowerCase`, `includes`,
    `endsWith`, `new Set(string).size` and the single-character classes of their regexes. */
module Text {
  import opened Wrappers

  // ---------------------------------------------------------------- characters

  /** The code points `String.prototype.trim` strips: ECMAScript WhiteSpace
      (tab, vertical tab, form feed, ZWNBSP and the Zs category) and LineTerminator. */
  predicate IsWhitespace(c: char) {
    c == '\t' || c == '\n' || c == '\U{B}' || c == '\U{C}' || c == '\r' || c == ' '
    || c == '\U{A0}' || c == '\U{1680}' || ('\U{2000}' <= c <= '\U{200A}')
    || c == '\U{2028}' || c == '\U{2029}' || c == '\U{202F}' || c == '\U{205F}'
    || c == '\U{3000}' || c == '\U{FEFF}'
  }

  /** `[A-Z]` */
  predicate IsUpper(c: char) { 'A' <= c <= 'Z' }

  /** `[a-z]` */
  predicate IsLower(c: char) { 'a' <= c <= 'z' }

  /** `\d` */
  predicate IsDigit(c: char) { '0' <= c <= '9' }

  /** `[a-zA-Z0-9]` */
  predicate IsAlphanumeric(c: char) { IsUpper(c) || IsLower(c) || IsDigit(c) }

  /** `\w`, that is `[A-Za-z0-9_]` */
  predicate IsWordChar(c: char) { IsAlphanumeric(c) || c == '_' }

  // ---------------------------------------------------------------- trim

  /** The position of the first character at or after `i` that is not whitespace, or `|s|`. */
  function SkipSpace(s: string, i: nat): (n: nat)
    requires i <= |s|
    ensures i <= n <= |s|
    ensures forall k :: i <= k < n ==> IsWhitespace(s[k])
    ensures n == |s| || !IsWhitespace(s[n])
    decreases |s| - i
  {
    if i == |s| || !IsWhitespace(s[i]) then i else SkipSpace(s, i + 1)
  }

  /** The position just after the last character before `j` that is not whitespace,
      looking no further left than `lo`; `lo` when there is none. */
  function SkipSpaceBack(s: string, lo: nat, j: nat): (m: nat)
    requires lo <= j <= |s|
    ensures lo <= m <= j
    ensures forall k :: m <= k < j ==> IsWhitespace(s[k])
    ensures m == lo || !IsWhitespace(s[m - 1])
    decreases j
  {
    if j == lo || !IsWhitespace(s[j - 1]) then j else SkipSpaceBack(s, lo, j - 1)
  }

  /** `String.prototype.trim`: the infix of `s` left once its leading and its trailing whitespace
      are gone; it neither starts nor ends with whitespace. */
  function Trim(s: string): (r: string)
    ensures r == [] || (!IsWhitespace(r[0]) && !IsWhitespace(r[|r| - 1]))
    ensures var lo := SkipSpace(s, 0);
      lo + |r| <= |s| && r == s[lo..lo + |r|]
      && (forall i :: 0 <= i < lo ==> IsWhitespace(s[i]))
      && (forall i :: lo + |r| <= i < |s| ==> IsWhitespace(s[i]))
  {
    var lo := SkipSpace(s, 0);
    s[lo..SkipSpaceBack(s, lo, |s|)]
  }

  /** Trimming twice trims nothing more. */
  lemma {:induction false} TrimIdempotent(s: string)
    ensures Trim(Trim(s)) == Trim(s)
  {
    var r := Trim(s);
    if r != [] {
      assert SkipSpace(r, 0) == 0;
      assert SkipSpaceBack(r, 0, |r|) == |r|;
      assert r[0..|r|] == r;
    }
  }

  /** Trimming yields the empty string exactly for strings made only of whitespace. */
  lemma {:induction false} TrimEmptyIff(s: string)
    ensures Trim(s) == "" <==> forall i :: 0 <= i < |s| ==> IsWhitespace(s[i])
  {
    if forall i :: 0 <= i < |s| ==> IsWhitespace(s[i]) {
      assert SkipSpace(s, 0) == |s|;
    }
  }

  // ---------------------------------------------------------------- toLowerCase

  /** `toLowerCase` on one character; only ASCII letters change. */
  function LowerChar(c: char): char {
    if IsUpper(c) then (c as int + 32) as char else c
  }

  /** `String.prototype.toLowerCase` restricted to ASCII letters. */
  function ToLower(s: string): (r: string)
    ensures |r| == |s|
  {
    if s == [] then [] else [LowerChar(s[0])] + ToLower(s[1..])
  }

  /** Lowering maps each character on its own. */
  lemma {:induction false} ToLowerAt(s: string, i: nat)
    requires i < |s|
    ensures ToLower(s)[i] == LowerChar(s[i])
  {
    if i > 0 { ToLowerAt(s[1..], i - 1); }
  }

  /** A lowered string holds no upper-case letter and keeps every other character class. */
  lemma {:induction false} ToLowerCharacters(s: string)
    ensures forall i :: 0 <= i < |s| ==> !IsUpper(ToLower(s)[i])
    ensures forall i :: 0 <= i < |s| ==> (IsAlphanumeric(ToLower(s)[i]) <==> IsAlphanumeric(s[i]))
    ensures forall i :: 0 <= i < |s| ==> (IsWordChar(ToLower(s)[i]) <==> IsWordChar(s[i]))
  {
    forall i | 0 <= i < |s| ensures ToLower(s)[i] == LowerChar(s[i]) { ToLowerAt(s, i); }
  }

  /** Lowering a lowered string changes nothing. */
  lemma {:induction false} ToLowerIdempotent(s: string)
    ensures ToLower(ToLower(s)) == ToLower(s)
  {
    var t := ToLower(s);
    forall i | 0 <= i < |s| ensures ToLower(t)[i] == t[i] {
      ToLowerAt(t, i);
      ToLowerAt(s, i);
    }
  }

  /** A string without upper-case letters is its own lower-case form. */
  lemma {:induction false} ToLowerNoUpper(s: string)
    requires forall i :: 0 <= i < |s| ==> !IsUpper(s[i])
    ensures ToLower(s) == s
  {
    if s != [] { ToLowerNoUpper(s[1..]); }
  }

  /** Lowering distributes over a slice. */
  lemma {:induction false} ToLowerSlice(s: string, lo: nat, hi: nat)
    requires lo <= hi <= |s|
    ensures ToLower(s)[lo..hi] == ToLower(s[lo..hi])
  {
    forall i | 0 <= i < hi - lo ensures ToLower(s)[lo..hi][i] == ToLower(s[lo..hi])[i] {
      ToLowerAt(s, lo + i);
      ToLowerAt(s[lo..hi], i);
    }
  }

  // ---------------------------------------------------------------- includes / endsWith / indexOf

  /** `s` holds `sub` at position `i`. */
  predicate OccursAt(s: string, sub: string, i: nat) {
    i + |sub| <= |s| && s[i..i + |sub|] == sub
  }

  /** Dropping the first character moves every later occurrence one place to the left. */
  lemma {:induction false} OccursAtShift(s: string, sub: string, i: nat)
    requires 1 <= i && |s| > 0
    ensures OccursAt(s, sub, i) <==> OccursAt(s[1..], sub, i - 1)
  {
    if i + |sub| <= |s| {
      var here, there := s[i..i + |sub|], s[1..][i - 1..i - 1 + |sub|];
      forall k | 0 <= k < |here| ensures here[k] == there[k] {
        assert here[k] == s[i + k];
      }
      assert here == there;
    }
  }

  /** `String.prototype.includes`: tries every start position from the left. */
  function Includes(s: string, sub: string): (r: bool)
    ensures r <==> exists i :: 0 <= i && OccursAt(s, sub, i)
    decreases |s|
  {
    if |sub| > |s| then
      assert forall i :: 0 <= i ==> !OccursAt(s, sub, i);
      false
    else if s[..|sub|] == sub then
      assert OccursAt(s, sub, 0);
      true
    else
      var r := Includes(s[1..], sub);
      forall i | 1 <= i ensures OccursAt(s, sub, i) <==> OccursAt(s[1..], sub, i - 1) {
        OccursAtShift(s, sub, i);
      }
      assert r ==> exists i :: 0 <= i && OccursAt(s, sub, i) by {
        if r { var k :| 0 <= k && OccursAt(s[1..], sub, k); assert OccursAt(s, sub, k + 1); }
      }
      r
  }

  /** `String.prototype.endsWith`: `suffix` occurs at the last position it fits, so `s` also
      includes it. */
  function EndsWith(s: string, suffix: string): (r: bool)
    ensures r <==> |suffix| <= |s| && OccursAt(s, suffix, |s| - |suffix|)
    ensures r ==> Includes(s, suffix)
  {
    |suffix| <= |s| && s[|s| - |suffix|..] == suffix
  }

  /** The first position holding `c`; the email test splits an address at its first `@`. */
  function IndexOf(s: string, c: char): (r: Option<nat>)
    ensures r.Some? ==> r.value < |s| && s[r.value] == c && forall j :: 0 <= j < r.value ==> s[j] != c
    ensures r.None? ==> forall j :: 0 <= j < |s| ==> s[j] != c
  {
    if |s| == 0 then None
    else if s[0] == c then Some(0)
    else match IndexOf(s[1..], c)
      case None => None
      case Some(i) => Some(i + 1)
  }

  // ---------------------------------------------------------------- new Set(string).size

  /** The characters of `s`, as `new Set(s)` collects them. */
  function UniqueChars(s: string): set<char> {
    set i | 0 <= i < |s| :: s[i]
  }

  /** At least two distinct characters means some character differs from the first. */
  lemma {:induction false} TwoUniqueCharsIff(s: string)
    ensures |UniqueChars(s)| >= 2 <==> exists i :: 0 <= i < |s| && s[i] != s[0]
  {
    var u := UniqueChars(s);
    if exists i :: 0 <= i < |s| && s[i] != s[0] {
      var i :| 0 <= i < |s| && s[i] != s[0];
      assert s[0] in u && s[i] in u;
      assert s[i] in u - {s[0]};
      assert |u - {s[0]}| >= 1;
    } else if |s| > 0 {
      assert u == {s[0]};
    } else {
      assert u == {};
    }
  }
}
