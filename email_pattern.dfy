/** The email pattern `^\w+([\.-]?\w+)*@\w+([\.-]?\w+)*(\.\w{2,3})+$` of the registration form.
    The regex is read twice: once piece by piece as its grammar is written (ghost predicates),
    and once as the direct character test the validator runs; `MatchesIffRegex` ties them. */
module EmailPattern {
  import opened Wrappers
  import opened Text

  /** `[\.-]` */
  predicate IsSeparator(c: char) { c == '.' || c == '-' }

  // ---------------------------------------------------------------- the regex, as written

  /** `\w+` */
  ghost predicate WordRun(s: string) {
    |s| >= 1 && forall i :: 0 <= i < |s| ==> IsWordChar(s[i])
  }

  /** `[\.-]?\w+` */
  ghost predicate Piece(s: string) {
    WordRun(s) || (|s| >= 2 && IsSeparator(s[0]) && WordRun(s[1..]))
  }

  /** `([\.-]?\w+)*` */
  ghost predicate Pieces(s: string)
    decreases |s|
  {
    s == [] || exists k :: 0 < k <= |s| && Piece(s[..k]) && Pieces(s[k..])
  }

  /** `\w+([\.-]?\w+)*`, the shape of the local part and of the domain before its suffixes */
  ghost predicate Name(s: string) {
    exists k :: 0 < k <= |s| && WordRun(s[..k]) && Pieces(s[k..])
  }

  /** `(\.\w{2,3})+` */
  ghost predicate Suffixes(s: string)
    decreases |s|
  {
    exists k :: 3 <= k <= 4 && k <= |s| && s[0] == '.' && WordRun(s[1..k]) && (k == |s| || Suffixes(s[k..]))
  }

  /** The whole anchored pattern: a name, `@`, a name, then one or more suffixes. */
  ghost predicate MatchesRegex(s: string) {
    exists i, j :: 0 <= i < j <= |s| && s[i] == '@' && Name(s[..i]) && Name(s[i + 1..j]) && Suffixes(s[j..])
  }

  // ---------------------------------------------------------------- the direct test

  /** Position `i` holds a word character, or a separator followed by a word character. */
  predicate SeparatedAt(s: string, i: nat)
    requires i < |s|
  {
    IsWordChar(s[i]) || (IsSeparator(s[i]) && i + 1 < |s| && IsWordChar(s[i + 1]))
  }

  /** Every character is a word character or a separator, and every separator is followed by a word character. */
  predicate SeparatedWords(s: string) {
    forall i :: 0 <= i < |s| ==> SeparatedAt(s, i)
  }

  /** A non-empty run of word characters and single separators, starting and ending with a word character. */
  predicate IsName(s: string) {
    |s| > 0 && IsWordChar(s[0]) && SeparatedWords(s)
  }

  /** `s` ends in `.` and two or three word characters. */
  predicate EndsWithSuffix(s: string) {
    (|s| >= 3 && s[|s| - 3] == '.' && IsWordChar(s[|s| - 2]) && IsWordChar(s[|s| - 1]))
    || (|s| >= 4 && s[|s| - 4] == '.' && IsWordChar(s[|s| - 3]) && IsWordChar(s[|s| - 2]) && IsWordChar(s[|s| - 1]))
  }

  /** A name that ends in a suffix; as a name starts with a word character, the suffix's dot is
      never its first character. */
  predicate IsDomain(d: string) {
    IsName(d) && EndsWithSuffix(d)
  }

  /** The test the validator runs: split at the first `@`, then check both halves. An email it
      accepts holds exactly one `@`, with a name before it and a domain after it. */
  function Matches(s: string): (r: bool)
    ensures r ==> exists i :: 0 < i < |s| - 1 && s[i] == '@' && forall j :: 0 <= j < |s| && s[j] == '@' ==> j == i
  {
    match IndexOf(s, '@')
    case None => false
    case Some(i) =>
      if IsName(s[..i]) && IsDomain(s[i + 1..]) then
        OnlyAt(s, i);
        true
      else false
  }

  /** Separated words hold no `@`. */
  lemma {:induction false} SeparatedWordsNoAt(s: string, m: nat)
    requires SeparatedWords(s) && m < |s|
    ensures s[m] != '@'
  {
    assert SeparatedAt(s, m);
  }

  /** An `@` between a name and another name is the only `@` of the string. */
  lemma {:induction false} OnlyAt(s: string, i: nat)
    requires i < |s| && s[i] == '@' && IsName(s[..i]) && IsName(s[i + 1..])
    ensures forall j :: 0 <= j < |s| && s[j] == '@' ==> j == i
  {
    forall j | 0 <= j < |s| && j != i
      ensures s[j] != '@'
    {
      if j < i {
        SeparatedWordsNoAt(s[..i], j);
        assert s[..i][j] == s[j];
      } else {
        SeparatedWordsNoAt(s[i + 1..], j - i - 1);
        assert s[i + 1..][j - i - 1] == s[j];
      }
    }
  }

  // ---------------------------------------------------------------- equivalence

  lemma {:induction false} SeparatedWordsConcat(a: string, b: string)
    requires SeparatedWords(a) && SeparatedWords(b)
    ensures SeparatedWords(a + b)
  {
    var s := a + b;
    forall i | 0 <= i < |s|
      ensures SeparatedAt(s, i)
    {
      if i < |a| {
        assert SeparatedAt(a, i);
        assert s[i] == a[i];
        if i + 1 < |a| { assert s[i + 1] == a[i + 1]; }
      } else {
        assert SeparatedAt(b, i - |a|);
        assert s[i] == b[i - |a|];
        if i + 1 < |s| { assert s[i + 1] == b[i + 1 - |a|]; }
      }
    }
  }

  lemma {:induction false} WordRunSeparated(s: string)
    requires WordRun(s)
    ensures SeparatedWords(s)
  {
  }

  lemma {:induction false} PieceSeparated(s: string)
    requires Piece(s)
    ensures SeparatedWords(s) && |s| > 0
  {
    if !WordRun(s) {
      assert WordRun(s[1..]);
      forall i | 0 <= i < |s|
        ensures SeparatedAt(s, i)
      {
        if i == 0 { assert s[1] == s[1..][0]; } else { assert s[i] == s[1..][i - 1]; }
      }
    }
  }

  lemma {:induction false} PiecesSeparated(s: string)
    requires Pieces(s)
    ensures SeparatedWords(s)
    decreases |s|
  {
    if s != [] {
      var k :| 0 < k <= |s| && Piece(s[..k]) && Pieces(s[k..]);
      PieceSeparated(s[..k]);
      PiecesSeparated(s[k..]);
      SeparatedWordsConcat(s[..k], s[k..]);
      assert s[..k] + s[k..] == s;
    }
  }

  lemma {:induction false} SeparatedWordsTail(s: string, k: nat)
    requires SeparatedWords(s) && k <= |s|
    ensures SeparatedWords(s[k..])
  {
    var t := s[k..];
    forall i | 0 <= i < |t|
      ensures SeparatedAt(t, i)
    {
      assert SeparatedAt(s, i + k);
      assert t[i] == s[i + k];
      if i + 1 < |t| { assert t[i + 1] == s[i + 1 + k]; }
    }
  }

  lemma {:induction false} SeparatedPieces(s: string)
    requires SeparatedWords(s)
    ensures Pieces(s)
    decreases |s|
  {
    if s != [] {
      assert SeparatedAt(s, 0);
      var k := if IsWordChar(s[0]) then 1 else 2;
      assert k == 2 ==> s[..k][1..] == [s[1]];
      assert Piece(s[..k]);
      SeparatedWordsTail(s, k);
      SeparatedPieces(s[k..]);
    }
  }

  /** The grammar of `\w+([\.-]?\w+)*` and the direct test agree. */
  lemma {:induction false} NameIff(s: string)
    ensures Name(s) <==> IsName(s)
  {
    if Name(s) {
      var k :| 0 < k <= |s| && WordRun(s[..k]) && Pieces(s[k..]);
      PiecesSeparated(s[k..]);
      SeparatedWordsConcat(s[..k], s[k..]);
      assert s[..k] + s[k..] == s;
      assert s[0] == s[..k][0];
    }
    if IsName(s) {
      assert WordRun(s[..1]);
      SeparatedWordsTail(s, 1);
      SeparatedPieces(s[1..]);
    }
  }

  /** One suffix `.` plus two or three word characters is a run of separated words. */
  lemma {:induction false} SuffixSeparated(t: string, k: nat)
    requires 3 <= k <= |t| && t[0] == '.' && WordRun(t[1..k])
    ensures SeparatedWords(t[..k])
  {
    var head := t[..k];
    forall i | 0 <= i < |head|
      ensures SeparatedAt(head, i)
    {
      if i == 0 { assert head[1] == t[1..k][0]; } else { assert head[i] == t[1..k][i - 1]; }
    }
  }

  /** The length of the first suffix of a run of suffixes. */
  lemma {:induction false} FirstSuffix(t: string) returns (k: nat)
    requires Suffixes(t)
    ensures 3 <= k <= 4 && k <= |t| && t[0] == '.' && WordRun(t[1..k]) && (k == |t| || Suffixes(t[k..]))
  {
    k :| 3 <= k <= 4 && k <= |t| && t[0] == '.' && WordRun(t[1..k]) && (k == |t| || Suffixes(t[k..]));
  }

  /** A run of suffixes starts with a dot, is a run of separated words and ends in its last suffix. */
  lemma {:induction false} SuffixesShape(t: string)
    requires Suffixes(t)
    ensures |t| >= 3 && t[0] == '.' && SeparatedWords(t) && EndsWithSuffix(t)
    decreases |t|
  {
    var k := FirstSuffix(t);
    SuffixSeparated(t, k);
    if k == |t| {
      assert t[..k] == t;
      assert t[k - 1] == t[1..k][k - 2] && t[k - 2] == t[1..k][k - 3];
      assert k == 4 ==> t[1] == t[1..k][0];
    } else {
      var rest := t[k..];
      SuffixesShape(rest);
      SeparatedWordsConcat(t[..k], rest);
      assert t[..k] + rest == t;
      assert t[|t| - 1] == rest[|rest| - 1] && t[|t| - 2] == rest[|rest| - 2] && t[|t| - 3] == rest[|rest| - 3];
      assert |rest| >= 4 ==> t[|t| - 4] == rest[|rest| - 4];
    }
  }

  /** A name followed by suffixes passes the direct domain test. */
  lemma {:induction false} SuffixesDomain(p: string, t: string)
    requires IsName(p) && Suffixes(t)
    ensures IsDomain(p + t)
  {
    SuffixesShape(t);
    SeparatedWordsConcat(p, t);
    var d := p + t;
    assert d[0] == p[0];
    assert d[|d| - 1] == t[|t| - 1] && d[|d| - 2] == t[|t| - 2] && d[|d| - 3] == t[|t| - 3];
    assert |t| >= 4 ==> d[|d| - 4] == t[|t| - 4];
  }

  /** A domain passing the direct test splits into a name and one final suffix. */
  lemma {:induction false} DomainSplits(d: string) returns (j: nat)
    requires IsDomain(d)
    ensures 0 < j < |d| && Name(d[..j]) && Suffixes(d[j..])
  {
    j := if |d| >= 4 && d[|d| - 3] == '.' && IsWordChar(d[|d| - 2]) && IsWordChar(d[|d| - 1]) then |d| - 3 else |d| - 4;
    var p := d[..j];
    assert SeparatedWords(p) by {
      forall i | 0 <= i < |p|
        ensures SeparatedAt(p, i)
      {
        assert SeparatedAt(d, i);
        assert p[i] == d[i];
        if IsSeparator(d[i]) {
          assert IsWordChar(d[i + 1]);
          assert i + 1 != j;
          assert p[i + 1] == d[i + 1];
        }
      }
    }
    NameIff(p);
    var t := d[j..];
    assert WordRun(t[1..|t|]);
  }

  /** A name holds no `@`, so the first `@` of an email is the one after its local part. */
  lemma {:induction false} FirstAtAfterName(s: string, i: nat)
    requires i < |s| && s[i] == '@' && IsName(s[..i])
    ensures IndexOf(s, '@') == Some(i)
  {
    forall m | 0 <= m < i ensures s[m] != '@' {
      assert SeparatedAt(s[..i], m);
      assert s[m] == s[..i][m];
    }
  }

  /** An `@` after a name and before a domain makes the direct test pass. */
  lemma {:induction false} MatchesAt(s: string, i: nat)
    requires i < |s| && s[i] == '@' && IsName(s[..i]) && IsDomain(s[i + 1..])
    ensures Matches(s)
  {
    FirstAtAfterName(s, i);
  }

  /** Where a match of the regex places its `@` and its first suffix. */
  lemma {:induction false} RegexSplit(s: string) returns (i: nat, j: nat)
    requires MatchesRegex(s)
    ensures i < j <= |s| && s[i] == '@' && Name(s[..i]) && Name(s[i + 1..j]) && Suffixes(s[j..])
  {
    i, j :| 0 <= i < j <= |s| && s[i] == '@' && Name(s[..i]) && Name(s[i + 1..j]) && Suffixes(s[j..]);
  }

  lemma {:induction false} RegexMatches(s: string)
    requires MatchesRegex(s)
    ensures Matches(s)
  {
    var i, j := RegexSplit(s);
    NameIff(s[..i]);
    NameIff(s[i + 1..j]);
    SuffixesDomain(s[i + 1..j], s[j..]);
    assert s[i + 1..j] + s[j..] == s[i + 1..];
    MatchesAt(s, i);
  }

  lemma {:induction false} MatchesRegexWitness(s: string)
    requires Matches(s)
    ensures MatchesRegex(s)
  {
    var i := IndexOf(s, '@').value;
    NameIff(s[..i]);
    var d := s[i + 1..];
    var j' := DomainSplits(d);
    var j := i + 1 + j';
    assert s[i + 1..j] == d[..j'];
    assert s[j..] == d[j'..];
  }

  /** The direct test accepts exactly the strings the regex matches. */
  lemma {:induction false} MatchesIffRegex(s: string)
    ensures Matches(s) <==> MatchesRegex(s)
  {
    if MatchesRegex(s) { RegexMatches(s); }
    if Matches(s) { MatchesRegexWitness(s); }
  }
}
