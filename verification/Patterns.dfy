/** The regular expressions that names, versions and digests have to match, and what matching them means. */
module Patterns {
  import opened PackageNames
  import opened Lockfile

  /** One character out of some ranges, or any number of them. */
  datatype Item = One(ranges: seq<(char, char)>) | Run(ranges: seq<(char, char)>)

  predicate Among(ch: char, ranges: seq<(char, char)>)
  {
    exists r :: r in ranges && r.0 <= ch <= r.1
  }

  /** The pattern matches the whole string. */
  predicate Matches(pattern: seq<Item>, s: string)
    decreases |pattern|, |s|
  {
    if pattern == [] then s == ""
    else
      match pattern[0]
      case One(ranges) => s != "" && Among(s[0], ranges) && Matches(pattern[1..], s[1..])
      case Run(ranges) => Matches(pattern[1..], s) || (s != "" && Among(s[0], ranges) && Matches(pattern, s[1..]))
  }

  const ALNUM := [('a', 'z'), ('0', '9')]
  const NAME_CHARS := [('a', 'z'), ('0', '9'), ('_', '_'), ('-', '-')]
  const SLASH := [('/', '/')]
  const DIGIT := [('0', '9')]
  const DOT := [('.', '.')]
  const HEX := [('0', '9'), ('a', 'f')]

  /** `[..][..]*`: one character and then any number of others. */
  function Word(first: seq<(char, char)>, others: seq<(char, char)>): seq<Item>
  {
    [One(first), Run(others)]
  }

  /** `^[a-z0-9][a-z0-9_-]*'/'[a-z0-9][a-z0-9_-]*$` */
  const NAME := Word(ALNUM, NAME_CHARS) + [One(SLASH)] + Word(ALNUM, NAME_CHARS)

  /** `^\d+\.\d+\.\d+$` */
  const SEMVER := Word(DIGIT, DIGIT) + [One(DOT)] + Word(DIGIT, DIGIT) + [One(DOT)] + Word(DIGIT, DIGIT)

  /** `^[0-9a-f]{64}$` */
  const SHA256_HEX := seq(64, _ => One(HEX))

  // What matching means.

  predicate IsWord(first: seq<(char, char)>, others: seq<(char, char)>, s: string)
  {
    s != "" && Among(s[0], first) && forall k :: 1 <= k < |s| ==> Among(s[k], others)
  }

  lemma {:induction false} RunMatches(ranges: seq<(char, char)>, rest: seq<Item>, s: string)
    ensures Matches([Run(ranges)] + rest, s) <==>
            exists i :: 0 <= i <= |s| && (forall k :: 0 <= k < i ==> Among(s[k], ranges)) && Matches(rest, s[i..])
    decreases |s|
  {
    var pattern := [Run(ranges)] + rest;
    assert pattern[1..] == rest && s[0..] == s;
    if s != "" && Among(s[0], ranges) {
      var t := s[1..];
      RunMatches(ranges, rest, t);
      if i :| 0 <= i <= |t| && (forall k :: 0 <= k < i ==> Among(t[k], ranges)) && Matches(rest, t[i..]) {
        assert t[i..] == s[i + 1..] && forall k :: 1 <= k < i + 1 ==> s[k] == t[k - 1];
      }
      if i :| 0 <= i <= |s| && (forall k :: 0 <= k < i ==> Among(s[k], ranges)) && Matches(rest, s[i..]) {
        if i > 0 {
          assert s[i..] == t[i - 1..] && forall k :: 0 <= k < i - 1 ==> t[k] == s[k + 1];
        }
      }
    }
  }

  /** A word up to `i`, and behind it what the rest of the pattern matches. */
  predicate WordThen(first: seq<(char, char)>, others: seq<(char, char)>, rest: seq<Item>, s: string, i: nat)
  {
    i <= |s| && IsWord(first, others, s[..i]) && Matches(rest, s[i..])
  }

  lemma WordMatches(first: seq<(char, char)>, others: seq<(char, char)>, rest: seq<Item>, s: string)
    ensures Matches(Word(first, others) + rest, s) <==> exists i :: WordThen(first, others, rest, s, i)
  {
    hide Among;
    var pattern := Word(first, others) + rest;
    assert pattern[1..] == [Run(others)] + rest;
    if s != "" {
      var t := s[1..];
      RunMatches(others, rest, t);
      if Matches(pattern, s) {
        var i :| 0 <= i <= |t| && (forall k :: 0 <= k < i ==> Among(t[k], others)) && Matches(rest, t[i..]);
        var u := s[..i + 1];
        assert t[i..] == s[i + 1..] && forall k :: 1 <= k < |u| ==> u[k] == t[k - 1];
        assert WordThen(first, others, rest, s, i + 1);
      }
      if i: nat :| WordThen(first, others, rest, s, i) {
        assert s[i..] == t[i - 1..] && forall k :: 0 <= k < i - 1 ==> t[k] == s[..i][k + 1];
      }
    }
  }

  lemma OneMatches(ch: char, rest: seq<Item>, s: string)
    ensures Matches([One([(ch, ch)])] + rest, s) <==> s != "" && s[0] == ch && Matches(rest, s[1..])
  {
    assert ([One([(ch, ch)])] + rest)[1..] == rest;
    assert (ch, ch) in [(ch, ch)];
  }

  lemma LastWordMatches(first: seq<(char, char)>, others: seq<(char, char)>, s: string)
    ensures Matches(Word(first, others), s) <==> IsWord(first, others, s)
  {
    hide Word, IsWord;
    WordMatches(first, others, [], s);
    assert Word(first, others) + [] == Word(first, others);
    assert s[..|s|] == s;
    assert IsWord(first, others, s) ==> WordThen(first, others, [], s, |s|);
  }

  lemma NameWord(s: string)
    ensures IsWord(ALNUM, NAME_CHARS, s) <==> NameSegment(s)
  {
    forall ch ensures Among(ch, NAME_CHARS) <==> NameChar(ch) {
      assert ('a', 'z') in NAME_CHARS && ('0', '9') in NAME_CHARS && ('_', '_') in NAME_CHARS && ('-', '-') in NAME_CHARS;
    }
    forall ch ensures Among(ch, ALNUM) <==> NameChar(ch) && ch != '_' && ch != '-' {
      assert ('a', 'z') in ALNUM && ('0', '9') in ALNUM;
    }
  }

  lemma NameThen(s: string, i: nat)
    requires i <= |s|
    ensures WordThen(ALNUM, NAME_CHARS, [One(SLASH)] + Word(ALNUM, NAME_CHARS), s, i) <==>
            i < |s| && s[i] == '/' && NameSegment(s[..i]) && NameSegment(s[i + 1..])
  {
    hide Matches, IsWord, NameSegment, Word;
    NameWord(s[..i]);
    OneMatches('/', Word(ALNUM, NAME_CHARS), s[i..]);
    if i < |s| {
      assert s[i..][1..] == s[i + 1..];
      LastWordMatches(ALNUM, NAME_CHARS, s[i + 1..]);
      NameWord(s[i + 1..]);
    }
  }

  /** The valid package names are what the name's pattern matches. */
  lemma NamePattern(s: string)
    ensures Matches(NAME, s) <==> ValidPackageName(s)
  {
    hide Matches, IsWord, NameSegment, Word;
    var word := Word(ALNUM, NAME_CHARS);
    assert NAME == word + ([One(SLASH)] + word);
    WordMatches(ALNUM, NAME_CHARS, [One(SLASH)] + word, s);
    if i: nat :| WordThen(ALNUM, NAME_CHARS, [One(SLASH)] + word, s, i) {
      NameThen(s, i);
    }
    if i :| 0 <= i < |s| && s[i] == '/' && NameSegment(s[..i]) && NameSegment(s[i + 1..]) {
      NameThen(s, i);
    }
  }

  lemma DigitWord(s: string)
    ensures IsWord(DIGIT, DIGIT, s) <==> Digits(s)
  {
    forall ch ensures Among(ch, DIGIT) <==> '0' <= ch <= '9' {
      assert ('0', '9') in DIGIT;
    }
  }

  lemma DotDigits(s: string)
    ensures Matches([One(DOT)] + Word(DIGIT, DIGIT), s) <==> s != "" && s[0] == '.' && Digits(s[1..])
  {
    hide Matches, IsWord, Digits, Word;
    OneMatches('.', Word(DIGIT, DIGIT), s);
    if s != "" {
      LastWordMatches(DIGIT, DIGIT, s[1..]);
      DigitWord(s[1..]);
    }
  }

  /** Two numbers with a dot between them, at `j`. */
  predicate DottedAt(s: string, j: nat)
  {
    j < |s| && s[j] == '.' && Digits(s[..j]) && Digits(s[j + 1..])
  }

  ghost predicate Dotted(s: string)
  {
    exists j :: DottedAt(s, j)
  }

  lemma DottedThen(s: string, j: nat)
    ensures WordThen(DIGIT, DIGIT, [One(DOT)] + Word(DIGIT, DIGIT), s, j) <==> DottedAt(s, j)
  {
    hide Matches, IsWord, Digits, Word;
    if j <= |s| {
      DigitWord(s[..j]);
      DotDigits(s[j..]);
      if j < |s| {
        assert s[j..][1..] == s[j + 1..];
      }
    }
  }

  lemma DottedPattern(s: string)
    ensures Matches(Word(DIGIT, DIGIT) + ([One(DOT)] + Word(DIGIT, DIGIT)), s) <==> Dotted(s)
  {
    hide Matches, Word, WordThen, DottedAt;
    WordMatches(DIGIT, DIGIT, [One(DOT)] + Word(DIGIT, DIGIT), s);
    if j: nat :| WordThen(DIGIT, DIGIT, [One(DOT)] + Word(DIGIT, DIGIT), s, j) {
      DottedThen(s, j);
    }
    if j: nat :| DottedAt(s, j) {
      DottedThen(s, j);
    }
  }

  lemma SemverThen(s: string, i: nat)
    ensures WordThen(DIGIT, DIGIT, [One(DOT)] + (Word(DIGIT, DIGIT) + ([One(DOT)] + Word(DIGIT, DIGIT))), s, i) <==>
            i < |s| && s[i] == '.' && Digits(s[..i]) && Dotted(s[i + 1..])
  {
    hide Matches, IsWord, Digits, Word, Dotted;
    var minor := Word(DIGIT, DIGIT) + ([One(DOT)] + Word(DIGIT, DIGIT));
    if i <= |s| {
      DigitWord(s[..i]);
      OneMatches('.', minor, s[i..]);
      if i < |s| {
        assert s[i..][1..] == s[i + 1..];
        DottedPattern(s[i + 1..]);
      }
    }
  }

  /** The versions are what the version's pattern matches. */
  lemma SemverPattern(s: string)
    ensures Matches(SEMVER, s) <==> Semver(s)
  {
    hide Matches, Digits, Word, WordThen;
    var word := Word(DIGIT, DIGIT);
    var minor := word + ([One(DOT)] + word);
    assert SEMVER == word + ([One(DOT)] + minor);
    WordMatches(DIGIT, DIGIT, [One(DOT)] + minor, s);
    if i: nat :| WordThen(DIGIT, DIGIT, [One(DOT)] + minor, s, i) {
      SemverThen(s, i);
      var j :| DottedAt(s[i + 1..], j);
      BehindDot(s, i, j);
    }
    if i, j :| 0 <= i < j < |s| && s[i] == '.' && s[j] == '.' && Digits(s[..i]) && Digits(s[i + 1..j]) && Digits(s[j + 1..]) {
      BehindDot(s, i, j - i - 1);
      SemverThen(s, i);
    }
  }

  lemma BehindDot(s: string, i: nat, j: nat)
    requires i + 1 + j < |s|
    ensures DottedAt(s[i + 1..], j) <==> s[i + 1 + j] == '.' && Digits(s[i + 1..i + 1 + j]) && Digits(s[i + 1 + j + 1..])
  {
    hide Digits;
    var t := s[i + 1..];
    assert t[..j] == s[i + 1..i + 1 + j] && t[j + 1..] == s[i + 1 + j + 1..];
  }

  lemma {:induction false} HexMatches(n: nat, s: string)
    ensures Matches(seq(n, _ => One(HEX)), s) <==> |s| == n && forall i :: 0 <= i < n ==> '0' <= s[i] <= '9' || 'a' <= s[i] <= 'f'
  {
    var pattern := seq(n, _ => One(HEX));
    assert ('0', '9') in HEX && ('a', 'f') in HEX;
    if n > 0 && s != "" {
      assert pattern[1..] == seq(n - 1, _ => One(HEX));
      HexMatches(n - 1, s[1..]);
      assert s == [s[0]] + s[1..];
    }
  }

  /** The digests are what the digest's pattern matches. */
  lemma Sha256Pattern(s: string)
    ensures Matches(SHA256_HEX, s) <==> Sha256Hex(s)
  {
    hide Matches;
    HexMatches(64, s);
  }
}
