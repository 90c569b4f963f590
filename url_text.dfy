/**
 * The string helpers the dashboard applies to a single URL: the top-level
 * domain taken with `url.split('.')[-1]`, Python's `str.count` used for
 * keyword frequencies, and the count of `string.punctuation` characters.
 */
module UrlText {

  /** Python's `s.split(sep)` for a one-character separator: the pieces
      between separators, in order, empty pieces included. */
  function Split(s: string, sep: char): (parts: seq<string>)
    ensures |parts| >= 1
    ensures |parts| == 1 <==> sep !in s
    ensures forall i :: 0 <= i < |parts| ==> sep !in parts[i]
  {
    if s == [] then [[]]
    else
      var rest := Split(s[1..], sep);
      assert s == [s[0]] + s[1..];
      if s[0] == sep then [[]] + rest
      else [[s[0]] + rest[0]] + rest[1..]
  }

  /** A split has one more piece than the string has separators. */
  lemma {:induction false} SplitPieceCount(s: string, sep: char)
    ensures |Split(s, sep)| == multiset(s)[sep] + 1
  {
    if s != [] {
      SplitPieceCount(s[1..], sep);
      assert s == [s[0]] + s[1..];
    }
  }

  /** Python's `sep.join(parts)`, the inverse of `Split`. */
  function Join(parts: seq<string>, sep: char): (s: string)
    requires |parts| >= 1
  {
    if |parts| == 1 then parts[0]
    else parts[0] + [sep] + Join(parts[1..], sep)
  }

  /** Joining the pieces of a split gives back the string. */
  lemma {:induction false} JoinSplit(s: string, sep: char)
    ensures Join(Split(s, sep), sep) == s
  {
    if s != [] {
      var rest := Split(s[1..], sep);
      JoinSplit(s[1..], sep);
      if s[0] == sep {
        assert Split(s, sep) == [[]] + rest;
        assert Join([[]] + rest, sep) == [sep] + Join(rest, sep);
      } else {
        var parts := [[s[0]] + rest[0]] + rest[1..];
        assert Split(s, sep) == parts;
        JoinConsFirst(s[0], rest, sep);
      }
      assert s == [s[0]] + s[1..];
    }
  }

  /** Putting a character in front of the first piece puts it in front of
      the joined string. */
  lemma JoinConsFirst(c: char, parts: seq<string>, sep: char)
    requires |parts| >= 1
    ensures Join([[c] + parts[0]] + parts[1..], sep) == [c] + Join(parts, sep)
  {
  }

  /** A string without the separator splits into itself alone. */
  lemma {:induction false} SplitNoSeparator(s: string, sep: char)
    requires sep !in s
    ensures Split(s, sep) == [s]
  {
    if s != [] {
      SplitNoSeparator(s[1..], sep);
      assert s == [s[0]] + s[1..];
    }
  }

  /** Splitting at a separator that follows a separator-free prefix. */
  lemma {:induction false} SplitAtSeparator(a: string, sep: char, b: string)
    requires sep !in a
    ensures Split(a + [sep] + b, sep) == [a] + Split(b, sep)
  {
    var s := a + [sep] + b;
    if a == [] {
      assert s[0] == sep && s[1..] == b;
    } else {
      SplitAtSeparator(a[1..], sep, b);
      assert s[0] == a[0] && s[1..] == a[1..] + [sep] + b;
      assert a == [a[0]] + a[1..];
    }
  }

  /** Splitting the join of separator-free pieces gives back the pieces. */
  lemma {:induction false} SplitJoin(parts: seq<string>, sep: char)
    requires |parts| >= 1
    requires forall i :: 0 <= i < |parts| ==> sep !in parts[i]
    ensures Split(Join(parts, sep), sep) == parts
  {
    if |parts| == 1 {
      SplitNoSeparator(parts[0], sep);
    } else {
      SplitJoin(parts[1..], sep);
      SplitAtSeparator(parts[0], sep, Join(parts[1..], sep));
    }
  }

  /** The last piece of a split is a separator-free suffix; when the
      string holds a separator, one stands just before that suffix. */
  lemma {:induction false} LastPiece(s: string, sep: char)
    ensures var parts := Split(s, sep);
            var t := parts[|parts| - 1];
            && |t| <= |s| && s[|s| - |t|..] == t
            && (sep in s ==> |t| < |s| && s[|s| - |t| - 1] == sep)
            && (sep !in s ==> t == s)
  {
    if s != [] {
      var tail := s[1..];
      assert s == [s[0]] + tail;
      LastPiece(tail, sep);
      var rest := Split(tail, sep);
      var u := rest[|rest| - 1];
      var parts := Split(s, sep);
      if s[0] == sep {
        assert parts == [[]] + rest;
        assert parts[|parts| - 1] == u;
        if sep !in tail {
          assert u == tail;
        }
      } else if sep in tail {
        assert parts == [[s[0]] + rest[0]] + rest[1..];
        assert parts[|parts| - 1] == u;
      } else {
        SplitNoSeparator(tail, sep);
        assert parts == [[s[0]] + tail];
      }
    }
  }

  /** The top-level domain of a URL: `url.split('.')[-1]`. */
  function Tld(url: string): (t: string)
    ensures '.' !in t
    ensures |t| <= |url| && url[|url| - |t|..] == t
    ensures '.' in url ==> |t| < |url| && url[|url| - |t| - 1] == '.'
    ensures '.' !in url ==> t == url
  {
    var parts := Split(url, '.');
    LastPiece(url, '.');
    parts[|parts| - 1]
  }

  /** The properties of `Tld` pin it down: a dot-free suffix preceded by a
      dot, or the whole dot-free URL, is the top-level domain. */
  lemma TldUnique(url: string, t: string)
    requires '.' !in t
    requires |t| <= |url| && url[|url| - |t|..] == t
    requires '.' in url ==> |t| < |url| && url[|url| - |t| - 1] == '.'
    requires '.' !in url ==> t == url
    ensures t == Tld(url)
  {
  }

  /** The top-level domain is whatever follows the last dot. */
  lemma TldAfterLastDot(host: string, t: string)
    requires '.' !in t
    ensures Tld(host + ['.'] + t) == t
  {
    var url := host + ['.'] + t;
    assert url[|url| - |t|..] == t;
    assert url[|url| - |t| - 1] == '.';
    TldUnique(url, t);
  }

  /** Python's `s.count(sub)`: occurrences of `sub` found by scanning left
      to right without overlap; an empty `sub` matches at every one of the
      `|s| + 1` positions. */
  function PyCount(s: string, sub: string): (n: nat)
    ensures sub == [] ==> n == |s| + 1
    ensures sub != [] ==> n * |sub| <= |s|
    decreases |s|
  {
    if sub == [] then |s| + 1
    else if |s| < |sub| then 0
    else if s[..|sub|] == sub then
      var rest := PyCount(s[|sub|..], sub);
      MulDistributes(1, rest, |sub|);
      1 + rest
    else PyCount(s[1..], sub)
  }

  lemma MulDistributes(a: nat, b: nat, c: nat)
    ensures (a + b) * c == a * c + b * c
  {
  }

  /** `sub` stands in `s` starting at index `i`. */
  predicate MatchesAt(s: string, sub: string, i: nat)
  {
    i + |sub| <= |s| && s[i..i + |sub|] == sub
  }

  /** `sub` occurs somewhere in `s`. */
  predicate Occurs(s: string, sub: string)
  {
    exists i: nat :: i <= |s| && MatchesAt(s, sub, i)
  }

  /** A non-empty keyword is counted at least once exactly when it occurs. */
  lemma {:induction false} PyCountPositive(s: string, sub: string)
    requires sub != []
    ensures PyCount(s, sub) > 0 <==> Occurs(s, sub)
  {
    if |s| >= |sub| {
      if s[..|sub|] == sub {
        assert MatchesAt(s, sub, 0);
      } else {
        PyCountPositive(s[1..], sub);
        if Occurs(s, sub) {
          var i: nat :| MatchesAt(s, sub, i);
          assert MatchesAt(s, sub, i);
          assert i != 0 && i + |sub| <= |s|;
          assert s[1..][i - 1..i - 1 + |sub|] == s[i..i + |sub|];
          assert MatchesAt(s[1..], sub, i - 1);
        }
        if Occurs(s[1..], sub) {
          var i: nat :| MatchesAt(s[1..], sub, i);
          assert MatchesAt(s[1..], sub, i);
          assert i + |sub| <= |s| - 1;
          assert s[1..][i..i + |sub|] == s[i + 1..i + 1 + |sub|];
          assert MatchesAt(s, sub, i + 1);
        }
      }
    } else {
      forall i: nat | i <= |s| ensures !MatchesAt(s, sub, i) {
      }
    }
  }

  /** Occurrences are not counted twice where they overlap. */
  lemma NonOverlapping()
    ensures PyCount("aaa", "aa") == 1
    ensures PyCount("aaaa", "aa") == 2
  {
  }

  /** Python's `string.punctuation`: the 32 ASCII punctuation characters. */
  const Punctuation: set<char> :=
    { '!', '"', '#', '$', '%', '&', '\'', '(', ')', '*', '+', ',', '-', '.', '/',
      ':', ';', '<', '=', '>', '?', '@', '[', '\\', ']', '^', '_', '`',
      '{', '|', '}', '~' }

  predicate IsAsciiAlnum(c: char)
  {
    ('a' <= c <= 'z') || ('A' <= c <= 'Z') || ('0' <= c <= '9')
  }

  /** Every character of `string.punctuation` is printable ASCII, neither
      a space nor a letter nor a digit. */
  lemma PunctuationIsPrintableNonAlnum()
    ensures forall c :: c in Punctuation ==> ' ' < c <= '~' && !IsAsciiAlnum(c)
  {
  }

  /** The number of characters of `url` that are ASCII punctuation. */
  function CountSpecial(url: string): (n: nat)
    ensures n <= |url|
    ensures n == |url| <==> forall i :: 0 <= i < |url| ==> url[i] in Punctuation
  {
    if url == [] then 0
    else (if url[0] in Punctuation then 1 else 0) + CountSpecial(url[1..])
  }

  /** Counting special characters is additive over concatenation. */
  lemma {:induction false} CountSpecialAppend(a: string, b: string)
    ensures CountSpecial(a + b) == CountSpecial(a) + CountSpecial(b)
  {
    if a == [] {
      assert a + b == b;
    } else {
      CountSpecialAppend(a[1..], b);
      assert (a + b)[1..] == a[1..] + b;
    }
  }

  /** A URL made only of letters and digits has no special characters. */
  lemma {:induction false} CountSpecialAlnum(url: string)
    requires forall i :: 0 <= i < |url| ==> IsAsciiAlnum(url[i])
    ensures CountSpecial(url) == 0
  {
    if url != [] {
      PunctuationIsPrintableNonAlnum();
      CountSpecialAlnum(url[1..]);
    }
  }
}
