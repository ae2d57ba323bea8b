/** The string operations of Rust's `str` and `String` that the server
    leans on, stated over `string` (a sequence of Unicode scalar values):
    `split_whitespace`, `split` on one character, `join`, `replace` with an
    empty replacement, `usize::to_string` and `String::len` (a UTF-8 byte
    count). Each one comes with the lemma that pins down what it means. */
module Text {

  /** Rust's `char::is_whitespace`: the Unicode `White_Space` property. */
  predicate IsWhitespace(c: char) {
    if c < '\U{85}' then c == ' ' || '\t' <= c <= '\r'
    else IsWideWhitespace(c)
  }

  predicate IsWideWhitespace(c: char) {
    || c == '\U{85}'
    || c == '\U{A0}'
    || c == '\U{1680}'
    || ('\U{2000}' <= c <= '\U{200A}')
    || c == '\U{2028}'
    || c == '\U{2029}'
    || c == '\U{202F}'
    || c == '\U{205F}'
    || c == '\U{3000}'
  }

  predicate NoWhitespace(s: string) {
    forall i :: 0 <= i < |s| ==> !IsWhitespace(s[i])
  }

  lemma NoWhitespaceConcat(a: string, b: string)
    requires NoWhitespace(a) && NoWhitespace(b)
    ensures NoWhitespace(a + b)
  {
    forall i | 0 <= i < |a + b|
      ensures !IsWhitespace((a + b)[i])
    {
      if i >= |a| {
        assert (a + b)[i] == b[i - |a|];
      }
    }
  }

  predicate StartsWith(s: string, prefix: string) {
    |prefix| <= |s| && s[..|prefix|] == prefix
  }

  /** Number of times `c` occurs in `s`. */
  function Occurrences(s: string, c: char): nat {
    if s == [] then 0 else (if s[0] == c then 1 else 0) + Occurrences(s[1..], c)
  }

  lemma {:induction false} OccurrencesAbsent(s: string, c: char)
    requires c !in s
    ensures Occurrences(s, c) == 0
    decreases |s|
  {
    if s != [] {
      assert c !in s[1..];
      OccurrencesAbsent(s[1..], c);
    }
  }

  // ---------------------------------------------------------------------
  // split_whitespace

  /** Length of the longest whitespace-free prefix of `s`. */
  function WordLen(s: string): (n: nat)
    ensures n <= |s|
    ensures s != [] && !IsWhitespace(s[0]) ==> n >= 1
  {
    if s == [] || IsWhitespace(s[0]) then 0 else 1 + WordLen(s[1..])
  }

  /** The prefix measured by `WordLen` is whitespace-free. */
  lemma {:induction false} WordLenPrefix(s: string)
    ensures NoWhitespace(s[..WordLen(s)])
    decreases |s|
  {
    if s != [] && !IsWhitespace(s[0]) {
      WordLenPrefix(s[1..]);
      var n := WordLen(s);
      assert s[..n] == [s[0]] + s[1..][..n - 1];
      NoWhitespaceConcat([s[0]], s[1..][..n - 1]);
    }
  }

  /** A whitespace-free string is measured whole. */
  lemma {:induction false} WordLenOfWord(w: string)
    requires NoWhitespace(w)
    ensures WordLen(w) == |w|
    decreases |w|
  {
    if w != [] {
      assert NoWhitespace(w[1..]) by {
        forall k | 0 <= k < |w[1..]|
          ensures !IsWhitespace(w[1..][k])
        {
          assert w[1..][k] == w[k + 1];
        }
      }
      WordLenOfWord(w[1..]);
    }
  }

  /** `s.split_whitespace()`: the maximal runs of non-whitespace characters,
      in order; leading, trailing and repeated whitespace yields no token. */
  function Words(s: string): seq<string>
    decreases |s|
  {
    if s == [] then []
    else if IsWhitespace(s[0]) then Words(s[1..])
    else
      var n := WordLen(s);
      [s[..n]] + Words(s[n..])
  }

  /** Every token is non-empty and free of whitespace. */
  lemma {:induction false} WordsAreTokens(s: string)
    ensures forall i :: 0 <= i < |Words(s)| ==> Words(s)[i] != [] && NoWhitespace(Words(s)[i])
    decreases |s|
  {
    if s != [] {
      if IsWhitespace(s[0]) {
        WordsAreTokens(s[1..]);
      } else {
        var n := WordLen(s);
        WordsAreTokens(s[n..]);
        WordLenPrefix(s);
        var ws := Words(s);
        forall i | 0 <= i < |ws|
          ensures ws[i] != [] && NoWhitespace(ws[i])
        {
          if i > 0 {
            assert ws[i] == Words(s[n..])[i - 1];
          }
        }
      }
    }
  }

  /** A single whitespace character separates tokens: the tokens of
      `a + [c] + b` are those of `a` followed by those of `b`. */
  lemma {:induction false} WordsSplitAt(a: string, c: char, b: string)
    requires IsWhitespace(c)
    ensures Words(a + [c] + b) == Words(a) + Words(b)
    decreases |a|
  {
    var s := a + [c] + b;
    if a == [] {
      assert s[0] == c && s[1..] == b;
      assert Words(s) == Words(b);
    } else if IsWhitespace(a[0]) {
      assert s[0] == a[0] && s[1..] == a[1..] + [c] + b;
      WordsSplitAt(a[1..], c, b);
      assert Words(s) == Words(a[1..] + [c] + b);
    } else {
      WordsSplitAt(a[WordLen(a)..], c, b);
      WordsSplitAfterWord(a, c, b);
    }
  }

  /** The step of `WordsSplitAt` where `a` starts with a token. */
  lemma WordsSplitAfterWord(a: string, c: char, b: string)
    requires IsWhitespace(c) && a != [] && !IsWhitespace(a[0])
    requires Words(a[WordLen(a)..] + [c] + b) == Words(a[WordLen(a)..]) + Words(b)
    ensures Words(a + [c] + b) == Words(a) + Words(b)
  {
    var w := a[..WordLen(a)];
    var rest := a[WordLen(a)..];
    assert Words(a + [c] + b) == [w] + Words(rest + [c] + b) by {
      WordLenExtend(a, c, b);
      WordsOfWordStart(a + [c] + b, w, rest + [c] + b);
    }
    assert Words(a) == [w] + Words(rest) by {
      WordsOfWordStart(a, w, rest);
    }
    ConsAppend(w, Words(rest), Words(b));
  }

  /** Solver aid: associativity of `+` in the shape `WordsSplitAfterWord` needs. */
  lemma ConsAppend<T>(x: T, s: seq<T>, t: seq<T>)
    ensures [x] + (s + t) == ([x] + s) + t
  {
  }

  /** Unfolding `Words` once at a token: `w` is the token and `rest` what follows. */
  lemma WordsOfWordStart(s: string, w: string, rest: string)
    requires s != [] && !IsWhitespace(s[0])
    requires w == s[..WordLen(s)] && rest == s[WordLen(s)..]
    ensures Words(s) == [w] + Words(rest)
  {
  }

  lemma {:induction false} WordLenExtend(a: string, c: char, b: string)
    requires IsWhitespace(c)
    ensures WordLen(a + [c] + b) == WordLen(a)
    decreases |a|
  {
    var s := a + [c] + b;
    if a != [] && !IsWhitespace(a[0]) {
      assert s[1..] == a[1..] + [c] + b;
      WordLenExtend(a[1..], c, b);
    }
  }

  /** A non-empty whitespace-free string is exactly one token. */
  lemma WordsOfWord(w: string)
    requires w != [] && NoWhitespace(w)
    ensures Words(w) == [w]
  {
    WordLenOfWord(w);
    assert w[..|w|] == w && w[|w|..] == [];
  }

  /** `join`: the parts separated by `sep` (Rust's `[String]::join`). */
  function JoinWith(parts: seq<string>, sep: string): string {
    if |parts| == 0 then ""
    else if |parts| == 1 then parts[0]
    else parts[0] + sep + JoinWith(parts[1..], sep)
  }

  /** Tokens joined by single spaces tokenise back to themselves. */
  lemma {:induction false} WordsOfJoin(ws: seq<string>)
    requires forall i :: 0 <= i < |ws| ==> ws[i] != [] && NoWhitespace(ws[i])
    ensures Words(JoinWith(ws, " ")) == ws
  {
    if |ws| == 0 {
    } else if |ws| == 1 {
      WordsOfWord(ws[0]);
    } else {
      WordsOfJoin(ws[1..]);
      WordsOfWord(ws[0]);
      assert JoinWith(ws, " ") == ws[0] + [' '] + JoinWith(ws[1..], " ");
      WordsSplitAt(ws[0], ' ', JoinWith(ws[1..], " "));
      assert ws == [ws[0]] + ws[1..];
    }
  }

  // ---------------------------------------------------------------------
  // split on one character

  /** `s.split(sep)` for a one-character pattern: the pieces between the
      occurrences of `sep`, empty pieces included; never empty. */
  function Split(s: string, sep: char): (parts: seq<string>)
    ensures |parts| == Occurrences(s, sep) + 1
    ensures forall i :: 0 <= i < |parts| ==> sep !in parts[i]
    decreases |s|
  {
    if s == [] then [""]
    else
      var rest := Split(s[1..], sep);
      if s[0] == sep then [""] + rest
      else [[s[0]] + rest[0]] + rest[1..]
  }

  /** Joining the pieces with the separator restores the string. */
  lemma {:induction false} JoinOfSplit(s: string, sep: char)
    ensures JoinWith(Split(s, sep), [sep]) == s
    decreases |s|
  {
    if s != [] {
      var rest := Split(s[1..], sep);
      JoinOfSplit(s[1..], sep);
      if s[0] == sep {
        assert Split(s, sep) == [""] + rest;
        assert ([""] + rest)[1..] == rest;
      } else {
        var parts := Split(s, sep);
        assert parts[0] == [s[0]] + rest[0];
        assert parts[1..] == rest[1..];
        if |rest| == 1 {
          assert s == [s[0]] + s[1..];
        } else {
          assert JoinWith(rest, [sep]) == rest[0] + [sep] + JoinWith(rest[1..], [sep]);
          assert s == [s[0]] + s[1..];
        }
      }
    }
  }

  /** A piece free of the separator is split off intact. */
  lemma {:induction false} SplitAfterPiece(p: string, sep: char, x: string)
    requires sep !in p
    ensures Split(p + [sep] + x, sep) == [p] + Split(x, sep)
    decreases |p|
  {
    var s := p + [sep] + x;
    if p == [] {
      assert s[1..] == x;
    } else {
      assert s[1..] == p[1..] + [sep] + x;
      SplitAfterPiece(p[1..], sep, x);
      assert [p[0]] + p[1..] == p;
    }
  }

  lemma {:induction false} SplitOfPiece(p: string, sep: char)
    requires sep !in p
    ensures Split(p, sep) == [p]
    decreases |p|
  {
    if p != [] {
      SplitOfPiece(p[1..], sep);
      assert [p[0]] + p[1..] == p;
    }
  }

  /** Splitting a join of separator-free pieces gives the pieces back. */
  lemma {:induction false} SplitOfJoin(parts: seq<string>, sep: char)
    requires |parts| >= 1
    requires forall i :: 0 <= i < |parts| ==> sep !in parts[i]
    ensures Split(JoinWith(parts, [sep]), sep) == parts
  {
    if |parts| == 1 {
      SplitOfPiece(parts[0], sep);
    } else {
      SplitOfJoin(parts[1..], sep);
      SplitAfterPiece(parts[0], sep, JoinWith(parts[1..], [sep]));
      assert parts == [parts[0]] + parts[1..];
    }
  }

  // ---------------------------------------------------------------------
  // replace(c, "")

  /** `s.replace(c, "")`: `s` with every `c` deleted, other characters in order. */
  function RemoveAll(s: string, c: char): (r: string)
    ensures c !in r
    ensures |r| == |s| - Occurrences(s, c)
  {
    if s == [] then []
    else if s[0] == c then RemoveAll(s[1..], c)
    else [s[0]] + RemoveAll(s[1..], c)
  }

  lemma {:induction false} RemoveAllAppend(a: string, b: string, c: char)
    ensures RemoveAll(a + b, c) == RemoveAll(a, c) + RemoveAll(b, c)
    decreases |a|
  {
    if a != [] {
      assert (a + b)[0] == a[0];
      assert (a + b)[1..] == a[1..] + b;
      RemoveAllAppend(a[1..], b, c);
    } else {
      assert a + b == b;
    }
  }

  /** Deleting a character that does not occur changes nothing. */
  lemma {:induction false} RemoveAllAbsent(s: string, c: char)
    requires c !in s
    ensures RemoveAll(s, c) == s
    decreases |s|
  {
    if s != [] {
      RemoveAllAbsent(s[1..], c);
      assert [s[0]] + s[1..] == s;
    }
  }

  // ---------------------------------------------------------------------
  // usize::to_string

  predicate IsDigit(c: char) {
    '0' <= c <= '9'
  }

  function DigitChar(d: nat): (c: char)
    requires d < 10
    ensures IsDigit(c) && c as int - '0' as int == d
  {
    ('0' as int + d) as char
  }

  /** Decimal rendering of a natural number: digits only, no sign and no
      leading zero. */
  function NatToDecimal(n: nat): (s: string)
    ensures |s| >= 1
    ensures forall i :: 0 <= i < |s| ==> IsDigit(s[i])
    ensures s[0] == '0' ==> s == "0"
    decreases n
  {
    if n < 10 then [DigitChar(n)] else NatToDecimal(n / 10) + [DigitChar(n % 10)]
  }

  /** The value of a string of decimal digits (how a client reads a
      `Content-Length` field value). */
  function DecimalValue(s: string): nat
    requires forall i :: 0 <= i < |s| ==> IsDigit(s[i])
  {
    if s == [] then 0
    else
      var last := s[|s| - 1];
      assert IsDigit(last);
      DecimalValue(s[..|s| - 1]) * 10 + (last as int - '0' as int)
  }

  lemma {:induction false} DecimalRoundTrip(n: nat)
    ensures DecimalValue(NatToDecimal(n)) == n
    decreases n
  {
    if n >= 10 {
      DecimalRoundTrip(n / 10);
      var s := NatToDecimal(n);
      assert s[..|s| - 1] == NatToDecimal(n / 10);
    }
  }

  // ---------------------------------------------------------------------
  // String::len

  /** Bytes in the UTF-8 encoding of `c`. */
  function Utf8Width(c: char): (w: nat)
    ensures 1 <= w <= 4
    ensures w == 1 <==> c < '\U{80}'
  {
    if c < '\U{80}' then 1
    else if c < '\U{800}' then 2
    else if c < '\U{10000}' then 3
    else 4
  }

  /** `s.len()` on a Rust `String`: the length of its UTF-8 encoding. It
      equals the number of characters exactly when every character is ASCII. */
  function Utf8Len(s: string): (n: nat)
    ensures |s| <= n <= 4 * |s|
    ensures n == |s| <==> forall i :: 0 <= i < |s| ==> s[i] < '\U{80}'
  {
    if s == [] then 0 else Utf8Width(s[0]) + Utf8Len(s[1..])
  }
}
