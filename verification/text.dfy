/** Character classes and string helpers shared by the model: the JavaScript
    notions of white space, line terminator and word character, `trim`,
    `split`/`join` on one separator character, substring search, global
    replacement of one character, and decimal rendering of numbers. */
module Text {

  /** `\s` in a JavaScript regular expression; also the set `String.prototype.trim` removes. */
  predicate IsSpace(c: char) {
    || c == ' ' || c == '\t' || c == '\n' || c == '\U{000B}' || c == '\U{000C}' || c == '\r'
    || c == '\U{00A0}' || c == '\U{1680}' || ('\U{2000}' <= c <= '\U{200A}')
    || c == '\U{2028}' || c == '\U{2029}' || c == '\U{202F}' || c == '\U{205F}'
    || c == '\U{3000}' || c == '\U{FEFF}'
  }

  /** The characters a JavaScript `.` does not match. */
  predicate IsLineTerminator(c: char) {
    c == '\n' || c == '\r' || c == '\U{2028}' || c == '\U{2029}'
  }

  /** `\w`: ASCII letters, digits and the underscore. */
  predicate IsWordChar(c: char) {
    ('a' <= c <= 'z') || ('A' <= c <= 'Z') || ('0' <= c <= '9') || c == '_'
  }

  /** `\d`: ASCII digits only. */
  predicate IsDigit(c: char) {
    '0' <= c <= '9'
  }

  predicate AllSpace(s: string) {
    forall k :: 0 <= k < |s| ==> IsSpace(s[k])
  }

  /** The text matches `.*`: it holds no line terminator. */
  predicate NoLineTerminator(s: string) {
    forall k :: 0 <= k < |s| ==> !IsLineTerminator(s[k])
  }

  // ---------------------------------------------------------------- trim

  function TrimStart(s: string): (r: string)
    ensures |r| <= |s| && r == s[|s| - |r|..]
    ensures AllSpace(s[..|s| - |r|])
    ensures |r| > 0 ==> !IsSpace(r[0])
  {
    if |s| > 0 && IsSpace(s[0]) then
      var r := TrimStart(s[1..]);
      assert s[1..][..|s[1..]| - |r|] == s[1..|s| - |r|];
      r
    else s
  }

  function TrimEnd(s: string): (r: string)
    ensures |r| <= |s| && r == s[..|r|]
    ensures AllSpace(s[|r|..])
    ensures |r| > 0 ==> !IsSpace(r[|r| - 1])
  {
    if |s| > 0 && IsSpace(s[|s| - 1]) then
      var r := TrimEnd(s[..|s| - 1]);
      assert s[..|s| - 1][|r|..] == s[|r|..|s| - 1];
      r
    else s
  }

  /** `String.prototype.trim`: the text between the leading and the trailing white space. */
  function Trim(s: string): (r: string)
    ensures |r| <= |s|
    ensures |r| > 0 ==> !IsSpace(r[0]) && !IsSpace(r[|r| - 1])
  {
    TrimEnd(TrimStart(s))
  }

  /** A line is blank (`!line.trim()`) exactly when every character is white space. */
  lemma BlankIffAllSpace(s: string)
    ensures Trim(s) == "" <==> AllSpace(s)
  {
    var t := TrimStart(s);
    if |t| > 0 {
      assert !IsSpace(s[|s| - |t|]);
    }
  }

  lemma {:induction false} TrimStartKeeps(s: string, c: char)
    requires !IsSpace(c)
    ensures c in TrimStart(s) <==> c in s
  {
    if |s| > 0 && IsSpace(s[0]) {
      var t := s[1..];
      assert TrimStart(s) == TrimStart(t);
      TrimStartKeeps(t, c);
      assert c != s[0];
      assert s == [s[0]] + t;
    }
  }

  lemma {:induction false} TrimEndKeeps(s: string, c: char)
    requires !IsSpace(c)
    ensures c in TrimEnd(s) <==> c in s
  {
    if |s| > 0 && IsSpace(s[|s| - 1]) {
      var t := s[..|s| - 1];
      assert TrimEnd(s) == TrimEnd(t);
      TrimEndKeeps(t, c);
      assert c != s[|s| - 1];
      assert s == t + [s[|s| - 1]];
    }
  }

  /** Trimming removes only white space, so it keeps every other character. */
  lemma TrimKeepsNonSpace(s: string, c: char)
    requires !IsSpace(c)
    ensures c in Trim(s) <==> c in s
  {
    TrimStartKeeps(s, c);
    TrimEndKeeps(TrimStart(s), c);
  }

  // ------------------------------------------------------- split and join

  /** `s.split(sep)` for a one-character separator: the pieces between separators, in order;
      never empty (`"".split("\n")` is `[""]`). */
  function Split(s: string, sep: char): (r: seq<string>)
    ensures |r| >= 1
  {
    if |s| == 0 then [""]
    else if s[0] == sep then [""] + Split(s[1..], sep)
    else
      var t := Split(s[1..], sep);
      [[s[0]] + t[0]] + t[1..]
  }

  /** `parts.join(sep)`: `[].join` is the empty string. */
  function Join(parts: seq<string>, sep: char): string
  {
    if |parts| == 0 then ""
    else if |parts| == 1 then parts[0]
    else parts[0] + [sep] + Join(parts[1..], sep)
  }

  /** Splitting a text that starts with a non-separator extends the first piece. */
  lemma SplitCons(x: char, s: string, sep: char)
    requires x != sep
    ensures Split([x] + s, sep) == [[x] + Split(s, sep)[0]] + Split(s, sep)[1..]
  {
    assert ([x] + s)[1..] == s;
  }

  /** Splitting a text that starts with the separator starts with an empty piece. */
  lemma SplitSepHead(s: string, sep: char)
    ensures Split([sep] + s, sep) == [""] + Split(s, sep)
  {
    assert ([sep] + s)[1..] == s;
  }

  /** How many times `c` occurs in `s`. */
  function Count(s: string, c: char): nat
  {
    if |s| == 0 then 0 else (if s[0] == c then 1 else 0) + Count(s[1..], c)
  }

  /** Joining the pieces back with the separator gives the original text. */
  lemma {:induction false} JoinSplit(s: string, sep: char)
    ensures Join(Split(s, sep), sep) == s
  {
    if |s| > 0 {
      JoinSplit(s[1..], sep);
      assert s == [s[0]] + s[1..];
      if s[0] == sep {
        SplitSepHead(s[1..], sep);
        JoinSplitSepStep(Split(s[1..], sep), sep);
      } else {
        SplitCons(s[0], s[1..], sep);
        JoinConsStep(s[0], Split(s[1..], sep), sep);
      }
    }
  }

  lemma JoinSplitSepStep(t: seq<string>, sep: char)
    requires |t| >= 1
    ensures Join([""] + t, sep) == [sep] + Join(t, sep)
  {
    assert ([""] + t)[1..] == t;
  }

  lemma JoinConsStep(x: char, t: seq<string>, sep: char)
    requires |t| >= 1
    ensures Join([[x] + t[0]] + t[1..], sep) == [x] + Join(t, sep)
  {
    var u := [[x] + t[0]] + t[1..];
    if |t| > 1 {
      assert u[1..] == t[1..];
    }
  }

  /** Every piece is free of the separator. */
  lemma {:induction false} SplitPiecesNoSep(s: string, sep: char)
    ensures forall k :: 0 <= k < |Split(s, sep)| ==> sep !in Split(s, sep)[k]
  {
    if |s| > 0 {
      SplitPiecesNoSep(s[1..], sep);
      assert s == [s[0]] + s[1..];
      if s[0] == sep {
        SplitSepHead(s[1..], sep);
      } else {
        SplitCons(s[0], s[1..], sep);
      }
    }
  }

  /** One more piece than separators. */
  lemma {:induction false} SplitLength(s: string, sep: char)
    ensures |Split(s, sep)| == Count(s, sep) + 1
  {
    if |s| > 0 {
      SplitLength(s[1..], sep);
    }
  }

  /** A text without the separator is one piece. */
  lemma {:induction false} SplitNoSep(s: string, sep: char)
    requires sep !in s
    ensures Split(s, sep) == [s]
  {
    if |s| > 0 {
      assert sep !in s[1..];
      SplitNoSep(s[1..], sep);
      assert s == [s[0]] + s[1..];
    }
  }

  /** Splitting at a leading separator-free piece followed by the separator. */
  lemma {:induction false} SplitAfterPiece(a: string, b: string, sep: char)
    requires sep !in a
    ensures Split(a + [sep] + b, sep) == [a] + Split(b, sep)
  {
    if |a| == 0 {
      assert a + [sep] + b == [sep] + b;
      assert ([sep] + b)[1..] == b;
    } else {
      assert (a + [sep] + b)[1..] == a[1..] + [sep] + b;
      assert sep !in a[1..];
      SplitAfterPiece(a[1..], b, sep);
      assert a == [a[0]] + a[1..];
    }
  }

  /** Splitting a join of separator-free pieces gives the pieces back. */
  lemma {:induction false} SplitJoin(parts: seq<string>, sep: char)
    requires |parts| >= 1
    requires forall k :: 0 <= k < |parts| ==> sep !in parts[k]
    ensures Split(Join(parts, sep), sep) == parts
  {
    if |parts| == 1 {
      SplitNoSep(parts[0], sep);
    } else {
      SplitJoin(parts[1..], sep);
      SplitAfterPiece(parts[0], Join(parts[1..], sep), sep);
      assert parts == [parts[0]] + parts[1..];
    }
  }

  /** All pieces but the last: the complete lines of a buffer. */
  function AllButLast(ls: seq<string>): seq<string>
    requires |ls| >= 1
  {
    ls[..|ls| - 1]
  }

  function Last(ls: seq<string>): string
    requires |ls| >= 1
  {
    ls[|ls| - 1]
  }


  /** Splitting `a + b` completes the pieces of `a` and continues its unfinished last piece with `b`. */
  lemma {:induction false} SplitAppend(a: string, b: string, sep: char)
    ensures Split(a + b, sep) == AllButLast(Split(a, sep)) + Split(Last(Split(a, sep)) + b, sep)
  {
    if |a| == 0 {
      assert a + b == b;
    } else {
      var x, a' := a[0], a[1..];
      assert a == [x] + a';
      assert a + b == [x] + (a' + b);
      SplitAppend(a', b, sep);
      if x == sep {
        SplitAppendSepStep(a', b, sep);
      } else {
        SplitAppendCharStep(x, a', b, sep);
      }
    }
  }

  lemma SplitAppendSepStep(a': string, b: string, sep: char)
    requires Split(a' + b, sep) == AllButLast(Split(a', sep)) + Split(Last(Split(a', sep)) + b, sep)
    ensures Split([sep] + a' + b, sep) == AllButLast(Split([sep] + a', sep)) + Split(Last(Split([sep] + a', sep)) + b, sep)
  {
    SplitSepHead(a', sep);
    SplitSepHead(a' + b, sep);
    assert [sep] + a' + b == [sep] + (a' + b);
    SepStepAlgebra(Split(a', sep), Split(a' + b, sep), Split(Last(Split(a', sep)) + b, sep));
  }

  lemma SepStepAlgebra(sa: seq<string>, ab: seq<string>, t: seq<string>)
    requires |sa| >= 1 && ab == AllButLast(sa) + t
    ensures [""] + ab == AllButLast([""] + sa) + t && Last([""] + sa) == Last(sa)
  {
    assert AllButLast([""] + sa) == [""] + AllButLast(sa);
  }

  lemma SplitAppendCharStep(x: char, a': string, b: string, sep: char)
    requires x != sep
    requires Split(a' + b, sep) == AllButLast(Split(a', sep)) + Split(Last(Split(a', sep)) + b, sep)
    ensures Split([x] + a' + b, sep) == AllButLast(Split([x] + a', sep)) + Split(Last(Split([x] + a', sep)) + b, sep)
  {
    if |Split(a', sep)| == 1 {
      CharStepOnePiece(x, a', b, sep);
    } else {
      CharStepManyPieces(x, a', b, sep);
    }
  }

  /** The step of `SplitAppendCharStep` when `a'` holds no separator. */
  lemma CharStepOnePiece(x: char, a': string, b: string, sep: char)
    requires x != sep && |Split(a', sep)| == 1
    requires Split(a' + b, sep) == AllButLast(Split(a', sep)) + Split(Last(Split(a', sep)) + b, sep)
    ensures Split([x] + a' + b, sep) == AllButLast(Split([x] + a', sep)) + Split(Last(Split([x] + a', sep)) + b, sep)
  {
    var sa := Split(a', sep);
    SplitCons(x, a', sep);
    SplitCons(x, a' + b, sep);
    assert [x] + a' + b == [x] + (a' + b);
    SplitCons(x, Last(sa) + b, sep);
    assert [x] + Last(sa) + b == [x] + (Last(sa) + b);
    CharStepAlgebraOne(x, sa, Split(a' + b, sep), Split(Last(sa) + b, sep));
  }

  /** The step of `SplitAppendCharStep` when `a'` holds a separator. */
  lemma CharStepManyPieces(x: char, a': string, b: string, sep: char)
    requires x != sep && |Split(a', sep)| > 1
    requires Split(a' + b, sep) == AllButLast(Split(a', sep)) + Split(Last(Split(a', sep)) + b, sep)
    ensures Split([x] + a' + b, sep) == AllButLast(Split([x] + a', sep)) + Split(Last(Split([x] + a', sep)) + b, sep)
  {
    var sa := Split(a', sep);
    SplitCons(x, a', sep);
    SplitCons(x, a' + b, sep);
    assert [x] + a' + b == [x] + (a' + b);
    CharStepAlgebraMany(x, sa, Split(a' + b, sep), Split(Last(sa) + b, sep));
  }

  lemma CharStepAlgebraOne(x: char, sa: seq<string>, ab: seq<string>, t: seq<string>)
    requires |sa| == 1 && |t| >= 1 && ab == AllButLast(sa) + t
    ensures [[x] + ab[0]] + ab[1..] == AllButLast([[x] + sa[0]] + sa[1..]) + ([[x] + t[0]] + t[1..])
    ensures Last([[x] + sa[0]] + sa[1..]) == [x] + Last(sa)
  {
    assert ab == t;
  }

  lemma CharStepAlgebraMany(x: char, sa: seq<string>, ab: seq<string>, t: seq<string>)
    requires |sa| > 1 && ab == AllButLast(sa) + t
    ensures [[x] + ab[0]] + ab[1..] == AllButLast([[x] + sa[0]] + sa[1..]) + t
    ensures Last([[x] + sa[0]] + sa[1..]) == Last(sa)
  {
    assert ab[0] == sa[0];
    assert ab[1..] == AllButLast(sa)[1..] + t;
    assert AllButLast([[x] + sa[0]] + sa[1..]) == [[x] + sa[0]] + AllButLast(sa)[1..];
  }

  // --------------------------------------------------- substrings, replace

  /** `sub` occurs in `s` at position `k`. */
  predicate OccursAt(s: string, k: int, sub: string) {
    0 <= k && k + |sub| <= |s| && s[k..k + |sub|] == sub
  }

  /** `s.indexOf(sub) !== -1`. */
  predicate Contains(s: string, sub: string) {
    exists k :: 0 <= k <= |s| - |sub| && OccursAt(s, k, sub)
  }

  predicate StartsWith(s: string, prefix: string) {
    |prefix| <= |s| && s[..|prefix|] == prefix
  }

  predicate EndsWith(s: string, suffix: string) {
    |suffix| <= |s| && s[|s| - |suffix|..] == suffix
  }

  /** `s.replace(/c/g, r)`: every occurrence of one character replaced by a text. */
  function ReplaceChar(s: string, c: char, r: string): string
  {
    if |s| == 0 then ""
    else (if s[0] == c then r else [s[0]]) + ReplaceChar(s[1..], c, r)
  }

  /** Replacement works piece by piece. */
  lemma {:induction false} ReplaceCharAppend(a: string, b: string, c: char, r: string)
    ensures ReplaceChar(a + b, c, r) == ReplaceChar(a, c, r) + ReplaceChar(b, c, r)
  {
    if |a| > 0 {
      assert (a + b)[1..] == a[1..] + b;
      ReplaceCharAppend(a[1..], b, c, r);
    } else {
      assert a + b == b;
    }
  }

  /** A text without `c` is left as it is. */
  lemma {:induction false} ReplaceCharAbsent(s: string, c: char, r: string)
    requires c !in s
    ensures ReplaceChar(s, c, r) == s
  {
    if |s| > 0 {
      ReplaceCharAbsent(s[1..], c, r);
      assert s == [s[0]] + s[1..];
    }
  }

  lemma ReplaceCharOne(x: char, c: char, r: string)
    ensures ReplaceChar([x], c, r) == if x == c then r else [x]
  {
    assert [x][1..] == [];
  }

  /** Removing every occurrence of `c` leaves exactly the other characters, in order. */
  lemma {:induction false} RemoveCharKeeps(s: string, c: char, d: char)
    requires d != c
    ensures d in ReplaceChar(s, c, "") <==> d in s
  {
    if |s| > 0 {
      RemoveCharKeeps(s[1..], c, d);
      assert s == [s[0]] + s[1..];
    }
  }

  // -------------------------------------------------------------- numbers

  function DigitChar(d: nat): char
    requires d < 10
  {
    ['0', '1', '2', '3', '4', '5', '6', '7', '8', '9'][d]
  }

  /** `String(n)` for a non-negative integer: its decimal digits, no leading zero. */
  function NatToString(n: nat): (r: string)
    ensures |r| >= 1
    ensures forall k :: 0 <= k < |r| ==> IsDigit(r[k])
    ensures |r| > 1 ==> r[0] != '0'
  {
    if n < 10 then [DigitChar(n)] else NatToString(n / 10) + [DigitChar(n % 10)]
  }

  /** Reads decimal digits back; the inverse of `NatToString`. */
  function DecimalValue(s: string): nat
    requires forall k :: 0 <= k < |s| ==> IsDigit(s[k])
  {
    if |s| == 0 then 0
    else
      assert IsDigit(s[|s| - 1]);
      10 * DecimalValue(s[..|s| - 1]) + (s[|s| - 1] as int - '0' as int)
  }

  lemma {:induction false} DecimalRoundTrip(n: nat)
    ensures DecimalValue(NatToString(n)) == n
  {
    if n >= 10 {
      DecimalRoundTrip(n / 10);
      var r := NatToString(n);
      assert r[..|r| - 1] == NatToString(n / 10);
    }
  }
}
