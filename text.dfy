/** The string primitives the editors lean on, with JavaScript's meaning:
    `trim`, `split` on one character, `join`, ASCII `toUpperCase`/`toLowerCase`,
    `includes`, the default string ordering used by `sort`, and number-to-string. */
module Text {

  // ---------------------------------------------------------------- whitespace and trim

  /** The characters `String.prototype.trim` removes: WhiteSpace and LineTerminator. */
  const WhiteChars: set<char> := {
    ' ', '\t', '\n', '\r', '\U{B}', '\U{C}', '\U{A0}', '\U{1680}',
    '\U{2000}', '\U{2001}', '\U{2002}', '\U{2003}', '\U{2004}', '\U{2005}', '\U{2006}',
    '\U{2007}', '\U{2008}', '\U{2009}', '\U{200A}',
    '\U{2028}', '\U{2029}', '\U{202F}', '\U{205F}', '\U{3000}', '\U{FEFF}'
  }

  predicate IsWhite(c: char) {
    c in WhiteChars
  }

  /** Neither end is whitespace. */
  predicate IsTrimmed(s: string) {
    s == "" || (!IsWhite(s[0]) && !IsWhite(s[|s| - 1]))
  }

  /** `s.trimStart()`: drops the leading whitespace. */
  function TrimStart(s: string): (r: string)
    ensures |r| <= |s|
    ensures r == "" || !IsWhite(r[0])
  {
    if s != [] && IsWhite(s[0]) then TrimStart(s[1..]) else s
  }

  /** `s.trimEnd()`: drops the trailing whitespace. */
  function TrimEnd(s: string): (r: string)
    ensures |r| <= |s|
    ensures r == "" || !IsWhite(r[|r| - 1])
  {
    if s != [] && IsWhite(s[|s| - 1]) then TrimEnd(s[..|s| - 1]) else s
  }

  /** `trimStart` keeps a suffix of `s`. */
  lemma {:induction false} TrimStartSuffix(s: string)
    ensures TrimStart(s) == s[|s| - |TrimStart(s)|..]
  {
    if s != [] && IsWhite(s[0]) {
      var s', r := s[1..], TrimStart(s);
      assert r == TrimStart(s');
      TrimStartSuffix(s');
      assert s'[|s'| - |r|..] == s[|s| - |r|..];
    }
  }

  /** Everything `trimStart` cuts is whitespace. */
  lemma {:induction false} TrimStartWhite(s: string)
    ensures forall i :: 0 <= i < |s| - |TrimStart(s)| ==> IsWhite(s[i])
  {
    if s != [] && IsWhite(s[0]) {
      var s', r := s[1..], TrimStart(s);
      assert r == TrimStart(s');
      TrimStartWhite(s');
      forall i | 1 <= i < |s| - |r| ensures IsWhite(s[i]) {
        assert s[i] == s'[i - 1];
      }
    }
  }

  /** `trimEnd` keeps a prefix and everything it cuts is whitespace. */
  lemma {:induction false} TrimEndCut(s: string)
    ensures forall k :: 0 <= k < |TrimEnd(s)| ==> TrimEnd(s)[k] == s[k]
    ensures forall i :: |TrimEnd(s)| <= i < |s| ==> IsWhite(s[i])
  {
    if s != [] && IsWhite(s[|s| - 1]) {
      var s', r := s[..|s| - 1], TrimEnd(s);
      assert r == TrimEnd(s');
      TrimEndCut(s');
      forall k | 0 <= k < |r| ensures r[k] == s[k] {
        assert r[k] == s'[k];
      }
      forall i | |r| <= i < |s| - 1 ensures IsWhite(s[i]) {
        assert s[i] == s'[i];
      }
    }
  }

  /** `s.trim()`: the longest infix of `s` that neither starts nor ends with whitespace
      (`TrimInfix` states that everything cut off is whitespace). */
  function Trim(s: string): (r: string)
    ensures IsTrimmed(r)
    ensures |r| <= |s|
  {
    var t := TrimStart(s);
    TrimEndCut(t);
    TrimEnd(t)
  }

  /** `trim` keeps the infix of `s` that starts after the leading whitespace, and cuts only
      whitespace on either side. */
  lemma {:induction false} TrimInfix(s: string)
    ensures var r, i := Trim(s), |s| - |TrimStart(s)|;
      i + |r| <= |s| && r == s[i..i + |r|] &&
      (forall j :: 0 <= j < i ==> IsWhite(s[j])) &&
      (forall j :: i + |r| <= j < |s| ==> IsWhite(s[j]))
  {
    var t := TrimStart(s);
    var r := Trim(s);
    assert r == TrimEnd(t);
    var i := |s| - |t|;
    TrimStartSuffix(s);
    TrimStartWhite(s);
    TrimEndCut(t);
    assert t == s[i..];
    assert r == t[..|r|];
    assert s[i..][..|r|] == s[i..i + |r|];
    assert forall j :: |r| <= j < |t| ==> IsWhite(t[j]);
    forall j | i + |r| <= j < |s| ensures IsWhite(s[j]) {
      assert IsWhite(t[j - i]) && t[j - i] == s[j];
    }
  }

  /** `trim` only removes characters. */
  lemma {:induction false} TrimKeepsOut(s: string, c: char)
    requires c !in s
    ensures c !in Trim(s)
  {
    TrimInfix(s);
    var r, i := Trim(s), |s| - |TrimStart(s)|;
    forall k | 0 <= k < |r| ensures r[k] != c {
      assert r[k] == s[i + k];
    }
  }

  lemma {:induction false} TrimTrimmed(s: string)
    requires IsTrimmed(s)
    ensures Trim(s) == s
  {
  }

  /** Leading whitespace never survives `trim`. */
  lemma {:induction false} TrimWhitePrefix(c: char, s: string)
    requires IsWhite(c)
    ensures Trim([c] + s) == Trim(s)
  {
    assert ([c] + s)[1..] == s;
  }

  lemma {:induction false} TrimStartWhiteSuffix(s: string, c: char)
    requires IsWhite(c)
    ensures TrimStart(s + [c]) == if TrimStart(s) == "" then "" else TrimStart(s) + [c]
  {
    if s == [] {
    } else {
      assert (s + [c])[1..] == s[1..] + [c];
      if IsWhite(s[0]) {
        TrimStartWhiteSuffix(s[1..], c);
      }
    }
  }

  /** Trailing whitespace never survives `trim`. */
  lemma {:induction false} TrimWhiteSuffix(s: string, c: char)
    requires IsWhite(c)
    ensures Trim(s + [c]) == Trim(s)
  {
    TrimStartWhiteSuffix(s, c);
    var t := TrimStart(s);
    if t != "" {
      assert (t + [c])[..|t + [c]| - 1] == t;
    }
  }

  /** `trim` is idempotent. */
  lemma {:induction false} TrimIdempotent(s: string)
    ensures Trim(Trim(s)) == Trim(s)
  {
    TrimTrimmed(Trim(s));
  }

  // ---------------------------------------------------------------- split and join

  /** `s.split(sep)` for a one-character separator: the maximal separator-free pieces,
      always at least one. */
  function Split(s: string, sep: char): (r: seq<string>)
    ensures |r| >= 1
  {
    if s == [] then [""]
    else if s[0] == sep then [""] + Split(s[1..], sep)
    else
      var t := Split(s[1..], sep);
      [[s[0]] + t[0]] + t[1..]
  }

  /** No piece holds the separator. */
  lemma {:induction false} SplitPiecesClean(s: string, sep: char)
    ensures forall i :: 0 <= i < |Split(s, sep)| ==> sep !in Split(s, sep)[i]
  {
    if s != [] {
      SplitPiecesClean(s[1..], sep);
    }
  }

  /** A string without the separator is one piece. */
  lemma {:induction false} SplitNoSep(s: string, sep: char)
    requires sep !in s
    ensures Split(s, sep) == [s]
  {
    if s != [] {
      SplitNoSep(s[1..], sep);
      assert [s[0]] + s[1..] == s;
    }
  }

  /** `parts.join(sep)`. */
  function Join(parts: seq<string>, sep: string): string {
    if |parts| == 0 then ""
    else if |parts| == 1 then parts[0]
    else parts[0] + sep + Join(parts[1..], sep)
  }

  lemma {:induction false} SplitAfterPiece(a: string, sep: char, b: string)
    requires sep !in a
    ensures Split(a + [sep] + b, sep) == [a] + Split(b, sep)
  {
    if a == [] {
      assert (a + [sep] + b)[1..] == b;
    } else {
      assert (a + [sep] + b)[1..] == a[1..] + [sep] + b;
      SplitAfterPiece(a[1..], sep, b);
      assert [a[0]] + a[1..] == a;
    }
  }

  /** Splitting undoes joining when no piece holds the separator. */
  lemma {:induction false} SplitJoin(parts: seq<string>, sep: char)
    requires |parts| >= 1
    requires forall i :: 0 <= i < |parts| ==> sep !in parts[i]
    ensures Split(Join(parts, [sep]), sep) == parts
  {
    if |parts| == 1 {
      SplitNoSep(parts[0], sep);
    } else {
      SplitJoin(parts[1..], sep);
      SplitAfterPiece(parts[0], sep, Join(parts[1..], [sep]));
      assert [parts[0]] + parts[1..] == parts;
    }
  }

  lemma {:induction false} JoinCons(c: char, t: seq<string>, sep: char)
    requires |t| > 1
    ensures Join([[c] + t[0]] + t[1..], [sep]) == [c] + Join(t, [sep])
  {
    var u := [[c] + t[0]] + t[1..];
    assert u[1..] == t[1..];
  }

  /** Joining undoes splitting. */
  lemma {:induction false} JoinSplit(s: string, sep: char)
    ensures Join(Split(s, sep), [sep]) == s
  {
    if s == [] {
    } else {
      JoinSplit(s[1..], sep);
      var t := Split(s[1..], sep);
      assert s == [s[0]] + s[1..];
      if s[0] == sep {
        assert Split(s, sep) == [""] + t;
      } else {
        var u := [[s[0]] + t[0]] + t[1..];
        assert Split(s, sep) == u;
        if |t| > 1 {
          JoinCons(s[0], t, sep);
        }
      }
    }
  }

  /** Appending a non-separator character extends the last piece. */
  lemma {:induction false} SplitAppend(s: string, c: char, sep: char)
    requires c != sep
    ensures var t := Split(s, sep);
      Split(s + [c], sep) == t[..|t| - 1] + [t[|t| - 1] + [c]]
  {
    var sc := s + [c];
    if s == [] {
      assert sc == [c] && sc[1..] == [];
      assert Split(sc[1..], sep) == [""];
      assert [c] + "" == [c];
      assert Split(sc, sep) == [[c]];
    } else {
      assert sc[0] == s[0] && sc[1..] == s[1..] + [c];
      SplitAppend(s[1..], c, sep);
      var t := Split(s[1..], sep);
      if s[0] == sep {
        AppendLastCons("", t, c);
      } else {
        AppendLastMerge(s[0], t, c);
      }
    }
  }

  /** Growing the last piece commutes with putting a piece in front. */
  lemma {:induction false} AppendLastCons(h: string, t: seq<string>, c: char)
    requires |t| >= 1
    ensures var b := [h] + t;
      [h] + (t[..|t| - 1] + [t[|t| - 1] + [c]]) == b[..|b| - 1] + [b[|b| - 1] + [c]]
  {
    var b := [h] + t;
    assert b[..|b| - 1] == [h] + t[..|t| - 1];
  }

  /** Growing the last piece commutes with growing the first piece at its front. */
  lemma {:induction false} AppendLastMerge(x: char, t: seq<string>, c: char)
    requires |t| >= 1
    ensures var u, b := t[..|t| - 1] + [t[|t| - 1] + [c]], [[x] + t[0]] + t[1..];
      [[x] + u[0]] + u[1..] == b[..|b| - 1] + [b[|b| - 1] + [c]]
  {
    var n := |t|;
    var u, b := t[..n - 1] + [t[n - 1] + [c]], [[x] + t[0]] + t[1..];
    if n == 1 {
      assert ([x] + t[0]) + [c] == [x] + (t[0] + [c]);
    } else {
      assert u[0] == t[0];
      assert u[1..] == t[1..n - 1] + [t[n - 1] + [c]];
      assert b[..|b| - 1] == [[x] + t[0]] + t[1..n - 1];
    }
  }

  /** The pieces, each trimmed. */
  function MapTrim(parts: seq<string>): (r: seq<string>)
    ensures |r| == |parts|
    ensures forall i :: 0 <= i < |parts| ==> r[i] == Trim(parts[i])
  {
    if parts == [] then [] else [Trim(parts[0])] + MapTrim(parts[1..])
  }

  /** `.filter(Boolean)` on strings: the non-empty ones, in order. */
  function NonBlank(parts: seq<string>): (r: seq<string>)
    ensures |r| <= |parts|
    ensures forall i :: 0 <= i < |r| ==> r[i] != ""
    ensures (forall i :: 0 <= i < |parts| ==> parts[i] != "") ==> r == parts
  {
    if parts == [] then []
    else if parts[0] == "" then NonBlank(parts[1..])
    else [parts[0]] + NonBlank(parts[1..])
  }

  /** A piece is kept exactly when it is a non-empty piece of the input. */
  lemma {:induction false} NonBlankMembers(parts: seq<string>)
    ensures forall p :: p in NonBlank(parts) <==> p in parts && p != ""
    decreases |parts|
  {
    if parts != [] {
      NonBlankMembers(parts[1..]);
      assert parts == [parts[0]] + parts[1..];
    }
  }

  /** Filtering a concatenation filters each run and keeps them in order. */
  lemma {:induction false} NonBlankAppend(a: seq<string>, b: seq<string>)
    ensures NonBlank(a + b) == NonBlank(a) + NonBlank(b)
    decreases |a|
  {
    if a != [] {
      var ab := a + b;
      assert ab[0] == a[0] && ab[1..] == a[1..] + b;
      NonBlankAppend(a[1..], b);
      if a[0] == "" {
        assert NonBlank(ab) == NonBlank(a[1..] + b);
        assert NonBlank(a) == NonBlank(a[1..]);
      } else {
        assert NonBlank(ab) == [a[0]] + NonBlank(a[1..] + b);
        assert NonBlank(a) == [a[0]] + NonBlank(a[1..]);
      }
    } else {
      assert a + b == b;
    }
  }

  /** Filtering one piece keeps it exactly when it is non-empty. */
  lemma {:induction false} NonBlankOne(x: string)
    ensures NonBlank([x]) == if x == "" then [] else [x]
  {
    assert [x][1..] == [];
  }

  /** The text-area reader: `value.split('\n').map(l => l.trim()).filter(Boolean)`. */
  function Lines(text: string): (r: seq<string>)
    ensures forall i :: 0 <= i < |r| ==> r[i] != "" && IsTrimmed(r[i]) && '\n' !in r[i]
  {
    var pieces := Split(text, '\n');
    SplitPiecesClean(text, '\n');
    var trimmed := MapTrim(pieces);
    forall i | 0 <= i < |trimmed| ensures IsTrimmed(trimmed[i]) && '\n' !in trimmed[i] {
      TrimKeepsOut(pieces[i], '\n');
    }
    var r := NonBlank(trimmed);
    NonBlankMembers(trimmed);
    assert forall i :: 0 <= i < |r| ==> r[i] in trimmed;
    r
  }

  /** The text-area writer: `lines.join('\n')`. */
  function JoinLines(lines: seq<string>): string {
    Join(lines, "\n")
  }

  /** A list of trimmed, non-empty, single-line entries survives a trip through a text area. */
  lemma {:induction false} LinesJoinLines(lines: seq<string>)
    requires forall i :: 0 <= i < |lines| ==> lines[i] != "" && IsTrimmed(lines[i]) && '\n' !in lines[i]
    ensures Lines(JoinLines(lines)) == lines
  {
    if lines != [] {
      SplitJoin(lines, '\n');
      var pieces := Split(JoinLines(lines), '\n');
      assert pieces == lines;
      var trimmed := MapTrim(pieces);
      forall i | 0 <= i < |lines| ensures trimmed[i] == lines[i] {
        TrimTrimmed(lines[i]);
      }
      assert trimmed == lines;
    }
  }

  /** Single-line entries that are not blank come back from a text area trimmed. */
  lemma {:induction false} LinesJoinLinesTrim(lines: seq<string>)
    requires forall i :: 0 <= i < |lines| ==> Trim(lines[i]) != "" && '\n' !in lines[i]
    ensures Lines(JoinLines(lines)) == MapTrim(lines)
  {
    if lines != [] {
      SplitJoin(lines, '\n');
      assert Split(JoinLines(lines), '\n') == lines;
    }
  }

  /** Single-line entries written to a text area come back trimmed, with the blank ones
      dropped and the others kept in order. */
  lemma {:induction false} LinesJoinLinesBlank(lines: seq<string>)
    requires forall i :: 0 <= i < |lines| ==> '\n' !in lines[i]
    ensures Lines(JoinLines(lines)) == NonBlank(MapTrim(lines))
  {
    if lines != [] {
      SplitJoin(lines, '\n');
      assert Split(JoinLines(lines), '\n') == lines;
    } else {
      assert Split(JoinLines(lines), '\n') == [""];
      assert MapTrim([""]) == [Trim("")];
    }
  }

  /** Reading a text area, writing the lines back and reading again changes nothing. */
  lemma {:induction false} LinesIdempotent(text: string)
    ensures Lines(JoinLines(Lines(text))) == Lines(text)
  {
    LinesJoinLines(Lines(text));
  }

  // ---------------------------------------------------------------- case

  /** `toUpperCase` on one ASCII character; other characters are left as they are. */
  function UpperChar(c: char): (r: char)
    ensures 'a' <= c <= 'z' ==> 'A' <= r <= 'Z'
    ensures !('a' <= c <= 'z') ==> r == c
  {
    if 'a' <= c <= 'z' then (c as int - 32) as char else c
  }

  /** `toLowerCase` on one ASCII character; other characters are left as they are. */
  function LowerChar(c: char): (r: char)
    ensures 'A' <= c <= 'Z' ==> 'a' <= r <= 'z'
    ensures !('A' <= c <= 'Z') ==> r == c
  {
    if 'A' <= c <= 'Z' then (c as int + 32) as char else c
  }

  function Upper(s: string): (r: string)
    ensures |r| == |s| && forall i :: 0 <= i < |s| ==> r[i] == UpperChar(s[i])
  {
    seq(|s|, i requires 0 <= i < |s| => UpperChar(s[i]))
  }

  function Lower(s: string): (r: string)
    ensures |r| == |s| && forall i :: 0 <= i < |s| ==> r[i] == LowerChar(s[i])
  {
    seq(|s|, i requires 0 <= i < |s| => LowerChar(s[i]))
  }

  // ---------------------------------------------------------------- search and order

  /** `s.includes(t)`. */
  predicate Contains(s: string, t: string) {
    (|t| <= |s| && s[..|t|] == t) || (s != [] && Contains(s[1..], t))
  }

  /** JavaScript's `a < b` on strings: a proper prefix, or smaller at the first difference. */
  predicate LexLess(a: string, b: string) {
    if a == [] then b != []
    else if b == [] then false
    else if a[0] != b[0] then a[0] < b[0]
    else LexLess(a[1..], b[1..])
  }

  lemma {:induction false} LexLessIrreflexive(a: string)
    ensures !LexLess(a, a)
  {
    if a != [] {
      LexLessIrreflexive(a[1..]);
    }
  }

  lemma {:induction false} LexLessTransitive(a: string, b: string, c: string)
    requires LexLess(a, b) && LexLess(b, c)
    ensures LexLess(a, c)
  {
    if a != [] && b != [] && c != [] && a[0] == b[0] && b[0] == c[0] {
      LexLessTransitive(a[1..], b[1..], c[1..]);
    }
  }

  /** The order is total: two strings are equal or one is below the other. */
  lemma {:induction false} LexLessTotal(a: string, b: string)
    ensures a == b || LexLess(a, b) || LexLess(b, a)
  {
    if a != [] && b != [] && a[0] == b[0] {
      LexLessTotal(a[1..], b[1..]);
      if a[1..] == b[1..] {
        assert a == [a[0]] + a[1..] && b == [b[0]] + b[1..];
      }
    }
  }

  lemma {:induction false} LexLessAsymmetric(a: string, b: string)
    requires LexLess(a, b)
    ensures !LexLess(b, a)
  {
    if a != [] && b != [] && a[0] == b[0] {
      LexLessAsymmetric(a[1..], b[1..]);
    }
  }

  // ---------------------------------------------------------------- numbers

  predicate IsDigit(c: char) {
    '0' <= c <= '9'
  }

  function DigitChar(d: nat): (c: char)
    requires d < 10
    ensures IsDigit(c)
  {
    "0123456789"[d]
  }

  /** The decimal form of a natural number, as `String(n)` writes it. */
  function NatToString(n: nat): (r: string)
    ensures r != "" && forall i :: 0 <= i < |r| ==> IsDigit(r[i])
  {
    if n < 10 then [DigitChar(n)] else NatToString(n / 10) + [DigitChar(n % 10)]
  }

  /** The number a string of decimal digits stands for. */
  function DigitsValue(s: string): nat
    requires forall i :: 0 <= i < |s| ==> IsDigit(s[i])
  {
    if s == [] then 0
    else
      var last := s[|s| - 1];
      assert IsDigit(last);
      DigitsValue(s[..|s| - 1]) * 10 + (last as int - '0' as int)
  }

  lemma {:induction false} DigitCharValue(d: nat)
    requires d < 10
    ensures DigitChar(d) as int - '0' as int == d
  {
    assert "0123456789"[d] as int - '0' as int == d by {
      if d == 0 {} else if d == 1 {} else if d == 2 {} else if d == 3 {} else if d == 4 {}
      else if d == 5 {} else if d == 6 {} else if d == 7 {} else if d == 8 {} else {}
    }
  }

  /** Reading the decimal form of `n` back gives `n`. */
  lemma {:induction false} NatToStringValue(n: nat)
    ensures DigitsValue(NatToString(n)) == n
    decreases n
  {
    var r := NatToString(n);
    if n < 10 {
      DigitCharValue(n);
      assert r[..0] == [];
    } else {
      NatToStringValue(n / 10);
      DigitCharValue(n % 10);
      assert r[..|r| - 1] == NatToString(n / 10);
    }
  }

  /** Different numbers have different decimal forms, so the index keys of an array are
      distinct. */
  lemma {:induction false} NatToStringInjective(i: nat, j: nat)
    requires NatToString(i) == NatToString(j)
    ensures i == j
  {
    NatToStringValue(i);
    NatToStringValue(j);
  }

  function IntToString(n: int): string {
    if n < 0 then "-" + NatToString(-n) else NatToString(n)
  }
}
