/** The string functions of Go's standard library that the rewriter uses. */
module Text {

  predicate OneLine(s: string) {
    '\n' !in s
  }

  /** strings.Split(s, "\n"). */
  function Split(s: string): (lines: seq<string>)
    ensures lines != [] && forall l :: l in lines ==> OneLine(l)
  {
    if s == "" then [""]
    else
      var rest := Split(s[1..]);
      assert rest[0] in rest && forall l :: l in rest[1..] ==> l in rest;
      if s[0] == '\n' then [""] + rest else [[s[0]] + rest[0]] + rest[1..]
  }

  /** strings.Join(lines, "\n"). */
  function Join(lines: seq<string>): string {
    if lines == [] then ""
    else if |lines| == 1 then lines[0]
    else lines[0] + "\n" + Join(lines[1..])
  }

  lemma {:induction false} JoinSplit(s: string)
    ensures Join(Split(s)) == s
  {
    if s != "" {
      var rest := Split(s[1..]);
      JoinSplit(s[1..]);
      if s[0] == '\n' {
        assert ([""] + rest)[1..] == rest;
      } else {
        JoinHead([s[0]], rest);
      }
    }
  }

  lemma {:induction false} JoinHead(head: string, lines: seq<string>)
    requires lines != []
    ensures Join([head + lines[0]] + lines[1..]) == head + Join(lines)
  {
    var joined := [head + lines[0]] + lines[1..];
    assert joined[1..] == lines[1..];
    if |lines| > 1 {
      var tail := "\n" + Join(lines[1..]);
      assert Join(lines) == lines[0] + tail;
      assert Join(joined) == (head + lines[0]) + tail;
    }
  }

  lemma {:induction false} SplitJoin(lines: seq<string>)
    requires lines != [] && forall l :: l in lines ==> OneLine(l)
    ensures Split(Join(lines)) == lines
    decreases |lines|
  {
    if |lines| == 1 {
      SplitOneLine(lines[0]);
      assert lines == [lines[0]];
    } else {
      SplitJoin(lines[1..]);
      SplitAfterLine(lines[0], Join(lines[1..]));
      assert lines == [lines[0]] + lines[1..];
      assert Join(lines) == lines[0] + "\n" + Join(lines[1..]);
    }
  }

  lemma {:induction false} SplitOneLine(s: string)
    requires OneLine(s)
    ensures Split(s) == [s]
  {
    if s != "" {
      assert s[0] in s && forall c :: c in s[1..] ==> c in s;
      SplitOneLine(s[1..]);
      assert [s[0]] + s[1..] == s;
      assert Split(s) == [[s[0]] + s[1..]] + [];
    }
  }

  lemma {:induction false} SplitAfterLine(l: string, s: string)
    requires OneLine(l)
    ensures Split(l + "\n" + s) == [l] + Split(s)
  {
    if l == "" {
      assert (l + "\n" + s)[1..] == s;
    } else {
      assert l[0] in l && forall c :: c in l[1..] ==> c in l;
      SplitAfterLine(l[1..], s);
      var text, rest := l + "\n" + s, [l[1..]] + Split(s);
      assert text[0] == l[0] && text[1..] == l[1..] + "\n" + s;
      assert [[l[0]] + rest[0]] + rest[1..] == [l] + Split(s) by {
        assert [l[0]] + l[1..] == l;
      }
    }
  }

  /** unicode.IsSpace. */
  predicate IsSpace(c: char) {
    || '\t' <= c <= '\r' || c == ' '
    || c == '\U{85}' || c == '\U{A0}' || c == '\U{1680}' || '\U{2000}' <= c <= '\U{200A}'
    || c == '\U{2028}' || c == '\U{2029}' || c == '\U{202F}' || c == '\U{205F}' || c == '\U{3000}'
  }

  predicate IsBlank(c: char) {
    c == ' ' || c == '\t'
  }

  function TrimLeft(s: string, cut: char -> bool): (t: string)
    ensures |t| <= |s|
  {
    if s != "" && cut(s[0]) then TrimLeft(s[1..], cut) else s
  }

  function TrimRight(s: string, cut: char -> bool): string {
    if s != "" && cut(s[|s| - 1]) then TrimRight(s[..|s| - 1], cut) else s
  }

  /** strings.TrimSpace. */
  function TrimSpace(s: string): string {
    TrimRight(TrimLeft(s, IsSpace), IsSpace)
  }

  /** The leading blanks and tabs of a line. */
  function Indent(line: string): string {
    line[..|line| - |TrimLeft(line, IsBlank)|]
  }

  predicate HasPrefix(s: string, p: string) {
    p <= s
  }

  predicate HasSuffix(s: string, p: string) {
    |p| <= |s| && s[|s| - |p|..] == p
  }

  /** The first index of a character, -1 if there is none. */
  function IndexOf(s: string, c: char): (i: int)
    ensures -1 <= i < |s|
  {
    if s == "" then -1
    else if s[0] == c then 0
    else
      var i := IndexOf(s[1..], c);
      if i == -1 then -1 else i + 1
  }

  /** The last index of a character, -1 if there is none. */
  function LastIndexOf(s: string, c: char): (i: int)
    ensures -1 <= i < |s|
  {
    if s == "" then -1
    else if s[|s| - 1] == c then |s| - 1
    else LastIndexOf(s[..|s| - 1], c)
  }

  lemma {:induction false} FirstIndex(s: string, c: char, i: nat)
    requires i < |s| && s[i] == c && c !in s[..i]
    ensures IndexOf(s, c) == i
  {
    if i > 0 {
      assert s[0] in s[..i];
      assert s[1..][..i - 1] == s[..i][1..];
      FirstIndex(s[1..], c, i - 1);
    }
  }

  lemma {:induction false} LastIndex(s: string, c: char, i: nat)
    requires i < |s| && s[i] == c && c !in s[i + 1..]
    ensures LastIndexOf(s, c) == i
  {
    if i < |s| - 1 {
      assert s[|s| - 1] in s[i + 1..];
      assert s[..|s| - 1][i + 1..] == s[i + 1..][..|s| - i - 2];
      LastIndex(s[..|s| - 1], c, i);
    }
  }

  predicate IsDigit(c: char) {
    '0' <= c <= '9'
  }

  /** The decimal digits of a number. */
  function Decimal(n: nat): string {
    var digit := [('0' as int + n % 10) as char];
    if n < 10 then digit else Decimal(n / 10) + digit
  }

  function SignedDecimal(n: int): string {
    if n < 0 then "-" + Decimal(-n) else Decimal(n)
  }

  lemma {:induction false} DecimalIsDigits(n: nat)
    ensures Decimal(n) != "" && forall c :: c in Decimal(n) ==> IsDigit(c)
  {
    if 10 <= n {
      DecimalIsDigits(n / 10);
    }
  }

  /** What a string of digits stands for. */
  function Reading(s: string): int {
    if s == "" then 0 else 10 * Reading(s[..|s| - 1]) + (s[|s| - 1] as int - '0' as int)
  }

  /** The digits stand for the number, and do not start with a zero unless it is the only one. */
  lemma {:induction false} DecimalReads(n: nat)
    ensures Reading(Decimal(n)) == n && (Decimal(n)[..1] == "0" ==> n == 0) && Decimal(n) != ""
  {
    LastDigit(n);
    if 10 <= n {
      DecimalReads(n / 10);
      assert Decimal(n)[..1] == Decimal(n / 10)[..1];
    } else {
      assert Decimal(n)[..|Decimal(n)| - 1] == "";
    }
  }

  /** A negative number has a minus sign before the digits of its negation. */
  lemma SignedDecimalReads(n: int)
    ensures 0 <= n ==> Reading(SignedDecimal(n)) == n
    ensures n < 0 ==> SignedDecimal(n)[..1] == "-" && Reading(SignedDecimal(n)[1..]) == -n
  {
    DecimalReads(if n < 0 then -n else n);
  }

  /** Different numbers have different digits. */
  lemma {:induction false} DecimalInjective(m: nat, n: nat)
    requires Decimal(m) == Decimal(n)
    ensures m == n
  {
    var s := Decimal(m);
    LastDigit(m);
    LastDigit(n);
    if 10 <= m && 10 <= n {
      assert Decimal(m / 10) == s[..|s| - 1] == Decimal(n / 10);
      DecimalInjective(m / 10, n / 10);
    } else {
      DecimalIsDigits(m / 10);
      DecimalIsDigits(n / 10);
    }
  }

  lemma LastDigit(n: nat)
    ensures var s := Decimal(n);
            && s != "" && s[|s| - 1] as int == '0' as int + n % 10
            && (if n < 10 then |s| == 1 else s[..|s| - 1] == Decimal(n / 10))
  {
  }

  lemma {:induction false} TrimLeftIndented(indent: string, body: string, cut: char -> bool)
    requires forall c :: c in indent ==> cut(c)
    requires body != "" && !cut(body[0])
    ensures TrimLeft(indent + body, cut) == body
  {
    if indent == "" {
      assert indent + body == body;
    } else {
      assert indent[0] in indent && forall c :: c in indent[1..] ==> c in indent;
      TrimLeftIndented(indent[1..], body, cut);
      assert (indent + body)[1..] == indent[1..] + body;
    }
  }

  /** A line made of blanks and a body that neither starts nor ends with space trims to the body. */
  lemma TrimIndented(indent: string, body: string)
    requires forall c :: c in indent ==> IsSpace(c)
    requires body != "" && !IsSpace(body[0]) && !IsSpace(body[|body| - 1])
    ensures TrimSpace(indent + body) == body
  {
    TrimLeftIndented(indent, body, IsSpace);
  }

  /** Trimming on the right leaves a prefix, and all of it up to a character that is no space. */
  lemma {:induction false} TrimRightIsPrefix(s: string, k: nat)
    requires k < |s| && !IsSpace(s[k])
    ensures k < |TrimRight(s, IsSpace)| && TrimRight(s, IsSpace) <= s
  {
    if IsSpace(s[|s| - 1]) {
      TrimRightIsPrefix(s[..|s| - 1], k);
    }
  }

  /** However a body ends, trimming an indented one leaves a prefix of it. */
  lemma TrimIsPrefix(indent: string, body: string, k: nat)
    requires forall c :: c in indent ==> IsSpace(c)
    requires k < |body| && !IsSpace(body[0]) && !IsSpace(body[k])
    ensures k < |TrimSpace(indent + body)| && TrimSpace(indent + body) <= body
  {
    TrimLeftIndented(indent, body, IsSpace);
    TrimRightIsPrefix(body, k);
  }

  /** The indent is all blanks. */
  lemma {:induction false} IndentIsBlank(line: string)
    ensures forall c :: c in Indent(line) ==> IsBlank(c)
  {
    if line != "" && IsBlank(line[0]) {
      IndentIsBlank(line[1..]);
      assert TrimLeft(line, IsBlank) == TrimLeft(line[1..], IsBlank);
      assert Indent(line) == [line[0]] + Indent(line[1..]);
    }
  }

  predicate All(s: string, cut: char -> bool) {
    forall c :: c in s ==> cut(c)
  }

  /** From i on s has t, which has no character to cut at either end, and only such around it. */
  predicate TrimmedAt(s: string, t: string, i: nat, cut: char -> bool) {
    && i + |t| <= |s| && s[i..i + |t|] == t && All(s[..i], cut) && All(s[i + |t|..], cut)
    && (t == "" || (!cut(t[0]) && !cut(t[|t| - 1])))
  }

  lemma {:induction false} TrimLeftIs(s: string, cut: char -> bool)
    ensures var t := TrimLeft(s, cut);
            && s == s[..|s| - |t|] + t && (forall c :: c in s[..|s| - |t|] ==> cut(c)) && (t == "" || !cut(t[0]))
  {
    if s != "" && cut(s[0]) {
      TrimLeftIs(s[1..], cut);
      var t := TrimLeft(s[1..], cut);
      assert s[..|s| - |t|] == [s[0]] + s[1..][..|s| - 1 - |t|];
    }
  }

  lemma {:induction false} TrimRightIs(s: string, cut: char -> bool)
    ensures var t := TrimRight(s, cut);
            && t <= s && (forall c :: c in s[|t|..] ==> cut(c)) && (t == "" || !cut(t[|t| - 1]))
  {
    if s != "" && cut(s[|s| - 1]) {
      var init := s[..|s| - 1];
      TrimRightIs(init, cut);
      var t := TrimRight(init, cut);
      assert s[|t|..] == init[|t|..] + [s[|s| - 1]];
    }
  }

  /** Trimming leaves exactly the middle. */
  lemma {:induction false} TrimIs(s: string, cut: char -> bool) returns (i: nat)
    ensures TrimmedAt(s, TrimRight(TrimLeft(s, cut), cut), i, cut)
  {
    var left := TrimLeft(s, cut);
    var t := TrimRight(left, cut);
    TrimLeftIs(s, cut);
    TrimRightIs(left, cut);
    i := |s| - |left|;
    assert s[i..] == left;
    assert s[i + |t|..] == left[|t|..];
    assert s[i..i + |t|] == left[..|t|];
  }

  lemma TrimSpaceIs(s: string) returns (i: nat)
    ensures TrimmedAt(s, TrimSpace(s), i, IsSpace)
  {
    i := TrimIs(s, IsSpace);
  }

  /** The indent is all of the blanks and tabs that a line starts with. */
  lemma {:induction false} IndentIs(line: string)
    ensures Indent(line) <= line && (forall c :: c in Indent(line) ==> c == ' ' || c == '\t')
    ensures |Indent(line)| < |line| ==> line[|Indent(line)|] != ' ' && line[|Indent(line)|] != '\t'
  {
    TrimLeftIs(line, IsBlank);
    IndentIsBlank(line);
    var t := TrimLeft(line, IsBlank);
    assert t != "" ==> line[|line| - |t|] == t[0] && !IsBlank(t[0]);
  }

  lemma {:induction false} LastIndexIs(s: string, c: char)
    ensures var i := LastIndexOf(s, c);
            if i == -1 then c !in s else s[i] == c && c !in s[i + 1..]
  {
    if s != "" && s[|s| - 1] != c {
      var init := s[..|s| - 1];
      LastIndexIs(init, c);
      assert s == init + [s[|s| - 1]];
      var i := LastIndexOf(init, c);
      assert i != -1 ==> s[i + 1..] == init[i + 1..] + [s[|s| - 1]];
    }
  }
}
