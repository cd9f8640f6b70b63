/** The text operations of the configuration file: trimming, splitting, numbers. */
module IniText {
  import opened Common

  predicate Space(c: char) {
    c == ' ' || c == '\t' || c == '\r' || c == '\n'
  }

  function TrimLeft(s: string): string {
    if s != "" && Space(s[0]) then TrimLeft(s[1..]) else s
  }

  function TrimRight(s: string): string {
    if s != "" && Space(s[|s| - 1]) then TrimRight(s[..|s| - 1]) else s
  }

  function Trim(s: string): string {
    TrimRight(TrimLeft(s))
  }

  lemma {:induction false} TrimLeftIs(s: string)
    ensures var r := TrimLeft(s); |r| <= |s| && r == s[|s| - |r|..] && (r != "" ==> !Space(r[0]))
  {
    if s != "" && Space(s[0]) { TrimLeftIs(s[1..]); }
  }

  lemma {:induction false} TrimRightIs(s: string)
    ensures var r := TrimRight(s); |r| <= |s| && r == s[..|r|] && (r != "" ==> !Space(r[|r| - 1]))
  {
    if s != "" && Space(s[|s| - 1]) { TrimRightIs(s[..|s| - 1]); }
  }

  /** A trimmed string is a part of the original. */
  lemma TrimIs(s: string)
    ensures exists i, j :: 0 <= i <= j <= |s| && Trim(s) == s[i..j]
  {
    TrimLeftIs(s);
    TrimRightIs(TrimLeft(s));
    var i := |s| - |TrimLeft(s)|;
    assert Trim(s) == s[i..i + |Trim(s)|];
  }

  predicate Tidy(s: string) {
    s != "" ==> !Space(s[0]) && !Space(s[|s| - 1])
  }

  /** White space is the blank, the tab, the carriage return and the line feed. */
  lemma TidyExact(s: string)
    ensures Tidy(s) <==> s == "" || (s[0] !in " \t\r\n" && s[|s| - 1] !in " \t\r\n")
  {
    assert forall c :: c in " \t\r\n" <==> c == ' ' || c == '\t' || c == '\r' || c == '\n';
  }

  /** Trimming leaves exactly the strings without white space at their ends alone. */
  lemma TrimFixed(s: string)
    ensures Trim(s) == s <==> Tidy(s)
  {
    TrimLeftIs(s);
    TrimRightIs(TrimLeft(s));
  }

  /** White space after a character that is none is trimmed as if it stood alone. */
  lemma {:induction false} TrimRightAppend(a: string, b: string)
    requires a != "" && !Space(a[|a| - 1])
    ensures TrimRight(a + b) == a + TrimRight(b)
  {
    var s := a + b;
    if b == "" {
      assert s == a;
    } else if Space(b[|b| - 1]) {
      assert s[..|s| - 1] == a + b[..|b| - 1];
      TrimRightAppend(a, b[..|b| - 1]);
    }
  }

  lemma {:induction false} TrimsCommute(s: string)
    ensures TrimLeft(TrimRight(s)) == TrimRight(TrimLeft(s))
  {
    if s != "" && Space(s[|s| - 1]) {
      TrimsCommute(s[..|s| - 1]);
      TrimLeftInit(s);
    } else {
      TrimLeftIs(s);
    }
  }

  /** Dropping a final blank commutes with trimming on the left. */
  lemma {:induction false} TrimLeftInit(s: string)
    requires s != "" && Space(s[|s| - 1])
    ensures TrimRight(TrimLeft(s)) == TrimRight(TrimLeft(s[..|s| - 1]))
  {
    if Space(s[0]) && |s| > 1 {
      assert s[1..][..|s| - 2] == s[..|s| - 1][1..];
      TrimLeftInit(s[1..]);
    } else if Space(s[0]) {
      assert s[1..] == "" && s[..0] == "";
    }
  }

  /** Trimming a right-trimmed tail is trimming the tail, and a leading blank makes no difference. */
  lemma TrimTail(v: string)
    ensures Trim(TrimRight([' '] + v)) == Trim(v)
  {
    var w := [' '] + v;
    assert w[1..] == v;
    TrimsCommute(w);
    TrimRightTwice(TrimLeft(w));
  }

  lemma TrimRightTwice(s: string)
    ensures TrimRight(TrimRight(s)) == TrimRight(s)
  {
    TrimRightIs(s);
  }

  // ---------------------------------------------------------------- searching and splitting

  /** The position of the first character for which `p` holds, or the length. */
  function First(s: string, p: Mark): (i: nat)
    ensures i <= |s|
  {
    if s == "" || p.Is(s[0]) then 0 else 1 + First(s[1..], p)
  }

  /** What is searched for. */
  datatype Mark = Newline | Comment | Equals | Nul {
    predicate Is(c: char) {
      match this
      case Newline => c == '\n'
      case Comment => c == '#' || c == ';'
      case Equals => c == '='
      case Nul => c == '\0'
    }
  }

  lemma {:induction false} FirstFound(s: string, p: Mark)
    ensures First(s, p) < |s| ==> p.Is(s[First(s, p)])
    ensures forall j | 0 <= j < First(s, p) :: !p.Is(s[j])
  {
    if s != "" && !p.Is(s[0]) { FirstFound(s[1..], p); }
  }

  lemma {:induction false} FirstIs(s: string, p: Mark, i: nat)
    requires i <= |s| && (i < |s| ==> p.Is(s[i])) && forall j | 0 <= j < i :: !p.Is(s[j])
    ensures First(s, p) == i
  {
    if i > 0 { FirstIs(s[1..], p, i - 1); }
  }

  /** The lines of a text; a final line break does not start another line. */
  function Lines(text: string): seq<string>
    decreases |text|
  {
    if text == "" then [] else
    var nl := First(text, Newline);
    [text[..nl]] + if nl < |text| then Lines(text[nl + 1..]) else []
  }

  predicate Free(s: string, p: Mark) {
    forall i | 0 <= i < |s| :: !p.Is(s[i])
  }

  lemma LinesCons(line: string, rest: string)
    requires Free(line, Newline)
    ensures Lines(line + "\n" + rest) == [line] + Lines(rest)
  {
    var text := line + "\n" + rest;
    FirstIs(text, Newline, |line|);
    assert text[..|line|] == line && text[|line| + 1..] == rest;
  }

  // ---------------------------------------------------------------- letters and numbers

  function Lower(s: string): (r: string)
    ensures |r| == |s|
  {
    if s == "" then "" else
    [if 'A' <= s[0] <= 'Z' then (s[0] as int + 32) as char else s[0]] + Lower(s[1..])
  }

  lemma {:induction false} LowerIs(s: string, i: nat)
    requires i < |s|
    ensures 'A' <= s[i] <= 'Z' ==> Lower(s)[i] as int == s[i] as int + 32
    ensures !('A' <= s[i] <= 'Z') ==> Lower(s)[i] == s[i]
  {
    if i > 0 { LowerIs(s[1..], i - 1); }
  }

  predicate Digit(c: char) {
    48 <= c as int <= 57
  }

  function Worth(c: char): nat
    requires Digit(c)
  {
    c as int - 48
  }

  function Digits(n: nat): (s: string)
    ensures s != "" && forall i | 0 <= i < |s| :: Digit(s[i])
  {
    var last := [(48 + n % 10) as char];
    if n < 10 then last else Digits(n / 10) + last
  }

  /** The number the leading digits stand for, after `sofar`. */
  function Number(s: string, sofar: nat): nat {
    if s == "" || !Digit(s[0]) then sofar else Number(s[1..], sofar * 10 + Worth(s[0]))
  }

  /** What atoi skips in front of a number: white space, including the vertical tab and the form feed. */
  function SkipSpace(s: string): string {
    if s != "" && (s[0] == ' ' || 9 <= s[0] as int <= 13) then SkipSpace(s[1..]) else s
  }

  /** atoi: white space, an optional sign, then digits; anything else ends the number. */
  function Atoi(s: string): int {
    Signed(SkipSpace(s))
  }

  function Signed(s: string): int {
    if s != "" && s[0] == '-' then (var n: int := Number(s[1..], 0); -n)
    else if s != "" && s[0] == '+' then Number(s[1..], 0)
    else Number(s, 0)
  }

  lemma {:induction false} NumberSnoc(a: string, c: char, sofar: nat)
    requires Digit(c) && forall i | 0 <= i < |a| :: Digit(a[i])
    ensures Number(a + [c], sofar) == Number(a, sofar) * 10 + Worth(c)
  {
    if a == "" {
      assert a + [c] == [c] && [c][1..] == "";
    } else {
      assert (a + [c])[1..] == a[1..] + [c];
      NumberSnoc(a[1..], c, sofar * 10 + Worth(a[0]));
    }
  }

  /** Printing a number and reading it back. */
  lemma {:induction false} AtoiDigits(n: nat)
    ensures Atoi(Digits(n)) == n
  {
    NumberDigits(n);
    assert Digit(Digits(n)[0]);
  }

  /** A sign, and white space in front of it, are understood. */
  lemma AtoiSigned(n: nat, c: char)
    requires c == ' ' || 9 <= c as int <= 13
    ensures Atoi("-" + Digits(n)) == 0 - n && Atoi("+" + Digits(n)) == n && Atoi([c] + Digits(n)) == n
  {
    NumberDigits(n);
    assert Digit(Digits(n)[0]);
    assert ("-" + Digits(n))[1..] == Digits(n) && ("+" + Digits(n))[1..] == Digits(n) && ([c] + Digits(n))[1..] == Digits(n);
    assert SkipSpace([c] + Digits(n)) == SkipSpace(Digits(n)) == Digits(n);
    AtoiDigits(n);
  }

  lemma {:induction false} NumberDigits(n: nat)
    ensures Number(Digits(n), 0) == n
  {
    var last := (48 + n % 10) as char;
    if n < 10 {
      NumberSnoc("", last, 0);
      assert "" + [last] == [last];
    } else {
      NumberDigits(n / 10);
      NumberSnoc(Digits(n / 10), last, 0);
    }
  }
}
