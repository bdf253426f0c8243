/** The string operations that the signalling code is built from: searching, cutting, and reading
    and printing numbers.  Main results: where a search ends when the text is put together from
    parts, and reading undoes printing. */
module Text {

  const NOT_FOUND := -1

  // ---- Searching ------------------------------------------------------------------------------------

  predicate At(s: string, pattern: string, i: int) {
    0 <= i && i + |pattern| <= |s| && s[i..i + |pattern|] == pattern
  }

  ghost predicate Contains(s: string, pattern: string) { exists i :: At(s, pattern, i) }

  /** `r` is the first place from `from` on, or NOT_FOUND. */
  ghost predicate First(s: string, pattern: string, from: nat, r: int) {
    && (r != NOT_FOUND ==> from <= r && At(s, pattern, r))
    && (forall i :: from <= i && (r != NOT_FOUND ==> i < r) ==> !At(s, pattern, i))
  }

  function Find(s: string, pattern: string, from: nat): (r: int)
    ensures First(s, pattern, from, r)
    decreases |s| - from
  {
    if from + |pattern| > |s| then NOT_FOUND
    else if s[from..from + |pattern|] == pattern then from
    else Find(s, pattern, from + 1)
  }

  lemma FirstUnique(s: string, pattern: string, from: nat, r: int)
    requires First(s, pattern, from, r)
    ensures Find(s, pattern, from) == r
  {
  }

  /** A pattern cannot reach across a character that it does not hold. */
  lemma AtAcross(a: string, c: char, b: string, pattern: string, i: int)
    requires pattern != [] && c !in pattern
    ensures At(a + [c] + b, pattern, i) <==> At(a, pattern, i) || At(b, pattern, i - |a| - 1)
  {
    var s, n := a + [c] + b, |pattern|;
    if 0 <= i && i + n <= |s| {
      if i + n <= |a| {
        assert s[i..i + n] == a[i..i + n];
      } else if i > |a| {
        assert s[i..i + n] == b[i - |a| - 1..i - |a| - 1 + n];
      } else {
        assert s[i..i + n][|a| - i] == c;
      }
    }
  }

  lemma ContainsAcross(a: string, c: char, b: string, pattern: string)
    requires pattern != [] && c !in pattern
    ensures Contains(a + [c] + b, pattern) <==> Contains(a, pattern) || Contains(b, pattern)
  {
    var s := a + [c] + b;
    if Contains(s, pattern) { var i :| At(s, pattern, i); AtAcross(a, c, b, pattern, i); }
    if Contains(a, pattern) { var i :| At(a, pattern, i); AtAcross(a, c, b, pattern, i); }
    if Contains(b, pattern) {
      var i :| At(b, pattern, i);
      AtAcross(a, c, b, pattern, i + |a| + 1);
      assert At(s, pattern, i + |a| + 1);
    }
  }

  lemma {:induction false} FindContains(s: string, pattern: string)
    ensures Find(s, pattern, 0) == NOT_FOUND <==> !Contains(s, pattern)
  {
    if Contains(s, pattern) { var i :| At(s, pattern, i); }
  }

  /** Searching a text whose first part does not hold the pattern. */
  lemma {:induction false} FindAcross(a: string, c: char, b: string, pattern: string)
    requires pattern != [] && c !in pattern && !Contains(a, pattern)
    ensures Find(a + [c] + b, pattern, 0)
         == if Find(b, pattern, 0) == NOT_FOUND then NOT_FOUND else |a| + 1 + Find(b, pattern, 0)
  {
    var s, f := a + [c] + b, Find(b, pattern, 0);
    var r := if f == NOT_FOUND then NOT_FOUND else |a| + 1 + f;
    if r != NOT_FOUND { AtAcross(a, c, b, pattern, r); }
    forall i | 0 <= i && (r != NOT_FOUND ==> i < r) ensures !At(s, pattern, i) {
      AtAcross(a, c, b, pattern, i);
    }
    FirstUnique(s, pattern, 0, r);
  }

  /** Searching one that does: the part before the character decides. */
  lemma {:induction false} FindBefore(a: string, c: char, b: string, pattern: string)
    requires pattern != [] && c !in pattern && Contains(a, pattern)
    ensures Find(a + [c] + b, pattern, 0) == Find(a, pattern, 0) <= |a| - |pattern|
    ensures Find(a, pattern, 0) != NOT_FOUND
  {
    var s, r := a + [c] + b, Find(a, pattern, 0);
    FindContains(a, pattern);
    AtAcross(a, c, b, pattern, r);
    forall i | 0 <= i < r ensures !At(s, pattern, i) { AtAcross(a, c, b, pattern, i); }
    FirstUnique(s, pattern, 0, r);
  }

  lemma FindHere(pattern: string, rest: string)
    ensures Find(pattern + rest, pattern, 0) == 0
  {
    assert (pattern + rest)[0..|pattern|] == pattern;
  }

  /** A text without one of the pattern's characters does not hold the pattern. */
  lemma MissingChar(s: string, pattern: string, c: char)
    requires c in pattern && c !in s
    ensures !Contains(s, pattern)
  {
  }

  lemma TooShort(s: string, pattern: string)
    requires |s| < |pattern|
    ensures !Contains(s, pattern)
  {
  }

  /** Searching from the end of a part. */
  lemma {:induction false} FindAfter(a: string, b: string, pattern: string)
    ensures Find(a + b, pattern, |a|)
         == if Find(b, pattern, 0) == NOT_FOUND then NOT_FOUND else |a| + Find(b, pattern, 0)
  {
    var s, f := a + b, Find(b, pattern, 0);
    var r := if f == NOT_FOUND then NOT_FOUND else |a| + f;
    forall i | |a| <= i && i + |pattern| <= |s| ensures At(s, pattern, i) <==> At(b, pattern, i - |a|) {
      assert s[i..i + |pattern|] == b[i - |a|..i - |a| + |pattern|];
    }
    FirstUnique(s, pattern, |a|, r);
  }

  /** The first line break after a line without carriage returns is the one that ends it. */
  lemma {:induction false} FindLineEnd(line: string, rest: string)
    requires '\r' !in line
    ensures Find(line + "\r\n" + rest, "\r\n", 0) == |line|
  {
    var s := line + "\r\n" + rest;
    assert s[|line|..|line| + 2] == "\r\n";
    forall i | 0 <= i < |line| ensures !At(s, "\r\n", i) {
      assert s[i] == line[i];
    }
    FirstUnique(s, "\r\n", 0, |line|);
  }

  // ---- Cutting --------------------------------------------------------------------------------------

  /** At most `count` characters from `pos` on; a difference that wraps below zero is a huge count. */
  function Substr(s: string, pos: nat, count: int): string
    requires pos <= |s|
  {
    if count < 0 || pos + count > |s| then s[pos..] else s[pos..pos + count]
  }

  predicate Blank(c: char) { c == ' ' || c == '\t' }

  /** Without the blanks at the front, unless there is nothing else. */
  function SkipBlanks(s: string): string {
    if forall i :: 0 <= i < |s| ==> Blank(s[i]) then s else Stripped(s)
  }

  function Stripped(s: string): string {
    if s != [] && Blank(s[0]) then Stripped(s[1..]) else s
  }

  lemma SkipOneBlank(s: string)
    requires s != [] && !Blank(s[0])
    ensures SkipBlanks(" " + s) == s
  {
    var t := " " + s;
    assert t[1] == s[0];
    assert t[1..] == s;
    assert Stripped(t) == Stripped(s) == s;
  }

  // ---- Numbers --------------------------------------------------------------------------------------

  predicate Digit(c: char) { '0' <= c <= '9' }

  function DigitOf(d: nat): (c: char)
    requires d < 10
    ensures Digit(c) && c as int - '0' as int == d
  {
    (d + 48) as char
  }

  function PrintNat(n: nat): (s: string)
    ensures s != [] && forall c :: c in s ==> Digit(c)
  {
    if n < 10 then [DigitOf(n)] else PrintNat(n / 10) + [DigitOf(n % 10)]
  }

  function Print(n: int): string { if n < 0 then "-" + PrintNat(-n) else PrintNat(n) }

  /** The number that the digits at the front stand for, after `sum`. */
  function ReadDigits(s: string, sum: nat): nat {
    if s == [] || !Digit(s[0]) then sum else ReadDigits(s[1..], 10 * sum + (s[0] as int - '0' as int))
  }

  predicate Space(c: char) { c == ' ' || c == '\t' || c == '\n' || c == '\r' || c as int == 11 || c as int == 12 }

  /** Reads a number as the C library does: white space, a sign, digits; anything else ends it. */
  function Atoi(s: string): int {
    if s == [] then 0
    else if Space(s[0]) then Atoi(s[1..])
    else if s[0] == '-' then -(ReadDigits(s[1..], 0) as int)
    else if s[0] == '+' then ReadDigits(s[1..], 0)
    else ReadDigits(s, 0)
  }

  lemma {:induction false} ReadDigitsAppend(a: string, b: string, sum: nat)
    requires forall c :: c in a ==> Digit(c)
    ensures ReadDigits(a + b, sum) == ReadDigits(b, ReadDigits(a, sum))
  {
    if a == [] {
      assert a + b == b;
    } else {
      assert (a + b)[1..] == a[1..] + b;
      assert a[0] in a;
      ReadDigitsAppend(a[1..], b, 10 * sum + (a[0] as int - '0' as int));
    }
  }

  lemma {:induction false} ReadPrintNat(n: nat)
    ensures ReadDigits(PrintNat(n), 0) == n
  {
    if n < 10 {
      assert PrintNat(n)[1..] == [];
    } else {
      var d := DigitOf(n % 10);
      ReadPrintNat(n / 10);
      ReadDigitsAppend(PrintNat(n / 10), [d], 0);
      assert [d][1..] == [];
      assert ReadDigits([d], n / 10) == ReadDigits([], 10 * (n / 10) + n % 10);
    }
  }

  /** Reading a printed number gives it back, if no digit follows. */
  lemma {:induction false} ReadPrint(n: int, rest: string)
    requires rest == [] || !Digit(rest[0])
    ensures Atoi(Print(n) + rest) == n
  {
    var m := if n < 0 then -n else n;
    ReadPrintNat(m);
    ReadDigitsAppend(PrintNat(m), rest, 0);
    assert ReadDigits(rest, m) == m;
    var s := Print(n) + rest;
    if n < 0 {
      assert s[1..] == PrintNat(m) + rest;
    } else {
      assert s == PrintNat(m) + rest;
      assert s[0] == PrintNat(m)[0] && PrintNat(m)[0] in PrintNat(m);
      assert Digit(s[0]) && !Space(s[0]) && s[0] != '-' && s[0] != '+';
      assert Atoi(s) == ReadDigits(s, 0);
    }
  }

  lemma ReadAfterBlank(s: string)
    ensures Atoi(" " + s) == Atoi(s)
  {
    assert (" " + s)[1..] == s;
  }

  lemma {:induction false} DigitsUntil(a: string, c: char, b: string, sum: nat)
    requires !Digit(c)
    ensures ReadDigits(a + [c] + b, sum) == ReadDigits(a + [c], sum)
  {
    if a == [] {
      assert [] + [c] + b == [c] + b;
    } else {
      assert (a + [c] + b)[1..] == a[1..] + [c] + b && (a + [c])[1..] == a[1..] + [c];
      if Digit(a[0]) { DigitsUntil(a[1..], c, b, 10 * sum + (a[0] as int - '0' as int)); }
    }
  }

  /** What follows a character that cannot belong to a number does not matter. */
  lemma {:induction false} AtoiUntil(a: string, c: char, b: string)
    requires !Digit(c) && !Space(c) && c != '-' && c != '+'
    ensures Atoi(a + [c] + b) == Atoi(a + [c])
  {
    DigitsUntil(a, c, b, 0);
    if a != [] {
      assert (a + [c] + b)[1..] == a[1..] + [c] + b && (a + [c])[1..] == a[1..] + [c];
      DigitsUntil(a[1..], c, b, 0);
      AtoiUntil(a[1..], c, b);
    }
  }
}
