/** The optional value used wherever the Python code returns None. */
module Options {
  datatype Option<T> = None | Some(value: T)
}

/**
 * The small part of Python's `str` semantics that the tracking engine relies on:
 * whitespace, case mapping, strip/split/find, `int()` of a string, `f"{n:02d}"`
 * formatting and the code-point order used by `sorted()` on strings.
 */
module PyText {
  import opened Options

  /** Python's `str.isspace()` for one character. */
  predicate IsSpace(c: char) {
    var n := c as int;
    n == 0x20 || (0x09 <= n <= 0x0d) || (0x1c <= n <= 0x1f) || n == 0x85 || n == 0xa0
    || n == 0x1680 || (0x2000 <= n <= 0x200a) || n == 0x2028 || n == 0x2029
    || n == 0x202f || n == 0x205f || n == 0x3000
  }

  /** An ASCII decimal digit (the model's reading of `\d` and `str.isdigit()`). */
  predicate IsDigit(c: char) {
    '0' <= c <= '9'
  }

  function DigitVal(c: char): (d: nat)
    requires IsDigit(c)
    ensures d < 10
  {
    c as int - '0' as int
  }

  function DigitChar(d: nat): (c: char)
    requires d < 10
    ensures IsDigit(c) && DigitVal(c) == d
  {
    ('0' as int + d) as char
  }

  predicate AllDigits(s: string) {
    forall i :: 0 <= i < |s| ==> IsDigit(s[i])
  }

  /** Python's `str.isdigit()` restricted to ASCII digits. */
  predicate IsDigitStr(s: string) {
    |s| > 0 && AllDigits(s)
  }

  predicate HasDigit(s: string) {
    exists i :: 0 <= i < |s| && IsDigit(s[i])
  }

  /** `str.lower()` for one character: ASCII and Cyrillic capitals. */
  function LowerChar(c: char): char {
    var n := c as int;
    if 0x41 <= n <= 0x5a then (n + 32) as char
    else if 0x410 <= n <= 0x42f then (n + 32) as char
    else if 0x400 <= n <= 0x40f then (n + 80) as char
    else c
  }

  /** `str.upper()` for one character: ASCII and Cyrillic small letters. */
  function UpperChar(c: char): char {
    var n := c as int;
    if 0x61 <= n <= 0x7a then (n - 32) as char
    else if 0x430 <= n <= 0x44f then (n - 32) as char
    else if 0x450 <= n <= 0x45f then (n - 80) as char
    else c
  }

  function Lower(s: string): (r: string)
    ensures |r| == |s|
    ensures forall i :: 0 <= i < |s| ==> r[i] == LowerChar(s[i])
  {
    if s == [] then [] else [LowerChar(s[0])] + Lower(s[1..])
  }

  function Upper(s: string): (r: string)
    ensures |r| == |s|
    ensures forall i :: 0 <= i < |s| ==> r[i] == UpperChar(s[i])
  {
    if s == [] then [] else [UpperChar(s[0])] + Upper(s[1..])
  }

  lemma LowerCharFacts(c: char)
    ensures LowerChar(LowerChar(c)) == LowerChar(c)
    ensures IsSpace(LowerChar(c)) <==> IsSpace(c)
    ensures IsDigit(LowerChar(c)) <==> IsDigit(c)
    ensures IsDigit(c) ==> LowerChar(c) == c
  {
  }

  lemma LowerIdempotent(s: string)
    ensures Lower(Lower(s)) == Lower(s)
  {
    forall i | 0 <= i < |s| ensures Lower(Lower(s))[i] == Lower(s)[i] {
      LowerCharFacts(s[i]);
    }
  }

  lemma LowerOfDigitsAndDashes(s: string)
    requires forall i :: 0 <= i < |s| ==> IsDigit(s[i]) || s[i] == '-' || s[i] == ':' || s[i] == ' '
    ensures Lower(s) == s
  {
  }

  /** A small Cyrillic letter of the regex class `[а-яё]`. */
  predicate IsCyrSmall(c: char) {
    ('а' <= c <= 'я') || c == 'ё'
  }

  /** Text whose characters `str.lower()` leaves alone is its own lower case. */
  lemma LowerOfUncased(s: string)
    requires forall i :: 0 <= i < |s| ==> LowerChar(s[i]) == s[i]
    ensures Lower(s) == s
  {
  }

  /** Length of the leading run of whitespace. */
  function SpaceRun(s: string): (n: nat)
    ensures n <= |s|
    ensures forall i :: 0 <= i < n ==> IsSpace(s[i])
    ensures n < |s| ==> !IsSpace(s[n])
    decreases |s|
  {
    if |s| > 0 && IsSpace(s[0]) then 1 + SpaceRun(s[1..]) else 0
  }

  /** Length of the leading run of ASCII digits. */
  function DigitRun(s: string): (n: nat)
    ensures n <= |s|
    ensures forall i :: 0 <= i < n ==> IsDigit(s[i])
    ensures n < |s| ==> !IsDigit(s[n])
    decreases |s|
  {
    if |s| > 0 && IsDigit(s[0]) then 1 + DigitRun(s[1..]) else 0
  }

  function LStrip(s: string): (r: string)
    ensures |r| <= |s|
    ensures r == [] || !IsSpace(r[0])
    ensures forall i :: 0 <= i < |s| - |r| ==> IsSpace(s[i])
    decreases |s|
  {
    if |s| > 0 && IsSpace(s[0]) then LStrip(s[1..]) else s
  }

  function RStrip(s: string): (r: string)
    ensures |r| <= |s|
    ensures r == [] || !IsSpace(r[|r| - 1])
    ensures forall i :: |r| <= i < |s| ==> IsSpace(s[i])
    decreases |s|
  {
    if |s| > 0 && IsSpace(s[|s| - 1]) then RStrip(s[..|s| - 1]) else s
  }

  lemma LStripIsSuffix(s: string)
    ensures LStrip(s) == s[|s| - |LStrip(s)|..]
    decreases |s|
  {
    if |s| > 0 && IsSpace(s[0]) {
      LStripIsSuffix(s[1..]);
      assert s[1..][|s| - 1 - |LStrip(s)|..] == s[|s| - |LStrip(s)|..];
    }
  }

  lemma RStripIsPrefix(s: string)
    ensures RStrip(s) == s[..|RStrip(s)|]
    decreases |s|
  {
    if |s| > 0 && IsSpace(s[|s| - 1]) {
      RStripIsPrefix(s[..|s| - 1]);
    }
  }

  /** `str.strip()`: drops leading and trailing whitespace. */
  function Strip(s: string): (r: string)
    ensures |r| <= |s|
    ensures r == [] || (!IsSpace(r[0]) && !IsSpace(r[|r| - 1]))
  {
    var t := LStrip(s);
    RStripIsPrefix(t);
    RStrip(t)
  }

  predicate IsStripped(s: string) {
    s == [] || (!IsSpace(s[0]) && !IsSpace(s[|s| - 1]))
  }

  lemma StripOfStripped(s: string)
    requires IsStripped(s)
    ensures Strip(s) == s
  {
  }

  lemma StripIdempotent(s: string)
    ensures Strip(Strip(s)) == Strip(s)
  {
    StripOfStripped(Strip(s));
  }

  /** Lower-casing maps whitespace to whitespace and nothing else to it, so a stripped string stays stripped. */
  lemma LowerKeepsStripped(s: string)
    requires IsStripped(s)
    ensures IsStripped(Lower(s))
  {
    if s != [] {
      LowerCharFacts(s[0]);
      LowerCharFacts(s[|s| - 1]);
    }
  }

  /** Index of the first occurrence of `c`, or -1 (`str.find` for one character). */
  function Find(s: string, c: char): (i: int)
    ensures -1 <= i < |s|
    ensures i == -1 ==> c !in s
    ensures i >= 0 ==> s[i] == c && c !in s[..i]
    decreases |s|
  {
    if |s| == 0 then -1
    else if s[0] == c then 0
    else
      var k := Find(s[1..], c);
      assert c !in s[1..] ==> c !in s;
      if k == -1 then -1 else (assert s[..k + 1] == [s[0]] + s[1..][..k]; k + 1)
  }

  /** `s.split(sep)` for a one-character separator. */
  function Split(s: string, sep: char): (r: seq<string>)
    ensures |r| >= 1
    ensures forall k :: 0 <= k < |r| ==> sep !in r[k]
    decreases |s|
  {
    var i := Find(s, sep);
    if i < 0 then [s] else [s[..i]] + Split(s[i + 1..], sep)
  }

  /** Joining the pieces of a split with the separator gives the string back. */
  function Join(parts: seq<string>, sep: char): string
    requires |parts| >= 1
  {
    if |parts| == 1 then parts[0] else parts[0] + [sep] + Join(parts[1..], sep)
  }

  lemma {:induction false} SplitJoin(s: string, sep: char)
    ensures Join(Split(s, sep), sep) == s
    decreases |s|
  {
    var i := Find(s, sep);
    if i >= 0 {
      var rest := Split(s[i + 1..], sep);
      assert Split(s, sep) == [s[..i]] + rest;
      assert Split(s, sep)[1..] == rest;
      assert Join(Split(s, sep), sep) == s[..i] + [sep] + Join(rest, sep);
      SplitJoin(s[i + 1..], sep);
      Around(s, i);
    }
  }

  /** A string is what comes before position `i`, the character there, and what follows. */
  lemma Around<T>(s: seq<T>, i: int)
    requires 0 <= i < |s|
    ensures s == s[..i] + [s[i]] + s[i + 1..]
  {
  }

  /** `s.split(sep, 1)`: the text before the first separator and the rest. */
  function SplitOnce(s: string, sep: char): (r: seq<string>)
    ensures 1 <= |r| <= 2
    ensures |r| == 1 <==> sep !in s
    ensures |r| == 2 ==> r[0] + [sep] + r[1] == s && sep !in r[0]
  {
    var i := Find(s, sep);
    if i < 0 then [s] else (assert s == s[..i] + [sep] + s[i + 1..]; [s[..i], s[i + 1..]])
  }

  /** Length of the leading run of non-whitespace characters. */
  function WordLen(s: string): (n: nat)
    ensures n <= |s|
    ensures forall i :: 0 <= i < n ==> !IsSpace(s[i])
    ensures n < |s| ==> IsSpace(s[n])
    decreases |s|
  {
    if |s| == 0 || IsSpace(s[0]) then 0 else 1 + WordLen(s[1..])
  }

  predicate IsWord(w: string) {
    w != [] && forall i :: 0 <= i < |w| ==> !IsSpace(w[i])
  }

  /** `s.split()` with no argument: the maximal runs of non-whitespace characters. */
  function SplitWs(s: string): (r: seq<string>)
    ensures forall k :: 0 <= k < |r| ==> IsWord(r[k])
    decreases |s|
  {
    var t := LStrip(s);
    if t == [] then []
    else
      var n := WordLen(t);
      [t[..n]] + SplitWs(t[n..])
  }

  lemma {:induction false} WordLenOfWord(w: string, rest: string)
    requires IsWord(w) && (rest == [] || IsSpace(rest[0]))
    ensures WordLen(w + rest) == |w|
    decreases |w|
  {
    var s := w + rest;
    assert s[0] == w[0];
    assert WordLen(s) == 1 + WordLen(s[1..]);
    if |w| > 1 {
      assert s[1..] == w[1..] + rest;
      assert IsWord(w[1..]) by {
        forall i | 0 <= i < |w| - 1 ensures !IsSpace(w[1..][i]) {
          assert w[1..][i] == w[i + 1];
        }
      }
      WordLenOfWord(w[1..], rest);
    } else {
      assert s[1..] == rest;
    }
  }

  lemma LStripOfWordStart(s: string)
    requires s != [] && !IsSpace(s[0])
    ensures LStrip(s) == s
  {
  }

  /** `w.split()` of a single word is that word. */
  lemma SplitWsOfWord(w: string)
    requires IsWord(w)
    ensures SplitWs(w) == [w]
  {
    LStripOfWordStart(w);
    WordLenOfWord(w, []);
    assert w + [] == w;
    assert w[|w|..] == [];
  }

  lemma SplitWsOfSpaceWord(y: string)
    requires IsWord(y)
    ensures SplitWs(" " + y) == [y]
  {
    var s := " " + y;
    assert s[1..] == y;
    LStripOfWordStart(y);
    assert LStrip(s) == y;
    SplitWsOfWord(y);
  }

  /** A single leading space does not change `split()`. */
  lemma SplitWsOfSpaced(w: string)
    requires w != [] && !IsSpace(w[0])
    ensures SplitWs(" " + w) == SplitWs(w)
  {
    var s := " " + w;
    assert s[1..] == w;
    LStripOfWordStart(w);
    assert LStrip(s) == w;
  }

  /** `(x + " " + y).split()` of two words is the two words. */
  lemma SplitWsOfTwoWords(x: string, y: string)
    requires IsWord(x) && IsWord(y)
    ensures SplitWs(x + " " + y) == [x, y]
  {
    var tail := " " + y;
    var s := x + tail;
    assert x + " " + y == s;
    assert s[0] == x[0];
    LStripOfWordStart(s);
    WordLenOfWord(x, tail);
    assert s[..|x|] == x;
    assert s[|x|..] == tail;
    SplitWsOfSpaceWord(y);
    assert SplitWs(s) == [x] + SplitWs(tail);
  }
  /** `(x + " " + y + " " + z).split()` of three words is the three words. */
  lemma SplitWsOfThreeWords(x: string, y: string, z: string)
    requires IsWord(x) && IsWord(y) && IsWord(z)
    ensures SplitWs(x + " " + y + " " + z) == [x, y, z]
  {
    var tail := " " + (y + " " + z);
    var s := x + tail;
    assert x + " " + y + " " + z == s;
    assert s[0] == x[0];
    LStripOfWordStart(s);
    WordLenOfWord(x, tail);
    assert s[..|x|] == x;
    assert s[|x|..] == tail;
    assert SplitWs(s) == [x] + SplitWs(tail);
    assert (y + " " + z)[0] == y[0];
    SplitWsOfSpaced(y + " " + z);
    SplitWsOfTwoWords(y, z);
  }


  /** `s.replace(a, b)` for single characters. */
  function ReplaceChar(s: string, a: char, b: char): (r: string)
    ensures |r| == |s|
    ensures forall i :: 0 <= i < |s| ==> r[i] == (if s[i] == a then b else s[i])
  {
    if s == [] then [] else [if s[0] == a then b else s[0]] + ReplaceChar(s[1..], a, b)
  }

  /** `s.replace(c, '')`. */
  function RemoveChar(s: string, c: char): (r: string)
    ensures c !in r
    ensures |r| <= |s|
  {
    if s == [] then [] else (if s[0] == c then [] else [s[0]]) + RemoveChar(s[1..], c)
  }

  lemma RemoveAbsent(s: string, c: char)
    requires c !in s
    ensures RemoveChar(s, c) == s
  {
    if s != [] {
      RemoveAbsent(s[1..], c);
    }
  }

  /** `sub in s` for strings. */
  predicate Contains(s: string, sub: string)
    decreases |s|
  {
    |sub| <= |s| && (s[..|sub|] == sub || Contains(s[1..], sub))
  }

  /** The value of a non-empty run of ASCII digits. */
  function DecValue(ds: string): (v: nat)
    requires AllDigits(ds)
  {
    if ds == [] then 0 else DecValue(ds[..|ds| - 1]) * 10 + DigitVal(ds[|ds| - 1])
  }

  /** The digit part of a Python integer literal: digits, single underscores only between digits. */
  predicate DigitGroups(t: string) {
    && |t| > 0 && IsDigit(t[0]) && IsDigit(t[|t| - 1])
    && forall i :: 0 <= i < |t| ==> GroupChar(t, i)
  }

  predicate GroupChar(t: string, i: int)
    requires 0 <= i < |t|
  {
    IsDigit(t[i]) || (t[i] == '_' && 0 < i < |t| - 1 && IsDigit(t[i - 1]) && IsDigit(t[i + 1]))
  }

  lemma DigitGroupsRemove(t: string)
    requires DigitGroups(t)
    ensures AllDigits(RemoveChar(t, '_'))
  {
    forall i | 0 <= i < |t| ensures IsDigit(t[i]) || t[i] == '_' {
      assert GroupChar(t, i);
    }
    RemoveDigitsOnly(t);
  }

  lemma RemoveDigitsOnly(t: string)
    requires forall i :: 0 <= i < |t| ==> IsDigit(t[i]) || t[i] == '_'
    ensures AllDigits(RemoveChar(t, '_'))
  {
    if t != [] {
      assert forall i :: 0 <= i < |t[1..]| ==> t[1..][i] == t[i + 1];
      RemoveDigitsOnly(t[1..]);
    }
  }

  function GroupValue(t: string): nat
    requires DigitGroups(t)
  {
    DigitGroupsRemove(t);
    DecValue(RemoveChar(t, '_'))
  }

  /** Python's `int(s)` on a string in base 10 (ASCII digits); None where Python raises ValueError. */
  function PyInt(s: string): (r: Option<int>)
    ensures IsDigitStr(s) ==> r == Some(DecValue(s))
  {
    var t := Strip(s);
    if IsDigitStr(s) then
      assert t == s;
      DigitOnlyGroups(s);
      RemoveAbsent(s, '_');
      Some(DecValue(s))
    else if |t| > 1 && t[0] == '+' && DigitGroups(t[1..]) then Some(GroupValue(t[1..]))
    else if |t| > 1 && t[0] == '-' && DigitGroups(t[1..]) then Some(-(GroupValue(t[1..]) as int))
    else if DigitGroups(t) then Some(GroupValue(t))
    else None
  }

  /** `int("-" + digits)` is the negated value of the digits. */
  lemma PyIntNegative(digits: string)
    requires IsDigitStr(digits)
    ensures PyInt("-" + digits) == Some(-(DecValue(digits) as int))
  {
    MinusText(digits);
    DigitOnlyGroups(digits);
    RemoveAbsent(digits, '_');
    PyIntMinus("-" + digits);
  }

  lemma MinusText(digits: string)
    requires IsDigitStr(digits)
    ensures var t := "-" + digits;
      |t| > 1 && t[0] == '-' && t[1..] == digits && IsStripped(t) && !IsDigitStr(t)
  {
    var t := "-" + digits;
    assert t[1..] == digits;
    assert !IsDigit(t[0]);
    assert t[|t| - 1] == digits[|digits| - 1];
  }

  lemma PyIntMinus(t: string)
    requires |t| > 1 && t[0] == '-' && IsStripped(t) && !IsDigitStr(t) && DigitGroups(t[1..])
    ensures PyInt(t) == Some(-(GroupValue(t[1..]) as int))
  {
    StripOfStripped(t);
  }

  lemma DigitOnlyGroups(s: string)
    requires IsDigitStr(s)
    ensures DigitGroups(s)
  {
  }

  /** `str(n)` for a natural number. */
  function DecimalString(n: nat): (s: string)
    ensures |s| >= 1 && AllDigits(s)
    decreases n
  {
    if n < 10 then [DigitChar(n)] else DecimalString(n / 10) + [DigitChar(n % 10)]
  }

  /** `f"{n:02d}"`: at least two characters, zero-padded, sign first. */
  function Pad2(n: int): (s: string)
    ensures 0 <= n < 100 ==> |s| == 2 && AllDigits(s) && DecValue(s) == n
  {
    if n < 0 then "-" + DecimalString(-n)
    else if n < 100 then (
      var s := [DigitChar(n / 10), DigitChar(n % 10)];
      DecValueOfTwo(s);
      s)
    else DecimalString(n)
  }

  /** Four-digit zero-padded year, as `strftime('%Y')` prints years 1..9999 on most platforms. */
  function Pad4(n: int): (s: string)
    requires 0 <= n < 10000
    ensures |s| == 4 && AllDigits(s) && DecValue(s) == n
  {
    var s := [DigitChar(n / 1000), DigitChar(n / 100 % 10), DigitChar(n / 10 % 10), DigitChar(n % 10)];
    DecValueOfFour(s);
    FourDigitSplit(n);
    s
  }

  lemma FourDigitSplit(n: int)
    requires 0 <= n < 10000
    ensures n / 1000 * 1000 + n / 100 % 10 * 100 + n / 10 % 10 * 10 + n % 10 == n
  {
    var q1, q2 := n / 10, n / 100;
    assert n == q1 * 10 + n % 10;
    assert q1 / 10 == q2;
    assert q1 == q2 * 10 + q1 % 10;
    assert q2 / 10 == n / 1000;
    assert q2 == n / 1000 * 10 + q2 % 10;
  }

  lemma DecValueOfTwo(s: string)
    requires |s| == 2 && AllDigits(s)
    ensures DecValue(s) == DigitVal(s[0]) * 10 + DigitVal(s[1])
  {
    assert s[..1][..0] == [];
    assert DecValue(s[..1]) == DigitVal(s[0]);
  }

  lemma DecValueOfFour(s: string)
    requires |s| == 4 && AllDigits(s)
    ensures DecValue(s) == DigitVal(s[0]) * 1000 + DigitVal(s[1]) * 100 + DigitVal(s[2]) * 10 + DigitVal(s[3])
  {
    var p := s[..3];
    assert p[..2] == s[..2];
    DecValueOfTwo(s[..2]);
    assert DecValue(p) == DecValue(s[..2]) * 10 + DigitVal(s[2]);
  }

  lemma Pad2OfDigits(s: string)
    requires |s| == 2 && AllDigits(s)
    ensures Pad2(DecValue(s)) == s
  {
    DecValueOfTwo(s);
  }

  lemma FourDigitArith(a: int, b: int, c: int, d: int)
    requires 0 <= a < 10 && 0 <= b < 10 && 0 <= c < 10 && 0 <= d < 10
    ensures (a * 1000 + b * 100 + c * 10 + d) / 1000 == a
    ensures (a * 1000 + b * 100 + c * 10 + d) / 100 % 10 == b
    ensures (a * 1000 + b * 100 + c * 10 + d) / 10 % 10 == c
    ensures (a * 1000 + b * 100 + c * 10 + d) % 10 == d
  {
    var v := a * 1000 + b * 100 + c * 10 + d;
    assert v / 100 == a * 10 + b;
    assert v / 10 == a * 100 + b * 10 + c;
  }

  lemma Pad4OfDigits(s: string)
    requires |s| == 4 && AllDigits(s)
    ensures DecValue(s) < 10000
    ensures Pad4(DecValue(s)) == s
  {
    DecValueOfFour(s);
    FourDigitArith(DigitVal(s[0]), DigitVal(s[1]), DigitVal(s[2]), DigitVal(s[3]));
    var p := Pad4(DecValue(s));
    assert p[0] == s[0] && p[1] == s[1] && p[2] == s[2] && p[3] == s[3];
  }

  /** `int(str(n)) == n`: decimal text reads back as its number. */
  lemma {:induction false} DecValueOfDecimal(n: nat)
    ensures DecValue(DecimalString(n)) == n
    decreases n
  {
    var s := DecimalString(n);
    if n < 10 {
      assert s[..0] == [];
    } else {
      DecValueOfDecimal(n / 10);
      assert s[..|s| - 1] == DecimalString(n / 10);
    }
  }

  /** `f"{n:02d}"` of a non-negative number is digits only and reads back as `n`. */
  lemma Pad2Digits(n: int)
    requires n >= 0
    ensures IsDigitStr(Pad2(n)) && DecValue(Pad2(n)) == n && PyInt(Pad2(n)) == Some(n)
  {
    if n >= 100 {
      DecValueOfDecimal(n);
    }
  }

  /** `str.find` returns the first occurrence. */
  lemma {:induction false} FindAt(s: string, c: char, i: nat)
    requires i < |s| && s[i] == c && c !in s[..i]
    ensures Find(s, c) == i
    decreases |s|
  {
    if i > 0 {
      assert s[0] == s[..i][0];
      assert s[1..][i - 1] == c;
      assert s[1..][..i - 1] == s[..i][1..];
      FindAt(s[1..], c, i - 1);
    }
  }

  /** Splitting `u + [sep] + v`, with the separator in neither part, gives the two parts. */
  lemma SplitTwo(u: string, v: string, sep: char)
    requires sep !in u && sep !in v
    ensures Split(u + [sep] + v, sep) == [u, v]
  {
    var s := u + [sep] + v;
    assert s[..|u|] == u;
    assert s[|u| + 1..] == v;
    FindAt(s, sep, |u|);
    assert Find(v, sep) == -1;
  }

  /** `u + [sep] + v` splits once at the separator when `u` does not hold it. */
  lemma SplitOnceTwo(u: string, v: string, sep: char)
    requires sep !in u
    ensures SplitOnce(u + [sep] + v, sep) == [u, v]
  {
    var s := u + [sep] + v;
    assert s[..|u|] == u;
    assert s[|u| + 1..] == v;
    FindAt(s, sep, |u|);
  }

  /** A character in neither part and not the separator is not in the joined text. */
  lemma AbsentFromJoin(u: string, v: string, sep: char, c: char)
    requires c !in u && c !in v && c != sep
    ensures c !in u + [sep] + v
  {
    var s := u + [sep] + v;
    forall i | 0 <= i < |s| ensures s[i] != c {
      if i < |u| { assert s[i] == u[i]; } else if i > |u| { assert s[i] == v[i - |u| - 1]; }
    }
  }

  /** Every character of `s.strip()` occurs in `s`. */
  lemma StripChars(s: string, c: char)
    requires c in Strip(s)
    ensures c in s
  {
    var t := LStrip(s);
    LStripIsSuffix(s);
    RStripIsPrefix(t);
    var k :| 0 <= k < |Strip(s)| && Strip(s)[k] == c;
    assert Strip(s)[k] == t[k];
    assert t[k] == s[|s| - |t| + k];
  }

  /** Every character of a piece of `s.split(sep)` occurs in `s`. */
  lemma {:induction false} SplitChars(s: string, sep: char, k: int, c: char)
    requires 0 <= k < |Split(s, sep)| && c in Split(s, sep)[k]
    ensures c in s
    decreases |s|
  {
    var i := Find(s, sep);
    if i >= 0 {
      var rest := Split(s[i + 1..], sep);
      assert Split(s, sep) == [s[..i]] + rest;
      if k > 0 {
        assert Split(s, sep)[k] == rest[k - 1];
        SplitChars(s[i + 1..], sep, k - 1, c);
        InSuffix(s, i + 1, c);
      } else {
        InPrefix(s, i, c);
      }
    }
  }

  lemma InSuffix(s: string, i: int, c: char)
    requires 0 <= i <= |s| && c in s[i..]
    ensures c in s
  {
    var j :| 0 <= j < |s[i..]| && s[i..][j] == c;
    assert s[i + j] == c;
  }

  lemma InPrefix(s: string, i: int, c: char)
    requires 0 <= i <= |s| && c in s[..i]
    ensures c in s
  {
    var j :| 0 <= j < |s[..i]| && s[..i][j] == c;
    assert s[j] == c;
  }

  // ---------------- Code-point order on strings, as Python compares str ----------------

  /** `a < b` on Python strings: lexicographic by code point, a proper prefix first. */
  predicate StrLt(a: string, b: string)
    decreases |a|
  {
    if |a| == 0 then |b| > 0
    else if |b| == 0 then false
    else if a[0] == b[0] then StrLt(a[1..], b[1..])
    else a[0] < b[0]
  }

  predicate StrLe(a: string, b: string) {
    a == b || StrLt(a, b)
  }

  lemma {:induction false} StrLtIrreflexive(a: string)
    ensures !StrLt(a, a)
    decreases |a|
  {
    if |a| > 0 {
      StrLtIrreflexive(a[1..]);
    }
  }

  lemma {:induction false} StrLtTransitive(a: string, b: string, c: string)
    requires StrLt(a, b) && StrLt(b, c)
    ensures StrLt(a, c)
    decreases |a|
  {
    if |a| > 0 && |b| > 0 && |c| > 0 && a[0] == b[0] && b[0] == c[0] {
      StrLtTransitive(a[1..], b[1..], c[1..]);
    }
  }

  lemma {:induction false} StrLtTotal(a: string, b: string)
    ensures a == b || StrLt(a, b) || StrLt(b, a)
    decreases |a|
  {
    if |a| > 0 && |b| > 0 && a[0] == b[0] {
      StrLtTotal(a[1..], b[1..]);
      if a[1..] == b[1..] {
        assert a == [a[0]] + a[1..] && b == [b[0]] + b[1..];
      }
    }
  }

  lemma StrLtAsymmetric(a: string, b: string)
    requires StrLt(a, b)
    ensures !StrLt(b, a) && a != b
  {
    if StrLt(b, a) {
      StrLtTransitive(a, b, a);
      StrLtIrreflexive(a);
    }
    if a == b {
      StrLtIrreflexive(a);
    }
  }
}
