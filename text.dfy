/** The pieces of Python's string and text-file behaviour the program relies
    on: `str()` and `int()` on integers, `str.strip()`, `sep.join`,
    `str.split`, `startswith`/`endswith`, and how a text file is written with
    `write(line + "\n")` and read back line by line. */
module Text {
  import opened Results

  // ---------------------------------------------------------------------------
  // str.strip()

  /** Python's `str.isspace()` for a single code point. */
  predicate IsSpace(c: char)
  {
    || c == ' ' || ('\t' <= c <= '\r')             // \t \n \x0b \x0c \r
    || ('\U{1c}' <= c <= '\U{1f}')                 // file, group, record and unit separators
    || c == '\U{85}' || c == '\U{a0}' || c == '\U{1680}'
    || ('\U{2000}' <= c <= '\U{200a}')
    || c == '\U{2028}' || c == '\U{2029}' || c == '\U{202f}' || c == '\U{205f}' || c == '\U{3000}'
  }

  /** Neither the first nor the last character is white space. */
  predicate Trimmed(s: string)
  {
    s == [] || (!IsSpace(s[0]) && !IsSpace(s[|s| - 1]))
  }

  function StripLeft(s: string): (r: string)
    ensures r == [] || !IsSpace(r[0])
    ensures |r| <= |s| && r == s[|s| - |r|..]
  {
    if s != [] && IsSpace(s[0]) then StripLeft(s[1..]) else s
  }

  function StripRight(s: string): (r: string)
    ensures r == [] || !IsSpace(r[|r| - 1])
    ensures |r| <= |s| && r == s[..|r|]
  {
    if s != [] && IsSpace(s[|s| - 1]) then StripRight(s[..|s| - 1]) else s
  }

  /** `s.strip()`: white space removed from both ends. */
  function Strip(s: string): (r: string)
    ensures Trimmed(r)
    ensures |r| <= |s|
  {
    StripRight(StripLeft(s))
  }

  /** Text without white space at its ends is left as it is. */
  lemma StripTrimmed(s: string)
    requires Trimmed(s)
    ensures Strip(s) == s
  {
  }

  /** Stripping twice is stripping once. */
  lemma StripIdempotent(s: string)
    ensures Strip(Strip(s)) == Strip(s)
  {
    StripTrimmed(Strip(s));
  }

  /** The newline a line is read back with is stripped off again. */
  lemma StripNewline(s: string)
    requires s != [] && Trimmed(s)
    ensures Strip(s + "\n") == s
  {
    var t := s + "\n";
    assert StripLeft(t) == t;
    assert t[..|t| - 1] == s;
    assert StripRight(t) == StripRight(s);
  }

  /** Stripping keeps a leading part that starts and ends with a
      non-space character, whatever follows it. */
  lemma StripKeepsPrefix(a: string, b: string)
    requires a != [] && Trimmed(a)
    ensures |a| <= |Strip(a + b)| && Strip(a + b)[..|a|] == a
  {
    assert (a + b)[0] == a[0];
    assert StripLeft(a + b) == a + b;
    StripRightKeepsPrefix(a, b);
  }

  lemma {:induction false} StripRightKeepsPrefix(a: string, b: string)
    requires a != [] && !IsSpace(a[|a| - 1])
    ensures |a| <= |StripRight(a + b)| && StripRight(a + b)[..|a|] == a
    decreases |b|
  {
    var s := a + b;
    if b == [] {
      assert s == a;
    } else if IsSpace(s[|s| - 1]) {
      assert s[..|s| - 1] == a + b[..|b| - 1];
      StripRightKeepsPrefix(a, b[..|b| - 1]);
    } else {
      assert s[..|a|] == a;
    }
  }

  // ---------------------------------------------------------------------------
  // str(n) and int(s)

  predicate IsDigit(c: char) { '0' <= c <= '9' }

  predicate AllDigits(s: string)
  {
    forall i :: 0 <= i < |s| ==> IsDigit(s[i])
  }

  function DigitChar(d: nat): (c: char)
    requires d < 10
    ensures IsDigit(c) && c as int - '0' as int == d
  {
    ('0' as int + d) as char
  }

  /** The value of a string of decimal digits, read most significant first. */
  function DigitsValue(s: string): nat
    requires AllDigits(s)
  {
    if s == [] then 0
    else DigitsValue(s[..|s| - 1]) * 10 + (s[|s| - 1] as int - '0' as int)
  }

  /** `str(n)` for `n >= 0`: decimal digits, no leading zero, reading back as `n`. */
  function NatToString(n: nat): (s: string)
    ensures |s| >= 1 && AllDigits(s)
    ensures s[0] == '0' ==> n == 0
    ensures DigitsValue(s) == n
  {
    if n < 10 then [DigitChar(n)]
    else
      var p := NatToString(n / 10);
      var s := p + [DigitChar(n % 10)];
      assert s[..|s| - 1] == p;
      s
  }

  /** `str(i)` for any integer. */
  function IntToString(i: int): (s: string)
    ensures s != [] && Trimmed(s)
    ensures ',' !in s && '\n' !in s
  {
    if i < 0 then Negated(NatToString(-i)) else NatToString(i)
  }

  /** A minus sign before a string of digits. */
  function Negated(digits: string): (s: string)
    requires digits != [] && AllDigits(digits)
    ensures s != [] && Trimmed(s)
    ensures ',' !in s && '\n' !in s
    ensures s[1..] == digits && s[0] == '-'
  {
    assert forall k :: 0 <= k < |digits| ==> digits[k] != ',' && digits[k] != '\n';
    "-" + digits
  }

  /** `int(s)`: surrounding white space is ignored, then an optional sign
      and at least one decimal digit; anything else raises ValueError. */
  function ParseInt(s: string): Option<int>
  {
    ParseSigned(Strip(s))
  }

  /** An optional sign followed by at least one decimal digit. */
  function ParseSigned(t: string): Option<int>
  {
    if t == [] then None
    else if t[0] == '-' || t[0] == '+' then
      if |t| > 1 && AllDigits(t[1..]) then
        var magnitude: int := DigitsValue(t[1..]);
        Some(if t[0] == '-' then -magnitude else magnitude)
      else None
    else if AllDigits(t) then Some(DigitsValue(t))
    else None
  }

  /** `int(str(i)) == i`. */
  lemma ParseIntToString(i: int)
    ensures ParseInt(IntToString(i)) == Some(i)
  {
    if i < 0 { ParseNegativeToString(i); } else { ParseNatToString(i); }
  }

  lemma ParseNatToString(i: int)
    requires i >= 0
    ensures ParseInt(IntToString(i)) == Some(i)
  {
    var digits := NatToString(i);
    assert IntToString(i) == digits;
    StripTrimmed(digits);
    ParseDigits(digits);
  }

  lemma ParseNegativeToString(i: int)
    requires i < 0
    ensures ParseInt(IntToString(i)) == Some(i)
  {
    var digits := NatToString(-i);
    var s := IntToString(i);
    assert s == Negated(digits);
    StripTrimmed(s);
    ParseNegative(digits);
    assert DigitsValue(digits) == -i;
  }

  lemma ParseDigits(digits: string)
    requires digits != [] && AllDigits(digits)
    ensures ParseSigned(digits) == Some(DigitsValue(digits))
  {
    assert IsDigit(digits[0]);
  }

  lemma ParseNegative(digits: string)
    requires digits != [] && AllDigits(digits)
    ensures ParseSigned(Negated(digits)) == Some(-(DigitsValue(digits) as int))
  {
    var t := Negated(digits);
    assert t[0] == '-' && |t| > 1 && t[1..] == digits;
  }

  /** `int` already strips, so stripping first changes nothing. */
  lemma ParseIntStrip(s: string)
    ensures ParseInt(Strip(s)) == ParseInt(s)
  {
    StripIdempotent(s);
  }

  /** `str` never maps two integers to the same text. */
  lemma IntToStringInjective(a: int, b: int)
    requires IntToString(a) == IntToString(b)
    ensures a == b
  {
    ParseIntToString(a);
    ParseIntToString(b);
  }

  // ---------------------------------------------------------------------------
  // join, split, prefixes and suffixes

  /** The index of the first `c` in `s`, or `|s|` when there is none. */
  function IndexOf(s: string, c: char): (k: nat)
    ensures k <= |s|
    ensures k < |s| ==> s[k] == c
    ensures forall i :: 0 <= i < k ==> s[i] != c
  {
    if s == [] then 0
    else if s[0] == c then 0
    else 1 + IndexOf(s[1..], c)
  }

  /** `sep.join(parts)` for a one-character separator. */
  function Join(sep: char, parts: seq<string>): string
  {
    if parts == [] then ""
    else if |parts| == 1 then parts[0]
    else parts[0] + [sep] + Join(sep, parts[1..])
  }

  /** Joining cannot introduce a character other than the separator. */
  lemma {:induction false} JoinExcludes(sep: char, parts: seq<string>, c: char)
    requires c != sep
    requires forall i :: 0 <= i < |parts| ==> c !in parts[i]
    ensures c !in Join(sep, parts)
  {
    if |parts| > 1 {
      JoinExcludes(sep, parts[1..], c);
    }
  }

  /** `s.split(sep)`: the pieces between separators; one piece when there is none. */
  function Split(s: string, sep: char): (r: seq<string>)
    ensures |r| >= 1
    decreases |s|
  {
    var k := IndexOf(s, sep);
    if k == |s| then [s] else [s[..k]] + Split(s[k + 1..], sep)
  }

  /** Joining and splitting again gives back the parts, as long as there is
      at least one part and none contains the separator. */
  lemma {:induction false} SplitJoin(sep: char, parts: seq<string>)
    requires parts != []
    requires forall i :: 0 <= i < |parts| ==> sep !in parts[i]
    ensures Split(Join(sep, parts), sep) == parts
  {
    if |parts| == 1 {
      assert IndexOf(parts[0], sep) == |parts[0]|;
    } else {
      var s := Join(sep, parts);
      var rest := Join(sep, parts[1..]);
      assert s == parts[0] + [sep] + rest;
      assert IndexOf(s, sep) == |parts[0]| by {
        IndexOfAfter(parts[0], sep, rest);
      }
      assert s[..|parts[0]|] == parts[0];
      assert s[|parts[0]| + 1..] == rest;
      SplitJoin(sep, parts[1..]);
      assert parts == [parts[0]] + parts[1..];
    }
  }

  /** The first separator of `a + [sep] + b` is the one after `a`. */
  lemma {:induction false} IndexOfAfter(a: string, sep: char, b: string)
    requires sep !in a
    ensures IndexOf(a + [sep] + b, sep) == |a|
  {
    if a != [] {
      assert (a + [sep] + b)[1..] == a[1..] + [sep] + b;
      IndexOfAfter(a[1..], sep, b);
    }
  }

  /** `prefix, rest = s.split(sep, 1)`: `None` where Python fails to unpack. */
  function SplitOnce(s: string, sep: char): Option<(string, string)>
  {
    var k := IndexOf(s, sep);
    if k == |s| then None else Some((s[..k], s[k + 1..]))
  }

  /** The text before the first separator is recovered exactly. */
  lemma SplitOnceJoin(a: string, sep: char, b: string)
    requires sep !in a
    ensures SplitOnce(a + [sep] + b, sep) == Some((a, b))
  {
    IndexOfAfter(a, sep, b);
    var s := a + [sep] + b;
    assert s[..|a|] == a && s[|a| + 1..] == b;
  }

  /** A string with no separator cannot be split once. */
  lemma SplitOnceNoSeparator(s: string, sep: char)
    requires sep !in s
    ensures SplitOnce(s, sep) == None
  {
  }

  predicate StartsWith(s: string, p: string)
  {
    |p| <= |s| && s[..|p|] == p
  }

  predicate EndsWith(s: string, p: string)
  {
    |p| <= |s| && s[|s| - |p|..] == p
  }

  // ---------------------------------------------------------------------------
  // text files

  /** The file text produced by `f.write(line + "\n")` for each line in turn. */
  function WriteLines(lines: seq<string>): string
  {
    if lines == [] then ""
    else lines[0] + "\n" + WriteLines(lines[1..])
  }

  /** Iterating over a text file: each line keeps its terminating newline;
      a final line without one is returned as it is. */
  function Lines(text: string): seq<string>
    decreases |text|
  {
    if text == [] then []
    else
      var k := IndexOf(text, '\n');
      if k == |text| then [text] else [text[..k + 1]] + Lines(text[k + 1..])
  }

  /** Each line with its newline. */
  function Terminated(lines: seq<string>): (r: seq<string>)
    ensures |r| == |lines|
    ensures forall i :: 0 <= i < |lines| ==> r[i] == lines[i] + "\n"
  {
    seq(|lines|, i requires 0 <= i < |lines| => lines[i] + "\n")
  }

  /** Reading a written file gives back the written lines, each with its
      newline, as long as no line itself contains a newline. */
  lemma {:induction false} LinesOfWritten(lines: seq<string>)
    requires forall i :: 0 <= i < |lines| ==> '\n' !in lines[i]
    ensures Lines(WriteLines(lines)) == Terminated(lines)
  {
    if lines != [] {
      var text := WriteLines(lines);
      var rest := WriteLines(lines[1..]);
      assert text == lines[0] + ['\n'] + rest;
      IndexOfAfter(lines[0], '\n', rest);
      assert text[..|lines[0]| + 1] == lines[0] + "\n";
      assert text[|lines[0]| + 1..] == rest;
      LinesOfWritten(lines[1..]);
    }
  }
}
