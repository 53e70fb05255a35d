/** The decimal numbers and text lines of a footer, as Python reads and writes them. */
module FooterText {
  import opened Common

  predicate IsDigit(c: char) { '0' <= c <= '9' }

  function Digit(n: nat): char
    requires n < 10
  {
    '0' + n as char
  }

  function ValueOf(c: char): nat
    requires IsDigit(c)
  {
    c as int - '0' as int
  }

  function Print(n: nat): (s: string)
    ensures |s| > 0 && forall c <- s :: IsDigit(c)
  {
    if n < 10 then [Digit(n)] else Print(n / 10) + [Digit(n % 10)]
  }

  /** Digits with single underscores between them; `value` is what was read so far. */
  function Digits(s: string, value: nat): Option<nat> {
    if s == [] then None
    else if !IsDigit(s[0]) then None
    else
      var next := value * 10 + ValueOf(s[0]);
      if |s| == 1 then Some(next)
      else if s[1] == '_' then Digits(s[2..], next)
      else Digits(s[1..], next)
  }

  predicate IsSpace(c: char) { c == ' ' || '\t' <= c <= '\r' || 0x1c <= c as int <= 0x1f }

  function StripLeft(s: string): string {
    if s != [] && IsSpace(s[0]) then StripLeft(s[1..]) else s
  }

  function StripRight(s: string): string {
    if s != [] && IsSpace(s[|s| - 1]) then StripRight(s[..|s| - 1]) else s
  }

  /** A decimal integer with the spaces, the sign and the underscores that may go with it. */
  function Parse(s: string): Option<int> {
    var t := StripLeft(StripRight(s));
    if t != [] && t[0] == '-' then
      var n := Digits(t[1..], 0);
      if n.None? then None
      else
        var size: int := n.value;
        Some(-size)
    else
      var n := Digits(if t != [] && t[0] == '+' then t[1..] else t, 0);
      if n.None? then None else Some(n.value)
  }

  lemma {:induction false} DigitsAppend(s: string, value: nat, d: nat)
    requires d < 10 && s != [] && forall c <- s :: IsDigit(c)
    ensures Digits(s, value).Some?
    ensures Digits(s + [Digit(d)], value) == Some(Digits(s, value).value * 10 + d)
    decreases |s|
  {
    var longer := s + [Digit(d)];
    assert s[0] in s;
    var next := value * 10 + ValueOf(s[0]);
    if |s| == 1 {
      assert longer[1..] == [Digit(d)];
      assert Digits([Digit(d)], next) == Some(next * 10 + d);
    } else {
      assert s[1] in s && s[1] != '_' && longer[1] == s[1];
      assert longer[1..] == s[1..] + [Digit(d)];
      DigitsAppend(s[1..], next, d);
    }
  }

  lemma {:induction false} DigitsOfPrint(n: nat)
    ensures Digits(Print(n), 0) == Some(n)
  {
    if n < 10 {
      assert Digits([Digit(n)], 0) == Some(n);
    } else {
      DigitsOfPrint(n / 10);
      DigitsAppend(Print(n / 10), 0, n % 10);
    }
  }

  /** Digits from end to end, with no underscore but between two of them. */
  predicate Grouped(s: string) {
    && s != [] && IsDigit(s[0]) && IsDigit(s[|s| - 1])
    && forall i | 0 <= i < |s| - 1 :: IsDigit(s[i]) || (s[i] == '_' && IsDigit(s[i + 1]))
  }

  /** These are the digit strings that are read, and no others. */
  lemma {:induction false} DigitsExactly(s: string, value: nat)
    ensures Digits(s, value).Some? <==> Grouped(s)
    decreases |s|
  {
    if |s| > 1 && IsDigit(s[0]) {
      var next := value * 10 + ValueOf(s[0]);
      if s[1] == '_' {
        DigitsExactly(s[2..], next);
        assert forall i | 2 <= i < |s| :: s[i] == s[2..][i - 2];
      } else {
        DigitsExactly(s[1..], next);
        assert forall i | 1 <= i < |s| :: s[i] == s[1..][i - 1];
      }
    }
  }

  predicate Blank(s: string) { forall c <- s :: IsSpace(c) }

  lemma {:induction false} StripsLeft(left: string, s: string)
    requires Blank(left) && s != [] && !IsSpace(s[0])
    ensures StripLeft(left + s) == s
  {
    if left != [] {
      assert left[0] in left && (left + s)[1..] == left[1..] + s;
      StripsLeft(left[1..], s);
    } else {
      assert left + s == s;
    }
  }

  lemma {:induction false} StripsRight(s: string, right: string)
    requires Blank(right) && s != [] && !IsSpace(s[|s| - 1])
    ensures StripRight(s + right) == s
  {
    if right != [] {
      var n := |right| - 1;
      assert right[n] in right && (s + right)[..|s| + n] == s + right[..n];
      StripsRight(s, right[..n]);
    } else {
      assert s + right == s;
    }
  }

  lemma {:induction false} LeadingZeros(zeros: nat, s: string)
    requires s != [] && IsDigit(s[0])
    ensures Digits(seq(zeros, _ => '0') + s, 0) == Digits(s, 0)
  {
    var front := seq(zeros, _ => '0');
    if zeros > 0 {
      assert (front + s)[1..] == seq(zeros - 1, _ => '0') + s && (front + s)[1] != '_';
      LeadingZeros(zeros - 1, s);
    } else {
      assert front + s == s;
    }
  }

  /** Blanks around a number do not matter. */
  lemma ParseStrips(left: string, s: string, right: string)
    requires Blank(left) && Blank(right) && s != [] && !IsSpace(s[0]) && !IsSpace(s[|s| - 1])
    ensures Parse(left + s + right) == Parse(s)
  {
    var whole := left + s;
    assert whole[|whole| - 1] == s[|s| - 1];
    StripsRight(whole, right);
    StripsLeft(left, s);
    NothingToStrip(s);
    hide Digits, IsSpace, StripLeft, StripRight;
  }

  lemma NothingToStrip(s: string)
    requires s != [] && !IsSpace(s[0]) && !IsSpace(s[|s| - 1])
    ensures StripLeft(StripRight(s)) == s
  {
  }

  /** What is printed reads back. */
  lemma ParseOfPrint(n: nat)
    ensures Parse(Print(n)) == Some(n)
  {
    var s := Print(n);
    assert s[0] in s && s[|s| - 1] in s;
    DigitsOfPrint(n);
  }

  /** So does the number with blanks around it, a sign before it, and zeros before its digits. */
  lemma ParseOfSpelling(left: string, sign: string, zeros: nat, n: nat, right: string)
    requires Blank(left) && Blank(right) && sign in {"", "+", "-"}
    ensures var size: int := if sign == "-" then -(n as int) else n;
            Parse(left + (sign + (seq(zeros, _ => '0') + Print(n))) + right) == Some(size)
  {
    var digits, last := seq(zeros, _ => '0') + Print(n), |Print(n)| - 1;
    assert Print(n)[0] in Print(n) && Print(n)[last] in Print(n);
    assert digits[|digits| - 1] == Print(n)[last] && IsDigit(digits[0]);
    DigitsOfPrint(n);
    LeadingZeros(zeros, Print(n));
    ParseSigned(sign, digits, n);
    ParseStrips(left, sign + digits, right);
  }

  lemma ParseSigned(sign: string, digits: string, n: nat)
    requires sign in {"", "+", "-"} && Digits(digits, 0) == Some(n)
    requires digits != [] && IsDigit(digits[0]) && IsDigit(digits[|digits| - 1])
    ensures var size: int := if sign == "-" then -(n as int) else n; Parse(sign + digits) == Some(size)
  {
    hide Digits, StripLeft, StripRight;
    var s := sign + digits;
    assert s[|s| - 1] == digits[|digits| - 1];
    NothingToStrip(s);
    hide IsSpace;
    if sign == "" {
      assert s == digits;
    } else {
      assert s[0] == sign[0] && s[1..] == digits;
    }
  }

  lemma {:induction false} PrintIsShort(n: nat, k: nat)
    requires k > 0 && n < Pow10(k)
    ensures |Print(n)| <= k
  {
    if n >= 10 {
      PrintIsShort(n / 10, k - 1);
    }
  }

  function Pow10(k: nat): nat { if k == 0 then 1 else 10 * Pow10(k - 1) }

  /* Lines. */

  predicate IsBreak(c: char) { '\n' <= c <= '\r' || 0x1c <= c as int <= 0x1e }

  /** Lines ended by any line break, a carriage return with its line feed counting as one. */
  function Lines(s: string): seq<string> {
    Split(s, 0)
  }

  function Split(s: string, n: nat): seq<string>
    requires n <= |s|
    decreases |s| - n, |s|
  {
    if n == |s| then if s == [] then [] else [s]
    else if s[n] == '\r' && n + 1 < |s| && s[n + 1] == '\n' then [s[..n]] + Split(s[n + 2..], 0)
    else if IsBreak(s[n]) then [s[..n]] + Split(s[n + 1..], 0)
    else Split(s, n + 1)
  }

  lemma {:induction false} SplitAt(line: string, rest: string, n: nat)
    requires n <= |line| && forall c <- line :: !IsBreak(c)
    ensures Split(line + "\n" + rest, n) == [line] + Lines(rest)
    decreases |line| - n
  {
    var s := line + "\n" + rest;
    if n == |line| {
      assert s[n] == '\n' && s[..n] == line && s[n + 1..] == rest;
    } else {
      assert s[n] == line[n] && line[n] in line;
      SplitAt(line, rest, n + 1);
    }
  }

  /** A text of lines joined by line feeds comes apart into those lines. */
  function Joined(lines: seq<string>): string {
    if lines == [] then "" else lines[0] + "\n" + Joined(lines[1..])
  }

  lemma {:induction false} LinesOfJoined(lines: seq<string>)
    requires forall l <- lines, c <- l :: !IsBreak(c)
    ensures Lines(Joined(lines)) == lines
  {
    if lines != [] {
      assert lines[0] in lines && forall l <- lines[1..] :: l in lines;
      LinesOfJoined(lines[1..]);
      SplitAt(lines[0], Joined(lines[1..]), 0);
    }
  }

  /** The white space of Python among the ASCII characters, and its line breaks. */
  lemma SpacesExactly(c: char)
    ensures IsSpace(c) <==> (c as int) in {0x09, 0x0a, 0x0b, 0x0c, 0x0d, 0x1c, 0x1d, 0x1e, 0x1f, 0x20}
    ensures IsBreak(c) <==> (c as int) in {0x0a, 0x0b, 0x0c, 0x0d, 0x1c, 0x1d, 0x1e}
  {
  }

  lemma {:induction false} StrippedRight(s: string) returns (right: string)
    ensures s == StripRight(s) + right && Blank(right)
    ensures StripRight(s) != [] ==> !IsSpace(StripRight(s)[|StripRight(s)| - 1])
  {
    right := [];
    if s != [] && IsSpace(s[|s| - 1]) {
      var shorter := StrippedRight(s[..|s| - 1]);
      right := shorter + [s[|s| - 1]];
    }
  }

  lemma {:induction false} StrippedLeft(s: string) returns (left: string)
    ensures s == left + StripLeft(s) && Blank(left)
    ensures StripLeft(s) != [] ==> !IsSpace(StripLeft(s)[0])
  {
    left := [];
    if s != [] && IsSpace(s[0]) {
      var shorter := StrippedLeft(s[1..]);
      left := [s[0]] + shorter;
    }
  }

  /** A number as it may be spelled: blanks around it, a sign, and grouped digits. */
  ghost predicate Spelled(s: string, left: string, sign: string, digits: string, right: string) {
    s == left + (sign + digits) + right && Blank(left) && Blank(right) && sign in {"", "+", "-"} && Grouped(digits)
  }

  /** These are the numbers that are read, with the value of their digits. */
  lemma ParseOfSpelled(s: string, left: string, sign: string, digits: string, right: string)
    requires Spelled(s, left, sign, digits, right)
    ensures Digits(digits, 0).Some?
    ensures var size: int := if sign == "-" then -(Digits(digits, 0).value as int) else Digits(digits, 0).value;
            Parse(s) == Some(size)
  {
    DigitsExactly(digits, 0);
    ParseSigned(sign, digits, Digits(digits, 0).value);
    var middle := sign + digits;
    assert middle[|middle| - 1] == digits[|digits| - 1];
    ParseStrips(left, middle, right);
  }

  lemma ParseExactly(s: string)
    ensures Parse(s).Some? <==> exists left, sign, digits, right :: Spelled(s, left, sign, digits, right)
  {
    if Parse(s).Some? {
      var right := StrippedRight(s);
      var left := StrippedLeft(StripRight(s));
      var t := StripLeft(StripRight(s));
      hide StripLeft, StripRight, IsSpace, Grouped, Digits;
      var sign := if t != [] && t[0] == '-' then "-" else if t != [] && t[0] == '+' then "+" else "";
      var digits := t[|sign|..];
      assert t == sign + digits;
      DigitsExactly(digits, 0);
      assert s == left + (sign + digits) + right;
      assert Spelled(s, left, sign, digits, right);
    }
    if left, sign, digits, right :| Spelled(s, left, sign, digits, right) {
      ParseOfSpelled(s, left, sign, digits, right);
    }
  }

  /** One digit more, with or without an underscore before it; digits are grouped ones by DigitsExactly. */
  lemma {:induction false} DigitsRules(s: string, value: nat, d: nat)
    requires d < 10
    ensures Digits([Digit(d)], value) == Some(value * 10 + d)
    ensures Digits(s, value).Some? ==>
              && Digits(s + [Digit(d)], value) == Some(Digits(s, value).value * 10 + d)
              && Digits(s + ['_', Digit(d)], value) == Some(Digits(s, value).value * 10 + d)
    decreases |s|
  {
    if Digits(s, value).Some? {
      var next, one, two := value * 10 + ValueOf(s[0]), s + [Digit(d)], s + ['_', Digit(d)];
      if |s| == 1 {
        DigitsRules([], next, d);
        assert one[1..] == [Digit(d)] && two[2..] == [Digit(d)];
      } else {
        var n := if s[1] == '_' then 2 else 1;
        DigitsRules(s[n..], next, d);
        assert one[n..] == s[n..] + [Digit(d)] && two[n..] == s[n..] + ['_', Digit(d)];
      }
    }
  }

  /** A line ends at any line break, and a carriage return takes a line feed along; the last line needs none. */
  lemma {:induction false} LinesRules(line: string, c: char, rest: string, n: nat)
    requires n <= |line| && forall x <- line :: !IsBreak(x)
    ensures Split(line, n) == if line == [] then [] else [line]
    ensures Split(line + "\r\n" + rest, n) == [line] + Lines(rest)
    ensures IsBreak(c) && !(c == '\r' && rest != [] && rest[0] == '\n') ==>
              Split(line + [c] + rest, n) == [line] + Lines(rest)
    decreases |line| - n
  {
    var s, t := line + [c] + rest, line + "\r\n" + rest;
    assert t[|line|] == '\r' && t[|line| + 1] == '\n' && t[..|line|] == line && t[|line| + 2..] == rest;
    assert s[|line|] == c && s[..|line|] == line && s[|line| + 1..] == rest;
    if n < |line| {
      assert s[n] == t[n] == line[n] && line[n] in line;
      LinesRules(line, c, rest, n + 1);
    }
  }

  /* Fields. */

  /** The key and the value of a line with exactly one equals sign. */
  function Field(line: string): Option<(string, string)> {
    var n := Position(line, 0);
    if n == |line| || Position(line, n + 1) < |line| then None else Some((line[..n], line[n + 1..]))
  }

  /** The next equals sign from n on, or the end. */
  function Position(line: string, n: nat): (at: nat)
    requires n <= |line|
    ensures n <= at <= |line| && (at < |line| ==> line[at] == '=') && forall i | n <= i < at :: line[i] != '='
    decreases |line| - n
  {
    if n == |line| || line[n] == '=' then n else Position(line, n + 1)
  }

  function Line(key: string, value: string): string { key + "=" + value }

  lemma FieldOf(key: string, value: string)
    requires '=' !in key && '=' !in value
    ensures Field(Line(key, value)) == Some((key, value))
  {
    var line := Line(key, value);
    var n := Position(line, 0);
    assert line[|key|] == '=' && forall i | 0 <= i < |key| :: line[i] == key[i];
    assert n == |key|;
    assert forall i | n < i < |line| :: line[i] == value[i - n - 1];
    assert line[..n] == key && line[n + 1..] == value;
  }

  lemma FieldExactly(line: string, key: string, value: string)
    ensures Field(line) == Some((key, value)) <==> line == key + "=" + value && '=' !in key && '=' !in value
  {
    if line == key + "=" + value && '=' !in key && '=' !in value {
      FieldOf(key, value);
    }
    if Field(line) == Some((key, value)) {
      var n := Position(line, 0);
      assert line == line[..n] + "=" + line[n + 1..];
      assert forall i | n < i < |line| :: line[i] == line[n + 1..][i - n - 1];
    }
  }

  /** All fields, each key once. */
  function Fields(lines: seq<string>): Option<map<string, string>> {
    if lines == [] then Some(map[])
    else
      var before, field := Fields(lines[..|lines| - 1]), Field(lines[|lines| - 1]);
      if before.None? || field.None? || field.value.0 in before.value then None
      else Some(before.value[field.value.0 := field.value.1])
  }

  /** Every line is a field, and no two have the same key. */
  predicate FieldsApart(lines: seq<string>) {
    && (forall l <- lines :: Field(l).Some?)
    && (forall i, j | 0 <= i < j < |lines| :: Field(lines[i]).value.0 != Field(lines[j]).value.0)
  }

  /** The map of these fields: the keys of the lines, each with the value of its line. */
  ghost predicate MapOf(lines: seq<string>, m: map<string, string>)
    requires FieldsApart(lines)
  {
    && (forall key <- m :: exists i :: 0 <= i < |lines| && Field(lines[i]).value.0 == key)
    && (forall l <- lines :: Field(l).value.0 in m && m[Field(l).value.0] == Field(l).value.1)
  }

  /** There are fields exactly if every line is one and no key comes twice, and then they are those of the lines. */
  lemma {:induction false} FieldsExactly(lines: seq<string>)
    ensures Fields(lines).Some? <==> FieldsApart(lines)
    ensures Fields(lines).Some? ==> MapOf(lines, Fields(lines).value)
  {
    hide Field;
    if lines != [] {
      var before, last := lines[..|lines| - 1], lines[|lines| - 1];
      FieldsExactly(before);
      assert lines == before + [last] && forall l :: l in lines <==> l in before || l == last;
      if Fields(before).Some? {
        LastFieldApart(lines, before, last, Fields(before).value);
      } else {
        assert !FieldsApart(lines) by { FewerApart(lines, before, last); }
      }
    }
  }

  lemma FewerApart(lines: seq<string>, before: seq<string>, last: string)
    requires lines == before + [last]
    ensures FieldsApart(lines) ==> FieldsApart(before) && Field(last).Some?
  {
    hide Field;
    assert forall l <- before :: l in lines;
    assert forall i | 0 <= i < |before| :: lines[i] == before[i];
    assert lines[|before|] == last;
  }

  lemma LastFieldApart(lines: seq<string>, before: seq<string>, last: string, m: map<string, string>)
    requires lines == before + [last] && FieldsApart(before) && MapOf(before, m)
    ensures FieldsApart(lines) <==> Field(last).Some? && Field(last).value.0 !in m
    ensures FieldsApart(lines) ==> MapOf(lines, m[Field(last).value.0 := Field(last).value.1])
  {
    hide Field;
    FewerApart(lines, before, last);
    assert forall l :: l in lines <==> l in before || l == last;
    assert forall i | 0 <= i < |before| :: lines[i] == before[i] && before[i] in before;
    assert lines[|before|] == last;
  }

  method ReadFields(lines: seq<string>) returns (fields: Option<map<string, string>>)
    ensures fields == Fields(lines)
    ensures fields.Some? <==> FieldsApart(lines)
    ensures fields.Some? ==> MapOf(lines, fields.value)
  {
    FieldsExactly(lines);
    hide FieldsApart, MapOf;
    var read: map<string, string> := map[];
    for i := 0 to |lines|
      invariant Fields(lines[..i]) == Some(read)
    {
      assert lines[..i + 1][..i] == lines[..i];
      var field := Field(lines[i]);
      if field.None? || field.value.0 in read {
        FieldsStay(lines, i + 1);
        return None;
      }
      read := read[field.value.0 := field.value.1];
    }
    assert lines[..|lines|] == lines;
    return Some(read);
  }

  lemma {:induction false} FieldsStay(lines: seq<string>, n: nat)
    requires n <= |lines| && Fields(lines[..n]).None?
    ensures Fields(lines).None?
    decreases |lines| - n
  {
    if n == |lines| {
      assert lines[..n] == lines;
    } else {
      assert lines[..n + 1][..n] == lines[..n];
      FieldsStay(lines, n + 1);
    }
  }
}

/** The personal mtd3 image: a payload, an erased gap and a footer of text (installer/mtd3_image.py). */
module Mtd3Image {
  import opened Common
  import opened FooterText
  import Layout

  const IMAGE_SIZE := Layout.MTD3.size

  const FOOTER_SIZE := 512

  const LIMIT := IMAGE_SIZE - FOOTER_SIZE

  const MAGIC := "DCS6100-MTD3-V1"

  const TARGET := "DCS-6100LHV2-A1"

  const END: Bytes := [0x45, 0x4e, 0x44, 0x0a]

  /** The hash as hexadecimal text, and the check that a payload is a SquashFS. */
  datatype Env = Env(hex: Bytes -> string, squashfs: Bytes -> bool)

  predicate IsHex(c: char) { '0' <= c <= '9' || 'a' <= c <= 'f' }

  predicate IsDigest(s: string) { |s| == 64 && forall c <- s :: IsHex(c) }

  ghost predicate EnvValid(env: Env) {
    (forall b :: IsDigest(env.hex(b))) && (forall b :: env.squashfs(b) ==> 0 < |b| <= LIMIT)
  }

  predicate Ascii(s: string) { forall c <- s :: (c as int) < 0x80 }

  function Encode(s: string): (b: Bytes)
    requires Ascii(s)
    ensures |b| == |s| && forall i | 0 <= i < |s| :: b[i] as int == s[i] as int
  {
    seq(|s|, i requires 0 <= i < |s| => assert s[i] in s; Byte(s[i] as int))
  }

  function Decode(b: Bytes): (s: Option<string>)
    ensures s.Some? <==> forall x <- b :: (x as int) < 0x80
    ensures s.Some? ==> |s.value| == |b| && forall i | 0 <= i < |b| :: s.value[i] as int == b[i] as int
  {
    if forall x <- b :: (x as int) < 0x80 then Some(seq(|b|, i requires 0 <= i < |b| => b[i] as int as char)) else None
  }

  lemma DecodeOfEncode(s: string)
    requires Ascii(s)
    ensures Decode(Encode(s)) == Some(s)
  {
    var b := Encode(s);
    forall x <- b ensures (x as int) < 0x80 {
      var i :| 0 <= i < |b| && b[i] == x;
      assert s[i] in s;
    }
    assert Decode(b).value == s;
  }

  /* Building. */

  function FooterLines(size: nat, digest: string): seq<string> {
    [MAGIC, Line("target", TARGET), Line("payload_size", Print(size)), Line("payload_sha256", digest),
     Line("image_size", Print(IMAGE_SIZE)), "END"]
  }

  /** A character of the footer lines before the last one. */
  predicate Calm(c: char) {
    0x20 < c as int < 0x80 && c != 'E'
  }

  predicate AllCalm(s: string) { forall c <- s :: Calm(c) }

  function Document(size: nat, digest: string): string { Joined(FooterLines(size, digest)) }

  lemma CalmIsPlain(s: string)
    requires AllCalm(s)
    ensures forall c <- s :: !IsBreak(c) && (c as int) < 0x80
  {
  }

  lemma CalmLine(key: string, value: string)
    requires AllCalm(key) && AllCalm(value)
    ensures AllCalm(Line(key, value))
  {
  }

  lemma FooterLinesCalm(size: nat, digest: string)
    requires IsDigest(digest)
    ensures var lines := FooterLines(size, digest); forall i | 0 <= i < 5 :: AllCalm(lines[i])
    ensures forall l <- FooterLines(size, digest), c <- l :: !IsBreak(c) && (c as int) < 0x80
  {
    var lines := FooterLines(size, digest);
    assert AllCalm(lines[0]) && AllCalm(TARGET);
    assert AllCalm(Print(size)) && AllCalm(Print(IMAGE_SIZE)) && AllCalm(digest);
    CalmLine("target", TARGET);
    CalmLine("payload_size", Print(size));
    CalmLine("payload_sha256", digest);
    CalmLine("image_size", Print(IMAGE_SIZE));
    hide IsDigest, AllCalm;
    forall l <- lines ensures forall c <- l :: !IsBreak(c) && (c as int) < 0x80 {
      if l != lines[5] {
        CalmIsPlain(l);
      }
    }
  }

  lemma {:induction false} JoinedCalm(lines: seq<string>)
    requires forall l <- lines :: AllCalm(l)
    ensures forall c <- Joined(lines) :: c == '\n' || Calm(c)
  {
    hide Calm;
    if lines != [] {
      assert lines[0] in lines && forall l <- lines[1..] :: l in lines;
      JoinedCalm(lines[1..]);
    }
  }

  lemma {:induction false} JoinedLast(lines: seq<string>, last: string)
    ensures Joined(lines + [last]) == Joined(lines) + last + "\n"
  {
    if lines != [] {
      assert (lines + [last])[1..] == lines[1..] + [last];
      JoinedLast(lines[1..], last);
    }
  }

  /** Everything before the end mark, in which no letter of it occurs. */
  function Body(size: nat, digest: string): string { Joined(FooterLines(size, digest)[..5]) }

  lemma DocumentParts(size: nat, digest: string)
    requires IsDigest(digest)
    ensures Document(size, digest) == Body(size, digest) + "END\n" && Ascii(Document(size, digest))
    ensures forall c <- Body(size, digest) :: c != 'E'
  {
    var lines := FooterLines(size, digest);
    FooterLinesCalm(size, digest);
    hide FooterLines, Joined, IsDigest;
    forall l <- lines[..5] ensures AllCalm(l) {
      var i :| 0 <= i < 5 && lines[i] == l;
    }
    JoinedCalm(lines[..5]);
    assert lines == lines[..5] + ["END"] by {
      assert lines[5] == "END";
    }
    JoinedLast(lines[..5], "END");
  }

  lemma JoinedFive(a: string, b: string, c: string, d: string, e: string)
    ensures |Joined([a, b, c, d, e])| == |a| + |b| + |c| + |d| + |e| + 5
  {
    assert Joined([e]) == e + "\n" + Joined([]);
    assert Joined([d, e]) == d + "\n" + Joined([e]);
    assert Joined([c, d, e]) == c + "\n" + Joined([c, d, e][1..]);
    assert Joined([b, c, d, e]) == b + "\n" + Joined([b, c, d, e][1..]);
    assert Joined([a, b, c, d, e]) == a + "\n" + Joined([a, b, c, d, e][1..]);
  }

  /** The text always fits into the space reserved for it. */
  lemma DocumentFits(size: nat, digest: string)
    requires IsDigest(digest) && size <= LIMIT
    ensures |Document(size, digest)| <= FOOTER_SIZE
  {
    assert Pow10(7) == 10000000;
    PrintIsShort(size, 7);
    PrintIsShort(IMAGE_SIZE, 7);
    DocumentParts(size, digest);
    JoinedFive(MAGIC, Line("target", TARGET), Line("payload_size", Print(size)), Line("payload_sha256", digest),
               Line("image_size", Print(IMAGE_SIZE)));
    assert FooterLines(size, digest)[..5] ==
           [MAGIC, Line("target", TARGET), Line("payload_size", Print(size)), Line("payload_sha256", digest),
            Line("image_size", Print(IMAGE_SIZE))];
  }

  function Footer(size: nat, digest: string): (f: Bytes)
    requires IsDigest(digest) && size <= LIMIT
    ensures |f| == FOOTER_SIZE
  {
    DocumentFits(size, digest);
    DocumentParts(size, digest);
    var text := Encode(Document(size, digest));
    text + Erased(FOOTER_SIZE - |text|)
  }

  function Build(env: Env, rootfs: Bytes): Option<Bytes>
    requires EnvValid(env)
  {
    if env.squashfs(rootfs)
    then Some(rootfs + Erased(LIMIT - |rootfs|) + Footer(|rootfs|, env.hex(rootfs)))
    else None
  }

  /* Validation. */

  function FindEnd(footer: Bytes, n: nat): (at: Option<nat>)
    requires n <= |footer|
    ensures at.Some? ==> n <= at.value && at.value + 4 <= |footer| && footer[at.value..at.value + 4] == END
    decreases |footer| - n
  {
    if n + 4 > |footer| then None else if footer[n..n + 4] == END then Some(n) else FindEnd(footer, n + 1)
  }

  predicate AllErased(b: Bytes) { forall x <- b :: x == 0xff }

  /** The text of a footer up to its first end mark, if nothing but erased bytes comes after it. */
  function TextOf(footer: Bytes): Option<string> {
    var end := FindEnd(footer, 0);
    if end.None? || !AllErased(footer[end.value + 4..]) then None else Decode(footer[..end.value + 4])
  }

  const FIELDS: set<string> := {"target", "payload_size", "payload_sha256", "image_size"}

  function Described(fields: map<string, string>): Option<(nat, string)> {
    if fields.Keys != FIELDS || fields["target"] != TARGET || fields["image_size"] != Print(IMAGE_SIZE) then None
    else
      var size := Parse(fields["payload_size"]);
      if size.None? || !(1 <= size.value <= LIMIT) || !IsDigest(fields["payload_sha256"]) then None
      else Some((size.value, fields["payload_sha256"]))
  }

  /** The size and the digest a footer text claims. */
  function Claim(text: string): Option<(nat, string)> {
    var lines := Lines(text);
    if lines == [] || lines[0] != MAGIC || lines[|lines| - 1] != "END" || |lines| == 1 then None
    else
      var fields := Fields(lines[1..|lines| - 1]);
      if fields.None? then None else Described(fields.value)
  }

  predicate Holds(env: Env, raw: Bytes, size: nat, digest: string) {
    && |raw| == IMAGE_SIZE && size <= LIMIT && env.hex(raw[..size]) == digest
    && AllErased(raw[size..LIMIT]) && env.squashfs(raw[..size])
  }

  /** Size and digest of the payload of an image that is in order. */
  function Validation(env: Env, raw: Bytes): Option<(nat, string)> {
    if |raw| != IMAGE_SIZE then None
    else
      var text := TextOf(raw[LIMIT..]);
      if text.None? then None
      else
        var claim := Claim(text.value);
        if claim.Some? && claim.value.0 <= LIMIT && Holds(env, raw, claim.value.0, claim.value.1) then claim else None
  }

  method ReadClaim(text: string) returns (claim: Option<(nat, string)>)
    ensures claim == Claim(text)
  {
    hide Lines, Fields, IsDigest, Parse, Print;
    var lines := Lines(text);
    if lines == [] || lines[0] != MAGIC || lines[|lines| - 1] != "END" || |lines| == 1 {
      return None;
    }
    var fields := ReadFields(lines[1..|lines| - 1]);
    if fields.None? || fields.value.Keys != FIELDS {
      return None;
    }
    if fields.value["target"] != TARGET || fields.value["image_size"] != Print(IMAGE_SIZE) {
      return None;
    }
    var size, digest := Parse(fields.value["payload_size"]), fields.value["payload_sha256"];
    if size.None? || !(1 <= size.value <= LIMIT) || !IsDigest(digest) {
      return None;
    }
    return Some((size.value, digest));
  }

  method Validate(env: Env, raw: Bytes) returns (image: Option<(nat, string)>)
    ensures image == Validation(env, raw)
  {
    hide FindEnd, AllErased, Decode, Claim, END;
    if |raw| != IMAGE_SIZE {
      return None;
    }
    var footer := raw[LIMIT..];
    var end := FindEnd(footer, 0);
    if end.None? || !AllErased(footer[end.value + 4..]) {
      return None;
    }
    var text := Decode(footer[..end.value + 4]);
    if text.None? {
      return None;
    }
    var claim := ReadClaim(text.value);
    if claim.None? || claim.value.0 > LIMIT {
      return None;
    }
    var (size, digest) := claim.value;
    if env.hex(raw[..size]) != digest || !AllErased(raw[size..LIMIT]) || !env.squashfs(raw[..size]) {
      return None;
    }
    return Some((size, digest));
  }

  /** An accepted image is its payload, erased bytes, and a footer that claims just that payload. */
  lemma AcceptedShape(env: Env, raw: Bytes)
    requires Validation(env, raw).Some?
    ensures var (size, digest) := Validation(env, raw).value;
            && 1 <= size <= LIMIT && |raw| == IMAGE_SIZE
            && raw == raw[..size] + Erased(LIMIT - size) + raw[LIMIT..]
            && env.squashfs(raw[..size]) && env.hex(raw[..size]) == digest && IsDigest(digest)
            && TextOf(raw[LIMIT..]).Some? && Claim(TextOf(raw[LIMIT..]).value) == Some((size, digest))
  {
    hide TextOf, Lines, Fields, IsDigest, Parse, Print;
    var (size, digest) := Validation(env, raw).value;
    ErasedIs(raw[size..LIMIT]);
  }

  lemma ErasedIs(b: Bytes)
    ensures AllErased(b) <==> b == Erased(|b|)
  {
    if AllErased(b) {
      forall i | 0 <= i < |b| ensures b[i] == Erased(|b|)[i] {
        assert b[i] in b;
      }
      assert b == Erased(|b|);
    }
    if b == Erased(|b|) {
      forall x <- b ensures x == 0xff {
        var i :| 0 <= i < |b| && b[i] == x;
      }
    }
  }

  lemma {:induction false} FirstEnd(text: string, tail: Bytes, n: nat)
    requires n <= |text| && Ascii(text + "END\n") && forall c <- text :: c != 'E'
    ensures FindEnd(Encode(text + "END\n") + tail, n) == Some(|text|)
    decreases |text| - n
  {
    var b := Encode(text + "END\n") + tail;
    assert forall i | 0 <= i < |text| + 4 :: b[i] as int == (text + "END\n")[i] as int;
    if n == |text| {
      assert b[n..n + 4] == END;
    } else {
      assert text[n] in text && b[n] as int == text[n] as int;
      assert b[n..n + 4][0] != 0x45;
      FirstEnd(text, tail, n + 1);
    }
  }

  /** The text of a built footer is found again. */
  lemma TextOfFooter(size: nat, digest: string)
    requires IsDigest(digest) && size <= LIMIT
    ensures TextOf(Footer(size, digest)) == Some(Document(size, digest))
  {
    hide Document, Body, IsDigest, Decode, FindEnd, Encode;
    DocumentParts(size, digest);
    DocumentFits(size, digest);
    var body, text := Body(size, digest), Encode(Document(size, digest));
    var rest := Erased(FOOTER_SIZE - |text|);
    var footer := Footer(size, digest);
    assert footer == text + rest;
    FirstEnd(body, rest, 0);
    assert footer[..|body| + 4] == text && footer[|body| + 4..] == rest;
    DecodeOfEncode(Document(size, digest));
  }

  lemma FieldsAnd(lines: seq<string>, key: string, value: string)
    requires Fields(lines).Some? && key !in Fields(lines).value && '=' !in key && '=' !in value
    ensures Fields(lines + [Line(key, value)]) == Some(Fields(lines).value[key := value])
  {
    var longer := lines + [Line(key, value)];
    assert longer[..|longer| - 1] == lines;
    FieldOf(key, value);
    hide Field;
  }

  lemma NoEquals(size: nat, digest: string)
    requires IsDigest(digest)
    ensures '=' !in Print(size) && '=' !in Print(IMAGE_SIZE) && '=' !in digest && '=' !in TARGET
  {
    hide Print;
  }

  /** The fields of a built footer, as they are read. */
  lemma FieldsOfFooter(size: nat, digest: string)
    requires IsDigest(digest)
    ensures Fields(FooterLines(size, digest)[1..5]) ==
            Some(map["target" := TARGET, "payload_size" := Print(size), "payload_sha256" := digest,
                     "image_size" := Print(IMAGE_SIZE)])
  {
    NoEquals(size, digest);
    hide Fields, Field, Print, IsDigest;
    assert "target" != "payload_size" && "target" != "payload_sha256" && "target" != "image_size";
    assert "payload_size" != "payload_sha256" && "payload_size" != "image_size" && "payload_sha256" != "image_size";
    FieldsOfFour("target", TARGET, "payload_size", Print(size), "payload_sha256", digest, "image_size", Print(IMAGE_SIZE));
    var lines := FooterLines(size, digest);
    assert lines[1..5] == [lines[1], lines[2], lines[3], lines[4]];
    hide Line;
  }

  lemma FieldsOfFour(a: string, x: string, b: string, y: string, c: string, z: string, d: string, w: string)
    requires a != b && a != c && a != d && b != c && b != d && c != d
    requires '=' !in a && '=' !in b && '=' !in c && '=' !in d && '=' !in x && '=' !in y && '=' !in z && '=' !in w
    ensures Fields([Line(a, x), Line(b, y), Line(c, z), Line(d, w)]) == Some(map[a := x, b := y, c := z, d := w])
  {
    hide Fields, Field;
    NoFields();
    var p, q, r, s := Line(a, x), Line(b, y), Line(c, z), Line(d, w);
    FieldsAnd([], a, x);
    assert [] + [p] == [p];
    FieldsAnd([p], b, y);
    assert [p] + [q] == [p, q];
    FieldsAnd([p, q], c, z);
    assert [p, q] + [r] == [p, q, r];
    FieldsAnd([p, q, r], d, w);
    assert [p, q, r] + [s] == [p, q, r, s];
  }

  lemma NoFields()
    ensures Fields([]) == Some(map[])
  {
  }

  lemma ClaimOfDocument(size: nat, digest: string)
    requires IsDigest(digest) && 1 <= size <= LIMIT
    ensures Claim(Document(size, digest)) == Some((size, digest))
  {
    FooterLinesCalm(size, digest);
    FieldsOfFooter(size, digest);
    ParseOfPrint(size);
    hide Lines, Fields, Joined, IsDigest, Parse, Print;
    LinesOfJoined(FooterLines(size, digest));
    var fields := Fields(FooterLines(size, digest)[1..5]).value;
    assert fields.Keys == FIELDS;
  }

  /** Whatever image is built validates, with the size and the digest of its payload. */
  lemma BuiltImageValidates(env: Env, rootfs: Bytes)
    requires EnvValid(env) && env.squashfs(rootfs)
    ensures var image := Build(env, rootfs);
            image.Some? && Validation(env, image.value) == Some((|rootfs|, env.hex(rootfs)))
  {
    hide TextOf, Claim, IsDigest, AllErased, Footer;
    var raw, digest := Build(env, rootfs).value, env.hex(rootfs);
    assert IsDigest(digest);
    assert raw[LIMIT..] == Footer(|rootfs|, digest) && raw[..|rootfs|] == rootfs;
    assert raw[|rootfs|..LIMIT] == Erased(LIMIT - |rootfs|);
    ErasedIs(raw[|rootfs|..LIMIT]);
    TextOfFooter(|rootfs|, digest);
    ClaimOfDocument(|rootfs|, digest);
  }

  lemma JoinedOn(line: string, lines: seq<string>)
    ensures Joined([line] + lines) == line + "\n" + Joined(lines) && Joined([]) == ""
  {
    assert ([line] + lines)[1..] == lines;
  }

  lemma JoinedSix(a: string, b: string, c: string, d: string, e: string, f: string)
    ensures Joined([a, b, c, d, e, f]) ==
              a + "\n" + (b + "\n" + (c + "\n" + (d + "\n" + (e + "\n" + (f + "\n")))))
  {
    JoinedOn(f, []);
    assert f + "\n" + Joined([]) == f + "\n";
    JoinedOn(e, [f]);
    JoinedOn(d, [e, f]);
    JoinedOn(c, [d, e, f]);
    JoinedOn(b, [c, d, e, f]);
    JoinedOn(a, [b, c, d, e, f]);
    hide Joined;
    assert [f] + [] == [f] && [e] + [f] == [e, f] && [d] + [e, f] == [d, e, f] && [c] + [d, e, f] == [c, d, e, f];
    assert [b] + [c, d, e, f] == [b, c, d, e, f] && [a] + [b, c, d, e, f] == [a, b, c, d, e, f];
  }

  /** The footer text in full. */
  lemma DocumentText(size: nat, digest: string)
    ensures Document(size, digest) ==
              "DCS6100-MTD3-V1" + "\n" + ("target" + "=" + "DCS-6100LHV2-A1" + "\n" +
              ("payload_size" + "=" + Print(size) + "\n" + ("payload_sha256" + "=" + digest + "\n" +
              ("image_size" + "=" + Print(0x7C0000) + "\n" + ("END" + "\n")))))
  {
    hide Print, Joined;
    JoinedSix(MAGIC, Line("target", TARGET), Line("payload_size", Print(size)), Line("payload_sha256", digest),
              Line("image_size", Print(IMAGE_SIZE)), "END");
  }

  /* What is read, in its own terms. */

  /** An end mark stands here. */
  predicate EndAt(b: Bytes, n: nat) {
    n + 4 <= |b| && b[n] == 'E' as bv8 && b[n + 1] == 'N' as bv8 && b[n + 2] == 'D' as bv8 && b[n + 3] == 10
  }

  lemma EndAtExactly(b: Bytes, n: nat)
    ensures EndAt(b, n) <==> n + 4 <= |b| && b[n..n + 4] == END
  {
  }

  /** The text begins the footer, ends with its first end mark, and only erased bytes come after it. */
  ghost predicate Begins(footer: Bytes, text: string) {
    && Ascii(text) && 4 <= |text| <= |footer|
    && footer == Encode(text) + Erased(|footer| - |text|)
    && EndAt(footer, |text| - 4) && forall n | 0 <= n < |text| - 4 :: !EndAt(footer, n)
  }

  lemma {:induction false} FindEndExactly(footer: Bytes, n: nat, at: nat)
    requires n <= |footer|
    ensures FindEnd(footer, n) == Some(at) <==> n <= at && EndAt(footer, at) && forall k | n <= k < at :: !EndAt(footer, k)
    decreases |footer| - n
  {
    EndAtExactly(footer, n);
    EndAtExactly(footer, at);
    hide END, EndAt;
    if n + 4 <= |footer| && footer[n..n + 4] != END {
      FindEndExactly(footer, n + 1, at);
    }
  }

  lemma EncodeOfDecode(b: Bytes)
    requires Decode(b).Some?
    ensures Ascii(Decode(b).value) && Encode(Decode(b).value) == b
  {
    var s := Decode(b).value;
    forall c <- s ensures (c as int) < 0x80 {
      var i :| 0 <= i < |s| && s[i] == c;
      assert b[i] in b;
    }
    assert forall i | 0 <= i < |b| :: Encode(s)[i] as int == b[i] as int;
    forall i | 0 <= i < |b| ensures Encode(s)[i] == b[i] {
      SameByte(Encode(s)[i], b[i]);
    }
  }

  lemma SameByte(x: bv8, y: bv8)
    requires x as int == y as int
    ensures x == y
  {
    assert (x as int) as bv8 == x && (y as int) as bv8 == y;
  }

  lemma TextExactly(footer: Bytes, text: string)
    ensures TextOf(footer) == Some(text) <==> Begins(footer, text)
  {
    hide END, EndAt, Encode, Decode, FindEnd, Ascii, AllErased;
    if TextOf(footer) == Some(text) {
      var at := FindEnd(footer, 0).value;
      FindEndExactly(footer, 0, at);
      EncodeOfDecode(footer[..at + 4]);
      ErasedIs(footer[at + 4..]);
      assert footer == footer[..at + 4] + footer[at + 4..];
      DecodedLength(footer[..at + 4]);
    }
    if Begins(footer, text) {
      FindEndExactly(footer, 0, |text| - 4);
      EncodedLength(text);
      assert footer[..|text|] == Encode(text) && footer[|text|..] == Erased(|footer| - |text|);
      ErasedIs(footer[|text|..]);
      DecodeOfEncode(text);
    }
  }

  lemma DecodedLength(b: Bytes)
    ensures Decode(b).Some? ==> |Decode(b).value| == |b|
  {
  }

  lemma EncodedLength(s: string)
    requires Ascii(s)
    ensures |Encode(s)| == |s|
  {
  }

  /** The text claims this size and this digest of a payload for this camera. */
  ghost predicate Claims(text: string, size: nat, digest: string) {
    var lines := Lines(text);
    && |lines| >= 2 && lines[0] == "DCS6100-MTD3-V1" && lines[|lines| - 1] == "END"
    && var fields := Fields(lines[1..|lines| - 1]);
    && fields.Some? && fields.value.Keys == {"target", "payload_size", "payload_sha256", "image_size"}
    && fields.value["target"] == "DCS-6100LHV2-A1" && fields.value["image_size"] == Print(0x7C0000)
    && Parse(fields.value["payload_size"]) == Some(size) && 1 <= size <= 0x7C0000 - 512
    && fields.value["payload_sha256"] == digest
    && |digest| == 64 && forall c <- digest :: '0' <= c <= '9' || 'a' <= c <= 'f'
  }

  lemma ClaimExactly(text: string, size: nat, digest: string)
    ensures Claim(text) == Some((size, digest)) <==> Claims(text, size, digest)
  {
    hide Lines, Fields, Parse, Print;
  }

  /**
   * An image is accepted with this size and digest exactly if it fills mtd3, has the payload at its start, the text at
   * the start of its last 512 bytes, and nothing else but erased bytes.
   */
  lemma ValidationExactly(env: Env, raw: Bytes, size: nat, digest: string)
    ensures Validation(env, raw) == Some((size, digest)) <==>
              && |raw| == 0x7C0000 && 1 <= size <= |raw| - 512
              && env.hex(raw[..size]) == digest && env.squashfs(raw[..size])
              && (forall i | size <= i < |raw| - 512 :: raw[i] == 0xff)
              && exists text :: Begins(raw[|raw| - 512..], text) && Claims(text, size, digest)
  {
    hide TextOf, Claim, Begins, Claims;
    if |raw| == 0x7C0000 {
      var footer := raw[LIMIT..];
      if TextOf(footer).Some? {
        TextExactly(footer, TextOf(footer).value);
        if Claim(TextOf(footer).value).Some? {
          ClaimExactly(TextOf(footer).value, Claim(TextOf(footer).value).value.0, Claim(TextOf(footer).value).value.1);
        }
      }
      forall text | Begins(footer, text) ensures TextOf(footer) == Some(text) {
        TextExactly(footer, text);
      }
      forall text | Claims(text, size, digest) ensures Claim(text) == Some((size, digest)) {
        ClaimExactly(text, size, digest);
      }
      if 1 <= size <= LIMIT {
        GapErased(raw, size);
      }
      ClaimsSize(raw, size, digest);
    }
  }

  lemma GapErased(raw: Bytes, size: nat)
    requires size <= LIMIT <= |raw|
    ensures AllErased(raw[size..LIMIT]) <==> forall i | size <= i < LIMIT :: raw[i] == 0xff
  {
    if AllErased(raw[size..LIMIT]) {
      forall i | size <= i < LIMIT ensures raw[i] == 0xff {
        assert raw[size..LIMIT][i - size] in raw[size..LIMIT];
      }
    }
  }

  lemma ClaimsSize(raw: Bytes, size: nat, digest: string)
    ensures forall text :: Claims(text, size, digest) ==> 1 <= size <= LIMIT
    ensures LIMIT == 0x7C0000 - 512 && IMAGE_SIZE == 0x7C0000
  {
    hide Lines, Fields, Parse, Print;
  }
}
