/** Byte strings: decimal numbers, lines and searches, as QByteArray and QString provide them. A
    QByteArray is a sequence of chars. */
module Text {
  import opened Wrappers

  type Bytes = seq<char>

  // ---- Decimal numbers ----

  predicate IsDigit(c: char) { '0' <= c <= '9' }

  predicate AllDigits(s: Bytes) { forall i | 0 <= i < |s| :: IsDigit(s[i]) }

  function Digit(d: nat): (c: char)
    requires d < 10
    ensures IsDigit(c) && c as int - '0' as int == d
  {
    '0' + d as char
  }

  /** QByteArray::number, for a number that is not negative. */
  function Decimal(n: nat): (s: Bytes)
    ensures |s| > 0 && AllDigits(s)
  {
    if n < 10 then [Digit(n)] else Decimal(n / 10) + [Digit(n % 10)]
  }

  function Value(s: Bytes): nat
    requires AllDigits(s)
  {
    if s == [] then 0 else Value(s[..|s| - 1]) * 10 + (s[|s| - 1] as int - '0' as int)
  }

  lemma {:induction false} ValueOfDecimal(n: nat)
    ensures Value(Decimal(n)) == n
  {
    if n >= 10 {
      ValueOfDecimal(n / 10);
      assert Decimal(n)[..|Decimal(n)| - 1] == Decimal(n / 10);
    } else {
      assert [Digit(n)][..0] == [];
    }
  }

  lemma DecimalInjective(m: nat, n: nat)
    requires Decimal(m) == Decimal(n)
    ensures m == n
  {
    ValueOfDecimal(m);
    ValueOfDecimal(n);
  }

  // ---- Numbers as Qt parses them ----

  const MAX_INT64: int := 0x7FFF_FFFF_FFFF_FFFF

  predicate IsSpace(c: char) { c in {' ', '\t', '\n', '\r', '\U{B}', '\U{C}'} }

  function TrimStart(s: Bytes): Bytes {
    if s != [] && IsSpace(s[0]) then TrimStart(s[1..]) else s
  }

  function TrimEnd(s: Bytes): Bytes {
    if s != [] && IsSpace(s[|s| - 1]) then TrimEnd(s[..|s| - 1]) else s
  }

  function Trimmed(s: Bytes): Bytes { TrimEnd(TrimStart(s)) }

  /** QByteArray::toLongLong: surrounding space, an optional sign, digits, and the 64-bit range. */
  function ToLongLong(s: Bytes): Option<int> {
    var t := Trimmed(s);
    var signed := t != [] && (t[0] == '-' || t[0] == '+');
    var digits := if signed then t[1..] else t;
    if digits == [] || !AllDigits(digits) then None
    else
      var magnitude: int := Value(digits);
      var value := if signed && t[0] == '-' then -magnitude else magnitude;
      if -MAX_INT64 - 1 <= value <= MAX_INT64 then Some(value) else None
  }

  lemma DecimalParses(n: nat)
    ensures ToLongLong(Decimal(n)) == if n <= MAX_INT64 then Some(n) else None
  {
    ValueOfDecimal(n);
    assert IsDigit(Decimal(n)[0]) && IsDigit(Decimal(n)[|Decimal(n)| - 1]);
  }

  // ---- Lines ----

  function IndexOfChar(s: Bytes, c: char): (i: int)
    ensures -1 <= i < |s|
    ensures i == -1 <==> c !in s
    ensures i >= 0 ==> s[i] == c && c !in s[..i]
  {
    if s == [] then -1
    else if s[0] == c then 0
    else
      var i := IndexOfChar(s[1..], c);
      if i == -1 then -1
      else
        assert s[..i + 1] == [s[0]] + s[1..][..i];
        i + 1
  }

  lemma {:induction false} FirstIndex(s: Bytes, c: char, n: nat)
    requires n < |s| && s[n] == c && c !in s[..n]
    ensures IndexOfChar(s, c) == n
  {
    if n == 0 {
    } else {
      assert s[..n] == [s[0]] + s[1..][..n - 1];
      FirstIndex(s[1..], c, n - 1);
    }
  }

  /** QByteArray::split('\n'). */
  function SplitLines(s: Bytes): (lines: seq<Bytes>)
    ensures |lines| > 0
    decreases |s|
  {
    var i := IndexOfChar(s, '\n');
    if i == -1 then [s] else [s[..i]] + SplitLines(s[i + 1..])
  }

  function JoinLines(lines: seq<Bytes>): Bytes
    requires |lines| > 0
  {
    if |lines| == 1 then lines[0] else lines[0] + "\n" + JoinLines(lines[1..])
  }

  /** Lines that are not empty and hold no newline. */
  predicate AreLines(lines: seq<Bytes>) {
    |lines| > 0 && forall i | 0 <= i < |lines| :: lines[i] != [] && '\n' !in lines[i]
  }

  lemma {:induction false} SplitOfJoin(lines: seq<Bytes>)
    requires AreLines(lines)
    ensures SplitLines(JoinLines(lines)) == lines
  {
    if |lines| == 1 {
      assert lines == [lines[0]];
    } else {
      SplitOfJoin(lines[1..]);
      SplitFirst(lines[0], JoinLines(lines[1..]));
    }
  }

  lemma SplitFirst(first: Bytes, rest: Bytes)
    requires '\n' !in first
    ensures SplitLines(first + "\n" + rest) == [first] + SplitLines(rest)
  {
    var s := first + "\n" + rest;
    assert s[|first|] == '\n' && s[..|first|] == first && s[|first| + 1..] == rest;
    FirstIndex(s, '\n', |first|);
  }

  // ---- Blank lines ----

  predicate BlankAt(s: Bytes, i: int) { 0 <= i < |s| - 1 && s[i] == '\n' && s[i + 1] == '\n' }

  /** QByteArray::indexOf("\n\n"). */
  function FindBlank(s: Bytes): (i: int)
    ensures -1 <= i
    ensures i == -1 ==> forall j :: !BlankAt(s, j)
    ensures i >= 0 ==> BlankAt(s, i) && forall j | 0 <= j < i :: !BlankAt(s, j)
  {
    if |s| < 2 then -1
    else if s[0] == '\n' && s[1] == '\n' then 0
    else
      var i := FindBlank(s[1..]);
      assert forall j | 1 <= j :: BlankAt(s, j) <==> BlankAt(s[1..], j - 1);
      if i == -1 then -1 else i + 1
  }

  lemma {:induction false} JoinHasNoBlank(lines: seq<Bytes>)
    requires AreLines(lines)
    ensures var s := JoinLines(lines);
            s != [] && s[0] != '\n' && s[|s| - 1] != '\n' && forall i :: !BlankAt(s, i)
  {
    var s := JoinLines(lines);
    var first := lines[0];
    assert forall i | 0 <= i < |first| :: first[i] in first;
    if |lines| == 1 {
    } else {
      JoinHasNoBlank(lines[1..]);
      var rest := JoinLines(lines[1..]);
      assert s == first + "\n" + rest;
      forall i ensures !BlankAt(s, i) {
        assert !BlankAt(rest, i - |first| - 1);
      }
    }
  }

  /** The first blank line of a header made of lines is where its payload begins, even if the payload
      starts with newlines itself. */
  lemma FindBlankAfterLines(lines: seq<Bytes>, payload: Bytes)
    requires AreLines(lines)
    ensures FindBlank(JoinLines(lines) + "\n\n" + payload) == |JoinLines(lines)|
  {
    JoinHasNoBlank(lines);
    var head := JoinLines(lines);
    var s := head + "\n\n" + payload;
    assert BlankAt(s, |head|);
    forall i | 0 <= i < |head| ensures !BlankAt(s, i) {
      assert !BlankAt(head, i);
      assert s[i] == head[i];
    }
  }
}
