/** Numerals in a base: digit sequences, most significant first, and the numbers they stand for. */
module Numerals {
  import opened Arithmetic

  function Digits(v: nat, base: nat): (d: seq<nat>)
    requires base >= 2
    ensures forall i :: 0 <= i < |d| ==> d[i] < base
    ensures d == [] <==> v == 0
  {
    if v == 0 then [] else Digits(v / base, base) + [v % base]
  }

  lemma DigitsStep(v: nat, base: nat)
    requires v > 0 && base >= 2
    ensures 0 <= v / base < v && 0 <= v % base < base
    ensures Digits(v, base) == Digits(v / base, base) + [v % base]
  {
  }

  function ValueOf(d: seq<nat>, base: nat): nat {
    if d == [] then 0 else ValueOf(d[..|d| - 1], base) * base + d[|d| - 1]
  }

  lemma ValueOfOneMore(d: seq<nat>, r: nat, base: nat)
    ensures ValueOf(d + [r], base) == ValueOf(d, base) * base + r
  {
    assert (d + [r])[..|d|] == d;
  }

  lemma {:induction false} ValueOfDigits(v: nat, base: nat)
    requires base >= 2
    ensures ValueOf(Digits(v, base), base) == v
    decreases v
  {
    if v > 0 {
      var q, r := v / base, v % base;
      DigitsStep(v, base);
      Division(v, base);
      ValueOfDigits(q, base);
      ValueOfOneMore(Digits(q, base), r, base);
    }
  }

  function Power(base: nat, k: nat): nat {
    if k == 0 then 1 else base * Power(base, k - 1)
  }

  lemma QuotientBelow(v: nat, base: nat, p: nat)
    requires base >= 2 && v < base * p
    ensures v / base < p
  {
    var q := v / base;
    assert v == q * base + v % base;
    assert q >= p ==> q * base >= p * base;
  }

  lemma {:induction false} DigitCount(v: nat, base: nat, k: nat)
    requires base >= 2 && v < Power(base, k)
    ensures |Digits(v, base)| <= k
    decreases v
  {
    if v > 0 {
      DigitsStep(v, base);
      QuotientBelow(v, base, Power(base, k - 1));
      DigitCount(v / base, base, k - 1);
    }
  }

  lemma PowersReached()
    ensures Power(16, 16) == 0x1_0000_0000_0000_0000
    ensures Power(10, 20) == 100_000_000_000_000_000_000
  {
    assert Power(16, 4) == 0x1_0000;
    assert Power(16, 8) == 0x1_0000_0000;
    assert Power(16, 12) == 0x1_0000_0000_0000;
    assert Power(10, 4) == 10_000;
    assert Power(10, 8) == 100_000_000;
    assert Power(10, 12) == 1_000_000_000_000;
    assert Power(10, 16) == 10_000_000_000_000_000;
  }
}

/** The number printers of the print library and the parsers of the string library. */
module NumberText {
  import opened CStrings
  import opened Numerals

  const WORD := 0x1_0000_0000_0000_0000
  const ZERO: CHAR16 := '0' as int
  const COMMA: CHAR16 := ',' as int
  const MINUS: CHAR16 := '-' as int
  const SPACE: CHAR16 := ' ' as int

  function DigitChar(d: nat): CHAR16
    requires d < 16
  {
    if d < 10 then ZERO + d else 'A' as int + d - 10
  }

  function Chars(d: seq<nat>): (s: seq<CHAR16>)
    requires forall i :: 0 <= i < |d| ==> d[i] < 16
    ensures |s| == |d|
  {
    seq(|d|, i requires 0 <= i < |d| => DigitChar(d[i]))
  }

  /** How v is written in a base up to 16. */
  function Numeral(v: nat, base: nat): (s: seq<CHAR16>)
    requires 2 <= base <= 16
    ensures s != []
  {
    if v == 0 then [ZERO] else Chars(Digits(v, base))
  }

  function Reverse<T>(s: seq<T>): (r: seq<T>)
    ensures |r| == |s|
  {
    seq(|s|, i requires 0 <= i < |s| => s[|s| - 1 - i])
  }

  // ----- Printing -----

  /** The first loop of both printers: digits from the least significant on. */
  method StoreDigits(str: array<CHAR16>, value: nat, base: nat) returns (p: nat)
    requires 2 <= base <= 16 && |Digits(value, base)| <= str.Length
    modifies str
    ensures p == |Digits(value, base)| && Reverse(str[..p]) == Chars(Digits(value, base))
  {
    var v: nat := value;
    p := 0;
    while v != 0
      invariant |Digits(v, base)| + p == |Digits(value, base)|
      invariant Chars(Digits(v, base)) + Reverse(str[..p]) == Chars(Digits(value, base))
      decreases v
    {
      DigitsStep(v, base);
      var q, r := v / base, v % base;
      ghost var stored, rest := str[..p], Digits(q, base);
      LastChar(rest, r);
      ReverseOneMore(stored, DigitChar(r));
      str[p] := DigitChar(r);
      assert str[..p + 1] == stored + [DigitChar(r)];
      p := p + 1;
      v := q;
    }
  }

  lemma LastChar(d: seq<nat>, r: nat)
    requires r < 16 && forall i :: 0 <= i < |d| ==> d[i] < 16
    ensures Chars(d + [r]) == Chars(d) + [DigitChar(r)]
  {
  }

  lemma ReverseOneMore<T>(s: seq<T>, x: T)
    ensures Reverse(s + [x]) == [x] + Reverse(s)
  {
  }

  lemma EnoughRoom(v: nat)
    requires v < WORD
    ensures |Digits(v, 16)| <= 16 && |Digits(v, 10)| <= 20
  {
    PowersReached();
    DigitCount(v, 16, 16);
    DigitCount(v, 10, 20);
  }

  lemma LastToFront(out: seq<CHAR16>, s: seq<CHAR16>, p: nat)
    requires 0 < p <= |s|
    ensures out + Reverse(s[..p]) == out + [s[p - 1]] + Reverse(s[..p - 1])
  {
    assert s[..p] == s[..p - 1] + [s[p - 1]];
    ReverseOneMore(s[..p - 1], s[p - 1]);
  }

  method ValueToHex(Buffer: array<CHAR16>, v: nat) returns (n: nat)
    requires v < WORD && |Numeral(v, 16)| < Buffer.Length
    modifies Buffer
    ensures n == |Numeral(v, 16)| && Buffer[..n] == Numeral(v, 16) && Buffer[n] == 0
  {
    if v == 0 {
      Buffer[0], Buffer[1] := ZERO, 0;
      return 1;
    }
    var str := new CHAR16[30];
    EnoughRoom(v);
    var p1 := StoreDigits(str, v, 16);
    n := CopyBackwards(Buffer, str, p1);
    Terminate(Buffer, n);
  }

  /** The second loop of ValueToHex. */
  method CopyBackwards(Buffer: array<CHAR16>, str: array<CHAR16>, count: nat) returns (n: nat)
    requires count <= str.Length && count < Buffer.Length && str != Buffer
    modifies Buffer
    ensures n == count && Buffer[..n] == Reverse(str[..count])
  {
    ghost var digits, s := Reverse(str[..count]), str[..];
    var p1 := count;
    n := 0;
    while p1 != 0
      invariant n + p1 == count && Buffer[..n] + Reverse(s[..p1]) == digits && str[..] == s
    {
      LastToFront(Buffer[..n], s, p1);
      p1 := p1 - 1;
      n := Put(Buffer, n, str[p1]);
    }
  }

  /** A comma before every group of three digits, counted from the right, but the first group. */
  function Grouped(s: seq<CHAR16>): seq<CHAR16> {
    if |s| <= 3 then s else Grouped(s[..|s| - 3]) + [COMMA] + s[|s| - 3..]
  }

  /** What is out when the first i digits of s are. */
  function Begun(s: seq<CHAR16>, comma: bool, i: nat): seq<CHAR16>
    requires i <= |s|
  {
    if i == 0 then []
    else Begun(s, comma, i - 1) + (if comma && i > 1 && (|s| - i + 1) % 3 == 0 then [COMMA] else []) + [s[i - 1]]
  }

  lemma {:induction false} BegunInFront(s: seq<CHAR16>, i: nat)
    requires |s| > 3 && i <= |s| - 3
    ensures Begun(s, true, i) == Begun(s[..|s| - 3], true, i)
  {
    if i > 0 {
      BegunInFront(s, i - 1);
    }
  }

  lemma {:induction false} BegunIsGrouped(s: seq<CHAR16>)
    ensures Begun(s, true, |s|) == Grouped(s)
    decreases |s|
  {
    if |s| <= 3 {
      BegunShort(s, |s|);
    } else {
      var t := |s| - 3;
      BegunInFront(s, t);
      BegunIsGrouped(s[..t]);
      assert Begun(s, true, t + 1) == Begun(s, true, t) + [COMMA] + [s[t]];
      assert Begun(s, true, t + 2) == Begun(s, true, t + 1) + [s[t + 1]];
      assert Begun(s, true, t + 3) == Begun(s, true, t + 2) + [s[t + 2]];
      assert s[t..] == [s[t], s[t + 1], s[t + 2]];
    }
  }

  lemma BegunStep(s: seq<CHAR16>, comma: bool, i: nat, before: seq<CHAR16> := [])
    requires i < |s|
    ensures var sep := if comma && i > 0 && (|s| - i) % 3 == 0 then [COMMA] else [];
      && Begun(s, comma, i + 1) == Begun(s, comma, i) + sep + [s[i]]
      && before + Begun(s, comma, i + 1) == before + Begun(s, comma, i) + sep + [s[i]]
  {
    var sep := if comma && i > 0 && (|s| - i) % 3 == 0 then [COMMA] else [];
    assert before + (Begun(s, comma, i) + sep + [s[i]]) == before + Begun(s, comma, i) + sep + [s[i]];
  }

  lemma {:induction false} BegunShort(s: seq<CHAR16>, i: nat)
    requires i <= |s| <= 3
    ensures Begun(s, true, i) == s[..i]
  {
    if i > 0 {
      BegunShort(s, i - 1);
      BegunStep(s, true, i - 1);
      assert s[..i] == s[..i - 1] + [s[i - 1]];
    }
  }

  lemma {:induction false} BegunPlain(s: seq<CHAR16>, i: nat)
    requires i <= |s|
    ensures Begun(s, false, i) == s[..i]
  {
    if i > 0 {
      BegunPlain(s, i - 1);
      assert s[..i] == s[..i - 1] + [s[i - 1]];
    }
  }

  /** Without its commas a grouped numeral is the numeral. */
  function Digitals(s: seq<CHAR16>): seq<CHAR16> {
    if s == [] then [] else (if s[0] == COMMA then [] else [s[0]]) + Digitals(s[1..])
  }

  lemma {:induction false} DigitalsConcat(s: seq<CHAR16>, t: seq<CHAR16>)
    ensures Digitals(s + t) == Digitals(s) + Digitals(t)
  {
    if s == [] {
      assert s + t == t;
    } else {
      assert (s + t)[1..] == s[1..] + t;
      DigitalsConcat(s[1..], t);
    }
  }

  lemma {:induction false} DigitalsOfPlain(s: seq<CHAR16>)
    requires COMMA !in s
    ensures Digitals(s) == s
  {
    if s != [] {
      DigitalsOfPlain(s[1..]);
    }
  }

  lemma {:induction false} GroupingAddsCommasOnly(s: seq<CHAR16>)
    requires COMMA !in s
    ensures Digitals(Grouped(s)) == s
    decreases |s|
  {
    if |s| <= 3 {
      DigitalsOfPlain(s);
    } else {
      var front, back := s[..|s| - 3], s[|s| - 3..];
      assert s == front + back && COMMA !in front && COMMA !in back;
      GroupingAddsCommasOnly(front);
      DigitalsOfPlain(back);
      DigitalsJoin(Grouped(front), back);
    }
  }

  /** Counted from the right, every fourth character of a grouped numeral is a comma and no other is. */
  lemma {:induction false} CommaPlaces(s: seq<CHAR16>, i: nat)
    requires COMMA !in s && i < |Grouped(s)|
    ensures Grouped(s)[|Grouped(s)| - 1 - i] == COMMA <==> i % 4 == 3
    decreases |s|
  {
    if |s| > 3 {
      var front, back := s[..|s| - 3], s[|s| - 3..];
      assert COMMA !in front && COMMA !in back;
      if i > 3 {
        CommaPlaces(front, i - 4);
        assert Grouped(s)[|Grouped(s)| - 1 - i] == Grouped(front)[|Grouped(front)| - 1 - (i - 4)];
      }
    }
  }

  /** It does not begin with a comma: its length is never a multiple of 4. */
  lemma {:induction false} GroupedLength(s: seq<CHAR16>)
    requires s != []
    ensures |Grouped(s)| == |s| + (|s| - 1) / 3 && |Grouped(s)| % 4 != 0
    decreases |s|
  {
    if |s| > 3 {
      GroupedLength(s[..|s| - 3]);
    }
  }

  lemma DigitalsJoin(s: seq<CHAR16>, t: seq<CHAR16>)
    ensures Digitals(s + [COMMA] + t) == Digitals(s) + Digitals(t)
  {
    var comma, front := [COMMA], s + [COMMA];
    assert comma[1..] == [];
    DigitalsConcat(s, comma);
    DigitalsConcat(front, t);
  }

  function Magnitude(v: int): nat {
    if v < 0 then -v else v
  }

  function Separated(digits: seq<CHAR16>, comma: bool): (s: seq<CHAR16>)
    ensures digits != [] ==> s != []
  {
    if comma then Grouped(digits) else digits
  }

  /** How a signed value is written, with or without commas. */
  function Decimal(v: int, comma: bool): (s: seq<CHAR16>)
    ensures s != []
  {
    (if v < 0 then [MINUS] else []) + Separated(Numeral(Magnitude(v), 10), comma)
  }

  method ValueToString(Buffer: array<CHAR16>, Comma: bool, v: int) returns (n: nat)
    requires -0x8000_0000_0000_0000 <= v < 0x8000_0000_0000_0000 && |Decimal(v, Comma)| < Buffer.Length
    modifies Buffer
    ensures n == |Decimal(v, Comma)| && Buffer[..n] == Decimal(v, Comma) && Buffer[n] == 0
  {
    if v == 0 {
      Buffer[0], Buffer[1] := ZERO, 0;
      return 1;
    }
    n := 0;
    if v < 0 {
      n := Put(Buffer, n, MINUS);
    }
    n := PrintDigits(Buffer, n, Magnitude(v), Comma);
    Terminate(Buffer, n);
  }

  /** The two loops of ValueToString, from place at on. */
  method PrintDigits(Buffer: array<CHAR16>, at: nat, v: nat, Comma: bool) returns (n: nat)
    requires 0 < v < WORD && at + |Separated(Numeral(v, 10), Comma)| < Buffer.Length
    modifies Buffer
    ensures n == at + |Separated(Numeral(v, 10), Comma)|
    ensures Buffer[..n] == old(Buffer[..at]) + Separated(Numeral(v, 10), Comma)
  {
    var str := new CHAR16[40];
    EnoughRoom(v);
    var p1 := StoreDigits(str, v, 10);
    AllBegun(Reverse(str[..p1]), Comma);
    n := CopyDigits(Buffer, at, str, p1, Comma);
  }

  lemma AllBegun(digits: seq<CHAR16>, comma: bool)
    ensures Begun(digits, comma, |digits|) == Separated(digits, comma)
  {
    BegunIsGrouped(digits);
    BegunPlain(digits, |digits|);
    assert digits[..|digits|] == digits;
  }

  /** The second loop of ValueToString; c counts down to the next comma. */
  method CopyDigits(Buffer: array<CHAR16>, at: nat, str: array<CHAR16>, count: nat, Comma: bool) returns (n: nat)
    requires 0 < count <= 20 && count <= str.Length && str != Buffer
    requires at + |Begun(Reverse(str[..count]), Comma, count)| < Buffer.Length
    modifies Buffer
    ensures n == at + |Begun(Reverse(str[..count]), Comma, count)|
    ensures Buffer[..n] == old(Buffer[..at]) + Begun(Reverse(str[..count]), Comma, count)
  {
    ghost var before, digits, i := Buffer[..at], Reverse(str[..count]), 0;
    var p1 := count;
    n := at;
    var c := (if Comma then [3, 1, 2][p1 % 3] else 999) + 1;
    while p1 != 0
      invariant n <= Buffer.Length && Copied(before, Buffer[..n], digits, Comma, i, p1, c)
    {
      CopiedOneMore(before, Buffer[..n], digits, Comma, i, p1, c);
      p1 := p1 - 1;
      n, c := CopyDigit(Buffer, n, str[p1], c);
      i := i + 1;
    }
  }

  /** The first i digits are out, p are to come, and c counts down to the next comma. */
  ghost predicate Copied(before: seq<CHAR16>, out: seq<CHAR16>, digits: seq<CHAR16>, comma: bool,
                         i: nat, p: nat, c: int)
  {
    i + p == |digits| && out == before + Begun(digits, comma, i) && c == Counter(comma, p, i)
  }

  lemma CopiedOneMore(before: seq<CHAR16>, out: seq<CHAR16>, digits: seq<CHAR16>, comma: bool, i: nat, p: nat, c: int)
    requires Copied(before, out, digits, comma, i, p, c) && 0 < p && |digits| <= 20
    ensures var more := out + (if c == 1 then [COMMA] else []) + [digits[i]];
      && c > 0 && Copied(before, more, digits, comma, i + 1, p - 1, if c == 1 then 3 else c - 1)
      && |more| <= |before| + |Begun(digits, comma, |digits|)|
  {
    BegunGrows(digits, comma, i + 1);
    BegunStep(digits, comma, i, before);
    CounterStep(comma, p, i);
  }

  /** One turn of that loop. */
  method CopyDigit(Buffer: array<CHAR16>, at: nat, digit: CHAR16, count: nat) returns (n: nat, c: nat)
    requires count > 0 && at + (if count == 1 then 2 else 1) <= Buffer.Length
    modifies Buffer
    ensures n == at + (if count == 1 then 2 else 1) && c == if count == 1 then 3 else count - 1
    ensures Buffer[..n] == old(Buffer[..at]) + (if count == 1 then [COMMA] else []) + [digit]
  {
    n, c := at, count - 1;
    if c == 0 {
      n := Put(Buffer, n, COMMA);
      c := 3;
    }
    n := Put(Buffer, n, digit);
  }

  /** The counter c with p digits to come and i behind. */
  function Counter(comma: bool, p: nat, i: nat): int {
    if !comma then 1000 - i else if i == 0 && p % 3 == 0 then 4 else p % 3 + 1
  }

  lemma CounterStep(comma: bool, p: nat, i: nat)
    requires p > 0 && i < 100
    ensures Counter(comma, p, i) == 1 <==> comma && i > 0 && p % 3 == 0
    ensures Counter(comma, p - 1, i + 1) == if Counter(comma, p, i) == 1 then 3 else Counter(comma, p, i) - 1
  {
  }

  /** *(p++) = ch */
  method Put(Buffer: array<CHAR16>, p: nat, ch: CHAR16) returns (next: nat)
    requires p < Buffer.Length
    modifies Buffer
    ensures next == p + 1 && Buffer[..next] == old(Buffer[..p]) + [ch]
  {
    Buffer[p] := ch;
    next := p + 1;
  }

  /** *p = 0 */
  method Terminate(Buffer: array<CHAR16>, p: nat)
    requires p < Buffer.Length
    modifies Buffer
    ensures Buffer[..p] == old(Buffer[..p]) && Buffer[p] == 0
  {
    Buffer[p] := 0;
  }

  lemma {:induction false} BegunGrows(s: seq<CHAR16>, comma: bool, i: nat)
    requires i <= |s|
    ensures |Begun(s, comma, i)| <= |Begun(s, comma, |s|)|
    decreases |s| - i
  {
    if i < |s| {
      BegunGrows(s, comma, i + 1);
    }
  }

  // ----- Parsing -----

  /** The digit a character stands for in base 10, or -1. */
  function DecimalDigit(c: CHAR16): int {
    if ZERO <= c <= '9' as int then c - ZERO else -1
  }

  /** In base 16, letters of either case. */
  function HexDigit(c: CHAR16): int {
    if ZERO <= c <= '9' as int then c - ZERO
    else if 'A' as int <= c <= 'F' as int then c - 'A' as int + 10
    else if 'a' as int <= c <= 'f' as int then c - 'a' as int + 10
    else -1
  }

  const UPPER := "0123456789ABCDEF"
  const LOWER := "0123456789abcdef"

  /** The printers take their digits from the first alphabet. */
  lemma PrintedAlphabet(d: nat)
    requires d < 16
    ensures DigitChar(d) == UPPER[d] as int
  {
  }

  /** A character stands for d exactly if it is the d-th one of the two alphabets; any other is no digit. */
  lemma HexAlphabets(c: CHAR16, d: nat)
    requires d < 16
    ensures HexDigit(c) == d <==> c == UPPER[d] as int || c == LOWER[d] as int
    ensures -1 <= HexDigit(c) < 16
  {
  }

  lemma DecimalAlphabet(c: CHAR16, d: nat)
    requires d < 10
    ensures DecimalDigit(c) == d <==> c == UPPER[d] as int
    ensures -1 <= DecimalDigit(c) < 10
  {
  }

  function DigitOf(base: nat): CHAR16 -> int {
    if base == 10 then DecimalDigit else HexDigit
  }

  /** The first character at or after i that is not a space. */
  function SkipSpaces(s: seq<CHAR16>, i: nat): (k: nat)
    requires i <= |s|
    ensures i <= k <= |s| && (forall j :: i <= j < k ==> s[j] == SPACE) && (k < |s| ==> s[k] != SPACE)
    decreases |s| - i
  {
    if i < |s| && s[i] == SPACE then SkipSpaces(s, i + 1) else i
  }

  /** Where the digits that start at i end. */
  function RunEnd(s: seq<CHAR16>, i: nat, base: nat): (k: nat)
    requires i <= |s|
    ensures i <= k <= |s|
    ensures forall j :: i <= j < k ==> DigitOf(base)(s[j]) >= 0
    ensures k < |s| ==> DigitOf(base)(s[k]) < 0
    decreases |s| - i
  {
    if i < |s| && DigitOf(base)(s[i]) >= 0 then RunEnd(s, i + 1, base) else i
  }

  function DigitsIn(s: seq<CHAR16>, base: nat): (d: seq<nat>)
    requires forall j :: 0 <= j < |s| ==> DigitOf(base)(s[j]) >= 0
    ensures |d| == |s|
  {
    seq(|s|, i requires 0 <= i < |s| => DigitOf(base)(s[i]))
  }

  /** The number that the text starts with, after spaces, in 64 bits. */
  function NumberAtFront(s: seq<CHAR16>, base: nat): (n: nat)
    ensures n < WORD
  {
    var from := SkipSpaces(s, 0);
    ValueOf(DigitsIn(s[from..RunEnd(s, from, base)], base), base) % WORD
  }

  lemma WrapStep(x: nat, base: nat, d: nat)
    ensures (x % WORD * base + d) % WORD == (x * base + d) % WORD
  {
    var q := x / WORD;
    assert x == q * WORD + x % WORD;
    assert x * base + d == q * base * WORD + (x % WORD * base + d);
    WordMultiple(x % WORD * base + d, q * base);
  }

  lemma WordMultiple(y: nat, k: nat)
    ensures (y + k * WORD) % WORD == y % WORD
  {
  }

  /** One more digit of the run. */
  lemma RunStep(s: seq<CHAR16>, from: nat, i: nat, base: nat, u: nat)
    requires from <= i < |s| && forall j :: from <= j <= i ==> DigitOf(base)(s[j]) >= 0
    requires u == ValueOf(DigitsIn(s[from..i], base), base) % WORD
    ensures (u * base + DigitOf(base)(s[i])) % WORD == ValueOf(DigitsIn(s[from..i + 1], base), base) % WORD
  {
    var d, r := DigitsIn(s[from..i], base), DigitOf(base)(s[i]);
    DigitsOneMore(s, from, i, base);
    ValueOfOneMore(d, r, base);
    WrapStep(ValueOf(d, base), base, r);
  }

  lemma DigitsOneMore(s: seq<CHAR16>, from: nat, i: nat, base: nat)
    requires from <= i < |s| && forall j :: from <= j <= i ==> DigitOf(base)(s[j]) >= 0
    ensures DigitsIn(s[from..i + 1], base) == DigitsIn(s[from..i], base) + [DigitOf(base)(s[i])]
  {
  }

  /** Shifting in four bits never meets a set bit, so the source's `|` is a sum. */
  lemma ShiftInHex(u: nat, d: nat)
    requires u < WORD && d < 16
    ensures u * 16 % WORD + d == (u * 16 + d) % WORD
  {
    var k := u / 0x1000_0000_0000_0000;
    var r := u % 0x1000_0000_0000_0000;
    assert u * 16 == r * 16 + k * WORD;
    WordMultiple(r * 16, k);
    WordMultiple(r * 16 + d, k);
  }

  /** A parser stands at i, behind the spaces and some digits, with their value so far. */
  ghost predicate Parsed(s: seq<CHAR16>, base: nat, i: nat, u: nat) {
    var from := SkipSpaces(s, 0);
    && from <= i <= |s| && (forall j :: from <= j < i ==> DigitOf(base)(s[j]) >= 0)
    && u == ValueOf(DigitsIn(s[from..i], base), base) % WORD
  }

  lemma ParsedNothing(s: seq<CHAR16>, base: nat)
    ensures Parsed(s, base, SkipSpaces(s, 0), 0)
  {
    var from := SkipSpaces(s, 0);
    assert s[from..from] == [] && DigitsIn([], base) == [];
  }

  lemma ParsedDigit(s: seq<CHAR16>, base: nat, i: nat, u: nat)
    requires Parsed(s, base, i, u) && i < |s| && DigitOf(base)(s[i]) >= 0
    ensures Parsed(s, base, i + 1, (u * base + DigitOf(base)(s[i])) % WORD)
  {
    RunStep(s, SkipSpaces(s, 0), i, base, u);
  }

  lemma ParsedHexDigit(s: seq<CHAR16>, i: nat, u: nat, d: nat)
    requires Parsed(s, 16, i, u) && i < |s| && d == HexDigit(s[i])
    ensures Parsed(s, 16, i + 1, u * 16 % WORD + d)
  {
    ParsedDigit(s, 16, i, u);
    ShiftInHex(u, d);
  }

  lemma ParsedAll(s: seq<CHAR16>, base: nat, i: nat, u: nat)
    requires Parsed(s, base, i, u) && (i < |s| ==> DigitOf(base)(s[i]) < 0)
    ensures u == NumberAtFront(s, base)
  {
    var from := SkipSpaces(s, 0);
    assert RunEnd(s, from, base) == i;
  }

  method SkipPrecedingSpaces(str: Text) returns (i: nat)
    ensures i == SkipSpaces(str, 0)
  {
    i := 0;
    while At(str, i) == SPACE
      invariant i <= |str| && SkipSpaces(str, i) == SkipSpaces(str, 0)
      decreases |str| - i
    {
      i := i + 1;
    }
  }

  /** The two tests in the loop of xtoi; -1 is the break. */
  method ReadHexDigit(ch: CHAR16) returns (d: int)
    ensures d == HexDigit(ch)
  {
    var c := ch;
    if 'a' as int <= c <= 'f' as int {
      c := c - ('a' as int - 'A' as int);
    }
    if (ZERO <= c <= '9' as int) || ('A' as int <= c <= 'F' as int) {
      d := c - if c >= 'A' as int then 'A' as int - 10 else ZERO;
    } else {
      d := -1;
    }
  }

  method xtoi(str: Text) returns (u: nat)
    ensures u == NumberAtFront(str, 16)
  {
    var i := SkipPrecedingSpaces(str);
    u := 0;
    ParsedNothing(str, 16);
    while At(str, i) != 0
      invariant Parsed(str, 16, i, u)
      decreases |str| - i
    {
      var d := ReadHexDigit(At(str, i));
      if d >= 0 {
        ParsedHexDigit(str, i, u, d);
        u := u * 16 % WORD + d;
      } else {
        break;
      }
      i := i + 1;
    }
    ParsedAll(str, 16, i, u);
  }

  method Atoi(str: Text) returns (u: nat)
    ensures u == NumberAtFront(str, 10)
  {
    var i := SkipPrecedingSpaces(str);
    u := 0;
    ParsedNothing(str, 10);
    while At(str, i) != 0
      invariant Parsed(str, 10, i, u)
      decreases |str| - i
    {
      var c := At(str, i);
      if ZERO <= c <= '9' as int {
        ParsedDigit(str, 10, i, u);
        u := (u * 10 + c - ZERO) % WORD;
      } else {
        break;
      }
      i := i + 1;
    }
    ParsedAll(str, 10, i, u);
  }

  // ----- They undo each other -----

  lemma ZeroIsDigits(base: nat)
    requires base == 10 || base == 16
    ensures DigitOf(base)(ZERO) == 0 && ValueOf(DigitsIn([ZERO], base), base) == 0
  {
    assert DigitsIn([ZERO], base) == [] + [0];
    ValueOfOneMore([], 0, base);
  }

  lemma NumeralIsDigits(v: nat, base: nat)
    requires base == 10 || base == 16
    ensures var s := Numeral(v, base);
      && (forall j :: 0 <= j < |s| ==> s[j] != 0 && s[j] != SPACE && s[j] != COMMA && DigitOf(base)(s[j]) >= 0)
      && ValueOf(DigitsIn(s, base), base) == v
  {
    var s := Numeral(v, base);
    if v == 0 {
      ZeroIsDigits(base);
    } else {
      assert DigitsIn(s, base) == Digits(v, base);
      ValueOfDigits(v, base);
    }
  }

  ghost predicate AllDigits(s: seq<CHAR16>, base: nat) {
    s != [] && forall j :: 0 <= j < |s| ==> s[j] != SPACE && DigitOf(base)(s[j]) >= 0
  }

  lemma WholeRun(s: seq<CHAR16>, base: nat)
    requires AllDigits(s, base)
    ensures SkipSpaces(s, 0) == 0 && RunEnd(s, 0, base) == |s|
  {
    var k := RunEnd(s, 0, base);
  }

  lemma ParseDigits(s: seq<CHAR16>, base: nat)
    requires AllDigits(s, base)
    ensures NumberAtFront(s, base) == ValueOf(DigitsIn(s, base), base) % WORD
  {
    WholeRun(s, base);
    assert s[0..|s|] == s;
  }

  /** The digits stand for v. */
  ghost predicate Denotes(s: seq<CHAR16>, base: nat, v: nat) {
    AllDigits(s, base) && ValueOf(DigitsIn(s, base), base) == v
  }

  lemma NumeralReads(v: nat, base: nat)
    requires base == 10 || base == 16
    ensures Denotes(Numeral(v, base), base, v)
  {
    NumeralIsDigits(v, base);
  }

  lemma ParseDenoting(s: seq<CHAR16>, base: nat, v: nat)
    requires Denotes(s, base, v) && v < WORD
    ensures NumberAtFront(s, base) == v
  {
    ParseDigits(s, base);
  }

  /** What a parser makes of a printed number is the number, for all 64-bit values. */
  lemma ParsePrinted(v: nat, base: nat)
    requires (base == 10 || base == 16) && v < WORD
    ensures NumberAtFront(Numeral(v, base), base) == v
  {
    NumeralReads(v, base);
    ParseDenoting(Numeral(v, base), base, v);
  }

  function Spaces(k: nat): (s: seq<CHAR16>)
    ensures |s| == k && forall i :: 0 <= i < k ==> s[i] == SPACE
  {
    seq(k, _ => SPACE)
  }

  /** Spaces in front of the digits and whatever comes behind them change nothing. */
  lemma ParseInText(k: nat, digits: seq<CHAR16>, rest: seq<CHAR16>, base: nat, v: nat)
    requires Denotes(digits, base, v) && v < WORD
    requires rest == [] || DigitOf(base)(rest[0]) < 0
    ensures NumberAtFront(Spaces(k) + digits + rest, base) == v
  {
    var s, e := Spaces(k) + digits + rest, k + |digits|;
    assert s[k] == digits[0] && s[k..e] == digits && (e < |s| ==> s[e] == rest[0]);
    SpacesSkipped(s, k);
    RunStops(s, k, e, base);
    ParseAt(s, k, e, base, v);
  }

  lemma RunStops(s: seq<CHAR16>, k: nat, e: nat, base: nat)
    requires k < e <= |s| && AllDigits(s[k..e], base) && (e < |s| ==> DigitOf(base)(s[e]) < 0)
    ensures RunEnd(s, k, base) == e
  {
    assert forall j :: k <= j < e ==> s[j] == s[k..e][j - k];
  }

  lemma ParseAt(s: seq<CHAR16>, k: nat, e: nat, base: nat, v: nat)
    requires k <= |s| && SkipSpaces(s, 0) == k && RunEnd(s, k, base) == e && Denotes(s[k..e], base, v) && v < WORD
    ensures NumberAtFront(s, base) == v
  {
  }

  lemma SpacesSkipped(s: seq<CHAR16>, k: nat)
    requires k < |s| && s[k] != SPACE && forall i :: 0 <= i < k ==> s[i] == SPACE
    ensures SkipSpaces(s, 0) == k
  {
  }

  /** So a printed number is found in any text in which it comes first and no digit follows it. */
  lemma ParsePrintedInText(v: nat, base: nat, k: nat, rest: seq<CHAR16>)
    requires (base == 10 || base == 16) && v < WORD && (rest == [] || DigitOf(base)(rest[0]) < 0)
    ensures NumberAtFront(Spaces(k) + Numeral(v, base) + rest, base) == v
  {
    NumeralReads(v, base);
    ParseInText(k, Numeral(v, base), rest, base, v);
  }

  function LowerCase(s: seq<CHAR16>): (t: seq<CHAR16>)
    ensures |t| == |s|
  {
    seq(|s|, i requires 0 <= i < |s| =>
      if 'A' as int <= s[i] <= 'Z' as int then s[i] + ('a' as int - 'A' as int) else s[i])
  }

  /** A hexadecimal number may as well be written in lower case. */
  lemma ParseLowerCase(v: nat)
    requires v < WORD
    ensures NumberAtFront(LowerCase(Numeral(v, 16)), 16) == v
  {
    NumeralReads(v, 16);
    LowerCaseReads(Numeral(v, 16), v);
    ParseDenoting(LowerCase(Numeral(v, 16)), 16, v);
  }

  lemma LowerCaseReads(s: seq<CHAR16>, v: nat)
    requires Denotes(s, 16, v)
    ensures Denotes(LowerCase(s), 16, v)
  {
    forall i | 0 <= i < |s|
      ensures LowerCase(s)[i] != SPACE && HexDigit(LowerCase(s)[i]) == HexDigit(s[i])
    {
    }
    assert DigitsIn(LowerCase(s), 16) == DigitsIn(s, 16);
  }

  /** A negative value is its sign in front of what the parser reads as its opposite. */
  lemma NegativeIsSigned(v: int)
    requires -0x8000_0000_0000_0000 <= v < 0
    ensures Decimal(v, false)[0] == MINUS && NumberAtFront(Decimal(v, false)[1..], 10) == -v
  {
    assert Decimal(v, false)[1..] == Numeral(-v, 10);
    ParsePrinted(-v, 10);
  }

  /** xtoi reads back what ValueToHex printed. */
  method HexRoundTrip(v: nat, buffer: array<CHAR16>) returns (u: nat)
    requires v < WORD && |Numeral(v, 16)| < buffer.Length
    modifies buffer
    ensures u == v
  {
    var n := ValueToHex(buffer, v);
    NumeralIsDigits(v, 16);
    ParsePrinted(v, 16);
    u := xtoi(buffer[..n]);
  }

  /** Atoi reads back what ValueToString printed without commas, for values that are not negative. */
  method DecimalRoundTrip(v: nat, buffer: array<CHAR16>) returns (u: nat)
    requires v < 0x8000_0000_0000_0000 && |Decimal(v, false)| < buffer.Length
    modifies buffer
    ensures u == v
  {
    var n := ValueToString(buffer, false, v);
    NumeralIsDigits(v, 10);
    ParsePrinted(v, 10);
    assert Decimal(v, false) == Numeral(v, 10);
    u := Atoi(buffer[..n]);
  }

  /** With commas, a numeral is the same sign and digits with commas in between. */
  lemma CommasCanBeTakenOut(v: int)
    ensures Digitals(Decimal(v, true)) == Decimal(v, false)
  {
    var sign, digits := if v < 0 then [MINUS] else [], Numeral(Magnitude(v), 10);
    NumeralIsDigits(Magnitude(v), 10);
    GroupingAddsCommasOnly(digits);
    DigitalsOfPlain(sign);
    DigitalsConcat(sign, Grouped(digits));
  }
}
