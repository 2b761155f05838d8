/** The pieces of Go's `strings` and `strconv` packages that the path
    description parser and the ISD-AS text format rely on: splitting on one
    separator character, joining back, and unsigned integers in base 10 and
    base 16. */
module Text {
  import opened Wrappers

  /** `strings.Split(s, string(sep))`: the pieces between the separators, in
      order; the empty string gives one empty piece. */
  function Split(s: string, sep: char): (parts: seq<string>)
    ensures |parts| >= 1
  {
    if s == [] then [[]]
    else
      var rest := Split(s[1..], sep);
      if s[0] == sep then [[]] + rest else [[s[0]] + rest[0]] + rest[1..]
  }

  /** No piece holds the separator, and joining the pieces gives back the
      text. */
  lemma {:induction false} JoinSplit(s: string, sep: char)
    ensures forall i :: 0 <= i < |Split(s, sep)| ==> sep !in Split(s, sep)[i]
    ensures Join(Split(s, sep), sep) == s
    decreases |s|
  {
    if s != [] {
      var rest := Split(s[1..], sep);
      JoinSplit(s[1..], sep);
      assert s == [s[0]] + s[1..];
      if s[0] != sep {
        var parts := [[s[0]] + rest[0]] + rest[1..];
        assert |rest| > 1 ==> Join(rest, sep) == rest[0] + [sep] + Join(rest[1..], sep);
        assert forall i :: 1 <= i < |parts| ==> parts[i] == rest[i];
      }
    }
  }

  /** `strings.Join(parts, string(sep))`. */
  function Join(parts: seq<string>, sep: char): string
    requires |parts| >= 1
  {
    if |parts| == 1 then parts[0] else parts[0] + [sep] + Join(parts[1..], sep)
  }

  /** A piece without the separator splits to itself. */
  lemma {:induction false} SplitNoSeparator(a: string, sep: char)
    requires sep !in a
    ensures Split(a, sep) == [a]
  {
    if a != [] {
      SplitNoSeparator(a[1..], sep);
      assert a == [a[0]] + a[1..];
    }
  }

  /** Splitting `a + sep + rest` peels off `a` when `a` has no separator. */
  lemma {:induction false} SplitCons(a: string, sep: char, rest: string)
    requires sep !in a
    ensures Split(a + [sep] + rest, sep) == [a] + Split(rest, sep)
  {
    if a == [] {
      assert a + [sep] + rest == [sep] + rest;
      assert ([sep] + rest)[1..] == rest;
    } else {
      SplitCons(a[1..], sep, rest);
      assert (a + [sep] + rest)[1..] == a[1..] + [sep] + rest;
      assert [a[0]] + a[1..] == a;
    }
  }

  /** Split undoes Join when no piece holds the separator. */
  lemma {:induction false} SplitJoin(parts: seq<string>, sep: char)
    requires |parts| >= 1
    requires forall i :: 0 <= i < |parts| ==> sep !in parts[i]
    ensures Split(Join(parts, sep), sep) == parts
  {
    if |parts| == 1 {
      SplitNoSeparator(parts[0], sep);
    } else {
      SplitJoin(parts[1..], sep);
      SplitCons(parts[0], sep, Join(parts[1..], sep));
      assert [parts[0]] + parts[1..] == parts;
    }
  }

  /** Joining one more piece appends the separator and that piece. */
  lemma {:induction false} JoinSnoc(parts: seq<string>, sep: char, last: string)
    requires |parts| >= 1
    ensures Join(parts + [last], sep) == Join(parts, sep) + [sep] + last
    decreases |parts|
  {
    if |parts| > 1 {
      JoinSnoc(parts[1..], sep, last);
      assert (parts + [last])[1..] == parts[1..] + [last];
    }
  }

  /** Two pieces joined by the separator split back into those pieces. */
  lemma {:induction false} SplitTwo(a: string, b: string, sep: char)
    requires sep !in a && sep !in b
    ensures Split(a + [sep] + b, sep) == [a, b]
  {
    SplitCons(a, sep, b);
    SplitNoSeparator(b, sep);
  }

  /** Three pieces joined by the separator split back into those pieces. */
  lemma {:induction false} SplitThree(a: string, b: string, c: string, sep: char)
    requires sep !in a && sep !in b && sep !in c
    ensures Split(a + [sep] + b + [sep] + c, sep) == [a, b, c]
  {
    var bc := b + [sep] + c;
    calc {
      Split(a + [sep] + b + [sep] + c, sep);
      { assert a + [sep] + b + [sep] + c == a + [sep] + bc; }
      Split(a + [sep] + bc, sep);
      { SplitCons(a, sep, bc); }
      [a] + Split(bc, sep);
      { SplitTwo(b, c, sep); }
      [a, b, c];
    }
  }

  /** The regular-expression class `\d`: an ASCII decimal digit. */
  predicate IsDecDigit(c: char) {
    '0' <= c <= '9'
  }

  /** `\d+`: a non-empty run of decimal digits. */
  predicate IsDecimal(s: string) {
    |s| > 0 && forall i :: 0 <= i < |s| ==> IsDecDigit(s[i])
  }

  /** The two bases the core reads and prints numbers in. */
  datatype Base = Decimal | Hex

  function Radix(b: Base): nat {
    match b
    case Decimal => 10
    case Hex => 16
  }

  /** The value of one digit of base `b` (letters in either case), or None
      when `c` is not a digit of that base. */
  function DigitValue(c: char, b: Base): (d: Option<nat>)
    ensures d.Some? ==> d.value < Radix(b)
  {
    var v :=
      if '0' <= c <= '9' then (c as int) - ('0' as int)
      else if 'a' <= c <= 'f' then (c as int) - ('a' as int) + 10
      else if 'A' <= c <= 'F' then (c as int) - ('A' as int) + 10
      else 16;
    if v < Radix(b) then Some(v) else None
  }

  /** The lower-case digit character for `d`, as strconv and fmt print it. */
  function DigitChar(d: nat): (c: char)
    requires d < 16
    ensures DigitValue(c, Hex) == Some(d)
    ensures d < 10 ==> IsDecDigit(c) && DigitValue(c, Decimal) == Some(d)
  {
    if d < 10 then ('0' as int + d) as char else ('a' as int + d - 10) as char
  }

  /** The value of a run of digits, most significant first; None as soon as
      one character is not a digit of base `b`. */
  function DigitsValue(s: string, b: Base): Option<nat>
  {
    if s == [] then Some(0)
    else
      match (DigitsValue(s[..|s| - 1], b), DigitValue(s[|s| - 1], b))
      case (Some(v), Some(d)) => Some(Shift(v, b) + d)
      case _ => None
  }

  /** `v` moved one digit to the left in base `b`. */
  function Shift(v: nat, b: Base): nat {
    match b
    case Decimal => v * 10
    case Hex => v * 16
  }

  datatype NumError = ErrSyntax | ErrRange

  /** `strconv.ParseUint(s, base, bitSize)` with `limit` = 2^bitSize: the empty
      string and a non-digit are syntax errors, a value of `limit` or more is a
      range error. */
  function ParseUint(s: string, b: Base, limit: nat): (r: Result<nat, NumError>)
    ensures r.Ok? ==> r.value < limit && |s| > 0
    ensures s == [] ==> r == Err(ErrSyntax)
  {
    if s == [] then Err(ErrSyntax)
    else
      match DigitsValue(s, b)
      case None => Err(ErrSyntax)
      case Some(v) => if v < limit then Ok(v) else Err(ErrRange)
  }

  /** `strconv.FormatUint(n, base)` (and fmt's `%x` for base 16): no leading
      zeros, lower-case letters. */
  function FormatUint(n: nat, b: Base): (s: string)
    ensures |s| >= 1
    ensures b == Decimal ==> IsDecimal(s)
    decreases n
  {
    match b
    case Decimal =>
      if n < 10 then [DigitChar(n)] else FormatUint(n / 10, b) + [DigitChar(n % 10)]
    case Hex =>
      if n < 16 then [DigitChar(n)] else FormatUint(n / 16, b) + [DigitChar(n % 16)]
  }

  /** Printed digits read back as the number printed. */
  lemma {:induction false} DigitsValueFormat(n: nat, b: Base)
    ensures DigitsValue(FormatUint(n, b), b) == Some(n)
    decreases n
  {
    var s := FormatUint(n, b);
    if n < Radix(b) {
      assert s[..|s| - 1] == [];
    } else {
      DigitsValueFormat(n / Radix(b), b);
      assert s[..|s| - 1] == FormatUint(n / Radix(b), b);
    }
  }

  /** ParseUint reads back what FormatUint prints, below the bit-size limit. */
  lemma {:induction false} ParseFormatUint(n: nat, b: Base, limit: nat)
    requires n < limit
    ensures ParseUint(FormatUint(n, b), b, limit) == Ok(n)
  {
    DigitsValueFormat(n, b);
  }

  /** No printed number holds a character that is not a digit of base 16. */
  lemma {:induction false} FormatUintHexDigits(n: nat, b: Base, c: char)
    requires DigitValue(c, Hex).None?
    ensures c !in FormatUint(n, b)
    decreases n
  {
    if n >= Radix(b) {
      FormatUintHexDigits(n / Radix(b), b, c);
    }
  }
}
