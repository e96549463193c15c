/** Bytes, text and the pieces of Qt's string handling that the coordinator and
    the storage node rely on: QString::number, QByteArray::indexOf, trimmed(),
    split() with and without Qt::SkipEmptyParts, and the C-locale integer
    conversions toInt / toLongLong / toUShort. */
module Common {

  /** An octet of a byte buffer, as a number. */
  newtype byte = b: int | 0 <= b < 256

  /** A 16-bit unsigned port number (quint16). */
  type Port = p: int | 0 <= p < 0x1_0000

  const Int32Min: int := -0x8000_0000
  const Int32Max: int := 0x7FFF_FFFF
  const Int64Min: int := -0x8000_0000_0000_0000
  const Int64Max: int := 0x7FFF_FFFF_FFFF_FFFF

  datatype Option<+T> = None | Some(value: T)

  function Min(a: int, b: int): int { if a <= b then a else b }

  function Max(a: int, b: int): int { if a <= b then b else a }

  /** `block` followed by copies of `fill` up to length `n` (a buffer that
      was zeroed before `block` was copied into it). */
  function Pad<T>(block: seq<T>, n: nat, fill: T): (r: seq<T>)
    requires |block| <= n
    ensures |r| == n && r[..|block|] == block
    ensures forall i :: |block| <= i < n ==> r[i] == fill
  {
    block + seq(n - |block|, _ => fill)
  }

  /** Padding the tail of a sequence pads the whole of it. */
  lemma {:induction false} PadAfter<T>(a: seq<T>, b: seq<T>, n: nat, fill: T)
    requires |b| <= n
    ensures a + Pad(b, n, fill) == Pad(a + b, |a| + n, fill)
  {
  }

  /** Concatenation regroups freely. */
  lemma {:induction false} ConcatAssociates<T>(a: seq<T>, b: seq<T>, c: seq<T>)
    ensures (a + b) + c == a + (b + c)
  {
  }

  /** The first |a| elements of a + b are a. */
  lemma {:induction false} PrefixOfConcat<T>(a: seq<T>, b: seq<T>)
    ensures (a + b)[..|a|] == a
  {
  }

  /** A slice from k is a prefix of the suffix from k. */
  lemma {:induction false} SliceOfSuffix<T>(s: seq<T>, k: nat, j: nat)
    requires k + j <= |s|
    ensures s[k..k + j] == s[k..][..j]
  {
  }

  // ---------------------------------------------------------------------------
  // Searching

  /** Position of the first occurrence of `x` in `s` (QByteArray::indexOf), or
      None when `x` does not occur. */
  function IndexOf<T(==)>(s: seq<T>, x: T): (r: Option<nat>)
    ensures r.None? <==> x !in s
    ensures r.Some? ==> r.value < |s| && s[r.value] == x && x !in s[..r.value]
  {
    var r := IndexFrom(s, x, 0);
    assert r.Some? ==> s[..r.value] == s[0..r.value];
    r
  }

  /** The first position at or after `i` that holds `x`. */
  function IndexFrom<T(==)>(s: seq<T>, x: T, i: nat): (r: Option<nat>)
    requires i <= |s|
    ensures r.None? <==> forall j :: i <= j < |s| ==> s[j] != x
    ensures r.Some? ==> i <= r.value < |s| && s[r.value] == x
                        && forall j :: i <= j < r.value ==> s[j] != x
    decreases |s| - i
  {
    if i == |s| then None
    else if s[i] == x then Some(i)
    else IndexFrom(s, x, i + 1)
  }

  /** The first occurrence of `x` in `a + [x] + b` is right after `a` when `a`
      does not contain `x`. */
  lemma {:induction false} IndexOfAfter<T>(a: seq<T>, x: T, b: seq<T>)
    requires x !in a
    ensures IndexOf(a + [x] + b, x) == Some(|a|)
  {
    var s := a + [x] + b;
    assert s[|a|] == x;
    assert forall j :: 0 <= j < |a| ==> s[j] == a[j];
    assert forall j :: |a| < j <= |s| ==> s[..j][|a|] == x;
  }

  // ---------------------------------------------------------------------------
  // Characters and bytes

  predicate IsDigit(c: char) { '0' <= c <= '9' }

  /** ASCII whitespace as QChar::isSpace sees it: space, \t, \n, \v, \f, \r. */
  predicate IsSpace(c: char) { c == ' ' || '\t' <= c <= '\r' }

  predicate AllDigits(s: string) { forall i :: 0 <= i < |s| ==> IsDigit(s[i]) }

  /** Every character is a single byte (Latin-1), so it survives a round trip
      through a byte buffer unchanged. */
  predicate IsByteText(s: string) { forall i :: 0 <= i < |s| ==> s[i] as int < 256 }

  /** The characters of a byte buffer, one per byte. */
  function CharsOf(bytes: seq<byte>): (s: string)
    ensures |s| == |bytes|
    ensures forall i :: 0 <= i < |s| ==> s[i] as int == bytes[i] as int
  {
    seq(|bytes|, i requires 0 <= i < |bytes| => (bytes[i] as int) as char)
  }

  /** The bytes of a text, one per character (the low eight bits). */
  function BytesOf(s: string): (b: seq<byte>)
    ensures |b| == |s|
    ensures forall i :: 0 <= i < |s| ==> b[i] as int == s[i] as int % 256
  {
    seq(|s|, i requires 0 <= i < |s| => (s[i] as int % 256) as byte)
  }

  lemma {:induction false} BytesOfConcat(a: string, b: string)
    ensures BytesOf(a + b) == BytesOf(a) + BytesOf(b)
  {
    assert forall i :: 0 <= i < |a + b| ==> BytesOf(a + b)[i] == (BytesOf(a) + BytesOf(b))[i];
  }

  lemma {:induction false} CharsOfBytesOf(s: string)
    requires IsByteText(s)
    ensures CharsOf(BytesOf(s)) == s
  {
    assert forall i :: 0 <= i < |s| ==> CharsOf(BytesOf(s))[i] == s[i];
  }

  // ---------------------------------------------------------------------------
  // Decimal numerals

  function DigitChar(d: nat): (c: char)
    requires d < 10
    ensures IsDigit(c)
  {
    ('0' as int + d) as char
  }

  function DigitValue(c: char): nat
    requires IsDigit(c)
  {
    c as int - '0' as int
  }

  /** The number a string of decimal digits denotes. */
  function DigitsValue(s: string): nat
    requires AllDigits(s)
  {
    if |s| == 0 then 0 else DigitsValue(s[..|s| - 1]) * 10 + DigitValue(s[|s| - 1])
  }

  /** QString::number of a non-negative integer: its shortest decimal form,
      which has no leading zero. */
  function NatToString(n: nat): (s: string)
    ensures |s| >= 1 && AllDigits(s)
    ensures s[0] == '0' ==> n == 0
    decreases n
  {
    if n < 10 then [DigitChar(n)] else NatToString(n / 10) + [DigitChar(n % 10)]
  }

  /** QString::number of any integer: a minus sign before negative numbers. */
  function IntToString(i: int): (s: string)
    ensures |s| >= 1 && (s[0] == '-' <==> i < 0)
  {
    if i < 0 then "-" + NatToString(-i) else NatToString(i)
  }

  lemma {:induction false} DigitsValueOfNatToString(n: nat)
    ensures DigitsValue(NatToString(n)) == n
    decreases n
  {
    if n >= 10 {
      var s := NatToString(n);
      assert s[..|s| - 1] == NatToString(n / 10);
      DigitsValueOfNatToString(n / 10);
    }
  }

  /** QString::number tells all integers apart. */
  lemma {:induction false} IntToStringInjective(a: int, b: int)
    requires IntToString(a) == IntToString(b)
    ensures a == b
  {
    if a < 0 {
      assert NatToString(-a) == IntToString(a)[1..];
      assert NatToString(-b) == IntToString(b)[1..];
      NatToStringInjective(-a, -b);
    } else {
      NatToStringInjective(a, b);
    }
  }

  /** Decimal forms of distinct naturals are distinct. */
  lemma {:induction false} NatToStringInjective(m: nat, n: nat)
    requires NatToString(m) == NatToString(n)
    ensures m == n
  {
    DigitsValueOfNatToString(m);
    DigitsValueOfNatToString(n);
  }

  // ---------------------------------------------------------------------------
  // Trimming

  function TrimStart(s: string): string
  {
    if |s| > 0 && IsSpace(s[0]) then TrimStart(s[1..]) else s
  }

  function TrimEnd(s: string): string
  {
    if |s| > 0 && IsSpace(s[|s| - 1]) then TrimEnd(s[..|s| - 1]) else s
  }

  /** QString::trimmed: whitespace removed from both ends. */
  function Trim(s: string): string
  {
    TrimEnd(TrimStart(s))
  }

  /** A text that neither starts nor ends with whitespace is its own trim. */
  lemma {:induction false} TrimUnchanged(s: string)
    requires s == [] || (!IsSpace(s[0]) && !IsSpace(s[|s| - 1]))
    ensures Trim(s) == s
  {
    assert TrimStart(s) == s;
  }

  // ---------------------------------------------------------------------------
  // Splitting and joining

  /** Each part preceded by the separator. */
  function Separated(parts: seq<string>, sep: char): string
  {
    if |parts| == 0 then "" else [sep] + parts[0] + Separated(parts[1..], sep)
  }

  lemma {:induction false} SeparatedOne(a: string, sep: char)
    ensures Separated([a], sep) == [sep] + a
  {
    assert [a][1..] == [];
  }

  lemma {:induction false} SeparatedTwo(a: string, b: string, sep: char)
    ensures Separated([a, b], sep) == [sep] + a + [sep] + b
  {
    assert [a, b][1..] == [b];
    SeparatedOne(b, sep);
  }

  /** The parts with one separator between neighbours. */
  function Join(parts: seq<string>, sep: char): string
  {
    if |parts| == 0 then "" else parts[0] + Separated(parts[1..], sep)
  }

  lemma {:induction false} SeparatedConcat(a: seq<string>, b: seq<string>, sep: char)
    ensures Separated(a + b, sep) == Separated(a, sep) + Separated(b, sep)
    decreases |a|
  {
    if |a| > 0 {
      assert (a + b)[1..] == a[1..] + b;
      SeparatedConcat(a[1..], b, sep);
    } else {
      assert a + b == b;
    }
  }

  /** QByteArray::split(sep): every separator ends a part; empty parts are
      kept, so the result is never empty and joining it gives `s` back. */
  function Split(s: string, sep: char): (parts: seq<string>)
    ensures |parts| >= 1
    ensures forall i :: 0 <= i < |parts| ==> sep !in parts[i]
    decreases |s|
  {
    match IndexOf(s, sep)
    case None => [s]
    case Some(i) => [s[..i]] + Split(s[i + 1..], sep)
  }

  /** Joining a part in front of at least one more part puts one separator
      between them. */
  lemma {:induction false} JoinCons(head: string, rest: seq<string>, sep: char)
    requires |rest| >= 1
    ensures Join([head] + rest, sep) == head + [sep] + Join(rest, sep)
  {
    assert ([head] + rest)[0] == head;
    assert ([head] + rest)[1..] == rest;
  }

  /** Joining the parts of a split gives the text back. */
  lemma {:induction false} JoinOfSplit(s: string, sep: char)
    ensures Join(Split(s, sep), sep) == s
    decreases |s|
  {
    match IndexOf(s, sep)
    case None =>
      assert Split(s, sep) == [s];
      assert Join([s], sep) == s + Separated([], sep);
    case Some(i) =>
      JoinOfSplit(s[i + 1..], sep);
      JoinOfSplitStep(s, sep, i);
  }

  /** The step of JoinOfSplit at the first separator, at index i. */
  lemma {:induction false} JoinOfSplitStep(s: string, sep: char, i: nat)
    requires IndexOf(s, sep) == Some(i)
    requires Join(Split(s[i + 1..], sep), sep) == s[i + 1..]
    ensures Join(Split(s, sep), sep) == s
  {
    var tail := s[i + 1..];
    var rest := Split(tail, sep);
    assert Split(s, sep) == [s[..i]] + rest;
    JoinCons(s[..i], rest, sep);
    assert s == s[..i] + [sep] + tail;
  }

  /** Splitting undoes joining when no part contains the separator. */
  lemma {:induction false} SplitOfJoin(parts: seq<string>, sep: char)
    requires |parts| >= 1
    requires forall i :: 0 <= i < |parts| ==> sep !in parts[i]
    ensures Split(Join(parts, sep), sep) == parts
    decreases |parts|
  {
    if |parts| == 1 {
      assert Join(parts, sep) == parts[0];
    } else {
      var rest := parts[1..];
      assert parts == [parts[0]] + rest;
      JoinCons(parts[0], rest, sep);
      var tail := Join(rest, sep);
      IndexOfAfter(parts[0], sep, tail);
      var s := parts[0] + [sep] + tail;
      assert s[|parts[0]| + 1..] == tail;
      assert s[..|parts[0]|] == parts[0];
      SplitOfJoin(rest, sep);
    }
  }

  /** The parts that are not empty, in order. */
  function DropEmpty(parts: seq<string>): (r: seq<string>)
  {
    if |parts| == 0 then []
    else if parts[0] == [] then DropEmpty(parts[1..])
    else [parts[0]] + DropEmpty(parts[1..])
  }

  /** QString::split(sep, Qt::SkipEmptyParts). */
  function SplitSkipEmpty(s: string, sep: char): (parts: seq<string>)
  {
    DropEmpty(Split(s, sep))
  }

  lemma {:induction false} DropEmptyUnchanged(parts: seq<string>)
    requires forall i :: 0 <= i < |parts| ==> parts[i] != []
    ensures DropEmpty(parts) == parts
    decreases |parts|
  {
    if |parts| > 0 {
      DropEmptyUnchanged(parts[1..]);
    }
  }

  /** Tokens that are non-empty and free of the separator are recovered from
      their join, even when empty parts are skipped. */
  lemma {:induction false} SplitSkipEmptyOfJoin(tokens: seq<string>, sep: char)
    requires |tokens| >= 1
    requires forall i :: 0 <= i < |tokens| ==> tokens[i] != [] && sep !in tokens[i]
    ensures SplitSkipEmpty(Join(tokens, sep), sep) == tokens
  {
    SplitOfJoin(tokens, sep);
    DropEmptyUnchanged(tokens);
  }

  /** A property of characters that holds of the separator and of every
      character of every part holds of every character of the join. */
  lemma {:induction false} JoinKeeps(parts: seq<string>, sep: char, p: char -> bool)
    requires p(sep)
    requires forall k, j :: 0 <= k < |parts| && 0 <= j < |parts[k]| ==> p(parts[k][j])
    ensures forall i :: 0 <= i < |Join(parts, sep)| ==> p(Join(parts, sep)[i])
    decreases |parts|
  {
    if |parts| == 1 {
      assert Join(parts, sep) == parts[0] + Separated([], sep);
    } else if |parts| > 1 {
      var rest := parts[1..];
      JoinCons(parts[0], rest, sep);
      assert [parts[0]] + rest == parts;
      JoinKeeps(rest, sep, p);
      var t := parts[0] + [sep] + Join(rest, sep);
      assert forall i :: 0 <= i < |parts[0]| ==> t[i] == parts[0][i];
      assert forall i :: |parts[0]| < i < |t| ==> t[i] == Join(rest, sep)[i - |parts[0]| - 1];
    }
  }

  /** The join of non-empty parts starts with the first part's first
      character and ends with the last part's last character. */
  lemma {:induction false} JoinEnds(parts: seq<string>, sep: char)
    requires |parts| >= 1 && forall k :: 0 <= k < |parts| ==> parts[k] != []
    ensures var s := Join(parts, sep); var last := parts[|parts| - 1];
      |s| >= 1 && s[0] == parts[0][0] && s[|s| - 1] == last[|last| - 1]
    decreases |parts|
  {
    if |parts| == 1 {
      assert Join(parts, sep) == parts[0] + Separated([], sep);
    } else {
      var rest := parts[1..];
      JoinCons(parts[0], rest, sep);
      assert [parts[0]] + rest == parts;
      JoinEnds(rest, sep);
    }
  }

  // ---------------------------------------------------------------------------
  // Integer conversion

  /** An optionally signed decimal numeral, read as Qt's C-locale conversion
      reads it after skipping surrounding whitespace; a minus sign is accepted
      only by the signed conversions. */
  function ParseDecimal(s: string, signed: bool): Option<int>
  {
    var t := Trim(s);
    if |t| >= 2 && t[0] == '-' && signed && AllDigits(t[1..]) then Some(0 - DigitsValue(t[1..]))
    else if |t| >= 2 && t[0] == '+' && AllDigits(t[1..]) then Some(DigitsValue(t[1..]))
    else if |t| >= 1 && AllDigits(t) then Some(DigitsValue(t))
    else None
  }

  /** Qt's integer conversion: the value of the numeral when it parses and
      lies in [lo, hi]; 0 when it does not. */
  function ToIntegral(s: string, lo: int, hi: int, signed: bool): (v: int)
    requires lo <= 0 <= hi
    ensures lo <= v <= hi
    ensures ParseDecimal(s, signed).None? ==> v == 0
  {
    match ParseDecimal(s, signed)
    case Some(n) => if lo <= n <= hi then n else 0
    case None => 0
  }

  /** QString::toInt */
  function ToInt(s: string): int { ToIntegral(s, Int32Min, Int32Max, true) }

  /** QByteArray::toLongLong */
  function ToLongLong(s: string): int { ToIntegral(s, Int64Min, Int64Max, true) }

  /** QByteArray::toUShort */
  function ToUShort(s: string): Port { ToIntegral(s, 0, 0xFFFF, false) }

  /** Converting the decimal form of an in-range number gives the number back. */
  lemma {:induction false} ToIntegralOfIntToString(i: int, lo: int, hi: int, signed: bool)
    requires lo <= 0 <= hi && lo <= i <= hi
    requires i < 0 ==> signed
    ensures ToIntegral(IntToString(i), lo, hi, signed) == i
  {
    var s := IntToString(i);
    TrimUnchanged(s);
    if i < 0 {
      assert s[1..] == NatToString(-i);
      DigitsValueOfNatToString(-i);
    } else {
      DigitsValueOfNatToString(i);
    }
  }
}
