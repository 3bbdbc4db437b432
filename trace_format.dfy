/** Trace lines. The replay loop reads each line with the scan format
    " %c %lx,%d" (an operation character, a hexadecimal address, a comma and
    a decimal size) and, in verbose mode, echoes the entry with the print
    format "%c %lx,%d". `ParseLine` is a simplified model of that scan and
    `FormatEntry` of that echo; the echo parses back to the same entry. */
module TraceFormat {

  datatype Option<T> = None | Some(value: T)

  /** One parsed trace line: operation character, address and size. */
  datatype Entry = Entry(op: char, address: nat, size: int)

  /** The characters a scan directive treats as white space. */
  predicate IsSpace(c: char)
  {
    c == ' ' || c == '\t' || c == '\n' || c == '\r' || c == '\U{000B}' || c == '\U{000C}'
  }

  predicate IsDigit(c: char)
  {
    '0' <= c <= '9'
  }

  predicate IsHexDigit(c: char)
  {
    IsDigit(c) || 'a' <= c <= 'f' || 'A' <= c <= 'F'
  }

  function HexDigitValue(c: char): (v: nat)
    requires IsHexDigit(c)
    ensures v < 16
  {
    if IsDigit(c) then c as int - '0' as int
    else if 'a' <= c <= 'f' then c as int - 'a' as int + 10
    else c as int - 'A' as int + 10
  }

  function DigitValue(c: char): (v: nat)
    requires IsDigit(c)
    ensures v < 10
  {
    c as int - '0' as int
  }

  /** What is left of `s` once leading white space is skipped. */
  function SkipSpaces(s: string): (r: string)
    ensures |r| <= |s|
    ensures r == [] || !IsSpace(r[0])
  {
    if s != [] && IsSpace(s[0]) then SkipSpaces(s[1..]) else s
  }

  /** Skipping white space keeps a suffix of the text and drops only white
      space in front of it. */
  lemma {:induction false} SkipSpacesDropsOnlySpaces(s: string)
    ensures var r := SkipSpaces(s);
      r == s[|s| - |r|..] && forall k :: 0 <= k < |s| - |r| ==> IsSpace(s[k])
  {
    if s != [] && IsSpace(s[0]) {
      SkipSpacesDropsOnlySpaces(s[1..]);
    }
  }

  /** Length of the longest prefix of hexadecimal digits. */
  function HexRunLength(s: string): (n: nat)
    ensures n <= |s|
    ensures forall k :: 0 <= k < n ==> IsHexDigit(s[k])
    ensures n < |s| ==> !IsHexDigit(s[n])
  {
    if s != [] && IsHexDigit(s[0]) then 1 + HexRunLength(s[1..]) else 0
  }

  /** Length of the longest prefix of decimal digits. */
  function DecRunLength(s: string): (n: nat)
    ensures n <= |s|
    ensures forall k :: 0 <= k < n ==> IsDigit(s[k])
    ensures n < |s| ==> !IsDigit(s[n])
  {
    if s != [] && IsDigit(s[0]) then 1 + DecRunLength(s[1..]) else 0
  }

  /** The number a string of hexadecimal digits denotes. */
  function HexValue(d: string): nat
    requires forall k :: 0 <= k < |d| ==> IsHexDigit(d[k])
  {
    if d == [] then 0 else 16 * HexValue(d[..|d| - 1]) + HexDigitValue(d[|d| - 1])
  }

  /** The number a string of decimal digits denotes. */
  function DecValue(d: string): nat
    requires forall k :: 0 <= k < |d| ==> IsDigit(d[k])
  {
    if d == [] then 0 else 10 * DecValue(d[..|d| - 1]) + DigitValue(d[|d| - 1])
  }

  /** The `%lx` directive: skip white space, accept an optional `0x`/`0X` prefix,
      then at least one hexadecimal digit; yields the value and the rest. */
  function ScanHex(s: string): (r: Option<(nat, string)>)
    ensures r.Some? ==> |r.value.1| < |s|
  {
    var t := SkipSpaces(s);
    var u := if |t| >= 3 && t[0] == '0' && (t[1] == 'x' || t[1] == 'X') && IsHexDigit(t[2]) then t[2..] else t;
    var n := HexRunLength(u);
    if n == 0 then None else Some((HexValue(u[..n]), u[n..]))
  }

  /** The `%d` directive: skip white space, accept an optional sign, then at least
      one decimal digit; yields the value and the rest. */
  function ScanDec(s: string): (r: Option<(int, string)>)
    ensures r.Some? ==> |r.value.1| < |s|
  {
    var t := SkipSpaces(s);
    var u := if t != [] && (t[0] == '-' || t[0] == '+') then t[1..] else t;
    var n := DecRunLength(u);
    if n == 0 then None
    else
      var magnitude: int := DecValue(u[..n]);
      Some((if t[0] == '-' then -magnitude else magnitude, u[n..]))
  }

  /** The scan of " %c %lx,%d" succeeding with all three fields converted; what
      follows the size is ignored. */
  function ParseLine(line: string): (r: Option<Entry>)
    ensures r.Some? ==> !IsSpace(r.value.op)
  {
    var t := SkipSpaces(line);
    if t == [] then None
    else
      match ScanHex(t[1..])
      case None => None
      case Some((address, rest)) =>
        if rest == [] || rest[0] != ',' then None
        else
          match ScanDec(rest[1..])
          case None => None
          case Some((size, _)) => Some(Entry(t[0], address, size))
  }

  // ---------------------------------------------------------------------
  // The verbose echo "%c %lx,%d"

  function HexDigitChar(v: nat): (c: char)
    requires v < 16
    ensures IsHexDigit(c) && HexDigitValue(c) == v
  {
    if v < 10 then (v + '0' as int) as char else (v - 10 + 'a' as int) as char
  }

  function DigitChar(v: nat): (c: char)
    requires v < 10
    ensures IsDigit(c) && DigitValue(c) == v
  {
    (v + '0' as int) as char
  }

  /** `%lx`: lower-case hexadecimal, no prefix, no leading zeros. */
  function Hex(n: nat): (d: string)
    ensures |d| >= 1 && forall k :: 0 <= k < |d| ==> IsHexDigit(d[k])
    ensures n > 0 ==> d[0] != '0'
  {
    if n < 16 then [HexDigitChar(n)] else Hex(n / 16) + [HexDigitChar(n % 16)]
  }

  /** `%d` of a non-negative value. */
  function Dec(n: nat): (d: string)
    ensures |d| >= 1 && forall k :: 0 <= k < |d| ==> IsDigit(d[k])
  {
    if n < 10 then [DigitChar(n)] else Dec(n / 10) + [DigitChar(n % 10)]
  }

  /** `%d`: a minus sign before negative values. */
  function SignedDec(z: int): string
  {
    if z < 0 then "-" + Dec(-z) else Dec(z)
  }

  /** The verbose echo of an entry. */
  function FormatEntry(e: Entry): string
  {
    [e.op] + " " + Hex(e.address) + "," + SignedDec(e.size)
  }

  // ---------------------------------------------------------------------
  // Round trip

  lemma {:induction false} HexValueOfHex(n: nat)
    ensures HexValue(Hex(n)) == n
  {
    if n >= 16 {
      HexValueOfHex(n / 16);
      var d := Hex(n);
      assert d[..|d| - 1] == Hex(n / 16);
    }
  }

  lemma {:induction false} DecValueOfDec(n: nat)
    ensures DecValue(Dec(n)) == n
  {
    if n >= 10 {
      DecValueOfDec(n / 10);
      var d := Dec(n);
      assert d[..|d| - 1] == Dec(n / 10);
    }
  }

  lemma {:induction false} SkipSpacesOverPad(pad: string, s: string)
    requires forall k :: 0 <= k < |pad| ==> IsSpace(pad[k])
    ensures SkipSpaces(pad + s) == SkipSpaces(s)
  {
    if pad != [] {
      var ps := pad + s;
      assert ps[0] == pad[0] && IsSpace(ps[0]);
      assert ps[1..] == pad[1..] + s;
      assert SkipSpaces(ps) == SkipSpaces(ps[1..]);
      SkipSpacesOverPad(pad[1..], s);
    } else {
      assert pad + s == s;
    }
  }

  lemma {:induction false} HexRunOverDigits(d: string, tail: string)
    requires forall k :: 0 <= k < |d| ==> IsHexDigit(d[k])
    requires tail == [] || !IsHexDigit(tail[0])
    ensures HexRunLength(d + tail) == |d|
  {
    if d != [] {
      assert (d + tail)[1..] == d[1..] + tail;
      HexRunOverDigits(d[1..], tail);
    }
  }

  lemma {:induction false} DecRunOverDigits(d: string, tail: string)
    requires forall k :: 0 <= k < |d| ==> IsDigit(d[k])
    requires tail == [] || !IsDigit(tail[0])
    ensures DecRunLength(d + tail) == |d|
  {
    if d != [] {
      assert (d + tail)[1..] == d[1..] + tail;
      DecRunOverDigits(d[1..], tail);
    }
  }

  lemma ScanHexOfHex(n: nat, tail: string)
    requires tail != [] && tail[0] == ','
    ensures ScanHex(Hex(n) + tail) == Some((n, tail))
  {
    var s := Hex(n) + tail;
    assert SkipSpaces(s) == s;
    assert !(|s| >= 3 && s[0] == '0' && (s[1] == 'x' || s[1] == 'X')) by {
      if n == 0 {
        assert Hex(n) == "0";
        assert s[1] == ',';
      }
    }
    HexRunOverDigits(Hex(n), tail);
    assert s[..|Hex(n)|] == Hex(n);
    assert s[|Hex(n)|..] == tail;
    HexValueOfHex(n);
  }

  lemma ScanDecOfDigits(n: nat, tail: string)
    requires tail == [] || !IsDigit(tail[0])
    ensures ScanDec(Dec(n) + tail) == Some((n, tail))
  {
    var d := Dec(n);
    var s := d + tail;
    assert s[0] == d[0];
    assert SkipSpaces(s) == s;
    DecRunOverDigits(d, tail);
    assert s[..|d|] == d && s[|d|..] == tail;
    DecValueOfDec(n);
  }

  /** A minus sign in front of text that starts with neither white space nor a
      sign negates what `%d` reads and leaves the rest as it was; when `%d`
      fails on the text it fails with the minus sign too. */
  lemma ScanDecOfMinus(x: string)
    requires x == [] || (!IsSpace(x[0]) && x[0] != '-' && x[0] != '+')
    ensures var r := ScanDec(x);
      ScanDec(['-'] + x) == if r.Some? then Some((-r.value.0, r.value.1)) else None
  {
    var s := ['-'] + x;
    assert SkipSpaces(s) == s;
    assert SkipSpaces(x) == x;
    assert s[1..] == x;
  }

  /** If `%d` reads v from digits `d` followed by `tail`, it reads -v once a
      minus sign is put in front. */
  lemma ScanDecNegated(d: string, v: int, tail: string)
    requires d != [] && IsDigit(d[0])
    requires ScanDec(d + tail) == Some((v, tail))
    ensures ScanDec("-" + d + tail) == Some((-v, tail))
  {
    var x := d + tail;
    assert x[0] == d[0];
    ScanDecOfMinus(x);
    MinusInFront(d, tail);
  }

  lemma MinusInFront(d: string, tail: string)
    ensures "-" + d + tail == ['-'] + (d + tail)
  {
  }

  lemma ScanDecOfNegative(n: nat, tail: string)
    requires n > 0
    requires tail == [] || !IsDigit(tail[0])
    ensures ScanDec("-" + Dec(n) + tail) == Some((-(n as int), tail))
  {
    ScanDecOfDigits(n, tail);
    ScanDecNegated(Dec(n), n, tail);
  }

  lemma ScanDecOfSignedDec(z: int, tail: string)
    requires tail == [] || !IsDigit(tail[0])
    ensures ScanDec(SignedDec(z) + tail) == Some((z, tail))
  {
    if z < 0 {
      ScanDecOfNegative(-z, tail);
    } else {
      ScanDecOfDigits(z, tail);
    }
  }

  /** How a successful scan is put together from the three directives. */
  lemma ParseLineOfFields(line: string, address: nat, rest: string, size: int, tail: string)
    requires SkipSpaces(line) != []
    requires ScanHex(SkipSpaces(line)[1..]) == Some((address, rest))
    requires rest != [] && rest[0] == ','
    requires ScanDec(rest[1..]) == Some((size, tail))
    ensures ParseLine(line) == Some(Entry(SkipSpaces(line)[0], address, size))
  {
  }

  lemma SkipToOperation(op: char, pad: string, afterOp: string)
    requires !IsSpace(op)
    requires forall k :: 0 <= k < |pad| ==> IsSpace(pad[k])
    ensures SkipSpaces(pad + ([op] + afterOp)) == [op] + afterOp
  {
    SkipSpacesOverPad(pad, [op] + afterOp);
    assert ([op] + afterOp)[0] == op;
  }

  lemma ScanHexAfterSpace(address: nat, rest: string)
    requires rest != [] && rest[0] == ','
    ensures ScanHex(" " + (Hex(address) + rest)) == Some((address, rest))
  {
    var digits := Hex(address) + rest;
    SkipSpacesOverPad(" ", digits);
    assert SkipSpaces(digits) == digits by {
      assert digits[0] == Hex(address)[0];
    }
    ScanHexOfHex(address, rest);
  }

  /** The verbose echo of an entry, with any leading white space and any
      trailing text that does not continue the size, scans back to the entry. */
  lemma ParseFormatted(e: Entry, pad: string, tail: string)
    requires !IsSpace(e.op)
    requires forall k :: 0 <= k < |pad| ==> IsSpace(pad[k])
    requires tail == [] || !IsDigit(tail[0])
    ensures ParseLine(pad + FormatEntry(e) + tail) == Some(e)
  {
    var rest := "," + (SignedDec(e.size) + tail);
    var afterOp := " " + (Hex(e.address) + rest);
    var line := pad + FormatEntry(e) + tail;
    assert line == pad + ([e.op] + afterOp);
    SkipToOperation(e.op, pad, afterOp);
    assert ([e.op] + afterOp)[1..] == afterOp;
    ScanHexAfterSpace(e.address, rest);
    assert rest[1..] == SignedDec(e.size) + tail;
    ScanDecOfSignedDec(e.size, tail);
    ParseLineOfFields(line, e.address, rest, e.size, tail);
  }
}
