/** Definitions shared by the field codecs and the layout engine: the byte
    type, the record size, the outcome of a field update, windows into a
    buffer, the text forms of numbers, and the digit parser the codecs use
    (the `strtoi`/`strtoi_base` helpers of common.h, which is not part of
    this model and is specified here from its use in field.c). */
module Common {

  /** One byte of the EEPROM image. */
  type byte = x: int | 0 <= x < 256

  /** Size of the EEPROM record (EEPROM_SIZE in eeprom.h). */
  const EEPROM_SIZE: nat := 256

  datatype Option<T> = None | Some(value: T)

  /** The reasons a field update is refused, one per diagnostic of field.c. */
  datatype FieldError =
    | TooLong        // "Value is too long"
    | SyntaxError    // "Syntax error"
    | NotPositive    // "Version must be positive"
    | MinorTooLong   // "Minor version is 1-2 digits"
    | TooBig         // "Version is too big"
    | InvalidDay     // "Invalid day"
    | InvalidMonth   // "Invalid month"
    | InvalidDate    // "Invalid date"
    | YearOverflow   // "Year overflow"
    | NotUpdatable   // the field type has no update or clear operation

  /** Outcome of a field operation: 0 or -1 in the source. */
  datatype Status = Done | Failed(error: FieldError)

  /** What an update does to a field: its outcome and the field's new bytes
      (which, for some failures, already carry partial writes). */
  datatype Effect = Effect(status: Status, window: seq<byte>)

  // ---------------------------------------------------------------------
  // Windows into a buffer

  /** `s` with the bytes from `off` on replaced by `w`. */
  function Splice(s: seq<byte>, off: nat, w: seq<byte>): (r: seq<byte>)
    requires off + |w| <= |s|
    ensures |r| == |s|
  {
    s[..off] + w + s[off + |w|..]
  }

  /** `n` copies of the byte `v` (what `memset` writes). */
  function Fill(n: nat, v: byte): (r: seq<byte>)
    ensures |r| == n && forall k :: 0 <= k < n ==> r[k] == v
  {
    seq(n, _ => v)
  }

  function Zeros(n: nat): (r: seq<byte>)
    ensures |r| == n && forall k :: 0 <= k < n ==> r[k] == 0
  {
    Fill(n, 0)
  }

  /** `cur` agrees with `s` spliced with `w`, stated byte by byte. */
  lemma SplicePointwise(s: seq<byte>, cur: seq<byte>, off: nat, w: seq<byte>)
    requires off + |w| <= |s| == |cur|
    requires forall k :: 0 <= k < |s| ==> cur[k] == if off <= k < off + |w| then w[k - off] else s[k]
    ensures cur == Splice(s, off, w)
  {
  }

  /** An array that holds `w` from `off` on and the bytes of `s` elsewhere. */
  lemma ArrayPointwise(buf: array<byte>, s: seq<byte>, off: nat, w: seq<byte>)
    requires off + |w| <= |s| == buf.Length
    requires forall k :: 0 <= k < buf.Length ==>
      buf[k] == if off <= k < off + |w| then w[k - off] else s[k]
    ensures buf[..] == Splice(s, off, w)
  {
    SplicePointwise(s, buf[..], off, w);
  }

  /** An array that holds `w` from `off` on, zeros after it up to `off + n`,
      and the bytes of `s` elsewhere. */
  lemma ArrayZeroFilled(buf: array<byte>, s: seq<byte>, off: nat, n: nat, w: seq<byte>)
    requires |w| <= n && off + n <= |s| == buf.Length
    requires forall k :: 0 <= k < buf.Length ==>
      buf[k] == if off <= k < off + |w| then w[k - off] else if off <= k < off + n then 0 else s[k]
    ensures buf[..] == Splice(s, off, w + Zeros(n - |w|))
  {
    SplicePointwise(s, buf[..], off, w + Zeros(n - |w|));
  }

  /** A spliced record holds `w` in the window and `s` everywhere else. */
  lemma SpliceAt(s: seq<byte>, off: nat, w: seq<byte>, k: nat)
    requires off + |w| <= |s| && k < |s|
    ensures Splice(s, off, w)[k] == if off <= k < off + |w| then w[k - off] else s[k]
  {
  }

  /** Splicing a window's own bytes back changes nothing. */
  lemma SpliceSame(s: seq<byte>, off: nat, n: nat)
    requires off + n <= |s|
    ensures Splice(s, off, s[off..off + n]) == s
  {
  }

  /** `memset(buf + off, v, n)`. */
  method Memset(buf: array<byte>, off: nat, n: nat, v: byte)
    requires off + n <= buf.Length
    modifies buf
    ensures forall k :: 0 <= k < buf.Length ==> buf[k] == if off <= k < off + n then v else old(buf[k])
  {
    forall k | off <= k < off + n {
      buf[k] := v;
    }
  }

  /** Stores the bytes `w` at `off`, one assignment per byte. */
  method Store(buf: array<byte>, off: nat, w: seq<byte>)
    requires off + |w| <= buf.Length
    modifies buf
    ensures buf[..] == Splice(old(buf[..]), off, w)
  {
    ghost var before := buf[..];
    forall k | off <= k < off + |w| {
      buf[k] := w[k - off];
    }
    ArrayPointwise(buf, before, off, w);
  }

  // ---------------------------------------------------------------------
  // Digits

  predicate IsDigit(c: char, base: nat)
  {
    if base == 16 then '0' <= c <= '9' || 'a' <= c <= 'f' || 'A' <= c <= 'F'
    else '0' <= c <= '9'
  }

  /** The value of a digit (0 for a character that is not one). */
  function DigitValue(c: char, base: nat): (d: nat)
    ensures IsDigit(c, base) ==> d < (if base == 16 then 16 else 10)
  {
    if '0' <= c <= '9' then c as int - '0' as int
    else if base == 16 && 'a' <= c <= 'f' then c as int - 'a' as int + 10
    else if base == 16 && 'A' <= c <= 'F' then c as int - 'A' as int + 10
    else 0
  }

  /** Value of a digit string, most significant digit first. */
  function DigitsValue(ds: string, base: nat): nat
  {
    if ds == [] then 0
    else DigitsValue(ds[..|ds| - 1], base) * base + DigitValue(ds[|ds| - 1], base)
  }

  lemma DigitsValue1(a: char, base: nat)
    ensures DigitsValue([a], base) == DigitValue(a, base)
  {
    assert [a][..0] == [];
  }

  lemma DigitsValue2(a: char, b: char, base: nat)
    ensures DigitsValue([a, b], base) == DigitValue(a, base) * base + DigitValue(b, base)
  {
    assert [a, b][..1] == [a];
    DigitsValue1(a, base);
  }

  lemma DigitsValue3(a: char, b: char, c: char, base: nat)
    ensures DigitsValue([a, b, c], base) == (DigitValue(a, base) * base + DigitValue(b, base)) * base + DigitValue(c, base)
  {
    assert [a, b, c][..2] == [a, b];
    DigitsValue2(a, b, base);
  }

  /** Result of `strtoi_base`: no number at the start of the text (the
      negative error status), or the number and the text after it. */
  datatype Parsed = NoNumber | Number(value: int, rest: string)

  /** STRTOI_STR_END: a number that ends the text. */
  predicate Ended(p: Parsed) { p.Number? && p.rest == [] }

  /** STRTOI_STR_CON: a number followed by more text. */
  predicate Continues(p: Parsed) { p.Number? && p.rest != [] }

  /** `strtoi_base(&s, &value, base)`: an optional sign followed by the
      longest run of digits of `base`; no digit after the sign is an error. */
  function StrToIBase(s: string, base: nat): Parsed
  {
    var signed := |s| > 0 && (s[0] == '+' || s[0] == '-');
    var body := if signed then s[1..] else s;
    if body == [] || !IsDigit(body[0], base) then NoNumber
    else
      var r := ScanDigits(body, base, 0);
      var magnitude: int := r.0;
      Number(if signed && s[0] == '-' then -magnitude else magnitude, r.1)
  }

  /** The digit loop of the parser: consumes the leading digits of `s`,
      accumulating their value onto `acc`, and returns the text after them. */
  function ScanDigits(s: string, base: nat, acc: nat): (nat, string)
    decreases |s|
  {
    if s == [] || !IsDigit(s[0], base) then (acc, s)
    else ScanDigits(s[1..], base, acc * base + DigitValue(s[0], base))
  }

  /** `strtoi(&s, &value)`: the decimal parser. */
  function StrToI(s: string): Parsed
  {
    StrToIBase(s, 10)
  }

  /** A digit string followed by text that does not continue it parses to
      the digits' value and leaves that text. */
  lemma ParseDigits(ds: string, rest: string, base: nat)
    requires |ds| > 0 && forall i :: 0 <= i < |ds| ==> IsDigit(ds[i], base)
    requires rest == [] || !IsDigit(rest[0], base)
    ensures StrToIBase(ds + rest, base) == Number(DigitsValue(ds, base), rest)
  {
    var s := ds + rest;
    assert s[0] == ds[0];
    UnsignedNumber(s, base);
    assert [] + ds == ds;
    ScanDigitsOf([], ds, rest, base);
  }

  /** A text that starts with a digit is read by the digit loop alone. */
  lemma UnsignedNumber(s: string, base: nat)
    requires |s| > 0 && IsDigit(s[0], base)
    ensures StrToIBase(s, base) == Number(ScanDigits(s, base, 0).0, ScanDigits(s, base, 0).1)
  {
  }

  /** The digit loop, started after the digits `prefix`, reads the digits
      `ds` and stops at text that does not continue them. */
  lemma {:induction false} ScanDigitsOf(prefix: string, ds: string, rest: string, base: nat)
    requires forall i :: 0 <= i < |ds| ==> IsDigit(ds[i], base)
    requires rest == [] || !IsDigit(rest[0], base)
    ensures ScanDigits(ds + rest, base, DigitsValue(prefix, base)) == (DigitsValue(prefix + ds, base), rest)
    decreases |ds|
  {
    if ds == [] {
      assert ds + rest == rest && prefix + ds == prefix;
    } else {
      var c := ds[0];
      assert (ds + rest)[0] == c && (ds + rest)[1..] == ds[1..] + rest;
      assert (prefix + [c])[..|prefix|] == prefix;
      assert DigitsValue(prefix + [c], base) == DigitsValue(prefix, base) * base + DigitValue(c, base);
      ScanDigitsOf(prefix + [c], ds[1..], rest, base);
      assert (prefix + [c]) + ds[1..] == prefix + ds;
    }
  }

  // ---------------------------------------------------------------------
  // Text forms of numbers

  /** One lower-case hexadecimal digit. */
  function HexDigit(d: nat): (c: char)
    requires d < 16
    ensures IsDigit(c, 16) && DigitValue(c, 16) == d
  {
    if d < 10 then ('0' as int + d) as char else ('a' as int + d - 10) as char
  }

  /** `printf("%02x", b)`. */
  function HexByte(b: byte): (s: string)
    ensures |s| == 2
  {
    [HexDigit(b / 16), HexDigit(b % 16)]
  }

  /** Two hex digits parse back to the byte they print. */
  lemma ParseHexByte(b: byte, rest: string)
    requires rest == [] || !IsDigit(rest[0], 16)
    ensures StrToIBase(HexByte(b) + rest, 16) == Number(b, rest)
  {
    var s := HexByte(b);
    assert s[..1][..0] == [];
    assert DigitsValue(s[..1], 16) == b / 16;
    ParseDigits(s, rest, 16);
  }

  function DecDigit(d: nat): (c: char)
    requires d < 10
    ensures IsDigit(c, 10) && DigitValue(c, 10) == d
  {
    ('0' as int + d) as char
  }

  /** `printf("%d", n)` for a non-negative `n`. */
  function Dec(n: nat): (s: string)
    ensures |s| > 0 && forall i :: 0 <= i < |s| ==> IsDigit(s[i], 10)
    ensures DigitsValue(s, 10) == n
  {
    if n < 10 then [DecDigit(n)]
    else
      var s := Dec(n / 10) + [DecDigit(n % 10)];
      assert s[..|s| - 1] == Dec(n / 10);
      s
  }

  /** `printf("%02d", n)` for a non-negative `n`. */
  function Pad2(n: nat): (s: string)
    ensures |s| >= 2 && forall i :: 0 <= i < |s| ==> IsDigit(s[i], 10)
    ensures DigitsValue(s, 10) == n
  {
    if n < 10 then
      var s := ['0', DecDigit(n)];
      assert s[..1] == ['0'] && s[..1][..0] == [];
      assert DigitsValue(s[..1], 10) == 0;
      s
    else Dec(n)
  }
}
