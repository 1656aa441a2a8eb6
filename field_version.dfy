/** The Version field type of field.c: two bytes holding `major * 100 +
    minor` little-endian, printed as `major.minor` with two minor digits. */
module FieldVersion {
  import opened Common
  import opened FieldTypes

  /** The number a version field holds: byte 0 is the low byte. */
  function VerNumber(w: seq<byte>): (v: nat)
    requires |w| == 2
    ensures v < 0x1_0000
  {
    w[1] as int * 256 + w[0] as int
  }

  /** The two bytes `update_bin_ver` writes for `v` (field.c:290-291). */
  function VerBytes(v: nat): (w: seq<byte>)
    requires v < 0x1_0000
    ensures |w| == 2
  {
    [v % 256, v / 256]
  }

  lemma VerBytesNumber(v: nat)
    requires v < 0x1_0000
    ensures VerNumber(VerBytes(v)) == v
  {
  }

  lemma VerNumberBytes(w: seq<byte>)
    requires |w| == 2
    ensures VerBytes(VerNumber(w)) == w
  {
  }

  /** What `print_bin_ver` does to the field before printing: the erased
      value FF FF is rewritten to 00 00 (field.c:232-235). */
  function NormalizeVer(w: seq<byte>): (r: seq<byte>)
    requires |w| == 2
    ensures |r| == 2
    ensures VerNumber(r) == if VerNumber(w) == 0xffff then 0 else VerNumber(w)
  {
    if w[0] == 0xff && w[1] == 0xff then [0, 0] else w
  }

  /** The printed value, `%#.2f` of the number over 100: the integer part,
      a point and the remainder as two digits (field.c:238). */
  function VerText(w: seq<byte>): string
    requires |w| == 2
  {
    var v := VerNumber(w);
    Dec(v / 100) + "." + Pad2(v % 100)
  }

  /** What `update_bin_ver` does to a field (field.c:259-293): the text is a
      decimal number, one separator character and a decimal number that ends
      the text; the checks run in the order of the source and the field is
      written only when all of them pass. */
  function VerEffect(window: seq<byte>, value: string): (e: Effect)
    requires |window| == 2
    ensures |e.window| == 2
    ensures e.status != Done ==> e.window == window
  {
    var p := StrToI(value);
    // The first check rejects only when the parse does not continue AND the
    // character at the parser's position is not '.'.
    var at := if p.Number? then p.rest else value;
    if !Continues(p) && (at == [] || at[0] != '.') then Effect(Failed(SyntaxError), window)
    // A text starting with '.' passes that check with `num` never set.
    else if p.NoNumber? then Effect(Failed(SyntaxError), window)
    else
      var q := StrToI(p.rest[1..]);
      if !Ended(q) then Effect(Failed(SyntaxError), window)
      else if p.value < 0 || q.value < 0 then Effect(Failed(NotPositive), window)
      else if q.value > 99 then Effect(Failed(MinorTooLong), window)
      else
        var num := p.value * 100 + q.value;
        if num >= 0x1_0000 then Effect(Failed(TooBig), window)
        else Effect(Done, VerBytes(num))
  }

  /** An accepted update stores `major * 100 + minor` where the major part
      is the leading number and the minor part the number that ends the text. */
  lemma VerEffectDone(window: seq<byte>, value: string)
    requires |window| == 2 && VerEffect(window, value).status == Done
    ensures var p := StrToI(value);
      && Continues(p) && Ended(StrToI(p.rest[1..]))
      && var minor := StrToI(p.rest[1..]).value;
      && 0 <= p.value && 0 <= minor <= 99
      && VerNumber(VerEffect(window, value).window) == p.value * 100 + minor
  {
  }

  /** A text read as a major number, one more character and a minor number
      that ends the text is accepted when the version fits. */
  lemma VerAccepted(window: seq<byte>, value: string, major: nat, minor: nat)
    requires |window| == 2 && minor <= 99 && major * 100 + minor < 0x1_0000
    requires var p := StrToI(value);
      && p.Number? && p.value == major && p.rest != []
      && StrToI(p.rest[1..]) == Number(minor, [])
    ensures VerEffect(window, value) == Effect(Done, VerBytes(major * 100 + minor))
  {
  }

  /** The record state `update_bin_ver` leaves: status `st`, and `cur` is
      `s` with the window at `off` replaced as `VerEffect` says. */
  predicate VerUpdated(s: seq<byte>, cur: seq<byte>, off: nat, value: string, st: Status)
    requires off + 2 <= |s|
  {
    var e := VerEffect(s[off..off + 2], value);
    st == e.status && cur == Splice(s, off, e.window)
  }

  /** The record state `print_bin_ver` leaves: the window normalised. */
  predicate VerPrinted(s: seq<byte>, cur: seq<byte>, off: nat)
    requires off + 2 <= |s|
  {
    cur == Splice(s, off, NormalizeVer(s[off..off + 2]))
  }

  lemma VerTextOf(w: seq<byte>, num: nat, text: string)
    requires |w| == 2 && VerNumber(w) == num && text == Dec(num / 100) + "." + Pad2(num % 100)
    ensures text == VerText(w)
  {
  }

  /** `update_bin_ver(field, value)`. */
  method UpdateVer(buf: array<byte>, f: Field, value: string) returns (st: Status)
    requires f.desc.size == 2 && f.End() <= buf.Length
    modifies buf
    ensures VerUpdated(old(buf[..]), buf[..], f.offset, value, st)
  {
    ghost var before := buf[..];
    ghost var e := VerEffect(before[f.offset..f.offset + 2], value);
    SpliceSame(before, f.offset, 2);
    var p := StrToI(value);
    var at := if p.Number? then p.rest else value;
    if !Continues(p) && (at == [] || at[0] != '.') {
      return Failed(SyntaxError);
    }
    if p.NoNumber? {
      return Failed(SyntaxError);
    }
    var num := p.value;
    var q := StrToI(p.rest[1..]);
    if !Ended(q) {
      return Failed(SyntaxError);
    }
    var remainder := q.value;
    if num < 0 || remainder < 0 {
      return Failed(NotPositive);
    }
    if remainder > 99 {
      return Failed(MinorTooLong);
    }
    num := num * 100 + remainder;
    if num >= 0x1_0000 {
      return Failed(TooBig);
    }
    buf[f.offset] := num % 256;
    buf[f.offset + 1] := num / 256;
    ArrayPointwise(buf, before, f.offset, VerBytes(num));
    return Done;
  }

  /** The first step of `print_bin_ver`: an erased field becomes 00 00. */
  method NormalizeVerField(buf: array<byte>, f: Field)
    requires f.desc.size == 2 && f.End() <= buf.Length
    modifies buf
    ensures VerPrinted(old(buf[..]), buf[..], f.offset)
  {
    ghost var before := buf[..];
    if buf[f.offset] == 0xff && buf[f.offset + 1] == 0xff {
      buf[f.offset] := 0;
      buf[f.offset + 1] := 0;
      ArrayPointwise(buf, before, f.offset, [0, 0]);
    } else {
      SpliceSame(before, f.offset, 2);
    }
  }

  /** `print_bin_ver(field)`: normalises an erased field, then prints it. */
  method PrintVer(buf: array<byte>, f: Field) returns (text: string)
    requires f.desc.size == 2 && f.End() <= buf.Length
    modifies buf
    ensures VerPrinted(old(buf[..]), buf[..], f.offset)
    ensures text == VerText(buf[f.offset..f.offset + 2])
  {
    NormalizeVerField(buf, f);
    var num := buf[f.offset + 1] as int * 256 + buf[f.offset] as int;
    ghost var w := buf[f.offset..f.offset + 2];
    assert VerNumber(w) == num;
    text := Dec(num / 100) + "." + Pad2(num % 100);
    VerTextOf(w, num, text);
  }

  /** `Dec(major) + "." + Pad2(minor)`, the text the print produces, is read
      back by the update as that major and minor. */
  lemma ParseVerText(major: nat, minor: nat)
    requires minor <= 99
    ensures var p := StrToI(Dec(major) + "." + Pad2(minor));
      && Continues(p) && p.value == major && p.rest == "." + Pad2(minor)
      && StrToI(p.rest[1..]) == Number(minor, [])
  {
    var rest := "." + Pad2(minor);
    ParseDigits(Dec(major), rest, 10);
    assert Dec(major) + "." + Pad2(minor) == Dec(major) + rest;
    assert rest[1..] == Pad2(minor) + [];
    ParseDigits(Pad2(minor), [], 10);
  }

  /** Updating a field with its printed value stores the value the print
      showed: the field's bytes, or 00 00 for an erased field. */
  lemma VerPrintUpdateRoundTrip(window: seq<byte>, w: seq<byte>)
    requires |window| == 2 && |w| == 2
    ensures VerEffect(window, VerText(NormalizeVer(w))) == Effect(Done, NormalizeVer(w))
  {
    var v := VerNumber(NormalizeVer(w));
    ParseVerText(v / 100, v % 100);
    VerNumberBytes(NormalizeVer(w));
  }

  /** A canonical version text whose number is not the erased value is
      stored and printed back unchanged. */
  lemma VerUpdatePrintRoundTrip(window: seq<byte>, major: nat, minor: nat)
    requires |window| == 2 && minor <= 99 && major * 100 + minor < 0xffff
    ensures var text := Dec(major) + "." + Pad2(minor);
      var e := VerEffect(window, text);
      e.status == Done && VerText(NormalizeVer(e.window)) == text
  {
    var text := Dec(major) + "." + Pad2(minor);
    ParseVerText(major, minor);
    var num := major * 100 + minor;
    VerAccepted(window, text, major, minor);
    var w := VerBytes(num);
    VerBytesNumber(num);
    assert NormalizeVer(w) == w;
    assert num / 100 == major && num % 100 == minor;
  }

  /** The largest version, "655.35", is stored as FF FF, which the print
      takes for an erased field: it shows 0.00 (and zeroes the field). */
  lemma MaxVersionExample(window: seq<byte>)
    requires |window| == 2
    ensures VerEffect(window, Dec(655) + "." + Pad2(35)) == Effect(Done, [0xff, 0xff])
    ensures VerText(NormalizeVer([0xff, 0xff])) == Dec(0) + "." + Pad2(0)
  {
    ParseVerText(655, 35);
  }

  /** "123.45" is stored as 0x39, 0x30 (12345 is 0x3039). */
  lemma VersionExample(window: seq<byte>)
    requires |window| == 2
    ensures VerEffect(window, "123.45") == Effect(Done, [0x39, 0x30])
  {
    ParseDigits("123", ".45", 10);
    assert "123" + ".45" == "123.45";
    DigitsValue3('1', '2', '3', 10);
    ParseDigits("45", [], 10);
    assert "45" + [] == "45" && ".45"[1..] == "45";
    DigitsValue2('4', '5', 10);
    VerAccepted(window, "123.45", 123, 45);
  }

  /** Any character after the major number is taken as the separator: the
      first check rejects only a parse that does not continue, so "1x05"
      is accepted as 1.05 (field.c:263). */
  lemma AnySeparatorExample(window: seq<byte>)
    requires |window| == 2
    ensures VerEffect(window, "1x05") == Effect(Done, [105, 0])
  {
    ParseDigits("1", "x05", 10);
    ParseDigits("05", [], 10);
    assert "1" + "x05" == "1x05" && "05" + [] == "05" && "x05"[1..] == "05";
    DigitsValue1('1', 10);
    DigitsValue2('0', '5', 10);
  }

  /** The minor part is a number, not a digit string: "1.5" is 1.05. */
  lemma ShortMinorExample(window: seq<byte>)
    requires |window| == 2
    ensures VerEffect(window, "1.5") == Effect(Done, [105, 0])
  {
    ParseDigits("1", ".5", 10);
    ParseDigits("5", [], 10);
    assert "1" + ".5" == "1.5" && "5" + [] == "5" && ".5"[1..] == "5";
    DigitsValue1('1', 10);
    DigitsValue1('5', 10);
  }

  /** A minor part over 99 is refused with the field unchanged. */
  lemma MinorTooLongExample(window: seq<byte>)
    requires |window| == 2
    ensures VerEffect(window, "1.100") == Effect(Failed(MinorTooLong), window)
  {
    ParseDigits("1", ".100", 10);
    ParseDigits("100", [], 10);
    assert "1" + ".100" == "1.100" && "100" + [] == "100" && ".100"[1..] == "100";
    DigitsValue1('1', 10);
    DigitsValue3('1', '0', '0', 10);
  }

  /** A number of 2^16 or more is refused with the field unchanged. */
  lemma TooBigExample(window: seq<byte>)
    requires |window| == 2
    ensures VerEffect(window, "656.00") == Effect(Failed(TooBig), window)
  {
    ParseDigits("656", ".00", 10);
    ParseDigits("00", [], 10);
    assert "656" + ".00" == "656.00" && "00" + [] == "00" && ".00"[1..] == "00";
    DigitsValue3('6', '5', '6', 10);
    DigitsValue2('0', '0', 10);
  }

  /** A text without a major part is refused, also when it starts with the
      point that lets it past the first check. */
  lemma NoMajorExample(window: seq<byte>)
    requires |window| == 2
    ensures VerEffect(window, ".5") == Effect(Failed(SyntaxError), window)
  {
  }
}
