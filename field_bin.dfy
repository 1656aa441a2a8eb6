/** The hexadecimal field types of field.c: Binary, Reversed and Mac, and the
    ASCII column of the Raw dump. Printing renders each byte as two
    lower-case hex digits; the updates parse text into the field's window. */
module FieldBin {
  import opened Common
  import opened FieldTypes

  // ---------------------------------------------------------------------
  // Printing (`__print_bin`, field.c:32-45)

  /** The window's bytes in the order the print loop visits them. */
  function Oriented(w: seq<byte>, reverse: bool): (r: seq<byte>)
    ensures |r| == |w|
  {
    if reverse then seq(|w|, k requires 0 <= k < |w| => w[|w| - 1 - k]) else w
  }

  /** The `k`-th byte visited is the `k`-th from the end of a reversed field. */
  lemma OrientedAt(w: seq<byte>, reverse: bool, k: nat, i: nat)
    requires k < |w| && i == if reverse then |w| - 1 - k else k
    ensures Oriented(w, reverse)[k] == w[i]
  {
  }

  /** Every byte as two hex digits followed by the delimiter. */
  function HexTerms(bs: seq<byte>, delim: string): string
  {
    if bs == [] then [] else HexTerms(bs[..|bs| - 1], delim) + HexByte(bs[|bs| - 1]) + delim
  }

  /** The bytes as hex pairs with the delimiter between them. */
  function HexJoin(bs: seq<byte>, delim: string): string
    requires |bs| >= 1
  {
    HexTerms(bs[..|bs| - 1], delim) + HexByte(bs[|bs| - 1])
  }

  lemma {:induction false} HexTermsLength(bs: seq<byte>, delim: string)
    ensures |HexTerms(bs, delim)| == |bs| * (2 + |delim|)
  {
    if bs != [] {
      var init := bs[..|bs| - 1];
      var d := 2 + |delim|;
      HexTermsLength(init, delim);
      assert |HexTerms(bs, delim)| == |HexTerms(init, delim)| + d;
      assert |init| * d + d == (|init| + 1) * d;
    }
  }

  /** One more round of the print loop extends the text by byte `m`. */
  lemma HexTermsSnoc(bs: seq<byte>, m: nat, delim: string, text: string, b: byte)
    requires m < |bs| && text == HexTerms(bs[..m], delim) && b == bs[m]
    ensures text + HexByte(b) + delim == HexTerms(bs[..m + 1], delim)
  {
    assert bs[..m + 1][..m] == bs[..m];
  }

  /** The last round of the print loop, without the delimiter. */
  lemma HexJoinLast(bs: seq<byte>, delim: string, text: string, b: byte)
    requires |bs| >= 1 && text == HexTerms(bs[..|bs| - 1], delim) && b == bs[|bs| - 1]
    ensures text + HexByte(b) == HexJoin(bs, delim)
  {
  }

  /** The bytes as hex pairs with nothing between them. */
  function Hex(bs: seq<byte>): (s: string)
    ensures |s| == 2 * |bs|
  {
    HexTermsLength(bs, "");
    HexTerms(bs, "")
  }

  /** `__print_bin(field, delimiter, reverse)`: walks the window from its
      first byte to its last (or the reverse), printing each byte as `%02x`
      followed by the delimiter, and the final byte without it. */
  method PrintBin(buf: array<byte>, f: Field, delimiter: string, reverse: bool) returns (text: string)
    requires f.desc.size >= 1 && f.End() <= buf.Length
    ensures text == HexJoin(Oriented(buf[f.offset..f.End()], reverse), delimiter)
  {
    var n := f.desc.size;
    ghost var w := buf[f.offset..f.offset + n];
    ghost var o := Oriented(w, reverse);
    var from := if reverse then n - 1 else 0;
    var to := if reverse then 0 else n - 1;
    var i := from;
    text := [];
    ghost var m := 0;  // bytes printed so far
    while i != to
      invariant 0 <= i < n && 0 <= m < n
      invariant m == if reverse then n - 1 - i else i
      invariant text == HexTerms(o[..m], delimiter)
      decreases n - m
    {
      var b := buf[f.offset + i];
      OrientedAt(w, reverse, m, i);
      HexTermsSnoc(o, m, delimiter, text, b);
      text := text + HexByte(b) + delimiter;
      i := if reverse then i - 1 else i + 1;
      m := m + 1;
    }
    var b := buf[f.offset + i];
    OrientedAt(w, reverse, m, i);
    HexJoinLast(o, delimiter, text, b);
    text := text + HexByte(b);
  }

  lemma {:induction false} HexAt(bs: seq<byte>, j: nat)
    requires j < |bs|
    ensures |Hex(bs)| == 2 * |bs| && Hex(bs)[2 * j..2 * j + 2] == HexByte(bs[j])
  {
    var init := bs[..|bs| - 1];
    assert Hex(bs) == Hex(init) + HexByte(bs[|bs| - 1]);
    if j < |bs| - 1 {
      HexAt(init, j);
      assert Hex(bs)[2 * j..2 * j + 2] == Hex(init)[2 * j..2 * j + 2];
    } else {
      assert Hex(bs)[2 * j..2 * j + 2] == Hex(bs)[|Hex(init)|..];
    }
  }

  lemma HexJoinEmptyDelimiter(bs: seq<byte>)
    requires |bs| >= 1
    ensures HexJoin(bs, "") == Hex(bs)
  {
    assert bs[..|bs| - 1] + [bs[|bs| - 1]] == bs;
  }

  lemma {:induction false} HexTermsCons(b: byte, bs: seq<byte>, delim: string)
    ensures HexTerms([b] + bs, delim) == HexByte(b) + delim + HexTerms(bs, delim)
    decreases |bs|
  {
    if bs != [] {
      var init := bs[..|bs| - 1];
      assert ([b] + bs)[..|bs|] == [b] + init;
      HexTermsCons(b, init, delim);
    } else {
      assert ([b] + bs)[..0] == [];
    }
  }

  lemma HexJoinCons(b: byte, bs: seq<byte>, delim: string)
    requires |bs| >= 1
    ensures HexJoin([b] + bs, delim) == HexByte(b) + delim + HexJoin(bs, delim)
  {
    assert ([b] + bs)[..|bs|] == [b] + bs[..|bs| - 1];
    HexTermsCons(b, bs[..|bs| - 1], delim);
  }

  // ---------------------------------------------------------------------
  // Binary and Reversed update (`__update_bin`, field.c:47-91)

  /** Number of bytes a text of `len` characters fills: two characters per
      byte, a lone last character filling one byte. */
  function GroupCount(len: nat): nat
  {
    (len + 1) / 2
  }

  /** The characters byte `j` is parsed from: characters `2j, 2j+1`, or for
      a reversed field the pair ending `2j` characters before the end; a
      lone character when only one is left (field.c:71-78). */
  function BinGroup(value: string, j: nat, reverse: bool): (g: string)
    requires 2 * j < |value|
    ensures 1 <= |g| <= 2
  {
    if !reverse then
      if 2 * j + 1 < |value| then [value[2 * j], value[2 * j + 1]] else [value[2 * j]]
    else
      var i := |value| - 1 - 2 * j;
      if i == 0 then [value[0]] else [value[i - 1], value[i]]
  }

  /** The byte a group parses to, if `strtoi_base` finds a number in 0..255
      at its start (field.c:81). */
  function GroupByte(g: string): Option<byte>
  {
    var p := StrToIBase(g, 16);
    if p.Number? && 0 <= p.value < 256 then Some(p.value) else None
  }

  /** The parse of every group of the text, in the order the loop visits them. */
  function GroupBytes(value: string, reverse: bool): (r: seq<Option<byte>>)
    ensures |r| == GroupCount(|value|)
  {
    seq(GroupCount(|value|), j requires 0 <= j < GroupCount(|value|) => GroupByte(BinGroup(value, j, reverse)))
  }

  lemma GroupBytesAt(value: string, reverse: bool, j: nat)
    requires j < GroupCount(|value|)
    ensures GroupBytes(value, reverse)[j] == GroupByte(BinGroup(value, j, reverse))
  {
  }

  /** The bytes written by the first `j` rounds of the loop: those of the
      groups before the first one that does not parse. */
  function ParsedPrefix(groups: seq<Option<byte>>, j: nat): (p: seq<byte>)
    requires j <= |groups|
    ensures |p| <= j
  {
    if j == 0 then []
    else
      var p := ParsedPrefix(groups, j - 1);
      if |p| == j - 1 && groups[j - 1].Some? then p + [groups[j - 1].value] else p
  }

  /** What `__update_bin` does to a window: text longer than two characters
      per byte is refused with the window untouched; otherwise the window
      is zero-filled and then receives the parsed bytes, stopping at the
      first group that does not parse. */
  function BinEffect(window: seq<byte>, value: string, reverse: bool): (e: Effect)
    ensures |e.window| == |window|
  {
    var n := |window|;
    if |value| > 2 * n then Effect(Failed(TooLong), window)
    else
      var groups := GroupBytes(value, reverse);
      var p := ParsedPrefix(groups, |groups|);
      Effect(if |p| == |groups| then Done else Failed(SyntaxError), p + Zeros(n - |p|))
  }

  /** Once a group fails, no later round writes. */
  lemma {:induction false} ParsedPrefixStuck(groups: seq<Option<byte>>, j: nat, m: nat)
    requires j <= m <= |groups|
    requires |ParsedPrefix(groups, j)| < j
    ensures ParsedPrefix(groups, m) == ParsedPrefix(groups, j)
    decreases m - j
  {
    if j < m {
      assert |ParsedPrefix(groups, j + 1)| < j + 1;
      ParsedPrefixStuck(groups, j + 1, m);
    }
  }

  /** A group that does not parse ends the writes: the loop's prefix is
      the final one. */
  lemma ParsedPrefixRefused(groups: seq<Option<byte>>, j: nat)
    requires j < |groups| && |ParsedPrefix(groups, j)| == j && groups[j].None?
    ensures ParsedPrefix(groups, |groups|) == ParsedPrefix(groups, j)
  {
    assert ParsedPrefix(groups, j + 1) == ParsedPrefix(groups, j);
    ParsedPrefixStuck(groups, j + 1, |groups|);
  }

  /** A group that parses extends the loop's prefix by its byte. */
  lemma ParsedPrefixAccepted(groups: seq<Option<byte>>, j: nat)
    requires j < |groups| && |ParsedPrefix(groups, j)| == j && groups[j].Some?
    ensures ParsedPrefix(groups, j + 1) == ParsedPrefix(groups, j) + [groups[j].value]
  {
  }

  /** The state `__update_bin` leaves: status `st` and the record `cur`,
      which is `s` with the field's window replaced as `BinEffect` says. */
  predicate BinUpdated(s: seq<byte>, cur: seq<byte>, off: nat, n: nat, value: string, reverse: bool, st: Status)
    requires off + n <= |s|
  {
    var e := BinEffect(s[off..off + n], value, reverse);
    st == e.status && cur == Splice(s, off, e.window)
  }

  /** `__update_bin` refuses a text that is too long and changes nothing. */
  lemma BinEffectTooLong(s: seq<byte>, off: nat, n: nat, value: string, reverse: bool)
    requires off + n <= |s| && |value| > 2 * n
    ensures BinUpdated(s, s, off, n, value, reverse, Failed(TooLong))
  {
    SpliceSame(s, off, n);
  }

  /** The groups that parse, as far as the loop of `__update_bin` gets. */
  predicate GroupsStopped(value: string, reverse: bool, written: seq<byte>, ok: bool)
  {
    var groups := GroupBytes(value, reverse);
    && |written| <= |groups| && written == ParsedPrefix(groups, |written|)
    && (if ok then |written| == |groups| else |written| < |groups| && groups[|written|].None?)
  }

  /** A text whose groups parse to `written` and then stop, either at a group
      that does not parse or at the end of the text, zero-fills the window
      behind those bytes. */
  lemma BinEffectOfPrefix(window: seq<byte>, value: string, reverse: bool, written: seq<byte>, ok: bool)
    requires |value| <= 2 * |window| && |written| <= |window|
    requires GroupsStopped(value, reverse, written, ok)
    ensures BinEffect(window, value, reverse)
         == Effect(if ok then Done else Failed(SyntaxError), written + Zeros(|window| - |written|))
  {
    var groups := GroupBytes(value, reverse);
    if !ok {
      ParsedPrefixRefused(groups, |written|);
    }
  }

  /** The record whose window holds what `BinEffect` says is the one
      `__update_bin` leaves. */
  lemma BinUpdatedOf(s: seq<byte>, off: nat, n: nat, value: string, reverse: bool, st: Status, w: seq<byte>)
    requires off + n <= |s| && BinEffect(s[off..off + n], value, reverse) == Effect(st, w)
    ensures BinUpdated(s, Splice(s, off, w), off, n, value, reverse, st)
  {
  }

  /** The inner `k` loop of `__update_bin`: the one or two characters of
      the byte the loop is at, copied out of the text (field.c:71-78). A
      forward copy that reaches the end of the text copies the string's
      terminator, which ends the group. */
  method GroupText(value: string, reverse: bool, i: int, ghost j: nat) returns (tmp: string)
    requires 2 * j < |value|
    requires i == if reverse then |value| - 1 - 2 * j else 2 * j
    ensures tmp == BinGroup(value, j, reverse)
  {
    ghost var g := BinGroup(value, j, reverse);
    tmp := [];
    var k := 0;
    while k < 2
      invariant 0 <= k <= 2 && k <= |g|
      invariant reverse && i == 0 ==> k == 0
      invariant tmp == g[..k]
    {
      if reverse && i == 0 {
        tmp := tmp + [value[i]];
        assert tmp == g;
        break;
      }
      var at := if reverse then i - 1 + k else i + k;
      if at >= |value| {
        assert |g| == k;
        break;
      }
      tmp := tmp + [value[at]];
      k := k + 1;
    }
    assert g[..|g|] == g;
  }

  /** One round of the loop of `__update_bin` up to the write: the group's
      characters (the inner `k` loop) and their parse, `None` standing for
      the syntax error (field.c:67-85). */
  method ParseGroup(value: string, reverse: bool, i: int, ghost j: nat) returns (g: Option<byte>)
    requires 2 * j < |value|
    requires i == if reverse then |value| - 1 - 2 * j else 2 * j
    ensures g == GroupBytes(value, reverse)[j]
  {
    var tmp := GroupText(value, reverse, i, j);
    GroupBytesAt(value, reverse, j);
    var p := StrToIBase(tmp, 16);
    if p.NoNumber? || p.value < 0 || p.value >= 256 {
      return None;
    }
    return Some(p.value);
  }

  /** The zero fill and the loop of `__update_bin` (field.c:61-88): the
      window gets the bytes `written` of the groups that parse, in order,
      up to the first that does not (`ok` false) or to the end of the text. */
  method FillGroups(buf: array<byte>, f: Field, value: string, reverse: bool) returns (ok: bool, ghost written: seq<byte>)
    requires f.End() <= buf.Length && |value| <= 2 * f.desc.size
    modifies buf
    ensures |written| <= f.desc.size && GroupsStopped(value, reverse, written, ok)
    ensures forall k :: 0 <= k < buf.Length ==>
      buf[k] == if f.offset <= k < f.offset + |written| then written[k - f.offset]
                else if f.offset <= k < f.End() then 0 else old(buf[k])
  {
    var n := f.desc.size;
    var len := |value|;
    var i := if reverse then len - 1 else 0;
    ghost var groups := GroupBytes(value, reverse);
    // pad with zeros
    Memset(buf, f.offset, n, 0);
    var j := 0;
    written := [];
    while j < n
      invariant j <= |groups| && j <= n
      invariant i == if reverse then len - 1 - 2 * j else 2 * j
      invariant written == ParsedPrefix(groups, j) && |written| == j
      invariant forall k :: 0 <= k < buf.Length ==>
        buf[k] == if f.offset <= k < f.offset + j then written[k - f.offset]
                  else if f.offset <= k < f.offset + n then 0 else old(buf[k])
    {
      if (reverse && i < 0) || (!reverse && i >= len) {
        break;
      }
      var g := ParseGroup(value, reverse, i, j);
      if g.None? {
        return false, written;
      }
      ParsedPrefixAccepted(groups, j);
      buf[f.offset + j] := g.value;
      written := written + [g.value];
      i := if reverse then i - 2 else i + 2;
      j := j + 1;
    }
    return true, written;
  }

  /** `__update_bin(field, value, reverse)`. */
  method UpdateBin(buf: array<byte>, f: Field, value: string, reverse: bool) returns (st: Status)
    requires f.End() <= buf.Length
    modifies buf
    ensures BinUpdated(old(buf[..]), buf[..], f.offset, f.desc.size, value, reverse, st)
  {
    var n := f.desc.size;
    ghost var before := buf[..];
    if |value| > n * 2 {
      BinEffectTooLong(buf[..], f.offset, n, value, reverse);
      return Failed(TooLong);
    }
    var ok, written := FillGroups(buf, f, value, reverse);
    ArrayZeroFilled(buf, before, f.offset, n, written);
    st := if ok then Done else Failed(SyntaxError);
    BinEffectOfPrefix(before[f.offset..f.offset + n], value, reverse, written, ok);
    BinUpdatedOf(before, f.offset, n, value, reverse, st, written + Zeros(n - |written|));
  }

  /** The text of bytes `bs`, in the order the field stores them, fills the
      first `|bs|` bytes of the window with `bs` and zeroes the rest. */
  lemma BinUpdateOfHex(window: seq<byte>, bs: seq<byte>, reverse: bool)
    requires |bs| <= |window|
    ensures BinEffect(window, Hex(Oriented(bs, reverse)), reverse)
         == Effect(Done, bs + Zeros(|window| - |bs|))
  {
    var groups := GroupBytes(Hex(Oriented(bs, reverse)), reverse);
    GroupBytesOfHex(bs, reverse);
    ParsedPrefixOfBytes(groups, bs, |bs|);
    assert bs[..|bs|] == bs;
  }

  /** Group `j` of the hex text of the bytes is the pair of byte `j`. */
  lemma GroupBytesOfHex(bs: seq<byte>, reverse: bool)
    ensures var groups := GroupBytes(Hex(Oriented(bs, reverse)), reverse);
      |groups| == |bs| && forall j :: 0 <= j < |bs| ==> groups[j] == Some(bs[j])
  {
    forall k | 0 <= k < |bs|
      ensures GroupByte(BinGroup(Hex(Oriented(bs, reverse)), k, reverse)) == Some(bs[k])
    {
      GroupOfHexAt(bs, reverse, k);
    }
  }

  lemma GroupOfHexAt(bs: seq<byte>, reverse: bool, k: nat)
    requires k < |bs|
    ensures GroupByte(BinGroup(Hex(Oriented(bs, reverse)), k, reverse)) == Some(bs[k])
  {
    var value := Hex(Oriented(bs, reverse));
    var o := Oriented(bs, reverse);
    var t := if reverse then |bs| - 1 - k else k;
    HexAt(o, t);
    assert value[2 * t..2 * t + 2][0] == value[2 * t] && value[2 * t..2 * t + 2][1] == value[2 * t + 1];
    assert BinGroup(value, k, reverse) == HexByte(bs[k]);
    ParseHexByte(bs[k], []);
    assert HexByte(bs[k]) + [] == HexByte(bs[k]);
  }

  lemma {:induction false} ParsedPrefixOfBytes(groups: seq<Option<byte>>, bs: seq<byte>, j: nat)
    requires |groups| == |bs| && j <= |bs|
    requires forall k :: 0 <= k < |bs| ==> groups[k] == Some(bs[k])
    ensures ParsedPrefix(groups, j) == bs[..j]
  {
    if j > 0 {
      ParsedPrefixOfBytes(groups, bs, j - 1);
      assert bs[..j] == bs[..j - 1] + [bs[j - 1]];
    }
  }

  /** Printing a window and updating the field with the printed text gives
      the window back, for Binary and Reversed fields alike. */
  lemma BinPrintUpdateRoundTrip(window: seq<byte>, w: seq<byte>, reverse: bool)
    requires |w| == |window| && |w| >= 1
    ensures BinEffect(window, HexJoin(Oriented(w, reverse), ""), reverse) == Effect(Done, w)
  {
    HexJoinEmptyDelimiter(Oriented(w, reverse));
    BinUpdateOfHex(window, w, reverse);
    assert w + Zeros(0) == w;
  }

  /** Text of exactly two lower-case hex digits per byte is accepted and
      printed back unchanged. */
  lemma BinUpdatePrintRoundTrip(window: seq<byte>, bs: seq<byte>, reverse: bool)
    requires |bs| == |window| && |bs| >= 1
    ensures var text := Hex(Oriented(bs, reverse));
      var e := BinEffect(window, text, reverse);
      e.status == Done && HexJoin(Oriented(e.window, reverse), "") == text
  {
    BinUpdateOfHex(window, bs, reverse);
    assert bs + Zeros(0) == bs;
    HexJoinEmptyDelimiter(Oriented(bs, reverse));
  }

  /** The reversed example of field.c:204-206: "1234" stores 0x34, 0x12. */
  lemma ReversedExample(window: seq<byte>)
    requires |window| == 2
    ensures BinEffect(window, "1234", true) == Effect(Done, [0x34, 0x12])
  {
    var bs: seq<byte> := [0x34, 0x12];
    assert Oriented(bs, true) == [0x12, 0x34];
    assert HexByte(0x12) == "12" && HexByte(0x34) == "34";
    assert Hex([0x12, 0x34]) == "1234" by {
      assert [0x12, 0x34][..1] == [0x12];
      assert Hex([0x12]) == "12" by { assert [0x12][..0] == []; }
    }
    BinUpdateOfHex(window, bs, true);
    assert bs + Zeros(0) == bs;
  }

  /** A lone last character is one nibble: "abc" fills a 2-byte Binary
      field with 0xab, 0x0c. */
  lemma OddLengthExample(window: seq<byte>)
    requires |window| == 2
    ensures BinEffect(window, "abc", false) == Effect(Done, [0xab, 0x0c])
  {
    ParseDigits("ab", [], 16);
    ParseDigits("c", [], 16);
    assert "ab" + [] == "ab" && "c" + [] == "c";
    assert DigitsValue("ab", 16) == 0xab by { assert "ab"[..1] == "a"; assert "a"[..0] == []; }
    assert DigitsValue("c", 16) == 0x0c by { assert "c"[..0] == []; }
    var groups := GroupBytes("abc", false);
    GroupBytesAt("abc", false, 0);
    GroupBytesAt("abc", false, 1);
    assert BinGroup("abc", 0, false) == "ab" && BinGroup("abc", 1, false) == "c";
    assert groups == [Some(0xab), Some(0x0c)];
    assert ParsedPrefix(groups, 1) == [0xab];
    assert ParsedPrefix(groups, 2) == [0xab, 0x0c];
    assert [0xab, 0x0c] + Zeros(0) == [0xab, 0x0c];
  }

  /** On a Reversed field the lone character is the first one: "abc" fills
      a 2-byte field with 0xbc, 0x0a. */
  lemma OddLengthReversedExample(window: seq<byte>)
    requires |window| == 2
    ensures BinEffect(window, "abc", true) == Effect(Done, [0xbc, 0x0a])
  {
    ParseDigits("bc", [], 16);
    ParseDigits("a", [], 16);
    assert "bc" + [] == "bc" && "a" + [] == "a";
    assert DigitsValue("bc", 16) == 0xbc by { assert "bc"[..1] == "b"; assert "b"[..0] == []; }
    assert DigitsValue("a", 16) == 0x0a by { assert "a"[..0] == []; }
    var groups := GroupBytes("abc", true);
    GroupBytesAt("abc", true, 0);
    GroupBytesAt("abc", true, 1);
    assert BinGroup("abc", 0, true) == "bc" && BinGroup("abc", 1, true) == "a";
    assert groups == [Some(0xbc), Some(0x0a)];
    assert ParsedPrefix(groups, 1) == [0xbc];
    assert ParsedPrefix(groups, 2) == [0xbc, 0x0a];
    assert [0xbc, 0x0a] + Zeros(0) == [0xbc, 0x0a];
  }

  /** The check after `strtoi_base` rejects only a group with no number at
      its start, so a group whose second character is not a hex digit is
      read as its first digit alone: "1g" fills a 1-byte field with 0x01. */
  lemma TrailingCharacterExample(window: seq<byte>)
    requires |window| == 1
    ensures BinEffect(window, "1g", false) == Effect(Done, [0x01])
  {
    ParseDigits("1", "g", 16);
    assert "1" + "g" == "1g";
    assert DigitsValue("1", 16) == 1 by { assert "1"[..0] == []; }
    var groups := GroupBytes("1g", false);
    GroupBytesAt("1g", false, 0);
    assert BinGroup("1g", 0, false) == "1g";
    assert groups == [Some(0x01)];
    assert ParsedPrefix(groups, 1) == [0x01];
    assert [0x01] + Zeros(0) == [0x01];
  }

  // ---------------------------------------------------------------------
  // Delimited update (`__update_bin_delim`, field.c:93-120)

  /** The bytes `__update_bin_delim` writes while parsing `groups` more
      delimited groups from `s`, and whether all of them parsed: each group
      but the last is a number in 0..255 followed by the delimiter, and the
      last is a number in 0..255 that ends the text. */
  function DelimBytes(s: string, groups: nat, delim: char): (r: (seq<byte>, bool))
    requires groups >= 1
    ensures |r.0| <= groups && (r.1 <==> |r.0| == groups)
    decreases groups
  {
    var p := StrToIBase(s, 16);
    if groups == 1 then
      if Ended(p) && 0 <= p.value < 256 then ([p.value], true) else ([], false)
    else if Continues(p) && p.rest[0] == delim && 0 <= p.value < 256 then
      var r := DelimBytes(p.rest[1..], groups - 1, delim);
      ([p.value] + r.0, r.1)
    else ([], false)
  }

  /** What `__update_bin_delim` does to a window: the groups parsed before a
      failure stay written; the rest of the window is untouched. */
  function DelimEffect(window: seq<byte>, value: string, delim: char): (e: Effect)
    requires |window| >= 1
    ensures |e.window| == |window|
  {
    var r := DelimBytes(value, |window|, delim);
    Effect(if r.1 then Done else Failed(SyntaxError), r.0 + window[|r.0|..])
  }

  /** The state `__update_bin_delim` leaves: status `st` and the record
      `cur`, which is `s` with the field's window replaced as `DelimEffect`
      says. */
  predicate DelimUpdated(s: seq<byte>, cur: seq<byte>, off: nat, n: nat, value: string, delim: char, st: Status)
    requires off + n <= |s| && n >= 1
  {
    var e := DelimEffect(s[off..off + n], value, delim);
    st == e.status && cur == Splice(s, off, e.window)
  }

  /** The parse after `|written|` rounds of the loop: the first groups gave
      `written`, and the groups of the remaining text `bin` decide the rest. */
  predicate DelimSoFar(value: string, n: nat, delim: char, written: seq<byte>, bin: string)
    requires |written| < n
  {
    var r := DelimBytes(bin, n - |written|, delim);
    DelimBytes(value, n, delim) == (written + r.0, r.1)
  }

  /** A group that parses and is followed by the delimiter adds its byte. */
  lemma DelimSoFarStep(value: string, n: nat, delim: char, written: seq<byte>, bin: string, v: byte)
    requires |written| < n - 1 && DelimSoFar(value, n, delim, written, bin)
    requires var p := StrToIBase(bin, 16);
      Continues(p) && p.rest[0] == delim && p.value == v
    ensures DelimSoFar(value, n, delim, written + [v], StrToIBase(bin, 16).rest[1..])
  {
    var p := StrToIBase(bin, 16);
    var r := DelimBytes(p.rest[1..], n - (|written| + 1), delim);
    assert DelimBytes(bin, n - |written|, delim) == ([v] + r.0, r.1);
    assert written + ([v] + r.0) == (written + [v]) + r.0;
  }

  /** A group that does not parse, or is not followed as it must be, leaves
      the earlier groups as the whole parse, a failed one. */
  lemma DelimSoFarStop(value: string, n: nat, delim: char, written: seq<byte>, bin: string)
    requires |written| < n && DelimSoFar(value, n, delim, written, bin)
    requires var p := StrToIBase(bin, 16);
      if |written| < n - 1 then !(Continues(p) && p.rest[0] == delim && 0 <= p.value < 256)
      else !(Ended(p) && 0 <= p.value < 256)
    ensures DelimBytes(value, n, delim) == (written, false)
  {
    assert DelimBytes(bin, n - |written|, delim) == ([], false);
    assert written + [] == written;
  }

  /** A last group that ends the text completes the parse. */
  lemma DelimSoFarLast(value: string, n: nat, delim: char, written: seq<byte>, bin: string, v: byte)
    requires |written| == n - 1 && DelimSoFar(value, n, delim, written, bin)
    requires var p := StrToIBase(bin, 16);
      Ended(p) && p.value == v
    ensures DelimBytes(value, n, delim) == (written + [v], true)
  {
    assert DelimBytes(bin, 1, delim) == ([v], true);
  }

  /** The record `s` with the parsed bytes `written` at the start of the
      window is what `__update_bin_delim` leaves when it parses `written`. */
  lemma DelimFinished(s: seq<byte>, off: nat, n: nat, value: string, delim: char, written: seq<byte>, ok: bool)
    requires off + n <= |s| && n >= 1 && |written| <= n
    requires DelimBytes(value, n, delim) == (written, ok)
    ensures DelimUpdated(s, Splice(s, off, written), off, n, value, delim, if ok then Done else Failed(SyntaxError))
  {
    var window := s[off..off + n];
    assert Splice(s, off, written) == Splice(s, off, written + window[|written|..]);
  }

  /** The loop of `__update_bin_delim` and its last group (field.c:99-117):
      the window's first bytes get `written`, the parse of `DelimBytes`. */
  method ParseDelimited(buf: array<byte>, f: Field, value: string, delimiter: char)
    returns (ok: bool, ghost written: seq<byte>)
    requires f.desc.size >= 1 && f.End() <= buf.Length
    modifies buf
    ensures |written| <= f.desc.size && DelimBytes(value, f.desc.size, delimiter) == (written, ok)
    ensures forall k :: 0 <= k < buf.Length ==>
      buf[k] == if f.offset <= k < f.offset + |written| then written[k - f.offset] else old(buf[k])
  {
    var n := f.desc.size;
    written := [];
    var bin := value;
    var i := 0;
    assert [] + DelimBytes(value, n, delimiter).0 == DelimBytes(value, n, delimiter).0;
    while i < n - 1
      invariant i == |written| < n
      invariant DelimSoFar(value, n, delimiter, written, bin)
      invariant forall k :: 0 <= k < buf.Length ==>
        buf[k] == if f.offset <= k < f.offset + |written| then written[k - f.offset] else old(buf[k])
    {
      var p := StrToIBase(bin, 16);
      if !Continues(p) || p.rest[0] != delimiter || p.value < 0 || p.value >= 256 {
        DelimSoFarStop(value, n, delimiter, written, bin);
        return false, written;
      }
      var b: byte := p.value;
      DelimSoFarStep(value, n, delimiter, written, bin, b);
      buf[f.offset + i] := b;
      written := written + [b];
      bin := p.rest[1..];
      i := i + 1;
    }
    var p := StrToIBase(bin, 16);
    if !Ended(p) || p.value < 0 || p.value >= 256 {
      DelimSoFarStop(value, n, delimiter, written, bin);
      return false, written;
    }
    var b: byte := p.value;
    DelimSoFarLast(value, n, delimiter, written, bin, b);
    buf[f.offset + i] := b;
    return true, written + [b];
  }

  /** `__update_bin_delim(field, value, delimiter)`. */
  method UpdateBinDelim(buf: array<byte>, f: Field, value: string, delimiter: char) returns (st: Status)
    requires f.desc.size >= 1 && f.End() <= buf.Length
    modifies buf
    ensures DelimUpdated(old(buf[..]), buf[..], f.offset, f.desc.size, value, delimiter, st)
  {
    ghost var before := buf[..];
    var ok, written := ParseDelimited(buf, f, value, delimiter);
    ArrayPointwise(buf, before, f.offset, written);
    DelimFinished(before, f.offset, f.desc.size, value, delimiter, written, ok);
    st := if ok then Done else Failed(SyntaxError);
  }

  /** The delimited print of a window parses back to that window. */
  lemma {:induction false} DelimBytesOfPrint(w: seq<byte>, delim: char)
    requires |w| >= 1 && !IsDigit(delim, 16)
    ensures DelimBytes(HexJoin(w, [delim]), |w|, delim) == (w, true)
    decreases |w|
  {
    if |w| == 1 {
      assert w[..0] == [] && HexTerms([], [delim]) == [];
      assert HexJoin(w, [delim]) == HexByte(w[0]) + [];
      ParseHexByte(w[0], []);
      assert [w[0]] == w;
    } else {
      HexJoinCons(w[0], w[1..], [delim]);
      assert [w[0]] + w[1..] == w;
      var rest := [delim] + HexJoin(w[1..], [delim]);
      assert HexJoin(w, [delim]) == HexByte(w[0]) + rest;
      ParseHexByte(w[0], rest);
      assert rest[1..] == HexJoin(w[1..], [delim]);
      DelimBytesOfPrint(w[1..], delim);
    }
  }

  /** The Mac round trip: updating a field with its printed form (bytes as
      hex pairs joined by ':') restores the bytes. */
  lemma MacPrintUpdateRoundTrip(window: seq<byte>, w: seq<byte>)
    requires |w| == |window| && |w| >= 1
    ensures DelimEffect(window, HexJoin(w, ":"), ':') == Effect(Done, w)
  {
    DelimBytesOfPrint(w, ':');
    assert w + window[|w|..] == w;
  }

  /** A text accepted by the delimited update is printed in canonical form:
      printing after an accepted update gives exactly the text whenever the
      text was canonical. */
  lemma MacUpdatePrintRoundTrip(window: seq<byte>, w: seq<byte>)
    requires |w| == |window| && |w| >= 1
    ensures var e := DelimEffect(window, HexJoin(w, ":"), ':');
      e.status == Done && HexJoin(e.window, ":") == HexJoin(w, ":")
  {
    MacPrintUpdateRoundTrip(window, w);
  }

  /** A failure at a later group keeps the groups before it: "aa:bb" on a
      6-byte Mac field writes 0xaa and fails at the second group. */
  lemma MacPartialExample(window: seq<byte>)
    requires |window| == 6
    ensures DelimEffect(window, "aa:bb", ':') == Effect(Failed(SyntaxError), [0xaa] + window[1..])
  {
    ParseDigits("aa", ":bb", 16);
    ParseDigits("bb", [], 16);
    assert "aa" + ":bb" == "aa:bb" && "bb" + [] == "bb";
    assert DigitsValue("aa", 16) == 0xaa by { assert "aa"[..1] == "a"; assert "a"[..0] == []; }
    assert ":bb"[1..] == "bb";
  }

  // ---------------------------------------------------------------------
  // Raw dump (`print_bin_raw`, field.c:142-169)

  /** The ASCII column of the raw dump: '.' for the erased and zero bytes,
      '?' for other non-printable bytes, the character itself otherwise. */
  function RawChar(b: byte): (c: char)
    ensures 32 <= c as int < 127
    ensures (b == 0 || b == 0xff) ==> c == '.'
    ensures b != 0 && b != 0xff && (b < 32 || b >= 127) ==> c == '?'
    ensures 32 <= b < 127 ==> c as int == b
  {
    if b == 0 || b == 0xff then '.'
    else if b < 32 || b >= 127 then '?'
    else b as char
  }

  /** The dump's content: every byte as `%02x` followed by a space, then
      the ASCII column of every byte. */
  function RawText(w: seq<byte>): (s: string)
    ensures |s| == 4 * |w|
    ensures forall k :: 0 <= k < |w| ==> s[3 * |w| + k] == RawChar(w[k])
  {
    HexTermsLength(w, " ");
    HexTerms(w, " ") + seq(|w|, k requires 0 <= k < |w| => RawChar(w[k]))
  }
}
