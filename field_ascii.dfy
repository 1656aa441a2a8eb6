/** The ASCII field type of field.c: a NUL-terminated text stored in the
    field's window, whose print is suppressed while the field is erased. */
module FieldAscii {
  import opened Common
  import opened FieldTypes

  /** The byte a character of a text is stored as: its low eight bits. */
  function CharByte(c: char): byte
  {
    c as int % 256
  }

  /** The bytes of a text, one per character. */
  function TextBytes(s: string): (r: seq<byte>)
    ensures |r| == |s| && forall k :: 0 <= k < |s| ==> r[k] == CharByte(s[k])
  {
    seq(|s|, k requires 0 <= k < |s| => CharByte(s[k]))
  }

  // ---------------------------------------------------------------------
  // Update (`update_ascii`, field.c:501-513)

  /** What `update_ascii` does to a field: a text as long as the field or
      longer is refused; a shorter one is copied and followed by NUL bytes
      up to the end of the field (`strncpy` pads to `size - 1`, and the
      last byte is cleared explicitly). */
  function AsciiEffect(window: seq<byte>, value: string): (e: Effect)
    ensures |e.window| == |window|
    ensures e.status != Done ==> e.window == window
  {
    if |value| >= |window| then Effect(Failed(TooLong), window)
    else Effect(Done, TextBytes(value) + Zeros(|window| - |value|))
  }

  /** The outcome and the bytes of `update_ascii`: accepted exactly when the
      text is shorter than the field; then the field starts with the text's
      bytes and every byte after them is NUL. */
  lemma AsciiStored(window: seq<byte>, value: string)
    ensures var e := AsciiEffect(window, value);
      && (e.status == Done <==> |value| < |window|)
      && (e.status != Done ==> e.status == Failed(TooLong))
      && (e.status == Done ==>
            && (forall k :: 0 <= k < |value| ==> e.window[k] == CharByte(value[k]))
            && (forall k :: |value| <= k < |window| ==> e.window[k] == 0))
  {
  }

  /** The record state `update_ascii` leaves. */
  predicate AsciiUpdated(s: seq<byte>, cur: seq<byte>, off: nat, n: nat, value: string, st: Status)
    requires off + n <= |s|
  {
    var e := AsciiEffect(s[off..off + n], value);
    st == e.status && cur == Splice(s, off, e.window)
  }

  /** `update_ascii(field, value)`. */
  method UpdateAscii(buf: array<byte>, f: Field, value: string) returns (st: Status)
    requires f.End() <= buf.Length
    modifies buf
    ensures AsciiUpdated(old(buf[..]), buf[..], f.offset, f.desc.size, value, st)
  {
    ghost var before := buf[..];
    if |value| >= f.desc.size {
      SpliceSame(before, f.offset, f.desc.size);
      return Failed(TooLong);
    }
    var bytes := TextBytes(value) + Zeros(f.desc.size - |value|);
    assert AsciiEffect(before[f.offset..f.End()], value) == Effect(Done, bytes);
    Store(buf, f.offset, bytes);
    return Done;
  }

  // ---------------------------------------------------------------------
  // Print (`print_ascii`, field.c:469-492)

  /** The number of whole 4-byte words of the field `print_ascii` compares. */
  function WordCount(w: seq<byte>): nat
  {
    |w| / 4
  }

  /** Word `i` of the field. */
  function Word(w: seq<byte>, i: nat): (r: seq<byte>)
    requires 4 * i + 4 <= |w|
    ensures |r| == 4
  {
    w[4 * i..4 * i + 4]
  }

  /** The two word patterns of an erased field: the integers 0 and -1. */
  predicate ErasedWord(word: seq<byte>)
  {
    word == [0, 0, 0, 0] || word == [0xff, 0xff, 0xff, 0xff]
  }

  /** The field is printed as nothing: it has fewer than two words (the
      comparison loop then never runs), or its words are all zero bytes or
      all 0xff bytes. Bytes after the last whole word are not looked at. */
  predicate AsciiBlank(w: seq<byte>)
  {
    || WordCount(w) < 2
    || (forall k :: 0 <= k < 4 * WordCount(w) ==> w[k] == 0)
    || (forall k :: 0 <= k < 4 * WordCount(w) ==> w[k] == 0xff)
  }

  /** The `%.Ns` print of a field of `N` bytes: its characters up to the
      first NUL, or all of them when it has none. */
  function CText(w: seq<byte>): (s: string)
    ensures |s| <= |w|
    ensures forall k :: 0 <= k < |s| ==> s[k] as int == w[k] && w[k] != 0
    ensures |s| < |w| ==> w[|s|] == 0
  {
    if w == [] || w[0] == 0 then []
    else [w[0] as char] + CText(w[1..])
  }

  /** What `print_ascii` prints for a field. */
  function AsciiText(w: seq<byte>): string
  {
    if AsciiBlank(w) then [] else CText(w)
  }

  /** All words equal the first and the first is an erased pattern: the
      bytes are all 0 or all 0xff. */
  lemma ErasedWords(w: seq<byte>)
    requires WordCount(w) >= 2 && ErasedWord(Word(w, 0))
    requires forall j :: 1 <= j < WordCount(w) ==> Word(w, j) == Word(w, 0)
    ensures AsciiBlank(w)
  {
    var v := w[0];
    forall k | 0 <= k < 4 * WordCount(w)
      ensures w[k] == v
    {
      var j := k / 4;
      assert Word(w, j)[k - 4 * j] == w[k];
      assert Word(w, 0)[k - 4 * j] == v;
    }
  }

  /** A word that differs from the first, or a first word that is not an
      erased pattern, makes the field printed. */
  lemma UnerasedWords(w: seq<byte>, j: nat)
    requires WordCount(w) >= 2 && j < WordCount(w)
    requires Word(w, j) != Word(w, 0) || !ErasedWord(Word(w, 0))
    ensures !AsciiBlank(w)
  {
    if Word(w, j) != Word(w, 0) {
      var i :| 0 <= i < 4 && Word(w, j)[i] != Word(w, 0)[i];
      assert w[4 * j + i] != w[i];
    } else {
      var i :| 0 <= i < 4 && w[i] != 0;
      var i' :| 0 <= i' < 4 && w[i'] != 0xff;
    }
  }

  /** `print_ascii(field)`: the word check, then the text. */
  method PrintAscii(buf: array<byte>, f: Field) returns (text: string)
    requires f.End() <= buf.Length
    ensures text == AsciiText(buf[f.offset..f.End()])
  {
    ghost var w := buf[f.offset..f.End()];
    var blockCount := f.desc.size / 4;
    if blockCount < 2 {
      return [];
    }
    var pattern := buf[f.offset..f.offset + 4];
    assert pattern == Word(w, 0);
    assert 4 * blockCount <= f.desc.size;
    var i := 0;
    while i < blockCount - 1
      invariant 0 <= i <= blockCount - 1
      invariant i > 0 ==> ErasedWord(pattern)
      invariant forall j :: 1 <= j <= i ==> Word(w, j) == pattern
    {
      var word := buf[f.offset + 4 * (i + 1)..f.offset + 4 * (i + 2)];
      forall t | 0 <= t < 4
        ensures word[t] == Word(w, i + 1)[t]
      {
        var k := 4 * (i + 1) + t;
        assert word[t] == buf[f.offset + k] == w[k] == Word(w, i + 1)[t];
      }
      assert word == Word(w, i + 1);
      if word != pattern || !ErasedWord(pattern) {
        UnerasedWords(w, i + 1);
        return CText(buf[f.offset..f.End()]);
      }
      i := i + 1;
    }
    ErasedWords(w);
    return [];
  }

  // ---------------------------------------------------------------------
  // Round trips

  /** The print stops at the first NUL. */
  lemma CTextLength(w: seq<byte>, m: nat)
    requires m <= |w| && (forall k :: 0 <= k < m ==> w[k] != 0) && (m < |w| ==> w[m] == 0)
    ensures |CText(w)| == m
  {
  }

  /** A text without NUL is read back from its bytes followed by NULs. */
  lemma CTextOfBytes(value: string, n: nat)
    requires forall k :: 0 <= k < |value| ==> 0 < value[k] as int < 256
    ensures CText(TextBytes(value) + Zeros(n)) == value
  {
    var w := TextBytes(value) + Zeros(n);
    assert forall k :: 0 <= k < |value| ==> w[k] == CharByte(value[k]) != 0;
    CTextLength(w, |value|);
    var s := CText(w);
    forall k | 0 <= k < |s|
      ensures s[k] == value[k]
    {
      assert s[k] as int == w[k] == value[k] as int;
    }
  }

  /** A text shorter than the field, of characters other than NUL and
      0xff, is printed back after the update; the empty text is printed as
      nothing. A non-empty text needs two words to be printed at all. */
  lemma AsciiUpdatePrintRoundTrip(window: seq<byte>, value: string)
    requires |value| < |window|
    requires forall k :: 0 <= k < |value| ==> 0 < value[k] as int < 0xff
    requires value != [] ==> |window| >= 8
    ensures var e := AsciiEffect(window, value);
      e.status == Done && AsciiText(e.window) == value
  {
    var w := TextBytes(value) + Zeros(|window| - |value|);
    CTextOfBytes(value, |window| - |value|);
    if value != [] {
      assert w[0] != 0 && w[0] != 0xff && 0 < 4 * WordCount(w);
    }
  }

  /** A field that holds a text and NULs after it is the bytes of its
      `%.Ns` print followed by NULs. */
  lemma BytesOfCText(w: seq<byte>)
    requires |CText(w)| < |w| && forall k :: |CText(w)| <= k < |w| ==> w[k] == 0
    ensures TextBytes(CText(w)) + Zeros(|w| - |CText(w)|) == w
  {
    var s := CText(w);
    var r := TextBytes(s) + Zeros(|w| - |s|);
    forall k | 0 <= k < |w|
      ensures r[k] == w[k]
    {
      if k < |s| {
        assert r[k] == CharByte(s[k]) == w[k];
      }
    }
  }

  /** A printed field that holds a text and NULs after it is restored by
      updating it with its print. */
  lemma AsciiPrintUpdateRoundTrip(w: seq<byte>)
    requires !AsciiBlank(w)
    requires |CText(w)| < |w| && forall k :: |CText(w)| <= k < |w| ==> w[k] == 0
    ensures AsciiEffect(w, AsciiText(w)) == Effect(Done, w)
  {
    assert AsciiText(w) == CText(w);
    BytesOfCText(w);
  }

  /** A cleared field (all 0xff) prints as nothing. */
  lemma ClearedAsciiPrintsNothing(n: nat)
    ensures AsciiText(Fill(n, 0xff)) == []
  {
  }

  /** A field of fewer than eight bytes never prints its text: the loop
      that would find a difference from the first word does not run. */
  lemma ShortAsciiPrintsNothing(w: seq<byte>)
    requires |w| < 8
    ensures AsciiText(w) == []
  {
  }
}
