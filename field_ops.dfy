/** The `field_ops` table of field.c:545-566: for each field type its print,
    update and clear operation. Reserved and Raw fields are printable only;
    their update and clear entries are NULL, which the model turns into the
    refusal `NotUpdatable`. */
module FieldOps {
  import opened Common
  import opened FieldTypes
  import opened FieldBin
  import opened FieldVersion
  import opened FieldAscii
  import opened FieldDate

  // ---------------------------------------------------------------------
  // Clear (`clear_field`, field.c:539-543)

  /** `clear_field(field)`: every byte of the window becomes 0xff. */
  method ClearField(buf: array<byte>, f: Field)
    requires f.End() <= buf.Length
    modifies buf
    ensures buf[..] == Splice(old(buf[..]), f.offset, Fill(f.desc.size, 0xff))
  {
    ghost var before := buf[..];
    Memset(buf, f.offset, f.desc.size, 0xff);
    ArrayPointwise(buf, before, f.offset, Fill(f.desc.size, 0xff));
  }

  /** Clearing sets the field's bytes to 0xff and leaves every other byte
      of the record as it was. */
  lemma ClearFieldFrame(s: seq<byte>, f: Field, k: nat)
    requires f.End() <= |s| && k < |s|
    ensures Splice(s, f.offset, Fill(f.desc.size, 0xff))[k] ==
      if f.offset <= k < f.End() then 0xff else s[k]
  {
    SpliceAt(s, f.offset, Fill(f.desc.size, 0xff), k);
  }

  // ---------------------------------------------------------------------
  // Dispatch

  /** What `ops->update(field, value)` does to a field's window. */
  function UpdateEffect(kind: FieldType, window: seq<byte>, value: string): (e: Effect)
    requires Fits(kind, |window|)
    ensures |e.window| == |window|
    ensures !Updatable(kind) ==> e == Effect(Failed(NotUpdatable), window)
  {
    match kind
    case Binary => BinEffect(window, value, false)
    case Reversed => BinEffect(window, value, true)
    case Version => VerEffect(window, value)
    case Ascii => AsciiEffect(window, value)
    case Mac => DelimEffect(window, value, ':')
    case Date => DateEffect(window, value)
    case Reserved => Effect(Failed(NotUpdatable), window)
    case Raw => Effect(Failed(NotUpdatable), window)
  }

  /** What `ops->clear(field)` does to a field's window. */
  function ClearEffect(kind: FieldType, window: seq<byte>): (e: Effect)
    ensures |e.window| == |window|
    ensures Updatable(kind) <==> e.status == Done
    ensures e.status == Done ==> e.window == Fill(|window|, 0xff)
    ensures e.status != Done ==> e == Effect(Failed(NotUpdatable), window)
  {
    if Updatable(kind) then Effect(Done, Fill(|window|, 0xff))
    else Effect(Failed(NotUpdatable), window)
  }

  /** The record after an operation with effect `e` on field `f`. */
  predicate Applied(s: seq<byte>, cur: seq<byte>, f: Field, e: Effect, st: Status)
    requires f.End() <= |s| && |e.window| == f.desc.size
  {
    st == e.status && cur == Splice(s, f.offset, e.window)
  }

  /** `field->ops->update(field, value)`. */
  method UpdateField(buf: array<byte>, f: Field, value: string) returns (st: Status)
    requires Fits(f.desc.kind, f.desc.size) && f.End() <= buf.Length
    modifies buf
    ensures Applied(old(buf[..]), buf[..], f,
                    UpdateEffect(f.desc.kind, old(buf[f.offset..f.End()]), value), st)
  {
    match f.desc.kind
    case Binary => st := UpdateBin(buf, f, value, false);
    case Reversed => st := UpdateBin(buf, f, value, true);
    case Version => st := UpdateVer(buf, f, value);
    case Ascii => st := UpdateAscii(buf, f, value);
    case Mac => st := UpdateBinDelim(buf, f, value, ':');
    case Date => st := UpdateDate(buf, f, value);
    case Reserved => st := Failed(NotUpdatable); SpliceSame(buf[..], f.offset, f.desc.size);
    case Raw => st := Failed(NotUpdatable); SpliceSame(buf[..], f.offset, f.desc.size);
  }

  /** `field->ops->clear(field)`. */
  method Clear(buf: array<byte>, f: Field) returns (st: Status)
    requires f.End() <= buf.Length
    modifies buf
    ensures Applied(old(buf[..]), buf[..], f,
                    ClearEffect(f.desc.kind, old(buf[f.offset..f.End()])), st)
  {
    if Updatable(f.desc.kind) {
      ClearField(buf, f);
      st := Done;
    } else {
      SpliceSame(buf[..], f.offset, f.desc.size);
      st := Failed(NotUpdatable);
    }
  }

  // ---------------------------------------------------------------------
  // Print

  /** `print_reserved(field)`: the field's size, `(%d bytes)`. */
  function ReservedText(size: nat): string
  {
    "(" + Dec(size) + " bytes)"
  }

  /** The value `ops->print(field)` prints for a window (the name column
      is not modelled); a version field is printed after normalisation. */
  function FieldText(kind: FieldType, w: seq<byte>): string
    requires Fits(kind, |w|) && |w| >= 1
  {
    match kind
    case Binary => HexJoin(w, "")
    case Reversed => HexJoin(Oriented(w, true), "")
    case Version => VerText(NormalizeVer(w))
    case Ascii => AsciiText(w)
    case Mac => HexJoin(w, ":")
    case Date => DateText(w)
    case Reserved => ReservedText(|w|)
    case Raw => RawText(w)
  }

  /** The window after `ops->print(field)`: only a version field changes,
      and only when it is erased. */
  function PrintedWindow(kind: FieldType, w: seq<byte>): (r: seq<byte>)
    requires Fits(kind, |w|)
    ensures |r| == |w|
    ensures kind != Version ==> r == w
  {
    if kind == Version then NormalizeVer(w) else w
  }

  /** `field->ops->print(field)`. */
  method PrintField(buf: array<byte>, f: Field) returns (text: string)
    requires Fits(f.desc.kind, f.desc.size) && f.desc.size >= 1 && f.End() <= buf.Length
    modifies buf
    ensures buf[..] == Splice(old(buf[..]), f.offset,
                              PrintedWindow(f.desc.kind, old(buf[f.offset..f.End()])))
    ensures text == FieldText(f.desc.kind, old(buf[f.offset..f.End()]))
  {
    ghost var w := buf[f.offset..f.End()];
    SpliceSame(buf[..], f.offset, f.desc.size);
    match f.desc.kind
    case Binary => text := PrintBin(buf, f, "", false);
    case Reversed => text := PrintBin(buf, f, "", true);
    case Version =>
      text := PrintVer(buf, f);
      assert buf[f.offset..f.End()] == NormalizeVer(w);
    case Ascii => text := PrintAscii(buf, f);
    case Mac => text := PrintBin(buf, f, ":", false);
    case Date => text := DateText(buf[f.offset..f.End()]);
    case Reserved => text := ReservedText(f.desc.size);
    case Raw => text := RawText(buf[f.offset..f.End()]);
  }

  // ---------------------------------------------------------------------
  // Properties of the table

  /** An updatable field, cleared, is all 0xff whatever it held and
      whatever its type. */
  lemma ClearIsErase(kind: FieldType, window: seq<byte>, k: nat)
    requires Updatable(kind) && k < |window|
    ensures ClearEffect(kind, window).window[k] == 0xff
  {
  }

  /** A cleared version field prints as 0.00; printing it writes 00 00. */
  lemma ClearedVersionPrint()
    ensures FieldText(Version, Fill(2, 0xff)) == "0.00"
    ensures PrintedWindow(Version, Fill(2, 0xff)) == [0, 0]
  {
    assert NormalizeVer(Fill(2, 0xff)) == [0, 0];
    assert VerNumber([0, 0]) == 0;
  }

  /** A cleared date field prints day 255, the month "BAD" and year 65535. */
  lemma ClearedDatePrint()
    ensures FieldText(Date, Fill(4, 0xff)) == DateString(255, "BAD", 65535)
    ensures DateString(255, "BAD", 65535) == "255/BAD/65535"
  {
    var w := Fill(4, 0xff);
    assert YearOf(w) == 65535 && MonthName(w[1]) == "BAD";
    ClearedDateDigits();
  }

  lemma ClearedDateDigits()
    ensures Pad2(255) == "255" && Dec(65535) == "65535"
  {
    assert Dec(2) == "2" && Dec(25) == "25";
    assert Dec(6) == "6" && Dec(65) == "65" && Dec(655) == "655" && Dec(6553) == "6553";
  }

  /** A cleared ASCII field prints as nothing. */
  lemma ClearedAsciiPrint(n: nat)
    requires n >= 1
    ensures FieldText(Ascii, Fill(n, 0xff)) == []
  {
    ClearedAsciiPrintsNothing(n);
  }

  /** Only Reserved and Raw fields refuse updates and clears; the refusal
      leaves the window as it was. */
  lemma NotUpdatableRefused(kind: FieldType, window: seq<byte>, value: string)
    requires Fits(kind, |window|)
    ensures UpdateEffect(kind, window, value).status == Failed(NotUpdatable) ==> !Updatable(kind)
    ensures !Updatable(kind) ==> UpdateEffect(kind, window, value) == Effect(Failed(NotUpdatable), window)
    ensures !Updatable(kind) <==> ClearEffect(kind, window) == Effect(Failed(NotUpdatable), window)
  {
    match kind
    case Binary =>
    case Reversed =>
    case Version =>
    case Ascii =>
    case Mac =>
    case Date =>
    case Reserved =>
    case Raw =>
  }
}
