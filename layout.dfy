/** The layout engine of layout.c: a 256-byte record cut into the fields of
    one schema table, and the operations on it (print every field, update
    or clear byte ranges, update or clear named fields). Each batch
    operation is specified by a function that walks the changes in order
    and stops at the first failure; the methods of `Layout` are proved to
    do what those functions say. */
module Layouts {
  import opened Common
  import opened FieldTypes
  import opened FieldOps
  import opened Schemas

  /** One entry of `bytes_changes`: write `value` to the bytes `start` to
      `end`, both included. */
  datatype BytesChange = BytesChange(start: int, end: int, value: int)

  /** One entry of `bytes_list`: the bytes `start` to `end` to clear. */
  datatype BytesRange = BytesRange(start: int, end: int)

  /** One entry of `fields_changes`: a field's key and its new value; an
      empty value means "clear the field". */
  datatype FieldChange = FieldChange(field: string, value: string)

  /** What a batch leaves behind: the record, the count the operation
      returns, and whether every entry was applied. */
  datatype Outcome = Outcome(data: seq<byte>, reported: nat, ok: bool)

  // ---------------------------------------------------------------------
  // Byte ranges (`get_bytes_range`, `update_bytes`, `clear_bytes`)

  /** `get_bytes_range`: the number of bytes from `start` to `end`, or 0
      when the range is not inside the record. */
  function BytesRangeLength(start: int, end: int): (n: nat)
    ensures n > 0 <==> 0 <= start <= end < EEPROM_SIZE
    ensures n > 0 ==> n == end - start + 1 && start + n <= EEPROM_SIZE
  {
    if start < 0 || start >= EEPROM_SIZE || end < start || end >= EEPROM_SIZE then 0
    else end - start + 1
  }

  /** A change `update_bytes` accepts: a range inside the record and a
      value that fits a byte. */
  predicate ChangeValid(c: BytesChange)
  {
    BytesRangeLength(c.start, c.end) > 0 && 0 <= c.value <= 255
  }

  /** Whether the change's range covers byte `k`. */
  predicate Covers(c: BytesChange, k: int)
  {
    c.start <= k <= c.end
  }

  /** The loop of `update_bytes` (layout.c:248-271) from record `s`, with
      `done` bytes already counted: each valid change sets its range to its
      value and adds its length; the first invalid one ends the batch with
      0, the earlier writes staying in place. */
  function BytesRun(s: seq<byte>, done: nat, cs: seq<BytesChange>): (o: Outcome)
    requires |s| == EEPROM_SIZE
    ensures |o.data| == EEPROM_SIZE
    ensures !o.ok ==> o.reported == 0
    decreases |cs|
  {
    if cs == [] then Outcome(s, done, true)
    else
      var c := cs[0];
      var n := BytesRangeLength(c.start, c.end);
      if n == 0 then Outcome(s, 0, false)
      else if !(0 <= c.value <= 255) then Outcome(s, 0, false)
      else BytesRun(Splice(s, c.start, Fill(n, c.value)), done + n, cs[1..])
  }

  /** One change of the batch: the run from change `i` on either stops
      there or continues from the spliced contents. */
  lemma BytesRunHead(cur: seq<byte>, done: nat, cs: seq<BytesChange>, i: nat)
    requires |cur| == EEPROM_SIZE && i < |cs|
    ensures var c := cs[i];
      var n := BytesRangeLength(c.start, c.end);
      BytesRun(cur, done, cs[i..])
        == if n == 0 || !(0 <= c.value <= 255) then Outcome(cur, 0, false)
           else BytesRun(Splice(cur, c.start, Fill(n, c.value)), done + n, cs[i + 1..])
  {
    assert cs[i..][0] == cs[i] && cs[i..][1..] == cs[i + 1..];
  }

  /** The number of bytes the changes name, counting overlaps twice. */
  function RangesTotal(cs: seq<BytesChange>): nat
  {
    if cs == [] then 0 else BytesRangeLength(cs[0].start, cs[0].end) + RangesTotal(cs[1..])
  }

  /** The value byte `k` holds after the changes when it held `d`: that of
      the last change covering it, or `d` when none does. */
  function LastValue(d: byte, cs: seq<BytesChange>, k: int): byte
    requires forall i :: 0 <= i < |cs| ==> ChangeValid(cs[i])
    decreases |cs|
  {
    if cs == [] then d
    else
      assert ChangeValid(cs[0]);
      LastValue(if Covers(cs[0], k) then cs[0].value else d, cs[1..], k)
  }

  /** The batch succeeds exactly when every change is valid. */
  lemma {:induction false} BytesRunOk(s: seq<byte>, done: nat, cs: seq<BytesChange>)
    requires |s| == EEPROM_SIZE
    ensures BytesRun(s, done, cs).ok <==> forall i :: 0 <= i < |cs| ==> ChangeValid(cs[i])
    decreases |cs|
  {
    if cs != [] && ChangeValid(cs[0]) {
      var c := cs[0];
      BytesRunOk(Splice(s, c.start, Fill(BytesRangeLength(c.start, c.end), c.value)),
                 done + BytesRangeLength(c.start, c.end), cs[1..]);
      assert forall i :: 1 <= i < |cs| ==> cs[i] == cs[1..][i - 1];
    }
  }

  /** A successful batch returns the number of bytes its ranges name. */
  lemma {:induction false} BytesRunCount(s: seq<byte>, done: nat, cs: seq<BytesChange>)
    requires |s| == EEPROM_SIZE && BytesRun(s, done, cs).ok
    ensures BytesRun(s, done, cs).reported == done + RangesTotal(cs)
    decreases |cs|
  {
    if cs != [] {
      var c := cs[0];
      BytesRunCount(Splice(s, c.start, Fill(BytesRangeLength(c.start, c.end), c.value)),
                    done + BytesRangeLength(c.start, c.end), cs[1..]);
    }
  }

  /** After a successful batch every byte holds the value of the last
      change covering it, and the bytes no change covers are unchanged. */
  lemma {:induction false} BytesRunLastWriter(s: seq<byte>, done: nat, cs: seq<BytesChange>, k: nat)
    requires |s| == EEPROM_SIZE && k < EEPROM_SIZE && BytesRun(s, done, cs).ok
    requires forall i :: 0 <= i < |cs| ==> ChangeValid(cs[i])
    ensures BytesRun(s, done, cs).data[k] == LastValue(s[k], cs, k)
    decreases |cs|
  {
    if cs != [] {
      var c := cs[0];
      var n := BytesRangeLength(c.start, c.end);
      var t := Splice(s, c.start, Fill(n, c.value));
      SpliceAt(s, c.start, Fill(n, c.value), k);
      assert t[k] == if Covers(c, k) then c.value else s[k];
      BytesRunLastWriter(t, done + n, cs[1..], k);
    }
  }

  /** Bytes outside every range are never written, even by a batch that
      fails part-way. */
  lemma {:induction false} BytesRunFrame(s: seq<byte>, done: nat, cs: seq<BytesChange>, k: nat)
    requires |s| == EEPROM_SIZE && k < EEPROM_SIZE
    requires forall i :: 0 <= i < |cs| ==> !Covers(cs[i], k)
    ensures BytesRun(s, done, cs).data[k] == s[k]
    decreases |cs|
  {
    if cs != [] && ChangeValid(cs[0]) {
      var c := cs[0];
      var n := BytesRangeLength(c.start, c.end);
      SpliceAt(s, c.start, Fill(n, c.value), k);
      assert forall i :: 0 <= i < |cs| - 1 ==> cs[1..][i] == cs[i + 1];
      BytesRunFrame(Splice(s, c.start, Fill(n, c.value)), done + n, cs[1..], k);
    }
  }

  /** A batch is its first part followed by the rest, run from where the
      first part left off; a failure in the first part ends it. */
  lemma {:induction false} BytesRunAppend(s: seq<byte>, done: nat, a: seq<BytesChange>, b: seq<BytesChange>)
    requires |s| == EEPROM_SIZE
    ensures BytesRun(s, done, a + b) ==
      var o := BytesRun(s, done, a);
      if o.ok then BytesRun(o.data, o.reported, b) else o
    decreases |a|
  {
    if a == [] {
      assert a + b == b;
    } else {
      assert (a + b)[0] == a[0] && (a + b)[1..] == a[1..] + b;
      var c := a[0];
      var n := BytesRangeLength(c.start, c.end);
      if n > 0 && 0 <= c.value <= 255 {
        BytesRunAppend(Splice(s, c.start, Fill(n, c.value)), done + n, a[1..], b);
      }
    }
  }

  /** The first invalid change ends the batch with 0 and the record as the
      changes before it left it. */
  lemma FirstInvalidChange(s: seq<byte>, cs: seq<BytesChange>, j: nat)
    requires |s| == EEPROM_SIZE && j < |cs| && !ChangeValid(cs[j])
    requires forall i :: 0 <= i < j ==> ChangeValid(cs[i])
    ensures BytesRun(s, 0, cs) == Outcome(BytesRun(s, 0, cs[..j]).data, 0, false)
  {
    assert cs == cs[..j] + cs[j..];
    BytesRunAppend(s, 0, cs[..j], cs[j..]);
    BytesRunOk(s, 0, cs[..j]);
    assert cs[j..][0] == cs[j];
  }

  /** A range that ends before it starts, or starts past the record, is
      refused with 0 before anything is written; so is a value that does
      not fit a byte. */
  lemma InvalidChangeExamples(s: seq<byte>, v: int, rest: seq<BytesChange>)
    requires |s| == EEPROM_SIZE
    ensures BytesRun(s, 0, [BytesChange(10, 5, v)] + rest) == Outcome(s, 0, false)
    ensures BytesRun(s, 0, [BytesChange(300, 300, v)] + rest) == Outcome(s, 0, false)
    ensures BytesRun(s, 0, [BytesChange(0, 3, 256)] + rest) == Outcome(s, 0, false)
  {
    assert ([BytesChange(10, 5, v)] + rest)[0] == BytesChange(10, 5, v);
    assert ([BytesChange(300, 300, v)] + rest)[0] == BytesChange(300, 300, v);
    assert ([BytesChange(0, 3, 256)] + rest)[0] == BytesChange(0, 3, 256);
  }

  /** The changes `clear_bytes` makes: each range set to 0xff. */
  function ClearChanges(rs: seq<BytesRange>): (cs: seq<BytesChange>)
    ensures |cs| == |rs|
    ensures forall i :: 0 <= i < |rs| ==> cs[i] == BytesChange(rs[i].start, rs[i].end, 0xff)
  {
    seq(|rs|, i requires 0 <= i < |rs| => BytesChange(rs[i].start, rs[i].end, 0xff))
  }

  /** The loop of `clear_bytes` (layout.c:287-300): `update_bytes` with the
      value 0xff for every range. */
  function ClearRun(s: seq<byte>, done: nat, rs: seq<BytesRange>): (o: Outcome)
    requires |s| == EEPROM_SIZE
  {
    BytesRun(s, done, ClearChanges(rs))
  }

  /** Clearing ranges succeeds exactly when every range is inside the
      record; then the bytes of every range are 0xff and the others are
      unchanged. */
  lemma ClearRunErases(s: seq<byte>, rs: seq<BytesRange>, k: nat)
    requires |s| == EEPROM_SIZE && k < EEPROM_SIZE
    ensures ClearRun(s, 0, rs).ok <==>
      forall i :: 0 <= i < |rs| ==> BytesRangeLength(rs[i].start, rs[i].end) > 0
    ensures ClearRun(s, 0, rs).ok ==>
      ClearRun(s, 0, rs).data[k] ==
        if exists i :: 0 <= i < |rs| && rs[i].start <= k <= rs[i].end then 0xff else s[k]
  {
    var cs := ClearChanges(rs);
    BytesRunOk(s, 0, cs);
    if ClearRun(s, 0, rs).ok {
      BytesRunLastWriter(s, 0, cs, k);
      LastValueErased(s[k], cs, k);
    }
  }

  lemma {:induction false} LastValueErased(d: byte, cs: seq<BytesChange>, k: int)
    requires forall i :: 0 <= i < |cs| ==> ChangeValid(cs[i]) && cs[i].value == 0xff
    ensures LastValue(d, cs, k) ==
      if exists i :: 0 <= i < |cs| && Covers(cs[i], k) then 0xff else d
    decreases |cs|
  {
    if cs != [] {
      var d' := if Covers(cs[0], k) then 0xff else d;
      LastValueErased(d', cs[1..], k);
      if exists i :: 0 <= i < |cs| && Covers(cs[i], k) {
        var i :| 0 <= i < |cs| && Covers(cs[i], k);
        if i > 0 {
          assert Covers(cs[1..][i - 1], k);
        }
      } else {
        assert forall i :: 0 <= i < |cs| - 1 ==> cs[1..][i] == cs[i + 1];
      }
    }
  }

  // ---------------------------------------------------------------------
  // Named fields (`find_field`, `update_fields`, `clear_fields`)

  /** Every field lies inside the record and has the size its type needs. */
  predicate FieldsFit(fields: seq<Field>)
  {
    forall i :: 0 <= i < |fields| ==> fields[i].End() <= EEPROM_SIZE && WellSized(fields[i].desc)
  }

  /** Fields are ordered by offset and do not overlap. */
  predicate FieldsDisjoint(fields: seq<Field>)
  {
    forall i, j :: 0 <= i < j < |fields| ==> fields[i].End() <= fields[j].offset
  }

  /** The index of the first field from `from` on that answers to `key`. */
  function FirstNamed(fields: seq<Field>, key: string, from: nat): (r: Option<nat>)
    requires from <= |fields|
    ensures r.Some? ==> from <= r.value < |fields| && IsNamed(fields[r.value].desc, key)
    ensures r.Some? ==> forall j :: from <= j < r.value ==> !IsNamed(fields[j].desc, key)
    ensures r.None? ==> forall j :: from <= j < |fields| ==> !IsNamed(fields[j].desc, key)
    decreases |fields| - from
  {
    if from == |fields| then None
    else if IsNamed(fields[from].desc, key) then Some(from)
    else FirstNamed(fields, key, from + 1)
  }

  /** `find_field` (layout.c:310-327): nothing in the raw layout, otherwise
      the first field that answers to the key. */
  function LookupField(fields: seq<Field>, raw: bool, key: string): (r: Option<nat>)
    ensures raw ==> r == None
    ensures r.Some? ==> r.value < |fields|
  {
    if raw then None else FirstNamed(fields, key, 0)
  }

  /** Whether byte `k` lies in the field the key finds. */
  predicate InNamedField(fields: seq<Field>, raw: bool, key: string, k: int)
  {
    match LookupField(fields, raw, key)
    case None => false
    case Some(i) => fields[i].offset <= k < fields[i].End()
  }

  /** One change of `update_fields`: clear on an empty value, update
      otherwise. */
  function ChangeEffect(kind: FieldType, window: seq<byte>, value: string): (e: Effect)
    requires Fits(kind, |window|)
    ensures |e.window| == |window|
  {
    if value == [] then ClearEffect(kind, window) else UpdateEffect(kind, window, value)
  }

  /** The loop of `update_fields` (layout.c:338-362) from record `s`, with
      `done` fields already counted: an unknown key, or a change its field
      refuses, ends the batch with 0; a refused update keeps whatever it
      wrote before it failed, and so do the changes before it. */
  function FieldsRun(fields: seq<Field>, raw: bool, s: seq<byte>, done: nat, cs: seq<FieldChange>): (o: Outcome)
    requires FieldsFit(fields) && |s| == EEPROM_SIZE
    ensures |o.data| == EEPROM_SIZE
    ensures o.ok ==> o.reported == done + |cs|
    ensures !o.ok ==> o.reported == 0
    decreases |cs|
  {
    if cs == [] then Outcome(s, done, true)
    else match LookupField(fields, raw, cs[0].field)
      case None => Outcome(s, 0, false)
      case Some(i) =>
        var f := fields[i];
        var e := ChangeEffect(f.desc.kind, s[f.offset..f.End()], cs[0].value);
        var t := Splice(s, f.offset, e.window);
        if e.status != Done then Outcome(t, 0, false)
        else FieldsRun(fields, raw, t, done + 1, cs[1..])
  }

  /** The changes `clear_fields` makes: every named field cleared. */
  function ClearNames(names: seq<string>): (cs: seq<FieldChange>)
    ensures |cs| == |names|
    ensures forall i :: 0 <= i < |names| ==> cs[i] == FieldChange(names[i], "")
  {
    seq(|names|, i requires 0 <= i < |names| => FieldChange(names[i], ""))
  }

  /** The loop of `clear_fields` (layout.c:371-386): `update_fields` with
      an empty value for every key. */
  function ClearFieldsRun(fields: seq<Field>, raw: bool, s: seq<byte>, done: nat, names: seq<string>): (o: Outcome)
    requires FieldsFit(fields) && |s| == EEPROM_SIZE
  {
    FieldsRun(fields, raw, s, done, ClearNames(names))
  }

  /** A successful batch only named fields the layout has; in the raw
      layout every non-empty batch fails at once. */
  lemma {:induction false} FieldsRunFound(fields: seq<Field>, raw: bool, s: seq<byte>, done: nat, cs: seq<FieldChange>)
    requires FieldsFit(fields) && |s| == EEPROM_SIZE
    ensures FieldsRun(fields, raw, s, done, cs).ok ==>
      forall j :: 0 <= j < |cs| ==> LookupField(fields, raw, cs[j].field).Some?
    ensures raw && cs != [] ==> FieldsRun(fields, raw, s, done, cs) == Outcome(s, 0, false)
    decreases |cs|
  {
    if cs != [] && LookupField(fields, raw, cs[0].field).Some? {
      var f := fields[LookupField(fields, raw, cs[0].field).value];
      var e := ChangeEffect(f.desc.kind, s[f.offset..f.End()], cs[0].value);
      if e.status == Done {
        FieldsRunFound(fields, raw, Splice(s, f.offset, e.window), done + 1, cs[1..]);
        assert forall j :: 1 <= j < |cs| ==> cs[j] == cs[1..][j - 1];
      }
    }
  }

  /** Bytes outside every field the batch names are never written. */
  lemma {:induction false} FieldsRunFrame(fields: seq<Field>, raw: bool, s: seq<byte>, done: nat, cs: seq<FieldChange>, k: nat)
    requires FieldsFit(fields) && |s| == EEPROM_SIZE && k < EEPROM_SIZE
    requires forall j :: 0 <= j < |cs| ==> !InNamedField(fields, raw, cs[j].field, k)
    ensures FieldsRun(fields, raw, s, done, cs).data[k] == s[k]
    decreases |cs|
  {
    if cs != [] && LookupField(fields, raw, cs[0].field).Some? {
      assert !InNamedField(fields, raw, cs[0].field, k);
      var f := fields[LookupField(fields, raw, cs[0].field).value];
      var e := ChangeEffect(f.desc.kind, s[f.offset..f.End()], cs[0].value);
      SpliceAt(s, f.offset, e.window, k);
      if e.status == Done {
        assert forall j :: 0 <= j < |cs| - 1 ==> cs[1..][j] == cs[j + 1];
        FieldsRunFrame(fields, raw, Splice(s, f.offset, e.window), done + 1, cs[1..], k);
      }
    }
  }

  /** A batch is its first part followed by the rest, run from where the
      first part left off; a failure in the first part ends it. */
  lemma {:induction false} FieldsRunAppend(fields: seq<Field>, raw: bool, s: seq<byte>, done: nat,
                                          a: seq<FieldChange>, b: seq<FieldChange>)
    requires FieldsFit(fields) && |s| == EEPROM_SIZE
    ensures FieldsRun(fields, raw, s, done, a + b) ==
      var o := FieldsRun(fields, raw, s, done, a);
      if o.ok then FieldsRun(fields, raw, o.data, o.reported, b) else o
    decreases |a|
  {
    if a == [] {
      assert a + b == b;
    } else {
      assert (a + b)[0] == a[0] && (a + b)[1..] == a[1..] + b;
      if LookupField(fields, raw, a[0].field).Some? {
        var f := fields[LookupField(fields, raw, a[0].field).value];
        var e := ChangeEffect(f.desc.kind, s[f.offset..f.End()], a[0].value);
        if e.status == Done {
          FieldsRunAppend(fields, raw, Splice(s, f.offset, e.window), done + 1, a[1..], b);
        }
      }
    }
  }

  /** Whether byte `k` lies in a field one of the keys finds. */
  predicate InSomeNamedField(fields: seq<Field>, raw: bool, names: seq<string>, k: int)
  {
    exists j :: 0 <= j < |names| && InNamedField(fields, raw, names[j], k)
  }

  /** Whether the key finds a field that has a clear operation. */
  predicate Clearable(fields: seq<Field>, raw: bool, key: string)
  {
    var r := LookupField(fields, raw, key);
    r.Some? && Updatable(fields[r.value].desc.kind)
  }

  /** Clearing by the first key: its field becomes 0xff and the batch goes
      on with the other keys, or the batch ends at once with 0. */
  lemma ClearFieldsStep(fields: seq<Field>, raw: bool, s: seq<byte>, done: nat, names: seq<string>)
    requires FieldsFit(fields) && |s| == EEPROM_SIZE && names != []
    ensures !Clearable(fields, raw, names[0]) ==> !ClearFieldsRun(fields, raw, s, done, names).ok
    ensures Clearable(fields, raw, names[0]) ==>
      var f := fields[LookupField(fields, raw, names[0]).value];
      ClearFieldsRun(fields, raw, s, done, names) ==
        ClearFieldsRun(fields, raw, Splice(s, f.offset, Fill(f.desc.size, 0xff)), done + 1, names[1..])
  {
    var cs := ClearNames(names);
    assert cs[0] == FieldChange(names[0], "");
    assert cs[1..] == ClearNames(names[1..]);
  }

  /** Clearing fields succeeds exactly when every key finds a field that
      has a clear operation. */
  lemma {:induction false} ClearFieldsOk(fields: seq<Field>, raw: bool, s: seq<byte>, done: nat, names: seq<string>)
    requires FieldsFit(fields) && |s| == EEPROM_SIZE
    ensures ClearFieldsRun(fields, raw, s, done, names).ok <==>
      forall j :: 0 <= j < |names| ==> Clearable(fields, raw, names[j])
    decreases |names|
  {
    if names != [] {
      ClearFieldsStep(fields, raw, s, done, names);
      if Clearable(fields, raw, names[0]) {
        var f := fields[LookupField(fields, raw, names[0]).value];
        ClearFieldsOk(fields, raw, Splice(s, f.offset, Fill(f.desc.size, 0xff)), done + 1, names[1..]);
        assert forall j :: 1 <= j < |names| ==> names[j] == names[1..][j - 1];
      }
    }
  }

  /** After a successful clear the bytes of the named fields are 0xff and
      all the others are unchanged. */
  lemma {:induction false} ClearFieldsErases(fields: seq<Field>, raw: bool, s: seq<byte>, done: nat,
                                            names: seq<string>, k: nat)
    requires FieldsFit(fields) && |s| == EEPROM_SIZE && k < EEPROM_SIZE
    requires ClearFieldsRun(fields, raw, s, done, names).ok
    ensures ClearFieldsRun(fields, raw, s, done, names).data[k] ==
      if InSomeNamedField(fields, raw, names, k) then 0xff else s[k]
    decreases |names|
  {
    if names != [] {
      ClearFieldsStep(fields, raw, s, done, names);
      var f := fields[LookupField(fields, raw, names[0]).value];
      var t := Splice(s, f.offset, Fill(f.desc.size, 0xff));
      ClearFieldsErases(fields, raw, t, done + 1, names[1..], k);
      SpliceAt(s, f.offset, Fill(f.desc.size, 0xff), k);
      EraseUnion(fields, raw, names, k);
    }
  }

  /** Byte `k` lies in a field of the keys exactly when it lies in the
      first key's field or in a field of the others. */
  lemma EraseUnion(fields: seq<Field>, raw: bool, names: seq<string>, k: int)
    requires names != []
    ensures InSomeNamedField(fields, raw, names, k) <==>
      InNamedField(fields, raw, names[0], k) || InSomeNamedField(fields, raw, names[1..], k)
  {
    if InSomeNamedField(fields, raw, names, k) {
      var j :| 0 <= j < |names| && InNamedField(fields, raw, names[j], k);
      if j > 0 {
        assert names[1..][j - 1] == names[j];
      }
    }
    if InSomeNamedField(fields, raw, names[1..], k) {
      var j :| 0 <= j < |names| - 1 && InNamedField(fields, raw, names[1..][j], k);
      assert names[j + 1] == names[1..][j];
    }
  }

  /** The count `update_fields` returns is all of the changes or none:
      a failed batch reports 0 even when earlier changes were applied. */
  lemma FieldsCountAllOrNothing(fields: seq<Field>, raw: bool, s: seq<byte>, cs: seq<FieldChange>)
    requires FieldsFit(fields) && |s| == EEPROM_SIZE
    ensures FieldsRun(fields, raw, s, 0, cs).reported == 0 || FieldsRun(fields, raw, s, 0, cs).reported == |cs|
    ensures cs != [] ==> (FieldsRun(fields, raw, s, 0, cs).reported == |cs| <==> FieldsRun(fields, raw, s, 0, cs).ok)
  {
  }

  // ---------------------------------------------------------------------
  // The layouts built from the tables

  /** The offset walk of `new_layout` (layout.c:415-419): each field starts
      where the one before it ends. */
  method PlaceFields(schema: seq<FieldDescriptor>) returns (placed: seq<Field>)
    ensures placed == Place(schema)
  {
    placed := [];
    var offset: nat := 0;
    var i := 0;
    while i < |schema|
      invariant 0 <= i <= |schema|
      invariant offset == SizeSum(schema, i)
      invariant placed == Place(schema)[..i]
    {
      assert Place(schema)[..i + 1] == Place(schema)[..i] + [Field(schema[i], offset)];
      placed := placed + [Field(schema[i], offset)];
      offset := offset + schema[i].size;
      i := i + 1;
    }
    assert Place(schema)[..i] == Place(schema);
  }

  /** The fields placed from any table fit the record, and have the sizes
      their types need. */
  lemma PlacedFit(v: LayoutVersion)
    ensures FieldsFit(Place(SchemaFor(v)))
  {
    var schema := SchemaFor(v);
    TablesCoverRecord(v);
    TablesWellSized(v);
    forall i | 0 <= i < |schema|
      ensures Place(schema)[i].End() <= EEPROM_SIZE && WellSized(Place(schema)[i].desc)
    {
      PlaceInside(schema, i);
    }
  }

  /** The fields placed from any table are ordered and do not overlap. */
  lemma PlacedDisjoint(schema: seq<FieldDescriptor>)
    ensures FieldsDisjoint(Place(schema))
  {
    forall i, j | 0 <= i < j < |schema|
      ensures Place(schema)[i].End() <= Place(schema)[j].offset
    {
      PlaceDisjoint(schema, i, j);
    }
  }

  /** A batch that updates "mac1" and then names a key no field has ends
      with 0, the MAC address written and no later change attempted. */
  lemma UnknownKeyEndsBatch(s: seq<byte>, v: string, x: string, rest: seq<FieldChange>)
    requires |s| == EEPROM_SIZE && v != []
    ensures FieldsFit(Place(LayoutV1))
    ensures FieldsRun(Place(LayoutV1), false, s, 0, [FieldChange("mac1", v), FieldChange("nosuchfield", x)] + rest)
      == Outcome(Splice(s, 4, UpdateEffect(Mac, s[4..10], v).window), 0, false)
  {
    PlacedFit(V1);
    var cs := [FieldChange("mac1", v), FieldChange("nosuchfield", x)] + rest;
    FindMac1();
    FindNoSuchField();
    assert cs[0] == FieldChange("mac1", v) && cs[1..][0] == FieldChange("nosuchfield", x);
  }

  /** "mac1" is the third field of layout 1, at offset 4. */
  lemma FindMac1()
    ensures LookupField(Place(LayoutV1), false, "mac1") == Some(2)
    ensures Place(LayoutV1)[2] == Field(F("1st MAC Address", "mac1", 6, Mac), 4)
  {
    var fields := Place(LayoutV1);
    assert fields[2] == Field(F("1st MAC Address", "mac1", 6, Mac), 4);
    assert !IsNamed(fields[0].desc, "mac1") && !IsNamed(fields[1].desc, "mac1");
  }

  /** No field of layout 1 answers to "nosuchfield". */
  lemma FindNoSuchField()
    ensures LookupField(Place(LayoutV1), false, "nosuchfield") == None
  {
    var fields := Place(LayoutV1);
    forall i | 0 <= i < |fields|
      ensures !IsNamed(fields[i].desc, "nosuchfield")
    {
      assert fields[i].desc == LayoutV1[i];
    }
  }

  /** "rsvd" names two fields of layout 1; the key finds the first, whose
      type has no update operation, so the batch ends with 0 and the record
      as it was. */
  lemma ReservedKeyRefused(s: seq<byte>, x: string, rest: seq<FieldChange>)
    requires |s| == EEPROM_SIZE
    ensures FieldsFit(Place(LayoutV1))
    ensures FieldsRun(Place(LayoutV1), false, s, 0, [FieldChange("rsvd", x)] + rest) == Outcome(s, 0, false)
  {
    PlacedFit(V1);
    FindRsvd();
    var w := s[32..128];
    assert ChangeEffect(Reserved, w, x) == Effect(Failed(NotUpdatable), w);
    SpliceSame(s, 32, 96);
  }

  /** "rsvd" finds field 6 of layout 1, the reserved bytes 32 to 127. */
  lemma FindRsvd()
    ensures LookupField(Place(LayoutV1), false, "rsvd") == Some(6)
    ensures Place(LayoutV1)[6] == Field(F("Reserved fields", "rsvd", 96, Reserved), 32)
    ensures Place(LayoutV1)[11].desc.shortName == "rsvd"
  {
    var fields := Place(LayoutV1);
    OffsetsV1Are();
    RunningSumsAre(LayoutV1, OffsetsV1, 6);
    assert fields[6] == Field(F("Reserved fields", "rsvd", 96, Reserved), 32);
    forall j | 0 <= j < 6
      ensures !IsNamed(fields[j].desc, "rsvd")
    {
      assert fields[j].desc == LayoutV1[j];
    }
  }

  // ---------------------------------------------------------------------
  // Printing (`print_layout`, layout.c:188-196)

  /** The record after printing field `f`: an erased version field
      (0xff 0xff) becomes 0 0, every other byte is kept. */
  function PrintOne(f: Field, t: seq<byte>): (r: seq<byte>)
    requires WellSized(f.desc) && f.End() <= |t|
    ensures |r| == |t|
  {
    if f.desc.kind == Version && t[f.offset] == 0xff && t[f.offset + 1] == 0xff
    then t[f.offset := 0][f.offset + 1 := 0]
    else t
  }

  /** `PrintOne` is what `PrintField` does to the record. */
  lemma PrintOneSplice(f: Field, t: seq<byte>)
    requires WellSized(f.desc) && f.End() <= |t|
    ensures PrintOne(f, t) == Splice(t, f.offset, PrintedWindow(f.desc.kind, t[f.offset..f.End()]))
  {
    var w := PrintedWindow(f.desc.kind, t[f.offset..f.End()]);
    if f.desc.kind == Version {
      assert f.End() == f.offset + 2;
      assert t[f.offset..f.End()] == [t[f.offset], t[f.offset + 1]];
      forall k | 0 <= k < |t|
        ensures PrintOne(f, t)[k] == Splice(t, f.offset, w)[k]
      {
        SpliceAt(t, f.offset, w, k);
      }
    } else {
      SpliceSame(t, f.offset, f.desc.size);
    }
  }

  /** The record after the first `n` fields were printed. */
  function PrintedUpTo(fields: seq<Field>, s: seq<byte>, n: nat): (r: seq<byte>)
    requires FieldsFit(fields) && |s| == EEPROM_SIZE && n <= |fields|
    ensures |r| == EEPROM_SIZE
  {
    if n == 0 then s else PrintOne(fields[n - 1], PrintedUpTo(fields, s, n - 1))
  }

  /** Printing field `n - 1` changes at most the bytes of its window, and
      those only when it is a version field. */
  lemma PrintedAt(fields: seq<Field>, s: seq<byte>, n: nat, k: nat)
    requires FieldsFit(fields) && |s| == EEPROM_SIZE && 0 < n <= |fields| && k < EEPROM_SIZE
    ensures fields[n - 1].desc.kind != Version || !(fields[n - 1].offset <= k < fields[n - 1].End()) ==>
      PrintedUpTo(fields, s, n)[k] == PrintedUpTo(fields, s, n - 1)[k]
  {
  }

  /** Printing writes only inside version fields. */
  lemma {:induction false} PrintedFrame(fields: seq<Field>, s: seq<byte>, n: nat, k: nat)
    requires FieldsFit(fields) && |s| == EEPROM_SIZE && n <= |fields| && k < EEPROM_SIZE
    requires forall j :: 0 <= j < n && fields[j].desc.kind == Version ==>
      !(fields[j].offset <= k < fields[j].End())
    ensures PrintedUpTo(fields, s, n)[k] == s[k]
  {
    if n > 0 {
      PrintedFrame(fields, s, n - 1, k);
      PrintedAt(fields, s, n, k);
    }
  }

  /** Printing the first `n` fields leaves alone the bytes after them. */
  lemma {:induction false} PrintedBefore(fields: seq<Field>, s: seq<byte>, n: nat, k: nat)
    requires FieldsFit(fields) && |s| == EEPROM_SIZE && n <= |fields| && k < EEPROM_SIZE
    requires forall j :: 0 <= j < n ==> fields[j].End() <= k
    ensures PrintedUpTo(fields, s, n)[k] == s[k]
  {
    if n > 0 {
      PrintedBefore(fields, s, n - 1, k);
      PrintedAt(fields, s, n, k);
    }
  }

  /** The value texts of the first `n` fields of record `s`. */
  function ValueTexts(fields: seq<Field>, s: seq<byte>, n: nat): (texts: seq<string>)
    requires FieldsFit(fields) && |s| == EEPROM_SIZE && n <= |fields|
    ensures |texts| == n
  {
    if n == 0 then []
    else
      var f := fields[n - 1];
      ValueTexts(fields, s, n - 1) + [FieldText(f.desc.kind, s[f.offset..f.End()])]
  }

  /** Text `j` is what field `j` prints for its window of the record. */
  lemma {:induction false} ValueTextAt(fields: seq<Field>, s: seq<byte>, n: nat, j: nat)
    requires FieldsFit(fields) && |s| == EEPROM_SIZE && j < n <= |fields|
    ensures ValueTexts(fields, s, n)[j] == FieldText(fields[j].desc.kind, s[fields[j].offset..fields[j].End()])
  {
    var f := fields[n - 1];
    var prev := ValueTexts(fields, s, n - 1);
    var last := FieldText(f.desc.kind, s[f.offset..f.End()]);
    assert ValueTexts(fields, s, n) == prev + [last];
    if j < n - 1 {
      ValueTextAt(fields, s, n - 1, j);
      assert (prev + [last])[j] == prev[j];
    } else {
      assert j == n - 1 && fields[j] == f;
      assert (prev + [last])[j] == last;
    }
  }

  /** Before field `i` is printed its window holds the original bytes. */
  lemma WindowUnprinted(fields: seq<Field>, s: seq<byte>, i: nat)
    requires FieldsFit(fields) && FieldsDisjoint(fields) && |s| == EEPROM_SIZE && i < |fields|
    ensures PrintedUpTo(fields, s, i)[fields[i].offset..fields[i].End()]
      == s[fields[i].offset..fields[i].End()]
  {
    var f := fields[i];
    forall k | f.offset <= k < f.End()
      ensures PrintedUpTo(fields, s, i)[k] == s[k]
    {
      PrintedBefore(fields, s, i, k);
    }
  }

  /** One turn of the loop of `print_layout`: printing field `i` of the
      partly printed record extends the texts and the record by one field. */
  lemma PrintStep(fields: seq<Field>, s: seq<byte>, i: nat, cur: seq<byte>, w: seq<byte>, next: seq<byte>,
                  texts: seq<string>, t: string)
    requires FieldsFit(fields) && FieldsDisjoint(fields) && |s| == EEPROM_SIZE && i < |fields|
    requires cur == PrintedUpTo(fields, s, i) && texts == ValueTexts(fields, s, i)
    requires w == cur[fields[i].offset..fields[i].End()]
    requires next == Splice(cur, fields[i].offset, PrintedWindow(fields[i].desc.kind, w))
    requires t == FieldText(fields[i].desc.kind, w)
    ensures next == PrintedUpTo(fields, s, i + 1)
    ensures texts + [t] == ValueTexts(fields, s, i + 1)
  {
    WindowUnprinted(fields, s, i);
    PrintOneSplice(fields[i], cur);
  }

  // ---------------------------------------------------------------------
  // The layout object (`struct layout` and `new_layout`, layout.c:400-430)

  /** A layout: the version it was built for, its fields in table order,
      and the record they are windows into. `data` is the caller's own
      buffer, not a copy, so the operations change it in place. */
  class Layout {
    const version: LayoutVersion
    const fields: seq<Field>
    const data: array<byte>

    /** The record has the size of an EEPROM image, and the fields are
        ordered, do not overlap and lie inside it with the sizes their
        types need (the constructor places the fields of a table). */
    ghost predicate Valid()
    {
      && data.Length == EEPROM_SIZE
      && version != Autodetect
      && FieldsFit(fields)
      && FieldsDisjoint(fields)
    }

    /** Whether the layout has the raw table, whose field `find_field`
        refuses to hand out. */
    predicate Raw()
    {
      IsRawVersion(version)
    }

    /** `new_layout(buf, size, version)`: the version is the requested one
        or, on request, the detected one (`build_layout`); the fields are
        laid out one after the other from offset 0. */
    constructor (buf: array<byte>, requested: LayoutVersion)
      requires buf.Length == EEPROM_SIZE
      ensures Valid()
      ensures data == buf
      ensures version == ResolveVersion(requested, buf[..])
      ensures fields == Place(SchemaFor(version))
    {
      var v := if requested == Autodetect then DetectLayout(buf[LAYOUT_CHECK_BYTE]) else requested;
      var schema := SchemaFor(v);
      var placed := PlaceFields(schema);
      version := v;
      fields := placed;
      data := buf;
      PlacedFit(v);
      PlacedDisjoint(schema);
    }

    /** `find_field(layout, key)`. */
    method FindField(key: string) returns (r: Option<nat>)
      requires Valid()
      ensures r == LookupField(fields, Raw(), key)
    {
      if Raw() {
        return None;
      }
      var i := 0;
      while i < |fields|
        invariant 0 <= i <= |fields|
        invariant FirstNamed(fields, key, i) == FirstNamed(fields, key, 0)
      {
        if IsNamed(fields[i].desc, key) {
          return Some(i);
        }
        i := i + 1;
      }
      return None;
    }

    /** `print_layout(layout)`: one value text per field, in table order.
        Printing a version field writes its normalised bytes back. */
    method Print() returns (texts: seq<string>)
      requires Valid()
      modifies data
      ensures texts == ValueTexts(fields, old(data[..]), |fields|)
      ensures data[..] == PrintedUpTo(fields, old(data[..]), |fields|)
    {
      ghost var s0 := data[..];
      texts := [];
      var i := 0;
      while i < |fields|
        invariant 0 <= i <= |fields|
        invariant data[..] == PrintedUpTo(fields, s0, i)
        invariant texts == ValueTexts(fields, s0, i)
      {
        var f := fields[i];
        ghost var cur := data[..];
        ghost var w := data[f.offset..f.End()];
        assert w == cur[f.offset..f.End()];
        var t := PrintField(data, f);
        PrintStep(fields, s0, i, cur, w, data[..], texts, t);
        texts := texts + [t];
        i := i + 1;
      }
    }

    /** `update_bytes(layout, changes)`. */
    method UpdateBytes(cs: seq<BytesChange>) returns (updated: nat)
      requires Valid()
      modifies data
      ensures data[..] == BytesRun(old(data[..]), 0, cs).data
      ensures updated == BytesRun(old(data[..]), 0, cs).reported
    {
      ghost var s0 := data[..];
      updated := 0;
      var i := 0;
      while i < |cs|
        invariant 0 <= i <= |cs|
        invariant BytesRun(s0, 0, cs) == BytesRun(data[..], updated, cs[i..])
      {
        var c := cs[i];
        BytesRunHead(data[..], updated, cs, i);
        var n := BytesRangeLength(c.start, c.end);
        if n == 0 {
          return 0;
        }
        if !(0 <= c.value <= 255) {
          return 0;
        }
        Store(data, c.start, Fill(n, c.value));
        updated := updated + n;
        i := i + 1;
      }
      assert cs[i..] == [];
    }

    /** `clear_bytes(layout, ranges)`. */
    method ClearBytes(rs: seq<BytesRange>) returns (cleared: nat)
      requires Valid()
      modifies data
      ensures data[..] == ClearRun(old(data[..]), 0, rs).data
      ensures cleared == ClearRun(old(data[..]), 0, rs).reported
    {
      ghost var s0 := data[..];
      ghost var cs := ClearChanges(rs);
      cleared := 0;
      var i := 0;
      while i < |rs|
        invariant 0 <= i <= |rs|
        invariant BytesRun(s0, 0, cs) == BytesRun(data[..], cleared, cs[i..])
      {
        var n := BytesRangeLength(rs[i].start, rs[i].end);
        assert cs[i] == BytesChange(rs[i].start, rs[i].end, 0xff);
        BytesRunHead(data[..], cleared, cs, i);
        if n == 0 {
          return 0;
        }
        Store(data, rs[i].start, Fill(n, 0xff));
        cleared := cleared + n;
        i := i + 1;
      }
      assert cs[i..] == [];
    }

    /** `update_fields(layout, changes)`. */
    method UpdateFields(cs: seq<FieldChange>) returns (count: nat)
      requires Valid()
      modifies data
      ensures data[..] == FieldsRun(fields, Raw(), old(data[..]), 0, cs).data
      ensures count == FieldsRun(fields, Raw(), old(data[..]), 0, cs).reported
    {
      ghost var s0 := data[..];
      count := 0;
      var i := 0;
      while i < |cs|
        invariant 0 <= i <= |cs|
        invariant FieldsRun(fields, Raw(), s0, 0, cs) == FieldsRun(fields, Raw(), data[..], count, cs[i..])
      {
        var c := cs[i];
        assert cs[i..][0] == c && cs[i..][1..] == cs[i + 1..];
        var r := FindField(c.field);
        if r.None? {
          return 0;
        }
        var st := ApplyChange(fields[r.value], c.value);
        if st != Done {
          return 0;
        }
        count := count + 1;
        i := i + 1;
      }
      assert cs[i..] == [];
    }

    /** One change of `update_fields` on field `f`: `ops->clear` on an
        empty value, `ops->update` otherwise. */
    method ApplyChange(f: Field, value: string) returns (st: Status)
      requires data.Length == EEPROM_SIZE && f.End() <= EEPROM_SIZE && WellSized(f.desc)
      modifies data
      ensures Applied(old(data[..]), data[..], f,
                      ChangeEffect(f.desc.kind, old(data[..])[f.offset..f.End()], value), st)
    {
      assert data[..][f.offset..f.End()] == data[f.offset..f.End()];
      if value == [] {
        st := Clear(data, f);
      } else {
        st := UpdateField(data, f, value);
      }
    }

    /** `clear_fields(layout, keys)`. */
    method ClearFields(names: seq<string>) returns (count: nat)
      requires Valid()
      modifies data
      ensures data[..] == ClearFieldsRun(fields, Raw(), old(data[..]), 0, names).data
      ensures count == ClearFieldsRun(fields, Raw(), old(data[..]), 0, names).reported
    {
      ghost var s0 := data[..];
      ghost var cs := ClearNames(names);
      count := 0;
      var i := 0;
      while i < |names|
        invariant 0 <= i <= |names|
        invariant FieldsRun(fields, Raw(), s0, 0, cs) == FieldsRun(fields, Raw(), data[..], count, cs[i..])
      {
        assert cs[i..][0] == FieldChange(names[i], "") && cs[i..][1..] == cs[i + 1..];
        var r := FindField(names[i]);
        if r.None? {
          return 0;
        }
        var st := ApplyChange(fields[r.value], "");
        if st != Done {
          return 0;
        }
        count := count + 1;
        i := i + 1;
      }
      assert cs[i..] == [];
    }
  }
}
