/** The schema tables of layout.c: for each layout version the ordered
    fields a 256-byte record is cut into, the detection of the version
    from the record's check byte, and the placement of the fields at
    running offsets. */
module Schemas {
  import opened Common
  import opened FieldTypes

  /** The layout versions; `Autodetect` is only ever requested. */
  datatype LayoutVersion = Autodetect | Legacy | V1 | V2 | V3 | V4 | Unrecognized

  /** The byte detection looks at (LAYOUT_CHECK_BYTE, layout.c:29). */
  const LAYOUT_CHECK_BYTE: nat := 44

  /** The display name of the raw dump's only field (layout.c:30). */
  const NO_LAYOUT_FIELDS: string := "Unknown layout. Dumping raw data\n"

  function F(name: string, shortName: string, size: nat, kind: FieldType): FieldDescriptor
  {
    FieldDescriptor(name, shortName, size, kind)
  }

  const LayoutLegacy: seq<FieldDescriptor> := [
    F("MAC address", "mac", 6, Mac),
    F("Board Revision", "rev", 2, Binary),
    F("Serial Number", "sn", 8, Binary),
    F("Board Configuration", "conf", 64, Ascii),
    F("Reserved fields", "rsvd", 176, Reserved)]

  const LayoutV1: seq<FieldDescriptor> := [
    F("Major Revision", "major", 2, Version),
    F("Minor Revision", "minor", 2, Version),
    F("1st MAC Address", "mac1", 6, Mac),
    F("2nd MAC Address", "mac2", 6, Mac),
    F("Production Date", "date", 4, Date),
    F("Serial Number", "sn", 12, Reversed),
    F("Reserved fields", "rsvd", 96, Reserved),
    F("Product Name", "name", 16, Ascii),
    F("Product Options #1", "opt1", 16, Ascii),
    F("Product Options #2", "opt2", 16, Ascii),
    F("Product Options #3", "opt3", 16, Ascii),
    F("Reserved fields", "rsvd", 64, Reserved)]

  const LayoutV2: seq<FieldDescriptor> := [
    F("Major Revision", "major", 2, Version),
    F("Minor Revision", "minor", 2, Version),
    F("1st MAC Address", "mac1", 6, Mac),
    F("2nd MAC Address", "mac2", 6, Mac),
    F("Production Date", "date", 4, Date),
    F("Serial Number", "sn", 12, Reversed),
    F("3rd MAC Address (WIFI)", "mac3", 6, Mac),
    F("4th MAC Address (Bluetooth)", "mac4", 6, Mac),
    F("Layout Version", "layout", 1, Binary),
    F("Reserved fields", "rsvd", 83, Reserved),
    F("Product Name", "name", 16, Ascii),
    F("Product Options #1", "opt1", 16, Ascii),
    F("Product Options #2", "opt2", 16, Ascii),
    F("Product Options #3", "opt3", 16, Ascii),
    F("Reserved fields", "rsvd", 64, Reserved)]

  const LayoutV3: seq<FieldDescriptor> := [
    F("Major Revision", "major", 2, Version),
    F("Minor Revision", "minor", 2, Version),
    F("1st MAC Address", "mac1", 6, Mac),
    F("2nd MAC Address", "mac2", 6, Mac),
    F("Production Date", "date", 4, Date),
    F("Serial Number", "sn", 12, Reversed),
    F("3rd MAC Address (WIFI)", "mac3", 6, Mac),
    F("4th MAC Address (Bluetooth)", "mac4", 6, Mac),
    F("Layout Version", "layout", 1, Binary),
    F("CompuLab EEPROM ID", "id", 3, Binary),
    F("Reserved fields", "rsvd", 80, Reserved),
    F("Product Name", "name", 16, Ascii),
    F("Product Options #1", "opt1", 16, Ascii),
    F("Product Options #2", "opt2", 16, Ascii),
    F("Product Options #3", "opt3", 16, Ascii),
    F("Reserved fields", "rsvd", 64, Reserved)]

  const LayoutV4: seq<FieldDescriptor> := [
    F("Major Revision", "major", 2, Version),
    F("Minor Revision", "minor", 2, Version),
    F("1st MAC Address", "mac1", 6, Mac),
    F("2nd MAC Address", "mac2", 6, Mac),
    F("Production Date", "date", 4, Date),
    F("Serial Number", "sn", 12, Reversed),
    F("3rd MAC Address (WIFI)", "mac3", 6, Mac),
    F("4th MAC Address (Bluetooth)", "mac4", 6, Mac),
    F("Layout Version", "layout", 1, Binary),
    F("CompuLab EEPROM ID", "id", 3, Binary),
    F("5th MAC Address", "mac5", 6, Mac),
    F("6th MAC Address", "mac6", 6, Mac),
    F("Scratchpad", "spad", 4, Binary),
    F("Reserved fields", "rsvd", 64, Reserved),
    F("Product Name", "name", 16, Ascii),
    F("Product Options #1", "opt1", 16, Ascii),
    F("Product Options #2", "opt2", 16, Ascii),
    F("Product Options #3", "opt3", 16, Ascii),
    F("Product Options #4", "opt4", 16, Ascii),
    F("Product Options #5", "opt5", 16, Ascii),
    F("Reserved fields", "rsvd", 32, Reserved)]

  const LayoutUnknown: seq<FieldDescriptor> := [
    F(NO_LAYOUT_FIELDS, "raw", 256, Raw)]

  /** The sum of the sizes of the first `i` descriptors. */
  function SizeSum(schema: seq<FieldDescriptor>, i: nat): nat
    requires i <= |schema|
  {
    if i == 0 then 0 else SizeSum(schema, i - 1) + schema[i - 1].size
  }

  /** The sum of the sizes of all the descriptors. */
  function TotalSize(schema: seq<FieldDescriptor>): nat
  {
    SizeSum(schema, |schema|)
  }

  /** `offsets` lists the running sums of the sizes, from 0 to the total. */
  predicate RunningSums(schema: seq<FieldDescriptor>, offsets: seq<nat>)
  {
    && |offsets| == |schema| + 1 && offsets[0] == 0
    && StepsBetween(schema, offsets, 0, |schema|)
  }

  /** Each field from `lo` up to `hi` starts where the one before ends. */
  predicate StepsBetween(schema: seq<FieldDescriptor>, offsets: seq<nat>, lo: nat, hi: nat)
    requires hi <= |schema| && |offsets| == |schema| + 1
  {
    forall i :: lo <= i < hi ==> offsets[i + 1] == offsets[i] + schema[i].size
  }

  lemma {:induction false} RunningSumsAre(schema: seq<FieldDescriptor>, offsets: seq<nat>, i: nat)
    requires RunningSums(schema, offsets) && i <= |schema|
    ensures SizeSum(schema, i) == offsets[i]
  {
    if i > 0 {
      RunningSumsAre(schema, offsets, i - 1);
    }
  }

  /** The offsets of the fields of each table, and the end of the last. */
  const OffsetsLegacy: seq<nat> := [0, 6, 8, 16, 80, 256]
  const OffsetsV1: seq<nat> := [0, 2, 4, 10, 16, 20, 32, 128, 144, 160, 176, 192, 256]
  const OffsetsV2: seq<nat> := [0, 2, 4, 10, 16, 20, 32, 38, 44, 45, 128, 144, 160, 176, 192, 256]
  const OffsetsV3: seq<nat> := [0, 2, 4, 10, 16, 20, 32, 38, 44, 45, 48, 128, 144, 160, 176, 192, 256]
  const OffsetsV4: seq<nat> := [0, 2, 4, 10, 16, 20, 32, 38, 44, 45, 48, 54, 60, 64, 128, 144, 160, 176, 192, 208, 224, 256]

  lemma OffsetsLegacyAre() ensures RunningSums(LayoutLegacy, OffsetsLegacy) {}
  lemma OffsetsV1Are() ensures RunningSums(LayoutV1, OffsetsV1) {}
  lemma OffsetsV2Are() ensures RunningSums(LayoutV2, OffsetsV2) {}
  lemma OffsetsV3Are() ensures RunningSums(LayoutV3, OffsetsV3) {}
  lemma OffsetsV4Are() ensures RunningSums(LayoutV4, OffsetsV4)
  {
    assert StepsBetween(LayoutV4, OffsetsV4, 0, 11);
    assert StepsBetween(LayoutV4, OffsetsV4, 11, 21);
  }

  lemma TotalLegacy() ensures TotalSize(LayoutLegacy) == EEPROM_SIZE
  {
    OffsetsLegacyAre();
    RunningSumsAre(LayoutLegacy, OffsetsLegacy, 5);
  }
  lemma TotalV1() ensures TotalSize(LayoutV1) == EEPROM_SIZE
  {
    OffsetsV1Are();
    RunningSumsAre(LayoutV1, OffsetsV1, 12);
  }
  lemma TotalV2() ensures TotalSize(LayoutV2) == EEPROM_SIZE
  {
    OffsetsV2Are();
    RunningSumsAre(LayoutV2, OffsetsV2, 15);
  }
  lemma TotalV3() ensures TotalSize(LayoutV3) == EEPROM_SIZE
  {
    OffsetsV3Are();
    RunningSumsAre(LayoutV3, OffsetsV3, 16);
  }
  lemma TotalV4() ensures TotalSize(LayoutV4) == EEPROM_SIZE
  {
    OffsetsV4Are();
    RunningSumsAre(LayoutV4, OffsetsV4, 21);
  }

  /** Every field of the table has the size its type needs. */
  predicate AllWellSized(schema: seq<FieldDescriptor>)
  {
    forall i :: 0 <= i < |schema| ==> WellSized(schema[i])
  }

  lemma WellSizedLegacy() ensures AllWellSized(LayoutLegacy) {}
  lemma WellSizedV1() ensures AllWellSized(LayoutV1) {}
  lemma WellSizedV2() ensures AllWellSized(LayoutV2) {}
  lemma WellSizedV3() ensures AllWellSized(LayoutV3) {}
  lemma WellSizedV4() ensures AllWellSized(LayoutV4) {}

  /** The table `build_layout` selects for a version: the raw table for
      any version other than Legacy and V1 to V4 (layout.c:155-182). */
  function SchemaFor(v: LayoutVersion): seq<FieldDescriptor>
  {
    match v
    case Legacy => LayoutLegacy
    case V1 => LayoutV1
    case V2 => LayoutV2
    case V3 => LayoutV3
    case V4 => LayoutV4
    case _ => LayoutUnknown
  }

  /** The versions that select the raw table. */
  predicate IsRawVersion(v: LayoutVersion)
  {
    v == Autodetect || v == Unrecognized
  }

  /** Every table, the raw one included, partitions exactly the 256 bytes
      of the record. */
  lemma TablesCoverRecord(v: LayoutVersion)
    ensures TotalSize(SchemaFor(v)) == EEPROM_SIZE
  {
    if v == Legacy {
      TotalLegacy();
    } else if v == V1 {
      TotalV1();
    } else if v == V2 {
      TotalV2();
    } else if v == V3 {
      TotalV3();
    } else if v == V4 {
      TotalV4();
    } else {
      assert SizeSum(LayoutUnknown, 1) == 256;
    }
  }

  /** Every field of every table has the size its type needs. */
  lemma TablesWellSized(v: LayoutVersion)
    ensures AllWellSized(SchemaFor(v))
  {
    if v == Legacy {
      WellSizedLegacy();
    } else if v == V1 {
      WellSizedV1();
    } else if v == V2 {
      WellSizedV2();
    } else if v == V3 {
      WellSizedV3();
    } else if v == V4 {
      WellSizedV4();
    }
  }

  // ---------------------------------------------------------------------
  // Detection (`detect_layout`, layout.c:131-146)

  /** The version `detect_layout` reads off the check byte. */
  function DetectLayout(check: byte): LayoutVersion
  {
    if check == 0xff || check == 0 then V1
    else if check == 2 then V2
    else if check == 3 then V3
    else if check == 4 then V4
    else if check >= 0x20 then Legacy
    else Unrecognized
  }

  /** Which check bytes give which version, each as an equivalence. */
  lemma DetectCases(check: byte)
    ensures DetectLayout(check) == V1 <==> check == 0 || check == 0xff
    ensures DetectLayout(check) == V2 <==> check == 2
    ensures DetectLayout(check) == V3 <==> check == 3
    ensures DetectLayout(check) == V4 <==> check == 4
    ensures DetectLayout(check) == Legacy <==> 0x20 <= check < 0xff
    ensures DetectLayout(check) == Unrecognized <==> 0 < check < 0x20 && !(2 <= check <= 4)
    ensures DetectLayout(check) != Autodetect
  {
  }

  /** The version a layout is built with: the requested one, or the
      detected one when detection is requested (layout.c:157-158). */
  function ResolveVersion(requested: LayoutVersion, data: seq<byte>): (v: LayoutVersion)
    requires |data| == EEPROM_SIZE
    ensures v != Autodetect
  {
    if requested == Autodetect then DetectLayout(data[LAYOUT_CHECK_BYTE]) else requested
  }

  /** An explicit version does not look at the record; detection looks at
      the check byte only. */
  lemma ResolveReadsCheckByteOnly(requested: LayoutVersion, d1: seq<byte>, d2: seq<byte>)
    requires |d1| == EEPROM_SIZE && |d2| == EEPROM_SIZE
    requires requested == Autodetect ==> d1[LAYOUT_CHECK_BYTE] == d2[LAYOUT_CHECK_BYTE]
    ensures ResolveVersion(requested, d1) == ResolveVersion(requested, d2)
    ensures requested != Autodetect ==> ResolveVersion(requested, d1) == requested
  {
  }

  // ---------------------------------------------------------------------
  // Placement (the offset walk of `new_layout`, layout.c:415-419)

  /** Field `i` of a table starts at the sum of the sizes before it. */
  function Place(schema: seq<FieldDescriptor>): seq<Field>
  {
    seq(|schema|, i requires 0 <= i < |schema| => Field(schema[i], SizeSum(schema, i)))
  }

  /** The placed fields follow each other without gaps, from offset 0 to
      the total size. */
  lemma PlaceContiguous(schema: seq<FieldDescriptor>)
    requires |schema| >= 1
    ensures Place(schema)[0].offset == 0
    ensures forall i :: 0 <= i < |schema| - 1 ==> Place(schema)[i].End() == Place(schema)[i + 1].offset
    ensures Place(schema)[|schema| - 1].End() == TotalSize(schema)
  {
  }

  lemma {:induction false} SizeSumMonotone(schema: seq<FieldDescriptor>, i: nat, j: nat)
    requires i <= j <= |schema|
    ensures SizeSum(schema, i) <= SizeSum(schema, j)
    decreases j - i
  {
    if i < j {
      SizeSumMonotone(schema, i, j - 1);
    }
  }

  /** Placed fields do not overlap and are ordered by offset. */
  lemma PlaceDisjoint(schema: seq<FieldDescriptor>, i: nat, j: nat)
    requires i < j < |schema|
    ensures Place(schema)[i].End() <= Place(schema)[j].offset
  {
    SizeSumMonotone(schema, i + 1, j);
  }

  /** Every field lies inside the table's total size. */
  lemma PlaceInside(schema: seq<FieldDescriptor>, i: nat)
    requires i < |schema|
    ensures Place(schema)[i].End() <= TotalSize(schema)
  {
    SizeSumMonotone(schema, i + 1, |schema|);
  }

  /** Every byte below the total size lies in a placed field. */
  lemma {:induction false} PlaceCovers(schema: seq<FieldDescriptor>, k: nat, n: nat)
    requires n <= |schema| && k < SizeSum(schema, n)
    ensures exists i :: 0 <= i < n && Place(schema)[i].offset <= k < Place(schema)[i].End()
  {
    if k >= SizeSum(schema, n - 1) {
      assert Place(schema)[n - 1].offset <= k < Place(schema)[n - 1].End();
    } else {
      PlaceCovers(schema, k, n - 1);
    }
  }

  lemma CheckByteField(schema: seq<FieldDescriptor>, offsets: seq<nat>)
    requires RunningSums(schema, offsets) && |schema| > 8 && offsets[8] == LAYOUT_CHECK_BYTE
    requires schema[8] == F("Layout Version", "layout", 1, Binary)
    ensures Place(schema)[8] == Field(F("Layout Version", "layout", 1, Binary), LAYOUT_CHECK_BYTE)
  {
    RunningSumsAre(schema, offsets, 8);
  }

  /** In layouts 2 to 4 the "layout" field is the check byte that
      detection reads. */
  lemma CheckByteV2()
    ensures |LayoutV2| > 8
    ensures Place(LayoutV2)[8] == Field(F("Layout Version", "layout", 1, Binary), LAYOUT_CHECK_BYTE)
  {
    OffsetsV2Are();
    CheckByteField(LayoutV2, OffsetsV2);
  }

  lemma CheckByteV3()
    ensures |LayoutV3| > 8
    ensures Place(LayoutV3)[8] == Field(F("Layout Version", "layout", 1, Binary), LAYOUT_CHECK_BYTE)
  {
    OffsetsV3Are();
    CheckByteField(LayoutV3, OffsetsV3);
  }

  lemma CheckByteV4()
    ensures |LayoutV4| > 8
    ensures Place(LayoutV4)[8] == Field(F("Layout Version", "layout", 1, Binary), LAYOUT_CHECK_BYTE)
  {
    OffsetsV4Are();
    CheckByteField(LayoutV4, OffsetsV4);
  }
}
