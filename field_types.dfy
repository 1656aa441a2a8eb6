/** The entities of field.h: the closed set of field types, the static
    descriptor of a field in a schema table, and a field bound to a layout,
    which is its descriptor and the offset of its window in the layout's
    buffer. */
module FieldTypes {
  import opened Common

  datatype FieldType = Binary | Reversed | Version | Ascii | Mac | Date | Reserved | Raw

  /** One row of a schema table: display name, short key, size in bytes, type. */
  datatype FieldDescriptor = FieldDescriptor(name: string, shortName: string, size: nat, kind: FieldType)

  /** A field of a layout: the bytes `offset .. offset + desc.size - 1` of
      the layout's buffer. */
  datatype Field = Field(desc: FieldDescriptor, offset: nat)
  {
    function End(): nat { offset + desc.size }
  }

  /** The window sizes a type's update and print need: version and date
      fields are exactly 2 and 4 bytes (field.c:221, 246, 339-346,
      457-460), and a MAC field has at least one byte, since its parse
      writes the last byte after its loop (field.c:111-117). */
  predicate Fits(kind: FieldType, n: nat)
  {
    && (kind == Version ==> n == 2)
    && (kind == Date ==> n == 4)
    && (kind == Mac ==> n >= 1)
  }

  /** The sizes every field of a table has: at least one byte (the print
      loops read the last one), and the sizes `Fits` asks of its type. */
  predicate WellSized(d: FieldDescriptor)
  {
    d.size >= 1 && Fits(d.kind, d.size)
  }

  /** The field's `is_named` operation, which field.c does not show: the key
      is the field's short name or its display name. */
  predicate IsNamed(d: FieldDescriptor, key: string)
  {
    key == d.shortName || key == d.name
  }

  /** Whether the ops table gives the type `update` and `clear` operations
      (OPS_UPDATABLE) rather than NULL ones (OPS_PRINTABLE). */
  predicate Updatable(kind: FieldType)
  {
    kind != Reserved && kind != Raw
  }
}
