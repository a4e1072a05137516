/**
 * The part of Python's `struct` module the decoder relies on: formats made
 * of `Ns` (an N-byte string field) and `Nx` (N pad bytes). Both have size
 * and alignment one, so the native default adds no padding between them.
 */
module StructLayout {
  import opened Wrappers
  import opened Utf8

  datatype Item = Bytes(width: nat) | Pad(width: nat)

  /** A format, item by item, as `struct` reads it left to right. */
  datatype Layout = End | Then(item: Item, rest: Layout)

  /** `struct.calcsize`. */
  function CalcSize(layout: Layout): nat
  {
    match layout
    case End => 0
    case Then(item, rest) => item.width + CalcSize(rest)
  }

  /** The widths of the fields a layout yields, in order. */
  function FieldWidths(layout: Layout): seq<nat>
  {
    match layout
    case End => []
    case Then(item, rest) => (if item.Bytes? then [item.width] else []) + FieldWidths(rest)
  }

  /** The fields of `b`, read from `offset` on, where exactly the layout's bytes remain. */
  function UnpackFrom(layout: Layout, b: seq<byte>, offset: nat): (fields: seq<seq<byte>>)
    requires offset + CalcSize(layout) == |b|
  {
    match layout
    case End => []
    case Then(item, rest) =>
      (if item.Bytes? then [b[offset..offset + item.width]] else []) + UnpackFrom(rest, b, offset + item.width)
  }

  lemma {:induction false} UnpackFromWidths(layout: Layout, b: seq<byte>, offset: nat)
    requires offset + CalcSize(layout) == |b|
    ensures |UnpackFrom(layout, b, offset)| == |FieldWidths(layout)|
    ensures forall k :: 0 <= k < |FieldWidths(layout)| ==> |UnpackFrom(layout, b, offset)[k]| == FieldWidths(layout)[k]
  {
    match layout
    case End =>
    case Then(item, rest) =>
      UnpackFromWidths(rest, b, offset + item.width);
  }

  /** `struct.error`: the buffer does not have the layout's size. */
  datatype StructError = SizeMismatch(expected: nat, actual: nat)

  /** `struct.unpack(fmt, b)`. */
  function Unpack(layout: Layout, b: seq<byte>): (r: Result<seq<seq<byte>>, StructError>)
    ensures r.Ok? <==> |b| == CalcSize(layout)
    ensures r.Ok? ==> |r.value| == |FieldWidths(layout)|
    ensures r.Ok? ==> forall k :: 0 <= k < |r.value| ==> |r.value[k]| == FieldWidths(layout)[k]
  {
    if |b| == CalcSize(layout) then UnpackFromWidths(layout, b, 0); Ok(UnpackFrom(layout, b, 0))
    else Err(SizeMismatch(CalcSize(layout), |b|))
  }

  function Nuls(n: nat): (r: seq<byte>)
    ensures |r| == n
  {
    seq(n, _ => 0)
  }

  /** An `Ns` value as `struct.pack` writes it: cut to N bytes or filled with NULs. */
  function Fit(field: seq<byte>, w: nat): (r: seq<byte>)
    ensures |r| == w
    ensures |field| == w ==> r == field
  {
    if |field| >= w then field[..w] else field + Nuls(w - |field|)
  }

  /** `struct.pack(fmt, *fields)`; pad bytes are written as NUL. */
  function Pack(layout: Layout, fields: seq<seq<byte>>): (b: seq<byte>)
    requires |fields| == |FieldWidths(layout)|
    ensures |b| == CalcSize(layout)
  {
    match layout
    case End => []
    case Then(item, rest) =>
      if item.Bytes? then Fit(fields[0], item.width) + Pack(rest, fields[1..])
      else Nuls(item.width) + Pack(rest, fields)
  }

  lemma {:induction false} UnpackFromPack(layout: Layout, fields: seq<seq<byte>>, prefix: seq<byte>)
    requires |fields| == |FieldWidths(layout)|
    requires forall k :: 0 <= k < |fields| ==> |fields[k]| == FieldWidths(layout)[k]
    ensures UnpackFrom(layout, prefix + Pack(layout, fields), |prefix|) == fields
  {
    match layout
    case End =>
    case Then(item, rest) =>
      var w := item.width;
      var b := prefix + Pack(layout, fields);
      if item.Bytes? {
        assert FieldWidths(layout) == [w] + FieldWidths(rest);
        assert |fields[0]| == w;
        assert b == (prefix + fields[0]) + Pack(rest, fields[1..]);
        forall k | 0 <= k < |fields[1..]|
          ensures |fields[1..][k]| == FieldWidths(rest)[k]
        {
          assert FieldWidths(layout)[k + 1] == FieldWidths(rest)[k];
        }
        UnpackFromPack(rest, fields[1..], prefix + fields[0]);
        assert b[|prefix|..|prefix| + w] == fields[0];
        assert [fields[0]] + fields[1..] == fields;
      } else {
        assert b == (prefix + Nuls(w)) + Pack(rest, fields);
        UnpackFromPack(rest, fields, prefix + Nuls(w));
      }
  }

  /** Unpacking what `pack` wrote gives back fields of the right widths. */
  lemma PackUnpackRoundTrip(layout: Layout, fields: seq<seq<byte>>)
    requires |fields| == |FieldWidths(layout)|
    requires forall k :: 0 <= k < |fields| ==> |fields[k]| == FieldWidths(layout)[k]
    ensures Unpack(layout, Pack(layout, fields)) == Ok(fields)
  {
    UnpackFromPack(layout, fields, []);
    assert [] + Pack(layout, fields) == Pack(layout, fields);
  }

  /** `'5s 1x 2s 1x 1s 1s 10x 7s 1x 3s 1x 5s 21x'`, the 260SB status line. */
  const ResponseLayout: Layout :=
    Then(Bytes(5), Then(Pad(1), Then(Bytes(2), Then(Pad(1), Then(Bytes(1), Then(Bytes(1), Then(Pad(10),
    Then(Bytes(7), Then(Pad(1), Then(Bytes(3), Then(Pad(1), Then(Bytes(5), Then(Pad(21), End)))))))))))))

  /** The status line is 59 bytes. */
  lemma ResponseSize()
    ensures CalcSize(ResponseLayout) == 59
  {
  }

  /** The status line yields seven fields, of these widths. */
  lemma ResponseFieldWidths()
    ensures FieldWidths(ResponseLayout) == [5, 2, 1, 1, 7, 3, 5]
  {
  }

  /** `7s 1x 3s 1x 5s 21x`, the last part of the status line. */
  const ResponseTail: Layout :=
    Then(Bytes(7), Then(Pad(1), Then(Bytes(3), Then(Pad(1), Then(Bytes(5), Then(Pad(21), End))))))

  lemma ResponseTailFields(b: seq<byte>)
    requires |b| == 59
    ensures CalcSize(ResponseTail) == 38
    ensures UnpackFrom(ResponseTail, b, 21) == [b[21..28], b[29..32], b[33..38]]
  {
    var L13 := End;
    var L12 := Then(Pad(21), L13);
    assert UnpackFrom(L12, b, 38) == [];
    var L11 := Then(Bytes(5), L12);
    assert UnpackFrom(L11, b, 33) == [b[33..38]];
    var L10 := Then(Pad(1), L11);
    assert UnpackFrom(L10, b, 32) == [b[33..38]];
    var L9 := Then(Bytes(3), L10);
    assert UnpackFrom(L9, b, 29) == [b[29..32], b[33..38]];
    var L8 := Then(Pad(1), L9);
    assert UnpackFrom(L8, b, 28) == [b[29..32], b[33..38]];
    var L7 := Then(Bytes(7), L8);
    assert UnpackFrom(L7, b, 21) == [b[21..28], b[29..32], b[33..38]];
    assert L7 == ResponseTail;
  }

  /** `1s 1s 10x` followed by the last part. */
  const ResponseMiddle: Layout := Then(Bytes(1), Then(Bytes(1), Then(Pad(10), ResponseTail)))

  lemma ResponseMiddleFields(b: seq<byte>)
    requires |b| == 59
    ensures CalcSize(ResponseMiddle) == 50
    ensures UnpackFrom(ResponseMiddle, b, 9) == [b[9..10], b[10..11], b[21..28], b[29..32], b[33..38]]
  {
    ResponseTailFields(b);
    var L7 := ResponseTail;
    var L6 := Then(Pad(10), L7);
    assert UnpackFrom(L6, b, 11) == [b[21..28], b[29..32], b[33..38]];
    var L5 := Then(Bytes(1), L6);
    assert UnpackFrom(L5, b, 10) == [b[10..11], b[21..28], b[29..32], b[33..38]];
    var L4 := Then(Bytes(1), L5);
    assert UnpackFrom(L4, b, 9) == [b[9..10], b[10..11], b[21..28], b[29..32], b[33..38]];
    assert L4 == ResponseMiddle;
  }

  /** The seven fields sit at fixed offsets of a 59-byte line. */
  lemma ResponseFields(b: seq<byte>)
    requires |b| == 59
    ensures Unpack(ResponseLayout, b)
      == Ok([b[0..5], b[6..8], b[9..10], b[10..11], b[21..28], b[29..32], b[33..38]])
  {
    ResponseSize();
    ResponseMiddleFields(b);
    var L4 := ResponseMiddle;
    var L3 := Then(Pad(1), L4);
    assert UnpackFrom(L3, b, 8) == [b[9..10], b[10..11], b[21..28], b[29..32], b[33..38]];
    var L2 := Then(Bytes(2), L3);
    assert UnpackFrom(L2, b, 6) == [b[6..8], b[9..10], b[10..11], b[21..28], b[29..32], b[33..38]];
    var L1 := Then(Pad(1), L2);
    assert UnpackFrom(L1, b, 5) == [b[6..8], b[9..10], b[10..11], b[21..28], b[29..32], b[33..38]];
    var L0 := Then(Bytes(5), L1);
    assert UnpackFrom(L0, b, 0) == [b[0..5], b[6..8], b[9..10], b[10..11], b[21..28], b[29..32], b[33..38]];
    assert L0 == ResponseLayout;
  }
}
