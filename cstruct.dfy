/** A fixed-layout binary struct: an ordered list of ctypes fields, encoded
    back to back with no padding ("implicit pack 1").

    A field's value is held as its native bytes, the bytes ctypes keeps for it
    in memory. The host byte order is never fixed here: the endian setting only
    decides whether a non-character field's native bytes are reversed (-1) or
    kept (1) on the way out and on the way in. */
module CStruct {
  import opened Wrappers

  type Byte = bv8

  /** The endian setting; its value is the slice step applied to a field's bytes. */
  datatype Endian = Little | Big {
    function Value(): int
    {
      if Little? then -1 else 1
    }
  }

  /** A field's ctypes type: a `c_char` array, or a fixed-width scalar type
      (an integer or floating-point ctypes type). */
  datatype FieldKind = CharArray(length: nat) | Scalar(width: nat)

  datatype Field = Field(name: string, kind: FieldKind) {
    /** `sizeof(field.type)` */
    function Size(): nat
    {
      match kind
      case CharArray(n) => n
      case Scalar(w) => w
    }
  }

  type Layout = seq<Field>

  /** A struct class: `CStruct` itself, or a dataclass deriving from a struct
      class and declaring further fields. */
  datatype StructClass = CStructBase | Subclass(name: string, base: StructClass, own: Layout)

  /** `dataclasses.fields(cls)`: the inherited fields first, then the class's own. */
  function Fields(c: StructClass): Layout
  {
    match c
    case CStructBase => []
    case Subclass(_, base, own) => Fields(base) + own
  }

  /** `isinstance(x, d)` for an instance `x` of class `c`. */
  predicate IsInstanceOf(c: StructClass, d: StructClass)
  {
    c == d || (c.Subclass? && IsInstanceOf(c.base, d))
  }

  /** An instance: its class and the native bytes of each field, in declaration order. */
  datatype Struct = Struct(cls: StructClass, values: seq<seq<Byte>>)

  /** One value per field, each exactly as wide as its field. */
  predicate Fits(layout: Layout, values: seq<seq<Byte>>)
  {
    |values| == |layout| && forall i :: 0 <= i < |layout| ==> |values[i]| == layout[i].Size()
  }

  predicate Valid(x: Struct)
  {
    Fits(Fields(x.cls), x.values)
  }

  /** The sum of the field sizes. */
  function Size(layout: Layout): nat
  {
    if layout == [] then 0 else layout[0].Size() + Size(layout[1..])
  }

  /** `cls.size()` */
  function ClassSize(c: StructClass): nat
  {
    Size(Fields(c))
  }

  function Reverse<T>(s: seq<T>): (r: seq<T>)
    ensures |r| == |s|
    ensures forall i :: 0 <= i < |s| ==> r[i] == s[|s| - 1 - i]
  {
    if s == [] then [] else Reverse(s[1..]) + [s[0]]
  }

  /** The slice step of a field: character arrays are never reordered. */
  function Order(f: Field, e: Endian): int
  {
    if f.kind.CharArray? then 1 else e.Value()
  }

  /** `block[::order]` for a step of 1 or -1. */
  function Step(block: seq<Byte>, order: int): seq<Byte>
    requires order == 1 || order == -1
  {
    if order == -1 then Reverse(block) else block
  }

  /** The bytes a field contributes to, and is read back from, an encoding. */
  function Oriented(f: Field, block: seq<Byte>, e: Endian): seq<Byte>
  {
    Step(block, Order(f, e))
  }

  /** The encoding: each field's oriented bytes, concatenated in declaration order. */
  function Encode(layout: Layout, values: seq<seq<Byte>>, e: Endian): seq<Byte>
    requires |values| == |layout|
  {
    if layout == [] then []
    else Oriented(layout[0], values[0], e) + Encode(layout[1..], values[1..], e)
  }

  /** Consecutive `sizeof(field)`-byte slices of `data`, each oriented like the encoder does. */
  function DecodeFields(layout: Layout, data: seq<Byte>, e: Endian): (values: seq<seq<Byte>>)
    requires |data| == Size(layout)
    ensures |values| == |layout|
  {
    if layout == [] then []
    else
      var w := layout[0].Size();
      [Oriented(layout[0], data[..w], e)] + DecodeFields(layout[1..], data[w..], e)
  }

  /** The `ValueError` raised by `from_bytes` on input of the wrong length. */
  datatype DecodeError = InvalidSize(actual: nat)

  /** `cls.from_bytes(data, endian)` */
  function Decode(c: StructClass, data: seq<Byte>, e: Endian): (r: Result<Struct, DecodeError>)
  {
    if |data| != ClassSize(c) then Failure(InvalidSize(|data|))
    else Success(Struct(c, DecodeFields(Fields(c), data, e)))
  }

  /** `x.to_bytes(endian)`: appends each field's oriented bytes to a list, then joins it. */
  method ToBytes(x: Struct, e: Endian) returns (out: seq<Byte>)
    requires |x.values| == |Fields(x.cls)|
    ensures out == Encode(Fields(x.cls), x.values, e)
  {
    var layout := Fields(x.cls);
    var blocks: seq<seq<Byte>> := [];
    var i := 0;
    while i < |layout|
      invariant 0 <= i <= |layout|
      invariant Concat(blocks) + Encode(layout[i..], x.values[i..], e) == Encode(layout, x.values, e)
    {
      assert layout[i..][1..] == layout[i + 1..];
      assert x.values[i..][1..] == x.values[i + 1..];
      ConcatSnoc(blocks, Oriented(layout[i], x.values[i], e));
      blocks := blocks + [Oriented(layout[i], x.values[i], e)];
      i := i + 1;
    }
    out := Concat(blocks);
  }

  /** `b''.join(blocks)` */
  function Concat(blocks: seq<seq<Byte>>): seq<Byte>
  {
    if blocks == [] then [] else blocks[0] + Concat(blocks[1..])
  }

  lemma {:induction false} ConcatSnoc(blocks: seq<seq<Byte>>, b: seq<Byte>)
    ensures Concat(blocks + [b]) == Concat(blocks) + b
  {
    if blocks == [] {
      assert blocks + [b] == [b];
      assert [b][1..] == [];
    } else {
      assert (blocks + [b])[1..] == blocks[1..] + [b];
      ConcatSnoc(blocks[1..], b);
    }
  }

  /** `cls.from_bytes(data, endian)`: checks the length, then reads the fields
      one after the other from a stream over `data`. */
  method FromBytes(c: StructClass, data: seq<Byte>, e: Endian) returns (r: Result<Struct, DecodeError>)
    ensures r == Decode(c, data, e)
  {
    if |data| != ClassSize(c) {
      return Failure(InvalidSize(|data|));
    }
    var values := ReadFields(Fields(c), data, e);
    return Success(Struct(c, values));
  }

  /** The reading loop of `from_bytes`: a stream cursor advances by each field's size. */
  method ReadFields(layout: Layout, data: seq<Byte>, e: Endian) returns (values: seq<seq<Byte>>)
    requires |data| == Size(layout)
    ensures values == DecodeFields(layout, data, e)
  {
    values := [];
    var pos: nat := 0;
    var i: nat := 0;
    ReadStart(layout, data, e);
    while i < |layout|
      invariant ReadSoFar(layout, data, e, i, pos, values)
    {
      var field;
      field, pos := ReadNext(layout, data, e, i, pos, values);
      values := values + [field];
      i := i + 1;
    }
    ReadDone(layout, data, e, pos, values);
  }

  /** After reading i fields, the cursor stands at `pos` and the rest of the
      stream decodes to the remaining fields. */
  ghost predicate ReadSoFar(layout: Layout, data: seq<Byte>, e: Endian, i: nat, pos: nat, values: seq<seq<Byte>>)
    requires |data| == Size(layout)
  {
    i <= |layout| && pos <= |data| && Size(layout[i..]) == |data| - pos &&
    values + DecodeFields(layout[i..], data[pos..], e) == DecodeFields(layout, data, e)
  }

  lemma ReadStart(layout: Layout, data: seq<Byte>, e: Endian)
    requires |data| == Size(layout)
    ensures ReadSoFar(layout, data, e, 0, 0, [])
  {
    assert layout[0..] == layout && data[0..] == data;
  }

  /** One iteration: `stream.read(sizeof(field))`, oriented, and the cursor after it. */
  method ReadNext(layout: Layout, data: seq<Byte>, e: Endian, i: nat, pos: nat, ghost values: seq<seq<Byte>>)
      returns (field: seq<Byte>, next: nat)
    requires |data| == Size(layout) && ReadSoFar(layout, data, e, i, pos, values) && i < |layout|
    ensures next == pos + layout[i].Size() <= |data|
    ensures field == Oriented(layout[i], data[pos..next], e)
    ensures ReadSoFar(layout, data, e, i + 1, next, values + [field])
  {
    var w := layout[i].Size();
    SliceFacts(layout, i);
    SliceFacts(data, pos);
    SliceFacts(data[pos..], w);
    SliceFacts2(data, pos, w);
    field := Oriented(layout[i], data[pos..pos + w], e);
    var rest := DecodeFields(layout[i + 1..], data[pos + w..], e);
    assert DecodeFields(layout[i..], data[pos..], e) == [field] + rest;
    AppendAssoc(values, field, rest);
    next := pos + w;
  }

  lemma SliceFacts<T>(s: seq<T>, k: nat)
    requires k <= |s|
    ensures k < |s| ==> s[k..][0] == s[k] && s[k..][1..] == s[k + 1..]
  {
  }

  lemma SliceFacts2<T>(s: seq<T>, k: nat, w: nat)
    requires k + w <= |s|
    ensures s[k..][..w] == s[k..k + w] && s[k..][w..] == s[k + w..]
  {
  }

  lemma AppendAssoc<T>(a: seq<T>, x: T, b: seq<T>)
    ensures (a + [x]) + b == a + ([x] + b)
  {
  }

  lemma ReadDone(layout: Layout, data: seq<Byte>, e: Endian, pos: nat, values: seq<seq<Byte>>)
    requires |data| == Size(layout) && ReadSoFar(layout, data, e, |layout|, pos, values)
    ensures values == DecodeFields(layout, data, e)
  {
    assert layout[|layout|..] == [];
    assert values + [] == values;
  }

  /** `cls.default()`: every field holds its ctypes type's zero-initialised value. */
  function Default(c: StructClass): (x: Struct)
    ensures x.cls == c && Valid(x)
    ensures forall i, k :: 0 <= i < |x.values| && 0 <= k < |x.values[i]| ==> x.values[i][k] == 0
  {
    var layout := Fields(c);
    Struct(c, seq(|layout|, i requires 0 <= i < |layout| => seq(layout[i].Size(), _ => 0 as Byte)))
  }

  /** `iter(x)`: the field values in declaration order. */
  function Iter(x: Struct): seq<seq<Byte>>
  {
    x.values
  }

  /** The `TypeError` raised by the dataclass constructor on the wrong number of positional arguments. */
  datatype ConstructError = ArgumentCount(given: nat, expected: nat)

  /** `cls(*args)` with each argument already a value of its field's ctypes type. */
  function Construct(c: StructClass, args: seq<seq<Byte>>): (r: Result<Struct, ConstructError>)
    requires forall i :: 0 <= i < |args| && i < |Fields(c)| ==> |args[i]| == Fields(c)[i].Size()
    ensures r.Success? <==> |args| == |Fields(c)|
    ensures r.Success? ==> Valid(r.value) && r.value.cls == c && Iter(r.value) == args
  {
    if |args| != |Fields(c)| then Failure(ArgumentCount(|args|, |Fields(c)|))
    else Success(Struct(c, args))
  }

  /** What ctypes `.value` compares: a `c_char` array's bytes up to its first
      NUL; for a scalar field, its native bytes. */
  datatype FieldValue = Text(chars: seq<Byte>) | Native(bytes: seq<Byte>)

  function CString(b: seq<Byte>): seq<Byte>
  {
    if b == [] || b[0] == 0 then [] else [b[0]] + CString(b[1..])
  }

  function ValueOf(f: Field, block: seq<Byte>): FieldValue
  {
    if f.kind.CharArray? then Text(CString(block)) else Native(block)
  }

  datatype Comparison = NotImplemented | Answer(equal: bool)

  /** `all(...)` over `zip(fields(self), fields(other))`: stops at the shorter list. */
  predicate ZipEqual(fs1: Layout, vs1: seq<seq<Byte>>, fs2: Layout, vs2: seq<seq<Byte>>)
    requires |vs1| == |fs1| && |vs2| == |fs2|
  {
    fs1 == [] || fs2 == [] ||
    (ValueOf(fs1[0], vs1[0]) == ValueOf(fs2[0], vs2[0]) && ZipEqual(fs1[1..], vs1[1..], fs2[1..], vs2[1..]))
  }

  /** `x.equals(other)` */
  function Equals(x: Struct, other: Struct): Comparison
    requires Valid(x) && Valid(other)
  {
    if !IsInstanceOf(other.cls, x.cls) then NotImplemented
    else Answer(ZipEqual(Fields(x.cls), x.values, Fields(other.cls), other.values))
  }

  // ---------------------------------------------------------------------
  // Layout and size

  /** Sizes add up over concatenated layouts: no padding is inserted anywhere. */
  lemma {:induction false} SizeAppend(a: Layout, b: Layout)
    ensures Size(a + b) == Size(a) + Size(b)
  {
    if a == [] {
      assert a + b == b;
    } else {
      assert (a + b)[0] == a[0];
      assert (a + b)[1..] == a[1..] + b;
      SizeAppend(a[1..], b);
    }
  }

  /** A subclass's fields begin with all the fields of every class it is an instance of. */
  lemma {:induction false} FieldsPrefix(c: StructClass, d: StructClass)
    requires IsInstanceOf(c, d)
    ensures |Fields(d)| <= |Fields(c)| && Fields(c)[..|Fields(d)|] == Fields(d)
    ensures ClassSize(d) <= ClassSize(c)
  {
    if c != d {
      FieldsPrefix(c.base, d);
      SizeAppend(Fields(c.base), c.own);
      SizeAppend(Fields(d), Fields(c.base)[|Fields(d)|..]);
      assert Fields(c.base) == Fields(d) + Fields(c.base)[|Fields(d)|..];
    }
  }

  // ---------------------------------------------------------------------
  // Encoding

  lemma {:induction false} ReverseReverse<T>(s: seq<T>)
    ensures Reverse(Reverse(s)) == s
  {
    assert forall i :: 0 <= i < |s| ==> Reverse(Reverse(s))[i] == s[i];
  }

  /** Orienting is its own inverse, and keeps the block's length. */
  lemma OrientedInvolution(f: Field, block: seq<Byte>, e: Endian)
    ensures |Oriented(f, block, e)| == |block|
    ensures Oriented(f, Oriented(f, block, e), e) == block
  {
    ReverseReverse(block);
  }

  /** Decoding yields one value per field, each as wide as its field. */
  lemma {:induction false} DecodeFieldsFit(layout: Layout, data: seq<Byte>, e: Endian)
    requires |data| == Size(layout)
    ensures Fits(layout, DecodeFields(layout, data, e))
  {
    if layout != [] {
      var w := layout[0].Size();
      DecodeFieldsFit(layout[1..], data[w..], e);
      OrientedInvolution(layout[0], data[..w], e);
      var values := DecodeFields(layout, data, e);
      forall i | 0 <= i < |layout| ensures |values[i]| == layout[i].Size() {
        if i > 0 {
          assert values[i] == DecodeFields(layout[1..], data[w..], e)[i - 1];
        }
      }
    }
  }

  /** The encoding is exactly `Size` bytes long. */
  lemma {:induction false} EncodeLength(layout: Layout, values: seq<seq<Byte>>, e: Endian)
    requires Fits(layout, values)
    ensures |Encode(layout, values, e)| == Size(layout)
  {
    if layout != [] {
      EncodeLength(layout[1..], values[1..], e);
    }
  }

  /** Encoding a concatenated layout concatenates the encodings. */
  lemma {:induction false} EncodeAppend(a: Layout, va: seq<seq<Byte>>, b: Layout, vb: seq<seq<Byte>>, e: Endian)
    requires |va| == |a| && |vb| == |b|
    ensures Encode(a + b, va + vb, e) == Encode(a, va, e) + Encode(b, vb, e)
  {
    if a == [] {
      assert a + b == b && va + vb == vb;
    } else {
      assert (a + b)[0] == a[0] && (va + vb)[0] == va[0];
      assert (a + b)[1..] == a[1..] + b;
      assert (va + vb)[1..] == va[1..] + vb;
      EncodeAppend(a[1..], va[1..], b, vb, e);
    }
  }

  /** Field i's oriented bytes sit at offset `Size(layout[..i])`, right after
      the fields declared before it. */
  lemma EncodeAt(layout: Layout, values: seq<seq<Byte>>, e: Endian, i: nat)
    requires Fits(layout, values) && i < |layout|
    ensures Size(layout[..i + 1]) == Size(layout[..i]) + layout[i].Size()
    ensures Size(layout[..i + 1]) <= Size(layout) == |Encode(layout, values, e)|
    ensures Encode(layout, values, e)[Size(layout[..i])..Size(layout[..i + 1])] == Oriented(layout[i], values[i], e)
  {
    var head := Encode(layout[..i], values[..i], e);
    var field := Oriented(layout[i], values[i], e);
    var tail := Encode(layout[i + 1..], values[i + 1..], e);
    EncodeSplit(layout, values, e, i);
    SizeSplit(layout, i);
    EncodeLength(layout, values, e);
    EncodeLength(layout[..i], values[..i], e);
    OrientedInvolution(layout[i], values[i], e);
    assert (head + field + tail)[|head|..|head| + |field|] == field;
  }

  /** The encoding is the fields before i, field i, and the fields after it. */
  lemma EncodeSplit(layout: Layout, values: seq<seq<Byte>>, e: Endian, i: nat)
    requires |values| == |layout| && i < |layout|
    ensures Encode(layout, values, e)
         == Encode(layout[..i], values[..i], e) + Oriented(layout[i], values[i], e) + Encode(layout[i + 1..], values[i + 1..], e)
  {
    assert layout == layout[..i] + layout[i..];
    assert values == values[..i] + values[i..];
    assert layout[i..][1..] == layout[i + 1..];
    assert values[i..][1..] == values[i + 1..];
    EncodeAppend(layout[..i], values[..i], layout[i..], values[i..], e);
  }

  /** The sizes of the fields before i, field i, and the fields after it add up. */
  lemma SizeSplit(layout: Layout, i: nat)
    requires i < |layout|
    ensures Size(layout[..i + 1]) == Size(layout[..i]) + layout[i].Size()
    ensures Size(layout) == Size(layout[..i + 1]) + Size(layout[i + 1..])
  {
    assert layout[..i + 1] == layout[..i] + [layout[i]];
    SizeAppend(layout[..i], [layout[i]]);
    assert layout == layout[..i + 1] + layout[i + 1..];
    SizeAppend(layout[..i + 1], layout[i + 1..]);
  }

  /** Decoding an encoding gives back every field's bytes. */
  lemma {:induction false} DecodeEncode(layout: Layout, values: seq<seq<Byte>>, e: Endian)
    requires Fits(layout, values)
    ensures |Encode(layout, values, e)| == Size(layout)
    ensures DecodeFields(layout, Encode(layout, values, e), e) == values
  {
    EncodeLength(layout, values, e);
    if layout != [] {
      var data := Encode(layout, values, e);
      var w := layout[0].Size();
      OrientedInvolution(layout[0], values[0], e);
      assert data[..w] == Oriented(layout[0], values[0], e);
      assert data[w..] == Encode(layout[1..], values[1..], e);
      DecodeEncode(layout[1..], values[1..], e);
    }
  }

  /** Encoding a decoding gives back the input bytes. */
  lemma {:induction false} EncodeDecode(layout: Layout, data: seq<Byte>, e: Endian)
    requires |data| == Size(layout)
    ensures Encode(layout, DecodeFields(layout, data, e), e) == data
  {
    if layout != [] {
      var w := layout[0].Size();
      OrientedInvolution(layout[0], data[..w], e);
      EncodeDecode(layout[1..], data[w..], e);
      assert data == data[..w] + data[w..];
    }
  }

  // ---------------------------------------------------------------------
  // The class-level round trips

  /** `from_bytes` fails exactly on input whose length is not `cls.size()`,
      and then constructs nothing. */
  lemma DecodeRejectsWrongLength(c: StructClass, data: seq<Byte>, e: Endian)
    ensures Decode(c, data, e).Failure? <==> |data| != ClassSize(c)
    ensures Decode(c, data, e).Failure? ==> Decode(c, data, e) == Failure(InvalidSize(|data|))
    ensures Decode(c, data, e).Success? ==> Decode(c, data, e).value.cls == c && Valid(Decode(c, data, e).value)
  {
    if |data| == ClassSize(c) {
      DecodeFieldsFit(Fields(c), data, e);
    }
  }

  /** `from_bytes(x.to_bytes(e), e)` reconstructs x, field by field. */
  lemma RoundTrip(x: Struct, e: Endian)
    requires Valid(x)
    ensures |Encode(Fields(x.cls), x.values, e)| == ClassSize(x.cls)
    ensures Decode(x.cls, Encode(Fields(x.cls), x.values, e), e) == Success(x)
  {
    DecodeEncode(Fields(x.cls), x.values, e);
  }

  /** `to_bytes` of `from_bytes(d, e)` returns d. */
  lemma RoundTripBytes(c: StructClass, data: seq<Byte>, e: Endian)
    requires Decode(c, data, e).Success?
    ensures Encode(Fields(c), Decode(c, data, e).value.values, e) == data
  {
    EncodeDecode(Fields(c), data, e);
  }

  /** The first `ClassSize(d)` bytes of an encoding of a subclass instance decode,
      as class d, to the instance's inherited fields. */
  lemma PrefixDecode(x: Struct, d: StructClass, e: Endian)
    requires Valid(x) && IsInstanceOf(x.cls, d)
    ensures ClassSize(d) <= |Encode(Fields(x.cls), x.values, e)|
    ensures |Fields(d)| <= |x.values|
    ensures Decode(d, Encode(Fields(x.cls), x.values, e)[..ClassSize(d)], e) == Success(Struct(d, x.values[..|Fields(d)|]))
  {
    var all, n := Fields(x.cls), |Fields(d)|;
    FieldsPrefix(x.cls, d);
    assert all == all[..n] + all[n..];
    assert x.values == x.values[..n] + x.values[n..];
    EncodeAppend(all[..n], x.values[..n], all[n..], x.values[n..], e);
    EncodeLength(all, x.values, e);
    DecodeEncode(all[..n], x.values[..n], e);
  }

  /** Each field's native bytes, with every non-character field's bytes reversed. */
  function ScalarsReversed(layout: Layout, values: seq<seq<Byte>>): (r: seq<seq<Byte>>)
    requires |values| == |layout|
    ensures |r| == |layout|
  {
    if layout == [] then []
    else [if layout[0].kind.CharArray? then values[0] else Reverse(values[0])] + ScalarsReversed(layout[1..], values[1..])
  }

  /** With `Big` the encoding is the fields' native bytes in declaration
      order; with `Little` it differs only in that every non-character field's
      bytes are reversed. */
  lemma {:induction false} EndianRule(layout: Layout, values: seq<seq<Byte>>)
    requires |values| == |layout|
    ensures Encode(layout, values, Big) == Concat(values)
    ensures Encode(layout, values, Little) == Concat(ScalarsReversed(layout, values))
  {
    if layout != [] {
      EndianRule(layout[1..], values[1..]);
      assert ScalarsReversed(layout, values)[1..] == ScalarsReversed(layout[1..], values[1..]);
    }
  }

  /** `equals` answers NotImplemented exactly when `other` is not an instance of
      x's class; otherwise it compares the `.value` of each of x's fields with
      the corresponding field of `other`, ignoring any fields `other` adds. */
  lemma EqualsMeaning(x: Struct, other: Struct)
    requires Valid(x) && Valid(other)
    ensures Equals(x, other) == NotImplemented <==> !IsInstanceOf(other.cls, x.cls)
    ensures IsInstanceOf(other.cls, x.cls) ==>
      (|x.values| <= |other.values| &&
       Equals(x, other) == Answer(forall i :: 0 <= i < |x.values| ==>
         ValueOf(Fields(x.cls)[i], x.values[i]) == ValueOf(Fields(x.cls)[i], other.values[i])))
  {
    if IsInstanceOf(other.cls, x.cls) {
      FieldsPrefix(other.cls, x.cls);
      ZipPrefix(Fields(x.cls), x.values, Fields(other.cls), other.values);
    }
  }

  lemma {:induction false} ZipPrefix(fs1: Layout, vs1: seq<seq<Byte>>, fs2: Layout, vs2: seq<seq<Byte>>)
    requires |vs1| == |fs1| && |vs2| == |fs2|
    requires |fs1| <= |fs2| && fs2[..|fs1|] == fs1
    ensures ZipEqual(fs1, vs1, fs2, vs2) <==>
      forall i :: 0 <= i < |fs1| ==> ValueOf(fs1[i], vs1[i]) == ValueOf(fs1[i], vs2[i])
  {
    if fs1 != [] {
      assert fs2[1..][..|fs1| - 1] == fs1[1..];
      ZipPrefix(fs1[1..], vs1[1..], fs2[1..], vs2[1..]);
      assert fs2[0] == fs1[0];
      if ZipEqual(fs1, vs1, fs2, vs2) {
        forall i | 0 <= i < |fs1| ensures ValueOf(fs1[i], vs1[i]) == ValueOf(fs1[i], vs2[i]) {
          if i > 0 {
            assert fs1[1..][i - 1] == fs1[i];
          }
        }
      } else {
        if ValueOf(fs1[0], vs1[0]) == ValueOf(fs2[0], vs2[0]) {
          var j :| 0 <= j < |fs1| - 1 && ValueOf(fs1[1..][j], vs1[1..][j]) != ValueOf(fs1[1..][j], vs2[1..][j]);
          assert ValueOf(fs1[j + 1], vs1[j + 1]) != ValueOf(fs1[j + 1], vs2[j + 1]);
        }
      }
    }
  }
}
