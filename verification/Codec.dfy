/** Row encoding: fields back to back, each padded to its alignment, integers as four little-endian
    bytes, strings as a four-byte length and their bytes. */
module Codec {
  import opened Bytes

  type u32 = n: nat | n < U32_LIMIT
  type u16 = n: nat | n < U16_LIMIT
  type i32 = v: int | -I32_LIMIT <= v < I32_LIMIT
  type Uuid = b: Data | |b| == 16 witness seq(16, i => 0)

  datatype Value = U32(n: u32) | Text(s: Data) | Id(id: Uuid) | I32(v: i32)

  const INT_TYPE: u32 := 1
  const TEXT_TYPE: u32 := 2

  datatype Column = Column(tableId: Uuid, name: Data, typeId: u32, ordinal: u16)

  type Schema = seq<Column>

  /** The types the codec has an alignment for. */
  predicate Known(schema: Schema) {
    forall i :: 0 <= i < |schema| ==> schema[i].typeId == INT_TYPE || schema[i].typeId == TEXT_TYPE
  }

  function Alignment(typeId: u32): (a: nat)
    ensures typeId == INT_TYPE || typeId == TEXT_TYPE ==> a == 4
  {
    if typeId == INT_TYPE then 4 else if typeId == TEXT_TYPE then 4 else 0
  }

  // ----- what the buffers hold -----

  function AlignUp(n: nat): (m: nat)
    ensures m % 4 == 0 && n <= m < n + 4
  {
    (n + 3) / 4 * 4
  }

  function Padded(buf: Data): (r: Data)
    ensures |r| == AlignUp(|buf|) && buf <= r && forall k :: |buf| <= k < |r| ==> r[k] == 0
  {
    buf + seq(AlignUp(|buf|) - |buf|, i => 0)
  }

  /** The length prefix is a 32-bit cast of the length. */
  function FieldBytes(v: Value): Data {
    match v
    case U32(n) => U32Bytes(n)
    case I32(i) => U32Bytes(Bits32(i))
    case Text(s) => U32Bytes(|s| % U32_LIMIT) + s
    case Id(id) => id
  }

  function Encoded(values: seq<Value>): Data {
    if values == [] then []
    else Padded(Encoded(values[..|values| - 1])) + FieldBytes(values[|values| - 1])
  }

  /** A field read and the offset behind it; None where the code would read past the bytes. */
  function ReadField(bytes: Data, at: nat, typeId: u32): Option<(Value, nat)> {
    if at + 4 > |bytes| then None
    else if typeId == INT_TYPE then Some((U32(U32At(bytes, at)), at + 4))
    else
      var len := U32At(bytes, at);
      if at + 4 + len > |bytes| then None
      else Some((Text(bytes[at + 4..at + 4 + len]), at + 4 + len))
  }

  datatype Cursor = Cursor(values: seq<Value>, at: nat)

  function Decoded(bytes: Data, schema: Schema): Option<Cursor>
    requires Known(schema)
  {
    if schema == [] then Some(Cursor([], 0))
    else
      match Decoded(bytes, schema[..|schema| - 1])
      case None => None
      case Some(c) =>
        match ReadField(bytes, AlignUp(c.at), schema[|schema| - 1].typeId)
        case None => None
        case Some(field) => Some(Cursor(c.values + [field.0], field.1))
  }

  // ----- the code -----

  method ApplyPadding(buffer: Data, typeId: u32) returns (r: Data)
    requires typeId == INT_TYPE || typeId == TEXT_TYPE
    ensures r == Padded(buffer)
    ensures buffer <= r && |r| % 4 == 0 && |r| < |buffer| + 4 && forall k :: |buffer| <= k < |r| ==> r[k] == 0
  {
    var alignment := Alignment(typeId);
    var remainder := |buffer| % alignment;
    var needed := if remainder == 0 then 0 else alignment - remainder;
    r := buffer + seq(needed, i => 0);
  }

  method SkipPadding(offset: nat, typeId: u32) returns (r: nat)
    requires typeId == INT_TYPE || typeId == TEXT_TYPE
    ensures r == AlignUp(offset)
  {
    var alignment := Alignment(typeId);
    var remainder := offset % alignment;
    r := if remainder != 0 then offset + (alignment - remainder) else offset;
  }

  method Encode(values: seq<Value>, schema: Schema) returns (buffer: Data)
    requires |values| == |schema| && Known(schema)
    ensures buffer == Encoded(values)
  {
    buffer := [];
    for i := 0 to |values|
      invariant buffer == Encoded(values[..i])
    {
      buffer := ApplyPadding(buffer, schema[i].typeId);
      buffer := buffer + FieldBytes(values[i]);
      assert values[..i + 1][..i] == values[..i];
    }
    assert values[..|values|] == values;
  }

  method Decode(bytes: Data, schema: Schema) returns (r: Option<seq<Value>>)
    requires Known(schema)
    ensures r == match Decoded(bytes, schema) case None => None case Some(c) => Some(c.values)
  {
    var result, offset := [], 0;
    for i := 0 to |schema|
      invariant Decoded(bytes, schema[..i]) == Some(Cursor(result, offset))
    {
      assert schema[..i + 1][..i] == schema[..i];
      offset := SkipPadding(offset, schema[i].typeId);
      var field := ReadField(bytes, offset, schema[i].typeId);
      if field.None? {
        StopsEarly(bytes, schema, i + 1);
        return None;
      }
      result, offset := result + [field.value.0], field.value.1;
    }
    assert schema[..|schema|] == schema;
    return Some(result);
  }

  lemma {:induction false} StopsEarly(bytes: Data, schema: Schema, k: nat)
    requires Known(schema) && k <= |schema| && Decoded(bytes, schema[..k]) == None
    ensures Decoded(bytes, schema) == None
    decreases |schema| - k
  {
    if k < |schema| {
      assert schema[..k + 1][..k] == schema[..k];
      StopsEarly(bytes, schema, k + 1);
    } else {
      assert schema[..k] == schema;
    }
  }

  // ----- the bytes of a row -----

  /** A field byte by byte: integers in four bytes, the least significant first, and negative ones in
      two's complement; strings behind their length; ids as they are. */
  lemma FieldLayout(v: Value)
    ensures match v
            case U32(n) => |FieldBytes(v)| == 4 && IsLittleEndian(FieldBytes(v), n)
            case I32(i) => |FieldBytes(v)| == 4 && IsLittleEndian(FieldBytes(v), if i < 0 then i + 4294967296 else i)
            case Text(s) =>
              && |FieldBytes(v)| == 4 + |s| && IsLittleEndian(FieldBytes(v)[..4], |s| % 4294967296)
              && FieldBytes(v)[4..] == s
            case Id(id) => FieldBytes(v) == id
  {
    match v
    case U32(n) => LittleEndian(n);
    case I32(i) => LittleEndian(Bits32(i));
    case Text(s) => LittleEndian(|s| % U32_LIMIT);
    case Id(_) =>
  }

  predicate IsLittleEndian(s: Data, v: nat) {
    && |s| == 4 && s[0] as nat == v % 256 && s[1] as nat == v / 256 % 256
    && s[2] as nat == v / 65536 % 256 && s[3] as nat == v / 16777216
  }

  /** A row is its fields, each behind zero bytes up to the next multiple of four, and nothing else. */
  lemma {:induction false} RowLayout(values: seq<Value>, i: nat)
    requires i < |values|
    ensures var at, start := |Encoded(values[..i])|, AlignUp(|Encoded(values[..i])|);
            && at <= start < at + 4 && start % 4 == 0 && start + |FieldBytes(values[i])| <= |Encoded(values)|
            && (forall k :: at <= k < start ==> Encoded(values)[k] == 0)
            && Encoded(values)[start..start + |FieldBytes(values[i])|] == FieldBytes(values[i])
            && (i == |values| - 1 ==> start + |FieldBytes(values[i])| == |Encoded(values)|)
    decreases |values|
  {
    hide FieldBytes, AlignUp;
    var n := |values| - 1;
    var front := values[..n];
    if i < n {
      RowLayout(front, i);
      assert front[..i] == values[..i];
      assert Encoded(values)[..|Encoded(front)|] == Encoded(front);
      assert forall k :: 0 <= k < |Encoded(front)| ==> Encoded(values)[k] == Encoded(front)[k];
    }
  }

  lemma EmptyRow()
    ensures Encoded([]) == []
  {
  }

  // ----- which bytes are a row -----

  /** The bytes from `at` to `end` are the value as a field of that type. */
  predicate ReadsAs(bytes: Data, at: nat, v: Value, typeId: u32, end: nat) {
    && at + 4 <= end <= |bytes|
    && if typeId == INT_TYPE then v.U32? && end == at + 4 && IsLittleEndian(bytes[at..at + 4], v.n)
       else v.Text? && v.s == bytes[at + 4..end] && IsLittleEndian(bytes[at..at + 4], |v.s|)
  }

  /** The values are fields one behind the other, each from the next multiple of four on; `ends` are the
      offsets in front of each and behind the last. */
  predicate Parses(bytes: Data, values: seq<Value>, schema: Schema, ends: seq<nat>) {
    && |values| == |schema| && |ends| == |schema| + 1 && ends[0] == 0
    && forall i :: 0 <= i < |schema| ==>
         ReadsAs(bytes, (ends[i] + 3) / 4 * 4, values[i], schema[i].typeId, ends[i + 1])
  }

  lemma NumberAt(bytes: Data, at: nat, n: nat)
    requires at + 4 <= |bytes|
    ensures U32At(bytes, at) == n <==> IsLittleEndian(bytes[at..at + 4], n)
  {
    var s := bytes[at..at + 4];
    assert s[0] == bytes[at] && s[1] == bytes[at + 1] && s[2] == bytes[at + 2] && s[3] == bytes[at + 3];
    ReadLittleEndian(bytes, at);
    DigitsOf(s[0] as nat, s[1] as nat, s[2] as nat, s[3] as nat, n);
  }

  lemma ReadFieldExactly(bytes: Data, at: nat, v: Value, typeId: u32, end: nat)
    ensures ReadField(bytes, at, typeId) == Some((v, end)) <==> ReadsAs(bytes, at, v, typeId, end)
  {
    hide U32At, IsLittleEndian;
    if at + 4 <= |bytes| {
      NumberAt(bytes, at, U32At(bytes, at));
      match v
      case U32(n) => NumberAt(bytes, at, n);
      case Text(s) => NumberAt(bytes, at, |s|);
      case _ =>
    }
  }

  /** Decoding succeeds on these bytes and no others, with these values. */
  lemma {:induction false} DecodeSound(bytes: Data, schema: Schema) returns (ends: seq<nat>)
    requires Known(schema) && Decoded(bytes, schema).Some?
    ensures Parses(bytes, Decoded(bytes, schema).value.values, schema, ends)
    ensures ends[|schema|] == Decoded(bytes, schema).value.at
  {
    hide ReadField, ReadsAs;
    if schema == [] {
      ends := [0];
    } else {
      var front, last := schema[..|schema| - 1], schema[|schema| - 1];
      ends := DecodeSound(bytes, front);
      var c, r := Decoded(bytes, front).value, Decoded(bytes, schema).value;
      ReadFieldExactly(bytes, AlignUp(c.at), r.values[|front|], last.typeId, r.at);
      ends := ends + [r.at];
    }
  }

  lemma {:induction false} DecodeComplete(bytes: Data, values: seq<Value>, schema: Schema, ends: seq<nat>)
    requires Known(schema) && Parses(bytes, values, schema, ends)
    ensures Decoded(bytes, schema) == Some(Cursor(values, ends[|schema|]))
  {
    hide ReadField, ReadsAs;
    if schema != [] {
      var n := |schema| - 1;
      DecodeComplete(bytes, values[..n], schema[..n], ends[..n + 1]);
      ReadFieldExactly(bytes, AlignUp(ends[n]), values[n], schema[n].typeId, ends[n + 1]);
      assert values == values[..n] + [values[n]];
    }
  }

  // ----- the round trip -----

  /** A value the column can carry: the stored bits are read back in the column's type. */
  predicate Carried(v: Value, typeId: u32) {
    if typeId == INT_TYPE then v.U32? || v.I32? else v.Text? && |v.s| < U32_LIMIT
  }

  predicate AllCarried(values: seq<Value>, schema: Schema) {
    |values| == |schema| && forall i :: 0 <= i < |values| ==> Carried(values[i], schema[i].typeId)
  }

  /** What comes back: a signed integer returns as the same 32 bits unsigned. */
  function Canonical(v: Value): Value {
    match v
    case I32(i) => U32(Bits32(i))
    case _ => v
  }

  function AllCanonical(values: seq<Value>): (r: seq<Value>)
    ensures |r| == |values|
  {
    seq(|values|, i requires 0 <= i < |values| => Canonical(values[i]))
  }

  /** Only a negative integer comes back as another value: itself plus 2 to the 32. */
  lemma CanonicalMeans(values: seq<Value>, i: nat)
    requires i < |values|
    ensures match values[i]
            case I32(v) => AllCanonical(values)[i] == U32(if v < 0 then v + 4294967296 else v)
            case _ => AllCanonical(values)[i] == values[i]
  {
  }

  predicate WellTyped(values: seq<Value>, schema: Schema) {
    AllCarried(values, schema) && AllCanonical(values) == values
  }

  lemma ReadsBack(bytes: Data, at: nat, v: Value, typeId: u32)
    requires typeId == INT_TYPE || typeId == TEXT_TYPE
    requires Carried(v, typeId)
    requires at + |FieldBytes(v)| <= |bytes| && bytes[at..at + |FieldBytes(v)|] == FieldBytes(v)
    ensures ReadField(bytes, at, typeId) == Some((Canonical(v), at + |FieldBytes(v)|))
  {
    hide U32At, U32Bytes;
    var f := FieldBytes(v);
    FieldReads(bytes, at, f);
    if v.Text? {
      assert f[..4] == U32Bytes(|v.s|);
      FieldReads(f, 0, U32Bytes(|v.s|));
      assert bytes[at + 4..at + 4 + |v.s|] == v.s;
    }
  }

  lemma Regroup(a: Data, p: Data, b: Data, c: Data)
    requires a <= p
    ensures a + (p[|a|..] + b + c) == p + b + c
  {
  }

  lemma Middle(a: Data, b: Data, c: Data)
    ensures (a + b + c)[|a|..|a| + |b|] == b
  {
  }

  lemma DecodedStep(bytes: Data, schema: Schema, c: Cursor, v: Value, at: nat)
    requires Known(schema) && schema != []
    requires Decoded(bytes, schema[..|schema| - 1]) == Some(c)
    requires ReadField(bytes, AlignUp(c.at), schema[|schema| - 1].typeId) == Some((v, at))
    ensures Decoded(bytes, schema) == Some(Cursor(c.values + [v], at))
  {
  }

  lemma CanonicalStep(values: seq<Value>)
    requires values != []
    ensures AllCanonical(values[..|values| - 1]) + [Canonical(values[|values| - 1])] == AllCanonical(values)
  {
  }

  /** The buffer before its last field, the padding, the field and what follows. */
  lemma LastField(values: seq<Value>, suffix: Data) returns (done: Data, at: nat, rest: Data)
    requires values != []
    ensures done == Encoded(values[..|values| - 1]) && at == AlignUp(|done|)
    ensures Encoded(values) + suffix == done + rest
    ensures var f := FieldBytes(values[|values| - 1]);
            && |Encoded(values)| == at + |f|
            && (Encoded(values) + suffix)[at..at + |f|] == f
  {
    hide FieldBytes, AlignUp;
    var f := FieldBytes(values[|values| - 1]);
    done := Encoded(values[..|values| - 1]);
    at := AlignUp(|done|);
    rest := Padded(done)[|done|..] + f + suffix;
    Regroup(done, Padded(done), f, suffix);
    Middle(Padded(done), f, suffix);
  }

  /** Decoding what was encoded, whatever follows it, gives the values back and stops where the
      encoding ends: the reader's skipping stays in step with the writer's padding. */
  lemma {:induction false} RoundTrip(values: seq<Value>, schema: Schema, suffix: Data)
    requires Known(schema) && AllCarried(values, schema)
    ensures Decoded(Encoded(values) + suffix, schema) == Some(Cursor(AllCanonical(values), |Encoded(values)|))
  {
    hide FieldBytes, AlignUp, ReadField, Decoded, AllCanonical, Canonical, Carried, Encoded;
    if values == [] {
      NothingCoded(suffix);
      assert [] + suffix == suffix;
    } else {
      var n := |values| - 1;
      var front, v := values[..n], values[n];
      var done, at, rest := LastField(values, suffix);
      RoundTrip(front, schema[..n], rest);
      ReadsBack(Encoded(values) + suffix, at, v, schema[n].typeId);
      DecodedStep(Encoded(values) + suffix, schema, Cursor(AllCanonical(front), |done|), Canonical(v),
                  |Encoded(values)|);
      CanonicalStep(values);
    }
  }

  lemma NothingCoded(bytes: Data)
    ensures Encoded([]) == [] && AllCanonical([]) == [] && Decoded(bytes, []) == Some(Cursor([], 0))
  {
  }

  /** Whatever is decoded fits the schema. */
  lemma {:induction false} DecodedIsTyped(bytes: Data, schema: Schema)
    requires Known(schema) && Decoded(bytes, schema).Some?
    ensures WellTyped(Decoded(bytes, schema).value.values, schema)
  {
    if schema != [] {
      DecodedIsTyped(bytes, schema[..|schema| - 1]);
    }
  }

  /** A row comes back unchanged exactly when every value has its column's type and no string is
      4 GiB or longer. */
  lemma RoundTripExactly(values: seq<Value>, schema: Schema)
    requires Known(schema) && |values| == |schema|
    ensures Decoded(Encoded(values), schema).Some? && Decoded(Encoded(values), schema).value.values == values
       <==> WellTyped(values, schema)
  {
    if WellTyped(values, schema) {
      RoundTrip(values, schema, []);
      assert Encoded(values) + [] == Encoded(values);
    } else if Decoded(Encoded(values), schema).Some? {
      DecodedIsTyped(Encoded(values), schema);
    }
  }

  lemma EncodedInjective(v: seq<Value>, w: seq<Value>, schema: Schema)
    requires Known(schema) && AllCarried(v, schema) && AllCarried(w, schema) && Encoded(v) == Encoded(w)
    ensures AllCanonical(v) == AllCanonical(w)
  {
    RoundTrip(v, schema, []);
    RoundTrip(w, schema, []);
  }

  /** Every field starts at a multiple of four and is found there whole. */
  lemma {:induction false} FieldsAligned(values: seq<Value>, i: nat)
    requires i < |values|
    ensures var start := AlignUp(|Encoded(values[..i])|);
            && start % 4 == 0
            && start + |FieldBytes(values[i])| <= |Encoded(values)|
            && Encoded(values)[start..start + |FieldBytes(values[i])|] == FieldBytes(values[i])
    decreases |values|
  {
    hide FieldBytes, Padded, AlignUp;
    var n := |values| - 1;
    var front := values[..n];
    if i < n {
      FieldsAligned(front, i);
      assert front[..i] == values[..i];
      assert Encoded(values)[..|Encoded(front)|] == Encoded(front);
    }
  }

  /** A row with at least one column never encodes to nothing. */
  lemma NotEmpty(values: seq<Value>)
    requires values != []
    ensures |Encoded(values)| >= 4
  {
    match values[|values| - 1]
    case U32(_) =>
    case I32(_) =>
    case Text(_) =>
    case Id(_) =>
  }
}
