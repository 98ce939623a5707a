/** Rows, schemas, and the byte strings that rows are stored as. */
module Records {
  import opened Storage
  import opened BigEndian
  import Utf8

  datatype ColumnType = IntType | TextType

  datatype Column = Column(name: string, columnType: ColumnType)

  type Schema = seq<Column>

  datatype Value = IntValue(n: int) | TextValue(text: string)

  type Row = seq<Value>

  datatype RecordError = WrongCount | WrongType | IntTooWide | TextTooLong | ShortRecord | BadText | TrailingBytes

  datatype Result<+T> = Ok(value: T) | Err(error: RecordError)

  const INT_SIZE := 8
  const TEXT_LENGTH_SIZE := 4

  predicate HasType(v: Value, t: ColumnType) {
    match t
    case IntType => v.IntValue?
    case TextType => v.TextValue?
  }

  /** `row` has one value of the right type for each column. */
  predicate RowMatches(schema: Schema, row: Row) {
    |row| == |schema| && forall i :: 0 <= i < |schema| ==> HasType(row[i], schema[i].columnType)
  }

  /** The value fits the width its column is stored in. */
  predicate Storable(v: Value) {
    match v
    case IntValue(n) => Int64(n)
    case TextValue(text) => |Utf8.Encode(text)| < 0x1_0000_0000
  }

  predicate RowStorable(row: Row) {
    forall i :: 0 <= i < |row| ==> Storable(row[i])
  }

  function ValueBytes(v: Value): seq<byte>
    requires Storable(v)
  {
    match v
    case IntValue(n) => PackInt(n)
    case TextValue(text) => var bs := Utf8.Encode(text); Pack(|bs|, TEXT_LENGTH_SIZE) + bs
  }

  /** The bytes of a row: those of its values, one after the other. */
  function RowBytes(row: Row): seq<byte>
    requires RowStorable(row)
  {
    if row == [] then [] else ValueBytes(row[0]) + RowBytes(row[1..])
  }

  // ---------- The layout of a row ----------

  /** The bytes from `o` to `end` are those of `v`: an integer as eight bytes in two's complement, a text as the number of
      its UTF-8 bytes in four bytes, followed by these; the most significant byte comes first. */
  ghost predicate ValueAt(v: Value, bs: seq<byte>, o: nat, end: nat) {
    && o <= end <= |bs|
    && match v
       case IntValue(n) =>
         var u := if n < 0 then n + 0x1_0000_0000_0000_0000 else n;
         end == o + 8 && bs[o..end] ==
           [u / 0x100_0000_0000_0000 % 0x100, u / 0x1_0000_0000_0000 % 0x100, u / 0x100_0000_0000 % 0x100,
            u / 0x1_0000_0000 % 0x100, u / 0x100_0000 % 0x100, u / 0x1_0000 % 0x100, u / 0x100 % 0x100, u % 0x100]
       case TextValue(text) =>
         var n := |Utf8.Encode(text)|;
         && end == o + 4 + n && bs[o..o + 4] == [n / 0x100_0000 % 0x100, n / 0x1_0000 % 0x100, n / 0x100 % 0x100, n % 0x100]
         && bs[o + 4..end] == Utf8.Encode(text)
  }

  /** `at` are the offsets of the values in the bytes of a row, and its end. */
  ghost predicate Offsets(row: Row, bs: seq<byte>, at: seq<nat>) {
    && |at| == |row| + 1 && at[0] == 0 && at[|row|] == |bs|
    && forall j :: 0 <= j < |row| ==> ValueAt(row[j], bs, at[j], at[j + 1])
  }

  lemma ValueBytesAt(v: Value, a: seq<byte>, b: seq<byte>)
    requires Storable(v)
    ensures ValueAt(v, a + ValueBytes(v) + b, |a|, |a + ValueBytes(v)|)
  {
    var bs, o := a + ValueBytes(v) + b, |a|;
    Between(a, ValueBytes(v), b);
    match v
    case IntValue(n) =>
      PackIntIs(n);
    case TextValue(text) =>
      var utf := Utf8.Encode(text);
      PackIs(|utf|);
      TwoParts(bs, o, Pack(|utf|, 4), utf);
  }

  lemma Between(a: seq<byte>, m: seq<byte>, b: seq<byte>)
    ensures (a + m + b)[|a|..|a + m|] == m
  {
  }

  /** Where value `j` lies in the bytes of its row. */
  lemma {:induction false} RowBytesAround(row: Row, j: nat)
    requires RowStorable(row) && j < |row|
    ensures RowBytes(row) == RowBytes(row[..j]) + ValueBytes(row[j]) + RowBytes(row[j + 1..])
    ensures RowBytes(row[..j + 1]) == RowBytes(row[..j]) + ValueBytes(row[j])
    decreases |row|
  {
    hide ValueBytes, Storable;
    if j == 0 {
      assert row[..0] == [] && row[..1][0] == row[0] && row[..1][1..] == [];
      assert [] + ValueBytes(row[0]) == ValueBytes(row[0]) && ValueBytes(row[0]) + [] == ValueBytes(row[0]);
    } else {
      RowBytesAround(row[1..], j - 1);
      assert row[1..][..j - 1] == row[..j][1..] && row[1..][..j] == row[..j + 1][1..] && row[1..][j..] == row[j + 1..];
    }
  }

  /** The bytes of a row are those of its values, in column order and without gaps. */
  lemma RowLaidOut(row: Row) returns (at: seq<nat>)
    requires RowStorable(row)
    ensures Offsets(row, RowBytes(row), at)
  {
    hide ValueBytes, ValueAt;
    at := seq(|row| + 1, j requires 0 <= j <= |row| => |RowBytes(row[..j])|);
    assert row[..|row|] == row && row[..0] == [];
    forall j | 0 <= j < |row| ensures ValueAt(row[j], RowBytes(row), at[j], at[j + 1]) {
      RowBytesAround(row, j);
      ValueBytesAt(row[j], RowBytes(row[..j]), RowBytes(row[j + 1..]));
    }
  }

  // ---------- Encoding ----------

  method ValidateRow(schema: Schema, row: Row) returns (error: Option<RecordError>)
    ensures error.None? <==> RowMatches(schema, row)
    ensures error.Some? ==> error.value == if |row| != |schema| then WrongCount else WrongType
  {
    if |row| != |schema| {
      return Some(WrongCount);
    }
    for i := 0 to |schema|
      invariant forall j :: 0 <= j < i ==> HasType(row[j], schema[j].columnType)
    {
      if schema[i].columnType == IntType && !row[i].IntValue? {
        return Some(WrongType);
      }
      if schema[i].columnType == TextType && !row[i].TextValue? {
        return Some(WrongType);
      }
    }
    return None;
  }

  function EncodeInt(n: int): Result<seq<byte>> {
    if Int64(n) then Ok(PackInt(n)) else Err(IntTooWide)
  }

  function EncodeText(text: string): Result<seq<byte>> {
    var encoded := Utf8.Encode(text);
    if |encoded| < 0x1_0000_0000 then Ok(Pack(|encoded|, TEXT_LENGTH_SIZE) + encoded) else Err(TextTooLong)
  }

  function Joined(chunks: seq<seq<byte>>): seq<byte> {
    if chunks == [] then [] else Joined(chunks[..|chunks| - 1]) + chunks[|chunks| - 1]
  }

  /** The first value that does not fit decides the error. */
  ghost predicate FirstUnstorable(row: Row, error: RecordError) {
    exists i :: 0 <= i < |row| && RowStorable(row[..i]) && match row[i]
      case IntValue(n) => !(-0x8000_0000_0000_0000 <= n < 0x8000_0000_0000_0000) && error == IntTooWide
      case TextValue(text) => |Utf8.Encode(text)| >= 0x1_0000_0000 && error == TextTooLong
  }

  /** Why a row cannot be encoded. */
  ghost predicate Unencodable(schema: Schema, row: Row, error: RecordError) {
    if |row| != |schema| then error == WrongCount
    else if exists i :: 0 <= i < |row| && (row[i].IntValue? != (schema[i].columnType == IntType)) then error == WrongType
    else FirstUnstorable(row, error)
  }

  /** Encodes a row: the bytes of its values, or the reason why there are none. */
  method EncodeRecord(schema: Schema, row: Row) returns (r: Result<seq<byte>>)
    ensures r.Ok? <==> RowMatches(schema, row) && RowStorable(row)
    ensures r.Ok? <==> |row| == |schema| && forall i :: 0 <= i < |row| ==>
      if schema[i].columnType == IntType then row[i].IntValue? && -0x8000_0000_0000_0000 <= row[i].n < 0x8000_0000_0000_0000
      else row[i].TextValue? && |Utf8.Encode(row[i].text)| < 0x1_0000_0000
    ensures r.Ok? ==> r.value == RowBytes(row)
    ensures r.Ok? ==> exists at :: Offsets(row, r.value, at)
    ensures r.Err? ==> Unencodable(schema, row, r.error)
  {
    var error := ValidateRow(schema, row);
    if error.Some? {
      return Err(error.value);
    }
    var chunks: seq<seq<byte>> := [];
    for i := 0 to |schema|
      invariant RowStorable(row[..i]) && Joined(chunks) == RowBytes(row[..i])
    {
      var chunk := if schema[i].columnType == IntType then EncodeInt(row[i].n) else EncodeText(row[i].text);
      if chunk.Err? {
        return Err(chunk.error);
      }
      EncodeStep(row, i, chunks, chunk.value);
      chunks := chunks + [chunk.value];
    }
    assert row[..|schema|] == row;
    ghost var at := RowLaidOut(row);
    return Ok(Joined(chunks));
  }

  lemma EncodeStep(row: Row, i: nat, chunks: seq<seq<byte>>, chunk: seq<byte>)
    requires i < |row| && RowStorable(row[..i]) && Joined(chunks) == RowBytes(row[..i])
    requires Storable(row[i]) && chunk == ValueBytes(row[i])
    ensures RowStorable(row[..i + 1]) && Joined(chunks + [chunk]) == RowBytes(row[..i + 1])
  {
    hide Storable, ValueBytes;
    RowBytesAppend(row[..i], row[i]);
    assert row[..i + 1] == row[..i] + [row[i]];
    assert (chunks + [chunk])[..|chunks|] == chunks;
  }

  lemma {:induction false} RowBytesAppend(row: Row, v: Value)
    requires RowStorable(row) && Storable(v)
    ensures RowStorable(row + [v]) && RowBytes(row + [v]) == RowBytes(row) + ValueBytes(v)
  {
    hide ValueBytes, Storable;
    if row == [] {
      assert [v][1..] == [] && row + [v] == [v];
      assert RowBytes([v]) == ValueBytes(v) + RowBytes([]);
    } else {
      RowBytesAppend(row[1..], v);
      assert (row + [v])[1..] == row[1..] + [v];
      assert RowBytes(row + [v]) == ValueBytes(row[0]) + (RowBytes(row[1..]) + ValueBytes(v));
    }
  }

  // ---------- Decoding ----------

  function DecodeInt(data: seq<byte>, offset: nat): Result<(Value, nat)>
    requires offset <= |data|
  {
    var end := offset + INT_SIZE;
    if end > |data| then Err(ShortRecord) else Ok((IntValue(UnpackInt(data[offset..end])), end))
  }

  function DecodeText(data: seq<byte>, offset: nat): Result<(Value, nat)>
    requires offset <= |data|
  {
    var lengthEnd := offset + TEXT_LENGTH_SIZE;
    if lengthEnd > |data| then Err(ShortRecord)
    else
      var valueEnd := lengthEnd + Unpack(data[offset..lengthEnd]);
      if valueEnd > |data| then Err(ShortRecord)
      else match Utf8.Decode(data[lengthEnd..valueEnd])
        case None => Err(BadText)
        case Some(text) => Ok((TextValue(text), valueEnd))
  }

  function DecodeValue(t: ColumnType, data: seq<byte>, offset: nat): Result<(Value, nat)>
    requires offset <= |data|
  {
    match t
    case IntType => DecodeInt(data, offset)
    case TextType => DecodeText(data, offset)
  }

  /** Decodes a record: the row whose bytes these are, if there is one. */
  method DecodeRecord(schema: Schema, data: seq<byte>) returns (r: Result<Row>)
    ensures r.Ok? ==> Reads(schema, r.value, data)
    ensures forall row :: Reads(schema, row, data) ==> r == Ok(row)
  {
    var values: Row := [];
    var offset: nat := 0;
    for i := 0 to |schema|
      invariant ReadSoFar(schema, data, i, values, offset) && Forced(schema, data, i, values, offset)
    {
      hide *;
      DecodeStep(schema, data, i, values, offset);
      var next := DecodeAt(schema, data, i, offset);
      if next.Err? {
        return Err(next.error);
      }
      values, offset := values + [next.value.0], next.value.1;
    }
    DecodeEnds(schema, data, values, offset);
    if offset != |data| {
      return Err(TrailingBytes);
    }
    return Ok(values);
  }

  function DecodeAt(schema: Schema, data: seq<byte>, i: nat, offset: nat): Result<(Value, nat)>
    requires i < |schema| && offset <= |data|
  {
    DecodeValue(schema[i].columnType, data, offset)
  }

  /** The first `i` columns were read from the bytes up to `offset`. */
  ghost predicate ReadSoFar(schema: Schema, data: seq<byte>, i: nat, values: Row, offset: nat) {
    && offset <= |data| && i == |values| <= |schema| && RowMatches(schema[..i], values)
    && RowStorable(values) && RowBytes(values) == data[..offset]
  }

  /** Any row with these bytes starts with the values read, and the rest of it takes the rest of the bytes. */
  ghost predicate Forced(schema: Schema, data: seq<byte>, i: nat, values: Row, offset: nat) {
    offset <= |data| && forall row :: Reads(schema, row, data) ==> ForcedRow(row, data, i, values, offset)
  }

  ghost predicate ForcedRow(row: Row, data: seq<byte>, i: nat, values: Row, offset: nat)
    requires offset <= |data|
  {
    i <= |row| && row[..i] == values && RowStorable(row[i..]) && RowBytes(row[i..]) == data[offset..]
  }

  lemma DecodeStep(schema: Schema, data: seq<byte>, i: nat, values: Row, offset: nat)
    requires ReadSoFar(schema, data, i, values, offset) && Forced(schema, data, i, values, offset) && i < |schema|
    ensures i < |schema| && offset <= |data|
    ensures var next := DecodeAt(schema, data, i, offset);
      if next.Ok? then ReadSoFar(schema, data, i + 1, values + [next.value.0], next.value.1)
                    && Forced(schema, data, i + 1, values + [next.value.0], next.value.1)
      else forall row :: !Reads(schema, row, data)
  {
    hide Reads, DecodeValue, ValueBytes, Storable;
    var t := schema[i].columnType;
    var next := DecodeValue(t, data, offset);
    ValueRead(t, data, offset);
    if next.Ok? {
      RowBytesAppend(values, next.value.0);
      assert data[..next.value.1] == data[..offset] + data[offset..next.value.1];
    }
    forall row | Reads(schema, row, data)
      ensures next.Ok? && ForcedRow(row, data, i + 1, values + [next.value.0], next.value.1)
    {
      ForcedStep(schema, row, data, i, values, offset);
    }
  }

  lemma ForcedStep(schema: Schema, row: Row, data: seq<byte>, i: nat, values: Row, offset: nat)
    requires Reads(schema, row, data) && offset <= |data| && i < |schema| && ForcedRow(row, data, i, values, offset)
    ensures var next := DecodeValue(schema[i].columnType, data, offset);
      next.Ok? && next.value.1 <= |data| && ForcedRow(row, data, i + 1, values + [next.value.0], next.value.1)
  {
    hide ValueBytes, DecodeValue, Storable;
    ValueForced(schema[i].columnType, row[i..], data, offset);
    assert row[i..][1..] == row[i + 1..];
    assert row[..i + 1] == row[..i] + [row[i]];
  }

  lemma DecodeEnds(schema: Schema, data: seq<byte>, values: Row, offset: nat)
    requires ReadSoFar(schema, data, |schema|, values, offset) && Forced(schema, data, |schema|, values, offset)
    ensures offset == |data| ==> Reads(schema, values, data)
    ensures forall row :: Reads(schema, row, data) ==> row == values && offset == |data|
  {
    assert schema[..|schema|] == schema && data[..|data|] == data;
    forall row | Reads(schema, row, data) ensures row == values && offset == |data| {
      assert ForcedRow(row, data, |schema|, values, offset);
      assert row[..|schema|] == row && row[|schema|..] == [];
      assert RowBytes([]) == [];
    }
  }

  /** `row` is a row of the schema and `data` are its bytes. */
  ghost predicate Reads(schema: Schema, row: Row, data: seq<byte>) {
    RowMatches(schema, row) && RowStorable(row) && RowBytes(row) == data
  }

  /** A value that was read is storable, of the right type, and its bytes are those that were read. */
  lemma ValueRead(t: ColumnType, data: seq<byte>, offset: nat)
    requires offset <= |data|
    ensures var r := DecodeValue(t, data, offset);
      r.Ok? ==> var (v, end) := r.value;
        HasType(v, t) && Storable(v) && offset <= end <= |data| && ValueBytes(v) == data[offset..end]
  {
    var r := DecodeValue(t, data, offset);
    if r.Ok? {
      if t == IntType {
        UnpackPackInt(data[offset..r.value.1]);
      } else {
        TextRead(data, offset);
      }
    }
  }

  lemma TextRead(data: seq<byte>, offset: nat)
    requires offset <= |data| && DecodeText(data, offset).Ok?
    ensures var (v, end) := DecodeText(data, offset).value;
      v.TextValue? && Storable(v) && offset <= end <= |data| && ValueBytes(v) == data[offset..end]
  {
    var mid, end := offset + TEXT_LENGTH_SIZE, DecodeText(data, offset).value.1;
    Widths();
    UnpackPack(data[offset..mid]);
    Utf8.DecodeEncode(data[mid..end]);
    assert data[offset..end] == data[offset..mid] + data[mid..end];
    hide Utf8.Decode, Utf8.Encode, Pack, Unpack;
  }

  /** Where the rest of the data is a row's bytes, the row's first value is what is read. */
  lemma ValueForced(t: ColumnType, row: Row, data: seq<byte>, offset: nat)
    requires row != [] && HasType(row[0], t) && RowStorable(row) && offset <= |data| && RowBytes(row) == data[offset..]
    ensures var end := offset + |ValueBytes(row[0])|;
      end <= |data| && DecodeValue(t, data, offset) == Ok((row[0], end)) && RowStorable(row[1..]) && RowBytes(row[1..]) == data[end..]
  {
    hide *;
    RowBytesFirst(row);
    TypeMeans(row[0], t);
    FrontBytes(data, offset, ValueBytes(row[0]), RowBytes(row[1..]));
    if t == IntType {
      IntForced(row[0].n, data, offset);
    } else {
      TextForced(row[0].text, data, offset);
    }
    DecodesByType(t, data, offset);
  }

  lemma TypeMeans(v: Value, t: ColumnType)
    ensures HasType(v, t) <==> if t == IntType then v.IntValue? else v.TextValue?
  {
  }

  lemma RowBytesFirst(row: Row)
    requires row != [] && RowStorable(row)
    ensures Storable(row[0]) && RowStorable(row[1..]) && RowBytes(row) == ValueBytes(row[0]) + RowBytes(row[1..])
  {
  }

  lemma DecodesByType(t: ColumnType, data: seq<byte>, offset: nat)
    requires offset <= |data|
    ensures DecodeValue(t, data, offset) == if t == IntType then DecodeInt(data, offset) else DecodeText(data, offset)
  {
  }

  lemma IntForced(n: int, data: seq<byte>, offset: nat)
    requires Storable(IntValue(n))
    requires var end := offset + |ValueBytes(IntValue(n))|; end <= |data| && data[offset..end] == ValueBytes(IntValue(n))
    ensures DecodeInt(data, offset) == Ok((IntValue(n), offset + |ValueBytes(IntValue(n))|))
  {
    PackUnpackInt(n);
  }

  lemma FrontBytes(data: seq<byte>, offset: nat, bs: seq<byte>, rest: seq<byte>)
    requires offset <= |data| && data[offset..] == bs + rest
    ensures var end := offset + |bs|; end <= |data| && data[offset..end] == bs && data[end..] == rest
  {
    assert data[offset..][..|bs|] == bs && data[offset..][|bs|..] == rest;
  }

  lemma TwoParts(data: seq<byte>, offset: nat, a: seq<byte>, b: seq<byte>)
    requires offset + |a| + |b| <= |data| && data[offset..offset + |a| + |b|] == a + b
    ensures data[offset..offset + |a|] == a && data[offset + |a|..offset + |a| + |b|] == b
  {
    var both := data[offset..offset + |a| + |b|];
    assert data[offset..offset + |a|] == both[..|a|] && data[offset + |a|..offset + |a| + |b|] == both[|a|..];
  }

  lemma TextForced(text: string, data: seq<byte>, offset: nat)
    requires Storable(TextValue(text))
    requires var end := offset + |ValueBytes(TextValue(text))|; end <= |data| && data[offset..end] == ValueBytes(TextValue(text))
    ensures DecodeText(data, offset) == Ok((TextValue(text), offset + |ValueBytes(TextValue(text))|))
  {
    var utf := Utf8.Encode(text);
    hide Pack, Unpack, Utf8.Encode, Utf8.Decode;
    Widths();
    PackUnpack(|utf|, TEXT_LENGTH_SIZE);
    TwoParts(data, offset, Pack(|utf|, TEXT_LENGTH_SIZE), utf);
    Utf8.EncodeDecode(text);
  }

  // ---------- The codec as a bijection ----------

  /** Two rows of one schema with the same bytes are the same row. */
  lemma {:induction false} RowBytesInjective(schema: Schema, a: Row, b: Row)
    requires RowMatches(schema, a) && RowMatches(schema, b) && RowStorable(a) && RowStorable(b)
    requires RowBytes(a) == RowBytes(b)
    ensures a == b
    decreases |schema|
  {
    if schema != [] {
      SameFirst(schema, a, b);
      RowBytesInjective(schema[1..], a[1..], b[1..]);
      assert a == [a[0]] + a[1..] && b == [b[0]] + b[1..];
    }
  }

  lemma SameFirst(schema: Schema, a: Row, b: Row)
    requires schema != [] && RowMatches(schema, a) && RowMatches(schema, b) && RowStorable(a) && RowStorable(b)
    requires RowBytes(a) == RowBytes(b)
    ensures a[0] == b[0] && RowBytes(a[1..]) == RowBytes(b[1..])
    ensures RowMatches(schema[1..], a[1..]) && RowMatches(schema[1..], b[1..]) && RowStorable(a[1..]) && RowStorable(b[1..])
  {
    var data := RowBytes(a);
    assert data[0..] == data;
    hide RowBytes, ValueBytes;
    ValueForced(schema[0].columnType, a, data, 0);
    ValueForced(schema[0].columnType, b, data, 0);
  }

  /** A schema without TEXT columns stores every row in the same number of bytes. */
  lemma {:induction false} FixedLength(schema: Schema, row: Row)
    requires RowMatches(schema, row) && RowStorable(row)
    requires forall i :: 0 <= i < |schema| ==> schema[i].columnType == IntType
    ensures |RowBytes(row)| == INT_SIZE * |schema|
    decreases |schema|
  {
    if schema != [] {
      FixedLength(schema[1..], row[1..]);
    }
  }
}
