/**
 * The row encoder `encodeRecord`: a 162-byte buffer filled with blanks, the
 * record tag in bytes 0-1, every field written in declaration order into
 * the slice its layout names, bytes 160-161 overwritten with the letters
 * `r` and `n`, and one write of the whole buffer to the sink.
 *
 * Reflection is replaced by an explicit list of fields, each with its struct
 * tag and its value; the type switch dispatches on the value's case.
 */
module Encoder {
  import opened Wrappers
  import opened Bytes
  import opened Decimal
  import opened Errors
  import opened Descriptor
  import opened FieldWriters

  const ROW_LEN: nat := 162

  /** A Go struct tag with one `key:"value"` entry. */
  datatype StructTag = StructTag(key: Bytes, value: Bytes)

  /** `reflect.StructTag.Get(key)`: the value when the key matches exactly (case-sensitive), else `""`. */
  function Get(t: StructTag, key: Bytes): Bytes
  {
    if t.key == key then t.value else []
  }

  /** A field's value, by its Go type; a float is given by its `%f` text. */
  datatype Value =
      Str(s: Bytes)
    | Code(s: Bytes)
    | USPS(s: Bytes)
    | Int(n: Int64)
    | Float(text: Bytes)
    | Date(t: Time)
    | Bool(b: bool)
    | Duration(nanos: Int64)

  /** One field as the reflection loop sees it: its struct tag and its value. */
  datatype Field = Field(tag: StructTag, value: Value)

  /** What the sink's `Write` reports: the byte count and possibly an error. */
  datatype SinkReply = SinkReply(n: int, err: Option<nat>)

  /** The type switch: which writer a value goes to; bool and `time.Duration` match no case. */
  function WriteValue(dst: Bytes, v: Value, num: NumericText): (r: Result<Bytes, Error>)
    ensures r.Ok? ==> |r.value| == |dst|
  {
    match v
    case Str(s) => StringField(dst, s, num)
    case Int(n) => IntField(dst, n)
    case Float(text) => FloatField(dst, text)
    case USPS(s) => StringField(dst, s, num)
    case Code(s) => StringField(dst, s, num)
    case Date(t) => DateField(dst, t)
    case Bool(_) => Ok(dst)
    case Duration(_) => Ok(dst)
  }

  /**
   * A field writer: what the loop body does to a slice for a value. The
   * loop's frame properties hold for any writer that keeps the slice's width.
   */
  type Writer = (Bytes, Value) -> Result<Bytes, Error>

  /** The type switch of `encodeRecord` as a writer. */
  function TypeSwitch(num: NumericText): Writer
  {
    (dst, v) => WriteValue(dst, v, num)
  }

  /** A descriptor parser: what the loop makes of a field's `sdif` struct-tag entry. */
  type Parser = Bytes -> Result<SdifTag, Error>

  /**
   * The two steps of the loop body: parse the field's layout, then write
   * its value into the slice. The loop's properties are proved for any
   * parser and any writer that keeps the slice's width.
   */
  datatype FieldCodec = FieldCodec(parse: Parser, write: Writer)

  /** The parser and the type switch that `encodeRecord` uses. */
  function Sdif(num: NumericText): FieldCodec
  {
    FieldCodec(ParseSdifTag, TypeSwitch(num))
  }

  /** The writer returns a slice of the width it is given. */
  ghost predicate KeepsWidth(c: FieldCodec)
  {
    forall dst, v :: c.write(dst, v).Ok? ==> |c.write(dst, v).value| == |dst|
  }

  /** Whether the type switch writes anything for the value. */
  predicate Writes(v: Value)
  {
    !v.Bool? && !v.Duration?
  }

  /** The struct-tag key the encoder reads. */
  const SDIF: Bytes := "sdif"

  /** The layout of a field: its `sdif` struct-tag entry, parsed. */
  function Layout(c: FieldCodec, f: Field): Result<SdifTag, Error>
  {
    c.parse(Get(f.tag, SDIF))
  }

  /** The Go slice `b[start-1 : start-1+len]` of the 162-byte buffer does not panic. */
  predicate InBounds(st: SdifTag)
  {
    1 <= st.start && 0 <= st.len && st.start - 1 + st.len <= ROW_LEN
  }

  /** Byte `i` of the row lies in the field's slice. */
  predicate InRange(c: FieldCodec, f: Field, i: int)
  {
    Layout(c, f).Ok? && Layout(c, f).value.start - 1 <= i < Layout(c, f).value.start - 1 + Layout(c, f).value.len
  }

  /** One iteration of the field loop on the buffer `b`. */
  function EncodeField(b: Bytes, f: Field, c: FieldCodec): (r: Result<Bytes, Error>)
    requires |b| == ROW_LEN
    ensures r.Ok? ==> |r.value| == ROW_LEN
  {
    match Layout(c, f)
    case Err(e) => Err(e)
    case Ok(st) =>
      if !InBounds(st) then Err(SlicePanic(st.start - 1, st.start - 1 + st.len))
      else
        var lo, hi := st.start - 1, st.start - 1 + st.len;
        var w := c.write(b[lo..hi], f.value);
        if w.Err? then Err(w.error) else Ok(Spliced(b, lo, hi, w))
  }

  /** The field loop: every field in order, stopping at the first error. */
  function EncodeFields(b: Bytes, fields: seq<Field>, c: FieldCodec): (r: Result<Bytes, Error>)
    requires |b| == ROW_LEN
    ensures r.Ok? ==> |r.value| == ROW_LEN
    decreases |fields|
  {
    if fields == [] then Ok(b)
    else
      match EncodeField(b, fields[0], c)
      case Err(e) => Err(e)
      case Ok(next) => EncodeFields(next, fields[1..], c)
  }

  /** The buffer before the field loop: the tag, then blanks. */
  function Header(tag: Bytes): (r: Bytes)
    requires |tag| == 2
    ensures |r| == ROW_LEN
  {
    tag + Blanks(ROW_LEN - 2)
  }

  /** The row `encodeRecord` hands to the sink, or the error it returns before writing. */
  function EncodeRow(tag: Bytes, fields: seq<Field>, c: FieldCodec): (r: Result<Bytes, Error>)
    ensures r.Ok? ==> |r.value| == ROW_LEN
  {
    if |tag| != 2 then Err(InvalidTag(|tag|))
    else
      match EncodeFields(Header(tag), fields, c)
      case Err(e) => Err(e)
      case Ok(b) => Ok(b[160 := 'r'][161 := 'n'])
  }

  /** What `encodeRecord` returns once the row has been written. */
  function AfterWrite(reply: SinkReply): Outcome<Error>
  {
    if reply.err.Some? then Fail(SinkError(reply.err.value))
    else if reply.n != ROW_LEN then Fail(WriteIncomplete(reply.n))
    else Pass
  }

  /**
   * The body of the field loop (main.go:97-137) on the buffer `b`: parse the
   * layout, take the slice, and hand it to the writer the value's type picks.
   */
  method WriteField(b: array<Byte>, f: Field, num: NumericText) returns (out: Outcome<Error>)
    requires b.Length == ROW_LEN
    modifies b
    ensures out == OutcomeOf(EncodeField(old(b[..]), f, Sdif(num)))
    ensures out.Pass? ==> b[..] == EncodeField(old(b[..]), f, Sdif(num)).value
    ensures out.Fail? ==> b[..] == old(b[..])
  {
    var st := NewSdifTag(Get(f.tag, SDIF));
    assert Layout(Sdif(num), f) == st;
    EncodeFieldRejects(b[..], f, Sdif(num));
    if st.Err? {
      return Fail(st.error);
    }
    var start, len := st.value.start, st.value.len;
    if !(1 <= start && 0 <= len && start - 1 + len <= ROW_LEN) {
      return Fail(SlicePanic(start - 1, start - 1 + len));
    }
    out := WriteSlice(b, f, num, st.value);
  }

  /** The rest of the loop body once the layout has parsed and the slice fits. */
  method WriteSlice(b: array<Byte>, f: Field, num: NumericText, st: SdifTag) returns (out: Outcome<Error>)
    requires b.Length == ROW_LEN && Layout(Sdif(num), f) == Ok(st) && InBounds(st)
    modifies b
    ensures out == OutcomeOf(EncodeField(old(b[..]), f, Sdif(num)))
    ensures out.Pass? ==> b[..] == EncodeField(old(b[..]), f, Sdif(num)).value
    ensures out.Fail? ==> b[..] == old(b[..])
  {
    var lo, hi := st.start - 1, st.start - 1 + st.len;
    ghost var before := b[..];
    ghost var w := WriteValue(b[lo..hi], f.value, num);
    EncodeFieldUnfold(before, f, Sdif(num), st);
    assert Sdif(num).write(before[lo..hi], f.value) == w;
    assert EncodeField(before, f, Sdif(num)) == if w.Err? then Err(w.error) else Ok(Spliced(before, lo, hi, w));
    out := WriteValueInto(b, lo, hi, f.value, num);
    assert out == OutcomeOf(w) && b[..] == Spliced(before, lo, hi, w);
  }

  /** The type switch of main.go:110-135 on the slice `b[lo..hi)`. */
  method WriteValueInto(b: array<Byte>, lo: nat, hi: nat, v: Value, num: NumericText) returns (out: Outcome<Error>)
    requires lo <= hi <= b.Length
    modifies b
    ensures out == OutcomeOf(WriteValue(old(b[lo..hi]), v, num))
    ensures b[..] == Spliced(old(b[..]), lo, hi, WriteValue(old(b[lo..hi]), v, num))
  {
    match v {
      case Str(s) => out := EncodeString(b, lo, hi, s, num);
      case Int(n) => out := EncodeInt(b, lo, hi, n);
      case Float(text) => out := EncodeFloat(b, lo, hi, text);
      case USPS(s) => out := EncodeString(b, lo, hi, s, num);
      case Code(s) => out := EncodeString(b, lo, hi, s, num);
      case Date(t) => out := EncodeDate(b, lo, hi, t);
      case Bool(_) =>
        SplicedSame(b[..], lo, hi);
        out := Pass;
      case Duration(_) =>
        SplicedSame(b[..], lo, hi);
        out := Pass;
    }
  }

  /** One field whose layout parses and fits: the writer's result, spliced in. */
  lemma EncodeFieldUnfold(b: Bytes, f: Field, c: FieldCodec, st: SdifTag)
    requires |b| == ROW_LEN && Layout(c, f) == Ok(st) && InBounds(st)
    ensures var w := c.write(b[st.start - 1..st.start - 1 + st.len], f.value);
      EncodeField(b, f, c) == if w.Err? then Err(w.error) else Ok(Spliced(b, st.start - 1, st.start - 1 + st.len, w))
  {
  }

  /**
   * `encodeRecord(w, rec)`. `written` is what the one call to `w.Write`
   * received (`None`: no call), and `reply` is what that call reports.
   * Nothing is written when encoding fails.
   */
  method EncodeRecord(tag: Bytes, fields: seq<Field>, num: NumericText, reply: SinkReply)
    returns (r: Outcome<Error>, written: Option<Bytes>)
    ensures written == if EncodeRow(tag, fields, Sdif(num)).Ok? then Some(EncodeRow(tag, fields, Sdif(num)).value) else None
    ensures r == if EncodeRow(tag, fields, Sdif(num)).Ok? then AfterWrite(reply) else Fail(EncodeRow(tag, fields, Sdif(num)).error)
  {
    if |tag| != 2 {
      return Fail(InvalidTag(|tag|)), None;
    }
    var b := new Byte[ROW_LEN];
    for i := 0 to ROW_LEN
      invariant forall k :: 0 <= k < i ==> b[k] == BLANK
    {
      b[i] := BLANK;
    }
    b[0] := tag[0];
    b[1] := tag[1];
    assert b[..] == Header(tag);
    ghost var header := b[..];
    for i := 0 to |fields|
      invariant EncodeFields(header, fields, Sdif(num)) == EncodeFields(b[..], fields[i..], Sdif(num))
    {
      assert fields[i..][1..] == fields[i + 1..];
      var out := WriteField(b, fields[i], num);
      if out.Fail? {
        return Fail(out.error), None;
      }
    }
    assert fields[|fields|..] == [];
    b[160] := 'r';
    b[161] := 'n';
    written := Some(b[..]);
    var n, err := reply.n, reply.err;
    if err.Some? {
      return Fail(SinkError(err.value)), written;
    }
    if n != ROW_LEN {
      return Fail(WriteIncomplete(n)), written;
    }
    r := Pass;
  }

  // ---- Properties of the row encoder ----

  /** Two fields whose layouts parse and whose slices share no byte. */
  predicate Apart(c: FieldCodec, f: Field, g: Field)
  {
    Layout(c, f).Ok? && Layout(c, g).Ok? &&
    var x, y := Layout(c, f).value, Layout(c, g).value;
    x.start + x.len <= y.start || y.start + y.len <= x.start
  }

  /** Field `f`'s slice of `fin` holds what `write` made of the same slice of `b`. */
  predicate SliceWritten(b: Bytes, fin: Bytes, f: Field, c: FieldCodec)
  {
    |b| == ROW_LEN && |fin| == ROW_LEN && Layout(c, f).Ok? && InBounds(Layout(c, f).value) &&
    var st := Layout(c, f).value;
    var lo, hi := st.start - 1, st.start - 1 + st.len;
    c.write(b[lo..hi], f.value).Ok? && fin[lo..hi] == c.write(b[lo..hi], f.value).value
  }

  /** The field's layout parses and its slice fits the row. */
  predicate Placed(c: FieldCodec, f: Field)
  {
    Layout(c, f).Ok? && InBounds(Layout(c, f).value)
  }

  /** The field is placed and its writer succeeds on its slice of `b`. */
  predicate WritesOn(b: Bytes, f: Field, c: FieldCodec)
  {
    |b| == ROW_LEN && Placed(c, f) &&
    var st := Layout(c, f).value;
    c.write(b[st.start - 1..st.start - 1 + st.len], f.value).Ok?
  }

  /** The field's slice lies within bytes 2-159, clear of the tag and the trailer. */
  predicate InsideRow(c: FieldCodec, f: Field)
  {
    Layout(c, f).Ok? && 3 <= Layout(c, f).value.start && 0 <= Layout(c, f).value.len &&
    Layout(c, f).value.start + Layout(c, f).value.len <= 161
  }

  /** What the writer makes of the field's value on a blank slice of the field's width. */
  function BlankWrite(c: FieldCodec, f: Field): Result<Bytes, Error>
    requires InsideRow(c, f)
  {
    c.write(Blanks(Layout(c, f).value.len), f.value)
  }

  /** The fields' slices are pairwise disjoint. */
  predicate Disjoint(c: FieldCodec, fields: seq<Field>)
  {
    forall i, k {:trigger fields[i], fields[k]} :: 0 <= i < k < |fields| ==> Apart(c, fields[i], fields[k])
  }

  /** No field's slice holds byte `i`. */
  predicate Uncovered(c: FieldCodec, fields: seq<Field>, i: int)
  {
    forall j {:trigger InRange(c, fields[j], i)} :: 0 <= j < |fields| ==> !InRange(c, fields[j], i)
  }

  /**
   * One field fails on a descriptor error, and with a slice panic when its
   * slice does not fit the row.
   */
  lemma EncodeFieldRejects(b: Bytes, f: Field, c: FieldCodec)
    requires |b| == ROW_LEN
    ensures Layout(c, f).Err? ==> EncodeField(b, f, c) == Err(Layout(c, f).error)
    ensures Layout(c, f).Ok? && !InBounds(Layout(c, f).value) ==>
      EncodeField(b, f, c) == Err(SlicePanic(Layout(c, f).value.start - 1, Layout(c, f).value.start - 1 + Layout(c, f).value.len))
  {
  }

  /**
   * A field whose slice fits the row succeeds exactly when its writer
   * does, and fails with the writer's error.
   */
  lemma EncodeFieldWriterError(b: Bytes, f: Field, c: FieldCodec)
    requires |b| == ROW_LEN && Layout(c, f).Ok? && InBounds(Layout(c, f).value)
    ensures var st := Layout(c, f).value;
      var w := c.write(b[st.start - 1..st.start - 1 + st.len], f.value);
      (EncodeField(b, f, c).Ok? <==> w.Ok?) && (w.Err? ==> EncodeField(b, f, c) == Err(w.error))
  {
    EncodeFieldUnfold(b, f, c, Layout(c, f).value);
  }

  /**
   * A field that encodes changes exactly its own slice, which then holds
   * what the writer made of the slice's old bytes.
   */
  lemma EncodeFieldWrites(b: Bytes, f: Field, c: FieldCodec)
    requires |b| == ROW_LEN && KeepsWidth(c) && EncodeField(b, f, c).Ok?
    ensures Layout(c, f).Ok? && InBounds(Layout(c, f).value)
    ensures var st := Layout(c, f).value;
      var w := c.write(b[st.start - 1..st.start - 1 + st.len], f.value);
      w.Ok? && EncodeField(b, f, c).value[st.start - 1..st.start - 1 + st.len] == w.value
  {
    var st := Layout(c, f).value;
    var lo, hi := st.start - 1, st.start - 1 + st.len;
    EncodeFieldUnfold(b, f, c, st);
    var w := c.write(b[lo..hi], f.value);
    assert EncodeField(b, f, c) == Ok(Spliced(b, lo, hi, w));
    SplicedContents(b, lo, hi, w.value);
  }

  /** A field that encodes leaves every byte outside its slice as it was. */
  lemma EncodeFieldKeeps(b: Bytes, f: Field, c: FieldCodec, i: int)
    requires |b| == ROW_LEN && KeepsWidth(c) && EncodeField(b, f, c).Ok?
    requires 0 <= i < ROW_LEN && !InRange(c, f, i)
    ensures EncodeField(b, f, c).value[i] == b[i]
  {
    var st := Layout(c, f).value;
    var lo, hi := st.start - 1, st.start - 1 + st.len;
    EncodeFieldUnfold(b, f, c, st);
    var w := c.write(b[lo..hi], f.value);
    assert EncodeField(b, f, c) == Ok(Spliced(b, lo, hi, w));
    assert !(lo <= i < hi);
    SplicedContents(b, lo, hi, w.value);
  }

  /** The loop's first step: the first field encodes and the rest run on its result. */
  lemma EncodeFieldsStep(b: Bytes, fs: seq<Field>, c: FieldCodec)
    requires |b| == ROW_LEN && fs != [] && EncodeFields(b, fs, c).Ok?
    ensures EncodeField(b, fs[0], c).Ok?
    ensures EncodeFields(b, fs, c) == EncodeFields(EncodeField(b, fs[0], c).value, fs[1..], c)
  {
  }

  /** A bool or `time.Duration` field writes nothing, though its layout is still parsed and sliced. */
  lemma SkippedField(b: Bytes, f: Field, num: NumericText)
    requires |b| == ROW_LEN && !Writes(f.value)
    ensures EncodeField(b, f, Sdif(num)).Ok? <==> Placed(Sdif(num), f)
    ensures EncodeField(b, f, Sdif(num)).Ok? ==> EncodeField(b, f, Sdif(num)).value == b
  {
    var c := Sdif(num);
    EncodeFieldRejects(b, f, c);
    if Placed(c, f) {
      var st := Layout(c, f).value;
      var lo, hi := st.start - 1, st.start - 1 + st.len;
      assert c.write(b[lo..hi], f.value) == Ok(b[lo..hi]);
      KeptSlice(b, f, c);
    }
  }

  /** A placed field whose writer hands its slice back unchanged leaves the buffer as it was. */
  lemma KeptSlice(b: Bytes, f: Field, c: FieldCodec)
    requires |b| == ROW_LEN && Placed(c, f)
    requires var st := Layout(c, f).value;
      c.write(b[st.start - 1..st.start - 1 + st.len], f.value) == Ok(b[st.start - 1..st.start - 1 + st.len])
    ensures EncodeField(b, f, c) == Ok(b)
  {
    var st := Layout(c, f).value;
    EncodeFieldUnfold(b, f, c, st);
    SplicedSame(b, st.start - 1, st.start - 1 + st.len);
  }

  /** Encoding a list of fields is encoding a prefix and then the rest, stopping at the prefix's error. */
  lemma {:induction false} EncodeFieldsAppend(b: Bytes, fs: seq<Field>, gs: seq<Field>, c: FieldCodec)
    requires |b| == ROW_LEN
    ensures EncodeFields(b, fs + gs, c) ==
      match EncodeFields(b, fs, c)
      case Err(e) => Err(e)
      case Ok(m) => EncodeFields(m, gs, c)
    decreases |fs|
  {
    if fs == [] {
      assert fs + gs == gs;
    } else {
      assert (fs + gs)[0] == fs[0];
      assert (fs + gs)[1..] == fs[1..] + gs;
      match EncodeField(b, fs[0], c)
      case Err(e) =>
      case Ok(next) => EncodeFieldsAppend(next, fs[1..], gs, c);
    }
  }

  /**
   * A field whose layout does not parse makes the whole loop fail; when
   * every field before it encodes, the error is that field's.
   */
  lemma BadLayoutFails(b: Bytes, fs: seq<Field>, c: FieldCodec, j: nat)
    requires |b| == ROW_LEN && j < |fs| && Layout(c, fs[j]).Err?
    ensures EncodeFields(b, fs, c).Err?
    ensures EncodeFields(b, fs[..j], c).Ok? ==> EncodeFields(b, fs, c) == Err(Layout(c, fs[j]).error)
  {
    assert fs == fs[..j] + fs[j..];
    EncodeFieldsAppend(b, fs[..j], fs[j..], c);
    assert fs[j..][0] == fs[j];
  }

  /** Fields that do not cover byte `i` leave it as it was. */
  lemma {:induction false} EncodeFieldsFrame(b: Bytes, fs: seq<Field>, c: FieldCodec, i: int)
    requires |b| == ROW_LEN && KeepsWidth(c) && 0 <= i < ROW_LEN && EncodeFields(b, fs, c).Ok? && Uncovered(c, fs, i)
    ensures EncodeFields(b, fs, c).value[i] == b[i]
    decreases |fs|
  {
    if fs != [] {
      EncodeFieldsStep(b, fs, c);
      assert !InRange(c, fs[0], i);
      EncodeFieldKeeps(b, fs[0], c, i);
      var next := EncodeField(b, fs[0], c).value;
      assert forall j :: 0 <= j < |fs[1..]| ==> fs[1..][j] == fs[j + 1];
      EncodeFieldsFrame(next, fs[1..], c, i);
    }
  }

  /** Fields that cover none of the bytes `[lo, hi)` leave that stretch as it was. */
  lemma EncodeFieldsFrameRange(b: Bytes, fs: seq<Field>, c: FieldCodec, lo: nat, hi: nat)
    requires |b| == ROW_LEN && KeepsWidth(c) && lo <= hi <= ROW_LEN && EncodeFields(b, fs, c).Ok?
    requires forall i :: lo <= i < hi ==> Uncovered(c, fs, i)
    ensures EncodeFields(b, fs, c).value[lo..hi] == b[lo..hi]
  {
    var fin := EncodeFields(b, fs, c).value;
    forall i | lo <= i < hi
      ensures fin[i] == b[i]
    {
      EncodeFieldsFrame(b, fs, c, i);
    }
  }

  /** A field apart from every field of a list: none of them covers its slice. */
  lemma ApartFromAll(c: FieldCodec, f: Field, fs: seq<Field>)
    requires forall k :: 0 <= k < |fs| ==> Apart(c, f, fs[k])
    ensures Layout(c, f).Ok? ==>
      forall i :: Layout(c, f).value.start - 1 <= i < Layout(c, f).value.start - 1 + Layout(c, f).value.len ==> Uncovered(c, fs, i)
  {
  }

  /** Disjointness of a list passes to its tail, whose fields are all apart from the head. */
  lemma DisjointTail(c: FieldCodec, fs: seq<Field>)
    requires fs != [] && Disjoint(c, fs)
    ensures Disjoint(c, fs[1..])
    ensures forall k :: 0 <= k < |fs[1..]| ==> Apart(c, fs[0], fs[1..][k])
  {
    var rest := fs[1..];
    forall i, k | 0 <= i < k < |rest|
      ensures Apart(c, rest[i], rest[k])
    {
      assert rest[i] == fs[i + 1] && rest[k] == fs[k + 1];
    }
    forall k | 0 <= k < |rest|
      ensures Apart(c, fs[0], rest[k])
    {
      assert rest[k] == fs[k + 1];
    }
  }

  /**
   * With pairwise disjoint layouts, every field's slice of the final buffer
   * holds exactly what its writer made of the original slice: no later
   * field overwrites it and no earlier one changed its input.
   */
  lemma {:induction false} FieldContent(b: Bytes, fs: seq<Field>, c: FieldCodec, j: nat)
    requires |b| == ROW_LEN && KeepsWidth(c) && EncodeFields(b, fs, c).Ok? && Disjoint(c, fs) && j < |fs|
    ensures SliceWritten(b, EncodeFields(b, fs, c).value, fs[j], c)
    decreases |fs|
  {
    var rest := fs[1..];
    EncodeFieldsStep(b, fs, c);
    var next := EncodeField(b, fs[0], c).value;
    DisjointTail(c, fs);
    if j == 0 {
      FirstFieldContent(b, fs, c);
    } else {
      assert rest[j - 1] == fs[j];
      FieldContent(next, rest, c, j - 1);
      var fin := EncodeFields(next, rest, c).value;
      assert Apart(c, fs[0], fs[j]);
      EarlierField(b, next, fin, fs[0], fs[j], c);
    }
  }

  /** A field apart from `g` does not change the input of `g`'s slice. */
  lemma EarlierField(b: Bytes, next: Bytes, fin: Bytes, f: Field, g: Field, c: FieldCodec)
    requires |b| == ROW_LEN && KeepsWidth(c) && EncodeField(b, f, c) == Ok(next) && Apart(c, f, g)
    requires SliceWritten(next, fin, g, c)
    ensures SliceWritten(b, fin, g, c)
  {
    OutsideSlice(b, next, f, g, c);
  }

  /**
   * With disjoint layouts, the loop gets through every field when each
   * field's writer succeeds on that field's slice of the starting buffer.
   */
  lemma {:induction false} AllWritersSucceed(b: Bytes, fs: seq<Field>, c: FieldCodec)
    requires |b| == ROW_LEN && KeepsWidth(c) && Disjoint(c, fs)
    requires forall j :: 0 <= j < |fs| ==> WritesOn(b, fs[j], c)
    ensures EncodeFields(b, fs, c).Ok?
    decreases |fs|
  {
    if fs != [] {
      assert WritesOn(b, fs[0], c);
      EncodeFieldWriterError(b, fs[0], c);
      var next := EncodeField(b, fs[0], c).value;
      DisjointTail(c, fs);
      var rest := fs[1..];
      forall k | 0 <= k < |rest|
        ensures WritesOn(next, rest[k], c)
      {
        assert rest[k] == fs[k + 1];
        StillWrites(b, next, fs[0], rest[k], c);
      }
      AllWritersSucceed(next, rest, c);
      assert EncodeFields(b, fs, c) == EncodeFields(next, rest, c);
    }
  }

  /** A field apart from `g` leaves `g`'s writer the input it had. */
  lemma StillWrites(b: Bytes, next: Bytes, f: Field, g: Field, c: FieldCodec)
    requires |b| == ROW_LEN && KeepsWidth(c) && EncodeField(b, f, c) == Ok(next) && Apart(c, f, g)
    requires WritesOn(b, g, c)
    ensures WritesOn(next, g, c)
  {
    OutsideSlice(b, next, f, g, c);
  }

  /**
   * With disjoint layouts that fit the row, the loop succeeds exactly when
   * every field's writer succeeds on its slice of the starting buffer.
   */
  lemma EncodeFieldsSucceeds(b: Bytes, fs: seq<Field>, c: FieldCodec)
    requires |b| == ROW_LEN && KeepsWidth(c) && Disjoint(c, fs)
    requires forall j :: 0 <= j < |fs| ==> Placed(c, fs[j])
    ensures EncodeFields(b, fs, c).Ok? <==> forall j :: 0 <= j < |fs| ==> WritesOn(b, fs[j], c)
  {
    if EncodeFields(b, fs, c).Ok? {
      forall j | 0 <= j < |fs|
        ensures WritesOn(b, fs[j], c)
      {
        FieldContent(b, fs, c, j);
      }
    } else if forall j :: 0 <= j < |fs| ==> WritesOn(b, fs[j], c) {
      AllWritersSucceed(b, fs, c);
    }
  }

  /** The first field's slice survives the fields after it when they are all apart from it. */
  lemma FirstFieldContent(b: Bytes, fs: seq<Field>, c: FieldCodec)
    requires |b| == ROW_LEN && KeepsWidth(c) && fs != [] && EncodeFields(b, fs, c).Ok?
    requires forall k :: 0 <= k < |fs[1..]| ==> Apart(c, fs[0], fs[1..][k])
    ensures SliceWritten(b, EncodeFields(b, fs, c).value, fs[0], c)
  {
    EncodeFieldsStep(b, fs, c);
    EncodeFieldWrites(b, fs[0], c);
    var next := EncodeField(b, fs[0], c).value;
    var st := Layout(c, fs[0]).value;
    var lo, hi := st.start - 1, st.start - 1 + st.len;
    ApartFromAll(c, fs[0], fs[1..]);
    EncodeFieldsFrameRange(next, fs[1..], c, lo, hi);
    var fin := EncodeFields(b, fs, c).value;
    assert fin == EncodeFields(next, fs[1..], c).value;
    assert fin[lo..hi] == next[lo..hi] == c.write(b[lo..hi], fs[0].value).value;
  }

  /** A field leaves the slice of a field apart from it as it was. */
  lemma OutsideSlice(b: Bytes, next: Bytes, f: Field, g: Field, c: FieldCodec)
    requires |b| == ROW_LEN && KeepsWidth(c) && EncodeField(b, f, c) == Ok(next) && Apart(c, f, g)
    requires InBounds(Layout(c, g).value)
    ensures var st := Layout(c, g).value;
      next[st.start - 1..st.start - 1 + st.len] == b[st.start - 1..st.start - 1 + st.len]
  {
    var st := Layout(c, g).value;
    var lo, hi := st.start - 1, st.start - 1 + st.len;
    forall i | lo <= i < hi
      ensures next[i] == b[i]
    {
      assert !InRange(c, f, i);
      EncodeFieldKeeps(b, f, c, i);
    }
  }

  /**
   * The row handed to the sink: encoding fails exactly when the tag is not
   * two bytes or a field fails; otherwise the row is 162 bytes, ends in the
   * letters `r` `n` whatever the fields wrote, and bytes 0-159 are the
   * buffer the field loop left.
   */
  lemma RowShape(tag: Bytes, fields: seq<Field>, c: FieldCodec)
    ensures EncodeRow(tag, fields, c).Err? <==>
      |tag| != 2 || EncodeFields(Header(tag), fields, c).Err?
    ensures |tag| != 2 ==> EncodeRow(tag, fields, c) == Err(InvalidTag(|tag|))
    ensures EncodeRow(tag, fields, c).Ok? ==>
      var row := EncodeRow(tag, fields, c).value;
      |row| == ROW_LEN && row[160] == 'r' && row[161] == 'n' &&
      row[..160] == EncodeFields(Header(tag), fields, c).value[..160]
  {
    if |tag| == 2 && EncodeFields(Header(tag), fields, c).Ok? {
      var b := EncodeFields(Header(tag), fields, c).value;
      var row := b[160 := 'r'][161 := 'n'];
      assert row[..160] == b[..160];
    }
  }

  /**
   * Bytes that no field covers keep the header: the tag in bytes 0 and 1,
   * a blank in bytes 2-159.
   */
  lemma RowUnwrittenBytes(tag: Bytes, fields: seq<Field>, c: FieldCodec, i: nat)
    requires KeepsWidth(c) && EncodeRow(tag, fields, c).Ok? && i < 160 && Uncovered(c, fields, i)
    ensures EncodeRow(tag, fields, c).value[i] == if i < 2 then tag[i] else BLANK
  {
    RowShape(tag, fields, c);
    EncodeFieldsFrame(Header(tag), fields, c, i);
    assert Header(tag)[i] == if i < 2 then tag[i] else Blanks(ROW_LEN - 2)[i - 2];
  }

  /** Bytes 2-159 of the header are blank. */
  lemma HeaderBlanks(tag: Bytes, lo: nat, hi: nat)
    requires |tag| == 2 && 2 <= lo <= hi <= ROW_LEN
    ensures Header(tag)[lo..hi] == Blanks(hi - lo)
  {
    var h := Header(tag);
    assert forall k :: lo <= k < hi ==> h[k] == Blanks(ROW_LEN - 2)[k - 2];
  }

  /** Below byte 160 the row is the buffer the field loop left. */
  lemma RowSlice(tag: Bytes, fields: seq<Field>, c: FieldCodec, lo: nat, hi: nat)
    requires EncodeRow(tag, fields, c).Ok? && lo <= hi <= 160
    ensures |tag| == 2 && EncodeFields(Header(tag), fields, c).Ok?
    ensures EncodeRow(tag, fields, c).value[lo..hi] == EncodeFields(Header(tag), fields, c).value[lo..hi]
  {
    RowShape(tag, fields, c);
    var b := EncodeFields(Header(tag), fields, c).value;
    var row := EncodeRow(tag, fields, c).value;
    assert row[lo..hi] == row[..160][lo..hi];
    assert b[lo..hi] == b[..160][lo..hi];
  }

  /**
   * With disjoint layouts each field's slice of the row holds its writer's
   * output on a blank slice of that width, when the slice keeps clear of
   * bytes 0-1 and 160-161.
   */
  lemma RowFieldContent(tag: Bytes, fields: seq<Field>, c: FieldCodec, j: nat)
    requires KeepsWidth(c) && EncodeRow(tag, fields, c).Ok? && Disjoint(c, fields) && j < |fields| && InsideRow(c, fields[j])
    ensures BlankWrite(c, fields[j]).Ok?
    ensures var st := Layout(c, fields[j]).value;
      EncodeRow(tag, fields, c).value[st.start - 1..st.start - 1 + st.len] == BlankWrite(c, fields[j]).value
  {
    var st := Layout(c, fields[j]).value;
    var lo, hi := st.start - 1, st.start - 1 + st.len;
    RowSlice(tag, fields, c, lo, hi);
    BlankSlice(tag, fields[j], c);
    FieldContent(Header(tag), fields, c, j);
    var fin := EncodeFields(Header(tag), fields, c).value;
    assert SliceWritten(Header(tag), fin, fields[j], c);
    assert fin[lo..hi] == c.write(Header(tag)[lo..hi], fields[j].value).value;
  }

  /** On the header, a field inside the row gets a blank slice of its width. */
  lemma BlankSlice(tag: Bytes, f: Field, c: FieldCodec)
    requires |tag| == 2 && InsideRow(c, f)
    ensures Placed(c, f)
    ensures var st := Layout(c, f).value;
      c.write(Header(tag)[st.start - 1..st.start - 1 + st.len], f.value) == BlankWrite(c, f)
  {
    var st := Layout(c, f).value;
    HeaderBlanks(tag, st.start - 1, st.start - 1 + st.len);
  }

  /**
   * A row of disjoint fields inside bytes 2-159 encodes exactly when every
   * field's value fits a blank slice of its width.
   */
  lemma RowSucceeds(tag: Bytes, fields: seq<Field>, c: FieldCodec)
    requires |tag| == 2 && KeepsWidth(c) && Disjoint(c, fields)
    requires forall j :: 0 <= j < |fields| ==> InsideRow(c, fields[j])
    ensures EncodeRow(tag, fields, c).Ok? <==> forall j :: 0 <= j < |fields| ==> BlankWrite(c, fields[j]).Ok?
  {
    var h := Header(tag);
    forall j | 0 <= j < |fields|
      ensures Placed(c, fields[j])
      ensures WritesOn(h, fields[j], c) <==> BlankWrite(c, fields[j]).Ok?
    {
      BlankSlice(tag, fields[j], c);
    }
    EncodeFieldsSucceeds(h, fields, c);
    RowShape(tag, fields, c);
  }

  /** The type switch keeps every slice's width. */
  lemma TypeSwitchKeepsWidth(num: NumericText)
    ensures KeepsWidth(Sdif(num))
  {
    forall dst, v
      ensures Sdif(num).write(dst, v).Ok? ==> |Sdif(num).write(dst, v).value| == |dst|
    {
      assert Sdif(num).write(dst, v) == WriteValue(dst, v, num);
    }
  }
}
