/**
 The GGUF file the fixture generator writes, and a reader of that format: what is
 recorded in the header is where the tensors are.
 */
module Gguf {
  import opened Integers
  import opened Wrappers

  type bytes = seq<byte>

  const ALIGNMENT: nat := 32
  const MAGIC: nat := 0x46554747
  const VERSION: nat := 3

  // ----- little-endian numbers

  function Power256(width: nat): (p: nat)
    ensures p > 0
  {
    if width == 0 then 1 else 256 * Power256(width - 1)
  }

  /** `struct.pack` of an unsigned number. */
  function Number(n: nat, width: nat): (r: bytes)
    ensures |r| == width
  {
    if width == 0 then [] else [n % 256] + Number(n / 256, width - 1)
  }

  function NumberOf(bs: bytes): nat {
    if bs == [] then 0 else bs[0] + 256 * NumberOf(bs[1..])
  }

  lemma {:induction false} NumberReadsBack(n: nat, width: nat)
    requires n < Power256(width)
    ensures NumberOf(Number(n, width)) == n
  {
    if width > 0 {
      NumberReadsBack(n / 256, width - 1);
    }
  }

  lemma WordSizes()
    ensures Power256(1) == 256 && Power256(4) == U32_END && Power256(8) == U64_END
  {
  }

  // ----- what a file holds

  /** Metadata values; 32-bit numbers and floats are their patterns. */
  datatype Value =
    | U32(pattern: nat)
    | I32(pattern: nat)
    | F32(pattern: nat)
    | Bool(value: bool)
    | Text(text: bytes)
    | TextArray(texts: seq<bytes>)
    | NumberArray(kind: nat, patterns: seq<nat>)

  datatype Entry = Entry(key: bytes, value: Value)

  datatype Tensor = Tensor(name: bytes, dims: seq<nat>, ggmlType: nat, payload: bytes)

  const T_UINT32 := 4
  const T_INT32 := 5
  const T_FLOAT32 := 6
  const T_BOOL := 7
  const T_STRING := 8
  const T_ARRAY := 9

  function TypeOf(v: Value): nat {
    match v
    case U32(_) => T_UINT32
    case I32(_) => T_INT32
    case F32(_) => T_FLOAT32
    case Bool(_) => T_BOOL
    case Text(_) => T_STRING
    case TextArray(_) => T_ARRAY
    case NumberArray(_, _) => T_ARRAY
  }

  /** What `struct.pack` can write; anything larger it refuses. */
  predicate ValueFits(v: Value) {
    match v
    case U32(p) => p < U32_END
    case I32(p) => p < U32_END
    case F32(p) => p < U32_END
    case Bool(_) => true
    case Text(t) => |t| < U64_END
    case TextArray(ts) => |ts| < U64_END && forall i :: 0 <= i < |ts| ==> |ts[i]| < U64_END
    case NumberArray(kind, ps) =>
      (kind == T_INT32 || kind == T_FLOAT32) && |ps| < U64_END && forall i :: 0 <= i < |ps| ==> ps[i] < U32_END
  }

  predicate EntryFits(e: Entry) {
    |e.key| < U64_END && ValueFits(e.value)
  }

  predicate TensorFits(t: Tensor) {
    && |t.name| < U64_END && |t.dims| < U32_END && t.ggmlType < U32_END
    && forall i :: 0 <= i < |t.dims| ==> t.dims[i] < U64_END
  }

  // ----- writing

  function String(s: bytes): bytes {
    Number(|s|, 8) + s
  }

  function Strings(ss: seq<bytes>): bytes {
    if ss == [] then [] else String(ss[0]) + Strings(ss[1..])
  }

  function Numbers(ns: seq<nat>, width: nat): bytes {
    if ns == [] then [] else Number(ns[0], width) + Numbers(ns[1..], width)
  }

  function ValueBytes(v: Value): bytes {
    match v
    case U32(p) => Number(p, 4)
    case I32(p) => Number(p, 4)
    case F32(p) => Number(p, 4)
    case Bool(b) => [if b then 1 else 0]
    case Text(t) => String(t)
    case TextArray(ts) => Number(T_STRING, 4) + (Number(|ts|, 8) + Strings(ts))
    case NumberArray(kind, ps) => Number(kind, 4) + (Number(|ps|, 8) + Numbers(ps, 4))
  }

  function EntryBytes(e: Entry): bytes {
    String(e.key) + (Number(TypeOf(e.value), 4) + ValueBytes(e.value))
  }

  function Entries(es: seq<Entry>): bytes {
    if es == [] then [] else EntryBytes(es[0]) + Entries(es[1..])
  }

  function Padding(n: nat): (p: nat)
    ensures p < ALIGNMENT && (n + p) % ALIGNMENT == 0
  {
    (ALIGNMENT - n % ALIGNMENT) % ALIGNMENT
  }

  /** `(n + 31) // 32 * 32`: the next multiple of the alignment. */
  function Aligned(n: nat): (r: nat)
    ensures r == n + Padding(n)
  {
    (n + ALIGNMENT - 1) / ALIGNMENT * ALIGNMENT
  }

  function Zeros(n: nat): (z: bytes)
    ensures |z| == n
  {
    seq(n, _ => 0)
  }

  function Padded(bs: bytes): (r: bytes)
    ensures |r| == Aligned(|bs|)
  {
    bs + Zeros(Padding(|bs|))
  }

  function InfoBytes(t: Tensor, offset: nat): bytes {
    String(t.name) + (Number(|t.dims|, 4) + (Numbers(t.dims, 8) + (Number(t.ggmlType, 4) + Number(offset, 8))))
  }

  /** The tensor records, the first at `offset` and each next one behind the padded payload before it. */
  function Infos(table: seq<Tensor>, offset: nat): bytes {
    if table == [] then []
    else InfoBytes(table[0], offset) + Infos(table[1..], offset + Aligned(|table[0].payload|))
  }

  function Header(entries: seq<Entry>, table: seq<Tensor>): bytes {
    Number(MAGIC, 4) + (Number(VERSION, 4) + (Number(|table|, 8) + (Number(|entries|, 8)
      + (Entries(entries) + Infos(table, 0)))))
  }

  function Body(table: seq<Tensor>): bytes {
    if table == [] then [] else Padded(table[0].payload) + Body(table[1..])
  }

  function File(entries: seq<Entry>, table: seq<Tensor>): bytes {
    Padded(Header(entries, table)) + Body(table)
  }

  lemma EntriesFrom(entries: seq<Entry>, i: nat, header: bytes, rest: bytes)
    requires i < |entries|
    ensures header + (Entries(entries[i..]) + rest) == header + EntryBytes(entries[i]) + (Entries(entries[i + 1..]) + rest)
  {
    hide EntryBytes;
    assert entries[i..][0] == entries[i] && entries[i..][1..] == entries[i + 1..];
  }

  lemma InfosFrom(table: seq<Tensor>, i: nat, offset: nat, header: bytes)
    requires i < |table|
    ensures header + Infos(table[i..], offset)
         == header + InfoBytes(table[i], offset) + Infos(table[i + 1..], offset + Aligned(|table[i].payload|))
  {
    hide InfoBytes;
    assert table[i..][0] == table[i] && table[i..][1..] == table[i + 1..];
  }

  lemma BodyFrom(table: seq<Tensor>, i: nat, body: bytes)
    requires i < |table|
    ensures body + Body(table[i..]) == body + table[i].payload + Zeros(Padding(|table[i].payload|)) + Body(table[i + 1..])
  {
  }

  /** `build`: the header, growing record by record beside a running offset, its
      padding, and then the payloads, each with its own. */
  method Build(entries: seq<Entry>, table: seq<Tensor>) returns (file: bytes)
    ensures file == File(entries, table)
  {
    var header := BuildHeader(entries, table);
    header := header + Zeros(Padding(|header|));
    hide Header, Body, Zeros, Padding;
    var body: bytes := [];
    assert table[0..] == table && body + Body(table) == Body(table);
    for i := 0 to |table|
      invariant body + Body(table[i..]) == Body(table)
    {
      BodyFrom(table, i, body);
      body := body + table[i].payload;
      body := body + Zeros(Padding(|table[i].payload|));
    }
    assert table[|table|..] == [];
    EmptyBody(body);
    file := header + body;
  }

  lemma EmptyBody(body: bytes)
    ensures body + Body([]) == body
  {
  }

  method BuildHeader(entries: seq<Entry>, table: seq<Tensor>) returns (header: bytes)
    ensures header == Header(entries, table)
  {
    hide *;
    header := BuildMetadata(entries, table);
    var offset: nat := 0;
    assert table[0..] == table;
    for i := 0 to |table|
      invariant header + Infos(table[i..], offset) == Header(entries, table)
    {
      InfosFrom(table, i, offset, header);
      header := header + InfoBytes(table[i], offset);
      offset := offset + Aligned(|table[i].payload|);
    }
    NoInfosLeft(table, offset, header);
  }

  method BuildMetadata(entries: seq<Entry>, table: seq<Tensor>) returns (header: bytes)
    ensures header + Infos(table, 0) == Header(entries, table)
  {
    hide *;
    header := Number(MAGIC, 4) + Number(VERSION, 4) + Number(|table|, 8) + Number(|entries|, 8);
    HeaderFrom(entries, table);
    assert entries[0..] == entries;
    for i := 0 to |entries|
      invariant header + (Entries(entries[i..]) + Infos(table, 0)) == Header(entries, table)
    {
      EntriesFrom(entries, i, header, Infos(table, 0));
      header := header + EntryBytes(entries[i]);
    }
    NoEntriesLeft(entries, Infos(table, 0));
  }

  lemma HeaderFrom(entries: seq<Entry>, table: seq<Tensor>)
    ensures Number(MAGIC, 4) + Number(VERSION, 4) + Number(|table|, 8) + Number(|entries|, 8)
            + (Entries(entries) + Infos(table, 0)) == Header(entries, table)
  {
    hide Number, Entries, Infos;
  }

  lemma NoInfosLeft(table: seq<Tensor>, offset: nat, header: bytes)
    ensures header + Infos(table[|table|..], offset) == header
  {
  }

  lemma NoEntriesLeft(entries: seq<Entry>, rest: bytes)
    ensures Entries(entries[|entries|..]) + rest == rest
  {
  }

  // ----- reading

  /** A tensor record as a reader sees it. */
  datatype Info = Info(name: bytes, dims: seq<nat>, ggmlType: nat, offset: nat)

  datatype Model = Model(entries: seq<Entry>, infos: seq<Info>, dataStart: nat)

  /** What was read, and the bytes behind it. */
  type Read<+T> = Option<(T, bytes)>

  function GetNumber(bs: bytes, width: nat): Read<nat> {
    if |bs| < width then None else Some((NumberOf(bs[..width]), bs[width..]))
  }

  function GetString(bs: bytes): Read<bytes> {
    match GetNumber(bs, 8)
    case None => None
    case Some((n, rest)) => if |rest| < n then None else Some((rest[..n], rest[n..]))
  }

  function GetStrings(bs: bytes, count: nat): Read<seq<bytes>>
    decreases count
  {
    if count == 0 then Some(([], bs))
    else match GetString(bs)
      case None => None
      case Some((s, rest)) =>
        match GetStrings(rest, count - 1)
        case None => None
        case Some((ss, rest)) => Some(([s] + ss, rest))
  }

  function GetNumbers(bs: bytes, width: nat, count: nat): Read<seq<nat>>
    decreases count
  {
    if count == 0 then Some(([], bs))
    else match GetNumber(bs, width)
      case None => None
      case Some((n, rest)) =>
        match GetNumbers(rest, width, count - 1)
        case None => None
        case Some((ns, rest)) => Some(([n] + ns, rest))
  }

  function GetArray(bs: bytes): Read<Value> {
    match GetNumber(bs, 4)
    case None => None
    case Some((kind, rest)) =>
      match GetNumber(rest, 8)
      case None => None
      case Some((count, rest)) =>
        if kind == T_STRING then
          (match GetStrings(rest, count) case None => None case Some((ss, rest)) => Some((TextArray(ss), rest)))
        else
          (match GetNumbers(rest, 4, count) case None => None case Some((ns, rest)) => Some((NumberArray(kind, ns), rest)))
  }

  function GetValue(bs: bytes, kind: nat): Read<Value> {
    if kind == T_ARRAY then GetArray(bs)
    else if kind == T_STRING then
      (match GetString(bs) case None => None case Some((s, rest)) => Some((Text(s), rest)))
    else if kind == T_BOOL then
      (match GetNumber(bs, 1) case None => None case Some((n, rest)) => Some((Bool(n != 0), rest)))
    else
      match GetNumber(bs, 4)
      case None => None
      case Some((p, rest)) =>
        if kind == T_UINT32 then Some((U32(p), rest))
        else if kind == T_INT32 then Some((I32(p), rest))
        else if kind == T_FLOAT32 then Some((F32(p), rest))
        else None
  }

  function GetEntry(bs: bytes): Read<Entry> {
    match GetString(bs)
    case None => None
    case Some((key, rest)) =>
      match GetNumber(rest, 4)
      case None => None
      case Some((kind, rest)) =>
        match GetValue(rest, kind)
        case None => None
        case Some((value, rest)) => Some((Entry(key, value), rest))
  }

  function GetEntries(bs: bytes, count: nat): Read<seq<Entry>>
    decreases count
  {
    if count == 0 then Some(([], bs))
    else match GetEntry(bs)
      case None => None
      case Some((e, rest)) =>
        match GetEntries(rest, count - 1)
        case None => None
        case Some((es, rest)) => Some(([e] + es, rest))
  }

  function GetInfo(bs: bytes): Read<Info> {
    match GetString(bs)
    case None => None
    case Some((name, rest)) =>
      match GetNumber(rest, 4)
      case None => None
      case Some((count, rest)) =>
        match GetNumbers(rest, 8, count)
        case None => None
        case Some((dims, rest)) =>
          match GetNumber(rest, 4)
          case None => None
          case Some((ggmlType, rest)) =>
            match GetNumber(rest, 8)
            case None => None
            case Some((offset, rest)) => Some((Info(name, dims, ggmlType, offset), rest))
  }

  function GetInfos(bs: bytes, count: nat): Read<seq<Info>>
    decreases count
  {
    if count == 0 then Some(([], bs))
    else match GetInfo(bs)
      case None => None
      case Some((info, rest)) =>
        match GetInfos(rest, count - 1)
        case None => None
        case Some((infos, rest)) => Some(([info] + infos, rest))
  }

  /** Reads a file's header; the tensor data starts at the next multiple of the alignment behind it. */
  function ReadModel(file: bytes): Option<Model> {
    match GetNumber(file, 4)
    case None => None
    case Some((magic, rest)) =>
      match GetNumber(rest, 4)
      case None => None
      case Some((version, rest)) =>
        if magic != MAGIC || version != VERSION then None
        else match GetNumber(rest, 8)
          case None => None
          case Some((tensors, rest)) =>
            match GetNumber(rest, 8)
            case None => None
            case Some((count, rest)) =>
              match GetEntries(rest, count)
              case None => None
              case Some((entries, rest)) =>
                match GetInfos(rest, tensors)
                case None => None
                case Some((infos, rest)) =>
                  if |rest| <= |file| then Some(Model(entries, infos, Aligned(|file| - |rest|))) else None
  }

  // ----- the reader undoes the writer

  lemma NumberThen(n: nat, width: nat, rest: bytes)
    requires n < Power256(width)
    ensures GetNumber(Number(n, width) + rest, width) == Some((n, rest))
  {
  }

  lemma StringThen(s: bytes, rest: bytes)
    requires |s| < U64_END
    ensures GetString(String(s) + rest) == Some((s, rest))
  {
    hide GetNumber, Number;
    WordSizes();
    assert String(s) + rest == Number(|s|, 8) + (s + rest);
    NumberThen(|s|, 8, s + rest);
    assert (s + rest)[..|s|] == s && (s + rest)[|s|..] == rest;
  }

  lemma {:induction false} StringsThen(ss: seq<bytes>, rest: bytes)
    requires forall i :: 0 <= i < |ss| ==> |ss[i]| < U64_END
    ensures GetStrings(Strings(ss) + rest, |ss|) == Some((ss, rest))
  {
    hide GetString, String;
    if ss == [] {
      assert Strings(ss) + rest == rest;
    } else {
      assert Strings(ss) + rest == String(ss[0]) + (Strings(ss[1..]) + rest);
      StringThen(ss[0], Strings(ss[1..]) + rest);
      StringsThen(ss[1..], rest);
      assert [ss[0]] + ss[1..] == ss;
    }
  }

  lemma {:induction false} NumbersThen(ns: seq<nat>, width: nat, rest: bytes)
    requires forall i :: 0 <= i < |ns| ==> ns[i] < Power256(width)
    ensures GetNumbers(Numbers(ns, width) + rest, width, |ns|) == Some((ns, rest))
  {
    hide GetNumber, Number, Power256;
    if ns == [] {
      assert Numbers(ns, width) + rest == rest;
    } else {
      assert Numbers(ns, width) + rest == Number(ns[0], width) + (Numbers(ns[1..], width) + rest);
      NumberThen(ns[0], width, Numbers(ns[1..], width) + rest);
      NumbersThen(ns[1..], width, rest);
      assert [ns[0]] + ns[1..] == ns;
    }
  }

  lemma ArrayThen(v: Value, rest: bytes)
    requires ValueFits(v) && (v.TextArray? || v.NumberArray?)
    ensures GetArray(ValueBytes(v) + rest) == Some((v, rest))
  {
    hide GetNumber, Number, GetStrings, GetNumbers, Strings, Numbers, Power256;
    WordSizes();
    var kind, count := if v.TextArray? then T_STRING else v.kind, if v.TextArray? then |v.texts| else |v.patterns|;
    var items := if v.TextArray? then Strings(v.texts) else Numbers(v.patterns, 4);
    assert ValueBytes(v) + rest == Number(kind, 4) + (Number(count, 8) + (items + rest));
    NumberThen(kind, 4, Number(count, 8) + (items + rest));
    NumberThen(count, 8, items + rest);
    if v.TextArray? {
      StringsThen(v.texts, rest);
    } else {
      NumbersThen(v.patterns, 4, rest);
    }
  }

  lemma ValueThen(v: Value, rest: bytes)
    requires ValueFits(v)
    ensures GetValue(ValueBytes(v) + rest, TypeOf(v)) == Some((v, rest))
  {
    hide GetNumber, Number, GetString, String, GetArray, Power256;
    WordSizes();
    match v
    case U32(p) => NumberThen(p, 4, rest);
    case I32(p) => NumberThen(p, 4, rest);
    case F32(p) => NumberThen(p, 4, rest);
    case Bool(b) => OneByteThen(if b then 1 else 0, rest);
    case Text(t) => StringThen(t, rest);
    case TextArray(_) => ArrayThen(v, rest);
    case NumberArray(_, _) => ArrayThen(v, rest);
  }

  lemma OneByteThen(b: byte, rest: bytes)
    ensures GetNumber([b] + rest, 1) == Some((b, rest))
  {
    var bs := [b] + rest;
    assert bs[..1] == [b] && bs[1..] == rest && [b][1..] == [];
    assert NumberOf([]) == 0 && NumberOf([b]) == b;
  }

  lemma EntryThen(e: Entry, rest: bytes)
    requires EntryFits(e)
    ensures GetEntry(EntryBytes(e) + rest) == Some((e, rest))
  {
    hide GetNumber, Number, GetString, String, GetValue, ValueBytes, Power256;
    WordSizes();
    var kind := Number(TypeOf(e.value), 4);
    assert EntryBytes(e) + rest == String(e.key) + (kind + (ValueBytes(e.value) + rest));
    StringThen(e.key, kind + (ValueBytes(e.value) + rest));
    NumberThen(TypeOf(e.value), 4, ValueBytes(e.value) + rest);
    ValueThen(e.value, rest);
  }

  lemma {:induction false} EntriesThen(es: seq<Entry>, rest: bytes)
    requires forall i :: 0 <= i < |es| ==> EntryFits(es[i])
    ensures GetEntries(Entries(es) + rest, |es|) == Some((es, rest))
  {
    hide GetEntry, EntryBytes, EntryFits;
    if es == [] {
      assert Entries(es) + rest == rest;
    } else {
      assert Entries(es) + rest == EntryBytes(es[0]) + (Entries(es[1..]) + rest);
      EntryThen(es[0], Entries(es[1..]) + rest);
      EntriesThen(es[1..], rest);
      assert [es[0]] + es[1..] == es;
    }
  }

  lemma InfoThen(t: Tensor, offset: nat, rest: bytes)
    requires TensorFits(t) && offset < U64_END
    ensures GetInfo(InfoBytes(t, offset) + rest) == Some((Info(t.name, t.dims, t.ggmlType, offset), rest))
  {
    hide GetNumber, Number, GetString, String, GetNumbers, Numbers, Power256;
    WordSizes();
    var count, dims := Number(|t.dims|, 4), Numbers(t.dims, 8);
    var kind, place := Number(t.ggmlType, 4), Number(offset, 8);
    assert InfoBytes(t, offset) + rest == String(t.name) + (count + (dims + (kind + (place + rest))));
    StringThen(t.name, count + (dims + (kind + (place + rest))));
    NumberThen(|t.dims|, 4, dims + (kind + (place + rest)));
    NumbersThen(t.dims, 8, kind + (place + rest));
    NumberThen(t.ggmlType, 4, place + rest);
    NumberThen(offset, 8, rest);
  }

  /** Where the payload of tensor `i` is to be found, counted from the start of the data. */
  function Offset(table: seq<Tensor>, i: nat): nat
    requires i <= |table|
  {
    if i == 0 then 0 else Offset(table, i - 1) + Aligned(|table[i - 1].payload|)
  }

  function InfosOf(table: seq<Tensor>, offset: nat): (r: seq<Info>)
    ensures |r| == |table|
  {
    if table == [] then []
    else [Info(table[0].name, table[0].dims, table[0].ggmlType, offset)]
         + InfosOf(table[1..], offset + Aligned(|table[0].payload|))
  }

  predicate OffsetsFit(table: seq<Tensor>, offset: nat) {
    table == [] || (offset < U64_END && OffsetsFit(table[1..], offset + Aligned(|table[0].payload|)))
  }

  lemma {:induction false} InfosThen(table: seq<Tensor>, offset: nat, rest: bytes)
    requires (forall i :: 0 <= i < |table| ==> TensorFits(table[i])) && OffsetsFit(table, offset)
    ensures GetInfos(Infos(table, offset) + rest, |table|) == Some((InfosOf(table, offset), rest))
  {
    hide GetInfo, InfoBytes, TensorFits;
    if table == [] {
      assert Infos(table, offset) + rest == rest;
    } else {
      var next := offset + Aligned(|table[0].payload|);
      assert Infos(table, offset) + rest == InfoBytes(table[0], offset) + (Infos(table[1..], next) + rest);
      InfoThen(table[0], offset, Infos(table[1..], next) + rest);
      InfosThen(table[1..], next, rest);
    }
  }

  ghost predicate Writable(entries: seq<Entry>, table: seq<Tensor>) {
    && |entries| < U64_END && |table| < U64_END
    && (forall i :: 0 <= i < |entries| ==> EntryFits(entries[i]))
    && (forall i :: 0 <= i < |table| ==> TensorFits(table[i]))
    && OffsetsFit(table, 0)
  }

  lemma {:induction false} InfosOfAt(table: seq<Tensor>, offset: nat, i: nat)
    requires i < |table|
    ensures InfosOf(table, offset)[i] ==
            Info(table[i].name, table[i].dims, table[i].ggmlType, offset + Offset(table, i))
  {
    if i > 0 {
      InfosOfAt(table[1..], offset + Aligned(|table[0].payload|), i - 1);
      OffsetFromSecond(table, i);
    }
  }

  lemma {:induction false} OffsetFromSecond(table: seq<Tensor>, i: nat)
    requires 0 < i <= |table|
    ensures Offset(table, i) == Aligned(|table[0].payload|) + Offset(table[1..], i - 1)
  {
    if i > 1 {
      OffsetFromSecond(table, i - 1);
    }
  }

  lemma {:induction false} OffsetsAreAligned(table: seq<Tensor>, i: nat)
    requires i <= |table|
    ensures Offset(table, i) % ALIGNMENT == 0
  {
    if i > 0 {
      OffsetsAreAligned(table, i - 1);
    }
  }

  lemma {:induction false} OffsetsAscend(table: seq<Tensor>, i: nat, j: nat)
    requires i < j <= |table|
    ensures Offset(table, i) + |table[i].payload| <= Offset(table, j)
  {
    if i < j - 1 {
      OffsetsAscend(table, i, j - 1);
    }
  }

  lemma SliceBehind(first: bytes, rest: bytes, from: nat, to: nat)
    requires from <= to <= |rest|
    ensures (first + rest)[|first| + from..|first| + to] == rest[from..to]
  {
  }

  lemma {:induction false} PayloadInBody(table: seq<Tensor>, i: nat)
    requires i < |table|
    ensures Offset(table, i) + |table[i].payload| <= |Body(table)|
    ensures Body(table)[Offset(table, i)..Offset(table, i) + |table[i].payload|] == table[i].payload
  {
    var first, rest := Padded(table[0].payload), Body(table[1..]);
    assert Body(table) == first + rest && first[..|table[0].payload|] == table[0].payload;
    if i == 0 {
      assert Offset(table, 0) == 0;
      hide *;
      assert (first + rest)[..|table[0].payload|] == table[0].payload;
    } else {
      hide *;
      PayloadInBody(table[1..], i - 1);
      OffsetFromSecond(table, i);
      var from := Offset(table[1..], i - 1);
      SliceBehind(first, rest, from, from + |table[i].payload|);
    }
  }

  lemma {:induction false} BodyLength(table: seq<Tensor>)
    ensures |Body(table)| == Offset(table, |table|)
  {
    if table != [] {
      BodyLength(table[1..]);
      OffsetFromSecond(table, |table|);
    }
  }

  /** The reader gets back the metadata and every tensor record as they were written. */
  lemma HeaderReadsBack(entries: seq<Entry>, table: seq<Tensor>)
    requires Writable(entries, table)
    ensures ReadModel(File(entries, table)) ==
            Some(Model(entries, InfosOf(table, 0), |Padded(Header(entries, table))|))
  {
    hide GetNumber, Number, GetEntries, Entries, GetInfos, Infos, EntryFits, TensorFits, Power256, Body;
    WordSizes();
    var file, header := File(entries, table), Header(entries, table);
    var after := Zeros(Padding(|header|)) + Body(table);
    assert file == header + after;
    var records := Infos(table, 0) + after;
    var counted := Number(|entries|, 8) + (Entries(entries) + records);
    var versioned := Number(VERSION, 4) + (Number(|table|, 8) + counted);
    assert file == Number(MAGIC, 4) + versioned;
    NumberThen(MAGIC, 4, versioned);
    NumberThen(VERSION, 4, Number(|table|, 8) + counted);
    NumberThen(|table|, 8, counted);
    NumberThen(|entries|, 8, Entries(entries) + records);
    EntriesThen(entries, records);
    InfosThen(table, 0, after);
    assert |file| - |after| == |header|;
  }

  /** The file begins with its magic and the format version, low byte first. */
  lemma FileIsMarked(entries: seq<Entry>, table: seq<Tensor>)
    ensures |File(entries, table)| >= 8
    ensures File(entries, table)[..8] == ['G' as int, 'G' as int, 'U' as int, 'F' as int, 3, 0, 0, 0]
  {
    hide Entries, Infos, Body, Zeros;
    assert Number(MAGIC, 4) == [0x47, 0x47, 0x55, 0x46] by {
      assert MAGIC / 256 == 0x465547 && MAGIC / 256 / 256 == 0x4655 && MAGIC / 256 / 256 / 256 == 0x46;
    }
    assert Number(VERSION, 4) == [3, 0, 0, 0];
    hide Number;
    var header := Header(entries, table);
    assert header[..8] == Number(MAGIC, 4) + Number(VERSION, 4);
    assert File(entries, table)[..8] == header[..8];
  }

  /** A reader that follows the header finds each tensor: the data starts on an
      alignment boundary, every recorded offset is a multiple of the alignment, the
      payload recorded there is the tensor's, payloads do not overlap, and the file
      ends where the last one's padding does. */
  lemma RecordedOffsetsFindThePayloads(entries: seq<Entry>, table: seq<Tensor>, i: nat)
    requires Writable(entries, table) && i < |table|
    ensures var file := File(entries, table);
            && ReadModel(file).Some?
            && var model := ReadModel(file).value;
               && |model.infos| == |table| && model.entries == entries
               && model.dataStart % 32 == 0
               && var info := model.infos[i];
                  var from := model.dataStart + info.offset;
                  && info.name == table[i].name && info.dims == table[i].dims && info.ggmlType == table[i].ggmlType
                  && info.offset % 32 == 0
                  && from + |table[i].payload| <= |file|
                  && file[from..from + |table[i].payload|] == table[i].payload
                  && (forall j :: i < j < |table| ==> info.offset + |table[i].payload| <= model.infos[j].offset)
                  && |file| == model.dataStart + Offset(table, |table|)
  {
    hide ReadModel, Header, Infos, Padded;
    HeaderReadsBack(entries, table);
    var file, start := File(entries, table), |Padded(Header(entries, table))|;
    InfosOfAt(table, 0, i);
    OffsetsAreAligned(table, i);
    PayloadInBody(table, i);
    BodyLength(table);
    var from, to := Offset(table, i), Offset(table, i) + |table[i].payload|;
    SliceBehind(Padded(Header(entries, table)), Body(table), from, to);
    forall j | i < j < |table| ensures from + |table[i].payload| <= InfosOf(table, 0)[j].offset {
      InfosOfAt(table, 0, j);
      OffsetsAscend(table, i, j);
    }
  }
}
