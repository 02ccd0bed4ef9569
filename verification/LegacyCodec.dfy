/** The hand-written CBOR codec that ANTIE keeps as its compatibility oracle.

    JSON values are serde_json's: a number is an unsigned or a negative 64-bit integer or a finite
    double, kept here as its bit pattern; an object is a map ordered by key. */
module LegacyCodec {

  newtype byte = n: int | 0 <= n < 256

  const MAX_CBOR_DEPTH: nat := 32
  const MAX_CBOR_ELEMENTS: nat := 100_000

  const U64: nat := 0x1_0000_0000_0000_0000
  const I64: nat := 0x8000_0000_0000_0000

  datatype Number = PosInt(u: nat) | NegInt(i: int) | Float(bits: nat)

  datatype Value =
    | Null
    | Bool(b: bool)
    | Num(n: Number)
    | Text(utf8: seq<byte>)
    | Array(items: seq<Value>)
    | Object(entries: seq<Entry>)

  datatype Entry = Entry(key: seq<byte>, value: Value)

  // ---------------------------------------------------------------- heads

  function Pow256(k: nat): (p: nat)
    ensures p >= 1
  {
    if k == 0 then 1 else 256 * Pow256(k - 1)
  }

  /** `to_be_bytes` of a `k`-byte integer. */
  function BigEndian(n: nat, k: nat): (bytes: seq<byte>)
    ensures |bytes| == k
    decreases k
  {
    if k == 0 then [] else BigEndian(n / 256, k - 1) + [(n % 256) as byte]
  }

  function FromBigEndian(bytes: seq<byte>): nat {
    if bytes == [] then 0
    else 256 * FromBigEndian(bytes[..|bytes| - 1]) + bytes[|bytes| - 1] as nat
  }

  lemma {:induction false} BigEndianRoundTrip(n: nat, k: nat)
    requires n < Pow256(k)
    ensures FromBigEndian(BigEndian(n, k)) == n
    decreases k
  {
    if k > 0 {
      BigEndianRoundTrip(n / 256, k - 1);
      var bytes := BigEndian(n, k);
      assert bytes[..k - 1] == BigEndian(n / 256, k - 1);
    }
  }

  /** How many bytes the argument of a head takes behind the initial byte. */
  function Width(value: nat): nat {
    if value < 24 then 0 else if value < 0x100 then 1 else if value < 0x1_0000 then 2 else if value < 0x1_0000_0000 then 4 else 8
  }

  function EncodeHead(major: nat, value: nat): (head: seq<byte>)
    requires major < 8
    ensures |head| == 1 + Width(value)
  {
    var width := Width(value);
    var info := if width == 0 then value else if width == 1 then 24 else if width == 2 then 25 else if width == 4 then 26 else 27;
    [(32 * major + info) as byte] + BigEndian(value, width)
  }

  const DOUBLE_WIDTH: nat := 8

  datatype Error =
    | TooDeep | EndOfData | TruncatedArgument | IndefiniteLength | ReservedInfo | LengthOverflow
    | LengthBeyondData | InvalidUtf8 | TooManyElements | BadMapKey | BadFloat | UnknownSimple | UnknownMajor

  datatype Decoded<+T> = Ok(value: T, next: nat) | Err(error: Error)

  function DecodeArg(data: seq<byte>, pos: nat, info: nat): (r: Decoded<nat>)
    requires pos <= |data|
    ensures r.Ok? ==> pos <= r.next <= |data|
  {
    if info <= 23 then Ok(info, pos)
    else if info <= 27 then
      var k := if info == 24 then 1 else if info == 25 then 2 else if info == 26 then 4 else 8;
      if pos + k > |data| then Err(TruncatedArgument)
      else Ok(FromBigEndian(data[pos..pos + k]), pos + k)
    else if info == 31 then Err(IndefiniteLength)
    else Err(ReservedInfo)
  }

  // ---------------------------------------------------------------- UTF-8 and object keys

  predicate Continuation(b: byte) { 0x80 <= b < 0xC0 }

  /** Well-formed UTF-8 (Table 3-7 of the Unicode Standard), as `str::from_utf8` accepts it. */
  predicate Utf8(s: seq<byte>) {
    Utf8From(s, 0)
  }

  predicate Utf8From(s: seq<byte>, i: nat)
    decreases |s| - i
  {
    i >= |s| ||
    var n := SequenceLength(s, i);
    n > 0 && i + n <= |s| && Utf8From(s, i + n)
  }

  /** The length of the well-formed sequence at `i`; 0 when there is none. */
  function SequenceLength(s: seq<byte>, i: nat): nat
    requires i < |s|
  {
    var b := s[i];
    if b < 0x80 then 1
    else if 0xC2 <= b < 0xE0 then (if i + 2 <= |s| && Continuation(s[i + 1]) then 2 else 0)
    else if 0xE0 <= b < 0xF0 then
      if i + 3 <= |s| && Continuation(s[i + 1]) && Continuation(s[i + 2]) &&
         (b == 0xE0 ==> s[i + 1] >= 0xA0) && (b == 0xED ==> s[i + 1] < 0xA0) then 3 else 0
    else if 0xF0 <= b < 0xF5 then
      if i + 4 <= |s| && Continuation(s[i + 1]) && Continuation(s[i + 2]) && Continuation(s[i + 3]) &&
         (b == 0xF0 ==> s[i + 1] >= 0x90) && (b == 0xF4 ==> s[i + 1] < 0x90) then 4 else 0
    else 0
  }

  /** The order of strings, byte by byte. */
  predicate Below(a: seq<byte>, b: seq<byte>) {
    BelowFrom(a, b, 0)
  }

  predicate BelowFrom(a: seq<byte>, b: seq<byte>, i: nat)
    decreases |b| - i
  {
    i < |b| && (i >= |a| || a[i] < b[i] || (a[i] == b[i] && BelowFrom(a, b, i + 1)))
  }

  /** `Map::insert`: the value of a key already present is replaced. */
  function Insert(entries: seq<Entry>, key: seq<byte>, value: Value): seq<Entry> {
    if entries == [] then [Entry(key, value)]
    else if key == entries[0].key then [Entry(key, value)] + entries[1..]
    else if Below(key, entries[0].key) then [Entry(key, value)] + entries
    else [entries[0]] + Insert(entries[1..], key, value)
  }

  function Digits(n: nat): seq<byte>
    decreases n
  {
    (if n < 10 then [] else Digits(n / 10)) + [(48 + n % 10) as byte]
  }

  // ---------------------------------------------------------------- the decoder

  /** The depth cap, and the decimal text of a double, which is the formatter's business. */
  datatype Config = Config(cap: nat, floatText: nat -> seq<byte>)

  function NumberText(n: Number, cfg: Config): seq<byte> {
    match n
    case PosInt(u) => Digits(u)
    case NegInt(i) => if i < 0 then [45] + Digits(-i) else Digits(i)
    case Float(bits) => cfg.floatText(bits)
  }

  /** A double is infinite or not a number when its exponent bits are all ones. */
  predicate Finite(bits: nat) {
    (bits / 0x10_0000_0000_0000) % 0x800 != 0x7FF
  }

  /** `-1i64 - arg as i64`: above the range of i64 the cast wraps, and the result is not negative. */
  function Negative(arg: nat): Number {
    var i := -1 - (if arg < I64 then arg else arg - U64);
    if i >= 0 then PosInt(i) else NegInt(i)
  }

  function BytesAsArray(bytes: seq<byte>): Value {
    Array(seq(|bytes|, i requires 0 <= i < |bytes| => Num(PosInt(bytes[i] as nat))))
  }

  /** The bytes of a string whose length was announced; `usize` arithmetic aborts on overflow. */
  function Slice(data: seq<byte>, pos: nat, len: nat): (r: Decoded<seq<byte>>)
    requires pos <= |data|
    ensures r.Ok? ==> r.next == pos + len <= |data| && r.value == data[pos..r.next]
  {
    if pos + len >= U64 then Err(LengthOverflow)
    else if pos + len > |data| then Err(LengthBeyondData)
    else Ok(data[pos..pos + len], pos + len)
  }

  function DecodeSimple(initial: byte, arg: nat, next: nat): (r: Decoded<Value>)
    ensures r.Ok? ==> r.next == next
  {
    if initial == 0xF4 then Ok(Bool(false), next)
    else if initial == 0xF5 then Ok(Bool(true), next)
    else if initial == 0xF6 || initial == 0xF7 then Ok(Null, next)
    else if initial == 0xFB then
      if Finite(arg) then Ok(Num(Float(arg)), next) else Err(BadFloat)
    else Err(UnknownSimple)
  }

  /** One item at `pos`, nested `depth` deep; `next` is the position behind it. */
  function DecodeItem(data: seq<byte>, pos: nat, depth: nat, cfg: Config): (r: Decoded<Value>)
    requires pos <= |data|
    ensures r.Ok? ==> pos < r.next <= |data|
    decreases |data| - pos, 0
  {
    if depth > cfg.cap then Err(TooDeep)
    else if pos >= |data| then Err(EndOfData)
    else
      var initial := data[pos];
      var head := DecodeArg(data, pos + 1, initial as nat % 32);
      if head.Err? then Err(head.error)
      else DecodeContent(data, initial, head.value, head.next, depth, cfg)
  }

  /** What follows the head of an item with initial byte `initial` and argument `arg`. */
  function DecodeContent(data: seq<byte>, initial: byte, arg: nat, next: nat, depth: nat, cfg: Config): (r: Decoded<Value>)
    requires next <= |data|
    ensures r.Ok? ==> next <= r.next <= |data|
    decreases |data| - next, 3
  {
    var major := initial as nat / 32;
    if major == 0 then Ok(Num(PosInt(arg)), next)
    else if major == 1 then Ok(Num(Negative(arg)), next)
    else if major == 2 then
      var s := Slice(data, next, arg);
      if s.Err? then Err(s.error) else Ok(BytesAsArray(s.value), s.next)
    else if major == 3 then
      var s := Slice(data, next, arg);
      if s.Err? then Err(s.error)
      else if Utf8(s.value) then Ok(Text(s.value), s.next)
      else Err(InvalidUtf8)
    else if major == 4 then
      if arg > MAX_CBOR_ELEMENTS then Err(TooManyElements)
      else
        var items := DecodeItems(data, next, depth + 1, cfg, arg, []);
        if items.Err? then Err(items.error) else Ok(Array(items.value), items.next)
    else if major == 5 then
      if arg > MAX_CBOR_ELEMENTS then Err(TooManyElements)
      else
        var entries := DecodeEntries(data, next, depth + 1, cfg, arg, []);
        if entries.Err? then Err(entries.error) else Ok(Object(entries.value), entries.next)
    else if major == 7 then DecodeSimple(initial, arg, next)
    else Err(UnknownMajor)
  }

  /** `count` more items of an array whose items so far are `done`. */
  function DecodeItems(data: seq<byte>, pos: nat, depth: nat, cfg: Config, count: nat, done: seq<Value>)
    : (r: Decoded<seq<Value>>)
    requires pos <= |data|
    ensures r.Ok? ==> pos <= r.next <= |data|
    decreases |data| - pos, 1
  {
    if count == 0 then Ok(done, pos)
    else
      var item := DecodeItem(data, pos, depth, cfg);
      if item.Err? then Err(item.error)
      else DecodeItems(data, item.next, depth, cfg, count - 1, done + [item.value])
  }

  /** One key and its value; the key becomes a string. */
  function DecodeEntry(data: seq<byte>, pos: nat, depth: nat, cfg: Config): (r: Decoded<Entry>)
    requires pos <= |data|
    ensures r.Ok? ==> pos < r.next <= |data|
    decreases |data| - pos, 1
  {
    var key := DecodeItem(data, pos, depth, cfg);
    if key.Err? then Err(key.error)
    else
      var value := DecodeItem(data, key.next, depth, cfg);
      if value.Err? then Err(value.error)
      else
        match key.value
        case Text(s) => Ok(Entry(s, value.value), value.next)
        case Num(n) => Ok(Entry(NumberText(n, cfg), value.value), value.next)
        case _ => Err(BadMapKey)
  }

  function DecodeEntries(data: seq<byte>, pos: nat, depth: nat, cfg: Config, count: nat, done: seq<Entry>)
    : (r: Decoded<seq<Entry>>)
    requires pos <= |data|
    ensures r.Ok? ==> pos <= r.next <= |data|
    decreases |data| - pos, 2
  {
    if count == 0 then Ok(done, pos)
    else
      var entry := DecodeEntry(data, pos, depth, cfg);
      if entry.Err? then Err(entry.error)
      else DecodeEntries(data, entry.next, depth, cfg, count - 1, Insert(done, entry.value.key, entry.value.value))
  }

  /** The decoder as the code runs it: recursion for nesting, loops with a moving position for elements. */
  method Decode(data: seq<byte>, pos: nat, depth: nat, cfg: Config) returns (r: Decoded<Value>)
    requires pos <= |data|
    ensures r == DecodeItem(data, pos, depth, cfg)
    decreases |data| - pos, 0
  {
    if depth > cfg.cap { return Err(TooDeep); }
    if pos >= |data| { return Err(EndOfData); }
    var initial := data[pos];
    var major := initial as nat / 32;
    var head := DecodeArg(data, pos + 1, initial as nat % 32);
    if head.Err? { return Err(head.error); }
    var arg, next := head.value, head.next;
    if major == 4 {
      if arg > MAX_CBOR_ELEMENTS { return Err(TooManyElements); }
      var items := DecodeArray(data, next, depth + 1, cfg, arg);
      r := if items.Err? then Err(items.error) else Ok(Array(items.value), items.next);
    } else if major == 5 {
      if arg > MAX_CBOR_ELEMENTS { return Err(TooManyElements); }
      var entries := DecodeMap(data, next, depth + 1, cfg, arg);
      r := if entries.Err? then Err(entries.error) else Ok(Object(entries.value), entries.next);
    } else {
      r := DecodeContent(data, initial, arg, next, depth, cfg);
    }
  }

  method DecodeArray(data: seq<byte>, pos: nat, depth: nat, cfg: Config, count: nat) returns (r: Decoded<seq<Value>>)
    requires pos <= |data|
    ensures r == DecodeItems(data, pos, depth, cfg, count, [])
    decreases |data| - pos, 1
  {
    var items: seq<Value> := [];
    var p := pos;
    for done := 0 to count
      invariant pos <= p <= |data|
      invariant DecodeItems(data, pos, depth, cfg, count, []) == DecodeItems(data, p, depth, cfg, count - done, items)
    {
      var item := Decode(data, p, depth, cfg);
      if item.Err? { return Err(item.error); }
      items := items + [item.value];
      p := item.next;
    }
    r := Ok(items, p);
  }

  method DecodeMap(data: seq<byte>, pos: nat, depth: nat, cfg: Config, count: nat) returns (r: Decoded<seq<Entry>>)
    requires pos <= |data|
    ensures r == DecodeEntries(data, pos, depth, cfg, count, [])
    decreases |data| - pos, 1
  {
    var entries: seq<Entry> := [];
    var p := pos;
    for done := 0 to count
      invariant pos <= p <= |data|
      invariant DecodeEntries(data, pos, depth, cfg, count, []) == DecodeEntries(data, p, depth, cfg, count - done, entries)
    {
      var key := Decode(data, p, depth, cfg);
      if key.Err? { return Err(key.error); }
      var value := Decode(data, key.next, depth, cfg);
      if value.Err? { return Err(value.error); }
      var text: seq<byte>;
      match key.value {
        case Text(s) => text := s;
        case Num(n) => text := NumberText(n, cfg);
        case _ => return Err(BadMapKey);
      }
      entries := Insert(entries, text, value.value);
      p := value.next;
    }
    r := Ok(entries, p);
  }

  // ---------------------------------------------------------------- the encoder

  predicate IsByteNumber(v: Value) {
    v.Num? && v.n.PosInt? && v.n.u <= 255
  }

  /** The heuristic: an array of small integers is taken for a byte string; an empty one is not. */
  predicate IsByteArray(items: seq<Value>) {
    items != [] && forall i :: 0 <= i < |items| ==> IsByteNumber(items[i])
  }

  function ByteArray(items: seq<Value>): (bytes: seq<byte>)
    requires IsByteArray(items)
    ensures |bytes| == |items| && forall i :: 0 <= i < |items| ==> bytes[i] as nat == items[i].n.u
  {
    seq(|items|, i requires 0 <= i < |items| => items[i].n.u as byte)
  }

  function EncodeNumber(n: Number): seq<byte> {
    match n
    case PosInt(u) => EncodeHead(0, u)
    case NegInt(i) => if i < 0 then EncodeHead(1, -1 - i) else EncodeHead(0, i)
    case Float(bits) => [0xFB] + BigEndian(bits, DOUBLE_WIDTH)
  }

  function Encode(v: Value): seq<byte>
    decreases v, 0
  {
    match v
    case Null => [0xF6]
    case Bool(b) => if b then [0xF5] else [0xF4]
    case Num(n) => EncodeNumber(n)
    case Text(s) => EncodeHead(3, |s|) + s
    case Array(items) =>
      if IsByteArray(items) then EncodeHead(2, |items|) + ByteArray(items)
      else EncodeHead(4, |items|) + EncodeItems(items)
    case Object(entries) => EncodeHead(5, |entries|) + EncodeEntries(entries)
  }

  function EncodeItems(items: seq<Value>): seq<byte>
    decreases items, 1
  {
    if items == [] then [] else Encode(items[0]) + EncodeItems(items[1..])
  }

  function EncodeEntries(entries: seq<Entry>): seq<byte>
    decreases entries, 1
  {
    if entries == [] then [] else EncodeEntry(entries[0]) + EncodeEntries(entries[1..])
  }

  /** A key as a text string, then its value. */
  function EncodeEntry(entry: Entry): seq<byte>
    decreases entry, 1
  {
    EncodeHead(3, |entry.key|) + entry.key + Encode(entry.value)
  }

  /** The buffer the encoder appends to. */
  class Buffer {
    var bytes: seq<byte>

    constructor ()
      ensures bytes == []
    {
      bytes := [];
    }

    method Extend(more: seq<byte>)
      modifies this
      ensures bytes == old(bytes) + more
    {
      bytes := bytes + more;
    }
  }

  lemma {:induction false} EncodeItemsSnoc(items: seq<Value>, item: Value)
    ensures EncodeItems(items + [item]) == EncodeItems(items) + Encode(item)
    decreases |items|
  {
    var all := items + [item];
    if items == [] {
      assert all[1..] == [];
      assert EncodeItems(all) == Encode(item) + [];
    } else {
      assert all[1..] == items[1..] + [item];
      EncodeItemsSnoc(items[1..], item);
      assert Encode(items[0]) + (EncodeItems(items[1..]) + Encode(item)) == EncodeItems(items) + Encode(item);
    }
  }

  lemma {:induction false} EncodeEntriesSnoc(entries: seq<Entry>, entry: Entry)
    ensures EncodeEntries(entries + [entry]) ==
            EncodeEntries(entries) + EncodeEntry(entry)
    decreases |entries|
  {
    var all := entries + [entry];
    var last := EncodeEntry(entry);
    if entries == [] {
      assert all[1..] == [];
      assert EncodeEntries(all) == last + [];
    } else {
      assert all[1..] == entries[1..] + [entry];
      EncodeEntriesSnoc(entries[1..], entry);
      var first := EncodeEntry(entries[0]);
      assert first + (EncodeEntries(entries[1..]) + last) == (first + EncodeEntries(entries[1..])) + last;
    }
  }

  lemma Assoc(a: seq<byte>, b: seq<byte>, c: seq<byte>)
    ensures (a + b) + c == a + (b + c)
  {
  }

  method EncodeValue(v: Value, buf: Buffer)
    modifies buf
    ensures buf.bytes == old(buf.bytes) + Encode(v)
    decreases v, 0
  {
    match v {
      case Array(items) =>
        if IsByteArray(items) {
          Assoc(buf.bytes, EncodeHead(2, |items|), ByteArray(items));
          buf.Extend(EncodeHead(2, |items|));
          buf.Extend(ByteArray(items));
        } else {
          Assoc(buf.bytes, EncodeHead(4, |items|), EncodeItems(items));
          buf.Extend(EncodeHead(4, |items|));
          EncodeAll(items, buf);
        }
      case Object(entries) =>
        Assoc(buf.bytes, EncodeHead(5, |entries|), EncodeEntries(entries));
        buf.Extend(EncodeHead(5, |entries|));
        EncodeAllEntries(entries, buf);
      case _ =>
        buf.Extend(Encode(v));
    }
  }

  lemma AppendItem(before: seq<byte>, items: seq<Value>, item: Value)
    ensures before + EncodeItems(items) + Encode(item) == before + EncodeItems(items + [item])
  {
    EncodeItemsSnoc(items, item);
    Assoc(before, EncodeItems(items), Encode(item));
  }

  method EncodeAll(items: seq<Value>, buf: Buffer)
    modifies buf
    ensures buf.bytes == old(buf.bytes) + EncodeItems(items)
    decreases items, 1
  {
    for i := 0 to |items|
      invariant buf.bytes == old(buf.bytes) + EncodeItems(items[..i])
    {
      AppendItem(old(buf.bytes), items[..i], items[i]);
      EncodeValue(items[i], buf);
      assert items[..i] + [items[i]] == items[..i + 1];
    }
    assert items[..|items|] == items;
  }

  lemma AppendEntry(before: seq<byte>, entries: seq<Entry>, entry: Entry)
    ensures before + EncodeEntries(entries) + EncodeHead(3, |entry.key|) + entry.key + Encode(entry.value) ==
            before + EncodeEntries(entries + [entry])
  {
    EncodeEntriesSnoc(entries, entry);
    var (done, head, value) := (EncodeEntries(entries), EncodeHead(3, |entry.key|), Encode(entry.value));
    Assoc(before + done, head, entry.key);
    Assoc(before + done, head + entry.key, value);
    Assoc(before, done, head + entry.key + value);
  }

  method EncodeAllEntries(entries: seq<Entry>, buf: Buffer)
    modifies buf
    ensures buf.bytes == old(buf.bytes) + EncodeEntries(entries)
    decreases entries, 1
  {
    for i := 0 to |entries|
      invariant buf.bytes == old(buf.bytes) + EncodeEntries(entries[..i])
    {
      var entry := entries[i];
      AppendEntry(old(buf.bytes), entries[..i], entry);
      buf.Extend(EncodeHead(3, |entry.key|));
      buf.Extend(entry.key);
      EncodeValue(entry.value, buf);
      assert entries[..i] + [entry] == entries[..i + 1];
    }
    assert entries[..|entries|] == entries;
  }
}
