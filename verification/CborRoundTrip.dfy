/** Decoding what the legacy encoder wrote: which JSON values come back, and that all others are refused. */
module CborRoundTrip {
  import opened LegacyCodec
  import opened Numbers

  // ---------------------------------------------------------------- JSON values

  /** The values serde_json can hold: integers of 64 bits, finite doubles, UTF-8 text, ordered objects. */
  predicate Valid(v: Value)
    decreases v, 0
  {
    match v
    case Null => true
    case Bool(_) => true
    case Num(PosInt(u)) => u < U64
    case Num(NegInt(i)) => -(I64 as int) <= i < 0
    case Num(Float(bits)) => bits < U64 && Finite(bits)
    case Text(s) => Utf8(s) && |s| < U64
    case Array(items) => |items| < U64 && ValidItems(items)
    case Object(entries) => |entries| < U64 && ValidEntries(entries)
  }

  predicate ValidItems(items: seq<Value>)
    decreases items, 1
  {
    items == [] || (Valid(items[0]) && ValidItems(items[1..]))
  }

  predicate ValidEntries(entries: seq<Entry>)
    decreases entries, 1
  {
    entries == [] ||
    (Utf8(entries[0].key) && |entries[0].key| < U64 && Valid(entries[0].value) && ValidEntries(entries[1..]) &&
     (|entries| > 1 ==> Below(entries[0].key, entries[1].key)))
  }

  /** How deep the items of the encoding nest; a byte array is one item. */
  function Depth(v: Value): nat
    decreases v, 0
  {
    match v
    case Array(items) => if items == [] || IsByteArray(items) then 0 else 1 + ItemsDepth(items)
    case Object(entries) => if entries == [] then 0 else 1 + EntriesDepth(entries)
    case _ => 0
  }

  function ItemsDepth(items: seq<Value>): nat
    decreases items, 1
  {
    if items == [] then 0 else Max(Depth(items[0]), ItemsDepth(items[1..]))
  }

  function EntriesDepth(entries: seq<Entry>): nat
    decreases entries, 1
  {
    if entries == [] then 0 else Max(Depth(entries[0].value), EntriesDepth(entries[1..]))
  }

  /** No container holds more than 100,000 entries; a byte array of any length is a string. */
  predicate Bounded(v: Value)
    decreases v, 0
  {
    match v
    case Array(items) => IsByteArray(items) || (|items| <= MAX_CBOR_ELEMENTS && BoundedItems(items))
    case Object(entries) => |entries| <= MAX_CBOR_ELEMENTS && BoundedEntries(entries)
    case _ => true
  }

  predicate BoundedItems(items: seq<Value>)
    decreases items, 1
  {
    items == [] || (Bounded(items[0]) && BoundedItems(items[1..]))
  }

  predicate BoundedEntries(entries: seq<Entry>)
    decreases entries, 1
  {
    entries == [] || (Bounded(entries[0].value) && BoundedEntries(entries[1..]))
  }

  // ---------------------------------------------------------------- bytes in place

  predicate Holds(data: seq<byte>, pos: nat, bytes: seq<byte>) {
    pos + |bytes| <= |data| && data[pos..pos + |bytes|] == bytes
  }

  lemma HoldsParts(data: seq<byte>, pos: nat, a: seq<byte>, b: seq<byte>)
    requires Holds(data, pos, a + b)
    ensures Holds(data, pos, a) && Holds(data, pos + |a|, b)
  {
    var whole := data[pos..pos + |a + b|];
    assert whole[..|a|] == a && whole[|a|..] == b;
    assert data[pos..pos + |a|] == whole[..|a|];
    assert data[pos + |a|..pos + |a| + |b|] == whole[|a|..];
  }

  lemma PartsHold(data: seq<byte>, pos: nat, a: seq<byte>, b: seq<byte>, whole: seq<byte>)
    requires Holds(data, pos, whole) && whole == a + b
    ensures Holds(data, pos, a) && Holds(data, pos + |a|, b) && |whole| == |a| + |b|
  {
    HoldsParts(data, pos, a, b);
  }

  lemma {:induction false} BigEndianBound(bytes: seq<byte>)
    ensures FromBigEndian(bytes) < Pow256(|bytes|)
  {
    if bytes != [] {
      BigEndianBound(bytes[..|bytes| - 1]);
    }
  }

  /** No head that decodes to an argument is shorter than the one the encoder writes. */
  lemma HeadIsShortest(data: seq<byte>, pos: nat, info: nat, major: nat)
    requires pos <= |data| && DecodeArg(data, pos, info).Ok? && major < 8
    ensures var head := DecodeArg(data, pos, info); |EncodeHead(major, head.value)| <= 1 + head.next - pos
  {
    PowersOf256();
    var head := DecodeArg(data, pos, info);
    if info > 23 {
      BigEndianBound(data[pos..head.next]);
    }
  }

  lemma HeadDecodes(data: seq<byte>, pos: nat, major: nat, value: nat)
    requires major < 8 && value < U64
    requires Holds(data, pos, EncodeHead(major, value))
    ensures pos < |data| && data[pos] as nat / 32 == major
    ensures DecodeArg(data, pos + 1, data[pos] as nat % 32) == Ok(value, pos + |EncodeHead(major, value)|)
  {
    var head := EncodeHead(major, value);
    var width := Width(value);
    assert data[pos] == data[pos..pos + |head|][0] == head[0];
    assert data[pos + 1..pos + 1 + width] == BigEndian(value, width) by {
      assert head[1..] == BigEndian(value, width);
      assert data[pos + 1..pos + 1 + width] == data[pos..pos + |head|][1..];
    }
    ArgDecodes(data, pos + 1, value);
    InitialByte(major, value);
  }

  lemma InitialByte(major: nat, value: nat)
    requires major < 8
    ensures EncodeHead(major, value)[0] as nat / 32 == major
    ensures EncodeHead(major, value)[0] as nat % 32 ==
            var w := Width(value); if w == 0 then value else if w == 1 then 24 else if w == 2 then 25 else if w == 4 then 26 else 27
  {
  }

  lemma ArgDecodes(data: seq<byte>, pos: nat, value: nat)
    requires value < U64
    requires var width := Width(value);
             pos + width <= |data| && data[pos..pos + width] == BigEndian(value, width)
    ensures var w := Width(value);
            DecodeArg(data, pos, if w == 0 then value else if w == 1 then 24 else if w == 2 then 25 else if w == 4 then 26 else 27) ==
            Ok(value, pos + w)
  {
    PowersOf256();
    if Width(value) > 0 {
      BigEndianRoundTrip(value, Width(value));
    }
  }

  lemma PowersOf256()
    ensures Pow256(0) == 1 && Pow256(1) == 0x100 && Pow256(2) == 0x1_0000 && Pow256(4) == 0x1_0000_0000 && Pow256(8) == U64
  {
    assert Pow256(4) == 256 * (256 * (256 * Pow256(1)));
    assert Pow256(8) == 256 * (256 * (256 * (256 * Pow256(4))));
  }

  // ---------------------------------------------------------------- objects

  lemma {:induction false} BelowIsStrict(a: seq<byte>, b: seq<byte>, i: nat)
    requires BelowFrom(a, b, i)
    ensures a != b && !BelowFrom(b, a, i)
    decreases |b| - i
  {
    if i < |a| && a[i] == b[i] {
      BelowIsStrict(a, b, i + 1);
    }
  }

  lemma {:induction false} BelowIsTransitive(a: seq<byte>, b: seq<byte>, c: seq<byte>, i: nat)
    requires BelowFrom(a, b, i) && BelowFrom(b, c, i)
    ensures BelowFrom(a, c, i)
    decreases |c| - i
  {
    if i < |a| && a[i] == b[i] == c[i] {
      BelowIsTransitive(a, b, c, i + 1);
    }
  }

  predicate AllBelow(entries: seq<Entry>, key: seq<byte>) {
    forall i :: 0 <= i < |entries| ==> Below(entries[i].key, key)
  }

  /** A key above all others is inserted at the end. */
  lemma {:induction false} InsertLast(entries: seq<Entry>, key: seq<byte>, value: Value)
    requires AllBelow(entries, key)
    ensures Insert(entries, key, value) == entries + [Entry(key, value)]
    decreases |entries|
  {
    if entries != [] {
      BelowIsStrict(entries[0].key, key, 0);
      var rest := entries[1..];
      assert AllBelow(rest, key) by {
        forall i | 0 <= i < |rest|
          ensures Below(rest[i].key, key)
        {
          assert rest[i] == entries[i + 1];
        }
      }
      InsertLast(rest, key, value);
      assert [entries[0]] + (rest + [Entry(key, value)]) == entries + [Entry(key, value)];
    }
  }

  // ---------------------------------------------------------------- the round trip

  /** The items of the encoding nest at most `room` deep and no container is too large. */
  predicate Fits(v: Value, room: int)
    decreases v, 0
  {
    room >= 0 &&
    match v
    case Array(items) => IsByteArray(items) || (|items| <= MAX_CBOR_ELEMENTS && FitItems(items, room - 1))
    case Object(entries) => |entries| <= MAX_CBOR_ELEMENTS && FitEntries(entries, room - 1)
    case _ => true
  }

  predicate FitItems(items: seq<Value>, room: int)
    decreases items, 1
  {
    items == [] || (Fits(items[0], room) && FitItems(items[1..], room))
  }

  predicate FitEntries(entries: seq<Entry>, room: int)
    decreases entries, 1
  {
    entries == [] || (Fits(entries[0].value, room) && FitEntries(entries[1..], room))
  }

  lemma {:induction false} FitsIs(v: Value, room: nat)
    ensures Fits(v, room) <==> Depth(v) <= room && Bounded(v)
    decreases v, 0
  {
    match v {
      case Array(items) =>
        if !IsByteArray(items) {
          FitItemsIs(items, room - 1);
        }
      case Object(entries) =>
        FitEntriesIs(entries, room - 1);
      case _ =>
    }
  }

  lemma {:induction false} FitItemsIs(items: seq<Value>, room: int)
    requires room >= -1
    ensures FitItems(items, room) <==> (items == [] || ItemsDepth(items) <= room) && BoundedItems(items)
    decreases items, 1
  {
    if items != [] {
      if room >= 0 {
        FitsIs(items[0], room);
      }
      FitItemsIs(items[1..], room);
    }
  }

  lemma {:induction false} FitEntriesIs(entries: seq<Entry>, room: int)
    requires room >= -1
    ensures FitEntries(entries, room) <==> (entries == [] || EntriesDepth(entries) <= room) && BoundedEntries(entries)
    decreases entries, 1
  {
    if entries != [] {
      if room >= 0 {
        FitsIs(entries[0].value, room);
      }
      FitEntriesIs(entries[1..], room);
    }
  }

  /** Decoding an encoding found anywhere in the data: the value and the exact end, or a refusal. */
  lemma {:induction false} DecodesEncoding(v: Value, data: seq<byte>, pos: nat, depth: nat, cfg: Config)
    requires Valid(v) && |data| < U64 && Holds(data, pos, Encode(v))
    ensures var r := DecodeItem(data, pos, depth, cfg);
            if Fits(v, cfg.cap - depth) then r == Ok(v, pos + |Encode(v)|) else r.Err?
    decreases v, 0
  {
    if depth > cfg.cap {
      return;
    }
    match v {
      case Null =>
        assert data[pos] == data[pos..pos + 1][0];
      case Bool(b) =>
        assert data[pos] == data[pos..pos + 1][0];
      case Num(n) =>
        NumberDecodes(n, data, pos, depth, cfg);
      case Text(s) =>
        TextDecodes(s, data, pos, depth, cfg);
      case Array(items) =>
        if IsByteArray(items) {
          ByteArrayDecodes(items, data, pos, depth, cfg);
        } else {
          ArrayDecodes(items, data, pos, depth, cfg);
        }
      case Object(entries) =>
        ObjectDecodes(entries, data, pos, depth, cfg);
    }
  }

  lemma {:induction false} ArrayDecodes(items: seq<Value>, data: seq<byte>, pos: nat, depth: nat, cfg: Config)
    requires ValidItems(items) && |items| < U64 && |data| < U64 && depth <= cfg.cap
    requires Holds(data, pos, EncodeHead(4, |items|) + EncodeItems(items))
    ensures var r := DecodeItem(data, pos, depth, cfg);
            if |items| <= MAX_CBOR_ELEMENTS && FitItems(items, cfg.cap - depth - 1)
            then r == Ok(Array(items), pos + |EncodeHead(4, |items|)| + |EncodeItems(items)|) else r.Err?
    decreases items, 3
  {
    var next := ArrayFollows(|items|, EncodeItems(items), data, pos, depth, cfg);
    ElementsDecode(items, data, next, depth, cfg);
  }

  /** The elements of an array, from the first one on. */
  lemma {:induction false} ElementsDecode(items: seq<Value>, data: seq<byte>, next: nat, depth: nat, cfg: Config)
    requires ValidItems(items) && |data| < U64 && Holds(data, next, EncodeItems(items))
    ensures var r := DecodeItems(data, next, depth + 1, cfg, |items|, []);
            if FitItems(items, cfg.cap - depth - 1) then r == Ok(items, next + |EncodeItems(items)|) else r.Err?
    decreases items, 2
  {
    ItemsDecode(items, data, next, depth + 1, cfg, []);
    assert [] + items == items;
  }

  lemma {:induction false} ObjectDecodes(entries: seq<Entry>, data: seq<byte>, pos: nat, depth: nat, cfg: Config)
    requires ValidEntries(entries) && |entries| < U64 && |data| < U64 && depth <= cfg.cap
    requires Holds(data, pos, EncodeHead(5, |entries|) + EncodeEntries(entries))
    ensures var r := DecodeItem(data, pos, depth, cfg);
            if |entries| <= MAX_CBOR_ELEMENTS && FitEntries(entries, cfg.cap - depth - 1)
            then r == Ok(Object(entries), pos + |EncodeHead(5, |entries|)| + |EncodeEntries(entries)|) else r.Err?
    decreases entries, 3
  {
    var next := ObjectFollows(|entries|, EncodeEntries(entries), data, pos, depth, cfg);
    AllEntriesDecode(entries, data, next, depth, cfg);
  }

  lemma {:induction false} AllEntriesDecode(entries: seq<Entry>, data: seq<byte>, next: nat, depth: nat, cfg: Config)
    requires ValidEntries(entries) && |data| < U64 && Holds(data, next, EncodeEntries(entries))
    ensures var r := DecodeEntries(data, next, depth + 1, cfg, |entries|, []);
            if FitEntries(entries, cfg.cap - depth - 1) then r == Ok(entries, next + |EncodeEntries(entries)|) else r.Err?
    decreases entries, 2
  {
    EntriesDecode(entries, data, next, depth + 1, cfg, []);
    assert [] + entries == entries;
  }

  /** An array decodes as its elements do. */
  lemma ArrayFollows(count: nat, content: seq<byte>, data: seq<byte>, pos: nat, depth: nat, cfg: Config) returns (next: nat)
    requires count < U64 && depth <= cfg.cap && Holds(data, pos, EncodeHead(4, count) + content)
    ensures next == pos + |EncodeHead(4, count)| && Holds(data, next, content)
    ensures var items := DecodeItems(data, next, depth + 1, cfg, count, []);
            DecodeItem(data, pos, depth, cfg) ==
            if count > MAX_CBOR_ELEMENTS then Err(TooManyElements)
            else if items.Err? then Err(items.error) else Ok(Array(items.value), items.next)
  {
    next := ContentFollows(4, count, content, data, pos, depth, cfg);
    ContainerContent(data, data[pos], count, next, depth, cfg);
  }

  lemma ObjectFollows(count: nat, content: seq<byte>, data: seq<byte>, pos: nat, depth: nat, cfg: Config) returns (next: nat)
    requires count < U64 && depth <= cfg.cap && Holds(data, pos, EncodeHead(5, count) + content)
    ensures next == pos + |EncodeHead(5, count)| && Holds(data, next, content)
    ensures var entries := DecodeEntries(data, next, depth + 1, cfg, count, []);
            DecodeItem(data, pos, depth, cfg) ==
            if count > MAX_CBOR_ELEMENTS then Err(TooManyElements)
            else if entries.Err? then Err(entries.error) else Ok(Object(entries.value), entries.next)
  {
    next := ContentFollows(5, count, content, data, pos, depth, cfg);
    ContainerContent(data, data[pos], count, next, depth, cfg);
  }

  /** A head is read as it was written, and its content follows it. */
  lemma ContentFollows(major: nat, arg: nat, content: seq<byte>, data: seq<byte>, pos: nat, depth: nat, cfg: Config)
    returns (next: nat)
    requires major < 8 && arg < U64 && depth <= cfg.cap
    requires Holds(data, pos, EncodeHead(major, arg) + content)
    ensures next == pos + |EncodeHead(major, arg)| && Holds(data, next, content)
    ensures data[pos] as nat / 32 == major
    ensures DecodeItem(data, pos, depth, cfg) == DecodeContent(data, data[pos], arg, next, depth, cfg)
  {
    HoldsParts(data, pos, EncodeHead(major, arg), content);
    HeadDecodes(data, pos, major, arg);
    next := pos + |EncodeHead(major, arg)|;
  }

  lemma ContainerContent(data: seq<byte>, initial: byte, count: nat, next: nat, depth: nat, cfg: Config)
    requires next <= |data|
    ensures var r, items := DecodeContent(data, initial, count, next, depth, cfg), DecodeItems(data, next, depth + 1, cfg, count, []);
            initial as nat / 32 == 4 ==>
              r == if count > MAX_CBOR_ELEMENTS then Err(TooManyElements)
                   else if items.Err? then Err(items.error) else Ok(Array(items.value), items.next)
    ensures var r, entries := DecodeContent(data, initial, count, next, depth, cfg), DecodeEntries(data, next, depth + 1, cfg, count, []);
            initial as nat / 32 == 5 ==>
              r == if count > MAX_CBOR_ELEMENTS then Err(TooManyElements)
                   else if entries.Err? then Err(entries.error) else Ok(Object(entries.value), entries.next)
  {
  }

  lemma TextDecodes(s: seq<byte>, data: seq<byte>, pos: nat, depth: nat, cfg: Config)
    requires Valid(Text(s)) && |data| < U64 && depth <= cfg.cap && Holds(data, pos, EncodeHead(3, |s|) + s)
    ensures DecodeItem(data, pos, depth, cfg) == Ok(Text(s), pos + |EncodeHead(3, |s|)| + |s|)
  {
    var next := ContentFollows(3, |s|, s, data, pos, depth, cfg);
  }

  lemma ByteArrayDecodes(items: seq<Value>, data: seq<byte>, pos: nat, depth: nat, cfg: Config)
    requires IsByteArray(items) && |items| < U64 && |data| < U64 && depth <= cfg.cap
    requires Holds(data, pos, EncodeHead(2, |items|) + ByteArray(items))
    ensures DecodeItem(data, pos, depth, cfg) == Ok(Array(items), pos + |EncodeHead(2, |items|)| + |items|)
  {
    var next := ContentFollows(2, |items|, ByteArray(items), data, pos, depth, cfg);
    BytesComeBack(items);
  }

  lemma NumberDecodes(n: Number, data: seq<byte>, pos: nat, depth: nat, cfg: Config)
    requires Valid(Num(n)) && depth <= cfg.cap && Holds(data, pos, EncodeNumber(n))
    ensures DecodeItem(data, pos, depth, cfg) == Ok(Num(n), pos + |EncodeNumber(n)|)
  {
    match n {
      case PosInt(u) =>
        HeadDecodes(data, pos, 0, u);
      case NegInt(i) =>
        HeadDecodes(data, pos, 1, -1 - i);
        assert Negative(-1 - i) == n;
      case Float(bits) =>
        FloatDecodes(bits, data, pos, depth, cfg);
    }
  }

  lemma FloatDecodes(bits: nat, data: seq<byte>, pos: nat, depth: nat, cfg: Config)
    requires bits < U64 && Finite(bits) && depth <= cfg.cap && Holds(data, pos, [0xFB] + BigEndian(bits, DOUBLE_WIDTH))
    ensures DecodeItem(data, pos, depth, cfg) == Ok(Num(Float(bits)), pos + 9)
  {
    HoldsParts(data, pos, [0xFB], BigEndian(bits, DOUBLE_WIDTH));
    assert data[pos] == data[pos..pos + 1][0] == 0xFB;
    assert data[pos] as nat % 32 == 27;
    var next := pos + 9;
    assert DecodeArg(data, pos + 1, 27) == Ok(bits, next) by {
      PowersOf256();
      BigEndianRoundTrip(bits, DOUBLE_WIDTH);
    }
    ContentOf(data, pos, bits, next, depth, cfg);
    assert DecodeContent(data, 0xFB, bits, next, depth, cfg) == DecodeSimple(0xFB, bits, next);
  }

  lemma ContentOf(data: seq<byte>, pos: nat, arg: nat, next: nat, depth: nat, cfg: Config)
    requires pos < |data| && depth <= cfg.cap && DecodeArg(data, pos + 1, data[pos] as nat % 32) == Ok(arg, next)
    ensures DecodeItem(data, pos, depth, cfg) == DecodeContent(data, data[pos], arg, next, depth, cfg)
  {
  }

  lemma BytesComeBack(items: seq<Value>)
    requires IsByteArray(items)
    ensures BytesAsArray(ByteArray(items)) == Array(items)
  {
    var back := BytesAsArray(ByteArray(items)).items;
    forall i | 0 <= i < |items|
      ensures back[i] == items[i]
    {
      assert IsByteNumber(items[i]);
    }
    assert back == items;
  }

  lemma MoveFirst<T>(done: seq<T>, more: seq<T>)
    requires more != []
    ensures done + [more[0]] + more[1..] == done + more
  {
  }

  lemma {:induction false} ItemsDecode(items: seq<Value>, data: seq<byte>, pos: nat, depth: nat, cfg: Config, done: seq<Value>)
    requires ValidItems(items) && |data| < U64 && Holds(data, pos, EncodeItems(items))
    ensures var r := DecodeItems(data, pos, depth, cfg, |items|, done);
            if FitItems(items, cfg.cap - depth)
            then r == Ok(done + items, pos + |EncodeItems(items)|) else r.Err?
    decreases items, 1
  {
    if items == [] {
      assert done + items == done;
    } else {
      var item := items[0];
      HoldsParts(data, pos, Encode(item), EncodeItems(items[1..]));
      DecodesEncoding(item, data, pos, depth, cfg);
      if Fits(item, cfg.cap - depth) {
        RestOfItemsDecodes(items, data, pos, pos + |Encode(item)|, depth, cfg, done);
      }
    }
  }

  lemma {:induction false} RestOfItemsDecodes(items: seq<Value>, data: seq<byte>, pos: nat, next: nat, depth: nat, cfg: Config, done: seq<Value>)
    requires items != [] && ValidItems(items[1..]) && |data| < U64 && pos <= |data|
    requires DecodeItem(data, pos, depth, cfg) == Ok(items[0], next) && Holds(data, next, EncodeItems(items[1..]))
    ensures var r := DecodeItems(data, pos, depth, cfg, |items|, done);
            if FitItems(items[1..], cfg.cap - depth)
            then r == Ok(done + items, next + |EncodeItems(items[1..])|) else r.Err?
    decreases items, 0
  {
    var item, rest := items[0], items[1..];
    ItemsDecode(rest, data, next, depth, cfg, done + [item]);
    MoveFirst(done, items);
  }

  lemma {:induction false} EntriesDecode(entries: seq<Entry>, data: seq<byte>, pos: nat, depth: nat, cfg: Config, done: seq<Entry>)
    requires ValidEntries(entries) && |data| < U64 && Holds(data, pos, EncodeEntries(entries))
    requires entries != [] ==> AllBelow(done, entries[0].key)
    ensures var r := DecodeEntries(data, pos, depth, cfg, |entries|, done);
            if FitEntries(entries, cfg.cap - depth)
            then r == Ok(done + entries, pos + |EncodeEntries(entries)|) else r.Err?
    decreases entries, 1
  {
    if entries == [] {
      assert done + entries == done;
    } else {
      var e := entries[0];
      HoldsParts(data, pos, EncodeEntry(e), EncodeEntries(entries[1..]));
      EntryDecodes(e, data, pos, depth, cfg);
      if Fits(e.value, cfg.cap - depth) {
        RestDecodes(entries, data, pos, pos + |EncodeEntry(e)|, depth, cfg, done);
      } else {
        EntriesStep(e, data, pos, depth, cfg, |entries|, done);
      }
    }
  }

  lemma {:induction false} RestDecodes(entries: seq<Entry>, data: seq<byte>, pos: nat, next: nat, depth: nat, cfg: Config, done: seq<Entry>)
    requires entries != [] && ValidEntries(entries[1..]) && |data| < U64 && pos <= |data|
    requires AllBelow(done, entries[0].key) && (|entries| > 1 ==> Below(entries[0].key, entries[1].key))
    requires DecodeEntry(data, pos, depth, cfg) == Ok(entries[0], next) && Holds(data, next, EncodeEntries(entries[1..]))
    ensures var r := DecodeEntries(data, pos, depth, cfg, |entries|, done);
            if FitEntries(entries[1..], cfg.cap - depth)
            then r == Ok(done + entries, next + |EncodeEntries(entries[1..])|) else r.Err?
    decreases entries, 0
  {
    var e, rest := entries[0], entries[1..];
    EntriesStep(e, data, pos, depth, cfg, |entries|, done);
    if rest != [] {
      StaysBelow(done, e, rest[0].key);
    }
    EntriesDecode(rest, data, next, depth, cfg, done + [e]);
    MoveFirst(done, entries);
  }

  lemma EntriesStep(e: Entry, data: seq<byte>, pos: nat, depth: nat, cfg: Config, count: nat, done: seq<Entry>)
    requires pos <= |data| && count > 0 && AllBelow(done, e.key)
    ensures var entry := DecodeEntry(data, pos, depth, cfg);
            (entry.Err? ==> DecodeEntries(data, pos, depth, cfg, count, done).Err?) &&
            (entry.Ok? && entry.value == e ==>
               DecodeEntries(data, pos, depth, cfg, count, done) ==
               DecodeEntries(data, entry.next, depth, cfg, count - 1, done + [e]))
  {
    InsertLast(done, e.key, e.value);
  }

  lemma StaysBelow(done: seq<Entry>, e: Entry, key: seq<byte>)
    requires AllBelow(done, e.key) && Below(e.key, key)
    ensures AllBelow(done + [e], key)
  {
    forall i | 0 <= i < |done|
      ensures Below(done[i].key, key)
    {
      BelowIsTransitive(done[i].key, e.key, key, 0);
    }
  }

  lemma {:induction false} EntryDecodes(e: Entry, data: seq<byte>, pos: nat, depth: nat, cfg: Config)
    requires Utf8(e.key) && |e.key| < U64 && Valid(e.value) && |data| < U64
    requires Holds(data, pos, EncodeEntry(e))
    ensures var r := DecodeEntry(data, pos, depth, cfg);
            if Fits(e.value, cfg.cap - depth) then r == Ok(e, pos + |EncodeEntry(e)|) else r.Err?
    decreases e.value, 1
  {
    var mid := EntrySplits(e, data, pos);
    if depth > cfg.cap {
      assert DecodeItem(data, pos, depth, cfg) == Err(TooDeep);
    } else {
      assert DecodeItem(data, pos, depth, cfg) == Ok(Text(e.key), mid) by {
        TextDecodes(e.key, data, pos, depth, cfg);
      }
      DecodesEncoding(e.value, data, mid, depth, cfg);
      KeyThenValue(e.key, data, pos, mid, depth, cfg);
    }
  }

  lemma EntrySplits(e: Entry, data: seq<byte>, pos: nat) returns (mid: nat)
    requires Holds(data, pos, EncodeEntry(e))
    ensures Holds(data, pos, EncodeHead(3, |e.key|) + e.key) && Holds(data, mid, Encode(e.value))
    ensures mid == pos + |EncodeHead(3, |e.key|)| + |e.key| && mid + |Encode(e.value)| == pos + |EncodeEntry(e)|
  {
    var keyBytes, value := EncodeHead(3, |e.key|) + e.key, Encode(e.value);
    assert EncodeEntry(e) == keyBytes + value;
    PartsHold(data, pos, keyBytes, value, EncodeEntry(e));
    mid := pos + |keyBytes|;
  }

  lemma KeyThenValue(key: seq<byte>, data: seq<byte>, pos: nat, mid: nat, depth: nat, cfg: Config)
    requires pos <= mid <= |data| && DecodeItem(data, pos, depth, cfg) == Ok(Text(key), mid)
    ensures var r, value := DecodeEntry(data, pos, depth, cfg), DecodeItem(data, mid, depth, cfg);
            r == if value.Ok? then Ok(Entry(key, value.value), value.next) else Err(value.error)
  {
  }

  /** For every JSON value and every suffix, decoding the encoding gives back that value and the position where
      the suffix begins if and only if the value nests at most 32 deep and its containers are bounded. */
  lemma RoundTrip(v: Value, suffix: seq<byte>, cfg: Config)
    requires Valid(v) && cfg.cap == MAX_CBOR_DEPTH && |Encode(v) + suffix| < U64
    ensures DecodeItem(Encode(v) + suffix, 0, 0, cfg) == Ok(v, |Encode(v)|) <==>
              Depth(v) <= MAX_CBOR_DEPTH && Bounded(v)
  {
    var data := Encode(v) + suffix;
    assert data[..|Encode(v)|] == Encode(v);
    DecodesEncoding(v, data, 0, 0, cfg);
    FitsIs(v, MAX_CBOR_DEPTH);
  }

  /** No encoding is a prefix of another, whatever the nesting: two values with bounded containers whose encodings
      begin the same data are the same value. */
  lemma EncodingsAreSelfDelimiting(v: Value, w: Value, s: seq<byte>, t: seq<byte>)
    requires Valid(v) && Valid(w) && Bounded(v) && Bounded(w)
    requires Encode(v) + s == Encode(w) + t && |Encode(v) + s| < U64
    ensures v == w && s == t
  {
    var data := Encode(v) + s;
    var cfg := Config(Max(Depth(v), Depth(w)), (bits: nat) => []);
    ItemAtStart(v, s, data, cfg, 0);
    ItemAtStart(w, t, data, cfg, 0);
    assert s == data[|Encode(v)|..] && t == (Encode(w) + t)[|Encode(w)|..];
  }

  lemma ItemAtStart(v: Value, suffix: seq<byte>, data: seq<byte>, cfg: Config, start: nat)
    requires Valid(v) && Bounded(v) && Depth(v) <= cfg.cap && data == Encode(v) + suffix && |data| < U64 && start == 0
    ensures DecodeItem(data, start, start, cfg) == Ok(v, |Encode(v)|)
  {
    StartsWith(Encode(v), suffix, data);
    FitsIs(v, cfg.cap);
    DecodesEncoding(v, data, start, start, cfg);
  }

  lemma StartsWith(bytes: seq<byte>, suffix: seq<byte>, data: seq<byte>)
    requires data == bytes + suffix
    ensures Holds(data, 0, bytes)
  {
    assert data[..|bytes|] == bytes;
  }
}
