/** What the legacy decoder makes of any bytes, written by whatever encoder: heads of any width, integers of either sign,
    map entries in any order and with repetitions, number keys, UTF-8 text; and that whatever it reads is a JSON value that
    its own encoder writes back. */
module CborMeaning {
  import opened LegacyCodec
  import opened CborRoundTrip
  import opened Numbers

  // ---------------------------------------------------------------- the order of keys

  /** Strings are ordered by the first byte in which they differ; a prefix comes first. */
  lemma {:induction false} BelowIs(a: seq<byte>, b: seq<byte>, i: nat)
    requires i <= |a| && i <= |b| && a[..i] == b[..i]
    ensures BelowFrom(a, b, i) <==> a < b || exists k :: i <= k < |a| && k < |b| && a[..k] == b[..k] && a[k] < b[k]
    decreases |b| - i
  {
    if i < |a| && i < |b| && a[i] == b[i] {
      assert a[..i + 1] == b[..i + 1];
      BelowIs(a, b, i + 1);
    }
  }

  lemma {:induction false} BelowIsTotal(a: seq<byte>, b: seq<byte>, i: nat)
    requires i <= |a| && i <= |b| && a[..i] == b[..i]
    ensures a == b || BelowFrom(a, b, i) || BelowFrom(b, a, i)
    decreases |b| - i
  {
    if i < |a| && i < |b| && a[i] == b[i] {
      assert a[..i + 1] == b[..i + 1];
      BelowIsTotal(a, b, i + 1);
    }
  }

  predicate IsAscending(entries: seq<Entry>) {
    forall i, j :: 0 <= i < j < |entries| ==> Below(entries[i].key, entries[j].key)
  }

  // ---------------------------------------------------------------- inserting a key

  /** After an insertion the key has the value, every other key has what it had, and the order is kept. */
  lemma {:induction false} InsertIs(entries: seq<Entry>, key: seq<byte>, value: Value)
    requires IsAscending(entries)
    ensures IsAscending(Insert(entries, key, value))
    ensures forall e :: e in Insert(entries, key, value) <==> if e.key == key then e.value == value else e in entries
    decreases |entries|
  {
    if entries != [] {
      var first, rest := entries[0], entries[1..];
      assert entries == [first] + rest;
      assert forall e :: e in entries <==> e == first || e in rest;
      BelowIsTotal(key, first.key, 0);
      if key == first.key {
        NotInRest(entries);
        ReplacedFirst(first, Entry(key, value), rest);
      } else if Below(key, first.key) {
        AllAbove(entries, key);
        InFront(Entry(key, value), entries);
      } else {
        InsertIs(rest, key, value);
        NotInRest(entries);
        Behind(first, rest, key, value);
      }
    }
  }

  /** The first key is below all others, and so stands only once. */
  lemma NotInRest(entries: seq<Entry>)
    requires IsAscending(entries) && entries != []
    ensures forall e :: e in entries[1..] ==> Below(entries[0].key, e.key) && e.key != entries[0].key
  {
    forall e | e in entries[1..]
      ensures Below(entries[0].key, e.key) && e.key != entries[0].key
    {
      var k :| 0 <= k < |entries| - 1 && entries[1..][k] == e;
      assert entries[k + 1] == e;
      BelowIsStrict(entries[0].key, e.key, 0);
    }
  }

  lemma AllAbove(entries: seq<Entry>, key: seq<byte>)
    requires IsAscending(entries) && entries != [] && Below(key, entries[0].key)
    ensures forall e :: e in entries ==> Below(key, e.key) && e.key != key
  {
    NotInRest(entries);
    forall e | e in entries
      ensures Below(key, e.key) && e.key != key
    {
      if e != entries[0] {
        assert e in entries[1..];
        BelowIsTransitive(key, entries[0].key, e.key, 0);
      }
      BelowIsStrict(key, e.key, 0);
    }
  }

  lemma InFront(e: Entry, entries: seq<Entry>)
    requires IsAscending(entries) && forall x :: x in entries ==> Below(e.key, x.key)
    ensures IsAscending([e] + entries)
  {
    var all := [e] + entries;
    forall i, j | 0 <= i < j < |all|
      ensures Below(all[i].key, all[j].key)
    {
      assert all[j] == entries[j - 1] && entries[j - 1] in entries;
    }
  }

  lemma ReplacedFirst(first: Entry, e: Entry, rest: seq<Entry>)
    requires IsAscending([first] + rest) && e.key == first.key
    requires forall x :: x in rest ==> Below(first.key, x.key)
    ensures IsAscending([e] + rest)
  {
    assert forall i :: 0 <= i < |rest| ==> rest[i] == ([first] + rest)[i + 1];
    InFront(e, rest);
  }

  lemma Behind(first: Entry, rest: seq<Entry>, key: seq<byte>, value: Value)
    requires IsAscending(Insert(rest, key, value)) && Below(first.key, key)
    requires forall e :: e in Insert(rest, key, value) <==> if e.key == key then e.value == value else e in rest
    requires forall x :: x in rest ==> Below(first.key, x.key)
    ensures IsAscending([first] + Insert(rest, key, value))
  {
    InFront(first, Insert(rest, key, value));
  }

  // ---------------------------------------------------------------- maps

  /** The entries of a map as they stand in the data, one after another. */
  function EntriesRead(data: seq<byte>, pos: nat, depth: nat, cfg: Config, count: nat): (r: Decoded<seq<Entry>>)
    requires pos <= |data|
    ensures r.Ok? ==> pos <= r.next <= |data| && |r.value| == count
    decreases count
  {
    if count == 0 then Ok([], pos)
    else
      var entry := DecodeEntry(data, pos, depth, cfg);
      if entry.Err? then Err(entry.error)
      else
        var rest := EntriesRead(data, entry.next, depth, cfg, count - 1);
        if rest.Err? then Err(rest.error) else Ok([entry.value] + rest.value, rest.next)
  }

  predicate IsLastAt(read: seq<Entry>, e: Entry, i: nat) {
    i < |read| && read[i] == e && forall j :: i < j < |read| ==> read[j].key != e.key
  }

  /** The entry stands in the list, and its key nowhere behind it. */
  predicate IsLast(read: seq<Entry>, e: Entry) {
    exists i :: 0 <= i < |read| && IsLastAt(read, e, i)
  }

  predicate HasKey(read: seq<Entry>, key: seq<byte>) {
    exists i :: 0 <= i < |read| && read[i].key == key
  }

  lemma LastMoves(first: Entry, rest: seq<Entry>, e: Entry, i: nat)
    ensures IsLastAt([first] + rest, e, i + 1) <==> IsLastAt(rest, e, i)
  {
    var all := [first] + rest;
    assert forall j :: 0 <= j < |rest| ==> rest[j] == all[j + 1];
    if IsLastAt(rest, e, i) {
      forall j | i + 1 < j < |all|
        ensures all[j].key != e.key
      {
        assert all[j] == rest[j - 1];
      }
    }
  }

  lemma LastIsFirst(first: Entry, rest: seq<Entry>, e: Entry)
    ensures IsLastAt([first] + rest, e, 0) <==> e == first && !HasKey(rest, e.key)
  {
    var all := [first] + rest;
    assert forall j :: 0 <= j < |rest| ==> rest[j] == all[j + 1];
    forall j | 0 < j < |all|
      ensures all[j] == rest[j - 1]
    {
    }
  }

  lemma KeyOfMore(first: Entry, rest: seq<Entry>, key: seq<byte>)
    ensures HasKey([first] + rest, key) <==> first.key == key || HasKey(rest, key)
  {
    var all := [first] + rest;
    assert all[0] == first;
    if i :| 0 <= i < |rest| && rest[i].key == key {
      assert all[i + 1].key == key;
    }
    if i :| 0 <= i < |all| && all[i].key == key {
      assert i > 0 ==> rest[i - 1].key == key;
    }
  }

  lemma LastOfMore(first: Entry, rest: seq<Entry>, e: Entry)
    ensures IsLast([first] + rest, e) <==> IsLast(rest, e) || (e == first && !HasKey(rest, e.key))
    ensures HasKey([first] + rest, e.key) <==> first.key == e.key || HasKey(rest, e.key)
  {
    KeyOfMore(first, rest, e.key);
    LastIsFirst(first, rest, e);
    if i :| 0 <= i <= |rest| && IsLastAt([first] + rest, e, i) {
      if i > 0 {
        LastMoves(first, rest, e, i - 1);
      }
    }
    if i :| 0 <= i < |rest| && IsLastAt(rest, e, i) {
      LastMoves(first, rest, e, i);
    }
  }

  /** The map of some entries: each key once, in order, with the value that was read last. */
  predicate IsMapOf(entries: seq<Entry>, read: seq<Entry>)
  {
    IsAscending(entries) &&
    (forall e :: e in entries ==> IsLast(read, e)) &&
    (forall i :: 0 <= i < |read| && IsLast(read, read[i]) ==> read[i] in entries)
  }

  /** The first entry of several goes into the map, the rest follow. */
  lemma OneEntryMore(data: seq<byte>, pos: nat, depth: nat, cfg: Config, count: nat, done: seq<Entry>)
    requires pos <= |data| && count > 0
    ensures var entry, r := DecodeEntry(data, pos, depth, cfg), DecodeEntries(data, pos, depth, cfg, count, done);
            if entry.Err? then r == Err(entry.error)
            else r == DecodeEntries(data, entry.next, depth, cfg, count - 1, Insert(done, entry.value.key, entry.value.value))
    ensures var entry, r := DecodeEntry(data, pos, depth, cfg), EntriesRead(data, pos, depth, cfg, count);
            if entry.Err? then r == Err(entry.error)
            else
              var rest := EntriesRead(data, entry.next, depth, cfg, count - 1);
              r == if rest.Err? then Err(rest.error) else Ok([entry.value] + rest.value, rest.next)
  {
  }

  lemma InsertThenRead(done: seq<Entry>, first: Entry, rest: seq<Entry>, e: Entry)
    requires IsAscending(done)
    ensures var more := Insert(done, first.key, first.value);
            IsAscending(more) &&
            ((IsLast(rest, e) || (e in more && !HasKey(rest, e.key))) <==>
             (IsLast([first] + rest, e) || (e in done && !HasKey([first] + rest, e.key))))
  {
    InsertIs(done, first.key, first.value);
    LastOfMore(first, rest, e);
    LastHasKey(rest, e);
  }

  lemma {:induction false} EntriesAre(data: seq<byte>, pos: nat, depth: nat, cfg: Config, count: nat, done: seq<Entry>, e: Entry)
    requires pos <= |data| && IsAscending(done)
    ensures var r, read := DecodeEntries(data, pos, depth, cfg, count, done), EntriesRead(data, pos, depth, cfg, count);
            if read.Err? then r == Err(read.error)
            else
              r.Ok? && r.next == read.next && IsAscending(r.value) &&
              (e in r.value <==> IsLast(read.value, e) || (e in done && !HasKey(read.value, e.key)))
    decreases count
  {
    if count > 0 {
      var entry := DecodeEntry(data, pos, depth, cfg);
      OneEntryMore(data, pos, depth, cfg, count, done);
      if entry.Ok? {
        var more := Insert(done, entry.value.key, entry.value.value);
        var rest := EntriesRead(data, entry.next, depth, cfg, count - 1);
        InsertThenRead(done, entry.value, if rest.Ok? then rest.value else [], e);
        EntriesAre(data, entry.next, depth, cfg, count - 1, more, e);
      }
    }
  }

  lemma LastHasKey(read: seq<Entry>, e: Entry)
    ensures IsLast(read, e) ==> HasKey(read, e.key)
  {
    if i :| 0 <= i < |read| && IsLastAt(read, e, i) {
      assert read[i].key == e.key;
    }
  }

  lemma MapIs(data: seq<byte>, pos: nat, depth: nat, cfg: Config, count: nat)
    requires pos <= |data|
    ensures var r, read := DecodeEntries(data, pos, depth, cfg, count, []), EntriesRead(data, pos, depth, cfg, count);
            if read.Err? then r == Err(read.error) else r.Ok? && r.next == read.next && IsMapOf(r.value, read.value)
  {
    forall e: Entry
      ensures var r, read := DecodeEntries(data, pos, depth, cfg, count, []), EntriesRead(data, pos, depth, cfg, count);
              if read.Err? then r == Err(read.error)
              else r.Ok? && r.next == read.next && IsAscending(r.value) && (e in r.value <==> IsLast(read.value, e))
    {
      EntriesAre(data, pos, depth, cfg, count, [], e);
    }
    EntriesAre(data, pos, depth, cfg, count, [], Entry([], Null));
  }

  /** A decoded map has exactly the keys that were read, each with the value that was read last, in whatever order they came
      and however often. */
  lemma DecodedMapIs(data: seq<byte>, pos: nat, depth: nat, cfg: Config)
    requires pos < |data| && data[pos] as nat / 32 == 5 && DecodeItem(data, pos, depth, cfg).Ok?
    ensures var r, head := DecodeItem(data, pos, depth, cfg), DecodeArg(data, pos + 1, data[pos] as nat % 32);
            head.Ok? && r.value.Object? &&
            var read := EntriesRead(data, head.next, depth + 1, cfg, head.value);
            read.Ok? && read.next == r.next && |read.value| == head.value && IsMapOf(r.value.entries, read.value)
  {
    var head := DecodeArg(data, pos + 1, data[pos] as nat % 32);
    ContentOf(data, pos, head.value, head.next, depth, cfg);
    MapIs(data, head.next, depth + 1, cfg, head.value);
  }

  // ---------------------------------------------------------------- a map written by any encoder

  /** An entry that can be read back with the given room for nesting. */
  predicate IsReadable(e: Entry, room: int) {
    Utf8(e.key) && |e.key| < U64 && Valid(e.value) && Fits(e.value, room)
  }

  predicate AllReadable(entries: seq<Entry>, room: int) {
    forall e :: e in entries ==> IsReadable(e, room)
  }

  lemma ReadableRest(entries: seq<Entry>, room: int)
    requires AllReadable(entries, room) && entries != []
    ensures IsReadable(entries[0], room) && AllReadable(entries[1..], room)
  {
    assert entries[0] in entries && forall e :: e in entries[1..] ==> e in entries;
  }

  lemma ReadOneMore(data: seq<byte>, pos: nat, depth: nat, cfg: Config, e: Entry, next: nat, rest: seq<Entry>, end: nat)
    requires pos <= next <= |data| && DecodeEntry(data, pos, depth, cfg) == Ok(e, next)
    requires EntriesRead(data, next, depth, cfg, |rest|) == Ok(rest, end)
    ensures EntriesRead(data, pos, depth, cfg, |[e] + rest|) == Ok([e] + rest, end)
  {
  }

  lemma {:induction false} EntriesReadBack(entries: seq<Entry>, data: seq<byte>, pos: nat, depth: nat, cfg: Config)
    requires AllReadable(entries, cfg.cap - depth)
    requires |data| < U64 && Holds(data, pos, EncodeEntries(entries))
    ensures EntriesRead(data, pos, depth, cfg, |entries|) == Ok(entries, pos + |EncodeEntries(entries)|)
    decreases |entries|
  {
    if entries != [] {
      var e, rest := entries[0], entries[1..];
      assert entries == [e] + rest;
      ReadableRest(entries, cfg.cap - depth);
      var next := pos + |EncodeEntry(e)|;
      PartsHold(data, pos, EncodeEntry(e), EncodeEntries(rest), EncodeEntries(entries));
      EntryDecodes(e, data, pos, depth, cfg);
      EntriesReadBack(rest, data, next, depth, cfg);
      ReadOneMore(data, pos, depth, cfg, e, next, rest, next + |EncodeEntries(rest)|);
    }
  }

  lemma MapReadBack(entries: seq<Entry>, data: seq<byte>, next: nat, cfg: Config) returns (m: seq<Entry>)
    requires AllReadable(entries, cfg.cap - 1) && |data| < U64 && Holds(data, next, EncodeEntries(entries))
    ensures DecodeEntries(data, next, 1, cfg, |entries|, []) == Ok(m, next + |EncodeEntries(entries)|) && IsMapOf(m, entries)
  {
    EntriesReadBack(entries, data, next, 1, cfg);
    MapIs(data, next, 1, cfg, |entries|);
    m := DecodeEntries(data, next, 1, cfg, |entries|, []).value;
  }

  lemma AnyOrderAt(entries: seq<Entry>, data: seq<byte>, cfg: Config, pos: nat) returns (m: seq<Entry>)
    requires cfg.cap > 0 && |entries| <= MAX_CBOR_ELEMENTS && |data| < U64 && AllReadable(entries, cfg.cap - 1)
    requires Holds(data, pos, EncodeHead(5, |entries|) + EncodeEntries(entries))
    ensures DecodeItem(data, pos, 0, cfg) == Ok(Object(m), pos + |EncodeHead(5, |entries|)| + |EncodeEntries(entries)|)
    ensures IsMapOf(m, entries)
  {
    var next := ObjectFollows(|entries|, EncodeEntries(entries), data, pos, 0, cfg);
    m := MapReadBack(entries, data, next, cfg);
  }

  /** Entries in any order, with any repetitions, as a serializer writes the fields of a struct: they are read as the map that
      has for each key the value written last. */
  lemma AnyOrderDecodes(entries: seq<Entry>, suffix: seq<byte>, cfg: Config) returns (m: seq<Entry>)
    requires cfg.cap > 0 && |entries| <= MAX_CBOR_ELEMENTS && AllReadable(entries, cfg.cap - 1)
    requires |EncodeHead(5, |entries|) + EncodeEntries(entries) + suffix| < U64
    ensures var written := EncodeHead(5, |entries|) + EncodeEntries(entries);
            DecodeItem(written + suffix, 0, 0, cfg) == Ok(Object(m), |written|)
    ensures IsMapOf(m, entries)
  {
    var written := EncodeHead(5, |entries|) + EncodeEntries(entries);
    StartsWith(written, suffix, written + suffix);
    m := AnyOrderAt(entries, written + suffix, cfg, 0);
  }

  // ---------------------------------------------------------------- number keys

  function FromDigits(text: seq<byte>): int {
    if text == [] then 0 else 10 * FromDigits(text[..|text| - 1]) + (text[|text| - 1] as int - 48)
  }

  predicate IsDigits(text: seq<byte>) {
    text != [] && (forall i :: 0 <= i < |text| ==> 48 <= text[i] < 58) && (text[0] == 48 ==> |text| == 1)
  }

  /** The decimal text of a number: digits without a leading zero, which read as that number. */
  lemma {:induction false} DigitsAre(n: nat)
    ensures IsDigits(Digits(n)) && FromDigits(Digits(n)) == n && |Digits(n)| <= Max(1, n) && (n > 0 ==> Digits(n)[0] != 48)
    decreases n
  {
    var text := Digits(n);
    if n >= 10 {
      DigitsAre(n / 10);
      assert text[..|text| - 1] == Digits(n / 10);
    } else {
      assert text[..0] == [];
    }
  }

  /** The integer that a text denotes, with a minus sign or without. */
  function SignedValue(text: seq<byte>): int {
    if text != [] && text[0] == 45 then -FromDigits(text[1..]) else FromDigits(text)
  }

  function IntegerOf(n: Number): int
    requires !n.Float?
  {
    match n
    case PosInt(u) => u
    case NegInt(i) => i
  }

  lemma PlainTextIs(n: nat)
    ensures var text := Digits(n); SignedValue(text) == n && text[..1] != [45] && IsDigits(text)
  {
    DigitsAre(n);
    assert Digits(n)[..1][0] == Digits(n)[0];
  }

  lemma MinusTextIs(n: nat)
    ensures var text := [45] + Digits(n); SignedValue(text) == 0 - n && text[..1] == [45] && IsDigits(text[1..])
  {
    DigitsAre(n);
    assert ([45] + Digits(n))[1..] == Digits(n);
  }

  /** Of an integer: its digits without a leading zero, behind a minus sign if it is negative. */
  lemma KeyTextIs(n: Number, cfg: Config)
    requires !n.Float?
    ensures var text := NumberText(n, cfg);
            SignedValue(text) == IntegerOf(n) && (IntegerOf(n) < 0 <==> text[..1] == [45]) &&
            IsDigits(if IntegerOf(n) < 0 then text[1..] else text)
  {
    match n {
      case PosInt(u) => PlainTextIs(u);
      case NegInt(i) =>
        if i < 0 {
          MinusTextIs(-i);
        } else {
          PlainTextIs(i);
        }
    }
  }

  lemma NumberThenValue(n: Number, v: Value, data: seq<byte>, pos: nat, mid: nat, next: nat, depth: nat, cfg: Config)
    requires pos <= mid <= next <= |data|
    requires DecodeItem(data, pos, depth, cfg) == Ok(Num(n), mid) && DecodeItem(data, mid, depth, cfg) == Ok(v, next)
    ensures DecodeEntry(data, pos, depth, cfg) == Ok(Entry(NumberText(n, cfg), v), next)
  {
  }

  /** An integer key becomes its decimal text. */
  lemma IntegerKeyDecodes(n: Number, v: Value, data: seq<byte>, pos: nat, depth: nat, cfg: Config)
    requires !n.Float? && Valid(Num(n)) && Valid(v) && Fits(v, cfg.cap - depth) && |data| < U64
    requires Holds(data, pos, EncodeNumber(n) + Encode(v))
    ensures DecodeEntry(data, pos, depth, cfg) == Ok(Entry(NumberText(n, cfg), v), pos + |EncodeNumber(n)| + |Encode(v)|)
    ensures SignedValue(NumberText(n, cfg)) == IntegerOf(n)
  {
    var mid := pos + |EncodeNumber(n)|;
    PartsHold(data, pos, EncodeNumber(n), Encode(v), EncodeNumber(n) + Encode(v));
    NumberDecodes(n, data, pos, depth, cfg);
    DecodesEncoding(v, data, mid, depth, cfg);
    NumberThenValue(n, v, data, pos, mid, mid + |Encode(v)|, depth, cfg);
    KeyTextIs(n, cfg);
  }

  // ---------------------------------------------------------------- heads and integers

  /** A head may announce its argument in more bytes than it needs; one that is cut short, reserved or indefinite is refused. */
  lemma AnyHeadDecodes(data: seq<byte>, pos: nat, info: nat, arg: nat)
    requires pos <= |data| && 24 <= info < 32
    ensures var width := if info == 24 then 1 else if info == 25 then 2 else if info == 26 then 4 else 8;
            if info > 27 then DecodeArg(data, pos, info) == Err(if info == 31 then IndefiniteLength else ReservedInfo)
            else if pos + width > |data| then DecodeArg(data, pos, info) == Err(TruncatedArgument)
            else arg < Pow256(width) && Holds(data, pos, BigEndian(arg, width)) ==> DecodeArg(data, pos, info) == Ok(arg, pos + width)
  {
    var width := if info == 24 then 1 else if info == 25 then 2 else if info == 26 then 4 else 8;
    if info <= 27 && pos + width <= |data| && arg < Pow256(width) {
      BigEndianRoundTrip(arg, width);
    }
  }

  lemma ArgIsSmall(data: seq<byte>, pos: nat, info: nat)
    requires pos <= |data| && DecodeArg(data, pos, info).Ok?
    ensures DecodeArg(data, pos, info).value < U64
  {
    PowersOf256();
    var head := DecodeArg(data, pos, info);
    if info > 23 {
      BigEndianBound(data[pos..head.next]);
    }
  }

  /** What an integer item denotes: its argument, or one less than the argument's negative; below the range of 64-bit signed
      integers the sum wraps and comes out positive, so a negative integer is read right if and only if its argument is below 2^63. */
  lemma IntegerIs(data: seq<byte>, pos: nat, depth: nat, cfg: Config)
    requires pos < |data| && depth <= cfg.cap && data[pos] < 64
    requires DecodeArg(data, pos + 1, data[pos] as nat % 32).Ok?
    ensures var r, head := DecodeItem(data, pos, depth, cfg), DecodeArg(data, pos + 1, data[pos] as nat % 32);
            r.Ok? && r.next == head.next && r.value.Num? && !r.value.n.Float? &&
            var i := IntegerOf(r.value.n);
            if data[pos] < 32 then i == head.value
            else (i == -1 - head.value <==> head.value < I64) && (head.value >= I64 ==> i == U64 - 1 - head.value)
  {
    var head := DecodeArg(data, pos + 1, data[pos] as nat % 32);
    ArgIsSmall(data, pos + 1, data[pos] as nat % 32);
    ContentOf(data, pos, head.value, head.next, depth, cfg);
  }

  /** A string is its announced bytes and is refused when they are not all there; text must be UTF-8, and other bytes come back
      as an array of small integers. */
  lemma StringIs(data: seq<byte>, pos: nat, depth: nat, cfg: Config)
    requires pos < |data| && |data| < U64 && depth <= cfg.cap && 64 <= data[pos] < 128
    requires DecodeArg(data, pos + 1, data[pos] as nat % 32).Ok?
    ensures var r, head := DecodeItem(data, pos, depth, cfg), DecodeArg(data, pos + 1, data[pos] as nat % 32);
            var end := head.next + head.value;
            (r.Ok? <==> end <= |data| && (data[pos] >= 96 ==> Utf8(data[head.next..end]))) &&
            (r.Err? ==> r.error == if end >= U64 then LengthOverflow else if end > |data| then LengthBeyondData else InvalidUtf8) &&
            (r.Ok? ==> r.next == end &&
                       if data[pos] >= 96 then r.value == Text(data[head.next..end])
                       else r.value.Array? && |r.value.items| == head.value &&
                            forall i :: 0 <= i < head.value ==> r.value.items[i] == Num(PosInt(data[head.next + i] as nat)))
  {
    var head := DecodeArg(data, pos + 1, data[pos] as nat % 32);
    ContentOf(data, pos, head.value, head.next, depth, cfg);
  }

  /** Of the simple values there are false, true, null, undefined, which reads as null, and doubles that are neither infinite nor
      NaN; all others, and tags, are refused. */
  lemma SimpleIs(data: seq<byte>, pos: nat, depth: nat, cfg: Config)
    requires pos < |data| && depth <= cfg.cap && data[pos] >= 192
    requires DecodeArg(data, pos + 1, data[pos] as nat % 32).Ok?
    ensures var r, head := DecodeItem(data, pos, depth, cfg), DecodeArg(data, pos + 1, data[pos] as nat % 32);
            (r.Ok? <==> 0xF4 <= data[pos] <= 0xF7 || (data[pos] == 0xFB && head.value / 0x10_0000_0000_0000 % 0x800 < 0x7FF)) &&
            (r.Ok? ==> r.next == head.next) &&
            (r.Ok? && data[pos] <= 0xF5 ==> r.value == Bool(data[pos] == 0xF5)) &&
            (r.Ok? && 0xF6 <= data[pos] <= 0xF7 ==> r.value == Null) &&
            (r.Ok? && data[pos] == 0xFB ==> r.value == Num(Float(head.value)))
  {
    var head := DecodeArg(data, pos + 1, data[pos] as nat % 32);
    ContentOf(data, pos, head.value, head.next, depth, cfg);
  }

  predicate IsSmall(v: Value) {
    match v
    case Num(PosInt(u)) => u < 256
    case _ => false
  }

  /** An array is written as a byte string exactly when it is not empty and holds only integers from 0 to 255, and then as these
      bytes; any other array is written as an array. */
  lemma ByteStringIff(items: seq<Value>)
    requires |items| < U64
    ensures var bytes, small := Encode(Array(items)), items != [] && forall i :: 0 <= i < |items| ==> IsSmall(items[i]);
            bytes[0] as nat / 32 == (if small then 2 else 4) &&
            (small ==> |bytes| == 1 + Width(|items|) + |items| &&
                       forall i :: 0 <= i < |items| ==> items[i] == Num(PosInt(bytes[1 + Width(|items|) + i] as nat)))
  {
    assert forall i :: 0 <= i < |items| ==> (IsSmall(items[i]) <==> IsByteNumber(items[i]));
    InitialByte(2, |items|);
    InitialByte(4, |items|);
  }

  // ---------------------------------------------------------------- UTF-8

  /** The Unicode scalar values: all code points but the surrogates. */
  predicate IsScalar(c: nat) {
    c < 0xD800 || 0xE000 <= c < 0x11_0000
  }

  /** Section 3 of RFC 3629. */
  function EncodeScalar(c: nat): (bytes: seq<byte>)
    requires IsScalar(c)
    ensures bytes != []
  {
    if c < 0x80 then [c as byte]
    else if c < 0x800 then [(0xC0 + c / 0x40) as byte, (0x80 + c % 0x40) as byte]
    else if c < 0x1_0000 then [(0xE0 + c / 0x1000) as byte, (0x80 + c / 0x40 % 0x40) as byte, (0x80 + c % 0x40) as byte]
    else [(0xF0 + c / 0x4_0000) as byte, (0x80 + c / 0x1000 % 0x40) as byte, (0x80 + c / 0x40 % 0x40) as byte, (0x80 + c % 0x40) as byte]
  }

  predicate AreScalars(cs: seq<nat>) {
    forall i :: 0 <= i < |cs| ==> IsScalar(cs[i])
  }

  function EncodeScalars(cs: seq<nat>): seq<byte>
    requires AreScalars(cs)
  {
    if cs == [] then [] else EncodeScalar(cs[0]) + EncodeScalars(cs[1..])
  }

  lemma EncodingIsSequence(c: nat)
    requires IsScalar(c)
    ensures SequenceLength(EncodeScalar(c), 0) == |EncodeScalar(c)|
  {
  }

  lemma HeldAt(s: seq<byte>, i: nat, bytes: seq<byte>, k: nat)
    requires Holds(s, i, bytes) && k < |bytes|
    ensures s[i + k] == bytes[k]
  {
    assert s[i..i + |bytes|][k] == bytes[k];
  }

  /** A scalar is recognised in its encoding, wherever that stands. */
  lemma ScalarIsSequence(c: nat, s: seq<byte>, i: nat)
    requires IsScalar(c) && i < |s| && Holds(s, i, EncodeScalar(c))
    ensures SequenceLength(s, i) == |EncodeScalar(c)|
  {
    var bytes := EncodeScalar(c);
    EncodingIsSequence(c);
    HeldAt(s, i, bytes, 0);
    if |bytes| > 1 {
      HeldAt(s, i, bytes, 1);
    }
    if |bytes| > 2 {
      HeldAt(s, i, bytes, 2);
    }
    if |bytes| > 3 {
      HeldAt(s, i, bytes, 3);
    }
    SameSequence(s, i, bytes);
  }

  lemma SameSequence(s: seq<byte>, i: nat, bytes: seq<byte>)
    requires bytes != [] && i + |bytes| <= |s| && |bytes| <= 4 && SequenceLength(bytes, 0) == |bytes|
    requires s[i] == bytes[0] && (|bytes| > 1 ==> s[i + 1] == bytes[1]) && (|bytes| > 2 ==> s[i + 2] == bytes[2])
    requires |bytes| > 3 ==> s[i + 3] == bytes[3]
    ensures SequenceLength(s, i) == |bytes|
  {
  }

  lemma TwoBytes(a: byte, b: byte) returns (c: nat)
    requires 0xC2 <= a < 0xE0 && Continuation(b)
    ensures IsScalar(c) && EncodeScalar(c) == [a, b]
  {
    c := (a as nat - 0xC0) * 0x40 + (b as nat - 0x80);
    assert c / 0x40 == a as nat - 0xC0 && c % 0x40 == b as nat - 0x80;
  }

  lemma ThreeBytes(a: byte, b: byte, d: byte) returns (c: nat)
    requires 0xE0 <= a < 0xF0 && Continuation(b) && Continuation(d)
    requires (a == 0xE0 ==> b >= 0xA0) && (a == 0xED ==> b < 0xA0)
    ensures IsScalar(c) && EncodeScalar(c) == [a, b, d]
  {
    var high := (a as nat - 0xE0) * 0x40 + (b as nat - 0x80);
    c := high * 0x40 + (d as nat - 0x80);
    assert c / 0x40 == high && c % 0x40 == d as nat - 0x80;
    assert high % 0x40 == b as nat - 0x80 && c / 0x1000 == a as nat - 0xE0;
  }

  lemma FourBytes(a: byte, b: byte, d: byte, e: byte) returns (c: nat)
    requires 0xF0 <= a < 0xF5 && Continuation(b) && Continuation(d) && Continuation(e)
    requires (a == 0xF0 ==> b >= 0x90) && (a == 0xF4 ==> b < 0x90)
    ensures IsScalar(c) && EncodeScalar(c) == [a, b, d, e]
  {
    var top := (a as nat - 0xF0) * 0x40 + (b as nat - 0x80);
    var high := top * 0x40 + (d as nat - 0x80);
    c := high * 0x40 + (e as nat - 0x80);
    assert c / 0x40 == high && c % 0x40 == e as nat - 0x80;
    assert high % 0x40 == d as nat - 0x80 && c / 0x1000 == top;
    assert top % 0x40 == b as nat - 0x80 && c / 0x4_0000 == a as nat - 0xF0;
  }

  /** What is recognised is the encoding of a scalar. */
  lemma SequenceIsScalar(s: seq<byte>, i: nat) returns (c: nat)
    requires i < |s| && SequenceLength(s, i) > 0 && i + SequenceLength(s, i) <= |s|
    ensures IsScalar(c) && Holds(s, i, EncodeScalar(c)) && |EncodeScalar(c)| == SequenceLength(s, i)
  {
    var n := SequenceLength(s, i);
    if n == 1 {
      c := s[i] as nat;
    } else if n == 2 {
      c := TwoBytes(s[i], s[i + 1]);
    } else if n == 3 {
      c := ThreeBytes(s[i], s[i + 1], s[i + 2]);
    } else {
      c := FourBytes(s[i], s[i + 1], s[i + 2], s[i + 3]);
    }
    assert s[i..i + n] == EncodeScalar(c);
  }

  lemma {:induction false} ScalarsAreUtf8(cs: seq<nat>, s: seq<byte>, i: nat)
    requires AreScalars(cs) && i <= |s| && s[i..] == EncodeScalars(cs)
    ensures Utf8From(s, i)
    decreases |cs|
  {
    if cs != [] {
      var first, n := EncodeScalar(cs[0]), |EncodeScalar(cs[0])|;
      assert s[i..i + n] == s[i..][..n] == first;
      ScalarIsSequence(cs[0], s, i);
      assert s[i + n..] == s[i..][n..] == EncodeScalars(cs[1..]);
      ScalarsAreUtf8(cs[1..], s, i + n);
    }
  }

  lemma {:induction false} Utf8IsScalars(s: seq<byte>, i: nat) returns (cs: seq<nat>)
    requires i <= |s| && Utf8From(s, i)
    ensures AreScalars(cs) && s[i..] == EncodeScalars(cs)
    decreases |s| - i
  {
    cs := [];
    if i < |s| {
      var c := SequenceIsScalar(s, i);
      var rest := Utf8IsScalars(s, i + SequenceLength(s, i));
      cs := [c] + rest;
      assert cs[1..] == rest;
      assert s[i..] == s[i..i + SequenceLength(s, i)] + s[i + SequenceLength(s, i)..];
    }
  }

  /** A byte string is taken for text if and only if it is the UTF-8 encoding of some Unicode scalar values. */
  lemma Utf8Iff(s: seq<byte>)
    ensures Utf8(s) <==> exists cs :: AreScalars(cs) && s == EncodeScalars(cs)
  {
    assert s[0..] == s;
    if Utf8(s) {
      var cs := Utf8IsScalars(s, 0);
    }
    if cs :| AreScalars(cs) && s == EncodeScalars(cs) {
      ScalarsAreUtf8(cs, s, 0);
    }
  }

  // ---------------------------------------------------------------- what is read is a JSON value

  /** The text of a double is text. */
  ghost predicate PrintsText(cfg: Config) {
    forall bits :: Utf8(cfg.floatText(bits)) && |cfg.floatText(bits)| < U64
  }

  lemma {:induction false} AsciiIsUtf8(s: seq<byte>, i: nat)
    requires i <= |s| && forall k :: i <= k < |s| ==> s[k] < 0x80
    ensures Utf8From(s, i)
    decreases |s| - i
  {
    if i < |s| {
      AsciiIsUtf8(s, i + 1);
    }
  }

  lemma NumberTextIsUtf8(n: Number, cfg: Config)
    requires Valid(Num(n)) && PrintsText(cfg)
    ensures Utf8(NumberText(n, cfg)) && |NumberText(n, cfg)| < U64
  {
    if !n.Float? {
      var i := IntegerOf(n);
      DigitsAre(if i < 0 then -i else i);
      AsciiIsUtf8(NumberText(n, cfg), 0);
    }
  }

  lemma {:induction false} ValidOneMore(items: seq<Value>, item: Value, room: int)
    requires ValidItems(items) && FitItems(items, room) && Valid(item) && Fits(item, room)
    ensures ValidItems(items + [item]) && FitItems(items + [item], room)
    decreases |items|
  {
    if items == [] {
      assert [] + [item] == [item] && [item][1..] == [];
    } else {
      assert (items + [item])[1..] == items[1..] + [item];
      ValidOneMore(items[1..], item, room);
    }
  }

  lemma {:induction false} ValidBytes(bytes: seq<byte>, i: nat)
    requires i <= |bytes|
    ensures ValidItems(BytesAsArray(bytes).items[i..])
    decreases |bytes| - i
  {
    if i < |bytes| {
      ValidBytes(bytes, i + 1);
      assert BytesAsArray(bytes).items[i..][1..] == BytesAsArray(bytes).items[i + 1..];
    }
  }

  lemma BytesAreValid(bytes: seq<byte>, room: nat)
    requires |bytes| < U64
    ensures Valid(BytesAsArray(bytes)) && Fits(BytesAsArray(bytes), room)
  {
    var items := BytesAsArray(bytes).items;
    ValidBytes(bytes, 0);
    assert items[0..] == items;
    if items != [] {
      assert IsByteArray(items);
    }
  }

  lemma {:induction false} ReadableAreValid(entries: seq<Entry>, room: int)
    requires IsAscending(entries) && AllReadable(entries, room)
    ensures ValidEntries(entries) && FitEntries(entries, room)
    decreases |entries|
  {
    if entries != [] {
      var rest := entries[1..];
      ReadableRest(entries, room);
      assert forall i :: 0 <= i < |rest| ==> rest[i] == entries[i + 1];
      ReadableAreValid(rest, room);
    }
  }

  lemma {:induction false} InsertGrows(entries: seq<Entry>, key: seq<byte>, value: Value)
    ensures |Insert(entries, key, value)| <= |entries| + 1
    decreases |entries|
  {
    if entries != [] {
      InsertGrows(entries[1..], key, value);
    }
  }

  lemma InsertReadable(entries: seq<Entry>, e: Entry, room: int)
    requires IsAscending(entries) && AllReadable(entries, room) && IsReadable(e, room)
    ensures var more := Insert(entries, e.key, e.value);
            IsAscending(more) && AllReadable(more, room) && |more| <= |entries| + 1
  {
    InsertIs(entries, e.key, e.value);
    InsertGrows(entries, e.key, e.value);
  }

  /** Whatever the decoder accepts is a JSON value: integers in range, doubles finite, text in UTF-8, keys in order and once
      each; and it fits the depth that was left. */
  lemma {:induction false} DecodedIsValid(data: seq<byte>, pos: nat, depth: nat, cfg: Config)
    requires pos <= |data| && |data| < U64 && PrintsText(cfg) && DecodeItem(data, pos, depth, cfg).Ok?
    ensures var v := DecodeItem(data, pos, depth, cfg).value; Valid(v) && Fits(v, cfg.cap - depth)
    decreases |data| - pos, 0
  {
    var head := DecodeArg(data, pos + 1, data[pos] as nat % 32);
    var major := data[pos] as nat / 32;
    ArgIsSmall(data, pos + 1, data[pos] as nat % 32);
    ContentOf(data, pos, head.value, head.next, depth, cfg);
    if major == 2 {
      BytesAreValid(Slice(data, head.next, head.value).value, cfg.cap - depth);
    } else if major == 4 {
      ArrayIsValid(data, head.next, depth, cfg, head.value);
    } else if major == 5 {
      MapIsValid(data, head.next, depth, cfg, head.value);
    }
  }

  lemma {:induction false} ArrayIsValid(data: seq<byte>, next: nat, depth: nat, cfg: Config, count: nat)
    requires next <= |data| && |data| < U64 && PrintsText(cfg) && count <= MAX_CBOR_ELEMENTS && depth <= cfg.cap
    requires DecodeItems(data, next, depth + 1, cfg, count, []).Ok?
    ensures var v := Array(DecodeItems(data, next, depth + 1, cfg, count, []).value); Valid(v) && Fits(v, cfg.cap - depth)
    decreases |data| - next, 3
  {
    ItemsAreValid(data, next, depth + 1, cfg, count, []);
  }

  lemma {:induction false} MapIsValid(data: seq<byte>, next: nat, depth: nat, cfg: Config, count: nat)
    requires next <= |data| && |data| < U64 && PrintsText(cfg) && count <= MAX_CBOR_ELEMENTS && depth <= cfg.cap
    requires DecodeEntries(data, next, depth + 1, cfg, count, []).Ok?
    ensures var v := Object(DecodeEntries(data, next, depth + 1, cfg, count, []).value); Valid(v) && Fits(v, cfg.cap - depth)
    decreases |data| - next, 3
  {
    EntriesAreValid(data, next, depth + 1, cfg, count, []);
    ReadableAreValid(DecodeEntries(data, next, depth + 1, cfg, count, []).value, cfg.cap - depth - 1);
  }

  lemma {:induction false} ItemsAreValid(data: seq<byte>, pos: nat, depth: nat, cfg: Config, count: nat, done: seq<Value>)
    requires pos <= |data| && |data| < U64 && PrintsText(cfg) && DecodeItems(data, pos, depth, cfg, count, done).Ok?
    requires ValidItems(done) && FitItems(done, cfg.cap - depth)
    ensures var items := DecodeItems(data, pos, depth, cfg, count, done).value;
            ValidItems(items) && FitItems(items, cfg.cap - depth) && |items| == |done| + count
    decreases |data| - pos, 1
  {
    if count > 0 {
      var item := DecodeItem(data, pos, depth, cfg);
      DecodedIsValid(data, pos, depth, cfg);
      ValidOneMore(done, item.value, cfg.cap - depth);
      ItemsAreValid(data, item.next, depth, cfg, count - 1, done + [item.value]);
    }
  }

  lemma {:induction false} EntriesAreValid(data: seq<byte>, pos: nat, depth: nat, cfg: Config, count: nat, done: seq<Entry>)
    requires pos <= |data| && |data| < U64 && PrintsText(cfg) && DecodeEntries(data, pos, depth, cfg, count, done).Ok?
    requires IsAscending(done) && AllReadable(done, cfg.cap - depth)
    ensures var entries := DecodeEntries(data, pos, depth, cfg, count, done).value;
            IsAscending(entries) && AllReadable(entries, cfg.cap - depth) && |entries| <= |done| + count
    decreases |data| - pos, 2
  {
    if count > 0 {
      var entry := DecodeEntry(data, pos, depth, cfg);
      OneEntryMore(data, pos, depth, cfg, count, done);
      EntryIsReadable(data, pos, depth, cfg);
      InsertReadable(done, entry.value, cfg.cap - depth);
      EntriesAreValid(data, entry.next, depth, cfg, count - 1, Insert(done, entry.value.key, entry.value.value));
    }
  }

  lemma {:induction false} EntryIsReadable(data: seq<byte>, pos: nat, depth: nat, cfg: Config)
    requires pos <= |data| && |data| < U64 && PrintsText(cfg) && DecodeEntry(data, pos, depth, cfg).Ok?
    ensures IsReadable(DecodeEntry(data, pos, depth, cfg).value, cfg.cap - depth)
    decreases |data| - pos, 1
  {
    var key := DecodeItem(data, pos, depth, cfg);
    DecodedIsValid(data, pos, depth, cfg);
    DecodedIsValid(data, key.next, depth, cfg);
    if key.value.Num? {
      NumberTextIsUtf8(key.value.n, cfg);
    }
  }

  /** So whatever body is accepted, and however it was written, what its encoder makes of the value reads as the same value. */
  lemma ReencodingKeeps(data: seq<byte>, suffix: seq<byte>, cfg: Config)
    requires |data| < U64 && PrintsText(cfg) && DecodeItem(data, 0, 0, cfg).Ok?
    requires |Encode(DecodeItem(data, 0, 0, cfg).value) + suffix| < U64
    ensures var v := DecodeItem(data, 0, 0, cfg).value;
            DecodeItem(Encode(v) + suffix, 0, 0, cfg) == Ok(v, |Encode(v)|)
  {
    var v := DecodeItem(data, 0, 0, cfg).value;
    DecodedIsValid(data, 0, 0, cfg);
    StartsWith(Encode(v), suffix, Encode(v) + suffix);
    DecodesEncoding(v, Encode(v) + suffix, 0, 0, cfg);
  }
}
