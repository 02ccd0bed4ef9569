/** Why 33: the typed decoder that replaced the legacy one limits nested containers, the legacy one limited the
    depth of items. Both limits are compared on every byte string that the legacy decoder could read at any depth.

    The typed decoder is a library; only its depth accounting is modelled: entering an array or a map uses up one
    level of the limit, and text, bytes and numbers use none. */
module NestingLimit {
  import opened LegacyCodec
  import opened CborRoundTrip
  import opened Numbers

  const BODY_RECURSION_LIMIT: nat := 33

  /** The nesting of an item: a leaf, or a container with its elements; a map has its keys and values in turn. */
  datatype Shape = Leaf | Container(parts: seq<Shape>)

  // ---------------------------------------------------------------- reading the shape

  datatype Read<+T> = Read(value: T, next: nat) | NotRead

  /** The shape of the item at `pos`, whatever its depth. */
  function ShapeAt(data: seq<byte>, pos: nat): (r: Read<Shape>)
    requires pos <= |data|
    ensures r.Read? ==> pos < r.next <= |data|
    decreases |data| - pos, 0
  {
    if pos >= |data| then NotRead
    else
      var major := data[pos] as nat / 32;
      var head := DecodeArg(data, pos + 1, data[pos] as nat % 32);
      if head.Err? then NotRead
      else if major == 2 || major == 3 then
        if head.next + head.value > |data| then NotRead else Read(Leaf, head.next + head.value)
      else if major == 4 || major == 5 then
        var parts := ShapesAt(data, head.next, if major == 4 then head.value else 2 * head.value);
        if parts.NotRead? then NotRead else Read(Container(parts.value), parts.next)
      else if major == 6 then NotRead
      else Read(Leaf, head.next)
  }

  function ShapesAt(data: seq<byte>, pos: nat, count: nat): (r: Read<seq<Shape>>)
    requires pos <= |data|
    ensures r.Read? ==> pos <= r.next <= |data|
    decreases |data| - pos, 1
  {
    if count == 0 then Read([], pos)
    else
      var first := ShapeAt(data, pos);
      if first.NotRead? then NotRead
      else
        var rest := ShapesAt(data, first.next, count - 1);
        if rest.NotRead? then NotRead else Read([first.value] + rest.value, rest.next)
  }

  // ---------------------------------------------------------------- the two measures

  /** The depth of the deepest item below this one: the legacy decoder counts every item, scalars too. */
  function ItemDepth(t: Shape): nat
    decreases t, 0
  {
    match t
    case Leaf => 0
    case Container(parts) => if parts == [] then 0 else 1 + DeepestItem(parts)
  }

  function DeepestItem(parts: seq<Shape>): nat
    decreases parts, 1
  {
    if parts == [] then 0 else Max(ItemDepth(parts[0]), DeepestItem(parts[1..]))
  }

  /** How many containers are nested in one another: the typed decoder counts only these. */
  function Containers(t: Shape): nat
    decreases t, 0
  {
    match t
    case Leaf => 0
    case Container(parts) => 1 + MostContainers(parts)
  }

  function MostContainers(parts: seq<Shape>): nat
    decreases parts, 1
  {
    if parts == [] then 0 else Max(Containers(parts[0]), MostContainers(parts[1..]))
  }

  // ---------------------------------------------------------------- the legacy decoder's cap

  /** What one cap accepts, another accepts with the same result exactly when no item lies deeper than it allows;
      otherwise it refuses for depth. */
  lemma {:induction false} CapIsItemDepth(data: seq<byte>, pos: nat, depth: nat, wide: Config, cfg: Config)
    requires pos <= |data| && wide.floatText == cfg.floatText
    requires DecodeItem(data, pos, depth, wide).Ok?
    ensures var r, t := DecodeItem(data, pos, depth, wide), ShapeAt(data, pos);
            t.Read? && t.next == r.next &&
            DecodeItem(data, pos, depth, cfg) == (if depth + ItemDepth(t.value) <= cfg.cap then r else Err(TooDeep))
    decreases |data| - pos, 0
  {
    var head := DecodeArg(data, pos + 1, data[pos] as nat % 32);
    var major := data[pos] as nat / 32;
    ContentOf(data, pos, head.value, head.next, depth, wide);
    if depth <= cfg.cap {
      ContentOf(data, pos, head.value, head.next, depth, cfg);
    }
    if major == 4 {
      ItemsCap(data, head.next, depth + 1, wide, cfg, head.value, []);
      ShapeOfContainer(data, pos, head.value, head.next);
    } else if major == 5 {
      EntriesCap(data, head.next, depth + 1, wide, cfg, head.value, [], 2 * head.value);
      ShapeOfContainer(data, pos, head.value, head.next);
    }
  }

  lemma ShapeOfContainer(data: seq<byte>, pos: nat, count: nat, next: nat)
    requires pos < |data| && DecodeArg(data, pos + 1, data[pos] as nat % 32) == Ok(count, next)
    requires data[pos] as nat / 32 == 4 || data[pos] as nat / 32 == 5
    ensures var parts := ShapesAt(data, next, if data[pos] as nat / 32 == 4 then count else 2 * count);
            ShapeAt(data, pos) == if parts.NotRead? then NotRead else Read(Container(parts.value), parts.next)
  {
  }

  lemma {:induction false} ItemsCap(data: seq<byte>, pos: nat, depth: nat, wide: Config, cfg: Config, count: nat, done: seq<Value>)
    requires pos <= |data| && wide.floatText == cfg.floatText
    requires DecodeItems(data, pos, depth, wide, count, done).Ok?
    ensures var r, t := DecodeItems(data, pos, depth, wide, count, done), ShapesAt(data, pos, count);
            t.Read? && t.next == r.next && |t.value| == count &&
            DecodeItems(data, pos, depth, cfg, count, done) ==
              (if count == 0 || depth + DeepestItem(t.value) <= cfg.cap then r else Err(TooDeep))
    decreases |data| - pos, 1
  {
    if count > 0 {
      CapIsItemDepth(data, pos, depth, wide, cfg);
      var item := DecodeItem(data, pos, depth, wide);
      ItemsCap(data, item.next, depth, wide, cfg, count - 1, done + [item.value]);
      Unread(data, pos, count);
    }
  }

  lemma Unread(data: seq<byte>, pos: nat, count: nat)
    requires pos <= |data| && count > 0
    ensures var first := ShapeAt(data, pos);
            first.Read? ==>
              var rest, all := ShapesAt(data, first.next, count - 1), ShapesAt(data, pos, count);
              rest.Read? ==>
                all.Read? && all.next == rest.next && |all.value| == 1 + |rest.value| &&
                DeepestItem(all.value) == Max(ItemDepth(first.value), DeepestItem(rest.value))
  {
    var first := ShapeAt(data, pos);
    if first.Read? {
      var rest := ShapesAt(data, first.next, count - 1);
      if rest.Read? {
        var all := [first.value] + rest.value;
        assert all[1..] == rest.value;
      }
    }
  }

  lemma {:induction false} EntriesCap(data: seq<byte>, pos: nat, depth: nat, wide: Config, cfg: Config,
                                      count: nat, done: seq<Entry>, items: nat)
    requires pos <= |data| && wide.floatText == cfg.floatText && items == 2 * count
    requires DecodeEntries(data, pos, depth, wide, count, done).Ok?
    ensures var r, t := DecodeEntries(data, pos, depth, wide, count, done), ShapesAt(data, pos, items);
            t.Read? && t.next == r.next && |t.value| == items &&
            DecodeEntries(data, pos, depth, cfg, count, done) ==
              (if count == 0 || depth + DeepestItem(t.value) <= cfg.cap then r else Err(TooDeep))
    decreases |data| - pos, 2
  {
    if count > 0 {
      EntryCap(data, pos, depth, wide, cfg);
      var entry := DecodeEntry(data, pos, depth, wide);
      var next, after := entry.next, Insert(done, entry.value.key, entry.value.value);
      EntriesFollow(data, pos, depth, wide, count, done, next, after);
      EntriesCap(data, next, depth, wide, cfg, count - 1, after, items - 2);
      EntriesCapStep(data, pos, depth, cfg, count, done, items, entry, after);
    }
  }

  /** One entry and the rest: whether they keep within the cap. */
  lemma EntriesCapStep(data: seq<byte>, pos: nat, depth: nat, cfg: Config, count: nat, done: seq<Entry>, items: nat,
                       entry: Decoded<Entry>, after: seq<Entry>)
    requires pos <= |data| && count > 0 && items == 2 * count && entry.Ok? && pos < entry.next <= |data|
    requires after == Insert(done, entry.value.key, entry.value.value)
    requires ShapeAt(data, pos).Read? && ShapeAt(data, ShapeAt(data, pos).next).Read?
    requires var key, value := ShapeAt(data, pos), ShapeAt(data, ShapeAt(data, pos).next);
             value.next == entry.next &&
             DecodeEntry(data, pos, depth, cfg) ==
               if depth + Max(ItemDepth(key.value), ItemDepth(value.value)) <= cfg.cap then entry else Err(TooDeep)
    requires ShapesAt(data, entry.next, items - 2).Read?
    ensures var key, value := ShapeAt(data, pos), ShapeAt(data, ShapeAt(data, pos).next);
            var rest, t := ShapesAt(data, entry.next, items - 2), ShapesAt(data, pos, items);
            t.Read? && t.next == rest.next && |t.value| == 2 + |rest.value| &&
            DeepestItem(t.value) == Max(Max(ItemDepth(key.value), ItemDepth(value.value)), DeepestItem(rest.value)) &&
            DecodeEntries(data, pos, depth, cfg, count, done) ==
              if depth + Max(ItemDepth(key.value), ItemDepth(value.value)) <= cfg.cap
              then DecodeEntries(data, entry.next, depth, cfg, count - 1, after) else Err(TooDeep)
  {
    UnreadPair(data, pos, items);
    if DecodeEntry(data, pos, depth, cfg) == entry {
      EntriesFollow(data, pos, depth, cfg, count, done, entry.next, after);
    } else {
      EntriesFail(data, pos, depth, cfg, count, done);
    }
  }

  lemma EntriesFollow(data: seq<byte>, pos: nat, depth: nat, cfg: Config, count: nat, done: seq<Entry>, next: nat, after: seq<Entry>)
    requires pos <= next <= |data| && count > 0
    requires var entry := DecodeEntry(data, pos, depth, cfg);
             entry.Ok? && entry.next == next && after == Insert(done, entry.value.key, entry.value.value)
    ensures DecodeEntries(data, pos, depth, cfg, count, done) == DecodeEntries(data, next, depth, cfg, count - 1, after)
  {
  }

  lemma UnreadPair(data: seq<byte>, pos: nat, count: nat)
    requires pos <= |data| && count >= 2
    requires ShapeAt(data, pos).Read? && ShapeAt(data, ShapeAt(data, pos).next).Read?
    ensures var key := ShapeAt(data, pos);
            var value := ShapeAt(data, key.next);
            var rest, all := ShapesAt(data, value.next, count - 2), ShapesAt(data, pos, count);
            rest.Read? ==>
              all.Read? && all.next == rest.next && |all.value| == 2 + |rest.value| &&
              DeepestItem(all.value) == Max(Max(ItemDepth(key.value), ItemDepth(value.value)), DeepestItem(rest.value))
  {
    Unread(data, ShapeAt(data, pos).next, count - 1);
    Unread(data, pos, count);
  }

  lemma EntriesFail(data: seq<byte>, pos: nat, depth: nat, cfg: Config, count: nat, done: seq<Entry>)
    requires pos <= |data| && count > 0 && DecodeEntry(data, pos, depth, cfg).Err?
    ensures DecodeEntries(data, pos, depth, cfg, count, done) == Err(DecodeEntry(data, pos, depth, cfg).error)
  {
  }

  lemma {:induction false} EntryCap(data: seq<byte>, pos: nat, depth: nat, wide: Config, cfg: Config)
    requires pos <= |data| && wide.floatText == cfg.floatText
    requires DecodeEntry(data, pos, depth, wide).Ok?
    ensures var r, key := DecodeEntry(data, pos, depth, wide), ShapeAt(data, pos);
            key.Read? &&
            var value := ShapeAt(data, key.next);
            value.Read? && value.next == r.next &&
            DecodeEntry(data, pos, depth, cfg) ==
              (if depth + Max(ItemDepth(key.value), ItemDepth(value.value)) <= cfg.cap then r else Err(TooDeep))
    decreases |data| - pos, 1
  {
    var key := DecodeItem(data, pos, depth, wide);
    CapIsItemDepth(data, pos, depth, wide, cfg);
    CapIsItemDepth(data, key.next, depth, wide, cfg);
    EntryOf(data, pos, depth, wide);
    EntryOf(data, pos, depth, cfg);
  }

  lemma EntryOf(data: seq<byte>, pos: nat, depth: nat, cfg: Config)
    requires pos <= |data|
    ensures var r, key := DecodeEntry(data, pos, depth, cfg), DecodeItem(data, pos, depth, cfg);
            if key.Err? then r == Err(key.error)
            else
              var value := DecodeItem(data, key.next, depth, cfg);
              r == if value.Err? then Err(value.error)
                   else if key.value.Text? then Ok(Entry(key.value.utf8, value.value), value.next)
                   else if key.value.Num? then Ok(Entry(NumberText(key.value.n, cfg), value.value), value.next)
                   else Err(BadMapKey)
  {
  }

  // ---------------------------------------------------------------- the typed decoder's limit

  datatype Walked = Done(next: nat) | RecursionLimitExceeded | Malformed

  /** The typed decoder's passage over one item with `limit` levels left. */
  function Walk(data: seq<byte>, pos: nat, limit: nat): (r: Walked)
    requires pos <= |data|
    ensures r.Done? ==> pos < r.next <= |data|
    decreases |data| - pos, 0
  {
    if pos >= |data| then Malformed
    else
      var major := data[pos] as nat / 32;
      var head := DecodeArg(data, pos + 1, data[pos] as nat % 32);
      if head.Err? then Malformed
      else if major == 2 || major == 3 then
        if head.next + head.value > |data| then Malformed else Done(head.next + head.value)
      else if major == 4 || major == 5 then
        if limit == 0 then RecursionLimitExceeded
        else WalkAll(data, head.next, limit - 1, if major == 4 then head.value else 2 * head.value, head.next)
      else if major == 6 then Malformed
      else Done(head.next)
  }

  function WalkAll(data: seq<byte>, pos: nat, limit: nat, count: nat, start: nat): (r: Walked)
    requires start <= pos <= |data|
    ensures r.Done? ==> start <= r.next <= |data|
    decreases |data| - pos, 1
  {
    if count == 0 then Done(pos)
    else
      var first := Walk(data, pos, limit);
      if first.Done? then WalkAll(data, first.next, limit, count - 1, start) else first
  }

  /** On a readable item the typed decoder fails only for depth, and exactly when too many containers nest. */
  lemma {:induction false} LimitIsContainers(data: seq<byte>, pos: nat, limit: nat)
    requires pos <= |data| && ShapeAt(data, pos).Read?
    ensures var t := ShapeAt(data, pos);
            Walk(data, pos, limit) == if Containers(t.value) <= limit then Done(t.next) else RecursionLimitExceeded
    decreases |data| - pos, 0
  {
    var head := DecodeArg(data, pos + 1, data[pos] as nat % 32);
    var major := data[pos] as nat / 32;
    if major == 4 || major == 5 {
      ShapeOfContainer(data, pos, head.value, head.next);
      if limit > 0 {
        LimitIsMostContainers(data, head.next, limit - 1, if major == 4 then head.value else 2 * head.value, head.next);
      }
    }
  }

  lemma {:induction false} LimitIsMostContainers(data: seq<byte>, pos: nat, limit: nat, count: nat, start: nat)
    requires start <= pos <= |data| && ShapesAt(data, pos, count).Read?
    ensures var t := ShapesAt(data, pos, count);
            WalkAll(data, pos, limit, count, start) ==
            if MostContainers(t.value) <= limit then Done(t.next) else RecursionLimitExceeded
    decreases |data| - pos, 1
  {
    if count > 0 {
      LimitIsContainers(data, pos, limit);
      var first := ShapeAt(data, pos);
      LimitIsMostContainers(data, first.next, limit, count - 1, start);
      var rest := ShapesAt(data, first.next, count - 1).value;
      assert ([first.value] + rest)[1..] == rest;
    }
  }

  // ---------------------------------------------------------------- the two limits compared

  /** Some item lies exactly `d` levels deep. */
  predicate HasItemAt(t: Shape, d: nat)
    decreases t
  {
    d == 0 || (t.Container? && exists part :: part in t.parts && HasItemAt(part, d - 1))
  }

  /** Every item exactly `d` levels deep is a scalar. */
  predicate OnlyLeavesAt(t: Shape, d: nat)
    decreases t
  {
    if d == 0 then t.Leaf? else t.Container? ==> forall part :: part in t.parts ==> OnlyLeavesAt(part, d - 1)
  }

  lemma {:induction false} MeasuresAre(t: Shape, d: nat)
    ensures ItemDepth(t) >= d <==> HasItemAt(t, d)
    ensures Containers(t) <= d <==> OnlyLeavesAt(t, d)
    decreases t, 0
  {
    if t.Container? && d > 0 {
      MeasuresOfParts(t.parts, d - 1);
    }
  }

  lemma {:induction false} MeasuresOfParts(parts: seq<Shape>, d: nat)
    ensures parts != [] && DeepestItem(parts) >= d <==> exists part :: part in parts && HasItemAt(part, d)
    ensures MostContainers(parts) <= d <==> forall part :: part in parts ==> OnlyLeavesAt(part, d)
    decreases parts, 1
  {
    if parts != [] {
      MeasuresAre(parts[0], d);
      MeasuresOfParts(parts[1..], d);
      assert forall part :: part in parts <==> part == parts[0] || part in parts[1..];
    }
  }

  lemma {:induction false} MeasuresDifferByOne(t: Shape)
    ensures ItemDepth(t) <= Containers(t) <= ItemDepth(t) + 1
    decreases t, 0
  {
    if t.Container? {
      PartsDifferByOne(t.parts);
    }
  }

  lemma {:induction false} PartsDifferByOne(parts: seq<Shape>)
    ensures DeepestItem(parts) <= MostContainers(parts) <= DeepestItem(parts) + 1
    decreases parts, 1
  {
    if parts != [] {
      MeasuresDifferByOne(parts[0]);
      PartsDifferByOne(parts[1..]);
    }
  }

  /** On every body the legacy decoder could read at some depth: what it accepted under its cap of 32, the typed
      decoder does not refuse for depth; and on depth the two disagree exactly when there are items 33 levels deep
      and all of them are scalars. */
  lemma LimitsCompared(data: seq<byte>, wide: Config, cfg: Config)
    requires cfg.cap == MAX_CBOR_DEPTH && wide.floatText == cfg.floatText
    requires DecodeItem(data, 0, 0, wide).Ok?
    ensures var legacy, t := DecodeItem(data, 0, 0, cfg), ShapeAt(data, 0);
            var typed := Walk(data, 0, BODY_RECURSION_LIMIT);
            t.Read? &&
            (legacy.Ok? ==> typed == Done(legacy.next)) &&
            (legacy.Ok? || legacy == Err(TooDeep)) &&
            (typed.Done? || typed == RecursionLimitExceeded) &&
            (legacy.Ok? != typed.Done? <==> HasItemAt(t.value, 33) && OnlyLeavesAt(t.value, 33))
  {
    CapIsItemDepth(data, 0, 0, wide, cfg);
    LimitIsContainers(data, 0, BODY_RECURSION_LIMIT);
    var t := ShapeAt(data, 0).value;
    MeasuresAre(t, 33);
    MeasuresDifferByOne(t);
  }

  // ---------------------------------------------------------------- 33 is the least such limit

  /** `n` arrays around an empty one. */
  function Nest(n: nat): Value {
    if n == 0 then Array([]) else Array([Nest(n - 1)])
  }

  lemma {:induction false} NestIsDeep(n: nat)
    ensures Valid(Nest(n)) && Depth(Nest(n)) == n && Bounded(Nest(n)) && |Encode(Nest(n))| == n + 1
    ensures n > 0 ==> Encode(Nest(n)) == [0x81] + Encode(Nest(n - 1))
    ensures n == 0 ==> Encode(Nest(n)) == [0x80]
  {
    assert BigEndian(n, 0) == [];
    if n > 0 {
      NestIsDeep(n - 1);
      var inner := [Nest(n - 1)];
      assert !IsByteNumber(inner[0]);
      assert inner[1..] == [];
      assert EncodeItems(inner) == Encode(Nest(n - 1)) + [];
      assert EncodeHead(4, 1) == [0x81];
    } else {
      assert EncodeHead(4, 0) == [0x80];
    }
  }

  lemma OneShape(data: seq<byte>, pos: nat)
    requires pos <= |data| && ShapeAt(data, pos).Read?
    ensures ShapesAt(data, pos, 1) == Read([ShapeAt(data, pos).value], ShapeAt(data, pos).next)
  {
    var first := ShapeAt(data, pos);
    assert ShapesAt(data, first.next, 0) == Read([], first.next);
    assert [first.value] + [] == [first.value];
  }

  lemma OneContainer(t: Shape)
    ensures Containers(Container([t])) == 1 + Containers(t)
  {
    assert [t][1..] == [];
    assert MostContainers([t]) == Max(Containers(t), 0);
  }

  lemma {:induction false} NestShape(n: nat, data: seq<byte>, pos: nat)
    requires Holds(data, pos, Encode(Nest(n)))
    ensures ShapeAt(data, pos).Read? && Containers(ShapeAt(data, pos).value) == n + 1
    decreases n
  {
    NestIsDeep(n);
    assert data[pos] == data[pos..pos + n + 1][0];
    if n > 0 {
      HoldsParts(data, pos, [0x81], Encode(Nest(n - 1)));
      NestShape(n - 1, data, pos + 1);
      OneInside(data, pos);
    } else {
      ShapeOfContainer(data, pos, 0, pos + 1);
    }
  }

  lemma OneInside(data: seq<byte>, pos: nat)
    requires pos < |data| && data[pos] == 0x81 && ShapeAt(data, pos + 1).Read?
    ensures var inner, t := ShapeAt(data, pos + 1), ShapeAt(data, pos);
            t.Read? && Containers(t.value) == 1 + Containers(inner.value)
  {
    ShapeOfContainer(data, pos, 1, pos + 1);
    OneShape(data, pos + 1);
    OneContainer(ShapeAt(data, pos + 1).value);
  }

  /** Every smaller limit refuses, for depth, a body that the legacy decoder accepted. */
  lemma SmallerLimitsRefuse(limit: nat, cfg: Config)
    requires limit < BODY_RECURSION_LIMIT && cfg.cap == MAX_CBOR_DEPTH
    ensures exists data :: DecodeItem(data, 0, 0, cfg).Ok? && Walk(data, 0, limit) == RecursionLimitExceeded
  {
    var data := Encode(Nest(32));
    NestIsDeep(32);
    assert data + [] == data;
    RoundTrip(Nest(32), [], cfg);
    assert Holds(data, 0, data);
    NestShape(32, data, 0);
    LimitIsContainers(data, 0, limit);
  }
}
