/**
 The address manager: known addresses in hashed slots of two tables. A table maps the
 slots in use to the key they hold; a slot that is not mapped is empty.
 */
module AddrMan {
  import opened Common

  const NEW_BUCKET_COUNT: nat := 1024
  const TRIED_BUCKET_COUNT: nat := 256
  const BUCKET_SIZE: nat := 64
  const NEW_BUCKETS_PER_SOURCE_GROUP: nat := 64
  const TRIED_BUCKETS_PER_GROUP: nat := 8
  const HORIZON_DAYS: int := 30
  const RETRIES: int := 3
  const MAX_FAILURES: int := 10
  const MIN_FAIL_DAYS: int := 7
  const DAY: int := 24 * 60 * 60
  const WEIGHTED_ROUNDS: nat := 64

  datatype Key = Key(ip: string, port: nat)

  datatype Entry = Entry(
    ip: string, port: nat, services: nat, lastSeen: int, lastTry: int, lastSuccess: int, attempts: int, source: string)

  type Slot = (nat, nat)
  type Table = map<Slot, Key>

  function KeyOf(e: Entry): Key { Key(e.ip, e.port) }

  predicate IsTerrible(e: Entry, now: int)
  {
    if e.lastTry != 0 && e.lastTry >= now - 60 then false
    else
      || e.lastSeen > now + 10 * 60
      || e.lastSeen == 0 || now - e.lastSeen > HORIZON_DAYS * DAY
      || (e.lastSuccess == 0 && e.attempts >= RETRIES)
      || (now - e.lastSuccess > MIN_FAIL_DAYS * DAY && e.attempts >= MAX_FAILURES)
  }

  /**
   An address is worth keeping exactly when it was tried within a minute, or was seen within thirty days and at
   most ten minutes ahead, and either was tried less than three times, or was once reached and was then tried less
   than ten times or reached within a week.
   */
  lemma GoodMeans(e: Entry, now: int)
    ensures !IsTerrible(e, now) <==>
      || (e.lastTry != 0 && now - e.lastTry <= 60)
      || (&& e.lastSeen != 0 && now - 2592000 <= e.lastSeen <= now + 600
          && (e.attempts <= 2 || (e.lastSuccess != 0 && (e.attempts <= 9 || now - e.lastSuccess <= 604800))))
  {}

  /** Time alone restores no address, other than one seen too far ahead. */
  lemma StaysTerrible(e: Entry, now: int, later: int)
    requires IsTerrible(e, now) && now <= later && e.lastSeen <= now + 600
    ensures IsTerrible(e, later)
  {}

  /** The keyed hashes, whatever they are, and the network group of an address. */
  datatype Hashes = Hashes(mix: (nat, string) -> nat, mixValue: (nat, nat) -> nat,
                           group: string -> string, render: Key -> string)

  function PositionIn(h: Hashes, seed: nat, bucket: nat, key: Key): nat
  {
    h.mixValue(h.mix(seed, h.render(key)), bucket) % BUCKET_SIZE
  }

  function NewSlot(h: Hashes, seed: nat, e: Entry): (s: Slot)
    ensures s.0 < NEW_BUCKET_COUNT && s.1 < BUCKET_SIZE
  {
    var addrGroup, sourceGroup := h.group(e.ip), h.group(e.source);
    var h1 := h.mix(h.mix(seed, addrGroup), sourceGroup);
    var bucket := h.mixValue(h.mix(seed, sourceGroup), h1 % NEW_BUCKETS_PER_SOURCE_GROUP) % NEW_BUCKET_COUNT;
    (bucket, PositionIn(h, seed, bucket, KeyOf(e)))
  }

  function TriedSlot(h: Hashes, seed: nat, key: Key): (s: Slot)
    ensures s.0 < TRIED_BUCKET_COUNT && s.1 < BUCKET_SIZE
  {
    var h1 := h.mix(seed, h.render(key));
    var bucket := h.mixValue(h.mix(seed, h.group(key.ip)), h1 % TRIED_BUCKETS_PER_GROUP) % TRIED_BUCKET_COUNT;
    (bucket, PositionIn(h, seed, bucket, key))
  }

  /** The buckets, of so many, that the first n hashes of a group lead to. */
  ghost function Buckets(h: Hashes, seed: nat, group: string, n: nat, count: nat): (s: set<nat>)
    requires count > 0
    ensures |s| <= n
  {
    if n == 0 then {} else Buckets(h, seed, group, n - 1, count) + {h.mixValue(h.mix(seed, group), n - 1) % count}
  }

  lemma {:induction false} InBuckets(h: Hashes, seed: nat, group: string, n: nat, count: nat, k: nat)
    requires count > 0 && k < n
    ensures h.mixValue(h.mix(seed, group), k) % count in Buckets(h, seed, group, n, count)
  {
    if k < n - 1 { InBuckets(h, seed, group, n - 1, count, k); }
  }

  /** Whatever one source group tells about lands in at most 64 of the 1024 new buckets. */
  lemma FewNewBuckets(h: Hashes, seed: nat, group: string, e: Entry, n: nat)
    requires h.group(e.source) == group && n == 64
    ensures |Buckets(h, seed, group, n, 1024)| <= 64
    ensures NewSlot(h, seed, e).0 in Buckets(h, seed, group, n, 1024)
  {
    hide Buckets;
    InBuckets(h, seed, group, n, 1024, h.mix(h.mix(seed, h.group(e.ip)), group) % n);
  }

  /** The reached addresses of one group lie in at most 8 of the 256 tried buckets. */
  lemma FewTriedBuckets(tried: Table, h: Hashes, seed: nat, group: string, s: Slot, n: nat)
    requires AtHome(tried, h, seed) && s in tried && h.group(tried[s].ip) == group && n == 8
    ensures |Buckets(h, seed, group, n, 256)| <= 8 && s.0 in Buckets(h, seed, group, n, 256)
  {
    hide Buckets;
    InBuckets(h, seed, group, n, 256, h.mix(seed, h.render(tried[s])) % n);
  }

  // ---------- What every run keeps ----------

  predicate Holds(t: Table, key: Key) { exists s :: s in t && t[s] == key }

  ghost predicate InGrid(t: Table, buckets: nat)
  {
    forall s :: s in t ==> s.0 < buckets && s.1 < BUCKET_SIZE
  }

  /** A tried key sits in its own slot, so in one only. */
  ghost predicate AtHome(tried: Table, h: Hashes, seed: nat)
  {
    forall s :: s in tried ==> s == TriedSlot(h, seed, tried[s])
  }

  ghost predicate Keyed(entries: map<Key, Entry>)
  {
    forall k :: k in entries ==> KeyOf(entries[k]) == k
  }

  /** Every known entry occupies a slot. */
  ghost predicate Placed(entries: map<Key, Entry>, news: Table, tried: Table)
  {
    forall k :: k in entries ==> Holds(news, k) || Holds(tried, k)
  }

  ghost predicate OneSlot(t: Table)
  {
    forall s, u :: s in t && u in t && t[s] == t[u] ==> s == u
  }

  /** Every slot holds a known entry. */
  ghost predicate Backed(t: Table, entries: map<Key, Entry>)
  {
    forall s :: s in t ==> t[s] in entries
  }

  ghost predicate Apart(news: Table, tried: Table)
  {
    forall s, u :: s in news && u in tried ==> news[s] != tried[u]
  }

  /** Every known entry occupies exactly one slot of exactly one table, and nothing else does. */
  ghost predicate Exact(entries: map<Key, Entry>, news: Table, tried: Table)
  {
    OneSlot(news) && OneSlot(tried) && Backed(news, entries) && Backed(tried, entries) && Apart(news, tried)
  }

  lemma HoldsAfter(t: Table, s: Slot, key: Key)
    ensures Holds(t[s := key], key)
    ensures forall k :: Holds(t, k) && !(s in t && t[s] == k) ==> Holds(t[s := key], k)
  {
    assert t[s := key][s] == key;
    forall k | Holds(t, k) && !(s in t && t[s] == k)
      ensures Holds(t[s := key], k)
    {
      var u :| u in t && t[u] == k;
      assert t[s := key][u] == k;
    }
  }

  // ---------- The table never outgrows its slots ----------

  lemma {:induction false} ValuesBound(t: Table)
    ensures |t.Values| <= |t|
    ensures |t.Values| == |t| <==> OneSlot(t)
    decreases |t|
  {
    if t.Keys != {} {
      var s :| s in t.Keys;
      var rest := t - {s};
      ValuesBound(rest);
      OneLess(t, s, rest);
      OneSlotLess(t, s, rest);
    } else {
      assert t.Values == {};
    }
  }

  lemma OneLess(t: Table, s: Slot, rest: Table)
    requires s in t && rest == t - {s}
    ensures t.Values == rest.Values + {t[s]} && |t| == |rest| + 1
  {
    forall v | v in t.Values
      ensures v in rest.Values + {t[s]}
    {
      var u :| u in t && t[u] == v;
      if u != s { assert rest[u] == v; }
    }
    forall v | v in rest.Values
      ensures v in t.Values
    {
      var u :| u in rest && rest[u] == v;
      assert t[u] == v;
    }
    assert t[s] in t.Values;
    assert t.Keys == rest.Keys + {s};
  }

  lemma OneSlotLess(t: Table, s: Slot, rest: Table)
    requires s in t && rest == t - {s}
    ensures OneSlot(t) <==> OneSlot(rest) && t[s] !in rest.Values
  {
    if OneSlot(rest) && t[s] !in rest.Values {
      forall a, b | a in t && b in t && t[a] == t[b]
        ensures a == b
      {
        if a != s { assert rest[a] in rest.Values; }
        if b != s { assert rest[b] in rest.Values; }
      }
    } else if !OneSlot(rest) {
      var a, b :| a in rest && b in rest && rest[a] == rest[b] && a != b;
      assert t[a] == t[b];
    } else {
      var u :| u in rest && rest[u] == t[s];
      assert t[u] == t[s];
    }
  }

  /** A set of slots inside n buckets of m. */
  lemma {:induction false} GridBound(slots: set<Slot>, n: nat, m: nat)
    requires forall s :: s in slots ==> s.0 < n && s.1 < m
    ensures |slots| <= n * m
    decreases n
  {
    if n == 0 {
      assert slots == {};
    } else {
      var last := set s | s in slots && s.0 == n - 1;
      RowBound(last, n - 1, m);
      GridBound(slots - last, n - 1, m);
      assert slots == (slots - last) + last;
      RowStep(n, m);
    }
  }

  lemma RowStep(n: int, m: int)
    ensures n * m == (n - 1) * m + m
  {}

  lemma {:induction false} RowBound(row: set<Slot>, b: nat, m: nat)
    requires forall s :: s in row ==> s.0 == b && s.1 < m
    ensures |row| <= m
    decreases m
  {
    if m == 0 {
      assert row == {};
    } else {
      var rest := row - {(b, m - 1)};
      RowBound(rest, b, m - 1);
      assert row <= rest + {(b, m - 1)};
      SubsetSize(row, rest + {(b, m - 1)});
    }
  }

  /** At most one entry for every slot there is. */
  lemma SizeBound(entries: map<Key, Entry>, news: Table, tried: Table)
    requires Placed(entries, news, tried) && InGrid(news, NEW_BUCKET_COUNT) && InGrid(tried, TRIED_BUCKET_COUNT)
    ensures |entries| <= (NEW_BUCKET_COUNT + TRIED_BUCKET_COUNT) * BUCKET_SIZE
  {
    KeysInValues(entries, news, tried);
    SubsetSize(entries.Keys, news.Values + tried.Values);
    UnionSize(news.Values, tried.Values);
    ValuesBound(news);
    ValuesBound(tried);
    GridBound(news.Keys, NEW_BUCKET_COUNT, BUCKET_SIZE);
    GridBound(tried.Keys, TRIED_BUCKET_COUNT, BUCKET_SIZE);
  }

  lemma UnionSize<T>(a: set<T>, b: set<T>)
    ensures |a + b| <= |a| + |b|
    ensures a !! b ==> |a + b| == |a| + |b|
  {
    assert a + b == a + (b - a);
    SubsetSize(b - a, b);
    if a !! b { assert b - a == b; }
  }

  lemma KeysAreValues(entries: map<Key, Entry>, news: Table, tried: Table)
    requires Placed(entries, news, tried) && Backed(news, entries) && Backed(tried, entries)
    ensures entries.Keys == news.Values + tried.Values
  {
    KeysInValues(entries, news, tried);
  }

  lemma ApartValues(news: Table, tried: Table)
    requires Apart(news, tried)
    ensures news.Values !! tried.Values
  {
    forall k | k in news.Values
      ensures k !in tried.Values
    {
      var s :| s in news && news[s] == k;
    }
  }

  /** The two counts add up to the size exactly when every slot holds a known entry of its own. */
  lemma CountsAddUp(entries: map<Key, Entry>, news: Table, tried: Table)
    requires Placed(entries, news, tried)
    ensures |entries| == |news| + |tried| <==> Exact(entries, news, tried)
  {
    ValuesBound(news);
    ValuesBound(tried);
    UnionSize(news.Values, tried.Values);
    if Exact(entries, news, tried) {
      KeysAreValues(entries, news, tried);
      ApartValues(news, tried);
    } else {
      SomethingShared(entries, news, tried);
    }
  }

  lemma SomethingShared(entries: map<Key, Entry>, news: Table, tried: Table)
    requires Placed(entries, news, tried) && !Exact(entries, news, tried)
    ensures |entries| < |news| + |tried|
  {
    hide Placed, OneSlot;
    var all := news.Values + tried.Values;
    KeysInValues(entries, news, tried);
    SubsetSize(entries.Keys, all);
    UnionSize(news.Values, tried.Values);
    ValuesBound(news);
    ValuesBound(tried);
    if !Apart(news, tried) {
      var s, u :| s in news && u in tried && news[s] == tried[u];
      Overlap(news.Values, tried.Values, news[s]);
    } else if !(Backed(news, entries) && Backed(tried, entries)) {
      var k :| k in all && k !in entries;
      SubsetSize(entries.Keys, all - {k});
    }
  }

  lemma KeysInValues(entries: map<Key, Entry>, news: Table, tried: Table)
    requires Placed(entries, news, tried)
    ensures entries.Keys <= news.Values + tried.Values
  {
    forall k | k in entries.Keys
      ensures k in news.Values + tried.Values
    {
      assert Holds(news, k) || Holds(tried, k);
    }
  }

  lemma Overlap<T>(a: set<T>, b: set<T>, x: T)
    requires x in a && x in b
    ensures |a + b| < |a| + |b|
  {
    UnionSize(a, b - {x});
    assert a + b == a + (b - {x});
  }

  // ---------- The manager ----------

  class AddrManager {
    const h: Hashes
    const mKey: nat
    var entries: map<Key, Entry>
    var news: Table
    var tried: Table

    ghost predicate Valid()
      reads this
    {
      && InGrid(news, NEW_BUCKET_COUNT) && InGrid(tried, TRIED_BUCKET_COUNT)
      && AtHome(tried, h, mKey) && Keyed(entries) && Placed(entries, news, tried)
    }

    ghost predicate IsExact()
      reads this
    {
      Exact(entries, news, tried)
    }

    constructor (h: Hashes, seed: nat)
      ensures Valid() && IsExact() && entries == map[] && news == map[] && tried == map[] && this.h == h && mKey == seed
    {
      this.h, mKey := h, seed;
      entries, news, tried := map[], map[], map[];
    }

    predicate IsInTried(key: Key)
      reads this
    {
      Holds(tried, key)
    }

    /** A new address takes its slot unless a good one is in it; a known one is only refreshed. */
    method AddLocked(e: Entry, now: int) returns (added: bool)
      requires Valid()
      modifies this`entries, this`news
      ensures Valid() && (old(IsExact()) ==> IsExact())
      ensures added <==> KeyOf(e) !in old(entries) && !GoodHolder(old(entries), old(news), NewSlot(h, mKey, e), now)
      ensures (entries, news) == AfterAdd(old(entries), old(news), tried, e, now, NewSlot(h, mKey, e))
      ensures forall k :: k in old(entries) && k !in entries ==> IsTerrible(old(entries)[k], now)
    {
      hide Holds, Placed, Exact, Keyed, AtHome, InGrid, IsTerrible, NewSlot;
      var key := KeyOf(e);
      if key in entries {
        Refresh(key, e);
        return false;
      }
      var slot := NewSlot(h, mKey, e);
      ghost var dropped := Dropped(entries, news, tried, slot);
      PlaceKeeps(entries, news, tried, e, slot, dropped);
      GridGrows(news, NEW_BUCKET_COUNT, slot, key);
      entries := entries[key := e];
      if slot in news && news[slot] != key {
        var displaced := news[slot];
        if displaced in entries && !IsTerrible(entries[displaced], now) {
          entries := entries - {key};
          assert entries == old(entries);
          return false;
        }
        if displaced in entries && !IsInTried(displaced) { entries := entries - {displaced}; }
      }
      assert entries == (old(entries) - dropped)[key := e];
      news := news[slot := key];
      return true;
    }

    method Add(ip: string, port: nat, services: nat, source: string, now: int) returns (added: bool)
      requires Valid()
      modifies this`entries, this`news
      ensures Valid() && (old(IsExact()) ==> IsExact())
      ensures ip == "" || port == 0 ==> !added && entries == old(entries) && news == old(news)
      ensures ip != "" && port != 0 ==>
        var e := Heard(ip, port, services, source, now);
        && (entries, news) == AfterAdd(old(entries), old(news), tried, e, now, NewSlot(h, mKey, e))
        && (added <==> Key(ip, port) !in old(entries) && !GoodHolder(old(entries), old(news), NewSlot(h, mKey, e), now))
    {
      hide Holds, Placed, Exact, Keyed, AtHome, InGrid, IsTerrible, NewSlot;
      if ip == "" || port == 0 { return false; }
      added := AddLocked(Heard(ip, port, services, source, now), now);
    }

    method Attempt(key: Key, now: int)
      requires Valid()
      modifies this`entries
      ensures Valid() && (old(IsExact()) ==> IsExact())
      ensures entries == Tried(old(entries), key, now)
    {
      hide Placed, Exact;
      if key !in entries { return; }
      SameKeys(entries, Tried(entries, key, now), news, tried);
      entries := entries[key := entries[key].(lastTry := now, attempts := entries[key].attempts + 1)];
    }

    /** A connection succeeded: the address moves to the tried table. */
    method Good(key: Key, now: int)
      requires Valid()
      modifies this
      ensures Valid() && (old(IsExact()) ==> IsExact())
      ensures key in old(entries) ==> key in entries && IsInTried(key)
      ensures (entries, news, tried) == AfterGood(old(entries), old(news), old(tried), key, now, h, mKey)
    {
      hide Holds, Placed, Exact, AtHome, InGrid, NewSlot, TriedSlot, AfterPromote;
      if key !in entries { return; }
      MarkSuccess(key, now);
      if IsInTried(key) { return; }
      Promote(key);
    }

    method MarkSuccess(key: Key, now: int)
      requires key in entries && Valid()
      modifies this`entries
      ensures Valid() && (old(IsExact()) ==> IsExact()) && entries == Succeeded(old(entries), key, now)
    {
      entries := entries[key := entries[key].(lastSuccess := now, lastSeen := now, attempts := 0)];
    }

    method Promote(key: Key)
      requires Valid() && key in entries && !IsInTried(key)
      modifies this
      ensures Valid() && (old(IsExact()) ==> IsExact()) && key in entries && IsInTried(key)
      ensures (entries, news, tried) == AfterPromote(old(entries), old(news), old(tried), key, h, mKey)
    {
      hide Placed, Exact, Keyed, NewSlot, TriedSlot;
      var home := TriedSlot(h, mKey, key);
      PromoteKeeps(entries, news, tried, key, home);
      HoldsAfter(tried, home, key);
      var displaced := if home in tried then tried[home] else key;
      assert displaced == key <==> home !in tried;
      tried := tried[home := key];
      news := Emptied(news, key);
      if displaced == key {
        NothingMoved(entries, news, tried);
        return;
      }
      var slot := if displaced in entries then NewSlot(h, mKey, entries[displaced]) else (0, 0);
      ghost var entries0, news0 := entries, news;
      if displaced in entries {
        if slot !in news {
          news := news[slot := displaced];
        } else {
          entries := entries - {displaced};
        }
      }
      MovedKeeps(entries0, news0, tried, displaced, slot, entries, news);
    }

    /** One line of a saved file: an address that had once been reached goes straight to its tried slot as well. */
    method LoadOne(e: Entry, now: int)
      requires Valid()
      modifies this
      ensures Valid()
      ensures (entries, news, tried) == AfterLine(old(entries), old(news), old(tried), e, now, h, mKey)
      ensures old(IsExact()) ==> (IsExact() <==> !Doubles(old(entries), old(news), old(tried), e, now, h, mKey))
    {
      hide Placed, Exact, Keyed, NewSlot, TriedSlot, IsTerrible, Doubles;
      if IsExact() { LineExactly(entries, news, tried, e, now, h, mKey); }
      if !Usable(e, now) { return; }
      var added := AddLocked(e, now);
      if e.lastSuccess != 0 {
        var key := KeyOf(e);
        if key !in entries { return; }
        var home := TriedSlot(h, mKey, key);
        if home !in tried {
          HoldsAfter(tried, home, key);
          StillPlaced(entries, news, tried, tried[home := key]);
          tried := tried[home := key];
        }
      }
    }

    method Load(loaded: seq<Entry>, now: int)
      requires Valid()
      modifies this
      ensures Valid()
      ensures (entries, news, tried) == AfterLoad(old(entries), old(news), old(tried), loaded, now, h, mKey)
      ensures old(IsExact()) && NoneDoubles(old(entries), old(news), old(tried), loaded, now, h, mKey) ==> IsExact()
      ensures old(IsExact()) && AllGood(old(entries), now) && AllTimely(loaded, now) ==>
        (IsExact() <==> NoneDoubles(old(entries), old(news), old(tried), loaded, now, h, mKey))
    {
      hide Placed, Exact, Keyed, NewSlot, TriedSlot, IsTerrible, InGrid, AtHome, AfterLine, Doubles;
      if IsExact() && AllGood(entries, now) && AllTimely(loaded, now) {
        ExactSettled(entries, news, tried, now, h, mKey);
        LoadExactly(entries, news, tried, loaded, now, h, mKey);
      }
      for i := 0 to |loaded|
        invariant Valid()
        invariant old(IsExact()) && NoneDoubles(old(entries), old(news), old(tried), loaded, now, h, mKey) ==> IsExact()
        invariant (entries, news, tried) == AfterLoad(old(entries), old(news), old(tried), loaded[..i], now, h, mKey)
      {
        LoadOne(loaded[i], now);
        assert loaded[..i + 1][..i] == loaded[..i];
      }
      assert loaded[..|loaded|] == loaded;
    }

    /** A known address that is not terrible, whenever there is one; the coins only decide which. */
    method Select(preferTried: bool, coin: (nat, Key) -> bool, now: int) returns (key: Option<Key>)
      requires Valid()
      ensures key.Some? <==> exists k :: k in entries && !IsTerrible(entries[k], now)
      ensures key.Some? ==> key.value in entries && !IsTerrible(entries[key.value], now)
    {
      hide InGrid, AtHome, Keyed, IsTerrible;
      key := None;
      var round := 0;
      while round < WEIGHTED_ROUNDS + 1
        invariant 0 <= round <= WEIGHTED_ROUNDS + 1 && key.None?
        invariant round == WEIGHTED_ROUNDS + 1 ==> forall k :: k in entries ==> IsTerrible(entries[k], now)
      {
        key := Scan(if preferTried then tried else news, round, coin, now);
        if key.Some? { return; }
        key := Scan(if preferTried then news else tried, round, coin, now);
        if key.Some? { return; }
        if round == WEIGHTED_ROUNDS { NothingGood(entries, news, tried, now); }
        round := round + 1;
      }
    }

    /** One pass over a table, in whatever order. */
    method Scan(table: Table, round: nat, coin: (nat, Key) -> bool, now: int) returns (key: Option<Key>)
      ensures key.Some? ==> key.value in entries && !IsTerrible(entries[key.value], now)
      ensures key.None? && round == WEIGHTED_ROUNDS ==> AllTerrible(entries, table, now)
    {
      hide IsTerrible;
      var slots := table.Keys;
      while slots != {}
        invariant slots <= table.Keys
        invariant round == WEIGHTED_ROUNDS ==>
          forall s :: s in table && s !in slots && table[s] in entries ==> IsTerrible(entries[table[s]], now)
      {
        var s :| s in slots;
        slots := slots - {s};
        var k := table[s];
        if k in entries && !IsTerrible(entries[k], now) && (round == WEIGHTED_ROUNDS || coin(round, k)) {
          return Some(k);
        }
      }
      return None;
    }

    /** A known address heard of again. */
    method Refresh(key: Key, e: Entry)
      requires key in entries && Valid() && KeyOf(e) == key
      modifies this`entries
      ensures Valid()
      ensures (old(IsExact()) ==> IsExact()) && entries == old(entries)[key := Refreshed(old(entries)[key], e)]
    {
      var known := entries[key];
      if e.lastSeen > known.lastSeen { known := known.(lastSeen := e.lastSeen); }
      if e.services != 0 { known := known.(services := e.services); }
      entries := entries[key := known];
    }
  }

  /** The table with every slot of one key emptied. */
  function Emptied(t: Table, key: Key): Table { map s | s in t && t[s] != key :: t[s] }

  /** What becomes of the address a tried slot is taken from: back to the new table if its slot is free. */
  ghost function Moved(entries: map<Key, Entry>, news: Table, displaced: Key, slot: Slot): (map<Key, Entry>, Table)
  {
    if displaced !in entries then (entries, news)
    else if slot !in news then (entries, news[slot := displaced])
    else (entries - {displaced}, news)
  }

  function Succeeded(entries: map<Key, Entry>, key: Key, now: int): map<Key, Entry>
    requires key in entries
  {
    entries[key := entries[key].(lastSuccess := now, lastSeen := now, attempts := 0)]
  }

  /** The state after a key entered the tried table: it left the new table, and whoever held its slot was moved. */
  ghost function AfterPromote(entries: map<Key, Entry>, news: Table, tried: Table, key: Key, h: Hashes, seed: nat)
    : (map<Key, Entry>, Table, Table)
  {
    var home := TriedSlot(h, seed, key);
    if home !in tried then (entries, Emptied(news, key), tried[home := key])
    else
      var displaced := tried[home];
      var slot := if displaced in entries then NewSlot(h, seed, entries[displaced]) else (0, 0);
      var moved := Moved(entries, Emptied(news, key), displaced, slot);
      (moved.0, moved.1, tried[home := key])
  }

  /** The state after a connection to an address succeeded. */
  ghost function AfterGood(entries: map<Key, Entry>, news: Table, tried: Table, key: Key, now: int, h: Hashes,
                           seed: nat)
    : (map<Key, Entry>, Table, Table)
  {
    if key !in entries then (entries, news, tried)
    else if Holds(tried, key) then (Succeeded(entries, key, now), news, tried)
    else AfterPromote(Succeeded(entries, key, now), news, tried, key, h, seed)
  }

  /** A key enters the tried table and leaves the new one. */
  lemma PromoteKeeps(entries: map<Key, Entry>, news: Table, tried: Table, key: Key, home: Slot)
    requires Placed(entries, news, tried) && key in entries && !Holds(tried, key)
    ensures forall k :: k in entries && !(home in tried && tried[home] == k) ==>
              Holds(Emptied(news, key), k) || Holds(tried[home := key], k)
    ensures Exact(entries, news, tried) ==> Exact(entries, Emptied(news, key), tried[home := key])
    ensures Exact(entries, news, tried) && home in tried ==>
      !Holds(Emptied(news, key), tried[home]) && !Holds(tried[home := key], tried[home])
  {
    HoldsAfter(tried, home, key);
    forall k | k in entries && k != key && Holds(news, k)
      ensures Holds(Emptied(news, key), k)
    {
      var s :| s in news && news[s] == k;
      assert Emptied(news, key)[s] == k;
    }
  }

  lemma MovedKeeps(entries: map<Key, Entry>, news: Table, tried: Table, displaced: Key, slot: Slot,
                   entries': map<Key, Entry>, news': Table)
    requires (entries', news') == Moved(entries, news, displaced, slot) && Keyed(entries)
    requires forall k :: k in entries && k != displaced ==> Holds(news, k) || Holds(tried, k)
    ensures Placed(entries', news', tried) && Keyed(entries')
    ensures Exact(entries, news, tried) && !Holds(news, displaced) && !Holds(tried, displaced) ==>
      Exact(entries', news', tried)
  {
    hide Exact, Placed, Holds;
    if displaced !in entries {
      AllPlaced(entries, news, tried);
    } else if slot !in news {
      MovedBack(entries, news, tried, displaced, slot);
    } else {
      Forgotten(entries, news, tried, displaced);
    }
  }

  lemma AllPlaced(entries: map<Key, Entry>, news: Table, tried: Table)
    requires forall k :: k in entries ==> Holds(news, k) || Holds(tried, k)
    ensures Placed(entries, news, tried)
  {}

  lemma MovedBack(entries: map<Key, Entry>, news: Table, tried: Table, displaced: Key, slot: Slot)
    requires displaced in entries && slot !in news
    requires forall k :: k in entries && k != displaced ==> Holds(news, k) || Holds(tried, k)
    ensures Placed(entries, news[slot := displaced], tried)
    ensures Exact(entries, news, tried) && !Holds(news, displaced) && !Holds(tried, displaced) ==>
      Exact(entries, news[slot := displaced], tried)
  {
    assert Placed(entries, news[slot := displaced], tried) by {
      hide Holds;
      HoldsAfter(news, slot, displaced);
    }
    hide Placed;
  }

  lemma Forgotten(entries: map<Key, Entry>, news: Table, tried: Table, displaced: Key)
    requires forall k :: k in entries && k != displaced ==> Holds(news, k) || Holds(tried, k)
    ensures Placed(entries - {displaced}, news, tried)
    ensures Exact(entries, news, tried) && !Holds(news, displaced) && !Holds(tried, displaced) ==>
      Exact(entries - {displaced}, news, tried)
  {}

  /** Which keys are known is all that placement and exactness ask of the entries. */
  lemma SameKeys(entries: map<Key, Entry>, other: map<Key, Entry>, news: Table, tried: Table)
    requires other.Keys == entries.Keys
    ensures Placed(other, news, tried) <==> Placed(entries, news, tried)
    ensures Exact(other, news, tried) <==> Exact(entries, news, tried)
  {
    hide Holds, OneSlot, Apart;
  }

  datatype Call = Add(ip: string, port: nat, services: nat, source: string, now: int) | Attempt(key: Key, now: int)
                | Good(key: Key, now: int) | Load(loaded: seq<Entry>, now: int)

  ghost function Tried(entries: map<Key, Entry>, key: Key, now: int): map<Key, Entry>
  {
    if key !in entries then entries
    else entries[key := entries[key].(lastTry := now, attempts := entries[key].attempts + 1)]
  }

  ghost function AfterCall(entries: map<Key, Entry>, news: Table, tried: Table, call: Call, h: Hashes, seed: nat)
    : (map<Key, Entry>, Table, Table)
  {
    match call
    case Add(ip, port, services, source, now) =>
      if ip == "" || port == 0 then (entries, news, tried)
      else
        var e := Heard(ip, port, services, source, now);
        var a := AfterAdd(entries, news, tried, e, now, NewSlot(h, seed, e));
        (a.0, a.1, tried)
    case Attempt(key, now) => (Tried(entries, key, now), news, tried)
    case Good(key, now) => AfterGood(entries, news, tried, key, now, h, seed)
    case Load(loaded, now) => AfterLoad(entries, news, tried, loaded, now, h, seed)
  }

  /** The state a run of calls leads to from an empty manager. */
  ghost function AfterCalls(calls: seq<Call>, h: Hashes, seed: nat): (map<Key, Entry>, Table, Table)
  {
    if calls == [] then (map[], map[], map[])
    else
      var a := AfterCalls(calls[..|calls| - 1], h, seed);
      AfterCall(a.0, a.1, a.2, calls[|calls| - 1], h, seed)
  }

  /**
   Every run: the state is the specified one, each entry keeps a slot, the size stays bounded, and without
   loading the counts add up.
   */
  method Run(h: Hashes, seed: nat, calls: seq<Call>) returns (m: AddrManager)
    ensures (m.entries, m.news, m.tried) == AfterCalls(calls, h, seed)
    ensures m.Valid() && |m.entries| <= (NEW_BUCKET_COUNT + TRIED_BUCKET_COUNT) * BUCKET_SIZE
    ensures OneSlot(m.tried)
    ensures (forall c :: c in calls ==> !c.Load?) ==> |m.entries| == |m.news| + |m.tried|
  {
    hide Placed, Exact, Keyed, InGrid, AtHome, AfterCall;
    m := new AddrManager(h, seed);
    for i := 0 to |calls|
      invariant fresh(m) && m.h == h
      invariant m.mKey == seed && m.Valid() && ((forall k :: 0 <= k < i ==> !calls[k].Load?) ==> m.IsExact())
      invariant (m.entries, m.news, m.tried) == AfterCalls(calls[..i], h, seed)
    {
      assert calls[..i + 1][..i] == calls[..i];
      RunOne(m, calls[i]);
    }
    assert calls[..|calls|] == calls;
    TriedOnce(m.tried, h, seed);
    SizeBound(m.entries, m.news, m.tried);
    CountsAddUp(m.entries, m.news, m.tried);
  }

  method RunOne(m: AddrManager, call: Call)
    requires m.Valid()
    modifies m
    ensures m.Valid() && (!call.Load? && old(m.IsExact()) ==> m.IsExact())
    ensures (m.entries, m.news, m.tried) == AfterCall(old(m.entries), old(m.news), old(m.tried), call, m.h, m.mKey)
  {
    hide Placed, Exact, Keyed, InGrid, AtHome, AfterAdd, AfterGood, AfterLoad, NewSlot;
    match call
    case Add(ip, port, services, source, now) => var _ := m.Add(ip, port, services, source, now);
    case Attempt(key, now) => m.Attempt(key, now);
    case Good(key, now) => m.Good(key, now);
    case Load(loaded, now) => m.Load(loaded, now);
  }

  lemma TriedOnce(tried: Table, h: Hashes, seed: nat)
    requires AtHome(tried, h, seed)
    ensures OneSlot(tried)
  {}

  /** Loading breaks the sum: a reached address loaded into an empty manager is counted in both tables. */
  method LoadCountsTwice(h: Hashes, seed: nat, e: Entry, now: int) returns (m: AddrManager)
    requires Usable(e, now) && e.lastSuccess != 0
    ensures |m.entries| == 1 && |m.news| == 1 && |m.tried| == 1
  {
    hide NewSlot, TriedSlot, Placed, Exact;
    m := new AddrManager(h, seed);
    m.LoadOne(e, now);
    assert m.entries == map[KeyOf(e) := e];
  }

  /** The entry made of an address heard of now. */
  function Heard(ip: string, port: nat, services: nat, source: string, now: int): Entry
  {
    Entry(ip, port, services, now, 0, 0, 0, if source == "" then ip else source)
  }

  /** A known entry heard of again: seen later, services if any were told. */
  function Refreshed(known: Entry, e: Entry): Entry
  {
    var seen := if e.lastSeen > known.lastSeen then known.(lastSeen := e.lastSeen) else known;
    if e.services != 0 then seen.(services := e.services) else seen
  }

  /** Entries and new table after an address was offered. */
  ghost function AfterAdd(entries: map<Key, Entry>, news: Table, tried: Table, e: Entry, now: int,
                          slot: Slot): (map<Key, Entry>, Table)
  {
    var key := KeyOf(e);
    if key in entries then (entries[key := Refreshed(entries[key], e)], news)
    else if GoodHolder(entries, news, slot, now) then (entries, news)
    else ((entries - Dropped(entries, news, tried, slot))[key := e], news[slot := key])
  }

  /** The whole state after one line of a saved file. */
  ghost function AfterLine(entries: map<Key, Entry>, news: Table, tried: Table, e: Entry, now: int, h: Hashes,
                           seed: nat)
    : (map<Key, Entry>, Table, Table)
  {
    if !Usable(e, now) then (entries, news, tried)
    else
      var a := AfterAdd(entries, news, tried, e, now, NewSlot(h, seed, e));
      var home := TriedSlot(h, seed, KeyOf(e));
      (a.0, a.1, if e.lastSuccess != 0 && KeyOf(e) in a.0 && home !in tried then tried[home := KeyOf(e)] else tried)
  }

  /** A line that puts a key into both tables: once reached, not refused, and its tried slot free. */
  ghost predicate Doubles(entries: map<Key, Entry>, news: Table, tried: Table, e: Entry, now: int, h: Hashes, seed: nat)
  {
    && Usable(e, now) && e.lastSuccess != 0 && TriedSlot(h, seed, KeyOf(e)) !in tried
    && (KeyOf(e) in entries || !GoodHolder(entries, news, NewSlot(h, seed, e), now))
  }

  /** Loading a line keeps every key in one slot exactly when the line does not double. */
  lemma LineExactly(entries: map<Key, Entry>, news: Table, tried: Table, e: Entry, now: int, h: Hashes, seed: nat)
    requires Placed(entries, news, tried) && Keyed(entries) && AtHome(tried, h, seed) && Exact(entries, news, tried)
    ensures var a := AfterLine(entries, news, tried, e, now, h, seed);
            Exact(a.0, a.1, a.2) <==> !Doubles(entries, news, tried, e, now, h, seed)
  {
    if Usable(e, now) {
      hide IsTerrible, NewSlot, TriedSlot;
      var slot, home, key := NewSlot(h, seed, e), TriedSlot(h, seed, KeyOf(e)), KeyOf(e);
      var a := AfterAdd(entries, news, tried, e, now, slot);
      AddKeeps(entries, news, tried, e, now, slot);
      if key in a.0 && home !in tried {
        assert !Holds(tried, key);
        assert Holds(a.1, key);
        DoubledKey(a.0, a.1, tried, key, home);
      }
    }
  }

  /** Offering an address keeps every key in one slot. */
  lemma AddKeeps(entries: map<Key, Entry>, news: Table, tried: Table, e: Entry, now: int, slot: Slot)
    requires Placed(entries, news, tried) && Keyed(entries) && Exact(entries, news, tried)
    ensures var a := AfterAdd(entries, news, tried, e, now, slot);
            Placed(a.0, a.1, tried) && Exact(a.0, a.1, tried)
  {
    hide IsTerrible;
    if KeyOf(e) !in entries { PlaceKeeps(entries, news, tried, e, slot, Dropped(entries, news, tried, slot)); }
  }

  lemma DoubledKey(entries: map<Key, Entry>, news: Table, tried: Table, key: Key, home: Slot)
    requires Holds(news, key)
    ensures !Exact(entries, news, tried[home := key])
  {
    var s :| s in news && news[s] == key;
    assert tried[home := key][home] == key;
  }

  ghost function AfterLoad(entries: map<Key, Entry>, news: Table, tried: Table, loaded: seq<Entry>, now: int,
                           h: Hashes, seed: nat)
    : (map<Key, Entry>, Table, Table)
  {
    if loaded == [] then (entries, news, tried)
    else
      var a := AfterLoad(entries, news, tried, loaded[..|loaded| - 1], now, h, seed);
      AfterLine(a.0, a.1, a.2, loaded[|loaded| - 1], now, h, seed)
  }

  /** No line doubles when its turn comes. */
  ghost predicate NoneDoubles(entries: map<Key, Entry>, news: Table, tried: Table, loaded: seq<Entry>, now: int,
                              h: Hashes, seed: nat)
  {
    forall i :: 0 <= i < |loaded| ==>
      var a := AfterLoad(entries, news, tried, loaded[..i], now, h, seed);
      !Doubles(a.0, a.1, a.2, loaded[i], now, h, seed)
  }

  ghost predicate AllGood(entries: map<Key, Entry>, now: int)
  {
    forall k :: k in entries ==> !IsTerrible(entries[k], now)
  }

  /** What holds while good addresses are loaded, doubled or not. */
  ghost predicate Settled(entries: map<Key, Entry>, news: Table, tried: Table, now: int, h: Hashes, seed: nat)
  {
    && AllGood(entries, now) && Keyed(entries) && AtHome(tried, h, seed) && Placed(entries, news, tried)
    && OneSlot(news) && Backed(news, entries) && Backed(tried, entries)
  }

  /** Every line that loading does not skip is timely. */
  ghost predicate AllTimely(loaded: seq<Entry>, now: int)
  {
    forall i :: 0 <= i < |loaded| && Usable(loaded[i], now) ==> Timely(loaded[i], now)
  }

  /** Seen at some time, and not more than ten minutes from now. */
  predicate Timely(e: Entry, now: int) { 0 < e.lastSeen <= now + 10 * 60 }

  /** Among good addresses no line moves anything: keys only gain slots, so a doubled key stays doubled. */
  lemma LineSettled(entries: map<Key, Entry>, news: Table, tried: Table, e: Entry, now: int, h: Hashes, seed: nat)
    requires Settled(entries, news, tried, now, h, seed) && (Usable(e, now) ==> Timely(e, now))
    ensures var a := AfterLine(entries, news, tried, e, now, h, seed);
            && Settled(a.0, a.1, a.2, now, h, seed)
            && (forall k :: Holds(news, k) ==> Holds(a.1, k)) && (forall k :: Holds(tried, k) ==> Holds(a.2, k))
  {
    hide IsTerrible, NewSlot, TriedSlot, Settled, Holds;
    if Usable(e, now) {
      AddSettled(entries, news, tried, e, now, h, seed);
      var a := AfterAdd(entries, news, tried, e, now, NewSlot(h, seed, e));
      if KeyOf(e) in a.0 { TrySettled(a.0, a.1, tried, KeyOf(e), now, h, seed); }
    }
  }

  lemma AddSettled(entries: map<Key, Entry>, news: Table, tried: Table, e: Entry, now: int, h: Hashes, seed: nat)
    requires Settled(entries, news, tried, now, h, seed) && Timely(e, now) && Usable(e, now)
    ensures var a := AfterAdd(entries, news, tried, e, now, NewSlot(h, seed, e));
            Settled(a.0, a.1, tried, now, h, seed) && forall k :: Holds(news, k) ==> Holds(a.1, k)
  {
    hide IsTerrible, NewSlot, TriedSlot, Settled;
    var slot, key := NewSlot(h, seed, e), KeyOf(e);
    HolderGood(entries, news, tried, slot, now, h, seed);
    if key in entries {
      RefreshSettled(entries, news, tried, e, now, h, seed);
    } else if slot !in news {
      NewSettled(entries, news, tried, e, slot, now, h, seed);
      assert entries - {} == entries;
    }
  }

  lemma HolderGood(entries: map<Key, Entry>, news: Table, tried: Table, slot: Slot, now: int, h: Hashes, seed: nat)
    requires Settled(entries, news, tried, now, h, seed)
    ensures slot in news ==> GoodHolder(entries, news, slot, now)
  {
    hide IsTerrible;
  }

  lemma RefreshSettled(entries: map<Key, Entry>, news: Table, tried: Table, e: Entry, now: int, h: Hashes, seed: nat)
    requires Settled(entries, news, tried, now, h, seed) && Timely(e, now) && KeyOf(e) in entries
    ensures Settled(entries[KeyOf(e) := Refreshed(entries[KeyOf(e)], e)], news, tried, now, h, seed)
  {
    GoodRefreshed(entries[KeyOf(e)], e, now);
    hide IsTerrible, TriedSlot, Holds;
  }

  lemma NewSettled(entries: map<Key, Entry>, news: Table, tried: Table, e: Entry, slot: Slot, now: int,
                   h: Hashes, seed: nat)
    requires Settled(entries, news, tried, now, h, seed) && KeyOf(e) !in entries && slot !in news && !IsTerrible(e, now)
    ensures Settled(entries[KeyOf(e) := e], news[slot := KeyOf(e)], tried, now, h, seed)
    ensures forall k :: Holds(news, k) ==> Holds(news[slot := KeyOf(e)], k)
  {
    HoldsAfter(news, slot, KeyOf(e));
    hide IsTerrible, TriedSlot, Holds;
  }

  lemma TrySettled(entries: map<Key, Entry>, news: Table, tried: Table, key: Key, now: int, h: Hashes, seed: nat)
    requires Settled(entries, news, tried, now, h, seed) && key in entries
    ensures var home := TriedSlot(h, seed, key);
            home !in tried ==>
              && Settled(entries, news, tried[home := key], now, h, seed)
              && forall k :: Holds(tried, k) ==> Holds(tried[home := key], k)
  {
    hide IsTerrible, TriedSlot;
    HoldsAfter(tried, TriedSlot(h, seed, key), key);
  }

  lemma GoodRefreshed(known: Entry, e: Entry, now: int)
    requires !IsTerrible(known, now) && Timely(e, now)
    ensures !IsTerrible(Refreshed(known, e), now)
  {}

  /** From good addresses only, loading keeps every key in one slot exactly when no line doubles. */
  lemma {:induction false} LoadExactly(entries: map<Key, Entry>, news: Table, tried: Table, loaded: seq<Entry>,
                                       now: int, h: Hashes, seed: nat)
    requires Settled(entries, news, tried, now, h, seed) && Exact(entries, news, tried) && AllTimely(loaded, now)
    ensures var a := AfterLoad(entries, news, tried, loaded, now, h, seed);
            && Settled(a.0, a.1, a.2, now, h, seed)
            && (Exact(a.0, a.1, a.2) <==> NoneDoubles(entries, news, tried, loaded, now, h, seed))
            && (!Exact(a.0, a.1, a.2) ==> exists k :: Holds(a.1, k) && Holds(a.2, k))
  {
    hide Settled, Doubles, AfterLine, NoneDoubles, IsTerrible;
    if loaded == [] {
      assert NoneDoubles(entries, news, tried, loaded, now, h, seed) by { NoLines(entries, news, tried, now, h, seed); }
    } else {
      var n := |loaded| - 1;
      var e, a := loaded[n], AfterLoad(entries, news, tried, loaded[..n], now, h, seed);
      LoadExactly(entries, news, tried, loaded[..n], now, h, seed);
      LineSettled(a.0, a.1, a.2, e, now, h, seed);
      NoneDoublesStep(entries, news, tried, loaded, now, h, seed);
      if Exact(a.0, a.1, a.2) {
        SettledParts(a.0, a.1, a.2, now, h, seed);
        LineExactly(a.0, a.1, a.2, e, now, h, seed);
        if Doubles(a.0, a.1, a.2, e, now, h, seed) { DoublesShares(a.0, a.1, a.2, e, now, h, seed); }
      } else {
        var b := AfterLine(a.0, a.1, a.2, e, now, h, seed);
        var k :| Holds(a.1, k) && Holds(a.2, k);
        SharedNotExact(b.0, b.1, b.2, k);
      }
    }
  }

  lemma SettledParts(entries: map<Key, Entry>, news: Table, tried: Table, now: int, h: Hashes, seed: nat)
    requires Settled(entries, news, tried, now, h, seed)
    ensures Placed(entries, news, tried) && Keyed(entries) && AtHome(tried, h, seed)
  {}

  lemma SharedNotExact(entries: map<Key, Entry>, news: Table, tried: Table, k: Key)
    requires Holds(news, k) && Holds(tried, k)
    ensures !Exact(entries, news, tried)
  {
    var s, u :| s in news && u in tried && news[s] == k && tried[u] == k;
  }

  /** A doubling line leaves a key in both tables. */
  lemma DoublesShares(entries: map<Key, Entry>, news: Table, tried: Table, e: Entry, now: int, h: Hashes, seed: nat)
    requires Placed(entries, news, tried) && Keyed(entries) && AtHome(tried, h, seed) && Exact(entries, news, tried)
    requires Doubles(entries, news, tried, e, now, h, seed)
    ensures var a := AfterLine(entries, news, tried, e, now, h, seed);
            Holds(a.1, KeyOf(e)) && Holds(a.2, KeyOf(e))
  {
    hide IsTerrible, NewSlot, TriedSlot;
    var slot, home, key := NewSlot(h, seed, e), TriedSlot(h, seed, KeyOf(e)), KeyOf(e);
    var a := AfterAdd(entries, news, tried, e, now, slot);
    AddKeeps(entries, news, tried, e, now, slot);
    HoldsAfter(tried, home, key);
    assert key in a.0 && !Holds(tried, key);
  }

  lemma NoLines(entries: map<Key, Entry>, news: Table, tried: Table, now: int, h: Hashes, seed: nat)
    ensures NoneDoubles(entries, news, tried, [], now, h, seed)
  {}

  lemma ExactSettled(entries: map<Key, Entry>, news: Table, tried: Table, now: int, h: Hashes, seed: nat)
    requires AllGood(entries, now) && Keyed(entries)
    requires AtHome(tried, h, seed) && Placed(entries, news, tried) && Exact(entries, news, tried)
    ensures Settled(entries, news, tried, now, h, seed)
  {}

  lemma NoneDoublesStep(entries: map<Key, Entry>, news: Table, tried: Table, loaded: seq<Entry>, now: int,
                        h: Hashes, seed: nat)
    requires loaded != []
    ensures var n := |loaded| - 1; var a := AfterLoad(entries, news, tried, loaded[..n], now, h, seed);
            NoneDoubles(entries, news, tried, loaded, now, h, seed) <==>
              NoneDoubles(entries, news, tried, loaded[..n], now, h, seed)
                && !Doubles(a.0, a.1, a.2, loaded[n], now, h, seed)
  {
    hide Doubles, AfterLoad;
    var n := |loaded| - 1;
    assert forall i :: 0 <= i < n ==> loaded[..n][..i] == loaded[..i] && loaded[..n][i] == loaded[i];
  }

  /** What an entry placed in the slot pushes out altogether. */
  ghost function Dropped(entries: map<Key, Entry>, news: Table, tried: Table, slot: Slot): set<Key>
  {
    if slot in news && news[slot] in entries && !Holds(tried, news[slot]) then {news[slot]} else {}
  }

  lemma NothingMoved(entries: map<Key, Entry>, news: Table, tried: Table)
    requires forall k :: k in entries ==> Holds(news, k) || Holds(tried, k)
    ensures Placed(entries, news, tried)
  {}

  predicate Usable(e: Entry, now: int) { 0 < e.port <= 65535 && !IsTerrible(e, now) }

  ghost predicate AllTerrible(entries: map<Key, Entry>, t: Table, now: int)
  {
    forall s :: s in t && t[s] in entries ==> IsTerrible(entries[t[s]], now)
  }

  lemma NothingGood(entries: map<Key, Entry>, news: Table, tried: Table, now: int)
    requires Placed(entries, news, tried) && AllTerrible(entries, news, now) && AllTerrible(entries, tried, now)
    ensures forall k :: k in entries ==> IsTerrible(entries[k], now)
  {
    forall k | k in entries
      ensures IsTerrible(entries[k], now)
    {
      assert Holds(news, k) || Holds(tried, k);
    }
  }

  lemma StillPlaced(entries: map<Key, Entry>, news: Table, tried: Table, more: Table)
    requires Placed(entries, news, tried) && forall k :: Holds(tried, k) ==> Holds(more, k)
    ensures Placed(entries, news, more)
  {}

  lemma GridGrows(t: Table, buckets: nat, slot: Slot, key: Key)
    requires InGrid(t, buckets) && slot.0 < buckets && slot.1 < BUCKET_SIZE
    ensures InGrid(t[slot := key], buckets)
  {}

  /** A new entry in a slot, and what was in the slot forgotten unless it is also a tried address. */
  lemma PlaceKeeps(entries: map<Key, Entry>, news: Table, tried: Table, e: Entry, slot: Slot, dropped: set<Key>)
    requires Placed(entries, news, tried) && Keyed(entries) && KeyOf(e) !in entries
    requires dropped == Dropped(entries, news, tried, slot)
    ensures Placed((entries - dropped)[KeyOf(e) := e], news[slot := KeyOf(e)], tried)
    ensures Keyed((entries - dropped)[KeyOf(e) := e])
    ensures Exact(entries, news, tried) ==> Exact((entries - dropped)[KeyOf(e) := e], news[slot := KeyOf(e)], tried)
  {
    HoldsAfter(news, slot, KeyOf(e));
    if Exact(entries, news, tried) { PlaceExact(entries, news, tried, e, slot, dropped); }
  }

  lemma PlaceExact(entries: map<Key, Entry>, news: Table, tried: Table, e: Entry, slot: Slot, dropped: set<Key>)
    requires Exact(entries, news, tried) && KeyOf(e) !in entries
    requires dropped == Dropped(entries, news, tried, slot)
    ensures Exact((entries - dropped)[KeyOf(e) := e], news[slot := KeyOf(e)], tried)
  {
    assert slot in news ==> news[slot] in entries && !Holds(tried, news[slot]);
  }

  /** The slot is held by a known address that is not terrible. */
  ghost predicate GoodHolder(entries: map<Key, Entry>, news: Table, slot: Slot, now: int)
  {
    slot in news && news[slot] in entries && !IsTerrible(entries[news[slot]], now)
  }
}
