/** A cache with expiring entries and negative entries: what one uncontended call does. */
module Cache {
  import opened Bytes

  /** A comparable key: a struct of two strings. */
  datatype Key = Key(first: string, second: string)

  type Value = string

  const ZERO: Value := ""

  datatype Error = Error(code: nat)

  /** A set err marks a negative entry, whose data is the zero value. An expiry of 0 means never. */
  datatype Item = Item(data: Value, err: Option<Error>, expires: int)

  datatype Outcome = Outcome(value: Value, err: Option<Error>)

  /** A TTL of 0 or less means entries never expire. Without a predicate no error is cacheable. */
  datatype Config = Config(ttl: int, negativeTtl: int, isCacheable: Option<Error -> bool>, render: Key -> string)

  /** How fmt.Sprint renders such a struct. */
  function Sprint(key: Key): string { "{" + key.first + " " + key.second + "}" }

  predicate Expired(item: Item, now: int) { item.expires > 0 && now > item.expires }

  function ExpiryAfter(now: int, ttl: int): (e: int) { if ttl > 0 then now + ttl else 0 }

  function Positive(value: Value, now: int, ttl: int): (item: Item) { Item(value, None, ExpiryAfter(now, ttl)) }

  function Negative(err: Error, now: int, ttl: int): (item: Item) { Item(ZERO, Some(err), ExpiryAfter(now, ttl)) }

  predicate Cacheable(cfg: Config, err: Error) { cfg.isCacheable.Some? && cfg.isCacheable.value(err) }

  /** The entry a load result leaves behind, if any. */
  function EntryFor(cfg: Config, res: Outcome, now: int): (r: Option<Item>) {
    if res.err.None? then Some(Positive(res.value, now, cfg.ttl))
    else if Cacheable(cfg, res.err.value) then Some(Negative(res.err.value, now, cfg.negativeTtl))
    else None
  }

  /** What the caller sees of a result: errors come with the zero value. */
  function Visible(res: Outcome): (r: Outcome) { if res.err.Some? then Outcome(ZERO, res.err) else res }

  function ItemOutcome(item: Item): (r: Outcome) { Outcome(item.data, item.err) }

  predicate LiveIn(items: map<Key, Item>, key: Key, now: int) { key in items && !Expired(items[key], now) }

  /** Only cacheable errors are stored, and with the zero value. */
  predicate WellStored(cfg: Config, items: map<Key, Item>) {
    forall k :: k in items && items[k].err.Some? ==> Cacheable(cfg, items[k].err.value) && items[k].data == ZERO
  }

  class Cache {
    const cfg: Config
    var items: map<Key, Item>

    ghost predicate Valid() reads this { WellStored(cfg, items) }

    constructor (cfg: Config)
      ensures this.cfg == cfg && items == map[] && Valid()
    {
      this.cfg := cfg;
      items := map[];
    }

    method GetItem(key: Key, now: int) returns (r: Option<Item>)
      ensures r.Some? <==> key in items && (items[key].expires <= 0 || now <= items[key].expires)
      ensures r.Some? ==> r.value == items[key]
    {
      if key !in items {
        return None;
      }
      var it := items[key];
      if it.expires > 0 && now > it.expires {
        return None;
      }
      return Some(it);
    }

    /** Negative entries are reported as not found. */
    method Get(key: Key, now: int) returns (value: Value, found: bool)
      ensures found <==>
        key in items && items[key].err.None? && (items[key].expires <= 0 || now <= items[key].expires)
      ensures value == if found then items[key].data else ""
    {
      var it := GetItem(key, now);
      if it.None? || it.value.err.Some? {
        return ZERO, false;
      }
      return it.value.data, true;
    }

    method SetWithTTL(key: Key, value: Value, ttl: int, now: int)
      requires Valid()
      modifies this
      ensures Valid()
      ensures items == old(items)[key := Item(value, None, if ttl > 0 then now + ttl else 0)]
    {
      var expires := 0;
      if ttl > 0 {
        expires := now + ttl;
      }
      items := items[key := Item(value, None, expires)];
    }

    method SetNegative(key: Key, err: Error, now: int)
      requires Valid() && Cacheable(cfg, err)
      modifies this
      ensures Valid()
      ensures items == old(items)[key := Item("", Some(err), if cfg.negativeTtl > 0 then now + cfg.negativeTtl else 0)]
    {
      var expires := 0;
      if cfg.negativeTtl > 0 {
        expires := now + cfg.negativeTtl;
      }
      items := items[key := Item(ZERO, Some(err), expires)];
    }

    method Delete(key: Key)
      requires Valid()
      modifies this
      ensures Valid() && items == old(items) - {key}
    {
      items := items - {key};
    }

    /** One sweep with no other activity removes exactly the expired entries. */
    method Sweep(now: int)
      requires Valid()
      modifies this
      ensures Valid()
      ensures forall k :: k in items <==>
        k in old(items) && (old(items)[k].expires <= 0 || now <= old(items)[k].expires)
      ensures forall k :: k in items ==> items[k] == old(items)[k]
    {
      var keys := items.Keys;
      ghost var seen: set<Key> := {};
      while keys != {}
        invariant keys !! seen && keys + seen == old(items).Keys
        invariant items == map k | k in old(items) && !(k in seen && Expired(old(items)[k], now)) :: old(items)[k]
        decreases keys
      {
        var k :| k in keys;
        var item := items[k];
        if item.expires > 0 && now > item.expires {
          items := items - {k};
        }
        keys := keys - {k};
        seen := seen + {k};
      }
    }

    /**
     A call without competition, where `load` is what loading would give: a live entry answers, and
     otherwise the load runs and leaves its entry.
     */
    method GetOrLoad(key: Key, load: Outcome, now: int) returns (res: Outcome, ran: bool)
      requires Valid()
      modifies this
      ensures Valid()
      ensures ran <==> !(key in old(items) && (old(items)[key].expires <= 0 || now <= old(items)[key].expires))
      ensures !ran ==> items == old(items) && res.value == items[key].data && res.err == items[key].err
      ensures ran ==> res.err == load.err && res.value == if load.err.Some? then "" else load.value
      // no other entry changes, and this one only if there is something to store
      ensures items - {key} == old(items) - {key}
      ensures ran && load.err.Some? && !(cfg.isCacheable.Some? && cfg.isCacheable.value(load.err.value)) ==>
        items == old(items)
      // a value lives until its TTL is over
      ensures ran && load.err.None? ==>
        && key in items && items[key].data == load.value && items[key].err == None
        && items[key].expires == (if cfg.ttl > 0 then now + cfg.ttl else 0)
        && (now >= 0 ==> forall t :: LiveIn(items, key, t) <==> (cfg.ttl <= 0 || t <= now + cfg.ttl))
      // and a cacheable error until the negative TTL is
      ensures ran && load.err.Some? && cfg.isCacheable.Some? && cfg.isCacheable.value(load.err.value) ==>
        && key in items && items[key].data == "" && items[key].err == load.err
        && items[key].expires == (if cfg.negativeTtl > 0 then now + cfg.negativeTtl else 0)
        && (now >= 0 ==> forall t :: LiveIn(items, key, t) <==> (cfg.negativeTtl <= 0 || t <= now + cfg.negativeTtl))
    {
      var it := GetItem(key, now);
      if it.Some? {
        return ItemOutcome(it.value), false;
      }
      ran := true;
      if load.err.Some? {
        if cfg.isCacheable.Some? && cfg.isCacheable.value(load.err.value) {
          SetNegative(key, load.err.value, now);
        }
        res := Outcome(ZERO, load.err);
      } else {
        SetWithTTL(key, load.value, cfg.ttl, now);
        res := load;
      }
    }
  }
}
