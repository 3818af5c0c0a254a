/**
 auth-server/src/cache/cache.service.ts over Redis: a key-value store whose entries may carry
 a deadline. Times are milliseconds on one clock, TTLs are seconds. At the very instant of the
 deadline a server may or may not still answer: `lenient` says which, and nothing depends on it.
 */
module Cache {
  import opened Prelude

  const MS_PER_SECOND := 1000

  /** The JSON texts stored: a token string, or the mark left for a revoked token. */
  datatype Value = TokenText(text: string) | UserMark(userId: string)

  datatype Entry = Entry(value: Value, deadline: Option<int>)

  type Store = map<string, Entry>

  predicate Readable(lenient: bool, e: Entry, now: int) {
    e.deadline.None? || now < e.deadline.value || (lenient && now == e.deadline.value)
  }

  function Lookup(lenient: bool, store: Store, key: string, now: int): Option<Value> {
    if key in store && Readable(lenient, store[key], now) then Some(store[key].value) else None
  }

  /** `set`: a missing or zero TTL stores for good; Redis refuses a negative one (None). */
  function Put(store: Store, key: string, value: Value, ttl: Option<int>, now: int): Option<Store> {
    if ttl.None? || ttl.value == 0 then Some(store[key := Entry(value, None)])
    else if ttl.value < 0 then None
    else Some(store[key := Entry(value, Some(now + ttl.value * MS_PER_SECOND))])
  }

  class CacheService {
    var store: Store
    const lenient: bool

    constructor (lenient: bool)
      ensures store == map[] && this.lenient == lenient
    {
      store := map[];
      this.lenient := lenient;
    }

    method Get(key: string, now: int) returns (r: Option<Value>)
      ensures r == Lookup(lenient, store, key, now)
    {
      if key !in store || !Readable(lenient, store[key], now) {
        return None;
      }
      return Some(store[key].value);
    }

    /** False when the server reports an error; then nothing was stored. */
    method Set(key: string, value: Value, ttl: Option<int>, now: int) returns (ok: bool)
      modifies this
      ensures ok == Put(old(store), key, value, ttl, now).Some?
      ensures store == Put(old(store), key, value, ttl, now).GetOr(old(store))
      // what was set can be read back until its time is over, and no longer
      ensures forall t :: ok ==>
                (Lookup(lenient, store, key, t) == Some(value)
                 <==> ttl.GetOr(0) == 0 || t < now + ttl.value * MS_PER_SECOND
                      || (lenient && t == now + ttl.value * MS_PER_SECOND))
      ensures forall k, t :: k != key ==> Lookup(lenient, store, k, t) == Lookup(lenient, old(store), k, t)
    {
      if ttl.Some? && ttl.value != 0 {
        if ttl.value < 0 {
          return false;
        }
        store := store[key := Entry(value, Some(now + ttl.value * MS_PER_SECOND))];
      } else {
        store := store[key := Entry(value, None)];
      }
      return true;
    }

    method Delete(key: string)
      modifies this
      ensures store == old(store) - {key}
    {
      store := store - {key};
    }

    method Reset()
      modifies this
      ensures store == map[]
    {
      store := map[];
    }
  }
}
