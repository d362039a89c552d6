/**
 * The response cache: the `CacheEntry` record with its text encoding
 * `"response|created_at|expires_at"`, the cache key derivation, and
 * `CacheManager`, a key/value table (sled, here a map from byte strings to
 * byte strings) with lookup and lazy deletion, overwriting store, an expiry
 * sweep and clear. The clock is an explicit `now` argument in seconds since
 * the Unix epoch, and `DefaultHasher` is the `hasher` function the manager
 * is built with.
 */
module Cache {
  import opened Wrappers
  import opened RustCore
  import Utf8

  type Bytes = seq<byte>

  /** The sled tree: keys and values are raw bytes. */
  type Db = map<Bytes, Bytes>

  /** A deterministic 64-bit hash of a string, standing for `DefaultHasher`. */
  type StrHasher = string -> u64

  datatype CacheConfig = CacheConfig(enabled: bool, ttlDays: u64, maxSizeMb: u64)

  datatype CacheEntry = CacheEntry(response: string, createdAt: u64, expiresAt: u64)

  /** Why a cache operation failed; each stands for an `AppError::CacheError` message. */
  datatype CacheError =
    | NotUtf8            // "Failed to deserialize cache entry"
    | InvalidFormat      // "Invalid cache entry format"
    | InvalidCreatedAt   // "Invalid created_at timestamp"
    | InvalidExpiresAt   // "Invalid expires_at timestamp"
    | LookupFailed       // "Cache lookup failed"
    | StoreFailed        // "Failed to store in cache"

  const SECONDS_PER_DAY: nat := 24 * 60 * 60

  /** The field separator of the entry encoding and of the key text. */
  const SEP: char := '|'

  // ---------------------------------------------------------------------------
  // CacheEntry
  // ---------------------------------------------------------------------------

  /**
   * `CacheEntry::new` at clock reading `now`. The `u64` arithmetic wraps
   * modulo 2^64, as in a release build.
   */
  function NewEntry(response: string, ttlDays: u64, now: u64): (e: CacheEntry)
    ensures e.response == response && e.createdAt == now
    ensures now + ttlDays * SECONDS_PER_DAY < U64_MODULUS ==>
              e.expiresAt == now + ttlDays * SECONDS_PER_DAY
    ensures ttlDays * SECONDS_PER_DAY < U64_MODULUS <= now + ttlDays * SECONDS_PER_DAY ==>
              e.expiresAt < now
  {
    var lifetime := ttlDays * SECONDS_PER_DAY % U64_MODULUS;
    CacheEntry(response, now, (now + lifetime) % U64_MODULUS)
  }

  /** `CacheEntry::is_expired` at clock reading `now`: strictly past its expiry. */
  predicate IsExpired(e: CacheEntry, now: u64) {
    e.expiresAt < now
  }

  /** An entry is live up to and including the second it expires, and expired from the next one on. */
  lemma ExpiryBoundary(e: CacheEntry, now: u64)
    ensures !IsExpired(e, e.expiresAt)
    ensures now <= e.expiresAt <==> !IsExpired(e, now)
  {
  }

  /** `format!("{}|{}|{}", response, created_at, expires_at)`. */
  function Format(e: CacheEntry): string {
    e.response + [SEP] + Decimal(e.createdAt) + [SEP] + Decimal(e.expiresAt)
  }

  /** `CacheEntry::to_bytes`: well-formed UTF-8 that spells the formatted text. */
  function ToBytes(e: CacheEntry): (bs: Bytes)
    ensures Utf8.Decode(bs) == Some(Format(e))
  {
    Utf8.DecodeEncode(Format(e));
    Utf8.Encode(Format(e))
  }

  /**
   * `CacheEntry::from_bytes`: UTF-8 first, then `splitn(3, '|')`, then the
   * two timestamps as `u64`. An accepted entry is one whose bytes spell its
   * response, a '|', a timestamp text, a '|', a timestamp text.
   */
  function FromBytes(bs: Bytes): (r: Result<CacheEntry, CacheError>)
    ensures Utf8.Decode(bs).None? ==> r == Err(NotUtf8)
    ensures Utf8.Decode(bs).Some? && Count(Utf8.Decode(bs).value, SEP) < 2 ==> r == Err(InvalidFormat)
    ensures r.Ok? ==> SEP !in r.value.response
    ensures r.Ok? ==> exists c: string, x: string ::
              && Utf8.Decode(bs) == Some(r.value.response + [SEP] + c + [SEP] + x)
              && ParseU64(c) == Some(r.value.createdAt)
              && ParseU64(x) == Some(r.value.expiresAt)
  {
    match Utf8.Decode(bs)
    case None => Err(NotUtf8)
    case Some(data) =>
      var parts := SplitN(data, 3, SEP);
      SplitNLength(data, 3, SEP);
      SplitNSepFree(data, 3, SEP);
      if |parts| != 3 then Err(InvalidFormat)
      else match ParseU64(parts[1])
        case None => Err(InvalidCreatedAt)
        case Some(created) =>
          match ParseU64(parts[2])
          case None => Err(InvalidExpiresAt)
          case Some(expires) =>
            SplitNJoin(data, 3, SEP);
            JoinThree(parts, SEP);
            Ok(CacheEntry(parts[0], created, expires))
  }

  /** What `FromBytes` accepts, conversely: any such bytes decode, to those very fields. */
  lemma FromBytesAccepts(bs: Bytes, response: string, c: string, x: string)
    requires SEP !in response
    requires Utf8.Decode(bs) == Some(response + [SEP] + c + [SEP] + x)
    requires ParseU64(c).Some? && ParseU64(x).Some?
    ensures FromBytes(bs) == Ok(CacheEntry(response, ParseU64(c).value, ParseU64(x).value))
  {
    SplitThree(response, c, x, SEP);
  }

  /** `from_bytes(to_bytes(e))` gives `e` back whenever the response has no '|'. */
  lemma EntryRoundTrip(e: CacheEntry)
    requires SEP !in e.response
    ensures FromBytes(ToBytes(e)) == Ok(e)
  {
    Utf8.DecodeEncode(Format(e));
    ParseDecimal(e.createdAt);
    ParseDecimal(e.expiresAt);
    FromBytesAccepts(ToBytes(e), e.response, Decimal(e.createdAt), Decimal(e.expiresAt));
  }

  /**
   * A response that contains '|' never comes back: the third piece of the
   * split then still holds a '|', which is not a timestamp.
   */
  lemma PipedResponseNeverDecodes(e: CacheEntry)
    requires SEP in e.response
    ensures FromBytes(ToBytes(e)).Err?
  {
    Utf8.DecodeEncode(Format(e));
    CountFormat(e);
    CountZero(e.response, SEP);
    TooManySeparators(ToBytes(e));
  }

  /** Text with more than two separators is never an entry: the timestamp after the second one would hold a '|'. */
  lemma TooManySeparators(bs: Bytes)
    requires Utf8.Decode(bs).Some? && Count(Utf8.Decode(bs).value, SEP) > 2
    ensures FromBytes(bs).Err?
  {
    var data := Utf8.Decode(bs).value;
    var parts := SplitN(data, 3, SEP);
    SplitNLength(data, 3, SEP);
    SplitNLastCount(data, 3, SEP);
    assert |parts| == 3;
    var last := parts[|parts| - 1];
    assert Count(last, SEP) == Count(data, SEP) - 2;
    PipedNotTimestamp(last);
    assert ParseU64(parts[2]).None?;
  }

  /** A text holding a '|' never parses as a timestamp. */
  lemma PipedNotTimestamp(s: string)
    requires Count(s, SEP) > 0
    ensures ParseU64(s).None?
  {
    CountZero(s, SEP);
    var i :| 0 <= i < |s| && s[i] == SEP;
  }

  /** The encoded entry holds the response's separators and the two it adds. */
  lemma CountFormat(e: CacheEntry)
    ensures Count(Format(e), SEP) == Count(e.response, SEP) + 2
  {
    var c := Decimal(e.createdAt);
    var x := Decimal(e.expiresAt);
    assert SEP !in c && SEP !in x;
    CountZero(c, SEP);
    CountZero(x, SEP);
    CountAppend(e.response + [SEP] + c + [SEP], x, SEP);
    CountAppend(e.response + [SEP] + c, [SEP], SEP);
    CountAppend(e.response + [SEP], c, SEP);
    CountAppend(e.response, [SEP], SEP);
    assert Count([SEP], SEP) == 1;
  }

  /** Re-encoding a decoded entry and decoding again changes nothing (the text form is normalised). */
  lemma FromBytesStable(bs: Bytes)
    requires FromBytes(bs).Ok?
    ensures FromBytes(ToBytes(FromBytes(bs).value)) == FromBytes(bs)
  {
    EntryRoundTrip(FromBytes(bs).value);
  }

  // ---------------------------------------------------------------------------
  // Cache keys
  // ---------------------------------------------------------------------------

  /** `format!("{}|{}|{}", model, prompt_template_hash, text)`, the text that gets hashed. */
  function KeyText(text: string, model: string, templateHash: u64): string {
    model + [SEP] + Decimal(templateHash) + [SEP] + text
  }

  /** The last `n` bytes of `x`, most significant first (`to_be_bytes` for n == 8). */
  function BigEndian(x: nat, n: nat): (bs: Bytes)
    ensures |bs| == n
  {
    if n == 0 then [] else BigEndian(x / 256, n - 1) + [x % 256]
  }

  function FromBigEndian(bs: Bytes): nat {
    if bs == [] then 0 else FromBigEndian(bs[..|bs| - 1]) * 256 + bs[|bs| - 1]
  }

  function Pow256(n: nat): nat {
    if n == 0 then 1 else 256 * Pow256(n - 1)
  }

  lemma {:induction false} BigEndianRoundTrip(x: nat, n: nat)
    requires x < Pow256(n)
    ensures FromBigEndian(BigEndian(x, n)) == x
  {
    if n > 0 {
      var q, r := x / 256, x % 256;
      assert x == q * 256 + r;
      assert q < Pow256(n - 1);
      var bs := BigEndian(x, n);
      assert bs == BigEndian(q, n - 1) + [r];
      assert bs[..n - 1] == BigEndian(q, n - 1);
      BigEndianRoundTrip(q, n - 1);
    }
  }

  /** `CacheManager::generate_key`: the 8 big-endian bytes of the hash of the key text. */
  function GenerateKey(hasher: StrHasher, text: string, model: string, templateHash: u64): (key: Bytes)
    ensures |key| == 8
    ensures FromBigEndian(key) == hasher(KeyText(text, model, templateHash))
  {
    var h := hasher(KeyText(text, model, templateHash));
    assert Pow256(8) == U64_MODULUS;
    BigEndianRoundTrip(h, 8);
    BigEndian(h, 8)
  }

  /** Two requests share a key exactly when their key texts hash alike. */
  lemma SameKeyIffSameHash(hasher: StrHasher, t1: string, m1: string, h1: u64, t2: string, m2: string, h2: u64)
    ensures GenerateKey(hasher, t1, m1, h1) == GenerateKey(hasher, t2, m2, h2)
            <==> hasher(KeyText(t1, m1, h1)) == hasher(KeyText(t2, m2, h2))
  {
    if hasher(KeyText(t1, m1, h1)) == hasher(KeyText(t2, m2, h2)) {
      var k1 := GenerateKey(hasher, t1, m1, h1);
      var k2 := GenerateKey(hasher, t2, m2, h2);
      assert k1 == BigEndian(hasher(KeyText(t1, m1, h1)), 8);
      assert k2 == BigEndian(hasher(KeyText(t2, m2, h2)), 8);
    }
  }

  /** With '|'-free model names, distinct (text, model, template hash) triples give distinct key texts. */
  lemma KeyTextInjective(t1: string, m1: string, h1: u64, t2: string, m2: string, h2: u64)
    requires SEP !in m1 && SEP !in m2
    requires KeyText(t1, m1, h1) == KeyText(t2, m2, h2)
    ensures t1 == t2 && m1 == m2 && h1 == h2
  {
    SplitThree(m1, Decimal(h1), t1, SEP);
    SplitThree(m2, Decimal(h2), t2, SEP);
    DecimalInjective(h1, h2);
  }

  /** A model name containing '|' lets two different triples share a key text. */
  lemma KeyTextCollision()
    ensures KeyText("x", "a|1", 2) == KeyText("2|x", "a", 1)
  {
  }

  // ---------------------------------------------------------------------------
  // The table operations, as functions of the table's contents
  // ---------------------------------------------------------------------------

  /**
   * `lookup` on table `db` for `key` at clock reading `now`; `getFails`
   * stands for sled's `get` returning an error. Gives the result and the
   * table afterwards.
   */
  function LookupStep(enabled: bool, db: Db, key: Bytes, now: u64, getFails: bool)
    : (out: (Result<Option<string>, CacheError>, Db))
    ensures !enabled ==> out == (Ok(None), db)
    ensures out.1 == db || (key in db && out.1 == db - {key})
    ensures out.0.Ok? && out.0.value.Some? <==>
              && enabled && !getFails && key in db && FromBytes(db[key]).Ok?
              && !IsExpired(FromBytes(db[key]).value, now)
    ensures out.0.Ok? && out.0.value.Some? ==> out.0.value.value == FromBytes(db[key]).value.response
    ensures out.1 != db <==>
              enabled && !getFails && key in db && FromBytes(db[key]).Ok?
              && IsExpired(FromBytes(db[key]).value, now)
    ensures out.1 != db ==> out.0 == Ok(None)
    ensures enabled && getFails ==> out == (Err(LookupFailed), db)
    ensures enabled && !getFails && key !in db ==> out == (Ok(None), db)
    ensures enabled && !getFails && key in db && FromBytes(db[key]).Err? ==> out == (Err(FromBytes(db[key]).error), db)
  {
    if !enabled then (Ok(None), db)
    else if getFails then (Err(LookupFailed), db)
    else if key !in db then (Ok(None), db)
    else match FromBytes(db[key])
      case Err(e) => (Err(e), db)
      case Ok(entry) =>
        if IsExpired(entry, now) then
          assert key !in db - {key};
          (Ok(None), db - {key})
        else (Ok(Some(entry.response)), db)
  }

  /** `store` of `response` under `key` at clock reading `now`; `insertFails` stands for sled's `insert` failing. */
  function StoreStep(enabled: bool, ttlDays: u64, db: Db, key: Bytes, response: string, now: u64, insertFails: bool)
    : (out: (Result<(), CacheError>, Db))
    ensures !enabled ==> out == (Ok(()), db)
    ensures enabled && insertFails ==> out == (Err(StoreFailed), db)
    ensures enabled && !insertFails ==>
              && out.0 == Ok(())
              && out.1.Keys == db.Keys + {key}
              && out.1[key] == ToBytes(NewEntry(response, ttlDays, now))
              && forall k :: k in db && k != key ==> out.1[k] == db[k]
  {
    if !enabled then (Ok(()), db)
    else if insertFails then (Err(StoreFailed), db)
    else (Ok(()), db[key := ToBytes(NewEntry(response, ttlDays, now))])
  }

  /** Stored, then looked up under the same key before it expires: the response comes back. */
  lemma StoreThenLookup(ttlDays: u64, db: Db, key: Bytes, response: string, now: u64, later: u64)
    requires SEP !in response
    requires later <= NewEntry(response, ttlDays, now).expiresAt
    ensures var db' := StoreStep(true, ttlDays, db, key, response, now, false).1;
            LookupStep(true, db', key, later, false) == (Ok(Some(response)), db')
  {
    EntryRoundTrip(NewEntry(response, ttlDays, now));
  }

  /** Stored, then looked up after it expired: a miss, and the entry is gone. */
  lemma StoreThenLookupExpired(ttlDays: u64, db: Db, key: Bytes, response: string, now: u64, later: u64)
    requires SEP !in response
    requires NewEntry(response, ttlDays, now).expiresAt < later
    ensures var db' := StoreStep(true, ttlDays, db, key, response, now, false).1;
            LookupStep(true, db', key, later, false) == (Ok(None), db' - {key})
  {
    EntryRoundTrip(NewEntry(response, ttlDays, now));
  }

  /** A store under one key leaves what a lookup under any other key sees as it was. */
  lemma StoreThenLookupOther(enabled: bool, ttlDays: u64, db: Db, key: Bytes, response: string, now: u64,
                             insertFails: bool, other: Bytes, later: u64, getFails: bool)
    requires other != key
    ensures LookupStep(enabled, StoreStep(enabled, ttlDays, db, key, response, now, insertFails).1, other, later, getFails).0
            == LookupStep(enabled, db, other, later, getFails).0
  {
  }

  /** A stored response containing '|' is never served: every lookup of it reports a decoding error. */
  lemma StoredPipedResponseFails(ttlDays: u64, db: Db, key: Bytes, response: string, now: u64, later: u64)
    requires SEP in response
    ensures var db' := StoreStep(true, ttlDays, db, key, response, now, false).1;
            LookupStep(true, db', key, later, false).0.Err?
  {
    PipedResponseNeverDecodes(NewEntry(response, ttlDays, now));
  }

  /** Storing twice under a key keeps only the second response. */
  lemma StoreOverwrites(ttlDays: u64, db: Db, key: Bytes, first: string, second: string, t1: u64, t2: u64)
    ensures var db1 := StoreStep(true, ttlDays, db, key, first, t1, false).1;
            StoreStep(true, ttlDays, db1, key, second, t2, false).1
            == StoreStep(true, ttlDays, db, key, second, t2, false).1
  {
  }

  /** After `clear`, every lookup whose read succeeds misses. */
  lemma ClearedMisses(enabled: bool, key: Bytes, now: u64)
    ensures LookupStep(enabled, map[], key, now, false) == (Ok(None), map[])
  {
  }

  /** Whether a stored value decodes to an entry that has expired by `now`. */
  predicate HoldsExpired(v: Bytes, now: u64) {
    FromBytes(v).Ok? && IsExpired(FromBytes(v).value, now)
  }

  /** The keys an expiry sweep at `now` removes. */
  function ExpiredKeys(db: Db, now: u64): set<Bytes> {
    set k | k in db && HoldsExpired(db[k], now)
  }

  /** The table after an expiry sweep: undecodable and live entries stay, untouched. */
  function Swept(db: Db, now: u64): (swept: Db)
    ensures forall k :: k in swept <==> k in db && !HoldsExpired(db[k], now)
    ensures forall k :: k in swept ==> swept[k] == db[k]
  {
    map k | k in db && !HoldsExpired(db[k], now) :: db[k]
  }

  /** The members of `m` whose keys are not in `ks`. */
  function Without<K(!new), V>(m: map<K, V>, ks: set<K>): (r: map<K, V>)
    ensures forall k :: k in r <==> k in m && k !in ks
    ensures forall k :: k in r ==> r[k] == m[k]
  {
    map k | k in m && k !in ks :: m[k]
  }

  lemma WithoutGrow<K(!new), V>(m: map<K, V>, ks: set<K>, k: K)
    ensures Without(m, ks) - {k} == Without(m, ks + {k})
  {
  }

  /** Taking `k` off the pending keys adds it to those of `all` already handled, if it is one of them. */
  lemma TakeOne<K>(all: set<K>, pending: set<K>, k: K)
    requires k in pending
    ensures k !in all - pending
    ensures all - (pending - {k}) == if k in all then (all - pending) + {k} else all - pending
  {
  }

  lemma AddFresh<K>(s: set<K>, k: K)
    requires k !in s
    ensures |s + {k}| == |s| + 1
  {
  }

  /** The keys of the members of `m` whose values `drop` accepts. */
  function Dropped<K(!new), V>(m: map<K, V>, drop: V -> bool): (ks: set<K>)
    ensures forall k :: k in ks <==> k in m && drop(m[k])
  {
    set k | k in m && drop(m[k])
  }

  /**
   * The loop of `cleanup_expired`: visits every member once, removes those
   * whose values `drop` accepts, and counts them.
   */
  method RemoveWhere<K(!new), V>(m: map<K, V>, drop: V -> bool) returns (kept: map<K, V>, count: nat)
    ensures kept == Without(m, Dropped(m, drop))
    ensures count == |Dropped(m, drop)|
  {
    kept := m;
    count := 0;
    var pending := m.Keys;
    ghost var removed: set<K> := {};
    ghost var gone := Dropped(m, drop);
    while pending != {}
      invariant pending <= m.Keys
      invariant removed == gone - pending
      invariant kept == Without(m, removed)
      invariant count == |removed|
      decreases |pending|
    {
      var key :| key in pending;
      TakeOne(gone, pending, key);
      if drop(kept[key]) {
        WithoutGrow(m, removed, key);
        AddFresh(removed, key);
        kept := kept - {key};
        removed := removed + {key};
        count := count + 1;
      }
      pending := pending - {key};
    }
    assert removed == gone;
  }

  lemma ExpiredKeysDropped(db: Db, now: u64, drop: Bytes -> bool)
    requires forall v :: drop(v) == HoldsExpired(v, now)
    ensures Dropped(db, drop) == ExpiredKeys(db, now)
  {
  }

  lemma SweptIsWithout(db: Db, now: u64)
    ensures Swept(db, now) == Without(db, ExpiredKeys(db, now))
  {
  }

  /** A sweep removes exactly the expired keys, so it shrinks the table by their number. */
  lemma SweptRemovesExpired(db: Db, now: u64)
    ensures Swept(db, now).Keys == db.Keys - ExpiredKeys(db, now)
    ensures |ExpiredKeys(db, now)| + |Swept(db, now)| == |db|
  {
    var kept := Swept(db, now).Keys;
    var gone := ExpiredKeys(db, now);
    assert kept == db.Keys - gone;
    SplitCard(db.Keys, gone, kept);
  }

  lemma SplitCard<T>(all: set<T>, a: set<T>, b: set<T>)
    requires a <= all && b == all - a
    ensures |a| + |b| == |all|
  {
    assert all == a + b && a * b == {};
  }

  /** A second sweep at the same clock reading removes nothing more. */
  lemma SweepIdempotent(db: Db, now: u64)
    ensures Swept(Swept(db, now), now) == Swept(db, now)
    ensures ExpiredKeys(Swept(db, now), now) == {}
  {
  }

  /** After a sweep, no lookup at that clock reading deletes anything. */
  lemma LookupAfterSweep(db: Db, key: Bytes, now: u64, getFails: bool)
    ensures LookupStep(true, Swept(db, now), key, now, getFails).1 == Swept(db, now)
  {
  }

  // ---------------------------------------------------------------------------
  // CacheManager
  // ---------------------------------------------------------------------------

  class CacheManager {
    /** The contents of the sled tree. */
    var db: Db
    const config: CacheConfig
    const hasher: StrHasher

    /**
     * `CacheManager::new` over a tree that already holds `stored`, opened at
     * clock reading `now`: when the cache is enabled, expired entries are
     * swept first.
     */
    constructor (config: CacheConfig, hasher: StrHasher, stored: Db, now: u64)
      ensures this.config == config && this.hasher == hasher
      ensures db == if config.enabled then Swept(stored, now) else stored
    {
      this.config := config;
      this.hasher := hasher;
      db := stored;
      new;
      if config.enabled {
        var _ := CleanupExpired(now);
      }
    }

    function Key(text: string, model: string, templateHash: u64): Bytes {
      GenerateKey(hasher, text, model, templateHash)
    }

    /** `CacheManager::lookup`, deleting the entry when it has expired. */
    method Lookup(text: string, model: string, templateHash: u64, now: u64, getFails: bool)
      returns (r: Result<Option<string>, CacheError>)
      modifies this
      ensures (r, db) == LookupStep(config.enabled, old(db), Key(text, model, templateHash), now, getFails)
    {
      if !config.enabled {
        return Ok(None);
      }
      var key := GenerateKey(hasher, text, model, templateHash);
      if getFails {
        return Err(LookupFailed);
      }
      if key !in db {
        return Ok(None);
      }
      match FromBytes(db[key])
      case Err(e) =>
        r := Err(e);
      case Ok(entry) =>
        if IsExpired(entry, now) {
          db := db - {key};
          r := Ok(None);
        } else {
          r := Ok(Some(entry.response));
        }
    }

    /** `CacheManager::store`: writes a fresh entry for the response, replacing any earlier one. */
    method Store(text: string, response: string, model: string, templateHash: u64, now: u64, insertFails: bool)
      returns (r: Result<(), CacheError>)
      modifies this
      ensures (r, db) ==
              StoreStep(config.enabled, config.ttlDays, old(db), Key(text, model, templateHash), response, now, insertFails)
    {
      if !config.enabled {
        return Ok(());
      }
      var key := GenerateKey(hasher, text, model, templateHash);
      var entry := NewEntry(response, config.ttlDays, now);
      if insertFails {
        return Err(StoreFailed);
      }
      db := db[key := ToBytes(entry)];
      r := Ok(());
    }

    /**
     * `CacheManager::cleanup_expired` at clock reading `now`: removes every
     * entry that decodes and has expired, and counts them.
     */
    method CleanupExpired(now: u64) returns (count: nat)
      modifies this
      ensures !config.enabled ==> count == 0 && db == old(db)
      ensures config.enabled ==> db == Swept(old(db), now) && count == |ExpiredKeys(old(db), now)|
    {
      if !config.enabled {
        return 0;
      }
      var expired := v => HoldsExpired(v, now);
      var kept, n := RemoveWhere(db, expired);
      ExpiredKeysDropped(db, now, expired);
      SweptIsWithout(db, now);
      db, count := kept, n;
    }

    /** `CacheManager::clear`: empties the table, whether or not the cache is enabled. */
    method Clear()
      modifies this
      ensures db == map[]
    {
      db := map[];
    }
  }
}
