/**
 * The per-chat conversation cache kept in Redis. Redis itself is a map from
 * key to a stored text and its expiry; the commands the store issues (`GET`,
 * `SETEX`, `DEL`, `TTL`) are functions on that map. Every operation works on
 * the key `<keyPrefix>:<chatId>`, and a read treats an empty stored text
 * like a missing one, because the code tests the value for JavaScript
 * truthiness.
 */
module SessionStore {
  import opened Text
  import opened Values

  /** Expiry used when the constructor is given none. */
  const DefaultExpiryMinutes := 30

  /** What Redis holds under a key: the text and the remaining seconds, if any. */
  datatype Expiry = Expires(seconds: nat) | Persistent
  datatype Entry = Entry(value: string, expiry: Expiry)
  type Redis = map<string, Entry>

  /** A store instance: its key namespace and its expiry in minutes. */
  datatype Store = Store(keyPrefix: string, expiryMinutes: int)

  /**
   * The outcome of an asynchronous call: it returned a value, or it threw.
   * Either way Redis may already hold the writes made before the throw.
   */
  datatype Call<T> = Returned(redis: Redis, value: T) | Threw(redis: Redis)

  /** `new SessionStore(aKeyPrefix, aExpiryMinutes = 30)`. */
  function NewStore(keyPrefix: string, expiryMinutes: Option<int>): (s: Store)
    ensures s.keyPrefix == keyPrefix
    ensures expiryMinutes.Some? ==> s.expiryMinutes == expiryMinutes.value
    ensures expiryMinutes.None? ==> s.expiryMinutes == 30
  {
    Store(keyPrefix, if expiryMinutes.Some? then expiryMinutes.value else DefaultExpiryMinutes)
  }

  /** `${this.keyPrefix}:${chatId}`. */
  function Key(s: Store, chatId: string): (k: string)
    ensures |k| == |s.keyPrefix| + 1 + |chatId|
    ensures k[..|s.keyPrefix|] == s.keyPrefix && k[|s.keyPrefix|] == ':'
    ensures k[|s.keyPrefix| + 1..] == chatId
  {
    s.keyPrefix + ":" + chatId
  }

  // ---------------------------------------------------------------------------
  // The Redis commands

  /** `GET key`: the stored text, or null. */
  function RedisGet(r: Redis, key: string): (v: Option<string>)
    ensures v.Some? <==> key in r
    ensures v.Some? ==> v.value == r[key].value
  {
    if key in r then Some(r[key].value) else None
  }

  /**
   * `SETEX key seconds value`: store the text with a fresh expiry. Redis
   * refuses an expiry that is not positive, and the client call throws.
   */
  function SetEx(r: Redis, key: string, seconds: int, value: string): (o: Option<Redis>)
    ensures o.Some? <==> seconds > 0
    ensures o.Some? ==> key in o.value && o.value[key] == Entry(value, Expires(seconds))
    ensures o.Some? ==> forall k :: k != key ==> (k in o.value <==> k in r)
    ensures o.Some? ==> forall k :: k != key && k in r ==> o.value[k] == r[k]
  {
    if seconds > 0 then Some(r[key := Entry(value, Expires(seconds))]) else None
  }

  /** `TTL key`: -2 when the key is missing, -1 when it never expires, else the seconds left. */
  function RedisTtl(r: Redis, key: string): (t: int)
    ensures t == -2 <==> key !in r
    ensures key in r && r[key].expiry.Persistent? ==> t == -1
    ensures key in r && r[key].expiry.Expires? ==> t == r[key].expiry.seconds
  {
    if key !in r then -2
    else match r[key].expiry
      case Persistent => -1
      case Expires(seconds) => seconds
  }

  /** The JavaScript truthiness of what `GET` returned. */
  predicate Present(v: Option<string>) {
    v.Some? && v.value != ""
  }

  // ---------------------------------------------------------------------------
  // The store's operations

  /** `save(chatId, value)`: write with the store's full expiry. */
  function Save(s: Store, r: Redis, chatId: string, value: string): (c: Call<()>)
    ensures c.Returned? <==> s.expiryMinutes > 0
    ensures c.Threw? ==> c.redis == r
    ensures c.Returned? ==> RedisGet(c.redis, Key(s, chatId)) == Some(value)
    ensures c.Returned? ==> RedisTtl(c.redis, Key(s, chatId)) == s.expiryMinutes * 60
  {
    match SetEx(r, Key(s, chatId), s.expiryMinutes * 60, value)
    case Some(r') => Returned(r', ())
    case None => Threw(r)
  }

  /**
   * `saveArray(chatId, array)`: write `JSON.stringify(array)` with the store's
   * full expiry. The encoder is a parameter.
   */
  function SaveArray<T>(s: Store, r: Redis, chatId: string, items: seq<T>, stringify: seq<T> -> string): (c: Call<()>)
    ensures c.Returned? <==> s.expiryMinutes > 0
    ensures c.Threw? ==> c.redis == r
    ensures c.Returned? ==> RedisGet(c.redis, Key(s, chatId)) == Some(stringify(items))
    ensures c.Returned? ==> RedisTtl(c.redis, Key(s, chatId)) == s.expiryMinutes * 60
  {
    Save(s, r, chatId, stringify(items))
  }

  /**
   * `getArray(chatId)`: the decoded array, or `[]` when nothing (or an empty
   * text) is stored. The read never writes. `None` stands for a throw of
   * `JSON.parse`, which is a parameter.
   */
  function GetArray<T>(s: Store, r: Redis, chatId: string, parse: string -> Option<seq<T>>): (a: Option<seq<T>>)
    ensures !Present(RedisGet(r, Key(s, chatId))) ==> a == Some([])
    ensures Present(RedisGet(r, Key(s, chatId))) ==> a == parse(r[Key(s, chatId)].value)
  {
    var v := RedisGet(r, Key(s, chatId));
    if Present(v) then parse(v.value) else Some([])
  }

  /**
   * The shared part of the two refreshing reads: null when nothing is stored,
   * otherwise the stored text, written back with the store's full expiry.
   */
  function ReadAndRefresh(s: Store, r: Redis, chatId: string): (c: Call<Option<string>>)
    ensures !Present(RedisGet(r, Key(s, chatId))) ==> c == Returned(r, None)
    ensures Present(RedisGet(r, Key(s, chatId))) && s.expiryMinutes <= 0 ==> c == Threw(r)
    ensures Present(RedisGet(r, Key(s, chatId))) && s.expiryMinutes > 0 ==>
      c.Returned? && c.value == RedisGet(r, Key(s, chatId)) &&
      RedisGet(c.redis, Key(s, chatId)) == RedisGet(r, Key(s, chatId)) &&
      RedisTtl(c.redis, Key(s, chatId)) == s.expiryMinutes * 60
  {
    var key := Key(s, chatId);
    var v := RedisGet(r, key);
    if !Present(v) then Returned(r, None)
    else match SetEx(r, key, s.expiryMinutes * 60, v.value)
      case Some(r') => Returned(r', v)
      case None => Threw(r)
  }

  /**
   * `getAndRefresh(chatId)`: null when nothing (or "") is stored; otherwise
   * the stored text, re-stored unchanged with the store's full expiry. SETEX
   * refuses an expiry that is not positive, and the call then throws.
   */
  function GetAndRefresh(s: Store, r: Redis, chatId: string): (c: Call<Option<string>>)
    ensures !Present(RedisGet(r, Key(s, chatId))) ==> c == Returned(r, None)
    ensures Present(RedisGet(r, Key(s, chatId))) && s.expiryMinutes <= 0 ==> c == Threw(r)
    ensures Present(RedisGet(r, Key(s, chatId))) && s.expiryMinutes > 0 ==>
      c.Returned? && c.value == RedisGet(r, Key(s, chatId)) &&
      RedisGet(c.redis, Key(s, chatId)) == RedisGet(r, Key(s, chatId)) &&
      RedisTtl(c.redis, Key(s, chatId)) == s.expiryMinutes * 60
    ensures c.Returned? && c.value.Some? ==> c.value.value != ""
  {
    ReadAndRefresh(s, r, chatId)
  }

  /**
   * `getArrayAndRefresh(chatId)`: like `getAndRefresh`, then `JSON.parse` of
   * the text. The refresh is written before the parse, so a parse failure
   * throws with the refresh already made. The `[]` fallback of the return
   * expression is never reached, because the value was tested before.
   */
  function GetArrayAndRefresh<T>(s: Store, r: Redis, chatId: string, parse: string -> Option<seq<T>>): (c: Call<Option<seq<T>>>)
    ensures !Present(RedisGet(r, Key(s, chatId))) ==> c == Returned(r, None)
    ensures Present(RedisGet(r, Key(s, chatId))) && s.expiryMinutes <= 0 ==> c == Threw(r)
    ensures Present(RedisGet(r, Key(s, chatId))) && s.expiryMinutes > 0 ==>
      RedisGet(c.redis, Key(s, chatId)) == RedisGet(r, Key(s, chatId)) &&
      RedisTtl(c.redis, Key(s, chatId)) == s.expiryMinutes * 60 &&
      (parse(r[Key(s, chatId)].value).Some? ==> c == Returned(c.redis, parse(r[Key(s, chatId)].value))) &&
      (parse(r[Key(s, chatId)].value).None? ==> c.Threw?)
    ensures c.Returned? && c.value.Some? ==> Present(RedisGet(r, Key(s, chatId))) && parse(r[Key(s, chatId)].value) == c.value
  {
    match ReadAndRefresh(s, r, chatId)
    case Threw(r') => Threw(r')
    case Returned(r', None) => Returned(r', None)
    case Returned(r', Some(text)) =>
      match parse(text)
      case Some(items) => Returned(r', Some(items))
      case None => Threw(r')
  }

  /** `get(chatId)`: the stored text without touching its expiry. */
  function Get(s: Store, r: Redis, chatId: string): (v: Option<string>)
    ensures v.Some? <==> Key(s, chatId) in r
    ensures v.Some? ==> v.value == r[Key(s, chatId)].value
  {
    RedisGet(r, Key(s, chatId))
  }

  /** `del(chatId)`: the number of keys removed. */
  function Del(s: Store, r: Redis, chatId: string): (c: Call<nat>)
    ensures c.Returned?
    ensures Key(s, chatId) !in c.redis
    ensures c.value == (if Key(s, chatId) in r then 1 else 0)
    ensures forall k :: k != Key(s, chatId) ==> (k in c.redis <==> k in r)
  {
    Returned(map k | k in r && k != Key(s, chatId) :: r[k], if Key(s, chatId) in r then 1 else 0)
  }

  /** `newExpiryMinutes || this.expiryMinutes`: null and 0 fall back to the store's expiry. */
  function RefreshMinutes(s: Store, newExpiryMinutes: Option<int>): (m: int)
    ensures newExpiryMinutes.Some? && newExpiryMinutes.value != 0 ==> m == newExpiryMinutes.value
    ensures newExpiryMinutes.None? || newExpiryMinutes.value == 0 ==> m == s.expiryMinutes
  {
    if newExpiryMinutes.Some? && newExpiryMinutes.value != 0 then newExpiryMinutes.value else s.expiryMinutes
  }

  /** `refreshTTL(chatId, newExpiryMinutes = null)`. */
  function RefreshTtl(s: Store, r: Redis, chatId: string, newExpiryMinutes: Option<int>): (c: Call<bool>)
    ensures !Present(RedisGet(r, Key(s, chatId))) ==> c == Returned(r, false)
    ensures Present(RedisGet(r, Key(s, chatId))) && RefreshMinutes(s, newExpiryMinutes) > 0 ==> c.Returned? && c.value
    ensures Present(RedisGet(r, Key(s, chatId))) && RefreshMinutes(s, newExpiryMinutes) <= 0 ==> c == Threw(r)
    ensures c.Threw? ==> c.redis == r && RefreshMinutes(s, newExpiryMinutes) <= 0
    ensures c.Returned? && c.value ==>
      RedisGet(c.redis, Key(s, chatId)) == RedisGet(r, Key(s, chatId)) &&
      RedisTtl(c.redis, Key(s, chatId)) == RefreshMinutes(s, newExpiryMinutes) * 60
  {
    var key := Key(s, chatId);
    var v := RedisGet(r, key);
    if !Present(v) then Returned(r, false)
    else match SetEx(r, key, RefreshMinutes(s, newExpiryMinutes) * 60, v.value)
      case Some(r') => Returned(r', true)
      case None => Threw(r)
  }

  // ---------------------------------------------------------------------------
  // TTL decoding

  /** The object `getTTLInfo` returns. */
  datatype TtlInfo =
    | Missing(message: string)
    | NeverExpires(message: string)
    | Expiring(totalSeconds: int, minutes: int, seconds: int, message: string)
  {
    predicate Exists() { !Missing? }
  }

  /** JavaScript's `%`: the remainder takes the sign of the dividend. */
  function JsRem(a: int, b: int): (m: int)
    requires b > 0
    ensures a >= 0 ==> 0 <= m < b
    ensures a < 0 ==> -b < m <= 0
    ensures a >= 0 ==> (a / b) * b + m == a
    ensures a < 0 ==> m - ((-a) / b) * b == a
  {
    if a >= 0 then a % b else -((-a) % b)
  }

  /** `Math.floor(a / b)` for a positive divisor. */
  function FloorDiv(a: int, b: int): (q: int)
    requires b > 0
    ensures q * b <= a < q * b + b
  {
    a / b
  }

  /** The decoding of `getTTLInfo` for a `TTL` answer. */
  function DecodeTtl(ttl: int): (info: TtlInfo)
    ensures info.Missing? <==> ttl == -2
    ensures info.NeverExpires? <==> ttl == -1
    ensures info.Expiring? ==> info.totalSeconds == ttl
    ensures info.Expiring? ==> info.message == "Expires in " + IntText(info.minutes) + "m " + IntText(info.seconds) + "s"
  {
    if ttl == -2 then Missing("value does not exist")
    else if ttl == -1 then NeverExpires("value never expires")
    else
      var minutes := FloorDiv(ttl, 60);
      var seconds := JsRem(ttl, 60);
      Expiring(ttl, minutes, seconds, "Expires in " + IntText(minutes) + "m " + IntText(seconds) + "s")
  }

  /** `getTTLInfo(chatId)`. */
  function GetTtlInfo(s: Store, r: Redis, chatId: string): (info: TtlInfo)
    ensures info.Exists() <==> Key(s, chatId) in r
    ensures info.NeverExpires? <==> Key(s, chatId) in r && r[Key(s, chatId)].expiry.Persistent?
  {
    DecodeTtl(RedisTtl(r, Key(s, chatId)))
  }

  // ---------------------------------------------------------------------------
  // Properties

  /** Minutes and seconds put back together give the TTL, with seconds below a minute. */
  lemma TtlSplitsIntoMinutes(ttl: int)
    requires ttl >= 0
    ensures DecodeTtl(ttl).Expiring?
    ensures DecodeTtl(ttl).minutes * 60 + DecodeTtl(ttl).seconds == ttl
    ensures 0 <= DecodeTtl(ttl).seconds < 60
    ensures DecodeTtl(ttl).minutes >= 0
  {
    var info := DecodeTtl(ttl);
  }

  /** A TTL the store's keys can report, put back together from the decoded object. */
  lemma TtlInfoOfKey(s: Store, r: Redis, chatId: string)
    requires Key(s, chatId) in r && r[Key(s, chatId)].expiry.Expires?
    ensures GetTtlInfo(s, r, chatId).Expiring?
    ensures GetTtlInfo(s, r, chatId).minutes * 60 + GetTtlInfo(s, r, chatId).seconds == RedisTtl(r, Key(s, chatId))
    ensures 0 <= GetTtlInfo(s, r, chatId).seconds < 60
  {
    TtlSplitsIntoMinutes(RedisTtl(r, Key(s, chatId)));
  }

  /** Different chats of one store never share a key. */
  lemma KeysSeparateChats(s: Store, a: string, b: string)
    requires a != b
    ensures Key(s, a) != Key(s, b)
  {
  }

  /** Stores whose prefixes have no colon never share a key, unless prefix and chat both agree. */
  lemma KeysSeparateStores(s: Store, t: Store, a: string, b: string)
    requires ':' !in s.keyPrefix && ':' !in t.keyPrefix
    requires Key(s, a) == Key(t, b)
    ensures s.keyPrefix == t.keyPrefix && a == b
  {
    var k := Key(s, a);
    IndexOfAbsent(s.keyPrefix, ':');
    IndexOfAbsent(t.keyPrefix, ':');
    IndexOfPrefix(s.keyPrefix, ":" + a, ':');
    IndexOfPrefix(t.keyPrefix, ":" + b, ':');
    assert s.keyPrefix + (":" + a) == k;
    assert t.keyPrefix + (":" + b) == k;
    assert |s.keyPrefix| == |t.keyPrefix|;
    assert s.keyPrefix == k[..|s.keyPrefix|];
  }

  /** A saved text reads back unchanged, and no other key is touched. */
  lemma SaveThenGet(s: Store, r: Redis, chatId: string, value: string, other: string)
    requires s.expiryMinutes > 0
    requires other != chatId
    ensures Save(s, r, chatId, value).Returned?
    ensures Get(s, Save(s, r, chatId, value).redis, chatId) == Some(value)
    ensures Get(s, Save(s, r, chatId, value).redis, other) == Get(s, r, other)
  {
    KeysSeparateChats(s, chatId, other);
  }

  /**
   * A saved array reads back through `getArray` when the JSON codec round-trips
   * and its text is not empty (JSON text of an array never is).
   */
  lemma SaveArrayThenGetArray<T>(s: Store, r: Redis, chatId: string, items: seq<T>,
                                 stringify: seq<T> -> string, parse: string -> Option<seq<T>>)
    requires s.expiryMinutes > 0
    requires stringify(items) != ""
    requires parse(stringify(items)) == Some(items)
    ensures GetArray(s, SaveArray(s, r, chatId, items, stringify).redis, chatId, parse) == Some(items)
  {
  }

  /** A deleted chat reads as an empty history and reports no TTL. */
  lemma DelThenGetArray<T>(s: Store, r: Redis, chatId: string, parse: string -> Option<seq<T>>)
    ensures GetArray(s, Del(s, r, chatId).redis, chatId, parse) == Some([])
    ensures GetTtlInfo(s, Del(s, r, chatId).redis, chatId).Missing?
  {
  }

  /** An empty stored text counts as absent for every reading operation. */
  lemma EmptyTextIsAbsent<T>(s: Store, r: Redis, chatId: string, parse: string -> Option<seq<T>>, minutes: Option<int>)
    requires Key(s, chatId) in r && r[Key(s, chatId)].value == ""
    ensures GetArray(s, r, chatId, parse) == Some([])
    ensures GetAndRefresh(s, r, chatId) == Returned(r, None)
    ensures GetArrayAndRefresh(s, r, chatId, parse) == Returned(r, None)
    ensures RefreshTtl(s, r, chatId, minutes) == Returned(r, false)
    ensures GetTtlInfo(s, r, chatId).Exists()
  {
  }

  /** Refreshing twice leaves Redis as refreshing once. */
  lemma RefreshIdempotent(s: Store, r: Redis, chatId: string)
    requires ReadAndRefresh(s, r, chatId).Returned?
    ensures ReadAndRefresh(s, ReadAndRefresh(s, r, chatId).redis, chatId) == ReadAndRefresh(s, r, chatId)
  {
    var key := Key(s, chatId);
    var c := ReadAndRefresh(s, r, chatId);
    if Present(RedisGet(r, key)) {
      assert c.redis == r[key := Entry(r[key].value, Expires(s.expiryMinutes * 60))];
      assert c.redis[key := Entry(r[key].value, Expires(s.expiryMinutes * 60))] == c.redis;
    }
  }

  /**
   * After a successful `refreshTTL`, `getTTLInfo` reports exactly the
   * refresh's minutes and no seconds.
   */
  lemma RefreshThenTtlInfo(s: Store, r: Redis, chatId: string, newExpiryMinutes: Option<int>)
    requires Present(RedisGet(r, Key(s, chatId))) && RefreshMinutes(s, newExpiryMinutes) > 0
    ensures RefreshTtl(s, r, chatId, newExpiryMinutes).Returned?
    ensures var info := GetTtlInfo(s, RefreshTtl(s, r, chatId, newExpiryMinutes).redis, chatId);
      info.Expiring? && info.minutes == RefreshMinutes(s, newExpiryMinutes) && info.seconds == 0
  {
    var m := RefreshMinutes(s, newExpiryMinutes);
    var c := RefreshTtl(s, r, chatId, newExpiryMinutes);
    TtlInfoOfKey(s, c.redis, chatId);
    TtlSplitsIntoMinutes(m * 60);
  }

  /** A zero new expiry is ignored: the refresh uses the store's own. */
  lemma ZeroExpiryFallsBack(s: Store, r: Redis, chatId: string)
    ensures RefreshTtl(s, r, chatId, Some(0)) == RefreshTtl(s, r, chatId, None)
  {
  }
}
