/**
 * The browser-side message cache of static/js/utils.js: one `localStorage` item per conversation,
 * holding the conversation's messages and the time they were saved, valid for 24 hours.
 */
module Cache {
  import opened Common
  import opened ChatTypes

  const Prefix: string := "chat_messages_"

  /** 24 hours in milliseconds. */
  const Duration: int := 24 * 60 * 60 * 1000

  /**
   * A `localStorage` value: the JSON `{messages, timestamp}` the cache writes, or text that
   * `JSON.parse` rejects.
   */
  datatype Item = Stored(messages: seq<ChatMessage>, savedAt: int) | Corrupt

  /** The storage key of the conversation between the signed-in user `me` and `username`. */
  function CacheKey(me: string, username: string): (k: string)
    ensures StartsWith(k, Prefix)
    ensures |k| == |Prefix| + |me| + 1 + |username|
    ensures k[|Prefix| + |me|] == '_'
  {
    Prefix + me + "_" + username
  }

  /** For one signed-in user, different conversations never share a key. */
  lemma CacheKeyInjective(me: string, u1: string, u2: string)
    ensures CacheKey(me, u1) == CacheKey(me, u2) ==> u1 == u2
  {
    if CacheKey(me, u1) == CacheKey(me, u2) {
      var n := |Prefix| + |me| + 1;
      assert CacheKey(me, u1)[n..] == u1;
      assert CacheKey(me, u2)[n..] == u2;
    }
  }

  /** Across signed-in users the key is ambiguous: an underscore in a name can move between the two parts. */
  lemma CacheKeyAmbiguous()
    ensures CacheKey("a", "b_c") == CacheKey("a_b", "c")
  {
  }

  /** What `getCachedMessages` returns for `key`: the list while it is younger than a day, null otherwise, or a throw. */
  function Read(items: map<string, Item>, key: string, now: int): (r: Result<Option<seq<ChatMessage>>>)
    ensures r.Thrown? <==> key in items && items[key].Corrupt?
    ensures r.Ok? && r.value.Some? <==> key in items && items[key].Stored? && now - items[key].savedAt < Duration
    ensures r.Ok? && r.value.Some? ==> r.value.value == items[key].messages
  {
    if key !in items then Ok(None)
    else match items[key]
      case Corrupt => Thrown
      case Stored(messages, savedAt) => if now - savedAt < Duration then Ok(Some(messages)) else Ok(None)
  }

  /** `getCachedMessages` removes the item it found too old. */
  predicate ExpiredOnRead(items: map<string, Item>, key: string, now: int) {
    key in items && items[key].Stored? && now - items[key].savedAt >= Duration
  }

  /** The storage after `getCachedMessages` looked at `key`. */
  function AfterRead(items: map<string, Item>, key: string, now: int): (m: map<string, Item>)
    ensures ExpiredOnRead(items, key, now) ==> key !in m && forall k :: k in items && k != key ==> k in m && m[k] == items[k]
    ensures !ExpiredOnRead(items, key, now) ==> m == items
  {
    if ExpiredOnRead(items, key, now) then items - {key} else items
  }

  /** The item `clearOldCaches` removes: a cache key whose value is unreadable or older than a day. */
  predicate Stale(key: string, item: Item, now: int) {
    StartsWith(key, Prefix) && (item.Corrupt? || now - item.savedAt > Duration)
  }

  /** The storage after `clearOldCaches`. */
  ghost function Purge(items: map<string, Item>, now: int): map<string, Item> {
    map k | k in items && !Stale(k, items[k], now) :: items[k]
  }

  /** The storage part way through `clearOldCaches`, with the keys in `pending` not yet visited. */
  ghost function PartlyPurged(items: map<string, Item>, pending: set<string>, now: int): map<string, Item> {
    map k | k in items && (k in pending || !Stale(k, items[k], now)) :: items[k]
  }

  /** Exactly the stale items go: every other key, and every key without the prefix, keeps its value. */
  lemma PurgeExactly(items: map<string, Item>, now: int, k: string)
    ensures k in Purge(items, now) <==> k in items && !Stale(k, items[k], now)
    ensures k in Purge(items, now) ==> Purge(items, now)[k] == items[k]
    ensures k in items && !StartsWith(k, Prefix) ==> k in Purge(items, now) && Purge(items, now)[k] == items[k]
  {
  }

  /** Purging twice removes nothing more. */
  lemma PurgeIdempotent(items: map<string, Item>, now: int)
    ensures Purge(Purge(items, now), now) == Purge(items, now)
  {
    var p := Purge(items, now);
    assert forall k :: k in p ==> !Stale(k, p[k], now);
  }

  /**
   * The two checks disagree at exactly one day: `getCachedMessages` already treats the item as
   * expired (age < duration fails), `clearOldCaches` still keeps it (age > duration fails).
   */
  lemma ExactlyOneDayOld(items: map<string, Item>, key: string, now: int)
    requires key in items && items[key].Stored? && items[key].savedAt == now - Duration
    ensures Read(items, key, now) == Ok(None)
    ensures ExpiredOnRead(items, key, now)
    ensures key in Purge(items, now)
  {
  }

  /** Whatever `getCachedMessages` would serve survives a purge at the same time, unchanged. */
  lemma PurgeKeepsFresh(items: map<string, Item>, key: string, now: int)
    requires Read(items, key, now).Ok? && Read(items, key, now).value.Some?
    ensures Read(Purge(items, now), key, now) == Read(items, key, now)
  {
    assert !Stale(key, items[key], now);
  }

  /** A list just written is what a read at the same time returns. */
  lemma WriteThenRead(items: map<string, Item>, key: string, messages: seq<ChatMessage>, now: int)
    ensures Read(items[key := Stored(messages, now)], key, now) == Ok(Some(messages))
  {
  }

  /** The list `updateMessageCache` writes: the fresh cached list, or an empty one, followed by the message. */
  function Appended(items: map<string, Item>, key: string, message: ChatMessage, now: int): (s: seq<ChatMessage>)
    requires Read(items, key, now).Ok?
    ensures |s| >= 1 && s[|s| - 1] == message
    ensures Read(items, key, now).value.Some? ==> s[..|s| - 1] == items[key].messages
    ensures Read(items, key, now).value.None? ==> s == [message]
  {
    match Read(items, key, now).value
    case Some(cached) => cached + [message]
    case None => [message]
  }

  /**
   * What `getLastMessageTimestamp` returns for `key`: the timestamp of the last stored message,
   * null for a missing or empty list, a throw for an unreadable item. The age is not looked at.
   */
  function LastTimestamp(items: map<string, Item>, key: string): (r: Result<Option<int>>)
    ensures r.Thrown? <==> key in items && items[key].Corrupt?
    ensures r.Ok? && r.value.Some? <==> key in items && items[key].Stored? && |items[key].messages| > 0
    ensures r.Ok? && r.value.Some? ==> r.value.value == items[key].messages[|items[key].messages| - 1].timestamp
  {
    if key !in items then Ok(None)
    else match items[key]
      case Corrupt => Thrown
      case Stored(messages, _) =>
        if |messages| > 0 then Ok(Some(messages[|messages| - 1].timestamp)) else Ok(None)
  }

  /** An expired list still yields its last timestamp. */
  lemma LastTimestampIgnoresAge(items: map<string, Item>, key: string, now: int)
    requires key in items && items[key].Stored? && |items[key].messages| > 0
    requires now - items[key].savedAt >= Duration
    ensures Read(items, key, now) == Ok(None)
    ensures LastTimestamp(items, key).Ok? && LastTimestamp(items, key).value.Some?
  {
  }

  /** The storage after `cacheMessages`: the new item, or — when the write fails — a purge and no retry. */
  ghost function Written(items: map<string, Item>, key: string, messages: seq<ChatMessage>, now: int, writeFails: bool): map<string, Item> {
    if writeFails then Purge(items, now) else items[key := Stored(messages, now)]
  }

  /** A successful write stores exactly the given list, saved now, and leaves every other key alone. */
  lemma WrittenFrame(items: map<string, Item>, key: string, messages: seq<ChatMessage>, now: int, k: string)
    ensures key in Written(items, key, messages, now, false)
    ensures Written(items, key, messages, now, false)[key] == Stored(messages, now)
    ensures k != key ==> (k in Written(items, key, messages, now, false) <==> k in items)
    ensures k != key && k in items ==> Written(items, key, messages, now, false)[k] == items[k]
  {
  }

  /**
   * The storage after `updateMessageCache`: unchanged when the old item is unreadable (the read
   * throws before anything is written), otherwise the read's removal followed by the write.
   */
  ghost function Updated(items: map<string, Item>, key: string, message: ChatMessage, now: int, writeFails: bool): map<string, Item> {
    if Read(items, key, now).Thrown? then items
    else Written(AfterRead(items, key, now), key, Appended(items, key, message, now), now, writeFails)
  }

  /** After a successful update the key holds the fresh old list (or nothing) followed by the message, saved now. */
  lemma UpdatedHolds(items: map<string, Item>, key: string, message: ChatMessage, now: int)
    requires !Read(items, key, now).Thrown?
    ensures Read(Updated(items, key, message, now, false), key, now).Ok?
    ensures Read(Updated(items, key, message, now, false), key, now).value ==
      Some((if Read(items, key, now).value.Some? then items[key].messages else []) + [message])
  {
    var s := Appended(items, key, message, now);
    assert Updated(items, key, message, now, false) == AfterRead(items, key, now)[key := Stored(s, now)];
    WriteThenRead(AfterRead(items, key, now), key, s, now);
    if Read(items, key, now).value.Some? {
      assert s == items[key].messages + [message];
    } else {
      assert s == [] + [message];
    }
  }

  /** The page's `localStorage`. */
  class LocalStorage {
    var items: map<string, Item>

    constructor (initial: map<string, Item>)
      ensures items == initial
    {
      items := initial;
    }

    /** `getCachedMessages`: the fresh list or null; an item a day old or older is removed. */
    method GetCachedMessages(me: string, username: string, now: int) returns (r: Result<Option<seq<ChatMessage>>>)
      modifies this
      ensures r == Read(old(items), CacheKey(me, username), now)
      ensures items == AfterRead(old(items), CacheKey(me, username), now)
    {
      var cacheKey := CacheKey(me, username);
      if cacheKey in items {
        match items[cacheKey]
        case Corrupt =>
          return Thrown;
        case Stored(messages, timestamp) =>
          var age := now - timestamp;
          if age < Duration {
            return Ok(Some(messages));
          } else {
            items := items - {cacheKey};
          }
      }
      return Ok(None);
    }

    /** `getLastMessageTimestamp`. */
    function GetLastMessageTimestamp(me: string, username: string): (r: Result<Option<int>>)
      reads this
      ensures r == LastTimestamp(items, CacheKey(me, username))
    {
      LastTimestamp(items, CacheKey(me, username))
    }

    /**
     * `cacheMessages`: stores exactly `messages` saved at `now` under the conversation's key.
     * When the write fails (`writeFails`, the storage quota) old caches are cleared and the
     * write is not retried.
     */
    method CacheMessages(me: string, username: string, messages: seq<ChatMessage>, now: int, writeFails: bool)
      modifies this
      ensures items == Written(old(items), CacheKey(me, username), messages, now, writeFails)
    {
      var cacheKey := CacheKey(me, username);
      if !writeFails {
        items := items[cacheKey := Stored(messages, now)];
      } else {
        ClearOldCaches(now);
      }
    }

    /** `clearOldCaches`: visits every key once and removes the stale ones. */
    method ClearOldCaches(now: int)
      modifies this
      ensures items == Purge(old(items), now)
    {
      var keys := items.Keys;
      ghost var initial := items;
      while keys != {}
        invariant keys <= initial.Keys
        invariant items == PartlyPurged(initial, keys, now)
        decreases keys
      {
        var key :| key in keys;
        if StartsWith(key, Prefix) {
          match items[key]
          case Corrupt =>
            items := items - {key};
          case Stored(_, timestamp) =>
            if now - timestamp > Duration {
              items := items - {key};
            }
        }
        keys := keys - {key};
      }
      assert PartlyPurged(initial, {}, now) == Purge(initial, now);
    }

    /**
     * `updateMessageCache`: appends `message` to the fresh cached list (or starts a new one) and
     * writes it back. Returns true when reading the old item threw; nothing is written then.
     */
    method UpdateMessageCache(me: string, username: string, message: ChatMessage, now: int, writeFails: bool)
      returns (threw: bool)
      modifies this
      ensures threw <==> Read(old(items), CacheKey(me, username), now).Thrown?
      ensures items == Updated(old(items), CacheKey(me, username), message, now, writeFails)
    {
      ghost var before := items;
      var cached := GetCachedMessages(me, username, now);
      if cached.Thrown? {
        return true;
      }
      var cachedMessages := if cached.value.Some? then cached.value.value else [];
      cachedMessages := cachedMessages + [message];
      assert cachedMessages == Appended(before, CacheKey(me, username), message, now);
      CacheMessages(me, username, cachedMessages, now, writeFails);
      threw := false;
    }
  }
}
