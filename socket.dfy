/**
 * The browser's realtime handler and history loader (static/js/socket.js): the decision logic of
 * the `new_message` event and the merge of the cached and the server history in
 * `loadChatHistory`, over the page's conversation lists and the message cache.
 */
module Socket {
  import opened Common
  import opened ChatTypes
  import opened Timeline
  import opened Cache
  import Sorting

  /** The conversation a message belongs to, seen by the signed-in user `me`. */
  function OtherUser(me: string, sender: string, receiver: string): string {
    if me == sender then receiver else sender
  }

  /**
   * For a participant of the message the handler picks the other participant, and the message
   * counts as outgoing exactly for its sender.
   */
  lemma OtherUserIsPeer(me: string, sender: string, receiver: string)
    requires me == sender || me == receiver
    ensures {me, OtherUser(me, sender, receiver)} == {sender, receiver}
    ensures OtherUser(me, sender, receiver) == me ==> sender == receiver
  {
  }

  /**
   * The handler's in-place confirmation: the first element with the `temp-message` class takes
   * the message's id and timestamp and loses the class; nothing else changes.
   */
  function ConfirmFirstTemp(s: seq<Entry>, data: ChatMessage): (r: seq<Entry>)
    requires IndexOfTemp(s).Some?
    ensures |r| == |s|
    ensures forall j :: 0 <= j < |s| && j != IndexOfTemp(s).value ==> r[j] == s[j]
    ensures !r[IndexOfTemp(s).value].temp
    ensures r[IndexOfTemp(s).value] == s[IndexOfTemp(s).value].(id := data.id, timestamp := data.timestamp, temp := false)
  {
    var k := IndexOfTemp(s).value;
    s[k := s[k].(id := data.id, timestamp := data.timestamp, temp := false)]
  }

  /** Confirmations go in order: afterwards the first temporary element, if any, is a later one. */
  lemma ConfirmAdvancesTemp(s: seq<Entry>, data: ChatMessage)
    requires IndexOfTemp(s).Some?
    ensures IndexOfTemp(ConfirmFirstTemp(s, data)).None? ||
            IndexOfTemp(ConfirmFirstTemp(s, data)).value > IndexOfTemp(s).value
  {
    var r := ConfirmFirstTemp(s, data);
    var k := IndexOfTemp(s).value;
    assert forall j :: 0 <= j <= k ==> !r[j].temp;
  }

  /** `openPrivateChat`: a window (with an empty list) is created for anyone but the signed-in user. */
  ghost function Opened(timelines: map<string, seq<Entry>>, me: string, other: string): map<string, seq<Entry>> {
    if other !in timelines && other != me then timelines[other := []] else timelines
  }

  /** The conversation lists after the `new_message` handler. */
  ghost function Received(timelines: map<string, seq<Entry>>, me: string, data: ChatMessage, now: nat): map<string, seq<Entry>> {
    var other := OtherUser(me, data.sender, data.receiver);
    var isOutgoing := me == data.sender;
    var withWindow := Opened(timelines, me, other);
    if other !in withWindow then withWindow
    else if isOutgoing && IndexOfTemp(withWindow[other]).Some? then withWindow[other := ConfirmFirstTemp(withWindow[other], data)]
    else withWindow[other := AppendEntry(withWindow[other], data, isOutgoing, data.timestamp, now)]
  }

  /** Only the message's conversation changes. */
  lemma ReceivedFrame(timelines: map<string, seq<Entry>>, me: string, data: ChatMessage, now: nat, u: string)
    requires u != OtherUser(me, data.sender, data.receiver)
    ensures u in Received(timelines, me, data, now) <==> u in timelines
    ensures u in timelines ==> Received(timelines, me, data, now)[u] == timelines[u]
  {
  }

  /**
   * The two branches: an outgoing message with a temporary element pending confirms the first
   * one and adds nothing; any other message goes through the ordered, de-duplicated insert.
   */
  lemma ReceivedBranches(timelines: map<string, seq<Entry>>, me: string, data: ChatMessage, now: nat)
    requires OtherUser(me, data.sender, data.receiver) != me
    ensures OtherUser(me, data.sender, data.receiver) in Received(timelines, me, data, now)
    ensures me == data.sender && OtherUser(me, data.sender, data.receiver) in timelines
            && IndexOfTemp(timelines[OtherUser(me, data.sender, data.receiver)]).Some? ==>
      |Received(timelines, me, data, now)[OtherUser(me, data.sender, data.receiver)]| ==
      |timelines[OtherUser(me, data.sender, data.receiver)]|
    ensures !(me == data.sender && OtherUser(me, data.sender, data.receiver) in timelines
              && IndexOfTemp(timelines[OtherUser(me, data.sender, data.receiver)]).Some?) ==>
      Received(timelines, me, data, now)[OtherUser(me, data.sender, data.receiver)] ==
      AppendEntry(Opened(timelines, me, OtherUser(me, data.sender, data.receiver))[OtherUser(me, data.sender, data.receiver)],
                  data, me == data.sender, data.timestamp, now)
  {
    var other := OtherUser(me, data.sender, data.receiver);
    if other !in timelines {
      assert IndexOfTemp([]).None?;
    }
  }

  /** A message with an id in a conversation with someone else is on screen after the handler ran. */
  lemma ReceivedIsShown(timelines: map<string, seq<Entry>>, me: string, data: ChatMessage, now: nat)
    requires data.id != ""
    requires OtherUser(me, data.sender, data.receiver) != me
    ensures HasId(Received(timelines, me, data, now)[OtherUser(me, data.sender, data.receiver)], data.id)
  {
    var other := OtherUser(me, data.sender, data.receiver);
    var withWindow := Opened(timelines, me, other);
    var s := withWindow[other];
    if me == data.sender && IndexOfTemp(s).Some? {
      var r := ConfirmFirstTemp(s, data);
      assert r[IndexOfTemp(s).value].id == data.id;
    } else if HasId(s, data.id) {
      assert MessageIdFor(data, now) == data.id;
    } else {
      Sorting.InsertShape(s, EntryFor(data, data.id, me == data.sender, data.timestamp), EntryTime);
      var p := Sorting.InsertionPoint(s, data.timestamp, EntryTime);
      assert AppendEntry(s, data, me == data.sender, data.timestamp, now)[p].id == data.id;
    }
  }

  /** The `new_message` handler. `now` is `Date.now()`, `writeFails` whether the cache write fails. */
  method OnNewMessage(page: Page, store: LocalStorage, me: string, data: ChatMessage, now: nat, writeFails: bool)
    modifies page, store
    ensures page.timelines == Received(old(page.timelines), me, data, now)
    ensures store.items == Updated(old(store.items), CacheKey(me, OtherUser(me, data.sender, data.receiver)), data, now, writeFails)
  {
    var otherUser := OtherUser(me, data.sender, data.receiver);
    var isOutgoing := me == data.sender;
    if otherUser !in page.timelines && otherUser != me {
      page.timelines := page.timelines[otherUser := []];
    }
    var tempMessage := if otherUser in page.timelines then IndexOfTemp(page.timelines[otherUser]) else None;
    if tempMessage.Some? && isOutgoing {
      var s := page.timelines[otherUser];
      var k := tempMessage.value;
      page.timelines := page.timelines[otherUser := s[k := s[k].(id := data.id, timestamp := data.timestamp, temp := false)]];
    } else {
      var _ := page.AppendPrivateMessage(otherUser, data, isOutgoing, data.timestamp, now);
    }
    var _ := store.UpdateMessageCache(me, otherUser, data, now, writeFails);
  }

  /** The list after `appendPrivateMessage` was called for each message in turn, marked outgoing iff sent by `me`. */
  function Replay(s: seq<Entry>, msgs: seq<ChatMessage>, me: string, now: nat): seq<Entry>
    decreases |msgs|
  {
    if msgs == [] then s
    else
      var n := |msgs| - 1;
      AppendEntry(Replay(s, msgs[..n], me, now), msgs[n], msgs[n].sender == me, msgs[n].timestamp, now)
  }

  /** `Replay` applied to the list of `username`, when that conversation has a window. */
  ghost function ReplayInto(timelines: map<string, seq<Entry>>, username: string, msgs: seq<ChatMessage>, me: string, now: nat): map<string, seq<Entry>> {
    if username in timelines then timelines[username := Replay(timelines[username], msgs, me, now)] else timelines
  }

  /** A replay keeps a list in timestamp order and its ids distinct. */
  lemma {:induction false} ReplayKeepsInvariants(s: seq<Entry>, msgs: seq<ChatMessage>, me: string, now: nat)
    requires Sorted(s) && DistinctIds(s)
    ensures Sorted(Replay(s, msgs, me, now)) && DistinctIds(Replay(s, msgs, me, now))
    decreases |msgs|
  {
    if msgs != [] {
      var n := |msgs| - 1;
      ReplayKeepsInvariants(s, msgs[..n], me, now);
      AppendKeepsSorted(Replay(s, msgs[..n], me, now), msgs[n], msgs[n].sender == me, msgs[n].timestamp, now);
      AppendKeepsIdsDistinct(Replay(s, msgs[..n], me, now), msgs[n], msgs[n].sender == me, msgs[n].timestamp, now);
    }
  }

  /** After a replay every replayed message's id is on screen. */
  lemma {:induction false} ReplayShowsAll(s: seq<Entry>, msgs: seq<ChatMessage>, me: string, now: nat, m: ChatMessage)
    requires m in msgs
    ensures HasId(Replay(s, msgs, me, now), MessageIdFor(m, now))
    decreases |msgs|
  {
    var n := |msgs| - 1;
    var before := Replay(s, msgs[..n], me, now);
    if m == msgs[n] {
      AppendShowsId(before, msgs[n], msgs[n].sender == me, msgs[n].timestamp, now);
    } else {
      assert m in msgs[..n] by {
        var i :| 0 <= i < |msgs| && msgs[i] == m;
        assert i < n && msgs[..n][i] == m;
      }
      ReplayShowsAll(s, msgs[..n], me, now, m);
      AppendKeepsIds(before, msgs[n], msgs[n].sender == me, msgs[n].timestamp, now, MessageIdFor(m, now));
    }
  }

  /** The element built for a message, with the direction `loadChatHistory` gives it. */
  function ReplayedEntry(m: ChatMessage, me: string, now: nat): (e: Entry)
    ensures e.outgoing <==> m.sender == me
    ensures e.timestamp == m.timestamp && e.id == MessageIdFor(m, now)
  {
    EntryFor(m, MessageIdFor(m, now), m.sender == me, m.timestamp)
  }

  /** A replay adds nothing but elements built from the replayed messages, outgoing iff sent by `me`. */
  lemma {:induction false} ReplayOnlyAdds(s: seq<Entry>, msgs: seq<ChatMessage>, me: string, now: nat, x: Entry)
    requires x in Replay(s, msgs, me, now)
    ensures x in s || exists m :: m in msgs && x == ReplayedEntry(m, me, now)
    decreases |msgs|
  {
    if msgs != [] {
      var n := |msgs| - 1;
      var before := Replay(s, msgs[..n], me, now);
      AppendEntryFrom(before, msgs[n], msgs[n].sender == me, msgs[n].timestamp, now, x);
      if x in before {
        ReplayOnlyAdds(s, msgs[..n], me, now, x);
        if !(x in s) {
          var m :| m in msgs[..n] && x == ReplayedEntry(m, me, now);
          assert m in msgs;
        }
      } else {
        assert x == ReplayedEntry(msgs[n], me, now);
      }
    }
  }

  /** Replaying one more message appends its element to the replayed container, if there is one. */
  lemma ReplayIntoStep(timelines: map<string, seq<Entry>>, username: string, msgs: seq<ChatMessage>, i: nat, me: string, now: nat)
    requires i < |msgs|
    ensures var before := ReplayInto(timelines, username, msgs[..i], me, now);
      ReplayInto(timelines, username, msgs[..i + 1], me, now) ==
        if username in before
        then before[username := AppendEntry(before[username], msgs[i], msgs[i].sender == me, msgs[i].timestamp, now)]
        else before
  {
    assert msgs[..i + 1][..i] == msgs[..i];
  }

  /** The `forEach` loop that calls `appendPrivateMessage` for each message. */
  method ReplayMessages(page: Page, username: string, msgs: seq<ChatMessage>, me: string, now: nat)
    modifies page
    ensures page.timelines == ReplayInto(old(page.timelines), username, msgs, me, now)
  {
    var i := 0;
    while i < |msgs|
      invariant 0 <= i <= |msgs|
      invariant page.timelines == ReplayInto(old(page.timelines), username, msgs[..i], me, now)
    {
      var msg := msgs[i];
      var _ := page.AppendPrivateMessage(username, msg, msg.sender == me, msg.timestamp, now);
      ReplayIntoStep(old(page.timelines), username, msgs, i, me, now);
      i := i + 1;
    }
    assert msgs[..|msgs|] == msgs;
  }

  /** How the synchronous part of `loadChatHistory` ends. */
  datatype HistoryStart =
    | NoContainer
    | CacheThrew
    | Started(cachedMessages: Option<seq<ChatMessage>>)

  /** The cached list replayed by `loadChatHistory`: the fresh cached list, or nothing. */
  function CachedList(r: Result<Option<seq<ChatMessage>>>): (s: seq<ChatMessage>)
    ensures r.Ok? && r.value.Some? ==> s == r.value.value
    ensures !(r.Ok? && r.value.Some?) ==> s == []
  {
    if r.Ok? && r.value.Some? then r.value.value else []
  }

  /**
   * The synchronous part of `loadChatHistory`: the list is cleared for the loading indicator and,
   * when a fresh cache exists, the cached messages are replayed into it. A read that throws ends
   * the call before the request is sent. The fetch continuation is `OnHistoryResponse`.
   */
  method LoadChatHistory(page: Page, store: LocalStorage, me: string, username: string, now: nat) returns (start: HistoryStart)
    modifies page, store
    ensures username !in old(page.timelines) ==>
      start == NoContainer && page.timelines == old(page.timelines) && store.items == old(store.items)
    ensures username in old(page.timelines) ==>
      store.items == AfterRead(old(store.items), CacheKey(me, username), now)
    ensures username in old(page.timelines) ==>
      start == (if Read(old(store.items), CacheKey(me, username), now).Thrown? then CacheThrew
                else Started(Read(old(store.items), CacheKey(me, username), now).value))
    ensures username in old(page.timelines) ==>
      page.timelines == old(page.timelines)[username := Replay([], CachedList(Read(old(store.items), CacheKey(me, username), now)), me, now)]
  {
    if username !in page.timelines {
      return NoContainer;
    }
    page.timelines := page.timelines[username := []];
    var cachedMessages := store.GetCachedMessages(me, username, now);
    if cachedMessages.Thrown? {
      return CacheThrew;
    }
    if cachedMessages.value.Some? {
      page.timelines := page.timelines[username := []];
      ReplayMessages(page, username, cachedMessages.value.value, me, now);
    }
    return Started(cachedMessages.value);
  }

  /** What the history request produced: a network or JSON failure, or the parsed body. */
  datatype Response =
    | FetchFailed
    | Reply(success: bool, messages: Option<seq<ChatMessage>>)

  /** `data.success && Array.isArray(data.messages)`. */
  predicate Accepted(r: Response) {
    r.Reply? && r.success && r.messages.Some?
  }

  /** The server list in timestamp order: JavaScript's stable sort with a numeric comparator. */
  function ServerOrder(msgs: seq<ChatMessage>): (r: seq<ChatMessage>)
    ensures Sorting.SortedBy(r, MessageTime)
    ensures multiset(r) == multiset(msgs)
  {
    Sorting.StableSortCorrect(msgs, MessageTime);
    Sorting.StableSort(msgs, MessageTime)
  }

  /** `s.filter(msg => msg.timestamp > t)`: the messages strictly later than `t`, in order. */
  function Later(s: seq<ChatMessage>, t: int): (r: seq<ChatMessage>)
    ensures |r| <= |s|
    ensures forall m :: m in r <==> m in s && m.timestamp > t
    decreases |s|
  {
    if s == [] then []
    else
      var rest := Later(s[1..], t);
      assert forall m :: m in s <==> m == s[0] || m in s[1..];
      if s[0].timestamp > t then [s[0]] + rest else rest
  }

  /** `Later` is `Common.Filter` with the cutoff test as its predicate. */
  lemma {:induction false} LaterIsFilter(s: seq<ChatMessage>, t: int, p: ChatMessage -> bool)
    requires forall m :: p(m) <==> m.timestamp > t
    ensures Later(s, t) == Filter(s, p)
    decreases |s|
  {
    if s != [] {
      LaterIsFilter(s[1..], t, p);
    }
  }

  /** The filter keeps order and repetitions: it works element by element across a concatenation. */
  lemma LaterAppend(a: seq<ChatMessage>, b: seq<ChatMessage>, t: int)
    ensures Later(a + b, t) == Later(a, t) + Later(b, t)
  {
    var p := (m: ChatMessage) => m.timestamp > t;
    LaterIsFilter(a + b, t, p);
    LaterIsFilter(a, t, p);
    LaterIsFilter(b, t, p);
    FilterAppend(a, b, p);
  }

  /** A single message is kept exactly when it is later than the cutoff. */
  lemma LaterSingle(m: ChatMessage, t: int)
    ensures Later([m], t) == if m.timestamp > t then [m] else []
  {
    assert [m][1..] == [];
  }

  /** Nothing passes a cutoff that no message exceeds. */
  lemma {:induction false} LaterNone(s: seq<ChatMessage>, t: int)
    requires forall i :: 0 <= i < |s| ==> s[i].timestamp <= t
    ensures Later(s, t) == []
    decreases |s|
  {
    if s != [] {
      LaterNone(s[1..], t);
    }
  }

  /** `msg.has_media && msg.media_type?.startsWith('image/')`. */
  predicate IsImage(m: ChatMessage) {
    m.hasMedia && OptStartsWith(m.mediaType, "image/")
  }

  /**
   * `newMessages` as written: everything when no cache was shown, otherwise the messages later
   * than the timestamp `last` read back from the cache (all of them when it yields null); a
   * throwing read ends the continuation.
   */
  function NewMessages(cachedMessages: Option<seq<ChatMessage>>, last: Result<Option<int>>, sorted: seq<ChatMessage>): (r: Result<seq<ChatMessage>>)
    ensures r.Thrown? <==> cachedMessages.Some? && last.Thrown?
    ensures cachedMessages.None? ==> r == Ok(sorted)
    ensures cachedMessages.Some? && last == Ok(None) ==> r == Ok(sorted)
    ensures cachedMessages.Some? && last.Ok? && last.value.Some? ==>
      && r == Ok(Later(sorted, last.value.value))
      && forall m :: m in r.value <==> m in sorted && m.timestamp > last.value.value
  {
    if cachedMessages.None? then Ok(sorted)
    else match last
      case Thrown => Thrown
      case Ok(None) => Ok(sorted)
      case Ok(Some(t)) => Ok(Later(sorted, t))
  }

  /** The list cleared by the continuation when no cache had been shown. */
  ghost function Cleared(timelines: map<string, seq<Entry>>, username: string, cachedMessages: Option<seq<ChatMessage>>): map<string, seq<Entry>> {
    if cachedMessages.None? && username in timelines then timelines[username := []] else timelines
  }

  /** The end of slice `j` of a list of length `n` cut in threes (`slice` clamps at the end). */
  function BatchEnd(j: nat, n: nat): nat {
    if 3 * j + 3 <= n then 3 * j + 3 else n
  }

  /** `batches` are the slices `[3j, 3j + 3)` of `images`, as many as the step-3 loop takes. */
  ghost predicate BatchesOf(batches: seq<seq<ChatMessage>>, images: seq<ChatMessage>) {
    && 3 * |batches| >= |images|
    && 3 * |batches| < |images| + 3
    && forall j :: 0 <= j < |batches| ==> 3 * j < |images| && batches[j] == images[3 * j..BatchEnd(j, |images|)]
  }

  function Flatten(bs: seq<seq<ChatMessage>>): seq<ChatMessage>
    decreases |bs|
  {
    if bs == [] then [] else Flatten(bs[..|bs| - 1]) + bs[|bs| - 1]
  }

  lemma {:induction false} FlattenPrefix(batches: seq<seq<ChatMessage>>, images: seq<ChatMessage>, k: nat)
    requires BatchesOf(batches, images) && k <= |batches|
    ensures Flatten(batches[..k]) == images[..if 3 * k <= |images| then 3 * k else |images|]
    decreases k
  {
    if k > 0 {
      FlattenPrefix(batches, images, k - 1);
      assert batches[..k][..k - 1] == batches[..k - 1];
      assert 3 * (k - 1) < |images|;
    }
  }

  /** The batches are non-empty slices of at most three that concatenate back to the image messages in order. */
  lemma BatchesCover(batches: seq<seq<ChatMessage>>, images: seq<ChatMessage>)
    requires BatchesOf(batches, images)
    ensures Flatten(batches) == images
    ensures forall j :: 0 <= j < |batches| ==> 1 <= |batches[j]| <= 3
    ensures |batches| == (|images| + 2) / 3
  {
    FlattenPrefix(batches, images, |batches|);
    assert batches[..|batches|] == batches;
  }

  /** The preload loop: slices of three, stepping `i += 3`. */
  method PreloadBatches(images: seq<ChatMessage>) returns (batches: seq<seq<ChatMessage>>)
    ensures BatchesOf(batches, images)
  {
    batches := [];
    var i := 0;
    while i < |images|
      invariant i == 3 * |batches|
      invariant i < |images| + 3
      invariant forall j :: 0 <= j < |batches| ==> 3 * j < |images| && batches[j] == images[3 * j..BatchEnd(j, |images|)]
    {
      var batch := images[i..if i + 3 <= |images| then i + 3 else |images|];
      batches := batches + [batch];
      i := i + 3;
    }
  }

  /**
   * The fetch continuation of `loadChatHistory`; `cachedMessages` is what the synchronous part
   * found. An accepted reply is sorted and written to the cache; then the messages picked by
   * `NewMessages` — whose cutoff is read back from the cache just written — are inserted, and the
   * image messages among them are returned in preload batches.
   */
  method OnHistoryResponse(page: Page, store: LocalStorage, me: string, username: string,
                           cachedMessages: Option<seq<ChatMessage>>, response: Response, now: nat, writeFails: bool)
    returns (batches: seq<seq<ChatMessage>>)
    modifies page, store
    ensures !Accepted(response) ==> store.items == old(store.items) && batches == []
    ensures response.FetchFailed? ==> page.timelines == Cleared(old(page.timelines), username, cachedMessages)
    ensures response.Reply? && !Accepted(response) ==> page.timelines == old(page.timelines)
    ensures Accepted(response) ==>
      store.items == Written(old(store.items), CacheKey(me, username), ServerOrder(response.messages.value), now, writeFails)
    ensures Accepted(response) &&
            NewMessages(cachedMessages, LastTimestamp(store.items, CacheKey(me, username)), ServerOrder(response.messages.value)).Thrown? ==>
      page.timelines == Cleared(old(page.timelines), username, cachedMessages) && batches == []
    ensures Accepted(response) &&
            NewMessages(cachedMessages, LastTimestamp(store.items, CacheKey(me, username)), ServerOrder(response.messages.value)).Ok? ==>
      && page.timelines == ReplayInto(Cleared(old(page.timelines), username, cachedMessages), username,
           NewMessages(cachedMessages, LastTimestamp(store.items, CacheKey(me, username)), ServerOrder(response.messages.value)).value, me, now)
      && BatchesOf(batches, Filter(NewMessages(cachedMessages, LastTimestamp(store.items, CacheKey(me, username)),
           ServerOrder(response.messages.value)).value, IsImage))
  {
    batches := [];
    if response.FetchFailed? {
      if cachedMessages.None? && username in page.timelines {
        page.timelines := page.timelines[username := []];
      }
      return;
    }
    if !(response.success && response.messages.Some?) {
      return;
    }
    if cachedMessages.None? && username in page.timelines {
      page.timelines := page.timelines[username := []];
    }
    var sortedMessages := ServerOrder(response.messages.value);
    store.CacheMessages(me, username, sortedMessages, now, writeFails);
    var lastCachedTimestamp := if cachedMessages.Some? then store.GetLastMessageTimestamp(me, username) else Ok(None);
    if lastCachedTimestamp.Thrown? {
      return;
    }
    var newMessages := if lastCachedTimestamp.value.Some? then Later(sortedMessages, lastCachedTimestamp.value.value) else sortedMessages;
    ReplayMessages(page, username, newMessages, me, now);
    var imageMessages := Filter(newMessages, IsImage);
    batches := PreloadBatches(imageMessages);
  }

  /**
   * As written, with a cache shown and a successful write, the cutoff is the newest server
   * message itself, so no server message is ever inserted.
   */
  lemma AsWrittenShowsNoServerMessage(items: map<string, Item>, key: string, cached: seq<ChatMessage>, msgs: seq<ChatMessage>, now: int)
    ensures NewMessages(Some(cached), LastTimestamp(Written(items, key, ServerOrder(msgs), now, false), key), ServerOrder(msgs)) == Ok([])
  {
    var sorted := ServerOrder(msgs);
    if sorted != [] {
      var t := sorted[|sorted| - 1].timestamp;
      forall i | 0 <= i < |sorted| ensures sorted[i].timestamp <= t {
        assert MessageTime(sorted[i]) <= MessageTime(sorted[|sorted| - 1]);
      }
      LaterNone(sorted, t);
    }
  }

  const Alice: string := "alice"
  const Bob: string := "bob"

  /** A message already in the cache. */
  const Earlier: ChatMessage := ChatMessage("1", Bob, Alice, Some("hi"), 1000, false, None, None, None, false, None)

  /** A message the server has and the cache has not. */
  const Newer: ChatMessage := ChatMessage("2", Bob, Alice, Some("are you there?"), 2000, false, None, None, None, false, None)

  /** The server list of the example is already in timestamp order. */
  lemma ExampleServerOrder()
    ensures ServerOrder([Earlier, Newer]) == [Earlier, Newer]
  {
    assert [Earlier, Newer][..1] == [Earlier];
    assert Sorting.StableSort([Earlier], MessageTime) == [Earlier];
    assert Sorting.InsertionPoint([Earlier], 2000, MessageTime) == 1;
  }

  /** The failing case: the cache shows `Earlier`, the server has `Earlier` and `Newer`; `Newer` is not inserted. */
  lemma MissedMessageExample()
    ensures ServerOrder([Earlier, Newer]) == [Earlier, Newer]
    ensures NewMessages(Some([Earlier]),
      LastTimestamp(Written(map[], CacheKey(Alice, Bob), ServerOrder([Earlier, Newer]), 3000, false), CacheKey(Alice, Bob)),
      ServerOrder([Earlier, Newer])) == Ok([])
    ensures IntendedNewMessages(Some([Earlier]), ServerOrder([Earlier, Newer])) == [Newer]
  {
    ExampleServerOrder();
    AsWrittenShowsNoServerMessage(map[], CacheKey(Alice, Bob), [Earlier], [Earlier, Newer], 3000);
    assert [Earlier] + [Newer] == [Earlier, Newer];
    LaterAppend([Earlier], [Newer], 1000);
    LaterSingle(Earlier, 1000);
    LaterSingle(Newer, 1000);
  }

  /**
   * The evidently intended selection: the server messages strictly later than the newest message
   * of the cached list that was shown, read before the cache is overwritten.
   */
  function IntendedNewMessages(cachedMessages: Option<seq<ChatMessage>>, sorted: seq<ChatMessage>): (r: seq<ChatMessage>)
    ensures cachedMessages.None? || cachedMessages.value == [] ==> r == sorted
    ensures cachedMessages.Some? && cachedMessages.value != [] ==>
      forall m :: m in r <==> m in sorted && m.timestamp > cachedMessages.value[|cachedMessages.value| - 1].timestamp
  {
    if cachedMessages.None? || cachedMessages.value == [] then sorted
    else Later(sorted, cachedMessages.value[|cachedMessages.value| - 1].timestamp)
  }

  /**
   * With the intended selection, after the cached list and then the selected server messages are
   * replayed, every server message newer than the cache — and every cached one — is on screen.
   */
  lemma IntendedShowsNewer(cached: seq<ChatMessage>, sorted: seq<ChatMessage>, me: string, now: nat, m: ChatMessage)
    requires cached != []
    requires m in cached || (m in sorted && m.timestamp > cached[|cached| - 1].timestamp)
    ensures HasId(Replay(Replay([], cached, me, now), IntendedNewMessages(Some(cached), sorted), me, now), MessageIdFor(m, now))
  {
    var shown := Replay([], cached, me, now);
    var later := IntendedNewMessages(Some(cached), sorted);
    if m in later {
      ReplayShowsAll(shown, later, me, now, m);
    } else {
      ReplayShowsAll([], cached, me, now, m);
      ReplayKeepsShown(shown, later, me, now, MessageIdFor(m, now));
    }
  }

  /** A replay never takes an id off the screen. */
  lemma {:induction false} ReplayKeepsShown(s: seq<Entry>, msgs: seq<ChatMessage>, me: string, now: nat, id: string)
    requires HasId(s, id)
    ensures HasId(Replay(s, msgs, me, now), id)
    decreases |msgs|
  {
    if msgs != [] {
      var n := |msgs| - 1;
      ReplayKeepsShown(s, msgs[..n], me, now, id);
      AppendKeepsIds(Replay(s, msgs[..n], me, now), msgs[n], msgs[n].sender == me, msgs[n].timestamp, now, id);
    }
  }
}
