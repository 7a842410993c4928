/**
 * The message list of one open conversation window (static/js/messages.js). The model keeps one
 * entry per message element: its `data-message-id`, its `data-timestamp`, the `outgoing`,
 * `temp-message` and `failed` classes, the text and the media element. Markup, scrolling and
 * image loading are not modelled.
 */
module Timeline {
  import opened Common
  import opened ChatTypes
  import Sorting

  /** The media element rendered for a message and the address it points at. */
  datatype MediaView =
    | NoMedia
    | ImageMedia(url: Option<string>)
    | VideoMedia(url: Option<string>, mediaType: string)
    | FileMedia(url: Option<string>, filename: Option<string>)

  /** One message element of a conversation's container. */
  datatype Entry = Entry(
    id: string,
    timestamp: int,
    outgoing: bool,
    temp: bool,
    failed: bool,
    text: Option<string>,
    media: MediaView)

  function EntryTime(e: Entry): int {
    e.timestamp
  }

  ghost predicate Sorted(s: seq<Entry>) {
    Sorting.SortedBy(s, EntryTime)
  }

  ghost predicate DistinctIds(s: seq<Entry>) {
    forall i, j :: 0 <= i < j < |s| ==> s[i].id != s[j].id
  }

  predicate HasId(s: seq<Entry>, id: string) {
    exists i :: 0 <= i < |s| && s[i].id == id
  }

  /** The identifier a new element gets: the message's own id, or `temp-<now>` when it has none. */
  function MessageIdFor(m: ChatMessage, now: nat): (id: string)
    ensures id != ""
    ensures m.id != "" ==> id == m.id
    ensures m.id == "" ==> id == "temp-" + Decimal(now)
  {
    if m.id != "" then m.id else "temp-" + Decimal(now)
  }

  /** Messages without an id sent at different milliseconds get different temporary ids. */
  lemma TempIdsDiffer(m1: ChatMessage, m2: ChatMessage, now1: nat, now2: nat)
    requires m1.id == "" && m2.id == "" && now1 != now2
    ensures MessageIdFor(m1, now1) != MessageIdFor(m2, now2)
  {
    var a, b := MessageIdFor(m1, now1), MessageIdFor(m2, now2);
    if a == b {
      assert a[5..] == Decimal(now1) && b[5..] == Decimal(now2);
      DecimalInjective(now1, now2);
    }
  }

  /** A media address made site-relative: exactly one leading '/' is ensured. */
  function NormalizeUrl(u: string): (r: string)
    ensures StartsWith(r, "/")
    ensures StartsWith(u, "/") ==> r == u
    ensures !StartsWith(u, "/") ==> r == "/" + u
  {
    if StartsWith(u, "/") then u else "/" + u
  }

  lemma NormalizeUrlIdempotent(u: string)
    ensures NormalizeUrl(NormalizeUrl(u)) == NormalizeUrl(u)
  {
  }

  datatype MediaKind = Image | Video | File

  /** The element kind chosen from the MIME type: `image/…`, `video/…`, anything else (or none) a file link. */
  function KindOf(mediaType: Option<string>): (k: MediaKind)
    ensures k == Image <==> OptStartsWith(mediaType, "image/")
    ensures k == Video <==> OptStartsWith(mediaType, "video/")
    ensures k == File <==> !OptStartsWith(mediaType, "image/") && !OptStartsWith(mediaType, "video/")
  {
    if OptStartsWith(mediaType, "image/") then
      assert mediaType.value[0] == "image/"[0] != "video/"[0];
      Image
    else if OptStartsWith(mediaType, "video/") then Video
    else File
  }

  /** The address shown for a message: a non-empty, non-temporary address is normalised, anything else is kept. */
  function DisplayedUrl(m: ChatMessage): (u: Option<string>)
    ensures !m.tempMediaUrl && m.mediaUrl.Some? && m.mediaUrl.value != "" ==> u == Some(NormalizeUrl(m.mediaUrl.value))
    ensures m.tempMediaUrl || m.mediaUrl.None? || m.mediaUrl.value == "" ==> u == m.mediaUrl
  {
    if !m.tempMediaUrl && m.mediaUrl.Some? && m.mediaUrl.value != "" then Some(NormalizeUrl(m.mediaUrl.value))
    else m.mediaUrl
  }

  function MediaViewOf(m: ChatMessage): MediaView {
    if !m.hasMedia then NoMedia
    else match KindOf(m.mediaType)
      case Image => ImageMedia(DisplayedUrl(m))
      case Video => VideoMedia(DisplayedUrl(m), m.mediaType.value)
      case File => FileMedia(DisplayedUrl(m), m.mediaFilename)
  }

  /** The element `appendPrivateMessage` builds for a message. */
  function EntryFor(m: ChatMessage, id: string, isOutgoing: bool, timestamp: int): (e: Entry)
    ensures e.id == id && e.timestamp == timestamp && e.outgoing == isOutgoing && !e.failed
    ensures e.temp <==> m.status == Some("sending")
    ensures !m.hasMedia <==> e.media == NoMedia
    ensures m.hasMedia ==> (e.media.ImageMedia? <==> OptStartsWith(m.mediaType, "image/"))
    ensures m.hasMedia ==> (e.media.VideoMedia? <==> OptStartsWith(m.mediaType, "video/"))
    ensures m.hasMedia ==> e.media.url == DisplayedUrl(m)
  {
    Entry(id, timestamp, isOutgoing, m.status == Some("sending"), false,
          if m.content.Some? && m.content.value != "" then m.content else None,
          MediaViewOf(m))
  }

  /** The position of the first element with the given id (`querySelector('[data-message-id=…]')`). */
  function IndexOfId(s: seq<Entry>, id: string): (r: Option<nat>)
    ensures r.Some? ==> r.value < |s| && s[r.value].id == id
    ensures r.Some? ==> forall j :: 0 <= j < r.value ==> s[j].id != id
    ensures r.None? <==> !HasId(s, id)
    decreases |s|
  {
    if s == [] then None
    else if s[0].id == id then Some(0)
    else
      match IndexOfId(s[1..], id)
      case None =>
        assert forall j :: 1 <= j < |s| ==> s[j] == s[1..][j - 1];
        None
      case Some(k) =>
        assert s[k + 1] == s[1..][k];
        Some(k + 1)
  }

  /** The position of the first element with the `temp-message` class (`querySelector('.temp-message')`). */
  function IndexOfTemp(s: seq<Entry>): (r: Option<nat>)
    ensures r.Some? ==> r.value < |s| && s[r.value].temp
    ensures r.Some? ==> forall j :: 0 <= j < r.value ==> !s[j].temp
    ensures r.None? <==> forall j :: 0 <= j < |s| ==> !s[j].temp
    decreases |s|
  {
    if s == [] then None
    else if s[0].temp then Some(0)
    else
      match IndexOfTemp(s[1..])
      case None =>
        assert forall j :: 1 <= j < |s| ==> s[j] == s[1..][j - 1];
        None
      case Some(k) =>
        assert s[k + 1] == s[1..][k];
        Some(k + 1)
  }

  /** `e` placed before the first element with a strictly later timestamp, or at the end. */
  function OrderedInsert(s: seq<Entry>, e: Entry): seq<Entry> {
    Sorting.InsertAfterEqual(s, e, EntryTime)
  }

  /** The container's list after `appendPrivateMessage`: unchanged when the id is already present. */
  function AppendEntry(s: seq<Entry>, m: ChatMessage, isOutgoing: bool, timestamp: int, now: nat): seq<Entry> {
    var id := MessageIdFor(m, now);
    if HasId(s, id) then s else OrderedInsert(s, EntryFor(m, id, isOutgoing, timestamp))
  }

  /** An existing id leaves the list as it was; otherwise exactly one element is added. */
  lemma AppendDeduplicates(s: seq<Entry>, m: ChatMessage, isOutgoing: bool, timestamp: int, now: nat)
    ensures AppendEntry(s, m, isOutgoing, timestamp, now) == s <==> HasId(s, MessageIdFor(m, now))
    ensures !HasId(s, MessageIdFor(m, now)) ==> |AppendEntry(s, m, isOutgoing, timestamp, now)| == |s| + 1
  {
    var e := EntryFor(m, MessageIdFor(m, now), isOutgoing, timestamp);
    Sorting.InsertShape(s, e, EntryTime);
  }

  /**
   * `r` is `s` with `e` added at position `p`, every element before it no later than `e` and the
   * element right after it strictly later.
   */
  ghost predicate PlacedAt(r: seq<Entry>, s: seq<Entry>, p: int, e: Entry) {
    && 0 <= p < |r|
    && r[p] == e
    && r[..p] + r[p + 1..] == s
    && (forall i :: 0 <= i < p ==> r[i].timestamp <= e.timestamp)
    && (p + 1 < |r| ==> e.timestamp < r[p + 1].timestamp)
  }

  /**
   * Where the new element goes: every element before it is no later than it (equal timestamps
   * stay in front, so the insert is stable), the element right after it is strictly later, and
   * removing it gives back the old list in its old order.
   */
  lemma AppendPlacement(s: seq<Entry>, m: ChatMessage, isOutgoing: bool, timestamp: int, now: nat)
    requires !HasId(s, MessageIdFor(m, now))
    ensures exists p :: PlacedAt(AppendEntry(s, m, isOutgoing, timestamp, now), s, p,
      EntryFor(m, MessageIdFor(m, now), isOutgoing, timestamp))
  {
    var e := EntryFor(m, MessageIdFor(m, now), isOutgoing, timestamp);
    var p := Sorting.InsertionPoint(s, timestamp, EntryTime);
    Sorting.InsertShape(s, e, EntryTime);
    var r := AppendEntry(s, m, isOutgoing, timestamp, now);
    assert forall i :: 0 <= i < p ==> r[i] == s[i];
    assert p + 1 < |r| ==> r[p + 1] == s[p];
    assert PlacedAt(r, s, p, e);
  }

  /** A list in timestamp order stays in timestamp order. */
  lemma AppendKeepsSorted(s: seq<Entry>, m: ChatMessage, isOutgoing: bool, timestamp: int, now: nat)
    requires Sorted(s)
    ensures Sorted(AppendEntry(s, m, isOutgoing, timestamp, now))
  {
    var e := EntryFor(m, MessageIdFor(m, now), isOutgoing, timestamp);
    Sorting.InsertKeepsSorted(s, e, EntryTime);
  }

  /** Adding an element whose id is new to a list with distinct ids keeps them distinct. */
  lemma InsertNewIdKeepsDistinct(s: seq<Entry>, p: nat, e: Entry)
    requires p <= |s|
    requires DistinctIds(s) && !HasId(s, e.id)
    ensures DistinctIds(s[..p] + [e] + s[p..])
  {
    var r := s[..p] + [e] + s[p..];
    forall i, j | 0 <= i < j < |r| ensures r[i].id != r[j].id {
      if i < p {
        assert r[i] == s[i];
      } else if i > p {
        assert r[i] == s[i - 1];
      }
      if j < p {
        assert r[j] == s[j];
      } else if j > p {
        assert r[j] == s[j - 1];
      }
    }
  }

  /** Because of the id check, ids that were distinct stay distinct, and the message's id is present afterwards. */
  lemma AppendKeepsIdsDistinct(s: seq<Entry>, m: ChatMessage, isOutgoing: bool, timestamp: int, now: nat)
    requires DistinctIds(s)
    ensures DistinctIds(AppendEntry(s, m, isOutgoing, timestamp, now))
    ensures HasId(AppendEntry(s, m, isOutgoing, timestamp, now), MessageIdFor(m, now))
  {
    var id := MessageIdFor(m, now);
    if !HasId(s, id) {
      var e := EntryFor(m, id, isOutgoing, timestamp);
      var p := Sorting.InsertionPoint(s, timestamp, EntryTime);
      InsertNewIdKeepsDistinct(s, p, e);
      var r := AppendEntry(s, m, isOutgoing, timestamp, now);
      assert r == s[..p] + [e] + s[p..];
      assert r[p].id == id;
    }
  }

  /** After the insert the message's id is on screen, whether it was added now or was there already. */
  lemma AppendShowsId(s: seq<Entry>, m: ChatMessage, isOutgoing: bool, timestamp: int, now: nat)
    ensures HasId(AppendEntry(s, m, isOutgoing, timestamp, now), MessageIdFor(m, now))
  {
    if !HasId(s, MessageIdFor(m, now)) {
      var e := EntryFor(m, MessageIdFor(m, now), isOutgoing, timestamp);
      Sorting.InsertShape(s, e, EntryTime);
      var p := Sorting.InsertionPoint(s, timestamp, EntryTime);
      assert AppendEntry(s, m, isOutgoing, timestamp, now)[p].id == MessageIdFor(m, now);
    }
  }

  /** An element already shown stays shown: inserting never removes an id. */
  lemma AppendKeepsIds(s: seq<Entry>, m: ChatMessage, isOutgoing: bool, timestamp: int, now: nat, id: string)
    requires HasId(s, id)
    ensures HasId(AppendEntry(s, m, isOutgoing, timestamp, now), id)
  {
    var e := EntryFor(m, MessageIdFor(m, now), isOutgoing, timestamp);
    if !HasId(s, MessageIdFor(m, now)) {
      var i :| 0 <= i < |s| && s[i].id == id;
      var p := Sorting.InsertionPoint(s, timestamp, EntryTime);
      var r := AppendEntry(s, m, isOutgoing, timestamp, now);
      assert r == s[..p] + [e] + s[p..];
      if i < p {
        assert r[i] == s[i];
      } else {
        assert r[i + 1] == s[i];
      }
    }
  }

  /** Every element after an insert was there before or is the element built for the message. */
  lemma AppendEntryFrom(s: seq<Entry>, m: ChatMessage, isOutgoing: bool, timestamp: int, now: nat, x: Entry)
    requires x in AppendEntry(s, m, isOutgoing, timestamp, now)
    ensures x in s || x == EntryFor(m, MessageIdFor(m, now), isOutgoing, timestamp)
  {
    var e := EntryFor(m, MessageIdFor(m, now), isOutgoing, timestamp);
    if !HasId(s, MessageIdFor(m, now)) {
      Sorting.InsertShape(s, e, EntryTime);
      assert x in multiset(AppendEntry(s, m, isOutgoing, timestamp, now));
    }
  }

  /** The for loop of `appendPrivateMessage`: the index of the first element strictly later than `messageTime`. */
  method FindInsertIndex(existing: seq<Entry>, messageTime: int) returns (insertIndex: nat)
    ensures insertIndex <= |existing|
    ensures forall i :: 0 <= i < insertIndex ==> existing[i].timestamp <= messageTime
    ensures insertIndex < |existing| ==> messageTime < existing[insertIndex].timestamp
  {
    insertIndex := |existing|;
    var i := 0;
    while i < |existing|
      invariant 0 <= i <= |existing|
      invariant insertIndex == |existing|
      invariant forall j :: 0 <= j < i ==> existing[j].timestamp <= messageTime
    {
      if messageTime < existing[i].timestamp {
        insertIndex := i;
        break;
      }
      i := i + 1;
    }
  }

  /** The media element, if any, pointed at a new address (`updateMediaElement`). */
  function WithUrl(v: MediaView, u: string): (w: MediaView)
    ensures v.NoMedia? ==> w == NoMedia
    ensures !v.NoMedia? ==> w == v.(url := Some(u))
  {
    match v
    case NoMedia => NoMedia
    case ImageMedia(_) => ImageMedia(Some(u))
    case VideoMedia(_, t) => VideoMedia(Some(u), t)
    case FileMedia(_, f) => FileMedia(Some(u), f)
  }

  /**
   * A temporary element after the server confirmed it (`updateTempMessage`): the confirmed id
   * and timestamp, no `temp-message` class, and for a media message the normalised address.
   */
  function Confirmed(e: Entry, c: ChatMessage): (r: Entry)
    ensures r.id == c.id && r.timestamp == c.timestamp && !r.temp
    ensures r.outgoing == e.outgoing && r.failed == e.failed && r.text == e.text
    ensures c.hasMedia && c.mediaUrl.Some? ==> r.media == WithUrl(e.media, NormalizeUrl(c.mediaUrl.value))
    ensures !c.hasMedia || c.mediaUrl.None? ==> r.media == e.media
  {
    var base := e.(id := c.id, timestamp := c.timestamp, temp := false);
    if c.hasMedia && c.mediaUrl.Some? then base.(media := WithUrl(e.media, NormalizeUrl(c.mediaUrl.value)))
    else base
  }

  /** The list after the element `tempId` was confirmed in place; the list itself when no element has that id. */
  function ConfirmById(s: seq<Entry>, tempId: string, c: ChatMessage): (r: seq<Entry>)
    ensures |r| == |s|
    ensures !HasId(s, tempId) ==> r == s
    ensures forall k :: IndexOfId(s, tempId) == Some(k) ==>
      r[k] == Confirmed(s[k], c) && forall j :: 0 <= j < |s| && j != k ==> r[j] == s[j]
  {
    match IndexOfId(s, tempId)
    case None => s
    case Some(k) => s[k := Confirmed(s[k], c)]
  }

  /** The list after `markMessageAsFailed`: only the first element with `tempId` gains the `failed` class. */
  function MarkFailed(s: seq<Entry>, tempId: string): (r: seq<Entry>)
    ensures |r| == |s|
    ensures !HasId(s, tempId) ==> r == s
    ensures forall k :: IndexOfId(s, tempId) == Some(k) ==>
      r[k] == s[k].(failed := true) && forall j :: 0 <= j < |s| && j != k ==> r[j] == s[j]
  {
    match IndexOfId(s, tempId)
    case None => s
    case Some(k) => s[k := s[k].(failed := true)]
  }

  /** Confirming in place never moves an element, so a sorted list stays sorted only if the new timestamp fits. */
  lemma ConfirmKeepsPositions(s: seq<Entry>, tempId: string, c: ChatMessage)
    ensures forall j :: 0 <= j < |s| ==> ConfirmById(s, tempId, c)[j].outgoing == s[j].outgoing
    ensures forall j :: 0 <= j < |s| && s[j].id != tempId ==> ConfirmById(s, tempId, c)[j] == s[j]
  {
  }

  /**
   * The conversation windows of the page: for each user with an open window, the entries of
   * its `private-messages-<user>` container.
   */
  class Page {
    var timelines: map<string, seq<Entry>>

    constructor ()
      ensures timelines == map[]
    {
      timelines := map[];
    }

    /** `appendPrivateMessage`: returns the id it stored, or nothing when there is no container or the id is taken. */
    method AppendPrivateMessage(username: string, message: ChatMessage, isOutgoing: bool, timestamp: int, now: nat)
      returns (id: Option<string>)
      modifies this
      ensures username !in old(timelines) ==> timelines == old(timelines) && id == None
      ensures username in old(timelines) ==>
        && timelines == old(timelines)[username := AppendEntry(old(timelines)[username], message, isOutgoing, timestamp, now)]
        && id == (if HasId(old(timelines)[username], MessageIdFor(message, now)) then None
                  else Some(MessageIdFor(message, now)))
    {
      if username !in timelines {
        return None;
      }
      var existing := timelines[username];
      var messageId := MessageIdFor(message, now);
      if IndexOfId(existing, messageId).Some? {
        return None;
      }
      var insertIndex := FindInsertIndex(existing, timestamp);
      Sorting.InsertionPointUnique(existing, timestamp, EntryTime, insertIndex);
      var messageDiv := EntryFor(message, messageId, isOutgoing, timestamp);
      timelines := timelines[username := existing[..insertIndex] + [messageDiv] + existing[insertIndex..]];
      id := Some(messageId);
    }

    /**
     * `updateTempMessage`: confirm the element `tempId` in place, or insert the confirmed message
     * as an outgoing one when there is no such element. Returns false when a media message without
     * an address makes `updateMediaElement` throw; the id, timestamp and class are already changed then.
     */
    method UpdateTempMessage(username: string, tempId: string, confirmed: ChatMessage, now: nat)
      returns (completed: bool)
      modifies this
      ensures username in old(timelines) && HasId(old(timelines)[username], tempId) ==>
        && timelines == old(timelines)[username := ConfirmById(old(timelines)[username], tempId, confirmed)]
        && completed == !(confirmed.hasMedia && confirmed.mediaUrl.None?)
      ensures username in old(timelines) && !HasId(old(timelines)[username], tempId) ==>
        && timelines == old(timelines)[username := AppendEntry(old(timelines)[username], confirmed, true, confirmed.timestamp, now)]
        && completed
      ensures username !in old(timelines) ==> timelines == old(timelines) && completed
    {
      completed := true;
      if username in timelines {
        var s := timelines[username];
        match IndexOfId(s, tempId)
        case Some(k) =>
          timelines := timelines[username := s[k := Confirmed(s[k], confirmed)]];
          completed := !(confirmed.hasMedia && confirmed.mediaUrl.None?);
          return;
        case None =>
      }
      var _ := AppendPrivateMessage(username, confirmed, true, confirmed.timestamp, now);
    }

    /** `markMessageAsFailed`. */
    method MarkMessageAsFailed(username: string, tempId: string)
      modifies this
      ensures username in old(timelines) ==> timelines == old(timelines)[username := MarkFailed(old(timelines)[username], tempId)]
      ensures username !in old(timelines) ==> timelines == old(timelines)
    {
      if username in timelines {
        timelines := timelines[username := MarkFailed(timelines[username], tempId)];
      }
    }
  }
}
