/**
 * update_media_filenames.py: the blobs of the container are grouped by file extension, and each
 * message naming a media file takes the next unused blob with the same extension.
 */
module UpdateMediaFilenames {
  import opened Common
  import opened PyStr
  import opened MediaRecords

  /** The lower-cased text after the last dot. */
  function Ext(name: string): string {
    Lower(AfterLast(name, '.'))
  }

  /** `Ext` is the source's `name.split('.')[-1].lower()`. */
  lemma ExtIsSplitLastLower(name: string)
    ensures Ext(name) == Lower(Last(Split(name, '.')))
  {
    AfterLastIsLastField(name, '.');
  }

  /** The extension is the lower-cased text after the last dot ... */
  lemma ExtAfterLastDot(stem: string, suffix: string)
    requires '.' !in suffix
    ensures Ext(stem + "." + suffix) == Lower(suffix)
  {
    ExtIsSplitLastLower(stem + "." + suffix);
    SplitLastField(stem, suffix, '.');
  }

  /** ... or the whole lower-cased name when it has no dot. */
  lemma ExtWithoutDot(name: string)
    requires '.' !in name
    ensures Ext(name) == Lower(name)
  {
    ExtIsSplitLastLower(name);
    SplitLastNoSeparator(name, '.');
  }

  /** The blobs with extension `e`, in listing order. */
  function Pool(blobs: seq<string>, e: string): (p: seq<string>)
    ensures |p| <= |blobs|
    ensures forall k :: 0 <= k < |p| ==> p[k] in blobs && Ext(p[k]) == e
    decreases |blobs|
  {
    if blobs == [] then []
    else
      var last := blobs[|blobs| - 1];
      Pool(blobs[..|blobs| - 1], e) + (if Ext(last) == e then [last] else [])
  }

  /** `ext_to_blobs.get(e, [])`. */
  function Get(m: map<string, seq<string>>, e: string): seq<string> {
    if e in m then m[e] else []
  }

  /** What is left of a pool after `k` `pop(0)`s (none once it is used up). */
  function Drop(p: seq<string>, k: nat): (r: seq<string>)
    ensures k <= |p| ==> r == p[k..]
    ensures k >= |p| ==> r == []
  {
    if k <= |p| then p[k..] else []
  }

  /** One more `pop(0)` takes the head of what is left. */
  lemma DropStep(p: seq<string>, k: nat)
    ensures Drop(p, k) != [] ==> Drop(p, k)[1..] == Drop(p, k + 1)
    ensures Drop(p, k) == [] ==> Drop(p, k + 1) == []
  {
    if k < |p| {
      assert p[k..][1..] == p[k + 1..];
    }
  }

  /** The first loop: builds the map from extension to its blobs. */
  method GroupByExtension(blobs: seq<string>) returns (extToBlobs: map<string, seq<string>>)
    ensures forall e :: Get(extToBlobs, e) == Pool(blobs, e)
  {
    extToBlobs := map[];
    var i := 0;
    while i < |blobs|
      invariant 0 <= i <= |blobs|
      invariant forall e :: Get(extToBlobs, e) == Pool(blobs[..i], e)
    {
      var blob := blobs[i];
      var ext := Ext(blob);
      if ext !in extToBlobs {
        extToBlobs := extToBlobs[ext := []];
      }
      extToBlobs := extToBlobs[ext := extToBlobs[ext] + [blob]];
      assert blobs[..i + 1][..i] == blobs[..i];
      i := i + 1;
    }
    assert blobs[..|blobs|] == blobs;
  }

  /** Whether row `r` names a file with extension `e`. */
  predicate HasExt(r: MessageRow, e: string) {
    r.mediaFilename.Some? && Ext(r.mediaFilename.value) == e
  }

  /** The number of the first `k` rows of `s` that name a file with extension `e`. */
  function ExtCount(s: seq<MessageRow>, k: nat, e: string): nat
    requires k <= |s|
  {
    if k == 0 then 0 else ExtCount(s, k - 1, e) + (if HasExt(s[k - 1], e) then 1 else 0)
  }

  /** Row `i` finds an unused blob: it is the k-th message with its extension and there are more than k such blobs. */
  predicate Matched(s: seq<MessageRow>, blobs: seq<string>, i: nat)
    requires i < |s|
  {
    && s[i].mediaFilename.Some?
    && ExtCount(s, i, Ext(s[i].mediaFilename.value)) < |Pool(blobs, Ext(s[i].mediaFilename.value))|
  }

  /** The blob row `i` takes: the k-th blob of the extension for the k-th message of it. */
  function AssignedBlob(s: seq<MessageRow>, blobs: seq<string>, i: nat): (b: string)
    requires i < |s| && Matched(s, blobs, i)
    ensures b in blobs && Ext(b) == Ext(s[i].mediaFilename.value)
  {
    Pool(blobs, Ext(s[i].mediaFilename.value))[ExtCount(s, i, Ext(s[i].mediaFilename.value))]
  }

  /** Row `i` after the pass: a matched row names its blob, claims media and loses its text; others are unchanged. */
  function RowAfter(s: seq<MessageRow>, blobs: seq<string>, i: nat): (r: MessageRow)
    requires i < |s|
    ensures !Matched(s, blobs, i) ==> r == s[i]
    ensures Matched(s, blobs, i) ==>
      && r.mediaFilename == Some(AssignedBlob(s, blobs, i)) && r.hasMedia && r.content == Some("")
      && r.mediaUrl == s[i].mediaUrl && r.mediaType == s[i].mediaType && r.messageId == s[i].messageId
  {
    if Matched(s, blobs, i) then s[i].(mediaFilename := Some(AssignedBlob(s, blobs, i)), hasMedia := true, content := Some(""))
    else s[i]
  }

  /** The number of the first `k` rows the pass updates. */
  function MatchedCount(s: seq<MessageRow>, blobs: seq<string>, k: nat): nat
    requires k <= |s|
  {
    if k == 0 then 0 else MatchedCount(s, blobs, k - 1) + (if Matched(s, blobs, k - 1) then 1 else 0)
  }

  /** The number of the first `k` rows with extension `e` the pass updates. */
  function MatchedCountFor(s: seq<MessageRow>, blobs: seq<string>, k: nat, e: string): nat
    requires k <= |s|
  {
    if k == 0 then 0
    else MatchedCountFor(s, blobs, k - 1, e) + (if Matched(s, blobs, k - 1) && HasExt(s[k - 1], e) then 1 else 0)
  }

  /** Per extension, the number of updated messages is the smaller of its message count and its blob count. */
  lemma {:induction false} MatchedPerExtension(s: seq<MessageRow>, blobs: seq<string>, k: nat, e: string)
    requires k <= |s|
    ensures MatchedCountFor(s, blobs, k, e) ==
      if ExtCount(s, k, e) <= |Pool(blobs, e)| then ExtCount(s, k, e) else |Pool(blobs, e)|
  {
    if k > 0 {
      MatchedPerExtension(s, blobs, k - 1, e);
    }
  }

  lemma {:induction false} ExtCountMonotone(s: seq<MessageRow>, i: nat, j: nat, e: string)
    requires i <= j <= |s|
    ensures ExtCount(s, i, e) <= ExtCount(s, j, e)
    decreases j - i
  {
    if i < j {
      ExtCountMonotone(s, i, j - 1, e);
    }
  }

  lemma {:induction false} PoolDistinct(blobs: seq<string>, e: string)
    requires forall i, j :: 0 <= i < j < |blobs| ==> blobs[i] != blobs[j]
    ensures forall i, j :: 0 <= i < j < |Pool(blobs, e)| ==> Pool(blobs, e)[i] != Pool(blobs, e)[j]
    decreases |blobs|
  {
    if blobs != [] {
      var init := blobs[..|blobs| - 1];
      var last := blobs[|blobs| - 1];
      PoolDistinct(init, e);
    }
  }

  /** With distinct blob names no blob is assigned to two messages. */
  lemma AssignedDistinct(s: seq<MessageRow>, blobs: seq<string>, i: nat, j: nat)
    requires forall a, b :: 0 <= a < b < |blobs| ==> blobs[a] != blobs[b]
    requires i < j < |s| && Matched(s, blobs, i) && Matched(s, blobs, j)
    ensures AssignedBlob(s, blobs, i) != AssignedBlob(s, blobs, j)
  {
    var ei, ej := Ext(s[i].mediaFilename.value), Ext(s[j].mediaFilename.value);
    if ei == ej {
      ExtCountMonotone(s, i + 1, j, ei);
      PoolDistinct(blobs, ei);
    }
  }

  /** The pass over all rows, in query order. */
  function AssignAll(s: seq<MessageRow>, blobs: seq<string>): (t: seq<MessageRow>)
    ensures |t| == |s|
    ensures forall i :: 0 <= i < |s| ==> t[i] == RowAfter(s, blobs, i)
  {
    seq(|s|, i requires 0 <= i < |s| => RowAfter(s, blobs, i))
  }

  /** `ext_to_blobs[x].pop(0)` when that pool is not empty; nothing otherwise. */
  function Pop(m: map<string, seq<string>>, x: string): map<string, seq<string>> {
    if Get(m, x) == [] then m else m[x := Get(m, x)[1..]]
  }

  /**
   * The map the second loop holds after the first `k` rows, starting from `m0`: every pool has
   * lost one blob per earlier row of its extension, and no key is added.
   */
  function PoolsAt(m0: map<string, seq<string>>, s: seq<MessageRow>, k: nat): (m: map<string, seq<string>>)
    requires k <= |s|
    ensures m.Keys == m0.Keys
  {
    map e | e in m0 :: Drop(m0[e], ExtCount(s, k, e))
  }

  /** Before any row the map is the one the first loop built. */
  lemma PoolsAtStart(m0: map<string, seq<string>>, s: seq<MessageRow>)
    ensures PoolsAt(m0, s, 0) == m0
  {
    forall e | e in m0 ensures PoolsAt(m0, s, 0)[e] == m0[e] {
      assert m0[e][0..] == m0[e];
    }
  }

  /**
   * One row of the second loop keeps the map in step: a row without a file name changes nothing,
   * and a row naming a file pops the pool of its extension.
   */
  lemma PoolsAtStep(m0: map<string, seq<string>>, s: seq<MessageRow>, k: nat)
    requires k < |s|
    ensures s[k].mediaFilename.None? ==> PoolsAt(m0, s, k + 1) == PoolsAt(m0, s, k)
    ensures s[k].mediaFilename.Some? ==> PoolsAt(m0, s, k + 1) == Pop(PoolsAt(m0, s, k), Ext(s[k].mediaFilename.value))
  {
    var m := PoolsAt(m0, s, k);
    if s[k].mediaFilename.None? {
      forall e | e in m0 ensures PoolsAt(m0, s, k + 1)[e] == m[e] {
        assert !HasExt(s[k], e);
      }
    } else {
      var x := Ext(s[k].mediaFilename.value);
      forall e | e in m0 ensures PoolsAt(m0, s, k + 1)[e] == Pop(m, x)[e] {
        assert HasExt(s[k], e) <==> e == x;
        DropStep(m0[e], ExtCount(s, k, e));
      }
    }
  }

  /** The map after the first `k` rows of the second loop, row by row: each row naming a file pops its pool. */
  function PoolsAfter(m0: map<string, seq<string>>, s: seq<MessageRow>, k: nat): map<string, seq<string>>
    requires k <= |s|
  {
    if k == 0 then m0
    else if s[k - 1].mediaFilename.None? then PoolsAfter(m0, s, k - 1)
    else Pop(PoolsAfter(m0, s, k - 1), Ext(s[k - 1].mediaFilename.value))
  }

  /** Popping row by row leaves what the closed form says. */
  lemma {:induction false} PoolsAfterIsAt(m0: map<string, seq<string>>, s: seq<MessageRow>, k: nat)
    requires k <= |s|
    ensures PoolsAfter(m0, s, k) == PoolsAt(m0, s, k)
  {
    if k == 0 {
      PoolsAtStart(m0, s);
    } else {
      PoolsAfterIsAt(m0, s, k - 1);
      PoolsAtStep(m0, s, k - 1);
    }
  }

  /**
   * Started from the grouped listing, a row naming a file is matched exactly when its extension
   * still has a blob left in the map, and then it takes the first of them.
   */
  lemma PoolsStep(m0: map<string, seq<string>>, s: seq<MessageRow>, blobs: seq<string>, k: nat)
    requires k < |s| && s[k].mediaFilename.Some?
    requires Get(m0, Ext(s[k].mediaFilename.value)) == Pool(blobs, Ext(s[k].mediaFilename.value))
    ensures var x := Ext(s[k].mediaFilename.value);
      var m := PoolsAt(m0, s, k);
      && Get(m, x) == Drop(Pool(blobs, x), ExtCount(s, k, x))
      && (Matched(s, blobs, k) <==> Get(m, x) != [])
      && (Get(m, x) != [] ==> Get(m, x)[0] == AssignedBlob(s, blobs, k))
  {
  }

  /**
   * The body of the second loop of `update_media_filenames` for row `i`: a row naming a file
   * whose extension still has a blob left pops the first of them, names it and clears its text.
   */
  method AssignRow(rows: array<MessageRow>, i: nat, pools: map<string, seq<string>>,
                   ghost original: seq<MessageRow>, blobs: seq<string>, ghost m0: map<string, seq<string>>)
    returns (newPools: map<string, seq<string>>, matched: bool)
    requires i < rows.Length == |original| && rows[i] == original[i]
    requires forall e :: Get(m0, e) == Pool(blobs, e)
    requires pools == PoolsAfter(m0, original, i)
    modifies rows
    ensures matched == Matched(original, blobs, i)
    ensures rows[i] == RowAfter(original, blobs, i)
    ensures forall j :: 0 <= j < rows.Length && j != i ==> rows[j] == old(rows[j])
    ensures newPools == PoolsAfter(m0, original, i + 1)
  {
    PoolsAfterIsAt(m0, original, i);
    var message := rows[i];
    newPools, matched := pools, false;
    if message.mediaFilename.Some? {
      var originalExt := Ext(message.mediaFilename.value);
      PoolsStep(m0, original, blobs, i);
      var matchingBlobs := Get(pools, originalExt);
      if matchingBlobs != [] {
        var matchingBlob := matchingBlobs[0];
        newPools := pools[originalExt := matchingBlobs[1..]];
        rows[i] := message.(mediaFilename := Some(matchingBlob), hasMedia := true, content := Some(""));
        matched := true;
      }
    }
  }

  /**
   * The second loop of `update_media_filenames`: each row naming a file pops the first unused
   * blob of its extension from `extToBlobs`, the grouped listing. Returns the number of rows it updated.
   */
  method AssignBlobs(rows: array<MessageRow>, blobs: seq<string>, extToBlobs: map<string, seq<string>>)
    returns (updatedCount: nat)
    requires forall e :: Get(extToBlobs, e) == Pool(blobs, e)
    modifies rows
    ensures updatedCount == MatchedCount(old(rows[..]), blobs, rows.Length)
    ensures rows[..] == AssignAll(old(rows[..]), blobs)
  {
    var pools := extToBlobs;
    ghost var original := rows[..];
    updatedCount := 0;
    var i := 0;
    while i < rows.Length
      invariant 0 <= i <= rows.Length
      invariant forall j :: 0 <= j < i ==> rows[j] == RowAfter(original, blobs, j)
      invariant forall j :: i <= j < rows.Length ==> rows[j] == original[j]
      invariant updatedCount == MatchedCount(original, blobs, i)
      invariant pools == PoolsAfter(extToBlobs, original, i)
    {
      var matched;
      pools, matched := AssignRow(rows, i, pools, original, blobs, extToBlobs);
      updatedCount := updatedCount + if matched then 1 else 0;
      i := i + 1;
    }
    assert rows[..] == AssignAll(original, blobs);
  }

  /**
   * `update_media_filenames` over the table `rows` and the container listing `blobs`. It commits
   * only when it updated something; `commitFails` says whether that commit raises.
   */
  method UpdateMediaFilenames(rows: array<MessageRow>, blobs: seq<string>, commitFails: bool) returns (outcome: PassOutcome)
    modifies rows
    ensures var n := MatchedCount(old(rows[..]), blobs, rows.Length);
      n > 0 && commitFails ==> outcome == RolledBack && rows[..] == old(rows[..])
    ensures var n := MatchedCount(old(rows[..]), blobs, rows.Length);
      !(n > 0 && commitFails) ==> outcome == Finished(n, n > 0) && rows[..] == AssignAll(old(rows[..]), blobs)
  {
    var extToBlobs := GroupByExtension(blobs);
    var original := rows[..];
    var updatedCount := AssignBlobs(rows, blobs, extToBlobs);
    if updatedCount > 0 {
      if commitFails {
        forall j | 0 <= j < rows.Length {
          rows[j] := original[j];
        }
        return RolledBack;
      }
      return Finished(updatedCount, true);
    }
    return Finished(updatedCount, false);
  }
}
