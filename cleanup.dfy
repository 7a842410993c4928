/**
 * cleanup_media.py: every message that claims media whose blob is gone is rewritten to the
 * "no longer available" text and loses its media flag and address.
 */
module CleanupMedia {
  import opened Common
  import opened MediaRecords

  /** The rows the loop looks at: `has_media` set (the query) and a non-empty filename (the `continue`). */
  predicate Examined(r: MessageRow) {
    r.hasMedia && r.mediaFilename.Some? && r.mediaFilename.value != ""
  }

  /** An examined row whose blob lookup fails. */
  predicate Missing(r: MessageRow, blobs: set<string>) {
    Examined(r) && !BlobFound(r.mediaFilename.value, blobs)
  }

  /** One row after the pass. */
  function CleanedRow(r: MessageRow, blobs: set<string>): (c: MessageRow)
    ensures c.messageId == r.messageId && c.mediaFilename == r.mediaFilename && c.mediaType == r.mediaType
    ensures c != r <==> Missing(r, blobs)
    ensures Missing(r, blobs) ==> c.content == Some(Sentinel) && !c.hasMedia && c.mediaUrl.None?
    ensures !Missing(c, blobs)
  {
    if Missing(r, blobs) then r.(content := Some(Sentinel), hasMedia := false, mediaUrl := None) else r
  }

  /** All rows after the pass. */
  function CleanupAll(s: seq<MessageRow>, blobs: set<string>): (t: seq<MessageRow>)
    ensures |t| == |s|
    ensures forall i :: 0 <= i < |s| ==> t[i] == CleanedRow(s[i], blobs)
  {
    seq(|s|, i requires 0 <= i < |s| => CleanedRow(s[i], blobs))
  }

  /** The number of rows the pass rewrites. */
  function MissingCount(s: seq<MessageRow>, blobs: set<string>): nat
    decreases |s|
  {
    if s == [] then 0
    else MissingCount(s[..|s| - 1], blobs) + (if Missing(s[|s| - 1], blobs) then 1 else 0)
  }

  lemma CleanupAllPrefix(s: seq<MessageRow>, blobs: set<string>, k: nat)
    requires k <= |s|
    ensures CleanupAll(s, blobs)[..k] == CleanupAll(s[..k], blobs)
  {
  }

  /** The count the pass returns is the number of rows it changed. */
  lemma {:induction false} CountIsChanged(s: seq<MessageRow>, blobs: set<string>)
    ensures MissingCount(s, blobs) == ChangedCount(s, CleanupAll(s, blobs))
    decreases |s|
  {
    if s != [] {
      var k := |s| - 1;
      CountIsChanged(s[..k], blobs);
      CleanupAllPrefix(s, blobs, k);
    }
  }

  lemma {:induction false} NoneMissing(s: seq<MessageRow>, blobs: set<string>)
    requires forall i :: 0 <= i < |s| ==> !Missing(s[i], blobs)
    ensures MissingCount(s, blobs) == 0
    decreases |s|
  {
    if s != [] {
      NoneMissing(s[..|s| - 1], blobs);
    }
  }

  /** Idempotence: a second run against the same blobs rewrites nothing and returns 0. */
  lemma CleanupIdempotent(s: seq<MessageRow>, blobs: set<string>)
    ensures CleanupAll(CleanupAll(s, blobs), blobs) == CleanupAll(s, blobs)
    ensures MissingCount(CleanupAll(s, blobs), blobs) == 0
  {
    NoneMissing(CleanupAll(s, blobs), blobs);
  }

  /**
   * The body of the loop of `cleanup_media_messages` for row `i`: a row whose blob is gone gets
   * the sentinel text and loses its flag and address. Returns whether the row was rewritten.
   */
  method CleanRow(rows: array<MessageRow>, i: nat, blobs: set<string>) returns (cleaned: bool)
    requires i < rows.Length
    modifies rows
    ensures rows[i] == CleanedRow(old(rows[i]), blobs)
    ensures forall j :: 0 <= j < rows.Length && j != i ==> rows[j] == old(rows[j])
    ensures cleaned == Missing(old(rows[i]), blobs)
  {
    var message := rows[i];
    cleaned := false;
    if Examined(message) {
      if !BlobFound(message.mediaFilename.value, blobs) {
        rows[i] := message.(content := Some(Sentinel), hasMedia := false, mediaUrl := None);
        cleaned := true;
      }
    }
  }

  /**
   * `cleanup_media_messages` over the table `rows`, against the blob names `blobs`; `commitFails`
   * says whether the final commit raises. The commit is unconditional, even with nothing changed.
   */
  method CleanupMediaMessages(rows: array<MessageRow>, blobs: set<string>, commitFails: bool) returns (outcome: PassOutcome)
    modifies rows
    ensures commitFails ==> outcome == RolledBack && rows[..] == old(rows[..])
    ensures !commitFails ==> outcome == Finished(MissingCount(old(rows[..]), blobs), true)
    ensures !commitFails ==> rows[..] == CleanupAll(old(rows[..]), blobs)
  {
    var original := rows[..];
    var cleanedCount := 0;
    var i := 0;
    while i < rows.Length
      invariant 0 <= i <= rows.Length
      invariant forall j :: 0 <= j < i ==> rows[j] == CleanedRow(original[j], blobs)
      invariant forall j :: i <= j < rows.Length ==> rows[j] == original[j]
      invariant cleanedCount == MissingCount(original[..i], blobs)
    {
      var cleaned := CleanRow(rows, i, blobs);
      cleanedCount := cleanedCount + if cleaned then 1 else 0;
      assert original[..i + 1][..i] == original[..i];
      i := i + 1;
    }
    assert original[..rows.Length] == original;
    if commitFails {
      forall j | 0 <= j < rows.Length {
        rows[j] := original[j];
      }
      return RolledBack;
    }
    return Finished(cleanedCount, true);
  }
}
