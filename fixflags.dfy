/**
 * tests/fix_media_flags.py: for every message that names a media file, the `has_media` flag is
 * brought in line with whether the blob exists, and the text is set to match.
 */
module FixMediaFlags {
  import opened Common
  import opened MediaRecords

  /** The rows the query returns: `media_filename` is not NULL. */
  predicate Examined(r: MessageRow) {
    r.mediaFilename.Some?
  }

  /** The flag agrees with the blob store, or the row is not looked at. */
  predicate Consistent(r: MessageRow, blobs: set<string>) {
    !Examined(r) || r.hasMedia == BlobFound(r.mediaFilename.value, blobs)
  }

  /** One row after the pass. */
  function FixedRow(r: MessageRow, blobs: set<string>): (f: MessageRow)
    ensures Consistent(f, blobs)
    ensures f == r <==> Consistent(r, blobs)
    ensures f.messageId == r.messageId && f.mediaFilename == r.mediaFilename && f.mediaUrl == r.mediaUrl && f.mediaType == r.mediaType
    ensures !Consistent(r, blobs) && f.hasMedia ==> f.content == Some("")
    ensures !Consistent(r, blobs) && !f.hasMedia ==> f.content == Some(Sentinel)
  {
    if !Examined(r) then r
    else if BlobFound(r.mediaFilename.value, blobs) then
      if !r.hasMedia then r.(hasMedia := true, content := Some("")) else r
    else
      if r.hasMedia then r.(hasMedia := false, content := Some(Sentinel)) else r
  }

  /** All rows after the pass. */
  function FixAll(s: seq<MessageRow>, blobs: set<string>): (t: seq<MessageRow>)
    ensures |t| == |s|
    ensures forall i :: 0 <= i < |s| ==> t[i] == FixedRow(s[i], blobs)
  {
    seq(|s|, i requires 0 <= i < |s| => FixedRow(s[i], blobs))
  }

  /** The number of rows whose flag disagrees with the blob store. */
  function InconsistentCount(s: seq<MessageRow>, blobs: set<string>): nat
    decreases |s|
  {
    if s == [] then 0
    else InconsistentCount(s[..|s| - 1], blobs) + (if Consistent(s[|s| - 1], blobs) then 0 else 1)
  }

  lemma FixAllPrefix(s: seq<MessageRow>, blobs: set<string>, k: nat)
    requires k <= |s|
    ensures FixAll(s, blobs)[..k] == FixAll(s[..k], blobs)
  {
  }

  /** After the run every examined row has `has_media` exactly when its blob exists. */
  lemma FixAllConsistent(s: seq<MessageRow>, blobs: set<string>)
    ensures forall i :: 0 <= i < |s| && Examined(s[i]) ==>
      FixAll(s, blobs)[i].hasMedia == BlobFound(s[i].mediaFilename.value, blobs)
  {
  }

  /** The count is the number of rows that were inconsistent, which is the number of rows changed. */
  lemma {:induction false} CountIsChanged(s: seq<MessageRow>, blobs: set<string>)
    ensures InconsistentCount(s, blobs) == ChangedCount(s, FixAll(s, blobs))
    decreases |s|
  {
    if s != [] {
      var k := |s| - 1;
      CountIsChanged(s[..k], blobs);
      FixAllPrefix(s, blobs, k);
    }
  }

  lemma {:induction false} NoneInconsistent(s: seq<MessageRow>, blobs: set<string>)
    requires forall i :: 0 <= i < |s| ==> Consistent(s[i], blobs)
    ensures InconsistentCount(s, blobs) == 0
    decreases |s|
  {
    if s != [] {
      NoneInconsistent(s[..|s| - 1], blobs);
    }
  }

  /** A second run against the same blobs returns 0 and changes nothing. */
  lemma FixIdempotent(s: seq<MessageRow>, blobs: set<string>)
    ensures InconsistentCount(FixAll(s, blobs), blobs) == 0
    ensures FixAll(FixAll(s, blobs), blobs) == FixAll(s, blobs)
  {
    NoneInconsistent(FixAll(s, blobs), blobs);
  }

  /**
   * The body of the loop of `fix_media_flags` for row `i`: the flag is set from the blob store
   * and the text with it. Returns whether the row was changed.
   */
  method FixRow(rows: array<MessageRow>, i: nat, blobs: set<string>) returns (fixed: bool)
    requires i < rows.Length
    modifies rows
    ensures rows[i] == FixedRow(old(rows[i]), blobs)
    ensures forall j :: 0 <= j < rows.Length && j != i ==> rows[j] == old(rows[j])
    ensures fixed == !Consistent(old(rows[i]), blobs)
  {
    var message := rows[i];
    fixed := false;
    if Examined(message) {
      if BlobFound(message.mediaFilename.value, blobs) {
        if !message.hasMedia {
          rows[i] := message.(hasMedia := true, content := Some(""));
          fixed := true;
        }
      } else {
        if message.hasMedia {
          rows[i] := message.(hasMedia := false, content := Some(Sentinel));
          fixed := true;
        }
      }
    }
  }

  /**
   * `fix_media_flags` over the table `rows`, against the blob names `blobs`. It commits only when
   * it fixed something; `commitFails` says whether that commit raises.
   */
  method FixMediaFlags(rows: array<MessageRow>, blobs: set<string>, commitFails: bool) returns (outcome: PassOutcome)
    modifies rows
    ensures InconsistentCount(old(rows[..]), blobs) > 0 && commitFails ==> outcome == RolledBack && rows[..] == old(rows[..])
    ensures !(InconsistentCount(old(rows[..]), blobs) > 0 && commitFails) ==>
      && outcome == Finished(InconsistentCount(old(rows[..]), blobs), InconsistentCount(old(rows[..]), blobs) > 0)
      && rows[..] == FixAll(old(rows[..]), blobs)
  {
    var original := rows[..];
    var fixedCount := 0;
    var i := 0;
    while i < rows.Length
      invariant 0 <= i <= rows.Length
      invariant forall j :: 0 <= j < i ==> rows[j] == FixedRow(original[j], blobs)
      invariant forall j :: i <= j < rows.Length ==> rows[j] == original[j]
      invariant fixedCount == InconsistentCount(original[..i], blobs)
    {
      var fixed := FixRow(rows, i, blobs);
      fixedCount := fixedCount + if fixed then 1 else 0;
      assert original[..i + 1][..i] == original[..i];
      i := i + 1;
    }
    assert original[..rows.Length] == original;
    if fixedCount > 0 {
      if commitFails {
        forall j | 0 <= j < rows.Length {
          rows[j] := original[j];
        }
        return RolledBack;
      }
      return Finished(fixedCount, true);
    }
    return Finished(fixedCount, false);
  }
}
