/**
 * The message records the media maintenance scripts work on (the media columns of `Message` in
 * models.py), and what the three passes share: the text left behind when media is gone, the
 * blob lookup, and how a pass ends.
 */
module MediaRecords {
  import opened Common

  /**
   * A `messages` row as the scripts see it. `has_media` is a nullable column whose NULL every
   * script treats like false, so it is a plain boolean here.
   */
  datatype MessageRow = MessageRow(
    messageId: string,
    content: Option<string>,
    hasMedia: bool,
    mediaType: Option<string>,
    mediaUrl: Option<string>,
    mediaFilename: Option<string>)

  /** The text a message gets when its media is gone. */
  const Sentinel: string := "(Media no longer available - System Upgrade)"

  /**
   * `get_blob_client(name).get_blob_properties()` succeeds: a blob of that name is in the
   * container. An empty name never names a blob (the client refuses it), so it counts as missing.
   */
  predicate BlobFound(name: string, blobs: set<string>) {
    name != "" && name in blobs
  }

  /** How a pass ends: its count and whether it committed, or a failed commit rolled back and re-raised. */
  datatype PassOutcome = Finished(count: nat, committed: bool) | RolledBack

  /** The number of positions where two lists of rows differ. */
  function ChangedCount(a: seq<MessageRow>, b: seq<MessageRow>): (n: nat)
    requires |a| == |b|
    ensures n <= |a|
    ensures n == 0 <==> a == b
    decreases |a|
  {
    if a == [] then 0
    else
      var k := |a| - 1;
      var rest := ChangedCount(a[..k], b[..k]);
      assert a == b <==> a[..k] == b[..k] && a[k] == b[k] by {
        assert a == a[..k] + [a[k]] && b == b[..k] + [b[k]];
      }
      rest + (if a[k] != b[k] then 1 else 0)
  }
}
