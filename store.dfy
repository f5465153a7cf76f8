/**
 * Resuming a download.  A date's temporary directory holds `<id>.ts` files
 * (downloaded segments) and `<id>.mp4` files (converted segments); their
 * presence is the only record of progress.  The ids still to download or
 * to convert are read off the directory, and the download loop fetches the
 * missing segments in ascending order, stopping at the first that fails.
 */
module Store {
  import opened Wrappers
  import opened Naming
  import opened Remote
  import opened Discovery

  /** `download_video` fixes the number of segments at ten instead of counting them. */
  const NumVideoSegmentsAsWritten: nat := 10

  predicate StrictlyIncreasing(s: seq<nat>) {
    forall i, j :: 0 <= i < j < |s| ==> s[i] < s[j]
  }

  /** A segment counts as downloaded when its `.ts` or its `.mp4` file is present. */
  predicate IsDownloaded(tsIds: set<nat>, mp4Ids: set<nat>, id: nat) {
    id in tsIds || id in mp4Ids
  }

  /** A segment counts as converted when its `.mp4` file is present. */
  predicate IsConverted(mp4Ids: set<nat>, id: nat) {
    id in mp4Ids
  }

  /** The ids `lo` through `hi`, in ascending order, that are not in `done`. */
  function IdsNotIn(lo: nat, hi: nat, done: set<nat>): (ids: seq<nat>)
    ensures StrictlyIncreasing(ids)
    ensures forall i :: 0 <= i < |ids| ==> lo <= ids[i] <= hi
    decreases if lo <= hi then hi - lo + 1 else 0
  {
    if lo > hi then []
    else
      var rest := IdsNotIn(lo + 1, hi, done);
      if lo in done then rest else PrependSmaller(lo, rest); [lo] + rest
  }

  lemma PrependSmaller(x: nat, s: seq<nat>)
    requires StrictlyIncreasing(s)
    requires forall i :: 0 <= i < |s| ==> x < s[i]
    ensures StrictlyIncreasing([x] + s)
  {
    var t := [x] + s;
    forall i, j | 0 <= i < j < |t|
      ensures t[i] < t[j]
    {
      assert t[j] == s[j - 1];
      if i > 0 {
        assert t[i] == s[i - 1];
      }
    }
  }

  /** Exactly the ids in range that are not done are listed. */
  lemma {:induction false} IdsNotInMembers(lo: nat, hi: nat, done: set<nat>)
    ensures forall id :: id in IdsNotIn(lo, hi, done) <==> lo <= id <= hi && id !in done
    decreases if lo <= hi then hi - lo + 1 else 0
  {
    if lo <= hi {
      IdsNotInMembers(lo + 1, hi, done);
      var rest := IdsNotIn(lo + 1, hi, done);
      assert IdsNotIn(lo, hi, done) == if lo in done then rest else [lo] + rest;
    }
  }

  /** `get_video_segments_ids_to_download`: ids 1..n, ascending, not yet downloaded. */
  function IdsToDownload(tsIds: set<nat>, mp4Ids: set<nat>, numSegments: nat): (ids: seq<nat>)
    ensures StrictlyIncreasing(ids)
    ensures forall id :: id in ids <==> 1 <= id <= numSegments && !IsDownloaded(tsIds, mp4Ids, id)
  {
    IdsNotInMembers(1, numSegments, tsIds + mp4Ids);
    IdsNotIn(1, numSegments, tsIds + mp4Ids)
  }

  /** `get_video_segments_ids_to_convert`: ids 1..n, ascending, not yet converted. */
  function IdsToConvert(mp4Ids: set<nat>, numSegments: nat): (ids: seq<nat>)
    ensures StrictlyIncreasing(ids)
    ensures forall id :: id in ids <==> 1 <= id <= numSegments && !IsConverted(mp4Ids, id)
  {
    IdsNotInMembers(1, numSegments, mp4Ids);
    IdsNotIn(1, numSegments, mp4Ids)
  }

  /** The elements of `s` that are not in `t`, in their order. */
  function Without(s: seq<nat>, t: set<nat>): seq<nat> {
    if s == [] then [] else (if s[0] in t then [] else [s[0]]) + Without(s[1..], t)
  }

  lemma WithoutCons(x: nat, rest: seq<nat>, t: set<nat>)
    ensures Without([x] + rest, t) == (if x in t then [] else [x]) + Without(rest, t)
  {
    assert ([x] + rest)[1..] == rest;
  }

  lemma {:induction false} IdsNotInUnion(lo: nat, hi: nat, a: set<nat>, b: set<nat>)
    ensures IdsNotIn(lo, hi, a + b) == Without(IdsNotIn(lo, hi, b), a)
    decreases if lo <= hi then hi - lo + 1 else 0
  {
    if lo <= hi {
      var rest := IdsNotIn(lo + 1, hi, b);
      IdsNotInUnion(lo + 1, hi, a, b);
      if lo in b {
        calc {
          Without(IdsNotIn(lo, hi, b), a);
          Without(rest, a);
          IdsNotIn(lo + 1, hi, a + b);
          IdsNotIn(lo, hi, a + b);
        }
      } else {
        calc {
          Without(IdsNotIn(lo, hi, b), a);
          Without([lo] + rest, a);
          { WithoutCons(lo, rest, a); }
          (if lo in a then [] else [lo]) + Without(rest, a);
          (if lo in a then [] else [lo]) + IdsNotIn(lo + 1, hi, a + b);
          { assert [] + IdsNotIn(lo + 1, hi, a + b) == IdsNotIn(lo + 1, hi, a + b); }
          IdsNotIn(lo, hi, a + b);
        }
      }
    }
  }

  /**
   * The download list is the conversion list with the ids whose `.ts` file
   * is present taken out: in particular every id to download is also an id
   * to convert, in the same relative order.
   */
  lemma DownloadListWithinConvertList(tsIds: set<nat>, mp4Ids: set<nat>, numSegments: nat)
    ensures IdsToDownload(tsIds, mp4Ids, numSegments) == Without(IdsToConvert(mp4Ids, numSegments), tsIds)
  {
    IdsNotInUnion(1, numSegments, tsIds, mp4Ids);
  }

  /** The position in `ids` of the first segment whose fetch gives no data, if any. */
  function FirstUnavailable(web: Web, baseUrl: string, ids: seq<nat>): (k: Option<nat>)
    ensures k.None? ==> forall i :: 0 <= i < |ids| ==> DoesVideoSegmentExist(web, baseUrl, ids[i])
    ensures k.Some? ==> k.value < |ids| && !DoesVideoSegmentExist(web, baseUrl, ids[k.value])
    ensures k.Some? ==> forall i :: 0 <= i < k.value ==> DoesVideoSegmentExist(web, baseUrl, ids[i])
  {
    if ids == [] then None
    else if !DoesVideoSegmentExist(web, baseUrl, ids[0]) then Some(0)
    else match FirstUnavailable(web, baseUrl, ids[1..])
      case None => None
      case Some(k) => Some(k + 1)
  }

  lemma {:induction false} AllAvailable(web: Web, baseUrl: string, ids: seq<nat>)
    requires forall i :: 0 <= i < |ids| ==> DoesVideoSegmentExist(web, baseUrl, ids[i])
    ensures FirstUnavailable(web, baseUrl, ids).None?
  {
    if ids != [] {
      AllAvailable(web, baseUrl, ids[1..]);
    }
  }

  /**
   * The segment ids the download loop over `ids` requests: each listed id in
   * order, up to and including the first one that gives no data.
   */
  function FetchedIds(web: Web, baseUrl: string, ids: seq<nat>): (f: seq<nat>)
    ensures f <= ids
    ensures forall i :: 0 <= i < |f| - 1 ==> DoesVideoSegmentExist(web, baseUrl, f[i])
    ensures |f| < |ids| ==> 1 <= |f| && !DoesVideoSegmentExist(web, baseUrl, f[|f| - 1])
  {
    match FirstUnavailable(web, baseUrl, ids)
    case None => ids
    case Some(k) => ids[..k + 1]
  }

  /** The `.ts` files after fetching and saving, in order, each segment of `ids` that has data. */
  function SavedSegments(files: map<nat, Bytes>, web: Web, baseUrl: string, ids: seq<nat>): map<nat, Bytes>
    decreases |ids|
  {
    if ids == [] then files
    else
      var before := SavedSegments(files, web, baseUrl, ids[..|ids| - 1]);
      var last := ids[|ids| - 1];
      match DownloadVideoSegment(web, baseUrl, last)
      case Some(data) => before[last := data]
      case None => before
  }

  /**
   * Saving only adds files: a file present before stays; an id outside the
   * list keeps exactly what it had; an id in the list whose segment has data
   * holds that data.
   */
  lemma {:induction false} SavedSegmentsAt(files: map<nat, Bytes>, web: Web, baseUrl: string, ids: seq<nat>, id: nat)
    ensures id in files ==> id in SavedSegments(files, web, baseUrl, ids)
    ensures id !in ids ==> (id in SavedSegments(files, web, baseUrl, ids) <==> id in files)
    ensures id !in ids && id in files ==> SavedSegments(files, web, baseUrl, ids)[id] == files[id]
    ensures id in ids && DoesVideoSegmentExist(web, baseUrl, id) ==>
      id in SavedSegments(files, web, baseUrl, ids)
      && SavedSegments(files, web, baseUrl, ids)[id] == DownloadVideoSegment(web, baseUrl, id).value
    decreases |ids|
  {
    if ids != [] {
      var init := ids[..|ids| - 1];
      SavedSegmentsAt(files, web, baseUrl, init, id);
      assert id in ids ==> id in init || id == ids[|ids| - 1];
    }
  }

  /**
   * After a download loop over the download list that met no failure, every
   * segment 1..n counts as downloaded.
   */
  lemma DownloadCompletes(files: map<nat, Bytes>, mp4Ids: set<nat>, web: Web, baseUrl: string, numSegments: nat)
    requires FirstUnavailable(web, baseUrl, IdsToDownload(files.Keys, mp4Ids, numSegments)).None?
    ensures forall id :: 1 <= id <= numSegments ==>
      IsDownloaded(SavedSegments(files, web, baseUrl, IdsToDownload(files.Keys, mp4Ids, numSegments)).Keys, mp4Ids, id)
  {
    var ids := IdsToDownload(files.Keys, mp4Ids, numSegments);
    forall id | 1 <= id <= numSegments
      ensures IsDownloaded(SavedSegments(files, web, baseUrl, ids).Keys, mp4Ids, id)
    {
      SavedSegmentsAt(files, web, baseUrl, ids, id);
      if id in ids {
        var i :| 0 <= i < |ids| && ids[i] == id;
      }
    }
  }

  /** A list that is not empty has its first element as a member. */
  lemma HeadIsMember(s: seq<nat>)
    ensures s == [] || s[0] in s
  {
  }

  /**
   * Resuming is idempotent: once a download loop over the download list met
   * no failure, the download list of the new directory state lists no id, so a
   * second run fetches nothing.
   */
  lemma SecondRunFetchesNothing(files: map<nat, Bytes>, mp4Ids: set<nat>, web: Web, baseUrl: string, numSegments: nat)
    requires FirstUnavailable(web, baseUrl, IdsToDownload(files.Keys, mp4Ids, numSegments)).None?
    ensures forall id :: id !in IdsToDownload(SavedSegments(files, web, baseUrl, IdsToDownload(files.Keys, mp4Ids, numSegments)).Keys, mp4Ids, numSegments)
    ensures FetchedIds(web, baseUrl, IdsToDownload(SavedSegments(files, web, baseUrl, IdsToDownload(files.Keys, mp4Ids, numSegments)).Keys, mp4Ids, numSegments)) == []
  {
    DownloadCompletes(files, mp4Ids, web, baseUrl, numSegments);
    var again := IdsToDownload(SavedSegments(files, web, baseUrl, IdsToDownload(files.Keys, mp4Ids, numSegments)).Keys, mp4Ids, numSegments);
    HeadIsMember(again);
  }

  /**
   * With the count fixed at ten, a video of fewer than ten segments whose
   * segments are not yet on disk cannot be downloaded: some listed id does
   * not exist, so the download loop stops with a failure.
   */
  lemma FixedCountFailsShortVideos(web: Web, baseUrl: string, n: nat)
    requires 1 <= n < NumVideoSegmentsAsWritten && HasSegments(web, baseUrl, n)
    ensures FirstUnavailable(web, baseUrl, IdsToDownload({}, {}, NumVideoSegmentsAsWritten)).Some?
  {
    var ids := IdsToDownload({}, {}, NumVideoSegmentsAsWritten);
    assert n + 1 in ids;
    var i :| 0 <= i < |ids| && ids[i] == n + 1;
    assert !DoesVideoSegmentExist(web, baseUrl, ids[i]);
  }

  /**
   * With the count fixed at ten, a video of more than ten segments is cut
   * short: segment 11 exists but is never listed for download.
   */
  lemma FixedCountMissesLaterSegments(web: Web, baseUrl: string, n: nat, tsIds: set<nat>, mp4Ids: set<nat>)
    requires NumVideoSegmentsAsWritten < n && HasSegments(web, baseUrl, n)
    ensures DoesVideoSegmentExist(web, baseUrl, NumVideoSegmentsAsWritten + 1)
    ensures NumVideoSegmentsAsWritten + 1 !in IdsToDownload(tsIds, mp4Ids, NumVideoSegmentsAsWritten)
  {
  }

  datatype DownloadOutcome =
    | Downloaded                       // every listed segment is now on disk
    | SegmentDownloadFailed(id: nat)   // a segment gave no data: the run stops there
    | VideoNotFound                    // the video's first segment does not exist

  /** The segment files of one date's temporary directory. */
  class SegmentStore {
    /** The `<id>.ts` files and their bytes. */
    var tsFiles: map<nat, Bytes>
    /** The ids that have an `<id>.mp4` file. */
    var mp4Files: set<nat>

    constructor (tsFiles0: map<nat, Bytes>, mp4Files0: set<nat>)
      ensures tsFiles == tsFiles0 && mp4Files == mp4Files0
    {
      tsFiles := tsFiles0;
      mp4Files := mp4Files0;
    }

    /** `save_video_segment`: writes (or overwrites) the segment's `.ts` file. */
    method SaveVideoSegment(id: nat, data: Bytes)
      modifies this
      ensures tsFiles == old(tsFiles)[id := data]
      ensures mp4Files == old(mp4Files)
    {
      tsFiles := tsFiles[id := data];
    }

    /**
     * The download loop of `download_video`: fetches and saves each listed
     * segment in order, and stops at the first one that gives no data.
     */
    method DownloadVideoSegments(web: Web, baseUrl: string, ids: seq<nat>)
        returns (outcome: DownloadOutcome, ghost fetched: seq<nat>)
      modifies this
      ensures fetched == FetchedIds(web, baseUrl, ids)
      ensures mp4Files == old(mp4Files)
      ensures FirstUnavailable(web, baseUrl, ids).None? ==>
        outcome == Downloaded && tsFiles == SavedSegments(old(tsFiles), web, baseUrl, ids)
      ensures FirstUnavailable(web, baseUrl, ids).Some? ==>
        var k := FirstUnavailable(web, baseUrl, ids).value;
        outcome == SegmentDownloadFailed(ids[k]) && tsFiles == SavedSegments(old(tsFiles), web, baseUrl, ids[..k])
    {
      var i := 0;
      fetched := [];
      while i < |ids|
        invariant 0 <= i <= |ids|
        invariant forall j :: 0 <= j < i ==> DoesVideoSegmentExist(web, baseUrl, ids[j])
        invariant fetched == ids[..i]
        invariant tsFiles == SavedSegments(old(tsFiles), web, baseUrl, ids[..i])
        invariant mp4Files == old(mp4Files)
      {
        var videoSegmentData := DownloadVideoSegment(web, baseUrl, ids[i]);
        fetched := ids[..i + 1];
        if videoSegmentData.None? {
          return SegmentDownloadFailed(ids[i]), fetched;
        }
        assert ids[..i + 1][..i] == ids[..i];
        SaveVideoSegment(ids[i], videoSegmentData.value);
        i := i + 1;
      }
      assert ids[..i] == ids;
      AllAvailable(web, baseUrl, ids);
      return Downloaded, fetched;
    }

    /**
     * `download_video` up to the end of the download stage, as written: the
     * video must exist, the segment count is fixed at ten, and the segments
     * not yet on disk are downloaded.
     */
    method DownloadVideo(web: Web, date: Date) returns (outcome: DownloadOutcome, ghost requested: seq<nat>)
      modifies this
      ensures !DoesVideoExist(web, BaseUrl(date)) ==>
        outcome == VideoNotFound && requested == [1] && tsFiles == old(tsFiles) && mp4Files == old(mp4Files)
      ensures DoesVideoExist(web, BaseUrl(date)) ==>
        requested == [1] + FetchedIds(web, BaseUrl(date), IdsToDownload(old(tsFiles).Keys, old(mp4Files), NumVideoSegmentsAsWritten))
      ensures DoesVideoExist(web, BaseUrl(date)) ==>
        var ids := IdsToDownload(old(tsFiles).Keys, old(mp4Files), NumVideoSegmentsAsWritten);
        match FirstUnavailable(web, BaseUrl(date), ids)
        case None =>
          outcome == Downloaded && tsFiles == SavedSegments(old(tsFiles), web, BaseUrl(date), ids)
        case Some(k) =>
          outcome == SegmentDownloadFailed(ids[k]) && tsFiles == SavedSegments(old(tsFiles), web, BaseUrl(date), ids[..k])
      ensures mp4Files == old(mp4Files)
      ensures outcome == Downloaded ==>
        forall id :: 1 <= id <= NumVideoSegmentsAsWritten ==> IsDownloaded(tsFiles.Keys, mp4Files, id)
    {
      var baseUrl := BaseUrl(date);
      requested := [1];
      if !DoesVideoExist(web, baseUrl) {
        return VideoNotFound, requested;
      }
      var numVideoSegments := NumVideoSegmentsAsWritten;
      var ids := IdsToDownload(tsFiles.Keys, mp4Files, numVideoSegments);
      ghost var before := tsFiles;
      ghost var fetched;
      outcome, fetched := DownloadVideoSegments(web, baseUrl, ids);
      requested := requested + fetched;
      if outcome == Downloaded {
        DownloadCompletes(before, mp4Files, web, baseUrl, numVideoSegments);
      }
    }

    /**
     * `download_video` up to the end of the download stage with the segment
     * count discovered rather than fixed: for a stream of n segments that the
     * server keeps serving, the run ends with every segment 1..n on disk.
     */
    method DownloadWholeVideo(web: Web, date: Date, ghost n: nat)
        returns (outcome: DownloadOutcome, ghost fetched: seq<nat>)
      requires HasSegments(web, BaseUrl(date), n)
      modifies this
      ensures fetched == (if n == 0 then [] else IdsToDownload(old(tsFiles).Keys, old(mp4Files), n))
      ensures n == 0 ==> outcome == VideoNotFound && tsFiles == old(tsFiles)
      ensures n >= 1 ==> outcome == Downloaded
      ensures n >= 1 ==> tsFiles == SavedSegments(old(tsFiles), web, BaseUrl(date), IdsToDownload(old(tsFiles).Keys, old(mp4Files), n))
      ensures mp4Files == old(mp4Files)
      ensures forall id :: 1 <= id <= n ==> IsDownloaded(tsFiles.Keys, mp4Files, id)
    {
      var baseUrl := BaseUrl(date);
      if !DoesVideoExist(web, baseUrl) {
        return VideoNotFound, [];
      }
      ghost var probes: nat;
      var numVideoSegments: nat;
      numVideoSegments, probes := GetNumVideoSegments(web, baseUrl, n);
      var ids := IdsToDownload(tsFiles.Keys, mp4Files, numVideoSegments);
      ghost var before := tsFiles;
      outcome, fetched := DownloadVideoSegments(web, baseUrl, ids);
      forall i | 0 <= i < |ids|
        ensures DoesVideoSegmentExist(web, baseUrl, ids[i])
      {
        assert ids[i] in ids;
      }
      AllAvailable(web, baseUrl, ids);
      DownloadCompletes(before, mp4Files, web, baseUrl, numVideoSegments);
    }
  }
}
