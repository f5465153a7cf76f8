/**
 * The stream server as the downloader sees it.  Every request is one HTTP
 * GET of a URL with a timeout; a timeout or a URL error raised while opening
 * the URL both come back as "no data", so the downloader distinguishes only
 * "bytes" and "nothing".  Errors raised while reading the body are not
 * caught by the downloader and are not part of this model.
 */
module Remote {
  import opened Wrappers
  import opened Naming

  type Bytes = seq<bv8>

  /** The outcome of fetching each URL: its body, or `None` when opening it timed out or failed. */
  type Web = string -> Option<Bytes>

  /** Fetches segment `id` of the stream at `baseUrl`. */
  function DownloadVideoSegment(web: Web, baseUrl: string, id: nat): Option<Bytes> {
    web(SegmentUrl(baseUrl, id))
  }

  /** A segment exists when fetching it yields data. */
  predicate DoesVideoSegmentExist(web: Web, baseUrl: string, id: nat) {
    DownloadVideoSegment(web, baseUrl, id).Some?
  }

  /** A video exists when its first segment, id 1, does. */
  predicate DoesVideoExist(web: Web, baseUrl: string) {
    DoesVideoSegmentExist(web, baseUrl, 1)
  }

  /** The stream at `baseUrl` consists of exactly the segments 1 through `n`. */
  ghost predicate HasSegments(web: Web, baseUrl: string, n: nat) {
    forall id: nat :: DoesVideoSegmentExist(web, baseUrl, id) <==> 1 <= id <= n
  }
}
