/**
 * Video transcripts: finding the video id in a URL (`get_video_transcript`)
 * and joining the transcript's text fields (`extract_text`). Fetching the
 * transcript for an id is a parameter of the model.
 */
module Transcript {
  import opened Seqs

  /** The marker of the query parameter that carries the id. */
  const VideoParam: string := "v="

  /** The separator `extract_text` puts between transcript lines: a space and
      a newline. */
  const LineSeparator: string := " \n"

  /** One entry of a fetched transcript; only its `text` field is used. */
  datatype TranscriptItem = TranscriptItem(text: string)

  // ---------------------------------------------------------------------------
  // The pattern /([^/?]+)\?
  // ---------------------------------------------------------------------------

  predicate IdChar(c: char)
  {
    c != '/' && c != '?'
  }

  /** The pattern /([^/?]+)\? matches at index p with a group of n characters:
      a slash, n >= 1 characters other than slash and question mark, then a
      question mark. */
  predicate PathMatchAt(url: string, p: int, n: int)
  {
    && 0 <= p
    && 0 < n
    && p + n + 1 < |url|
    && url[p] == '/'
    && (forall i :: p < i <= p + n ==> IdChar(url[i]))
    && url[p + n + 1] == '?'
  }

  /** A match at p has exactly one group length: the run of id characters after
      the slash. */
  lemma PathMatchGroup(url: string, p: nat, n: nat)
    requires p < |url|
    requires PathMatchAt(url, p, n)
    ensures n == RunLength(url[p + 1..], IdChar)
  {
  }

  /** `re.search` for the pattern from index p on: the leftmost match, as its
      position and group length. The group is maximal, so a slash can match
      only with the run of id characters that follows it. */
  function SearchPath(url: string, p: nat): (r: Option<(nat, nat)>)
    ensures r.Some? ==> p <= r.value.0 && PathMatchAt(url, r.value.0, r.value.1)
    ensures r.Some? ==> forall q, n :: p <= q < r.value.0 ==> !PathMatchAt(url, q, n)
    ensures r.None? ==> forall q, n :: p <= q ==> !PathMatchAt(url, q, n)
    decreases |url| - p
  {
    if p >= |url| then None
    else
      var n := RunLength(url[p + 1..], IdChar);
      if url[p] == '/' && n > 0 && p + n + 1 < |url| && url[p + n + 1] == '?' then
        assert forall i :: p < i <= p + n ==> url[i] == url[p + 1..][i - p - 1];
        Some((p, n))
      else
        assert forall m :: !PathMatchAt(url, p, m) by {
          forall m | PathMatchAt(url, p, m) ensures false {
            PathMatchGroup(url, p, m);
          }
        }
        SearchPath(url, p + 1)
  }

  /** The id `get_video_transcript` asks for: with "v=" in the URL, the text
      between the first "v=" and the next one (or the end); otherwise the group
      of the first match of /([^/?]+)\?; None when that search finds nothing
      (`match.group` on None raises, and the exception is turned into None). */
  function VideoId(url: string): (r: Option<string>)
    ensures Contains(url, VideoParam) ==>
              var rest := url[IndexOf(url, VideoParam).value + |VideoParam|..];
              r == Some(match IndexOf(rest, VideoParam) case Some(j) => rest[..j] case None => rest)
    ensures !Contains(url, VideoParam) ==>
              (r.None? <==> forall p, n :: !PathMatchAt(url, p, n))
    ensures !Contains(url, VideoParam) && r.Some? ==>
              exists p :: PathMatchAt(url, p, |r.value|) && r.value == url[p + 1..p + 1 + |r.value|]
                          && forall q, n :: 0 <= q < p ==> !PathMatchAt(url, q, n)
  {
    if Contains(url, VideoParam) then
      var pieces := SplitOn(url, VideoParam);
      var i := IndexOf(url, VideoParam).value;
      SplitOnStep(url, VideoParam, i);
      SplitOnFirst(url[i + |VideoParam|..], VideoParam);
      Some(pieces[1])
    else
      match SearchPath(url, 0)
      case Some((p, n)) => Some(url[p + 1..p + 1 + n])
      case None => None
  }

  /** `get_video_transcript`: the id, then the fetch; a URL without an id, or a
      fetch that fails, gives None. */
  function GetVideoTranscript(url: string, fetch: string -> Option<seq<TranscriptItem>>): (r: Option<seq<TranscriptItem>>)
    ensures VideoId(url).None? ==> r.None?
    ensures VideoId(url).Some? ==> r == fetch(VideoId(url).value)
  {
    match VideoId(url)
    case None => None
    case Some(id) => fetch(id)
  }

  // ---------------------------------------------------------------------------
  // extract_text
  // ---------------------------------------------------------------------------

  function Texts(transcript: seq<TranscriptItem>): (texts: seq<string>)
    ensures |texts| == |transcript|
    ensures forall k :: 0 <= k < |texts| ==> texts[k] == transcript[k].text
  {
    seq(|transcript|, k requires 0 <= k < |transcript| => transcript[k].text)
  }

  /** `" \n".join(item['text'] for item in transcript)`. */
  function ExtractText(transcript: seq<TranscriptItem>): string
  {
    Join(Texts(transcript), LineSeparator)
  }

  /** No items give "", one item gives its text unchanged, and n items give
      their texts plus n - 1 two-character separators; each further item adds
      the separator and its text at the end. */
  lemma ExtractTextShape(transcript: seq<TranscriptItem>, item: TranscriptItem)
    ensures transcript == [] ==> ExtractText(transcript) == ""
    ensures ExtractText([item]) == item.text
    ensures |transcript| > 0 ==>
              |ExtractText(transcript)| == |Concat(Texts(transcript))| + 2 * (|transcript| - 1)
    ensures |transcript| > 0 ==>
              ExtractText(transcript + [item]) == ExtractText(transcript) + LineSeparator + item.text
  {
    if |transcript| > 0 {
      JoinLength(Texts(transcript), LineSeparator);
      assert Texts(transcript + [item]) == Texts(transcript) + [item.text];
      JoinSnoc(Texts(transcript), item.text, LineSeparator);
    }
  }

  /** Splitting the joined text at " \n" gives back every item's text, in
      order, when no text itself contains " \n". */
  lemma ExtractTextSplits(transcript: seq<TranscriptItem>)
    requires |transcript| > 0
    requires forall k :: 0 <= k < |transcript| ==> !Contains(transcript[k].text, LineSeparator)
    ensures SplitOn(ExtractText(transcript), LineSeparator) == Texts(transcript)
  {
    var texts := Texts(transcript);
    forall k | 0 <= k < |texts|
      ensures !Contains(texts[k] + LineSeparator[..1], LineSeparator)
    {
      var t := texts[k];
      var q := t + LineSeparator[..1];
      assert q[|t|] == ' ';
      forall j | OccursAt(q, LineSeparator, j) ensures OccursAt(t, LineSeparator, j) {
        assert q[j + 1] == q[j..j + 2][1] == '\n';
        assert j + 1 != |t|;
        assert q[j..j + 2] == t[j..j + 2];
      }
    }
    SplitOnJoin(texts, LineSeparator);
  }
}
