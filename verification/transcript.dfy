/** The text handling of the transcript grabber: joining transcript chunks, mapping
    playlist entries, assembling the combined playlist text and the single-video path.
    The transcript service, the playlist extractor, files and clipboard are not modelled;
    what they return comes in as parameters. */
module Transcript {
  import opened Wrappers
  import opened Text
  import Seqs
  import VideoId

  /** The text of every chunk stripped, joined by single spaces, in order. */
  function JoinChunks(chunks: seq<string>): (r: string)
    ensures chunks == [] ==> r == []
    ensures |chunks| == 1 ==> r == Strip(chunks[0])
    ensures Words(r) == WordsOfAll(chunks)
  {
    var stripped := Seqs.Map(Strip, chunks);
    LemmaWordsOfJoin(stripped);
    LemmaWordsOfAllStripped(chunks);
    Join(" ", stripped)
  }

  lemma {:induction false} LemmaWordsOfAllStripped(chunks: seq<string>)
    ensures WordsOfAll(Seqs.Map(Strip, chunks)) == WordsOfAll(chunks)
    decreases |chunks|
  {
    if chunks != [] {
      LemmaWordsOfStrip(chunks[0]);
      assert Seqs.Map(Strip, chunks)[1..] == Seqs.Map(Strip, chunks[1..]);
      LemmaWordsOfAllStripped(chunks[1..]);
    }
  }

  /** Chunks keep their order: the text of two runs of chunks is the text of the
      first, a space, and the text of the second. */
  lemma LemmaJoinChunksAppend(a: seq<string>, b: seq<string>)
    requires a != [] && b != []
    ensures JoinChunks(a + b) == JoinChunks(a) + " " + JoinChunks(b)
  {
    Seqs.LemmaMapAppend(Strip, a, b);
    LemmaJoinAppend(" ", Seqs.Map(Strip, a), Seqs.Map(Strip, b));
  }

  /** `fetch_transcript_text`: `api` returns the chunk texts of the English transcript,
      or `None` where the service reports it disabled or missing. */
  function FetchTranscriptText(api: string -> Option<seq<string>>, videoId: string): (r: string)
    ensures api(videoId).None? ==> r == []
    ensures api(videoId).Some? ==> Words(r) == WordsOfAll(api(videoId).value)
    ensures api(videoId).Some? && |api(videoId).value| == 1 ==> r == Strip(api(videoId).value[0])
    ensures api(videoId).Some? ==> r == JoinChunks(api(videoId).value)
  {
    match api(videoId)
    case None => ""
    case Some(chunks) => JoinChunks(chunks)
  }

  /** One flattened playlist entry as the extractor returns it; a missing key reads as `None`. */
  type Entry = map<string, string>

  /** One item of `get_playlist_items`. */
  datatype Video = Video(id: Option<string>, title: Option<string>, url: string)

  /** The short-link form of a video. */
  const ShortLinkPrefix := "https://youtu.be/"

  /** `f"{x}"` of an optional string: `None` renders as `"None"`. */
  function Render(x: Option<string>): string {
    match x
    case None => "None"
    case Some(s) => s
  }

  /** `if entry:` — `None` and the empty dict are falsy. */
  predicate IsUsable(e: Option<Entry>) {
    e.Some? && |e.value| > 0
  }

  /** The item built from one usable entry. */
  function ToVideo(e: Option<Entry>): Video {
    var m := e.GetOr(map[]);
    Video(Get(m, "id"), Get(m, "title"), ShortLinkPrefix + Render(Get(m, "id")))
  }

  /** `get_playlist_items` after the extractor call: `info.get("entries", [])` is `entries`
      (`None` when the key is absent). Placeholders are skipped; every other entry keeps
      its position relative to the others and links to `https://youtu.be/<id>`. */
  function PlaylistItems(entries: Option<seq<Option<Entry>>>): (r: seq<Video>)
    ensures r == Seqs.Map(ToVideo, Seqs.Filter(IsUsable, entries.GetOr([])))
    ensures forall i :: 0 <= i < |r| ==> r[i].url == ShortLinkPrefix + Render(r[i].id)
  {
    CollectItems(entries.GetOr([]))
  }

  /** The `for entry in ...` loop of `get_playlist_items`. */
  function CollectItems(es: seq<Option<Entry>>): (r: seq<Video>)
    ensures r == Seqs.Map(ToVideo, Seqs.Filter(IsUsable, es))
  {
    if es == [] then []
    else
      var rest := CollectItems(es[1..]);
      var tail := Seqs.Filter(IsUsable, es[1..]);
      if IsUsable(es[0]) then
        assert Seqs.Filter(IsUsable, es) == [es[0]] + tail;
        Seqs.LemmaMapAppend(ToVideo, [es[0]], tail);
        assert Seqs.Map(ToVideo, [es[0]]) == [ToVideo(es[0])];
        [ToVideo(es[0])] + rest
      else
        assert Seqs.Filter(IsUsable, es) == tail;
        rest
  }

  /** Forty dashes, the rule around each title. */
  const Rule: string := "----------------------------------------"


  /** One video's block in the combined text. */
  function Block(title: string, text: string): string {
    "\n" + Rule + "\n" + title + "\n" + Rule + "\n" + text + "\n"
  }

  /** The blocks of the videos, in playlist order; `fetch` gives each video's transcript text. */
  function Blocks(videos: seq<Video>, fetch: Option<string> -> string): (bs: seq<string>)
    ensures |bs| == |videos|
    ensures forall i :: 0 <= i < |videos| ==> bs[i] == Block(Render(videos[i].title), fetch(videos[i].id))
  {
    seq(|videos|, i requires 0 <= i < |videos| => Block(Render(videos[i].title), fetch(videos[i].id)))
  }

  /** Why a grab stops before writing anything. */
  datatype GrabError = NoVideoId | NoPlaylistMetadata

  /** The text `grab_playlist` writes and copies: an error for an empty playlist,
      otherwise the blocks joined by newlines. */
  function PlaylistText(videos: seq<Video>, fetch: Option<string> -> string): (r: Result<string, GrabError>)
    ensures r.Failure? <==> videos == []
    ensures r.Failure? ==> r.error == NoPlaylistMetadata
    ensures |videos| == 1 ==> r == Success(Block(Render(videos[0].title), fetch(videos[0].id)))
  {
    if videos == [] then Failure(NoPlaylistMetadata)
    else Success(Join("\n", Blocks(videos, fetch)))
  }

  /** Blocks stay in playlist order: the text of a playlist split in two is the text of
      the first part, a newline, and the text of the second. */
  lemma LemmaPlaylistTextAppend(a: seq<Video>, b: seq<Video>, fetch: Option<string> -> string)
    requires a != [] && b != []
    ensures PlaylistText(a + b, fetch).value ==
      PlaylistText(a, fetch).value + "\n" + PlaylistText(b, fetch).value
  {
    assert Blocks(a + b, fetch) == Blocks(a, fetch) + Blocks(b, fetch);
    LemmaJoinAppend("\n", Blocks(a, fetch), Blocks(b, fetch));
  }

  /** The combined text starts with the first video's rule-framed title. */
  lemma LemmaPlaylistTextHead(videos: seq<Video>, fetch: Option<string> -> string)
    requires videos != []
    ensures StartsWith(PlaylistText(videos, fetch).value, "\n" + Rule + "\n" + Render(videos[0].title) + "\n" + Rule + "\n")
  {
    var head := "\n" + Rule + "\n" + Render(videos[0].title) + "\n" + Rule + "\n";
    var b0 := Block(Render(videos[0].title), fetch(videos[0].id));
    assert b0 == head + (fetch(videos[0].id) + "\n");
    if |videos| > 1 {
      LemmaPlaylistTextAppend([videos[0]], videos[1..], fetch);
      assert [videos[0]] + videos[1..] == videos;
    }
    var t := PlaylistText(videos, fetch).value;
    assert t[..|head|] == head;
  }

  /** `grab_single` up to the writes: no parsable id raises before anything is fetched;
      otherwise the text is the transcript of the parsed id. */
  function GrabSingle(url: string, fetch: string -> string): (r: Result<string, GrabError>)
    ensures r.Failure? <==> forall id :: !VideoId.RegexMatches(url, id)
    ensures r.Failure? ==> r.error == NoVideoId
    ensures forall id :: VideoId.RegexMatches(url, id) ==> r == Success(fetch(id))
  {
    match VideoId.VideoIdFromUrl(url)
    case None => Failure(NoVideoId)
    case Some(id) => Success(fetch(id))
  }
}
