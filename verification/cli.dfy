/** The interactive loop of the transcript grabber: each input line is stripped and
    either ends the session, starts a playlist grab or starts a single-video grab.
    Errors raised by a grab are reported and the loop carries on, so a command's
    outcome never changes which later lines are read. */
module Cli {
  import opened Text
  import opened Wrappers
  import VideoId
  import Seqs

  datatype Command = Quit | Playlist(url: string) | Single(url: string)

  /** The marker that sends a URL down the playlist path. */
  const PlaylistMarker := "list"

  /** One line of input, as the loop reads it. */
  function Dispatch(line: string): (c: Command)
    ensures c == Quit <==> Strip(line) == "q" || Strip(line) == "Q"
    ensures c.Playlist? <==> c != Quit && OccursIn(PlaylistMarker, Strip(line))
    ensures c != Quit ==> c.url == Strip(line)
  {
    var url := Strip(line);
    LemmaLowerIsQ(url);
    if Lower(url) == "q" then Quit
    else if HasSubstring(url, PlaylistMarker) then Playlist(url)
    else Single(url)
  }

  /** `url.lower() == "q"` holds exactly for the two one-letter spellings. */
  lemma LemmaLowerIsQ(s: string)
    ensures Lower(s) == "q" <==> s == "q" || s == "Q"
  {
    if Lower(s) == "q" {
      assert |s| == 1 && LowerChar(s[0]) == 'q';
    }
  }

  /** The longest prefix of `cmds` without a quit. */
  function UntilQuit(cmds: seq<Command>): (cs: seq<Command>)
    ensures |cs| <= |cmds|
    ensures forall i :: 0 <= i < |cs| ==> cs[i] == cmds[i] && cs[i] != Quit
    ensures |cs| < |cmds| ==> cmds[|cs|] == Quit
  {
    if cmds == [] || cmds[0] == Quit then []
    else [cmds[0]] + UntilQuit(cmds[1..])
  }

  /** Commands after the first quit are never reached. */
  lemma {:induction false} LemmaUntilQuitIgnoresRest(cmds: seq<Command>, more: seq<Command>)
    requires |UntilQuit(cmds)| < |cmds|
    ensures UntilQuit(cmds + more) == UntilQuit(cmds)
    decreases |cmds|
  {
    assert (cmds + more)[0] == cmds[0];
    if cmds[0] != Quit {
      assert (cmds + more)[1..] == cmds[1..] + more;
      LemmaUntilQuitIgnoresRest(cmds[1..], more);
    }
  }

  /** A run of commands without a quit is carried out whole, then the rest follows. */
  lemma {:induction false} LemmaUntilQuitAppend(cmds: seq<Command>, more: seq<Command>)
    requires |UntilQuit(cmds)| == |cmds|
    ensures UntilQuit(cmds + more) == cmds + UntilQuit(more)
    decreases |cmds|
  {
    if cmds != [] {
      assert cmds[0] != Quit;
      assert (cmds + more)[0] == cmds[0];
      assert (cmds + more)[1..] == cmds[1..] + more;
      assert UntilQuit(cmds) == [cmds[0]] + UntilQuit(cmds[1..]);
      LemmaUntilQuitAppend(cmds[1..], more);
      assert UntilQuit(cmds + more) == [cmds[0]] + UntilQuit(cmds[1..] + more);
      assert cmds == [cmds[0]] + cmds[1..];
    } else {
      assert cmds + more == more;
    }
  }

  /** The grabs a sequence of input lines asks for: one per line, in order, up to the
      first line that quits. */
  function Session(lines: seq<string>): (cs: seq<Command>)
    ensures |cs| <= |lines|
    ensures forall i :: 0 <= i < |cs| ==> cs[i] == Dispatch(lines[i]) && cs[i] != Quit
    ensures |cs| < |lines| ==> Dispatch(lines[|cs|]) == Quit
  {
    UntilQuit(Seqs.Map(Dispatch, lines))
  }

  /** Nothing typed after the quitting line has any effect. */
  lemma LemmaSessionIgnoresAfterQuit(lines: seq<string>, more: seq<string>)
    requires |Session(lines)| < |lines|
    ensures Session(lines + more) == Session(lines)
  {
    Seqs.LemmaMapAppend(Dispatch, lines, more);
    LemmaUntilQuitIgnoresRest(Seqs.Map(Dispatch, lines), Seqs.Map(Dispatch, more));
  }

  /** Sessions compose: lines without a quit each contribute their grab, then the
      rest of the input is read as a session of its own. */
  lemma LemmaSessionAppend(lines: seq<string>, more: seq<string>)
    requires |Session(lines)| == |lines|
    ensures Session(lines + more) == Session(lines) + Session(more)
  {
    var cmds := Seqs.Map(Dispatch, lines);
    Seqs.LemmaMapAppend(Dispatch, lines, more);
    assert UntilQuit(cmds) == cmds;
    LemmaUntilQuitAppend(cmds, Seqs.Map(Dispatch, more));
  }

  /** Every line that names a single video, and whose text contains `list` anywhere,
      is grabbed as a playlist: the test does not look at the video id. */
  lemma LemmaListedVideoGoesToPlaylist(line: string)
    requires VideoId.VideoIdFromUrl(Strip(line)).Some?
    requires OccursIn(PlaylistMarker, Strip(line))
    ensures Dispatch(line) == Playlist(Strip(line))
  {
  }

  /** `listABCDEFG`: a well-formed video id that starts with the playlist marker. */
  const ListId := PlaylistMarker + "ABCDEFG"

  /** `https://youtu.be/listABCDEFG`: a short link to the video `ListId`. */
  const ListInId := VideoId.Schemes[0] + VideoId.Hosts[0] + ListId

  /** The playlist test looks at the whole URL, not at its query: a short link whose
      eleven-character id happens to contain `list` names one video ... */
  lemma LemmaListInIdIsAVideoId()
    ensures VideoId.VideoIdFromUrl(ListInId) == Some(ListId)
  {
    assert VideoId.IsVideoId(ListId);
    VideoId.LemmaJoinPrefix(ListInId, VideoId.Schemes[0], VideoId.Wwws[1], VideoId.Hosts[0], ListId, "");
    assert VideoId.MatchesVia(ListInId, 0, 1, 0, ListId);
  }

  /** ... yet it is sent down the playlist path. */
  lemma LemmaListInIdGoesToPlaylist()
    ensures Dispatch(ListInId) == Playlist(ListInId)
  {
    var a, b := VideoId.Schemes[0] + VideoId.Hosts[0], "ABCDEFG";
    assert ListInId == a + PlaylistMarker + b;
    LemmaOccursBetween(a, PlaylistMarker, b);
    assert OccursIn(PlaylistMarker, ListInId);
    assert ListInId[0] == 'h';
    assert ListInId[|ListInId| - 1] == 'G';
    LemmaStripFixedPoint(ListInId);
    LemmaListInIdIsAVideoId();
    LemmaListedVideoGoesToPlaylist(ListInId);
  }
}
