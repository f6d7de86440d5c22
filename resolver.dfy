/**
  The stream resolution of `get_m3u8_url` (script.py:45-69). yt-dlp is
  outside the model: a run is a function from the argument list to what the
  process did, either exit status 0 with the text it printed or a non-zero
  exit, which `check_output` turns into `CalledProcessError`.
 */
module Resolver {
  import opened Wrappers
  import opened Text

  /** What one yt-dlp process did. */
  datatype ToolRun = Exited(stdout: string) | Failed

  /** The suffix that marks an HLS manifest URL. */
  const M3u8Suffix: string := ".m3u8"

  /** The first run asks for the best HLS format. */
  function HlsCommand(ytUrl: string): seq<string>
  {
    ["yt-dlp", "--no-warnings", "-g", "--no-playlist", "--format", "best[protocol^=hls]", ytUrl]
  }

  /** The fallback run asks for the best format of any kind. */
  function AnyCommand(ytUrl: string): seq<string>
  {
    ["yt-dlp", "--no-warnings", "-g", "--no-playlist", ytUrl]
  }

  /** The stripped text yt-dlp printed for `ytUrl`, or `None` when a run
      failed. The fallback run is made only when the first printed nothing
      but whitespace. */
  function Output(ytUrl: string, run: seq<string> -> ToolRun): (r: Option<string>)
    ensures r.Some? ==> Stripped(r.value)
  {
    match run(HlsCommand(ytUrl))
    case Failed => None
    case Exited(first) =>
      if Strip(first) != "" then Some(Strip(first))
      else
        match run(AnyCommand(ytUrl))
        case Failed => None
        case Exited(second) =>
          Some(Strip(second))
  }

  /** The index of the first URL at or after `from` that ends in `.m3u8`,
      or `|urls|` when there is none. */
  function FirstM3u8(urls: seq<string>, from: nat := 0): (i: nat)
    requires from <= |urls|
    ensures from <= i <= |urls|
    ensures forall j :: from <= j < i ==> !EndsWith(urls[j], M3u8Suffix)
    ensures i < |urls| ==> EndsWith(urls[i], M3u8Suffix)
    decreases |urls| - from
  {
    if from == |urls| || EndsWith(urls[from], M3u8Suffix) then from else FirstM3u8(urls, from + 1)
  }

  /** The URL the selection loop settles on: the first that ends in
      `.m3u8`, otherwise the first of all, and `None` only for an empty list. */
  function Selected(urls: seq<string>): (r: Option<string>)
    ensures r.None? <==> urls == []
    ensures r.Some? ==> r.value in urls
  {
    var i := FirstM3u8(urls);
    if i < |urls| then Some(urls[i])
    else if urls != [] then Some(urls[0])
    else None
  }

  /** What `get_m3u8_url(ytUrl)` returns: `None` exactly when a yt-dlp run
      failed, otherwise one whole line of the output used. */
  function Resolution(ytUrl: string, run: seq<string> -> ToolRun): (r: Option<string>)
    ensures r.None? <==> Output(ytUrl, run).None?
    ensures r.Some? ==> r.value in Split(Output(ytUrl, run).value, '\n') && '\n' !in r.value
  {
    match Output(ytUrl, run)
    case None => None
    case Some(output) => Selected(Split(output, '\n'))
  }

  /** `get_m3u8_url`: run yt-dlp, fall back when it prints nothing, and pick
      a line of its output. Python's `if urls:` always holds because a split
      never yields an empty list, so its final `return None` is not reached
      and has no counterpart here. */
  method GetM3u8Url(ytUrl: string, run: seq<string> -> ToolRun) returns (r: Option<string>)
    ensures r == Resolution(ytUrl, run)
  {
    var res := run(HlsCommand(ytUrl));
    if res.Failed? {
      return None;
    }
    var output := Strip(res.stdout);
    if output == "" {
      res := run(AnyCommand(ytUrl));
      if res.Failed? {
        return None;
      }
      output := Strip(res.stdout);
    }
    var urls := Split(output, '\n');
    for k := 0 to |urls|
      invariant forall j :: 0 <= j < k ==> !EndsWith(urls[j], M3u8Suffix)
    {
      if EndsWith(urls[k], M3u8Suffix) {
        return Some(urls[k]);
      }
    }
    return Some(urls[0]);
  }

  /** The selection prefers `.m3u8` URLs: when one exists, the first of them
      is chosen. */
  lemma SelectedPrefersM3u8(urls: seq<string>, j: nat)
    requires j < |urls| && EndsWith(urls[j], M3u8Suffix)
    ensures var i := FirstM3u8(urls);
      i <= j && Selected(urls) == Some(urls[i]) && EndsWith(urls[i], M3u8Suffix)
  {
  }

  /** Without any `.m3u8` URL the selection falls back to the first URL. */
  lemma SelectedWithoutM3u8(urls: seq<string>)
    requires urls != [] && forall j :: 0 <= j < |urls| ==> !EndsWith(urls[j], M3u8Suffix)
    ensures Selected(urls) == Some(urls[0])
  {
  }

  /** A failed run is the only way to get `None`. */
  lemma ResolutionNoneIffFailed(ytUrl: string, run: seq<string> -> ToolRun)
    ensures Resolution(ytUrl, run).None? <==>
      (run(HlsCommand(ytUrl)).Failed?
       || (Strip(run(HlsCommand(ytUrl)).stdout) == "" && run(AnyCommand(ytUrl)).Failed?))
  {
  }

  /** When the first run prints something, the fallback run is never
      consulted: any other yt-dlp that agrees on the first run gives the same
      result. */
  lemma FallbackOnlyWhenEmpty(ytUrl: string, run: seq<string> -> ToolRun, other: seq<string> -> ToolRun)
    requires run(HlsCommand(ytUrl)) == other(HlsCommand(ytUrl))
    requires run(HlsCommand(ytUrl)).Exited? && Strip(run(HlsCommand(ytUrl)).stdout) != ""
    ensures Resolution(ytUrl, run) == Resolution(ytUrl, other)
  {
  }

  /** When both runs print nothing but whitespace the result is the empty
      string, which the caller treats as a failure, and never `None`. */
  lemma EmptyOutputGivesEmptyUrl(ytUrl: string, run: seq<string> -> ToolRun)
    requires run(HlsCommand(ytUrl)).Exited? && Strip(run(HlsCommand(ytUrl)).stdout) == ""
    requires run(AnyCommand(ytUrl)).Exited? && Strip(run(AnyCommand(ytUrl)).stdout) == ""
    ensures Resolution(ytUrl, run) == Some("")
  {
    assert Output(ytUrl, run) == Some("");
    assert Split("", '\n') == [""];
  }

  /** A resolved URL is one whole line of yt-dlp's stripped output: it holds
      no line break, and it ends in `.m3u8` whenever any line does. */
  lemma ResolutionIsALine(ytUrl: string, run: seq<string> -> ToolRun)
    requires Output(ytUrl, run).Some?
    ensures var urls := Split(Output(ytUrl, run).value, '\n');
      Resolution(ytUrl, run).Some? && Resolution(ytUrl, run).value in urls
      && '\n' !in Resolution(ytUrl, run).value
      && ((exists j :: 0 <= j < |urls| && EndsWith(urls[j], M3u8Suffix))
          ==> EndsWith(Resolution(ytUrl, run).value, M3u8Suffix))
  {
    var urls := Split(Output(ytUrl, run).value, '\n');
    var u := Selected(urls).value;
    var k :| 0 <= k < |urls| && urls[k] == u;
    if exists j :: 0 <= j < |urls| && EndsWith(urls[j], M3u8Suffix) {
      var j :| 0 <= j < |urls| && EndsWith(urls[j], M3u8Suffix);
      SelectedPrefersM3u8(urls, j);
    }
  }
}
