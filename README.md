# YouVideo station importer, modelled in Dafny

`script.py` turns a hand-written list of YouTube live channels into radio
station records. It works in three steps, and this project models each one:

1. `parse_yt_links` reads the list. A header line has the form
   `name | category | favicon [| extra id]`, and the line after it holds the
   channel's `https://www.youtube.com/` URL.
2. `get_m3u8_url` asks `yt-dlp` for a stream URL. It falls back to a second
   run when the first prints nothing but whitespace, and it prefers a
   `.m3u8` (HLS) line.
3. `main` resolves every entry. It then appends one 37-field station record
   per resolved entry to the stations loaded from a JSON catalogue, and
   counts the records it added.

Files:

- `wrappers.dfy` (module `Wrappers`): the `Option` type.
- `text.dfy` (module `Text`): the Python `str` methods the script calls.
  These are `strip()`, `split(sep)`, `startswith` and `endswith`.
  - `IsSpace` is the set of characters `strip()` removes.
  - `IndexOf` is a helper that finds where `split` cuts a line.
- `link_list.dfy` (module `LinkList`): the parser.
  - `ParseLinks` is the `while` loop with its cursor.
  - It is proved equal to the specification `Parse`. `Parse` classifies
    every line as a possible header (`Headers`) and as a possible URL line
    (`Urls`), then walks the classified lines (`Walk`).
  - `Origins` records which header line each entry came from.
- `resolver.dfy` (module `Resolver`): `GetM3u8Url`, including the `for`
  loop with its early return. It is proved equal to the function
  `Resolution`.
- `catalog.dfy` (module `Catalog`):
  - `Enrich` is the in-place tagging loop over an array of entries.
  - `Merge` is the append loop.
  - `Run` chains the parser, the resolution loop and the merge.

How the outside world enters the model:

- A `yt-dlp` run is a function from the argument list to `Exited(stdout)` or
  `Failed`. A non-zero exit raises `CalledProcessError`, which the script
  turns into `None`.
- The `k`-th call of `uuid4()` is `uuid(k)`.
- The two timestamp strings are parameters.
- Stations loaded from the input file are opaque (`Loaded(document)`).

## Model

| member | source | states |
|---|---|---|
| Text.Strip | script.py:14 | `strip()` returns a string no longer than its input, with no whitespace left at either end |
| Text.StripSlice | script.py:14 | `strip()` returns a contiguous middle part of the line; everything it cuts from either end is whitespace |
| Text.StripEmptyIffBlank | script.py:14-15 | a stripped line is empty (so `if line:` fails) exactly when every character is whitespace |
| Text.StripKeeps | script.py:16 | every character of a stripped piece was in the piece |
| Text.StrippedFixed | script.py:16 | stripping a stripped string changes nothing, so stripping twice is stripping once |
| Text.Split | script.py:16 | `split` never returns an empty list, no piece contains the separator, and joining the pieces gives back the input |
| Text.SplitJoin | script.py:16 | splitting undoes joining pieces that hold no separator |
| Text.SplitAtFirst | script.py:16 | the first piece ends at the first separator, and the rest of the string splits into the remaining pieces |
| Text.StartsWith | script.py:30 | `startswith` holds exactly when the string is at least as long as the prefix and agrees with it character by character from the start |
| Text.EndsWith | script.py:58 | `endswith` holds exactly when the string is at least as long as the suffix and its last characters agree with the suffix character by character |
| LinkList.KeepStripped | script.py:16 | the comprehension keeps at most one part per piece, and never an empty part |
| LinkList.Fields | script.py:16 | every header part is non-empty and holds no pipe character |
| LinkList.FieldsAreComprehension | script.py:16 | the parts cut off one at a time are exactly what the list comprehension builds: the non-empty stripped pieces of the line split at every pipe character, in order |
| LinkList.FieldsStripped | script.py:16 | every header part is stripped |
| LinkList.ParseHeader | script.py:14-23 | with `parts` the non-empty stripped pieces of the stripped line split at every pipe character (the list comprehension), a line is a header iff `parts` has at least 3 elements; name, category and favicon are `parts[0..2]`, and `extra_id` is `parts[3]` when there are more than 3 parts, else `None` |
| LinkList.HeaderValid | script.py:14-23 | every header field is non-empty, stripped and free of the pipe character |
| LinkList.BlankNotHeader | script.py:14-15 | a blank line is never a header |
| LinkList.UrlOf | script.py:29-30 | a line is accepted as a URL iff its stripped text starts with `https://www.youtube.com/`, and the URL is that stripped text |
| LinkList.Walk | script.py:13-41 | the entries emitted from cursor `i` on: at most one per two lines, none with an `m3u8` key |
| LinkList.Parse | script.py:7-43 | the entries `parse_yt_links` returns: at most one per two lines, none with an `m3u8` key; `ParseLinks` is proved to return exactly these |
| LinkList.SkipLine | script.py:15-19 | a blank line or a line with fewer than 3 parts yields nothing and moves the cursor on by exactly one line |
| LinkList.LastLineHeader | script.py:26-28 | a header on the last line yields no entry |
| LinkList.HeaderThenLine | script.py:26-41 | the line after a header is always consumed; it gives an entry built from the header exactly when it is a YouTube URL, and otherwise (even when it is itself a header) it is skipped without being read as a header |
| LinkList.ParseLinks | script.py:7-43 | the cursor loop terminates and returns exactly `Parse(lines)` |
| LinkList.OriginsCount | script.py:13-41 | each emitted entry has one origin, a header line |
| LinkList.OriginIsPair | script.py:20-37 | each origin is a header line followed by a YouTube URL line |
| LinkList.OriginsSpaced | script.py:26-41 | successive origins are at least two lines apart, so the line used as an entry's URL is never the header of another entry (the loss of the second of two consecutive headers is `HeaderThenLine`) |
| LinkList.WalkFromOrigins | script.py:20-37 | the k-th entry is built from the header at the k-th origin and the line after it |
| LinkList.ParsedFrom | script.py:14-37 | the k-th returned entry takes its name, category, favicon and extra id from a header line `h`, and its `yt_url` is the stripped YouTube URL on line `h + 1` |
| LinkList.ParsedInFileOrder | script.py:13-41 | entries come out in file order |
| LinkList.ParsedWellFormed | script.py:14-37 | every returned entry has valid header fields, a stripped YouTube URL and no `m3u8` key |
| Resolver.Output | script.py:49-54 | the text used is the first run's stripped output; only when that is empty is the fallback run's stripped output used; a failed run gives `None`; the text is stripped |
| Resolver.FirstM3u8 | script.py:57-59 | the index found is that of the first URL ending in `.m3u8`, or the length of the list when there is none |
| Resolver.Selected | script.py:55-63 | the choice is one of the lines, and there is no choice only for an empty list |
| Resolver.Resolution | script.py:45-66 | the result is `None` exactly when the output is `None` (a run failed), and otherwise it is one whole line of that output with no line break in it |
| Resolver.GetM3u8Url | script.py:45-66 | the method returns exactly `Resolution(ytUrl, run)` |
| Resolver.SelectedPrefersM3u8 | script.py:56-59 | when some line ends in `.m3u8`, the first such line is chosen |
| Resolver.SelectedWithoutM3u8 | script.py:61-62 | without a `.m3u8` line, the first line is chosen |
| Resolver.ResolutionNoneIffFailed | script.py:45-66 | the result is `None` exactly when a yt-dlp run that was made failed |
| Resolver.FallbackOnlyWhenEmpty | script.py:51-54 | when the first run prints something, the fallback run does not affect the result |
| Resolver.EmptyOutputGivesEmptyUrl | script.py:51-62 | when both runs print only whitespace, the result is `""` and never `None` |
| Resolver.ResolutionIsALine | script.py:55-62 | a successful result is one whole line of the output; it holds no line break, and it ends in `.m3u8` whenever some line does |
| Catalog.NewStation | script.py:95-133 | `hls` is 1 exactly when `url_resolved` ends in `.m3u8`, and 0 otherwise; every time field holds the single `timestamp` and every ISO field holds `timestamp_iso` |
| Catalog.StationKeepsEntry | script.py:99-104 | reading the entry back from its record gives the entry (name, category as tags, favicon, `url = yt_url`, `url_resolved = m3u8`) without its extra id |
| Catalog.WithStream | script.py:77-79 | resolution sets `m3u8` only to a truthy result; it leaves the entry unchanged otherwise and never touches another field |
| Catalog.AllWithStream | script.py:76-79 | the loop keeps the number of entries; entry `k` differs from the original only in `m3u8`, holds the resolver's result for its `yt_url` when that is truthy, and is unchanged otherwise |
| Catalog.Enrich | script.py:76-79 | after the loop, each entry is its old self tagged with what the resolver returned for its `yt_url` |
| Catalog.Resolved | script.py:94 | the filter keeps only entries with a truthy `m3u8` |
| Catalog.ResolvedIff | script.py:94 | an entry is kept iff it is in the list and its `m3u8` is truthy |
| Catalog.ResolvedAppend | script.py:94 | filtering keeps the entries' order |
| Catalog.Merge | script.py:93-135 | the loaded stations stay an unchanged prefix; the length grows by exactly `added_count`, which equals the number of resolved entries; the k-th new record is built, in order, from the k-th resolved entry with the ids of `uuid4` calls 3k, 3k+1 and 3k+2 |
| Catalog.Run | script.py:73-135 | the written catalogue is the merge of the loaded stations with the parsed entries after resolution |
| Catalog.AddedFromParsed | script.py:73-94 | every added station comes from a parsed entry whose resolution is truthy, and carries that resolution |

## Left out

- Reading the link file and reading and writing the JSON files are left out, because they are I/O (script.py:9-10, 84-85, 138-139). The parser takes the lines `readlines()` returns, and loaded stations are opaque values.
- The yt-dlp process is left out because it is external. So are the decoding of its output and the `FileNotFoundError` branch that ends the process with `sys.exit(1)`. A run is a function of its argument list, so two calls with the same URL get the same result.
- `uuid4()` and `datetime.utcnow()` with `strftime` are left out because they are nondeterministic. They become the `uuid` and timestamp parameters.
- Every print to stdout or stderr, and the command-line argument handling, are left out because they are diagnostics only.
- Catalog.Enrich: it calls the resolver through the parameter `resolve` instead of calling `GetM3u8Url` itself. `Run` passes `Resolution`, which `GetM3u8Url` is proved to compute.
- Parsing HLS playlists is left out because the script only checks the `.m3u8` suffix.
