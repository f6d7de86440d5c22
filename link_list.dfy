/**
  The link-list parser `parse_yt_links` (script.py:7-43). The file is a list
  of lines; a header line `name | category | favicon [| extra id]` is
  followed by the line holding the station's video page URL. Reading the file
  is left out: the parser takes the lines `readlines()` would return.

  The parser looks at a line in two ways only: as a possible header (its
  non-empty `|`-fields) and as a possible URL line (its stripped text). The
  specification below first classifies every line that way (`Headers`,
  `Urls`) and then walks the classified lines with a cursor
  (`Walk`), as the `while` loop does.
 */
module LinkList {
  import opened Wrappers
  import opened Text

  /** The only source URLs accepted after a header. */
  const YouTubePrefix: string := "https://www.youtube.com/"

  /** One parsed station. `m3u8` is the key that resolution adds later;
      `None` models the key being absent from the Python dict. */
  datatype Entry = Entry(
    name: string,
    category: string,
    favicon: string,
    extraId: Option<string>,
    ytUrl: string,
    m3u8: Option<string>)

  /** The fields of a header line. */
  datatype Header = Header(name: string, category: string, favicon: string, extraId: Option<string>)

  /** The list comprehension `[p.strip() for p in pieces if p.strip()]`. */
  function KeepStripped(pieces: seq<string>): (r: seq<string>)
    ensures |r| <= |pieces|
    ensures forall k :: 0 <= k < |r| ==> r[k] != ""
  {
    if pieces == [] then []
    else
      var p := Strip(pieces[0]);
      (if p != "" then [p] else []) + KeepStripped(pieces[1..])
  }

  /** The non-empty, stripped `|`-separated fields of `line[start..]`, cut
      off one field at a time; `FieldsAreComprehension` shows this is the list
      the comprehension over `line.split('|')` builds. */
  function Fields(line: string, start: nat := 0): (r: seq<string>)
    requires start <= |line|
    ensures forall k :: 0 <= k < |r| ==> r[k] != "" && '|' !in r[k]
    decreases |line| - start
  {
    var i := IndexOf(line, '|', start);
    var p := Strip(line[start..i]);
    assert '|' !in p by {
      if '|' in p {
        StripKeeps(line[start..i], '|');
        IndexOfFirst(line, '|', start);
      }
    }
    (if p != "" then [p] else []) + (if i == |line| then [] else Fields(line, i + 1))
  }

  /** `Fields(line)` is `[p.strip() for p in line.split('|') if p.strip()]`. */
  lemma {:induction false} FieldsAreComprehension(line: string, start: nat := 0)
    requires start <= |line|
    ensures Fields(line, start) == KeepStripped(Split(line[start..], '|'))
    decreases |line| - start
  {
    var i := IndexOf(line, '|', start);
    SplitAtFirst(line, '|', start);
    var pieces := Split(line[start..], '|');
    assert pieces[1..] == (if i == |line| then [] else Split(line[i + 1..], '|'));
    if i < |line| {
      FieldsAreComprehension(line, i + 1);
    }
  }

  /** What the parser takes from `line` when it expects a header: `None`
      when the stripped line has fewer than three non-empty fields, otherwise
      the first three fields and, when there is one, the fourth. */
  function ParseHeader(line: string): (h: Option<Header>)
    ensures var f := KeepStripped(Split(Strip(line), '|'));
      && (h.Some? <==> |f| >= 3)
      && (h.Some? ==>
            h.value.name == f[0] && h.value.category == f[1] && h.value.favicon == f[2]
            && h.value.extraId == (if |f| > 3 then Some(f[3]) else None))
  {
    FieldsAreComprehension(Strip(line));
    assert Strip(line)[0..] == Strip(line);
    var parts := Fields(Strip(line));
    if |parts| < 3 then None
    else Some(Header(parts[0], parts[1], parts[2], if |parts| > 3 then Some(parts[3]) else None))
  }

  /** Every field is stripped. */
  lemma {:induction false} FieldsStripped(line: string, start: nat := 0)
    requires start <= |line|
    ensures forall k :: 0 <= k < |Fields(line, start)| ==> Stripped(Fields(line, start)[k])
    decreases |line| - start
  {
    var i := IndexOf(line, '|', start);
    if i < |line| {
      FieldsStripped(line, i + 1);
    }
  }

  /** A header's fields are non-empty, stripped and free of `|`. */
  lemma HeaderValid(line: string)
    requires ParseHeader(line).Some?
    ensures ValidHeader(ParseHeader(line).value)
  {
    FieldsStripped(Strip(line));
  }

  /** Every header field is a non-empty, stripped text without `|`. */
  predicate ValidHeader(h: Header)
  {
    h.name != "" && h.category != "" && h.favicon != ""
    && Stripped(h.name) && Stripped(h.category) && Stripped(h.favicon)
    && '|' !in h.name && '|' !in h.category && '|' !in h.favicon
    && (h.extraId.Some? ==> h.extraId.value != "" && Stripped(h.extraId.value) && '|' !in h.extraId.value)
  }

  /** A blank line is never a header: the `if line:` test and the
      three-field test skip it alike. */
  lemma BlankNotHeader(line: string)
    requires Strip(line) == ""
    ensures ParseHeader(line) == None
  {
  }

  /** `f` applied to every line, in order. */
  ghost function MapLines<T>(lines: seq<string>, f: string -> T): (r: seq<T>)
    ensures |r| == |lines|
  {
    if lines == [] then [] else [f(lines[0])] + MapLines(lines[1..], f)
  }

  lemma {:induction false} MapLinesAt<T>(lines: seq<string>, f: string -> T, k: nat)
    requires k < |lines|
    ensures MapLines(lines, f)[k] == f(lines[k])
  {
    if k > 0 {
      MapLinesAt(lines[1..], f, k - 1);
    }
  }

  /** Every line read as a possible header. */
  ghost function Headers(lines: seq<string>): (hs: seq<Option<Header>>)
    ensures |hs| == |lines|
  {
    MapLines(lines, ParseHeader)
  }

  /** What the parser takes from `line` when it expects a URL: the stripped
      line when it starts with the YouTube prefix, otherwise nothing. */
  function UrlOf(line: string): (u: Option<string>)
    ensures u.Some? <==> StartsWith(Strip(line), YouTubePrefix)
    ensures u.Some? ==> u.value == Strip(line)
  {
    var url := Strip(line);
    if StartsWith(url, YouTubePrefix) then Some(url) else None
  }

  /** Every line read as a possible URL line. */
  ghost function Urls(lines: seq<string>): (us: seq<Option<string>>)
    ensures |us| == |lines|
  {
    MapLines(lines, UrlOf)
  }

  function EntryOf(h: Header, url: string): Entry
  {
    Entry(h.name, h.category, h.favicon, h.extraId, url, None)
  }

  /** What every emitted entry looks like. */
  predicate WellFormed(e: Entry)
  {
    ValidHeader(Header(e.name, e.category, e.favicon, e.extraId))
    && StartsWith(e.ytUrl, YouTubePrefix) && Stripped(e.ytUrl) && e.m3u8 == None
  }

  /** The entries emitted from cursor position `i` on, given each line's
      header reading `heads[k]` and URL reading `urls[k]`. */
  ghost function Walk(heads: seq<Option<Header>>, urls: seq<Option<string>>, i: nat): (r: seq<Entry>)
    requires |heads| == |urls|
    ensures 2 * |r| <= |heads| - i || (i >= |heads| && r == [])
    ensures forall k :: 0 <= k < |r| ==> r[k].m3u8 == None
    decreases |heads| - i
  {
    if i >= |heads| then []
    else if heads[i].None? then Walk(heads, urls, i + 1)
    else if i + 1 >= |heads| then []
    else if urls[i + 1].Some? then [EntryOf(heads[i].value, urls[i + 1].value)] + Walk(heads, urls, i + 2)
    else Walk(heads, urls, i + 2)
  }

  /** The entries `parse_yt_links` returns for `lines`. */
  ghost function Parse(lines: seq<string>): (r: seq<Entry>)
    ensures 2 * |r| <= |lines|
    ensures forall k :: 0 <= k < |r| ==> r[k].m3u8 == None
  {
    Walk(Headers(lines), Urls(lines), 0)
  }

  /** A line that is not a header moves the cursor on by one. */
  lemma WalkSkip(heads: seq<Option<Header>>, urls: seq<Option<string>>, i: nat)
    requires |heads| == |urls| && i < |heads| && heads[i].None?
    ensures Walk(heads, urls, i) == Walk(heads, urls, i + 1)
  {
  }

  /** A header on the last line ends the walk with nothing more. */
  lemma WalkLastHeader(heads: seq<Option<Header>>, urls: seq<Option<string>>, i: nat)
    requires |heads| == |urls| && i + 1 == |heads| && heads[i].Some?
    ensures Walk(heads, urls, i) == []
  {
  }

  /** A header followed by a line: the header and that line are consumed
      together, and an entry is emitted exactly when the line is a YouTube
      URL. */
  lemma WalkPair(heads: seq<Option<Header>>, urls: seq<Option<string>>, i: nat)
    requires |heads| == |urls| && i + 1 < |heads| && heads[i].Some?
    ensures Walk(heads, urls, i) ==
      (if urls[i + 1].Some? then [EntryOf(heads[i].value, urls[i + 1].value)] else [])
      + Walk(heads, urls, i + 2)
  {
  }

  lemma ConcatAssoc<T>(a: seq<T>, b: seq<T>, c: seq<T>)
    ensures (a + b) + c == a + (b + c)
  {
  }

  /** A line that is not a header moves the parser's cursor on by one. */
  lemma SkipLine(lines: seq<string>, i: nat)
    requires i < |lines| && ParseHeader(lines[i]).None?
    ensures Walk(Headers(lines), Urls(lines), i) == Walk(Headers(lines), Urls(lines), i + 1)
  {
    MapLinesAt(lines, ParseHeader, i);
    WalkSkip(Headers(lines), Urls(lines), i);
  }

  /** A header on the last line yields nothing. */
  lemma LastLineHeader(lines: seq<string>, i: nat)
    requires i + 1 == |lines| && ParseHeader(lines[i]).Some?
    ensures Walk(Headers(lines), Urls(lines), i) == []
  {
    MapLinesAt(lines, ParseHeader, i);
    WalkLastHeader(Headers(lines), Urls(lines), i);
  }

  /** A header and the line after it are consumed together; an entry is
      emitted exactly when that line is a YouTube URL. */
  lemma HeaderThenLine(lines: seq<string>, i: nat)
    requires i + 1 < |lines| && ParseHeader(lines[i]).Some?
    ensures UrlOf(lines[i + 1]).Some? ==>
      Walk(Headers(lines), Urls(lines), i)
      == [EntryOf(ParseHeader(lines[i]).value, UrlOf(lines[i + 1]).value)] + Walk(Headers(lines), Urls(lines), i + 2)
    ensures UrlOf(lines[i + 1]).None? ==>
      Walk(Headers(lines), Urls(lines), i) == Walk(Headers(lines), Urls(lines), i + 2)
  {
    MapLinesAt(lines, ParseHeader, i);
    MapLinesAt(lines, UrlOf, i + 1);
    WalkPair(Headers(lines), Urls(lines), i);
  }

  /** `parse_yt_links`: a cursor walks the lines once, left to right. */
  method ParseLinks(lines: seq<string>) returns (entries: seq<Entry>)
    ensures entries == Parse(lines)
  {
    entries := [];
    var i := 0;
    while i < |lines|
      invariant 0 <= i <= |lines|
      invariant entries + Walk(Headers(lines), Urls(lines), i) == Parse(lines)
      decreases |lines| - i
    {
      var line := Strip(lines[i]);
      if line == "" {
        BlankNotHeader(lines[i]);
        SkipLine(lines, i);
      } else {
        var parts := KeepStripped(Split(line, '|'));
        if |parts| < 3 {
          SkipLine(lines, i);
          i := i + 1;
          continue;
        }
        var name := parts[0];
        var category := parts[1];
        var favicon := parts[2];
        var extraId := if |parts| > 3 then Some(parts[3]) else None;
        ghost var h := i;
        assert ParseHeader(lines[h]) == Some(Header(name, category, favicon, extraId));
        i := i + 1;
        if i >= |lines| {
          LastLineHeader(lines, h);
          break;
        }
        var urlLine := Strip(lines[i]);
        HeaderThenLine(lines, h);
        if StartsWith(urlLine, YouTubePrefix) {
          ghost var before := entries;
          entries := entries + [Entry(name, category, favicon, extraId, urlLine, None)];
          ConcatAssoc(before, [Entry(name, category, favicon, extraId, urlLine, None)], Walk(Headers(lines), Urls(lines), i + 1));
        }
      }
      i := i + 1;
    }
  }

  /** The line index of the header each entry of `Walk(heads, urls, i)` was
      built from, in the order the entries are emitted. */
  ghost function Origins(heads: seq<Option<Header>>, urls: seq<Option<string>>, i: nat): seq<nat>
    requires |heads| == |urls|
    decreases |heads| - i
  {
    if i >= |heads| then []
    else if heads[i].None? then Origins(heads, urls, i + 1)
    else if i + 1 >= |heads| then []
    else if urls[i + 1].Some? then [i] + Origins(heads, urls, i + 2)
    else Origins(heads, urls, i + 2)
  }

  /** The walk emits exactly one entry per origin. */
  lemma {:induction false} OriginsCount(heads: seq<Option<Header>>, urls: seq<Option<string>>, i: nat)
    requires |heads| == |urls|
    ensures |Origins(heads, urls, i)| == |Walk(heads, urls, i)|
    decreases |heads| - i
  {
    if i < |heads| {
      if heads[i].None? {
        OriginsCount(heads, urls, i + 1);
      } else if i + 1 < |heads| {
        OriginsCount(heads, urls, i + 2);
      }
    }
  }

  /** The `k`-th origin is a header line at or after the cursor, followed by
      a YouTube URL line. */
  lemma {:induction false} OriginIsPair(heads: seq<Option<Header>>, urls: seq<Option<string>>, i: nat, k: nat)
    requires |heads| == |urls| && k < |Origins(heads, urls, i)|
    ensures var o := Origins(heads, urls, i)[k];
      i <= o && o + 1 < |heads| && heads[o].Some? && urls[o + 1].Some?
    decreases |heads| - i
  {
    if heads[i].None? {
      OriginIsPair(heads, urls, i + 1, k);
    } else if urls[i + 1].Some? {
      if k > 0 {
        OriginIsPair(heads, urls, i + 2, k - 1);
      }
    } else {
      OriginIsPair(heads, urls, i + 2, k);
    }
  }

  /** Successive origins are in file order and at least two lines apart: the
      line used as an entry's URL is never the header of another entry.
      (That the line after any header is consumed with it, even when it is
      itself a header, is `HeaderThenLine`.) */
  lemma {:induction false} OriginsSpaced(heads: seq<Option<Header>>, urls: seq<Option<string>>, i: nat, k: nat)
    requires |heads| == |urls| && k + 1 < |Origins(heads, urls, i)|
    ensures Origins(heads, urls, i)[k] + 2 <= Origins(heads, urls, i)[k + 1]
    decreases |heads| - i
  {
    if heads[i].None? {
      OriginsSpaced(heads, urls, i + 1, k);
    } else if urls[i + 1].Some? {
      if k > 0 {
        OriginsSpaced(heads, urls, i + 2, k - 1);
      } else {
        OriginIsPair(heads, urls, i + 2, 0);
      }
    } else {
      OriginsSpaced(heads, urls, i + 2, k);
    }
  }

  /** The `k`-th entry of the walk is built from the header at the `k`-th
      origin and the URL on the line right after it. */
  lemma {:induction false} WalkFromOrigins(heads: seq<Option<Header>>, urls: seq<Option<string>>, i: nat, k: nat)
    requires |heads| == |urls| && k < |Origins(heads, urls, i)|
    ensures var o := Origins(heads, urls, i)[k];
      o + 1 < |heads| && heads[o].Some? && urls[o + 1].Some?
      && k < |Walk(heads, urls, i)| && Walk(heads, urls, i)[k] == EntryOf(heads[o].value, urls[o + 1].value)
    decreases |heads| - i
  {
    OriginsCount(heads, urls, i);
    OriginIsPair(heads, urls, i, k);
    if heads[i].None? {
      WalkFromOrigins(heads, urls, i + 1, k);
    } else if urls[i + 1].Some? {
      if k > 0 {
        WalkFromOrigins(heads, urls, i + 2, k - 1);
      }
    } else {
      WalkFromOrigins(heads, urls, i + 2, k);
    }
  }

  /** The `k`-th entry `parse_yt_links` returns comes from a header line `h`
      and the line `h + 1` after it: its fields are the header's fields and
      its `yt_url` is the stripped next line, which starts with the YouTube
      prefix. */
  lemma ParsedFrom(lines: seq<string>, k: nat)
    requires k < |Parse(lines)|
    ensures var o := Origins(Headers(lines), Urls(lines), 0);
      k < |o| && o[k] + 1 < |lines| && ParseHeader(lines[o[k]]).Some? && UrlOf(lines[o[k] + 1]).Some?
      && Parse(lines)[k] == EntryOf(ParseHeader(lines[o[k]]).value, UrlOf(lines[o[k] + 1]).value)
  {
    var heads, urls := Headers(lines), Urls(lines);
    OriginsCount(heads, urls, 0);
    WalkFromOrigins(heads, urls, 0, k);
    ClassifiedAt(lines, Origins(heads, urls, 0)[k]);
  }

  lemma ClassifiedAt(lines: seq<string>, o: nat)
    requires o + 1 < |lines|
    ensures Headers(lines)[o] == ParseHeader(lines[o]) && Urls(lines)[o + 1] == UrlOf(lines[o + 1])
  {
    MapLinesAt(lines, ParseHeader, o);
    MapLinesAt(lines, UrlOf, o + 1);
  }

  /** Entries come out in file order: the header of each entry is at least
      two lines below the header of the one before. */
  lemma ParsedInFileOrder(lines: seq<string>, k: nat)
    requires k + 1 < |Parse(lines)|
    ensures var o := Origins(Headers(lines), Urls(lines), 0);
      k + 1 < |o| && o[k] + 2 <= o[k + 1]
  {
    OriginsCount(Headers(lines), Urls(lines), 0);
    OriginsSpaced(Headers(lines), Urls(lines), 0, k);
  }

  /** Every returned entry has three non-empty stripped fields without `|`,
      an optional fourth of the same kind, a stripped YouTube URL and no
      `m3u8` key yet. */
  lemma ParsedWellFormed(lines: seq<string>)
    ensures forall e :: e in Parse(lines) ==> WellFormed(e)
  {
    forall e | e in Parse(lines) ensures WellFormed(e) {
      var k :| 0 <= k < |Parse(lines)| && Parse(lines)[k] == e;
      ParsedFrom(lines, k);
      var o := Origins(Headers(lines), Urls(lines), 0)[k];
      HeaderValid(lines[o]);
    }
  }
}
