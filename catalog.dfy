/**
  The loop of `main` (script.py:72-135): resolve a stream for every parsed
  entry, then append one station record per resolved entry to the stations
  already in the catalogue. Reading and writing the JSON files, the clock and
  `uuid4` are outside the model: the loaded stations, the two timestamp
  strings and the sequence of generated identifiers are parameters.
 */
module Catalog {
  import opened Wrappers
  import opened Text
  import opened LinkList
  import opened Resolver

  /** Python truthiness of an optional string: present and non-empty. */
  predicate Truthy(s: Option<string>)
  {
    s.Some? && s.value != ""
  }

  /** A station record, field for field in the order the script writes
      them. The geographic fields are JSON numbers or `null`. */
  datatype Station = Station(
    changeUuid: string,
    stationUuid: string,
    serverUuid: string,
    name: string,
    url: string,
    urlResolved: string,
    homepage: string,
    favicon: string,
    tags: string,
    country: string,
    countryCode: string,
    iso3166_2: string,
    state: string,
    language: string,
    languageCodes: string,
    votes: int,
    lastChangeTime: string,
    lastChangeTimeIso8601: string,
    codec: string,
    bitrate: int,
    hls: int,
    lastCheckOk: int,
    lastCheckTime: string,
    lastCheckTimeIso8601: string,
    lastCheckOkTime: string,
    lastCheckOkTimeIso8601: string,
    lastLocalCheckTime: string,
    lastLocalCheckTimeIso8601: string,
    clickTimestamp: string,
    clickTimestampIso8601: string,
    clickCount: int,
    clickTrend: int,
    sslError: int,
    geoLat: Option<real>,
    geoLong: Option<real>,
    geoDistance: Option<real>,
    hasExtendedInfo: bool)

  /** An element of the stations list: one loaded from the input file, kept
      as the JSON text it was read from, or one the script added. */
  datatype CatalogItem = Loaded(document: string) | Added(station: Station)

  /** Every time field of `s` holds the same moment, in the plain and in the
      ISO 8601 spelling. */
  predicate Stamped(s: Station, timestamp: string, timestampIso: string)
  {
    s.lastChangeTime == timestamp && s.lastCheckTime == timestamp && s.lastCheckOkTime == timestamp
    && s.lastLocalCheckTime == timestamp && s.clickTimestamp == timestamp
    && s.lastChangeTimeIso8601 == timestampIso && s.lastCheckTimeIso8601 == timestampIso
    && s.lastCheckOkTimeIso8601 == timestampIso && s.lastLocalCheckTimeIso8601 == timestampIso
    && s.clickTimestampIso8601 == timestampIso
  }

  /** The record built for a resolved entry, given the three identifiers
      drawn for it and the run's timestamps. */
  function NewStation(e: Entry, changeUuid: string, stationUuid: string, serverUuid: string,
                      timestamp: string, timestampIso: string): (s: Station)
    requires e.m3u8.Some?
    ensures s.hls == 1 <==> EndsWith(s.urlResolved, M3u8Suffix)
    ensures s.hls == 0 || s.hls == 1
    ensures Stamped(s, timestamp, timestampIso)
  {
    Station(
      changeUuid, stationUuid, serverUuid,
      e.name, e.ytUrl, e.m3u8.value, "", e.favicon, e.category,
      "India", "ACTOR", "", "Tamil Nadu", "tamil", "ta",
      0, timestamp, timestampIso,
      "AAC", 128, if EndsWith(e.m3u8.value, M3u8Suffix) then 1 else 0,
      1, timestamp, timestampIso, timestamp, timestampIso, timestamp, timestampIso,
      timestamp, timestampIso,
      0, 0, 0, None, None, None, false)
  }

  /** The entry a station record describes, read back from the record. */
  function EntryOfStation(s: Station): Entry
  {
    Entry(s.name, s.tags, s.favicon, None, s.url, Some(s.urlResolved))
  }

  /** A station keeps every field of its entry except the optional extra
      id, which the record has no field for. */
  lemma StationKeepsEntry(e: Entry, changeUuid: string, stationUuid: string, serverUuid: string,
                          timestamp: string, timestampIso: string)
    requires e.m3u8.Some?
    ensures EntryOfStation(NewStation(e, changeUuid, stationUuid, serverUuid, timestamp, timestampIso))
      == e.(extraId := None)
  {
  }

  /** `entry` after the resolution step, given what `get_m3u8_url`
      returned for it: the `m3u8` key is set only to a truthy value. */
  function WithStream(e: Entry, m3u8: Option<string>): (r: Entry)
    ensures r.(m3u8 := e.m3u8) == e
    ensures Truthy(m3u8) ==> r.m3u8 == m3u8
    ensures !Truthy(m3u8) ==> r == e
  {
    if Truthy(m3u8) then e.(m3u8 := m3u8) else e
  }

  /** The entries after the resolution loop, `resolve` standing for
      `get_m3u8_url`. */
  function AllWithStream(es: seq<Entry>, resolve: string -> Option<string>): (r: seq<Entry>)
    ensures |r| == |es|
    ensures forall k :: 0 <= k < |r| ==> r[k].(m3u8 := es[k].m3u8) == es[k]
    ensures forall k :: 0 <= k < |r| && Truthy(resolve(es[k].ytUrl)) ==> r[k].m3u8 == resolve(es[k].ytUrl)
    ensures forall k :: 0 <= k < |r| && !Truthy(resolve(es[k].ytUrl)) ==> r[k] == es[k]
  {
    var r := seq(|es|, k requires 0 <= k < |es| => WithStream(es[k], resolve(es[k].ytUrl)));
    assert forall k :: 0 <= k < |r| ==> r[k] == WithStream(es[k], resolve(es[k].ytUrl));
    r
  }

  /** The resolution loop: each entry dictionary gets its `m3u8` key in
      place. `resolve` is the resolver the loop calls once per entry, in
      order; `Run` passes `Resolution`, which `GetM3u8Url` computes. */
  method Enrich(entries: array<Entry>, resolve: string -> Option<string>)
    modifies entries
    ensures entries[..] == AllWithStream(old(entries[..]), resolve)
  {
    for k := 0 to entries.Length
      invariant forall j :: 0 <= j < k ==> entries[j] == WithStream(old(entries[j]), resolve(old(entries[j]).ytUrl))
      invariant forall j :: k <= j < entries.Length ==> entries[j] == old(entries[j])
    {
      var m3u8 := resolve(entries[k].ytUrl);
      if m3u8.Some? && m3u8.value != "" {
        entries[k] := entries[k].(m3u8 := m3u8);
      }
    }
  }

  /** `[e for e in entries if e.get('m3u8')]`. */
  function Resolved(es: seq<Entry>): (r: seq<Entry>)
    ensures |r| <= |es|
    ensures forall k :: 0 <= k < |r| ==> Truthy(r[k].m3u8)
  {
    if es == [] then []
    else (if Truthy(es[0].m3u8) then [es[0]] else []) + Resolved(es[1..])
  }

  /** An entry is kept exactly when it is in the list and has a truthy
      stream. */
  lemma {:induction false} ResolvedIff(es: seq<Entry>, e: Entry)
    ensures e in Resolved(es) <==> e in es && Truthy(e.m3u8)
  {
    if es != [] {
      ResolvedIff(es[1..], e);
      assert es == [es[0]] + es[1..];
    }
  }

  /** Filtering keeps the order: the kept entries of a concatenation are
      the kept entries of the first part followed by those of the second. */
  lemma {:induction false} ResolvedAppend(a: seq<Entry>, b: seq<Entry>)
    ensures Resolved(a + b) == Resolved(a) + Resolved(b)
  {
    if a != [] {
      assert (a + b)[1..] == a[1..] + b;
      ResolvedAppend(a[1..], b);
    } else {
      assert a + b == b;
    }
  }

  /** The catalogue after the append loop: the loaded stations unchanged and
      in place, followed by one new record per resolved entry, in order, the
      `k`-th built with the identifiers of `uuid4` calls `3k`, `3k + 1` and
      `3k + 2`; `addedCount` counts the new records. */
  predicate MergedInto(stations: seq<CatalogItem>, entries: seq<Entry>, uuid: nat -> string,
                       timestamp: string, timestampIso: string, result: seq<CatalogItem>, addedCount: nat)
  {
    var resolved := Resolved(entries);
    addedCount == |resolved| && |result| == |stations| + addedCount
    && result[..|stations|] == stations
    && forall k :: 0 <= k < addedCount ==>
      result[|stations| + k]
      == Added(NewStation(resolved[k], uuid(3 * k), uuid(3 * k + 1), uuid(3 * k + 2), timestamp, timestampIso))
  }

  /** The append loop of `main`. */
  method Merge(stations: seq<CatalogItem>, entries: seq<Entry>, uuid: nat -> string,
               timestamp: string, timestampIso: string)
    returns (result: seq<CatalogItem>, addedCount: nat)
    ensures MergedInto(stations, entries, uuid, timestamp, timestampIso, result, addedCount)
  {
    result := stations;
    addedCount := 0;
    var resolved := Resolved(entries);
    for k := 0 to |resolved|
      invariant addedCount == k && |result| == |stations| + k
      invariant result[..|stations|] == stations
      invariant forall j :: 0 <= j < k ==>
        result[|stations| + j]
        == Added(NewStation(resolved[j], uuid(3 * j), uuid(3 * j + 1), uuid(3 * j + 2), timestamp, timestampIso))
    {
      var entry := resolved[k];
      var changeUuid := uuid(3 * addedCount);
      var stationUuid := uuid(3 * addedCount + 1);
      var serverUuid := uuid(3 * addedCount + 2);
      var station := NewStation(entry, changeUuid, stationUuid, serverUuid, timestamp, timestampIso);
      result := result + [Added(station)];
      addedCount := addedCount + 1;
    }
  }

  /** `main` from parsing to the list it writes out. */
  method Run(lines: seq<string>, stations: seq<CatalogItem>, run: seq<string> -> ToolRun,
             uuid: nat -> string, timestamp: string, timestampIso: string)
    returns (result: seq<CatalogItem>, addedCount: nat)
    ensures MergedInto(stations, AllWithStream(Parse(lines), url => Resolution(url, run)), uuid, timestamp, timestampIso,
                       result, addedCount)
  {
    var parsed := ParseLinks(lines);
    var entries := new Entry[|parsed|](k requires 0 <= k < |parsed| => parsed[k]);
    assert entries[..] == parsed;
    Enrich(entries, url => Resolution(url, run));
    result, addedCount := Merge(stations, entries[..], uuid, timestamp, timestampIso);
  }

  /** Every station the run adds comes from a parsed entry whose stream
      resolved to a truthy URL, and carries that URL. */
  lemma AddedFromParsed(lines: seq<string>, run: seq<string> -> ToolRun, e: Entry)
    requires e in Resolved(AllWithStream(Parse(lines), url => Resolution(url, run)))
    ensures e.(m3u8 := None) in Parse(lines)
    ensures Truthy(e.m3u8) && e.m3u8 == Resolution(e.ytUrl, run)
  {
    var es := Parse(lines);
    var resolve := url => Resolution(url, run);
    var enriched := AllWithStream(es, resolve);
    ResolvedIff(enriched, e);
    var k :| 0 <= k < |enriched| && enriched[k] == e;
    var m3u8 := Resolution(es[k].ytUrl, run);
    assert enriched[k] == WithStream(es[k], m3u8);
    ParsedWellFormed(lines);
    assert es[k] in es;
    assert Truthy(m3u8);
  }
}
