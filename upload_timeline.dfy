/** The upload timeline: `parse_log_file` keeps the matched lines whose path
    contains the plugin's upload handler, records each one's reformatted
    time, raw status and cleaned path, and sorts the records by time. */
module UploadTimeline {
  import opened Wrappers
  import opened Text
  import opened LogLine
  import opened Timestamp
  import opened StableSort

  /** The path fragment a request must contain to be reported. */
  const Target: string := "/uploads/sp-client-document-manager/3/project-plan.php"

  /** One record: `{"time": ..., "status": ..., "path_only": ...}`. */
  datatype Entry = Entry(time: string, status: string, pathOnly: string)

  /** A record whose time reads back as a valid time. */
  predicate Timed(e: Entry) {
    var dt := DecodeTime(e.time);
    dt.Some? && ValidDateTime(dt.value) && FormatTime(dt.value) == e.time
  }

  /** The record one line yields, or `None` where the loop `continue`s: the
      line does not match, its path lacks the target, or its timestamp does
      not parse. */
  function EntryOf(line: string): (r: Option<Entry>)
    ensures r.Some? <==> ParseLine(line).Some? && Contains(ParseLine(line).value.path, Target)
                         && ParseTimestamp(ParseLine(line).value.timestamp).Some?
    ensures r.Some? ==> Timed(r.value)
    ensures r.Some? ==> var p := ParseLine(line).value;
                        r.value.status == p.status && Number(r.value.status)
                        && r.value.pathOnly == RemoveAll(p.path, HttpVersion)
                        && r.value.time == FormatTime(ParseTimestamp(p.timestamp).value.local)
  {
    var p :- ParseLine(line);
    if !Contains(p.path, Target) then None
    else
      var cleanPath := Strip(RemoveAll(p.path, HttpVersion));
      RemoveAllKeepsNoSpace(p.path, HttpVersion);
      var st :- ParseTimestamp(p.timestamp);
      DecodeFormatTime(st.local);
      Some(Entry(FormatTime(st.local), p.status, cleanPath))
  }

  /** The records of `lines`, in line order. */
  function Accepted(lines: seq<string>): (r: seq<Entry>)
    ensures |r| <= |lines|
    ensures forall e :: e in r <==> exists i :: 0 <= i < |lines| && EntryOf(lines[i]) == Some(e)
  {
    SomesMembers(lines, EntryOf);
    Somes(lines, EntryOf)
  }

  /** The time a record's `time` reads back as; every record has one (see
      `TimelineTimed`), so the fallback is never used. */
  function TimeOf(e: Entry): (dt: DateTime)
    ensures ValidDateTime(dt)
  {
    var read := DecodeTime(e.time);
    if read.Some? && ValidDateTime(read.value) then read.value else DateTime(1, 1, 1, 0, 0, 0)
  }

  /** Keys compare as the times do. */
  lemma EntryKeyOrder(x: Entry, y: Entry)
    ensures EntryKey(x) <= EntryKey(y) <==> !Earlier(TimeOf(y), TimeOf(x))
  {
    TimeKeyOrder(TimeOf(y), TimeOf(x));
  }

  /** The sort key `datetime.strptime(x['time'], '%Y/%m/%d %H:%M:%S')`, as a
      number ordered like the `datetime`. */
  function EntryKey(e: Entry): (k: int)
    ensures Timed(e) ==> k == TimeKey(DecodeTime(e.time).value)
  {
    TimeKey(TimeOf(e))
  }

  /** `parse_log_file(lines)` as a value: the records, stably sorted by time. */
  function Timeline(lines: seq<string>): (r: seq<Entry>)
    ensures multiset(r) == multiset(Accepted(lines))
  {
    SortBy(Accepted(lines), EntryKey)
  }

  /** `parse_log_file`: the loop appends a record for each line that passes
      all three checks, skipping the rest, then sorts the list in place. */
  method ParseLogFile(lines: seq<string>) returns (entries: seq<Entry>)
    ensures entries == Timeline(lines)
  {
    entries := [];
    for i := 0 to |lines|
      invariant entries == Accepted(lines[..i])
    {
      SomesStep(lines, EntryOf, i);
      var line := Strip(lines[i]);
      var found := MatchLine(line);
      if found.None? {
        continue;
      }
      var p := found.value;
      if !Contains(p.path, Target) {
        continue;
      }
      var cleanPath := Strip(RemoveAll(p.path, HttpVersion));
      var stamp := ParseTimestamp(p.timestamp);
      if stamp.None? {
        continue;
      }
      var formattedTime := FormatTime(stamp.value.local);
      entries := entries + [Entry(formattedTime, p.status, cleanPath)];
    }
    assert lines[..|lines|] == lines;
    entries := SortBy(entries, EntryKey);
  }

  // ---------------------------------------------------------------------
  // What the timeline says

  /** The filter is sound and complete: a record is in the timeline exactly
      when some line passes all three checks and yields it. */
  lemma TimelineMembers(lines: seq<string>)
    ensures forall e :: e in Timeline(lines) <==> exists i :: 0 <= i < |lines| && EntryOf(lines[i]) == Some(e)
  {
    SomesMembers(lines, EntryOf);
    assert multiset(Timeline(lines)) == multiset(Accepted(lines));
    forall e ensures e in Timeline(lines) <==> e in Accepted(lines) {
      assert e in Timeline(lines) <==> e in multiset(Timeline(lines));
      assert e in Accepted(lines) <==> e in multiset(Accepted(lines));
    }
  }

  /** Every record's time is a formatted valid time, so `TimeOf` is the time
      the record shows. */
  lemma TimelineTimed(lines: seq<string>)
    ensures forall e :: e in Timeline(lines) ==> Timed(e) && TimeOf(e) == DecodeTime(e.time).value
  {
    TimelineMembers(lines);
    forall e | e in Timeline(lines) ensures Timed(e) && TimeOf(e) == DecodeTime(e.time).value {
      var i :| 0 <= i < |lines| && EntryOf(lines[i]) == Some(e);
    }
  }

  /** No record is earlier than one before it. */
  ghost predicate Chronological(r: seq<Entry>) {
    forall a, b :: 0 <= a < b < |r| ==> !Earlier(TimeOf(r[b]), TimeOf(r[a]))
  }

  /** Sorting records by `EntryKey` puts them in chronological order. */
  lemma SortedByTime(es: seq<Entry>)
    ensures Chronological(SortBy(es, EntryKey))
  {
    var r := SortBy(es, EntryKey);
    SortBySorted(es, EntryKey);
    forall a, b | 0 <= a < b < |r| ensures !Earlier(TimeOf(r[b]), TimeOf(r[a])) {
      EntryKeyOrder(r[a], r[b]);
    }
  }

  /** The timeline is in chronological order. */
  lemma TimelineChronological(lines: seq<string>)
    ensures Chronological(Timeline(lines))
  {
    SortedByTime(Accepted(lines));
  }

  /** Stability: records with the same time stay in line order. */
  lemma TimelineStable(lines: seq<string>, t: DateTime)
    ensures WithKey(Timeline(lines), EntryKey, TimeKey(t)) == WithKey(Accepted(lines), EntryKey, TimeKey(t))
  {
    SortByStable(Accepted(lines), EntryKey, TimeKey(t));
  }

  /** Any chronological order of the records that keeps records with equal
      times in line order is the timeline: `list.sort` is stable, so its
      result is determined. */
  lemma TimelineIsPythonSort(lines: seq<string>, r: seq<Entry>)
    requires Chronological(r)
    requires forall k :: WithKey(r, EntryKey, k) == WithKey(Accepted(lines), EntryKey, k)
    ensures r == Timeline(lines)
  {
    forall a, b | 0 <= a < b < |r| ensures EntryKey(r[a]) <= EntryKey(r[b]) {
      EntryKeyOrder(r[a], r[b]);
    }
    SortByUnique(Accepted(lines), r, EntryKey);
  }
}
