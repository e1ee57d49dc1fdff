/**
  The telemetry reader's inner loop: one decoded serial line is cut into
  tab-separated `key: value` (or `key = value`) fragments, the fragments are
  collected into a dictionary, the five fields of interest are copied into a
  timestamped record, and the record joins the log only when all five are
  there.
 */
module Telemetry {
  import opened Wrappers
  import opened Text

  /** A parsed dictionary, or a record of the log: both are string to string. */
  type Record = map<string, string>

  const TimestampKey: string := "timestamp"

  /** An alternate spelling of the duty-cycle key the reader accepts, and
      the key it is stored under. */
  const DutyCycleAlias: string := "Duty Cycle"
  const DutyCycleKey: string := "DutyCycle"

  /** The fields a record must carry to be logged, in the order they are copied. */
  const RequiredFields: seq<string> :=
    ["LowSideVoltage", "LowSideCurrent", "HighSideVoltage", "HighSideCurrent", DutyCycleKey]

  datatype Field = Field(key: string, value: string)

  predicate IsSeparator(c: char)
  {
    c == ':' || c == '='
  }

  /** What every stored field looks like: stripped on both sides, no
      separator inside the key, and never the alias spelling of the duty cycle. */
  predicate WellFormed(f: Field)
  {
    && IsStripped(f.key)
    && IsStripped(f.value)
    && ':' !in f.key
    && '=' !in f.key
    && f.key != DutyCycleAlias
  }

  /** The alias is renamed; every other key is kept as it is. */
  function CanonicalKey(key: string): (r: string)
    ensures r != DutyCycleAlias
    ensures key != DutyCycleAlias ==> r == key
  {
    if key == DutyCycleAlias then DutyCycleKey else key
  }

  /** One tab-separated fragment. A fragment without `:` and without `=`
      yields nothing; otherwise every `=` becomes `:`, the text is cut at
      the first `:`, both halves are stripped and the alias key is renamed. */
  function ParseFragment(part: string): (r: Option<Field>)
    ensures r.None? <==> (':' !in part && '=' !in part)
    ensures r.Some? ==> WellFormed(r.value)
  {
    if ':' in part || '=' in part then
      var text := Replace(part, '=', ':');
      assert ':' in text by {
        var k :| 0 <= k < |part| && (part[k] == ':' || part[k] == '=');
        assert text[k] == ':';
      }
      var (before, after) := SplitFirst(text, ':');
      var key := Strip(before);
      StripKeepsOut(before, ':');
      StripKeepsOut(before, '=');
      Some(Field(CanonicalKey(key), Strip(after)))
    else
      None
  }

  /** The fragments of a line, each parsed on its own. */
  function Fragments(parts: seq<string>): (fs: seq<Option<Field>>)
    ensures |fs| == |parts|
    ensures forall i :: 0 <= i < |parts| ==> fs[i] == ParseFragment(parts[i])
  {
    if parts == [] then [] else [ParseFragment(parts[0])] + Fragments(parts[1..])
  }

  /** The fragment names `key` (after renaming). */
  predicate Names(f: Option<Field>, key: string)
  {
    f.Some? && f.value.key == key
  }

  /** The dictionary after one more fragment: a later key overwrites an earlier one. */
  function Store(m: Record, f: Option<Field>): Record
  {
    match f
    case None => m
    case Some(field) => m[field.key := field.value]
  }

  /** The dictionary built from parsed fragments, in order. */
  function Collect(fs: seq<Option<Field>>): Record
  {
    if fs == [] then map[] else Store(Collect(fs[..|fs| - 1]), fs[|fs| - 1])
  }

  predicate AllWellFormed(m: Record)
  {
    forall k :: k in m ==> WellFormed(Field(k, m[k]))
  }

  lemma {:induction false} CollectWellFormed(fs: seq<Option<Field>>)
    requires forall i :: 0 <= i < |fs| && fs[i].Some? ==> WellFormed(fs[i].value)
    ensures AllWellFormed(Collect(fs))
  {
    if fs != [] {
      var init := fs[..|fs| - 1];
      assert forall i :: 0 <= i < |init| ==> init[i] == fs[i];
      CollectWellFormed(init);
    }
  }

  /** The dictionary built from a whole line: only well-formed fields, and
      never the alias spelling of the duty-cycle key. */
  function Parse(line: string): (m: Record)
    ensures AllWellFormed(m)
    ensures DutyCycleAlias !in m
  {
    var fs := Fragments(Split(line, '\t'));
    CollectWellFormed(fs);
    Collect(fs)
  }

  /** The loop over the tab-separated fragments, filling the dictionary in place. */
  method ParseLine(line: string) returns (parsed: Record)
    ensures parsed == Parse(line)
  {
    var parts := Split(line, '\t');
    ghost var fs := Fragments(parts);
    parsed := map[];
    for i := 0 to |parts|
      invariant parsed == Collect(fs[..i])
    {
      assert fs[..i + 1][..i] == fs[..i];
      match ParseFragment(parts[i])
      case Some(field) =>
        parsed := parsed[field.key := field.value];
      case None =>
    }
    assert fs[..|parts|] == fs;
  }

  /** The key and value of a fragment are the text before and after its
      first `:` or `=` in the original fragment, stripped; the value keeps
      any later `:` (and has its `=` turned into `:`). */
  lemma FragmentSplitsAtFirstSeparator(part: string, i: nat)
    requires i < |part| && IsSeparator(part[i])
    requires forall j :: 0 <= j < i ==> !IsSeparator(part[j])
    ensures ParseFragment(part)
            == Some(Field(CanonicalKey(Strip(part[..i])), Strip(Replace(part[i + 1..], '=', ':'))))
  {
    var text := Replace(part, '=', ':');
    var before, after := part[..i], Replace(part[i + 1..], '=', ':');
    assert text == before + [':'] + after;
    SplitFirstUnique(text, ':', before, after);
  }

  /** A fragment keyed `Duty Cycle` is stored under `DutyCycle`, value unchanged. */
  lemma DutyCycleRenamed(part: string, i: nat)
    requires i < |part| && IsSeparator(part[i])
    requires forall j :: 0 <= j < i ==> !IsSeparator(part[j])
    requires Strip(part[..i]) == DutyCycleAlias
    ensures ParseFragment(part) == Some(Field(DutyCycleKey, Strip(Replace(part[i + 1..], '=', ':'))))
  {
    FragmentSplitsAtFirstSeparator(part, i);
  }

  /** A key is in the dictionary exactly when some fragment names it. */
  lemma {:induction false} CollectKeys(fs: seq<Option<Field>>, key: string)
    ensures key in Collect(fs) <==> exists i :: 0 <= i < |fs| && Names(fs[i], key)
  {
    if fs != [] {
      var init := fs[..|fs| - 1];
      CollectKeys(init, key);
      if key in Collect(init) {
        var i :| 0 <= i < |init| && Names(init[i], key);
        assert fs[i] == init[i];
      }
      if exists i :: 0 <= i < |fs| && Names(fs[i], key) {
        var i :| 0 <= i < |fs| && Names(fs[i], key);
        if i < |init| {
          assert init[i] == fs[i];
        }
      }
    }
  }

  /** When several fragments name the same key, the dictionary holds the
      value of the last of them. */
  lemma {:induction false} LastDefinitionWins(fs: seq<Option<Field>>, i: nat, key: string, value: string)
    requires i < |fs| && fs[i] == Some(Field(key, value))
    requires forall j :: i < j < |fs| ==> !Names(fs[j], key)
    ensures key in Collect(fs) && Collect(fs)[key] == value
  {
    var init := fs[..|fs| - 1];
    if i < |fs| - 1 {
      forall j | i < j < |init| ensures !Names(init[j], key) {
        assert init[j] == fs[j];
      }
      assert init[i] == fs[i];
      LastDefinitionWins(init, i, key, value);
      assert !Names(fs[|fs| - 1], key);
    }
  }

  /** `LastDefinitionWins` for the fragments of a whole line. */
  lemma ParseLastDefinitionWins(line: string, i: nat, key: string, value: string)
    requires var parts := Split(line, '\t');
             i < |parts| && ParseFragment(parts[i]) == Some(Field(key, value))
             && forall j :: i < j < |parts| ==> !Names(ParseFragment(parts[j]), key)
    ensures key in Parse(line) && Parse(line)[key] == value
  {
    var parts := Split(line, '\t');
    var fs := Fragments(parts);
    forall j | i < j < |fs| ensures !Names(fs[j], key) {
      assert fs[j] == ParseFragment(parts[j]);
    }
    LastDefinitionWins(fs, i, key, value);
  }

  /** The entries of `parsed` whose keys are among `fields`. */
  function Copied(parsed: Record, fields: seq<string>): Record
  {
    map f | f in fields && f in parsed :: parsed[f]
  }

  /** The record filter: a timestamp plus those required fields the
      dictionary has, values copied unchanged. */
  function FilteredEntry(parsed: Record, timestamp: string): Record
  {
    map[TimestampKey := timestamp] + Copied(parsed, RequiredFields)
  }

  /** The required fields present in the dictionary. */
  function PresentFields(parsed: Record): set<string>
  {
    set f | f in RequiredFields && f in parsed
  }

  /** Copying one more field extends the copy by that field, if present. */
  lemma CopiedOneMore(parsed: Record, fields: seq<string>, field: string, timestamp: string)
    requires field != TimestampKey
    ensures var before := map[TimestampKey := timestamp] + Copied(parsed, fields);
            map[TimestampKey := timestamp] + Copied(parsed, fields + [field])
            == if field in parsed then before[field := parsed[field]] else before
  {
    var m := Copied(parsed, fields + [field]);
    var e := if field in parsed then Copied(parsed, fields)[field := parsed[field]] else Copied(parsed, fields);
    assert m.Keys == e.Keys;
    assert m == e;
  }

  /** The filtered record holds the timestamp and exactly the required
      fields the dictionary has, with their values unchanged; the timestamp
      is never overwritten by a field of the line. */
  lemma FilteredEntryFields(parsed: Record, timestamp: string)
    ensures var e := FilteredEntry(parsed, timestamp);
            && e.Keys == {TimestampKey} + PresentFields(parsed)
            && e[TimestampKey] == timestamp
            && forall f :: f in PresentFields(parsed) ==> e[f] == parsed[f]
  {
    assert TimestampKey !in RequiredFields;
  }

  /** The loop that copies the required fields into the timestamped record. */
  method Filter(parsed: Record, timestamp: string) returns (entry: Record)
    ensures entry == FilteredEntry(parsed, timestamp)
  {
    entry := map[TimestampKey := timestamp];
    for j := 0 to |RequiredFields|
      invariant entry == map[TimestampKey := timestamp] + Copied(parsed, RequiredFields[..j])
    {
      var field := RequiredFields[j];
      assert RequiredFields[..j + 1] == RequiredFields[..j] + [field];
      CopiedOneMore(parsed, RequiredFields[..j], field, timestamp);
      if field in parsed {
        entry := entry[field := parsed[field]];
      }
    }
    assert RequiredFields[..|RequiredFields|] == RequiredFields;
  }

  /** Python's `all(k in entry for k in RequiredFields)`. */
  predicate Complete(entry: Record)
  {
    forall j :: 0 <= j < |RequiredFields| ==> RequiredFields[j] in entry
  }

  /** The filtered record is complete exactly when the dictionary has all
      five required fields; the timestamp never stands in for one of them. */
  lemma CompleteIffAllPresent(parsed: Record, timestamp: string)
    ensures Complete(FilteredEntry(parsed, timestamp)) <==> Complete(parsed)
  {
    var e := FilteredEntry(parsed, timestamp);
    if Complete(e) {
      forall j | 0 <= j < |RequiredFields| ensures RequiredFields[j] in parsed {
        assert RequiredFields[j] != TimestampKey;
        assert RequiredFields[j] in e;
      }
    }
  }

  /** What a logged record looks like: the timestamp and the five required
      fields, nothing else, each field value stripped. */
  predicate IsLogRecord(e: Record)
  {
    && e.Keys == {TimestampKey} + set f | f in RequiredFields
    && forall f :: f in RequiredFields ==> f in e && IsStripped(e[f])
  }

  /** The raw line is kept: non-empty once stripped, with all five required fields. */
  predicate Accepts(raw: string)
  {
    Strip(raw) != [] && Complete(Parse(Strip(raw)))
  }

  /** The log after one raw line arrives. */
  function NextLog(log: seq<Record>, raw: string, timestamp: string): seq<Record>
  {
    var line := Strip(raw);
    if line == [] then log
    else
      var entry := FilteredEntry(Parse(line), timestamp);
      if Complete(entry) then log + [entry] else log
  }

  /** The log grows by exactly one record, appended after the unchanged
      earlier ones, exactly when the stripped line is non-empty and carries
      all five required fields; otherwise it is unchanged. */
  lemma NextLogAppendsIffComplete(log: seq<Record>, raw: string, timestamp: string)
    ensures Accepts(raw) ==> NextLog(log, raw, timestamp)
                             == log + [FilteredEntry(Parse(Strip(raw)), timestamp)]
    ensures !Accepts(raw) ==> NextLog(log, raw, timestamp) == log
  {
    if Strip(raw) != [] {
      CompleteIffAllPresent(Parse(Strip(raw)), timestamp);
    }
  }

  /** A complete record filtered from a parsed dictionary has the logged shape. */
  lemma FilteredIsLogRecord(parsed: Record, timestamp: string)
    requires AllWellFormed(parsed) && Complete(parsed)
    ensures IsLogRecord(FilteredEntry(parsed, timestamp))
  {
    var entry := FilteredEntry(parsed, timestamp);
    forall f | f in RequiredFields ensures f in parsed && f in entry && IsStripped(entry[f]) {
      var j :| 0 <= j < |RequiredFields| && RequiredFields[j] == f;
      assert WellFormed(Field(f, parsed[f]));
    }
  }

  /** Every record the log accepts has exactly the logged shape. */
  lemma NextLogKeepsShape(log: seq<Record>, raw: string, timestamp: string)
    requires forall k :: 0 <= k < |log| ==> IsLogRecord(log[k])
    ensures var next := NextLog(log, raw, timestamp);
            forall k :: 0 <= k < |next| ==> IsLogRecord(next[k])
  {
    var line := Strip(raw);
    if line != [] {
      var parsed := Parse(line);
      CompleteIffAllPresent(parsed, timestamp);
      if Complete(parsed) {
        FilteredIsLogRecord(parsed, timestamp);
      }
    }
  }

  /** The log after a run of raw lines, each with the timestamp it was read at. */
  function Replay(log: seq<Record>, lines: seq<string>, stamps: seq<string>): seq<Record>
    requires |lines| == |stamps|
  {
    if lines == [] then log
    else
      var n := |lines| - 1;
      NextLog(Replay(log, lines[..n], stamps[..n]), lines[n], stamps[n])
  }

  lemma ReplayOneMore(log: seq<Record>, lines: seq<string>, stamps: seq<string>, i: nat)
    requires |lines| == |stamps| && i < |lines|
    ensures Replay(log, lines[..i + 1], stamps[..i + 1])
            == NextLog(Replay(log, lines[..i], stamps[..i]), lines[i], stamps[i])
  {
    assert lines[..i + 1][..i] == lines[..i] && stamps[..i + 1][..i] == stamps[..i];
  }

  /** The log is append-only: a run of lines keeps every earlier record
      where it was, adds at most one record per line, and every record it
      adds has the logged shape. */
  lemma {:induction false} ReplayAppendsOnly(log: seq<Record>, lines: seq<string>, stamps: seq<string>)
    requires |lines| == |stamps|
    requires forall k :: 0 <= k < |log| ==> IsLogRecord(log[k])
    ensures var after := Replay(log, lines, stamps);
            && |log| <= |after| <= |log| + |lines|
            && after[..|log|] == log
            && forall k :: 0 <= k < |after| ==> IsLogRecord(after[k])
  {
    if lines != [] {
      var n := |lines| - 1;
      var before := Replay(log, lines[..n], stamps[..n]);
      ReplayAppendsOnly(log, lines[..n], stamps[..n]);
      NextLogAppendsIffComplete(before, lines[n], stamps[n]);
      NextLogKeepsShape(before, lines[n], stamps[n]);
      var after := NextLog(before, lines[n], stamps[n]);
      assert after[..|before|] == before;
      assert after[..|log|] == before[..|log|];
    }
  }

  /** The reader's in-memory log of accepted records. */
  class TelemetryLog {
    var entries: seq<Record>

    ghost predicate Valid()
      reads this
    {
      forall k :: 0 <= k < |entries| ==> IsLogRecord(entries[k])
    }

    constructor ()
      ensures Valid() && entries == []
    {
      entries := [];
    }

    /** One pass of the reader loop on a raw decoded line. */
    method Step(raw: string, timestamp: string) returns (appended: bool)
      requires Valid()
      modifies this
      ensures Valid()
      ensures entries == NextLog(old(entries), raw, timestamp)
      ensures appended <==> Accepts(raw)
      ensures |entries| == |old(entries)| + (if appended then 1 else 0)
    {
      NextLogKeepsShape(entries, raw, timestamp);
      NextLogAppendsIffComplete(entries, raw, timestamp);
      appended := false;
      var line := Strip(raw);
      if line != [] {
        var parsed := ParseLine(line);
        var entry := Filter(parsed, timestamp);
        if Complete(entry) {
          entries := entries + [entry];
          appended := true;
        }
      }
      CompleteIffAllPresent(Parse(line), timestamp);
    }

    /** The reader loop over a finite run of raw lines. */
    method Run(lines: seq<string>, stamps: seq<string>)
      requires Valid()
      requires |lines| == |stamps|
      modifies this
      ensures Valid()
      ensures entries == Replay(old(entries), lines, stamps)
    {
      ghost var start := entries;
      var i := 0;
      while i < |lines|
        invariant 0 <= i <= |lines|
        invariant Valid()
        invariant entries == Replay(start, lines[..i], stamps[..i])
      {
        ReplayOneMore(start, lines, stamps, i);
        var _ := Step(lines[i], stamps[i]);
        i := i + 1;
      }
      assert lines[..i] == lines && stamps[..i] == stamps;
    }
  }
}
