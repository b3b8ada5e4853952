/** What the program reads out of its three metadata tools' standard output:
    exiftool's `Key: value` lines, mdls's `kMDItemFSCreationDate = value` line
    and ffprobe's bare creation time. Running the tools is not modelled; each
    parser receives the text the tool printed. */
module Providers {
  import opened Text

  // ---------------------------------------------------------------------
  // get_exif_data
  // ---------------------------------------------------------------------

  /** The key of an exiftool line: the stripped text before its first ':'. */
  function EntryKey(line: string): string
    requires ':' in line
  {
    Strip(line[..FirstIndex(line, ':')])
  }

  /** The value of an exiftool line: the stripped text after its first ':'. */
  function EntryValue(line: string): string
    requires ':' in line
  {
    Strip(line[FirstIndex(line, ':') + 1..])
  }

  /** `line` is a `key: value` line for `key`. */
  predicate IsEntryFor(line: string, key: string)
  {
    ':' in line && EntryKey(line) == key
  }

  /** The dictionary built from `lines` one line after the other: lines with
      a ':' set their key, lines without one are passed over. */
  function ExifMap(lines: seq<string>): map<string, string>
  {
    if lines == [] then map[]
    else
      var m := ExifMap(lines[..|lines| - 1]);
      var line := lines[|lines| - 1];
      if ':' in line then m[EntryKey(line) := EntryValue(line)] else m
  }

  /** Line `i` is the last line of `lines` that sets `key`. */
  predicate LastEntryFor(lines: seq<string>, key: string, i: int)
  {
    0 <= i < |lines| && IsEntryFor(lines[i], key)
    && forall j :: i < j < |lines| ==> !IsEntryFor(lines[j], key)
  }

  /** Appending a line to exiftool's output updates the dictionary by that
      line alone. */
  lemma ExifMapSnoc(lines: seq<string>, line: string)
    ensures ExifMap(lines + [line])
      == if ':' in line then ExifMap(lines)[EntryKey(line) := EntryValue(line)] else ExifMap(lines)
  {
    assert (lines + [line])[..|lines|] == lines;
  }

  /** A key is in the dictionary exactly when some line sets it. */
  lemma {:induction false} ExifMapHasKey(lines: seq<string>, key: string)
    ensures key in ExifMap(lines) <==> exists i :: 0 <= i < |lines| && IsEntryFor(lines[i], key)
  {
    if lines != [] {
      var n := |lines| - 1;
      var init := lines[..n];
      assert lines == init + [lines[n]];
      ExifMapSnoc(init, lines[n]);
      ExifMapHasKey(init, key);
      if exists i :: 0 <= i < |init| && IsEntryFor(init[i], key) {
        var i :| 0 <= i < |init| && IsEntryFor(init[i], key);
        assert lines[i] == init[i];
      }
      if exists i :: 0 <= i < |lines| && IsEntryFor(lines[i], key) {
        var i :| 0 <= i < |lines| && IsEntryFor(lines[i], key);
        if i < n {
          assert init[i] == lines[i];
        }
      }
    }
  }

  /** A key present in the dictionary holds the value of the last line that
      sets it. */
  lemma {:induction false} ExifMapValue(lines: seq<string>, key: string)
    requires key in ExifMap(lines)
    ensures exists i :: LastEntryFor(lines, key, i) && ExifMap(lines)[key] == EntryValue(lines[i])
  {
    var n := |lines| - 1;
    var init := lines[..n];
    assert lines == init + [lines[n]];
    ExifMapSnoc(init, lines[n]);
    if IsEntryFor(lines[n], key) {
      assert LastEntryFor(lines, key, n);
    } else {
      ExifMapValue(init, key);
      var i :| LastEntryFor(init, key, i) && ExifMap(init)[key] == EntryValue(init[i]);
      assert lines[i] == init[i];
      assert LastEntryFor(lines, key, i);
    }
  }

  /** `get_exif_data` on the text exiftool printed: each line of the output is
      split at its first ':' into a stripped key and a stripped value. */
  method ExifData(stdout: string) returns (exif: map<string, string>)
    ensures exif == ExifMap(SplitLines(stdout))
  {
    var lines := SplitLines(stdout);
    exif := map[];
    for i := 0 to |lines|
      invariant exif == ExifMap(lines[..i])
    {
      assert lines[..i + 1][..i] == lines[..i];
      var line := lines[i];
      if ':' in line {
        var cut := FirstIndex(line, ':');
        exif := exif[Strip(line[..cut]) := Strip(line[cut + 1..])];
      }
    }
    assert lines[..|lines|] == lines;
  }

  // ---------------------------------------------------------------------
  // get_creation_date
  // ---------------------------------------------------------------------

  const CREATION_DATE_MARKER := "kMDItemFSCreationDate"

  /** What `get_creation_date` does with mdls's output: returns `None` (no
      line holds the marker), returns a string, or raises `ValueError` because
      the first marker line has no '=' and `key, value = line.split('=', 1)`
      gets a single piece. */
  datatype CreationDateResult =
    | NoMarkerLine
    | MarkerValue(text: string)
    | MarkerWithoutEquals

  predicate IsMarkerLine(line: string)
  {
    HasSubstring(line, CREATION_DATE_MARKER)
  }

  /** The result taken from the first marker line. */
  function MarkerLineValue(line: string): CreationDateResult
  {
    if '=' in line then MarkerValue(Strip(line[FirstIndex(line, '=') + 1..]))
    else MarkerWithoutEquals
  }

  /** The first marker line of `lines` decides the result. */
  function CreationDateOf(lines: seq<string>): CreationDateResult
  {
    if lines == [] then NoMarkerLine
    else if IsMarkerLine(lines[0]) then MarkerLineValue(lines[0])
    else CreationDateOf(lines[1..])
  }

  /** Line `i` is the first line of `lines` that holds the marker. */
  predicate FirstMarkerLine(lines: seq<string>, i: int)
  {
    0 <= i < |lines| && IsMarkerLine(lines[i])
    && forall j :: 0 <= j < i ==> !IsMarkerLine(lines[j])
  }

  /** `None` exactly when no line holds the marker; otherwise the first
      marker line alone gives the result. */
  lemma {:induction false} CreationDateFirstMarker(lines: seq<string>)
    ensures CreationDateOf(lines) == NoMarkerLine <==>
      forall i :: 0 <= i < |lines| ==> !IsMarkerLine(lines[i])
    ensures forall i :: FirstMarkerLine(lines, i) ==> CreationDateOf(lines) == MarkerLineValue(lines[i])
  {
    if lines != [] && !IsMarkerLine(lines[0]) {
      CreationDateFirstMarker(lines[1..]);
      forall i | FirstMarkerLine(lines, i)
        ensures CreationDateOf(lines) == MarkerLineValue(lines[i])
      {
        assert FirstMarkerLine(lines[1..], i - 1);
      }
      if forall i :: 0 <= i < |lines[1..]| ==> !IsMarkerLine(lines[1..][i]) {
        forall i | 0 <= i < |lines| ensures !IsMarkerLine(lines[i]) {
          if i > 0 { assert lines[i] == lines[1..][i - 1]; }
        }
      }
    } else if lines != [] {
      assert FirstMarkerLine(lines, 0);
    }
  }

  /** `get_creation_date` on the text mdls printed: a first-match loop over
      its lines that returns as soon as a line holds the marker. */
  method CreationDate(stdout: string) returns (r: CreationDateResult)
    ensures r == CreationDateOf(SplitLines(stdout))
  {
    var lines := SplitLines(stdout);
    for i := 0 to |lines|
      invariant CreationDateOf(lines[i..]) == CreationDateOf(lines)
    {
      assert lines[i..][1..] == lines[i + 1..];
      var line := lines[i];
      if IsMarkerLine(line) {
        if '=' in line {
          var cut := FirstIndex(line, '=');
          return MarkerValue(Strip(line[cut + 1..]));
        }
        return MarkerWithoutEquals;
      }
    }
    return NoMarkerLine;
  }

  // ---------------------------------------------------------------------
  // get_ffprobe_data
  // ---------------------------------------------------------------------

  /** `get_ffprobe_data` on the text ffprobe printed: that text, stripped. */
  function FfprobeDate(stdout: string): string
  {
    Strip(stdout)
  }
}
