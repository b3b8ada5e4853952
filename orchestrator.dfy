/** `process_files`: for each file found by the walk, the fallback chain that
    dates it, the device directory and unique name it is given, and the move;
    and the pruning of the sub-directories the walk descends into.

    The tools, the file system and the walk are inputs: what each tool
    printed or raised for a file and whether `os.makedirs` or `shutil.move`
    fail form a `Probe`, and the file system is a listing of the names present
    in each directory. */
module Orchestrator {
  import opened Wrappers
  import opened Text
  import opened Providers
  import opened Dates
  import opened Naming

  // ---------------------------------------------------------------------
  // What the program is told and what it decides
  // ---------------------------------------------------------------------

  /** The class of an exception, as far as the `except` clauses tell them apart. */
  datatype ErrorKind = ValueErrorRaised | OtherErrorRaised

  /** One tool call: the text it printed, or the exception it raised. */
  datatype ToolRun = Printed(stdout: string) | Raised(error: ErrorKind)

  /** Everything about one file that comes from outside the program. */
  datatype Probe = Probe(
    exiftool: ToolRun,
    mdls: ToolRun,
    ffprobe: ToolRun,
    makedirsFails: bool,
    moveFails: bool)

  datatype FailReason =
    | ExifUnavailable      // the `except` around `get_exif_data`
    | DateProcessingError  // the generic `except` around the date chain
    | MoveError            // the `except` around naming and moving

  /** What happens to one file. */
  datatype Outcome =
    | Moved(dir: string, name: string)
    | AlreadyInPlace
    | SkippedNoMetadata
    | SkippedBadDate
    | Failed(reason: FailReason)

  /** Where the date chain ends: with a date, or with the file's outcome. */
  datatype DateStep = Dated(when: DateTime) | Stopped(outcome: Outcome)

  const DATE_KEY := "Date/Time Original"

  // ---------------------------------------------------------------------
  // The date chain
  // ---------------------------------------------------------------------

  /** `parse_date(text)`, whose `ValueError` skips the file. */
  function ParseStep(text: string): (step: DateStep)
    ensures step.Dated? ==> ValidDateTime(step.when)
  {
    match ParsedDate(text)
    case Some(d) => Dated(d)
    case None => Stopped(SkippedBadDate)
  }

  /** The clause an exception from mdls or ffprobe lands in: `except
      ValueError` skips the file, `except Exception` reports an error. */
  function RaisedOutcome(e: ErrorKind): Outcome
  {
    if e == ValueErrorRaised then SkippedBadDate else Failed(DateProcessingError)
  }

  /** The ffprobe step: its stripped output is parsed when it is not empty. */
  function FfprobeStep(ffprobe: ToolRun): DateStep
  {
    match ffprobe
    case Raised(e) => Stopped(RaisedOutcome(e))
    case Printed(out) =>
      if FfprobeDate(out) != [] then ParseStep(FfprobeDate(out)) else Stopped(SkippedNoMetadata)
  }

  /** The mdls step: a non-empty creation date is parsed; no date, or an
      empty one, passes on to ffprobe; a marker line without '=' makes
      `get_creation_date` raise `ValueError`. */
  function MdlsStep(mdls: ToolRun, ffprobe: ToolRun): DateStep
  {
    match mdls
    case Raised(e) => Stopped(RaisedOutcome(e))
    case Printed(out) =>
      match CreationDateOf(SplitLines(out))
      case MarkerWithoutEquals => Stopped(SkippedBadDate)
      case MarkerValue(v) => if v != [] then ParseStep(v) else FfprobeStep(ffprobe)
      case NoMarkerLine => FfprobeStep(ffprobe)
  }

  /** The whole chain: EXIF `Date/Time Original` when present, else mdls,
      else ffprobe. */
  function DateFor(exif: map<string, string>, mdls: ToolRun, ffprobe: ToolRun): (step: DateStep)
    ensures step.Dated? ==> ValidDateTime(step.when)
  {
    if DATE_KEY in exif then ParseStep(exif[DATE_KEY]) else MdlsStep(mdls, ffprobe)
  }

  /** A `Date/Time Original` entry is the only source consulted: its value is
      parsed and neither mdls nor ffprobe matter, even when it fails to parse. */
  lemma ExifDateDecides(exif: map<string, string>, mdls: ToolRun, ffprobe: ToolRun, mdls': ToolRun, ffprobe': ToolRun)
    requires DATE_KEY in exif
    ensures DateFor(exif, mdls, ffprobe) == DateFor(exif, mdls', ffprobe')
    ensures DateFor(exif, mdls, ffprobe).Dated? <==> ParsedDate(exif[DATE_KEY]).Some?
    ensures DateFor(exif, mdls, ffprobe).Dated? ==> DateFor(exif, mdls, ffprobe).when == ParsedDate(exif[DATE_KEY]).value
    ensures DateFor(exif, mdls, ffprobe).Stopped? ==> DateFor(exif, mdls, ffprobe).outcome == SkippedBadDate
  {
  }

  /** Without that entry, a non-empty creation date from mdls is parsed and
      ffprobe, whatever it would say, is not consulted. */
  lemma CreationDateBeforeFfprobe(exif: map<string, string>, out: string, v: string, ffprobe: ToolRun, ffprobe': ToolRun)
    requires DATE_KEY !in exif
    requires CreationDateOf(SplitLines(out)) == MarkerValue(v) && v != []
    ensures DateFor(exif, Printed(out), ffprobe) == DateFor(exif, Printed(out), ffprobe')
    ensures DateFor(exif, Printed(out), ffprobe).Dated? <==> ParsedDate(v).Some?
    ensures DateFor(exif, Printed(out), ffprobe).Dated? ==> DateFor(exif, Printed(out), ffprobe).when == ParsedDate(v).value
    ensures DateFor(exif, Printed(out), ffprobe).Stopped? ==> DateFor(exif, Printed(out), ffprobe).outcome == SkippedBadDate
  {
  }

  /** Without that entry, a creation-date line with no '=' makes the
      unpacking in `get_creation_date` raise `ValueError`: the file is skipped
      for a bad date and ffprobe, whatever it would say, is not consulted. */
  lemma MarkerWithoutEqualsSkips(exif: map<string, string>, out: string, ffprobe: ToolRun)
    requires DATE_KEY !in exif
    requires CreationDateOf(SplitLines(out)) == MarkerWithoutEquals
    ensures DateFor(exif, Printed(out), ffprobe) == Stopped(SkippedBadDate)
  {
  }

  /** ffprobe's output is parsed only when neither earlier source gave a
      date: no `Date/Time Original` entry and no non-empty creation date. */
  lemma FfprobeLast(exif: map<string, string>, out: string, text: string)
    requires DATE_KEY !in exif
    requires CreationDateOf(SplitLines(out)) == NoMarkerLine || CreationDateOf(SplitLines(out)) == MarkerValue([])
    ensures var step := DateFor(exif, Printed(out), Printed(text));
      && (step.Dated? <==> FfprobeDate(text) != [] && ParsedDate(FfprobeDate(text)).Some?)
      && (step.Dated? ==> step.when == ParsedDate(FfprobeDate(text)).value)
      && (step.Stopped? ==> step.outcome == (if FfprobeDate(text) == [] then SkippedNoMetadata else SkippedBadDate))
  {
  }

  /** A file is skipped for want of metadata exactly when no source has a
      date string: no entry, mdls printed no (or an empty) creation date, and
      ffprobe printed only whitespace. */
  lemma NoMetadataExactly(exif: map<string, string>, mdls: ToolRun, ffprobe: ToolRun)
    ensures DateFor(exif, mdls, ffprobe) == Stopped(SkippedNoMetadata) <==>
      && DATE_KEY !in exif
      && mdls.Printed?
      && CreationDateOf(SplitLines(mdls.stdout)) in {NoMarkerLine, MarkerValue([])}
      && ffprobe.Printed?
      && FfprobeDate(ffprobe.stdout) == []
  {
  }

  /** An exception from mdls or ffprobe ends the chain: the file is skipped
      (a `ValueError`) or reported (anything else), and no later source is
      tried. */
  lemma ProviderErrorsStop(exif: map<string, string>, e: ErrorKind, ffprobe: ToolRun, out: string)
    requires DATE_KEY !in exif
    ensures DateFor(exif, Raised(e), ffprobe) == Stopped(RaisedOutcome(e))
    ensures CreationDateOf(SplitLines(out)) in {NoMarkerLine, MarkerValue([])} ==>
      DateFor(exif, Printed(out), Raised(e)) == Stopped(RaisedOutcome(e))
    ensures RaisedOutcome(e) == SkippedBadDate <==> e == ValueErrorRaised
  {
  }

  // ---------------------------------------------------------------------
  // The file system as the program sees it
  // ---------------------------------------------------------------------

  /** For each directory path, the names of the entries in it. */
  type Listing = map<string, set<string>>

  /** The names in `dir`; `os.path.exists(os.path.join(dir, n))` is
      `n in Names(fs, dir)`. */
  function Names(fs: Listing, dir: string): set<string>
  {
    if dir in fs then fs[dir] else {}
  }

  /** `os.makedirs(dir, exist_ok=True)`: an absent directory appears, empty. */
  function WithDir(fs: Listing, dir: string): Listing
  {
    if dir in fs then fs else fs[dir := {}]
  }

  /** `shutil.move` of `fromDir/name` to `toDir/newName`. */
  function WithMove(fs: Listing, fromDir: string, name: string, toDir: string, newName: string): Listing
  {
    var removed := fs[fromDir := Names(fs, fromDir) - {name}];
    removed[toDir := Names(removed, toDir) + {newName}]
  }

  /** A file's outcome and the listing after it. */
  datatype FileResult = FileResult(outcome: Outcome, after: Listing)

  // ---------------------------------------------------------------------
  // One file
  // ---------------------------------------------------------------------

  /** The naming and moving block for a file with a date: device directory,
      base name, lowered extension, `makedirs`, the unique name, the "already
      satisfies" test and the move. */
  function Placement(directory: string, root: string, file: string, exif: map<string, string>,
                     when: DateTime, probe: Probe, fs: Listing): FileResult
    requires ValidDateTime(when)
  {
    var base := BaseName(when);
    var ext := LowerAscii(SplitExt(Join(root, file)));
    var modelDir := Join(directory, DeviceLabel(exif));
    if probe.makedirsFails then FileResult(Failed(MoveError), fs)
    else
      var made := WithDir(fs, modelDir);
      var name := Candidate(base, LeastFreeSuffix(Names(made, modelDir), base, ext), ext);
      if root == modelDir && file == name then FileResult(AlreadyInPlace, made)
      else if probe.moveFails || file !in Names(made, root) then FileResult(Failed(MoveError), made)
      else FileResult(Moved(modelDir, name), WithMove(made, root, file, modelDir, name))
  }

  /** The exiftool output as the dictionary `get_exif_data` builds. */
  function ExifOf(out: string): map<string, string>
  {
    ExifMap(SplitLines(out))
  }

  /** The body of the loop over `files` for the file `root/file`. */
  function FileOutcome(directory: string, root: string, file: string, probe: Probe, fs: Listing): FileResult
  {
    match probe.exiftool
    case Raised(_) => FileResult(Failed(ExifUnavailable), fs)
    case Printed(out) =>
      var exif := ExifOf(out);
      match DateFor(exif, probe.mdls, probe.ffprobe)
      case Stopped(o) => FileResult(o, fs)
      case Dated(when) => Placement(directory, root, file, exif, when, probe, fs)
  }

  /** The "already satisfies" branch cannot be taken for a file that is where
      the walk found it: when its directory is the device directory, its own
      name is among the names `create_unique_filename` rules out. */
  lemma PlacementNeverInPlace(directory: string, root: string, file: string, exif: map<string, string>,
                              when: DateTime, probe: Probe, fs: Listing)
    requires ValidDateTime(when)
    requires file in Names(fs, root)
    ensures Placement(directory, root, file, exif, when, probe, fs).outcome != AlreadyInPlace
  {
    var base := BaseName(when);
    var ext := LowerAscii(SplitExt(Join(root, file)));
    var modelDir := Join(directory, DeviceLabel(exif));
    var made := WithDir(fs, modelDir);
    LeastFreeSuffixSpec(Names(made, modelDir), base, ext);
  }

  /** The same for the whole loop body. */
  lemma AlreadyInPlaceUnreachable(directory: string, root: string, file: string, probe: Probe, fs: Listing)
    requires file in Names(fs, root)
    ensures FileOutcome(directory, root, file, probe, fs).outcome != AlreadyInPlace
  {
    if probe.exiftool.Printed? {
      var exif := ExifOf(probe.exiftool.stdout);
      var step := DateFor(exif, probe.mdls, probe.ffprobe);
      if step.Dated? {
        PlacementNeverInPlace(directory, root, file, exif, step.when, probe, fs);
      }
    }
  }

  /** A moved file goes to `directory/<Camera Model Name>` (or `Unknown
      Device`) under a name that was free there, that starts with the base
      name of its date and that ends in its lowered extension: the candidate
      with the least suffix free in that directory. */
  lemma PlacementName(directory: string, root: string, file: string, exif: map<string, string>,
                      when: DateTime, probe: Probe, fs: Listing)
    requires ValidDateTime(when)
    requires '/' !in file
    requires Placement(directory, root, file, exif, when, probe, fs).outcome.Moved?
    ensures var o := Placement(directory, root, file, exif, when, probe, fs).outcome;
      && o.dir == Join(directory, DeviceLabel(exif))
      && o.name !in Names(fs, o.dir)
      && BaseName(when) <= o.name
      && SplitExt(o.name) == LowerAscii(SplitExt(file))
      && o.name == Candidate(BaseName(when), LeastFreeSuffix(Names(fs, o.dir), BaseName(when), LowerAscii(SplitExt(file))),
                             LowerAscii(SplitExt(file)))
  {
    var base := BaseName(when);
    var ext := LowerAscii(SplitExt(Join(root, file)));
    var modelDir := Join(directory, DeviceLabel(exif));
    var made := WithDir(fs, modelDir);
    assert Names(made, modelDir) == Names(fs, modelDir);
    var name := Candidate(base, LeastFreeSuffix(Names(fs, modelDir), base, ext), ext);
    assert Placement(directory, root, file, exif, when, probe, fs).outcome == Moved(modelDir, name);
    ExtOfJoin(root, file);
    SplitExtShape(file);
    LowerExtension(SplitExt(file));
    BaseNameIsStem(when);
    ChosenName(Names(fs, modelDir), base, ext);
  }

  /** The name `create_unique_filename` returns is free, starts with the base
      name and ends in the extension. */
  lemma ChosenName(taken: set<string>, base: string, ext: string)
    requires base != [] && '.' !in base && '/' !in base
    requires IsExtension(ext)
    ensures var name := Candidate(base, LeastFreeSuffix(taken, base, ext), ext);
      name !in taken && base <= name && SplitExt(name) == ext
  {
    var k := LeastFreeSuffix(taken, base, ext);
    LeastFreeSuffixSpec(taken, base, ext);
    CandidateExt(base, k, ext);
  }

  /** The same for the whole loop body. */
  lemma MovedName(directory: string, root: string, file: string, probe: Probe, fs: Listing)
    requires '/' !in file
    requires FileOutcome(directory, root, file, probe, fs).outcome.Moved?
    ensures probe.exiftool.Printed?
    ensures var exif := ExifOf(probe.exiftool.stdout);
      var step := DateFor(exif, probe.mdls, probe.ffprobe);
      var o := FileOutcome(directory, root, file, probe, fs).outcome;
      && step.Dated?
      && o.dir == Join(directory, DeviceLabel(exif))
      && o.name !in Names(fs, o.dir)
      && BaseName(step.when) <= o.name
      && SplitExt(o.name) == LowerAscii(SplitExt(file))
      && o.name == Candidate(BaseName(step.when),
                             LeastFreeSuffix(Names(fs, o.dir), BaseName(step.when), LowerAscii(SplitExt(file))),
                             LowerAscii(SplitExt(file)))
  {
    var exif := ExifOf(probe.exiftool.stdout);
    var step := DateFor(exif, probe.mdls, probe.ffprobe);
    PlacementName(directory, root, file, exif, step.when, probe, fs);
  }

  /** `exif_data.get('Camera Model Name', 'Unknown Device')` in terms of
      exiftool's lines: `Unknown Device` when no line sets the key, and
      otherwise the value of the last line that does. */
  lemma {:induction false} DeviceLabelOfLines(lines: seq<string>)
    ensures (forall i :: 0 <= i < |lines| ==> !IsEntryFor(lines[i], MODEL_KEY)) ==>
      DeviceLabel(ExifMap(lines)) == UNKNOWN_DEVICE
    ensures forall i :: LastEntryFor(lines, MODEL_KEY, i) ==> DeviceLabel(ExifMap(lines)) == EntryValue(lines[i])
  {
    ExifMapHasKey(lines, MODEL_KEY);
    if MODEL_KEY in ExifMap(lines) {
      ExifMapValue(lines, MODEL_KEY);
      var i :| LastEntryFor(lines, MODEL_KEY, i) && ExifMap(lines)[MODEL_KEY] == EntryValue(lines[i]);
      assert forall j :: LastEntryFor(lines, MODEL_KEY, j) ==> j == i;
    }
  }

  /** The device directory of a moved file, in terms of exiftool's output:
      with no `Camera Model Name` line the file goes under `Unknown Device`,
      and otherwise under the value of the last such line. */
  lemma DeviceDirectory(directory: string, root: string, file: string, probe: Probe, fs: Listing)
    requires '/' !in file
    requires FileOutcome(directory, root, file, probe, fs).outcome.Moved?
    ensures probe.exiftool.Printed?
    ensures var lines := SplitLines(probe.exiftool.stdout);
      var o := FileOutcome(directory, root, file, probe, fs).outcome;
      && ((forall i :: 0 <= i < |lines| ==> !IsEntryFor(lines[i], MODEL_KEY)) ==> o.dir == Join(directory, UNKNOWN_DEVICE))
      && (forall i :: LastEntryFor(lines, MODEL_KEY, i) ==> o.dir == Join(directory, EntryValue(lines[i])))
  {
    var lines := SplitLines(probe.exiftool.stdout);
    MovedDir(directory, root, file, probe, fs);
    DeviceLabelOfLines(lines);
  }

  /** A moved file goes under `directory` joined with the device label. */
  lemma MovedDir(directory: string, root: string, file: string, probe: Probe, fs: Listing)
    requires FileOutcome(directory, root, file, probe, fs).outcome.Moved?
    ensures probe.exiftool.Printed?
    ensures FileOutcome(directory, root, file, probe, fs).outcome.dir
      == Join(directory, DeviceLabel(ExifMap(SplitLines(probe.exiftool.stdout))))
  {
    if probe.exiftool.Printed? {
      var exif := ExifOf(probe.exiftool.stdout);
      var step := DateFor(exif, probe.mdls, probe.ffprobe);
      if step.Dated? {
        DatedOutcome(directory, root, file, probe, fs, step.when);
      }
    }
  }

  /** The name tried with suffix `k` has extension `ext`, and no '/'. */
  lemma CandidateExt(base: string, k: nat, ext: string)
    requires base != [] && '.' !in base && '/' !in base
    requires IsExtension(ext)
    ensures SplitExt(Candidate(base, k, ext)) == ext
    ensures '/' !in Candidate(base, k, ext)
  {
    if k == 0 {
      ExtOfStem(base, ext);
    } else {
      var stem := base + "-" + NatToString(k);
      assert forall i :: 0 <= i < |NatToString(k)| ==> IsDigit(NatToString(k)[i]);
      assert Candidate(base, k, ext) == stem + ext;
      ExtOfStem(stem, ext);
    }
  }

  /** `listing` differs from `fs` by the outcome `o` of handling `root/file`
      alone: a move takes the file out of `root` and puts its new name in
      the target; any other outcome leaves every directory's names as they
      were. */
  ghost predicate ChangedOnlyBy(fs: Listing, listing: Listing, root: string, file: string, o: Outcome)
  {
    if o.Moved? then
      forall dir :: Names(listing, dir) == Moving(Names(fs, dir), dir, root, file, o.dir, o.name)
    else
      forall dir :: Names(listing, dir) == Names(fs, dir)
  }

  /** The names of `dir` after `fromDir/name` moved to `toDir/newName`. */
  function Moving(names: set<string>, dir: string, fromDir: string, name: string, toDir: string, newName: string): set<string>
  {
    (names - (if dir == fromDir then {name} else {})) + (if dir == toDir then {newName} else {})
  }

  lemma WithDirNames(fs: Listing, d: string)
    ensures forall dir :: Names(WithDir(fs, d), dir) == Names(fs, dir)
  {
  }

  lemma WithMoveNames(fs: Listing, fromDir: string, name: string, toDir: string, newName: string)
    ensures var after := WithMove(fs, fromDir, name, toDir, newName);
      forall dir :: Names(after, dir) == Moving(Names(fs, dir), dir, fromDir, name, toDir, newName)
  {
  }

  /** Placing a file changes the listing by that one move and nothing else. */
  lemma PlacementChanges(directory: string, root: string, file: string, exif: map<string, string>,
                         when: DateTime, probe: Probe, fs: Listing)
    requires ValidDateTime(when)
    ensures var r := Placement(directory, root, file, exif, when, probe, fs);
      ChangedOnlyBy(fs, r.after, root, file, r.outcome)
  {
    var r := Placement(directory, root, file, exif, when, probe, fs);
    if !probe.makedirsFails {
      var base := BaseName(when);
      var ext := LowerAscii(SplitExt(Join(root, file)));
      var modelDir := Join(directory, DeviceLabel(exif));
      var made := WithDir(fs, modelDir);
      var name := Candidate(base, LeastFreeSuffix(Names(made, modelDir), base, ext), ext);
      WithDirNames(fs, modelDir);
      if r.outcome.Moved? {
        assert r.after == WithMove(made, root, file, modelDir, name);
        WithMoveNames(made, root, file, modelDir, name);
      } else {
        assert r.after == made;
      }
    }
  }

  /** Handling a file changes the listing by that one move and nothing else. */
  lemma FileOutcomeChanges(directory: string, root: string, file: string, probe: Probe, fs: Listing)
    ensures var r := FileOutcome(directory, root, file, probe, fs);
      ChangedOnlyBy(fs, r.after, root, file, r.outcome)
  {
    if probe.exiftool.Printed? {
      var exif := ExifOf(probe.exiftool.stdout);
      var step := DateFor(exif, probe.mdls, probe.ffprobe);
      if step.Dated? {
        PlacementChanges(directory, root, file, exif, step.when, probe, fs);
      }
    }
  }

  // ---------------------------------------------------------------------
  // The intended "already satisfies" test
  // ---------------------------------------------------------------------

  /** The placement with the test the comment at the "already satisfies"
      branch describes: the file's own name does not count as taken when the
      file is already in the device directory. */
  function IntendedPlacement(directory: string, root: string, file: string, exif: map<string, string>,
                             when: DateTime, probe: Probe, fs: Listing): FileResult
    requires ValidDateTime(when)
  {
    var base := BaseName(when);
    var ext := LowerAscii(SplitExt(Join(root, file)));
    var modelDir := Join(directory, DeviceLabel(exif));
    if probe.makedirsFails then FileResult(Failed(MoveError), fs)
    else
      var made := WithDir(fs, modelDir);
      var taken := if root == modelDir then Names(made, modelDir) - {file} else Names(made, modelDir);
      var name := Candidate(base, LeastFreeSuffix(taken, base, ext), ext);
      if root == modelDir && file == name then FileResult(AlreadyInPlace, made)
      else if probe.moveFails || file !in Names(made, root) then FileResult(Failed(MoveError), made)
      else FileResult(Moved(modelDir, name), WithMove(made, root, file, modelDir, name))
  }

  /** With that test, placing a file that has just been placed does nothing:
      it is found already in place and the listing stays as it is. */
  lemma IntendedPlacementIdempotent(directory: string, root: string, file: string, exif: map<string, string>,
                                    when: DateTime, probe: Probe, fs: Listing)
    requires ValidDateTime(when)
    requires '/' !in file
    requires IntendedPlacement(directory, root, file, exif, when, probe, fs).outcome.Moved?
    ensures var r := IntendedPlacement(directory, root, file, exif, when, probe, fs);
      IntendedPlacement(directory, r.outcome.dir, r.outcome.name, exif, when, probe, r.after)
        == FileResult(AlreadyInPlace, r.after)
  {
    var base := BaseName(when);
    var ext := LowerAscii(SplitExt(Join(root, file)));
    var modelDir := Join(directory, DeviceLabel(exif));
    var made := WithDir(fs, modelDir);
    var taken := if root == modelDir then Names(made, modelDir) - {file} else Names(made, modelDir);
    var k := LeastFreeSuffix(taken, base, ext);
    var name := Candidate(base, k, ext);
    var after := WithMove(made, root, file, modelDir, name);
    LeastFreeSuffixSpec(taken, base, ext);
    PlacedNameKeepsExt(root, file, when, k, modelDir);
    MovedInto(made, root, file, modelDir, name, taken);
  }

  /** The name a file is given carries the lowered extension the file had,
      so that handling it again, from any directory, finds the same one. */
  lemma PlacedNameKeepsExt(root: string, file: string, when: DateTime, k: nat, dir: string)
    requires ValidDateTime(when)
    requires '/' !in file
    ensures var ext := LowerAscii(SplitExt(Join(root, file)));
      LowerAscii(SplitExt(Join(dir, Candidate(BaseName(when), k, ext)))) == ext
  {
    var base := BaseName(when);
    var ext := LowerAscii(SplitExt(Join(root, file)));
    ExtOfJoin(root, file);
    SplitExtShape(file);
    LowerExtension(SplitExt(file));
    BaseNameIsStem(when);
    CandidateExt(base, k, ext);
    ExtOfJoin(dir, Candidate(base, k, ext));
    LowerAsciiIdempotent(SplitExt(file));
  }

  /** After `fromDir/file` moved to `toDir/name`, the target holds exactly
      the names `taken` counted for it (its names, less the file's own when
      it moved within `toDir`) and `name`. */
  lemma MovedInto(made: Listing, fromDir: string, file: string, toDir: string, name: string, taken: set<string>)
    requires toDir in made
    requires taken == if fromDir == toDir then Names(made, toDir) - {file} else Names(made, toDir)
    requires name !in taken
    ensures var after := WithMove(made, fromDir, file, toDir, name);
      WithDir(after, toDir) == after && Names(after, toDir) == taken + {name}
  {
  }

  /** Where the file is not in its device directory the two tests agree. */
  lemma IntendedDiffersOnlyInPlace(directory: string, root: string, file: string, exif: map<string, string>,
                                   when: DateTime, probe: Probe, fs: Listing)
    requires ValidDateTime(when)
    requires root != Join(directory, DeviceLabel(exif))
    ensures IntendedPlacement(directory, root, file, exif, when, probe, fs)
         == Placement(directory, root, file, exif, when, probe, fs)
  {
  }

  /** As written, a file named with suffix `j` and alone in its device
      directory is moved, within that directory, to the name with the least
      suffix free once its own name counts as taken. */
  lemma SoleFileMoves(directory: string, exif: map<string, string>, when: DateTime,
                      ext: string, probe: Probe, fs: Listing, j: nat)
    requires ValidDateTime(when)
    requires IsExtension(ext) && LowerAscii(ext) == ext
    requires !probe.makedirsFails && !probe.moveFails
    requires Names(fs, Join(directory, DeviceLabel(exif))) == {Candidate(BaseName(when), j, ext)}
    ensures var modelDir := Join(directory, DeviceLabel(exif));
      var base := BaseName(when);
      var c := Candidate(base, j, ext);
      var k := LeastFreeSuffix({c}, base, ext);
      var r := Placement(directory, modelDir, c, exif, when, probe, fs);
      && r.outcome == Moved(modelDir, Candidate(base, k, ext))
      && Names(r.after, modelDir) == {Candidate(base, k, ext)}
  {
    var modelDir := Join(directory, DeviceLabel(exif));
    var base := BaseName(when);
    var c := Candidate(base, j, ext);
    BaseNameIsStem(when);
    CandidateExt(base, j, ext);
    ExtOfJoin(modelDir, c);
    assert LowerAscii(SplitExt(Join(modelDir, c))) == ext;
    assert Names(WithDir(fs, modelDir), modelDir) == {c};
    LeastFreeSuffixSpec({c}, base, ext);
  }

  /** As written, a file already at its place `base+ext` in its device
      directory, alone there, is moved to `base-1+ext`; handled again it goes
      back to `base+ext`, and so on: every run moves it. */
  lemma AsWrittenFlipFlop(directory: string, exif: map<string, string>, when: DateTime,
                          ext: string, probe: Probe, fs: Listing)
    requires ValidDateTime(when)
    requires IsExtension(ext) && LowerAscii(ext) == ext
    requires !probe.makedirsFails && !probe.moveFails
    requires Names(fs, Join(directory, DeviceLabel(exif))) == {BaseName(when) + ext}
    ensures var modelDir := Join(directory, DeviceLabel(exif));
      var base := BaseName(when);
      var first := Placement(directory, modelDir, base + ext, exif, when, probe, fs);
      var second := Placement(directory, modelDir, base + "-1" + ext, exif, when, probe, first.after);
      && first.outcome == Moved(modelDir, base + "-1" + ext)
      && Names(first.after, modelDir) == {base + "-1" + ext}
      && second.outcome == Moved(modelDir, base + ext)
      && Names(second.after, modelDir) == {base + ext}
  {
    var modelDir := Join(directory, DeviceLabel(exif));
    var base := BaseName(when);
    assert NatToString(1) == "1";
    var c0 := Candidate(base, 0, ext);
    var c1 := Candidate(base, 1, ext);
    assert c0 == base + ext;
    assert c1 == base + "-1" + ext;
    assert c0 != c1 by {
      assert |c0| != |c1|;
    }
    LeastFreeSuffixIsLeast({c0}, base, ext, 1);
    SoleFileMoves(directory, exif, when, ext, probe, fs, 0);
    var first := Placement(directory, modelDir, c0, exif, when, probe, fs);
    LeastFreeSuffixIsLeast({c1}, base, ext, 0);
    SoleFileMoves(directory, exif, when, ext, probe, first.after, 1);
  }

  // ---------------------------------------------------------------------
  // The imperative program
  // ---------------------------------------------------------------------

  /** The directory tree, as far as existence checks, `makedirs` and `move`
      see it. */
  class FileTree {
    var listing: Listing

    constructor (listing: Listing)
      ensures this.listing == listing
    {
      this.listing := listing;
    }

    /** The names in `dir`. */
    function Entries(dir: string): set<string>
      reads this
    {
      Names(listing, dir)
    }

    /** `os.makedirs(dir, exist_ok=True)`. */
    method MakeDirs(dir: string)
      modifies this
      ensures listing == WithDir(old(listing), dir)
    {
      if dir !in listing {
        listing := listing[dir := {}];
      }
    }

    /** `shutil.move(os.path.join(fromDir, name), os.path.join(toDir, newName))`. */
    method Move(fromDir: string, name: string, toDir: string, newName: string)
      modifies this
      ensures listing == WithMove(old(listing), fromDir, name, toDir, newName)
    {
      listing := listing[fromDir := Entries(fromDir) - {name}];
      listing := listing[toDir := Entries(toDir) + {newName}];
    }
  }

  /** The part of the loop body that finds the file's date: the exiftool
      entry, else mdls's creation date, else ffprobe's creation time. */
  method DateChain(exif: map<string, string>, mdls: ToolRun, ffprobe: ToolRun) returns (step: DateStep)
    ensures step == DateFor(exif, mdls, ffprobe)
  {
    var parsed: Option<DateTime>;
    if DATE_KEY !in exif {
      if mdls.Raised? {
        return Stopped(RaisedOutcome(mdls.error));
      }
      var created := CreationDate(mdls.stdout);
      if created.MarkerWithoutEquals? {
        return Stopped(SkippedBadDate);
      }
      if created.MarkerValue? && created.text != [] {
        parsed := ParseDate(created.text);
      } else {
        if ffprobe.Raised? {
          return Stopped(RaisedOutcome(ffprobe.error));
        }
        var ffprobeDate := FfprobeDate(ffprobe.stdout);
        if ffprobeDate == [] {
          return Stopped(SkippedNoMetadata);
        }
        parsed := ParseDate(ffprobeDate);
      }
    } else {
      parsed := ParseDate(exif[DATE_KEY]);
    }
    if parsed.None? {
      return Stopped(SkippedBadDate);
    }
    return Dated(parsed.value);
  }

  /** The body of the loop over `files`: one file handled against the tree. */
  method ProcessFile(directory: string, root: string, file: string, probe: Probe, tree: FileTree)
    returns (outcome: Outcome)
    modifies tree
    ensures outcome == FileOutcome(directory, root, file, probe, old(tree.listing)).outcome
    ensures tree.listing == FileOutcome(directory, root, file, probe, old(tree.listing)).after
  {
    var filePath := Join(root, file);
    if probe.exiftool.Raised? {
      return Failed(ExifUnavailable);
    }
    var exif := ExifData(probe.exiftool.stdout);
    assert exif == ExifOf(probe.exiftool.stdout);

    var step := DateChain(exif, probe.mdls, probe.ffprobe);
    if step.Stopped? {
      return step.outcome;
    }
    var when := step.when;

    var base := BaseName(when);
    var ext := LowerAscii(SplitExt(filePath));
    var modelDir := Join(directory, DeviceLabel(exif));
    if probe.makedirsFails {
      return Failed(MoveError);
    }
    tree.MakeDirs(modelDir);
    var name := CreateUniqueFilename(tree.Entries(modelDir), base, ext);
    if root == modelDir && file == name {
      return AlreadyInPlace;
    }
    if probe.moveFails || file !in tree.Entries(root) {
      return Failed(MoveError);
    }
    tree.Move(root, file, modelDir, name);
    return Moved(modelDir, name);
  }

  // ---------------------------------------------------------------------
  // One step of the walk
  // ---------------------------------------------------------------------

  const IGNORE_SUBDIRS: seq<string> := ["Unknown"]

  /** `[d for d in dirs if d not in IGNORE_SUBDIRS]`. */
  function Pruned(dirs: seq<string>): seq<string>
  {
    if dirs == [] then []
    else Pruned(dirs[..|dirs| - 1]) + (if dirs[|dirs| - 1] in IGNORE_SUBDIRS then [] else [dirs[|dirs| - 1]])
  }

  /** Pruning keeps each entry not in the ignore list as often as it
      occurred and drops the others. */
  lemma {:induction false} PrunedCounts(dirs: seq<string>)
    ensures forall d :: multiset(Pruned(dirs))[d] == if d in IGNORE_SUBDIRS then 0 else multiset(dirs)[d]
  {
    if dirs != [] {
      var init := dirs[..|dirs| - 1];
      PrunedCounts(init);
      assert dirs == init + [dirs[|dirs| - 1]];
    }
  }

  /** Pruning keeps the order: it works piece by piece. */
  lemma {:induction false} PrunedAppend(a: seq<string>, b: seq<string>)
    ensures Pruned(a + b) == Pruned(a) + Pruned(b)
  {
    if b == [] {
      assert a + b == a;
    } else {
      var init := b[..|b| - 1];
      assert (a + b)[..|a + b| - 1] == a + init;
      PrunedAppend(a, init);
    }
  }

  /** A list with no ignored entry is left as it is. */
  lemma {:induction false} PrunedKeeps(dirs: seq<string>)
    requires forall i :: 0 <= i < |dirs| ==> dirs[i] !in IGNORE_SUBDIRS
    ensures Pruned(dirs) == dirs
  {
    if dirs != [] {
      PrunedKeeps(dirs[..|dirs| - 1]);
    }
  }

  /** Pruning twice is pruning once. */
  lemma PrunedIdempotent(dirs: seq<string>)
    ensures Pruned(Pruned(dirs)) == Pruned(dirs)
  {
    PrunedCounts(dirs);
    var p := Pruned(dirs);
    forall i | 0 <= i < |p| ensures p[i] !in IGNORE_SUBDIRS {
      assert multiset(p)[p[i]] > 0;
    }
    PrunedKeeps(p);
  }

  /** One tuple `(root, dirs, files)` yielded by `os.walk`; `dirs` is the list
      the walk goes on to descend into, which the program narrows in place. */
  class WalkStep {
    const root: string
    var dirs: seq<string>
    const files: seq<string>

    constructor (root: string, dirs: seq<string>, files: seq<string>)
      ensures this.root == root && this.dirs == dirs && this.files == files
    {
      this.root := root;
      this.dirs := dirs;
      this.files := files;
    }

    /** `dirs[:] = [d for d in dirs if d not in IGNORE_SUBDIRS]`. */
    method PruneIgnored()
      modifies this
      ensures dirs == Pruned(old(dirs))
    {
      var kept: seq<string> := [];
      for i := 0 to |dirs|
        invariant kept == Pruned(dirs[..i])
      {
        assert dirs[..i + 1][..i] == dirs[..i];
        if dirs[i] !in IGNORE_SUBDIRS {
          kept := kept + [dirs[i]];
        }
      }
      assert dirs[..|dirs|] == dirs;
      dirs := kept;
    }
  }

  /** The outcomes of the files of one walk step, handled in order, and the
      listing after the last. */
  function WalkFiles(directory: string, root: string, files: seq<string>, probes: seq<Probe>, fs: Listing): (r: (seq<Outcome>, Listing))
    requires |probes| == |files|
    ensures |r.0| == |files|
  {
    if files == [] then ([], fs)
    else
      var first := FileOutcome(directory, root, files[0], probes[0], fs);
      var rest := WalkFiles(directory, root, files[1..], probes[1..], first.after);
      ([first.outcome] + rest.0, rest.1)
  }

  /** No file of a walk step is ever found already in place, whatever the
      tools report: the files are distinct names present in `root`, and each
      stays there until its own turn. */
  lemma {:induction false} NoFileLeftInPlace(directory: string, root: string, files: seq<string>, probes: seq<Probe>, fs: Listing)
    requires |probes| == |files|
    requires forall i, j :: 0 <= i < j < |files| ==> files[i] != files[j]
    requires forall i :: 0 <= i < |files| ==> files[i] in Names(fs, root)
    ensures forall i :: 0 <= i < |files| ==> WalkFiles(directory, root, files, probes, fs).0[i] != AlreadyInPlace
  {
    if files != [] {
      var first := FileOutcome(directory, root, files[0], probes[0], fs);
      AlreadyInPlaceUnreachable(directory, root, files[0], probes[0], fs);
      FileOutcomeChanges(directory, root, files[0], probes[0], fs);
      var rest := files[1..];
      forall i | 0 <= i < |rest| ensures rest[i] in Names(first.after, root) {
        assert rest[i] == files[i + 1];
      }
      NoFileLeftInPlace(directory, root, rest, probes[1..], first.after);
      var outs := WalkFiles(directory, root, files, probes, fs).0;
      forall i | 0 <= i < |files| ensures outs[i] != AlreadyInPlace {
        if i > 0 {
          assert outs[i] == WalkFiles(directory, root, rest, probes[1..], first.after).0[i - 1];
        }
      }
    }
  }

  /** A file of `root`, with a date, moved to a device directory other than
      `root`: it lands under the least free candidate, the device directory
      gains that name, and `root` loses the file. */
  lemma PlacementArrival(directory: string, root: string, file: string, exif: map<string, string>,
                         when: DateTime, probe: Probe, fs: Listing, ext: string)
    requires ValidDateTime(when)
    requires !probe.makedirsFails && !probe.moveFails
    requires file in Names(fs, root)
    requires root != Join(directory, DeviceLabel(exif))
    requires LowerAscii(SplitExt(Join(root, file))) == ext
    ensures var modelDir := Join(directory, DeviceLabel(exif));
      var base := BaseName(when);
      var r := Placement(directory, root, file, exif, when, probe, fs);
      && r.outcome == Moved(modelDir, Candidate(base, LeastFreeSuffix(Names(fs, modelDir), base, ext), ext))
      && Names(r.after, modelDir) == Arrivals(Names(fs, modelDir), base, ext, 1)
      && Names(r.after, root) == Names(fs, root) - {file}
  {
    var modelDir := Join(directory, DeviceLabel(exif));
    var made := WithDir(fs, modelDir);
    WithDirNames(fs, modelDir);
    var name := Candidate(BaseName(when), LeastFreeSuffix(Names(fs, modelDir), BaseName(when), ext), ext);
    assert Placement(directory, root, file, exif, when, probe, fs)
      == FileResult(Moved(modelDir, name), WithMove(made, root, file, modelDir, name));
    WithMoveNames(made, root, file, modelDir, name);
  }

  /** The loop body for one file of that instant: it arrives in the device
      directory under the first free name and leaves `root`. */
  lemma FirstArrival(directory: string, root: string, file: string, probe: Probe, fs: Listing, when: DateTime, ext: string)
    requires probe.exiftool.Printed?
    requires DateFor(ExifOf(probe.exiftool.stdout), probe.mdls, probe.ffprobe) == Dated(when)
    requires !probe.makedirsFails && !probe.moveFails
    requires file in Names(fs, root)
    requires root != Join(directory, DeviceLabel(ExifOf(probe.exiftool.stdout)))
    requires LowerAscii(SplitExt(Join(root, file))) == ext
    ensures var modelDir := Join(directory, DeviceLabel(ExifOf(probe.exiftool.stdout)));
      var r := FileOutcome(directory, root, file, probe, fs);
      && r.outcome == Moved(modelDir, ArrivalName(Names(fs, modelDir), BaseName(when), ext, 0))
      && Names(r.after, modelDir) == Arrivals(Names(fs, modelDir), BaseName(when), ext, 1)
      && Names(r.after, root) == Names(fs, root) - {file}
  {
    DatedOutcome(directory, root, file, probe, fs, when);
    PlacementArrival(directory, root, file, ExifOf(probe.exiftool.stdout), when, probe, fs, ext);
  }

  /** Once exiftool answered and the date chain gave a date, the loop body
      is the naming and moving block. */
  lemma DatedOutcome(directory: string, root: string, file: string, probe: Probe, fs: Listing, when: DateTime)
    requires probe.exiftool.Printed?
    requires DateFor(ExifOf(probe.exiftool.stdout), probe.mdls, probe.ffprobe) == Dated(when)
    ensures ValidDateTime(when)
    ensures FileOutcome(directory, root, file, probe, fs)
      == Placement(directory, root, file, ExifOf(probe.exiftool.stdout), when, probe, fs)
  {
  }

  /** Several files of `root` that share one probe (so one date and one
      device) and one lowered extension, handled in order, land in the
      device directory as `Arrivals` describes: the i-th under the least
      candidate free after the first i. */
  lemma {:induction false} SameInstantFill(directory: string, root: string, files: seq<string>, probes: seq<Probe>,
                                           fs: Listing, probe: Probe, when: DateTime, ext: string)
    requires |probes| == |files|
    requires forall i :: 0 <= i < |probes| ==> probes[i] == probe
    requires forall i, j :: 0 <= i < j < |files| ==> files[i] != files[j]
    requires forall i :: 0 <= i < |files| ==> files[i] in Names(fs, root)
    requires forall i :: 0 <= i < |files| ==> LowerAscii(SplitExt(Join(root, files[i]))) == ext
    requires probe.exiftool.Printed?
    requires DateFor(ExifOf(probe.exiftool.stdout), probe.mdls, probe.ffprobe) == Dated(when)
    requires !probe.makedirsFails && !probe.moveFails
    requires root != Join(directory, DeviceLabel(ExifOf(probe.exiftool.stdout)))
    ensures var modelDir := Join(directory, DeviceLabel(ExifOf(probe.exiftool.stdout)));
      var r := WalkFiles(directory, root, files, probes, fs);
      && Names(r.1, modelDir) == Arrivals(Names(fs, modelDir), BaseName(when), ext, |files|)
      && forall i :: 0 <= i < |files| ==> r.0[i] == Moved(modelDir, ArrivalName(Names(fs, modelDir), BaseName(when), ext, i))
  {
    if files != [] {
      var exif := ExifOf(probe.exiftool.stdout);
      var modelDir := Join(directory, DeviceLabel(exif));
      var base := BaseName(when);
      var taken := Names(fs, modelDir);
      var first := FileOutcome(directory, root, files[0], probes[0], fs);
      FirstArrival(directory, root, files[0], probe, fs, when, ext);
      var rest := files[1..];
      forall i | 0 <= i < |rest| ensures rest[i] in Names(first.after, root) {
        assert rest[i] == files[i + 1];
      }
      SameInstantFill(directory, root, rest, probes[1..], first.after, probe, when, ext);
      var r := WalkFiles(directory, root, files, probes, fs);
      var r' := WalkFiles(directory, root, rest, probes[1..], first.after);
      assert r == ([first.outcome] + r'.0, r'.1);
      ArrivalsAfterFirst(taken, base, ext, |rest|);
      ArrivalOutcomes(first.outcome, r'.0, modelDir, base, ext, taken);
    }
  }

  /** Files of one instant and one extension, none of whose names yet
      stands in the device directory, get the suffixes `0, 1, ...` in walk
      order, and the directory gains exactly those names. */
  lemma SameInstantSuffixes(directory: string, root: string, files: seq<string>, probes: seq<Probe>,
                            fs: Listing, probe: Probe, when: DateTime, ext: string)
    requires |probes| == |files|
    requires forall i :: 0 <= i < |probes| ==> probes[i] == probe
    requires forall i, j :: 0 <= i < j < |files| ==> files[i] != files[j]
    requires forall i :: 0 <= i < |files| ==> files[i] in Names(fs, root)
    requires forall i :: 0 <= i < |files| ==> LowerAscii(SplitExt(Join(root, files[i]))) == ext
    requires probe.exiftool.Printed?
    requires DateFor(ExifOf(probe.exiftool.stdout), probe.mdls, probe.ffprobe) == Dated(when)
    requires !probe.makedirsFails && !probe.moveFails
    requires root != Join(directory, DeviceLabel(ExifOf(probe.exiftool.stdout)))
    requires forall k: nat :: Candidate(BaseName(when), k, ext) !in Names(fs, Join(directory, DeviceLabel(ExifOf(probe.exiftool.stdout))))
    ensures var modelDir := Join(directory, DeviceLabel(ExifOf(probe.exiftool.stdout)));
      var r := WalkFiles(directory, root, files, probes, fs);
      && Names(r.1, modelDir) == Names(fs, modelDir) + CandidatesBelow(BaseName(when), ext, |files|)
      && forall i :: 0 <= i < |files| ==> r.0[i] == Moved(modelDir, Candidate(BaseName(when), i, ext))
  {
    var modelDir := Join(directory, DeviceLabel(ExifOf(probe.exiftool.stdout)));
    var taken := Names(fs, modelDir);
    var base := BaseName(when);
    SameInstantFill(directory, root, files, probes, fs, probe, when, ext);
    ArrivalsFillSuffixes(taken, base, ext, |files|);
    forall i | 0 <= i < |files|
      ensures ArrivalName(taken, base, ext, i) == Candidate(base, i, ext)
    {
      ArrivalsFillSuffixes(taken, base, ext, i);
    }
  }

  /** The outcomes of one first arrival followed by those counted from the
      directory it left behind are the outcomes counted from the start. */
  lemma ArrivalOutcomes(first: Outcome, rest: seq<Outcome>, modelDir: string, base: string, ext: string, taken: set<string>)
    requires first == Moved(modelDir, ArrivalName(taken, base, ext, 0))
    requires forall i :: 0 <= i < |rest| ==> rest[i] == Moved(modelDir, ArrivalName(Arrivals(taken, base, ext, 1), base, ext, i))
    ensures forall i :: 0 <= i < |rest| + 1 ==> ([first] + rest)[i] == Moved(modelDir, ArrivalName(taken, base, ext, i))
  {
    forall i | 0 <= i < |rest| + 1
      ensures ([first] + rest)[i] == Moved(modelDir, ArrivalName(taken, base, ext, i))
    {
      if i > 0 {
        assert ([first] + rest)[i] == rest[i - 1];
        ArrivalNameShift(taken, base, ext, i);
      }
    }
  }

  /** The body of the `os.walk` loop: prune the sub-directories, then handle
      the files one after the other, `probes[i]` being what the outside
      world reports for `files[i]`. */
  method ProcessWalkStep(directory: string, step: WalkStep, tree: FileTree, probes: seq<Probe>)
    returns (outcomes: seq<Outcome>)
    requires |probes| == |step.files|
    modifies step, tree
    ensures step.dirs == Pruned(old(step.dirs))
    ensures outcomes == WalkFiles(directory, step.root, step.files, probes, old(tree.listing)).0
    ensures tree.listing == WalkFiles(directory, step.root, step.files, probes, old(tree.listing)).1
  {
    step.PruneIgnored();
    ghost var total := WalkFiles(directory, step.root, step.files, probes, tree.listing);
    outcomes := [];
    for i := 0 to |step.files|
      invariant step.dirs == Pruned(old(step.dirs))
      invariant outcomes + WalkFiles(directory, step.root, step.files[i..], probes[i..], tree.listing).0 == total.0
      invariant WalkFiles(directory, step.root, step.files[i..], probes[i..], tree.listing).1 == total.1
    {
      ghost var before := tree.listing;
      var outcome := ProcessFile(directory, step.root, step.files[i], probes[i], tree);
      assert step.files[i..][1..] == step.files[i + 1..];
      assert probes[i..][1..] == probes[i + 1..];
      outcomes := outcomes + [outcome];
    }
  }
}
