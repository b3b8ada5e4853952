/** Where a dated file goes: `os.path.join` and `os.path.splitext` on the
    paths involved, the `Y<YYYY>-M<MM>-D<DD>_h<HH>-m<MM>-s<SS>_IMG` base name,
    the device directory, and `create_unique_filename`'s search for the first
    free name among `base+ext`, `base-1+ext`, `base-2+ext`, ... */
module Naming {
  import opened Text
  import opened Dates

  // ---------------------------------------------------------------------
  // Paths
  // ---------------------------------------------------------------------

  /** `os.path.join(a, b)` on POSIX: an absolute `b` replaces `a`; otherwise
      a '/' is put between them unless `a` is empty or already ends in one. */
  function Join(a: string, b: string): string
  {
    if |b| > 0 && b[0] == '/' then b
    else if a == [] || a[|a| - 1] == '/' then a + b
    else a + "/" + b
  }

  /** Index of the last `c` in `s`, or -1 (Python's `s.rfind(c)`). */
  function LastIndexOf(s: string, c: char): (i: int)
    ensures -1 <= i < |s|
    ensures i >= 0 ==> s[i] == c
    ensures forall j :: i < j < |s| ==> s[j] != c
  {
    if s == [] then -1
    else if s[|s| - 1] == c then |s| - 1
    else LastIndexOf(s[..|s| - 1], c)
  }

  /** `os.path.splitext(path)[1]`: from the last '.' of the last path
      component on, provided something other than dots comes before that '.'
      in the component (so ".profile" has no extension); otherwise "". */
  function SplitExt(path: string): string
  {
    var sep := LastIndexOf(path, '/');
    var dot := LastIndexOf(path, '.');
    if dot > sep && NonDotBetween(path, sep, dot) then path[dot..] else ""
  }

  /** Some character strictly between positions `lo` and `hi` of `s` is not a '.'. */
  predicate NonDotBetween(s: string, lo: int, hi: int)
  {
    exists i :: lo < i < hi && 0 <= i < |s| && s[i] != '.'
  }

  /** What `splitext` can return: nothing, or a '.' followed by characters
      that are neither '.' nor '/'. */
  predicate IsExtension(ext: string)
  {
    ext == [] || (ext[0] == '.' && forall i :: 0 < i < |ext| ==> ext[i] != '.' && ext[i] != '/')
  }

  lemma SplitExtShape(path: string)
    ensures IsExtension(SplitExt(path))
    ensures |SplitExt(path)| <= |path| && SplitExt(path) == path[|path| - |SplitExt(path)|..]
  {
  }

  lemma {:induction false} LastIndexOfConcat(a: string, b: string, c: char)
    ensures LastIndexOf(a + b, c) == if c in b then |a| + LastIndexOf(b, c) else LastIndexOf(a, c)
  {
    if b != [] {
      var b' := b[..|b| - 1];
      assert (a + b)[..|a + b| - 1] == a + b';
      LastIndexOfConcat(a, b', c);
      assert b == b' + [b[|b| - 1]];
    } else {
      assert a + b == a;
    }
  }

  /** Prefixing `p` shifts the positions that `NonDotBetween` looks at. */
  lemma NonDotBetweenShift(p: string, s: string, lo: int, hi: int)
    requires -1 <= lo && hi <= |s|
    ensures NonDotBetween(p + s, |p| + lo, |p| + hi) <==> NonDotBetween(s, lo, hi)
  {
    if NonDotBetween(s, lo, hi) {
      var i :| lo < i < hi && 0 <= i < |s| && s[i] != '.';
      assert (p + s)[|p| + i] == s[i];
    }
    if NonDotBetween(p + s, |p| + lo, |p| + hi) {
      var i :| |p| + lo < i < |p| + hi && 0 <= i < |p + s| && (p + s)[i] != '.';
      assert (p + s)[i] == s[i - |p|];
    }
  }

  /** A directory part ending in '/' does not change the extension of the
      bare name after it. */
  lemma ExtAfterDirectory(p: string, file: string)
    requires p == [] || p[|p| - 1] == '/'
    requires '/' !in file
    ensures SplitExt(p + file) == SplitExt(file)
  {
    var q := p + file;
    LastIndexOfConcat(p, file, '/');
    LastIndexOfConcat(p, file, '.');
    var dotF := LastIndexOf(file, '.');
    assert LastIndexOf(q, '/') == |p| - 1;
    if '.' in file {
      assert LastIndexOf(q, '.') == |p| + dotF;
      NonDotBetweenShift(p, file, -1, dotF);
      assert q[|p| + dotF..] == file[dotF..];
    } else {
      assert LastIndexOf(q, '.') <= |p| - 1;
    }
  }

  /** The extension of `os.path.join(root, file)` is that of `file` when
      `file` is a bare name, as every name in a directory listing is. */
  lemma ExtOfJoin(root: string, file: string)
    requires '/' !in file
    ensures SplitExt(Join(root, file)) == SplitExt(file)
  {
    if root == [] || root[|root| - 1] == '/' {
      ExtAfterDirectory(root, file);
    } else {
      assert Join(root, file) == (root + "/") + file;
      ExtAfterDirectory(root + "/", file);
    }
  }

  /** Lowering an extension leaves an extension. */
  lemma LowerExtension(ext: string)
    requires IsExtension(ext)
    ensures IsExtension(LowerAscii(ext))
  {
  }

  /** The extension found in a name made of a dot-free stem and an extension
      is that extension. */
  lemma ExtOfStem(stem: string, ext: string)
    requires stem != [] && '.' !in stem && '/' !in stem
    requires IsExtension(ext)
    ensures SplitExt(stem + ext) == ext
  {
    var s := stem + ext;
    LastIndexOfConcat(stem, ext, '/');
    LastIndexOfConcat(stem, ext, '.');
    assert '/' !in ext;
    if ext != [] {
      assert '.' in ext && LastIndexOf(ext, '.') == 0;
      assert s[0] == stem[0];
      assert NonDotBetween(s, -1, |stem|);
      assert s[|stem|..] == ext;
    } else {
      assert s == stem;
    }
  }

  // ---------------------------------------------------------------------
  // The base name and the device directory
  // ---------------------------------------------------------------------

  /** `date_time.strftime('Y%Y-M%m-D%d')`. */
  function DateStr(d: DateTime): string
    requires ValidDateTime(d)
  {
    "Y" + Digits(d.year, 4) + "-M" + Digits(d.month, 2) + "-D" + Digits(d.day, 2)
  }

  /** `date_time.strftime('h%H-m%M-s%S')`. */
  function HourStr(d: DateTime): string
    requires ValidDateTime(d)
  {
    "h" + Digits(d.hour, 2) + "-m" + Digits(d.minute, 2) + "-s" + Digits(d.second, 2)
  }

  /** `f"{date_str}_{hour_str}_IMG"`: the six calendar fields, zero-padded,
      and nothing else of the date-time. */
  function BaseName(d: DateTime): string
    requires ValidDateTime(d)
  {
    DateStr(d) + "_" + HourStr(d) + "_IMG"
  }

  lemma DateStrPieces(d: DateTime)
    requires ValidDateTime(d)
    ensures |DateStr(d)| == 13
    ensures DateStr(d)[1..5] == Digits(d.year, 4)
    ensures DateStr(d)[7..9] == Digits(d.month, 2)
    ensures DateStr(d)[11..13] == Digits(d.day, 2)
  {
  }

  lemma HourStrPieces(d: DateTime)
    requires ValidDateTime(d)
    ensures |HourStr(d)| == 11
    ensures HourStr(d)[1..3] == Digits(d.hour, 2)
    ensures HourStr(d)[5..7] == Digits(d.minute, 2)
    ensures HourStr(d)[9..11] == Digits(d.second, 2)
  {
  }

  /** The base name is 29 characters with the six fields at fixed places:
      reading them back gives the date-time's fields. */
  lemma BaseNameDecodes(d: DateTime)
    requires ValidDateTime(d)
    ensures var b := BaseName(d);
      && |b| == 29
      && AllDigits(b[1..5]) && DigitsValue(b[1..5]) == d.year
      && AllDigits(b[7..9]) && DigitsValue(b[7..9]) == d.month
      && AllDigits(b[11..13]) && DigitsValue(b[11..13]) == d.day
      && AllDigits(b[15..17]) && DigitsValue(b[15..17]) == d.hour
      && AllDigits(b[19..21]) && DigitsValue(b[19..21]) == d.minute
      && AllDigits(b[23..25]) && DigitsValue(b[23..25]) == d.second
  {
    var b := BaseName(d);
    DateStrPieces(d);
    HourStrPieces(d);
    assert b[..13] == DateStr(d);
    assert b[14..25] == HourStr(d);
    assert b[1..5] == b[..13][1..5] && b[7..9] == b[..13][7..9] && b[11..13] == b[..13][11..13];
    assert b[15..17] == b[14..25][1..3] && b[19..21] == b[14..25][5..7] && b[23..25] == b[14..25][9..11];
  }

  /** Two date-times get the same base name exactly when they agree on the
      six calendar fields: microseconds and UTC offset play no part. */
  lemma BaseNameSameFields(d: DateTime, e: DateTime)
    requires ValidDateTime(d) && ValidDateTime(e)
    ensures BaseName(d) == BaseName(e) <==>
      (d.year, d.month, d.day, d.hour, d.minute, d.second)
        == (e.year, e.month, e.day, e.hour, e.minute, e.second)
  {
    BaseNameDecodes(d);
    BaseNameDecodes(e);
  }

  /** The base name of a date `parse_date` read from a text copies the
      digits of that text: the date-time's fields are never re-rendered
      differently from how the tool wrote them. */
  lemma BaseNameCopiesDigits(s: string)
    requires ParsedDate(s).Some?
    ensures BaseName(ParsedDate(s).value)
      == "Y" + s[0..4] + "-M" + s[5..7] + "-D" + s[8..10]
       + "_h" + s[11..13] + "-m" + s[14..16] + "-s" + s[17..19] + "_IMG"
  {
    var d := ParsedDate(s).value;
    ParsedFields(s);
    DigitsValueInjective(Digits(d.year, 4), s[0..4]);
    DigitsValueInjective(Digits(d.month, 2), s[5..7]);
    DigitsValueInjective(Digits(d.day, 2), s[8..10]);
    DigitsValueInjective(Digits(d.hour, 2), s[11..13]);
    DigitsValueInjective(Digits(d.minute, 2), s[14..16]);
    DigitsValueInjective(Digits(d.second, 2), s[17..19]);
  }

  /** The base name starts with 'Y' and holds neither '.' nor '/'. */
  lemma BaseNameIsStem(d: DateTime)
    requires ValidDateTime(d)
    ensures BaseName(d) != [] && BaseName(d)[0] == 'Y'
    ensures '.' !in BaseName(d) && '/' !in BaseName(d)
  {
    assert BaseName(d)[0] == DateStr(d)[0];
    DateStrNoSeparator(d);
    HourStrNoSeparator(d);
  }

  lemma DateStrNoSeparator(d: DateTime)
    requires ValidDateTime(d)
    ensures '.' !in DateStr(d) && '/' !in DateStr(d)
  {
    DigitsHaveNoSeparator(Digits(d.year, 4));
    DigitsHaveNoSeparator(Digits(d.month, 2));
    DigitsHaveNoSeparator(Digits(d.day, 2));
  }

  lemma HourStrNoSeparator(d: DateTime)
    requires ValidDateTime(d)
    ensures '.' !in HourStr(d) && '/' !in HourStr(d)
  {
    DigitsHaveNoSeparator(Digits(d.hour, 2));
    DigitsHaveNoSeparator(Digits(d.minute, 2));
    DigitsHaveNoSeparator(Digits(d.second, 2));
  }

  lemma DigitsHaveNoSeparator(s: string)
    requires AllDigits(s)
    ensures '.' !in s && '/' !in s
  {
  }

  const MODEL_KEY := "Camera Model Name"
  const UNKNOWN_DEVICE := "Unknown Device"

  /** `exif_data.get('Camera Model Name', 'Unknown Device')`. */
  function DeviceLabel(exif: map<string, string>): string
  {
    if MODEL_KEY in exif then exif[MODEL_KEY] else UNKNOWN_DEVICE
  }

  // ---------------------------------------------------------------------
  // create_unique_filename
  // ---------------------------------------------------------------------

  /** The name tried with suffix `k`: `base+ext` first, then `base-k+ext`. */
  function Candidate(base: string, k: nat, ext: string): string
  {
    if k == 0 then base + ext else base + "-" + NatToString(k) + ext
  }

  /** Different suffixes give different names. */
  lemma CandidateInjective(base: string, ext: string, j: nat, k: nat)
    requires Candidate(base, j, ext) == Candidate(base, k, ext)
    ensures j == k
  {
    if j != 0 && k != 0 {
      var a := Candidate(base, j, ext);
      var sj := NatToString(j);
      var sk := NatToString(k);
      assert |sj| == |sk|;
      assert a[|base| + 1..|base| + 1 + |sj|] == sj;
      assert Candidate(base, k, ext)[|base| + 1..|base| + 1 + |sk|] == sk;
      NatToStringInjective(j, k);
    }
  }

  /** The names tried with the suffixes below `n`. */
  function CandidatesBelow(base: string, ext: string, n: nat): set<string>
  {
    if n == 0 then {} else CandidatesBelow(base, ext, n - 1) + {Candidate(base, n - 1, ext)}
  }

  lemma {:induction false} CandidatesBelowSpec(base: string, ext: string, n: nat)
    ensures |CandidatesBelow(base, ext, n)| == n
    ensures forall k: nat :: Candidate(base, k, ext) in CandidatesBelow(base, ext, n) <==> k < n
  {
    if n > 0 {
      CandidatesBelowSpec(base, ext, n - 1);
      forall k: nat | Candidate(base, k, ext) == Candidate(base, n - 1, ext) ensures k == n - 1 {
        CandidateInjective(base, ext, k, n - 1);
      }
    }
  }

  /** A directory holding the names tried with every suffix below `n` holds
      at least `n` names. */
  lemma TakenBound(taken: set<string>, base: string, ext: string, n: nat)
    requires forall j :: 0 <= j < n ==> Candidate(base, j, ext) in taken
    ensures n <= |taken|
  {
    CandidatesBelowSpec(base, ext, n);
    var below := CandidatesBelow(base, ext, n);
    assert forall x :: x in below ==> x in taken by {
      forall x | x in below ensures x in taken {
        CandidatesBelowMember(base, ext, n, x);
      }
    }
    SubsetSize(below, taken);
  }

  lemma {:induction false} SubsetSize<T>(a: set<T>, b: set<T>)
    requires a <= b
    ensures |a| <= |b|
  {
    if a != {} {
      var x :| x in a;
      SubsetSize(a - {x}, b - {x});
    }
  }

  lemma {:induction false} CandidatesBelowMember(base: string, ext: string, n: nat, x: string)
    requires x in CandidatesBelow(base, ext, n)
    ensures exists k :: 0 <= k < n && x == Candidate(base, k, ext)
  {
    if x != Candidate(base, n - 1, ext) {
      CandidatesBelowMember(base, ext, n - 1, x);
    }
  }

  /** The first suffix from `k` on whose name is not taken (searched no
      further than `|taken|`, past which the search cannot go; see
      LeastFreeSuffixSpec). */
  function LeastFreeFrom(taken: set<string>, base: string, ext: string, k: nat): nat
    decreases |taken| - k
  {
    if k >= |taken| || Candidate(base, k, ext) !in taken then k
    else LeastFreeFrom(taken, base, ext, k + 1)
  }

  /** The suffix `create_unique_filename` settles on. */
  function LeastFreeSuffix(taken: set<string>, base: string, ext: string): nat
  {
    LeastFreeFrom(taken, base, ext, 0)
  }

  lemma {:induction false} LeastFreeFromSpec(taken: set<string>, base: string, ext: string, k: nat)
    requires forall j :: 0 <= j < k ==> Candidate(base, j, ext) in taken
    ensures var r := LeastFreeFrom(taken, base, ext, k);
      && k <= r && (k <= |taken| ==> r <= |taken|)
      && Candidate(base, r, ext) !in taken
      && forall j :: 0 <= j < r ==> Candidate(base, j, ext) in taken
    decreases |taken| - k
  {
    if Candidate(base, k, ext) in taken {
      TakenBound(taken, base, ext, k + 1);
      assert LeastFreeFrom(taken, base, ext, k) == LeastFreeFrom(taken, base, ext, k + 1);
      LeastFreeFromSpec(taken, base, ext, k + 1);
    } else {
      assert LeastFreeFrom(taken, base, ext, k) == k;
    }
  }

  /** The suffix chosen gives a free name, every smaller suffix gives a taken
      one, and the search never passes `|taken|`. */
  lemma LeastFreeSuffixSpec(taken: set<string>, base: string, ext: string)
    ensures var k := LeastFreeSuffix(taken, base, ext);
      && k <= |taken|
      && Candidate(base, k, ext) !in taken
      && forall j :: 0 <= j < k ==> Candidate(base, j, ext) in taken
  {
    LeastFreeFromSpec(taken, base, ext, 0);
  }

  /** Those two properties single the suffix out. */
  lemma LeastFreeSuffixIsLeast(taken: set<string>, base: string, ext: string, k: nat)
    requires Candidate(base, k, ext) !in taken
    requires forall j :: 0 <= j < k ==> Candidate(base, j, ext) in taken
    ensures LeastFreeSuffix(taken, base, ext) == k
  {
    LeastFreeSuffixSpec(taken, base, ext);
  }

  /** `create_unique_filename(directory, base_name, ext)`, with `taken` the
      names present in `directory`: it tries `base+ext`, then `base-1+ext`,
      `base-2+ext`, ..., and returns the first that does not exist. */
  method CreateUniqueFilename(taken: set<string>, base: string, ext: string) returns (name: string)
    ensures name == Candidate(base, LeastFreeSuffix(taken, base, ext), ext)
    ensures name !in taken
    ensures base + ext !in taken ==> name == base + ext
  {
    ghost var least := LeastFreeSuffix(taken, base, ext);
    LeastFreeSuffixSpec(taken, base, ext);
    var counter := 1;
    name := base + ext;
    while name in taken
      invariant 1 <= counter <= least + 1
      invariant name == Candidate(base, counter - 1, ext)
      decreases least + 1 - counter
    {
      name := base + "-" + NatToString(counter) + ext;
      counter := counter + 1;
    }
    LeastFreeSuffixIsLeast(taken, base, ext, counter - 1);
  }

  // ---------------------------------------------------------------------
  // Several files with one base name
  // ---------------------------------------------------------------------

  /** The names in a directory after `n` files with the same base name and
      extension have been moved into it one after the other, each under the
      name `create_unique_filename` chose for it. */
  function Arrivals(taken: set<string>, base: string, ext: string, n: nat): set<string>
  {
    if n == 0 then taken
    else
      var before := Arrivals(taken, base, ext, n - 1);
      before + {Candidate(base, LeastFreeSuffix(before, base, ext), ext)}
  }

  /** The name the file that arrives after the first `i` gets. */
  function ArrivalName(taken: set<string>, base: string, ext: string, i: nat): string
  {
    Candidate(base, LeastFreeSuffix(Arrivals(taken, base, ext, i), base, ext), ext)
  }

  /** Arrivals after one first arrival are arrivals counted from the start. */
  lemma {:induction false} ArrivalsAfterFirst(taken: set<string>, base: string, ext: string, k: nat)
    ensures Arrivals(Arrivals(taken, base, ext, 1), base, ext, k) == Arrivals(taken, base, ext, 1 + k)
  {
    if k > 0 {
      ArrivalsAfterFirst(taken, base, ext, k - 1);
    }
  }

  /** The name the i-th arrival gets, counted after a first arrival, is the
      name the (i+1)-th gets counted from the start. */
  lemma ArrivalNameShift(taken: set<string>, base: string, ext: string, i: nat)
    requires i > 0
    ensures ArrivalName(Arrivals(taken, base, ext, 1), base, ext, i - 1) == ArrivalName(taken, base, ext, i)
  {
    ArrivalsAfterFirst(taken, base, ext, i - 1);
  }

  /** Into a directory that holds none of the candidate names, `n` such files
      land as `base+ext`, `base-1+ext`, ..., `base-(n-1)+ext`: `n` distinct
      new names, and the next file would get suffix `n`. */
  lemma {:induction false} ArrivalsFillSuffixes(taken: set<string>, base: string, ext: string, n: nat)
    requires forall k: nat :: Candidate(base, k, ext) !in taken
    ensures Arrivals(taken, base, ext, n) == taken + CandidatesBelow(base, ext, n)
    ensures |Arrivals(taken, base, ext, n)| == |taken| + n
    ensures LeastFreeSuffix(Arrivals(taken, base, ext, n), base, ext) == n
  {
    var now := taken + CandidatesBelow(base, ext, n);
    assert Arrivals(taken, base, ext, n) == now by {
      if n > 0 {
        ArrivalsFillSuffixes(taken, base, ext, n - 1);
      }
    }
    CandidatesBelowSpec(base, ext, n);
    assert taken !! CandidatesBelow(base, ext, n) by {
      forall x | x in CandidatesBelow(base, ext, n) ensures x !in taken {
        CandidatesBelowMember(base, ext, n, x);
      }
    }
    LeastFreeSuffixIsLeast(now, base, ext, n);
  }
}
