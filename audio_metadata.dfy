/**
 * The audio metadata readers: `extract_audio_metadata` and `extract_batch_metadata` of
 * Backend/utils.py (filename pattern `YYYYMMDD_HHMMSS`) and of Backend/audiodata.py
 * (pattern `YYYY_MM_DD_HH_MM_SS`). The file system is a value: the files with what the
 * tag reader makes of them, and the directories.
 */
module AudioMetadata {
  import opened Wrappers
  import opened Text
  import opened Calendar

  type Path = string

  /** An audio file as the tag reader sees it: its duration in whole seconds, or unreadable. */
  datatype Blob = Blob(duration: Option<nat>)

  datatype Disk = Disk(files: map<Path, Blob>, dirs: set<Path>)

  /** `os.path.exists`. */
  predicate Exists(disk: Disk, p: Path)
  {
    p in disk.files || p in disk.dirs
  }

  /** `os.path.basename`: the text after the last '/'. */
  function Basename(p: Path): string
  {
    p[LastIndexOf(p, '/') + 1..]
  }

  /**
   * The base name is the path itself when it has no '/', and otherwise what follows the
   * path's last '/': no '/' is left in it, and a '/' comes right before it.
   */
  lemma BasenameMeaning(p: Path)
    ensures '/' !in p ==> Basename(p) == p
    ensures '/' !in Basename(p)
    ensures Basename(p) == p[|p| - |Basename(p)|..]
    ensures '/' in p ==> |Basename(p)| < |p| && p[|p| - |Basename(p)| - 1] == '/'
  {
    LastIndexOfMeaning(p, '/');
  }

  predicate AllDots(s: string)
  {
    forall j :: 0 <= j < |s| ==> s[j] == '.'
  }

  /** How many dots the name starts with. */
  function LeadingDots(s: string): (n: nat)
    ensures n <= |s|
  {
    if s == [] || s[0] != '.' then 0 else 1 + LeadingDots(s[1..])
  }

  /** A name's first `n` characters are all dots exactly when it starts with at least `n` dots. */
  lemma {:induction false} LeadingDotsMeaning(s: string, n: nat)
    requires n <= |s|
    ensures AllDots(s[..n]) <==> n <= LeadingDots(s)
  {
    if n > 0 {
      LeadingDotsMeaning(s[1..], n - 1);
      assert s[..n] == [s[0]] + s[1..][..n - 1];
    }
  }

  /**
   * `os.path.splitext(name)[0]` for a name without '/': the name without the text from its
   * last dot on, unless only dots come before that dot (".wav" has no extension).
   */
  function StripExtension(name: string): (root: string)
  {
    var k := LastIndexOf(name, '.');
    if k > LeadingDots(name) then name[..k] else name
  }

  /**
   * Either the name is kept whole, or it loses exactly its last dot and what follows, and
   * something other than dots comes before that dot. It is kept whole exactly when no dot
   * follows the dots it starts with.
   */
  lemma StripExtensionMeaning(name: string)
    ensures var root := StripExtension(name);
            || root == name
            || (&& |root| < |name| && name[|root|] == '.' && root == name[..|root|]
                && !AllDots(root) && '.' !in name[|root| + 1..])
    ensures StripExtension(name) == name <==> forall k :: LeadingDots(name) < k < |name| ==> name[k] != '.'
  {
    var k := LastIndexOf(name, '.');
    LastIndexOfMeaning(name, '.');
    if k >= 0 {
      LeadingDotsMeaning(name, k);
    }
  }

  /** `os.path.join(directory, name)`. */
  function Join(directory: Path, name: string): Path
  {
    if |name| > 0 && name[0] == '/' then name
    else if directory == [] || directory[|directory| - 1] == '/' then directory + name
    else directory + "/" + name
  }

  // ---------------------------------------------------------------------------------------
  // The filename patterns
  // ---------------------------------------------------------------------------------------

  /** Which of the two repository files' pattern is used. */
  datatype NameStyle =
    | Compact      // (\d{4})(\d{2})(\d{2})_(\d{2})(\d{2})(\d{2}), Backend/utils.py
    | Underscored  // (\d{4})_(\d{2})_(\d{2})_(\d{2})_(\d{2})_(\d{2}), Backend/audiodata.py

  /** The length of a match. */
  function PatternLength(style: NameStyle): nat
  {
    if style.Compact? then 15 else 19
  }

  /** The offsets within a match that hold '_' rather than a digit. */
  predicate IsSeparator(style: NameStyle, d: int)
  {
    if style.Compact? then d == 8 else d == 4 || d == 7 || d == 10 || d == 13 || d == 16
  }

  /** Where the `k`-th of the six numbers starts within a match, and how many digits it has. */
  function FieldOffset(style: NameStyle, k: nat): nat
    requires k < 6
  {
    if style.Compact? then [0, 4, 6, 9, 11, 13][k] else [0, 5, 8, 11, 14, 17][k]
  }

  function FieldWidth(k: nat): nat
  {
    if k == 0 then 4 else 2
  }

  /** The pattern matches `s` at position `i`: a digit or '_' at each offset, as the pattern says. */
  predicate MatchesAt(s: string, i: nat, style: NameStyle)
  {
    && i + PatternLength(style) <= |s|
    && forall j :: i <= j < i + PatternLength(style) ==>
         if IsSeparator(style, j - i) then s[j] == '_' else IsDigit(s[j])
  }

  /** `i` is where `re.search` reports the match: the leftmost position that matches. */
  predicate IsLeftmostMatch(s: string, i: nat, style: NameStyle)
  {
    MatchesAt(s, i, style) && forall j :: 0 <= j < i ==> !MatchesAt(s, j, style)
  }

  /** The first position from `from` on where the pattern matches. */
  function FindMatch(s: string, style: NameStyle, from: nat): (r: Option<nat>)
    ensures r.Some? ==> from <= r.value && MatchesAt(s, r.value, style)
                        && forall j :: from <= j < r.value ==> !MatchesAt(s, j, style)
    ensures r.None? ==> forall j :: from <= j ==> !MatchesAt(s, j, style)
    decreases |s| - from
  {
    if from + PatternLength(style) > |s| then None
    else if MatchesAt(s, from, style) then Some(from)
    else FindMatch(s, style, from + 1)
  }

  /** Each number lies inside the match and holds no separator. */
  lemma FieldInside(style: NameStyle, k: nat)
    requires k < 6
    ensures FieldOffset(style, k) + FieldWidth(k) <= PatternLength(style)
    ensures forall d :: FieldOffset(style, k) <= d < FieldOffset(style, k) + FieldWidth(k) ==> !IsSeparator(style, d)
  {
    if k == 0 {
    } else if k == 1 {
    } else if k == 2 {
    } else if k == 3 {
    } else if k == 4 {
    } else {
    }
  }

  /** The characters of the `k`-th number of a match are digits. */
  lemma FieldDigits(s: string, i: nat, style: NameStyle, k: nat)
    requires MatchesAt(s, i, style) && k < 6
    ensures i + FieldOffset(style, k) + FieldWidth(k) <= |s|
    ensures AllDigits(s[i + FieldOffset(style, k)..i + FieldOffset(style, k) + FieldWidth(k)])
  {
    var start := i + FieldOffset(style, k);
    FieldInside(style, k);
    var digits := s[start..start + FieldWidth(k)];
    forall t | 0 <= t < |digits|
      ensures IsDigit(digits[t])
    {
      assert digits[t] == s[start + t];
      assert !IsSeparator(style, start + t - i);
    }
  }

  /** The `k`-th number of the match at `i` (`int(match.group(k + 1))`). */
  function Field(s: string, i: nat, style: NameStyle, k: nat): nat
    requires MatchesAt(s, i, style) && k < 6
  {
    FieldDigits(s, i, style, k);
    var start := i + FieldOffset(style, k);
    DigitsValue(s[start..start + FieldWidth(k)])
  }

  /** The date and time spelled by the match at `i`, before any range check. */
  function FieldsAt(s: string, i: nat, style: NameStyle): DateTime
    requires MatchesAt(s, i, style)
  {
    DateTime(Date(Field(s, i, style, 0), Field(s, i, style, 1), Field(s, i, style, 2)),
             Field(s, i, style, 3), Field(s, i, style, 4), Field(s, i, style, 5))
  }

  /** The outcome of reading a start time from a name. */
  datatype NameTime =
    | NoMatch                // nothing matched: the start stays None
    | InvalidDate            // `datetime(...)` raised: the whole read fails
    | Start(epoch: int)

  function StartFromName(root: string, style: NameStyle): NameTime
  {
    match FindMatch(root, style, 0)
    case None => NoMatch
    case Some(i) =>
      var t := FieldsAt(root, i, style);
      if ValidDateTime(t) then Start(EpochOf(t)) else InvalidDate
  }

  /**
   * The start comes from the leftmost match: no start when nothing matches, a failure when
   * the leftmost match spells no valid date and time, otherwise the epoch of its fields.
   */
  lemma StartFromNameMeaning(root: string, style: NameStyle)
    ensures StartFromName(root, style).NoMatch? <==> forall i :: !MatchesAt(root, i, style)
    ensures StartFromName(root, style).InvalidDate? ==>
              exists i :: IsLeftmostMatch(root, i, style) && !ValidDateTime(FieldsAt(root, i, style))
    ensures StartFromName(root, style).Start? ==>
              exists i :: && IsLeftmostMatch(root, i, style)
                          && ValidDateTime(FieldsAt(root, i, style))
                          && StartFromName(root, style).epoch == EpochOf(FieldsAt(root, i, style))
  {
  }

  /** The dictionary `extract_audio_metadata` returns. */
  datatype Metadata = Metadata(filename: string, duration: nat, filepath: Path,
                               start: Option<int>, end: Option<int>)

  /**
   * `extract_audio_metadata(path)`: None for a missing file, an unreadable tag, or a matched
   * date that is no calendar date; otherwise the name, the duration and the start parsed
   * from the extension-stripped name, with the end `start + duration` only for a start
   * other than 0 (Python's truthiness test on the start).
   */
  function ExtractAudioMetadata(disk: Disk, path: Path, style: NameStyle): (r: Option<Metadata>)
    ensures !Exists(disk, path) ==> r.None?
    ensures path !in disk.files || disk.files[path].duration.None? ==> r.None?
    ensures r.Some? ==> && path in disk.files
                        && Some(r.value.duration) == disk.files[path].duration
                        && r.value.filename == Basename(path)
                        && r.value.filepath == path
  {
    if !Exists(disk, path) || path !in disk.files || disk.files[path].duration.None? then None
    else
      var name := Basename(path);
      Assemble(name, disk.files[path].duration.value, path, StartFromName(StripExtension(name), style))
  }

  /** The dictionary built from a readable file's name, duration, path and name time. */
  function Assemble(name: string, duration: nat, path: Path, found: NameTime): Option<Metadata>
  {
    if found.InvalidDate? then None
    else
      var start := if found.Start? then Some(found.epoch) else None;
      var end := if found.Start? && found.epoch != 0 then Some(found.epoch + duration) else None;
      Some(Metadata(name, duration, path, start, end))
  }

  /**
   * For a readable file: None exactly when the leftmost name match is no valid date; no
   * start exactly when nothing matches; and an end `start + duration` exactly for a
   * non-zero start.
   */
  lemma ExtractAudioMetadataStart(disk: Disk, path: Path, style: NameStyle)
    requires Exists(disk, path) && path in disk.files && disk.files[path].duration.Some?
    ensures var r := ExtractAudioMetadata(disk, path, style);
            var found := StartFromName(StripExtension(Basename(path)), style);
            && (r.None? <==> found.InvalidDate?)
            && (r.Some? ==> (r.value.start.None? <==> found.NoMatch?))
            && (r.Some? && r.value.start.Some? ==> found == Start(r.value.start.value))
            && (r.Some? && r.value.start.Some? && r.value.start.value != 0 ==>
                  r.value.end == Some(r.value.start.value + r.value.duration))
            && (r.Some? && (r.value.start.None? || r.value.start.value == 0) ==> r.value.end.None?)
  {
    var name := Basename(path);
    var found := StartFromName(StripExtension(name), style);
    assert ExtractAudioMetadata(disk, path, style)
        == Assemble(name, disk.files[path].duration.value, path, found);
    match found
    case InvalidDate =>
    case NoMatch =>
    case Start(e) =>
  }

  // ---------------------------------------------------------------------------------------
  // extract_batch_metadata
  // ---------------------------------------------------------------------------------------

  /** `name.lower().endswith(suffix)` for a lower-case `suffix`. */
  predicate EndsWithIgnoringCase(name: string, suffix: string)
  {
    |suffix| <= |name| && SameIgnoringCase(name[|name| - |suffix|..], suffix)
  }

  /** The test agrees with lower-casing the whole name and comparing its end. */
  lemma EndsWithIgnoringCaseLower(name: string, suffix: string)
    ensures EndsWithIgnoringCase(name, suffix) <==>
              |suffix| <= |name| && Lower(name)[|name| - |suffix|..] == suffix
  {
    if |suffix| <= |name| {
      var tail := name[|name| - |suffix|..];
      SameIgnoringCaseLower(tail, suffix);
      assert Lower(name)[|name| - |suffix|..] == Lower(tail);
    }
  }

  /** `filename.lower().endswith(('.mp3', '.wav'))`. */
  predicate HasAudioSuffix(name: string)
  {
    EndsWithIgnoringCase(name, ".mp3") || EndsWithIgnoringCase(name, ".wav")
  }

  /** What the batch loop makes of one listed name: metadata only for an audio suffix. */
  function ReadEntry(disk: Disk, directory: Path, name: string, style: NameStyle): Option<Metadata>
  {
    if HasAudioSuffix(name) then ExtractAudioMetadata(disk, Join(directory, name), style) else None
  }

  /** The values held by the present entries, in order. */
  function Present<T>(entries: seq<Option<T>>): (r: seq<T>)
    ensures |r| <= |entries|
  {
    if entries == [] then []
    else
      var last := entries[|entries| - 1];
      Present(entries[..|entries| - 1]) + (if last.Some? then [last.value] else [])
  }

  /** A value is kept exactly when some entry holds it. */
  lemma {:induction false} PresentMembers<T>(entries: seq<Option<T>>)
    ensures forall x :: x in Present(entries) <==> Some(x) in entries
  {
    if entries != [] {
      var front := entries[..|entries| - 1];
      PresentMembers(front);
      assert entries == front + [entries[|entries| - 1]];
    }
  }

  /** What the batch loop reads from each listed name. */
  function Reader(disk: Disk, directory: Path, style: NameStyle): string -> Option<Metadata>
  {
    name => ReadEntry(disk, directory, name, style)
  }

  /** The values `read` finds in the listed names, in listing order. */
  function Collected<T>(read: string -> Option<T>, names: seq<string>): seq<T>
  {
    Present(seq(|names|, k requires 0 <= k < |names| => read(names[k])))
  }

  /** Exactly what `read` finds in some listed name is collected, and at most one value per name. */
  lemma CollectedMembers<T>(read: string -> Option<T>, names: seq<string>)
    ensures |Collected(read, names)| <= |names|
    ensures forall x :: x in Collected(read, names) <==> exists k :: 0 <= k < |names| && read(names[k]) == Some(x)
  {
    var entries := seq(|names|, k requires 0 <= k < |names| => read(names[k]));
    PresentMembers(entries);
    forall x | Some(x) in entries
      ensures exists k :: 0 <= k < |names| && read(names[k]) == Some(x)
    {
      var k :| 0 <= k < |entries| && entries[k] == Some(x);
      assert read(names[k]) == Some(x);
    }
    forall x, k | 0 <= k < |names| && read(names[k]) == Some(x)
      ensures Some(x) in entries
    {
      assert entries[k] == Some(x);
    }
  }

  /** The listing loop: every name is read in turn and what is found is appended. */
  method CollectListed<T>(read: string -> Option<T>, names: seq<string>) returns (list: seq<T>)
    ensures list == Collected(read, names)
  {
    list := [];
    ghost var entries: seq<Option<T>> := [];
    var i := 0;
    while i < |names|
      invariant 0 <= i <= |names|
      invariant entries == seq(i, k requires 0 <= k < i => read(names[k]))
      invariant list == Present(entries)
    {
      var found := read(names[i]);
      if found.Some? {
        list := list + [found.value];
      }
      assert (entries + [found])[..i] == entries;
      entries := entries + [found];
      i := i + 1;
    }
  }

  /** The metadata of the listed names, in listing order, skipping what is not read. */
  function CollectMetadata(disk: Disk, directory: Path, names: seq<string>, style: NameStyle): seq<Metadata>
  {
    Collected(Reader(disk, directory, style), names)
  }

  /** The directory `extract_batch_metadata` scans: the configured one when None is given. */
  function BatchDirectory(directory: Option<Path>, audioDirectory: Path): Path
  {
    if directory.None? then audioDirectory else directory.value
  }

  /**
   * `extract_batch_metadata(directory)` over the directory listing `names` (the order
   * `os.listdir` returns): [] when the directory does not exist, otherwise the metadata of
   * every listed `.mp3`/`.wav` file that could be read.
   */
  method ExtractBatchMetadata(disk: Disk, directory: Option<Path>, audioDirectory: Path,
                              names: seq<string>, style: NameStyle)
    returns (list: seq<Metadata>)
    ensures BatchDirectory(directory, audioDirectory) !in disk.dirs ==> list == []
    ensures BatchDirectory(directory, audioDirectory) in disk.dirs ==>
              list == CollectMetadata(disk, BatchDirectory(directory, audioDirectory), names, style)
  {
    var dir := if directory.None? then audioDirectory else directory.value;
    list := [];
    if dir !in disk.dirs {
      return;
    }
    list := CollectListed(Reader(disk, dir, style), names);
  }
}
