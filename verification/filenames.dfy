/**
 The two `String` extensions the converter uses to take a file name apart:
 `fileExtension` is the last component of the name split on ".", and
 `fileNameWithoutExtension` is the first one. A name with several dots loses
 its middle components (`a.v2.png` gives `a` and `png`); a name without a dot
 is both its own base and its own extension.
 */
module FileNames {
  import opened Components

  /** `t` is a suffix of `s`. */
  predicate IsSuffix(t: string, s: string) {
    |t| <= |s| && s[|s| - |t|..] == t
  }

  /** `fileName.fileExtension`: the longest dot-free suffix of the name, that
      is, everything after the last dot, or the whole name when it has none. */
  function FileExtension(fileName: string): (ext: string)
    ensures Dot !in ext
    ensures IsSuffix(ext, fileName)
    ensures |ext| < |fileName| ==> fileName[|fileName| - |ext| - 1] == Dot
    ensures |ext| == |fileName| <==> Dot !in fileName
  {
    var parts := Split(fileName, Dot);
    JoinLast(parts, Dot);
    parts[|parts| - 1]
  }

  /** `fileName.fileNameWithoutExtension`: the longest dot-free prefix of the
      name, that is, everything before the first dot, or the whole name when it
      has none. */
  function FileNameWithoutExtension(fileName: string): (base: string)
    ensures Dot !in base
    ensures base <= fileName
    ensures |base| < |fileName| ==> fileName[|base|] == Dot
    ensures |base| == |fileName| <==> Dot !in fileName
    ensures |fileName| > 0 && fileName[0] == Dot ==> base == ""
  {
    var parts := Split(fileName, Dot);
    JoinFirst(parts, Dot);
    parts[0]
  }

  /** The extension is the only string with the three properties
      `FileExtension` promises: a dot-free suffix that is either the whole name
      or preceded by a dot. */
  lemma ExtensionIsAfterLastDot(fileName: string, t: string)
    requires Dot !in t
    requires IsSuffix(t, fileName)
    requires |t| < |fileName| ==> fileName[|fileName| - |t| - 1] == Dot
    ensures t == FileExtension(fileName)
  {
  }

  /** The base name is the only string with the three properties
      `FileNameWithoutExtension` promises: a dot-free prefix that is either the
      whole name or followed by a dot. */
  lemma BaseIsBeforeFirstDot(fileName: string, t: string)
    requires Dot !in t
    requires t <= fileName
    requires |t| < |fileName| ==> fileName[|t|] == Dot
    ensures t == FileNameWithoutExtension(fileName)
  {
  }

  /** A name without a dot is its own base name and its own extension. */
  lemma NoDotIsBaseAndExtension(fileName: string)
    requires Dot !in fileName
    ensures FileNameWithoutExtension(fileName) == fileName
    ensures FileExtension(fileName) == fileName
  {
  }

  /** Putting the base name and the extension back together around one dot
      gives the original name exactly when the name has exactly one dot; with
      no dot the result gains one, with two or more the middle components are
      lost. */
  lemma RoundTripIffOneDot(fileName: string)
    ensures FileNameWithoutExtension(fileName) + [Dot] + FileExtension(fileName) == fileName
        <==> Count(fileName, Dot) == 1
  {
    if Count(fileName, Dot) == 1 {
      OneDotSplitsInTwo(fileName);
    } else {
      OneDotBetween(FileNameWithoutExtension(fileName), FileExtension(fileName));
    }
  }

  /** A name with one dot splits into two components around it. */
  lemma OneDotSplitsInTwo(fileName: string)
    requires Count(fileName, Dot) == 1
    ensures var parts := Split(fileName, Dot);
            && parts == [FileNameWithoutExtension(fileName), FileExtension(fileName)]
            && fileName == parts[0] + [Dot] + parts[1]
  {
    var parts := Split(fileName, Dot);
    assert parts == [parts[0], parts[1]];
    assert Join([parts[0], parts[1]], Dot) == parts[0] + [Dot] + parts[1];
  }

  /** Two dot-free strings around a dot hold exactly one dot. */
  lemma OneDotBetween(a: string, b: string)
    requires Dot !in a && Dot !in b
    ensures Count(a + [Dot] + b, Dot) == 1
  {
    CountConcat(a + [Dot], b, Dot);
    CountConcat(a, [Dot], Dot);
    CountConcat(b, [], Dot);
    assert Count([Dot], Dot) == 1 + Count([], Dot);
  }
}
