/**
 * Classification by file name: which encryption scheme a name belongs to
 * (`get_encryption_format`) and its extension (`get_file_ext`).
 */
module Names {
  import opened Wrappers
  import opened Glob

  /** One row of `SUPPORTED_FORMATS_PATTERNS`: a scheme and its glob patterns, in order. */
  datatype Scheme = Scheme(name: string, patterns: seq<string>)

  /** `SUPPORTED_FORMATS_PATTERNS`, in declaration order. */
  const SupportedFormatsPatterns: seq<Scheme> := [
    Scheme("ncm", ["*.ncm"]),
    Scheme("qmc", ["*.qmc[023468]", "*.qmcflac", "*.qmcogg",
                   "*.tkm",
                   "*.mflac", "*.mflac[0]", "*.mgg", "*.mgg[01l]",
                   "*.bkcmp3", "*.bkcm4a", "*.bkcflac", "*.bkcwav", "*.bkcape", "*.bkcogg", "*.bkcwma"])
  ]

  /** Some pattern of the list matches the whole name. */
  predicate AnyPatternMatches(name: string, patterns: seq<string>) {
    exists j :: 0 <= j < |patterns| && FnMatch(name, patterns[j])
  }

  /** Index of the first scheme with a matching pattern, or `|table|` when none has one. */
  function FirstSchemeIndex(table: seq<Scheme>, name: string): (k: nat)
    ensures k <= |table|
    ensures forall i :: 0 <= i < k ==> !AnyPatternMatches(name, table[i].patterns)
    ensures k < |table| ==> AnyPatternMatches(name, table[k].patterns)
  {
    if table == [] then 0
    else if AnyPatternMatches(name, table[0].patterns) then 0
    else 1 + FirstSchemeIndex(table[1..], name)
  }

  /** What the nested for-loops with early `return` yield. */
  function FirstScheme(table: seq<Scheme>, name: string): Option<string> {
    var k := FirstSchemeIndex(table, name);
    if k < |table| then Some(table[k].name) else None
  }

  /** `get_encryption_format(name)`: schemes in order, and each scheme's patterns in
      order; the first scheme with a matching pattern wins. */
  method GetEncryptionFormat(name: string) returns (r: Option<string>)
    ensures r == FirstScheme(SupportedFormatsPatterns, name)
  {
    var table := SupportedFormatsPatterns;
    var i := 0;
    while i < |table|
      invariant 0 <= i <= |table|
      invariant forall a :: 0 <= a < i ==> !AnyPatternMatches(name, table[a].patterns)
    {
      var patterns := table[i].patterns;
      var j := 0;
      while j < |patterns|
        invariant 0 <= j <= |patterns|
        invariant forall b :: 0 <= b < j ==> !FnMatch(name, patterns[b])
      {
        if FnMatch(name, patterns[j]) {
          FirstSchemeIsUnique(table, name, i);
          return Some(table[i].name);
        }
        j := j + 1;
      }
      i := i + 1;
    }
    FirstSchemeIsUnique(table, name, |table|);
    r := None;
  }

  /** The three facts of FirstSchemeIndex's contract determine it. */
  lemma FirstSchemeIsUnique(table: seq<Scheme>, name: string, k: nat)
    requires k <= |table|
    requires forall i :: 0 <= i < k ==> !AnyPatternMatches(name, table[i].patterns)
    requires k < |table| ==> AnyPatternMatches(name, table[k].patterns)
    ensures FirstSchemeIndex(table, name) == k
  {
  }

  /** FirstScheme is the first-match search over schemes: `None` exactly when no pattern
      of any scheme matches, otherwise the earliest scheme with a matching pattern. */
  lemma FirstSchemeIsFirstMatch(table: seq<Scheme>, name: string)
    ensures FirstScheme(table, name).None? <==>
              forall i :: 0 <= i < |table| ==> !AnyPatternMatches(name, table[i].patterns)
    ensures FirstScheme(table, name).Some? ==>
              exists k :: 0 <= k < |table| && table[k].name == FirstScheme(table, name).value
                          && AnyPatternMatches(name, table[k].patterns)
                          && forall i :: 0 <= i < k ==> !AnyPatternMatches(name, table[i].patterns)
  {
    var k := FirstSchemeIndex(table, name);
    if k < |table| {
      assert AnyPatternMatches(name, table[k].patterns);
    }
  }

  /** The qmc row of the table, pattern by pattern, as shapes. */
  const QmcShapes: seq<Shape> := [
    ExtClass(".qmc", "023468"), Ext(".qmcflac"), Ext(".qmcogg"),
    Ext(".tkm"),
    Ext(".mflac"), ExtClass(".mflac", "0"), Ext(".mgg"), ExtClass(".mgg", "01l"),
    Ext(".bkcmp3"), Ext(".bkcm4a"), Ext(".bkcflac"), Ext(".bkcwav"), Ext(".bkcape"), Ext(".bkcogg"), Ext(".bkcwma")
  ]

  /** A reference classification stated on how the name ends: ".ncm" first, then any of
      the qmc endings, otherwise no scheme. */
  function ClassifyBySuffix(name: string): Option<string> {
    if EndsWith(name, ".ncm") then Some("ncm")
    else if exists j :: 0 <= j < |QmcShapes| && EndsLike(name, QmcShapes[j]) then Some("qmc")
    else None
  }

  lemma NcmRowSpelled()
    ensures SupportedFormatsPatterns[0].patterns == [Spell(Ext(".ncm"))]
  {
    assert SupportedFormatsPatterns[0].patterns[0] == "*" + ".ncm";
  }

  /** The qmc patterns are the spelled shapes, in the same order. */
  lemma QmcRowSpelled()
    ensures |SupportedFormatsPatterns[1].patterns| == |QmcShapes|
    ensures forall j :: 0 <= j < |QmcShapes| ==> SupportedFormatsPatterns[1].patterns[j] == Spell(QmcShapes[j])
  {
    QmcRowSpelledA();
    QmcRowSpelledB();
    QmcRowSpelledC();
    QmcRowSpelledD();
    QmcRowSpelledE();
  }

  lemma QmcRowSpelledA()
    ensures forall j :: 0 <= j < 3 ==> SupportedFormatsPatterns[1].patterns[j] == Spell(QmcShapes[j])
  {
  }

  lemma QmcRowSpelledB()
    ensures forall j :: 3 <= j < 6 ==> SupportedFormatsPatterns[1].patterns[j] == Spell(QmcShapes[j])
  {
  }

  lemma QmcRowSpelledC()
    ensures forall j :: 6 <= j < 9 ==> SupportedFormatsPatterns[1].patterns[j] == Spell(QmcShapes[j])
  {
  }

  lemma QmcRowSpelledD()
    ensures forall j :: 9 <= j < 12 ==> SupportedFormatsPatterns[1].patterns[j] == Spell(QmcShapes[j])
  {
  }

  lemma QmcRowSpelledE()
    ensures forall j :: 12 <= j < 15 ==> SupportedFormatsPatterns[1].patterns[j] == Spell(QmcShapes[j])
  {
  }

  lemma QmcShapesWellShaped()
    ensures forall j :: 0 <= j < |QmcShapes| ==> WellShaped(QmcShapes[j])
  {
    QmcShapesWellShapedA();
    QmcShapesWellShapedB();
    QmcShapesWellShapedC();
    QmcShapesWellShapedD();
    QmcShapesWellShapedE();
  }

  lemma QmcShapesWellShapedA()
    ensures forall j :: 0 <= j < 3 ==> WellShaped(QmcShapes[j])
  {
  }

  lemma QmcShapesWellShapedB()
    ensures forall j :: 3 <= j < 6 ==> WellShaped(QmcShapes[j])
  {
  }

  lemma QmcShapesWellShapedC()
    ensures forall j :: 6 <= j < 9 ==> WellShaped(QmcShapes[j])
  {
  }

  lemma QmcShapesWellShapedD()
    ensures forall j :: 9 <= j < 12 ==> WellShaped(QmcShapes[j])
  {
  }

  lemma QmcShapesWellShapedE()
    ensures forall j :: 12 <= j < 15 ==> WellShaped(QmcShapes[j])
  {
  }

  /** On a table of two rows the first-match search reads as two tests in order. */
  lemma FirstSchemeOfTwo(table: seq<Scheme>, name: string)
    requires |table| == 2
    ensures FirstScheme(table, name) ==
              if AnyPatternMatches(name, table[0].patterns) then Some(table[0].name)
              else if AnyPatternMatches(name, table[1].patterns) then Some(table[1].name)
              else None
  {
    if AnyPatternMatches(name, table[0].patterns) {
      FirstSchemeIsUnique(table, name, 0);
    } else if AnyPatternMatches(name, table[1].patterns) {
      FirstSchemeIsUnique(table, name, 1);
    } else {
      FirstSchemeIsUnique(table, name, 2);
    }
  }

  /** The ncm row matches exactly the names ending in ".ncm". */
  lemma NcmRowMeaning(name: string)
    ensures AnyPatternMatches(name, SupportedFormatsPatterns[0].patterns) <==> EndsWith(name, ".ncm")
  {
    NcmRowSpelled();
    ShapeMeaning(Ext(".ncm"), name);
    assert Plain(".ncm");
    if EndsWith(name, ".ncm") {
      assert FnMatch(name, SupportedFormatsPatterns[0].patterns[0]);
    }
  }

  /** The qmc row matches exactly the names ending like one of its shapes. */
  lemma QmcRowMeaning(name: string)
    ensures AnyPatternMatches(name, SupportedFormatsPatterns[1].patterns) <==>
              exists j :: 0 <= j < |QmcShapes| && EndsLike(name, QmcShapes[j])
  {
    var ps := SupportedFormatsPatterns[1].patterns;
    QmcRowSpelled();
    QmcShapesWellShaped();
    forall j | 0 <= j < |QmcShapes| ensures FnMatch(name, ps[j]) <==> EndsLike(name, QmcShapes[j]) {
      ShapeMeaning(QmcShapes[j], name);
    }
  }

  /** The first-match classification over glob patterns is the classification by
      how the name ends. */
  lemma ClassificationBySuffix(name: string)
    ensures FirstScheme(SupportedFormatsPatterns, name) == ClassifyBySuffix(name)
  {
    FirstSchemeOfTwo(SupportedFormatsPatterns, name);
    NcmRowMeaning(name);
    QmcRowMeaning(name);
  }

  /** Worked classifications: ncm names, qmc names (two through a character class), and
      an unencrypted file. */
  lemma NcmExamples()
    ensures FirstScheme(SupportedFormatsPatterns, "a.ncm") == Some("ncm")
    ensures FirstScheme(SupportedFormatsPatterns, "track.ncm") == Some("ncm")
  {
    ClassificationBySuffix("a.ncm");
    ClassificationBySuffix("track.ncm");
  }

  lemma Qmc3Example()
    ensures FirstScheme(SupportedFormatsPatterns, "song.qmc3") == Some("qmc")
  {
    ClassificationBySuffix("song.qmc3");
    assert EndsLike("song.qmc3", QmcShapes[0]);
  }

  lemma Mflac0Example()
    ensures FirstScheme(SupportedFormatsPatterns, "a.mflac0") == Some("qmc")
  {
    ClassificationBySuffix("a.mflac0");
    assert EndsLike("a.mflac0", QmcShapes[5]);
  }

  lemma Mp3Example()
    ensures FirstScheme(SupportedFormatsPatterns, "plain.mp3") == None
  {
    ClassificationBySuffix("plain.mp3");
    assert !EndsWith("plain.mp3", ".ncm");
    Mp3EndsUnlikeA();
    Mp3EndsUnlikeB();
    Mp3EndsUnlikeC();
    Mp3EndsUnlikeD();
    Mp3EndsUnlikeE();
  }

  lemma Mp3EndsUnlikeA()
    ensures forall j :: 0 <= j < 3 ==> !EndsLike("plain.mp3", QmcShapes[j])
  {
    forall j | 0 <= j < 3 ensures !EndsLike("plain.mp3", QmcShapes[j]) {
      if j == 0 { assert "plain.mp3"[4..8][0] == 'n'; assert !EndsLike("plain.mp3", QmcShapes[0]); }
      else if j == 1 { assert !EndsLike("plain.mp3", QmcShapes[1]); }
      else { assert !EndsLike("plain.mp3", QmcShapes[2]); }
    }
  }

  lemma Mp3EndsUnlikeB()
    ensures forall j :: 3 <= j < 6 ==> !EndsLike("plain.mp3", QmcShapes[j])
  {
  }

  lemma Mp3EndsUnlikeC()
    ensures forall j :: 6 <= j < 9 ==> !EndsLike("plain.mp3", QmcShapes[j])
  {
  }

  lemma Mp3EndsUnlikeD()
    ensures forall j :: 9 <= j < 12 ==> !EndsLike("plain.mp3", QmcShapes[j])
  {
  }

  lemma Mp3EndsUnlikeE()
    ensures forall j :: 12 <= j < 15 ==> !EndsLike("plain.mp3", QmcShapes[j])
  {
  }

  /* ---------- get_file_ext ---------- */

  /** `s.rfind(c)`: the index of the last `c` in `s`, or -1. */
  function RFind(s: string, c: char): (r: int)
    ensures -1 <= r < |s|
    ensures r >= 0 ==> s[r] == c
    ensures forall i :: r < i < |s| ==> s[i] != c
  {
    if s == [] then -1
    else if s[|s| - 1] == c then |s| - 1
    else RFind(s[..|s| - 1], c)
  }

  /** `get_file_ext(name)`, i.e. `os.path.splitext(name)[1]` on POSIX: the text from the
      last dot on, provided that dot lies after the last '/' and the file name before it
      is not made of dots only (so ".bashrc" has no extension); otherwise "". */
  function GetFileExt(name: string): (ext: string)
    ensures ext == [] || (ext[0] == '.' && EndsWith(name, ext) && '.' !in ext[1..] && '/' !in ext)
  {
    var sep := RFind(name, '/');
    var dot := RFind(name, '.');
    if dot > sep && exists i :: sep + 1 <= i < dot && name[i] != '.' then name[dot..] else []
  }

  /** A name has an extension when some dot is preceded, within the last path
      component, by a character other than a dot. */
  ghost predicate HasExtension(name: string) {
    exists j, i :: 0 <= j < i < |name| && name[i] == '.' && name[j] != '.' && '/' !in name[j..]
  }

  /** The extension is non-empty exactly when the name has one, and it then starts at
      the last dot. */
  lemma FileExtIsLastDotSuffix(name: string)
    ensures GetFileExt(name) != [] <==> HasExtension(name)
    ensures GetFileExt(name) != [] ==> GetFileExt(name) == name[RFind(name, '.')..]
  {
    var sep := RFind(name, '/');
    var dot := RFind(name, '.');
    if GetFileExt(name) != [] {
      var i :| sep + 1 <= i < dot && name[i] != '.';
      assert '/' !in name[i..] by {
        forall k | i <= k < |name| ensures name[k] != '/' { }
      }
      assert name[dot] == '.';
    }
    if HasExtension(name) {
      var j, i :| 0 <= j < i < |name| && name[i] == '.' && name[j] != '.' && '/' !in name[j..];
      assert sep + 1 <= j < dot;
    }
  }

  /** RFind's contract determines it. */
  lemma RFindAt(s: string, c: char, k: nat)
    requires k < |s| && s[k] == c && c !in s[k + 1..]
    ensures RFind(s, c) == k
  {
  }

  lemma FileExtExamples()
    ensures GetFileExt("song.qmc3") == ".qmc3"
    ensures GetFileExt("a.tar.gz") == ".gz"
    ensures GetFileExt(".bashrc") == ""
  {
    RFindAt("song.qmc3", '.', 4);
    assert "song.qmc3"[0] != '.';
    RFindAt("a.tar.gz", '.', 5);
    assert "a.tar.gz"[0] != '.';
    RFindAt(".bashrc", '.', 0);
  }
}
