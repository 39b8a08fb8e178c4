/**
 * The magic-byte registries of takiyasha/utils.py: the audio table
 * (header -> format name), the image table (header -> MIME type), the
 * inverse tables derived from them, and the first-match sniffers.
 *
 * A Python dict iterates in insertion order, so each registry is an
 * ordered sequence of entries; the inverse "dict comprehension" is a
 * fold over that sequence in which a later entry overwrites an earlier one.
 */
module Headers {
  import opened Wrappers
  import opened ByteStrings

  /** One registry row: a magic byte sequence and the label it identifies. */
  datatype Entry = Entry(header: Bytes, name: string)

  /** `AUDIO_FILE_HEADER_FORMAT_MAP`, in declaration order. */
  const AudioTable: seq<Entry> := [
    Entry([0x66, 0x4C, 0x61, 0x43], "flac"),                  // fLaC
    Entry([0x49, 0x44, 0x33], "mp3"),                         // ID3
    Entry([0x4F, 0x67, 0x67, 0x53], "ogg"),                   // OggS
    Entry([0x66, 0x74, 0x79, 0x70], "m4a"),                   // ftyp
    Entry([0x30, 0x26, 0xB2, 0x75, 0x8E, 0x66, 0xCF, 0x11,
           0xA6, 0xD9, 0x00, 0xAA, 0x00, 0x62, 0xCE, 0x6C], "wma"), // ASF header GUID
    Entry([0x52, 0x49, 0x46, 0x46], "wav"),                   // RIFF
    Entry([0xFF, 0xF1], "aac"),                               // ADTS sync word
    Entry([0x46, 0x52, 0x4D, 0x38], "dff"),                   // FRM8
    Entry([0x4D, 0x41, 0x43, 0x20], "ape")                    // "MAC "
  ]

  /** `IMAGE_FILE_HEADER_MIME_MAP`, in declaration order. */
  const ImageTable: seq<Entry> := [
    Entry([0x89, 0x50, 0x4E, 0x47, 0x0D, 0x0A, 0x1A, 0x0A], "image/png"),
    Entry([0xFF, 0xD8, 0xFF], "image/jpeg"),
    Entry([0x42, 0x4D], "image/bmp")
  ]

  /* ---------- forward direction: first header that prefixes the data ---------- */

  /** Index of the first entry whose header prefixes `data`, or `|table|` when none does. */
  function FirstMatchIndex(table: seq<Entry>, data: Bytes): (k: nat)
    ensures k <= |table|
    ensures forall j :: 0 <= j < k ==> !StartsWith(data, table[j].header)
    ensures k < |table| ==> StartsWith(data, table[k].header)
  {
    if table == [] then 0
    else if StartsWith(data, table[0].header) then 0
    else 1 + FirstMatchIndex(table[1..], data)
  }

  /** The label the for-loop with early `return` yields: the first match's, else `None`. */
  function FirstLabel(table: seq<Entry>, data: Bytes): Option<string> {
    var k := FirstMatchIndex(table, data);
    if k < |table| then Some(table[k].name) else None
  }

  /** The loop shared by `get_audio_format` and `get_image_mime`. */
  method ScanHeaders(table: seq<Entry>, data: Bytes) returns (r: Option<string>)
    ensures r == FirstLabel(table, data)
  {
    var i := 0;
    while i < |table|
      invariant 0 <= i <= |table|
      invariant forall j :: 0 <= j < i ==> !StartsWith(data, table[j].header)
    {
      if StartsWith(data, table[i].header) {
        FirstMatchIsUnique(table, data, i);
        return Some(table[i].name);
      }
      i := i + 1;
    }
    FirstMatchIsUnique(table, data, |table|);
    r := None;
  }

  /** `get_audio_format(data)`. */
  method GetAudioFormat(data: Bytes) returns (r: Option<string>)
    ensures r == FirstLabel(AudioTable, data)
  {
    r := ScanHeaders(AudioTable, data);
  }

  /** `get_image_mime(data)`. */
  method GetImageMime(data: Bytes) returns (r: Option<string>)
    ensures r == FirstLabel(ImageTable, data)
  {
    r := ScanHeaders(ImageTable, data);
  }

  /** The three facts of FirstMatchIndex's contract determine it. */
  lemma FirstMatchIsUnique(table: seq<Entry>, data: Bytes, k: nat)
    requires k <= |table|
    requires forall j :: 0 <= j < k ==> !StartsWith(data, table[j].header)
    requires k < |table| ==> StartsWith(data, table[k].header)
    ensures FirstMatchIndex(table, data) == k
  {
  }

  /** FirstLabel is the first-match search: `None` exactly when no header prefixes the
      data, and otherwise the label of the earliest header that does. */
  lemma FirstLabelIsFirstMatch(table: seq<Entry>, data: Bytes)
    ensures FirstLabel(table, data).None? <==>
              forall j :: 0 <= j < |table| ==> !StartsWith(data, table[j].header)
    ensures FirstLabel(table, data).Some? ==>
              exists k :: 0 <= k < |table| && StartsWith(data, table[k].header)
                          && table[k].name == FirstLabel(table, data).value
                          && forall j :: 0 <= j < k ==> !StartsWith(data, table[j].header)
  {
    var k := FirstMatchIndex(table, data);
    if k < |table| {
      assert StartsWith(data, table[k].header);
    }
  }

  /* ---------- well-formedness of a registry ---------- */

  /** No header is a prefix of another entry's header (so at most one entry can match
      the start of a header). */
  ghost predicate PrefixFree(table: seq<Entry>) {
    forall i, j :: 0 <= i < |table| && 0 <= j < |table| && i != j ==>
      !StartsWith(table[j].header, table[i].header)
  }

  /** Every label occurs once: the inverse table loses nothing. */
  ghost predicate LabelsDistinct(table: seq<Entry>) {
    forall i, j :: 0 <= i < j < |table| ==> table[i].name != table[j].name
  }

  /** What the two registries satisfy: non-empty, prefix-free headers and distinct
      labels that do not begin with '.'. */
  ghost predicate WellFormed(table: seq<Entry>) {
    && (forall i :: 0 <= i < |table| ==> |table[i].header| > 0)
    && (forall i :: 0 <= i < |table| ==> |table[i].name| > 0 && table[i].name[0] != '.')
    && PrefixFree(table)
    && LabelsDistinct(table)
  }

  /** Byte-by-byte prefix test, a recursive restatement of StartsWith that the registry
      check below evaluates on the concrete tables. */
  predicate IsPrefixOf(p: Bytes, d: Bytes) {
    p == [] || (d != [] && p[0] == d[0] && IsPrefixOf(p[1..], d[1..]))
  }

  lemma {:induction false} IsPrefixOfIsStartsWith(p: Bytes, d: Bytes)
    ensures IsPrefixOf(p, d) <==> StartsWith(d, p)
  {
    if p != [] && d != [] {
      IsPrefixOfIsStartsWith(p[1..], d[1..]);
      if StartsWith(d, p) {
        assert d[1..][..|p| - 1] == d[..|p|][1..];
      }
      if StartsWith(d[1..], p[1..]) && p[0] == d[0] {
        assert d[..|p|] == [d[0]] + d[1..][..|p| - 1];
      }
    }
  }

  /** `h` is not a prefix of any header in `rest`, and none of them is a prefix of `h`. */
  predicate Unrelated(h: Bytes, rest: seq<Entry>) {
    rest == [] ||
    (!IsPrefixOf(h, rest[0].header) && !IsPrefixOf(rest[0].header, h) && Unrelated(h, rest[1..]))
  }

  lemma {:induction false} UnrelatedAt(h: Bytes, rest: seq<Entry>, j: nat)
    requires Unrelated(h, rest) && j < |rest|
    ensures !StartsWith(rest[j].header, h) && !StartsWith(h, rest[j].header)
  {
    if j == 0 {
      IsPrefixOfIsStartsWith(h, rest[0].header);
      IsPrefixOfIsStartsWith(rest[0].header, h);
    } else {
      UnrelatedAt(h, rest[1..], j - 1);
    }
  }

  /** Every pair of headers, each compared in both directions, as a recursive check. */
  predicate PairwisePrefixFree(table: seq<Entry>) {
    table == [] || (Unrelated(table[0].header, table[1..]) && PairwisePrefixFree(table[1..]))
  }

  lemma {:induction false} PairwiseIsPrefixFree(table: seq<Entry>)
    requires PairwisePrefixFree(table)
    ensures PrefixFree(table)
  {
    if table != [] {
      PairwiseIsPrefixFree(table[1..]);
      forall i, j | 0 <= i < |table| && 0 <= j < |table| && i != j
        ensures !StartsWith(table[j].header, table[i].header)
      {
        if i == 0 {
          UnrelatedAt(table[0].header, table[1..], j - 1);
        } else if j == 0 {
          UnrelatedAt(table[0].header, table[1..], i - 1);
        } else {
          assert table[i] == table[1..][i - 1] && table[j] == table[1..][j - 1];
        }
      }
    }
  }

  lemma AudioTableWellFormed()
    ensures WellFormed(AudioTable)
  {
    AudioHeadersUnrelated();
    PairwiseIsPrefixFree(AudioTable);
    AudioNamesPlain();
  }

  /** Pairwise checks, stated row by row: row i is unrelated to every later row. */
  lemma {:induction false} RowsArePairwise(table: seq<Entry>)
    requires forall i :: 0 <= i < |table| ==> Unrelated(table[i].header, table[i + 1..])
    ensures PairwisePrefixFree(table)
  {
    if table != [] {
      assert Unrelated(table[0].header, table[1..]);
      forall i | 0 <= i < |table[1..]| ensures Unrelated(table[1..][i].header, table[1..][i + 1..]) {
        assert table[1..][i] == table[i + 1] && table[1..][i + 1..] == table[i + 2..];
      }
      RowsArePairwise(table[1..]);
    }
  }

  lemma AudioHeadersUnrelated()
    ensures PairwisePrefixFree(AudioTable)
  {
    AudioRowsUnrelatedA();
    AudioRowsUnrelatedB();
    AudioRowsUnrelatedC();
    AudioRowsUnrelatedD();
    forall i | 0 <= i < |AudioTable| ensures Unrelated(AudioTable[i].header, AudioTable[i + 1..]) {
    }
    RowsArePairwise(AudioTable);
  }

  lemma AudioRowsUnrelatedA()
    ensures Unrelated(AudioTable[0].header, AudioTable[1..])
  {
    assert AudioTable[8..][1..] == AudioTable[9..]; assert Unrelated(AudioTable[0].header, AudioTable[8..]);
    assert AudioTable[7..][1..] == AudioTable[8..]; assert Unrelated(AudioTable[0].header, AudioTable[7..]);
    assert AudioTable[6..][1..] == AudioTable[7..]; assert Unrelated(AudioTable[0].header, AudioTable[6..]);
    assert AudioTable[5..][1..] == AudioTable[6..]; assert Unrelated(AudioTable[0].header, AudioTable[5..]);
    assert AudioTable[4..][1..] == AudioTable[5..]; assert Unrelated(AudioTable[0].header, AudioTable[4..]);
    assert AudioTable[3..][1..] == AudioTable[4..]; assert Unrelated(AudioTable[0].header, AudioTable[3..]);
    assert AudioTable[2..][1..] == AudioTable[3..]; assert Unrelated(AudioTable[0].header, AudioTable[2..]);
    assert AudioTable[1..][1..] == AudioTable[2..]; assert Unrelated(AudioTable[0].header, AudioTable[1..]);
  }

  lemma AudioRowsUnrelatedB()
    ensures Unrelated(AudioTable[1].header, AudioTable[2..])
  {
    assert AudioTable[8..][1..] == AudioTable[9..]; assert Unrelated(AudioTable[1].header, AudioTable[8..]);
    assert AudioTable[7..][1..] == AudioTable[8..]; assert Unrelated(AudioTable[1].header, AudioTable[7..]);
    assert AudioTable[6..][1..] == AudioTable[7..]; assert Unrelated(AudioTable[1].header, AudioTable[6..]);
    assert AudioTable[5..][1..] == AudioTable[6..]; assert Unrelated(AudioTable[1].header, AudioTable[5..]);
    assert AudioTable[4..][1..] == AudioTable[5..]; assert Unrelated(AudioTable[1].header, AudioTable[4..]);
    assert AudioTable[3..][1..] == AudioTable[4..]; assert Unrelated(AudioTable[1].header, AudioTable[3..]);
    assert AudioTable[2..][1..] == AudioTable[3..]; assert Unrelated(AudioTable[1].header, AudioTable[2..]);
  }

  lemma AudioRowsUnrelatedC()
    ensures forall i :: 2 <= i < 4 ==> Unrelated(AudioTable[i].header, AudioTable[i + 1..])
  {
    forall i | 2 <= i < 4 ensures Unrelated(AudioTable[i].header, AudioTable[i + 1..]) {
      if i == 2 {
        assert AudioTable[8..][1..] == AudioTable[9..]; assert Unrelated(AudioTable[2].header, AudioTable[8..]);
        assert AudioTable[7..][1..] == AudioTable[8..]; assert Unrelated(AudioTable[2].header, AudioTable[7..]);
        assert AudioTable[6..][1..] == AudioTable[7..]; assert Unrelated(AudioTable[2].header, AudioTable[6..]);
        assert AudioTable[5..][1..] == AudioTable[6..]; assert Unrelated(AudioTable[2].header, AudioTable[5..]);
        assert AudioTable[4..][1..] == AudioTable[5..]; assert Unrelated(AudioTable[2].header, AudioTable[4..]);
        assert AudioTable[3..][1..] == AudioTable[4..]; assert Unrelated(AudioTable[2].header, AudioTable[3..]);
      }
      else {
        assert AudioTable[8..][1..] == AudioTable[9..]; assert Unrelated(AudioTable[3].header, AudioTable[8..]);
        assert AudioTable[7..][1..] == AudioTable[8..]; assert Unrelated(AudioTable[3].header, AudioTable[7..]);
        assert AudioTable[6..][1..] == AudioTable[7..]; assert Unrelated(AudioTable[3].header, AudioTable[6..]);
        assert AudioTable[5..][1..] == AudioTable[6..]; assert Unrelated(AudioTable[3].header, AudioTable[5..]);
        assert AudioTable[4..][1..] == AudioTable[5..]; assert Unrelated(AudioTable[3].header, AudioTable[4..]);
      }
    }
  }

  lemma AudioRowsUnrelatedD()
    ensures forall i :: 4 <= i < |AudioTable| ==> Unrelated(AudioTable[i].header, AudioTable[i + 1..])
  {
    forall i | 4 <= i < |AudioTable| ensures Unrelated(AudioTable[i].header, AudioTable[i + 1..]) {
      if i == 4 {
        assert AudioTable[8..][1..] == AudioTable[9..]; assert Unrelated(AudioTable[4].header, AudioTable[8..]);
        assert AudioTable[7..][1..] == AudioTable[8..]; assert Unrelated(AudioTable[4].header, AudioTable[7..]);
        assert AudioTable[6..][1..] == AudioTable[7..]; assert Unrelated(AudioTable[4].header, AudioTable[6..]);
        assert AudioTable[5..][1..] == AudioTable[6..]; assert Unrelated(AudioTable[4].header, AudioTable[5..]);
      }
      else if i == 5 {
        assert AudioTable[8..][1..] == AudioTable[9..]; assert Unrelated(AudioTable[5].header, AudioTable[8..]);
        assert AudioTable[7..][1..] == AudioTable[8..]; assert Unrelated(AudioTable[5].header, AudioTable[7..]);
        assert AudioTable[6..][1..] == AudioTable[7..]; assert Unrelated(AudioTable[5].header, AudioTable[6..]);
      }
      else if i == 6 {
        assert AudioTable[8..][1..] == AudioTable[9..]; assert Unrelated(AudioTable[6].header, AudioTable[8..]);
        assert AudioTable[7..][1..] == AudioTable[8..]; assert Unrelated(AudioTable[6].header, AudioTable[7..]);
      }
      else if i == 7 {
        assert AudioTable[8..][1..] == AudioTable[9..]; assert Unrelated(AudioTable[7].header, AudioTable[8..]);
      }
      else {
        
      }
    }
  }

  lemma AudioNamesPlain()
    ensures LabelsDistinct(AudioTable)
    ensures forall i :: 0 <= i < |AudioTable| ==> |AudioTable[i].header| > 0
    ensures forall i :: 0 <= i < |AudioTable| ==> |AudioTable[i].name| > 0 && AudioTable[i].name[0] != '.'
  {
  }

  lemma ImageTableWellFormed()
    ensures WellFormed(ImageTable)
  {
    assert PairwisePrefixFree(ImageTable);
    PairwiseIsPrefixFree(ImageTable);
  }

  /* ---------- reverse direction: label -> header ---------- */

  /** The inverse dict comprehension `{v: k for k, v in table.items()}`: entries are
      inserted in order, so a later entry with the same label would overwrite. */
  function Inverse(table: seq<Entry>): (m: map<string, Bytes>)
    ensures forall n :: n in m <==> exists i :: 0 <= i < |table| && table[i].name == n
    ensures forall n :: n in m ==> exists i :: 0 <= i < |table| && table[i].name == n && table[i].header == m[n]
  {
    if table == [] then map[]
    else
      var last := table[|table| - 1];
      var init := table[..|table| - 1];
      assert forall i :: 0 <= i < |init| ==> init[i] == table[i];
      Inverse(init)[last.name := last.header]
  }

  /** `AUDIO_FILE_FORMAT_HEADER_MAP`. */
  const AudioFormatHeaderMap: map<string, Bytes> := Inverse(AudioTable)

  /** `IMAGE_FILE_MIME_HEADER_MAP`. */
  const ImageMimeHeaderMap: map<string, Bytes> := Inverse(ImageTable)

  /** With distinct labels the inverse returns each entry's own header. */
  lemma {:induction false} InverseAt(table: seq<Entry>, i: nat)
    requires LabelsDistinct(table) && i < |table|
    ensures table[i].name in Inverse(table) && Inverse(table)[table[i].name] == table[i].header
  {
    var init := table[..|table| - 1];
    if i < |table| - 1 {
      assert init[i] == table[i];
      assert LabelsDistinct(init) by {
        forall a, b | 0 <= a < b < |init| ensures init[a].name != init[b].name {
          assert init[a] == table[a] && init[b] == table[b];
        }
      }
      InverseAt(init, i);
    }
  }

  /** `str.removeprefix('.')`: drops one leading dot, if there is one. */
  function RemoveDotPrefix(s: string): string {
    if |s| > 0 && s[0] == '.' then s[1..] else s
  }

  /** `m.get(key)`. */
  function Get(m: map<string, Bytes>, key: string): Option<Bytes> {
    if key in m then Some(m[key]) else None
  }

  /** The body shared by `get_possible_audio_header` and `get_possible_image_header`. */
  function HeaderFor(table: seq<Entry>, fmt: string): Option<Bytes> {
    Get(Inverse(table), RemoveDotPrefix(fmt))
  }

  /** `get_possible_audio_header(fmt)`: a header exactly when the dot-stripped name is a
      registered audio format, and then one registered under that name. */
  function GetPossibleAudioHeader(fmt: string): (r: Option<Bytes>)
    ensures r.Some? <==> exists i :: 0 <= i < |AudioTable| && AudioTable[i].name == RemoveDotPrefix(fmt)
    ensures r.Some? ==> exists i :: 0 <= i < |AudioTable| && AudioTable[i].name == RemoveDotPrefix(fmt)
                                    && AudioTable[i].header == r.value
  {
    Get(AudioFormatHeaderMap, RemoveDotPrefix(fmt))
  }

  /** `get_possible_image_header(fmt)`: the same lookup in the image registry. */
  function GetPossibleImageHeader(fmt: string): (r: Option<Bytes>)
    ensures r.Some? <==> exists i :: 0 <= i < |ImageTable| && ImageTable[i].name == RemoveDotPrefix(fmt)
    ensures r.Some? ==> exists i :: 0 <= i < |ImageTable| && ImageTable[i].name == RemoveDotPrefix(fmt)
                                    && ImageTable[i].header == r.value
  {
    Get(ImageMimeHeaderMap, RemoveDotPrefix(fmt))
  }

  /* ---------- laws of a well-formed registry ---------- */

  /** Two prefixes of the same data are prefixes of one another. */
  lemma CommonPrefixes(d: Bytes, a: Bytes, b: Bytes)
    requires StartsWith(d, a) && StartsWith(d, b)
    ensures StartsWith(a, b) || StartsWith(b, a)
  {
    if |b| <= |a| {
      assert a[..|b|] == d[..|a|][..|b|];
    } else {
      assert b[..|a|] == d[..|b|][..|a|];
    }
  }

  /** Data that starts with a registered header is classified as that header's label,
      whatever follows it. */
  lemma SniffHeaderWithSuffix(table: seq<Entry>, i: nat, rest: Bytes)
    requires PrefixFree(table) && i < |table|
    ensures FirstLabel(table, table[i].header + rest) == Some(table[i].name)
  {
    var h := table[i].header;
    var d := h + rest;
    assert d[..|h|] == h;
    forall j | 0 <= j < i ensures !StartsWith(d, table[j].header) {
      if StartsWith(d, table[j].header) {
        CommonPrefixes(d, h, table[j].header);
        assert false;
      }
    }
    FirstMatchIsUnique(table, d, i);
  }

  /** Empty data (or data shorter than every header and matching none) gives `None`. */
  lemma SniffEmptyData(table: seq<Entry>)
    requires forall i :: 0 <= i < |table| ==> |table[i].header| > 0
    ensures FirstLabel(table, []) == None
  {
  }

  /** Reverse lookup with or without a leading dot returns the label's header, and
      sniffing that header gives the label back. */
  lemma RegistryRoundTrip(table: seq<Entry>, i: nat)
    requires WellFormed(table) && i < |table|
    ensures HeaderFor(table, table[i].name) == Some(table[i].header)
    ensures HeaderFor(table, "." + table[i].name) == Some(table[i].header)
    ensures FirstLabel(table, table[i].header) == Some(table[i].name)
  {
    var n := table[i].name;
    assert RemoveDotPrefix("." + n) == n;
    InverseAt(table, i);
    SniffHeaderWithSuffix(table, i, []);
    assert table[i].header + [] == table[i].header;
  }

  /** `get_audio_format(header + anything)` is that header's format. */
  lemma AudioSniffWithSuffix(i: nat, rest: Bytes)
    requires i < |AudioTable|
    ensures FirstLabel(AudioTable, AudioTable[i].header + rest) == Some(AudioTable[i].name)
  {
    AudioTableWellFormed();
    SniffHeaderWithSuffix(AudioTable, i, rest);
  }

  /** `get_audio_format(b"") is None`. */
  lemma AudioEmptyData()
    ensures FirstLabel(AudioTable, []) == None
  {
    AudioTableWellFormed();
    SniffEmptyData(AudioTable);
  }

  /** Audio round trip: format name (with or without a dot) -> header -> format name. */
  lemma AudioRoundTrip(i: nat)
    requires i < |AudioTable|
    ensures GetPossibleAudioHeader(AudioTable[i].name) == Some(AudioTable[i].header)
    ensures GetPossibleAudioHeader("." + AudioTable[i].name) == Some(AudioTable[i].header)
    ensures FirstLabel(AudioTable, AudioTable[i].header) == Some(AudioTable[i].name)
  {
    AudioTableWellFormed();
    RegistryRoundTrip(AudioTable, i);
  }

  /** `get_image_mime(header + anything)` is that header's MIME type. */
  lemma ImageSniffWithSuffix(i: nat, rest: Bytes)
    requires i < |ImageTable|
    ensures FirstLabel(ImageTable, ImageTable[i].header + rest) == Some(ImageTable[i].name)
  {
    ImageTableWellFormed();
    SniffHeaderWithSuffix(ImageTable, i, rest);
  }

  /** `get_image_mime(b"") is None`. */
  lemma ImageEmptyData()
    ensures FirstLabel(ImageTable, []) == None
  {
    ImageTableWellFormed();
    SniffEmptyData(ImageTable);
  }

  /** Image round trip: MIME type (with or without a dot) -> header -> MIME type. */
  lemma ImageRoundTrip(i: nat)
    requires i < |ImageTable|
    ensures GetPossibleImageHeader(ImageTable[i].name) == Some(ImageTable[i].header)
    ensures GetPossibleImageHeader("." + ImageTable[i].name) == Some(ImageTable[i].header)
    ensures FirstLabel(ImageTable, ImageTable[i].header) == Some(ImageTable[i].name)
  {
    ImageTableWellFormed();
    RegistryRoundTrip(ImageTable, i);
  }
}
