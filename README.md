# takiyasha utilities, modelled in Dafny

This project models the helper layer of takiyasha, a decryptor for encrypted music
files from Chinese streaming services (NetEase `.ncm`, QQ Music `.qmc*`, `.mflac`,
`.mgg`, `.tkm`, `.bkc*`). The helpers all live in `takiyasha/utils.py`:

- the scheme table `SUPPORTED_FORMATS_PATTERNS`, which maps each scheme to its glob patterns;
- the magic-header tables for audio and cover images, with their inverse maps;
- the sniffers `get_audio_format` and `get_image_mime`, and the reverse lookups
  `get_possible_audio_header` and `get_possible_image_header`;
- name classification with `get_encryption_format` and `get_file_ext`;
- the stream capability check `raise_while_not_fileobj`;
- `xor_bytestrings`.

Modules:

- `Wrappers`: `Option`, `Result` and `Outcome` (pass or fail).
- `ByteStrings`: bytes as `seq<bv8>`, `startswith`, and `xor_bytestrings` with its
  length check.
- `Headers`: each header table is a sequence of (header, label) entries in
  declaration order, which is the order a Python `dict` iterates. It holds:
  - the first-match scan as a loop method, proved against a first-match function;
  - the inverse maps, built as the comprehension builds them: a left fold, so a
    later entry overwrites an earlier one;
  - the reverse lookups, which strip at most one leading dot the way
    `str.removeprefix('.')` does;
  - proofs that both tables are prefix-free and have distinct labels, which makes
    sniffing and reverse lookup round-trip.
- `Glob`: the part of `fnmatch` the scheme table needs, following CPython's
  `fnmatch.translate`:
  - `*` and `?`;
  - `[...]` and `[!...]` classes, where a `]` right after the opening bracket belongs
    to the class;
  - `a-b` ranges;
  - an unclosed `[` is a literal.
  The whole name must match, and `*` also matches `/`.
- `Names`: the scheme table, `get_encryption_format` as two nested loops with early
  return, and a proof that this glob classification equals a plain description by
  suffix. Also `get_file_ext`, modelled as POSIX `os.path.splitext(name)[1]`: the
  text from the last dot, if that dot comes after the last `/` and the last path
  component has a character other than a dot before it.
- `Streams`: a stream is described by how each of `read`, `seek` and `write` answers
  its probe: absent, raises, or returns. For `read` it also records whether the
  result is `bytes`. The method probes read, then seek, then write, each only when
  its keyword flag is set. The defaults (`readable=True`, `seekable=True`,
  `writable=False`) are Dafny `nameonly` parameters with the same defaults. The raised
  `ValueError` becomes `Fail(CapabilityError(capability, cause))`. The cause is one
  of three:
  - `Missing`: "not a valid file object";
  - `Failed`: "cannot read from / seek in / write to";
  - `NotBinary`: "not opened in binary mode".

## Model

| member | source | states |
|---|---|---|
| `Headers.GetAudioFormat` | takiyasha/utils.py:39-42 | the scan returns the label of the first audio header the data starts with, in table order, or None when no header matches |
| `Headers.AudioTable` | takiyasha/utils.py:15-25 | the nine audio headers and formats, byte for byte and in declaration order; characterised by `Headers.AudioTableWellFormed` |
| `Headers.AudioFormatHeaderMap` | takiyasha/utils.py:26-28 | the inverted audio dict; characterised by `Headers.Inverse` and `Headers.AudioRoundTrip` |
| `Headers.ImageTable` | takiyasha/utils.py:29-33 | the three image headers and MIME types, in declaration order; characterised by `Headers.ImageTableWellFormed` |
| `Headers.ImageMimeHeaderMap` | takiyasha/utils.py:34-36 | the inverted image dict; characterised by `Headers.Inverse` and `Headers.ImageRoundTrip` |
| `Headers.FirstLabel` | takiyasha/utils.py:40-42 | definition: the label at the first matching index, or None; characterised by `Headers.FirstLabelIsFirstMatch` |
| `Headers.RemoveDotPrefix` | takiyasha/utils.py:46 | definition of `str.removeprefix('.')`: drops one leading dot at most; characterised by `Headers.RegistryRoundTrip` |
| `ByteStrings.StartsWith` | takiyasha/utils.py:41 | definition of `bytes.startswith`; characterised by `Headers.IsPrefixOfIsStartsWith` and `Headers.CommonPrefixes` |
| `Headers.GetImageMime` | takiyasha/utils.py:50-53 | the same first-match scan over the image table, returning a MIME type |
| `Headers.ScanHeaders` | takiyasha/utils.py:40-42 | the loop with early return computes the first-match label of any table |
| `Headers.FirstMatchIndex` | takiyasha/utils.py:40-42 | no header before the returned index is a prefix of the data, and the header at the index is one, unless the index is past the end |
| `Headers.FirstLabelIsFirstMatch` | takiyasha/utils.py:40-42 | the result is None exactly when no header is a prefix of the data; otherwise it is the label of the earliest header that is |
| `Headers.AudioTableWellFormed` | takiyasha/utils.py:15-25 | no audio header is a prefix of another, labels are distinct, headers are non-empty and labels do not start with a dot |
| `Headers.ImageTableWellFormed` | takiyasha/utils.py:29-33 | the same well-formedness for the image table |
| `Headers.AudioHeadersUnrelated` | takiyasha/utils.py:15-25 | every pair of audio headers is checked: neither is a prefix of the other |
| `Headers.PairwiseIsPrefixFree` | takiyasha/utils.py:15-25 | the row-by-row check implies that no header is a prefix of another |
| `Headers.Inverse` | takiyasha/utils.py:26-28 | the inverted dict has exactly the labels as keys, and each key maps to the header of an entry with that label |
| `Headers.InverseAt` | takiyasha/utils.py:34-36 | when labels are distinct, the inverted dict maps each entry's label to that entry's own header |
| `Headers.GetPossibleAudioHeader` | takiyasha/utils.py:45-47 | a format, with at most one leading dot removed, gives Some exactly when it names an audio entry, and then that entry's header |
| `Headers.GetPossibleImageHeader` | takiyasha/utils.py:56-58 | the same reverse lookup for MIME types |
| `Headers.CommonPrefixes` | takiyasha/utils.py:41 | two prefixes of the same data are prefixes of one another |
| `Headers.SniffHeaderWithSuffix` | takiyasha/utils.py:40-42 | in a prefix-free table, data that starts with an entry's header is labelled with that entry, whatever follows the header |
| `Headers.SniffEmptyData` | takiyasha/utils.py:40-42 | with non-empty headers, empty data has no label |
| `Headers.RegistryRoundTrip` | takiyasha/utils.py:39-58 | in a well-formed table, the label (with or without a leading dot) gives back the header, and the header is sniffed back as the label |
| `Headers.AudioSniffWithSuffix` | takiyasha/utils.py:39-42 | each audio header followed by any bytes is sniffed as its own format |
| `Headers.AudioEmptyData` | takiyasha/utils.py:39-42 | empty data has no audio format |
| `Headers.AudioRoundTrip` | takiyasha/utils.py:15-47 | for each audio format, the header lookup (".flac" or "flac") and the sniffer are inverse |
| `Headers.ImageSniffWithSuffix` | takiyasha/utils.py:50-53 | each image header followed by any bytes is sniffed as its own MIME type |
| `Headers.ImageEmptyData` | takiyasha/utils.py:50-53 | empty data has no image MIME type |
| `Headers.ImageRoundTrip` | takiyasha/utils.py:29-58 | for each image MIME type, the header lookup and the sniffer are inverse |
| `Glob.FindClose` | takiyasha/utils.py:68 | the closing bracket search returns the first `]` at or after the start, or the end of the pattern |
| `Glob.ClassBodyStart` | takiyasha/utils.py:68 | the closing-bracket search skips exactly the text `!]`, `!`, `]` or nothing, whichever the class opens with first, so a `]` right after `[` or `[!` belongs to the class |
| `Glob.ClassEnd` | takiyasha/utils.py:68 | the class closes at the first `]` from where the body starts, or is unclosed when there is none |
| `Glob.TokenizeBracketFirstClass` | takiyasha/utils.py:68 | `[]body]` is one class holding `]` and the body's characters |
| `Glob.TokenizeNegatedBracketFirstClass` | takiyasha/utils.py:68 | `[!]body]` is one negated class of `]` and the body's characters |
| `Glob.ClassItems` | takiyasha/utils.py:68 | definition: a class body read left to right, `a-b` a range when a character follows the hyphen; characterised by `Glob.ClassItemsWithoutHyphen` and `Glob.TokenizeRangeClass` |
| `Glob.ParseClass` | takiyasha/utils.py:68 | definition: a body starting with `!` is a negated class of the rest; characterised by `Glob.TokenizeNegatedClass` and `Glob.TokenizeSimpleClass` |
| `Glob.Tokenize` | takiyasha/utils.py:68 | definition of the pattern translation, construct by construct; characterised by `Glob.TokenizePlainPrefix`, `Glob.TokenizeSimpleClass`, `Glob.TokenizeNegatedClass`, `Glob.TokenizeRangeClass` and `Glob.TokenizeUnclosedBracket` |
| `Glob.Matches` | takiyasha/utils.py:68 | definition of the anchored match with backtracking `*`; characterised by `Glob.StarFreeMeaning`, `Glob.LeadingStar` and `Glob.MatchesLiterals` |
| `Glob.FnMatch` | takiyasha/utils.py:68 | definition: the whole name matches the translated pattern; characterised by `Glob.ShapeMeaning`, `Glob.StarThenPlain` and `Glob.QuestionMarkPattern` |
| `Glob.StarFreeMeaning` | takiyasha/utils.py:68 | a pattern without `*` matches exactly the names of its length whose every character is accepted by the token at that position |
| `Glob.TokenizeNegatedClass` | takiyasha/utils.py:68 | `[!body]` with a plain body is one negated class of the body's characters |
| `Glob.TokenizeRangeClass` | takiyasha/utils.py:68 | `[lo-hi]` is one class holding the range from `lo` to `hi` |
| `Glob.TokenizeUnclosedBracket` | takiyasha/utils.py:68 | a `[` with no `]` after it is a literal bracket, and the rest is read as ordinary pattern |
| `Glob.ClassMeanings` | takiyasha/utils.py:68 | `?` accepts any character, `[body]` its members, `[!body]` its non-members, `[lo-hi]` the characters between the bounds, and a literal `[` only itself |
| `Glob.QuestionMarkPattern` | takiyasha/utils.py:68 | `?` matches exactly the one-character names |
| `Glob.NegatedClassPattern` | takiyasha/utils.py:68 | `[!body]` matches exactly the one-character names whose character is not in the body |
| `Glob.LeadingStar` | takiyasha/utils.py:68 | a leading `*` matches when the rest of the pattern matches some suffix of the name |
| `Glob.StarFreeLength` | takiyasha/utils.py:68 | a pattern without `*` matches only names with one character per token |
| `Glob.StarThenFixed` | takiyasha/utils.py:68 | `*` followed by star-free tokens matches exactly when the name's tail of that length matches them |
| `Glob.PlainMatchesItself` | takiyasha/utils.py:68 | a pattern without `*`, `?` or `[` matches exactly the name equal to it |
| `Glob.StarThenPlain` | takiyasha/utils.py:68 | `*` followed by plain text matches exactly the names ending with that text |
| `Glob.TokenizePlainPrefix` | takiyasha/utils.py:68 | plain text at the start of a pattern becomes one literal token per character |
| `Glob.ClassItemsWithoutHyphen` | takiyasha/utils.py:68 | a class body without `-` is a set of single characters |
| `Glob.TokenizeSimpleClass` | takiyasha/utils.py:68 | a bracketed set of plain characters becomes one non-negated class token |
| `Glob.MatchesLiterals` | takiyasha/utils.py:68 | literal tokens match exactly the same characters of the name, with the rest of the pattern matching the rest of the name |
| `Glob.StarPlainClass` | takiyasha/utils.py:68 | `*stem[chars]` matches exactly the names that end with the stem followed by one of the characters |
| `Glob.ShapeMeaning` | takiyasha/utils.py:9-12 | each pattern shape in the scheme table matches exactly the names that end like it |
| `Names.GetEncryptionFormat` | takiyasha/utils.py:65-69 | the nested loops return the first scheme, in table order, that has a pattern matching the whole name, or None |
| `Names.SupportedFormatsPatterns` | takiyasha/utils.py:7-13 | the two schemes and their 1 + 15 patterns, character for character and in order; characterised by `Names.ClassificationBySuffix` |
| `Names.FirstScheme` | takiyasha/utils.py:66-69 | definition: the scheme at the first matching index, or None; characterised by `Names.FirstSchemeIsFirstMatch` |
| `Names.FirstSchemeIndex` | takiyasha/utils.py:66-69 | no scheme before the returned index has a matching pattern, and the scheme at the index has one, unless the index is past the end |
| `Names.FirstSchemeIsFirstMatch` | takiyasha/utils.py:66-69 | the result is None exactly when no pattern of any scheme matches; otherwise it is the earliest scheme with a matching pattern |
| `Names.NcmRowMeaning` | takiyasha/utils.py:8 | the ncm patterns match exactly the names ending in ".ncm" |
| `Names.QmcRowMeaning` | takiyasha/utils.py:9-12 | the qmc patterns match exactly the names ending in one of the 15 qmc endings, `[023468]`, `[0]` and `[01l]` each standing for one character from the set |
| `Names.ClassificationBySuffix` | takiyasha/utils.py:7-13 | the glob classification equals a classification stated on how the name ends: ".ncm" gives "ncm", a qmc ending gives "qmc", and anything else gives None |
| `Names.NcmExamples` | takiyasha/utils.py:8 | "a.ncm" and "track.ncm" are ncm |
| `Names.Qmc3Example` | takiyasha/utils.py:9 | "song.qmc3" is qmc, through the character class |
| `Names.Mflac0Example` | takiyasha/utils.py:11 | "a.mflac0" is qmc |
| `Names.Mp3Example` | takiyasha/utils.py:65-69 | "plain.mp3" has no scheme |
| `Names.RFind` | takiyasha/utils.py:62 | the result is -1 or an index holding the character, and no later index holds it |
| `Names.GetFileExt` | takiyasha/utils.py:61-62 | the extension is empty, or it starts with a dot, ends the name, and contains no other dot and no `/` |
| `Names.FileExtIsLastDotSuffix` | takiyasha/utils.py:61-62 | the extension is non-empty exactly when some dot in the last path component has a non-dot character before it; it is then the tail from the last dot |
| `Names.FileExtExamples` | takiyasha/utils.py:61-62 | "song.qmc3" gives ".qmc3", "a.tar.gz" gives ".gz", and ".bashrc" gives "" |
| `Streams.RaiseWhileNotFileobj` | takiyasha/utils.py:76-108 | the probe-by-probe method returns the outcome of the declarative check for the given flags |
| `Streams.Probe` | takiyasha/utils.py:84-108 | definition of one probe's outcome; characterised by `Streams.ProbeCauses` |
| `Streams.Validate` | takiyasha/utils.py:76-108 | definition: the first requested failing probe, in the order read, seek, write, under the keyword defaults; characterised by `Streams.ValidateInOrder`, `Streams.ValidatePassesIff` and `Streams.ValidateFailsAtFirst` |
| `Streams.ProbeCauses` | takiyasha/utils.py:84-108 | a probe reports Missing exactly when the operation is absent, Failed exactly when it raises, NotBinary exactly for a read that returns something other than bytes, and passes otherwise |
| `Streams.FirstFailurePassesIff` | takiyasha/utils.py:83-108 | the probes pass exactly when every requested probe passes |
| `Streams.FirstFailureFailsAtFirst` | takiyasha/utils.py:83-108 | a failure names the earliest requested failing probe, with that probe's cause |
| `Streams.ValidateInOrder` | takiyasha/utils.py:83-108 | read is probed first, then seek, then write, each only when requested |
| `Streams.ValidatePassesIff` | takiyasha/utils.py:83-108 | the check passes exactly when each requested capability's probe passes |
| `Streams.ValidateFailsAtFirst` | takiyasha/utils.py:83-108 | a failure names a requested capability whose probe failed, after every earlier requested probe passed |
| `Streams.DefaultsIgnoreWrite` | takiyasha/utils.py:79-81 | with the default flags, the write operation is never looked at |
| `Streams.ReadSeekOnlyStream` | takiyasha/utils.py:102-108 | a binary stream that reads and seeks but has no write passes the default check and fails `writable=True` with Write missing |
| `Streams.NoSeekStream` | takiyasha/utils.py:94-100 | a stream without seek fails on Seek as missing, whatever its write does |
| `Streams.TextStream` | takiyasha/utils.py:91-92 | a text-mode stream fails the read check as not binary |
| `ByteStrings.XorBytestrings` | takiyasha/utils.py:118-122 | unequal lengths are an error; otherwise the result has the common length and each byte is the xor of the two input bytes at that position |
| `ByteStrings.ZipXor` | takiyasha/utils.py:122 | the zipped xor has the shorter length and xors position by position |
| `ByteStrings.XorSelfIsZero` | takiyasha/utils.py:118-122 | xoring a string with itself gives zeros |
| `ByteStrings.XorCommutes` | takiyasha/utils.py:118-122 | xor is symmetric in its arguments, including the error case |
| `ByteStrings.XorInvolution` | takiyasha/utils.py:118-122 | xoring twice with the same key gives back the original, which is what keystream decryption relies on |

## Left out

- `is_fileobj` and `get_file_name_from_fileobj` (`takiyasha/utils.py:72-73`,
  `111-115`) are not part of this model. They depend on Python's runtime: type tests,
  `__fspath__`, and `getattr` with `str()` conversion.
- `Streams.RaiseWhileNotFileobj` describes a stream only by how its probes answer.
  It leaves out the bytes behind the stream and the cursor move of
  `seek(0, SEEK_END)`. The probe results, including what a probe raises, are
  inputs to the model.
- The exception text, which quotes the object's `repr`, is reduced to a
  capability and a cause.
- `Names.GetFileExt` follows POSIX `posixpath.splitext`. The Windows variant, with
  `\` and drive letters, is not modelled, and neither is `os.fspath` on `bytes` or
  `PathLike` names. Names are modelled as strings.
- `Names.GetEncryptionFormat` takes the name as a `str`; a `PathLike` name stands
  for its `os.fspath` text. A `bytes` name, which `fnmatch` rejects with a `TypeError`
  against the `str` patterns, is not modelled.
- `Glob` leaves out the platform's `os.path.normcase` inside `fnmatch`. On POSIX it
  does nothing; on Windows it folds case and turns `/` into `\`.
- `Glob`: a reversed range such as `[z-a]` matches nothing here. CPython's handling
  of `--` and explicitly empty ranges was not followed past that point. No pattern of
  the scheme table uses a range.
- `ByteStrings.XorBytestrings` takes `bytes` or `bytearray` arguments as one
  sequence type. It returns `Failure(LengthMismatch)` where the source raises
  `ValueError`.
- `Headers.GetAudioFormat` and `Headers.GetImageMime` return `None` where Python's
  function falls off its loop and returns `None` implicitly.
