# Spotlight image cataloguing and de-duplication, modelled in Dafny

The program copies the Windows Spotlight lock-screen images into a picture folder. It catalogues a
directory by fingerprinting every entry: format, pixel size, SHA-256 digest, file size and
modification time. Each catalogued image is checked against the acceptance rules set by the
command-line flags. Accepted images are copied to the target folder. The target folder is then
catalogued again. Duplicate images there are marked: the older copy of each equal pair. Marked
images are reported, and removed when asked for. Target images that break the rules are reported
too, and removed when asked for.

The model has four modules:

- `Wrappers` (wrappers.dfy): `Option` stands for a nil-able pointer, `Result` for an error return.
- `ImgInfo` (imginfo.dfy, from imginfo.go) holds these parts:
  - the record `ImgFileInfo`, with modification time as an integer;
  - the equality predicate `Equals`;
  - the shortened hash and name that the display form shows;
  - fingerprinting one file (`ImageInfo`), over a file system given as a parameter;
  - cataloguing a directory (`GetDirImages`, a loop specified by the function `Catalog`).
- `Validation` (validate.dfy, from main.go) holds these parts:
  - the flags as one `Config` value, and the rule chain `Validate`;
  - the rejection reasons and their message text, including `%d` number formatting;
  - the clean-up decision for target files that break the rules (`ValidateTarget`).
- `Dedup` (dedup.dfy, from main.go) holds these parts:
  - the in-place marking pass over an array of records (`MarkDuplicates`);
  - the reporting and removal selection (`ReportMarked`);
  - their composition, `RemoveDuplicateImages`.

The model keeps these behaviours of the code as they are written:

- An image is small when its width is at most 150 **or** its height is at most 150. One small
  dimension is enough for rejection; both need not be small (main.go:22).
- When both orientation flags are set, no orientation check happens at all. Landscape-only does
  not take over (main.go:31-37).
- On equal modification times, the inner-loop record is marked. For the first visit of a pair
  that is the record with the higher index (main.go:55-62).
- Portrait-only rejects images taller than wide (main.go:35). See "## Findings".

Outside effects are parameters or outputs of the model:

- The directory listing is a parameter: the entry names, or the error. The program's
  `ioutil.ReadDir` returns the entries sorted by file name. That order decides which of two
  equally new duplicates survives, because the tie goes to the earlier one in the catalog.
- Opening, stat-ing, decoding the header of, rewinding and hashing a file are given by a
  `FileSystem` function parameter.
- Path joining is a parameter.
- Removing files is modelled by returning the names of the files to remove.

## Model

| member | source | states |
|---|---|---|
| ImgInfo.Equals | imginfo.go:66-89 | nil equals nil; nil never equals a record; two records with one file name are equal whatever else differs; with different names they are equal iff size, format, width, height and hash bytes all agree |
| ImgInfo.EqualsSymmetric | imginfo.go:66-89 | equality does not depend on argument order |
| ImgInfo.EqualsReflexive | imginfo.go:73-75 | every record equals itself |
| ImgInfo.EqualsIgnoresModTimeAndMark | imginfo.go:65-89 | changing the modification time or the removal mark never changes equality |
| ImgInfo.EqualsNotTransitive | imginfo.go:73-88 | there are three records where the first equals the second and the second the third, but the first not the third |
| ImgInfo.HexEncode | imginfo.go:28 | the hex encoding has two characters per byte |
| ImgInfo.HexRoundTrip | imginfo.go:28 | decoding the hex encoding gives back the bytes, so the encoding loses nothing |
| ImgInfo.HexEncodeAppend | imginfo.go:28 | the encoding of a concatenation is the concatenation of the encodings |
| ImgInfo.ShortHash | imginfo.go:28-31 | the shown hash is the full hex encoding cut to at most 8 characters; this is the encoding of the first four bytes, or of all bytes when there are fewer |
| ImgInfo.ShortName | imginfo.go:32-35 | the shown name has at most 23 characters; it equals the name iff the name has at most 23 characters; otherwise it is "..." followed by the name's own last 20 characters |
| ImgInfo.ShortNameIdempotent | imginfo.go:32-35 | shortening a shown name again changes nothing |
| ImgInfo.ImageInfo | imginfo.go:91-123 | a record is built iff open, stat, header decode, rewind and hashing all succeed; it carries the path as its name, the stat size and time, the decoded format and dimensions and the digest, and is not marked |
| ImgInfo.CatalogAppend | imginfo.go:133-140 | cataloguing keeps listing order: the catalog of two runs of entries is the first run's catalog followed by the second's |
| ImgInfo.CatalogLength | imginfo.go:133-140 | the catalog is never longer than the listing, and is as long iff every entry fingerprints |
| ImgInfo.CatalogSound | imginfo.go:133-140 | every catalogued record is the fingerprint of a listed entry, named by joining the directory and the entry, and is unmarked |
| ImgInfo.CatalogComplete | imginfo.go:133-140 | every entry that fingerprints has its record in the catalog |
| ImgInfo.GetDirImages | imginfo.go:126-141 | an unreadable directory gives the panic message and no catalog; otherwise the loop returns exactly the catalog of the listing |
| Validation.Validate | main.go:21-40 | accept iff the size, height, width and orientation rules all hold; a rejection carries the record, and its reason is the first rule broken in that order |
| Validation.SmallEitherDimensionRejected | main.go:22-24 | with small images not allowed, width at most 150 or height at most 150 alone rejects as too small |
| Validation.CopySmallOnlyWidens | main.go:22-24 | allowing small images never rejects an accepted image and never gives the too-small reason |
| Validation.ZeroConstraintIgnoresDimension | main.go:25-30 | with both exact-size constraints 0, a change of dimensions that keeps the size rule and the orientation class keeps the verdict |
| Validation.LandscapeOnlyRule | main.go:31-34 | under landscape-only, an image passing the other rules is rejected iff it is taller than wide; square images pass |
| Validation.BothOrientationFlagsDisableCheck | main.go:31-38 | both orientation flags set give the verdicts of neither set, and never a "not landscape" rejection |
| Validation.PortraitOnlyActsAsLandscapeOnly | main.go:35-37 | as written, portrait-only gives exactly the verdicts and reasons of landscape-only |
| Validation.ValidateExamples | main.go:21-40 | with the flags' defaults, 100x100 and 1000x2000 are rejected and 2000x1000 is accepted |
| Validation.NatDecimal | main.go:23-36 | a printed natural number is a non-empty string of digits without leading zeros |
| Validation.DecimalRoundTrip | main.go:23-36 | every printed integer reads back as itself |
| Validation.Decimal | main.go:23-36 | a printed integer is non-empty and made of digits and a minus sign only |
| Validation.Message | main.go:23-36 | a "not landscape" reason gives a message ending in " not landscape" |
| Validation.MessageShape | main.go:23-36 | the first and last characters of a message tell its reason apart: "I" for too small, "h" for height, "w" for width, a number for orientation, with a last "e" for "not landscape" and "t" for "not portrait" |
| Validation.MessageInjective | main.go:23-36 | distinct reasons give distinct messages, so each message determines its rule and every number it shows |
| Validation.MismatchTextInjective | main.go:26-29 | the height or width message determines the actual and the expected number |
| Validation.DimensionsTextInjective | main.go:33-36 | the orientation message determines the width and the height |
| Validation.SplitAtSeparator | main.go:23-36 | a separator that occurs in neither of two texts splits equal joined strings at the same place |
| Validation.NumberThenSeparator | main.go:23-36 | a printed number followed by a non-digit separator determines the number and the rest |
| Validation.TooSmallMessage | main.go:23 | the too-small message is "Image 150x150 or smaller" |
| Validation.ValidateCorrected | main.go:35-37 | corrected portrait rule: same as Validate except under portrait-only, where the size, height and width rejections are Validate's, and an image passing them is accepted iff it is not wider than tall; a wider image gets the "not portrait" reason |
| Validation.PortraitImageRejected | main.go:35-37 | under portrait-only, a 1000x2000 portrait image is rejected as "not landscape" as written, and accepted by the corrected rule |
| Validation.FailingMembers | main.go:125-136 | a record is among the failing ones iff it is in the catalog and validation rejects it |
| Validation.ValidateTarget | main.go:125-136 | with removal enabled, the files removed are exactly the failing records' files, in order; otherwise the failing records are only reported |
| Dedup.MarkedMembers | main.go:75-84 | a record is among the marked ones iff it is in the catalog and marked |
| Dedup.NoMarksNoneMarked | main.go:67-69 | a catalog without marks has no marked records |
| Dedup.MarkOneMore | main.go:57-62 | setting one unset mark raises the number of marked records by exactly one |
| Dedup.MarkStep | main.go:55-63 | marking a record that lost to an equal record keeps every invariant of the pass and adds one mark |
| Dedup.SettledPair | main.go:50-54 | once a record has been the outer one, each record equal to it has one of the two marked |
| Dedup.SettledMonotone | main.go:51-54 | adding marks never unsettles a pair |
| Dedup.MarkDuplicates | main.go:44-66 | only marks change; marks are never cleared; no two distinct equal records stay both unmarked; each new mark is on a record equal to a newer one (or to an as-new one earlier in the catalog); cleancount is the number of new marks |
| Dedup.Best | main.go:55-62 | the preferred record among those with the same contents as a given one: none of them is newer, or as new and earlier |
| Dedup.DistinctEquals | imginfo.go:73-88 | in a catalog with distinct names, two distinct records are equal iff their contents agree |
| Dedup.BestUnbeaten | main.go:55-62 | no record wins over the preferred record of its group |
| Dedup.BestKept | main.go:51-62 | the preferred record of a group never ends marked |
| Dedup.GroupKeepsBest | main.go:45-66 | on a catalog with distinct names and no marks, a record ends marked iff an equal record is preferred over it, and every group keeps an unmarked record; so each group keeps exactly its newest record, the earliest of them on a tie |
| Dedup.TwoCopiesOneKept | main.go:55-62 | of two equal unmarked records exactly one ends marked: the first iff the second is strictly newer |
| Dedup.ReportMarked | main.go:67-84 | nothing happens when cleancount is 0; otherwise exactly the marked records are reported, in order, and their files are removed iff removal is asked for |
| Dedup.RemoveDuplicateImages | main.go:43-85 | everything MarkDuplicates promises; the report is empty when the pass marked nothing and otherwise is the marked records; on a fresh catalog it is exactly the marked records, and with distinct names a record ends marked iff an equal record is preferred over it |

## Findings

| source | as written | input that shows it | evidently intended | confidence | as-written member | corrected member |
|---|---|---|---|---|---|---|
| main.go:35-36 | portrait-only rejects images whose height exceeds their width, with the reason "not landscape" | flags landscape=false, portrait=true; a 1000x2000 image is rejected with "1000x2000 not landscape" | portrait-only rejects images wider than tall, with "not portrait", mirroring the landscape-only test at main.go:32, so square images pass both | high; not executed | Validation.PortraitImageRejected | Validation.ValidateCorrected |

`Validate` and the clean-up decision that uses it keep the rule as written, because they
describe what the program does.

## Left out

- Flag parsing, log-file redirection, creating the target folder and the source-to-target copy loop in `main` (main.go:87-124): command-line and file-system plumbing. The copy step depends on a routine that is not part of this model.
- Log output throughout, including the "Remove ... won ..." lines of the marking pass: reporting only.
- Failure of file removal: the model returns the names to remove; failed removals are only logged by the program.
- Opening, stat-ing, header decoding, rewinding and SHA-256 hashing of a file (imginfo.go:94-118): library I/O. The `FileSystem` parameter gives each step's outcome, and the digest is an uninterpreted byte sequence.
- `filepath.Join` and the order of `ioutil.ReadDir`: both are parameters (a join function, and the listing as given).
- The full `String` and `LongString` layouts (imginfo.go:36-62) and the rejection's `Error` text (imgerror.go:17-19): they print a `time.Time`. Only the name and hash shortening is modelled.
- `time.Time`: modification times are integers and "after" is `>`.
- screenres_win.go: a Windows system call that nothing in the program uses.
- Pointer aliasing: the catalog is an array of record values. The program's slice holds distinct pointers, so marking one record never changes another.
- ImgInfo.ShortName: counts characters, where Go counts bytes. The two agree on names made of single-byte characters.
- Integer widths: sizes and dimensions are unbounded integers. The program's int64 and int values do not overflow on real files.
