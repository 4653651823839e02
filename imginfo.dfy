/** The image record, its equality predicate, its short display form, and the
    cataloguing of one directory (imginfo.go). */
module ImgInfo {
  import opened Wrappers

  newtype byte = b: int | 0 <= b < 256

  /** One fingerprinted image file. `doClean` is the only field that changes after
      the record is built: duplicate resolution sets it on the record to remove.
      `modTime` is the modification time as an integer (later means larger). */
  datatype ImgFileInfo = ImgFileInfo(
    fileName: string,
    format: string,
    width: int,
    height: int,
    fileHash: seq<byte>,
    fileSize: int,
    modTime: int,
    doClean: bool)

  /** The fields that decide equality of two records with different names. */
  datatype Content = Content(fileSize: int, format: string, width: int, height: int, fileHash: seq<byte>)

  function ContentOf(im: ImgFileInfo): Content {
    Content(im.fileSize, im.format, im.width, im.height, im.fileHash)
  }

  // ---------------------------------------------------------------------------
  // Equality (ImgFileInfo.Equals); `None` plays the nil pointer.
  // ---------------------------------------------------------------------------

  function Equals(im: Option<ImgFileInfo>, im2: Option<ImgFileInfo>): (r: bool)
    ensures im.None? && im2.None? ==> r
    ensures im.None? != im2.None? ==> !r
    ensures im.Some? && im2.Some? && im.value.fileName == im2.value.fileName ==> r
    ensures im.Some? && im2.Some? && im.value.fileName != im2.value.fileName ==>
              (r <==> ContentOf(im.value) == ContentOf(im2.value))
  {
    if im.None? && im2.None? then true
    else if im.None? || im2.None? then false
    else if im.value.fileName == im2.value.fileName then true
    else if im.value.fileSize != im2.value.fileSize then false
    else if im.value.format != im2.value.format then false
    else if im.value.width != im2.value.width || im.value.height != im2.value.height then false
    else if im.value.fileHash != im2.value.fileHash then false
    else true
  }

  lemma EqualsSymmetric(im: Option<ImgFileInfo>, im2: Option<ImgFileInfo>)
    ensures Equals(im, im2) == Equals(im2, im)
  {
  }

  lemma EqualsReflexive(im: ImgFileInfo)
    ensures Equals(Some(im), Some(im))
  {
  }

  /** Neither the modification time nor the removal mark takes part in equality. */
  lemma EqualsIgnoresModTimeAndMark(im: ImgFileInfo, im2: Option<ImgFileInfo>, t: int, d: bool)
    ensures Equals(Some(im.(modTime := t, doClean := d)), im2) == Equals(Some(im), im2)
  {
  }

  /** Equality is not transitive: the name short-circuit links a record to one
      with other contents, which in turn matches a third by contents. */
  lemma EqualsNotTransitive()
    ensures exists a: ImgFileInfo, b: ImgFileInfo, c: ImgFileInfo ::
              Equals(Some(a), Some(b)) && Equals(Some(b), Some(c)) && !Equals(Some(a), Some(c))
  {
    var a := ImgFileInfo("x.jpg", "jpeg", 200, 200, [1], 10, 0, false);
    var b := ImgFileInfo("x.jpg", "png", 300, 300, [2], 20, 0, false);
    var c := ImgFileInfo("y.png", "png", 300, 300, [2], 20, 0, false);
    assert Equals(Some(a), Some(b)) && Equals(Some(b), Some(c)) && !Equals(Some(a), Some(c));
  }

  // ---------------------------------------------------------------------------
  // Short display form (the name and hash parts of ImgFileInfo.String).
  // ---------------------------------------------------------------------------

  const ShownHashChars: nat := 8
  const ShownNameTail: nat := 20
  const Ellipsis: string := "..."

  /** The lower-case hexadecimal digit for `n`. */
  function HexDigit(n: nat): (ch: char)
    requires n < 16
    ensures '0' <= ch <= '9' || 'a' <= ch <= 'f'
  {
    if n < 10 then ('0' as int + n) as char else ('a' as int + n - 10) as char
  }

  /** Lower-case hexadecimal, two characters per byte, most significant nibble first. */
  function HexEncode(bs: seq<byte>): (s: string)
    ensures |s| == 2 * |bs|
  {
    if bs == [] then []
    else [HexDigit(bs[0] as int / 16), HexDigit(bs[0] as int % 16)] + HexEncode(bs[1..])
  }

  /** The value of a lower-case hexadecimal digit, the inverse of HexDigit. */
  function HexValue(ch: char): (r: Option<nat>)
    ensures r.Some? <==> '0' <= ch <= '9' || 'a' <= ch <= 'f'
    ensures r.Some? ==> r.value < 16 && HexDigit(r.value) == ch
  {
    if '0' <= ch <= '9' then Some(ch as int - '0' as int)
    else if 'a' <= ch <= 'f' then Some(ch as int - 'a' as int + 10)
    else None
  }

  /** The inverse of HexEncode: `None` for odd length or a character that is not a hex digit. */
  function HexDecode(s: string): (r: Option<seq<byte>>)
    ensures r.Some? ==> 2 * |r.value| == |s|
    decreases |s|
  {
    if s == [] then Some([])
    else if |s| == 1 then None
    else
      match (HexValue(s[0]), HexValue(s[1]), HexDecode(s[2..]))
      case (Some(hi), Some(lo), Some(rest)) => Some([(hi * 16 + lo) as byte] + rest)
      case _ => None
  }

  lemma {:induction false} HexRoundTrip(bs: seq<byte>)
    ensures HexDecode(HexEncode(bs)) == Some(bs)
  {
    if bs != [] {
      var s := HexEncode(bs);
      var v := bs[0] as int;
      var hi, lo := v / 16, v % 16;
      assert s == [HexDigit(hi), HexDigit(lo)] + HexEncode(bs[1..]);
      assert s[2..] == HexEncode(bs[1..]);
      HexRoundTrip(bs[1..]);
      assert HexValue(s[0]) == Some(hi) && HexValue(s[1]) == Some(lo);
      assert hi * 16 + lo == v;
      assert HexDecode(s) == Some([(hi * 16 + lo) as byte] + bs[1..]);
      assert [bs[0]] + bs[1..] == bs;
    }
  }

  lemma {:induction false} HexEncodeAppend(a: seq<byte>, b: seq<byte>)
    ensures HexEncode(a + b) == HexEncode(a) + HexEncode(b)
  {
    if a != [] {
      assert (a + b)[1..] == a[1..] + b;
      HexEncodeAppend(a[1..], b);
    } else {
      assert a + b == b;
    }
  }

  /** The hash as shown: the hex encoding of the hash, cut to its first 8 characters,
      which is the hex encoding of its first four bytes. */
  function ShortHash(h: seq<byte>): (s: string)
    ensures |s| == if |h| < 4 then 2 * |h| else ShownHashChars
    ensures s == HexEncode(h[..if |h| < 4 then |h| else 4])
    ensures HexEncode(h)[..|s|] == s
  {
    var full := HexEncode(h);
    if |full| > ShownHashChars then
      HexEncodeAppend(h[..4], h[4..]);
      assert h[..4] + h[4..] == h;
      full[..ShownHashChars]
    else
      assert h[..|h|] == h;
      full
  }

  /** The file name as shown: unchanged when it has at most 23 characters, otherwise
      "..." followed by its last 20 characters. */
  function ShortName(name: string): (s: string)
    ensures |s| <= |Ellipsis| + ShownNameTail
    ensures s == name <==> |name| <= |Ellipsis| + ShownNameTail
    ensures s != name ==> |s| == |Ellipsis| + ShownNameTail && s[..|Ellipsis|] == Ellipsis
    ensures s != name ==> EndsWith(name, s[|Ellipsis|..])
  {
    if |name| > ShownNameTail + |Ellipsis| then Ellipsis + name[|name| - ShownNameTail..]
    else name
  }

  predicate EndsWith(s: string, suffix: string) {
    |suffix| <= |s| && s[|s| - |suffix|..] == suffix
  }

  lemma ShortNameIdempotent(name: string)
    ensures ShortName(ShortName(name)) == ShortName(name)
  {
  }

  // ---------------------------------------------------------------------------
  // Fingerprinting one file (imageInfo). The file system is a parameter: what
  // opening a path yields, and then what each later step on the open file yields.
  // ---------------------------------------------------------------------------

  /** Size and modification time from the file's metadata. */
  datatype FileStat = FileStat(size: int, modTime: int)

  /** Codec name and pixel dimensions from the decoded image header. */
  datatype Header = Header(format: string, width: int, height: int)

  /** An opened file: each later step either succeeds with its value or fails. */
  datatype OpenFile = OpenFile(
    stat: Option<FileStat>,
    header: Option<Header>,
    rewindOk: bool,
    digest: Option<seq<byte>>)

  /** What opening each path yields; `None` when it cannot be opened. */
  type FileSystem = string -> Option<OpenFile>

  /** Every step of fingerprinting succeeds on `f`. */
  predicate Readable(f: OpenFile) {
    f.stat.Some? && f.header.Some? && f.rewindOk && f.digest.Some?
  }

  function ImageInfo(fs: FileSystem, fn: string): (r: Option<ImgFileInfo>)
    ensures r.Some? <==> fs(fn).Some? && Readable(fs(fn).value)
    ensures r.Some? ==> r.value.fileName == fn && !r.value.doClean
    ensures r.Some? ==>
              var f := fs(fn).value;
              && r.value.fileSize == f.stat.value.size
              && r.value.modTime == f.stat.value.modTime
              && r.value.format == f.header.value.format
              && r.value.width == f.header.value.width
              && r.value.height == f.header.value.height
              && r.value.fileHash == f.digest.value
  {
    match fs(fn)
    case None => None
    case Some(f) =>
      match f.stat
      case None => None
      case Some(st) =>
        match f.header
        case None => None
        case Some(hd) =>
          if !f.rewindOk then None
          else
            match f.digest
            case None => None
            case Some(sum) =>
              Some(ImgFileInfo(fn, hd.format, hd.width, hd.height, sum, st.size, st.modTime, false))
  }

  // ---------------------------------------------------------------------------
  // Cataloguing one directory (GetDirImages).
  // ---------------------------------------------------------------------------

  /** The catalog of the listed entries: the records of the entries that fingerprint,
      in listing order. */
  function Catalog(dir: string, names: seq<string>, join: (string, string) -> string, fs: FileSystem): seq<ImgFileInfo>
  {
    if names == [] then []
    else
      var last := ImageInfo(fs, join(dir, names[|names| - 1]));
      Catalog(dir, names[..|names| - 1], join, fs) + (if last.Some? then [last.value] else [])
  }

  /** Cataloguing is order-preserving: the catalog of two runs of entries is the
      catalog of the first followed by that of the second. */
  lemma {:induction false} CatalogAppend(dir: string, xs: seq<string>, ys: seq<string>, join: (string, string) -> string, fs: FileSystem)
    ensures Catalog(dir, xs + ys, join, fs) == Catalog(dir, xs, join, fs) + Catalog(dir, ys, join, fs)
    decreases |ys|
  {
    if ys == [] {
      assert xs + ys == xs;
    } else {
      var zs := xs + ys;
      assert zs[..|zs| - 1] == xs + ys[..|ys| - 1];
      assert zs[|zs| - 1] == ys[|ys| - 1];
      CatalogAppend(dir, xs, ys[..|ys| - 1], join, fs);
    }
  }

  /** A catalog never holds more records than there are entries, and holds one per
      entry exactly when every entry fingerprints. */
  lemma {:induction false} CatalogLength(dir: string, names: seq<string>, join: (string, string) -> string, fs: FileSystem)
    ensures |Catalog(dir, names, join, fs)| <= |names|
    ensures |Catalog(dir, names, join, fs)| == |names| <==>
              forall i :: 0 <= i < |names| ==> ImageInfo(fs, join(dir, names[i])).Some?
  {
    if names != [] {
      var init := names[..|names| - 1];
      CatalogLength(dir, init, join, fs);
      if forall i :: 0 <= i < |names| ==> ImageInfo(fs, join(dir, names[i])).Some? {
        assert forall i :: 0 <= i < |init| ==> ImageInfo(fs, join(dir, init[i])).Some? by {
          forall i | 0 <= i < |init| ensures ImageInfo(fs, join(dir, init[i])).Some? {
            assert init[i] == names[i];
          }
        }
      }
    }
  }

  /** Every catalogued record is the fingerprint of some listed entry, named by
      joining the directory with that entry, and is not marked for removal. */
  lemma {:induction false} CatalogSound(dir: string, names: seq<string>, join: (string, string) -> string, fs: FileSystem, k: nat)
    requires k < |Catalog(dir, names, join, fs)|
    ensures exists i :: 0 <= i < |names| && Some(Catalog(dir, names, join, fs)[k]) == ImageInfo(fs, join(dir, names[i]))
    ensures !Catalog(dir, names, join, fs)[k].doClean
  {
    var init := names[..|names| - 1];
    var last := ImageInfo(fs, join(dir, names[|names| - 1]));
    if k < |Catalog(dir, init, join, fs)| {
      CatalogSound(dir, init, join, fs, k);
      var i :| 0 <= i < |init| && Some(Catalog(dir, init, join, fs)[k]) == ImageInfo(fs, join(dir, init[i]));
      assert init[i] == names[i];
    } else {
      assert Some(Catalog(dir, names, join, fs)[k]) == last;
    }
  }

  /** Every entry that fingerprints has its record in the catalog. */
  lemma {:induction false} CatalogComplete(dir: string, names: seq<string>, join: (string, string) -> string, fs: FileSystem, i: nat)
    requires i < |names| && ImageInfo(fs, join(dir, names[i])).Some?
    ensures ImageInfo(fs, join(dir, names[i])).value in Catalog(dir, names, join, fs)
  {
    if i < |names| - 1 {
      var init := names[..|names| - 1];
      assert init[i] == names[i];
      CatalogComplete(dir, init, join, fs, i);
    }
  }

  function DirError(dir: string, err: string): string {
    "Could not open directory '" + dir + "': " + err
  }

  /** Catalogues the directory `dir` whose listing is `listing`: the entry names in
      listing order, or the error of reading the directory, which aborts the run
      (a panic in the program; here a `Failure` carrying the panic message). */
  method GetDirImages(dir: string, listing: Result<seq<string>, string>, join: (string, string) -> string, fs: FileSystem)
    returns (r: Result<seq<ImgFileInfo>, string>)
    ensures listing.Failure? ==> r == Failure(DirError(dir, listing.error))
    ensures listing.Success? ==> r == Success(Catalog(dir, listing.value, join, fs))
  {
    if listing.Failure? {
      return Failure(DirError(dir, listing.error));
    }
    var files := listing.value;
    var fileinfo: seq<ImgFileInfo> := [];
    for i := 0 to |files|
      invariant fileinfo == Catalog(dir, files[..i], join, fs)
    {
      var fn := join(dir, files[i]);
      var fi := ImageInfo(fs, fn);
      assert files[..i + 1][..i] == files[..i];
      if fi.Some? {
        fileinfo := fileinfo + [fi.value];
      }
    }
    assert files[..|files|] == files;
    return Success(fileinfo);
  }

  /** The names of the given records, in order. */
  function FileNames(rs: seq<ImgFileInfo>): (ns: seq<string>)
    ensures |ns| == |rs|
    ensures forall k :: 0 <= k < |rs| ==> ns[k] == rs[k].fileName
  {
    seq(|rs|, k requires 0 <= k < |rs| => rs[k].fileName)
  }
}
