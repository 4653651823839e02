/** The acceptance rules for one image record (ImgFileInfo.Validate) and the
    clean-up decision the program takes on the target directory with them. The
    program's process-wide flags are passed in as one configuration value. */
module Validation {
  import opened Wrappers
  import opened ImgInfo

  /** The command-line flags: orientation preferences, "copy small images",
      exact height and width (0 disables each), de-duplication, and removal of
      target files that fail validation. */
  datatype Config = Config(
    prefLandscape: bool,
    prefPortrait: bool,
    copySmallImages: bool,
    ignoreWidth: int,
    ignoreHeight: int,
    targetDeDup: bool,
    targetValidateClean: bool)

  /** The flags' default values. */
  const DefaultConfig := Config(true, false, false, 0, 0, false, false)

  const SmallWidth := 150
  const SmallHeight := 150

  /** Why a record was rejected; the numbers are those the message shows. */
  datatype Reason =
    | TooSmall
    | HeightMismatch(height: int, expected: int)
    | WidthMismatch(width: int, expected: int)
    | NotLandscape(width: int, height: int)
    | NotPortrait(width: int, height: int)

  /** A rejection: the reason and the rejected record. */
  datatype ImgError = ImgError(reason: Reason, imgInfo: ImgFileInfo)

  // ---------------------------------------------------------------------------
  // The individual rules, each stated on its own.
  // ---------------------------------------------------------------------------

  /** Either dimension at or under its minimum makes an image small. */
  predicate IsSmall(img: ImgFileInfo) {
    img.width <= SmallWidth || img.height <= SmallHeight
  }

  predicate SizeOk(c: Config, img: ImgFileInfo) {
    c.copySmallImages || !IsSmall(img)
  }

  predicate HeightOk(c: Config, img: ImgFileInfo) {
    c.ignoreHeight == 0 || img.height == c.ignoreHeight
  }

  predicate WidthOk(c: Config, img: ImgFileInfo) {
    c.ignoreWidth == 0 || img.width == c.ignoreWidth
  }

  datatype Orientation = LandscapeOnly | PortraitOnly | Unconstrained

  /** The orientation constraint the two flags select: exactly one flag set
      constrains, both or neither leave orientation free. */
  function OrientationOf(c: Config): Orientation {
    if c.prefLandscape == c.prefPortrait then Unconstrained
    else if c.prefLandscape then LandscapeOnly
    else PortraitOnly
  }

  /** What each constraint lets through. Portrait-only, as the program has it,
      lets through the same images as landscape-only: those not taller than wide. */
  predicate OrientationOk(c: Config, img: ImgFileInfo) {
    match OrientationOf(c)
    case LandscapeOnly => img.width >= img.height
    case PortraitOnly => img.width >= img.height
    case Unconstrained => true
  }

  predicate Acceptable(c: Config, img: ImgFileInfo) {
    SizeOk(c, img) && HeightOk(c, img) && WidthOk(c, img) && OrientationOk(c, img)
  }

  // ---------------------------------------------------------------------------
  // The rule chain.
  // ---------------------------------------------------------------------------

  /** `None` accepts the record; a rejection names the first rule, in the order
      size, height, width, orientation, that the record breaks. */
  function Validate(c: Config, img: ImgFileInfo): (r: Option<ImgError>)
    ensures r.None? <==> Acceptable(c, img)
    ensures r.Some? ==> r.value.imgInfo == img
    ensures !SizeOk(c, img) ==> r == Some(ImgError(TooSmall, img))
    ensures SizeOk(c, img) && !HeightOk(c, img) ==>
              r == Some(ImgError(HeightMismatch(img.height, c.ignoreHeight), img))
    ensures SizeOk(c, img) && HeightOk(c, img) && !WidthOk(c, img) ==>
              r == Some(ImgError(WidthMismatch(img.width, c.ignoreWidth), img))
    ensures SizeOk(c, img) && HeightOk(c, img) && WidthOk(c, img) && !OrientationOk(c, img) ==>
              r == Some(ImgError(NotLandscape(img.width, img.height), img))
  {
    if !c.copySmallImages && (img.width <= SmallWidth || img.height <= SmallHeight) then
      Some(ImgError(TooSmall, img))
    else if c.ignoreHeight != 0 && img.height != c.ignoreHeight then
      Some(ImgError(HeightMismatch(img.height, c.ignoreHeight), img))
    else if c.ignoreWidth != 0 && img.width != c.ignoreWidth then
      Some(ImgError(WidthMismatch(img.width, c.ignoreWidth), img))
    else if c.prefLandscape || c.prefPortrait then
      if c.prefLandscape && !c.prefPortrait && img.width < img.height then
        Some(ImgError(NotLandscape(img.width, img.height), img))
      else if !c.prefLandscape && c.prefPortrait && img.height > img.width then
        Some(ImgError(NotLandscape(img.width, img.height), img))
      else
        None
    else
      None
  }

  /** With small images not allowed, one small dimension is enough for rejection. */
  lemma SmallEitherDimensionRejected(c: Config, img: ImgFileInfo)
    requires !c.copySmallImages
    requires img.width <= SmallWidth || img.height <= SmallHeight
    ensures Validate(c, img) == Some(ImgError(TooSmall, img))
  {
  }

  /** Allowing small images never turns an accepted record into a rejected one,
      and never yields the small-image reason. */
  lemma CopySmallOnlyWidens(c: Config, img: ImgFileInfo)
    ensures Validate(c, img).None? ==> Validate(c.(copySmallImages := true), img).None?
    ensures Validate(c.(copySmallImages := true), img) != Some(ImgError(TooSmall, img))
  {
  }

  /** A zero exact-size constraint never rejects: a record differing only in that
      dimension gets the same verdict. */
  lemma ZeroConstraintIgnoresDimension(c: Config, img: ImgFileInfo, w: int, h: int)
    requires c.ignoreWidth == 0 && c.ignoreHeight == 0
    requires SizeOk(c, img.(width := w, height := h)) && SizeOk(c, img)
    requires (w >= h) == (img.width >= img.height)
    ensures Validate(c, img.(width := w, height := h)).None? == Validate(c, img).None?
  {
  }

  /** Landscape-only rejects for orientation exactly when the image is taller than
      wide, so square images pass. */
  lemma LandscapeOnlyRule(c: Config, img: ImgFileInfo)
    requires c.prefLandscape && !c.prefPortrait
    requires SizeOk(c, img) && HeightOk(c, img) && WidthOk(c, img)
    ensures Validate(c, img).Some? <==> img.width < img.height
    ensures img.width == img.height ==> Validate(c, img).None?
  {
  }

  /** Both orientation flags set behave as neither set: no orientation check. */
  lemma BothOrientationFlagsDisableCheck(c: Config, img: ImgFileInfo)
    requires c.prefLandscape && c.prefPortrait
    ensures Validate(c, img) == Validate(c.(prefLandscape := false, prefPortrait := false), img)
    ensures Validate(c, img).Some? ==> !Validate(c, img).value.reason.NotLandscape?
  {
  }

  /** Portrait-only, as written, rejects images taller than wide, with the
      "not landscape" reason: exactly the verdicts of landscape-only. */
  lemma PortraitOnlyActsAsLandscapeOnly(c: Config, img: ImgFileInfo)
    requires !c.prefLandscape && c.prefPortrait
    ensures Validate(c, img) == Validate(c.(prefLandscape := true, prefPortrait := false), img)
  {
  }

  /** Worked cases: a 100x100 image under the default flags, and a portrait and a
      landscape image under landscape-only. */
  lemma ValidateExamples(img: ImgFileInfo)
    ensures Validate(DefaultConfig, img.(width := 100, height := 100)).Some?
    ensures Validate(DefaultConfig, img.(width := 1000, height := 2000)).Some?
    ensures Validate(DefaultConfig, img.(width := 2000, height := 1000)).None?
  {
  }

  // ---------------------------------------------------------------------------
  // Rejection messages (the `Err` text of the rejection).
  // ---------------------------------------------------------------------------

  function DigitChar(d: nat): (ch: char)
    requires d < 10
    ensures '0' <= ch <= '9'
  {
    ('0' as int + d) as char
  }

  predicate AllDigits(s: string) {
    forall k :: 0 <= k < |s| ==> '0' <= s[k] <= '9'
  }

  /** The decimal digits of `n`, without leading zeros. */
  function NatDecimal(n: nat): (s: string)
    ensures |s| >= 1 && (|s| > 1 ==> s[0] != '0')
    ensures AllDigits(s)
  {
    if n < 10 then [DigitChar(n)] else NatDecimal(n / 10) + [DigitChar(n % 10)]
  }

  /** An integer as the %d verb prints it: a minus sign for negative values. */
  function Decimal(n: int): (s: string)
    ensures |s| >= 1
    ensures forall k :: 0 <= k < |s| ==> s[k] == '-' || '0' <= s[k] <= '9'
  {
    if n < 0 then "-" + NatDecimal(-n) else NatDecimal(n)
  }

  function DigitsValue(s: string): nat
    requires AllDigits(s)
  {
    if s == [] then 0 else DigitsValue(s[..|s| - 1]) * 10 + (s[|s| - 1] as int - '0' as int)
  }

  /** Reads back what Decimal prints; `None` for anything that is not such a numeral. */
  function ParseDecimal(s: string): (r: Option<int>) {
    if |s| > 1 && s[0] == '-' && AllDigits(s[1..]) then
      Some(-(DigitsValue(s[1..]) as int))
    else if |s| > 0 && AllDigits(s) then
      Some(DigitsValue(s))
    else None
  }

  lemma {:induction false} NatDecimalValue(n: nat)
    ensures DigitsValue(NatDecimal(n)) == n
  {
    if n >= 10 {
      var s := NatDecimal(n);
      assert s[..|s| - 1] == NatDecimal(n / 10);
      NatDecimalValue(n / 10);
    }
  }

  /** Printed numbers read back as themselves, so distinct numbers print differently. */
  lemma DecimalRoundTrip(n: int)
    ensures ParseDecimal(Decimal(n)) == Some(n)
  {
    var s := Decimal(n);
    if n < 0 {
      var t := NatDecimal(-n);
      assert s[0] == '-' && s[1..] == t;
      NatDecimalValue(-n);
    } else {
      assert s[0] != '-';
      NatDecimalValue(n);
    }
  }

  /** The message text of each reason. The two orientation rejections of the
      program both say "not landscape". */
  function Message(reason: Reason): (m: string)
    ensures reason.NotLandscape? ==> EndsWith(m, " not landscape")
    ensures reason.NotPortrait? ==> EndsWith(m, " not portrait")
  {
    match reason
    case TooSmall => "Image " + Decimal(SmallWidth) + "x" + Decimal(SmallHeight) + " or smaller"
    case HeightMismatch(h, e) => "height " + Decimal(h) + " != expected " + Decimal(e)
    case WidthMismatch(w, e) => "width " + Decimal(w) + " != expected " + Decimal(e)
    case NotLandscape(w, h) => Decimal(w) + "x" + Decimal(h) + " not landscape"
    case NotPortrait(w, h) => Decimal(w) + "x" + Decimal(h) + " not portrait"
  }

  /** `sep` occurs nowhere in `a` or `b`, so it marks where each ends. */
  lemma {:induction false} SplitAtSeparator(a: string, b: string, sep: char, r1: string, r2: string)
    requires forall k :: 0 <= k < |a| ==> a[k] != sep
    requires forall k :: 0 <= k < |b| ==> b[k] != sep
    requires a + [sep] + r1 == b + [sep] + r2
    ensures a == b && r1 == r2
  {
    var m1, m2 := a + [sep] + r1, b + [sep] + r2;
    if |a| < |b| {
      SeparatorAt(a, sep, r1, |a|);
      SeparatorAt(b, sep, r2, |a|);
    } else if |b| < |a| {
      SeparatorAt(b, sep, r2, |b|);
    } else {
      assert a == m1[..|a|] && b == m2[..|b|];
      assert r1 == m1[|a| + 1..] && r2 == m2[|b| + 1..];
    }
  }

  lemma SeparatorAt(a: string, sep: char, r: string, k: nat)
    requires forall i :: 0 <= i < |a| ==> a[i] != sep
    requires k <= |a|
    ensures k < |a| ==> (a + [sep] + r)[k] != sep
    ensures k == |a| ==> (a + [sep] + r)[k] == sep
  {
  }

  lemma DecimalInjective(a: int, b: int)
    requires Decimal(a) == Decimal(b)
    ensures a == b
  {
    DecimalRoundTrip(a);
    DecimalRoundTrip(b);
  }

  /** A printed number followed by `sep` and some rest, where `sep` is neither a
      digit nor a minus sign, determines both the number and the rest. */
  lemma NumberThenSeparator(a: int, b: int, sep: char, r1: string, r2: string)
    requires sep != '-' && !('0' <= sep <= '9')
    requires Decimal(a) + [sep] + r1 == Decimal(b) + [sep] + r2
    ensures a == b && r1 == r2
  {
    SplitAtSeparator(Decimal(a), Decimal(b), sep, r1, r2);
    DecimalInjective(a, b);
  }

  /** A text, a printed number and a fixed tail determine the number. */
  lemma NumberBetween(p: string, a: int, b: int, tail: string)
    requires p + Decimal(a) + tail == p + Decimal(b) + tail
    ensures a == b
  {
    var m1, m2 := p + Decimal(a) + tail, p + Decimal(b) + tail;
    assert Decimal(a) == m1[|p|..|m1| - |tail|];
    assert Decimal(b) == m2[|p|..|m2| - |tail|];
    DecimalInjective(a, b);
  }

  /** The height and width messages: the name of the dimension, the actual and
      the expected number. */
  lemma MismatchTextInjective(pre: string, a1: int, e1: int, a2: int, e2: int)
    requires pre + Decimal(a1) + " != expected " + Decimal(e1) == pre + Decimal(a2) + " != expected " + Decimal(e2)
    ensures a1 == a2 && e1 == e2
  {
    var lit := "!= expected ";
    var d1, d2 := Decimal(a1), Decimal(a2);
    var rest1, rest2 := lit + Decimal(e1), lit + Decimal(e2);
    SplitLayout(pre, d1, lit, Decimal(e1));
    SplitLayout(pre, d2, lit, Decimal(e2));
    var x1, x2 := d1 + [' '] + rest1, d2 + [' '] + rest2;
    assert x1 == (pre + x1)[|pre|..];
    assert x2 == (pre + x2)[|pre|..];
    NumberThenSeparator(a1, a2, ' ', rest1, rest2);
    assert rest1 + "" == rest1 && rest2 + "" == rest2;
    NumberBetween(lit, e1, e2, "");
  }

  lemma SplitLayout(pre: string, d: string, lit: string, e: string)
    requires lit == "!= expected "
    ensures pre + d + " != expected " + e == pre + (d + [' '] + (lit + e))
  {
  }

  /** The orientation messages: width, "x", height and a fixed tail. */
  lemma DimensionsTextInjective(w1: int, h1: int, w2: int, h2: int, tail: string)
    requires Decimal(w1) + "x" + Decimal(h1) + tail == Decimal(w2) + "x" + Decimal(h2) + tail
    ensures w1 == w2 && h1 == h2
  {
    var m := Decimal(w1) + "x" + Decimal(h1) + tail;
    assert m == Decimal(w1) + ['x'] + (Decimal(h1) + tail);
    assert m == Decimal(w2) + ['x'] + (Decimal(h2) + tail);
    NumberThenSeparator(w1, w2, 'x', Decimal(h1) + tail, Decimal(h2) + tail);
    assert "" + Decimal(h1) + tail == Decimal(h1) + tail;
    assert "" + Decimal(h2) + tail == Decimal(h2) + tail;
    NumberBetween("", h1, h2, tail);
  }

  /** Distinct reasons give distinct messages: each message names its rule and
      every number it shows. */
  lemma MessageInjective(r1: Reason, r2: Reason)
    requires Message(r1) == Message(r2)
    ensures r1 == r2
  {
    MessageShape(r1);
    MessageShape(r2);
    match r1
    case TooSmall =>
    case HeightMismatch(h1, e1) =>
      var HeightMismatch(h2, e2) := r2;
      MismatchTextInjective("height ", h1, e1, h2, e2);
    case WidthMismatch(w1, e1) =>
      var WidthMismatch(w2, e2) := r2;
      MismatchTextInjective("width ", w1, e1, w2, e2);
    case NotLandscape(w1, h1) =>
      var NotLandscape(w2, h2) := r2;
      DimensionsTextInjective(w1, h1, w2, h2, " not landscape");
    case NotPortrait(w1, h1) =>
      var NotPortrait(w2, h2) := r2;
      DimensionsTextInjective(w1, h1, w2, h2, " not portrait");
  }

  /** The first and last characters of each message tell its reason apart. */
  lemma MessageShape(r: Reason)
    ensures var m := Message(r);
      && |m| > 0
      && (m[0] == 'I' <==> r.TooSmall?)
      && (m[0] == 'h' <==> r.HeightMismatch?)
      && (m[0] == 'w' <==> r.WidthMismatch?)
      && (r.NotLandscape? || r.NotPortrait? ==> m[0] == '-' || '0' <= m[0] <= '9')
      && (r.NotLandscape? ==> m[|m| - 1] == 'e')
      && (r.NotPortrait? ==> m[|m| - 1] == 't')
  {
  }

  lemma TooSmallMessage()
    ensures Message(TooSmall) == "Image 150x150 or smaller"
  {
  }

  // ---------------------------------------------------------------------------
  // Corrected portrait rule.
  // ---------------------------------------------------------------------------

  /** Validate with the portrait-only rule mirroring the landscape-only one: reject
      images wider than tall, saying "not portrait", so square images pass. Every
      other rule is Validate's. */
  function ValidateCorrected(c: Config, img: ImgFileInfo): (r: Option<ImgError>)
    ensures OrientationOf(c) != PortraitOnly ==> r == Validate(c, img)
    ensures OrientationOf(c) == PortraitOnly && !(SizeOk(c, img) && HeightOk(c, img) && WidthOk(c, img)) ==>
              r == Validate(c, img)
    ensures OrientationOf(c) == PortraitOnly && SizeOk(c, img) && HeightOk(c, img) && WidthOk(c, img) ==>
              (r.None? <==> img.height >= img.width)
    ensures OrientationOf(c) == PortraitOnly && SizeOk(c, img) && HeightOk(c, img) && WidthOk(c, img) && img.width > img.height ==>
              r == Some(ImgError(NotPortrait(img.width, img.height), img))
    ensures r.Some? && r.value.reason.NotPortrait? ==> img.width > img.height
  {
    if OrientationOf(c) == PortraitOnly then
      match Validate(c.(prefPortrait := false), img)
      case Some(e) => Some(e)
      case None =>
        if img.width > img.height then Some(ImgError(NotPortrait(img.width, img.height), img)) else None
    else
      Validate(c, img)
  }

  /** Under portrait-only a portrait image is rejected as written and accepted
      once corrected. */
  lemma PortraitImageRejected()
    ensures
      var c := DefaultConfig.(prefLandscape := false, prefPortrait := true);
      var img := ImgFileInfo("a.jpg", "jpeg", 1000, 2000, [], 1, 0, false);
      && Validate(c, img) == Some(ImgError(NotLandscape(1000, 2000), img))
      && ValidateCorrected(c, img).None?
  {
  }

  // ---------------------------------------------------------------------------
  // Target-directory clean-up after de-duplication.
  // ---------------------------------------------------------------------------

  /** The records that fail validation, in order. */
  function Failing(c: Config, s: seq<ImgFileInfo>): seq<ImgFileInfo> {
    if s == [] then []
    else Failing(c, s[..|s| - 1]) + (if Validate(c, s[|s| - 1]).Some? then [s[|s| - 1]] else [])
  }

  lemma {:induction false} FailingMembers(c: Config, s: seq<ImgFileInfo>, x: ImgFileInfo)
    ensures x in Failing(c, s) <==> x in s && Validate(c, x).Some?
  {
    if s != [] {
      var init := s[..|s| - 1];
      FailingMembers(c, init, x);
      assert s == init + [s[|s| - 1]];
    }
  }

  /** Every target record that fails validation is removed when removal of such
      records is enabled, and only reported otherwise; accepted records are left alone. */
  method ValidateTarget(c: Config, files: seq<ImgFileInfo>) returns (removed: seq<string>, warned: seq<ImgFileInfo>)
    ensures c.targetValidateClean ==> removed == FileNames(Failing(c, files)) && warned == []
    ensures !c.targetValidateClean ==> removed == [] && warned == Failing(c, files)
  {
    removed, warned := [], [];
    ghost var failing: seq<ImgFileInfo> := [];
    for i := 0 to |files|
      invariant failing == Failing(c, files[..i])
      invariant c.targetValidateClean ==> removed == FileNames(failing) && warned == []
      invariant !c.targetValidateClean ==> removed == [] && warned == failing
    {
      var f := files[i];
      assert files[..i + 1][..i] == files[..i];
      if Validate(c, f).Some? {
        failing := failing + [f];
        if c.targetValidateClean {
          removed := removed + [f.fileName];
        } else {
          warned := warned + [f];
        }
      }
    }
    assert files[..|files|] == files;
  }
}
