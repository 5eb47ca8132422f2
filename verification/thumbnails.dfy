/**
 * The string mappings of the style helper: thumbnail paths derived from animation file names,
 * and the asset folder and stored-copy file name of each style type.
 */
module Thumbnails {

  datatype StyleType = Row | Zipper | Wallpaper

  /** Kotlin's `String.replace(target, replacement)`: every occurrence of `target`, found left to
      right without overlap, is replaced. */
  function ReplaceAll(s: string, target: string, replacement: string): string
    requires |target| > 0
    decreases |s|
  {
    if |s| < |target| then s
    else if s[..|target|] == target then replacement + ReplaceAll(s[|target|..], target, replacement)
    else [s[0]] + ReplaceAll(s[1..], target, replacement)
  }

  /** The fixed start of every thumbnail path of a style. */
  function ThumbnailPrefix(t: StyleType): string {
    match t
    case Row => "row/thumbnail_big_row_"
    case Zipper => "zipper/thumbnail_big_zipper_"
    case Wallpaper => "wallpaper/thumb/thumbnail_big_"
  }

  /** The image extension of a style's thumbnails. */
  function ThumbnailSuffix(t: StyleType): string {
    match t
    case Row => ".png"
    case Zipper => ".png"
    case Wallpaper => ".jpg"
  }

  /** The middle of the thumbnail name: the file name with the style's first replacement applied
      everywhere, then every ".json" removed. */
  function ThumbnailStem(jsonFileName: string, t: StyleType): string {
    match t
    case Row => ReplaceAll(ReplaceAll(jsonFileName, "video_row_", ""), ".json", "")
    case Zipper => ReplaceAll(ReplaceAll(jsonFileName, "video_zipper_", ""), ".json", "")
    case Wallpaper => ReplaceAll(ReplaceAll(jsonFileName, "video_", "wallpaper_"), ".json", "")
  }

  /** `getThumbnailPath`: the style's prefix, the rewritten file name and the image extension. */
  function ThumbnailPath(jsonFileName: string, t: StyleType): (path: string)
    ensures |path| >= |ThumbnailPrefix(t)| + |ThumbnailSuffix(t)|
    ensures path[..|ThumbnailPrefix(t)|] == ThumbnailPrefix(t)
    ensures path[|path| - |ThumbnailSuffix(t)|..] == ThumbnailSuffix(t)
    ensures path[|ThumbnailPrefix(t)|..|path| - |ThumbnailSuffix(t)|] == ThumbnailStem(jsonFileName, t)
  {
    var stem := ThumbnailStem(jsonFileName, t);
    var path := ThumbnailPrefix(t) + stem + ThumbnailSuffix(t);
    assert path[..|ThumbnailPrefix(t)|] == ThumbnailPrefix(t);
    assert path[|path| - |ThumbnailSuffix(t)|..] == ThumbnailSuffix(t);
    assert path[|ThumbnailPrefix(t)|..|path| - |ThumbnailSuffix(t)|] == stem;
    path
  }

  /** The animation file name prefix each style's assets carry. */
  function JsonPrefix(t: StyleType): string {
    match t
    case Row => "video_row_"
    case Zipper => "video_zipper_"
    case Wallpaper => "video_"
  }

  /** What the first replacement leaves in place of `JsonPrefix`. */
  function StemPrefix(t: StyleType): string {
    match t
    case Row => ""
    case Zipper => ""
    case Wallpaper => "wallpaper_"
  }

  /** A name part that cannot start an occurrence of any replaced pattern. */
  predicate PlainName(s: string) {
    forall i :: 0 <= i < |s| ==> s[i] != 'v' && s[i] != '.'
  }

  /** Scanning past characters that cannot start the target copies them unchanged. */
  lemma {:induction false} ReplaceAllSkip(a: string, b: string, target: string, replacement: string)
    requires |target| > 0
    requires forall i :: 0 <= i < |a| ==> a[i] != target[0]
    ensures ReplaceAll(a + b, target, replacement) == a + ReplaceAll(b, target, replacement)
    decreases |a|
  {
    if a != [] {
      var s := a + b;
      assert s[1..] == a[1..] + b;
      if |s| >= |target| {
        assert s[..|target|][0] == a[0];
      } else {
        assert |b| < |target|;
      }
      ReplaceAllSkip(a[1..], b, target, replacement);
      assert [s[0]] + a[1..] == a;
    } else {
      assert a + b == b;
    }
  }

  /** A leading occurrence of the target is replaced. */
  lemma ReplaceAllHead(b: string, target: string, replacement: string)
    requires |target| > 0
    ensures ReplaceAll(target + b, target, replacement) == replacement + ReplaceAll(b, target, replacement)
  {
    assert (target + b)[..|target|] == target;
    assert (target + b)[|target|..] == b;
  }

  /** The target occurs in `s` at index `i`. */
  predicate OccursAt(s: string, target: string, i: int) {
    0 <= i && i + |target| <= |s| && s[i..i + |target|] == target
  }

  /** A string with no occurrence of the target is left unchanged. */
  lemma {:induction false} ReplaceAllAbsent(s: string, target: string, replacement: string)
    requires |target| > 0
    requires forall i :: !OccursAt(s, target, i)
    ensures ReplaceAll(s, target, replacement) == s
    decreases |s|
  {
    if |s| >= |target| {
      assert !OccursAt(s, target, 0);
      assert s[0..|target|] == s[..|target|];
      forall i ensures !OccursAt(s[1..], target, i) {
        if OccursAt(s[1..], target, i) {
          assert s[1..][i..i + |target|] == s[i + 1..i + 1 + |target|];
          assert OccursAt(s, target, i + 1);
        }
      }
      ReplaceAllAbsent(s[1..], target, replacement);
      assert [s[0]] + s[1..] == s;
    }
  }

  /** Replacing a target by itself changes nothing. */
  lemma {:induction false} ReplaceAllSelf(s: string, target: string)
    requires |target| > 0
    ensures ReplaceAll(s, target, target) == s
    decreases |s|
  {
    if |s| >= |target| {
      if s[..|target|] == target {
        ReplaceAllSelf(s[|target|..], target);
        assert target + s[|target|..] == s;
      } else {
        ReplaceAllSelf(s[1..], target);
        assert [s[0]] + s[1..] == s;
      }
    }
  }

  /** Both replacements of `getThumbnailPath` on `target + name + ".json"`, for a target that
      starts with 'v' and a replacement with no '.'. */
  lemma {:induction false} StripAssetName(target: string, replacement: string, name: string)
    requires |target| > 0 && target[0] == 'v'
    requires forall i :: 0 <= i < |replacement| ==> replacement[i] != '.'
    requires PlainName(name)
    ensures ReplaceAll(ReplaceAll(target + name + ".json", target, replacement), ".json", "") == replacement + name
  {
    assert target + name + ".json" == target + (name + ".json");
    ReplaceAllHead(name + ".json", target, replacement);
    ReplaceAllSkip(name, ".json", target, replacement);
    assert ReplaceAll(".json", target, replacement) == ".json" by {
      ReplaceAllSkip(".json", "", target, replacement);
      assert ".json" + "" == ".json";
    }
    var first := replacement + (name + ".json");
    assert ReplaceAll(target + name + ".json", target, replacement) == first;
    assert first == (replacement + name) + ".json";
    ReplaceAllSkip(replacement + name, ".json", ".json", "");
    ReplaceAllHead("", ".json", "");
    assert ".json" + "" == ".json";
    assert replacement + name + "" == replacement + name;
  }

  /** For an asset named `JsonPrefix(t) + name + ".json"`, the thumbnail is the style's prefix,
      the name (after "wallpaper_" for wallpapers) and the image extension. */
  lemma ThumbnailOfAsset(name: string, t: StyleType)
    requires PlainName(name)
    ensures ThumbnailPath(JsonPrefix(t) + name + ".json", t)
         == ThumbnailPrefix(t) + StemPrefix(t) + name + ThumbnailSuffix(t)
  {
    StripAssetName(JsonPrefix(t), StemPrefix(t), name);
  }

  /** The three examples the helper documents. */
  lemma RowThumbnailExample()
    ensures ThumbnailPath("video_row_1.json", Row) == "row/thumbnail_big_row_1.png"
  {
    ThumbnailOfAsset("1", Row);
    assert JsonPrefix(Row) + "1" + ".json" == "video_row_1.json";
    assert ThumbnailPrefix(Row) + StemPrefix(Row) + "1" + ThumbnailSuffix(Row) == "row/thumbnail_big_row_1.png";
  }

  lemma ZipperThumbnailExample()
    ensures ThumbnailPath("video_zipper_1.json", Zipper) == "zipper/thumbnail_big_zipper_1.png"
  {
    ThumbnailOfAsset("1", Zipper);
    assert JsonPrefix(Zipper) + "1" + ".json" == "video_zipper_1.json";
    assert ThumbnailPrefix(Zipper) + StemPrefix(Zipper) + "1" + ThumbnailSuffix(Zipper)
        == "zipper/thumbnail_big_zipper_1.png";
  }

  lemma WallpaperThumbnailExample()
    ensures ThumbnailPath("video_ai_art_1.json", Wallpaper)
         == "wallpaper/thumb/thumbnail_big_wallpaper_ai_art_1.jpg"
  {
    AiArtIsPlain();
    ThumbnailOfAsset("ai_art_1", Wallpaper);
    WallpaperNames();
  }

  lemma AiArtIsPlain()
    ensures PlainName("ai_art_1")
  {
    var name := "ai_art_1";
    forall i | 0 <= i < |name| ensures name[i] != 'v' && name[i] != '.' {
      assert name[i] in {'a', 'i', '_', 'r', 't', '1'};
    }
  }

  lemma WallpaperNames()
    ensures JsonPrefix(Wallpaper) + "ai_art_1" + ".json" == "video_ai_art_1.json"
    ensures ThumbnailPrefix(Wallpaper) + StemPrefix(Wallpaper) + "ai_art_1" + ThumbnailSuffix(Wallpaper)
         == "wallpaper/thumb/thumbnail_big_wallpaper_ai_art_1.jpg"
  {
  }

  /** The asset folder holding a style's animation files (`selectStyle`, `getAvailableStyles`). */
  function AssetFolder(t: StyleType): string {
    match t
    case Row => "row_json"
    case Zipper => "zipper_json"
    case Wallpaper => "wallpaper/url"
  }

  /** The asset `selectStyle` reads: the style's folder, a slash, the file name. */
  function AssetJsonPath(jsonFileName: string, t: StyleType): (path: string)
    ensures |path| == |AssetFolder(t)| + 1 + |jsonFileName|
    ensures path[..|AssetFolder(t)|] == AssetFolder(t) && path[|AssetFolder(t)|] == '/'
    ensures path[|AssetFolder(t)| + 1..] == jsonFileName
  {
    AssetFolder(t) + "/" + jsonFileName
  }

  /** A path names one asset: its first character tells the style's folder apart, and what
      follows the folder's slash is the file name. */
  lemma AssetJsonPathInjective(n1: string, t1: StyleType, n2: string, t2: StyleType)
    requires AssetJsonPath(n1, t1) == AssetJsonPath(n2, t2)
    ensures t1 == t2 && n1 == n2
  {
    var p := AssetJsonPath(n1, t1);
    assert p[0] == AssetFolder(t1)[0] == AssetFolder(t2)[0];
    if t1 != t2 {
      StyleFilesDistinct(t1, t2);
    }
  }

  /** The file in internal storage holding a style's selected animation (`selectStyle`,
      `getModifiedJsonPath`, `hasModifiedJson`, `clearModifiedJson`). */
  function ModifiedJsonFile(t: StyleType): string {
    match t
    case Row => "row_modified.json"
    case Zipper => "zipper_modified.json"
    case Wallpaper => "wallpaper_modified.json"
  }

  /** Each style has its own stored copy and its own asset folder. */
  lemma StyleFilesDistinct(s: StyleType, t: StyleType)
    requires s != t
    ensures ModifiedJsonFile(s) != ModifiedJsonFile(t)
    ensures AssetFolder(s) != AssetFolder(t)
  {
    assert ModifiedJsonFile(s)[0] != ModifiedJsonFile(t)[0];
    assert AssetFolder(s)[0] != AssetFolder(t)[0];
  }
}
