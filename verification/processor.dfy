/** The batch pipeline (`core/processor.py`): metadata extraction over the
    discovered packs, then the per-pack processing plan (previews, ZIP copies,
    watermarked copies, the ZIP itself, moving the originals away), and the
    auto-mosaic run over a processed pack.

    A pipeline step is a pure function of the folders it reads. What a step
    writes is its plan: per pack, the files it creates and the moves it makes.
    The per-image work is listed in processing order. */
module Processor {
  import opened Base
  import opened Text
  import opened Order
  import opened Json
  import opened Listing
  import opened Discovery
  import opened Metadata
  import Config
  import Watermark
  import AutoMosaic

  /** The saves made for one image, in the order they run. A save that
      raises writes nothing, and the image's work ends there. */
  datatype SaveStep = PreviewSave | ZipSave | FreePostSave

  /** A pack folder: its listing, the decoded image behind each regular file
      (a file missing from `images` does not decode), its metadata.json, and
      for each image whose saving raises, the save that raises first (a full
      disk, a payload the writer refuses). */
  datatype Folder = Folder(entries: seq<Entry>, images: map<string, Image>, metadata: JsonFile,
                           saveFails: map<string, SaveStep>)

  /** The input directory, named `rootName`, and its sub-directories by name. */
  datatype Tree = Tree(rootName: string, root: Folder, subfolders: map<string, Folder>)

  function FolderAt(tree: Tree, pack: PackRef): Folder {
    match pack
    case RootPack => tree.root
    case SubPack(n) => if n in tree.subfolders then tree.subfolders[n] else Folder([], map[], Absent, map[])
  }

  function FolderName(tree: Tree, pack: PackRef): string {
    match pack
    case RootPack => tree.rootName
    case SubPack(n) => n
  }

  /** The folder lists `name`, as a file or as a directory. */
  predicate Listed(entries: seq<Entry>, name: string) {
    Entry(name, false) in entries || Entry(name, true) in entries
  }

  /** The first save that raises for `name`, if any. */
  function SaveFailure(folder: Folder, name: string): Option<SaveStep> {
    if name in folder.saveFails then Some(folder.saveFails[name]) else None
  }

  /** `Image.open` on a listed name: a directory or an undecodable file raises. */
  function Open(folder: Folder, name: string): (s: Stored)
    ensures s.Readable? <==> Entry(name, false) in folder.entries && name in folder.images
  {
    if Entry(name, false) in folder.entries && name in folder.images then Readable(folder.images[name]) else Unreadable
  }

  // ----- extract_metadata -----

  /** What extraction made of one globbed file: a value, Python's `None` (a
      metadata text reading `null`), or an exception. */
  datatype Extracted = Kept(name: string, value: Json) | NoneResult(name: string) | Raised(name: string)

  /** `extract_png` on each file. */
  function ExtractFiles(folder: Folder, files: seq<Entry>, codec: JsonCodec): (r: seq<Extracted>)
    ensures |r| == |files|
    ensures forall x :: x in r ==> Listed(files, x.name)
    ensures forall n, v :: Kept(n, v) in r <==>
              Listed(files, n) && ExtractPng(Open(folder, n), codec) == Success(v) && v != JNull
    ensures forall n :: Raised(n) in r <==> Listed(files, n) && Open(folder, n).Unreadable?
  {
    if |files| == 0 then []
    else
      var n := files[0].name;
      var x := match ExtractPng(Open(folder, n), codec)
               case Failure(_) => Raised(n)
               case Success(v) => if v == JNull then NoneResult(n) else Kept(n, v);
      var rest := ExtractFiles(folder, files[1..], codec);
      assert forall m :: Listed(files, m) <==> m == n || Listed(files[1..], m) by {
        assert forall e :: e in files <==> e == files[0] || e in files[1..];
      }
      [x] + rest
  }

  /** The dictionary the loop builds: the kept values, by file name. */
  function KeptEntries(r: seq<Extracted>): (e: Entries)
    ensures forall p :: p in e <==> Kept(p.0, p.1) in r
    ensures |e| == 0 <==> forall x :: x in r ==> !x.Kept?
  {
    if |r| == 0 then []
    else
      var rest := KeptEntries(r[1..]);
      assert forall x :: x in r <==> x == r[0] || x in r[1..];
      if r[0].Kept? then [(r[0].name, r[0].value)] + rest else rest
  }

  /** Names of the files whose extraction raised. */
  function RaisedNames(r: seq<Extracted>): (names: seq<string>)
    ensures forall n :: n in names <==> Raised(n) in r
  {
    if |r| == 0 then []
    else
      var rest := RaisedNames(r[1..]);
      assert forall x :: x in r <==> x == r[0] || x in r[1..];
      if r[0].Raised? then [r[0].name] + rest else rest
  }

  /** What extraction did for one pack: skipped it for lack of images, or
      wrote `metadataJson` (when there was something to write) and logged an
      error for each file in `failed`. */
  datatype PackExtraction = NoImages | Extracted(metadataJson: Option<Entries>, failed: seq<string>)

  /** The image files of a folder: the four globs, which also match
      directories. */
  function ImageFiles(folder: Folder): (files: seq<Entry>)
    ensures forall n :: Listed(files, n) <==> Listed(folder.entries, n) && HasImageExtension(n)
  {
    ImageGlob(folder.entries)
  }

  function ExtractPack(folder: Folder, codec: JsonCodec): (r: PackExtraction)
    ensures r.NoImages? <==> ImageFiles(folder) == []
    ensures r.Extracted? && r.metadataJson.Some? ==> |r.metadataJson.value| > 0
    ensures r.Extracted? ==> forall p: (string, Json) :: p in MetadataWritten(r) <==>
              Listed(folder.entries, p.0) && HasImageExtension(p.0)
              && ExtractPng(Open(folder, p.0), codec) == Success(p.1) && p.1 != JNull
    ensures r.Extracted? ==> forall n :: n in r.failed <==>
              Listed(folder.entries, n) && HasImageExtension(n) && Open(folder, n).Unreadable?
  {
    var files := ImageFiles(folder);
    if files == [] then NoImages
    else
      var outcomes := ExtractFiles(folder, files, codec);
      var kept := KeptEntries(outcomes);
      Extracted(if |kept| > 0 then Some(kept) else None, RaisedNames(outcomes))
  }

  /** The entries written to metadata.json, none when nothing was written. */
  function MetadataWritten(r: PackExtraction): Entries {
    if r.Extracted? && r.metadataJson.Some? then r.metadataJson.value else []
  }

  /** metadata.json is written exactly when some image yields a value other
      than `None`. */
  lemma WrittenOnlyWhenNonEmpty(folder: Folder, codec: JsonCodec)
    requires ExtractPack(folder, codec).Extracted?
    ensures ExtractPack(folder, codec).metadataJson.Some? <==>
              exists p: (string, Json) :: Listed(folder.entries, p.0) && HasImageExtension(p.0)
                && ExtractPng(Open(folder, p.0), codec) == Success(p.1) && p.1 != JNull
  {
    var r := ExtractPack(folder, codec);
    if r.metadataJson.Some? {
      var p := r.metadataJson.value[0];
      assert p in MetadataWritten(r);
    }
  }

  /** What the run did: nothing (discovery found no folder, and the step
      reports failure), or one report per discovered pack, in order. */
  datatype ExtractionRun = NoPacks | Ran(reports: seq<PackExtraction>)

  /** `extract_metadata` over the packs discovery returned. A pack without
      images is skipped and the loop goes on. */
  function ExtractMetadata(tree: Tree, packs: seq<PackRef>, codec: JsonCodec): (r: ExtractionRun)
    ensures r.NoPacks? <==> packs == []
    ensures r.Ran? ==> |r.reports| == |packs|
    ensures r.Ran? ==> forall i :: 0 <= i < |packs| ==> r.reports[i] == ExtractPack(FolderAt(tree, packs[i]), codec)
  {
    if packs == [] then NoPacks else Ran(seq(|packs|, i requires 0 <= i < |packs| => ExtractPack(FolderAt(tree, packs[i]), codec)))
  }

  // ----- process_images -----

  const PreviewDir := "preview_Images"
  const FreePostDir := "free_post"
  const TempZipDir := "temp_for_zip"
  const OriginalsDir := "original_images"

  /** The three output folders every reached pack gets, before metadata.json is
      even looked at. */
  const OutputDirs: seq<string> := [PreviewDir, FreePostDir, TempZipDir]

  /** A written image file: the folder (of the pack) it lands in, its name,
      and the EXIF ImageDescription text it carries, if any. */
  datatype Artifact = Artifact(dir: string, file: string, exif: Option<string>)

  /** The processing set: names of image files that are keys of the metadata,
      sorted. */
  function ProcessingSet(entries: seq<Entry>, metadata: Entries): (r: seq<string>)
    ensures Sorted(r)
    ensures forall n :: n in r <==> Listed(entries, n) && HasImageExtension(n) && n in Keys(metadata)
    ensures UniqueNames(entries) ==> NoDup(r)
  {
    var files := ImageGlob(entries);
    var names := NamesWithMetadata(files, metadata);
    var r := Sort(names);
    assert forall n :: n in r <==> n in multiset(r);
    assert forall n :: n in names <==> n in multiset(names);
    if UniqueNames(entries) then
      NoDupFromMultiset(names, r);
      r
    else r
  }

  /** `[p for p in files if p.name in metadata]`, as names. */
  function NamesWithMetadata(files: seq<Entry>, metadata: Entries): (r: seq<string>)
    ensures forall n :: n in r <==> Listed(files, n) && n in Keys(metadata)
    ensures UniqueNames(files) ==> NoDup(r)
  {
    if |files| == 0 then []
    else
      var rest := NamesWithMetadata(files[1..], metadata);
      assert forall m :: Listed(files, m) <==> m == files[0].name || Listed(files[1..], m) by {
        assert forall e :: e in files <==> e == files[0] || e in files[1..];
      }
      if files[0].name in Keys(metadata) then
        assert UniqueNames(files) ==> forall k :: 0 <= k < |files[1..]| ==> files[1..][k].name != files[0].name by {
          assert forall k :: 0 <= k < |files[1..]| ==> files[1..][k] == files[k + 1];
        }
        [files[0].name] + rest
      else rest
  }

  /** `f"image_{index}"`. */
  function BaseName(index: nat): string {
    "image_" + Decimal(index)
  }

  /** The EXIF gate: the compact serialisation when the metadata is non-empty
      and within the ceiling; otherwise the files get no EXIF block, silently. */
  function ExifPayload(metadata: Json, codec: JsonCodec): (p: Option<string>)
    ensures p.Some? <==> Truthy(metadata) && ValidateMetadataSize(metadata, codec)
    ensures p.Some? ==> p.value == codec.compact(metadata) && Utf8Length(p.value) <= MaxEmbedBytes
  {
    if Truthy(metadata) && ValidateMetadataSize(metadata, codec) then Some(codec.compact(metadata)) else None
  }

  /** Where `embed` would raise for being too large, the processor writes the
      files without metadata instead; where `embed` would write a JPEG
      description, the processor writes the same text. */
  lemma ExifPayloadAgreesWithEmbed(metadata: Json, codec: JsonCodec)
    requires Truthy(metadata)
    ensures ExifPayload(metadata, codec).None? <==> Embed("x.jpeg", metadata, codec).Failure?
    ensures ExifPayload(metadata, codec).Some? ==>
              Embed("x.jpeg", metadata, codec) == Success(WriteDescription(ExifPayload(metadata, codec).value, Jpeg))
  {
    JpegSuffix();
  }

  lemma JpegSuffix()
    ensures Lower(Suffix("x.jpeg")) == ".jpeg"
  {
    var s := "x.jpeg";
    assert LastIndexOf(s, '.') == 1 by {
      assert s[5] != '.' && s[4] != '.' && s[3] != '.' && s[2] != '.' && s[1] == '.';
      assert s[..6] == s && s[..5][..4] == s[..4] && s[..4][..3] == s[..3] && s[..3][..2] == s[..2];
    }
    assert s[1..] == ".jpeg";
    assert Lower(".jpeg") == ".jpeg" by {
      var l := Lower(".jpeg");
      assert l[0] == '.' && l[1] == 'j' && l[2] == 'p' && l[3] == 'e' && l[4] == 'g';
    }
  }

  /** An artifact carrying the payload reads back as the metadata it was made
      from: a JPEG or WebP whose EXIF ImageDescription is the payload decodes
      to the metadata again. */
  lemma PayloadReadsBack(img: Image, metadata: Json, codec: JsonCodec, format: Format)
    requires RoundTrips(codec, metadata)
    requires ExifPayload(metadata, codec).Some?
    ensures var t := ExifPayload(metadata, codec).value;
            ExtractPng(Readable(img.(format := format, exifBlock := t)), codec) == Success(metadata)
  {
  }

  /** The extension of the ZIP-stage copy, chosen by the lower-cased suffix. */
  function ZipExtension(name: string): (ext: string)
    ensures ext in {".jpeg", ".webp", ".png"}
    ensures ext == ".jpeg" <==> Lower(Suffix(name)) in {".jpg", ".jpeg"}
    ensures ext == ".webp" <==> Lower(Suffix(name)) == ".webp"
  {
    var suffix := Lower(Suffix(name));
    if suffix == ".jpg" || suffix == ".jpeg" then ".jpeg"
    else if suffix == ".webp" then ".webp"
    else ".png"
  }

  /** The ZIP-stage copy: JPEG and WebP copies carry the payload, the PNG copy
      is re-saved from the original file without it. */
  function ZipCopy(source: string, base: string, payload: Option<string>): (a: Artifact)
    ensures a.dir == TempZipDir && a.file == base + ZipExtension(source)
    ensures a.exif == (if ZipExtension(source) == ".png" then None else payload)
  {
    var ext := ZipExtension(source);
    Artifact(TempZipDir, base + ext, if ext == ".png" then None else payload)
  }

  /** What a run depends on besides the folders: the JSON codec, the watermark
      settings and file, the date stamp of the ZIP names, and which ZIP writes
      and which moves raise. */
  datatype Settings = Settings(
    codec: JsonCodec,
    watermark: Config.WatermarkConfig,
    watermarkFile: Watermark.WatermarkFile,
    date: string,
    zipFails: set<PackRef>,
    moveFails: set<(PackRef, string)>)

  /** What became of one image of the processing set: the files written for
      it, in order, and whether it finished without an error. */
  datatype ImageReport = ImageReport(source: string, base: string, artifacts: seq<Artifact>, ok: bool)

  /** `_process_single_image`: preview, ZIP copy, then the watermarked copy;
      a watermark failure stops after the first two, and a save that raises
      stops before the file it would have written. */
  function ProcessSingleImage(source: string, index: nat, stored: Stored, failing: Option<SaveStep>, metadata: Json,
                              settings: Settings)
    : (r: ImageReport)
    ensures r.source == source && r.base == BaseName(index)
    ensures stored.Unreadable? ==> r.artifacts == [] && !r.ok
    ensures stored.Readable? ==>
              (r.ok <==> failing.None? && Watermark.ApplyWatermark(stored.image.width, stored.image.height,
                                                                   settings.watermark, settings.watermarkFile).Success?)
    ensures stored.Readable? && failing == Some(PreviewSave) ==> r.artifacts == []
    ensures stored.Readable? && failing == Some(ZipSave) ==> |r.artifacts| == 1
    ensures stored.Readable? && (failing.None? || failing == Some(FreePostSave)) ==>
              |r.artifacts| == (if r.ok then 3 else 2)
    ensures |r.artifacts| > 0 ==>
              r.artifacts[0] == Artifact(PreviewDir, r.base + ".webp", ExifPayload(metadata, settings.codec))
    ensures |r.artifacts| > 1 ==> r.artifacts[1] == ZipCopy(source, r.base, ExifPayload(metadata, settings.codec))
    ensures r.ok ==> |r.artifacts| == 3
                     && r.artifacts[2] == Artifact(FreePostDir, r.base + ".jpeg", ExifPayload(metadata, settings.codec))
    ensures forall a :: a in r.artifacts ==> NamedAfter(a.file, r.base)
  {
    var base := BaseName(index);
    match stored
    case Unreadable => ImageReport(source, base, [], false)
    case Readable(img) =>
      WrittenFiles(source, base, ExifPayload(metadata, settings.codec),
                   Watermark.ApplyWatermark(img.width, img.height, settings.watermark, settings.watermarkFile).Success?,
                   failing)
  }

  /** The report of a readable image: preview and ZIP copy, then the
      watermarked copy when the watermark could be applied; a raising save
      ends the list before its own file. */
  function WrittenFiles(source: string, base: string, payload: Option<string>, marked: bool, failing: Option<SaveStep>)
    : (r: ImageReport)
    ensures r.source == source && r.base == base
    ensures r.ok <==> marked && failing.None?
    ensures failing == Some(PreviewSave) ==> r.artifacts == []
    ensures failing == Some(ZipSave) ==> |r.artifacts| == 1
    ensures failing.None? || failing == Some(FreePostSave) ==> |r.artifacts| == (if r.ok then 3 else 2)
    ensures |r.artifacts| > 0 ==> r.artifacts[0] == Artifact(PreviewDir, base + ".webp", payload)
    ensures |r.artifacts| > 1 ==> r.artifacts[1] == ZipCopy(source, base, payload)
    ensures r.ok ==> |r.artifacts| == 3 && r.artifacts[2] == Artifact(FreePostDir, base + ".jpeg", payload)
    ensures forall a :: a in r.artifacts ==> NamedAfter(a.file, base)
  {
    NamedAfterConcat(base, ".webp");
    NamedAfterConcat(base, ".jpeg");
    NamedAfterConcat(base, ZipExtension(source));
    var preview := Artifact(PreviewDir, base + ".webp", payload);
    var copy := ZipCopy(source, base, payload);
    if failing == Some(PreviewSave) then ImageReport(source, base, [], false)
    else if failing == Some(ZipSave) then ImageReport(source, base, [preview], false)
    else if marked && failing.None? then
      ImageReport(source, base, [preview, copy, Artifact(FreePostDir, base + ".jpeg", payload)], true)
    else ImageReport(source, base, [preview, copy], false)
  }

  /** The extensions of the files written for an image. */
  predicate OutputExtension(x: string) {
    x == ".webp" || x == ".jpeg" || x == ".png"
  }

  /** `file` is `base` followed by an output extension. */
  predicate NamedAfter(file: string, base: string) {
    |base| <= |file| && file[..|base|] == base && OutputExtension(file[|base|..])
  }

  lemma NamedAfterConcat(base: string, x: string)
    requires OutputExtension(x)
    ensures NamedAfter(base + x, base)
  {
    assert (base + x)[..|base|] == base;
    assert (base + x)[|base|..] == x;
  }

  /** A base name holds no dot. */
  lemma NoDotInBaseName(index: nat)
    ensures forall k :: 0 <= k < |BaseName(index)| ==> BaseName(index)[k] != '.'
  {
    var b := BaseName(index);
    forall k | 0 <= k < |b| ensures b[k] != '.' {
      if k >= 6 {
        assert b[k] == Decimal(index)[k - 6];
      }
    }
  }

  /** Distinct numbers give distinct base names. */
  lemma BaseNamesDistinct(a: nat, b: nat)
    requires a != b
    ensures BaseName(a) != BaseName(b)
  {
    if BaseName(a) == BaseName(b) {
      assert "image_" + Decimal(a) + "" == BaseName(a);
      assert "image_" + Decimal(b) + "" == BaseName(b);
      PrefixedDecimalInjective("image_", a, b, "");
    }
  }

  /** Files written for two different numbers never share a name: the first
      dot ends the base name, so equal names would need equal base names. */
  lemma {:induction false} OutputNamesDistinct(a: nat, b: nat, f: string, g: string)
    requires a != b && NamedAfter(f, BaseName(a)) && NamedAfter(g, BaseName(b))
    ensures f != g
  {
    var p, q := BaseName(a), BaseName(b);
    NoDotInBaseName(a);
    NoDotInBaseName(b);
    assert f == p + f[|p|..] && g == q + g[|q|..];
    assert f[|p|] == '.' && g[|q|] == '.';
    if |p| < |q| {
      assert g[|p|] == q[|p|];
    } else if |q| < |p| {
      assert f[|q|] == p[|q|];
    } else {
      BaseNamesDistinct(a, b);
      assert f[..|p|] != g[..|q|];
    }
  }

  /** The metadata of one file: `pack_metadata.get(name, {})`. */
  function MetadataFor(metadata: Entries, name: string): Json {
    Lookup(metadata, name).GetOr(JObj(map[]))
  }

  /** Every file of the processing set, numbered from `first` in order. */
  function ProcessAll(folder: Folder, names: seq<string>, first: nat, metadata: Entries, settings: Settings)
    : (r: seq<ImageReport>)
    ensures |r| == |names|
    ensures forall j :: 0 <= j < |names| ==> r[j].source == names[j] && r[j].base == BaseName(first + j)
    ensures forall j, a :: 0 <= j < |names| && a in r[j].artifacts ==> NamedAfter(a.file, BaseName(first + j))
    ensures forall j :: 0 <= j < |names| ==>
              r[j] == ProcessSingleImage(names[j], first + j, Open(folder, names[j]), SaveFailure(folder, names[j]),
                                         MetadataFor(metadata, names[j]), settings)
  {
    seq(|names|, j requires 0 <= j < |names| =>
      ProcessSingleImage(names[j], first + j, Open(folder, names[j]), SaveFailure(folder, names[j]), MetadataFor(metadata, names[j]), settings))
  }

  /** The files left in temp_for_zip, which the ZIP archive packs. */
  function ZipMembers(images: seq<ImageReport>): (members: seq<string>)
    ensures forall j, a :: 0 <= j < |images| && a in images[j].artifacts && a.dir == TempZipDir ==> a.file in members
    ensures forall f :: f in members ==> exists j, a :: 0 <= j < |images| && a in images[j].artifacts && a.dir == TempZipDir && a.file == f
  {
    if |images| == 0 then []
    else
      var rest := ZipMembers(images[1..]);
      assert forall j :: 1 <= j < |images| ==> images[j] == images[1..][j - 1];
      TempFiles(images[0].artifacts) + rest
  }

  function TempFiles(artifacts: seq<Artifact>): (files: seq<string>)
    ensures forall a :: a in artifacts && a.dir == TempZipDir ==> a.file in files
    ensures forall f :: f in files ==> exists a :: a in artifacts && a.dir == TempZipDir && a.file == f
  {
    if |artifacts| == 0 then []
    else
      var rest := TempFiles(artifacts[1..]);
      (if artifacts[0].dir == TempZipDir then [artifacts[0].file] else []) + rest
  }

  datatype ZipArchive = ZipArchive(name: string, members: seq<string>)

  /** The originals `_move_original_images` moves: the regular files among the
      four globs, in glob order, whatever happened to them before. */
  function Originals(entries: seq<Entry>): (names: seq<string>)
    ensures forall n :: n in names <==> Entry(n, false) in entries && HasImageExtension(n)
  {
    RegularNames(ImageGlob(entries))
  }

  function RegularNames(files: seq<Entry>): (names: seq<string>)
    ensures forall n :: n in names <==> Entry(n, false) in files
  {
    if |files| == 0 then []
    else
      var rest := RegularNames(files[1..]);
      assert forall e :: e in files <==> e == files[0] || e in files[1..];
      (if !files[0].isDir then [files[0].name] else []) + rest
  }

  /** The names of `names` whose move raised, and the rest, in order. */
  function MoveFailures(pack: PackRef, names: seq<string>, fails: set<(PackRef, string)>): (r: seq<string>)
    ensures forall n :: n in r <==> n in names && (pack, n) in fails
  {
    if |names| == 0 then []
    else
      (if (pack, names[0]) in fails then [names[0]] else []) + MoveFailures(pack, names[1..], fails)
  }

  function Moves(pack: PackRef, names: seq<string>, fails: set<(PackRef, string)>): (r: seq<string>)
    ensures forall n :: n in r <==> n in names && (pack, n) !in fails
  {
    if |names| == 0 then []
    else
      (if (pack, names[0]) !in fails then [names[0]] else []) + Moves(pack, names[1..], fails)
  }

  /** What `process_images` did to one pack.
      - `SkippedNoMetadata`: the three output folders were created, and
        temp_for_zip is left behind.
      - `Aborted`: metadata.json is unusable or a character tag raised; the
        whole run stops here.
      - `NothingToProcess`: no image matches the metadata; temp_for_zip is
        removed.
      - `Processed`: the images were processed, the ZIP written (or its error
        logged), temp_for_zip removed and the originals moved.
      `characters` is the characters.txt text, when one was written. */
  datatype PackPlan =
    | SkippedNoMetadata
    | Aborted
    | NothingToProcess(characters: Option<string>)
    | Processed(characters: Option<string>, images: seq<ImageReport>, zip: Option<ZipArchive>,
                moved: seq<string>, moveFailed: seq<string>)

  /** Whether the plan leaves temp_for_zip on disk. */
  predicate KeepsTempDir(plan: PackPlan) {
    plan.SkippedNoMetadata? || plan.Aborted?
  }

  /** The body of the `process_images` loop for one pack. */
  function ProcessPack(folder: Folder, pack: PackRef, folderName: string, settings: Settings): (r: PackPlan)
    ensures folder.metadata.Absent? <==> r.SkippedNoMetadata?
    ensures r.Aborted? <==> folder.metadata.Unparsable? || folder.metadata.NonObject? || (folder.metadata.Loaded? && CreateCharacterList(folder.metadata.entries).Failure?)
    ensures (r.NothingToProcess? || r.Processed?) ==>
              folder.metadata.Loaded? && CreateCharacterList(folder.metadata.entries).Success?
              && var text := CreateCharacterList(folder.metadata.entries).value;
                 r.characters == (if text != "" then Some(text) else None)
    ensures r.NothingToProcess? <==> folder.metadata.Loaded? && !r.Aborted? && ProcessingSet(folder.entries, folder.metadata.entries) == []
    ensures r.Processed? ==>
              var chosen := ProcessingSet(folder.entries, folder.metadata.entries);
              && r.images == ProcessAll(folder, chosen, 1, folder.metadata.entries, settings)
              && (r.zip.Some? <==> pack !in settings.zipFails)
              && (r.zip.Some? ==> r.zip.value == ZipArchive(folderName + "-" + settings.date + ".zip", ZipMembers(r.images)))
              && (forall n :: n in r.moved <==> Entry(n, false) in folder.entries && HasImageExtension(n) && (pack, n) !in settings.moveFails)
              && (forall n :: n in r.moveFailed <==> Entry(n, false) in folder.entries && HasImageExtension(n) && (pack, n) in settings.moveFails)
  {
    match folder.metadata
    case Absent => SkippedNoMetadata
    case Unparsable => Aborted
    case NonObject(_) => Aborted
    case Loaded(metadata) =>
      match CreateCharacterList(metadata)
      case Failure(_) => Aborted
      case Success(text) =>
        var characters := if text != "" then Some(text) else None;
        var chosen := ProcessingSet(folder.entries, metadata);
        if chosen == [] then NothingToProcess(characters)
        else
          var images := ProcessAll(folder, chosen, 1, metadata, settings);
          var zip := if pack in settings.zipFails then None
                     else Some(ZipArchive(folderName + "-" + settings.date + ".zip", ZipMembers(images)));
          var originals := Originals(folder.entries);
          Processed(characters, images, zip, Moves(pack, originals, settings.moveFails),
                    MoveFailures(pack, originals, settings.moveFails))
  }

  /** What the run did: the plans of the packs it reached, in order, and
      whether it reports success. */
  datatype ProcessingRun = ProcessingRun(ok: bool, plans: seq<PackPlan>)

  /** `process_images` over the packs discovery returned: an aborted pack
      ends the run with a failure, every other outcome moves on. */
  function ProcessImages(tree: Tree, packs: seq<PackRef>, settings: Settings): (r: ProcessingRun)
    ensures packs == [] ==> r == ProcessingRun(false, [])
    ensures |r.plans| <= |packs|
    ensures forall i :: 0 <= i < |r.plans| ==>
              r.plans[i] == ProcessPack(FolderAt(tree, packs[i]), packs[i], FolderName(tree, packs[i]), settings)
    ensures forall i :: 0 <= i < |r.plans| - 1 ==> !r.plans[i].Aborted?
    ensures packs != [] ==> (r.ok <==> |r.plans| == |packs| && forall i :: 0 <= i < |r.plans| ==> !r.plans[i].Aborted?)
    ensures packs != [] && !r.ok ==> |r.plans| > 0 && r.plans[|r.plans| - 1].Aborted?
  {
    var all := PackPlans(tree, packs, settings);
    var r := RunOver(all);
    assert forall i :: 0 <= i < |r.plans| ==> r.plans[i] == all[i];
    r
  }

  /** The run over plans computed in advance: the loop stops after the first
      aborted plan and reports success only when it reached none. */
  function RunOver(all: seq<PackPlan>): (r: ProcessingRun)
    ensures all == [] ==> r == ProcessingRun(false, [])
    ensures |r.plans| <= |all| && r.plans == all[..|r.plans|]
    ensures forall i :: 0 <= i < |r.plans| - 1 ==> !r.plans[i].Aborted?
    ensures all != [] ==> (r.ok <==> |r.plans| == |all| && forall i :: 0 <= i < |r.plans| ==> !r.plans[i].Aborted?)
    ensures all != [] && !r.ok ==> |r.plans| > 0 && r.plans[|r.plans| - 1].Aborted?
  {
    if all == [] then ProcessingRun(false, [])
    else
      var reached := UntilAborted(all);
      ProcessingRun(!reached[|reached| - 1].Aborted?, reached)
  }

  /** The plan of every pack, as if the loop never stopped. */
  function PackPlans(tree: Tree, packs: seq<PackRef>, settings: Settings): (r: seq<PackPlan>)
    ensures |r| == |packs|
    ensures forall k :: 0 <= k < |packs| ==>
              r[k] == ProcessPack(FolderAt(tree, packs[k]), packs[k], FolderName(tree, packs[k]), settings)
  {
    seq(|packs|, k requires 0 <= k < |packs| => ProcessPack(FolderAt(tree, packs[k]), packs[k], FolderName(tree, packs[k]), settings))
  }

  /** The plans the loop reaches: all of them up to and including the first
      aborted one. */
  function UntilAborted(plans: seq<PackPlan>): (r: seq<PackPlan>)
    ensures |r| <= |plans| && r == plans[..|r|]
    ensures |plans| > 0 ==> |r| > 0
    ensures forall k :: 0 <= k < |r| - 1 ==> !r[k].Aborted?
    ensures (exists k :: 0 <= k < |plans| && plans[k].Aborted?) ==> r[|r| - 1].Aborted?
    ensures !(exists k :: 0 <= k < |plans| && plans[k].Aborted?) ==> r == plans
  {
    if |plans| == 0 then []
    else if plans[0].Aborted? then [plans[0]]
    else
      var rest := UntilAborted(plans[1..]);
      assert forall k :: 1 <= k < |plans| ==> plans[k] == plans[1..][k - 1];
      [plans[0]] + rest
  }

  /** In the images of a processed pack the j-th file of the processing set
      (from 0) is named `image_<first+j>`, and no two images write a file of
      the same name. */
  lemma {:induction false} ProcessedNamesDistinct(folder: Folder, names: seq<string>, first: nat, metadata: Entries, settings: Settings,
                               images: seq<ImageReport>, j: nat, k: nat, a: Artifact, b: Artifact)
    requires images == ProcessAll(folder, names, first, metadata, settings)
    requires j < k < |names| && a in images[j].artifacts && b in images[k].artifacts
    ensures images[j].base == BaseName(first + j) && images[k].base == BaseName(first + k)
    ensures a.file != b.file
  {
    ProcessedImageNamed(folder, names, first, metadata, settings, images, j, a);
    ProcessedImageNamed(folder, names, first, metadata, settings, images, k, b);
    OutputNamesDistinct(first + j, first + k, a.file, b.file);
  }

  /** The j-th image is named `image_<first+j>`, and so is each file written
      for it. */
  lemma ProcessedImageNamed(folder: Folder, names: seq<string>, first: nat, metadata: Entries, settings: Settings,
                            images: seq<ImageReport>, j: nat, a: Artifact)
    requires images == ProcessAll(folder, names, first, metadata, settings)
    requires j < |names| && a in images[j].artifacts
    ensures images[j].base == BaseName(first + j) && NamedAfter(a.file, BaseName(first + j))
  {
  }

  /** The ZIP of a processed pack holds the ZIP-stage copy of every image that
      could be opened and whose first two saves did not raise, whatever the
      watermark did. */
  lemma ZipHoldsEveryOpenedImage(folder: Folder, pack: PackRef, folderName: string, settings: Settings,
                                 plan: PackPlan, j: nat)
    requires plan == ProcessPack(folder, pack, folderName, settings)
    requires plan.Processed? && plan.zip.Some? && j < |plan.images|
    ensures var chosen := ProcessingSet(folder.entries, folder.metadata.entries);
            Open(folder, chosen[j]).Readable? && (SaveFailure(folder, chosen[j]).None? || SaveFailure(folder, chosen[j]) == Some(FreePostSave)) ==>
              plan.images[j].artifacts[1].file == BaseName(j + 1) + ZipExtension(chosen[j])
              && plan.images[j].artifacts[1].file in plan.zip.value.members
  {
    var chosen := ProcessingSet(folder.entries, folder.metadata.entries);
    if Open(folder, chosen[j]).Readable? && (SaveFailure(folder, chosen[j]).None? || SaveFailure(folder, chosen[j]) == Some(FreePostSave)) {
      var a := plan.images[j].artifacts[1];
      assert a in plan.images[j].artifacts && a.dir == TempZipDir;
    }
  }

  /** Every top-level image file leaves the pack folder (or its move is
      logged as failed), including files without metadata and files whose
      processing failed. */
  lemma OriginalsAlwaysMoved(folder: Folder, pack: PackRef, folderName: string, settings: Settings, n: string)
    requires ProcessPack(folder, pack, folderName, settings).Processed?
    requires Entry(n, false) in folder.entries && HasImageExtension(n)
    ensures var plan := ProcessPack(folder, pack, folderName, settings);
            n in plan.moved || n in plan.moveFailed
  {
  }

  /** Extraction followed by processing: when metadata.json holds what
      extraction wrote, the processing set is exactly the sorted names of the
      image files whose metadata extraction kept. */
  lemma ExtractThenProcess(folder: Folder, codec: JsonCodec, n: string)
    requires ExtractPack(folder, codec).Extracted?
    ensures var written := MetadataWritten(ExtractPack(folder, codec));
            n in ProcessingSet(folder.entries, written) <==>
              Listed(folder.entries, n) && HasImageExtension(n)
              && ExtractPng(Open(folder, n), codec).Success? && ExtractPng(Open(folder, n), codec).value != JNull
  {
    var written := MetadataWritten(ExtractPack(folder, codec));
    if n in Keys(written) {
      var i :| 0 <= i < |written| && written[i].0 == n;
      assert written[i] in written;
    }
    if Listed(folder.entries, n) && HasImageExtension(n)
       && ExtractPng(Open(folder, n), codec).Success? && ExtractPng(Open(folder, n), codec).value != JNull {
      var p := (n, ExtractPng(Open(folder, n), codec).value);
      assert p in written;
      var i :| 0 <= i < |written| && written[i] == p;
      assert written[i].0 == n;
    }
  }

  // ----- run_auto_mosaic -----

  /** Why `run_auto_mosaic` gave up before processing anything. */
  datatype MosaicRefusal = NoOriginals | NoMetadata | NoScript | NoWorkflow | NoOriginalImages

  /** What the run did: gave up, stopped on a metadata.json that is not JSON
      (a FATAL log), or ran the script on every image. `processed` are the
      images the script handled, `failed` the ones it did not or whose
      metadata test raised, `embedWarnings` the processed ones whose
      metadata could not be embedded. */
  datatype MosaicRun =
    | Refused(reason: MosaicRefusal)
    | Fatal
    | Finished(processed: seq<string>, failed: seq<string>, embedWarnings: seq<string>)

  /** The pipeline accepts a run on its return code alone; it does not look
      for the output file. */
  predicate ScriptSucceeded(o: AutoMosaic.RunOutcome) {
    o.Completed? && o.returnCode == 0
  }

  /** An image counts as processed when the script succeeded and the
      `name in meta_map` test did not raise (that test sits outside the
      embed's own handler, so its error fails the image). */
  predicate MosaicProcessed(name: string, metadata: JsonFile, o: AutoMosaic.RunOutcome)
    requires Parses(metadata)
  {
    ScriptSucceeded(o) && !ProbeKey(metadata, name).TestRaises?
  }

  /** Re-embedding raises when `meta_map[name]` cannot be indexed, when
      `embed` refuses the value, or when it would write and the script left
      no output file to open. */
  predicate EmbedRaises(name: string, metadata: JsonFile, o: AutoMosaic.RunOutcome, codec: JsonCodec)
    requires Parses(metadata)
  {
    match ProbeKey(metadata, name)
    case IndexRaises => true
    case HasEntry(v) =>
      var e := Embed(name, v, codec);
      e.Failure? || (e.value != NoWrite && !(o.Completed? && o.outputExists))
    case _ => false
  }

  /** The loop of `run_auto_mosaic`: the script on each image, in glob order. */
  function MosaicImages(files: seq<Entry>, metadata: JsonFile, outcome: string -> AutoMosaic.RunOutcome, codec: JsonCodec)
    : (r: (seq<string>, seq<string>, seq<string>))
    requires Parses(metadata)
    ensures |r.0| + |r.1| == |files|
    ensures forall n :: n in r.0 <==> Listed(files, n) && MosaicProcessed(n, metadata, outcome(n))
    ensures forall n :: n in r.1 <==> Listed(files, n) && !MosaicProcessed(n, metadata, outcome(n))
    ensures forall n :: n in r.2 <==> n in r.0 && EmbedRaises(n, metadata, outcome(n), codec)
  {
    if |files| == 0 then ([], [], [])
    else
      var n := files[0].name;
      var rest := MosaicImages(files[1..], metadata, outcome, codec);
      assert forall m :: Listed(files, m) <==> m == n || Listed(files[1..], m) by {
        assert forall e :: e in files <==> e == files[0] || e in files[1..];
      }
      if MosaicProcessed(n, metadata, outcome(n)) then
        var warned := if EmbedRaises(n, metadata, outcome(n), codec) then [n] else [];
        ([n] + rest.0, rest.1, warned + rest.2)
      else (rest.0, [n] + rest.1, rest.2)
  }

  /** `run_auto_mosaic` on one pack: the guards in the order the code checks
      them, then the script on every image of original_images. Only a
      `Finished` run reports success. */
  function RunAutoMosaic(folder: Folder, originals: Option<seq<Entry>>, scriptExists: bool, workflowExists: bool,
                         outcome: string -> AutoMosaic.RunOutcome, codec: JsonCodec): (r: MosaicRun)
    ensures originals.None? <==> r == Refused(NoOriginals)
    ensures r == Refused(NoMetadata) <==> originals.Some? && folder.metadata.Absent?
    ensures r.Fatal? <==> originals.Some? && folder.metadata.Unparsable?
    ensures r == Refused(NoScript) <==> originals.Some? && Parses(folder.metadata) && !scriptExists
    ensures r == Refused(NoWorkflow) <==> originals.Some? && Parses(folder.metadata) && scriptExists && !workflowExists
    ensures r.Finished? <==> originals.Some? && Parses(folder.metadata) && scriptExists && workflowExists
                             && ImageGlob(originals.value) != []
    ensures r.Finished? ==> r == var m := MosaicImages(ImageGlob(originals.value), folder.metadata, outcome, codec);
                                 Finished(m.0, m.1, m.2)
  {
    if originals.None? then Refused(NoOriginals)
    else if folder.metadata.Absent? then Refused(NoMetadata)
    else if folder.metadata.Unparsable? then Fatal
    else if !scriptExists then Refused(NoScript)
    else if !workflowExists then Refused(NoWorkflow)
    else
      var files := ImageGlob(originals.value);
      if files == [] then Refused(NoOriginalImages)
      else
        var m := MosaicImages(files, folder.metadata, outcome, codec);
        Finished(m.0, m.1, m.2)
  }

  /** A metadata.json holding a bare number, boolean or null fails every
      image: the membership test raises for each one. */
  lemma {:induction false} ScalarMetadataProcessesNothing(files: seq<Entry>, outcome: string -> AutoMosaic.RunOutcome,
                                                         codec: JsonCodec)
    ensures var m := MosaicImages(files, NonObject(TopScalar), outcome, codec);
            m.0 == [] && |m.1| == |files|
  {
    if |files| > 0 {
      ScalarMetadataProcessesNothing(files[1..], outcome, codec);
    }
  }

  /** The same for a whole run: it ends as finished, with every image
      failed. */
  lemma ScalarMetadataFailsEveryImage(folder: Folder, originals: Option<seq<Entry>>, scriptExists: bool,
                                      workflowExists: bool, outcome: string -> AutoMosaic.RunOutcome, codec: JsonCodec)
    requires folder.metadata == NonObject(TopScalar)
    ensures var r := RunAutoMosaic(folder, originals, scriptExists, workflowExists, outcome, codec);
            r.Finished? ==> r.processed == [] && |r.failed| == |ImageGlob(originals.value)|
  {
    if originals.Some? {
      ScalarMetadataProcessesNothing(ImageGlob(originals.value), outcome, codec);
    }
  }

  /** A metadata.json holding a list that contains an image's name as a
      string: the script's success still counts, and the embed step warns. */
  lemma ListMetadataWarns(folder: Folder, originals: Option<seq<Entry>>, scriptExists: bool, workflowExists: bool,
                          outcome: string -> AutoMosaic.RunOutcome, codec: JsonCodec, items: seq<Json>, name: string)
    requires folder.metadata == NonObject(TopList(items)) && JStr(name) in items
    requires originals.Some? && Listed(ImageGlob(originals.value), name) && ScriptSucceeded(outcome(name))
    requires scriptExists && workflowExists
    ensures var r := RunAutoMosaic(folder, originals, scriptExists, workflowExists, outcome, codec);
            r.Finished? && name in r.processed && name in r.embedWarnings
  {
  }

  /** The pipeline and the adapter disagree on a run that exits with 0 but
      leaves no output: the pipeline counts it as processed, the adapter's
      `process_image` as failed. */
  lemma PipelineSkipsOutputCheck(name: string, metadata: Option<Json>, codec: JsonCodec)
    ensures ScriptSucceeded(AutoMosaic.Completed(0, false))
    ensures !AutoMosaic.ProcessImage(true, AutoMosaic.Completed(0, false), true, metadata, name, codec).ok
  {
  }
}
