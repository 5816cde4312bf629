/** The older single-file pipeline (`NovoOrganizer.py`), which the core
    replaced: the same two steps, metadata extraction and image processing,
    over PNG files only. It shares the folder model, the output names and the
    character-tag cleaning with the core. Where it behaves differently, a
    lemma below states the difference.

    Its processing run is all or nothing: any exception, whether from an
    unreadable metadata.json, a bad tag, one image or the ZIP write, ends the
    whole run with a FATAL log. */
module Legacy {
  import opened Base
  import opened Text
  import opened Order
  import opened Json
  import opened Listing
  import opened Discovery
  import opened Metadata
  import opened Processor
  import Config
  import Watermark

  // ----- _get_target_folders_to_process -----

  /** The legacy list of reserved prefixes: `pixiv_safe` is not on it. */
  const LegacyPrefixes: seq<string> := [".", "original_images", "free_post", "preview_Images"]

  /** Any `*.png` entry directly in the input directory makes it the single
      pack. Otherwise every sub-directory whose name has no reserved prefix is
      a pack. */
  function TargetFolders(root: seq<Entry>): (r: seq<PackRef>)
    ensures (exists e :: e in root && EndsWith(e.name, ".png")) ==> r == [RootPack]
    ensures !(exists e :: e in root && EndsWith(e.name, ".png")) ==>
              forall p :: p in r <==> p.SubPack? && Entry(p.name, true) in root && !StartsWithAny(p.name, LegacyPrefixes)
  {
    var pngs := Glob(root, ".png");
    if pngs != [] then
      assert pngs[0] in pngs;
      [RootPack]
    else EligibleSubPacks(root, LegacyPrefixes)
  }

  /** A `pixiv_safe` sub-directory is a pack for the legacy pipeline and
      reserved for the core. */
  lemma PixivSafeOnlyLegacyPack()
    ensures TargetFolders([Entry("pixiv_safe", true)]) == [SubPack("pixiv_safe")]
    ensures Discover([Entry("pixiv_safe", true)]) == []
  {
    var root := [Entry("pixiv_safe", true)];
    forall i | 0 <= i < |ImageExtensions| ensures !EndsWith("pixiv_safe", ImageExtensions[i]) {
      NoDotNoExtension("pixiv_safe", ImageExtensions[i]);
    }
    forall i | 0 <= i < |LegacyPrefixes| ensures !StartsWith("pixiv_safe", LegacyPrefixes[i]) {
      DiffersAt("pixiv_safe", LegacyPrefixes[i], if i == 3 then 1 else 0);
    }
    assert StartsWith("pixiv_safe", ReservedPrefixes[4]);
    assert root[1..] == [];
  }

  // ----- get_png_metadata -----

  /** `get_png_metadata`: `None` when the file cannot be opened; otherwise the
      Comment text chunk decoded as JSON when it is non-empty and parses, and
      all text chunks as string fields when it is not. */
  function GetPngMetadata(stored: Stored, codec: JsonCodec): (r: Option<Json>)
    ensures r.None? <==> stored.Unreadable?
    ensures r.Some? ==> ExtractAllOutcome(stored.image, codec, r.value)
  {
    match stored
    case Unreadable => None
    case Readable(img) =>
      var text := TextChunks(img);
      var comment := if "Comment" in text then text["Comment"] else "";
      if comment != "" && codec.loads(comment).Parsed? then Some(codec.loads(comment).value)
      else Some(JObj(map k | k in text :: JStr(text[k])))
  }

  /** The legacy reader is the core's `extract_all_png_metadata`, except that
      it returns `None` where the core raises. */
  lemma GetPngMetadataIsExtractAll(stored: Stored, codec: JsonCodec)
    ensures GetPngMetadata(stored, codec).Some? <==> ExtractAllPng(stored, codec).Success?
    ensures GetPngMetadata(stored, codec).Some? ==> GetPngMetadata(stored, codec).value == ExtractAllPng(stored, codec).value
  {
  }

  // ----- run_metadata_extraction -----

  /** The `pack_metadata` dictionary: every `*.png` entry whose metadata is not
      `None`, by name, in listing order. */
  function CollectMetadata(folder: Folder, files: seq<Entry>, codec: JsonCodec): (r: Entries)
    ensures forall p: (string, Json) :: p in r <==>
              Listed(files, p.0) && GetPngMetadata(Open(folder, p.0), codec) == Some(p.1) && p.1 != JNull
  {
    if |files| == 0 then []
    else
      var n := files[0].name;
      var rest := CollectMetadata(folder, files[1..], codec);
      assert forall m :: Listed(files, m) <==> m == n || Listed(files[1..], m) by {
        assert forall e :: e in files <==> e == files[0] || e in files[1..];
      }
      match GetPngMetadata(Open(folder, n), codec)
      case None => rest
      case Some(v) => if v == JNull then rest else [(n, v)] + rest
  }

  /** What extraction did to one folder: skipped it for lack of PNG files,
      or collected the metadata and wrote metadata.json when there was any. */
  datatype LegacyExtraction = NoPngs | Collected(written: Option<Entries>)

  function ExtractFolder(folder: Folder, codec: JsonCodec): (r: LegacyExtraction)
    ensures r.NoPngs? <==> Glob(folder.entries, ".png") == []
    ensures r.Collected? && r.written.Some? ==> |r.written.value| > 0
    ensures r.Collected? ==>
              (r.written.None? <==>
                 forall n, v :: (Listed(folder.entries, n) && EndsWith(n, ".png") && GetPngMetadata(Open(folder, n), codec) == Some(v))
                                ==> v == JNull)
    ensures r.Collected? && r.written.Some? ==> forall p: (string, Json) :: p in r.written.value <==>
              Listed(folder.entries, p.0) && EndsWith(p.0, ".png")
              && GetPngMetadata(Open(folder, p.0), codec) == Some(p.1) && p.1 != JNull
  {
    var files := Glob(folder.entries, ".png");
    if files == [] then NoPngs
    else
      var collected := CollectMetadata(folder, files, codec);
      assert forall m :: Listed(files, m) <==> Listed(folder.entries, m) && EndsWith(m, ".png");
      if |collected| > 0 then
        assert collected[0] in collected;
        Collected(Some(collected))
      else
        assert forall n, v :: Listed(folder.entries, n) && EndsWith(n, ".png") && GetPngMetadata(Open(folder, n), codec) == Some(v)
                              ==> v == JNull by {
          forall n, v | Listed(folder.entries, n) && EndsWith(n, ".png") && GetPngMetadata(Open(folder, n), codec) == Some(v)
            ensures v == JNull
          {
            assert (n, v) !in collected;
          }
        }
        Collected(None)
  }

  /** A readable PNG without any text chunk still gets an entry: the empty
      object is not `None`. */
  lemma EmptyTextStillRecorded(folder: Folder, n: string, codec: JsonCodec)
    requires Entry(n, false) in folder.entries && EndsWith(n, ".png") && n in folder.images
    requires TextChunks(folder.images[n]) == map[]
    ensures ExtractFolder(folder, codec).Collected?
    ensures ExtractFolder(folder, codec).written.Some?
    ensures (n, JObj(map[])) in ExtractFolder(folder, codec).written.value
  {
    assert Entry(n, false) in Glob(folder.entries, ".png");
    assert GetPngMetadata(Open(folder, n), codec) == Some(JObj(map[]));
  }

  datatype LegacyExtractionRun = NoFolders | Reports(reports: seq<LegacyExtraction>)

  /** `run_metadata_extraction`: every target folder, in order. */
  function RunMetadataExtraction(tree: Tree, codec: JsonCodec): (r: LegacyExtractionRun)
    ensures r.NoFolders? <==> TargetFolders(tree.root.entries) == []
    ensures r.Reports? ==>
              var packs := TargetFolders(tree.root.entries);
              |r.reports| == |packs| && forall i :: 0 <= i < |packs| ==> r.reports[i] == ExtractFolder(FolderAt(tree, packs[i]), codec)
  {
    var packs := TargetFolders(tree.root.entries);
    if packs == [] then NoFolders
    else Reports(seq(|packs|, i requires 0 <= i < |packs| => ExtractFolder(FolderAt(tree, packs[i]), codec)))
  }

  // ----- characters.txt -----

  /** The legacy character list: the cleaned tags, first occurrence first.
      Unlike the core it keeps a tag that cleans to the empty string. */
  function CharacterList(metadata: Entries): (r: Result<seq<string>, TagError>)
    ensures r.Success? <==> AllTagsReadable(Values(metadata))
    ensures r.Success? ==> NoDup(r.value)
    ensures r.Success? ==> forall t :: t in r.value <==> TagIn(Values(metadata), t)
    ensures r.Success? ==> forall a, b :: 0 <= a < b < |r.value| ==>
              FirstTagIndex(Values(metadata), r.value[a]) < FirstTagIndex(Values(metadata), r.value[b])
  {
    match CleanedTags(Values(metadata))
    case Failure(e) => Failure(e)
    case Success(tags) =>
      TagsDedupOrder(Values(metadata), tags, tags);
      Success(Dedup(tags))
  }

  /** The characters.txt text, when the list is not empty. */
  function CharactersFile(names: seq<string>): (t: Option<string>)
    ensures t.Some? <==> |names| > 0
  {
    if |names| > 0 then Some(Join(names, ", ")) else None
  }

  /** A tag made only of underscores: the legacy pipeline writes an empty
      characters.txt, the core writes none. */
  lemma UnderscoreTagDiffers()
    ensures var md := [("a.png", JObj(map["character" := JStr("_")]))];
            && CharacterList(md) == Success([""])
            && CharactersFile(CharacterList(md).value) == Some("")
            && CreateCharacterList(md) == Success("")
  {
    var v := JObj(map["character" := JStr("_")]);
    var md := [("a.png", v)];
    assert Values(md) == [v];
    UnderscoreTag(v);
    assert Dedup([""]) == [""] by {
      assert [""][..0] == [];
    }
    LegacyListFromTags(md, [""]);
    NamesFromTags(md, [""]);
    assert NonEmpty([""]) == [];
    ListFromNames(md, []);
  }

  /** A tag of one underscore is read as the empty name. */
  lemma UnderscoreTag(v: Json)
    requires v == JObj(map["character" := JStr("_")])
    ensures CleanedTags([v]) == Success([""])
  {
    UnderscoreTagValue();
    SingleEmptyTag(v);
  }

  lemma UnderscoreTagValue()
    ensures CharacterTag(JObj(map["character" := JStr("_")])) == Success(Some(""))
  {
    StringTag("_");
    CleanUnderscore();
  }

  lemma {:induction false} SingleEmptyTag(v: Json)
    requires CharacterTag(v) == Success(Some(""))
    ensures CleanedTags([v]) == Success([""])
  {
    var none: seq<Json> := [];
    var empty: seq<string> := [];
    assert [v] + none == [v] && [""] + empty == [""];
    NoValuesNoTags();
    CleanedTagsCons(v, none, Some(""), empty);
  }

  lemma CleanUnderscore()
    ensures Clean("_") == ""
  {
    var t := "_";
    assert |t| == 1 && t[0] == '_';
    assert forall k :: 0 <= k < |t| ==> t[k] == '_' || IsSpace(t[k]);
  }

  lemma NoValuesNoTags()
    ensures CleanedTags([]) == Success([])
  {
  }

  lemma LegacyListFromTags(md: Entries, tags: seq<string>)
    requires CleanedTags(Values(md)) == Success(tags)
    ensures CharacterList(md) == Success(Dedup(tags))
  {
  }

  // ----- run_image_processing -----

  /** The names of the `*.png` entries that are keys of the metadata, sorted. */
  function LegacyProcessingSet(entries: seq<Entry>, metadata: Entries): (r: seq<string>)
    ensures Sorted(r)
    ensures forall n :: n in r <==> Listed(entries, n) && EndsWith(n, ".png") && n in Keys(metadata)
  {
    var files := Glob(entries, ".png");
    var names := NamesWithMetadata(files, metadata);
    assert forall m :: Listed(files, m) <==> Listed(entries, m) && EndsWith(m, ".png");
    var r := Sort(names);
    assert forall n :: n in r <==> n in multiset(r);
    assert forall n :: n in names <==> n in multiset(names);
    r
  }

  /** The legacy set is the part of the core's set named `*.png`. */
  lemma LegacySetWithinCore(entries: seq<Entry>, metadata: Entries, n: string)
    ensures n in LegacyProcessingSet(entries, metadata) <==> n in ProcessingSet(entries, metadata) && EndsWith(n, ".png")
  {
    if EndsWith(n, ".png") {
      assert EndsWith(n, ImageExtensions[0]);
    }
  }

  /** The legacy EXIF payload: `json.dumps` with default settings for any
      non-empty metadata, with no size ceiling. */
  function LegacyPayload(metadata: Json, codec: JsonCodec): (p: Option<string>)
    ensures p.Some? <==> Truthy(metadata)
    ensures p.Some? ==> p.value == codec.plain(metadata)
  {
    if Truthy(metadata) then Some(codec.plain(metadata)) else None
  }

  /** Metadata over the ceiling: the legacy files carry it, the core's carry
      none. */
  lemma PayloadIgnoresCeiling(metadata: Json, codec: JsonCodec)
    requires Truthy(metadata) && Utf8Length(codec.compact(metadata)) > MaxEmbedBytes
    ensures LegacyPayload(metadata, codec).Some? && ExifPayload(metadata, codec).None?
  {
  }

  /** `watermark.resize` after the legacy ratio arithmetic: `ratio = w / h`,
      the longer side becomes `size` and the other is truncated. `None` for
      the division by a zero height and for a zero-sized result. */
  function LegacyResize(size: nat, width: nat, height: nat): (r: Option<(nat, nat)>)
    ensures r == Watermark.ResizedDims(size, width, height)
  {
    if height == 0 then None
    else
      var dims := if width >= height then (size, (size * height) / width) else ((size * width) / height, size);
      if dims.0 == 0 || dims.1 == 0 then None else Some(dims)
  }

  /** The legacy position dictionary. */
  function PositionTable(bw: int, bh: int, ww: int, wh: int, mx: int, my: int): map<string, (int, int)> {
    map[
      "top_left" := (mx, my),
      "top_center" := ((bw - ww) / 2, my),
      "top_right" := (bw - ww - mx, my),
      "center_left" := (mx, (bh - wh) / 2),
      "center" := ((bw - ww) / 2, (bh - wh) / 2),
      "center_right" := (bw - ww - mx, (bh - wh) / 2),
      "bottom_left" := (mx, bh - wh - my),
      "bottom_center" := ((bw - ww) / 2, bh - wh - my),
      "bottom_right" := (bw - ww - mx, bh - wh - my)]
  }

  /** `positions.get(position, positions["top_right"])`: the legacy table
      places the watermark exactly where the core's does. */
  function LegacyPosition(bw: int, bh: int, ww: int, wh: int, position: string, mx: int, my: int): (p: (int, int))
    ensures p == Watermark.CalculatePosition(bw, bh, ww, wh, position, mx, my)
  {
    var table := PositionTable(bw, bh, ww, wh, mx, my);
    assert table.Keys == set a: Watermark.Anchor :: a.Name() by {
      forall k | k in table.Keys ensures exists a: Watermark.Anchor :: a.Name() == k {
        assert Watermark.ParseAnchor(k).Name() == k;
      }
    }
    var a := Watermark.ParseAnchor(position);
    if position in table then
      assert a.Name() == position;
      table[position]
    else
      assert a == Watermark.TopRight;
      table["top_right"]
  }

  /** `_apply_watermark` of the legacy pipeline: it reads the GUI settings,
      which carry the same fields as the core's watermark configuration. */
  function LegacyWatermark(bw: nat, bh: nat, config: Config.WatermarkConfig, file: Watermark.WatermarkFile)
    : (r: Option<Watermark.Placement>)
    ensures r.Some? <==> Watermark.ApplyWatermark(bw, bh, config, file).Success?
    ensures r.Some? ==> r.value == Watermark.ApplyWatermark(bw, bh, config, file).value
  {
    if !file.Readable? then None
    else
      var size := Watermark.WatermarkSize(bw, bh, config.scale);
      match LegacyResize(size, file.width, file.height)
      case None => None
      case Some(dims) =>
        var pos := LegacyPosition(bw, bh, dims.0, dims.1, config.position, config.marginX, config.marginY);
        Some(Watermark.Placement(pos.0, pos.1, dims.0, dims.1, Config.Below(config.opacity, 1)))
  }

  /** `_process_single_image` of the legacy pipeline: the preview and the PNG
      copy for the ZIP, then the watermarked JPEG. Any failure, of the
      watermark or of a save, raises, so `ok` is false; a raising save ends
      the list before its own file. */
  function LegacyImage(source: string, index: nat, stored: Stored, failing: Option<SaveStep>, metadata: Json,
                       settings: Settings)
    : (r: ImageReport)
    ensures r.source == source && r.base == BaseName(index)
    ensures stored.Unreadable? ==> r.artifacts == [] && !r.ok
    ensures stored.Readable? ==>
              (r.ok <==> failing.None? && LegacyWatermark(stored.image.width, stored.image.height,
                                                          settings.watermark, settings.watermarkFile).Some?)
    ensures stored.Readable? && failing == Some(PreviewSave) ==> r.artifacts == []
    ensures stored.Readable? && failing == Some(ZipSave) ==> |r.artifacts| == 1
    ensures stored.Readable? && (failing.None? || failing == Some(FreePostSave)) ==>
              |r.artifacts| == (if r.ok then 3 else 2)
    ensures |r.artifacts| > 0 ==>
              r.artifacts[0] == Artifact(PreviewDir, r.base + ".webp", LegacyPayload(metadata, settings.codec))
    ensures |r.artifacts| > 1 ==> r.artifacts[1] == Artifact(TempZipDir, r.base + ".png", None)
    ensures r.ok ==> |r.artifacts| == 3
                     && r.artifacts[2] == Artifact(FreePostDir, r.base + ".jpeg", LegacyPayload(metadata, settings.codec))
    ensures forall a :: a in r.artifacts ==> NamedAfter(a.file, r.base)
  {
    var base := BaseName(index);
    NamedAfterConcat(base, ".webp");
    NamedAfterConcat(base, ".png");
    NamedAfterConcat(base, ".jpeg");
    match stored
    case Unreadable => ImageReport(source, base, [], false)
    case Readable(img) =>
      var payload := LegacyPayload(metadata, settings.codec);
      var preview := Artifact(PreviewDir, base + ".webp", payload);
      var copy := Artifact(TempZipDir, base + ".png", None);
      var marked := LegacyWatermark(img.width, img.height, settings.watermark, settings.watermarkFile).Some?;
      if failing == Some(PreviewSave) then ImageReport(source, base, [], false)
      else if failing == Some(ZipSave) then ImageReport(source, base, [preview], false)
      else if marked && failing.None? then
        ImageReport(source, base, [preview, copy, Artifact(FreePostDir, base + ".jpeg", payload)], true)
      else ImageReport(source, base, [preview, copy], false)
  }

  /** Every image of the set, numbered from 1 in sorted order. The pool runs
      them all before `future.result()` re-raises the first failure. */
  function LegacyImages(folder: Folder, names: seq<string>, metadata: Entries, settings: Settings)
    : (r: seq<ImageReport>)
    ensures |r| == |names|
    ensures forall j :: 0 <= j < |names| ==>
              r[j] == LegacyImage(names[j], j + 1, Open(folder, names[j]), SaveFailure(folder, names[j]), MetadataFor(metadata, names[j]), settings)
  {
    seq(|names|, j requires 0 <= j < |names| =>
      LegacyImage(names[j], j + 1, Open(folder, names[j]), SaveFailure(folder, names[j]), MetadataFor(metadata, names[j]), settings))
  }

  predicate AllOk(images: seq<ImageReport>) {
    forall j :: 0 <= j < |images| ==> images[j].ok
  }

  /** What the legacy loop did to one folder.
      - `NoMetadataFile`: no metadata.json; the loop goes on.
      - `BadMetadata`: metadata.json did not load as a dictionary, or a
        character tag raised; fatal.
      - `NoMatchingPng`: no PNG matches the metadata; temp_for_zip is removed.
      - `ImageFailed`: some image raised; fatal, after every image ran.
      - `ZipFailed`: writing the ZIP raised; fatal.
      - `Organized`: ZIP written, temp_for_zip removed, originals moved. */
  datatype LegacyPlan =
    | NoMetadataFile
    | BadMetadata
    | NoMatchingPng(characters: Option<string>)
    | ImageFailed(characters: Option<string>, images: seq<ImageReport>)
    | ZipFailed(characters: Option<string>, images: seq<ImageReport>)
    | Organized(characters: Option<string>, images: seq<ImageReport>, zip: ZipArchive,
                moved: seq<string>, moveFailed: seq<string>)

  predicate Fatal(plan: LegacyPlan) {
    plan.BadMetadata? || plan.ImageFailed? || plan.ZipFailed?
  }

  /** The body of the `run_image_processing` loop for one folder. */
  function LegacyPack(folder: Folder, pack: PackRef, folderName: string, settings: Settings): (r: LegacyPlan)
    ensures r.NoMetadataFile? <==> folder.metadata.Absent?
    ensures r.BadMetadata? <==> folder.metadata.Unparsable? || folder.metadata.NonObject? || (folder.metadata.Loaded? && CharacterList(folder.metadata.entries).Failure?)
    ensures !r.NoMetadataFile? && !r.BadMetadata? ==>
              folder.metadata.Loaded? && CharacterList(folder.metadata.entries).Success?
              && r.characters == CharactersFile(CharacterList(folder.metadata.entries).value)
    ensures r.NoMatchingPng? <==> !r.NoMetadataFile? && !r.BadMetadata? && LegacyProcessingSet(folder.entries, folder.metadata.entries) == []
    ensures r.ImageFailed? || r.ZipFailed? || r.Organized? ==>
              r.images == LegacyImages(folder, LegacyProcessingSet(folder.entries, folder.metadata.entries), folder.metadata.entries, settings)
    ensures r.ImageFailed? <==> (r.ImageFailed? || r.ZipFailed? || r.Organized?) && !AllOk(r.images)
    ensures r.ZipFailed? <==> (r.ZipFailed? || r.Organized?) && pack in settings.zipFails
    ensures r.Organized? ==>
              && r.zip == ZipArchive(folderName + "-" + settings.date + ".zip", ZipMembers(r.images))
              && (forall n :: n in r.moved <==> Entry(n, false) in folder.entries && EndsWith(n, ".png") && (pack, n) !in settings.moveFails)
              && (forall n :: n in r.moveFailed <==> Entry(n, false) in folder.entries && EndsWith(n, ".png") && (pack, n) in settings.moveFails)
  {
    match folder.metadata
    case Absent => NoMetadataFile
    case Unparsable => BadMetadata
    case NonObject(_) => BadMetadata
    case Loaded(metadata) =>
      match CharacterList(metadata)
      case Failure(_) => BadMetadata
      case Success(names) =>
        var characters := CharactersFile(names);
        var chosen := LegacyProcessingSet(folder.entries, metadata);
        if chosen == [] then NoMatchingPng(characters)
        else
          var images := LegacyImages(folder, chosen, metadata, settings);
          if !AllOk(images) then ImageFailed(characters, images)
          else if pack in settings.zipFails then ZipFailed(characters, images)
          else
            var originals := RegularNames(Glob(folder.entries, ".png"));
            Organized(characters, images, ZipArchive(folderName + "-" + settings.date + ".zip", ZipMembers(images)),
                      Moves(pack, originals, settings.moveFails), MoveFailures(pack, originals, settings.moveFails))
  }

  /** The ZIP of a processed legacy pack holds exactly one PNG copy per image. */
  lemma LegacyZipHoldsPngCopies(folder: Folder, pack: PackRef, folderName: string, settings: Settings,
                                plan: LegacyPlan, j: nat)
    requires plan == LegacyPack(folder, pack, folderName, settings)
    requires plan.Organized? && j < |plan.images|
    ensures BaseName(j + 1) + ".png" in plan.zip.members
  {
    var chosen := LegacyProcessingSet(folder.entries, folder.metadata.entries);
    var r := plan.images[j];
    assert r == LegacyImage(chosen[j], j + 1, Open(folder, chosen[j]), SaveFailure(folder, chosen[j]), MetadataFor(folder.metadata.entries, chosen[j]), settings);
    assert r.ok;
    assert r.artifacts[1] in r.artifacts;
  }

  /** What the legacy processing run did: refused for a missing watermark
      file, found no folder, or the plans of the folders it reached; the
      run fails when its last plan is fatal. */
  datatype LegacyRun = NoWatermark | NoTargets | Reached(plans: seq<LegacyPlan>)

  /** `run_image_processing`: the watermark file is checked before
      discovery; a fatal folder ends the run. */
  function RunImageProcessing(tree: Tree, settings: Settings): (r: LegacyRun)
    ensures r.NoWatermark? <==> settings.watermarkFile.Missing?
    ensures r.NoTargets? <==> !settings.watermarkFile.Missing? && TargetFolders(tree.root.entries) == []
    ensures r.Reached? ==>
              var packs := TargetFolders(tree.root.entries);
              && 0 < |r.plans| <= |packs|
              && (forall i :: 0 <= i < |r.plans| ==>
                    r.plans[i] == LegacyPack(FolderAt(tree, packs[i]), packs[i], FolderName(tree, packs[i]), settings))
              && (forall i :: 0 <= i < |r.plans| - 1 ==> !Fatal(r.plans[i]))
              && (|r.plans| < |packs| ==> Fatal(r.plans[|r.plans| - 1]))
  {
    if settings.watermarkFile.Missing? then NoWatermark
    else
      var packs := TargetFolders(tree.root.entries);
      if packs == [] then NoTargets
      else
        var all := LegacyPlans(tree, packs, settings);
        var r := LegacyRunPacks(all, 0, []);
        assert forall i :: 0 <= i < |r| ==> r[i] == all[i];
        Reached(r)
  }

  /** The plan of every target folder, as if the loop never stopped. */
  function LegacyPlans(tree: Tree, packs: seq<PackRef>, settings: Settings): (r: seq<LegacyPlan>)
    ensures |r| == |packs|
    ensures forall k :: 0 <= k < |packs| ==>
              r[k] == LegacyPack(FolderAt(tree, packs[k]), packs[k], FolderName(tree, packs[k]), settings)
  {
    seq(|packs|, k requires 0 <= k < |packs| => LegacyPack(FolderAt(tree, packs[k]), packs[k], FolderName(tree, packs[k]), settings))
  }

  /** The loop from folder `i` on, over the plans computed in advance, with
      the plans of the folders before it. */
  function LegacyRunPacks(all: seq<LegacyPlan>, i: nat, done: seq<LegacyPlan>): (r: seq<LegacyPlan>)
    requires i <= |all| && done == all[..i]
    requires forall k :: 0 <= k < i ==> !Fatal(done[k])
    ensures i <= |r| <= |all| && r == all[..|r|]
    ensures i < |all| ==> i < |r|
    ensures forall k :: 0 <= k < |r| - 1 ==> !Fatal(r[k])
    ensures |r| < |all| ==> Fatal(r[|r| - 1])
    decreases |all| - i
  {
    if i == |all| then done
    else
      var next := done + [all[i]];
      assert next == all[..i + 1];
      if Fatal(all[i]) then next
      else LegacyRunPacks(all, i + 1, next)
  }

  /** One image the watermark cannot be applied to stops the legacy pack,
      while the core processes it with its preview and ZIP copy and goes on. */
  lemma OneBadImageIsFatal(folder: Folder, pack: PackRef, folderName: string, settings: Settings, j: nat)
    requires folder.metadata.Loaded? && CharacterList(folder.metadata.entries).Success?
    requires j < |LegacyProcessingSet(folder.entries, folder.metadata.entries)|
    requires !LegacyImages(folder, LegacyProcessingSet(folder.entries, folder.metadata.entries),
                           folder.metadata.entries, settings)[j].ok
    ensures LegacyPack(folder, pack, folderName, settings).ImageFailed?
  {
  }
}
