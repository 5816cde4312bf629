# organizer3 in Dafny

A model of the core of organizer3, a tool that prepares packs of AI-generated
images for publication. A pack is a folder of images. The tool has two steps:

- **Metadata extraction** reads the generation metadata embedded in each image
  and writes it to the pack's `metadata.json`. It reads the EXIF
  `ImageDescription` field first, then the PNG `Comment` text chunk.
- **Image processing** works on each image that has metadata. For each one it
  writes:
  - a WebP preview;
  - a copy for the ZIP archive;
  - a watermarked JPEG.

  It also writes `characters.txt` from the images' `character` tags and the
  pack's ZIP archive. Finally it moves the originals into `original_images`.

Other parts of the model:
- the metadata codec and its 60,000-byte ceiling;
- watermark placement on a nine-anchor grid;
- the adapter that runs an external mosaic script on each image and embeds the
  metadata again;
- the older single-file pipeline the core replaced;
- the brush canvas of the manual mosaic editor and its "save all" bookkeeping.

Each step is a pure function of the folders it reads. Its result is a *plan*:
per pack, the files it writes, the ZIP members and the moves, in processing
order. Whatever the program cannot see is an input to the model:
- the JSON serialisers and the parser;
- the date stamp;
- which image saves, ZIP writes and moves raise;
- how each run of the external script ends;
- which temporary files exist.

Modules, one per file:

| file | module | models |
|---|---|---|
| base.dfy | Base | `Option`, `Result` |
| text.dfy | Text | the `str` operations used: prefixes, suffixes, `Path.suffix`, `replace`, `strip`, `join`, `str(int)` |
| order.dfy | Order | Python string order, `sorted`, first-seen de-duplication |
| json.dfy | Json | decoded JSON values, truthiness, insertion-ordered dictionaries, UTF-8 length |
| listing.dfy | Listing | directory listings and `glob("*.ext")` |
| config.dfy | Config | `core/utils.py`: log levels, configuration records, callbacks |
| metadata.dfy | Metadata | `core/metadata.py` |
| watermark.dfy | Watermark | `core/watermark.py` |
| discovery.dfy | Discovery | `_discover_packs` |
| auto_mosaic.dfy | AutoMosaic | `core/auto_mosaic.py` |
| processor.dfy | Processor | `core/processor.py` |
| legacy.dfy | Legacy | `NovoOrganizer.py` |
| canvas.dfy | Canvas | `MosaicCanvas` and `_save_all` in `gui/manual_editor.py` |

Two places where the code does something other than what its own comments or
its sibling pipeline suggest; the model follows the code:
- The comment at core/processor.py:322 says discovery checks for image files
  directly in the input directory. The test written there is always true; see
  Findings.
- The legacy and core pipelines both write characters.txt, but the legacy list
  keeps a tag that cleans to the empty string and the core list drops it; see
  `Legacy.UnderscoreTagDiffers`.

## Model

| member | source | states |
|---|---|---|
| Text.Lower | core/metadata.py:147 | lower-casing keeps the length and maps each character independently; only `A`–`Z` change |
| Text.LastIndexOf | core/metadata.py:147 | the index found holds the character, and no later index does |
| Text.Suffix | core/processor.py:385 | a file's suffix is empty or a dot-led ending of the name with no further dot |
| Text.ReplaceChar | core/metadata.py:224 | `replace` of one character keeps the length and changes exactly the matching positions |
| Text.StripLeft | core/metadata.py:224 | the removed prefix is all whitespace, and what remains does not start with whitespace |
| Text.StripRight | core/metadata.py:224 | the removed suffix is all whitespace, and what remains does not end with whitespace |
| Text.Strip | core/metadata.py:224 | the result has no whitespace at either end; it is empty exactly when the input is all whitespace |
| Text.JoinEmpty | core/metadata.py:228 | a `", "`-join is empty exactly when there is at most one item and it is empty |
| Text.JoinLength | core/metadata.py:228 | the joined text is the items' lengths plus one separator between each pair |
| Text.Decimal | core/processor.py:355 | `str(n)` is non-empty decimal digits ending in the digit `n % 10` |
| Text.DecimalInjective | core/processor.py:355 | distinct numbers print differently |
| Text.PrefixedDecimalInjective | core/processor.py:355 | `image_<a>` and `image_<b>` with the same ending coincide only when `a == b` |
| Order.LexLeTotal | core/processor.py:153 | any two names are comparable under Python's string order |
| Order.LexLeReflexive | core/processor.py:153 | the string order is reflexive |
| Order.LexLeTransitive | core/processor.py:153 | the string order is transitive |
| Order.LexLeAntisymmetric | core/processor.py:153 | names that sort both ways are equal |
| Order.Insert | core/processor.py:153 | inserting into a sorted list keeps it sorted and adds exactly that element |
| Order.Sort | core/processor.py:153 | `sorted` returns a sorted permutation of its input |
| Order.SortedUnique | core/processor.py:153 | two sorted permutations of the same names are identical, so the order is fully determined |
| Order.FirstIndex | core/metadata.py:225 | the first position of an element: it holds the element and no earlier one does |
| Order.Dedup | core/metadata.py:225-226 | the de-duplicated list has no duplicates, holds exactly the input's elements, and keeps them in first-seen order |
| Json.Get | core/metadata.py:221 | `dict.get` gives the stored value or the default, and fails on a non-object |
| Json.Utf8Width | core/metadata.py:143 | each character takes 1–4 UTF-8 bytes, exactly 1 for ASCII |
| Json.Utf8Length | core/metadata.py:143 | the encoded length lies between the character count and four times it, and equals it exactly for ASCII text |
| Json.Keys | core/processor.py:152 | the keys of a dictionary are exactly the first components of its entries |
| Json.Lookup | core/processor.py:368 | a lookup succeeds exactly for present keys and returns an entry's value |
| Json.Values | core/metadata.py:220 | `.values()` runs parallel to the entries |
| Json.ContainsIff | core/processor.py:287 | `part in text` on strings holds exactly when `part` starts at some position of `text` |
| Json.ProbeKey | core/processor.py:287-290 | `key in value` then `value[key]` on what `json.load` returned: a dictionary gives the key's entry or nothing; a list holding the key as a string, or a string holding it as a substring, passes the test and raises on indexing; a number, boolean or null raises on the test itself |
| Listing.Names | core/processor.py:182-184 | the names of a listing, in order |
| Listing.Glob | core/processor.py:63-64 | `glob("*" + ext)` keeps exactly the entries, files or directories, whose name ends with `ext`, without introducing duplicates |
| Listing.ImageExtensionsSuffixFree | core/processor.py:63 | no image extension ends another, so the four globs never overlap |
| Listing.SuffixesNest | core/processor.py:63 | two endings of one name nest |
| Listing.GlobAll | core/processor.py:62-64 | the concatenated globs hold exactly the entries with one of the extensions, each once |
| Listing.GlobsDisjoint | core/processor.py:62-64 | the first glob and the remaining globs share no name |
| Listing.ImageGlob | core/processor.py:62-64 | the four image globs hold exactly the image-named entries, each once |
| Config.LevelValueRoundTrip | core/utils.py:11-17 | each level's string value names that level |
| Config.LevelValueInjective | core/utils.py:11-17 | no two levels share a value |
| Config.Scale | core/watermark.py:46 | `int(k * f)` for a non-negative `k` is the floor of the product |
| Config.NewWatermarkConfig | core/utils.py:27-36 | the defaults: `top_right`, opacity 0.95, scale 0.35, margins 20 |
| Config.NewCoreConfig | core/utils.py:39-45 | the defaults: 8 workers, 180-second timeout |
| Config.UpdateProgress | core/utils.py:75-88 | progress is clamped to 0..100 and forwarded; the default callback drops it |
| Config.Log | core/utils.py:75-84 | a supplied log callback receives the message and a value that identifies the level; the default prints one line |
| Config.UpdateStatus | core/utils.py:75-92 | a status message is forwarded or printed as `Status: …` |
| Metadata.ExifDescription | core/metadata.py:44-76 | the description is empty exactly when all three lookups come back empty (the accessor counts for JPEG only); otherwise it is one of them |
| Metadata.ExtractPng | core/metadata.py:21-95 | only an unreadable file fails; parseable text yields its value; unparseable text yields the four-field fallback record carrying the parser's message |
| Metadata.DescriptionOutranksComment | core/metadata.py:79 | a non-empty description decides the result whatever the Comment chunk holds |
| Metadata.CommentReadOnlyForPng | core/metadata.py:41-42 | the text chunks of a non-PNG image never affect extraction |
| Metadata.CommentUsedWithoutDescription | core/metadata.py:79-84 | without a description, a parseable Comment chunk is the result |
| Metadata.NoSourceYieldsEmptyObject | core/metadata.py:79-84 | without a description or comment, the result is the empty object |
| Metadata.FallbackKeepsRawText | core/metadata.py:85-92 | the fallback record keeps the raw texts, maps an absent one to null, and never reports `"{}"` as its source |
| Metadata.ExtractAllPng | core/metadata.py:98-125 | only an unreadable file fails; a parseable non-empty Comment wins, otherwise every text chunk becomes a string field |
| Metadata.ChunksAsObject | core/metadata.py:111 | the chunks as an object have the same keys and string values |
| Metadata.Embed | core/metadata.py:128-157 | empty metadata writes nothing; more than 60,000 UTF-8 bytes raises the size error; otherwise the suffix routes to a Comment chunk (PNG), an EXIF description (JPEG, WebP), or the unsupported-format error; the text written is the compact serialisation |
| Metadata.EmbedThenExtract | core/metadata.py:128-188 | round trip: what `embed` writes into a PNG, JPEG or WebP file, `extract_png` reads back as the same metadata |
| Metadata.ValidateMetadataSize | core/metadata.py:191-205 | empty metadata always fits |
| Metadata.ValidateAgreesWithEmbed | core/metadata.py:143-205 | for non-empty metadata the size check fails exactly when `embed` raises its size error |
| Metadata.CeilingIsInclusive | core/metadata.py:143 | exactly 60,000 bytes is still written |
| Metadata.Clean | core/metadata.py:224 | a cleaned tag has no underscore and no surrounding whitespace; it is empty exactly when the tag is only underscores and whitespace |
| Metadata.CharacterTag | core/metadata.py:221-224 | reading a tag raises exactly for a non-object value or a truthy non-string tag; a read tag is clean |
| Metadata.CleanedTags | core/metadata.py:220-224 | the tags read succeed exactly when every value's tag is readable, and are exactly the values' cleaned tags |
| Metadata.FirstTagIndex | core/metadata.py:220-224 | the first value, in metadata order, whose cleaned tag is the given name |
| Metadata.CleanedTagsKeepOrder | core/metadata.py:220-224 | a tag listed before another is first met at an earlier value |
| Metadata.NonEmpty | core/metadata.py:225 | empty names are dropped and nothing else |
| Metadata.NonEmptyKeepsOrder | core/metadata.py:225 | dropping the empty names keeps the order of the rest |
| Metadata.TagsDedupOrder | core/metadata.py:218-226 | de-duplicating keeps each name at the place of its first value |
| Metadata.CharacterNames | core/metadata.py:218-226 | the names are duplicate-free, non-empty, clean, and exactly the non-empty cleaned tags, ordered by the first value carrying each; a bad value makes the call raise |
| Metadata.CreateCharacterList | core/metadata.py:208-228 | the list raises exactly when some tag cannot be read; otherwise it is the names joined by `", "`, and empty exactly when no value has a non-empty cleaned tag |
| Metadata.JoinEmptyNames | core/metadata.py:228 | the joined list is empty exactly when no tag cleans to a non-empty name |
| Metadata.CharacterListExample | core/metadata.py:208-228 | `Foo_Bar`, `foo_bar` and a value without a tag give `"Foo Bar, foo bar"`: case-sensitive, first seen first |
| Watermark.ParseAnchor | core/watermark.py:101-113 | a position string selects the anchor of that name, and any other string selects `top_right` |
| Watermark.ParseAnchorName | core/watermark.py:101-111 | every anchor's name selects that anchor |
| Watermark.AnchorAt | core/watermark.py:101-111 | the nine anchors are the cells of a 3×3 grid |
| Watermark.AnchorsAreGridCells | core/watermark.py:101-111 | an anchor is determined by its column and row |
| Watermark.CalculatePosition | core/watermark.py:86-113 | a start edge sits at the margin, an end edge leaves the margin to the border, a middle centres with floor division |
| Watermark.UnknownPositionIsTopRight | core/watermark.py:113 | an unknown position is placed exactly like `top_right` |
| Watermark.BottomRightExample | core/watermark.py:110 | 200×100 on 1000×800 with margins 20 at the bottom right lands at (780, 680) |
| Watermark.WatermarkSize | core/watermark.py:44-46 | the longer side is the floor of `min(w, h) * scale`: `t * den <= min * num < (t + 1) * den`; never more than the shorter image side for a scale up to 1 |
| Watermark.ResizedDims | core/watermark.py:48-57 | the longer side becomes the target and the other shrinks in proportion, rounded down; it fails exactly on a zero height or a zero-sized result |
| Watermark.ShrinkSide | core/watermark.py:52-54 | the shorter side is the floor of `target * short / long` |
| Watermark.ScaleAlpha | core/watermark.py:60-63 | below full opacity each alpha value becomes the floor of `p * opacity`; otherwise it is kept |
| Watermark.AlphaNeverIncreases | core/watermark.py:60-63 | with an opacity in [0, 1] no pixel becomes more opaque |
| Watermark.ApplyWatermark | core/watermark.py:21-83 | a missing file gives the not-found error before any image work; on success the watermark's longer side is the target size, it sits at the table position, and its alpha is rescaled exactly when the opacity is below 1 |
| Watermark.ValidateWatermarkFile | core/watermark.py:116-135 | a missing file never validates |
| Watermark.InvalidFileFails | core/watermark.py:21-135 | a file that does not validate makes every application fail, a missing one with the not-found error |
| Discovery.EligibleSubPacks | core/processor.py:330-333 | exactly the sub-directories without a reserved prefix, as packs; none when every directory is reserved |
| Discovery.DiscoverAsWritten | core/processor.py:322-327 | as written, the input directory is always a single pack |
| Discovery.Discover | core/processor.py:322-339 | intended: the input directory when it holds an image file, otherwise exactly the non-reserved sub-directories |
| Discovery.DiscoverCounterexample | core/processor.py:324 | a directory holding only `packA/` is a single pack as written and gives `packA` as intended |
| Discovery.ExclusionIsPrefixBased | core/processor.py:332 | a sub-directory is dropped exactly when its name starts with a reserved prefix |
| Discovery.ExclusionExamples | core/processor.py:332 | `original_images_old` is reserved, `Free_post` is not |
| Discovery.NoEligibleDirectoryYieldsNothing | core/processor.py:339 | without images and eligible sub-directories there is nothing to process |
| AutoMosaic.ValidateSetup | core/auto_mosaic.py:33-64 | the checks run in order (folder, script, workflow, JSON) and the first failure decides |
| AutoMosaic.ProcessImage | core/auto_mosaic.py:66-132 | a missing input runs nothing; success is exactly return code 0 with an output file; metadata is embedded after a success when asked for and non-empty, and an embed failure is only reported |
| AutoMosaic.EmbedDoesNotChangeResult | core/auto_mosaic.py:116-125 | the metadata never decides success |
| AutoMosaic.CopyFallback | core/auto_mosaic.py:172-196 | after failed runs the copy alone decides success; the metadata is embedded into a successful copy when asked for |
| AutoMosaic.ProcessImageWithRetry | core/auto_mosaic.py:134-196 | at most `max_retries` runs, stopping at the first success; the fallback happens exactly when every run failed, and then the copy decides |
| AutoMosaic.CountSucceeded | core/auto_mosaic.py:259-262 | the count is all the files exactly when every run succeeds, and zero exactly when none does |
| AutoMosaic.ImageMetadata | core/auto_mosaic.py:224-256 | an image is given its own entry of metadata.json exactly when that entry is non-empty, and nothing otherwise; an unparseable file counts as empty |
| AutoMosaic.ProcessPack | core/auto_mosaic.py:198-278 | the pack fails exactly for an invalid setup or a missing `original_images`; no PNG succeeds with nothing done; a metadata.json that parses to a non-object raises at the first image; otherwise every PNG is processed once and counted as processed or failed |
| AutoMosaic.TallyRuns | core/auto_mosaic.py:245-262 | the processed and failed counts add up to the files, and the processed count is the successful runs |
| Processor.Open | core/processor.py:357 | a listed name opens exactly when it is a regular file that decodes |
| Processor.ExtractFiles | core/processor.py:70-80 | exactly the globbed files whose extraction gives a non-null value are kept with that value, and exactly the unreadable ones are reported |
| Processor.KeptEntries | core/processor.py:77-78 | the dictionary holds exactly the kept values; it is empty exactly when nothing was kept |
| Processor.RaisedNames | core/processor.py:79-80 | the logged failures are exactly the files that raised |
| Processor.ImageFiles | core/processor.py:62-64 | the image files are exactly the listed names with an image extension |
| Processor.ExtractPack | core/processor.py:61-86 | a pack without image files is skipped; metadata.json is written only when non-empty and holds exactly the non-null extracted values; failures are exactly the unreadable files |
| Processor.WrittenOnlyWhenNonEmpty | core/processor.py:82-86 | metadata.json is written exactly when some image yields a value other than null |
| Processor.ExtractMetadata | core/processor.py:38-97 | no packs means failure; otherwise each discovered pack is extracted in order |
| Processor.ProcessingSet | core/processor.py:149-153 | the images processed are exactly the image files named in metadata.json, sorted and duplicate-free |
| Processor.NamesWithMetadata | core/processor.py:152 | the filter keeps exactly the files named in the metadata |
| Processor.ExifPayload | core/processor.py:368-378 | files get the compact serialisation exactly when the metadata is non-empty and fits the ceiling |
| Processor.ExifPayloadAgreesWithEmbed | core/processor.py:368-378 | the processor skips the payload exactly where `embed` would refuse it, and otherwise writes what `embed` writes |
| Processor.PayloadReadsBack | core/processor.py:368-401 | a preview or free-post file carrying the payload reads back as the metadata |
| Processor.ZipExtension | core/processor.py:385-396 | JPEG sources become `.jpeg`, WebP `.webp`, everything else `.png`, by lower-cased suffix |
| Processor.ZipCopy | core/processor.py:384-396 | the ZIP copy is `image_<n>` plus that extension; only the PNG copy carries no payload |
| Processor.ProcessSingleImage | core/processor.py:341-407 | an unreadable file writes nothing and fails; otherwise the files are written in order (preview, ZIP copy, watermarked copy) up to the first save that raises, the last one only when the watermark applies; the image succeeds exactly when the watermark applies and no save raises; every file is named after `image_<index>` |
| Processor.WrittenFiles | core/processor.py:378-401 | a raising preview save leaves nothing, a raising ZIP save leaves the preview; otherwise the preview and ZIP copy, plus the watermarked copy exactly when the watermark applies and its save does not raise; each file is named after the base name |
| Processor.BaseNamesDistinct | core/processor.py:355 | different indices give different base names |
| Processor.OutputNamesDistinct | core/processor.py:355-400 | files of different indices never share a name |
| Processor.ProcessAll | core/processor.py:161-170 | the j-th image of the set is processed as number `first + j` with its own metadata and save failures, so every file written for it is named after `image_<first+j>` |
| Processor.ZipMembers | core/processor.py:178-184 | the ZIP holds exactly the files left in temp_for_zip |
| Processor.TempFiles | core/processor.py:182-184 | one image's temp_for_zip files, exactly |
| Processor.Originals | core/processor.py:421-424 | the originals moved are exactly the regular files among the four globs |
| Processor.RegularNames | core/processor.py:424 | exactly the regular files |
| Processor.MoveFailures | core/processor.py:430-435 | the logged move failures are exactly the originals whose move raised |
| Processor.Moves | core/processor.py:430-435 | the moved originals are exactly those whose move did not raise |
| Processor.ProcessPack | core/processor.py:121-194 | a missing metadata.json skips the pack; one that is not JSON, or whose JSON is not an object, or a bad tag aborts the run; no matching image removes temp_for_zip; otherwise every image is processed, the ZIP is named `<folder>-<date>.zip` and holds the ZIP copies unless its write raised, and every original image file is moved or logged |
| Processor.ProcessImages | core/processor.py:99-205 | no packs means failure; packs are processed in order until one aborts; the run succeeds exactly when every pack was reached and none aborted |
| Processor.PackPlans | core/processor.py:121-194 | the k-th plan is the loop body on the k-th discovered pack |
| Processor.RunOver | core/processor.py:121-203 | the run succeeds exactly when it reached every plan and none aborted; a failed run ends on an aborted plan |
| Processor.UntilAborted | core/processor.py:121-203 | the loop reaches a prefix of the plans: every plan when none aborts, otherwise up to and including the first aborted one |
| Processor.ProcessedNamesDistinct | core/processor.py:163-168 | in a processed pack the j-th image is `image_<first+j>`, and no two images write a file of the same name |
| Processor.ZipHoldsEveryOpenedImage | core/processor.py:178-184 | the ZIP holds the copy of every image that opened and whose preview and ZIP saves did not raise, even when its watermark failed |
| Processor.OriginalsAlwaysMoved | core/processor.py:421-435 | every original image file is moved or logged, including files without metadata and files whose processing failed |
| Processor.ExtractThenProcess | core/processor.py:149-153 | after extraction, the processing set is exactly the image files whose extraction gave a non-null value |
| Processor.MosaicImages | core/processor.py:260-301 | every image is counted once: processed when the script returns 0 and the `name in meta_map` test does not raise, failed otherwise; embed warnings are exactly the processed images whose `meta_map[name]` or re-embedding raises |
| Processor.RunAutoMosaic | core/processor.py:207-310 | the guards run in code order (originals, metadata.json, script, workflow, images), each giving its own refusal; only a metadata.json that is not JSON is fatal; any parsed value, object or not, lets the run reach the images |
| Processor.ScalarMetadataProcessesNothing | core/processor.py:287-299 | with a number, boolean or null as metadata, every image fails and none is processed |
| Processor.ScalarMetadataFailsEveryImage | core/processor.py:287-304 | such a run still finishes, with every image failed |
| Processor.ListMetadataWarns | core/processor.py:287-291 | with a list holding an image's name, that image is processed and its embed warns |
| Processor.PipelineSkipsOutputCheck | core/processor.py:281-292 | a run exiting 0 without an output file counts as processed in the pipeline and as failed in the adapter |
| Legacy.TargetFolders | NovoOrganizer.py:206-216 | a `*.png` entry makes the input a single pack; otherwise exactly the sub-directories without one of the four legacy prefixes |
| Legacy.PixivSafeOnlyLegacyPack | NovoOrganizer.py:211 | `pixiv_safe` is a pack for the legacy pipeline and reserved for the core |
| Legacy.GetPngMetadata | NovoOrganizer.py:218-236 | an unreadable file gives `None`; otherwise a parseable non-empty Comment wins, else every text chunk |
| Legacy.GetPngMetadataIsExtractAll | NovoOrganizer.py:218-236 | the legacy reader is `extract_all_png_metadata`, returning `None` where that raises |
| Legacy.CollectMetadata | NovoOrganizer.py:258-265 | the dictionary holds exactly the PNG files whose metadata is not `None`, with that metadata |
| Legacy.ExtractFolder | NovoOrganizer.py:252-273 | a folder without PNG files is skipped; metadata.json is written exactly when some value is not null, and holds exactly those values |
| Legacy.EmptyTextStillRecorded | NovoOrganizer.py:221-233 | a readable PNG without text chunks is recorded as `{}` |
| Legacy.RunMetadataExtraction | NovoOrganizer.py:238-283 | no target folder stops the run; otherwise each folder is extracted in order |
| Legacy.CharacterList | NovoOrganizer.py:320-328 | the legacy list is duplicate-free and exactly the cleaned tags, the empty one included, ordered by the first value carrying each; a bad value raises |
| Legacy.CharactersFile | NovoOrganizer.py:330-334 | characters.txt is written exactly when the list is non-empty |
| Legacy.UnderscoreTagDiffers | NovoOrganizer.py:324-334 | a tag of only `_` gives an empty characters.txt in the legacy pipeline and none in the core |
| Legacy.LegacyProcessingSet | NovoOrganizer.py:338 | exactly the `*.png` entries named in the metadata, sorted |
| Legacy.LegacySetWithinCore | NovoOrganizer.py:338 | the legacy set is the `*.png` part of the core's set |
| Legacy.LegacyPayload | NovoOrganizer.py:391-399 | the default serialisation is written exactly for non-empty metadata, with no size ceiling |
| Legacy.PayloadIgnoresCeiling | NovoOrganizer.py:391-399 | over the ceiling, the legacy files carry the metadata and the core's carry none |
| Legacy.LegacyResize | NovoOrganizer.py:428-434 | the legacy ratio arithmetic gives the same size as the core's |
| Legacy.LegacyPosition | NovoOrganizer.py:445-448 | the legacy table places the watermark where the core's does |
| Legacy.LegacyWatermark | NovoOrganizer.py:425-443 | the legacy watermark succeeds exactly when the core's does, with the same placement |
| Legacy.LegacyImage | NovoOrganizer.py:386-423 | the preview, then a PNG ZIP copy without metadata, then the watermarked JPEG, up to the first save that raises; the image succeeds exactly when the watermark applies and no save raises |
| Legacy.LegacyImages | NovoOrganizer.py:343-345 | every image of the set is processed, numbered from 1 in sorted order |
| Legacy.LegacyPack | NovoOrganizer.py:307-356 | missing metadata.json skips; a file that is not JSON or not an object, or a bad tag, is fatal; no PNG match removes temp_for_zip; a failed image or ZIP write is fatal; otherwise the ZIP holds the copies and every PNG original is moved or logged |
| Legacy.LegacyZipHoldsPngCopies | NovoOrganizer.py:347-349 | the ZIP of an organised legacy pack holds `image_<n>.png` for every image |
| Legacy.RunImageProcessing | NovoOrganizer.py:285-364 | a missing watermark file stops before discovery; no target stops; otherwise folders are processed in order until the first fatal one |
| Legacy.LegacyPlans | NovoOrganizer.py:307-356 | the k-th plan is the loop body on the k-th target folder |
| Legacy.LegacyRunPacks | NovoOrganizer.py:307-356 | the loop keeps the plans already made and stops right after the first fatal folder |
| Legacy.OneBadImageIsFatal | NovoOrganizer.py:343-345 | one image whose watermark or save fails makes the legacy pack fatal |
| Canvas.NewCanvas | gui/manual_editor.py:35-50 | a new canvas: brush size 20, strength 5, blur, not drawing, the original as the only snapshot |
| Canvas.Clamp | gui/manual_editor.py:54 | `max(lo, min(hi, v))` stays in range and keeps in-range values |
| Canvas.SetBrushSize | gui/manual_editor.py:52-54 | the size is clamped to 1..100 and nothing else changes |
| Canvas.SetBrushStrength | gui/manual_editor.py:56-58 | the strength is clamped to 1..10 and nothing else changes |
| Canvas.ModeNamed | gui/manual_editor.py:62 | exactly `blur`, `pixelate` and `erase` name modes |
| Canvas.SetBrushMode | gui/manual_editor.py:60-63 | an unknown mode name changes nothing |
| Canvas.SaveState | gui/manual_editor.py:88-93 | the shown pixmap becomes the last snapshot, and the oldest is dropped beyond ten |
| Canvas.BrushRegion | gui/manual_editor.py:120-126 | each edge of the brush square is `size // 2` from the point, or the image border when that lies beyond the image: `max(0, x - size // 2)` and `min(width, x + size // 2)`, and the same for y |
| Canvas.ScaleFactor | gui/manual_editor.py:143 | the pixelate factor is twice the strength, and 2 for a strength below 1 |
| Canvas.SmallSide | gui/manual_editor.py:147-148 | the downsampled side is the region side divided by the factor, rounded down (`s * f <= side < (s + 1) * f`), and 1 when the side is shorter than the factor |
| Canvas.EffectOf | gui/manual_editor.py:134-166 | blur has radius `max(1, strength)`; pixelate downsamples each side of the region by `ScaleFactor(strength)`; erase, and only erase, restores the original |
| Canvas.ApplyBrush | gui/manual_editor.py:95-176 | an empty clipped region changes nothing; otherwise exactly one dab of the mode's effect is painted over that region |
| Canvas.OnMouse | gui/manual_editor.py:65-86 | a left press snapshots, starts drawing and paints one dab at the point on the snapshotted canvas; a move paints one dab only while drawing with the left button alone, and otherwise changes nothing; a left release stops drawing; other buttons change nothing; the brush settings never change |
| Canvas.Undo | gui/manual_editor.py:295-299 | with more than one snapshot, drop the last and show the one before; otherwise nothing changes |
| Canvas.Reset | gui/manual_editor.py:301-304 | show the original, keep only it as a snapshot, and change nothing else |
| Canvas.UndoAfterPress | gui/manual_editor.py:88-93 | undo right after a press restores the history from before the press |
| Canvas.Stroke | gui/manual_editor.py:65-93 | a stroke snapshots once, paints the press dab and then the move dab, ends not drawing, adds at most two dabs on top of what was shown, and leaves the brush settings alone |
| Canvas.StrokeSnapshots | gui/manual_editor.py:65-93 | a stroke adds exactly one snapshot: the pixmap shown before it |
| Canvas.TwoStrokesOneUndo | gui/manual_editor.py:295-299 | as written: on a fresh canvas, two strokes and one undo show the original again |
| Canvas.UndoSkipsFirstStroke | gui/manual_editor.py:295-299 | as written: two strokes at the centre of a 100×100 canvas, then one undo, shows the original rather than the first stroke, which did paint |
| Canvas.UndoIntended | gui/manual_editor.py:295-299 | intended: undo drops the last snapshot and shows that snapshot; a lone snapshot is kept |
| Canvas.UndoIntendedRevertsStroke | gui/manual_editor.py:65-299 | intended: undo right after a stroke restores exactly the pixmap and history from before the stroke |
| Canvas.UndoAfterResetIsNoOp | gui/manual_editor.py:295-304 | after a reset, undo changes nothing |
| Canvas.CountOutcome | gui/manual_editor.py:654-702 | the count is positive exactly when some name ends that way |
| Canvas.CountFailures | gui/manual_editor.py:674-702 | the failure count is positive exactly when some name fails |
| Canvas.OutcomesPartition | gui/manual_editor.py:658-702 | every name is skipped, failed or saved, exactly one of them |
| Canvas.SaveAll | gui/manual_editor.py:630-706 | nothing happens without modified images or without a "yes"; otherwise the saved and failed counts are those of the outcomes, and the marks left are as written: any saved image clears them all, none keeps them all (see Findings) |
| Canvas.StillModified | gui/manual_editor.py:704-706 | as written: any saved image clears every mark; no saved image leaves them all |
| Canvas.KeepUnsaved | gui/manual_editor.py:704-706 | intended: the names left marked are as many as the unsaved ones, and none of them was saved |
| Canvas.KeepUnsavedMembers | gui/manual_editor.py:704-706 | intended: a name stays marked exactly when it was modified and not saved |
| Canvas.Tally | gui/manual_editor.py:653-702 | the loop counts exactly the saved images and exactly the failed ones |
| Canvas.AllSavedUnmarksAll | gui/manual_editor.py:704-706 | when every image was saved, as written and intended both unmark everything |
| Canvas.NoneSavedKeepsAll | gui/manual_editor.py:704-706 | when no image was saved, as written and intended both keep every mark |
| Canvas.FailedEditsUnmarked | gui/manual_editor.py:658-706 | with one image saved and one failed, as written both lose their mark; intended, the failed one keeps it |

## Left out

- Pixels and encoding are not modelled. This covers:
  - colour conversion, resampling, compositing and blurring;
  - JPEG, WebP and PNG encoding and their quality settings.

  An image is its format, size and text fields. A written file is its folder,
  name and embedded description. A dab is its region and effect.
- The JSON grammar is not modelled. `json.dumps` and `json.loads` are supplied
  functions. Numbers in decoded JSON are integers, because the pipeline only
  tests them for zero.
- Float settings (opacity, scale) are exact non-negative rationals. Float
  rounding in `int(min_dimension * scale)` and in the ratio arithmetic is not
  modelled.
- The Pillow zero-size resize is treated as failing. Pillow refuses a zero
  width or height, and `Watermark.ResizedDims` returns `None` for it.
- Concurrency is not modelled. Images are extracted and processed
  sequentially, in submission order. Completion order only changes:
  - the order of log lines;
  - the insertion order of the metadata dictionary (modelled in glob order).
- Progress percentages, status texts and log messages are not modelled. Log
  levels and callback routing are.
- File-system side effects outside the plans are not modelled:
  - creating output folders, including the folders the legacy pipeline creates
    before checking for metadata.json;
  - removing temp_for_zip;
  - a temp_for_zip left behind by a skipped or aborted pack.

  The plans record which case applies.
- The clock is a parameter: the `%d-%m-%Y` date of the ZIP name is
  `Settings.date`.
- Subprocesses are not run. Each run of the mosaic script is a supplied
  outcome: return code and output file, timeout, or raised.
- Which ZIP writes, moves, copies and temp files fail or exist are supplied as
  sets and functions.
- Which image save raises first is supplied per file (`Folder.saveFails`). The
  reasons are not derived. Examples are a full disk, or an EXIF block over
  the JPEG writer's 65,533-byte limit, which the uncapped legacy payload can
  reach. A raising save is taken to write no file.
- File-name case is compared exactly. This matches `glob` on Linux. Windows
  case folding is not modelled.
- `str.lower()` is modelled for ASCII letters only. The suffixes compared
  against it are ASCII.
- A metadata.json that parses to something other than an object is kept as
  that value: a list, a string, or one of number, boolean and null, which
  behave alike. What each caller does with it:
  - the core pipeline aborts the run, as for a file that is not JSON;
  - the legacy pipeline treats the folder as fatal;
  - `AutoMosaic.ProcessPack` raises at the first image, where `.get` is
    missing (a file that is not JSON counts as empty there);
  - `Processor.RunAutoMosaic` goes on image by image (see
    `Processor.MosaicImages`).
- Json.Lookup: a dictionary in the model may hold a key twice, which a decoded
  `dict` never does. `Lookup` then takes the first entry, while `json.load`
  keeps the last value. Nothing in the model builds such a dictionary from
  one file, so the difference is not exercised.
- A `character` tag is cleaned with the `str` methods of a string. A truthy
  non-string tag raises, as in the code.
- `piexif.dump` failing is not modelled. Its input is one ASCII key and a byte
  string.
- The GUI side is not modelled:
  - the editor window's image list, dialogs, auto-save, the
    `_apply_simple_effect` fallback and `last_point`;
  - the `_save_all` outer exception handler;
  - the legacy GUI's watermark selection dictionary, which is modelled as the
    watermark file being present or missing.
- `Canvas.SaveAll` walks the modified names in a given sequence. The code
  iterates a `set`, and only the order of side effects depends on it.
- `Canvas.Stroke` is one press, one move and one release. Longer strokes add no
  further snapshots, because only the press saves state.
- `Watermark.ValidateWatermarkFile` states only that a missing file fails. The
  imaging library's `verify()` is a supplied outcome, so readable versus
  unreadable is an input.
- `Legacy.GetPngMetadata` logs a warning when the Comment chunk is not JSON.
  The log is not modelled.
- Processor.ExtractMetadata, Legacy.RunMetadataExtraction: writing
  metadata.json (core/processor.py:82-86, NovoOrganizer.py:269-273) is taken
  to succeed. A raising write would leave the pack loop through the outer
  handler (core/processor.py:93-95, NovoOrganizer.py:278-279): a FATAL log, a
  failed run, and no later pack reached.
- Processor.ProcessPack, Legacy.LegacyPack: writing characters.txt
  (core/processor.py:141-147, NovoOrganizer.py:330-335) is taken to succeed. A
  raising write would end the run through the outer handler
  (core/processor.py:201-203, NovoOrganizer.py:359-360), with the pack's
  images not processed and no later pack reached.
- `get_pack_info`, `get_workflow_info`, `test_workflow`, `get_base_dir`,
  `setup_logging` and `get_default_watermarks` are not part of this model.
  They report or locate files and do not take part in the pipeline.

## Findings

| source | as written | input that shows it | evidently intended | confidence | as-written member | corrected member |
|---|---|---|---|---|---|---|
| core/processor.py:323-327 | `any(input_dir.glob(ext) for ext in image_extensions)` tests the four generator objects, which are always true, not their contents | an input directory holding only the sub-directory `packA/` is treated as a single pack, so `packA` is never processed | test whether any glob yields a file, as the legacy pipeline's `any(input_dir.glob("*.png"))` does | high, not executed | Discovery.DiscoverAsWritten, Discovery.DiscoverCounterexample | Discovery.Discover |
| gui/manual_editor.py:704-706 | once any image is saved, `modified_images.clear()` unmarks every image, including those whose save failed | `a.png` saves and `b.png` fails to write; `b.png` loses its mark, so closing the editor (line 759) does not warn and the temporary folder holding its edit is deleted | remove only the saved names, as the comment above the clear says | medium, not executed | Canvas.StillModified, Canvas.FailedEditsUnmarked | Canvas.KeepUnsaved, Canvas.KeepUnsavedMembers |
| gui/manual_editor.py:295-299 | `undo` pops the last snapshot and shows the one before it, but a snapshot is taken before each stroke paints (line 70), so the popped snapshot is the state to restore | on a fresh 100×100 canvas, two strokes at (50, 50) and one undo show the original image, not the first stroke | show the popped snapshot, so one undo reverts exactly one stroke | medium, not executed | Canvas.Undo, Canvas.UndoSkipsFirstStroke | Canvas.UndoIntended, Canvas.UndoIntendedRevertsStroke |
