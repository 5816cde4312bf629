/** The metadata codec (`core/metadata.py`): which embedded text is read back as
    an image's metadata, how metadata is written into the three containers, the
    60,000-byte ceiling, and the character list built from a pack's metadata.

    Two places hold the text: the TIFF/EXIF `ImageDescription` field (tag 270,
    section 8 of TIFF 6.0), which JPEG and WebP files carry in their EXIF block,
    and the PNG `Comment` text chunk (tEXt, section 11.3.4.3 of the PNG
    specification, second edition). */
module Metadata {
  import opened Base
  import opened Text
  import opened Order
  import opened Json

  /** Longest compact UTF-8 serialisation `embed` accepts. */
  const MaxEmbedBytes: nat := 60000

  /** What the imaging library reports as `img.format`. */
  datatype Format = Png | Jpeg | Webp | OtherFormat(name: string)

  /** A decoded image, reduced to what the metadata code reads from it.
      `text` holds the PNG text chunks. The three `exif…` fields are what the
      three ImageDescription lookups of `extract_png` return: the EXIF block
      parsed directly, the `getexif()` accessor and the legacy `_getexif()`
      accessor, each empty when the tag is absent or the lookup failed. */
  datatype Image = Image(
    format: Format,
    width: nat,
    height: nat,
    text: map<string, string>,
    exifBlock: string,
    exifAccessor: string,
    exifLegacy: string)

  /** A file as `Image.open` finds it. */
  datatype Stored = Unreadable | Readable(image: Image)

  datatype MetadataError =
    | DecodeFailed
    | TooLarge(bytes: nat)
    | UnsupportedFormat(suffix: string)

  /** The PNG text chunks; other formats have none. */
  function TextChunks(img: Image): map<string, string> {
    if img.format == Png then img.text else map[]
  }

  /** `img.text.get("Comment", "")`, read for PNG files only. */
  function PngComment(img: Image): string {
    var chunks := TextChunks(img);
    if "Comment" in chunks then chunks["Comment"] else ""
  }

  /** The three ImageDescription lookups in order; a later one runs only while
      the description is still empty, and the accessor only for JPEG. */
  function ExifDescription(img: Image): (d: string)
    ensures d == "" <==>
              img.exifBlock == "" && (img.format != Jpeg || img.exifAccessor == "") && img.exifLegacy == ""
    ensures d != "" ==> d in {img.exifBlock, img.exifAccessor, img.exifLegacy}
  {
    var d1 := img.exifBlock;
    var d2 := if d1 == "" && img.format == Jpeg then img.exifAccessor else d1;
    if d2 == "" then img.exifLegacy else d2
  }

  /** `exif_description or png_comment or "{}"`. */
  function MetadataSource(img: Image): string {
    var d := ExifDescription(img);
    if d != "" then d else if PngComment(img) != "" then PngComment(img) else "{}"
  }

  /** The record `extract_png` returns when the chosen text is not JSON. */
  function FallbackRecord(comment: string, description: string, error: string, source: string): Json {
    JObj(map[
      "raw_comment" := (if comment != "" then JStr(comment) else JNull),
      "raw_exif_description" := (if description != "" then JStr(description) else JNull),
      "_parse_error" := JStr(error),
      "_metadata_source" := (if source != "{}" then JStr(source) else JNull)])
  }

  /** `extract_png`: decode the chosen text; a parse failure yields the
      fallback record instead of an error, and only an unreadable file fails. */
  function ExtractPng(stored: Stored, codec: JsonCodec): (r: Result<Json, MetadataError>)
    ensures r.Failure? <==> stored.Unreadable?
    ensures r.Failure? ==> r.error == DecodeFailed
    ensures stored.Readable? && codec.loads(MetadataSource(stored.image)).Parsed? ==>
              r == Success(codec.loads(MetadataSource(stored.image)).value)
    ensures stored.Readable? && codec.loads(MetadataSource(stored.image)).Malformed? ==>
              r.Success? && r.value.JObj?
              && r.value.fields.Keys == {"raw_comment", "raw_exif_description", "_parse_error", "_metadata_source"}
              && r.value.fields["_parse_error"] == JStr(codec.loads(MetadataSource(stored.image)).message)
  {
    match stored
    case Unreadable => Failure(DecodeFailed)
    case Readable(img) =>
      var source := MetadataSource(img);
      match codec.loads(source)
      case Parsed(v) => Success(v)
      case Malformed(e) => Success(FallbackRecord(PngComment(img), ExifDescription(img), e, source))
  }

  /** A non-empty description is chosen whatever the PNG comment says. */
  lemma DescriptionOutranksComment(img: Image, codec: JsonCodec)
    requires ExifDescription(img) != ""
    ensures forall t: map<string, string> ::
              ExtractPng(Readable(img.(text := t)), codec).value.JObj? ==>
              ExtractPng(Readable(img.(text := t)), codec) == ExtractPng(Readable(img), codec)
              || codec.loads(ExifDescription(img)).Malformed?
    ensures codec.loads(ExifDescription(img)).Parsed? ==>
              ExtractPng(Readable(img), codec) == Success(codec.loads(ExifDescription(img)).value)
  {
  }

  /** The Comment chunk decides only when there is no description, and it is
      only ever read from a PNG: the text chunks of any other format are ignored. */
  lemma CommentReadOnlyForPng(img: Image, t: map<string, string>, codec: JsonCodec)
    requires img.format != Png
    ensures ExtractPng(Readable(img.(text := t)), codec) == ExtractPng(Readable(img), codec)
  {
  }

  lemma CommentUsedWithoutDescription(img: Image, codec: JsonCodec)
    requires ExifDescription(img) == "" && img.format == Png
    requires "Comment" in img.text && img.text["Comment"] != ""
    requires codec.loads(img.text["Comment"]).Parsed?
    ensures ExtractPng(Readable(img), codec) == Success(codec.loads(img.text["Comment"]).value)
  {
  }

  /** With neither a description nor a comment the text read is `"{}"`, so a
      parser that reads `"{}"` as the empty object yields the empty object. */
  lemma NoSourceYieldsEmptyObject(img: Image, codec: JsonCodec)
    requires ExifDescription(img) == "" && PngComment(img) == ""
    requires codec.loads("{}") == Parsed(JObj(map[]))
    ensures ExtractPng(Readable(img), codec) == Success(JObj(map[]))
  {
  }

  /** The fallback record keeps the raw texts, maps an absent text to null, and
      never reports `"{}"` as its source. */
  lemma FallbackKeepsRawText(img: Image, codec: JsonCodec)
    requires codec.loads(MetadataSource(img)).Malformed?
    ensures var f := ExtractPng(Readable(img), codec).value.fields;
            && (PngComment(img) == "" <==> f["raw_comment"] == JNull)
            && (PngComment(img) != "" ==> f["raw_comment"] == JStr(PngComment(img)))
            && (ExifDescription(img) == "" <==> f["raw_exif_description"] == JNull)
            && (ExifDescription(img) != "" ==> f["raw_exif_description"] == JStr(ExifDescription(img)))
            && (f["_metadata_source"] == JNull <==> MetadataSource(img) == "{}")
  {
  }

  /** `extract_all_png_metadata`: a non-empty Comment that parses wins;
      otherwise every text chunk is returned as a string field. */
  function ExtractAllPng(stored: Stored, codec: JsonCodec): (r: Result<Json, MetadataError>)
    ensures r.Failure? <==> stored.Unreadable?
    ensures stored.Readable? ==> ExtractAllOutcome(stored.image, codec, r.value)
  {
    match stored
    case Unreadable => Failure(DecodeFailed)
    case Readable(img) =>
      var chunks := TextChunks(img);
      if "Comment" in chunks && chunks["Comment"] != "" && codec.loads(chunks["Comment"]).Parsed? then
        Success(codec.loads(chunks["Comment"]).value)
      else
        Success(ChunksAsObject(chunks))
  }

  function ChunksAsObject(chunks: map<string, string>): (j: Json)
    ensures j.JObj? && j.fields.Keys == chunks.Keys
    ensures forall k :: k in chunks ==> j.fields[k] == JStr(chunks[k])
  {
    JObj(map k | k in chunks :: JStr(chunks[k]))
  }

  /** The outcome `extract_all_png_metadata` promises for a readable image,
      stated case by case. */
  ghost predicate ExtractAllOutcome(img: Image, codec: JsonCodec, v: Json) {
    var chunks := TextChunks(img);
    var comment := if "Comment" in chunks then chunks["Comment"] else "";
    if comment != "" && codec.loads(comment).Parsed? then v == codec.loads(comment).value
    else v.JObj? && v.fields.Keys == chunks.Keys && forall k :: k in chunks ==> v.fields[k] == JStr(chunks[k])
  }

  /** What `embed` does to the file. */
  datatype EmbedAction =
    | NoWrite
    | WriteComment(text: string)
    | WriteDescription(text: string, target: Format)

  /** `embed(path, metadata)`: nothing for empty metadata; otherwise serialise
      compactly, refuse more than 60,000 UTF-8 bytes, and route on the
      lower-cased suffix. */
  function Embed(fileName: string, metadata: Json, codec: JsonCodec): (r: Result<EmbedAction, MetadataError>)
    ensures !Truthy(metadata) ==> r == Success(NoWrite)
    ensures Truthy(metadata) && Utf8Length(codec.compact(metadata)) > MaxEmbedBytes ==>
              r == Failure(TooLarge(Utf8Length(codec.compact(metadata))))
    ensures r.Success? && r.value != NoWrite ==>
              Truthy(metadata) && Utf8Length(codec.compact(metadata)) <= MaxEmbedBytes
              && r.value.text == codec.compact(metadata)
    ensures Truthy(metadata) && Utf8Length(codec.compact(metadata)) <= MaxEmbedBytes ==>
              (r.Success? <==> Lower(Suffix(fileName)) in {".png", ".jpg", ".jpeg", ".webp"})
              && (r.Success? ==> (r.value.WriteComment? <==> Lower(Suffix(fileName)) == ".png"))
              && (r.Failure? ==> r.error == UnsupportedFormat(Lower(Suffix(fileName))))
  {
    if !Truthy(metadata) then Success(NoWrite)
    else
      var text := codec.compact(metadata);
      var size := Utf8Length(text);
      if size > MaxEmbedBytes then Failure(TooLarge(size))
      else
        var suffix := Lower(Suffix(fileName));
        if suffix == ".png" then Success(WriteComment(text))
        else if suffix == ".jpg" || suffix == ".jpeg" then Success(WriteDescription(text, Jpeg))
        else if suffix == ".webp" then Success(WriteDescription(text, Webp))
        else Failure(UnsupportedFormat(suffix))
  }

  /** The image as read back after the write. Saving through the PNG writer
      keeps only the new Comment chunk; saving with an EXIF block makes every
      ImageDescription lookup see the new text. */
  function ApplyEmbed(img: Image, action: EmbedAction): Image {
    match action
    case NoWrite => img
    case WriteComment(t) => img.(format := Png, text := map["Comment" := t])
    case WriteDescription(t, f) => img.(format := f, exifBlock := t, exifAccessor := t, exifLegacy := t)
  }

  /** Round trip: metadata embedded into a PNG, JPEG or WebP file is what
      `extract_png` reads back. For PNG this needs the file to carry no EXIF
      description, which would otherwise still outrank the comment. */
  lemma EmbedThenExtract(img: Image, fileName: string, m: Json, codec: JsonCodec)
    requires Truthy(m) && RoundTrips(codec, m)
    requires Embed(fileName, m, codec).Success?
    requires Embed(fileName, m, codec).value.WriteComment? ==> img.exifBlock == "" && img.exifLegacy == ""
    ensures ExtractPng(Readable(ApplyEmbed(img, Embed(fileName, m, codec).value)), codec) == Success(m)
  {
    var a := Embed(fileName, m, codec).value;
    var after := ApplyEmbed(img, a);
    if a.WriteComment? {
      assert ExifDescription(after) == "";
      assert PngComment(after) == codec.compact(m);
    }
  }

  /** `validate_metadata_size`: empty metadata always fits. */
  function ValidateMetadataSize(metadata: Json, codec: JsonCodec): (ok: bool)
    ensures !Truthy(metadata) ==> ok
  {
    !Truthy(metadata) || Utf8Length(codec.compact(metadata)) <= MaxEmbedBytes
  }

  /** For non-empty metadata the size check fails exactly when `embed` would
      raise its size error, whatever the file name. */
  lemma ValidateAgreesWithEmbed(fileName: string, metadata: Json, codec: JsonCodec)
    requires Truthy(metadata)
    ensures !ValidateMetadataSize(metadata, codec) <==>
              (Embed(fileName, metadata, codec).Failure? && Embed(fileName, metadata, codec).error.TooLarge?)
  {
  }

  /** The ceiling is inclusive: a 60,000-byte serialisation is written. */
  lemma CeilingIsInclusive(fileName: string, metadata: Json, codec: JsonCodec)
    requires Truthy(metadata) && Utf8Length(codec.compact(metadata)) == MaxEmbedBytes
    requires Lower(Suffix(fileName)) == ".png"
    ensures Embed(fileName, metadata, codec) == Success(WriteComment(codec.compact(metadata)))
  {
  }

  // ----- character list -----

  /** Why reading a `character` tag raised: the metadata value has no `.get`
      (it is not an object), or the tag has no `.replace` (it is not a string). */
  datatype TagError = NotAnObject | NotAString

  /** What cleaning guarantees of a name: no underscore, no whitespace at
      either end. */
  predicate Cleaned(t: string) {
    '_' !in t && (|t| > 0 ==> !IsSpace(t[0]) && !IsSpace(t[|t| - 1]))
  }

  /** `tag.replace('_', ' ').strip()`. */
  function Clean(tag: string): (c: string)
    ensures Cleaned(c)
    ensures c == "" <==> forall k :: 0 <= k < |tag| ==> tag[k] == '_' || IsSpace(tag[k])
  {
    var replaced := ReplaceChar(tag, '_', ' ');
    assert '_' !in replaced by {
      forall k | 0 <= k < |replaced| ensures replaced[k] != '_' { }
    }
    assert forall k :: 0 <= k < |tag| ==> (IsSpace(replaced[k]) <==> tag[k] == '_' || IsSpace(tag[k]));
    Strip(replaced)
  }

  /** The cleaned `character` tag of one metadata value: `None` when the tag is
      missing or falsy. */
  function CharacterTag(meta: Json): (r: Result<Option<string>, TagError>)
    ensures r.Failure? <==> !meta.JObj? || (Truthy(Get(meta, "character", JStr("")).value) && !Get(meta, "character", JStr("")).value.JStr?)
    ensures r.Failure? ==> (r.error == NotAnObject <==> !meta.JObj?)
    ensures r.Success? && r.value.Some? ==> Cleaned(r.value.value)
  {
    match Get(meta, "character", JStr(""))
    case None => Failure(NotAnObject)
    case Some(tag) =>
      if !Truthy(tag) then Success(None)
      else if tag.JStr? then Success(Some(Clean(tag.s)))
      else Failure(NotAString)
  }

  /** Every value's tag can be read without raising. */
  predicate AllTagsReadable(values: seq<Json>) {
    forall i :: 0 <= i < |values| ==> CharacterTag(values[i]).Success?
  }

  /** Some value's cleaned tag is `t`. */
  ghost predicate TagIn(values: seq<Json>, t: string) {
    exists i :: 0 <= i < |values| && CharacterTag(values[i]) == Success(Some(t))
  }

  lemma ReadableCons(values: seq<Json>)
    requires |values| > 0
    ensures AllTagsReadable(values) <==> CharacterTag(values[0]).Success? && AllTagsReadable(values[1..])
  {
    if CharacterTag(values[0]).Success? && AllTagsReadable(values[1..]) {
      forall i | 0 < i < |values| ensures CharacterTag(values[i]).Success? {
        assert values[i] == values[1..][i - 1];
      }
    }
  }

  lemma TagInCons(values: seq<Json>, t: string)
    requires |values| > 0
    ensures TagIn(values, t) <==> CharacterTag(values[0]) == Success(Some(t)) || TagIn(values[1..], t)
  {
    if TagIn(values[1..], t) {
      var i :| 0 <= i < |values[1..]| && CharacterTag(values[1..][i]) == Success(Some(t));
      assert values[i + 1] == values[1..][i];
    }
    if TagIn(values, t) && CharacterTag(values[0]) != Success(Some(t)) {
      var i :| 0 <= i < |values| && CharacterTag(values[i]) == Success(Some(t));
      assert values[1..][i - 1] == values[i];
    }
  }

  /** The position of the first value whose cleaned tag is `t`: the order in
      which the loop over the values meets the tag. */
  ghost function FirstTagIndex(values: seq<Json>, t: string): (k: nat)
    requires TagIn(values, t)
    ensures k < |values| && CharacterTag(values[k]) == Success(Some(t))
    ensures forall i :: 0 <= i < k ==> CharacterTag(values[i]) != Success(Some(t))
  {
    assert |values| > 0;
    TagInCons(values, t);
    if CharacterTag(values[0]) == Success(Some(t)) then 0
    else
      var k := FirstTagIndex(values[1..], t);
      FirstMatchShifts(values, CharacterTag, Success(Some(t)), k);
      k + 1
  }

  /** The cleaned tags of all values, in order; the first value that raises
      stops the loop. */
  function CleanedTags(values: seq<Json>): (r: Result<seq<string>, TagError>)
    ensures r.Success? <==> AllTagsReadable(values)
    ensures r.Success? ==> forall t :: t in r.value <==> TagIn(values, t)
    ensures r.Success? ==> forall t :: t in r.value ==> Cleaned(t)
  {
    if |values| == 0 then Success([])
    else
      ReadableCons(values);
      match CharacterTag(values[0])
      case Failure(e) => Failure(e)
      case Success(first) =>
        match CleanedTags(values[1..])
        case Failure(e) => Failure(e)
        case Success(rest) =>
          var r := if first.Some? then [first.value] + rest else rest;
          assert forall t :: t in r <==> TagIn(values, t) by {
            forall t ensures t in r <==> TagIn(values, t) {
              TagInCons(values, t);
            }
          }
          Success(r)
  }

  /** Tags listed earlier first reach the loop at an earlier value. */
  lemma {:induction false} CleanedTagsKeepOrder(values: seq<Json>, tags: seq<string>)
    requires CleanedTags(values) == Success(tags)
    ensures forall x, y :: x in tags && y in tags && FirstIndex(tags, x) < FirstIndex(tags, y) ==>
              FirstTagIndex(values, x) < FirstTagIndex(values, y)
  {
    if |values| > 0 {
      ReadableCons(values);
      var first := CharacterTag(values[0]).value;
      var rest := CleanedTags(values[1..]).value;
      CleanedTagsKeepOrder(values[1..], rest);
      forall x, y | x in tags && y in tags && FirstIndex(tags, x) < FirstIndex(tags, y)
        ensures FirstTagIndex(values, x) < FirstTagIndex(values, y)
      {
        TagInCons(values, x);
        TagInCons(values, y);
        if first.Some? {
          assert tags == [first.value] + rest && tags[1..] == rest;
          if x != first.value {
            assert FirstIndex(tags, x) == FirstIndex(rest, x) + 1;
            assert FirstIndex(tags, y) == FirstIndex(rest, y) + 1;
          }
        } else {
          assert tags == rest;
        }
      }
    }
  }

  /** The non-empty strings of `s`, in order. */
  function NonEmpty(s: seq<string>): (r: seq<string>)
    ensures forall t :: t in r <==> t in s && t != ""
  {
    if |s| == 0 then [] else (if s[0] != "" then [s[0]] else []) + NonEmpty(s[1..])
  }

  /** Dropping the empty strings keeps the order of the others. */
  lemma {:induction false} NonEmptyKeepsOrder(s: seq<string>)
    ensures forall x, y :: x in NonEmpty(s) && y in NonEmpty(s) && FirstIndex(NonEmpty(s), x) < FirstIndex(NonEmpty(s), y) ==>
              FirstIndex(s, x) < FirstIndex(s, y)
  {
    if |s| > 0 {
      var r := NonEmpty(s);
      var rest := NonEmpty(s[1..]);
      NonEmptyKeepsOrder(s[1..]);
      forall x, y | x in r && y in r && FirstIndex(r, x) < FirstIndex(r, y)
        ensures FirstIndex(s, x) < FirstIndex(s, y)
      {
        if s[0] != "" {
          assert r == [s[0]] + rest;
          assert y != s[0];
          FirstIndexTail(r, y);
          FirstIndexTail(s, y);
          if x != s[0] {
            FirstIndexTail(r, x);
            FirstIndexTail(s, x);
          }
        } else {
          assert r == rest;
          FirstIndexTail(s, x);
          FirstIndexTail(s, y);
        }
      }
    }
  }

  /** De-duplicating the tags keeps the order in which the loop first meets
      each of them. */
  lemma TagsDedupOrder(values: seq<Json>, tags: seq<string>, s: seq<string>)
    requires CleanedTags(values) == Success(tags)
    requires forall x :: x in s ==> x in tags
    requires forall x, y :: x in s && y in s && FirstIndex(s, x) < FirstIndex(s, y) ==> FirstIndex(tags, x) < FirstIndex(tags, y)
    ensures forall a, b :: 0 <= a < b < |Dedup(s)| ==> FirstTagIndex(values, Dedup(s)[a]) < FirstTagIndex(values, Dedup(s)[b])
  {
    var d := Dedup(s);
    CleanedTagsKeepOrder(values, tags);
    forall a, b | 0 <= a < b < |d| ensures FirstTagIndex(values, d[a]) < FirstTagIndex(values, d[b]) {
      assert d[a] in s && d[b] in s;
      assert FirstIndex(s, d[a]) < FirstIndex(s, d[b]);
    }
  }

  /** The entries of the list `create_character_list` joins: non-empty cleaned
      tags, compared case-sensitively, each once, in the order in which the
      loop over the values first meets them. */
  function CharacterNames(packMetadata: Entries): (r: Result<seq<string>, TagError>)
    ensures r.Success? <==> AllTagsReadable(Values(packMetadata))
    ensures r.Success? ==> NoDup(r.value)
    ensures r.Success? ==> forall t :: t in r.value ==> t != "" && Cleaned(t)
    ensures r.Success? ==> forall t :: t in r.value <==> t != "" && TagIn(Values(packMetadata), t)
    ensures r.Success? ==> forall a, b :: 0 <= a < b < |r.value| ==>
              FirstTagIndex(Values(packMetadata), r.value[a]) < FirstTagIndex(Values(packMetadata), r.value[b])
  {
    match CleanedTags(Values(packMetadata))
    case Failure(e) => Failure(e)
    case Success(tags) =>
      NonEmptyKeepsOrder(tags);
      TagsDedupOrder(Values(packMetadata), tags, NonEmpty(tags));
      Success(Dedup(NonEmpty(tags)))
  }

  /** `create_character_list`: the names joined by `", "`; empty exactly when no
      value carries a usable character tag. */
  function CreateCharacterList(packMetadata: Entries): (r: Result<string, TagError>)
    ensures r.Success? <==> AllTagsReadable(Values(packMetadata))
    ensures r.Success? ==> (r.value == "" <==> forall t :: TagIn(Values(packMetadata), t) ==> t == "")
    ensures r.Success? ==> CharacterNames(packMetadata).Success? && r.value == Join(CharacterNames(packMetadata).value, ", ")
  {
    match CharacterNames(packMetadata)
    case Failure(e) => Failure(e)
    case Success(names) =>
      JoinEmptyNames(names, Values(packMetadata));
      Success(Join(names, ", "))
  }

  lemma JoinEmptyNames(names: seq<string>, values: seq<Json>)
    requires forall t :: t in names ==> t != ""
    requires forall t :: t in names <==> t != "" && TagIn(values, t)
    ensures Join(names, ", ") == "" <==> forall t :: TagIn(values, t) ==> t == ""
  {
    JoinEmpty(names, ", ");
    if |names| > 0 {
      assert names[0] in names;
      assert Join(names, ", ") != "";
    }
  }

  /** "Foo_Bar" and "foo_bar" stay distinct, in the order of their values, and
      a value without a tag contributes nothing. */
  lemma CharacterListExample()
    ensures CreateCharacterList([
              ("a.png", JObj(map["character" := JStr("Foo_Bar")])),
              ("b.png", JObj(map["character" := JStr("foo_bar")])),
              ("c.png", JObj(map[]))]) == Success("Foo Bar, foo bar")
  {
    var pm := [
      ("a.png", JObj(map["character" := JStr("Foo_Bar")])),
      ("b.png", JObj(map["character" := JStr("foo_bar")])),
      ("c.png", JObj(map[]))];
    var names := ["Foo Bar", "foo bar"];
    assert Values(pm) == [JObj(map["character" := JStr("Foo_Bar")]), JObj(map["character" := JStr("foo_bar")]), JObj(map[])];
    ExampleTags();
    NamesFromTags(pm, names);
    ExampleNames();
    ListFromNames(pm, names);
  }

  /** The names are the de-duplicated non-empty tags. */
  lemma NamesFromTags(pm: Entries, tags: seq<string>)
    requires CleanedTags(Values(pm)) == Success(tags)
    ensures CharacterNames(pm) == Success(Dedup(NonEmpty(tags)))
  {
  }

  /** The list is the names joined by `", "`. */
  lemma ListFromNames(pm: Entries, names: seq<string>)
    requires CharacterNames(pm) == Success(names)
    ensures CreateCharacterList(pm) == Success(Join(names, ", "))
  {
  }

  lemma ExampleTags()
    ensures CleanedTags([JObj(map["character" := JStr("Foo_Bar")]), JObj(map["character" := JStr("foo_bar")]), JObj(map[])])
            == Success(["Foo Bar", "foo bar"])
  {
    ExampleTag("Foo_Bar", "Foo Bar");
    ExampleTag("foo_bar", "foo bar");
    AbsentTag();
    TwoTagsThenNone(JObj(map["character" := JStr("Foo_Bar")]), JObj(map["character" := JStr("foo_bar")]), JObj(map[]),
                    "Foo Bar", "foo bar");
  }

  lemma TwoTagsThenNone(a: Json, b: Json, c: Json, x: string, y: string)
    requires CharacterTag(a) == Success(Some(x)) && CharacterTag(b) == Success(Some(y))
    requires CharacterTag(c) == Success(None)
    ensures CleanedTags([a, b, c]) == Success([x, y])
  {
    CleanedTagsCons(c, [], None, []);
    assert [c] + [] == [c];
    CleanedTagsCons(b, [c], Some(y), []);
    assert [b] + [c] == [b, c] && [y] + [] == [y];
    CleanedTagsCons(a, [b, c], Some(x), [y]);
    assert [a] + [b, c] == [a, b, c] && [x] + [y] == [x, y];
  }

  lemma {:induction false} CleanedTagsCons(v: Json, rest: seq<Json>, tag: Option<string>, tail: seq<string>)
    requires CharacterTag(v) == Success(tag) && CleanedTags(rest) == Success(tail)
    ensures CleanedTags([v] + rest) == Success((if tag.Some? then [tag.value] else []) + tail)
  {
    var vs := [v] + rest;
    assert vs[0] == v && vs[1..] == rest;
    if tag.Some? {
      assert CleanedTags(vs) == Success([tag.value] + tail);
    } else {
      assert CleanedTags(vs) == Success(tail);
      assert [] + tail == tail;
    }
  }

  /** A value without a `character` key contributes nothing. */
  lemma AbsentTag()
    ensures CharacterTag(JObj(map[])) == Success(None)
  {
  }

  /** A non-empty string tag is read and cleaned. */
  lemma StringTag(tag: string)
    requires tag != ""
    ensures CharacterTag(JObj(map["character" := JStr(tag)])) == Success(Some(Clean(tag)))
  {
  }

  lemma TagIs(tag: string, cleaned: string)
    requires tag != ""
    requires ReplaceChar(tag, '_', ' ') == cleaned && Strip(cleaned) == cleaned
    ensures CharacterTag(JObj(map["character" := JStr(tag)])) == Success(Some(cleaned))
  {
    StringTag(tag);
  }

  lemma ExampleTag(tag: string, cleaned: string)
    requires (tag == "Foo_Bar" && cleaned == "Foo Bar") || (tag == "foo_bar" && cleaned == "foo bar")
    ensures CharacterTag(JObj(map["character" := JStr(tag)])) == Success(Some(cleaned))
  {
    ExampleReplace(tag, cleaned);
    ExampleStrip(cleaned);
    TagIs(tag, cleaned);
  }

  lemma ExampleReplace(tag: string, cleaned: string)
    requires (tag == "Foo_Bar" && cleaned == "Foo Bar") || (tag == "foo_bar" && cleaned == "foo bar")
    ensures ReplaceChar(tag, '_', ' ') == cleaned
  {
    assert forall i :: 0 <= i < 7 ==> ReplaceChar(tag, '_', ' ')[i] == cleaned[i];
  }

  lemma ExampleStrip(cleaned: string)
    requires cleaned == "Foo Bar" || cleaned == "foo bar"
    ensures Strip(cleaned) == cleaned
  {
    assert cleaned[0] in {'F', 'f'} && cleaned[|cleaned| - 1] == 'r';
    StripKeepsTrimmed(cleaned);
  }

  lemma ExampleNames()
    ensures Dedup(NonEmpty(["Foo Bar", "foo bar"])) == ["Foo Bar", "foo bar"]
    ensures Join(["Foo Bar", "foo bar"], ", ") == "Foo Bar, foo bar"
  {
    ExampleNonEmpty();
    ExampleDedup();
  }

  lemma ExampleNonEmpty()
    ensures NonEmpty(["Foo Bar", "foo bar"]) == ["Foo Bar", "foo bar"]
  {
    var names := ["Foo Bar", "foo bar"];
    assert NonEmpty(names[1..]) == ["foo bar"];
  }

  lemma ExampleDedup()
    ensures Dedup(["Foo Bar", "foo bar"]) == ["Foo Bar", "foo bar"]
  {
    var names := ["Foo Bar", "foo bar"];
    assert names[..1] == ["Foo Bar"];
    assert Dedup(names[..1]) == ["Foo Bar"];
  }

}
