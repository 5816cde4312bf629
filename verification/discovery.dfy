/** Pack discovery (`_discover_packs` in `core/processor.py`): which folders a
    pipeline run works on. The input directory is either a single pack (it
    holds images itself) or a directory of packs, one per sub-directory, less
    the output and hidden directories the pipeline creates or ignores. */
module Discovery {
  import opened Text
  import opened Listing

  /** A pack folder: the input directory itself, or one of its sub-directories. */
  datatype PackRef = RootPack | SubPack(name: string)

  /** Sub-directories whose name starts with one of these are never packs. */
  const ReservedPrefixes: seq<string> := [".", "original_images", "free_post", "preview_Images", "pixiv_safe"]

  predicate Reserved(name: string) {
    StartsWithAny(name, ReservedPrefixes)
  }

  /** The sub-directories of `entries` that are not reserved, as packs, in
      listing order. */
  function EligibleSubPacks(entries: seq<Entry>, prefixes: seq<string>): (r: seq<PackRef>)
    ensures forall p :: p in r <==> p.SubPack? && Entry(p.name, true) in entries && !StartsWithAny(p.name, prefixes)
    ensures |r| <= |entries|
    ensures (forall e :: e in entries && e.isDir ==> StartsWithAny(e.name, prefixes)) ==> r == []
  {
    if |entries| == 0 then []
    else
      var rest := EligibleSubPacks(entries[1..], prefixes);
      var e := entries[0];
      assert forall x :: x in entries <==> x == e || x in entries[1..];
      if e.isDir && !StartsWithAny(e.name, prefixes) then [SubPack(e.name)] + rest else rest
  }

  /** A Python generator object. The program never iterates the ones it builds
      here, and like every object without `__bool__` or `__len__` each one is
      true. */
  datatype Generator = Generator(pending: seq<Entry>)

  predicate GeneratorTruthy(g: Generator) {
    true
  }

  /** `_discover_packs` as written: `has_images` is `any` over four generator
      objects (one unconsumed glob per extension), not over their contents. */
  function DiscoverAsWritten(root: seq<Entry>): (r: seq<PackRef>)
    ensures r == [RootPack]
  {
    var generators := [Generator(Glob(root, ".png")), Generator(Glob(root, ".jpg")),
                       Generator(Glob(root, ".jpeg")), Generator(Glob(root, ".webp"))];
    var hasImages := exists i :: 0 <= i < |generators| && GeneratorTruthy(generators[i]);
    assert GeneratorTruthy(generators[0]);
    if hasImages then [RootPack]
    else
      var subfolders := EligibleSubPacks(root, ReservedPrefixes);
      if |subfolders| > 0 then subfolders else []
  }

  /** The intended rule: the input directory itself when it directly holds an
      image file, otherwise every non-reserved sub-directory, otherwise
      nothing. */
  function Discover(root: seq<Entry>): (r: seq<PackRef>)
    ensures (exists e :: e in root && HasImageExtension(e.name)) ==> r == [RootPack]
    ensures !(exists e :: e in root && HasImageExtension(e.name)) ==>
              forall p :: p in r <==> p.SubPack? && Entry(p.name, true) in root && !Reserved(p.name)
    ensures !(exists e :: e in root && HasImageExtension(e.name)) && (forall e :: e in root && e.isDir ==> Reserved(e.name)) ==>
              r == []
  {
    if |ImageGlob(root)| > 0 then
      assert ImageGlob(root)[0] in ImageGlob(root);
      [RootPack]
    else EligibleSubPacks(root, ReservedPrefixes)
  }

  /** The listing that shows the difference: a directory holding one pack
      folder and no image. As written it is processed as a single pack; the
      intended rule processes the sub-directory. */
  lemma DiscoverCounterexample()
    ensures DiscoverAsWritten([Entry("packA", true)]) == [RootPack]
    ensures Discover([Entry("packA", true)]) == [SubPack("packA")]
  {
    var root := [Entry("packA", true)];
    forall i | 0 <= i < |ImageExtensions| ensures !EndsWith("packA", ImageExtensions[i]) {
      NoDotNoExtension("packA", ImageExtensions[i]);
    }
    assert !HasImageExtension("packA");
    forall i | 0 <= i < |ReservedPrefixes| ensures !StartsWith("packA", ReservedPrefixes[i]) {
      DiffersAt("packA", ReservedPrefixes[i], if i < 3 then 0 else 1);
    }
    assert root[1..] == [];
  }

  /** A name without a dot ends with no extension. */
  lemma NoDotNoExtension(name: string, ext: string)
    requires |ext| > 0 && ext[0] == '.' && '.' !in name
    ensures !EndsWith(name, ext)
  {
    if |ext| <= |name| {
      assert name[|name| - |ext|..][0] == name[|name| - |ext|];
    }
  }

  /** A string that differs from `prefix` at a position both have does not
      start with it. */
  lemma DiffersAt(s: string, prefix: string, k: nat)
    requires k < |prefix| && k < |s| && s[k] != prefix[k]
    ensures !StartsWith(s, prefix)
  {
    if |prefix| <= |s| {
      assert s[..|prefix|][k] == s[k];
    }
  }

  /** A sub-directory is left out exactly when its name starts with a reserved
      prefix. */
  lemma ExclusionIsPrefixBased(root: seq<Entry>, name: string)
    requires !(exists e :: e in root && HasImageExtension(e.name))
    requires Entry(name, true) in root
    ensures SubPack(name) in Discover(root) <==> !Reserved(name)
  {
  }

  /** The prefix test is literal and case-sensitive: `original_images_old` is
      reserved, `Free_post` is not. */
  lemma ExclusionExamples()
    ensures Reserved("original_images_old")
    ensures !Reserved("Free_post")
  {
    assert StartsWith("original_images_old", ReservedPrefixes[1]);
    forall i | 0 <= i < |ReservedPrefixes| ensures !StartsWith("Free_post", ReservedPrefixes[i]) {
      DiffersAt("Free_post", ReservedPrefixes[i], 0);
    }
  }

  /** Without images and without an eligible sub-directory there is nothing to
      process. */
  lemma NoEligibleDirectoryYieldsNothing(root: seq<Entry>)
    requires !(exists e :: e in root && HasImageExtension(e.name))
    requires forall e :: e in root && e.isDir ==> Reserved(e.name)
    ensures Discover(root) == []
  {
  }
}
