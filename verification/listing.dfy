/** A directory as the pipeline sees it: the names directly inside it, each a
    file or a sub-directory, in the order the operating system lists them. */
module Listing {
  import opened Text
  import opened Order

  datatype Entry = Entry(name: string, isDir: bool)

  /** The extensions every glob of the pipeline uses, in the order it globs them. */
  const ImageExtensions: seq<string> := [".png", ".jpg", ".jpeg", ".webp"]

  /** Names in one directory are distinct. */
  predicate UniqueNames(entries: seq<Entry>) {
    forall i, j :: 0 <= i < j < |entries| ==> entries[i].name != entries[j].name
  }

  function Names(entries: seq<Entry>): (r: seq<string>)
    ensures |r| == |entries|
    ensures forall i :: 0 <= i < |entries| ==> r[i] == entries[i].name
  {
    if |entries| == 0 then [] else [entries[0].name] + Names(entries[1..])
  }

  /** `folder.glob("*" + ext)`: every entry, file or directory, whose name ends
      with `ext`, compared case-sensitively, in listing order. */
  function Glob(entries: seq<Entry>, ext: string): (r: seq<Entry>)
    ensures forall e :: e in r <==> e in entries && EndsWith(e.name, ext)
    ensures |r| <= |entries|
    ensures UniqueNames(entries) ==> UniqueNames(r)
  {
    if |entries| == 0 then []
    else
      var rest := Glob(entries[1..], ext);
      assert forall e :: e in entries[1..] ==> e.name != entries[0].name || !UniqueNames(entries);
      if EndsWith(entries[0].name, ext) then [entries[0]] + rest else rest
  }

  /** Ends with one of `exts`. */
  predicate HasExtensionIn(name: string, exts: seq<string>) {
    exists i :: 0 <= i < |exts| && EndsWith(name, exts[i])
  }

  predicate HasImageExtension(name: string) {
    HasExtensionIn(name, ImageExtensions)
  }

  /** No extension of the list is a suffix of another. */
  predicate SuffixFree(exts: seq<string>) {
    forall i, j :: 0 <= i < |exts| && 0 <= j < |exts| && i != j ==> !EndsWith(exts[i], exts[j])
  }

  lemma ImageExtensionsSuffixFree()
    ensures SuffixFree(ImageExtensions)
  {
    var e := ImageExtensions;
    assert e[0][2] == 'n' && e[0][3] == 'g';
    assert e[1][2] == 'p' && e[1][3] == 'g';
    assert e[2][3] == 'e' && e[2][4] == 'g';
    assert e[3][3] == 'b' && e[3][4] == 'p';
    forall i, j | 0 <= i < 4 && 0 <= j < 4 && i != j
      ensures !EndsWith(e[i], e[j])
    {
      if EndsWith(e[i], e[j]) {
        EndsWithLastTwo(e[i], e[j]);
      }
    }
  }

  lemma EndsWithLastTwo(a: string, b: string)
    requires |b| >= 2 && EndsWith(a, b)
    ensures a[|a| - 1] == b[|b| - 1] && a[|a| - 2] == b[|b| - 2]
  {
    assert a[|a| - |b|..][|b| - 1] == a[|a| - 1];
    assert a[|a| - |b|..][|b| - 2] == a[|a| - 2];
  }

  /** Two suffixes of one name: the shorter is a suffix of the longer. */
  lemma SuffixesNest(name: string, a: string, b: string)
    requires EndsWith(name, a) && EndsWith(name, b) && |a| <= |b|
    ensures EndsWith(b, a)
  {
    var n := |name|;
    assert forall k :: 0 <= k < |a| ==> a[k] == name[n - |a| + k] == b[|b| - |a| + k];
  }

  /** The globs for `exts`, one after another, as in
      `for ext in exts: files.extend(folder.glob(ext))`. */
  function GlobAll(entries: seq<Entry>, exts: seq<string>): (r: seq<Entry>)
    ensures forall e :: e in r <==> e in entries && HasExtensionIn(e.name, exts)
    ensures UniqueNames(entries) && SuffixFree(exts) ==> UniqueNames(r)
  {
    if |exts| == 0 then [] else
      var head, rest := Glob(entries, exts[0]), GlobAll(entries, exts[1..]);
      assert forall n: string :: HasExtensionIn(n, exts) <==> EndsWith(n, exts[0]) || HasExtensionIn(n, exts[1..]) by {
        forall n: string ensures HasExtensionIn(n, exts) <==> EndsWith(n, exts[0]) || HasExtensionIn(n, exts[1..]) {
          if HasExtensionIn(n, exts[1..]) {
            var i :| 0 <= i < |exts[1..]| && EndsWith(n, exts[1..][i]);
            assert EndsWith(n, exts[i + 1]);
          }
          if HasExtensionIn(n, exts) && !EndsWith(n, exts[0]) {
            var i :| 0 <= i < |exts| && EndsWith(n, exts[i]);
            assert exts[1..][i - 1] == exts[i];
          }
        }
      }
      if UniqueNames(entries) && SuffixFree(exts) then
        assert SuffixFree(exts[1..]) by {
          forall i, j | 0 <= i < |exts[1..]| && 0 <= j < |exts[1..]| && i != j
            ensures !EndsWith(exts[1..][i], exts[1..][j])
          {
            assert exts[1..][i] == exts[i + 1] && exts[1..][j] == exts[j + 1];
          }
        }
        GlobsDisjoint(entries, exts, head, rest);
        UniqueConcat(head, rest);
        head + rest
      else head + rest
  }

  lemma GlobsDisjoint(entries: seq<Entry>, exts: seq<string>, head: seq<Entry>, rest: seq<Entry>)
    requires |exts| > 0 && SuffixFree(exts) && UniqueNames(entries)
    requires forall e :: e in head <==> e in entries && EndsWith(e.name, exts[0])
    requires forall e :: e in rest <==> e in entries && HasExtensionIn(e.name, exts[1..])
    ensures forall x, y :: x in head && y in rest ==> x.name != y.name
  {
    forall x, y | x in head && y in rest ensures x.name != y.name {
      var i :| 0 <= i < |exts[1..]| && EndsWith(y.name, exts[1..][i]);
      var a, b := exts[0], exts[i + 1];
      if x.name == y.name {
        if |a| <= |b| { SuffixesNest(x.name, a, b); } else { SuffixesNest(x.name, b, a); }
      }
    }
  }

  lemma UniqueConcat(a: seq<Entry>, b: seq<Entry>)
    requires UniqueNames(a) && UniqueNames(b)
    requires forall x, y :: x in a && y in b ==> x.name != y.name
    ensures UniqueNames(a + b)
  {
    var r := a + b;
    forall i, j | 0 <= i < j < |r| ensures r[i].name != r[j].name {
      if j < |a| {
        assert r[i] == a[i] && r[j] == a[j];
      } else if i >= |a| {
        assert r[i] == b[i - |a|] && r[j] == b[j - |a|];
      } else {
        assert r[i] in a && r[j] in b;
      }
    }
  }

  /** The four image globs of the pipeline, concatenated. */
  function ImageGlob(entries: seq<Entry>): (r: seq<Entry>)
    ensures forall e :: e in r <==> e in entries && HasImageExtension(e.name)
    ensures UniqueNames(entries) ==> UniqueNames(r)
  {
    ImageExtensionsSuffixFree();
    GlobAll(entries, ImageExtensions)
  }
}
