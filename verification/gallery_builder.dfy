/**
 * build_gallery.py: list the images folder, keep the files with an image extension, sort them
 * and number them into the `{url, caption}` records of `gallery.json`.
 */
module GalleryBuilder {
  import opened Wrappers
  import opened Decimal
  import opened Manifest
  import opened StringOrder
  import GalleryLoader

  const ImagesFolder := "images"
  const AllowedExt: set<string> := {".jpg", ".jpeg", ".png", ".webp", ".gif"}

  // ---------------------------------------------------------------------------
  // os.path.splitext and str.lower
  // ---------------------------------------------------------------------------

  /** The position of the last `.` in `name`, if there is one. */
  function LastDot(name: string): (d: Option<nat>)
    ensures d.Some? ==> d.value < |name| && name[d.value] == '.'
    ensures d.Some? ==> forall k :: d.value < k < |name| ==> name[k] != '.'
    ensures d.None? ==> forall k :: 0 <= k < |name| ==> name[k] != '.'
  {
    if name == [] then None
    else if name[|name| - 1] == '.' then Some(|name| - 1)
    else LastDot(name[..|name| - 1])
  }

  /**
   * `os.path.splitext(name)[1]` for a directory entry (which holds no `/`): the text from the
   * last dot on, unless every character before that dot is itself a dot, as in `.png` or `..gif`,
   * in which case there is no extension.
   */
  function Extension(name: string): (ext: string)
    ensures ext == "" || (ext[0] == '.' && |ext| < |name| && ext == name[|name| - |ext|..])
    ensures forall k :: 0 < k < |ext| ==> ext[k] != '.'
    ensures ext != "" ==> exists j :: 0 <= j < |name| - |ext| && name[j] != '.'
    ensures ext == "" ==> LastDot(name).None? || forall j :: 0 <= j < LastDot(name).value ==> name[j] == '.'
  {
    match LastDot(name)
    case None => ""
    case Some(d) =>
      if exists j :: 0 <= j < d && name[j] != '.' then name[d..] else ""
  }

  function LowerChar(c: char): char {
    if 'A' <= c <= 'Z' then (c as int + 32) as char else c
  }

  /** `str.lower()` on the ASCII letters. */
  function Lower(s: string): (r: string)
    ensures |r| == |s|
    ensures forall i :: 0 <= i < |s| ==> r[i] == LowerChar(s[i])
  {
    seq(|s|, i requires 0 <= i < |s| => LowerChar(s[i]))
  }

  /** The filter of the collecting loop: the lower-cased extension is one of ALLOWED_EXT. */
  predicate IsImageName(name: string) {
    Lower(Extension(name)) in AllowedExt
  }

  /**
   * Worked cases of the filter: a hidden file such as `.png` has no extension, the extension is
   * taken after the last dot, and its case does not matter.
   */
  lemma FilterExamples()
    ensures Extension(".png") == "" && !IsImageName(".png")
    ensures Extension("a.tar.PNG") == ".PNG" && IsImageName("a.tar.PNG")
    ensures Extension("..b.gif") == ".gif" && IsImageName("..b.gif")
    ensures !IsImageName("notes.txt")
  {
    var hidden, upper, dotted, text := ".png", "a.tar.PNG", "..b.gif", "notes.txt";
    assert hidden[0] == '.' && hidden[1] != '.' && hidden[2] != '.' && hidden[3] != '.';
    assert LastDot(hidden) == Some(0);
    assert upper[5] == '.' && upper[6] != '.' && upper[7] != '.' && upper[8] != '.' && upper[0] != '.';
    assert LastDot(upper) == Some(5);
    assert upper[5..] == ".PNG" && Lower(".PNG") == ".png";
    assert dotted[3] == '.' && dotted[4] != '.' && dotted[5] != '.' && dotted[6] != '.' && dotted[2] != '.';
    assert LastDot(dotted) == Some(3);
    assert dotted[3..] == ".gif" && Lower(".gif") == ".gif";
    assert text[5] == '.' && text[6] != '.' && text[7] != '.' && text[8] != '.' && text[0] != '.';
    assert LastDot(text) == Some(5);
    assert text[5..] == ".txt" && Lower(".txt") == ".txt";
  }

  // ---------------------------------------------------------------------------
  // The manifest the script writes
  // ---------------------------------------------------------------------------

  /** The names the collecting loop appends to `files`, in listing order. */
  function Kept(names: seq<string>): seq<string> {
    if names == [] then []
    else
      var last := names[|names| - 1];
      Kept(names[..|names| - 1]) + (if IsImageName(last) then [last] else [])
  }

  /** A name is kept exactly when it has an image extension, as many times as it is listed. */
  lemma {:induction false} KeptElements(names: seq<string>, x: string)
    ensures multiset(Kept(names))[x] == if IsImageName(x) then multiset(names)[x] else 0
  {
    if names != [] {
      var init, last := names[..|names| - 1], names[|names| - 1];
      var added := if IsImageName(last) then [last] else [];
      KeptElements(init, x);
      assert names == init + [last];
      assert multiset(names) == multiset(init) + multiset{last};
      assert Kept(names) == Kept(init) + added;
      assert multiset(Kept(names)) == multiset(Kept(init)) + multiset(added);
    }
  }

  /** The record the numbering loop writes for the `k`-th (from 1) sorted file name. */
  function EntryFor(file: string, k: nat): Entry {
    Entry(Some(ImagesFolder + "/" + file), Some("Photo " + NatToString(k)))
  }

  /** One record per file, numbered from 1 in list order. */
  function Numbered(files: seq<string>): (data: seq<Entry>)
    ensures |data| == |files|
    ensures forall k :: 0 <= k < |data| ==> data[k] == EntryFor(files[k], k + 1)
  {
    seq(|files|, k requires 0 <= k < |files| => EntryFor(files[k], k + 1))
  }

  /** The contents of `gallery.json` for a directory listing. */
  function ManifestFor(names: seq<string>): (data: seq<Entry>)
    ensures |data| == |Kept(names)|
    ensures forall k :: 0 <= k < |data| ==> data[k] == EntryFor(Sort(Kept(names))[k], k + 1)
  {
    Numbered(Sort(Kept(names)))
  }

  /** The collecting loop of `main()`: append each listed name whose extension is an image one. */
  method CollectImages(names: seq<string>) returns (files: seq<string>)
    ensures files == Kept(names)
  {
    files := [];
    for i := 0 to |names|
      invariant files == Kept(names[..i])
    {
      assert names[..i + 1][..i] == names[..i];
      var ext := Lower(Extension(names[i]));
      if ext in AllowedExt {
        files := files + [names[i]];
      }
    }
    assert names[..|names|] == names;
  }

  /** The numbering loop of `main()`: `enumerate(files, start=1)` into `{url, caption}` records. */
  method NumberEntries(files: seq<string>) returns (data: seq<Entry>)
    ensures |data| == |files|
    ensures forall k :: 0 <= k < |data| ==> data[k] == EntryFor(files[k], k + 1)
  {
    data := [];
    for idx := 1 to |files| + 1
      invariant |data| == idx - 1
      invariant forall k :: 0 <= k < |data| ==> data[k] == EntryFor(files[k], k + 1)
    {
      var url := ImagesFolder + "/" + files[idx - 1];
      var caption := "Photo " + NatToString(idx);
      data := data + [Entry(Some(url), Some(caption))];
    }
  }

  lemma SameEntries(a: seq<Entry>, b: seq<Entry>, files: seq<string>)
    requires |a| == |b| == |files|
    requires forall k :: 0 <= k < |a| ==> a[k] == EntryFor(files[k], k + 1)
    requires forall k :: 0 <= k < |b| ==> b[k] == EntryFor(files[k], k + 1)
    ensures a == b
  {
  }

  /**
   * `main()`: `None` for a missing images folder (nothing is written); otherwise the records
   * written to `gallery.json`: the kept names, sorted, then numbered.
   */
  method BuildGallery(listing: Option<seq<string>>) returns (data: Option<seq<Entry>>)
    ensures listing.None? ==> data.None?
    ensures listing.Some? ==> data == Some(ManifestFor(listing.value))
  {
    if listing.None? {
      return None;
    }
    var files := CollectImages(listing.value);
    var entries: seq<Entry>;
    if |files| == 0 {
      entries := [];
      assert |ManifestFor(listing.value)| == 0;
    } else {
      files := Sort(files);
      entries := NumberEntries(files);
      SameEntries(entries, ManifestFor(listing.value), files);
    }
    data := Some(entries);
  }

  // ---------------------------------------------------------------------------
  // Properties of the generated manifest
  // ---------------------------------------------------------------------------

  /** The records come in ascending file-name order. */
  lemma ManifestSorted(names: seq<string>, i: nat, j: nat)
    requires i < j < |ManifestFor(names)|
    ensures LessEq(Sort(Kept(names))[i], Sort(Kept(names))[j])
    ensures ManifestFor(names)[i].url == Some(ImagesFolder + "/" + Sort(Kept(names))[i])
  {
  }

  /** Listing the same names in another order writes the same manifest. */
  lemma ManifestIgnoresListingOrder(a: seq<string>, b: seq<string>)
    requires multiset(a) == multiset(b)
    ensures ManifestFor(a) == ManifestFor(b)
  {
    forall x ensures multiset(Kept(a))[x] == multiset(Kept(b))[x] {
      KeptElements(a, x);
      KeptElements(b, x);
    }
    assert multiset(Kept(a)) == multiset(Kept(b));
    SortIgnoresOrder(Kept(a), Kept(b));
  }

  /** The manifest names each listed image file exactly as often as it is listed, and nothing else. */
  lemma ManifestFiles(names: seq<string>, x: string)
    ensures multiset(Sort(Kept(names)))[x] == if IsImageName(x) then multiset(names)[x] else 0
  {
    KeptElements(names, x);
  }

  /**
   * Fed to the slideshow, a generated manifest loses no entry: every record is kept, at its own
   * position, its alt text is its caption, and the gallery starts with one slide per record.
   */
  lemma GeneratedManifestFullyShown(names: seq<string>)
    ensures var m := ManifestFor(names);
      && GalleryLoader.AcceptedPositions(m) == seq(|m|, k => k)
      && (forall k :: 0 <= k < |m| ==> GalleryLoader.SlideFor(m[k], k).alt == m[k].caption.value)
      && GalleryLoader.LoadOutcome(GalleryLoader.Response(true, 200, GalleryLoader.Array(m)))
         == if |m| == 0 then GalleryLoader.Error(GalleryLoader.NoImagesMsg) else GalleryLoader.Ready(|m|)
  {
    var m := ManifestFor(names);
    GalleryLoader.AllAccepted(m);
  }
}
