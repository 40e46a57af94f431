/**
 * The picture browser beside the monitor rows (image_sidebar.py, class
 * `ImageSidebar`): which files of the pictures folder it lists, the
 * thumbnails it shows for them, how the folder is changed, and the folder
 * tree the change-folder dialog offers.
 */
module Sidebar {
  import opened Base
  import opened Platform
  import opened Listing

  /** `IMAGE_EXTENSIONS` */
  const ImageExtensions: set<string> := {".png", ".jpg", ".jpeg", ".bmp", ".webp", ".gif", ".avif"}

  /**
   * `Path(name).suffix`: from the last '.' to the end, provided that dot is
   * neither the first nor the last character; otherwise empty.
   */
  function Suffix(name: string): (s: string)
    ensures s != "" <==> 0 < LastIndexOf(name, '.') < |name| - 1
    ensures s != "" ==> 2 <= |s| < |name| && s == name[|name| - |s|..] && s[0] == '.' && '.' !in s[1..]
  {
    var i := LastIndexOf(name, '.');
    if 0 < i < |name| - 1 then name[i..] else ""
  }

  /** `entry.is_file() and entry.suffix.lower() in IMAGE_EXTENSIONS` */
  predicate IsImageEntry(e: Entry) {
    e.kind == RegularFile && AsciiLower(Suffix(e.name)) in ImageExtensions
  }

  lemma {:induction false} LastDotIgnoresCase(s: string)
    ensures LastIndexOf(AsciiLower(s), '.') == LastIndexOf(s, '.')
    decreases |s|
  {
    if s != [] {
      var t := s[..|s| - 1];
      assert AsciiLower(s)[..|s| - 1] == AsciiLower(t);
      LastDotIgnoresCase(t);
    }
  }

  /** Lower-casing a name lower-cases its suffix and nothing else about it. */
  lemma SuffixOfLower(name: string)
    ensures Suffix(AsciiLower(name)) == AsciiLower(Suffix(name))
  {
    LastDotIgnoresCase(name);
    var i := LastIndexOf(name, '.');
    if 0 < i < |name| - 1 {
      assert AsciiLower(name)[i..] == AsciiLower(name[i..]);
    }
  }

  /** The filter does not depend on the case of the name. */
  lemma ImageFilterIgnoresCase(e: Entry)
    ensures IsImageEntry(e) <==> IsImageEntry(Entry(AsciiLower(e.name), e.kind))
  {
    SuffixOfLower(e.name);
    LowerTwice(Suffix(e.name));
  }

  lemma LastDotAt(s: string, i: nat)
    requires i < |s| && s[i] == '.' && forall k :: i < k < |s| ==> s[k] != '.'
    ensures LastIndexOf(s, '.') == i
  {
  }

  lemma LowerTwice(s: string)
    ensures AsciiLower(AsciiLower(s)) == AsciiLower(s)
  {
    forall k | 0 <= k < |s| ensures LowerChar(LowerChar(s[k])) == LowerChar(s[k]) {
    }
  }

  /** Upper- and mixed-case extensions pass the filter. */
  lemma FilterIgnoresCaseExamples()
    ensures IsImageEntry(Entry("a.JPG", RegularFile))
    ensures IsImageEntry(Entry("b.Avif", RegularFile))
  {
    LastDotAt("a.JPG", 1);
    assert Suffix("a.JPG") == ".JPG";
    assert AsciiLower(".JPG") == ".jpg";
    LastDotAt("b.Avif", 1);
    assert Suffix("b.Avif") == ".Avif";
    assert AsciiLower(".Avif") == ".avif";
  }

  /** Unknown extensions, hidden files with no other dot, and folders do not. */
  lemma FilterRejectsExamples()
    ensures !IsImageEntry(Entry("c.tiff", RegularFile))
    ensures !IsImageEntry(Entry(".png", RegularFile))
    ensures !IsImageEntry(Entry("d.png", Directory))
  {
    LastDotAt("c.tiff", 1);
    assert Suffix("c.tiff") == ".tiff";
    assert AsciiLower(".tiff") == ".tiff";
    LastDotAt(".png", 0);
  }

  /** The image entries of a listing, in listing order. */
  function ImageEntries(es: seq<Entry>): seq<Entry> {
    if es == [] then []
    else
      var last := es[|es| - 1];
      ImageEntries(es[..|es| - 1]) + if IsImageEntry(last) then [last] else []
  }

  /** The filter keeps exactly the image entries. */
  lemma {:induction false} ImageEntriesMembers(es: seq<Entry>, e: Entry)
    ensures e in ImageEntries(es) <==> e in es && IsImageEntry(e)
  {
    if es != [] {
      var last := es[|es| - 1];
      assert es == es[..|es| - 1] + [last];
      ImageEntriesMembers(es[..|es| - 1], e);
    }
  }

  /** The filter keeps each image entry as often as the listing holds it, and nothing else. */
  lemma {:induction false} ImageEntriesCount(es: seq<Entry>, e: Entry)
    ensures multiset(ImageEntries(es))[e] == if IsImageEntry(e) then multiset(es)[e] else 0
  {
    if es != [] {
      var last := es[|es| - 1];
      assert es == es[..|es| - 1] + [last];
      ImageEntriesCount(es[..|es| - 1], e);
    }
  }

  /** Filtering a sorted listing keeps it sorted. */
  lemma {:induction false} ImageEntriesSorted(es: seq<Entry>)
    requires SortedByName(es)
    ensures SortedByName(ImageEntries(es))
  {
    if es != [] {
      var last := es[|es| - 1];
      var front := ImageEntries(es[..|es| - 1]);
      ImageEntriesSorted(es[..|es| - 1]);
      forall k | 0 <= k < |front| ensures StrLe(front[k].name, last.name) {
        ImageEntriesMembers(es[..|es| - 1], front[k]);
        assert front[k] in es[..|es| - 1];
        var m :| 0 <= m < |es| - 1 && es[m] == front[k];
      }
    }
  }

  /**
   * `found` is what `load_images` keeps of the listing `es`: exactly its
   * image entries, each as often as `es` holds it, in name order.
   */
  ghost predicate ImageListing(found: seq<Entry>, es: seq<Entry>) {
    && SortedByName(found)
    && (forall e :: e in found <==> e in es && IsImageEntry(e))
    && (forall e :: multiset(found)[e] == if IsImageEntry(e) then multiset(es)[e] else 0)
  }

  /** Sorting a listing by name and then keeping its images gives its image listing. */
  lemma SortedImageEntries(es: seq<Entry>)
    ensures ImageListing(ImageEntries(SortByName(es)), es)
  {
    var found := ImageEntries(SortByName(es));
    ImageEntriesSorted(SortByName(es));
    forall e ensures e in found <==> e in es && IsImageEntry(e) {
      ImageEntriesMembers(SortByName(es), e);
      SortKeepsEntries(es, e);
    }
    forall e ensures multiset(found)[e] == if IsImageEntry(e) then multiset(es)[e] else 0 {
      ImageEntriesCount(SortByName(es), e);
    }
  }

  /** `str(entry)` for each entry of the folder `dir`. */
  function PathsOf(dir: string, es: seq<Entry>): (ps: seq<string>)
    ensures |ps| == |es| && forall k :: 0 <= k < |es| ==> ps[k] == Join(dir, es[k].name)
  {
    seq(|es|, k requires 0 <= k < |es| => Join(dir, es[k].name))
  }

  /** The paths of a listing with `e` appended when `keep` holds. */
  lemma PathsOfAppend(dir: string, es: seq<Entry>, e: Entry, keep: bool)
    ensures PathsOf(dir, es + if keep then [e] else []) == PathsOf(dir, es) + if keep then [Join(dir, e.name)] else []
  {
    if keep {
      assert (es + [e])[|es|] == e;
    } else {
      assert es + [] == es;
    }
  }

  /** The paths of a listing with one more entry: those of the front, then the new one's if it is an image. */
  lemma CollectStep(dir: string, es: seq<Entry>)
    requires es != []
    ensures PathsOf(dir, ImageEntries(es)) ==
      PathsOf(dir, ImageEntries(es[..|es| - 1])) + if IsImageEntry(es[|es| - 1]) then [Join(dir, es[|es| - 1].name)] else []
  {
    var last := es[|es| - 1];
    PathsOfAppend(dir, ImageEntries(es[..|es| - 1]), last, IsImageEntry(last));
  }

  /**
   * `current_images` after `load_images` on `dir`: nothing when the folder
   * does not exist or cannot be listed, otherwise the paths of exactly its
   * image entries, in name order.
   */
  function ImagesIn(dir: string, disk: Disk): (paths: seq<string>)
    ensures !disk.pathExists(dir) || disk.listing(dir).None? ==> paths == []
    ensures disk.pathExists(dir) && disk.listing(dir).Some? ==>
      exists found: seq<Entry> :: paths == PathsOf(dir, found) && ImageListing(found, disk.listing(dir).value)
  {
    if !disk.pathExists(dir) then []
    else match disk.listing(dir)
      case None => []
      case Some(es) =>
        var found := ImageEntries(SortByName(es));
        SortedImageEntries(es);
        PathsOf(dir, found)
  }

  /**
   * Every image `load_images` finds lies directly in the folder it loaded:
   * that folder is its parent, and its base name is the name of an image
   * entry of the folder's listing.
   */
  lemma ImagesInFolder(dir: string, disk: Disk, path: string)
    requires dir != "" && path in ImagesIn(dir, disk)
    requires disk.listing(dir).Some? ==> forall e :: e in disk.listing(dir).value ==> '/' !in e.name
    ensures disk.listing(dir).Some? && Parent(path) == dir
    ensures exists e :: e in disk.listing(dir).value && IsImageEntry(e) && Basename(path) == e.name
  {
    var found: seq<Entry> :| ImagesIn(dir, disk) == PathsOf(dir, found) && ImageListing(found, disk.listing(dir).value);
    var k :| 0 <= k < |found| && path == Join(dir, found[k].name);
    assert found[k] in found;
    JoinSplits(dir, found[k].name);
  }

  /**
   * The caption under a thumbnail: names of up to 15 characters are shown
   * whole, longer ones as their first 12 characters and "...", so a caption
   * never exceeds 15 characters.
   */
  function ThumbnailLabel(filename: string): (caption: string)
    ensures |caption| <= 15
    ensures caption == filename <==> |filename| <= 15
    ensures caption != filename ==> |caption| == 15 && caption[..12] == filename[..12] && caption[12..] == "..."
  {
    if |filename| > 15 then filename[..12] + "..." else filename
  }

  lemma LabelExamples()
    ensures ThumbnailLabel("holiday-2024.png") == "holiday-2024..."
    ensures ThumbnailLabel("sunset_wide.jpg") == "sunset_wide.jpg"
  {
  }

  /** One flowbox child: the image it opens and its caption. */
  datatype Thumbnail = Thumbnail(path: string, caption: string)

  /**
   * The flowbox after `create_thumbnail` for each path: one child per image
   * a thumbnail could be made of (by GdkPixbuf or, failing that, Pillow),
   * in order; the others are skipped.
   */
  function Thumbnails(paths: seq<string>, canThumbnail: string -> bool): (ts: seq<Thumbnail>)
    ensures |ts| <= |paths|
    ensures forall t :: t in ts ==> t.path in paths && canThumbnail(t.path) && t.caption == ThumbnailLabel(Basename(t.path))
  {
    if paths == [] then []
    else
      var p := paths[|paths| - 1];
      Thumbnails(paths[..|paths| - 1], canThumbnail) + (if canThumbnail(p) then [Thumbnail(p, ThumbnailLabel(Basename(p)))] else [])
  }

  /** The images a row of thumbnails opens, first to last. */
  function ThumbnailPaths(ts: seq<Thumbnail>): (ps: seq<string>)
    ensures |ps| == |ts| && forall k :: 0 <= k < |ts| ==> ps[k] == ts[k].path
  {
    seq(|ts|, k requires 0 <= k < |ts| => ts[k].path)
  }

  /**
   * Each image gets one thumbnail for every time it appears in `paths` when
   * a thumbnail can be made of it, and none otherwise.
   */
  lemma {:induction false} ThumbnailsCount(paths: seq<string>, canThumbnail: string -> bool, p: string)
    ensures multiset(ThumbnailPaths(Thumbnails(paths, canThumbnail)))[p] == if canThumbnail(p) then multiset(paths)[p] else 0
  {
    if paths != [] {
      var q := paths[|paths| - 1];
      var front := paths[..|paths| - 1];
      var step := if canThumbnail(q) then [Thumbnail(q, ThumbnailLabel(Basename(q)))] else [];
      var ts := Thumbnails(front, canThumbnail);
      assert paths == front + [q];
      assert Thumbnails(paths, canThumbnail) == ts + step;
      ThumbnailsCount(front, canThumbnail, p);
      assert ThumbnailPaths(ts + step) == ThumbnailPaths(ts) + ThumbnailPaths(step);
      assert ThumbnailPaths(step) == if canThumbnail(q) then [q] else [];
      assert multiset(paths) == multiset(front) + multiset{q};
    }
  }

  class ImageSidebar {
    var picturesDir: string
    var currentImages: seq<string>
    /** The flowbox's children, first to last. */
    var thumbnails: seq<Thumbnail>

    /** `ImageSidebar(pictures_dir, on_image_selected_cb)`: loads the folder straight away. */
    constructor(picturesDir: string, disk: Disk, canThumbnail: string -> bool)
      ensures this.picturesDir == picturesDir
      ensures currentImages == ImagesIn(picturesDir, disk)
      ensures thumbnails == Thumbnails(currentImages, canThumbnail)
    {
      this.picturesDir := picturesDir;
      currentImages := [];
      thumbnails := [];
      new;
      LoadImages(disk, canThumbnail);
    }

    /** `create_thumbnail(image_path)`: one more child, unless no thumbnail can be made. */
    method CreateThumbnail(path: string, canThumbnail: string -> bool)
      modifies this
      ensures picturesDir == old(picturesDir) && currentImages == old(currentImages)
      ensures thumbnails == old(thumbnails) + (if canThumbnail(path) then [Thumbnail(path, ThumbnailLabel(Basename(path)))] else [])
    {
      if canThumbnail(path) {
        var caption := ThumbnailLabel(Basename(path));
        thumbnails := thumbnails + [Thumbnail(path, caption)];
      }
    }

    /** The `while True` loop at the start of `load_images`: remove the first child until none is left. */
    method ClearFlowbox()
      modifies this
      ensures thumbnails == []
      ensures picturesDir == old(picturesDir) && currentImages == old(currentImages)
    {
      while thumbnails != []
        invariant picturesDir == old(picturesDir) && currentImages == old(currentImages)
        decreases |thumbnails|
      {
        thumbnails := thumbnails[1..];
      }
    }

    /** The `for entry in sorted(...)` loop: append the path of each image entry, in order. */
    method CollectImages(entries: seq<Entry>)
      modifies this
      ensures currentImages == old(currentImages) + PathsOf(picturesDir, ImageEntries(entries))
      ensures picturesDir == old(picturesDir) && thumbnails == old(thumbnails)
    {
      var i := 0;
      while i < |entries|
        invariant 0 <= i <= |entries|
        invariant picturesDir == old(picturesDir) && thumbnails == old(thumbnails)
        invariant currentImages == old(currentImages) + PathsOf(picturesDir, ImageEntries(entries[..i]))
      {
        assert entries[..i + 1][..i] == entries[..i];
        CollectStep(picturesDir, entries[..i + 1]);
        ghost var done := PathsOf(picturesDir, ImageEntries(entries[..i]));
        CollectImage(entries[i]);
        AppendAssociates(old(currentImages), done, if IsImageEntry(entries[i]) then [Join(picturesDir, entries[i].name)] else []);
        i := i + 1;
      }
      assert entries[..i] == entries;
    }

    /** One pass of that loop. */
    method CollectImage(entry: Entry)
      modifies this
      ensures currentImages == old(currentImages) + if IsImageEntry(entry) then [Join(picturesDir, entry.name)] else []
      ensures picturesDir == old(picturesDir) && thumbnails == old(thumbnails)
    {
      if entry.kind == RegularFile && AsciiLower(Suffix(entry.name)) in ImageExtensions {
        currentImages := currentImages + [Join(picturesDir, entry.name)];
      }
    }

    /** The `for image_path in self.current_images` loop. */
    method CreateThumbnails(canThumbnail: string -> bool)
      modifies this
      ensures thumbnails == old(thumbnails) + Thumbnails(currentImages, canThumbnail)
      ensures picturesDir == old(picturesDir) && currentImages == old(currentImages)
    {
      var k := 0;
      while k < |currentImages|
        invariant 0 <= k <= |currentImages|
        invariant picturesDir == old(picturesDir) && currentImages == old(currentImages)
        invariant thumbnails == old(thumbnails) + Thumbnails(currentImages[..k], canThumbnail)
      {
        assert currentImages[..k + 1][..k] == currentImages[..k];
        ghost var done := Thumbnails(currentImages[..k], canThumbnail);
        var p := currentImages[k];
        CreateThumbnail(p, canThumbnail);
        AppendAssociates(old(thumbnails), done, if canThumbnail(p) then [Thumbnail(p, ThumbnailLabel(Basename(p)))] else []);
        k := k + 1;
      }
      assert currentImages[..k] == currentImages;
    }

    /**
     * `load_images()`: empty the flowbox, reset `current_images`, list the
     * folder's images in name order, then make their thumbnails.
     */
    method LoadImages(disk: Disk, canThumbnail: string -> bool)
      modifies this
      ensures picturesDir == old(picturesDir)
      ensures currentImages == ImagesIn(picturesDir, disk)
      ensures thumbnails == Thumbnails(currentImages, canThumbnail)
    {
      ClearFlowbox();
      currentImages := [];
      if !disk.pathExists(picturesDir) {
        return;
      }
      var listing := disk.listing(picturesDir);
      if listing.None? {
        return;
      }
      CollectImages(SortByName(listing.value));
      CreateThumbnails(canThumbnail);
    }

    /**
     * `on_folder_dialog_select(dialog, folder_path)`: a non-empty, existing
     * folder becomes the pictures folder and is loaded; anything else
     * leaves the sidebar as it was.
     */
    method OnFolderDialogSelect(folderPath: string, disk: Disk, canThumbnail: string -> bool)
      modifies this
      ensures folderPath != "" && disk.pathExists(folderPath) ==>
        && picturesDir == folderPath
        && currentImages == ImagesIn(folderPath, disk)
        && thumbnails == Thumbnails(currentImages, canThumbnail)
      ensures !(folderPath != "" && disk.pathExists(folderPath)) ==>
        picturesDir == old(picturesDir) && currentImages == old(currentImages) && thumbnails == old(thumbnails)
    {
      if folderPath != "" && disk.pathExists(folderPath) {
        picturesDir := folderPath;
        LoadImages(disk, canThumbnail);
      }
    }
  }

  // ---------------------------------------------------------------------
  // The folder tree of the change-folder dialog.

  datatype Icon = HomeIcon | FolderIcon

  /**
   * One row of the dialog's tree store, the store read top to bottom:
   * `level` is the row's depth in the tree (0 for the top-level rows), and
   * the label is the icon followed by `name`.
   */
  datatype TreeRow = TreeRow(level: nat, icon: Icon, name: string, path: string)

  /** `entry.is_dir() and not entry.name.startswith('.')` */
  predicate IsVisibleDir(e: Entry) {
    e.kind == Directory && !StartsWith(e.name, ".")
  }

  /** The row a walk of `folder` at `depth` adds for its entry `e`. */
  function DirRow(folder: string, e: Entry, depth: nat): TreeRow {
    TreeRow(depth + 1, FolderIcon, e.name, Join(folder, e.name))
  }

  /**
   * The rows `add_folder_to_tree(parent, folder, max_depth, depth)` adds
   * under its parent: nothing at or beyond the depth limit or when the
   * folder cannot be listed.
   */
  function FolderRows(disk: Disk, folder: string, maxDepth: nat, depth: nat): seq<TreeRow>
    decreases if depth < maxDepth then maxDepth - depth else 0, 1, 0
  {
    if depth >= maxDepth then []
    else match disk.listing(folder)
      case None => []
      case Some(es) => EntryRows(disk, folder, SortByName(es), maxDepth, depth)
  }

  /** The rows the loop over `entries` adds, entry by entry. */
  function EntryRows(disk: Disk, folder: string, entries: seq<Entry>, maxDepth: nat, depth: nat): seq<TreeRow>
    requires depth < maxDepth
    decreases maxDepth - depth, 0, |entries|
  {
    if entries == [] then []
    else
      EntryRows(disk, folder, entries[..|entries| - 1], maxDepth, depth) +
      EntrySubtree(disk, folder, entries[|entries| - 1], maxDepth, depth)
  }

  /**
   * What one entry adds: for a visible directory its row, followed by its
   * own subtree while the depth allows one more level; nothing otherwise.
   */
  function EntrySubtree(disk: Disk, folder: string, e: Entry, maxDepth: nat, depth: nat): seq<TreeRow>
    requires depth < maxDepth
    decreases maxDepth - depth, 0, 0
  {
    if IsVisibleDir(e) then
      [DirRow(folder, e, depth)] +
      (if depth < maxDepth - 1 then FolderRows(disk, Join(folder, e.name), maxDepth, depth + 1) else [])
    else []
  }

  /** `e` is a visible directory in the listing of `folder`. */
  predicate ListedDir(disk: Disk, folder: string, e: Entry) {
    disk.listing(folder).Some? && e in disk.listing(folder).value && IsVisibleDir(e)
  }

  /** `r` names and points at a visible directory found in the listing of some folder. */
  ghost predicate FromListing(disk: Disk, r: TreeRow) {
    exists f, e :: ListedDir(disk, f, e) && r.name == e.name && r.path == Join(f, e.name)
  }

  /**
   * What every row of a walk from `depth` looks like: a folder row one to
   * `maxDepth` levels down, made for a visible directory of some listing.
   */
  ghost predicate WalkRow(disk: Disk, r: TreeRow, maxDepth: nat, depth: nat) {
    r.icon == FolderIcon && !StartsWith(r.name, ".") && depth < r.level <= maxDepth && FromListing(disk, r)
  }

  /**
   * Every row a walk adds is a visible folder of some listing, never deeper
   * than `maxDepth`; the rows one level below the walked folder come from
   * that folder's own listing.
   */
  lemma {:induction false} FolderRowShape(disk: Disk, folder: string, maxDepth: nat, depth: nat, r: TreeRow)
    requires r in FolderRows(disk, folder, maxDepth, depth)
    ensures WalkRow(disk, r, maxDepth, depth)
    ensures r.level == depth + 1 ==> exists e :: ListedDir(disk, folder, e) && r == DirRow(folder, e, depth)
    decreases if depth < maxDepth then maxDepth - depth else 0, 1, 0
  {
    var es := disk.listing(folder).value;
    forall x | x in SortByName(es) ensures x in es {
      SortKeepsEntries(es, x);
    }
    EntryRowShape(disk, folder, SortByName(es), maxDepth, depth, r);
  }

  lemma {:induction false} EntryRowShape(disk: Disk, folder: string, entries: seq<Entry>, maxDepth: nat, depth: nat, r: TreeRow)
    requires depth < maxDepth && r in EntryRows(disk, folder, entries, maxDepth, depth)
    requires disk.listing(folder).Some? && forall x :: x in entries ==> x in disk.listing(folder).value
    ensures WalkRow(disk, r, maxDepth, depth)
    ensures r.level == depth + 1 ==> exists e :: ListedDir(disk, folder, e) && r == DirRow(folder, e, depth)
    decreases maxDepth - depth, 0, |entries|
  {
    var front := entries[..|entries| - 1];
    var e := entries[|entries| - 1];
    if r in EntryRows(disk, folder, front, maxDepth, depth) {
      assert forall x :: x in front ==> x in entries;
      EntryRowShape(disk, folder, front, maxDepth, depth, r);
    } else {
      SubtreeRowShape(disk, folder, e, maxDepth, depth, r);
    }
  }

  lemma {:induction false} SubtreeRowShape(disk: Disk, folder: string, e: Entry, maxDepth: nat, depth: nat, r: TreeRow)
    requires depth < maxDepth && r in EntrySubtree(disk, folder, e, maxDepth, depth)
    requires disk.listing(folder).Some? && e in disk.listing(folder).value
    ensures WalkRow(disk, r, maxDepth, depth)
    ensures r.level == depth + 1 ==> exists e' :: ListedDir(disk, folder, e') && r == DirRow(folder, e', depth)
    decreases maxDepth - depth, 0, 0
  {
    if r == DirRow(folder, e, depth) {
      assert ListedDir(disk, folder, e);
    } else {
      FolderRowShape(disk, Join(folder, e.name), maxDepth, depth + 1, r);
    }
  }

  /** Every visible directory in a folder's listing gets its row when the walk may go one level down. */
  lemma FolderRowsComplete(disk: Disk, folder: string, maxDepth: nat, depth: nat, e: Entry)
    requires depth < maxDepth && ListedDir(disk, folder, e)
    ensures DirRow(folder, e, depth) in FolderRows(disk, folder, maxDepth, depth)
  {
    SortKeepsEntries(disk.listing(folder).value, e);
    EntryRowsComplete(disk, folder, SortByName(disk.listing(folder).value), maxDepth, depth, e);
  }

  lemma {:induction false} EntryRowsComplete(disk: Disk, folder: string, entries: seq<Entry>, maxDepth: nat, depth: nat, e: Entry)
    requires depth < maxDepth && e in entries && IsVisibleDir(e)
    ensures DirRow(folder, e, depth) in EntryRows(disk, folder, entries, maxDepth, depth)
    decreases |entries|
  {
    var front := entries[..|entries| - 1];
    var last := entries[|entries| - 1];
    if e == last {
      assert EntrySubtree(disk, folder, e, maxDepth, depth)[0] == DirRow(folder, e, depth);
    } else {
      assert entries == front + [last];
      EntryRowsComplete(disk, folder, front, maxDepth, depth, e);
    }
  }

  /**
   * The rows a walk adds one level below its folder are exactly the rows
   * of that folder's visible sub-directories.
   */
  lemma WalkFirstLevel(disk: Disk, folder: string, maxDepth: nat, depth: nat, r: TreeRow)
    requires depth < maxDepth
    ensures (r in FolderRows(disk, folder, maxDepth, depth) && r.level == depth + 1) <==>
      exists e :: ListedDir(disk, folder, e) && r == DirRow(folder, e, depth)
  {
    if r in FolderRows(disk, folder, maxDepth, depth) && r.level == depth + 1 {
      FolderRowShape(disk, folder, maxDepth, depth, r);
    }
    if exists e :: ListedDir(disk, folder, e) && r == DirRow(folder, e, depth) {
      var e :| ListedDir(disk, folder, e) && r == DirRow(folder, e, depth);
      FolderRowsComplete(disk, folder, maxDepth, depth, e);
    }
  }

  /** The entries that get a row: directories whose names do not start with '.'. */
  function VisibleDirs(entries: seq<Entry>): (ds: seq<Entry>)
    ensures forall d :: d in ds <==> d in entries && IsVisibleDir(d)
  {
    if entries == [] then []
    else
      var e := entries[|entries| - 1];
      assert entries == entries[..|entries| - 1] + [e];
      VisibleDirs(entries[..|entries| - 1]) + (if IsVisibleDir(e) then [e] else [])
  }

  /** At the last level allowed, the walk lists the folder's visible sub-folders in order and goes no deeper. */
  lemma {:induction false} LastLevelWalk(disk: Disk, folder: string, entries: seq<Entry>, maxDepth: nat)
    requires 0 < maxDepth
    ensures EntryRows(disk, folder, entries, maxDepth, maxDepth - 1) ==
      seq(|VisibleDirs(entries)|, k requires 0 <= k < |VisibleDirs(entries)| =>
        DirRow(folder, VisibleDirs(entries)[k], maxDepth - 1))
    decreases |entries|
  {
    if entries != [] {
      LastLevelWalk(disk, folder, entries[..|entries| - 1], maxDepth);
    }
  }

  /** `common_folders` */
  const CommonFolders: seq<string> :=
    ["Documents", "Downloads", "Pictures", "Music", "Videos", "Documentos", "Descargas", "Imágenes", "Música", "Vídeos"]

  /** What one common folder adds: when it exists as a folder under home, its row and a walk limited to `limit`. */
  function CommonSubtree(disk: Disk, home: string, name: string, limit: nat): seq<TreeRow> {
    var path := Join(home, name);
    if disk.pathExists(path) && disk.isDir(path) then [TreeRow(0, FolderIcon, name, path)] + FolderRows(disk, path, limit, 0) else []
  }

  function CommonRows(disk: Disk, home: string, names: seq<string>, limit: nat): seq<TreeRow> {
    if names == [] then []
    else CommonRows(disk, home, names[..|names| - 1], limit) + CommonSubtree(disk, home, names[|names| - 1], limit)
  }

  lemma CommonRowsStep(disk: Disk, home: string, names: seq<string>, i: nat, limit: nat)
    requires i < |names|
    ensures CommonRows(disk, home, names[..i + 1], limit) == CommonRows(disk, home, names[..i], limit) + CommonSubtree(disk, home, names[i], limit)
  {
    assert names[..i + 1][..i] == names[..i];
  }

  /** The whole tree: home and three levels below it, then the common folders. */
  function DialogTree(disk: Disk, home: string): seq<TreeRow> {
    [TreeRow(0, HomeIcon, Basename(home), home)] + FolderRows(disk, home, 3, 0) + CommonRows(disk, home, CommonFolders, 2)
  }

  /**
   * A common folder's rows: at the top, only common folders that exist as
   * folders under home; below them, visible folders of some listing, at
   * most `limit` levels down.
   */
  lemma {:induction false} CommonRowShape(disk: Disk, home: string, names: seq<string>, limit: nat, r: TreeRow)
    requires r in CommonRows(disk, home, names, limit)
    ensures r.icon == FolderIcon && r.level <= limit
    ensures r.level == 0 ==> r.name in names && r.path == Join(home, r.name) && disk.pathExists(r.path) && disk.isDir(r.path)
    ensures r.level > 0 ==> !StartsWith(r.name, ".") && FromListing(disk, r)
    decreases |names|
  {
    var front := names[..|names| - 1];
    var name := names[|names| - 1];
    if r in CommonRows(disk, home, front, limit) {
      CommonRowShape(disk, home, front, limit, r);
      assert r.level == 0 ==> r.name in names by {
        if r.level == 0 {
          var k :| 0 <= k < |front| && front[k] == r.name;
          assert names[k] == r.name;
        }
      }
    } else if r != TreeRow(0, FolderIcon, name, Join(home, name)) {
      FolderRowShape(disk, Join(home, name), limit, 0, r);
    }
  }

  /**
   * The dialog's tree: the home row first, no row deeper than three
   * levels, every row below the top a visible folder of some listing, and
   * the only other top-level rows the common folders that exist under home.
   */
  lemma DialogTreeShape(disk: Disk, home: string, k: nat)
    requires k < |DialogTree(disk, home)|
    ensures k == 0 ==> DialogTree(disk, home)[k] == TreeRow(0, HomeIcon, Basename(home), home)
    ensures k > 0 ==>
      var r := DialogTree(disk, home)[k];
      && r.icon == FolderIcon && r.level <= 3
      && (r.level > 0 ==> !StartsWith(r.name, ".") && FromListing(disk, r))
      && (r.level == 0 ==> r.name in CommonFolders && r.path == Join(home, r.name) && disk.pathExists(r.path) && disk.isDir(r.path))
  {
    var walk := FolderRows(disk, home, 3, 0);
    var common := CommonRows(disk, home, CommonFolders, 2);
    var r := DialogTree(disk, home)[k];
    if 0 < k <= |walk| {
      assert r == walk[k - 1];
      FolderRowShape(disk, home, 3, 0, r);
    } else if k > |walk| {
      assert r == common[k - 1 - |walk|];
      CommonRowShape(disk, home, CommonFolders, 2, r);
    }
  }

  class FolderTree {
    var rows: seq<TreeRow>

    constructor()
      ensures rows == []
    {
      rows := [];
    }

    /** `add_folder_to_tree(parent, folder_path, max_depth, current_depth)`: appends the folder's subtree. */
    method AddFolderToTree(disk: Disk, folder: string, maxDepth: nat, depth: nat)
      modifies this
      ensures rows == old(rows) + FolderRows(disk, folder, maxDepth, depth)
      decreases if depth < maxDepth then maxDepth - depth else 0, 2
    {
      if depth >= maxDepth {
        return;
      }
      var listing := disk.listing(folder);
      if listing.None? {
        return;
      }
      AddEntries(disk, folder, SortByName(listing.value), maxDepth, depth);
    }

    /** The loop of `add_folder_to_tree` over the sorted entries. */
    method AddEntries(disk: Disk, folder: string, entries: seq<Entry>, maxDepth: nat, depth: nat)
      requires depth < maxDepth
      modifies this
      ensures rows == old(rows) + EntryRows(disk, folder, entries, maxDepth, depth)
      decreases maxDepth - depth, 1
    {
      var i := 0;
      while i < |entries|
        invariant 0 <= i <= |entries|
        invariant rows == old(rows) + EntryRows(disk, folder, entries[..i], maxDepth, depth)
      {
        assert entries[..i + 1][..i] == entries[..i];
        assert EntryRows(disk, folder, entries[..i + 1], maxDepth, depth) ==
          EntryRows(disk, folder, entries[..i], maxDepth, depth) + EntrySubtree(disk, folder, entries[i], maxDepth, depth);
        ghost var done := EntryRows(disk, folder, entries[..i], maxDepth, depth);
        AddEntry(disk, folder, entries[i], maxDepth, depth);
        AppendAssociates(old(rows), done, EntrySubtree(disk, folder, entries[i], maxDepth, depth));
        i := i + 1;
      }
      assert entries[..i] == entries;
    }

    /** One pass of the loop in `add_folder_to_tree`. */
    method AddEntry(disk: Disk, folder: string, entry: Entry, maxDepth: nat, depth: nat)
      requires depth < maxDepth
      modifies this
      ensures rows == old(rows) + EntrySubtree(disk, folder, entry, maxDepth, depth)
      decreases maxDepth - depth, 0
    {
      if entry.kind == Directory && !StartsWith(entry.name, ".") {
        var path := Join(folder, entry.name);
        rows := rows + [TreeRow(depth + 1, FolderIcon, entry.name, path)];
        if depth < maxDepth - 1 {
          AddFolderToTree(disk, path, maxDepth, depth + 1);
        }
      }
    }

    /** The store `on_change_folder` fills: home with three levels, then each existing common folder with two. */
    method Populate(disk: Disk, home: string)
      modifies this
      ensures rows == DialogTree(disk, home)
    {
      rows := [TreeRow(0, HomeIcon, Basename(home), home)];
      AddFolderToTree(disk, home, 3, 0);
      AddCommonFolders(disk, home, CommonFolders, 2);
    }

    /** The `for folder_name in common_folders` loop. */
    method AddCommonFolders(disk: Disk, home: string, names: seq<string>, limit: nat)
      modifies this
      ensures rows == old(rows) + CommonRows(disk, home, names, limit)
    {
      var i := 0;
      while i < |names|
        invariant 0 <= i <= |names|
        invariant rows == old(rows) + CommonRows(disk, home, names[..i], limit)
      {
        CommonRowsStep(disk, home, names, i, limit);
        ghost var done := CommonRows(disk, home, names[..i], limit);
        AddCommonFolder(disk, home, names[i], limit);
        AppendAssociates(old(rows), done, CommonSubtree(disk, home, names[i], limit));
        i := i + 1;
      }
      assert names[..i] == names;
    }

    /** One pass of that loop. */
    method AddCommonFolder(disk: Disk, home: string, name: string, limit: nat)
      modifies this
      ensures rows == old(rows) + CommonSubtree(disk, home, name, limit)
    {
      var path := Join(home, name);
      if disk.pathExists(path) && disk.isDir(path) {
        rows := rows + [TreeRow(0, FolderIcon, name, path)];
        AddFolderToTree(disk, path, limit, 0);
      }
    }
  }
}
