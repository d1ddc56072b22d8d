/** The retro file explorer: a tree of `FileItem`s, a path of folder ids from the
    root, and the selected item.  Clicks, "back" and "home" replace the path and
    the selection; the visible directory is found by walking the path. */
module FileExplorer {
  import opened JsStrings

  datatype ItemType = Folder | Image | Pdf | Link | Certificate

  /** A node of the explorer tree.  `items` is present on folders; the last five
      fields are project metadata carried by project folders for the Overview pane. */
  datatype FileItem = FileItem(
    id: string,
    name: string,
    kind: ItemType,
    content: Option<string>,
    url: Option<string>,
    items: Option<seq<FileItem>>,
    description: Option<string>,
    imageUrl: Option<string>,
    technologies: Option<seq<string>>,
    projectUrl: Option<string>,
    githubUrl: Option<string>)

  /** Only folders carry child items. */
  predicate WellFormed(item: FileItem) {
    item.items.Some? ==> item.kind == Folder
  }

  /** A leaf: a file that carries no child items. */
  predicate IsLeaf(item: FileItem) {
    item.kind != Folder && item.items.None?
  }

  predicate IsFolderWithId(item: FileItem, id: string) {
    item.id == id && item.kind == Folder
  }

  /** `level.find(item => item.id === id && item.type === 'folder')` */
  function Find(level: seq<FileItem>, id: string): (r: Option<FileItem>)
    ensures r.None? <==> forall k :: 0 <= k < |level| ==> !IsFolderWithId(level[k], id)
    ensures r.Some? ==> exists k :: 0 <= k < |level| && level[k] == r.value
                          && IsFolderWithId(level[k], id)
                          && forall j :: 0 <= j < k ==> !IsFolderWithId(level[j], id)
  {
    if level == [] then None
    else if IsFolderWithId(level[0], id) then Some(level[0])
    else
      var r := Find(level[1..], id);
      assert forall k :: 1 <= k < |level| ==> level[1..][k - 1] == level[k];
      r
  }

  /** One step of the walk: descend into the matched folder when it has items. */
  function Step(level: seq<FileItem>, segment: string): seq<FileItem> {
    match Find(level, segment)
    case Some(f) => if f.items.Some? then f.items.value else level
    case None => level
  }

  /** The items shown for `path`: the walk from the root items, one segment at a time. */
  function ItemsAt(roots: seq<FileItem>, path: seq<string>): seq<FileItem>
    decreases |path|
  {
    if path == [] then roots
    else Step(ItemsAt(roots, path[..|path| - 1]), path[|path| - 1])
  }

  /** The folder for `path`: the last folder some segment matched, with or without items. */
  function FolderAt(roots: seq<FileItem>, path: seq<string>): Option<FileItem>
    decreases |path|
  {
    if path == [] then None
    else
      match Find(ItemsAt(roots, path[..|path| - 1]), path[|path| - 1])
      case Some(f) => Some(f)
      case None => FolderAt(roots, path[..|path| - 1])
  }

  /** One more segment: the walk over `u + [x]` is one step after the walk over `u`. */
  lemma WalkSnoc(roots: seq<FileItem>, u: seq<string>, x: string)
    ensures ItemsAt(roots, u + [x]) == Step(ItemsAt(roots, u), x)
    ensures FolderAt(roots, u + [x]) ==
              match Find(ItemsAt(roots, u), x)
              case Some(f) => Some(f)
              case None => FolderAt(roots, u)
  {
    assert (u + [x])[..|u|] == u;
  }

  lemma AppendLast(a: seq<string>, b: seq<string>, x: string)
    ensures a + (b + [x]) == (a + b) + [x]
  {
  }

  /** Two paths whose walks end alike still end alike after one more segment. */
  lemma SameWalkExtended(roots: seq<FileItem>, u: seq<string>, v: seq<string>, x: string)
    requires ItemsAt(roots, u) == ItemsAt(roots, v) && FolderAt(roots, u) == FolderAt(roots, v)
    ensures ItemsAt(roots, u + [x]) == ItemsAt(roots, v + [x])
    ensures FolderAt(roots, u + [x]) == FolderAt(roots, v + [x])
  {
    WalkSnoc(roots, u, x);
    WalkSnoc(roots, v, x);
  }

  /** A segment that names no folder at its level is skipped: the walk over
      `p + [s] + q` ends where the walk over `p + q` ends, for items and folder alike. */
  lemma {:induction false} UnresolvedSegmentSkipped(roots: seq<FileItem>, p: seq<string>, s: string, q: seq<string>)
    requires Find(ItemsAt(roots, p), s).None?
    ensures ItemsAt(roots, p + [s] + q) == ItemsAt(roots, p + q)
    ensures FolderAt(roots, p + [s] + q) == FolderAt(roots, p + q)
    decreases |q|
  {
    if q == [] {
      assert p + [s] + q == p + [s];
      assert p + q == p;
      WalkSnoc(roots, p, s);
    } else {
      var q' := q[..|q| - 1];
      var x := q[|q| - 1];
      UnresolvedSegmentSkipped(roots, p, s, q');
      assert q == q' + [x];
      AppendLast(p + [s], q', x);
      AppendLast(p, q', x);
      var with, without := p + [s] + q', p + q';
      assert p + [s] + q == with + [x] && p + q == without + [x];
      SameWalkExtended(roots, with, without, x);
    }
  }

  /** What `getCurrentItems` and `getCurrentFolder` agree on: with no folder matched
      the items are the root items, and when the last matched folder has items,
      those are the items shown. */
  lemma {:induction false} CurrentFolderMatchesItems(roots: seq<FileItem>, path: seq<string>)
    ensures FolderAt(roots, path).None? ==> ItemsAt(roots, path) == roots
    ensures FolderAt(roots, path).Some? && FolderAt(roots, path).value.items.Some? ==>
              ItemsAt(roots, path) == FolderAt(roots, path).value.items.value
    ensures FolderAt(roots, path).Some? ==> FolderAt(roots, path).value.kind == Folder
    decreases |path|
  {
    if path != [] {
      CurrentFolderMatchesItems(roots, path[..|path| - 1]);
    }
  }

  /** Entering a folder that is the first folder with its id at the current level
      makes it the current folder and shows its items (or keeps the level when it has none). */
  lemma EnterFolder(roots: seq<FileItem>, path: seq<string>, f: FileItem)
    requires Find(ItemsAt(roots, path), f.id) == Some(f)
    ensures FolderAt(roots, path + [f.id]) == Some(f)
    ensures ItemsAt(roots, path + [f.id]) ==
              if f.items.Some? then f.items.value else ItemsAt(roots, path)
  {
    assert (path + [f.id])[..|path|] == path;
  }

  /** The item selected on entering `folder`: its first child, if any. */
  function FirstChild(folder: FileItem): (r: Option<FileItem>)
    ensures r.Some? <==> folder.items.Some? && |folder.items.value| > 0
    ensures r.Some? ==> r.value == folder.items.value[0]
  {
    if folder.items.Some? && |folder.items.value| > 0 then Some(folder.items.value[0]) else None
  }

  /** The right-hand pane of the split view. */
  datatype Preview =
    | Placeholder     // nothing selected: "Select a file to preview"
    | OverviewPane    // project image, description, technologies, GitHub and live links
    | LinkPane        // content (or "No description available.") and an "Open Link" anchor
    | ImagePane       // the image, or "Image URL not available", and the content
    | DocumentPane    // pdf or certificate: content and a "View" link, or "File URL not available"
    | TitleOnly       // a selected folder: only its name

  predicate IsOverview(item: FileItem) {
    item.kind == Link && item.name == "Overview"
  }

  function PreviewOf(selected: Option<FileItem>): (r: Preview)
    ensures r == Placeholder <==> selected.None?
    ensures selected.Some? ==> (r == OverviewPane <==> IsOverview(selected.value))
    ensures selected.Some? && selected.value.kind == Link ==> r in {OverviewPane, LinkPane}
  {
    match selected
    case None => Placeholder
    case Some(item) =>
      match item.kind
      case Link => if item.name == "Overview" then OverviewPane else LinkPane
      case Image => ImagePane
      case Pdf => DocumentPane
      case Certificate => DocumentPane
      case Folder => TitleOnly
  }

  /** What the explorer draws: at the root a grid of the root items and no preview;
      inside a folder its name, the current items and the preview. */
  datatype Screen =
    | Grid(entries: seq<FileItem>)
    | SplitView(title: string, entries: seq<FileItem>, preview: Preview)

  class Explorer {
    const roots: seq<FileItem>
    var currentPath: seq<string>
    var selected: Option<FileItem>

    constructor (items: seq<FileItem>)
      ensures roots == items && currentPath == [] && selected == None
    {
      roots := items;
      currentPath := [];
      selected := None;
    }

    /** `getCurrentItems` */
    method GetCurrentItems() returns (current: seq<FileItem>)
      ensures current == ItemsAt(roots, currentPath)
      ensures currentPath == [] ==> current == roots
    {
      current := roots;
      for i := 0 to |currentPath|
        invariant current == ItemsAt(roots, currentPath[..i])
      {
        assert currentPath[..i + 1][..i] == currentPath[..i];
        var folder := Find(current, currentPath[i]);
        if folder.Some? && folder.value.items.Some? {
          current := folder.value.items.value;
        }
      }
      assert currentPath[..|currentPath|] == currentPath;
    }

    /** `getCurrentFolder` */
    method GetCurrentFolder() returns (currentFolder: Option<FileItem>)
      ensures currentFolder == FolderAt(roots, currentPath)
      ensures currentPath == [] ==> currentFolder == None
    {
      if |currentPath| == 0 {
        return None;
      }
      var current := roots;
      currentFolder := None;
      for i := 0 to |currentPath|
        invariant current == ItemsAt(roots, currentPath[..i])
        invariant currentFolder == FolderAt(roots, currentPath[..i])
      {
        assert currentPath[..i + 1][..i] == currentPath[..i];
        var folder := Find(current, currentPath[i]);
        if folder.Some? {
          currentFolder := folder;
          if folder.value.items.Some? {
            current := folder.value.items.value;
          }
        }
      }
      assert currentPath[..|currentPath|] == currentPath;
    }

    /** `handleItemClick`: a folder is entered (at the root and inside a folder alike)
        and its first child selected; any other item is selected in place. */
    method HandleItemClick(item: FileItem)
      modifies this
      ensures item.kind == Folder ==>
                currentPath == old(currentPath) + [item.id] && selected == FirstChild(item)
      ensures item.kind != Folder ==>
                currentPath == old(currentPath) && selected == Some(item)
    {
      if |currentPath| == 0 && item.kind == Folder {
        currentPath := [item.id];
        if item.items.Some? && |item.items.value| > 0 {
          selected := Some(item.items.value[0]);
        } else {
          selected := None;
        }
      } else if item.kind == Folder {
        currentPath := currentPath + [item.id];
        if item.items.Some? && |item.items.value| > 0 {
          selected := Some(item.items.value[0]);
        } else {
          selected := None;
        }
      } else {
        selected := Some(item);
      }
    }

    /** `handleBack` */
    method HandleBack()
      modifies this
      ensures |old(currentPath)| > 0 ==>
                currentPath == old(currentPath)[..|old(currentPath)| - 1] && selected == None
      ensures |old(currentPath)| == 0 ==>
                currentPath == old(currentPath) && selected == old(selected)
    {
      if |currentPath| > 0 {
        currentPath := currentPath[..|currentPath| - 1];
        selected := None;
      }
    }

    /** `handleHome`: back to the root with nothing selected, whatever the state
        (so a second call changes nothing). */
    method HandleHome()
      modifies this
      ensures currentPath == [] && selected == None
    {
      currentPath := [];
      selected := None;
    }

    /** The rendered screen for the current state. */
    function View(): (s: Screen)
      reads this
      ensures s.Grid? <==> currentPath == []
      ensures s.Grid? ==> s.entries == roots
      ensures s.SplitView? ==> (s.entries == ItemsAt(roots, currentPath)
                                && s.preview == PreviewOf(selected))
    {
      if currentPath == [] then Grid(ItemsAt(roots, currentPath))
      else
        var folder := FolderAt(roots, currentPath);
        SplitView(if folder.Some? then folder.value.name else "",
                  ItemsAt(roots, currentPath), PreviewOf(selected))
    }
  }
}
