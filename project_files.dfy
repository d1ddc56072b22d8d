/** Projection of a project onto a virtual folder for the file explorer: an
    Overview entry, then the optional source-code, live-demo and technologies
    entries, then the project's attached files. */
module ProjectFiles {
  import opened JsStrings
  import opened FileExplorer
  import opened ProjectTypes

  /** The bullet that starts each technology line, exactly as the source file spells it
      (the bytes of U+2022 "•" decoded as Windows-1252). */
  const Bullet: string := "\U{E2}\U{20AC}\U{A2} "
  const TechnologiesHeading: string := "Technologies used:\n\n"

  /** An explorer item with no children and no project metadata. */
  function Leaf(id: string, name: string, kind: ItemType, content: Option<string>, url: Option<string>): (r: FileItem)
    ensures r.items.None?
  {
    FileItem(id, name, kind, content, url, None, None, None, None, None, None)
  }

  function OverviewEntry(p: Project): FileItem {
    Leaf(p.id + "-overview", "Overview", Link, Some(p.description), Or(p.projectUrl, p.githubUrl))
  }

  function SourceCodeEntry(p: Project): FileItem {
    Leaf(p.id + "-github", "source-code.link", Link, Some("View the source code on GitHub"), p.githubUrl)
  }

  function LiveDemoEntry(p: Project): FileItem {
    Leaf(p.id + "-live", "live-demo.link", Link, Some("Open the live demo"), p.projectUrl)
  }

  function BulletLines(technologies: seq<string>): seq<string> {
    seq(|technologies|, i requires 0 <= i < |technologies| => Bullet + technologies[i])
  }

  function TechnologiesText(technologies: seq<string>): string {
    TechnologiesHeading + Join(BulletLines(technologies), "\n")
  }

  function TechnologiesEntry(p: Project): FileItem {
    Leaf(p.id + "-tech", "technologies.txt", Link, Some(TechnologiesText(p.technologies)), None)
  }

  /** An attached file as an explorer item; an empty id is replaced by `<project id>-<name>`. */
  function AttachedEntry(p: Project, f: ProjectFile): FileItem {
    Leaf(if f.id != "" then f.id else p.id + "-" + f.name, f.name, f.kind, f.content, Some(f.url))
  }

  predicate HasLiveDemo(p: Project) {
    Truthy(p.projectUrl) && p.projectUrl != p.githubUrl
  }

  /** The entries built from the project's own fields, in order. */
  function SyntheticEntries(p: Project): seq<FileItem> {
    [OverviewEntry(p)]
    + (if Truthy(p.githubUrl) then [SourceCodeEntry(p)] else [])
    + (if HasLiveDemo(p) then [LiveDemoEntry(p)] else [])
    + (if |p.technologies| > 0 then [TechnologiesEntry(p)] else [])
  }

  function AttachedEntries(p: Project, n: nat): seq<FileItem>
    requires n <= |p.additionalFiles|
  {
    seq(n, i requires 0 <= i < n => AttachedEntry(p, p.additionalFiles[i]))
  }

  lemma AttachedEntriesSnoc(p: Project, i: nat)
    requires i < |p.additionalFiles|
    ensures AttachedEntries(p, i + 1) == AttachedEntries(p, i) + [AttachedEntry(p, p.additionalFiles[i])]
  {
  }

  function FolderItems(p: Project): seq<FileItem> {
    SyntheticEntries(p) + AttachedEntries(p, |p.additionalFiles|)
  }

  /** The folder the explorer shows for a project. */
  function ProjectFolder(p: Project): FileItem {
    FileItem(p.id, p.title, Folder, None, None, Some(FolderItems(p)),
             Some(p.description), p.imageUrl, Some(p.technologies), p.projectUrl, p.githubUrl)
  }

  /** `convertProjectToFileItem`: pushes the entries one by one, then every attached file. */
  method ConvertProjectToFileItem(p: Project) returns (folder: FileItem)
    ensures folder == ProjectFolder(p)
    ensures folder.kind == Folder && folder.items.Some?
  {
    var folderItems: seq<FileItem> := [];
    folderItems := folderItems + [OverviewEntry(p)];
    ghost var pushed := [OverviewEntry(p)];
    if Truthy(p.githubUrl) {
      folderItems := folderItems + [SourceCodeEntry(p)];
    }
    pushed := pushed + (if Truthy(p.githubUrl) then [SourceCodeEntry(p)] else []);
    assert folderItems == pushed;
    if Truthy(p.projectUrl) && p.projectUrl != p.githubUrl {
      folderItems := folderItems + [LiveDemoEntry(p)];
    }
    pushed := pushed + (if HasLiveDemo(p) then [LiveDemoEntry(p)] else []);
    assert folderItems == pushed;
    if |p.technologies| > 0 {
      folderItems := folderItems + [TechnologiesEntry(p)];
    }
    pushed := pushed + (if |p.technologies| > 0 then [TechnologiesEntry(p)] else []);
    assert folderItems == pushed;
    ghost var synthetic := folderItems;
    assert synthetic == SyntheticEntries(p);
    if |p.additionalFiles| > 0 {
      for i := 0 to |p.additionalFiles|
        invariant folderItems == synthetic + AttachedEntries(p, i)
      {
        var file := p.additionalFiles[i];
        AttachedEntriesSnoc(p, i);
        folderItems := folderItems + [AttachedEntry(p, file)];
        assert folderItems == synthetic + (AttachedEntries(p, i) + [AttachedEntry(p, file)]);
      }
    } else {
      assert AttachedEntries(p, 0) == [];
    }
    assert folderItems == FolderItems(p);
    folder := FileItem(p.id, p.title, Folder, None, None, Some(folderItems),
                       Some(p.description), p.imageUrl, Some(p.technologies), p.projectUrl, p.githubUrl);
  }

  /** The first item is the Overview link: its content is the description and its url
      the live url when that is set and non-empty, the GitHub url otherwise. */
  lemma OverviewFirst(p: Project)
    ensures |FolderItems(p)| > 0
    ensures FolderItems(p)[0].id == p.id + "-overview"
    ensures FolderItems(p)[0].name == "Overview" && FolderItems(p)[0].kind == Link
    ensures FolderItems(p)[0].content == Some(p.description)
    ensures FolderItems(p)[0].url == if Truthy(p.projectUrl) then p.projectUrl else p.githubUrl
  {
  }

  /** A string extended by two different suffixes gives two different strings. */
  lemma SuffixesDiffer(base: string, a: string, b: string)
    requires a != b
    ensures base + a != base + b
  {
    assert (base + a)[|base|..] == a;
    assert (base + b)[|base|..] == b;
  }

  function Indicator(b: bool): nat {
    if b then 1 else 0
  }

  /** The source-code entry is present exactly when the GitHub url is set and non-empty,
      and it links to that url. */
  lemma {:induction false} SourceCodePresentIff(p: Project)
    ensures SourceCodeEntry(p) in SyntheticEntries(p) <==> Truthy(p.githubUrl)
    ensures SourceCodeEntry(p).url == p.githubUrl
  {
    var e := SourceCodeEntry(p);
    assert e.name[0] == 's';
    assert OverviewEntry(p).name[0] == 'O';
    assert LiveDemoEntry(p).name[0] == 'l';
    assert TechnologiesEntry(p).name[0] == 't';
  }

  /** The live-demo entry is present exactly when the live url is set, non-empty and
      differs from the GitHub url, and it links to the live url. */
  lemma {:induction false} LiveDemoPresentIff(p: Project)
    ensures LiveDemoEntry(p) in SyntheticEntries(p) <==> Truthy(p.projectUrl) && p.projectUrl != p.githubUrl
    ensures LiveDemoEntry(p).url == p.projectUrl
  {
    var e := LiveDemoEntry(p);
    assert e.name[0] == 'l';
    assert OverviewEntry(p).name[0] == 'O';
    assert SourceCodeEntry(p).name[0] == 's';
    assert TechnologiesEntry(p).name[0] == 't';
  }

  /** The technologies entry is present exactly when the project lists technologies. */
  lemma {:induction false} TechnologiesPresentIff(p: Project)
    ensures TechnologiesEntry(p) in SyntheticEntries(p) <==> |p.technologies| > 0
  {
    var e := TechnologiesEntry(p);
    assert e.name[0] == 't';
    assert OverviewEntry(p).name[0] == 'O';
    assert SourceCodeEntry(p).name[0] == 's';
    assert LiveDemoEntry(p).name[0] == 'l';
  }

  /** The item count: the Overview, one per optional entry present, one per attached file. */
  lemma ItemCount(p: Project)
    ensures |FolderItems(p)| == 1 + Indicator(Truthy(p.githubUrl)) + Indicator(HasLiveDemo(p))
                                  + Indicator(|p.technologies| > 0) + |p.additionalFiles|
  {
  }

  /** No two synthetic entries share an id. */
  lemma {:induction false} SyntheticIdsDistinct(p: Project)
    ensures forall i, j :: 0 <= i < j < |SyntheticEntries(p)| ==>
              SyntheticEntries(p)[i].id != SyntheticEntries(p)[j].id
  {
    var suffixes := ["-overview", "-github", "-live", "-tech"];
    forall a, b | 0 <= a < b < 4 ensures p.id + suffixes[a] != p.id + suffixes[b] {
      assert suffixes[a][1] != suffixes[b][1];
      SuffixesDiffer(p.id, suffixes[a], suffixes[b]);
    }
    assert OverviewEntry(p).id == p.id + suffixes[0];
    assert SourceCodeEntry(p).id == p.id + suffixes[1];
    assert LiveDemoEntry(p).id == p.id + suffixes[2];
    assert TechnologiesEntry(p).id == p.id + suffixes[3];
  }

  /** The attached files follow the synthetic entries, one item each in their own order,
      with name, type, content and url copied and the id defaulted when empty. */
  lemma AttachedFilesFollow(p: Project, i: nat)
    requires i < |p.additionalFiles|
    ensures |SyntheticEntries(p)| + i < |FolderItems(p)|
    ensures var item := FolderItems(p)[|SyntheticEntries(p)| + i];
            var f := p.additionalFiles[i];
            && item.id == (if f.id != "" then f.id else p.id + "-" + f.name)
            && item.name == f.name && item.kind == f.kind
            && item.content == f.content && item.url == Some(f.url)
            && item.items.None?
  {
  }

  /** The folder carries the project's id, title and metadata unchanged. */
  lemma ProjectFolderShape(p: Project)
    ensures var folder := ProjectFolder(p);
            && folder.id == p.id && folder.name == p.title && folder.kind == Folder
            && folder.items == Some(FolderItems(p))
            && folder.description == Some(p.description) && folder.imageUrl == p.imageUrl
            && folder.technologies == Some(p.technologies)
            && folder.projectUrl == p.projectUrl && folder.githubUrl == p.githubUrl
  {
  }

  /** Every item of a project folder is a leaf, and the folder is well formed. */
  lemma ProjectFolderWellFormed(p: Project)
    ensures WellFormed(ProjectFolder(p))
    ensures forall k :: 0 <= k < |FolderItems(p)| ==> IsLeaf(FolderItems(p)[k]) && WellFormed(FolderItems(p)[k])
  {
    forall k | 0 <= k < |FolderItems(p)| ensures IsLeaf(FolderItems(p)[k]) {
      if k >= |SyntheticEntries(p)| {
        var i := k - |SyntheticEntries(p)|;
        assert FolderItems(p)[k] == AttachedEntry(p, p.additionalFiles[i]);
      }
    }
  }

  lemma JoinTwoFirst(a: string, b: string, rest: seq<string>, sep: string)
    requires |rest| > 0
    ensures Join([a, b] + rest, sep) == a + sep + b + sep + Join(rest, sep)
  {
    assert [a, b] + rest == [a] + ([b] + rest);
    JoinCons(b, rest, sep);
    JoinCons(a, [b] + rest, sep);
  }

  /** When no technology contains a line break, the technologies file reads as the
      heading line, an empty line, then one bulleted line per technology in order. */
  lemma {:induction false} TechnologiesLines(technologies: seq<string>)
    requires |technologies| > 0
    requires forall i :: 0 <= i < |technologies| ==> '\n' !in technologies[i]
    ensures Split(TechnologiesText(technologies), "\n")
              == ["Technologies used:", ""] + BulletLines(technologies)
    ensures forall i :: 0 <= i < |technologies| ==> BulletLines(technologies)[i] == Bullet + technologies[i]
  {
    var lines := ["Technologies used:", ""] + BulletLines(technologies);
    JoinTwoFirst("Technologies used:", "", BulletLines(technologies), "\n");
    assert Join(lines, "\n") == TechnologiesText(technologies);
    forall k | 0 <= k < |lines| ensures '\n' !in lines[k] {
      if k >= 2 {
        assert lines[k] == Bullet + technologies[k - 2];
      }
    }
    SplitJoin(lines, '\n');
  }

  /** Entering a project folder selects its Overview entry, which the explorer
      shows in the rich overview pane. */
  lemma EnteringProjectShowsOverview(p: Project)
    ensures FirstChild(ProjectFolder(p)) == Some(OverviewEntry(p))
    ensures PreviewOf(FirstChild(ProjectFolder(p))) == OverviewPane
  {
  }

  /** `createCertificateFile` */
  function CreateCertificateFile(id: string, name: string, description: string, pdfUrl: string): (r: FileItem)
    ensures IsLeaf(r) && WellFormed(r)
    ensures r.id == id && r.name == name && r.kind == Certificate
    ensures r.content == Some(description) && r.url == Some(pdfUrl)
  {
    Leaf(id, name, Certificate, Some(description), Some(pdfUrl))
  }

  /** `createFile` */
  function CreateFile(id: string, name: string, kind: AttachmentType, url: string, content: Option<string>): (r: FileItem)
    ensures IsLeaf(r) && WellFormed(r)
    ensures r.id == id && r.name == name && r.kind == kind
    ensures r.url == Some(url) && r.content == content
  {
    Leaf(id, name, kind, content, Some(url))
  }
}
