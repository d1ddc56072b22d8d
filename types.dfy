/** The content records the client works with: projects with their attached
    files, and skills. */
module ProjectTypes {
  import opened JsStrings
  import FileExplorer

  /** The kinds an attached file may have: every explorer item type but folder. */
  type AttachmentType = t: FileExplorer.ItemType | t != FileExplorer.Folder witness FileExplorer.Link

  /** A file attached to a project in the admin dashboard. */
  datatype ProjectFile = ProjectFile(
    id: string,
    name: string,
    kind: AttachmentType,
    url: string,
    content: Option<string>)

  /** A portfolio project.  `technologies` and `additionalFiles` stand for absent
      lists by the empty list, which every use treats alike. */
  datatype Project = Project(
    id: string,
    title: string,
    description: string,
    technologies: seq<string>,
    imageUrl: Option<string>,
    projectUrl: Option<string>,
    githubUrl: Option<string>,
    featured: bool,
    additionalFiles: seq<ProjectFile>,
    order: int)

  datatype Category = Frontend | Backend | DevOps | UIUX | AI

  datatype Skill = Skill(
    id: string,
    name: string,
    category: Category,
    icon: string,
    order: int)

  /** `skills.filter(s => s.category === c)` */
  function OfCategory(skills: seq<Skill>, c: Category): (r: seq<Skill>)
    ensures |r| <= |skills|
    ensures forall k :: 0 <= k < |r| ==> r[k].category == c
  {
    if skills == [] then []
    else
      var rest := OfCategory(skills[1..], c);
      if skills[0].category == c then
        assert forall k :: 1 <= k <= |rest| ==> ([skills[0]] + rest)[k] == rest[k - 1];
        [skills[0]] + rest
      else rest
  }

  /** The filter keeps exactly the skills of category `c`. */
  lemma {:induction false} OfCategoryMembers(skills: seq<Skill>, c: Category)
    ensures forall s :: s in OfCategory(skills, c) <==> s in skills && s.category == c
  {
    if skills != [] {
      OfCategoryMembers(skills[1..], c);
      assert forall s :: s in skills <==> s == skills[0] || s in skills[1..];
    }
  }

  /** The filter distributes over concatenation, so it keeps the input order. */
  lemma {:induction false} OfCategoryAppend(a: seq<Skill>, b: seq<Skill>, c: Category)
    ensures OfCategory(a + b, c) == OfCategory(a, c) + OfCategory(b, c)
  {
    if a == [] {
      assert a + b == b;
    } else {
      assert (a + b)[0] == a[0];
      assert (a + b)[1..] == a[1..] + b;
      OfCategoryAppend(a[1..], b, c);
    }
  }
}
