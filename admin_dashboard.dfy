/** The admin dashboard's editing helpers: the formatting toolbar of the About
    editor, the comma-separated technologies field, the next order of a skill
    category, and the handlers that edit attached files, skills and messages. */
module AdminDashboard {
  import opened JsStrings
  import opened ProjectTypes
  import FileExplorer
  import BioMarkup

  // ---- the formatting toolbar ----

  /** `selectedText || placeholder` for the selection `text.substring(start, end)`. */
  function SelectionOr(text: string, start: int, end: int, placeholder: string): string {
    var selected := Substring(text, start, end);
    if selected != "" then selected else placeholder
  }

  /** The bold, italic and header buttons: the selection replaced by `open`, the
      selected text (or the placeholder) and `close`. */
  function Wrap(text: string, start: int, end: int, open: string, close: string, placeholder: string): string {
    Substring(text, 0, start) + open + SelectionOr(text, start, end, placeholder) + close + SubstringFrom(text, end)
  }

  /** The link, bullet and paragraph buttons: `snippet` inserted at the caret. */
  function InsertAt(text: string, start: int, snippet: string): string {
    Substring(text, 0, start) + snippet + SubstringFrom(text, start)
  }

  function BoldButton(text: string, start: int, end: int): string {
    Wrap(text, start, end, "**", "**", "bold text")
  }

  function ItalicButton(text: string, start: int, end: int): string {
    Wrap(text, start, end, "*", "*", "italic text")
  }

  function HeaderButton(text: string, start: int, end: int): string {
    Wrap(text, start, end, "# ", "", "Header")
  }

  const LinkLabel := "link text"

  const LinkUrl := "https://example.com"

  /** The inserted snippet `[link text](https://example.com)`, written by its parts. */
  const LinkSnippetText := "[" + LinkLabel + "](" + LinkUrl + ")"

  function LinkButton(text: string, start: int): string {
    InsertAt(text, start, LinkSnippetText)
  }

  function BulletButton(text: string, start: int): string {
    InsertAt(text, start, "- List item\n")
  }

  function ParagraphButton(text: string, start: int): string {
    InsertAt(text, start, "\n\n")
  }

  /** A wrapping button rewrites exactly the selection: the text before `start`
      and from `end` on is kept, and in between stand the markers around the
      selection, or around the placeholder when the selection is empty. */
  lemma WrapEdit(text: string, start: int, end: int, open: string, close: string, placeholder: string)
    requires 0 <= start <= end <= |text|
    ensures var middle := if start < end then text[start..end] else placeholder;
            Wrap(text, start, end, open, close, placeholder)
              == text[..start] + open + middle + close + text[end..]
  {
  }

  /** An inserting button keeps the whole text and puts the snippet at the caret. */
  lemma InsertEdit(text: string, start: int, snippet: string)
    requires 0 <= start <= |text|
    ensures InsertAt(text, start, snippet) == text[..start] + snippet + text[start..]
    ensures InsertAt(text, start, snippet)[..start] == text[..start]
  {
  }

  /** Bold applied to the whole of a non-empty text without `*` renders as that text in bold. */
  lemma BoldButtonRenders(s: string)
    requires s != "" && '*' !in s
    ensures BioMarkup.InlineFormatting(BoldButton(s, 0, |s|)) == BioMarkup.Parts([BioMarkup.Bold(s)])
  {
    WrapEdit(s, 0, |s|, "**", "**", "bold text");
    assert s[..0] == [] && s[|s|..] == [] && s[0..|s|] == s;
    assert BoldButton(s, 0, |s|) == "**" + s + "**";
    BioMarkup.BoldAlone(s);
  }

  /** Bold on an empty editor renders as the bold placeholder. */
  lemma BoldPlaceholderRenders()
    ensures BioMarkup.InlineFormatting(BoldButton("", 0, 0)) == BioMarkup.Parts([BioMarkup.Bold("bold text")])
  {
    WrapEdit("", 0, 0, "**", "**", "bold text");
    assert BoldButton("", 0, 0) == "**" + "bold text" + "**";
    BioMarkup.BoldAlone("bold text");
  }

  /** Italic applied to the whole of a non-empty text without `*` renders as that text in italics. */
  lemma ItalicButtonRenders(s: string)
    requires s != "" && '*' !in s
    ensures BioMarkup.InlineFormatting(ItalicButton(s, 0, |s|)) == BioMarkup.Parts([BioMarkup.Italic(s)])
  {
    WrapEdit(s, 0, |s|, "*", "*", "italic text");
    assert s[..0] == [] && s[|s|..] == [] && s[0..|s|] == s;
    assert ItalicButton(s, 0, |s|) == "*" + s + "*";
    BioMarkup.ItalicAlone(s);
  }

  /** Italic on an empty editor renders as the italic placeholder. */
  lemma ItalicPlaceholderRenders()
    ensures BioMarkup.InlineFormatting(ItalicButton("", 0, 0)) == BioMarkup.Parts([BioMarkup.Italic("italic text")])
  {
    WrapEdit("", 0, 0, "*", "*", "italic text");
    assert ItalicButton("", 0, 0) == "*" + "italic text" + "*";
    BioMarkup.ItalicAlone("italic text");
  }

  /** The link button on an empty editor inserts the placeholder link, which renders as a link. */
  lemma LinkButtonRenders()
    ensures BioMarkup.InlineFormatting(LinkButton("", 0))
              == BioMarkup.Parts([BioMarkup.Link(LinkLabel, LinkUrl)])
  {
    InsertEdit("", 0, LinkSnippetText);
    assert LinkButton("", 0) == LinkSnippetText;
    assert ']' !in LinkLabel && ')' !in LinkUrl;
    BioMarkup.LinkAlone(LinkLabel, LinkUrl);
  }

  /** The bold button's markers are read back by the parser at the caret: at `start`
      the parser matches exactly the wrapped selection (or placeholder) in bold. */
  lemma BoldButtonMatchesAtCaret(text: string, start: int, end: int)
    requires 0 <= start <= end <= |text|
    requires '*' !in text[start..end]
    ensures var middle := if start < end then text[start..end] else "bold text";
            BioMarkup.MatchAt(BoldButton(text, start, end), start) == Some(BioMarkup.Bold(middle))
  {
    var middle := if start < end then text[start..end] else "bold text";
    var r := BoldButton(text, start, end);
    WrapFromCaret(text, start, end, "**", "**", "bold text");
    assert '*' !in middle by {
      if start == end {
        assert middle == "bold text";
      }
    }
    assert BioMarkup.IsBoldAt(r, start, middle);
    BioMarkup.MatchPriority(r, start);
  }

  /** From the caret on, a wrapped text reads the markers around the selection. */
  lemma WrapFromCaret(text: string, start: int, end: int, open: string, close: string, placeholder: string)
    requires 0 <= start <= end <= |text|
    ensures var middle := if start < end then text[start..end] else placeholder;
            Wrap(text, start, end, open, close, placeholder)[start..]
              == open + middle + close + text[end..]
  {
    var middle := if start < end then text[start..end] else placeholder;
    var rest := open + middle + close + text[end..];
    WrapEdit(text, start, end, open, close, placeholder);
    ConcatRegroup(text[..start], open, middle, close, text[end..]);
    DropPrefix(text[..start], rest);
  }

  lemma ConcatRegroup(a: string, b: string, c: string, d: string, e: string)
    ensures a + b + c + d + e == a + (b + c + d + e)
  {
  }

  lemma DropPrefix(a: string, b: string)
    ensures (a + b)[|a|..] == b
  {
  }

  // ---- the technologies field ----

  /** `xs.map(t => t.trim())` */
  function TrimAll(xs: seq<string>): (r: seq<string>)
    ensures |r| == |xs|
    ensures forall k :: 0 <= k < |xs| ==> r[k] == Trim(xs[k])
  {
    if xs == [] then [] else [Trim(xs[0])] + TrimAll(xs[1..])
  }

  /** `xs.filter(Boolean)`: the non-empty strings, in order. */
  function NonEmpty(xs: seq<string>): (r: seq<string>)
    ensures |r| <= |xs|
    ensures forall k :: 0 <= k < |r| ==> r[k] != ""
    ensures forall x :: x in r <==> x in xs && x != ""
  {
    if xs == [] then []
    else
      var rest := NonEmpty(xs[1..]);
      assert forall x :: x in xs <==> x == xs[0] || x in xs[1..];
      if xs[0] != "" then
        assert forall k :: 1 <= k <= |rest| ==> ([xs[0]] + rest)[k] == rest[k - 1];
        [xs[0]] + rest
      else rest
  }

  /** `field.split(',').map(t => t.trim()).filter(Boolean)` */
  function ParseTechnologies(field: string): seq<string> {
    NonEmpty(TrimAll(Split(field, ",")))
  }

  /** What the edit form shows: `technologies.join(', ')`. */
  function ShowTechnologies(ts: seq<string>): string {
    Join(ts, ", ")
  }

  /** A technology the field can carry unchanged: non-empty, trimmed, without a comma. */
  predicate IsTechnology(t: string) {
    t != "" && IsTrimmed(t) && ',' !in t
  }

  /** `xs.map(x => " " + x)` */
  function Spaced(xs: seq<string>): (r: seq<string>)
    ensures |r| == |xs|
    ensures forall k :: 0 <= k < |xs| ==> r[k] == " " + xs[k]
  {
    if xs == [] then [] else [" " + xs[0]] + Spaced(xs[1..])
  }

  lemma JoinHeadSpace(b: string, rest: seq<string>, sep: string)
    ensures Join([" " + b] + rest, sep) == " " + Join([b] + rest, sep)
  {
    assert ([" " + b] + rest)[1..] == rest == ([b] + rest)[1..];
  }

  /** Joining with `", "` is joining with `","` after putting a space before every
      string but the first. */
  lemma {:induction false} JoinCommaSpace(xs: seq<string>)
    requires |xs| >= 1
    ensures Join(xs, ", ") == Join([xs[0]] + Spaced(xs[1..]), ",")
    decreases |xs|
  {
    if |xs| >= 2 {
      var tail := xs[1..];
      JoinCommaSpace(tail);
      assert tail[0] == xs[1] && tail[1..] == xs[2..];
      assert Spaced(tail) == [" " + xs[1]] + Spaced(xs[2..]);
      JoinHeadSpace(xs[1], Spaced(xs[2..]), ",");
      assert ([xs[0]] + Spaced(tail))[1..] == Spaced(tail);
    } else {
      assert Spaced(xs[1..]) == [];
      assert [xs[0]] + [] == [xs[0]];
    }
  }

  lemma SpacedAt(ts: seq<string>, k: int)
    requires 1 <= k < |ts|
    ensures ([ts[0]] + Spaced(ts[1..]))[k] == " " + ts[k]
  {
    assert ([ts[0]] + Spaced(ts[1..]))[k] == Spaced(ts[1..])[k - 1];
  }

  /** Trimming the pieces of a comma-free list gives back the list. */
  lemma {:induction false} TrimSpacedPieces(ts: seq<string>)
    requires |ts| >= 1 && forall k :: 0 <= k < |ts| ==> IsTechnology(ts[k])
    ensures TrimAll([ts[0]] + Spaced(ts[1..])) == ts
  {
    var q := [ts[0]] + Spaced(ts[1..]);
    assert |q| == |ts|;
    forall k | 0 <= k < |ts| ensures Trim(q[k]) == ts[k] {
      assert IsTechnology(ts[k]);
      if k == 0 {
        assert q[0] == ts[0];
        TrimIdempotent(ts[0]);
      } else {
        SpacedAt(ts, k);
        assert q[k] == " " + ts[k];
        TrimLeadingSpace(ts[k]);
      }
    }
    TrimAllPointwise(q, ts);
  }

  lemma TrimAllPointwise(xs: seq<string>, ys: seq<string>)
    requires |xs| == |ys| && forall k :: 0 <= k < |xs| ==> Trim(xs[k]) == ys[k]
    ensures TrimAll(xs) == ys
  {
  }

  /** Opening a project for editing and saving it without touching the field keeps
      its technologies, as long as each is non-empty, trimmed and comma-free. */
  lemma TechnologiesRoundTrip(ts: seq<string>)
    requires forall k :: 0 <= k < |ts| ==> IsTechnology(ts[k])
    ensures ParseTechnologies(ShowTechnologies(ts)) == ts
  {
    if ts == [] {
      assert Split("", ",") == [""] by {
        assert IndexOf("", ",") == -1;
      }
      assert TrimAll([""]) == [""];
    } else {
      var q := [ts[0]] + Spaced(ts[1..]);
      JoinCommaSpace(ts);
      forall k | 0 <= k < |q| ensures ',' !in q[k] {
        if k > 0 {
          SpacedAt(ts, k);
        }
      }
      SplitJoin(q, ',');
      TrimSpacedPieces(ts);
      assert NonEmpty(ts) == ts by {
        NonEmptyKeepsAll(ts);
      }
    }
  }

  lemma {:induction false} NonEmptyKeepsAll(xs: seq<string>)
    requires forall k :: 0 <= k < |xs| ==> xs[k] != ""
    ensures NonEmpty(xs) == xs
  {
    if xs != [] {
      NonEmptyKeepsAll(xs[1..]);
      assert [xs[0]] + xs[1..] == xs;
    }
  }

  // ---- the next order of a skill category ----

  /** `Math.max(...xs.map(s => s.order))` on a non-empty list. */
  function MaxOrder(xs: seq<Skill>): (r: int)
    requires xs != []
    ensures forall k :: 0 <= k < |xs| ==> xs[k].order <= r
    ensures exists k :: 0 <= k < |xs| && xs[k].order == r
  {
    if |xs| == 1 then xs[0].order
    else
      var m := MaxOrder(xs[1..]);
      assert forall k :: 0 <= k < |xs| - 1 ==> xs[1..][k] == xs[k + 1];
      if xs[0].order >= m then xs[0].order else m
  }

  /** The order proposed for a new skill when category `c` is selected: above every
      order in `c`, and 0 when `c` has no skill yet. */
  function NextOrder(skills: seq<Skill>, c: Category): (r: int)
    ensures forall s :: s in skills && s.category == c ==> s.order < r
    ensures (forall s :: s in skills ==> s.category != c) ==> r == 0
  {
    var inCategory := OfCategory(skills, c);
    OfCategoryMembers(skills, c);
    if |inCategory| > 0 then MaxOrder(inCategory) + 1 else 0
  }

  /** The proposed order is the smallest bound: some skill of `c` sits just below it. */
  lemma NextOrderIsTight(skills: seq<Skill>, c: Category, s: Skill)
    requires s in skills && s.category == c
    ensures exists t :: t in skills && t.category == c && t.order == NextOrder(skills, c) - 1
  {
    var inCategory := OfCategory(skills, c);
    OfCategoryMembers(skills, c);
    assert s in inCategory;
    var k :| 0 <= k < |inCategory| && inCategory[k].order == MaxOrder(inCategory);
    assert inCategory[k] in inCategory;
  }

  // ---- deleting by id ----

  /** `xs.filter(x => key(x) !== id)`: how skills, attached files and messages are deleted. */
  function Without<T(==,!new)>(xs: seq<T>, key: T -> string, id: string): (r: seq<T>)
    ensures |r| <= |xs|
    ensures forall k :: 0 <= k < |r| ==> key(r[k]) != id
    ensures forall x :: x in r <==> x in xs && key(x) != id
  {
    if xs == [] then []
    else
      var rest := Without(xs[1..], key, id);
      assert forall x :: x in xs <==> x == xs[0] || x in xs[1..];
      if key(xs[0]) != id then
        assert forall k :: 1 <= k <= |rest| ==> ([xs[0]] + rest)[k] == rest[k - 1];
        [xs[0]] + rest
      else rest
  }

  /** The deletion works element by element, so the survivors keep their order. */
  lemma {:induction false} WithoutAppend<T(!new)>(a: seq<T>, b: seq<T>, key: T -> string, id: string)
    ensures Without(a + b, key, id) == Without(a, key, id) + Without(b, key, id)
  {
    if a == [] {
      assert a + b == b;
    } else {
      assert (a + b)[0] == a[0];
      assert (a + b)[1..] == a[1..] + b;
      WithoutAppend(a[1..], b, key, id);
    }
  }

  /** Deleting an id that nothing carries changes nothing. */
  lemma {:induction false} WithoutAbsent<T(!new)>(xs: seq<T>, key: T -> string, id: string)
    requires forall k :: 0 <= k < |xs| ==> key(xs[k]) != id
    ensures Without(xs, key, id) == xs
  {
    if xs != [] {
      WithoutAbsent(xs[1..], key, id);
      assert [xs[0]] + xs[1..] == xs;
    }
  }

  function SkillId(s: Skill): string { s.id }

  function FileId(f: ProjectFile): string { f.id }

  // ---- messages ----

  datatype Message = Message(
    id: string,
    name: string,
    email: string,
    subject: Option<string>,
    body: string,
    read: bool,
    createdAt: string)

  function MessageId(m: Message): string { m.id }

  /** `messages.map(m => m._id === id ? { ...m, read: true } : m)` */
  function MarkRead(ms: seq<Message>, id: string): (r: seq<Message>)
    ensures |r| == |ms|
    ensures forall k :: 0 <= k < |ms| ==> r[k].read == (ms[k].read || ms[k].id == id)
    ensures forall k :: 0 <= k < |ms| ==> r[k].(read := ms[k].read) == ms[k]
  {
    if ms == [] then []
    else
      var m := if ms[0].id == id then ms[0].(read := true) else ms[0];
      [m] + MarkRead(ms[1..], id)
  }

  /** Marking a message read twice is marking it once. */
  lemma MarkReadIdempotent(ms: seq<Message>, id: string)
    ensures MarkRead(MarkRead(ms, id), id) == MarkRead(ms, id)
  {
    var once := MarkRead(ms, id);
    var twice := MarkRead(once, id);
    assert forall k :: 0 <= k < |ms| ==> twice[k] == once[k];
  }

  /** Marking a message read keeps its id, so a later deletion removes the same messages. */
  lemma {:induction false} MarkReadThenDelete(ms: seq<Message>, id: string)
    ensures |Without(MarkRead(ms, id), MessageId, id)| == |Without(ms, MessageId, id)|
    ensures Without(MarkRead(ms, id), MessageId, id) == Without(ms, MessageId, id)
  {
    if ms != [] {
      var r := MarkRead(ms, id);
      assert r[1..] == MarkRead(ms[1..], id);
      MarkReadThenDelete(ms[1..], id);
      if ms[0].id != id {
        assert r[0] == ms[0];
      }
    }
  }

  // ---- the dashboard's editing state ----

  datatype SkillDraft = SkillDraft(name: string, category: Category, icon: string, order: int)

  const EmptySkillDraft := SkillDraft("", Frontend, "", 0)

  datatype FileDraft = FileDraft(name: string, kind: AttachmentType, url: string, content: string)

  const EmptyFileDraft := FileDraft("", FileExplorer.Link, "", "")

  /** The new-project form; `technologies` is the comma-separated text field. */
  datatype ProjectForm = ProjectForm(
    title: string,
    description: string,
    technologies: string,
    imageUrl: string,
    projectUrl: string,
    githubUrl: string,
    featured: bool,
    additionalFiles: seq<ProjectFile>,
    order: int)

  function EmptyProjectForm(order: int): ProjectForm {
    ProjectForm("", "", "", "", "", "", false, [], order)
  }

  /** The file `handleAddFile` builds from the draft; `content || undefined`. */
  function FileOf(draft: FileDraft, id: string): (r: ProjectFile)
    ensures r.id == id && r.name == draft.name && r.kind == draft.kind && r.url == draft.url
    ensures r.content.None? <==> draft.content == ""
    ensures r.content.Some? ==> r.content.value == draft.content
  {
    ProjectFile(id, draft.name, draft.kind, draft.url, Or(Some(draft.content), None))
  }

  /** The admin dashboard's skills, projects and messages state.  Server calls
      are left to the caller: what a request returned comes in as a parameter,
      and what a request sends is returned. */
  class Dashboard {
    var skills: seq<Skill>
    var newSkill: SkillDraft
    var projects: seq<Project>
    var newProjectForm: ProjectForm
    var editingProject: Option<Project>
    /** The technologies of the project being edited, as the text field shows them. */
    var editingTechnologies: string
    var newFile: FileDraft
    var messages: seq<Message>

    constructor ()
      ensures skills == [] && newSkill == EmptySkillDraft && projects == []
      ensures newProjectForm == EmptyProjectForm(0) && editingProject == None
      ensures newFile == EmptyFileDraft && messages == []
    {
      skills := [];
      newSkill := EmptySkillDraft;
      projects := [];
      newProjectForm := EmptyProjectForm(0);
      editingProject := None;
      editingTechnologies := "";
      newFile := EmptyFileDraft;
      messages := [];
    }

    /** The category select: the draft takes the category and the next free order in it. */
    method SelectCategory(c: Category)
      modifies this`newSkill
      ensures newSkill == old(newSkill).(category := c, order := NextOrder(skills, c))
    {
      var inCategory := OfCategory(skills, c);
      var maxOrder := if |inCategory| > 0 then MaxOrder(inCategory) else -1;
      newSkill := newSkill.(category := c, order := maxOrder + 1);
    }

    /** `handleSelectIcon` */
    method SelectIcon(iconUrl: string, iconName: string)
      modifies this`newSkill
      ensures newSkill == old(newSkill).(icon := iconUrl, name := iconName)
    {
      newSkill := newSkill.(icon := iconUrl, name := iconName);
    }

    /** `handleCreateSkill`: the draft is sent, the created skill appended and the draft reset. */
    method CreateSkill(created: Skill) returns (sent: SkillDraft)
      modifies this`skills, this`newSkill
      ensures sent == old(newSkill)
      ensures skills == old(skills) + [created] && newSkill == EmptySkillDraft
    {
      sent := newSkill;
      skills := skills + [created];
      newSkill := EmptySkillDraft;
    }

    /** `handleDeleteSkill` once the server has deleted it. */
    method DeleteSkill(id: string)
      modifies this`skills
      ensures skills == Without(old(skills), SkillId, id)
    {
      skills := Without(skills, SkillId, id);
    }

    /** `handleCreateProject`: the form is sent with its technologies parsed, and reset
        with the order set to the number of projects. */
    method CreateProject() returns (sent: ProjectForm, technologies: seq<string>)
      modifies this`newProjectForm
      ensures sent == old(newProjectForm) && technologies == ParseTechnologies(sent.technologies)
      ensures newProjectForm == EmptyProjectForm(|projects|)
    {
      sent := newProjectForm;
      technologies := NonEmpty(TrimAll(Split(newProjectForm.technologies, ",")));
      newProjectForm := EmptyProjectForm(|projects|);
    }

    /** `handleStartEditProject`: the technologies are shown joined by `", "`. */
    method StartEditProject(p: Project)
      modifies this`editingProject, this`editingTechnologies
      ensures editingProject == Some(p) && editingTechnologies == ShowTechnologies(p.technologies)
    {
      editingProject := Some(p);
      editingTechnologies := Join(p.technologies, ", ");
    }

    /** `handleCancelEditProject` */
    method CancelEditProject()
      modifies this`editingProject
      ensures editingProject == None
    {
      editingProject := None;
    }

    /** `handleUpdateProject`: nothing without an open project; otherwise the project is
        sent with its technologies parsed from the field, and the editor is closed. */
    method UpdateProject() returns (sent: Option<Project>)
      modifies this`editingProject
      ensures old(editingProject).None? ==> sent == None && editingProject == None
      ensures old(editingProject).Some? ==>
                sent == Some(old(editingProject).value.(technologies := ParseTechnologies(editingTechnologies)))
                && editingProject == None
    {
      if editingProject.None? {
        return None;
      }
      var p := editingProject.value;
      sent := Some(p.(technologies := ParseTechnologies(editingTechnologies)));
      editingProject := None;
    }

    /** `handleAddFile`: without a name or a URL nothing changes; otherwise the file
        built from the draft (with the given id) is appended to the project being
        edited, or to the new-project form when none is, and the draft is reset. */
    method AddFile(id: string)
      modifies this`editingProject, this`newProjectForm, this`newFile
      ensures old(newFile).name == "" || old(newFile).url == "" ==>
                editingProject == old(editingProject) && newProjectForm == old(newProjectForm)
                && newFile == old(newFile)
      ensures old(newFile).name != "" && old(newFile).url != "" ==>
                var f := FileOf(old(newFile), id);
                newFile == EmptyFileDraft
                && (old(editingProject).Some? ==>
                      editingProject == Some(old(editingProject).value.(
                        additionalFiles := old(editingProject).value.additionalFiles + [f]))
                      && newProjectForm == old(newProjectForm))
                && (old(editingProject).None? ==>
                      editingProject == None
                      && newProjectForm == old(newProjectForm).(
                        additionalFiles := old(newProjectForm).additionalFiles + [f]))
    {
      if newFile.name == "" || newFile.url == "" {
        return;
      }
      var file := ProjectFile(id, newFile.name, newFile.kind, newFile.url, Or(Some(newFile.content), None));
      if editingProject.Some? {
        var p := editingProject.value;
        editingProject := Some(p.(additionalFiles := p.additionalFiles + [file]));
      } else {
        newProjectForm := newProjectForm.(additionalFiles := newProjectForm.additionalFiles + [file]);
      }
      newFile := EmptyFileDraft;
    }

    /** `handleRemoveFile`: the files with that id leave the project being edited, or
        the new-project form when none is. */
    method RemoveFile(fileId: string)
      modifies this`editingProject, this`newProjectForm
      ensures old(editingProject).Some? ==>
                editingProject == Some(old(editingProject).value.(
                  additionalFiles := Without(old(editingProject).value.additionalFiles, FileId, fileId)))
                && newProjectForm == old(newProjectForm)
      ensures old(editingProject).None? ==>
                editingProject == None
                && newProjectForm == old(newProjectForm).(
                  additionalFiles := Without(old(newProjectForm).additionalFiles, FileId, fileId))
    {
      if editingProject.Some? {
        var p := editingProject.value;
        editingProject := Some(p.(additionalFiles := Without(p.additionalFiles, FileId, fileId)));
      } else {
        newProjectForm := newProjectForm.(additionalFiles := Without(newProjectForm.additionalFiles, FileId, fileId));
      }
    }

    /** `handleMarkAsRead` once the server has recorded it. */
    method MarkAsRead(id: string)
      modifies this`messages
      ensures messages == MarkRead(old(messages), id)
    {
      messages := MarkRead(messages, id);
    }

    /** `handleDeleteMessage` once the server has deleted it. */
    method DeleteMessage(id: string)
      modifies this`messages
      ensures messages == Without(old(messages), MessageId, id)
    {
      messages := Without(messages, MessageId, id);
    }
  }
}
