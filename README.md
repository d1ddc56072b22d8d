# Portfolio core, modelled in Dafny

This project models the self-contained logic of a personal portfolio site: a
React front end with a public site and an admin dashboard, and an Express API
server. It covers these pieces:

- **Project folders.** The converter that turns a project into a virtual folder
  for the retro file explorer. The folder holds an Overview entry, then optional
  source-code, live-demo and technologies entries, then the attached files.
- **File explorer.** Its navigation state: a path of folder ids, the selected
  item, the walk from the root that finds the visible directory, and the
  preview chosen for the selection.
- **Admin live preview.** The bio markup renderer. An inline scanner finds
  `**bold**`, `*italic*` and `[label](url)`, tried in that order at each
  position, with the plain text between matches kept. A paragraph classifier
  sorts paragraphs into list, `# … #` header, spacer and regular.
- **Admin editing helpers.** The formatting toolbar, the comma-separated
  technologies field, the next order of a skill category, and the handlers that
  edit skills, attached files and messages.
- **About section.** Its colon-header bio formatter. A paragraph whose first
  colon is at index 1 to 49 gets a bold header.
- **Navigation bar.** Its scroll spy and its click scroll target.
- **Skills pages.** The group-by-category page, and the stack screen that
  filters by category and stable-sorts by order.
- **API server.** The CORS origin check, and the admin guard that reads the
  bearer token.
- **Client set-up.** The API base-URL normalisation, and the request
  interceptor that writes the bearer token.

One module per source file, plus two shared ones:

- `JsStrings`: the JavaScript string semantics the code relies on. This covers
  truthiness of optional strings, `trim` over the ECMAScript whitespace set,
  `indexOf`, `includes`, a clamping `substring`, and `split`/`join`.
- `ProjectTypes`: the records.

How each kind of source code is modelled:

- Code that updates state becomes a class with its fields. Examples are the
  explorer, the dashboard, the navigation bar, the request config and the
  request the guard fills in.
- Loops become methods with invariants, each proved equal to a specification
  function. Examples are the walk of the explorer path, the regex `exec` loop,
  the scroll spy, the category reduction and the converter's pushes.
- Pure expressions become functions with lemmas.

The outside world enters as parameters:

- The DOM (element boxes keyed by id, the textarea's selection).
- `localStorage`, environment variables and `Date.now()` ids.
- What a server call returned.
- `jwt.verify`, as a function from token and secret to optional claims.

## Model

| member | source | states |
|---|---|---|
| ProjectFiles.ConvertProjectToFileItem | client/src/utils/projectFileConverter.ts:7-76 | the pushes build exactly `ProjectFolder(p)`: a folder whose items are the synthetic entries followed by one entry per attached file |
| ProjectFiles.OverviewFirst | client/src/utils/projectFileConverter.ts:10-17 | the first item is the Overview link with id `<id>-overview`, the description as content, and the live url when truthy, else the GitHub url |
| ProjectFiles.SourceCodePresentIff | client/src/utils/projectFileConverter.ts:19-28 | the source-code entry is present iff the GitHub url is set and non-empty, and it links to that url |
| ProjectFiles.LiveDemoPresentIff | client/src/utils/projectFileConverter.ts:30-39 | the live-demo entry is present iff the live url is truthy and differs from the GitHub url |
| ProjectFiles.TechnologiesPresentIff | client/src/utils/projectFileConverter.ts:41-49 | the technologies entry is present iff the project lists technologies |
| ProjectFiles.TechnologiesLines | client/src/utils/projectFileConverter.ts:47 | for technologies without line breaks, the file's lines are the heading, an empty line, then one bulleted line per technology in order |
| ProjectFiles.ItemCount | client/src/utils/projectFileConverter.ts:8-62 | the item count is 1 plus one per optional entry present plus the number of attached files |
| ProjectFiles.SyntheticIdsDistinct | client/src/utils/projectFileConverter.ts:12-44 | no two synthetic entries share an id |
| ProjectFiles.AttachedFilesFollow | client/src/utils/projectFileConverter.ts:51-62 | attached file `i` comes `i` places after the synthetic entries, with name, type, content and url copied, and the id defaulting to `<project id>-<name>` when empty |
| ProjectFiles.ProjectFolderShape | client/src/utils/projectFileConverter.ts:64-75 | the folder carries the project's id, title, description, image, technologies and both urls |
| ProjectFiles.ProjectFolderWellFormed | client/src/utils/projectFileConverter.ts:11-61 | every item of a project folder is a leaf, and the folder is well formed |
| ProjectFiles.EnteringProjectShowsOverview | client/src/components/FileExplorer.tsx:68-76 | clicking a project folder selects its Overview entry, which shows the overview pane |
| ProjectFiles.CreateCertificateFile | client/src/utils/projectFileConverter.ts:81-94 | a certificate leaf with the description as content and the pdf url as url |
| ProjectFiles.CreateFile | client/src/utils/projectFileConverter.ts:99-113 | a leaf carrying exactly the given id, name, type, url and optional content |
| FileExplorer.Find | client/src/components/FileExplorer.tsx:33 | the first folder at the level with that id, or none exactly when no folder there has it |
| FileExplorer.Explorer.GetCurrentItems | client/src/components/FileExplorer.tsx:30-39 | the loop returns the walk `ItemsAt(roots, currentPath)`, and the root items at the root |
| FileExplorer.Explorer.GetCurrentFolder | client/src/components/FileExplorer.tsx:42-59 | the loop returns `FolderAt(roots, currentPath)`, the last folder a segment matched, and none at the root |
| FileExplorer.WalkSnoc | client/src/components/FileExplorer.tsx:32-56 | one more path segment is one more step of both walks |
| FileExplorer.UnresolvedSegmentSkipped | client/src/components/FileExplorer.tsx:33-55 | a segment naming no folder at its level is skipped: the path with it ends where the path without it ends, for items and folder alike |
| FileExplorer.CurrentFolderMatchesItems | client/src/components/FileExplorer.tsx:30-59 | the two walks agree: with no folder matched the items are the roots, and a matched folder with items is what is shown |
| FileExplorer.EnterFolder | client/src/components/FileExplorer.tsx:70-79 | entering the first folder with its id makes it the current folder and shows its items |
| FileExplorer.Explorer.HandleItemClick | client/src/components/FileExplorer.tsx:67-90 | a folder is pushed on the path and its first child selected (or nothing); any other item is selected in place |
| FileExplorer.Explorer.HandleBack | client/src/components/FileExplorer.tsx:92-97 | a non-empty path loses its last segment and the selection is cleared; at the root nothing changes |
| FileExplorer.Explorer.HandleHome | client/src/components/FileExplorer.tsx:99-102 | back to the root with nothing selected |
| FileExplorer.FirstChild | client/src/components/FileExplorer.tsx:72-76 | the first child exactly when the folder has a non-empty item list |
| FileExplorer.PreviewOf | client/src/components/FileExplorer.tsx:167-279 | the placeholder iff nothing is selected; the overview pane iff the selection is a link named `Overview`; any other link gets the link pane |
| FileExplorer.Explorer.View | client/src/components/FileExplorer.tsx:104-288 | a grid of the root items iff the path is empty; otherwise the current items and the preview of the selection |
| BioMarkup.BoldAtCorrect | client/src/pages/admin/AdminDashboard.tsx:645 | the bold recogniser returns `b` iff `**b**` with a non-empty, `*`-free `b` starts at the position |
| BioMarkup.ItalicAtCorrect | client/src/pages/admin/AdminDashboard.tsx:645 | the italic recogniser returns `b` iff `*b*` with a non-empty, `*`-free `b` starts at the position |
| BioMarkup.LinkAtCorrect | client/src/pages/admin/AdminDashboard.tsx:645 | the link recogniser returns `(l, u)` iff `[l](u)` starts there, with a non-empty, `]`-free label and a non-empty, `)`-free url |
| BioMarkup.MatchPriority | client/src/pages/admin/AdminDashboard.tsx:645-663 | at one position bold wins, italic only where bold fails, link only where both fail; no match iff none of the three matches |
| BioMarkup.MatchText | client/src/pages/admin/AdminDashboard.tsx:645-665 | a match stands for exactly the input characters it covers, so `lastIndex` moves past them |
| BioMarkup.NextMatch | client/src/pages/admin/AdminDashboard.tsx:648 | `regex.exec` from `lastIndex`: the leftmost match site at or after it, or none when no site remains |
| BioMarkup.ExecLoop | client/src/pages/admin/AdminDashboard.tsx:641-671 | the `while (regex.exec(text))` loop, with its pushes of the text before each match, the match and the remaining text, yields `Scan` |
| BioMarkup.ScanIsLeftmost | client/src/pages/admin/AdminDashboard.tsx:648-671 | the scan is a leftmost tokenization: plain runs are non-empty and match-free, each match sits at the first site after the previous one |
| BioMarkup.TokenizationReconstructs | client/src/pages/admin/AdminDashboard.tsx:650-671 | a leftmost tokenization concatenated back gives the input text |
| BioMarkup.TokenizationUnique | client/src/pages/admin/AdminDashboard.tsx:648-671 | the leftmost tokenization is unique: it is the scan |
| BioMarkup.ParseInlineFormatting | client/src/pages/admin/AdminDashboard.tsx:640-674 | the parts are the leftmost tokenization of the text and flatten back to it; the text itself comes back iff it is empty |
| BioMarkup.InlineFormattingMeaning | client/src/pages/admin/AdminDashboard.tsx:640-674 | any non-empty leftmost tokenization of the text is the result, and the text comes back unparsed iff it is empty |
| BioMarkup.NoMatchIsPlain | client/src/pages/admin/AdminDashboard.tsx:668-673 | without any match site, a non-empty text is one plain part, and the empty text itself comes back |
| BioMarkup.BoldAlone | client/src/pages/admin/AdminDashboard.tsx:645-656 | `**b**` alone parses as one bold part |
| BioMarkup.ItalicAlone | client/src/pages/admin/AdminDashboard.tsx:645-659 | `*b*` alone parses as one italic part |
| BioMarkup.LinkAlone | client/src/pages/admin/AdminDashboard.tsx:645-662 | `[l](u)` alone parses as one link to `u` labelled `l` |
| BioMarkup.ListLines | client/src/pages/admin/AdminDashboard.tsx:678 | keeps only lines whose trimmed form starts with `- ` |
| BioMarkup.ListLinesMembers | client/src/pages/admin/AdminDashboard.tsx:678 | the filter keeps exactly the list lines |
| BioMarkup.ListItemsAreMarkedLines | client/src/pages/admin/AdminDashboard.tsx:678-682 | one item per marked line, in order, each the line with its first two characters cut and then trimmed |
| BioMarkup.IndentedItemKeepsMarker | client/src/pages/admin/AdminDashboard.tsx:682 | the cut is on the untrimmed line, so `"  - x"` renders as `"- x"` |
| BioMarkup.HeaderPartsMeaning | client/src/pages/admin/AdminDashboard.tsx:690-700 | the title runs up to the first ` #` (when that is past index 0) and holds none; the content is the trimmed rest; without such a marker the title is the whole text |
| BioMarkup.HeaderSplit | client/src/pages/admin/AdminDashboard.tsx:689-700 | the same split, stated for the text after `# ` of a trimmed header paragraph |
| BioMarkup.ParagraphClassification | client/src/pages/admin/AdminDashboard.tsx:677-723 | list iff the trimmed paragraph starts with `- `; else header iff it starts with `# `; else spacer iff all whitespace; else a regular paragraph of the inline parse; header content iff non-empty |
| BioMarkup.PreviewCoversText | client/src/pages/admin/AdminDashboard.tsx:638 | at least one block; the paragraphs joined by `\n\n` give the text back and none contains `\n\n`; one block per paragraph, in order |
| AdminDashboard.WrapEdit | client/src/pages/admin/AdminDashboard.tsx:528-562 | a wrapping button keeps the text before `start` and from `end` on, and puts the markers around the selection, or around the placeholder when it is empty |
| AdminDashboard.InsertEdit | client/src/pages/admin/AdminDashboard.tsx:576-605 | an inserting button keeps the whole text and puts the snippet at the caret |
| AdminDashboard.BoldButtonRenders | client/src/pages/admin/AdminDashboard.tsx:528-529 | bold over a whole non-empty `*`-free text renders as that text in bold |
| AdminDashboard.BoldPlaceholderRenders | client/src/pages/admin/AdminDashboard.tsx:528-529 | bold on an empty editor renders as bold `bold text` |
| AdminDashboard.ItalicButtonRenders | client/src/pages/admin/AdminDashboard.tsx:544-545 | italic over a whole non-empty `*`-free text renders as that text in italics |
| AdminDashboard.ItalicPlaceholderRenders | client/src/pages/admin/AdminDashboard.tsx:544-545 | italic on an empty editor renders as italic `italic text` |
| AdminDashboard.LinkButtonRenders | client/src/pages/admin/AdminDashboard.tsx:576 | the link snippet renders as one link to `https://example.com` labelled `link text` |
| AdminDashboard.BoldButtonMatchesAtCaret | client/src/pages/admin/AdminDashboard.tsx:528-529 | after the bold button, the parser matches the `*`-free selection (or placeholder) in bold exactly at the caret |
| AdminDashboard.TrimAll | client/src/pages/admin/AdminDashboard.tsx:257 | each piece trimmed, in place |
| AdminDashboard.NonEmpty | client/src/pages/admin/AdminDashboard.tsx:257 | `filter(Boolean)`: exactly the non-empty pieces, none empty |
| AdminDashboard.TechnologiesRoundTrip | client/src/pages/admin/AdminDashboard.tsx:287-315 | the field shown on edit, parsed back on save, gives the same technologies when each is non-empty, trimmed and comma-free |
| AdminDashboard.MaxOrder | client/src/pages/admin/AdminDashboard.tsx:849 | `Math.max` of the orders: at least every order and equal to one of them |
| AdminDashboard.NextOrder | client/src/pages/admin/AdminDashboard.tsx:846-854 | above every order in the category, and 0 when the category has no skill |
| AdminDashboard.NextOrderIsTight | client/src/pages/admin/AdminDashboard.tsx:846-854 | some skill of the category sits exactly one below the proposed order |
| AdminDashboard.Without | client/src/pages/admin/AdminDashboard.tsx:241 | the filter by id: no survivor has the id, and the survivors are exactly the elements without it |
| AdminDashboard.WithoutAppend | client/src/pages/admin/AdminDashboard.tsx:241 | deleting distributes over concatenation, so the survivors keep their order |
| AdminDashboard.WithoutAbsent | client/src/pages/admin/AdminDashboard.tsx:241 | deleting an id nothing carries changes nothing |
| AdminDashboard.MarkRead | client/src/pages/admin/AdminDashboard.tsx:370 | same length; a message is read iff it was read or has the id; nothing else about any message changes |
| AdminDashboard.MarkReadIdempotent | client/src/pages/admin/AdminDashboard.tsx:370 | marking twice is marking once |
| AdminDashboard.MarkReadThenDelete | client/src/pages/admin/AdminDashboard.tsx:370-381 | marking read keeps ids, so a later delete removes the same messages |
| AdminDashboard.FileOf | client/src/pages/admin/AdminDashboard.tsx:329-335 | the file copies name, type and url; content is absent iff the draft's is empty |
| AdminDashboard.Dashboard.constructor | client/src/pages/admin/AdminDashboard.tsx:60-92 | empty lists, an empty skill draft in Frontend, an empty form and file draft, no project in edit |
| AdminDashboard.Dashboard.SelectCategory | client/src/pages/admin/AdminDashboard.tsx:844-856 | the draft takes the category and `NextOrder`, nothing else changes |
| AdminDashboard.Dashboard.SelectIcon | client/src/pages/admin/AdminDashboard.tsx:225-233 | the draft takes the icon url and name |
| AdminDashboard.Dashboard.CreateSkill | client/src/pages/admin/AdminDashboard.tsx:210-223 | the draft is sent, the created skill appended, the draft reset |
| AdminDashboard.Dashboard.DeleteSkill | client/src/pages/admin/AdminDashboard.tsx:235-249 | the skills become `Without` the id |
| AdminDashboard.Dashboard.CreateProject | client/src/pages/admin/AdminDashboard.tsx:252-278 | the form is sent with its technologies parsed, then reset with the order set to the number of projects |
| AdminDashboard.Dashboard.StartEditProject | client/src/pages/admin/AdminDashboard.tsx:312-317 | the project is opened with its technologies shown joined by `", "` |
| AdminDashboard.Dashboard.CancelEditProject | client/src/pages/admin/AdminDashboard.tsx:319-321 | no project is open |
| AdminDashboard.Dashboard.UpdateProject | client/src/pages/admin/AdminDashboard.tsx:280-298 | nothing is sent without an open project; otherwise it is sent with the field parsed, and the editor closes |
| AdminDashboard.Dashboard.AddFile | client/src/pages/admin/AdminDashboard.tsx:323-350 | without a name or url nothing changes; otherwise the file is appended to the open project or else the form, and the draft reset |
| AdminDashboard.Dashboard.RemoveFile | client/src/pages/admin/AdminDashboard.tsx:352-364 | the files with the id leave the open project, or else the form; the other one is unchanged |
| AdminDashboard.Dashboard.MarkAsRead | client/src/pages/admin/AdminDashboard.tsx:367-374 | the messages become `MarkRead` of the id |
| AdminDashboard.Dashboard.DeleteMessage | client/src/pages/admin/AdminDashboard.tsx:376-385 | the messages become `Without` the id |
| AboutSection.FormatParagraph | client/src/components/sections/AboutSection.tsx:16-45 | a header iff the first colon is at index 1 to 49; a regular paragraph shows the paragraph itself |
| AboutSection.ParagraphKinds | client/src/components/sections/AboutSection.tsx:18-38 | without a header, spacer iff the paragraph is all whitespace, regular otherwise |
| AboutSection.HeaderIsUpToFirstColon | client/src/components/sections/AboutSection.tsx:16-20 | the header is the paragraph up to and including its first colon: 2 to 50 characters, one colon at its end, and header plus rest is the paragraph |
| AboutSection.HeaderContentIsContentOf | client/src/components/sections/AboutSection.tsx:21 | the content is made from the text after the colon |
| AboutSection.ContentOfMeaning | client/src/components/sections/AboutSection.tsx:21-28 | the content is absent iff the rest is all whitespace; otherwise it is the rest trimmed, a trimmed infix of it |
| AboutSection.HeaderIsNeverBlank | client/src/components/sections/AboutSection.tsx:18-35 | a paragraph with a header colon is never all whitespace, so the header test and the spacer test never both hold |
| AboutSection.ColonBeforeBlank | client/src/components/sections/AboutSection.tsx:18-35 | `" :"` is a header with no content: the colon is its only non-whitespace character and nothing but whitespace follows it |
| AboutSection.LeadingColonIsNoHeader | client/src/components/sections/AboutSection.tsx:18 | a colon at index 0 makes no header |
| AboutSection.FormatParagraphs | client/src/components/sections/AboutSection.tsx:14 | one node per paragraph, in order |
| AboutSection.FormatBioText | client/src/components/sections/AboutSection.tsx:11-47 | at least one node, one per paragraph |
| AboutSection.ParagraphsCoverText | client/src/components/sections/AboutSection.tsx:12 | the paragraphs joined by `\n\n` give the bio back, and none contains `\n\n` |
| Navigation.SectionIds | client/src/components/Navigation.tsx:18 | the link ids, in link order |
| Navigation.FirstCoveringFrom | client/src/components/Navigation.tsx:21-30 | the first section from an index on whose box contains the position, or none iff no later one does |
| Navigation.NavigationBar.HandleScroll | client/src/components/Navigation.tsx:17-31 | the loop makes the first section whose box contains `scrollY + 100` active, and leaves the active section alone when none does |
| Navigation.NavigationBar.HandleClick | client/src/components/Navigation.tsx:39-50 | the scroll target is the element's top less 80, and there is no scroll without the element |
| Navigation.ScrolledTo | client/src/components/Navigation.tsx:45-48 | the scroll position `scrollTo` reaches: within `0..maxScroll`, and exactly the target when the target is in that range |
| Navigation.ClickedSectionBecomesActive | client/src/components/Navigation.tsx:19-48 | when the page can scroll exactly to the click's target, the clicked section becomes active, provided it is taller than 20 pixels and no earlier section covers the probe |
| Navigation.InitialSectionIsNoLink | client/src/components/Navigation.tsx:6-14 | the initial `hero` section is none of the link ids |
| Navigation.NavigationBar.constructor | client/src/components/Navigation.tsx:6 | the active section starts as `hero` |
| SkillGroups.GroupByCategory | client/src/pages/Skills.tsx:25-31 | the reduction's keys are the categories in order of first appearance, and each key's array is that category's skills in input order |
| SkillGroups.FirstAppearancesMembers | client/src/pages/Skills.tsx:26-28 | a category is a key iff some skill has it |
| SkillGroups.FirstAppearancesDistinct | client/src/pages/Skills.tsx:26-28 | no key twice |
| SkillGroups.GroupsOfSnocPresent | client/src/pages/Skills.tsx:29 | a skill of a category already present is pushed onto its array |
| SkillGroups.GroupsOfSnocAbsent | client/src/pages/Skills.tsx:26-29 | a new category's array is created empty, then pushed onto |
| SkillGroups.SkillInItsGroupOnly | client/src/pages/Skills.tsx:25-31 | every skill is in its own category's group and in no other |
| SkillGroups.GroupsPartitionSkills | client/src/pages/Skills.tsx:25-31 | the group sizes add up to the number of skills |
| StackScreen.ShownCategory | client/src/components/illustrations/StackScreen.tsx:45 | the given category, or Frontend when none is given |
| StackScreen.Insert | client/src/components/illustrations/StackScreen.tsx:67 | one insertion of the sort: one longer, the same elements plus the one inserted |
| StackScreen.InsertKeepsSorted | client/src/components/illustrations/StackScreen.tsx:67 | inserting into a list sorted by order keeps it sorted |
| StackScreen.SortByOrder | client/src/components/illustrations/StackScreen.tsx:67 | the result is sorted by order and is a permutation of the input |
| StackScreen.SortIsStable | client/src/components/illustrations/StackScreen.tsx:67 | the skills of each order come out in their input order |
| StackScreen.CategorySkillsContents | client/src/components/illustrations/StackScreen.tsx:65-67 | the screen shows exactly the category's skills, each as often as listed, sorted by order |
| StackScreen.CategorySkillsStable | client/src/components/illustrations/StackScreen.tsx:65-67 | skills of equal order keep their listed order |
| ProjectTypes.OfCategory | client/src/pages/admin/AdminDashboard.tsx:846 | the filter by category: no longer than the input, every element of the category |
| ProjectTypes.OfCategoryMembers | client/src/components/illustrations/StackScreen.tsx:66 | the filter keeps exactly the skills of the category |
| ProjectTypes.OfCategoryAppend | client/src/pages/Skills.tsx:29 | the filter distributes over concatenation, so it keeps input order |
| Cors.AllowedOrigins | server/src/index.ts:16-25 | the three local origins in order, then `FRONTEND_URL` exactly when it is set and non-empty; nothing else |
| Cors.OriginAllowedIff | server/src/index.ts:28-42 | allowed iff the origin is missing or empty, listed, or has `.vercel.app` or `.onrender.com` anywhere in it |
| Cors.HostTestIsSubstring | server/src/index.ts:37 | an origin holding `.vercel.app` before its own domain is allowed |
| Cors.UnlistedOriginRefused | server/src/index.ts:41 | an unlisted origin with neither host name is refused |
| ApiClient.RawApiUrl | client/src/services/api.ts:15 | the environment's URL when truthy, else `http://localhost:5000` |
| ApiClient.ApiUrl | client/src/services/api.ts:17-20 | ends with `/api`; extends the raw URL by nothing or by `/api`; unchanged iff the raw URL already ends with `/api` |
| ApiClient.ApiUrlIdempotent | client/src/services/api.ts:17-20 | normalising twice is normalising once |
| ApiClient.DefaultApiUrlNormalised | client/src/services/api.ts:15-20 | without the variable (or with it empty) the base is `http://localhost:5000/api` |
| ApiClient.TrailingSlashNotRecognised | client/src/services/api.ts:18-20 | a URL ending in `/api/` gets a second `/api` |
| ApiClient.BearerHeader | client/src/services/api.ts:33 | `Bearer ` followed by exactly the token |
| ApiClient.RequestConfig.constructor | client/src/services/api.ts:22-27 | the default headers hold only `Content-Type: application/json` |
| ApiClient.RequestConfig.Intercept | client/src/services/api.ts:30-36 | a truthy token sets `Authorization` to `Bearer <token>`; otherwise the headers are unchanged |
| Auth.JwtSecret | server/src/middleware/auth.ts:16 | the environment's secret when truthy, else `secret` |
| Auth.ExtractToken | server/src/middleware/auth.ts:10 | a token exists only for a present header and holds no space |
| Auth.ExtractTokenMeaning | server/src/middleware/auth.ts:10 | none without a space; otherwise the text after the first space up to the next space or the end |
| Auth.BearerRoundTrip | server/src/middleware/auth.ts:10 | a space-free token written by the client is read back unchanged |
| Auth.ClientTokenReachesVerify | server/src/middleware/auth.ts:10-16 | a truthy, space-free stored token is never refused as missing and reaches `verify` unchanged |
| Auth.SpacedTokenTruncated | server/src/middleware/auth.ts:10 | a token holding a space is cut at that space |
| Auth.SchemeNotChecked | server/src/middleware/auth.ts:10 | the word before the space is not checked to be `Bearer` |
| Auth.AuthenticateAdmin | server/src/middleware/auth.ts:8-22 | no truthy token gives 401 `No token provided`; a token `verify` rejects gives 401 `Invalid or expired token`; otherwise `adminId` is the decoded id and `next` is called; a 401 leaves `adminId` alone |
| JsStrings.IndexOf | client/src/components/sections/AboutSection.tsx:16 | -1 iff the pattern occurs nowhere; otherwise an occurrence with none before it |
| JsStrings.TrimIsPaddedInfix | client/src/components/sections/AboutSection.tsx:21 | `trim` removes exactly the leading and trailing whitespace |
| JsStrings.TrimIdempotent | client/src/pages/admin/AdminDashboard.tsx:257 | trimming twice is trimming once |
| JsStrings.Split | client/src/components/sections/AboutSection.tsx:12 | at least one piece, and no piece contains the separator |
| JsStrings.JoinSplit | client/src/components/sections/AboutSection.tsx:12 | joining the pieces with the separator gives the string back |
| JsStrings.SplitJoin | client/src/pages/admin/AdminDashboard.tsx:257 | pieces free of a one-character separator, joined and split again, come back |
| JsStrings.Substring | client/src/pages/admin/AdminDashboard.tsx:528 | `substring` on in-range bounds is the slice, with swapped bounds reordered |

## Left out

- Rendering is left out: the React markup, CSS, `key` props and link attributes. Each view is modelled as a datatype naming what is drawn.
- Network calls are left out: the axios calls, server routes, database and e-mail. They are not sequential logic, so a handler takes what the server returned as a parameter and returns what it sends.
- The failure and `catch` paths of server calls (alerts, console logs) are left out. So are the `window.confirm` prompts: each delete handler is modelled as it runs after the confirm and a successful call.
- `Date.now().toString()` ids are a parameter of `AddFile`.
- The textarea is reached through the DOM; its selection comes in as the `start` and `end` parameters.
- Focusing the textarea and `setTimeout` are left out.
- `localStorage` and environment variables are parameters.
- `jwt.verify` is a function parameter; its cryptography is not modelled. A thrown error is `None`.
- The express `res`/`next` objects become the `Outcome` value.
- The window scroll event and smooth scrolling are left out: each is one call of `HandleScroll` or `HandleClick`.
- Mounting is the constructor followed by one `HandleScroll`, the call the effect makes on mount (Navigation.tsx:36). Registering and removing the scroll listener are not modelled.
- Navigation.ClickedSectionBecomesActive: it covers only targets the page can scroll to exactly. The browser clamps the others, so they are not covered: a section less than 80 pixels from the top, and one past the page's maximum scroll.
- `HandleClick` does not include `e.preventDefault()`.
- Strings are sequences of code points. JavaScript indexes UTF-16 code units, so the `< 50` colon test and `substring` positions differ for characters outside the Basic Multilingual Plane.
- `Project.technologies` and `additionalFiles` are lists. The empty list stands for an absent list, which every use treats alike (`|| []`, `&& length > 0`).
- `AdminDashboard.Dashboard.UpdateProject`: the open project's technologies are always the text field that `StartEditProject` fills, so the branch for an array (AdminDashboard.tsx:288) is not modelled.
- The `order` arithmetic of `.sort((a, b) => a.order - b.order)` is over unbounded integers. The source's floating-point subtraction is exact for the integer orders used.
- `StackScreen.SortByOrder` is an insertion sort over values. It states sortedness, permutation and stability, which is what a stable `Array.prototype.sort` promises, not the engine's algorithm nor an in-place update.
- The icon search filter and the other dashboard forms (hero, about and contact info, experience, education) are not part of this model.
- `getCurrentFolderName` is the title inside `FileExplorer.Explorer.View`.
