/** The public About section's bio formatter: the bio is cut into paragraphs at
    blank lines, and a paragraph whose first colon comes early is shown as a bold
    header (up to and including the colon) followed by the rest of it. */
module AboutSection {
  import opened JsStrings

  /** What one paragraph is rendered as.  `content` is absent when nothing but
      whitespace follows the colon, and then no content span is emitted. */
  datatype BioParagraph =
    | Headed(header: string, content: Option<string>)
    | Spacer
    | Verbatim(text: string)

  /** The header test: the first colon is at an index from 1 to 49. */
  predicate HasHeader(p: string) {
    0 < IndexOf(p, ":") < 50
  }

  /** A header's content: the rest of the paragraph trimmed, or nothing when that is empty. */
  function ContentOf(rest: string): Option<string> {
    var content := Trim(rest);
    if content != "" then Some(content) else None
  }

  /** The node `formatBioText` renders for one paragraph. */
  function FormatParagraph(p: string): (r: BioParagraph)
    ensures r.Headed? <==> HasHeader(p)
    ensures r.Verbatim? ==> r.text == p
  {
    var colonIndex := IndexOf(p, ":");
    if colonIndex > 0 && colonIndex < 50 then
      Headed(Substring(p, 0, colonIndex + 1), ContentOf(SubstringFrom(p, colonIndex + 1)))
    else if Trim(p) == "" then Spacer
    else Verbatim(p)
  }

  /** The colon test comes first; of the rest, whitespace-only paragraphs are
      spacers and every other paragraph is shown as it is. */
  lemma ParagraphKinds(p: string)
    ensures FormatParagraph(p).Spacer? <==> !HasHeader(p) && AllWhitespace(p)
    ensures FormatParagraph(p).Verbatim? <==> !HasHeader(p) && !AllWhitespace(p)
  {
    TrimEmptyIffWhitespace(p);
  }

  lemma CharOccursAt(s: string, c: char, j: int)
    requires 0 <= j < |s|
    ensures OccursAt(s, [c], j) <==> s[j] == c
  {
    assert s[j..j + 1] == [s[j]];
  }

  /** The header is the paragraph up to and including its first colon, so it holds
      exactly one colon, at its end, and has 2 to 50 characters; the header and
      what follows it make up the whole paragraph. */
  lemma HeaderIsUpToFirstColon(p: string)
    requires HasHeader(p)
    ensures var ci := IndexOf(p, ":");
            var h := FormatParagraph(p).header;
            h == p[..ci + 1] && p == h + p[ci + 1..]
            && 2 <= |h| <= 50 && h[|h| - 1] == ':' && ':' !in h[..|h| - 1]
  {
    var ci := IndexOf(p, ":");
    var h := p[..ci + 1];
    CharOccursAt(p, ':', ci);
    forall j | 0 <= j < ci ensures p[j] != ':' {
      CharOccursAt(p, ':', j);
    }
    assert h[..|h| - 1] == p[..ci];
    assert p == h + p[ci + 1..];
  }

  /** A header's content is made from the rest of the paragraph after the colon. */
  lemma HeaderContentIsContentOf(p: string)
    requires HasHeader(p)
    ensures FormatParagraph(p).content == ContentOf(p[IndexOf(p, ":") + 1..])
  {
    var ci := IndexOf(p, ":");
    assert 0 <= ci + 1 <= |p|;
    assert SubstringFrom(p, ci + 1) == p[ci + 1..];
  }

  /** The content is that rest with the surrounding whitespace removed; it is absent
      exactly when the rest is whitespace only. */
  lemma ContentOfMeaning(rest: string)
    ensures ContentOf(rest).None? <==> AllWhitespace(rest)
    ensures ContentOf(rest).Some? ==>
              ContentOf(rest).value == Trim(rest) && IsTrimmed(ContentOf(rest).value)
              && PaddedBy(rest, ContentOf(rest).value, |rest| - |TrimStart(rest)|)
  {
    TrimEmptyIffWhitespace(rest);
    TrimIsPaddedInfix(rest);
  }

  /** A paragraph with a header colon holds a non-whitespace character, the colon,
      so the header test and the spacer test never both hold. */
  lemma HeaderIsNeverBlank(p: string)
    ensures HasHeader(p) ==> !AllWhitespace(p)
  {
    if HasHeader(p) {
      var ci := IndexOf(p, ":");
      CharOccursAt(p, ':', ci);
      assert !IsWhitespace(p[ci]);
    }
  }

  /** A colon with nothing but whitespace before and after it: `" :"` is a header
      with no content. */
  lemma ColonBeforeBlank()
    ensures FormatParagraph(" :") == Headed(" :", None)
  {
    CharOccursAt(" :", ':', 0);
    CharOccursAt(" :", ':', 1);
    assert IndexOf(" :", ":") == 1;
    assert SubstringFrom(" :", 2) == "";
    assert ContentOf("") == None;
  }

  /** A colon at the very start does not make a header. */
  lemma LeadingColonIsNoHeader()
    ensures FormatParagraph(":x") == Verbatim(":x")
  {
    assert OccursAt(":x", ":", 0);
    assert IndexOf(":x", ":") == 0;
    assert !IsWhitespace('x');
    assert ":x"[1] == 'x';
    TrimEmptyIffWhitespace(":x");
  }

  /** One node per paragraph, in order. */
  function FormatParagraphs(ps: seq<string>): (r: seq<BioParagraph>)
    ensures |r| == |ps|
    ensures forall k :: 0 <= k < |ps| ==> r[k] == FormatParagraph(ps[k])
  {
    if ps == [] then [] else [FormatParagraph(ps[0])] + FormatParagraphs(ps[1..])
  }

  /** The paragraphs of a bio: the pieces between blank lines. */
  function Paragraphs(text: string): seq<string> {
    Split(text, "\n\n")
  }

  /** `formatBioText` */
  function FormatBioText(text: string): (r: seq<BioParagraph>)
    ensures |r| == |Paragraphs(text)| >= 1
  {
    FormatParagraphs(Paragraphs(text))
  }

  /** The paragraphs cover the bio: joined back with blank lines they give the bio,
      and none of them contains a blank line. */
  lemma ParagraphsCoverText(text: string)
    ensures Join(Paragraphs(text), "\n\n") == text
    ensures forall k :: 0 <= k < |Paragraphs(text)| ==> !Contains(Paragraphs(text)[k], "\n\n")
  {
    JoinSplit(text, "\n\n");
  }
}
