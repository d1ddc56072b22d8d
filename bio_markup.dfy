/** The bio markup of the admin dashboard's live preview.  Inline text is scanned
    left to right for `**bold**`, `*italic*` and `[label](url)`, tried in that order
    at each position, with the plain text between matches kept; paragraphs
    (separated by a blank line) are bullet lists, `# ... #` headers, spacers or
    regular paragraphs. */
module BioMarkup {
  import opened JsStrings

  datatype Fragment =
    | Plain(text: string)
    | Bold(body: string)
    | Italic(body: string)
    | Link(caption: string, url: string)

  /** The characters of the input a fragment stands for. */
  function Raw(f: Fragment): string {
    match f
    case Plain(t) => t
    case Bold(b) => "**" + b + "**"
    case Italic(b) => "*" + b + "*"
    case Link(l, u) => "[" + l + "](" + u + ")"
  }

  /** The number of input characters a fragment stands for. */
  function Width(f: Fragment): nat {
    match f
    case Plain(t) => |t|
    case Bold(b) => |b| + 4
    case Italic(b) => |b| + 2
    case Link(l, u) => |l| + |u| + 4
  }

  lemma RawWidth(f: Fragment)
    ensures |Raw(f)| == Width(f)
  {
  }

  function Flatten(fs: seq<Fragment>): string {
    if fs == [] then "" else Raw(fs[0]) + Flatten(fs[1..])
  }

  // ---- the three alternatives of the pattern, stated declaratively ----

  /** `\*\*([^*]+)\*\*` matches at `i` with body `b`. */
  predicate IsBoldAt(t: string, i: nat, b: string) {
    i <= |t| && |b| > 0 && '*' !in b && StartsWith(t[i..], "**" + b + "**")
  }

  /** `\*([^*]+)\*` matches at `i` with body `b`. */
  predicate IsItalicAt(t: string, i: nat, b: string) {
    i <= |t| && |b| > 0 && '*' !in b && StartsWith(t[i..], "*" + b + "*")
  }

  /** `\[([^\]]+)\]\(([^)]+)\)` matches at `i` with label `l` and url `u`. */
  predicate IsLinkAt(t: string, i: nat, l: string, u: string) {
    i <= |t| && |l| > 0 && ']' !in l && |u| > 0 && ')' !in u
    && StartsWith(t[i..], "[" + l + "](" + u + ")")
  }

  // ---- the scanner ----

  /** The end of the run of characters other than `c` that starts at `j`. */
  function RunEnd(t: string, j: nat, c: char): (k: nat)
    requires j <= |t|
    ensures j <= k <= |t|
    ensures k < |t| ==> t[k] == c
    decreases |t| - j
  {
    if j == |t| || t[j] == c then j else RunEnd(t, j + 1, c)
  }

  /** The run `RunEnd` finds holds no `c`. */
  lemma {:induction false} RunEndFree(t: string, j: nat, c: char)
    requires j <= |t|
    ensures forall m :: j <= m < RunEnd(t, j, c) ==> t[m] != c
    decreases |t| - j
  {
    if j < |t| && t[j] != c {
      RunEndFree(t, j + 1, c);
    }
  }

  /** A run free of `c` that stops at `c` or at the end is the one `RunEnd` finds. */
  lemma RunEndUnique(t: string, j: nat, c: char, k: nat)
    requires j <= k <= |t|
    requires forall m :: j <= m < k ==> t[m] != c
    requires k < |t| ==> t[k] == c
    ensures RunEnd(t, j, c) == k
  {
    RunEndFree(t, j, c);
  }

  /** `c` does not occur in `t[j..k]`. */
  lemma NotInSlice(t: string, j: nat, k: nat, c: char)
    requires j <= k <= |t|
    ensures c !in t[j..k] <==> forall m :: j <= m < k ==> t[m] != c
  {
    assert forall m :: j <= m < k ==> t[j..k][m - j] == t[m];
  }

  function BoldAt(t: string, i: nat): (r: Option<string>)
    requires i <= |t|
    ensures r.Some? ==> i + |r.value| + 4 <= |t|
  {
    if i + 2 <= |t| && t[i] == '*' && t[i + 1] == '*' then
      var k := RunEnd(t, i + 2, '*');
      if k > i + 2 && k + 2 <= |t| && t[k + 1] == '*' then Some(t[i + 2..k]) else None
    else None
  }

  function ItalicAt(t: string, i: nat): (r: Option<string>)
    requires i <= |t|
    ensures r.Some? ==> i + |r.value| + 2 <= |t|
  {
    if i + 1 <= |t| && t[i] == '*' then
      var k := RunEnd(t, i + 1, '*');
      if k > i + 1 && k < |t| then Some(t[i + 1..k]) else None
    else None
  }

  function LinkAt(t: string, i: nat): (r: Option<(string, string)>)
    requires i <= |t|
    ensures r.Some? ==> i + |r.value.0| + |r.value.1| + 4 <= |t|
  {
    if i + 1 <= |t| && t[i] == '[' then
      var k := RunEnd(t, i + 1, ']');
      if k > i + 1 && k + 2 <= |t| && t[k + 1] == '(' then
        var m := RunEnd(t, k + 2, ')');
        if m > k + 2 && m < |t| then Some((t[i + 1..k], t[k + 2..m])) else None
      else None
    else None
  }

  /** The characters of a bold match: two stars on either side of the body. */
  lemma BoldChars(t: string, i: nat, b: string)
    requires IsBoldAt(t, i, b)
    ensures var k := i + 2 + |b|;
            && k + 2 <= |t| && t[i] == '*' && t[i + 1] == '*' && t[k] == '*' && t[k + 1] == '*'
            && t[i + 2..k] == b
  {
    var w := "**" + b + "**";
    var k := i + 2 + |b|;
    assert t[i..][..|w|] == w;
    assert t[i..k + 2] == w;
    assert t[i + 2..k] == b by { assert t[i + 2..k] == w[2..2 + |b|]; }
    assert t[i] == w[0] && t[i + 1] == w[1] && t[k] == w[2 + |b|] && t[k + 1] == w[3 + |b|];
  }

  /** Stars at `i`, `i + 1`, `k` and `k + 1` spell out a bold match. */
  lemma BoldSpelled(t: string, i: nat, k: nat)
    requires i + 2 <= k && k + 2 <= |t|
    requires t[i] == '*' && t[i + 1] == '*' && t[k] == '*' && t[k + 1] == '*'
    ensures t[i..k + 2] == "**" + t[i + 2..k] + "**"
  {
    var w := "**" + t[i + 2..k] + "**";
    assert |t[i..k + 2]| == |w|;
    forall j | 0 <= j < |w| ensures t[i..k + 2][j] == w[j] {
      if j < 2 {
        assert w[j] == '*';
      } else if j < k - i {
        assert w[j] == t[i + 2..k][j - 2];
      } else {
        assert k - i <= j <= k - i + 1 && w[j] == '*';
      }
    }
  }

  lemma BoldAtCorrect(t: string, i: nat, b: string)
    requires i <= |t|
    ensures BoldAt(t, i) == Some(b) <==> IsBoldAt(t, i, b)
  {
    if IsBoldAt(t, i, b) {
      var k := i + 2 + |b|;
      BoldChars(t, i, b);
      NotInSlice(t, i + 2, k, '*');
      RunEndUnique(t, i + 2, '*', k);
    }
    if BoldAt(t, i) == Some(b) {
      var k := RunEnd(t, i + 2, '*');
      RunEndFree(t, i + 2, '*');
      NotInSlice(t, i + 2, k, '*');
      BoldSpelled(t, i, k);
      var w := "**" + b + "**";
      assert t[i..][..|w|] == w;
    }
  }

  /** The characters of an italic match: one star on either side of the body. */
  lemma ItalicChars(t: string, i: nat, b: string)
    requires IsItalicAt(t, i, b)
    ensures var k := i + 1 + |b|;
            && k < |t| && t[i] == '*' && t[k] == '*' && t[i + 1..k] == b
  {
    var w := "*" + b + "*";
    var k := i + 1 + |b|;
    assert t[i..][..|w|] == w;
    assert t[i..k + 1] == w;
    assert t[i + 1..k] == b by { assert t[i + 1..k] == w[1..1 + |b|]; }
    assert t[i] == w[0] && t[k] == w[1 + |b|];
  }

  /** Stars at `i` and `k` spell out an italic match. */
  lemma ItalicSpelled(t: string, i: nat, k: nat)
    requires i + 1 <= k < |t| && t[i] == '*' && t[k] == '*'
    ensures t[i..k + 1] == "*" + t[i + 1..k] + "*"
  {
    var w := "*" + t[i + 1..k] + "*";
    assert |t[i..k + 1]| == |w|;
    forall j | 0 <= j < |w| ensures t[i..k + 1][j] == w[j] {
      if j == 0 {
        assert w[j] == '*';
      } else if j < k - i {
        assert w[j] == t[i + 1..k][j - 1];
      } else {
        assert j == k - i && w[j] == '*';
      }
    }
  }

  lemma ItalicAtCorrect(t: string, i: nat, b: string)
    requires i <= |t|
    ensures ItalicAt(t, i) == Some(b) <==> IsItalicAt(t, i, b)
  {
    if IsItalicAt(t, i, b) {
      var k := i + 1 + |b|;
      ItalicChars(t, i, b);
      NotInSlice(t, i + 1, k, '*');
      RunEndUnique(t, i + 1, '*', k);
    }
    if ItalicAt(t, i) == Some(b) {
      var k := RunEnd(t, i + 1, '*');
      RunEndFree(t, i + 1, '*');
      NotInSlice(t, i + 1, k, '*');
      ItalicSpelled(t, i, k);
      var w := "*" + b + "*";
      assert t[i..][..|w|] == w;
    }
  }

  /** The characters of a link match: the brackets and parentheses at their
      places, with the label and the url between them. */
  lemma LinkChars(t: string, i: nat, l: string, u: string)
    requires IsLinkAt(t, i, l, u)
    ensures var k := i + 1 + |l|;
            var m := k + 2 + |u|;
            && m < |t| && t[i] == '[' && t[k] == ']' && t[k + 1] == '(' && t[m] == ')'
            && t[i + 1..k] == l && t[k + 2..m] == u
  {
    var w := "[" + l + "](" + u + ")";
    var k := i + 1 + |l|;
    var m := k + 2 + |u|;
    assert t[i..][..|w|] == w;
    assert t[i..m + 1] == w;
    assert t[i + 1..k] == l by { assert t[i + 1..k] == w[1..1 + |l|]; }
    assert t[k + 2..m] == u by { assert t[k + 2..m] == w[3 + |l|..3 + |l| + |u|]; }
    assert t[i] == w[0] && t[k] == w[1 + |l|] && t[k + 1] == w[2 + |l|] && t[m] == w[3 + |l| + |u|];
  }

  lemma LinkAtComplete(t: string, i: nat, l: string, u: string)
    requires IsLinkAt(t, i, l, u)
    ensures LinkAt(t, i) == Some((l, u))
  {
    var k := i + 1 + |l|;
    var m := k + 2 + |u|;
    LinkChars(t, i, l, u);
    NotInSlice(t, i + 1, k, ']');
    RunEndUnique(t, i + 1, ']', k);
    NotInSlice(t, k + 2, m, ')');
    RunEndUnique(t, k + 2, ')', m);
  }

  /** Brackets and parentheses at `i`, `k`, `k + 1` and `m` spell out a link. */
  lemma LinkSpelled(t: string, i: nat, k: nat, m: nat)
    requires i < k && k + 2 <= m < |t|
    requires t[i] == '[' && t[k] == ']' && t[k + 1] == '(' && t[m] == ')'
    ensures t[i..m + 1] == "[" + t[i + 1..k] + "](" + t[k + 2..m] + ")"
  {
    var w := "[" + t[i + 1..k] + "](" + t[k + 2..m] + ")";
    assert |t[i..m + 1]| == |w|;
    forall j | 0 <= j < |w| ensures t[i..m + 1][j] == w[j] {
      if j == 0 {
        assert w[j] == '[';
      } else if j < k - i {
        assert w[j] == t[i + 1..k][j - 1];
      } else if j == k - i {
        assert w[j] == ']';
      } else if j == k - i + 1 {
        assert w[j] == '(';
      } else if j < m - i {
        assert w[j] == t[k + 2..m][j - (k - i + 2)];
      } else {
        assert j == m - i && w[j] == ')';
      }
    }
  }

  lemma LinkAtSound(t: string, i: nat)
    requires i <= |t| && LinkAt(t, i).Some?
    ensures IsLinkAt(t, i, LinkAt(t, i).value.0, LinkAt(t, i).value.1)
  {
    var k := RunEnd(t, i + 1, ']');
    var m := RunEnd(t, k + 2, ')');
    RunEndFree(t, i + 1, ']');
    RunEndFree(t, k + 2, ')');
    var l, u := t[i + 1..k], t[k + 2..m];
    assert LinkAt(t, i).value == (l, u);
    NotInSlice(t, i + 1, k, ']');
    NotInSlice(t, k + 2, m, ')');
    LinkSpelled(t, i, k, m);
    var w := "[" + l + "](" + u + ")";
    assert t[i..][..|w|] == w;
  }

  lemma LinkAtCorrect(t: string, i: nat, l: string, u: string)
    requires i <= |t|
    ensures LinkAt(t, i) == Some((l, u)) <==> IsLinkAt(t, i, l, u)
  {
    if IsLinkAt(t, i, l, u) {
      LinkAtComplete(t, i, l, u);
    }
    if LinkAt(t, i) == Some((l, u)) {
      LinkAtSound(t, i);
    }
  }

  /** What the combined pattern matches at exactly `i`: bold, else italic, else link. */
  function MatchAt(t: string, i: nat): (r: Option<Fragment>)
    requires i <= |t|
    ensures r.Some? ==> !r.value.Plain? && 3 <= Width(r.value) && i + Width(r.value) <= |t|
  {
    match BoldAt(t, i)
    case Some(b) => Some(Bold(b))
    case None =>
      match ItalicAt(t, i)
      case Some(b) => Some(Italic(b))
      case None =>
        match LinkAt(t, i)
        case Some((l, u)) => Some(Link(l, u))
        case None => None
  }

  /** The alternatives are tried in order at a match site: bold wins, italic only
      where no bold matches, a link only where neither matches; and a match site
      is exactly a position where one of the three matches. */
  lemma MatchPriority(t: string, i: nat)
    requires i <= |t|
    ensures forall b :: MatchAt(t, i) == Some(Bold(b)) <==> IsBoldAt(t, i, b)
    ensures forall b :: MatchAt(t, i) == Some(Italic(b)) <==>
              (forall b' :: !IsBoldAt(t, i, b')) && IsItalicAt(t, i, b)
    ensures forall l, u :: MatchAt(t, i) == Some(Link(l, u)) <==>
              (forall b' :: !IsBoldAt(t, i, b') && !IsItalicAt(t, i, b')) && IsLinkAt(t, i, l, u)
    ensures MatchAt(t, i).None? <==>
              (forall b :: !IsBoldAt(t, i, b) && !IsItalicAt(t, i, b))
              && (forall l, u :: !IsLinkAt(t, i, l, u))
  {
    forall b ensures BoldAt(t, i) == Some(b) <==> IsBoldAt(t, i, b) { BoldAtCorrect(t, i, b); }
    forall b ensures ItalicAt(t, i) == Some(b) <==> IsItalicAt(t, i, b) { ItalicAtCorrect(t, i, b); }
    forall l, u ensures LinkAt(t, i) == Some((l, u)) <==> IsLinkAt(t, i, l, u) { LinkAtCorrect(t, i, l, u); }
  }

  /** A match stands for exactly the input characters at its position, and its
      bodies keep to their character classes: a bold or italic body is non-empty
      and free of `*`, a link label has no `]` and a link url no `)`. */
  lemma MatchText(t: string, i: nat)
    requires i <= |t| && MatchAt(t, i).Some?
    ensures t[i..i + Width(MatchAt(t, i).value)] == Raw(MatchAt(t, i).value)
    ensures MatchAt(t, i).value.Bold? || MatchAt(t, i).value.Italic? ==>
              |MatchAt(t, i).value.body| > 0 && '*' !in MatchAt(t, i).value.body
    ensures MatchAt(t, i).value.Link? ==>
              |MatchAt(t, i).value.caption| > 0 && ']' !in MatchAt(t, i).value.caption
              && |MatchAt(t, i).value.url| > 0 && ')' !in MatchAt(t, i).value.url
  {
    var f := MatchAt(t, i).value;
    RawWidth(f);
    match f
    case Bold(b) => BoldAtCorrect(t, i, b);
    case Italic(b) => ItalicAtCorrect(t, i, b);
    case Link(l, u) => LinkAtCorrect(t, i, l, u);
    assert StartsWith(t[i..], Raw(f));
    assert t[i..][..Width(f)] == t[i..i + Width(f)];
  }

  // ---- the exec loop, for any pattern ----

  /** The combined pattern over `t`: what it matches at each position. */
  function Pattern(t: string): nat -> Option<Fragment> {
    (k: nat) => if k <= |t| then MatchAt(t, k) else None
  }

  /** A pattern over `t` whose matches are not plain text, are non-empty and end
      within `t`: what the exec loop needs to make progress. */
  predicate Fits(t: string, pattern: nat -> Option<Fragment>) {
    forall k: nat :: k <= |t| && pattern(k).Some? ==>
      !pattern(k).value.Plain? && 0 < Width(pattern(k).value) && k + Width(pattern(k).value) <= |t|
  }

  /** A pattern whose every match spells out the input characters at its position. */
  predicate Spells(t: string, pattern: nat -> Option<Fragment>)
    requires Fits(t, pattern)
  {
    forall k: nat :: k <= |t| && pattern(k).Some? ==>
      t[k..k + Width(pattern(k).value)] == Raw(pattern(k).value)
  }

  lemma PatternFits(t: string)
    ensures Fits(t, Pattern(t))
    ensures Spells(t, Pattern(t))
  {
    forall k: nat | k <= |t| && Pattern(t)(k).Some?
      ensures !Pattern(t)(k).value.Plain? && 0 < Width(Pattern(t)(k).value)
              && k + Width(Pattern(t)(k).value) <= |t|
      ensures t[k..k + Width(Pattern(t)(k).value)] == Raw(Pattern(t)(k).value)
    {
      var f := MatchAt(t, k).value;
      assert Pattern(t)(k) == Some(f);
      MatchText(t, k);
      assert t[k..k + Width(f)] == Raw(f);
    }
  }

  /** `regex.exec` from `from`: the leftmost match site at or after `from`. */
  function NextMatch(t: string, pattern: nat -> Option<Fragment>, from: nat): (r: Option<nat>)
    requires from <= |t|
    ensures r.Some? ==> from <= r.value < |t| && pattern(r.value).Some?
    ensures r.Some? ==> forall k: nat :: from <= k < r.value ==> pattern(k).None?
    ensures r.None? ==> forall k: nat :: from <= k < |t| ==> pattern(k).None?
    decreases |t| - from
  {
    if from == |t| then None
    else if pattern(from).Some? then Some(from)
    else NextMatch(t, pattern, from + 1)
  }

  /** Positions without a match site do not change where the next match is. */
  lemma {:induction false} NextMatchSkips(t: string, pattern: nat -> Option<Fragment>, from: nat, e: nat)
    requires from <= e <= |t|
    requires forall k: nat :: from <= k < e ==> pattern(k).None?
    ensures NextMatch(t, pattern, from) == NextMatch(t, pattern, e)
    decreases e - from
  {
    if from < e {
      NextMatchSkips(t, pattern, from + 1, e);
    }
  }

  /** The plain text pushed before a match at `p` when the previous one ended at `from`. */
  function Before(t: string, from: nat, p: nat): seq<Fragment>
    requires from <= p <= |t|
  {
    if p > from then [Plain(t[from..p])] else []
  }

  /** The fragments the exec loop pushes from `from` on. */
  function Scan(t: string, pattern: nat -> Option<Fragment>, from: nat): seq<Fragment>
    requires from <= |t| && Fits(t, pattern)
    decreases |t| - from
  {
    match NextMatch(t, pattern, from)
    case None => if from < |t| then [Plain(t[from..])] else []
    case Some(p) =>
      var f := pattern(p).value;
      Before(t, from, p) + [f] + Scan(t, pattern, p + Width(f))
  }

  lemma Assoc(a: seq<Fragment>, b: seq<Fragment>, c: seq<Fragment>)
    ensures a + b + c == a + (b + c)
  {
  }

  lemma Regroup(a: seq<Fragment>, b: seq<Fragment>, f: Fragment, rest: seq<Fragment>)
    ensures a + b + [f] + rest == a + (b + [f] + rest)
    ensures [] + [f] + rest == [f] + rest
  {
  }

  /** A leftmost tokenization of `t[from..]`: each plain run is non-empty, holds no
      match site and is followed by a match or the end; each match is what the
      pattern matches at its own position. */
  predicate IsLeftmostTokenization(t: string, pattern: nat -> Option<Fragment>, from: nat, fs: seq<Fragment>)
    requires from <= |t|
    decreases fs
  {
    if fs == [] then from == |t|
    else
      var f := fs[0];
      var n := Width(f);
      from + n <= |t|
      && (if f.Plain? then
            n > 0 && f.text == t[from..from + n]
            && (forall k: nat :: from <= k < from + n ==> pattern(k).None?)
            && (|fs| > 1 ==> !fs[1].Plain?)
          else pattern(from) == Some(f))
      && IsLeftmostTokenization(t, pattern, from + n, fs[1..])
  }

  /** At a match site the scan pushes the match and resumes after it. */
  lemma ScanAtSite(t: string, pattern: nat -> Option<Fragment>, from: nat)
    requires from <= |t| && Fits(t, pattern) && pattern(from).Some?
    ensures Scan(t, pattern, from) ==
              [pattern(from).value] + Scan(t, pattern, from + Width(pattern(from).value))
  {
    assert NextMatch(t, pattern, from) == Some(from);
    assert Before(t, from, from) == [];
    Regroup([], [], pattern(from).value, Scan(t, pattern, from + Width(pattern(from).value)));
  }

  /** Before the next match site the scan pushes the text up to it as one plain part. */
  lemma ScanBeforeSite(t: string, pattern: nat -> Option<Fragment>, from: nat, e: nat)
    requires from < e < |t| && Fits(t, pattern)
    requires NextMatch(t, pattern, from) == Some(e)
    ensures Scan(t, pattern, from) == [Plain(t[from..e])] + Scan(t, pattern, e)
  {
    var g := pattern(e).value;
    var rest := Scan(t, pattern, e + Width(g));
    assert Scan(t, pattern, from) == Before(t, from, e) + [g] + rest;
    assert Before(t, from, e) == [Plain(t[from..e])];
    ScanAtSite(t, pattern, e);
    Assoc([Plain(t[from..e])], [g], rest);
  }

  /** Over a run without match sites that ends at a site or at the end, the scan
      pushes the run as one plain part. */
  lemma ScanOverRun(t: string, pattern: nat -> Option<Fragment>, from: nat, e: nat)
    requires from < e <= |t| && Fits(t, pattern)
    requires forall k: nat :: from <= k < e ==> pattern(k).None?
    requires e == |t| || pattern(e).Some?
    ensures Scan(t, pattern, from) == [Plain(t[from..e])] + Scan(t, pattern, e)
  {
    NextMatchSkips(t, pattern, from, e);
    if e == |t| {
      assert NextMatch(t, pattern, e).None?;
      assert Scan(t, pattern, e) == [];
      assert t[from..e] == t[from..];
    } else {
      assert NextMatch(t, pattern, e) == Some(e);
      ScanBeforeSite(t, pattern, from, e);
    }
  }

  lemma ConsMatch(t: string, pattern: nat -> Option<Fragment>, from: nat, rest: seq<Fragment>)
    requires from <= |t| && Fits(t, pattern) && pattern(from).Some?
    requires IsLeftmostTokenization(t, pattern, from + Width(pattern(from).value), rest)
    ensures IsLeftmostTokenization(t, pattern, from, [pattern(from).value] + rest)
  {
    var fs := [pattern(from).value] + rest;
    assert fs[0] == pattern(from).value;
    assert fs[1..] == rest;
  }

  lemma ConsPlain(t: string, pattern: nat -> Option<Fragment>, from: nat, e: nat, rest: seq<Fragment>)
    requires from < e <= |t|
    requires forall k: nat :: from <= k < e ==> pattern(k).None?
    requires rest == [] || !rest[0].Plain?
    requires IsLeftmostTokenization(t, pattern, e, rest)
    ensures IsLeftmostTokenization(t, pattern, from, [Plain(t[from..e])] + rest)
  {
    var fs := [Plain(t[from..e])] + rest;
    assert fs[0] == Plain(t[from..e]);
    assert Width(fs[0]) == e - from;
    assert fs[1..] == rest;
    assert |fs| > 1 ==> fs[1] == rest[0];
  }

  lemma {:induction false} FlattenAppend(a: seq<Fragment>, b: seq<Fragment>)
    ensures Flatten(a + b) == Flatten(a) + Flatten(b)
  {
    if a != [] {
      assert (a + b)[0] == a[0];
      assert (a + b)[1..] == a[1..] + b;
      FlattenAppend(a[1..], b);
    } else {
      assert a + b == b;
    }
  }

  /** At a match site, a leftmost scan after the match extends to one from the site. */
  lemma LeftmostAtSite(t: string, pattern: nat -> Option<Fragment>, p: nat)
    requires p <= |t| && Fits(t, pattern) && pattern(p).Some?
    requires IsLeftmostTokenization(t, pattern, p + Width(pattern(p).value),
                                    Scan(t, pattern, p + Width(pattern(p).value)))
    ensures IsLeftmostTokenization(t, pattern, p, Scan(t, pattern, p))
    ensures Scan(t, pattern, p) != [] && Scan(t, pattern, p)[0] == pattern(p).value
  {
    var f := pattern(p).value;
    var rest := Scan(t, pattern, p + Width(f));
    ScanAtSite(t, pattern, p);
    var fs := Scan(t, pattern, p);
    assert fs == [f] + rest;
    ConsMatch(t, pattern, p, rest);
    assert IsLeftmostTokenization(t, pattern, p, [f] + rest);
    assert fs[0] == f;
  }

  /** Over a run without match sites, a leftmost scan from the run's end extends
      to one from its start. */
  lemma LeftmostOverRun(t: string, pattern: nat -> Option<Fragment>, from: nat, e: nat)
    requires from < e <= |t| && Fits(t, pattern)
    requires forall k: nat :: from <= k < e ==> pattern(k).None?
    requires e == |t| || pattern(e).Some?
    requires IsLeftmostTokenization(t, pattern, e, Scan(t, pattern, e))
    requires Scan(t, pattern, e) == [] || !Scan(t, pattern, e)[0].Plain?
    ensures IsLeftmostTokenization(t, pattern, from, Scan(t, pattern, from))
  {
    ScanOverRun(t, pattern, from, e);
    ConsPlain(t, pattern, from, e, Scan(t, pattern, e));
  }

  /** The scan is a leftmost tokenization. */
  lemma {:induction false} ScanIsLeftmost(t: string, pattern: nat -> Option<Fragment>, from: nat)
    requires from <= |t| && Fits(t, pattern)
    ensures IsLeftmostTokenization(t, pattern, from, Scan(t, pattern, from))
    decreases |t| - from
  {
    match NextMatch(t, pattern, from)
    case None =>
      assert Scan(t, pattern, |t|) == [];
      if from < |t| {
        LeftmostOverRun(t, pattern, from, |t|);
      }
    case Some(p) =>
      ScanIsLeftmost(t, pattern, p + Width(pattern(p).value));
      LeftmostAtSite(t, pattern, p);
      if p > from {
        LeftmostOverRun(t, pattern, from, p);
      }
  }

  /** The first fragment of a tokenization spells the characters it covers. */
  lemma HeadSpelt(t: string, pattern: nat -> Option<Fragment>, from: nat, fs: seq<Fragment>)
    requires from <= |t| && Fits(t, pattern) && Spells(t, pattern)
    requires IsLeftmostTokenization(t, pattern, from, fs) && fs != []
    ensures from + Width(fs[0]) <= |t|
    ensures t[from..from + Width(fs[0])] == Raw(fs[0])
    ensures IsLeftmostTokenization(t, pattern, from + Width(fs[0]), fs[1..])
  {
  }

  lemma SliceAt(t: string, a: nat, b: nat)
    requires a <= b <= |t|
    ensures t[a..] == t[a..b] + t[b..]
  {
  }

  /** A leftmost tokenization reproduces its input: plain runs and the raw text of
      the matches, concatenated in order, give back `t[from..]`. */
  lemma {:induction false} TokenizationReconstructs(t: string, pattern: nat -> Option<Fragment>, from: nat, fs: seq<Fragment>)
    requires from <= |t| && Fits(t, pattern) && Spells(t, pattern)
    requires IsLeftmostTokenization(t, pattern, from, fs)
    ensures Flatten(fs) == t[from..]
    decreases fs
  {
    if fs != [] {
      var n := Width(fs[0]);
      HeadSpelt(t, pattern, from, fs);
      TokenizationReconstructs(t, pattern, from + n, fs[1..]);
      SliceAt(t, from, from + n);
      assert Flatten(fs) == Raw(fs[0]) + Flatten(fs[1..]);
    }
  }

  /** A plain run heading a leftmost tokenization is what the scan pushes first. */
  lemma PlainHeadIsScanned(t: string, pattern: nat -> Option<Fragment>, from: nat, fs: seq<Fragment>)
    requires from <= |t| && Fits(t, pattern)
    requires IsLeftmostTokenization(t, pattern, from, fs) && fs != [] && fs[0].Plain?
    requires fs[1..] == Scan(t, pattern, from + Width(fs[0]))
    ensures fs == Scan(t, pattern, from)
  {
    var e := from + Width(fs[0]);
    if fs[1..] != [] {
      assert fs[1..][0] == fs[1];
    }
    ScanOverRun(t, pattern, from, e);
    assert fs == [fs[0]] + fs[1..];
  }

  /** A leftmost tokenization is unique: it is the scan. */
  lemma {:induction false} TokenizationUnique(t: string, pattern: nat -> Option<Fragment>, from: nat, fs: seq<Fragment>)
    requires from <= |t| && Fits(t, pattern)
    requires IsLeftmostTokenization(t, pattern, from, fs)
    ensures fs == Scan(t, pattern, from)
    decreases fs
  {
    if fs == [] {
      assert NextMatch(t, pattern, from).None?;
    } else {
      var f := fs[0];
      TokenizationUnique(t, pattern, from + Width(f), fs[1..]);
      if f.Plain? {
        PlainHeadIsScanned(t, pattern, from, fs);
      } else {
        ScanAtSite(t, pattern, from);
        assert fs == [f] + fs[1..];
      }
    }
  }

  /** What the exec loop ends with when it has pushed `acc` and resumes at `from`. */
  function Exec(t: string, pattern: nat -> Option<Fragment>, from: nat, acc: seq<Fragment>): seq<Fragment>
    requires from <= |t| && Fits(t, pattern)
    decreases |t| - from
  {
    match NextMatch(t, pattern, from)
    case None => if from < |t| then acc + [Plain(t[from..])] else acc
    case Some(p) =>
      var f := pattern(p).value;
      Exec(t, pattern, p + Width(f), acc + Before(t, from, p) + [f])
  }

  /** Resuming the loop at `from` with `acc` pushed ends with `acc` followed by the
      scan from `from`. */
  lemma {:induction false} ExecIsScan(t: string, pattern: nat -> Option<Fragment>, from: nat, acc: seq<Fragment>)
    requires from <= |t| && Fits(t, pattern)
    ensures Exec(t, pattern, from, acc) == acc + Scan(t, pattern, from)
    decreases |t| - from
  {
    match NextMatch(t, pattern, from)
    case None =>
      assert acc + [] == acc;
    case Some(p) =>
      var f := pattern(p).value;
      var next := p + Width(f);
      ExecIsScan(t, pattern, next, acc + Before(t, from, p) + [f]);
      Regroup(acc, Before(t, from, p), f, Scan(t, pattern, next));
  }

  /** One round of the exec loop: what it ends with is unchanged by pushing the
      text before the next match and the match. */
  lemma ExecStep(t: string, pattern: nat -> Option<Fragment>, from: nat, acc: seq<Fragment>, p: nat)
    requires from <= |t| && Fits(t, pattern) && NextMatch(t, pattern, from) == Some(p)
    ensures Exec(t, pattern, from, acc) ==
              Exec(t, pattern, p + Width(pattern(p).value), acc + Before(t, from, p) + [pattern(p).value])
  {
  }

  /** One round of the exec loop as the loop body performs it: the conditional
      push of the text before the match, the match, and the jump past it. */
  lemma ExecAdvance(t: string, pattern: nat -> Option<Fragment>, from: nat, acc: seq<Fragment>,
                    p: nat, next: nat, pushed: seq<Fragment>)
    requires from <= |t| && Fits(t, pattern) && NextMatch(t, pattern, from) == Some(p)
    requires next == p + Width(pattern(p).value)
    requires pushed == (if p > from then acc + [Plain(t[from..p])] else acc) + [pattern(p).value]
    ensures next <= |t| && Exec(t, pattern, next, pushed) == Exec(t, pattern, from, acc)
  {
    ExecStep(t, pattern, from, acc, p);
    PushBefore(acc, t, from, p);
  }

  /** The loop's conditional push of the text before a match is `Before`. */
  lemma PushBefore(acc: seq<Fragment>, t: string, from: nat, p: nat)
    requires from <= p <= |t|
    ensures (if p > from then acc + [Plain(t[from..p])] else acc) == acc + Before(t, from, p)
  {
    if p <= from {
      assert acc + [] == acc;
    }
  }

  /** Once no match is left the loop pushes the rest of the text, if any, and stops. */
  lemma ExecDone(t: string, pattern: nat -> Option<Fragment>, from: nat, acc: seq<Fragment>)
    requires from <= |t| && Fits(t, pattern) && NextMatch(t, pattern, from).None?
    ensures Exec(t, pattern, from, acc) == if from < |t| then acc + [Plain(t[from..])] else acc
  {
  }

  lemma ExecFromStart(t: string, pattern: nat -> Option<Fragment>)
    requires Fits(t, pattern)
    ensures Exec(t, pattern, 0, []) == Scan(t, pattern, 0)
  {
    ExecIsScan(t, pattern, 0, []);
    assert [] + Scan(t, pattern, 0) == Scan(t, pattern, 0);
  }

  /** The `while (regex.exec(text))` loop for a given pattern: push the text before
      each match, then the match, and finally the remaining text. */
  method ExecLoop(text: string, pattern: nat -> Option<Fragment>) returns (parts: seq<Fragment>)
    requires Fits(text, pattern)
    ensures parts == Scan(text, pattern, 0)
  {
    parts := [];
    var lastIndex: nat := 0;
    var m := NextMatch(text, pattern, lastIndex);
    ghost var final := Exec(text, pattern, 0, []);
    ExecFromStart(text, pattern);
    while m.Some?
      invariant lastIndex <= |text|
      invariant m == NextMatch(text, pattern, lastIndex)
      invariant Exec(text, pattern, lastIndex, parts) == final
      decreases |text| - lastIndex
    {
      var index := m.value;
      var f := pattern(index).value;
      ghost var from, acc := lastIndex, parts;
      if index > lastIndex {
        parts := parts + [Plain(text[lastIndex..index])];
      }
      parts := parts + [f];
      lastIndex := index + Width(f);
      ExecAdvance(text, pattern, from, acc, index, lastIndex, parts);
      m := NextMatch(text, pattern, lastIndex);
    }
    ExecDone(text, pattern, lastIndex, parts);
    if lastIndex < |text| {
      parts := parts + [Plain(text[lastIndex..])];
    }
  }

  // ---- the inline formatting of the preview ----

  /** What `parseInlineFormatting` returns: the pushed parts, or the text itself
      when nothing was pushed. */
  datatype Inline = Parts(parts: seq<Fragment>) | Text(text: string)

  /** The inline result as a function of the text, for the paragraph renderer. */
  function InlineFormatting(text: string): Inline {
    PatternFits(text);
    var parts := Scan(text, Pattern(text), 0);
    if |parts| > 0 then Parts(parts) else Text(text)
  }

  /** The inline result is the leftmost tokenization of the text under the
      bold/italic/link pattern, which gives the text back and is the only such
      tokenization; the text itself comes back only when it is empty. */
  lemma InlineFormattingMeaning(text: string)
    ensures InlineFormatting(text).Parts? ==>
              IsLeftmostTokenization(text, Pattern(text), 0, InlineFormatting(text).parts)
              && Flatten(InlineFormatting(text).parts) == text
    ensures forall fs :: IsLeftmostTokenization(text, Pattern(text), 0, fs) && fs != [] ==>
              InlineFormatting(text) == Parts(fs)
    ensures InlineFormatting(text).Text? <==> text == ""
    ensures InlineFormatting(text).Text? ==> InlineFormatting(text).text == text
  {
    PatternFits(text);
    var parts := Scan(text, Pattern(text), 0);
    ScanIsLeftmost(text, Pattern(text), 0);
    TokenizationReconstructs(text, Pattern(text), 0, parts);
    forall fs | IsLeftmostTokenization(text, Pattern(text), 0, fs) && fs != []
      ensures InlineFormatting(text) == Parts(fs)
    {
      TokenizationUnique(text, Pattern(text), 0, fs);
    }
    if text != "" {
      assert Flatten([]) == "";
    }
  }

  /** `parseInlineFormatting` */
  method ParseInlineFormatting(text: string) returns (r: Inline)
    ensures r == InlineFormatting(text)
    ensures r.Parts? ==> IsLeftmostTokenization(text, Pattern(text), 0, r.parts) && Flatten(r.parts) == text
    ensures r.Text? <==> text == ""
  {
    PatternFits(text);
    var parts := ExecLoop(text, Pattern(text));
    InlineFormattingMeaning(text);
    r := if |parts| > 0 then Parts(parts) else Text(text);
  }

  /** With no match site anywhere, a non-empty input is one plain part equal to
      the input, and the empty input comes back as the text itself. */
  lemma NoMatchIsPlain(t: string)
    requires forall k :: 0 <= k <= |t| ==> MatchAt(t, k).None?
    ensures t != "" ==> InlineFormatting(t) == Parts([Plain(t)])
    ensures t == "" ==> InlineFormatting(t) == Text(t)
  {
    PatternFits(t);
    NextMatchSkips(t, Pattern(t), 0, |t|);
    assert t[0..] == t;
  }

  /** A match at the start that covers the whole text is the whole result. */
  lemma WholeMatch(t: string, f: Fragment)
    requires |t| > 0 && MatchAt(t, 0) == Some(f) && Width(f) == |t|
    ensures InlineFormatting(t) == Parts([f])
  {
    PatternFits(t);
    var m := Pattern(t);
    assert m(0) == Some(f);
    assert NextMatch(t, m, 0) == Some(0);
    assert NextMatch(t, m, |t|).None?;
    assert Scan(t, m, |t|) == [];
    Regroup([], [], f, []);
  }

  /** A text that is one bold span is parsed as that span alone. */
  lemma BoldAlone(b: string)
    requires |b| > 0 && '*' !in b
    ensures InlineFormatting("**" + b + "**") == Parts([Bold(b)])
  {
    var t := "**" + b + "**";
    assert t[0..] == t;
    assert IsBoldAt(t, 0, b);
    MatchPriority(t, 0);
    WholeMatch(t, Bold(b));
  }

  /** A text that is one italic span is parsed as that span alone. */
  lemma ItalicAlone(b: string)
    requires |b| > 0 && '*' !in b
    ensures InlineFormatting("*" + b + "*") == Parts([Italic(b)])
  {
    var t := "*" + b + "*";
    assert t[0..] == t;
    assert IsItalicAt(t, 0, b);
    assert t[1] == b[0];
    assert BoldAt(t, 0).None?;
    MatchPriority(t, 0);
    WholeMatch(t, Italic(b));
  }

  /** A text that is one link is parsed as that link alone. */
  lemma LinkAlone(l: string, u: string)
    requires |l| > 0 && ']' !in l && |u| > 0 && ')' !in u
    ensures InlineFormatting("[" + l + "](" + u + ")") == Parts([Link(l, u)])
  {
    var t := "[" + l + "](" + u + ")";
    assert t[0..] == t;
    assert IsLinkAt(t, 0, l, u);
    assert t[0] == '[';
    assert BoldAt(t, 0).None? && ItalicAt(t, 0).None?;
    MatchPriority(t, 0);
    WholeMatch(t, Link(l, u));
  }

  // ---- paragraphs ----

  predicate IsListLine(line: string) {
    StartsWith(Trim(line), "- ")
  }

  lemma ConsIndex(x: string, rest: seq<string>)
    ensures forall k :: 1 <= k <= |rest| ==> ([x] + rest)[k] == rest[k - 1]
  {
  }

  /** `lines.filter(line => line.trim().startsWith('- '))` */
  function ListLines(lines: seq<string>): (r: seq<string>)
    ensures forall k :: 0 <= k < |r| ==> IsListLine(r[k])
    ensures |r| <= |lines|
  {
    if lines == [] then []
    else
      var rest := ListLines(lines[1..]);
      if IsListLine(lines[0]) then
        ConsIndex(lines[0], rest);
        [lines[0]] + rest
      else rest
  }

  /** The filter keeps exactly the list lines. */
  lemma {:induction false} ListLinesMembers(lines: seq<string>)
    ensures forall l :: l in ListLines(lines) <==> l in lines && IsListLine(l)
  {
    if lines != [] {
      ListLinesMembers(lines[1..]);
      assert lines == [lines[0]] + lines[1..];
    }
  }

  /** `item.substring(2).trim()`: the marker is cut from the line as written,
      so for an indented line it is not the `- ` that is cut. */
  function ListItemText(line: string): string {
    Trim(SubstringFrom(line, 2))
  }

  function ListItems(paragraph: string): (r: seq<string>)
    ensures forall k :: 0 <= k < |r| ==> IsTrimmed(r[k])
  {
    var lines := ListLines(Split(paragraph, "\n"));
    seq(|lines|, i requires 0 <= i < |lines| => ListItemText(lines[i]))
  }

  /** The header line of a `# ` paragraph: the text after `# ` up to the first ` #`,
      and the trimmed rest; without a closing ` #` after the first character, the whole text. */
  function SplitHeader(paragraph: string): (string, string) {
    HeaderParts(SubstringFrom(Trim(paragraph), 2))
  }

  /** The split of the text after `# `, by the first ` #` that is not at its start. */
  function HeaderParts(t: string): (string, string) {
    var i := IndexOf(t, " #");
    if i > 0 then (t[..i], Trim(t[i + 2..])) else (t, "")
  }

  /** A cut at the first occurrence loses nothing but the marker, and the part
      before the cut holds no occurrence. */
  lemma CutAtFirst(t: string, i: int)
    requires i == IndexOf(t, " #") && i > 0
    ensures t[..i] + " #" + t[i + 2..] == t
    ensures IndexOf(t[..i], " #") == -1
  {
    assert t[i..i + 2] == " #";
    assert t == t[..i] + t[i..i + 2] + t[i + 2..];
    forall j ensures !OccursAt(t[..i], " #", j) {
      if OccursAt(t[..i], " #", j) { OccursInPrefix(t, " #", i, j); }
    }
  }

  lemma HeaderPartsMeaning(t: string)
    ensures var (title, content) := HeaderParts(t);
            && (IndexOf(t, " #") > 0 ==>
                  && title + " #" + t[|title| + 2..] == t
                  && IndexOf(title, " #") == -1
                  && |title| > 0
                  && content == Trim(t[|title| + 2..]))
            && (IndexOf(t, " #") <= 0 ==> title == t && content == "")
  {
    var i := IndexOf(t, " #");
    if i > 0 {
      CutAtFirst(t, i);
    }
  }

  /** The header split cuts at the first ` #` and loses nothing but that marker and
      the spaces around the continuation. */
  lemma HeaderSplit(paragraph: string)
    requires StartsWith(Trim(paragraph), "# ")
    ensures var t := Trim(paragraph)[2..];
            var (title, content) := SplitHeader(paragraph);
            && (IndexOf(t, " #") > 0 ==>
                  && title + " #" + t[|title| + 2..] == t
                  && IndexOf(title, " #") == -1
                  && |title| > 0
                  && content == Trim(t[|title| + 2..]))
            && (IndexOf(t, " #") <= 0 ==> title == t && content == "")
  {
    var t := Trim(paragraph)[2..];
    assert SplitHeader(paragraph) == HeaderParts(t);
    HeaderPartsMeaning(t);
  }

  datatype Block =
    | BulletList(items: seq<Inline>)
    | Header(title: Inline, content: Option<Inline>)   // content only when non-empty
    | Spacer
    | Paragraph(body: Inline)

  /** How the preview renders one paragraph. */
  function RenderParagraph(paragraph: string): Block {
    var trimmed := Trim(paragraph);
    if StartsWith(trimmed, "- ") then
      var items := ListItems(paragraph);
      BulletList(seq(|items|, i requires 0 <= i < |items| => InlineFormatting(items[i])))
    else if StartsWith(trimmed, "# ") then
      var (title, content) := SplitHeader(paragraph);
      Header(InlineFormatting(title), if content != "" then Some(InlineFormatting(content)) else None)
    else if trimmed == "" then Spacer
    else Paragraph(InlineFormatting(paragraph))
  }

  /** Paragraph kinds in priority order: list, then header, then spacer for a
      whitespace-only paragraph, then regular; and what each kind carries. */
  lemma ParagraphClassification(paragraph: string)
    ensures var b := RenderParagraph(paragraph);
            var trimmed := Trim(paragraph);
            && (b.BulletList? <==> StartsWith(trimmed, "- "))
            && (b.Header? <==> !StartsWith(trimmed, "- ") && StartsWith(trimmed, "# "))
            && (b.Spacer? <==> !StartsWith(trimmed, "- ") && !StartsWith(trimmed, "# ")
                               && AllWhitespace(paragraph))
            && (b.Paragraph? <==> !StartsWith(trimmed, "- ") && !StartsWith(trimmed, "# ")
                                  && !AllWhitespace(paragraph))
            && (b.Paragraph? ==> b.body == InlineFormatting(paragraph))
            && (b.Header? ==> (b.content.Some? <==> SplitHeader(paragraph).1 != ""))
  {
    TrimEmptyIffWhitespace(paragraph);
  }

  /** List items are the marked lines, in order, each cut and trimmed. */
  lemma ListItemsAreMarkedLines(paragraph: string)
    ensures var lines := ListLines(Split(paragraph, "\n"));
            && |ListItems(paragraph)| == |lines|
            && (forall k :: 0 <= k < |lines| ==>
                  IsListLine(lines[k]) && ListItems(paragraph)[k] == ListItemText(lines[k]))
  {
  }

  /** An indented list line keeps its own marker: `"  - " + x` renders as `"- " + x`. */
  lemma IndentedItemKeepsMarker(x: string)
    requires x != [] && IsTrimmed(x)
    ensures IsListLine("  - " + x)
    ensures ListItemText("  - " + x) == "- " + x
  {
    var y := "- " + x;
    MarkedItemTrimmed(x);
    IndentedLine(x);
    TrimTwoSpaces(y);
    TrimIdempotent(y);
  }

  lemma MarkedItemTrimmed(x: string)
    requires x != [] && IsTrimmed(x)
    ensures IsTrimmed("- " + x) && StartsWith("- " + x, "- ")
  {
    var y := "- " + x;
    assert y[0] == '-' && y[|y| - 1] == x[|x| - 1];
  }

  lemma IndentedLine(x: string)
    ensures "  - " + x == "  " + ("- " + x)
    ensures SubstringFrom("  - " + x, 2) == "- " + x
  {
    assert ("  - " + x)[2..] == "- " + x;
  }

  /** The live preview: the text split at blank lines, one block per paragraph. */
  function RenderPreview(text: string): seq<Block> {
    var paragraphs := Split(text, "\n\n");
    seq(|paragraphs|, i requires 0 <= i < |paragraphs| => RenderParagraph(paragraphs[i]))
  }

  /** The preview shows at least one block, and its blocks render pieces of the
      text that hold no blank line and, joined back with blank lines, give the
      whole text. */
  lemma PreviewCoversText(text: string)
    ensures var ps := Split(text, "\n\n");
            && |RenderPreview(text)| == |ps| >= 1
            && Join(ps, "\n\n") == text
            && (forall k :: 0 <= k < |ps| ==> !Contains(ps[k], "\n\n"))
            && (forall k :: 0 <= k < |ps| ==> RenderPreview(text)[k] == RenderParagraph(ps[k]))
  {
    JoinSplit(text, "\n\n");
  }
}
