/** The skills page: skills grouped by category, each group in input order, the
    groups listed in the order in which their categories first appear. */
module SkillGroups {
  import opened ProjectTypes

  /** The categories of `xs`, each once, in order of first appearance. */
  function FirstAppearances(xs: seq<Skill>): (r: seq<Category>)
    ensures |r| <= |xs|
  {
    if xs == [] then []
    else
      var p := FirstAppearances(xs[..|xs| - 1]);
      var c := xs[|xs| - 1].category;
      if c in p then p else p + [c]
  }

  /** The listed categories are exactly those of the skills. */
  lemma {:induction false} FirstAppearancesMembers(xs: seq<Skill>)
    ensures forall c :: c in FirstAppearances(xs) <==> exists s :: s in xs && s.category == c
  {
    if xs != [] {
      var init := xs[..|xs| - 1];
      FirstAppearancesMembers(init);
      assert xs == init + [xs[|xs| - 1]];
      assert forall s :: s in xs <==> s in init || s == xs[|xs| - 1];
    }
  }

  predicate Distinct(cs: seq<Category>) {
    forall i, j :: 0 <= i < j < |cs| ==> cs[i] != cs[j]
  }

  /** No category is listed twice. */
  lemma {:induction false} FirstAppearancesDistinct(xs: seq<Skill>)
    ensures Distinct(FirstAppearances(xs))
  {
    if xs != [] {
      FirstAppearancesDistinct(xs[..|xs| - 1]);
    }
  }

  /** A category's group follows the categories that appeared before it, so
      appending a skill never reorders the groups already there. */
  lemma FirstAppearancesSnoc(xs: seq<Skill>, s: Skill)
    ensures FirstAppearances(xs + [s])
              == if s.category in FirstAppearances(xs) then FirstAppearances(xs)
                 else FirstAppearances(xs) + [s.category]
  {
    assert (xs + [s])[..|xs + [s]| - 1] == xs;
  }

  /** `skills.reduce(...)` into a record: `keys` are the record's keys in insertion
      order and `groups` its arrays. */
  method GroupByCategory(skills: seq<Skill>) returns (keys: seq<Category>, groups: map<Category, seq<Skill>>)
    ensures keys == FirstAppearances(skills)
    ensures forall c :: c in groups <==> c in keys
    ensures forall c :: c in groups ==> groups[c] == OfCategory(skills, c)
  {
    keys := [];
    groups := map[];
    for i := 0 to |skills|
      invariant keys == FirstAppearances(skills[..i])
      invariant groups == GroupsOf(skills[..i])
    {
      var skill := skills[i];
      assert skills[..i + 1] == skills[..i] + [skill];
      FirstAppearancesSnoc(skills[..i], skill);
      if skill.category !in groups {
        GroupsOfSnocAbsent(skills[..i], skill);
        groups := groups[skill.category := []];
        keys := keys + [skill.category];
      } else {
        GroupsOfSnocPresent(skills[..i], skill);
      }
      groups := groups[skill.category := groups[skill.category] + [skill]];
    }
    assert skills[..|skills|] == skills;
  }

  /** The record the reduction builds: one entry per category present, holding
      that category's skills. */
  function GroupsOf(xs: seq<Skill>): map<Category, seq<Skill>> {
    map c | c in FirstAppearances(xs) :: OfCategory(xs, c)
  }

  /** A push onto the array of a category already present. */
  lemma GroupsOfSnocPresent(xs: seq<Skill>, s: Skill)
    requires s.category in FirstAppearances(xs)
    ensures GroupsOf(xs + [s]) == GroupsOf(xs)[s.category := GroupsOf(xs)[s.category] + [s]]
  {
    var c := s.category;
    FirstAppearancesSnoc(xs, s);
    OfCategorySnoc(xs, s);
    var a := GroupsOf(xs + [s]);
    var b := GroupsOf(xs)[c := GroupsOf(xs)[c] + [s]];
    assert forall d :: d in a <==> d in b;
    forall d | d in a ensures a[d] == b[d] {
      if d == c {
        assert a[d] == OfCategory(xs, c) + [s];
      } else {
        assert a[d] == OfCategory(xs, d) && b[d] == GroupsOf(xs)[d];
      }
    }
    MapExt(a, b);
  }

  /** A new category's array, created empty and then pushed onto. */
  lemma GroupsOfSnocAbsent(xs: seq<Skill>, s: Skill)
    requires s.category !in FirstAppearances(xs)
    ensures GroupsOf(xs + [s]) == GroupsOf(xs)[s.category := []][s.category := [] + [s]]
  {
    var c := s.category;
    FirstAppearancesSnoc(xs, s);
    OfCategorySnoc(xs, s);
    OfCategoryAbsent(xs, c);
    var a := GroupsOf(xs + [s]);
    var b := GroupsOf(xs)[c := []][c := [] + [s]];
    assert forall d :: d in a <==> d in b;
    forall d | d in a ensures a[d] == b[d] {
      if d == c {
        assert a[d] == OfCategory(xs, c) + [s];
      } else {
        assert a[d] == OfCategory(xs, d) && b[d] == GroupsOf(xs)[d];
      }
    }
    MapExt(a, b);
  }

  lemma MapExt(a: map<Category, seq<Skill>>, b: map<Category, seq<Skill>>)
    requires forall d :: d in a <==> d in b
    requires forall d :: d in a ==> a[d] == b[d]
    ensures a == b
  {
  }

  /** A category that has not appeared has an empty group. */
  lemma OfCategoryAbsent(xs: seq<Skill>, c: Category)
    requires c !in FirstAppearances(xs)
    ensures OfCategory(xs, c) == []
  {
    FirstAppearancesMembers(xs);
    forall k | 0 <= k < |xs| ensures xs[k].category != c {
      assert xs[k] in xs;
    }
    OfCategoryNone(xs, c);
  }

  lemma {:induction false} OfCategoryNone(xs: seq<Skill>, c: Category)
    requires forall k :: 0 <= k < |xs| ==> xs[k].category != c
    ensures OfCategory(xs, c) == []
  {
    if xs != [] {
      OfCategoryNone(xs[1..], c);
    }
  }

  /** Appending a skill appends it to its own category's group and to no other. */
  lemma OfCategorySnoc(xs: seq<Skill>, s: Skill)
    ensures forall c :: OfCategory(xs + [s], c)
              == if s.category == c then OfCategory(xs, c) + [s] else OfCategory(xs, c)
  {
    forall c ensures OfCategory(xs + [s], c) == OfCategory(xs, c) + OfCategory([s], c) {
      OfCategoryAppend(xs, [s], c);
    }
  }

  /** Every skill is in the group of its own category and in no other. */
  lemma SkillInItsGroupOnly(skills: seq<Skill>, s: Skill, c: Category)
    requires s in skills
    ensures s in OfCategory(skills, c) <==> c == s.category
    ensures s.category in FirstAppearances(skills)
  {
    OfCategoryMembers(skills, c);
    FirstAppearancesMembers(skills);
  }

  /** The combined size of the groups of `cs`. */
  function GroupSizes(skills: seq<Skill>, cs: seq<Category>): (r: nat) {
    if cs == [] then 0 else |OfCategory(skills, cs[0])| + GroupSizes(skills, cs[1..])
  }

  function Occurrences(cs: seq<Category>, c: Category): nat {
    if cs == [] then 0 else (if cs[0] == c then 1 else 0) + Occurrences(cs[1..], c)
  }

  /** Taking one skill off the front shrinks exactly the groups of its category. */
  lemma {:induction false} GroupSizesCons(skills: seq<Skill>, cs: seq<Category>)
    requires skills != []
    ensures GroupSizes(skills, cs) == GroupSizes(skills[1..], cs) + Occurrences(cs, skills[0].category)
  {
    if cs != [] {
      GroupSizesCons(skills, cs[1..]);
    }
  }

  lemma {:induction false} DistinctOccurrences(cs: seq<Category>, c: Category)
    requires Distinct(cs)
    ensures Occurrences(cs, c) == if c in cs then 1 else 0
  {
    if cs != [] {
      assert Distinct(cs[1..]);
      DistinctOccurrences(cs[1..], c);
      if cs[0] == c {
        assert c !in cs[1..];
      }
    }
  }

  /** Over distinct categories that include every category present, the group sizes
      add up to the number of skills. */
  lemma {:induction false} GroupSizesCover(skills: seq<Skill>, cs: seq<Category>)
    requires Distinct(cs)
    requires forall k :: 0 <= k < |skills| ==> skills[k].category in cs
    ensures GroupSizes(skills, cs) == |skills|
  {
    if skills == [] {
      GroupSizesEmpty(cs);
    } else {
      GroupSizesCons(skills, cs);
      DistinctOccurrences(cs, skills[0].category);
      GroupSizesCover(skills[1..], cs);
    }
  }

  lemma {:induction false} GroupSizesEmpty(cs: seq<Category>)
    ensures GroupSizes([], cs) == 0
  {
    if cs != [] {
      GroupSizesEmpty(cs[1..]);
    }
  }

  /** The groups the skills page lists hold all the skills between them. */
  lemma GroupsPartitionSkills(skills: seq<Skill>)
    ensures GroupSizes(skills, FirstAppearances(skills)) == |skills|
  {
    FirstAppearancesDistinct(skills);
    FirstAppearancesMembers(skills);
    forall k | 0 <= k < |skills| ensures skills[k].category in FirstAppearances(skills) {
      assert skills[k] in skills;
    }
    GroupSizesCover(skills, FirstAppearances(skills));
  }
}
