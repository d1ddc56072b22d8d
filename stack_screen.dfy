/** The "stack" screen: the skills of one category, ordered by their `order`
    field.  `Array.prototype.sort` is stable, so skills of equal order keep the
    order in which they were listed. */
module StackScreen {
  import opened JsStrings
  import opened ProjectTypes

  /** The category shown when none is given. */
  const DefaultCategory := Frontend

  predicate SortedByOrder(xs: seq<Skill>) {
    forall i, j :: 0 <= i < j < |xs| ==> xs[i].order <= xs[j].order
  }

  /** `x` put into a list before the first skill of the same or a higher order. */
  function Insert(x: Skill, xs: seq<Skill>): (r: seq<Skill>)
    ensures |r| == |xs| + 1
    ensures multiset(r) == multiset(xs) + multiset{x}
  {
    if xs == [] then [x]
    else if x.order <= xs[0].order then [x] + xs
    else
      assert xs == [xs[0]] + xs[1..];
      [xs[0]] + Insert(x, xs[1..])
  }

  /** Inserting into a sorted list keeps it sorted. */
  lemma {:induction false} InsertKeepsSorted(x: Skill, xs: seq<Skill>)
    requires SortedByOrder(xs)
    ensures SortedByOrder(Insert(x, xs))
  {
    if xs != [] && x.order > xs[0].order {
      var rest := Insert(x, xs[1..]);
      assert SortedByOrder(xs[1..]);
      InsertKeepsSorted(x, xs[1..]);
      forall k | 0 <= k < |rest| ensures xs[0].order <= rest[k].order {
        assert rest[k] in multiset(rest);
        assert rest[k] == x || rest[k] in multiset(xs[1..]);
        if rest[k] != x {
          var j :| 0 <= j < |xs[1..]| && xs[1..][j] == rest[k];
          assert xs[j + 1] == rest[k];
        }
      }
      SortedCons(xs[0], rest);
    }
  }

  lemma SortedCons(y: Skill, rest: seq<Skill>)
    requires SortedByOrder(rest)
    requires forall k :: 0 <= k < |rest| ==> y.order <= rest[k].order
    ensures SortedByOrder([y] + rest)
  {
    var r := [y] + rest;
    forall i, j | 0 <= i < j < |r| ensures r[i].order <= r[j].order {
      assert r[j] == rest[j - 1];
      if i > 0 {
        assert r[i] == rest[i - 1];
      }
    }
  }

  /** `.sort((a, b) => a.order - b.order)`, as a stable insertion sort. */
  function SortByOrder(xs: seq<Skill>): (r: seq<Skill>)
    ensures |r| == |xs|
    ensures multiset(r) == multiset(xs)
    ensures SortedByOrder(r)
  {
    if xs == [] then []
    else
      assert xs == [xs[0]] + xs[1..];
      var sorted := SortByOrder(xs[1..]);
      InsertKeepsSorted(xs[0], sorted);
      Insert(xs[0], sorted)
  }

  /** `skills.filter(s => s.category === category).sort((a, b) => a.order - b.order)` */
  function CategorySkills(skills: seq<Skill>, category: Category): seq<Skill> {
    SortByOrder(OfCategory(skills, category))
  }

  /** The category given to the screen, or the default. */
  function ShownCategory(category: Option<Category>): (r: Category)
    ensures category.None? ==> r == Frontend
    ensures category.Some? ==> r == category.value
  {
    if category.Some? then category.value else DefaultCategory
  }

  /** The screen shows exactly the skills of the category, sorted by order, each as
      many times as it is listed. */
  lemma CategorySkillsContents(skills: seq<Skill>, category: Category)
    ensures forall s :: s in CategorySkills(skills, category) <==> s in skills && s.category == category
    ensures multiset(CategorySkills(skills, category)) == multiset(OfCategory(skills, category))
    ensures SortedByOrder(CategorySkills(skills, category))
  {
    var f := OfCategory(skills, category);
    OfCategoryMembers(skills, category);
    assert forall s :: s in CategorySkills(skills, category) <==> s in multiset(f);
  }

  /** The skills of order `v`, in list order. */
  function OfOrder(xs: seq<Skill>, v: int): (r: seq<Skill>)
    ensures |r| <= |xs|
  {
    if xs == [] then []
    else if xs[0].order == v then [xs[0]] + OfOrder(xs[1..], v)
    else OfOrder(xs[1..], v)
  }

  /** Inserting into a sorted list puts `x` ahead of every skill of its own order. */
  lemma {:induction false} InsertOfOrder(x: Skill, xs: seq<Skill>, v: int)
    requires SortedByOrder(xs)
    ensures OfOrder(Insert(x, xs), v) == if x.order == v then [x] + OfOrder(xs, v) else OfOrder(xs, v)
  {
    if xs != [] && x.order > xs[0].order {
      assert SortedByOrder(xs[1..]);
      InsertOfOrder(x, xs[1..], v);
      assert Insert(x, xs) == [xs[0]] + Insert(x, xs[1..]);
    }
  }

  /** The sort is stable: the skills of any one order come out in the order they went in. */
  lemma {:induction false} SortIsStable(xs: seq<Skill>, v: int)
    ensures OfOrder(SortByOrder(xs), v) == OfOrder(xs, v)
  {
    if xs != [] {
      SortIsStable(xs[1..], v);
      InsertOfOrder(xs[0], SortByOrder(xs[1..]), v);
    }
  }

  /** On the screen, the skills of equal order keep their listed order. */
  lemma CategorySkillsStable(skills: seq<Skill>, category: Category, v: int)
    ensures OfOrder(CategorySkills(skills, category), v) == OfOrder(OfCategory(skills, category), v)
  {
    SortIsStable(OfCategory(skills, category), v);
  }
}
