/** The taxonomy index (`PromptCategory` and `Prompt`): built once from a
    nested mapping whose leaves are [japaneseText, text] pairs, each node
    carrying its rank, the path of sibling indices from the root. */
module Taxonomy {
  import opened Ranks

  datatype Option<T> = None | Some(value: T)

  /** The nested mapping the taxonomy is built from: an array of
      [japaneseText, text] pairs, or an object of named sub-mappings in key order. */
  datatype Source =
    | Terms(pairs: seq<(string, string)>)
    | Categories(subs: seq<(string, Source)>)

  /** A taxonomy term. The back-reference to the owning category is not kept. */
  datatype Prompt = Prompt(japaneseText: string, text: string, rank: Rank)

  /** A category holds only prompts (built from an array) or only
      sub-categories (built from an object). The root has no name. */
  datatype Category =
    | PromptList(name: Option<string>, rank: Rank, prompts: seq<Prompt>)
    | CategoryList(name: Option<string>, rank: Rank, subs: seq<Category>)

  /** What the `PromptCategory` constructor produces. */
  function Build(tree: Source, name: Option<string>, rank: Rank): Category
    decreases tree
  {
    match tree
    case Terms(pairs) =>
      PromptList(name, rank, seq(|pairs|, i requires 0 <= i < |pairs| => Prompt(pairs[i].0, pairs[i].1, rank + [i])))
    case Categories(subs) =>
      CategoryList(name, rank, seq(|subs|, i requires 0 <= i < |subs| => Build(subs[i].1, Some(subs[i].0), rank + [i])))
  }

  /** The constructor's loop: children are pushed one by one while a
      counter supplies the last entry of each child's rank. */
  method NewCategory(tree: Source, name: Option<string>, rank: Rank) returns (c: Category)
    ensures c == Build(tree, name, rank)
    decreases tree
  {
    var leafRank := 0;
    match tree {
      case Terms(pairs) =>
        var children: seq<Prompt> := [];
        while leafRank < |pairs|
          invariant 0 <= leafRank <= |pairs| && |children| == leafRank
          invariant forall i :: 0 <= i < leafRank ==> children[i] == Prompt(pairs[i].0, pairs[i].1, rank + [i])
        {
          children := children + [Prompt(pairs[leafRank].0, pairs[leafRank].1, rank + [leafRank])];
          leafRank := leafRank + 1;
        }
        c := PromptList(name, rank, children);
      case Categories(subs) =>
        var children: seq<Category> := [];
        while leafRank < |subs|
          invariant 0 <= leafRank <= |subs| && |children| == leafRank
          invariant forall i :: 0 <= i < leafRank ==> children[i] == Build(subs[i].1, Some(subs[i].0), rank + [i])
        {
          var sub := NewCategory(subs[leafRank].1, Some(subs[leafRank].0), rank + [leafRank]);
          children := children + [sub];
          leafRank := leafRank + 1;
        }
        c := CategoryList(name, rank, children);
    }
  }

  /** Depth-first iteration (`[Symbol.iterator]`): prompts in declaration order. */
  function Prompts(c: Category): seq<Prompt>
    decreases c, 1
  {
    match c
    case PromptList(_, _, ps) => ps
    case CategoryList(_, _, subs) => PromptsOf(subs)
  }

  function PromptsOf(subs: seq<Category>): seq<Prompt>
    decreases subs, 0
  {
    if subs == [] then [] else Prompts(subs[0]) + PromptsOf(subs[1..])
  }

  /** Every child's rank is its parent's rank extended by its sibling index. */
  ghost predicate WellRanked(c: Category)
    decreases c
  {
    match c
    case PromptList(_, r, ps) =>
      forall i :: 0 <= i < |ps| ==> ps[i].rank == r + [i]
    case CategoryList(_, r, subs) =>
      forall i :: 0 <= i < |subs| ==> subs[i].rank == r + [i] && WellRanked(subs[i])
  }

  /** The i-th child of a category gets rank `parent.rank ++ [i]`; array
      input yields only prompts, object input only sub-categories. */
  lemma {:induction false} BuildWellRanked(tree: Source, name: Option<string>, rank: Rank)
    ensures Build(tree, name, rank).rank == rank
    ensures Build(tree, name, rank).PromptList? <==> tree.Terms?
    ensures WellRanked(Build(tree, name, rank))
    decreases tree
  {
    match tree
    case Terms(_) =>
    case Categories(subs) =>
      var c := Build(tree, name, rank);
      forall i | 0 <= i < |subs|
        ensures c.subs[i].rank == rank + [i] && WellRanked(c.subs[i])
      {
        BuildWellRanked(subs[i].1, Some(subs[i].0), rank + [i]);
      }
  }

  /** Ranks strictly increase along a sequence of prompts. */
  ghost predicate Increasing(ps: seq<Prompt>)
  {
    forall i, j :: 0 <= i < j < |ps| ==> Before(ps[i].rank, ps[j].rank)
  }

  /** `a` lies under `r` at a child index of at least `k`. */
  ghost predicate Under(a: Rank, r: Rank, k: nat)
  {
    |a| > |r| && a[..|r|] == r && a[|r|] >= k
  }

  lemma UnderBefore(a: Rank, b: Rank, r: Rank)
    requires Under(a, r, 0) && Under(b, r, a[|r|] + 1)
    ensures Before(a, b)
  {
    forall j | 0 <= j < |r| ensures At(a, j) == At(b, j) {
      assert a[..|r|][j] == b[..|r|][j];
    }
    BeforeAtFirstDifference(a, b, |r|);
  }

  lemma UnderExtends(a: Rank, r: Rank, k: nat)
    requires |a| > |r| && a[..|r| + 1] == r + [k]
    ensures Under(a, r, k) && a[|r|] == k
  {
    assert a[..|r|] == a[..|r| + 1][..|r|];
    assert a[|r|] == a[..|r| + 1][|r|];
  }

  lemma {:induction false} IncreasingConcat(s: seq<Prompt>, t: seq<Prompt>)
    requires Increasing(s) && Increasing(t)
    requires forall i, j :: 0 <= i < |s| && 0 <= j < |t| ==> Before(s[i].rank, t[j].rank)
    ensures Increasing(s + t)
  {
    var st := s + t;
    forall i, j | 0 <= i < j < |st| ensures Before(st[i].rank, st[j].rank) {
      if j < |s| {
      } else if i >= |s| {
        assert st[i] == t[i - |s|] && st[j] == t[j - |s|];
      } else {
        assert st[j] == t[j - |s|];
      }
    }
  }

  /** Depth-first iteration visits prompts in strictly increasing rank order,
      and every prompt of a category lies below that category's rank. */
  lemma {:induction false} IterationOrdered(c: Category)
    requires WellRanked(c)
    ensures Increasing(Prompts(c))
    ensures forall p :: p in Prompts(c) ==> Under(p.rank, c.rank, 0)
    decreases c, 1
  {
    match c
    case PromptList(_, r, ps) =>
      forall i, j | 0 <= i < j < |ps| ensures Before(ps[i].rank, ps[j].rank) {
        UnderExtends(ps[i].rank, r, i);
        UnderExtends(ps[j].rank, r, j);
        UnderBefore(ps[i].rank, ps[j].rank, r);
      }
      forall p | p in ps ensures Under(p.rank, r, 0) {
        var i :| 0 <= i < |ps| && ps[i] == p;
        UnderExtends(ps[i].rank, r, i);
      }
    case CategoryList(_, r, subs) =>
      IterationOrderedOf(subs, r, 0);
  }

  lemma {:induction false} IterationOrderedOf(subs: seq<Category>, r: Rank, base: nat)
    requires forall i :: 0 <= i < |subs| ==> subs[i].rank == r + [base + i] && WellRanked(subs[i])
    ensures Increasing(PromptsOf(subs))
    ensures forall p :: p in PromptsOf(subs) ==> Under(p.rank, r, base)
    decreases subs, 0
  {
    if subs != [] {
      var head, tail := Prompts(subs[0]), PromptsOf(subs[1..]);
      IterationOrdered(subs[0]);
      IterationOrderedOf(subs[1..], r, base + 1);
      forall p | p in head ensures Under(p.rank, r, base) && p.rank[|r|] == base {
        assert p.rank[..|r| + 1] == p.rank[..|r| + 1 + 1][..|r| + 1] by {
          assert Under(p.rank, r + [base], 0);
        }
        UnderExtends(p.rank, r, base);
      }
      forall i, j | 0 <= i < |head| && 0 <= j < |tail| ensures Before(head[i].rank, tail[j].rank) {
        assert head[i] in head && tail[j] in tail;
        UnderBefore(head[i].rank, tail[j].rank, r);
      }
      IncreasingConcat(head, tail);
    }
  }

  // ---------------------------------------------------------------------
  // Lookups: `findByText`, `findByJapaneseText`.

  /** The first prompt of the iteration satisfying `f`, searched the way the
      lazy iterator is: a category's own prompts, then its sub-categories in order. */
  function Find(c: Category, f: Prompt -> bool): (r: Option<Prompt>)
    ensures r.None? <==> forall p :: p in Prompts(c) ==> !f(p)
    ensures r.Some? ==> exists i :: 0 <= i < |Prompts(c)| && Prompts(c)[i] == r.value && f(r.value)
                          && forall j :: 0 <= j < i ==> !f(Prompts(c)[j])
    decreases c, 1
  {
    match c
    case PromptList(_, _, ps) => FindIn(ps, f)
    case CategoryList(_, _, subs) => FindOf(subs, f)
  }

  function FindIn(ps: seq<Prompt>, f: Prompt -> bool): (r: Option<Prompt>)
    ensures r.None? <==> forall p :: p in ps ==> !f(p)
    ensures r.Some? ==> exists i :: 0 <= i < |ps| && ps[i] == r.value && f(r.value)
                          && forall j :: 0 <= j < i ==> !f(ps[j])
  {
    if ps == [] then None
    else if f(ps[0]) then Some(ps[0])
    else
      var r := FindIn(ps[1..], f);
      assert forall p :: p in ps[1..] ==> p in ps;
      assert r.Some? ==> exists i :: 0 <= i < |ps| && ps[i] == r.value && f(r.value)
                            && forall j :: 0 <= j < i ==> !f(ps[j]) by {
        if r.Some? {
          var i :| 0 <= i < |ps[1..]| && ps[1..][i] == r.value && forall j :: 0 <= j < i ==> !f(ps[1..][j]);
          assert forall j :: 1 <= j < i + 1 ==> ps[j] == ps[1..][j - 1];
        }
      }
      r
  }

  function FindOf(subs: seq<Category>, f: Prompt -> bool): (r: Option<Prompt>)
    ensures r.None? <==> forall p :: p in PromptsOf(subs) ==> !f(p)
    ensures r.Some? ==> exists i :: 0 <= i < |PromptsOf(subs)| && PromptsOf(subs)[i] == r.value && f(r.value)
                          && forall j :: 0 <= j < i ==> !f(PromptsOf(subs)[j])
    decreases subs, 0
  {
    if subs == [] then None
    else
      var head := Find(subs[0], f);
      var all := PromptsOf(subs);
      var first := Prompts(subs[0]);
      assert all == first + PromptsOf(subs[1..]);
      if head.Some? then
        assert head.Some? ==> exists i :: 0 <= i < |all| && all[i] == head.value && f(head.value)
                                 && forall j :: 0 <= j < i ==> !f(all[j]) by {
          if head.Some? {
            var i :| 0 <= i < |first| && first[i] == head.value && forall j :: 0 <= j < i ==> !f(first[j]);
            assert all[i] == first[i];
          }
        }
        head
      else
        var r := FindOf(subs[1..], f);
        assert r.Some? ==> exists i :: 0 <= i < |all| && all[i] == r.value && f(r.value)
                              && forall j :: 0 <= j < i ==> !f(all[j]) by {
          if r.Some? {
            var rest := PromptsOf(subs[1..]);
            var i :| 0 <= i < |rest| && rest[i] == r.value && forall j :: 0 <= j < i ==> !f(rest[j]);
            assert all[|first| + i] == r.value;
            forall j | 0 <= j < |first| + i ensures !f(all[j]) {
              if j < |first| {
                assert all[j] in first;
              } else {
                assert all[j] == rest[j - |first|];
              }
            }
          }
        }
        r
  }

  /** `findByText`: the first prompt in iteration order whose text matches. */
  function FindByText(c: Category, text: string): (r: Option<Prompt>)
    ensures r.None? <==> forall p :: p in Prompts(c) ==> p.text != text
    ensures r.Some? ==> r.value.text == text && r.value in Prompts(c)
    ensures r.Some? ==> exists i :: 0 <= i < |Prompts(c)| && Prompts(c)[i] == r.value
                          && forall j :: 0 <= j < i ==> Prompts(c)[j].text != text
  {
    Find(c, (p: Prompt) => p.text == text)
  }

  /** `findByJapaneseText`: the first prompt in iteration order whose Japanese text matches. */
  function FindByJapaneseText(c: Category, japaneseText: string): (r: Option<Prompt>)
    ensures r.None? <==> forall p :: p in Prompts(c) ==> p.japaneseText != japaneseText
    ensures r.Some? ==> r.value.japaneseText == japaneseText && r.value in Prompts(c)
    ensures r.Some? ==> exists i :: 0 <= i < |Prompts(c)| && Prompts(c)[i] == r.value
                          && forall j :: 0 <= j < i ==> Prompts(c)[j].japaneseText != japaneseText
  {
    Find(c, (p: Prompt) => p.japaneseText == japaneseText)
  }
  // ---------------------------------------------------------------------
  // `Prompt.id`: "prompt" followed by the rank entries in decimal, joined by "-".

  function DigitChar(d: nat): char
    requires d < 10
  {
    "0123456789"[d]
  }

  /** Decimal rendering of a natural number, without leading zeros. */
  function Decimal(n: nat): string
    decreases n
  {
    if n < 10 then [DigitChar(n)] else Decimal(n / 10) + [DigitChar(n % 10)]
  }

  function Join(r: Rank): string
  {
    if r == [] then ""
    else if |r| == 1 then Decimal(r[0])
    else Decimal(r[0]) + "-" + Join(r[1..])
  }

  function Id(p: Prompt): string
  {
    "prompt" + Join(p.rank)
  }

  lemma {:induction false} DecimalShape(n: nat)
    ensures |Decimal(n)| >= 1
    ensures |Decimal(n)| == 1 <==> n < 10
    ensures '-' !in Decimal(n)
    decreases n
  {
    if n >= 10 {
      DecimalShape(n / 10);
    }
  }

  lemma {:induction false} DecimalInjective(a: nat, b: nat)
    requires Decimal(a) == Decimal(b)
    ensures a == b
    decreases a
  {
    DecimalShape(a);
    DecimalShape(b);
    if a >= 10 {
      var s := Decimal(a);
      assert s[..|s| - 1] == Decimal(a / 10) && s[..|s| - 1] == Decimal(b / 10);
      DecimalInjective(a / 10, b / 10);
      assert DigitChar(a % 10) == s[|s| - 1] == DigitChar(b % 10);
    }
  }

  lemma {:induction false} JoinShape(r: Rank)
    ensures r == [] <==> Join(r) == []
    ensures |r| == 1 ==> Join(r) == Decimal(r[0])
    ensures |r| > 1 ==> Join(r) == Decimal(r[0]) + "-" + Join(r[1..])
  {
    if r != [] {
      DecimalShape(r[0]);
    }
  }

  /** Index of the first '-' in `s`, or `|s|` when there is none. */
  function FirstDash(s: string): (k: nat)
    ensures k <= |s|
  {
    if s == [] || s[0] == '-' then 0 else 1 + FirstDash(s[1..])
  }

  lemma {:induction false} FirstDashAfter(d: string, t: string)
    requires '-' !in d
    ensures FirstDash(d + t) == |d| + FirstDash(t)
  {
    if d != [] {
      assert (d + t)[1..] == d[1..] + t;
      FirstDashAfter(d[1..], t);
    } else {
      assert d + t == t;
    }
  }

  /** The first '-' of a joined rank ends the first entry's digits. */
  lemma JoinFirstDash(r: Rank)
    requires r != []
    ensures FirstDash(Join(r)) == |Decimal(r[0])|
    ensures Join(r)[..|Decimal(r[0])|] == Decimal(r[0])
    ensures |r| > 1 <==> FirstDash(Join(r)) < |Join(r)|
    ensures |r| > 1 ==> Join(r)[|Decimal(r[0])| + 1..] == Join(r[1..])
  {
    if |r| == 1 {
      JoinSingleDash(r[0]);
    } else {
      JoinLongerDash(r);
    }
  }

  lemma JoinSingleDash(n: nat)
    ensures FirstDash(Join([n])) == |Decimal(n)| == |Join([n])|
    ensures Join([n])[..|Decimal(n)|] == Decimal(n)
  {
    DecimalShape(n);
    var d := Decimal(n);
    assert Join([n]) == d;
    FirstDashAfter(d, []);
    assert d + [] == d;
  }

  lemma JoinLongerDash(r: Rank)
    requires |r| > 1
    ensures FirstDash(Join(r)) == |Decimal(r[0])| < |Join(r)|
    ensures Join(r)[..|Decimal(r[0])|] == Decimal(r[0])
    ensures Join(r)[|Decimal(r[0])| + 1..] == Join(r[1..])
  {
    DecimalShape(r[0]);
    var d := Decimal(r[0]);
    var t := "-" + Join(r[1..]);
    assert Join(r) == d + t;
    FirstDashAfter(d, t);
    assert FirstDash(t) == 0;
    assert (d + t)[..|d|] == d;
    assert (d + t)[|d| + 1..] == Join(r[1..]);
  }

  /** Joining ranks is injective: different ranks never share a text. */
  lemma {:induction false} JoinInjective(a: Rank, b: Rank)
    requires Join(a) == Join(b)
    ensures a == b
  {
    JoinShape(a);
    JoinShape(b);
    if a != [] {
      JoinFirstDash(a);
      JoinFirstDash(b);
      var s := Join(a);
      var k := FirstDash(s);
      assert Decimal(a[0]) == s[..k] == Decimal(b[0]);
      DecimalInjective(a[0], b[0]);
      if |a| > 1 {
        JoinInjective(a[1..], b[1..]);
        assert a == [a[0]] + a[1..] && b == [b[0]] + b[1..];
      }
    }
  }

  /** Prompts with different ranks have different ids. */
  lemma IdInjective(p: Prompt, q: Prompt)
    ensures Id(p) == Id(q) <==> p.rank == q.rank
  {
    if Id(p) == Id(q) {
      assert Join(p.rank) == Id(p)[6..] == Id(q)[6..] == Join(q.rank);
      JoinInjective(p.rank, q.rank);
    }
  }

  /** `Prompt.toString`: a prompt renders as its output text. */
  function PromptText(p: Prompt): string
  {
    p.text
  }
}
