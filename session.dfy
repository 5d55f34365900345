/** The page controller: the taxonomy and the two lookup maps built at
    start-up, the selected tree, and the edits its click handlers make to
    that tree. Group ids, random strings in the page, come from a counter
    here. */
module Editor {
  import opened Ranks
  import Taxonomy
  import Lookups
  import opened Selection

  // ---------------------------------------------------------------------
  // `getCommonParent`

  /** `Math.min` of the chain lengths. */
  function MinLength(chains: seq<seq<GroupId>>): (m: nat)
    requires |chains| >= 1
    ensures forall k :: 0 <= k < |chains| ==> m <= |chains[k]|
    ensures exists k :: 0 <= k < |chains| && m == |chains[k]|
  {
    if |chains| == 1 then |chains[0]|
    else
      var m := MinLength(chains[1..]);
      assert exists k :: 1 <= k < |chains| && m == |chains[k]| by {
        var k :| 0 <= k < |chains[1..]| && m == |chains[1..][k]|;
        assert chains[k + 1] == chains[1..][k];
      }
      if |chains[0]| <= m then |chains[0]| else m
  }

  /** `parents.every(p => p[i] === parents[0][i])`. */
  predicate AgreeAt(chains: seq<seq<GroupId>>, i: nat)
    requires |chains| >= 1 && i < MinLength(chains)
  {
    forall k :: 0 <= k < |chains| ==> chains[k][i] == chains[0][i]
  }

  /** The first index from `i` on at which all chains agree. */
  function FirstAgreement(chains: seq<seq<GroupId>>, i: nat): (r: Option<nat>)
    requires |chains| >= 1 && i <= MinLength(chains)
    ensures r.Some? ==> i <= r.value < MinLength(chains) && AgreeAt(chains, r.value)
    ensures r.Some? ==> forall j :: i <= j < r.value ==> !AgreeAt(chains, j)
    ensures r.None? ==> forall j :: i <= j < MinLength(chains) ==> !AgreeAt(chains, j)
    decreases MinLength(chains) - i
  {
    if i == MinLength(chains) then None
    else if AgreeAt(chains, i) then Some(i)
    else FirstAgreement(chains, i + 1)
  }

  /** What `getCommonParent` returns for the chains `[g, ...g.getParents()]`
      (an empty chain for a prompt without a group): the group the chains
      share at the smallest common index, counting from each chain's own
      group, or nothing. */
  function CommonParent(chains: seq<seq<GroupId>>): (r: Option<GroupId>)
    requires |chains| >= 1
  {
    match FirstAgreement(chains, 0)
    case None => None
    case Some(i) => Some(chains[0][i])
  }

  /** `getCommonParent`'s loop. */
  method GetCommonParent(chains: seq<seq<GroupId>>) returns (r: Option<GroupId>)
    requires |chains| >= 1
    ensures r == CommonParent(chains)
  {
    var length := MinLength(chains);
    var i := 0;
    while i < length
      invariant 0 <= i <= length
      invariant forall j :: 0 <= j < i ==> !AgreeAt(chains, j)
    {
      if AgreeAt(chains, i) {
        return Some(chains[0][i]);
      }
      i := i + 1;
    }
    return None;
  }

  /** When every prompt has the same owning group, that group is the
      common parent. */
  lemma CommonParentShared(chains: seq<seq<GroupId>>, g: GroupId)
    requires |chains| >= 1
    requires forall k :: 0 <= k < |chains| ==> |chains[k]| >= 1 && chains[k][0] == g
    ensures CommonParent(chains) == Some(g)
  {
    var k :| 0 <= k < |chains| && MinLength(chains) == |chains[k]|;
    assert AgreeAt(chains, 0);
  }

  /** The owning group of each prompt, as `findGroup` reports it. */
  function Owners(t: Node, checked: seq<Prompt>): (os: seq<Option<GroupId>>)
    ensures |os| == |checked|
  {
    seq(|checked|, k requires 0 <= k < |checked| => FindGroup(t, checked[k]))
  }

  /** `[group, ...group.getParents()]`, or `[]` when there is no group. */
  function Chains(t: Node, owners: seq<Option<GroupId>>): (cs: seq<seq<GroupId>>)
    ensures |cs| == |owners|
  {
    seq(|owners|, k requires 0 <= k < |owners| =>
      match owners[k] case None => [] case Some(g) => Chain(t, g))
  }

  /** Compared nearest-first, the chains of groups at different depths
      never agree: the common parent, when there is one, is at the same
      distance from the root as every owner and on each one's chain. So
      owners at unequal depths have no common parent, and the caller falls
      back to the root. */
  lemma CommonParentDepth(t: Node, owners: seq<Option<GroupId>>)
    requires UniqueIds(t) && |owners| >= 1
    ensures var chains := Chains(t, owners);
            CommonParent(chains).Some? ==>
              CommonParent(chains).value in IdsIn(t)
              && forall k :: 0 <= k < |chains| ==>
                   |chains[k]| == |chains[0]| && CommonParent(chains).value in chains[k]
  {
    var chains := Chains(t, owners);
    if FirstAgreement(chains, 0).Some? {
      var i := FirstAgreement(chains, 0).value;
      var x := chains[0][i];
      forall k | 0 <= k < |chains|
        ensures |chains[k]| == |chains[0]| && x in chains[k]
      {
        assert owners[k].Some? && owners[0].Some?;
        assert chains[k] == Chain(t, owners[k].value);
        assert chains[0] == Chain(t, owners[0].value);
        assert chains[k][i] == x;
        ChainSuffix(t, owners[k].value, i);
        ChainSuffix(t, owners[0].value, i);
        assert chains[k][i..] == chains[0][i..];
      }
      assert owners[0].Some? && chains[0] == Chain(t, owners[0].value);
      ChainIn(t, owners[0].value);
    }
  }

  lemma CommonParentUnequalDepths(t: Node, owners: seq<Option<GroupId>>, k: nat)
    requires UniqueIds(t) && |owners| >= 1 && k < |owners|
    requires owners[0].Some? && owners[k].Some?
    requires |Chain(t, owners[0].value)| != |Chain(t, owners[k].value)|
    ensures CommonParent(Chains(t, owners)) == None
  {
    var chains := Chains(t, owners);
    assert chains[0] == Chain(t, owners[0].value);
    assert chains[k] == Chain(t, owners[k].value);
    CommonParentDepth(t, owners);
  }

  // ---------------------------------------------------------------------
  // Helpers about fresh ids and the groups the handlers build.

  lemma NoDupDisjoint<T(!new)>(a: seq<T>, b: seq<T>)
    requires NoDup(a) && NoDup(b)
    requires forall x :: x in a ==> x !in b
    ensures NoDup(a + b)
  {
    forall x ensures multiset(a + b)[x] <= 1 {
      assert multiset(a + b) == multiset(a) + multiset(b);
      if x in a { assert x !in multiset(b); }
    }
  }

  /** Two places of a sequence without duplicates hold different values. */
  lemma NoDupIndex<T(!new)>(s: seq<T>, i: nat, j: nat)
    requires NoDup(s) && i < j < |s|
    ensures s[i] != s[j]
  {
    var m := multiset(s);
    assert s == s[..i] + [s[i]] + s[i + 1..j] + [s[j]] + s[j + 1..];
    assert m == multiset(s[..i]) + multiset{s[i]} + multiset(s[i + 1..j]) + multiset{s[j]} + multiset(s[j + 1..]);
    assert m[s[i]] >= 1 + multiset{s[j]}[s[i]];
    assert m[s[i]] <= 1;
  }

  /** In a sequence without duplicates, no value occurs before its own place. */
  lemma NoDupPrefix<T(!new)>(s: seq<T>, k: nat)
    requires NoDup(s) && k < |s|
    ensures multiset(s[..k])[s[k]] == 0
  {
    var m := multiset(s);
    assert s == s[..k] + [s[k]] + s[k + 1..];
    assert m == multiset(s[..k]) + multiset{s[k]} + multiset(s[k + 1..]);
    assert m[s[k]] >= multiset(s[..k])[s[k]] + 1;
    assert m[s[k]] <= 1;
  }

  /** `new PromptGroup(prompt)`: a one-prompt group. */
  lemma SingleGroup(id: GroupId, p: Prompt)
    ensures NewGroup(id, [Leaf(p)]) == Group(id, None, [Leaf(p)])
  {
    assert [Leaf(p)][..0] == [];
  }

  /** The selected prompt leaf is taken out of its owner. */
  lemma TakenHolds(t: Node, o: GroupId, p: Prompt)
    requires o in IdsIn(t) && Leaf(p) in Subtree(t, o).value.children
    ensures p in Taken(t, o, PromptRef(p))
  {
    var cs := Subtree(t, o).value.children;
    WithoutMembers(cs, PromptRef(p));
    assert Leaf(p) !in Without(cs, PromptRef(p));
    assert Leaf(p) in multiset(cs);
    assert Leaf(p) in Matching(cs, PromptRef(p));
    var m := Matching(cs, PromptRef(p));
    var i :| 0 <= i < |m| && m[i] == Leaf(p);
    FlatMember(m, p, PromptsIn);
    PromptsInAllFlat(m);
  }

  /** Adding a fresh one-prompt group to the root keeps the tree valid. */
  lemma SelectFacts(t: Node, next: GroupId, p: Prompt)
    requires Selection.Valid(t) && forall x :: x in IdsIn(t) ==> x < next
    ensures var t' := AppendAt(t, t.id, [NewGroup(next, [Leaf(p)])]);
            && Selection.Valid(t')
            && (forall x :: x in IdsIn(t') ==> x < next + 1)
            && Group(next, None, [Leaf(p)]) in t'.children
            && multiset(PromptsIn(t')) == multiset(PromptsIn(t)) + multiset{p}
  {
    SelectShape(t, next, p);
    SelectContents(t, next, p);
  }

  lemma SelectShape(t: Node, next: GroupId, p: Prompt)
    requires Selection.Valid(t) && forall x :: x in IdsIn(t) ==> x < next
    ensures var t' := AppendAt(t, t.id, [NewGroup(next, [Leaf(p)])]);
            && Selection.Valid(t')
            && forall x :: x in IdsIn(t') ==> x < next + 1
  {
    var g := NewGroup(next, [Leaf(p)]);
    SingleGroupIds(next, p);
    assert t.id in IdsIn(t);
    FreshIds(t, t.id, next, next + 1, [g]);
  }

  lemma SingleGroupIds(id: GroupId, p: Prompt)
    ensures AllNonEmpty([NewGroup(id, [Leaf(p)])])
    ensures Flat([NewGroup(id, [Leaf(p)])], IdsIn) == [id]
  {
    var g := NewGroup(id, [Leaf(p)]);
    SingleGroup(id, p);
    assert Flat([g], IdsIn) == IdsIn(g) + Flat([g][1..], IdsIn);
    assert IdsIn(g) == [id] + IdsInAll([Leaf(p)]);
  }

  /** Appending, to group `gid`, groups whose ids are all new and below
      `hi` keeps the tree valid and its ids below `hi`. */
  lemma FreshIds(t: Node, gid: GroupId, next: GroupId, hi: GroupId, items: seq<Node>)
    requires Selection.Valid(t) && gid in IdsIn(t) && forall x :: x in IdsIn(t) ==> x < next
    requires AllNonEmpty(items) && NoDup(Flat(items, IdsIn))
    requires next <= hi && forall x :: x in Flat(items, IdsIn) ==> next <= x < hi
    ensures Selection.Valid(AppendAt(t, gid, items))
    ensures forall x :: x in IdsIn(AppendAt(t, gid, items)) ==> x < hi
  {
    FreshValid(t, gid, next, items);
    FreshBound(t, gid, next, hi, items);
  }

  lemma FreshValid(t: Node, gid: GroupId, next: GroupId, items: seq<Node>)
    requires Selection.Valid(t) && gid in IdsIn(t) && forall x :: x in IdsIn(t) ==> x < next
    requires AllNonEmpty(items) && NoDup(Flat(items, IdsIn))
    requires forall x :: x in Flat(items, IdsIn) ==> next <= x
    ensures Selection.Valid(AppendAt(t, gid, items))
  {
    NoDupDisjoint(IdsIn(t), Flat(items, IdsIn));
    AppendValid(t, gid, items);
  }

  lemma FreshBound(t: Node, gid: GroupId, next: GroupId, hi: GroupId, items: seq<Node>)
    requires gid in IdsIn(t) && forall x :: x in IdsIn(t) ==> x < next
    requires next <= hi && forall x :: x in Flat(items, IdsIn) ==> next <= x < hi
    ensures forall x :: x in IdsIn(AppendAt(t, gid, items)) ==> x < hi
  {
    AppendIds(t, gid, items);
    BoundedBy(IdsIn(t) + Flat(items, IdsIn), IdsIn(AppendAt(t, gid, items)), hi);
  }

  /** A sequence whose elements are all drawn from a bounded one is bounded. */
  lemma BoundedBy(a: seq<GroupId>, c: seq<GroupId>, hi: GroupId)
    requires forall x :: x in a ==> x < hi
    requires multiset(c) <= multiset(a)
    ensures forall x :: x in c ==> x < hi
  {
    forall x: GroupId | x in c ensures x < hi {
      assert x in multiset(c);
      assert x in multiset(a);
      assert x in a;
    }
  }

  lemma SelectContents(t: Node, next: GroupId, p: Prompt)
    requires t.Group?
    ensures var t' := AppendAt(t, t.id, [NewGroup(next, [Leaf(p)])]);
            && Group(next, None, [Leaf(p)]) in t'.children
            && multiset(PromptsIn(t')) == multiset(PromptsIn(t)) + multiset{p}
  {
    var g := NewGroup(next, [Leaf(p)]);
    SingleGroup(next, p);
    assert t.id in IdsIn(t);
    AppendPrompts(t, t.id, [g]);
    AppendHasChild(t, t.id, [g], g);
    assert PromptsInAll([g]) == [p] by {
      assert PromptsInAll([g]) == PromptsIn(g) + PromptsInAll([g][1..]);
      assert PromptsIn(g) == PromptsInAll([Leaf(p)]);
    }
  }

  /** Removing a prompt from its first owner keeps the tree valid, takes
      out at least that occurrence, and keeps every other prompt. */
  lemma DeselectFacts(t: Node, next: GroupId, p: Prompt)
    requires Selection.Valid(t) && forall x :: x in IdsIn(t) ==> x < next
    ensures FindGroup(t, p).None? <==> p !in PromptsIn(t)
    ensures FindGroup(t, p).Some? ==>
              var t' := Remove(t, FindGroup(t, p).value, PromptRef(p));
              && Selection.Valid(t')
              && (forall x :: x in IdsIn(t') ==> x < next)
              && multiset(PromptsIn(t'))[p] < multiset(PromptsIn(t))[p]
              && (forall x :: x in PromptsIn(t') ==> x in PromptsIn(t))
              && (forall x :: x in PromptsIn(t) && x != p ==> x in PromptsIn(t'))
  {
    FindGroupNone(t, p);
    var owner := FindGroup(t, p);
    if owner.Some? {
      var o := owner.value;
      FindGroupOwner(t, p);
      RemoveValid(t, o, PromptRef(p));
      RemoveIds(t, o, PromptRef(p));
      RemovePromptSet(t, o, p);
      RemovePrompts(t, o, PromptRef(p));
      TakenHolds(t, o, p);
      BoundedBy(IdsIn(t), IdsIn(Remove(t, o, PromptRef(p))), next);
    }
  }

  /** `prompts.map(p => new PromptGroup(p))`, the groups numbered from
      `first`. */
  function Singletons(first: GroupId, ps: seq<Prompt>): (gs: seq<Node>)
    ensures |gs| == |ps|
  {
    seq(|ps|, k requires 0 <= k < |ps| => NewGroup(first + k, [Leaf(ps[k])]))
  }

  /** `[a, a + 1, ..., a + n - 1]`. */
  function Range(a: GroupId, n: nat): seq<GroupId>
  {
    seq(n, i requires 0 <= i < n => a + i)
  }

  lemma SingletonsFacts(first: GroupId, ps: seq<Prompt>)
    ensures forall k :: 0 <= k < |ps| ==> Singletons(first, ps)[k] == Group(first + k, None, [Leaf(ps[k])])
    ensures AllNonEmpty(Singletons(first, ps))
    ensures Flat(Singletons(first, ps), IdsIn) == Range(first, |ps|)
    ensures PromptsInAll(Singletons(first, ps)) == ps
  {
    SingletonsShape(first, ps);
    SingletonsIds(first, ps);
    SingletonsPrompts(first, ps);
  }

  lemma SingletonsShape(first: GroupId, ps: seq<Prompt>)
    ensures forall k :: 0 <= k < |ps| ==> Singletons(first, ps)[k] == Group(first + k, None, [Leaf(ps[k])])
    ensures AllNonEmpty(Singletons(first, ps))
  {
    var gs := Singletons(first, ps);
    forall k | 0 <= k < |ps| ensures gs[k] == Group(first + k, None, [Leaf(ps[k])]) {
      SingleGroup(first + k, ps[k]);
    }
  }

  lemma SingletonsTail(first: GroupId, ps: seq<Prompt>)
    requires ps != []
    ensures Singletons(first, ps) == [Group(first, None, [Leaf(ps[0])])] + Singletons(first + 1, ps[1..])
  {
    SingletonsShape(first, ps);
    SingletonsShape(first + 1, ps[1..]);
  }

  lemma {:induction false} SingletonsIds(first: GroupId, ps: seq<Prompt>)
    ensures Flat(Singletons(first, ps), IdsIn) == Range(first, |ps|)
    decreases |ps|
  {
    if ps != [] {
      SingletonsIds(first + 1, ps[1..]);
      SingletonsTail(first, ps);
      var gs := Singletons(first, ps);
      assert gs[1..] == Singletons(first + 1, ps[1..]);
      SingleIds(first, ps[0]);
      assert Flat(gs, IdsIn) == IdsIn(gs[0]) + Flat(gs[1..], IdsIn);
      RangeHead(first, |ps|);
    }
  }

  lemma SingleIds(id: GroupId, p: Prompt)
    ensures IdsIn(Group(id, None, [Leaf(p)])) == [id]
  {
    assert IdsInAll([Leaf(p)]) == IdsIn(Leaf(p)) + IdsInAll([]);
  }

  lemma RangeHead(a: GroupId, n: nat)
    requires n > 0
    ensures Range(a, n) == [a] + Range(a + 1, n - 1)
  {
  }

  lemma {:induction false} SingletonsPrompts(first: GroupId, ps: seq<Prompt>)
    ensures PromptsInAll(Singletons(first, ps)) == ps
    decreases |ps|
  {
    if ps != [] {
      SingletonsPrompts(first + 1, ps[1..]);
      SingletonsTail(first, ps);
      var gs := Singletons(first, ps);
      assert gs[1..] == Singletons(first + 1, ps[1..]);
      assert PromptsIn(gs[0]) == PromptsInAll([Leaf(ps[0])]);
      assert ps == [ps[0]] + ps[1..];
    }
  }

  lemma {:induction false} RangeNoDup(a: GroupId, n: nat)
    ensures NoDup(Range(a, n))
    ensures forall x :: x in Range(a, n) <==> a <= x < a + n
    decreases n
  {
    if n > 0 {
      RangeNoDup(a + 1, n - 1);
      assert Range(a, n) == [a] + Range(a + 1, n - 1);
      NoDupDisjoint([a], Range(a + 1, n - 1));
    }
  }

  /** `new PromptGroup(...prompts.map(p => new PromptGroup(p)))`, the new
      group taking id `first` and its one-prompt children the ids after. */
  function Bundle(first: GroupId, ps: seq<Prompt>): (g: Node)
    ensures g.Group? && g.id == first
  {
    NewGroup(first, Singletons(first + 1, ps))
  }

  /** The bundle holds exactly the given prompts, its ids are new and
      distinct, and none of its groups is empty. */
  lemma BundleFacts(first: GroupId, ps: seq<Prompt>)
    requires |ps| >= 1
    ensures var g := Bundle(first, ps);
            && NonEmpty(g) && AllNonEmpty([g])
            && multiset(PromptsIn(g)) == multiset(ps)
            && NoDup(Flat([g], IdsIn))
            && (forall x :: x in Flat([g], IdsIn) ==> first <= x < first + |ps| + 1)
            && (forall x :: x in IdsIn(g) ==> first <= x)
  {
    BundleShape(first, ps);
    BundlePrompts(first, ps);
    BundleIds(first, ps);
    FlatSingle(Bundle(first, ps), IdsIn);
  }

  lemma BundleShape(first: GroupId, ps: seq<Prompt>)
    requires |ps| >= 1
    ensures NonEmpty(Bundle(first, ps)) && AllNonEmpty([Bundle(first, ps)])
  {
    var singles := Singletons(first + 1, ps);
    var g := Bundle(first, ps);
    SingletonsShape(first + 1, ps);
    SortChildrenFacts(singles);
    forall i | 0 <= i < |g.children| ensures NonEmpty(g.children[i]) {
      assert g.children[i] in multiset(singles);
    }
  }

  lemma BundlePrompts(first: GroupId, ps: seq<Prompt>)
    ensures multiset(PromptsIn(Bundle(first, ps))) == multiset(ps)
  {
    var singles := Singletons(first + 1, ps);
    SingletonsPrompts(first + 1, ps);
    assert [] + singles == singles;
    AppendHerePrompts([], singles);
  }

  lemma BundleIds(first: GroupId, ps: seq<Prompt>)
    ensures NoDup(IdsIn(Bundle(first, ps)))
    ensures forall x :: x in IdsIn(Bundle(first, ps)) ==> first <= x < first + |ps| + 1
  {
    var g := Bundle(first, ps);
    var inner := IdsInAll(g.children);
    assert IdsIn(g) == [first] + inner;
    BundleInnerIds(first, ps);
    NoDupDisjoint([first], inner);
    forall x: GroupId | x in IdsIn(g) ensures first <= x < first + |ps| + 1 {
      if x != first {
        assert x in inner;
      }
    }
  }

  /** The bundle's children take the ids after its own, once each. */
  lemma BundleInnerIds(first: GroupId, ps: seq<Prompt>)
    ensures NoDup(IdsInAll(Bundle(first, ps).children))
    ensures forall x :: x in IdsInAll(Bundle(first, ps).children) ==> first + 1 <= x < first + |ps| + 1
  {
    var singles := Singletons(first + 1, ps);
    var g := Bundle(first, ps);
    SingletonsIds(first + 1, ps);
    RangeNoDup(first + 1, |ps|);
    assert [] + singles == singles;
    AppendHereIds([], singles);
    var inner := IdsInAll(g.children);
    var range := Range(first + 1, |ps|);
    assert IdsInAll([]) == [];
    assert g.children == SortChildren(singles);
    assert multiset(inner) == multiset(range);
    forall x: GroupId | x in inner ensures first + 1 <= x < first + |ps| + 1 {
      assert x in multiset(inner);
      assert x in range;
    }
    NoDupSub(inner, range);
  }

  // ---------------------------------------------------------------------
  // `groups.forEach(([prompt, group]) => group.remove(prompt))`

  /** The group `findGroup` gives for a prompt of the tree. */
  function OwnerOf(t: Node, p: Prompt): (g: GroupId)
    requires t.Group? && p in PromptsIn(t)
    ensures FindGroup(t, p) == Some(g)
  {
    FindGroupNone(t, p);
    FindGroup(t, p).value
  }

  /** Each prompt paired with the group `findGroup` gives for it. */
  function Pairs(t: Node, checked: seq<Prompt>): (ps: seq<(Prompt, GroupId)>)
    requires t.Group? && forall k :: 0 <= k < |checked| ==> checked[k] in PromptsIn(t)
    ensures |ps| == |checked|
    ensures forall k :: 0 <= k < |ps| ==> ps[k].0 == checked[k] && FindGroup(t, checked[k]) == Some(ps[k].1)
  {
    seq(|checked|, k requires 0 <= k < |checked| => (checked[k], OwnerOf(t, checked[k])))
  }

  /** The tree after each pair's group has let go of its prompt, in order. */
  function RemoveAll(t: Node, pairs: seq<(Prompt, GroupId)>): Node
    decreases |pairs|
  {
    if pairs == [] then t
    else
      var last := pairs[|pairs| - 1];
      Remove(RemoveAll(t, pairs[..|pairs| - 1]), last.1, PromptRef(last.0))
  }

  /** A prompt of any of `es`, all children of `a`, is in the tree. */
  lemma HeldPrompt(t: Node, a: GroupId, es: seq<Node>, p: Prompt)
    requires forall j :: 0 <= j < |es| ==> HasChild(t, a, es[j])
    requires p in PromptsInAll(es)
    ensures p in PromptsIn(t)
  {
    PromptsInAllFlat(es);
    FlatMember(es, p, PromptsIn);
    var j :| 0 <= j < |es| && p in PromptsIn(es[j]);
    ChildPrompts(t, a, es[j]);
  }

  /** One removal keeps the tree valid, keeps every group of `es` where
      it is, and, as the prompt is still held in `es`, keeps the set of
      prompts. */
  lemma RemoveOneFacts(t: Node, a: GroupId, es: seq<Node>, o: GroupId, p: Prompt, hi: GroupId)
    requires Selection.Valid(t) && forall x :: x in IdsIn(t) ==> x < hi
    requires forall j :: 0 <= j < |es| ==>
               HasChild(t, a, es[j]) && es[j].Group? && NonEmpty(es[j]) && o !in IdsIn(es[j])
    requires p in PromptsInAll(es)
    ensures var t' := Remove(t, o, PromptRef(p));
            && Selection.Valid(t') && (forall x :: x in IdsIn(t') ==> x < hi) && t'.id == t.id
            && (forall j :: 0 <= j < |es| ==> HasChild(t', a, es[j]))
            && forall x :: x in PromptsIn(t') <==> x in PromptsIn(t)
  {
    var t' := Remove(t, o, PromptRef(p));
    RemoveValid(t, o, PromptRef(p));
    RemoveIds(t, o, PromptRef(p));
    BoundedBy(IdsIn(t), IdsIn(t'), hi);
    forall j | 0 <= j < |es| ensures HasChild(t', a, es[j]) {
      RemoveKeepsChild(t, o, PromptRef(p), a, es[j]);
    }
    RemovePromptSet(t, o, p);
    HeldPrompt(t', a, es, p);
  }

  /** The removals keep the tree valid and the groups `es` in place, and,
      as every removed prompt is also held in `es`, change no prompt's
      presence in the tree. */
  lemma {:induction false} RemoveAllFacts(t: Node, a: GroupId, es: seq<Node>, pairs: seq<(Prompt, GroupId)>, hi: GroupId)
    requires Selection.Valid(t) && forall x :: x in IdsIn(t) ==> x < hi
    requires forall j :: 0 <= j < |es| ==> HasChild(t, a, es[j]) && es[j].Group? && NonEmpty(es[j])
    requires forall j, k :: 0 <= j < |es| && 0 <= k < |pairs| ==> pairs[k].1 !in IdsIn(es[j])
    requires forall k :: 0 <= k < |pairs| ==> pairs[k].0 in PromptsInAll(es)
    ensures var r := RemoveAll(t, pairs);
            && Selection.Valid(r) && (forall x :: x in IdsIn(r) ==> x < hi) && r.id == t.id
            && (forall j :: 0 <= j < |es| ==> HasChild(r, a, es[j]))
            && forall x :: x in PromptsIn(r) <==> x in PromptsIn(t)
    decreases |pairs|
  {
    if pairs != [] {
      var init := pairs[..|pairs| - 1];
      var last := pairs[|pairs| - 1];
      RemoveAllFacts(t, a, es, init, hi);
      RemoveOneFacts(RemoveAll(t, init), a, es, last.1, last.0, hi);
    }
  }

  /** When the prompt is held twice at most, once by `o` and once in
      `es`, removing it from `o` takes out exactly one copy. */
  lemma RemoveOneCount(t: Node, a: GroupId, es: seq<Node>, o: GroupId, p: Prompt, hi: GroupId)
    requires Selection.Valid(t) && forall x :: x in IdsIn(t) ==> x < hi
    requires forall j :: 0 <= j < |es| ==>
               HasChild(t, a, es[j]) && es[j].Group? && NonEmpty(es[j]) && o !in IdsIn(es[j])
    requires p in PromptsInAll(es) && HasChild(t, o, Leaf(p))
    requires multiset(PromptsIn(t))[p] <= 2
    ensures multiset(PromptsIn(Remove(t, o, PromptRef(p)))) + multiset{p} == multiset(PromptsIn(t))
  {
    var t' := Remove(t, o, PromptRef(p));
    HeldPrompt(t, a, es, p);
    RemoveOneFacts(t, a, es, o, p, hi);
    assert p in multiset(PromptsIn(t'));
    RemovePrompts(t, o, PromptRef(p));
    TakenHolds(t, o, p);
    MatchingOnlyPrompt(Subtree(t, o).value.children, p);
    var taken := Taken(t, o, PromptRef(p));
    assert taken[p] == 1;
    forall x ensures taken[x] == multiset{p}[x] {
      if x != p {
        assert x !in taken;
      }
    }
    assert taken == multiset{p};
  }

  /** Removing distinct prompts, each held directly by its group and once
      more in `es`, takes out exactly one copy of each: after the first
      `n` removals the tree has lost exactly those `n` prompts, and every
      later prompt is still held by its group. */
  /** What the removals of `pairs` from `t` rely on: each pair names a
      prompt of the groups `es` below `a` and the group that holds it,
      no prompt is moved twice, and each is held at most twice. */
  ghost predicate Movable(t: Node, a: GroupId, es: seq<Node>, pairs: seq<(Prompt, GroupId)>, hi: GroupId)
  {
    && Selection.Valid(t) && (forall x :: x in IdsIn(t) ==> x < hi)
    && (forall j :: 0 <= j < |es| ==> HasChild(t, a, es[j]) && es[j].Group? && NonEmpty(es[j]))
    && (forall j, k :: 0 <= j < |es| && 0 <= k < |pairs| ==> pairs[k].1 !in IdsIn(es[j]))
    && (forall k :: 0 <= k < |pairs| ==> pairs[k].0 in PromptsInAll(es))
    && NoDup(MovedPrompts(pairs))
    && forall k :: 0 <= k < |pairs| ==>
         HasChild(t, pairs[k].1, Leaf(pairs[k].0)) && multiset(PromptsIn(t))[pairs[k].0] <= 2
  }

  lemma {:induction false} RemoveAllCount(t: Node, a: GroupId, es: seq<Node>, pairs: seq<(Prompt, GroupId)>, n: nat, hi: GroupId)
    requires Movable(t, a, es, pairs, hi) && n <= |pairs|
    ensures var r := RemoveAll(t, pairs[..n]);
            && multiset(PromptsIn(r)) + multiset(MovedPrompts(pairs)[..n]) == multiset(PromptsIn(t))
            && forall k :: n <= k < |pairs| ==> HasChild(r, pairs[k].1, Leaf(pairs[k].0))
    decreases n
  {
    if n == 0 {
      assert pairs[..0] == [];
    } else {
      RemoveAllCount(t, a, es, pairs, n - 1, hi);
      RemoveCountNext(t, a, es, pairs, n, hi);
    }
  }

  /** From the first `n - 1` removals to the first `n`. */
  lemma RemoveCountNext(t: Node, a: GroupId, es: seq<Node>, pairs: seq<(Prompt, GroupId)>, n: nat, hi: GroupId)
    requires Movable(t, a, es, pairs, hi) && 0 < n <= |pairs|
    requires var u := RemoveAll(t, pairs[..n - 1]);
             && multiset(PromptsIn(u)) + multiset(MovedPrompts(pairs)[..n - 1]) == multiset(PromptsIn(t))
             && forall k :: n - 1 <= k < |pairs| ==> HasChild(u, pairs[k].1, Leaf(pairs[k].0))
    ensures var r := RemoveAll(t, pairs[..n]);
            && multiset(PromptsIn(r)) + multiset(MovedPrompts(pairs)[..n]) == multiset(PromptsIn(t))
            && forall k :: n <= k < |pairs| ==> HasChild(r, pairs[k].1, Leaf(pairs[k].0))
  {
    var init := pairs[..n - 1];
    RemoveAllFacts(t, a, es, init, hi);
    var u := RemoveAll(t, init);
    assert pairs[..n][..n - 1] == init;
    assert RemoveAll(t, pairs[..n]) == Remove(u, pairs[n - 1].1, PromptRef(pairs[n - 1].0));
    RemoveCountStep(t, u, a, es, pairs, n, hi);
  }

  /** One step of `RemoveAllCount`, on the tree `u` the first `n - 1`
      removals leave. */
  lemma RemoveCountStep(t: Node, u: Node, a: GroupId, es: seq<Node>, pairs: seq<(Prompt, GroupId)>, n: nat, hi: GroupId)
    requires Selection.Valid(u) && forall x :: x in IdsIn(u) ==> x < hi
    requires forall j :: 0 <= j < |es| ==> HasChild(u, a, es[j]) && es[j].Group? && NonEmpty(es[j])
    requires forall j, k :: 0 <= j < |es| && 0 <= k < |pairs| ==> pairs[k].1 !in IdsIn(es[j])
    requires forall k :: 0 <= k < |pairs| ==> pairs[k].0 in PromptsInAll(es)
    requires NoDup(MovedPrompts(pairs)) && 0 < n <= |pairs|
    requires forall k :: 0 <= k < |pairs| ==> multiset(PromptsIn(t))[pairs[k].0] <= 2
    requires multiset(PromptsIn(u)) + multiset(MovedPrompts(pairs)[..n - 1]) == multiset(PromptsIn(t))
    requires forall k :: n - 1 <= k < |pairs| ==> HasChild(u, pairs[k].1, Leaf(pairs[k].0))
    ensures var r := Remove(u, pairs[n - 1].1, PromptRef(pairs[n - 1].0));
            && multiset(PromptsIn(r)) + multiset(MovedPrompts(pairs)[..n]) == multiset(PromptsIn(t))
            && forall k :: n <= k < |pairs| ==> HasChild(r, pairs[k].1, Leaf(pairs[k].0))
  {
    var mp := MovedPrompts(pairs);
    var last := pairs[n - 1];
    var p, o := last.0, last.1;
    NoDupPrefix(mp, n - 1);
    assert mp[n - 1] == p;
    var before := multiset(PromptsIn(u));
    assert before[p] <= 2 by {
      assert before[p] + multiset(mp[..n - 1])[p] == multiset(PromptsIn(t))[p];
    }
    assert forall j :: 0 <= j < |es| ==> o !in IdsIn(es[j]);
    RemoveOneCount(u, a, es, o, p, hi);
    PrefixStep(mp, n);
    CountStep(multiset(PromptsIn(Remove(u, o, PromptRef(p)))), before, multiset(PromptsIn(t)), multiset(mp[..n - 1]), p);
    RemoveKeepsLater(u, pairs, n);
  }

  lemma PrefixStep<T>(s: seq<T>, n: nat)
    requires 0 < n <= |s|
    ensures multiset(s[..n]) == multiset(s[..n - 1]) + multiset{s[n - 1]}
  {
    assert s[..n] == s[..n - 1] + [s[n - 1]];
  }

  lemma CountStep<T>(r: multiset<T>, u: multiset<T>, t: multiset<T>, m: multiset<T>, p: T)
    requires r + multiset{p} == u && u + m == t
    ensures r + (m + multiset{p}) == t
  {
  }

  /** Removing the `n`-th of distinct prompts leaves every later one
      with its group. */
  lemma RemoveKeepsLater(u: Node, pairs: seq<(Prompt, GroupId)>, n: nat)
    requires Selection.Valid(u) && NoDup(MovedPrompts(pairs)) && 0 < n <= |pairs|
    requires forall k :: n <= k < |pairs| ==> HasChild(u, pairs[k].1, Leaf(pairs[k].0))
    ensures var r := Remove(u, pairs[n - 1].1, PromptRef(pairs[n - 1].0));
            forall k :: n <= k < |pairs| ==> HasChild(r, pairs[k].1, Leaf(pairs[k].0))
  {
    var mp := MovedPrompts(pairs);
    var last := pairs[n - 1];
    forall k | n <= k < |pairs| ensures HasChild(Remove(u, last.1, PromptRef(last.0)), pairs[k].1, Leaf(pairs[k].0)) {
      NoDupIndex(mp, n - 1, k);
      RemoveKeepsChild(u, last.1, PromptRef(last.0), pairs[k].1, Leaf(pairs[k].0));
    }
  }

  /** Appending a second copy of distinct prompts and then removing each
      from the group that held it before gives back the prompts of `t`. */
  lemma RemoveAllRestores(t: Node, t1: Node, a: GroupId, es: seq<Node>, pairs: seq<(Prompt, GroupId)>, hi: GroupId)
    requires Movable(t1, a, es, pairs, hi)
    requires multiset(PromptsIn(t1)) == multiset(PromptsIn(t)) + multiset(MovedPrompts(pairs))
    ensures multiset(PromptsIn(RemoveAll(t1, pairs))) == multiset(PromptsIn(t))
  {
    RemoveAllTotal(t1, a, es, pairs, hi);
    Cancel(multiset(PromptsIn(RemoveAll(t1, pairs))), multiset(PromptsIn(t)), multiset(MovedPrompts(pairs)));
  }

  /** `RemoveAllCount` for every pair. */
  lemma RemoveAllTotal(t: Node, a: GroupId, es: seq<Node>, pairs: seq<(Prompt, GroupId)>, hi: GroupId)
    requires Movable(t, a, es, pairs, hi)
    ensures multiset(PromptsIn(RemoveAll(t, pairs))) + multiset(MovedPrompts(pairs)) == multiset(PromptsIn(t))
  {
    var mp := MovedPrompts(pairs);
    RemoveAllCount(t, a, es, pairs, |pairs|, hi);
    assert pairs[..|pairs|] == pairs;
    assert mp[..|mp|] == mp;
  }

  // ---------------------------------------------------------------------
  // `clickAddGroupButton`

  /** Where the new group goes: the common parent of the prompts' groups,
      or the root when there is none. */
  function Target(t: Node, checked: seq<Prompt>): GroupId
    requires t.Group? && |checked| >= 1
  {
    match CommonParent(Chains(t, Owners(t, checked)))
    case None => t.id
    case Some(g) => g
  }

  lemma TargetInTree(t: Node, checked: seq<Prompt>)
    requires Selection.Valid(t) && |checked| >= 1
    ensures Target(t, checked) in IdsIn(t)
  {
    CommonParentDepth(t, Owners(t, checked));
    assert t.id in IdsIn(t);
  }

  /** Prompts that all sit directly in one group are bundled inside that
      group. */
  lemma TargetShared(t: Node, checked: seq<Prompt>, g: GroupId)
    requires Selection.Valid(t) && |checked| >= 1
    requires forall k :: 0 <= k < |checked| ==> FindGroup(t, checked[k]) == Some(g)
    ensures Target(t, checked) == g
  {
    var owners := Owners(t, checked);
    var chains := Chains(t, owners);
    FindGroupOwner(t, checked[0]);
    forall k | 0 <= k < |chains| ensures |chains[k]| >= 1 && chains[k][0] == g {
      assert owners[k] == Some(g);
      assert chains[k] == Chain(t, g);
    }
    CommonParentShared(chains, g);
  }

  /** The state `clickAddGroupButton` leaves for two or more prompts: the
      bundle appended to the target, then each prompt let go by the group
      that held it. */
  function Bundled(t: Node, next: GroupId, checked: seq<Prompt>): Node
    requires t.Group? && |checked| >= 1
    requires forall k :: 0 <= k < |checked| ==> checked[k] in PromptsIn(t)
  {
    RemoveAll(AppendAt(t, Target(t, checked), [Bundle(next, checked)]), Pairs(t, checked))
  }

  /** After grouping, the bundle of the checked prompts is a child of the
      target, the tree is still valid, and the same prompts are in it. */
  lemma BundledFacts(t: Node, next: GroupId, checked: seq<Prompt>)
    requires Selection.Valid(t) && forall x :: x in IdsIn(t) ==> x < next
    requires |checked| >= 1 && forall k :: 0 <= k < |checked| ==> checked[k] in PromptsIn(t)
    ensures var r := Bundled(t, next, checked);
            && Selection.Valid(r) && r.id == t.id
            && (forall x :: x in IdsIn(r) ==> x < next + |checked| + 1)
            && HasChild(r, Target(t, checked), Bundle(next, checked))
            && forall x :: x in PromptsIn(r) <==> x in PromptsIn(t)
  {
    var a := Target(t, checked);
    var g := Bundle(next, checked);
    var t1 := AppendAt(t, a, [g]);
    BundleAppended(t, next, checked);
    forall x ensures x in PromptsIn(t1) <==> x in PromptsIn(t) {
      assert x in multiset(PromptsIn(t1)) <==> x in multiset(PromptsIn(t)) || x in multiset(checked);
    }
    RemoveAllFacts(t1, a, [g], Pairs(t, checked), next + |checked| + 1);
  }

  /** Appending the bundle: the invariant holds, the bundle is a child of
      the target, it adds the checked prompts, and it holds every prompt a
      removal will name while no group it holds is named. */
  lemma BundleAppended(t: Node, next: GroupId, checked: seq<Prompt>)
    requires Selection.Valid(t) && forall x :: x in IdsIn(t) ==> x < next
    requires |checked| >= 1 && forall k :: 0 <= k < |checked| ==> checked[k] in PromptsIn(t)
    ensures var g := Bundle(next, checked);
            var t1 := AppendAt(t, Target(t, checked), [g]);
            var pairs := Pairs(t, checked);
            && Selection.Valid(t1) && t1.id == t.id && (forall x :: x in IdsIn(t1) ==> x < next + |checked| + 1)
            && HasChild(t1, Target(t, checked), g) && g.Group? && NonEmpty(g)
            && multiset(PromptsIn(t1)) == multiset(PromptsIn(t)) + multiset(checked)
            && forall k :: 0 <= k < |pairs| ==> pairs[k].1 !in IdsIn(g) && pairs[k].0 in PromptsInAll([g])
  {
    var a := Target(t, checked);
    var g := Bundle(next, checked);
    var hi := next + |checked| + 1;
    TargetInTree(t, checked);
    BundleFacts(next, checked);
    FreshIds(t, a, next, hi, [g]);
    var t1 := AppendAt(t, a, [g]);
    AppendHasChild(t, a, [g], g);
    AppendPrompts(t, a, [g]);
    PromptsInAllFlat([g]);
    FlatSingle(g, PromptsIn);
    var pairs := Pairs(t, checked);
    forall k | 0 <= k < |pairs| ensures pairs[k].1 !in IdsIn(g) && pairs[k].0 in PromptsInAll([g]) {
      FindGroupOwner(t, checked[k]);
      assert checked[k] in multiset(PromptsIn(g));
    }
  }

  /** When no prompt is selected twice and none is checked twice, each
      checked prompt leaves the group that held it: the tree ends up with
      exactly the prompts it had, each once, so the bundle is the only
      place a checked prompt is left. */
  lemma BundledCount(t: Node, next: GroupId, checked: seq<Prompt>)
    requires Selection.Valid(t) && forall x :: x in IdsIn(t) ==> x < next
    requires |checked| >= 1 && forall k :: 0 <= k < |checked| ==> checked[k] in PromptsIn(t)
    ensures NoDup(PromptsIn(t)) && NoDup(checked) ==>
              multiset(PromptsIn(Bundled(t, next, checked))) == multiset(PromptsIn(t))
  {
    if NoDup(PromptsIn(t)) && NoDup(checked) {
      var a := Target(t, checked);
      var g := Bundle(next, checked);
      var pairs := Pairs(t, checked);
      BundleAppended(t, next, checked);
      BundleHeld(t, next, checked);
      assert MovedPrompts(pairs) == checked;
      BundleMovable(AppendAt(t, a, [g]), a, g, pairs, checked, next + |checked| + 1);
      RemoveAllRestores(t, AppendAt(t, a, [g]), a, [g], pairs, next + |checked| + 1);
    }
  }

  /** What `clickAddGroupButton` leaves behind, gathered for the method. */
  lemma BundledAll(t: Node, next: GroupId, checked: seq<Prompt>)
    requires Selection.Valid(t) && forall x :: x in IdsIn(t) ==> x < next
    requires |checked| >= 1 && forall k :: 0 <= k < |checked| ==> checked[k] in PromptsIn(t)
    ensures var r := Bundled(t, next, checked);
            && Selection.Valid(r)
            && (forall x :: x in IdsIn(r) ==> x < next + |checked| + 1)
            && HasChild(r, Target(t, checked), Bundle(next, checked))
            && (forall x :: x in PromptsIn(r) <==> x in PromptsIn(t))
            && (NoDup(PromptsIn(t)) && NoDup(checked) ==> multiset(PromptsIn(r)) == multiset(PromptsIn(t)))
  {
    BundledFacts(t, next, checked);
    BundledCount(t, next, checked);
  }

  /** After the bundle is appended, each checked prompt is held at most
      twice, and the group that held it still holds it directly. */
  lemma BundleHeld(t: Node, next: GroupId, checked: seq<Prompt>)
    requires Selection.Valid(t) && forall x :: x in IdsIn(t) ==> x < next
    requires |checked| >= 1 && forall k :: 0 <= k < |checked| ==> checked[k] in PromptsIn(t)
    requires NoDup(PromptsIn(t)) && NoDup(checked)
    ensures var t1 := AppendAt(t, Target(t, checked), [Bundle(next, checked)]);
            var pairs := Pairs(t, checked);
            forall k :: 0 <= k < |pairs| ==>
              HasChild(t1, pairs[k].1, Leaf(pairs[k].0)) && multiset(PromptsIn(t1))[pairs[k].0] <= 2
  {
    var a := Target(t, checked);
    var t1 := AppendAt(t, a, [Bundle(next, checked)]);
    BundleAppended(t, next, checked);
    var pairs := Pairs(t, checked);
    forall k | 0 <= k < |pairs|
      ensures HasChild(t1, pairs[k].1, Leaf(pairs[k].0)) && multiset(PromptsIn(t1))[pairs[k].0] <= 2
    {
      FindGroupOwner(t, checked[k]);
      AppendKeepsLeaf(t, a, [Bundle(next, checked)], pairs[k].1, pairs[k].0);
      assert multiset(PromptsIn(t))[checked[k]] <= 1;
      assert multiset(checked)[checked[k]] <= 1;
    }
  }

  /** The facts `BundleHeld` gives, in the form the removals rely on. */
  lemma BundleMovable(t1: Node, a: GroupId, g: Node, pairs: seq<(Prompt, GroupId)>, checked: seq<Prompt>, hi: GroupId)
    requires Selection.Valid(t1) && (forall x :: x in IdsIn(t1) ==> x < hi)
    requires HasChild(t1, a, g) && g.Group? && NonEmpty(g)
    requires MovedPrompts(pairs) == checked && NoDup(checked)
    requires forall k :: 0 <= k < |pairs| ==>
               && pairs[k].1 !in IdsIn(g) && pairs[k].0 in PromptsInAll([g])
               && HasChild(t1, pairs[k].1, Leaf(pairs[k].0)) && multiset(PromptsIn(t1))[pairs[k].0] <= 2
    ensures Movable(t1, a, [g], pairs, hi)
  {
  }

  /** The body of `clickAddGroupButton` for two or more prompts, on the
      tree: find the groups, their common parent, append the bundle there
      and let each group go of its prompt. */
  method BundleChecked(t: Node, next: GroupId, checked: seq<Prompt>) returns (r: Node)
    requires Selection.Valid(t) && forall x :: x in IdsIn(t) ==> x < next
    requires |checked| >= 1 && forall k :: 0 <= k < |checked| ==> checked[k] in PromptsIn(t)
    ensures r == Bundled(t, next, checked)
    ensures Selection.Valid(r) && forall x :: x in IdsIn(r) ==> x < next + |checked| + 1
    ensures HasChild(r, Target(t, checked), Bundle(next, checked))
    ensures forall x :: x in PromptsIn(r) <==> x in PromptsIn(t)
    ensures NoDup(PromptsIn(t)) && NoDup(checked) ==> multiset(PromptsIn(r)) == multiset(PromptsIn(t))
  {
    BundledAll(t, next, checked);
    var owners := Owners(t, checked);
    var parent := GetCommonParent(Chains(t, owners));
    var target := if parent.Some? then parent.value else t.id;
    assert target == Target(t, checked);
    var pairs := Pairs(t, checked);
    var start := AppendAt(t, target, [Bundle(next, checked)]);
    r := RemoveEach(start, pairs);
  }

  /** `pairs.forEach(([prompt, group]) => group.remove(prompt))`. */
  method RemoveEach(t: Node, pairs: seq<(Prompt, GroupId)>) returns (r: Node)
    ensures r == RemoveAll(t, pairs)
  {
    var k := 0;
    r := t;
    while k < |pairs|
      invariant 0 <= k <= |pairs|
      invariant r == RemoveAll(t, pairs[..k])
    {
      RemoveAllStep(t, pairs, k);
      r := Remove(r, pairs[k].1, PromptRef(pairs[k].0));
      k := k + 1;
    }
    assert pairs[..|pairs|] == pairs;
  }

  lemma RemoveAllStep(t: Node, pairs: seq<(Prompt, GroupId)>, k: nat)
    requires k < |pairs|
    ensures RemoveAll(t, pairs[..k + 1]) == Remove(RemoveAll(t, pairs[..k]), pairs[k].1, PromptRef(pairs[k].0))
  {
    assert pairs[..k + 1][..k] == pairs[..k];
  }

  // ---------------------------------------------------------------------
  // `clickRemoveGroupButton`

  /** `.filter(([prompt, group]) => group !== root)`. */
  function Away(pairs: seq<(Prompt, GroupId)>, root: GroupId): (r: seq<(Prompt, GroupId)>)
    ensures forall e :: e in r <==> e in pairs && e.1 != root
  {
    if pairs == [] then []
    else (if pairs[0].1 != root then [pairs[0]] else []) + Away(pairs[1..], root)
  }

  function MovedPrompts(moved: seq<(Prompt, GroupId)>): (ps: seq<Prompt>)
    ensures |ps| == |moved| && forall k :: 0 <= k < |moved| ==> ps[k] == moved[k].0
  {
    seq(|moved|, k requires 0 <= k < |moved| => moved[k].0)
  }

  /** The checked prompts not held directly by the root, each with its
      group. */
  function Moved(t: Node, checked: seq<Prompt>): seq<(Prompt, GroupId)>
    requires t.Group? && forall k :: 0 <= k < |checked| ==> checked[k] in PromptsIn(t)
  {
    Away(Pairs(t, checked), t.id)
  }

  /** The state `clickRemoveGroupButton` leaves: a one-prompt group per
      moved prompt appended to the root, then each moved prompt let go by
      the group that held it. */
  function Ungrouped(t: Node, next: GroupId, checked: seq<Prompt>): Node
    requires t.Group? && forall k :: 0 <= k < |checked| ==> checked[k] in PromptsIn(t)
  {
    var moved := Moved(t, checked);
    RemoveAll(AppendAt(t, t.id, Singletons(next, MovedPrompts(moved))), moved)
  }

  /** Every checked prompt a group below the root held is now alone in a
      group of its own directly under the root; the tree is still valid
      and holds the same prompts; and when no prompt was below the root
      the only change is that the root's children are put in order. */
  lemma UngroupedFacts(t: Node, next: GroupId, checked: seq<Prompt>)
    requires Selection.Valid(t) && forall x :: x in IdsIn(t) ==> x < next
    requires forall k :: 0 <= k < |checked| ==> checked[k] in PromptsIn(t)
    ensures var moved := Moved(t, checked);
            var r := Ungrouped(t, next, checked);
            && Selection.Valid(r) && r.id == t.id
            && (forall x :: x in IdsIn(r) ==> x < next + |moved|)
            && (forall k :: 0 <= k < |moved| ==> Group(next + k, None, [Leaf(moved[k].0)]) in r.children)
            && (forall x :: x in PromptsIn(r) <==> x in PromptsIn(t))
            && (moved == [] ==> r == Group(t.id, t.weight, SortChildren(t.children)))
  {
    var moved := Moved(t, checked);
    var mp := MovedPrompts(moved);
    var singles := Singletons(next, mp);
    var t1 := AppendAt(t, t.id, singles);
    UngroupAppend(t, next, checked);
    MovedOwners(t, next, checked);
    SingletonsFacts(next, mp);
    RemoveAllFacts(t1, t.id, singles, moved, next + |moved|);
    var r := RemoveAll(t1, moved);
    assert Subtree(r, r.id) == Some(r);
    forall k | 0 <= k < |moved| ensures Group(next + k, None, [Leaf(moved[k].0)]) in r.children {
      assert singles[k] == Group(next + k, None, [Leaf(moved[k].0)]);
    }
    if moved == [] {
      assert t.children + [] == t.children;
    }
  }

  /** When no prompt is selected twice and none is checked twice, each
      moved prompt leaves its former group: the tree ends up with exactly
      the prompts it had, each once, so the one-prompt group under the
      root is the only place a moved prompt is left. */
  lemma UngroupedCount(t: Node, next: GroupId, checked: seq<Prompt>)
    requires Selection.Valid(t) && forall x :: x in IdsIn(t) ==> x < next
    requires forall k :: 0 <= k < |checked| ==> checked[k] in PromptsIn(t)
    ensures NoDup(PromptsIn(t)) && NoDup(checked) ==>
              multiset(PromptsIn(Ungrouped(t, next, checked))) == multiset(PromptsIn(t))
  {
    if NoDup(PromptsIn(t)) && NoDup(checked) {
      UngroupedRestores(t, next, checked);
    }
  }

  lemma UngroupedRestores(t: Node, next: GroupId, checked: seq<Prompt>)
    requires Selection.Valid(t) && forall x :: x in IdsIn(t) ==> x < next
    requires forall k :: 0 <= k < |checked| ==> checked[k] in PromptsIn(t)
    requires NoDup(PromptsIn(t)) && NoDup(checked)
    ensures multiset(PromptsIn(Ungrouped(t, next, checked))) == multiset(PromptsIn(t))
  {
    var moved := Moved(t, checked);
    var mp := MovedPrompts(moved);
    var singles := Singletons(next, mp);
    var t1 := AppendAt(t, t.id, singles);
    UngroupAppend(t, next, checked);
    MovedOwners(t, next, checked);
    SingletonsFacts(next, mp);
    MovedNoDup(t, checked);
    UngroupHeld(t, next, checked);
    forall k | 0 <= k < |moved| ensures moved[k].0 in PromptsInAll(singles) {
      assert mp[k] == moved[k].0;
    }
    RemoveAllRestores(t, t1, t.id, singles, moved, next + |moved|);
  }

  /** After the one-prompt groups are appended, the tree holds each moved
      prompt twice, and its former group still holds it directly. */
  lemma UngroupHeld(t: Node, next: GroupId, checked: seq<Prompt>)
    requires Selection.Valid(t) && forall x :: x in IdsIn(t) ==> x < next
    requires forall k :: 0 <= k < |checked| ==> checked[k] in PromptsIn(t)
    requires NoDup(PromptsIn(t)) && NoDup(MovedPrompts(Moved(t, checked)))
    ensures var moved := Moved(t, checked);
            var t1 := AppendAt(t, t.id, Singletons(next, MovedPrompts(moved)));
            && multiset(PromptsIn(t1)) == multiset(PromptsIn(t)) + multiset(MovedPrompts(moved))
            && forall k :: 0 <= k < |moved| ==>
                 HasChild(t1, moved[k].1, Leaf(moved[k].0)) && multiset(PromptsIn(t1))[moved[k].0] <= 2
  {
    var moved := Moved(t, checked);
    var mp := MovedPrompts(moved);
    var singles := Singletons(next, mp);
    var t1 := AppendAt(t, t.id, singles);
    UngroupAppend(t, next, checked);
    SingletonsPrompts(next, mp);
    assert t.id in IdsIn(t);
    AppendPrompts(t, t.id, singles);
    forall k | 0 <= k < |moved|
      ensures HasChild(t1, moved[k].1, Leaf(moved[k].0)) && multiset(PromptsIn(t1))[moved[k].0] <= 2
    {
      assert moved[k] in Pairs(t, checked);
      PairsInTree(t, checked, moved[k]);
      AppendKeepsLeaf(t, t.id, singles, moved[k].1, moved[k].0);
      assert multiset(PromptsIn(t))[moved[k].0] <= 1;
      assert multiset(mp)[moved[k].0] <= 1;
    }
  }

  /** The moved prompts are distinct when the checked ones are. */
  lemma MovedNoDup(t: Node, checked: seq<Prompt>)
    requires t.Group? && forall k :: 0 <= k < |checked| ==> checked[k] in PromptsIn(t)
    requires NoDup(checked)
    ensures NoDup(MovedPrompts(Moved(t, checked)))
  {
    var pairs := Pairs(t, checked);
    assert MovedPrompts(pairs) == checked;
    AwaySub(pairs, t.id);
    NoDupSub(MovedPrompts(Moved(t, checked)), checked);
  }

  lemma MovedConcat(x: seq<(Prompt, GroupId)>, y: seq<(Prompt, GroupId)>)
    ensures MovedPrompts(x + y) == MovedPrompts(x) + MovedPrompts(y)
  {
  }

  /** Filtering pairs keeps a part of their prompts. */
  lemma {:induction false} AwaySub(pairs: seq<(Prompt, GroupId)>, root: GroupId)
    ensures multiset(MovedPrompts(Away(pairs, root))) <= multiset(MovedPrompts(pairs))
  {
    if pairs != [] {
      var rest := pairs[1..];
      AwaySub(rest, root);
      var h := if pairs[0].1 != root then [pairs[0]] else [];
      assert Away(pairs, root) == h + Away(rest, root);
      MovedConcat(h, Away(rest, root));
      assert pairs == [pairs[0]] + rest;
      MovedConcat([pairs[0]], rest);
      assert multiset(MovedPrompts(h)) <= multiset(MovedPrompts([pairs[0]]));
    }
  }

  /** After the one-prompt groups are appended to the root. */
  lemma UngroupAppend(t: Node, next: GroupId, checked: seq<Prompt>)
    requires Selection.Valid(t) && forall x :: x in IdsIn(t) ==> x < next
    requires forall k :: 0 <= k < |checked| ==> checked[k] in PromptsIn(t)
    ensures var moved := Moved(t, checked);
            var singles := Singletons(next, MovedPrompts(moved));
            var t1 := AppendAt(t, t.id, singles);
            && Selection.Valid(t1) && (forall x :: x in IdsIn(t1) ==> x < next + |moved|)
            && (forall j :: 0 <= j < |singles| ==> HasChild(t1, t.id, singles[j]))
            && (forall x :: x in PromptsIn(t1) <==> x in PromptsIn(t))
  {
    var moved := Moved(t, checked);
    var mp := MovedPrompts(moved);
    var singles := Singletons(next, mp);
    assert t.id in IdsIn(t);
    SinglesFresh(next, mp);
    FreshIds(t, t.id, next, next + |moved|, singles);
    var t1 := AppendAt(t, t.id, singles);
    forall j | 0 <= j < |singles| ensures HasChild(t1, t.id, singles[j]) {
      AppendHasChild(t, t.id, singles, singles[j]);
    }
    MovedPromptsInTree(t, checked);
    SingletonsPrompts(next, mp);
    AppendSamePrompts(t, t.id, singles);
  }

  lemma SinglesFresh(next: GroupId, ps: seq<Prompt>)
    ensures AllNonEmpty(Singletons(next, ps)) && NoDup(Flat(Singletons(next, ps), IdsIn))
    ensures forall x :: x in Flat(Singletons(next, ps), IdsIn) ==> next <= x < next + |ps|
  {
    SingletonsShape(next, ps);
    SingletonsIds(next, ps);
    RangeNoDup(next, |ps|);
  }

  lemma MovedPromptsInTree(t: Node, checked: seq<Prompt>)
    requires t.Group? && forall k :: 0 <= k < |checked| ==> checked[k] in PromptsIn(t)
    ensures forall x :: x in MovedPrompts(Moved(t, checked)) ==> x in PromptsIn(t)
  {
    var moved := Moved(t, checked);
    var mp := MovedPrompts(moved);
    var pairs := Pairs(t, checked);
    forall x | x in mp ensures x in PromptsIn(t) {
      var k :| 0 <= k < |mp| && mp[k] == x;
      assert moved[k] in pairs;
      var i :| 0 <= i < |pairs| && pairs[i] == moved[k];
    }
  }

  /** Appending items whose prompts are all in the tree already changes
      no prompt's presence. */
  lemma AppendSamePrompts(t: Node, gid: GroupId, items: seq<Node>)
    requires gid in IdsIn(t) && forall x :: x in PromptsInAll(items) ==> x in PromptsIn(t)
    ensures forall x :: x in PromptsIn(AppendAt(t, gid, items)) <==> x in PromptsIn(t)
  {
    AppendPrompts(t, gid, items);
    var before, after, added := multiset(PromptsIn(t)), multiset(PromptsIn(AppendAt(t, gid, items))), multiset(PromptsInAll(items));
    forall x ensures x in PromptsIn(AppendAt(t, gid, items)) <==> x in PromptsIn(t) {
      assert x in after <==> x in before || x in added;
    }
  }

  /** The groups the moved prompts leave are old groups, none of the new
      one-prompt groups. */
  lemma MovedOwners(t: Node, next: GroupId, checked: seq<Prompt>)
    requires Selection.Valid(t) && forall x :: x in IdsIn(t) ==> x < next
    requires forall k :: 0 <= k < |checked| ==> checked[k] in PromptsIn(t)
    ensures var moved := Moved(t, checked);
            var singles := Singletons(next, MovedPrompts(moved));
            forall j, k :: 0 <= j < |singles| && 0 <= k < |moved| ==> moved[k].1 !in IdsIn(singles[j])
  {
    var moved := Moved(t, checked);
    var mp := MovedPrompts(moved);
    var singles := Singletons(next, mp);
    SingletonsIdsEach(next, mp);
    forall k | 0 <= k < |moved| ensures moved[k].1 < next {
      PairsInTree(t, checked, moved[k]);
    }
  }

  lemma PairsInTree(t: Node, checked: seq<Prompt>, e: (Prompt, GroupId))
    requires Selection.Valid(t) && forall k :: 0 <= k < |checked| ==> checked[k] in PromptsIn(t)
    requires e in Pairs(t, checked)
    ensures e.1 in IdsIn(t) && HasChild(t, e.1, Leaf(e.0))
  {
    var pairs := Pairs(t, checked);
    var i :| 0 <= i < |pairs| && pairs[i] == e;
    FindGroupOwner(t, checked[i]);
  }

  lemma SingletonsIdsEach(first: GroupId, ps: seq<Prompt>)
    ensures forall j :: 0 <= j < |ps| ==> IdsIn(Singletons(first, ps)[j]) == [first + j]
  {
    SingletonsShape(first, ps);
    forall j | 0 <= j < |ps| ensures IdsIn(Singletons(first, ps)[j]) == [first + j] {
      assert IdsInAll([Leaf(ps[j])]) == IdsIn(Leaf(ps[j])) + IdsInAll([]);
    }
  }

  /** The body of `clickRemoveGroupButton`, on the tree. */
  method UngroupChecked(t: Node, next: GroupId, checked: seq<Prompt>) returns (r: Node)
    requires t.Group? && forall k :: 0 <= k < |checked| ==> checked[k] in PromptsIn(t)
    ensures r == Ungrouped(t, next, checked)
  {
    var moved := Away(Pairs(t, checked), t.id);
    var start := AppendAt(t, t.id, Singletons(next, MovedPrompts(moved)));
    r := RemoveEach(start, moved);
  }

  // ---------------------------------------------------------------------
  // The page.

  class Session {
    var categoryRoot: Taxonomy.Category
    var fromIdLookup: map<string, Prompt>
    var fromTextLookup: map<string, seq<Prompt>>
    /** `selectedPrompt`, the root group of the selection. */
    var selected: Node
    /** The next group id to hand out. */
    var nextId: GroupId

    /** The lookups index the taxonomy's prompts, the selection is a
        well-formed tree, and every id in it was handed out already. */
    ghost predicate Valid()
      reads this
    {
      && fromIdLookup == Lookups.IdLookup(Taxonomy.Prompts(categoryRoot))
      && fromTextLookup == Lookups.TextLookup(Taxonomy.Prompts(categoryRoot))
      && Selection.Valid(selected)
      && forall x :: x in IdsIn(selected) ==> x < nextId
    }

    /** `start`, given the taxonomy `loadPrompt` fetched. */
    constructor (source: Taxonomy.Source)
      ensures Valid()
      ensures categoryRoot == Taxonomy.Build(source, Taxonomy.None, [])
      ensures selected == Group(0, None, [])
    {
      var root := Taxonomy.NewCategory(source, Taxonomy.None, []);
      var prompts := Taxonomy.Prompts(root);
      categoryRoot := root;
      fromIdLookup := Lookups.IdLookup(prompts);
      fromTextLookup := Lookups.TextLookup(prompts);
      selected := Group(0, None, []);
      nextId := 1;
    }

    /** Ticking a prompt in the selector: a one-prompt group is added to
        the root. */
    method Select(p: Prompt)
      requires Valid()
      modifies this`selected, this`nextId
      ensures Valid()
      ensures nextId == old(nextId) + 1
      ensures selected == AppendAt(old(selected), old(selected).id, [NewGroup(old(nextId), [Leaf(p)])])
      ensures Group(old(nextId), None, [Leaf(p)]) in selected.children
      ensures multiset(PromptsIn(selected)) == multiset(PromptsIn(old(selected))) + multiset{p}
    {
      SelectFacts(selected, nextId, p);
      selected := AppendAt(selected, selected.id, [NewGroup(nextId, [Leaf(p)])]);
      nextId := nextId + 1;
    }

    /** Unticking a prompt in the selector: the first group holding it
        lets it go. When no group holds it the handler stops on an error
        and nothing changes. */
    method Deselect(p: Prompt)
      requires Valid()
      modifies this`selected
      ensures Valid()
      ensures p !in PromptsIn(old(selected)) ==> selected == old(selected)
      ensures p in PromptsIn(old(selected)) ==>
                FindGroup(old(selected), p).Some?
                && selected == Remove(old(selected), FindGroup(old(selected), p).value, PromptRef(p))
      ensures p in PromptsIn(old(selected)) ==>
                multiset(PromptsIn(selected))[p] < multiset(PromptsIn(old(selected)))[p]
      ensures forall x :: x in PromptsIn(selected) ==> x in PromptsIn(old(selected))
      ensures forall x :: x in PromptsIn(old(selected)) && x != p ==> x in PromptsIn(selected)
    {
      DeselectFacts(selected, nextId, p);
      var owner := FindGroup(selected, p);
      if owner.Some? {
        selected := Remove(selected, owner.value, PromptRef(p));
      }
    }

    /** `clickPromptSelector`: an id the catalogue does not know is
        ignored; otherwise the catalogue prompt with that id is selected or
        deselected. */
    method ClickPromptSelector(id: string, checked: bool)
      requires Valid()
      modifies this`selected, this`nextId
      ensures Valid()
      ensures id !in fromIdLookup ==> selected == old(selected) && nextId == old(nextId)
      ensures id in fromIdLookup ==>
                var p := fromIdLookup[id];
                && p in Taxonomy.Prompts(categoryRoot) && Taxonomy.Id(p) == id
                && (checked ==> multiset(PromptsIn(selected)) == multiset(PromptsIn(old(selected))) + multiset{p})
                && (!checked ==>
                      (forall x :: x in PromptsIn(selected) ==> x in PromptsIn(old(selected)))
                      && (forall x :: x in PromptsIn(old(selected)) && x != p ==> x in PromptsIn(selected))
                      && (p in PromptsIn(old(selected)) ==>
                            multiset(PromptsIn(selected))[p] < multiset(PromptsIn(old(selected)))[p]))
    {
      if id !in fromIdLookup {
        return;
      }
      var p := fromIdLookup[id];
      if checked {
        Select(p);
      } else {
        Deselect(p);
      }
    }
  
    /** `clickAddGroupButton`: two or more checked prompts are bundled in
        a new group under their common parent, and each is let go by the
        group that held it; fewer change nothing. */
    method AddGroup(checked: seq<Prompt>)
      requires Valid()
      requires forall k :: 0 <= k < |checked| ==> checked[k] in PromptsIn(selected)
      modifies this`selected, this`nextId
      ensures Valid()
      ensures |checked| <= 1 ==> selected == old(selected) && nextId == old(nextId)
      ensures |checked| > 1 ==>
                && nextId == old(nextId) + |checked| + 1
                && selected == Bundled(old(selected), old(nextId), checked)
                && HasChild(selected, Target(old(selected), checked), Bundle(old(nextId), checked))
                && forall x :: x in PromptsIn(selected) <==> x in PromptsIn(old(selected))
      ensures NoDup(PromptsIn(old(selected))) && NoDup(checked) ==>
                multiset(PromptsIn(selected)) == multiset(PromptsIn(old(selected)))
    {
      if |checked| <= 1 {
        return;
      }
      var r := BundleChecked(selected, nextId, checked);
      selected, nextId := r, nextId + |checked| + 1;
    }
  
    /** `clickRemoveGroupButton`: each checked prompt held below the root
        moves into a one-prompt group of its own under the root. */
    method RemoveGroup(checked: seq<Prompt>)
      requires Valid()
      requires forall k :: 0 <= k < |checked| ==> checked[k] in PromptsIn(selected)
      modifies this`selected, this`nextId
      ensures Valid()
      ensures nextId == old(nextId) + |Moved(old(selected), checked)|
      ensures selected == Ungrouped(old(selected), old(nextId), checked)
      ensures var moved := Moved(old(selected), checked);
              forall k :: 0 <= k < |moved| ==> Group(old(nextId) + k, None, [Leaf(moved[k].0)]) in selected.children
      ensures forall x :: x in PromptsIn(selected) <==> x in PromptsIn(old(selected))
      ensures NoDup(PromptsIn(old(selected))) && NoDup(checked) ==>
                multiset(PromptsIn(selected)) == multiset(PromptsIn(old(selected)))
      ensures Moved(old(selected), checked) == [] ==>
                selected == Group(old(selected).id, old(selected).weight, SortChildren(old(selected).children))
    {
      UngroupedFacts(selected, nextId, checked);
      UngroupedCount(selected, nextId, checked);
      var moved := Moved(selected, checked);
      selected := UngroupChecked(selected, nextId, checked);
      nextId := nextId + |moved|;
    }
  }
}
