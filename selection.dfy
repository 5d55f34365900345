/** The selection tree (`PromptGroup`): groups of prompt leaves, nested,
    each group identified by an id assigned from a counter. A group's
    parent is the group whose children hold it. */
module Selection {
  import opened Ranks
  import Taxonomy

  type Prompt = Taxonomy.Prompt
  type GroupId = nat

  /** Rendered weight (`PromptGroup.weight`), kept as an opaque token. */
  type Weight = string

  datatype Option<T> = None | Some(value: T)

  datatype Node =
    | Leaf(prompt: Prompt)
    | Group(id: GroupId, weight: Option<Weight>, children: seq<Node>)

  /** What `remove` is asked to take out of a group: a prompt, or a group by identity. */
  datatype Ref = PromptRef(p: Prompt) | GroupRef(gid: GroupId)

  predicate Refers(c: Node, r: Ref)
  {
    match r
    case PromptRef(p) => c == Leaf(p)
    case GroupRef(g) => c.Group? && c.id == g
  }

  /** `PromptGroup.rank`: a prompt's own rank; a group's is its first child's, or [] when empty. */
  function Rank(n: Node): Rank
  {
    match n
    case Leaf(p) => p.rank
    case Group(_, _, cs) => if cs == [] then [] else Rank(cs[0])
  }

  /** `children.sort(PromptGroup.compareTo)`. */
  function SortChildren(cs: seq<Node>): seq<Node>
  {
    SortBy(cs, Rank)
  }

  /** `children.filter(p => p !== prompt)`. */
  function Without(cs: seq<Node>, r: Ref): seq<Node>
  {
    if cs == [] then [] else (if Refers(cs[0], r) then [] else [cs[0]]) + Without(cs[1..], r)
  }

  /** `children.filter(p => p instanceof Prompt || p.children.length != 0)`. */
  function DropEmpty(cs: seq<Node>): seq<Node>
  {
    if cs == [] then [] else (if cs[0].Group? && cs[0].children == [] then [] else [cs[0]]) + DropEmpty(cs[1..])
  }


  /** The children `filter` takes out. */
  function Matching(cs: seq<Node>, r: Ref): seq<Node>
  {
    if cs == [] then [] else (if Refers(cs[0], r) then [cs[0]] else []) + Matching(cs[1..], r)
  }

  /** The iterator: prompts of a subtree, depth-first, in child order. */
  function PromptsIn(n: Node): seq<Prompt>
    decreases n, 1
  {
    match n
    case Leaf(p) => [p]
    case Group(_, _, cs) => PromptsInAll(cs)
  }

  function PromptsInAll(cs: seq<Node>): seq<Prompt>
    decreases cs, 0
  {
    if cs == [] then [] else PromptsIn(cs[0]) + PromptsInAll(cs[1..])
  }

  /** Ids of the groups of a subtree in pre-order, its own first. */
  function IdsIn(n: Node): seq<GroupId>
    decreases n, 1
  {
    match n
    case Leaf(_) => []
    case Group(id, _, cs) => [id] + IdsInAll(cs)
  }

  function IdsInAll(cs: seq<Node>): seq<GroupId>
    decreases cs, 0
  {
    if cs == [] then [] else IdsIn(cs[0]) + IdsInAll(cs[1..])
  }

  ghost predicate NoDup<T(!new)>(s: seq<T>)
  {
    forall x :: multiset(s)[x] <= 1
  }

  /** Every group object occurs once in the tree: no id is shared. */
  ghost predicate UniqueIds(n: Node)
  {
    NoDup(IdsIn(n))
  }

  /** Every group of the subtree, its own root included, has a child. */
  ghost predicate NonEmpty(n: Node)
  {
    match n
    case Leaf(_) => true
    case Group(_, _, cs) => cs != [] && forall i :: 0 <= i < |cs| ==> NonEmpty(cs[i])
  }

  ghost predicate AllNonEmpty(cs: seq<Node>)
  {
    forall i :: 0 <= i < |cs| ==> NonEmpty(cs[i])
  }

  /** The invariants of the selected tree: its root is a group, no group
      below the root is empty, and no group occurs twice. */
  ghost predicate Valid(t: Node)
  {
    t.Group? && UniqueIds(t) && AllNonEmpty(t.children)
  }

  // ---------------------------------------------------------------------
  // Flattening children through a per-node function.

  function Flat<T>(cs: seq<Node>, f: Node -> seq<T>): seq<T>
  {
    if cs == [] then [] else f(cs[0]) + Flat(cs[1..], f)
  }

  lemma {:induction false} PromptsInAllFlat(cs: seq<Node>)
    ensures PromptsInAll(cs) == Flat(cs, PromptsIn)
  {
    if cs != [] {
      PromptsInAllFlat(cs[1..]);
    }
  }

  lemma {:induction false} IdsInAllFlat(cs: seq<Node>)
    ensures IdsInAll(cs) == Flat(cs, IdsIn)
  {
    if cs != [] {
      IdsInAllFlat(cs[1..]);
    }
  }

  lemma {:induction false} FlatConcat<T>(a: seq<Node>, b: seq<Node>, f: Node -> seq<T>)
    ensures Flat(a + b, f) == Flat(a, f) + Flat(b, f)
  {
    if a == [] {
      assert a + b == b;
    } else {
      assert (a + b)[1..] == a[1..] + b;
      FlatConcat(a[1..], b, f);
    }
  }

  lemma FlatSingle<T>(c: Node, f: Node -> seq<T>)
    ensures Flat([c], f) == f(c)
  {
    assert Flat([c], f) == f(c) + Flat([], f);
  }

  lemma {:induction false} FlatMember<T>(cs: seq<Node>, x: T, f: Node -> seq<T>)
    ensures x in Flat(cs, f) <==> exists i :: 0 <= i < |cs| && x in f(cs[i])
  {
    if cs != [] {
      FlatMember(cs[1..], x, f);
      if x in Flat(cs[1..], f) {
        var i :| 0 <= i < |cs[1..]| && x in f(cs[1..][i]);
        assert x in f(cs[i + 1]);
      }
      if exists i :: 0 <= i < |cs| && x in f(cs[i]) {
        var i :| 0 <= i < |cs| && x in f(cs[i]);
        if i > 0 {
          assert x in f(cs[1..][i - 1]);
        }
      }
    }
  }

  /** Replacing one child changes the flattening by that child's part only. */
  lemma FlatUpdate<T>(cs: seq<Node>, i: nat, c: Node, f: Node -> seq<T>)
    requires i < |cs|
    ensures multiset(Flat(cs[i := c], f)) + multiset(f(cs[i])) == multiset(Flat(cs, f)) + multiset(f(c))
    ensures multiset(Flat(cs, f)) == multiset(Flat(cs[..i], f)) + multiset(f(cs[i])) + multiset(Flat(cs[i + 1..], f))
  {
    assert cs == cs[..i] + [cs[i]] + cs[i + 1..];
    assert cs[i := c] == cs[..i] + [c] + cs[i + 1..];
    FlatConcat(cs[..i] + [cs[i]], cs[i + 1..], f);
    FlatConcat(cs[..i], [cs[i]], f);
    FlatConcat(cs[..i] + [c], cs[i + 1..], f);
    FlatConcat(cs[..i], [c], f);
    FlatSingle(c, f);
    FlatSingle(cs[i], f);
  }

  /** Dropping the element at `k` takes it out of the multiset. */
  lemma DropAt(b: seq<Node>, k: nat)
    requires k < |b|
    ensures multiset(b[..k] + b[k + 1..]) == multiset(b) - multiset{b[k]}
  {
    assert b == b[..k] + [b[k]] + b[k + 1..];
  }

  /** Reordering children reorders the flattening as a whole. */
  lemma {:induction false} FlatPerm<T>(a: seq<Node>, b: seq<Node>, f: Node -> seq<T>)
    requires multiset(a) == multiset(b)
    ensures multiset(Flat(a, f)) == multiset(Flat(b, f))
    decreases |a|
  {
    if a != [] {
      assert a[0] in multiset(b);
      var k :| 0 <= k < |b| && b[k] == a[0];
      var rest := b[..k] + b[k + 1..];
      DropAt(b, k);
      assert a == [a[0]] + a[1..];
      assert multiset(a[1..]) == multiset(a) - multiset{a[0]};
      FlatPerm(a[1..], rest, f);
      assert Flat(a, f) == f(a[0]) + Flat(a[1..], f);
      FlatUpdate(b, k, b[k], f);
      FlatConcat(b[..k], b[k + 1..], f);
      assert multiset(Flat(rest, f)) == multiset(Flat(b[..k], f)) + multiset(Flat(b[k + 1..], f));
    }
  }

  lemma {:induction false} FlatWithout<T>(cs: seq<Node>, r: Ref, f: Node -> seq<T>)
    ensures multiset(Flat(cs, f)) == multiset(Flat(Without(cs, r), f)) + multiset(Flat(Matching(cs, r), f))
  {
    if cs != [] {
      var rest := cs[1..];
      var w, m := Without(rest, r), Matching(rest, r);
      FlatWithout(rest, r, f);
      assert multiset(Flat(rest, f)) == multiset(Flat(w, f)) + multiset(Flat(m, f));
      assert Flat(cs, f) == f(cs[0]) + Flat(rest, f);
      FlatSingle(cs[0], f);
      if Refers(cs[0], r) {
        assert Matching(cs, r) == [cs[0]] + m;
        assert Without(cs, r) == w;
        FlatConcat([cs[0]], m, f);
        assert Flat(Matching(cs, r), f) == f(cs[0]) + Flat(m, f);
      } else {
        assert Without(cs, r) == [cs[0]] + w;
        assert Matching(cs, r) == m;
        FlatConcat([cs[0]], w, f);
        assert Flat(Without(cs, r), f) == f(cs[0]) + Flat(w, f);
      }
    }
  }

  lemma {:induction false} FlatDropEmpty<T>(cs: seq<Node>, f: Node -> seq<T>)
    ensures multiset(Flat(DropEmpty(cs), f)) <= multiset(Flat(cs, f))
  {
    if cs != [] {
      FlatDropEmpty(cs[1..], f);
      FlatSingle(cs[0], f);
      var head := if cs[0].Group? && cs[0].children == [] then [] else [cs[0]];
      FlatConcat(head, DropEmpty(cs[1..]), f);
    }
  }

  lemma {:induction false} DropEmptyPrompts(cs: seq<Node>)
    ensures PromptsInAll(DropEmpty(cs)) == PromptsInAll(cs)
  {
    if cs != [] {
      DropEmptyPrompts(cs[1..]);
      var head := if cs[0].Group? && cs[0].children == [] then [] else [cs[0]];
      PromptsInAllFlat(head + DropEmpty(cs[1..]));
      PromptsInAllFlat(DropEmpty(cs[1..]));
      FlatConcat(head, DropEmpty(cs[1..]), PromptsIn);
      if head != [] {
        FlatSingle(cs[0], PromptsIn);
      }
    }
  }

  lemma {:induction false} WithoutMembers(cs: seq<Node>, r: Ref)
    ensures multiset(Without(cs, r)) + multiset(Matching(cs, r)) == multiset(cs)
    ensures forall c :: c in Without(cs, r) ==> c in cs && !Refers(c, r)
    ensures forall c :: c in Matching(cs, r) ==> c in cs && Refers(c, r)
  {
    if cs != [] {
      WithoutMembers(cs[1..], r);
      assert cs == [cs[0]] + cs[1..];
    }
  }

  lemma {:induction false} DropEmptyMembers(cs: seq<Node>)
    ensures multiset(DropEmpty(cs)) <= multiset(cs)
    ensures forall c :: c in DropEmpty(cs) ==> c in cs && !(c.Group? && c.children == [])
    ensures (forall c :: c in cs ==> !(c.Group? && c.children == [])) ==> DropEmpty(cs) == cs
  {
    if cs != [] {
      var h := if cs[0].Group? && cs[0].children == [] then [] else [cs[0]];
      DropEmptyMembers(cs[1..]);
      assert cs == [cs[0]] + cs[1..];
      assert DropEmpty(cs) == h + DropEmpty(cs[1..]);
      assert multiset(DropEmpty(cs)) == multiset(h) + multiset(DropEmpty(cs[1..]));
      assert forall c :: c in cs[1..] ==> c in cs;
    }
  }

  lemma Cancel<T>(a: multiset<T>, b: multiset<T>, c: multiset<T>)
    requires a + c == b + c
    ensures a == b
  {
    forall x ensures a[x] == b[x] {
      assert (a + c)[x] == (b + c)[x];
    }
  }

  lemma NoDupSub<T(!new)>(a: seq<T>, b: seq<T>)
    requires multiset(a) <= multiset(b) && NoDup(b)
    ensures NoDup(a)
  {
    forall x ensures multiset(a)[x] <= 1 {
      assert multiset(a)[x] <= multiset(b)[x];
    }
  }

  /** Under unique ids, no id sits under two different siblings. */
  lemma SiblingsDisjoint(cs: seq<Node>, i: nat, j: nat, x: GroupId)
    requires NoDup(Flat(cs, IdsIn))
    requires i < |cs| && j < |cs| && i != j
    requires x in IdsIn(cs[i])
    ensures x !in IdsIn(cs[j])
  {
    var a, b := if i < j then i else j, if i < j then j else i;
    var tail := cs[a + 1..];
    var k := b - a - 1;
    assert tail[k] == cs[b];
    var whole, mid := multiset(Flat(cs, IdsIn)), multiset(Flat(tail, IdsIn));
    FlatUpdate(cs, a, cs[a], IdsIn);
    assert whole == multiset(Flat(cs[..a], IdsIn)) + multiset(IdsIn(cs[a])) + mid;
    FlatUpdate(tail, k, tail[k], IdsIn);
    assert mid == multiset(Flat(tail[..k], IdsIn)) + multiset(IdsIn(cs[b])) + multiset(Flat(tail[k + 1..], IdsIn));
    assert whole[x] >= multiset(IdsIn(cs[a]))[x] + multiset(IdsIn(cs[b]))[x];
    assert whole[x] <= 1;
  }

  /** A child's ids are a part of its parent's ids. */
  lemma ChildIds(cs: seq<Node>, i: nat)
    requires i < |cs|
    ensures multiset(IdsIn(cs[i])) <= multiset(Flat(cs, IdsIn))
  {
    FlatUpdate(cs, i, cs[i], IdsIn);
  }

  lemma ChildUnique(n: Node, i: nat)
    requires n.Group? && UniqueIds(n) && i < |n.children|
    ensures UniqueIds(n.children[i])
    ensures NoDup(Flat(n.children, IdsIn))
    ensures n.id !in Flat(n.children, IdsIn)
  {
    IdsInAllFlat(n.children);
    ChildIds(n.children, i);
    assert IdsIn(n) == [n.id] + Flat(n.children, IdsIn);
    assert multiset(IdsIn(n)) == multiset{n.id} + multiset(Flat(n.children, IdsIn));
    NoDupSub(Flat(n.children, IdsIn), IdsIn(n));
    NoDupSub(IdsIn(n.children[i]), Flat(n.children, IdsIn));
    assert multiset(IdsIn(n))[n.id] <= 1;
  }

  lemma SortChildrenFacts(cs: seq<Node>)
    ensures SortedBy(SortChildren(cs), Rank)
    ensures multiset(SortChildren(cs)) == multiset(cs)
    ensures forall c :: c in SortChildren(cs) <==> c in cs
    ensures multiset(PromptsInAll(SortChildren(cs))) == multiset(PromptsInAll(cs))
    ensures multiset(Flat(SortChildren(cs), IdsIn)) == multiset(Flat(cs, IdsIn))
  {
    SortByFacts(cs, Rank);
    FlatPerm(SortChildren(cs), cs, PromptsIn);
    FlatPerm(SortChildren(cs), cs, IdsIn);
    PromptsInAllFlat(SortChildren(cs));
    PromptsInAllFlat(cs);
    forall c ensures c in SortChildren(cs) <==> c in cs {
      assert c in SortChildren(cs) <==> c in multiset(SortChildren(cs));
      assert c in cs <==> c in multiset(cs);
    }
  }
  lemma IdsInMember(n: Node, x: GroupId)
    requires n.Group?
    ensures x in IdsIn(n) <==> x == n.id || exists i :: 0 <= i < |n.children| && x in IdsIn(n.children[i])
  {
    IdsInAllFlat(n.children);
    FlatMember(n.children, x, IdsIn);
  }

  // ---------------------------------------------------------------------
  // `remove`

  /** The first child whose subtree holds group `gid`. */
  function IndexContaining(cs: seq<Node>, gid: GroupId): (r: Option<nat>)
    ensures r.Some? ==> r.value < |cs| && gid in IdsIn(cs[r.value])
    ensures r.Some? ==> forall j :: 0 <= j < r.value ==> gid !in IdsIn(cs[j])
    ensures r.None? ==> forall j :: 0 <= j < |cs| ==> gid !in IdsIn(cs[j])
  {
    if cs == [] then None
    else if gid in IdsIn(cs[0]) then Some(0)
    else match IndexContaining(cs[1..], gid)
      case None => None
      case Some(i) => Some(i + 1)
  }

  /** The group with id `gid` in the subtree, if any. */
  function Subtree(n: Node, gid: GroupId): (r: Option<Node>)
    ensures r.Some? ==> r.value.Group? && r.value.id == gid
    ensures r.Some? <==> gid in IdsIn(n)
  {
    match n
    case Leaf(_) => None
    case Group(id, _, cs) =>
      IdsInMember(n, gid);
      if id == gid then Some(n)
      else match IndexContaining(cs, gid)
        case None => None
        case Some(i) => Subtree(cs[i], gid)
  }

  /** What `remove` does to the group it is called on: filter the child
      out, drop empty child groups and re-sort; the flag says the group
      became empty, so that it must be removed from its own parent. */
  function Step(id: GroupId, w: Option<Weight>, cs: seq<Node>, r: Ref): (Node, bool)
  {
    var f := Without(cs, r);
    (Group(id, w, SortChildren(DropEmpty(f))), f == [])
  }

  /** `g.remove(x)` for the group `g` with id `gid` inside `n`, with the
      cascade `parent.remove(this)` applied on the way back up. The flag
      is the cascade request `n` passes to its own parent. */
  function RemoveAt(n: Node, gid: GroupId, r: Ref): (res: (Node, bool))
    ensures n.Leaf? ==> res == (n, false)
    ensures n.Group? ==> res.0.Group? && res.0.id == n.id && res.0.weight == n.weight
    ensures gid !in IdsIn(n) ==> res == (n, false)
  {
    match n
    case Leaf(_) => (n, false)
    case Group(id, w, cs) =>
      IdsInMember(n, gid);
      if id == gid then Step(id, w, cs, r)
      else match IndexContaining(cs, gid)
        case None => (n, false)
        case Some(i) =>
          var res := RemoveAt(cs[i], gid, r);
          if res.1 then Step(id, w, cs[i := res.0], GroupRef(res.0.id))
          else (Group(id, w, cs[i := res.0]), false)
  }

  /** `g.remove(x)` on the selected tree `t`: the root has no parent, so a
      cascade that reaches it stops there. */
  function Remove(t: Node, gid: GroupId, r: Ref): Node
  {
    RemoveAt(t, gid, r).0
  }

  /** Prompts held by the children of `gid` that `remove` takes out. */
  function Taken(n: Node, gid: GroupId, r: Ref): multiset<Prompt>
  {
    match Subtree(n, gid)
    case None => multiset{}
    case Some(g) => multiset(PromptsInAll(Matching(g.children, r)))
  }

  lemma StepPrompts(id: GroupId, w: Option<Weight>, cs: seq<Node>, r: Ref)
    ensures multiset(PromptsInAll(cs)) == multiset(PromptsIn(Step(id, w, cs, r).0)) + multiset(PromptsInAll(Matching(cs, r)))
    ensures Step(id, w, cs, r).1 ==> PromptsIn(Step(id, w, cs, r).0) == []
  {
    var f := Without(cs, r);
    FlatWithout(cs, r, PromptsIn);
    PromptsInAllFlat(cs);
    PromptsInAllFlat(f);
    PromptsInAllFlat(Matching(cs, r));
    DropEmptyPrompts(f);
    SortChildrenFacts(DropEmpty(f));
  }

  lemma StepIds(id: GroupId, w: Option<Weight>, cs: seq<Node>, r: Ref)
    ensures multiset(IdsIn(Step(id, w, cs, r).0)) <= multiset{id} + multiset(Flat(cs, IdsIn))
  {
    var f := Without(cs, r);
    FlatWithout(cs, r, IdsIn);
    FlatDropEmpty(f, IdsIn);
    SortChildrenFacts(DropEmpty(f));
    IdsInAllFlat(SortChildren(DropEmpty(f)));
  }

  lemma {:induction false} MatchingSingle(s: seq<Node>, i: nat, r: Ref)
    requires i < |s| && Refers(s[i], r)
    requires forall j :: 0 <= j < |s| && j != i ==> !Refers(s[j], r)
    ensures Matching(s, r) == [s[i]]
  {
    if i == 0 {
      NoneMatching(s[1..], r);
    } else {
      MatchingSingle(s[1..], i - 1, r);
    }
  }

  lemma {:induction false} NoneMatching(s: seq<Node>, r: Ref)
    requires forall j :: 0 <= j < |s| ==> !Refers(s[j], r)
    ensures Matching(s, r) == []
  {
    if s != [] {
      NoneMatching(s[1..], r);
    }
  }

  /** Siblings have distinct ids, so only the pruned child matches its own id. */
  lemma MatchingOnly(cs: seq<Node>, i: nat, c: Node)
    requires i < |cs| && NoDup(Flat(cs, IdsIn))
    requires cs[i].Group? && c.Group? && c.id == cs[i].id
    ensures Matching(cs[i := c], GroupRef(c.id)) == [c]
  {
    var s := cs[i := c];
    forall j | 0 <= j < |s| && j != i ensures !Refers(s[j], GroupRef(c.id)) {
      assert c.id in IdsIn(cs[i]);
      SiblingsDisjoint(cs, i, j, c.id);
      if s[j].Group? {
        assert s[j].id in IdsIn(s[j]);
      }
    }
    MatchingSingle(s, i, GroupRef(c.id));
  }
  /** The child update in the cascade, stated on prompt multisets. */
  lemma UpdatePrompts(cs: seq<Node>, i: nat, c: Node, taken: multiset<Prompt>)
    requires i < |cs|
    requires multiset(PromptsIn(cs[i])) == multiset(PromptsIn(c)) + taken
    ensures multiset(PromptsInAll(cs)) == multiset(PromptsInAll(cs[i := c])) + taken
  {
    FlatUpdate(cs, i, c, PromptsIn);
    PromptsInAllFlat(cs);
    PromptsInAllFlat(cs[i := c]);
    var a := multiset(PromptsInAll(cs[i := c])) + taken;
    var b := multiset(PromptsInAll(cs));
    assert a + multiset(PromptsIn(c)) == b + multiset(PromptsIn(c));
    Cancel(a, b, multiset(PromptsIn(c)));
  }

  /** The cascade step when the child at `i` was pruned: it had no prompts
      left, and removing it from the parent takes none away. */
  lemma PrunedChildPrompts(id: GroupId, w: Option<Weight>, cs: seq<Node>, i: nat, c: Node)
    requires i < |cs| && NoDup(Flat(cs, IdsIn))
    requires cs[i].Group? && c.Group? && c.id == cs[i].id && PromptsIn(c) == []
    ensures multiset(PromptsInAll(cs[i := c])) == multiset(PromptsIn(Step(id, w, cs[i := c], GroupRef(c.id)).0))
  {
    var s := cs[i := c];
    StepPrompts(id, w, s, GroupRef(c.id));
    MatchingOnly(cs, i, c);
    assert PromptsInAll([c]) == PromptsIn(c) + PromptsInAll([]);
  }

  /** `remove` takes out of the tree exactly the prompts of the children
      it filters out, and a group that asks its parent to drop it holds
      no prompts. */
  lemma {:induction false} RemovePrompts(n: Node, gid: GroupId, r: Ref)
    requires UniqueIds(n)
    ensures multiset(PromptsIn(n)) == multiset(PromptsIn(RemoveAt(n, gid, r).0)) + Taken(n, gid, r)
    ensures RemoveAt(n, gid, r).1 ==> PromptsIn(RemoveAt(n, gid, r).0) == []
  {
    match n
    case Leaf(_) =>
    case Group(id, w, cs) =>
      IdsInMember(n, gid);
      if id == gid {
        StepPrompts(id, w, cs, r);
      } else {
        match IndexContaining(cs, gid)
        case None =>
        case Some(i) =>
          ChildUnique(n, i);
          RemovePrompts(cs[i], gid, r);
          var res := RemoveAt(cs[i], gid, r);
          assert Taken(n, gid, r) == Taken(cs[i], gid, r);
          UpdatePrompts(cs, i, res.0, Taken(cs[i], gid, r));
          if res.1 {
            PrunedChildPrompts(id, w, cs, i, res.0);
          }
      }
  }
  lemma SubCancel<T>(a: multiset<T>, bb: multiset<T>, c: multiset<T>, b: multiset<T>)
    requires a + bb == c + b && b <= bb
    ensures a <= c
  {
    forall x ensures a[x] <= c[x] {
      assert (a + bb)[x] == (c + b)[x];
    }
  }

  /** `remove` never introduces a group: the ids of the result are among
      those of the input. */
  lemma {:induction false} RemoveIds(n: Node, gid: GroupId, r: Ref)
    ensures multiset(IdsIn(RemoveAt(n, gid, r).0)) <= multiset(IdsIn(n))
  {
    match n
    case Leaf(_) =>
    case Group(id, w, cs) =>
      IdsInMember(n, gid);
      IdsInAllFlat(cs);
      if id == gid {
        StepIds(id, w, cs, r);
      } else {
        match IndexContaining(cs, gid)
        case None =>
        case Some(i) =>
          RemoveIds(cs[i], gid, r);
          var res := RemoveAt(cs[i], gid, r);
          FlatUpdate(cs, i, res.0, IdsIn);
          SubCancel(multiset(Flat(cs[i := res.0], IdsIn)), multiset(IdsIn(cs[i])),
                    multiset(Flat(cs, IdsIn)), multiset(IdsIn(res.0)));
          IdsInAllFlat(cs[i := res.0]);
          if res.1 {
            StepIds(id, w, cs[i := res.0], GroupRef(res.0.id));
          }
      }
  }

  lemma RemoveUnique(n: Node, gid: GroupId, r: Ref)
    requires UniqueIds(n)
    ensures UniqueIds(RemoveAt(n, gid, r).0)
  {
    RemoveIds(n, gid, r);
    NoDupSub(IdsIn(RemoveAt(n, gid, r).0), IdsIn(n));
  }

  lemma StepShape(id: GroupId, w: Option<Weight>, cs: seq<Node>, r: Ref)
    requires forall c :: c in Without(cs, r) ==> NonEmpty(c)
    ensures AllNonEmpty(Step(id, w, cs, r).0.children)
    ensures Step(id, w, cs, r).1 <==> Step(id, w, cs, r).0.children == []
  {
    var f := Without(cs, r);
    DropEmptyMembers(f);
    assert DropEmpty(f) == f;
    SortChildrenFacts(f);
    var s := SortChildren(f);
    assert |s| == |multiset(s)| == |multiset(f)| == |f|;
    forall i | 0 <= i < |s| ensures NonEmpty(s[i]) {
      assert s[i] in s;
    }
  }

  /** `remove` leaves no empty group below the root: a group emptied by
      it asks its parent to drop it, and the flag says exactly that. */
  lemma {:induction false} RemoveShape(n: Node, gid: GroupId, r: Ref)
    requires n.Group? && UniqueIds(n) && AllNonEmpty(n.children)
    ensures AllNonEmpty(RemoveAt(n, gid, r).0.children)
    ensures RemoveAt(n, gid, r).1 ==> RemoveAt(n, gid, r).0.children == []
    ensures gid in IdsIn(n) && RemoveAt(n, gid, r).0.children == [] ==> RemoveAt(n, gid, r).1
  {
    var cs := n.children;
    IdsInMember(n, gid);
    if n.id == gid {
      WithoutMembers(cs, r);
      StepShape(n.id, n.weight, cs, r);
    } else {
      match IndexContaining(cs, gid)
      case None =>
      case Some(i) =>
        assert NonEmpty(cs[i]);
        ChildUnique(n, i);
        RemoveShape(cs[i], gid, r);
        var c := RemoveAt(cs[i], gid, r).0;
        if RemoveAt(cs[i], gid, r).1 {
          PrunedChildShape(n.id, n.weight, cs, i, c);
        } else {
          assert NonEmpty(c);
          UpdateNonEmpty(cs, i, c);
        }
    }
  }

  lemma PrunedChildShape(id: GroupId, w: Option<Weight>, cs: seq<Node>, i: nat, c: Node)
    requires AllNonEmpty(cs) && i < |cs| && c.Group?
    ensures AllNonEmpty(Step(id, w, cs[i := c], GroupRef(c.id)).0.children)
    ensures Step(id, w, cs[i := c], GroupRef(c.id)).1 <==> Step(id, w, cs[i := c], GroupRef(c.id)).0.children == []
  {
    var s := cs[i := c];
    WithoutMembers(s, GroupRef(c.id));
    forall e | e in Without(s, GroupRef(c.id)) ensures NonEmpty(e) {
      var j :| 0 <= j < |s| && s[j] == e;
      assert j != i;
    }
    StepShape(id, w, s, GroupRef(c.id));
  }

  lemma UpdateNonEmpty(cs: seq<Node>, i: nat, c: Node)
    requires AllNonEmpty(cs) && i < |cs| && NonEmpty(c)
    ensures AllNonEmpty(cs[i := c])
  {
  }

  /** `remove` keeps the selected tree valid. */
  lemma RemoveValid(t: Node, gid: GroupId, r: Ref)
    requires Valid(t)
    ensures Valid(Remove(t, gid, r))
  {
    RemoveUnique(t, gid, r);
    RemoveShape(t, gid, r);
  }
  lemma {:induction false} IndexFirst(s: seq<Node>, i: nat, gid: GroupId)
    requires i < |s| && gid in IdsIn(s[i])
    requires forall j :: 0 <= j < i ==> gid !in IdsIn(s[j])
    ensures IndexContaining(s, gid) == Some(i)
  {
    if i > 0 {
      assert gid !in IdsIn(s[0]);
      IndexFirst(s[1..], i - 1, gid);
    }
  }

  lemma IndexAfterUpdate(cs: seq<Node>, i: nat, c: Node, gid: GroupId)
    requires IndexContaining(cs, gid) == Some(i) && gid in IdsIn(c)
    ensures IndexContaining(cs[i := c], gid) == Some(i)
  {
    IndexFirst(cs[i := c], i, gid);
  }

  lemma AbsentAfterUpdate(id: GroupId, w: Option<Weight>, cs: seq<Node>, i: nat, c: Node, gid: GroupId)
    requires NoDup(Flat(cs, IdsIn)) && i < |cs| && gid in IdsIn(cs[i])
    requires gid !in IdsIn(c) && id != gid
    ensures gid !in IdsIn(Group(id, w, cs[i := c]))
  {
    var s := cs[i := c];
    forall j | 0 <= j < |s| ensures gid !in IdsIn(s[j]) {
      if j != i {
        SiblingsDisjoint(cs, i, j, gid);
      }
    }
    IdsInMember(Group(id, w, s), gid);
  }

  /** What survives the filter for a group is a sibling of it. */
  lemma WithoutUpdated(cs: seq<Node>, i: nat, c: Node, e: Node)
    requires i < |cs| && c.Group? && e in Without(cs[i := c], GroupRef(c.id))
    ensures exists j :: 0 <= j < |cs| && j != i && cs[j] == e
  {
    var s := cs[i := c];
    WithoutMembers(s, GroupRef(c.id));
    var j :| 0 <= j < |s| && s[j] == e;
    assert j != i;
  }

  lemma AbsentAfterPrune(id: GroupId, w: Option<Weight>, cs: seq<Node>, i: nat, c: Node, gid: GroupId)
    requires NoDup(Flat(cs, IdsIn)) && i < |cs| && gid in IdsIn(cs[i])
    requires c.Group? && id != gid
    ensures gid !in IdsIn(Step(id, w, cs[i := c], GroupRef(c.id)).0)
  {
    var f := Without(cs[i := c], GroupRef(c.id));
    var out := SortChildren(DropEmpty(f));
    DropEmptyMembers(f);
    SortChildrenFacts(DropEmpty(f));
    forall k | 0 <= k < |out| ensures gid !in IdsIn(out[k]) {
      assert out[k] in f;
      WithoutUpdated(cs, i, c, out[k]);
      var j :| 0 <= j < |cs| && j != i && cs[j] == out[k];
      SiblingsDisjoint(cs, i, j, gid);
    }
    IdsInMember(Group(id, w, out), gid);
  }

  /** The whole effect of `g.remove(x)` on group `g` (id `gid`): when `g`
      keeps a child other than `x`, or is the root, it is left holding its
      other children, empty groups dropped, sorted; otherwise it is gone
      from the tree. A group only asks its parent to drop it when `g` was
      emptied. */
  lemma {:induction false} RemoveTarget(n: Node, gid: GroupId, r: Ref)
    requires UniqueIds(n) && gid in IdsIn(n)
    ensures var g := Subtree(n, gid).value;
            RemoveAt(n, gid, r).1 ==> Without(g.children, r) == []
    ensures var g := Subtree(n, gid).value;
            Without(g.children, r) == [] && gid != n.id ==> gid !in IdsIn(RemoveAt(n, gid, r).0)
    ensures var g := Subtree(n, gid).value;
            Without(g.children, r) != [] || gid == n.id ==>
              Subtree(RemoveAt(n, gid, r).0, gid) == Some(Step(gid, g.weight, g.children, r).0)
  {
    match n
    case Group(id, w, cs) =>
      IdsInMember(n, gid);
      if id != gid {
        var i := IndexContaining(cs, gid).value;
        ChildUnique(n, i);
        RemoveTarget(cs[i], gid, r);
        var res := RemoveAt(cs[i], gid, r);
        var g := Subtree(cs[i], gid).value;
        if res.1 {
          AbsentAfterPrune(id, w, cs, i, res.0, gid);
        } else if Without(g.children, r) == [] {
          AbsentAfterUpdate(id, w, cs, i, res.0, gid);
        } else {
          IndexAfterUpdate(cs, i, res.0, gid);
        }
      }
  }
  lemma {:induction false} SubtreeNonEmpty(n: Node, gid: GroupId)
    requires n.Group? && AllNonEmpty(n.children) && gid in IdsIn(n)
    ensures AllNonEmpty(Subtree(n, gid).value.children)
  {
    if n.id != gid {
      IdsInMember(n, gid);
      var i := IndexContaining(n.children, gid).value;
      assert NonEmpty(n.children[i]);
      SubtreeNonEmpty(n.children[i], gid);
    }
  }

  lemma {:induction false} WithoutNone(cs: seq<Node>, r: Ref)
    requires forall j :: 0 <= j < |cs| ==> !Refers(cs[j], r)
    ensures Without(cs, r) == cs
  {
    if cs != [] {
      WithoutNone(cs[1..], r);
    }
  }

  /** `g.remove(x)` on the selected tree: afterwards `g` either holds
      exactly its children other than `x`, with no reference to `x` left,
      sorted by rank, or (when `x` was its last child and `g` is not the
      root) is no longer in the tree. */
  lemma RemoveEffect(t: Node, gid: GroupId, r: Ref)
    requires Valid(t) && gid in IdsIn(t)
    ensures var g := Subtree(t, gid).value;
            Subtree(Remove(t, gid, r), gid).None? <==> gid != t.id && Without(g.children, r) == []
    ensures var g := Subtree(t, gid).value;
            Subtree(Remove(t, gid, r), gid).Some? ==>
              var g' := Subtree(Remove(t, gid, r), gid).value;
              SortedBy(g'.children, Rank)
              && multiset(g'.children) == multiset(Without(g.children, r))
              && forall c :: c in g'.children ==> !Refers(c, r)
  {
    RemoveTarget(t, gid, r);
    var g := Subtree(t, gid).value;
    var f := Without(g.children, r);
    SubtreeNonEmpty(t, gid);
    WithoutMembers(g.children, r);
    DropEmptyMembers(f);
    assert DropEmpty(f) == f;
    SortChildrenFacts(f);
  }

  /** Removing a child the group does not hold changes nothing, provided
      the tree is already in order. */
  lemma {:induction false} RemoveAbsentAt(n: Node, gid: GroupId, r: Ref)
    requires n.Group? && AllNonEmpty(n.children) && gid in IdsIn(n)
    requires var g := Subtree(n, gid).value;
             SortedBy(g.children, Rank) && forall j :: 0 <= j < |g.children| ==> !Refers(g.children[j], r)
    ensures RemoveAt(n, gid, r) == (n, gid == n.id && n.children == [])
  {
    var cs := n.children;
    IdsInMember(n, gid);
    if n.id == gid {
      WithoutNone(cs, r);
      DropEmptyMembers(cs);
      SortBySorted(cs, Rank);
    } else {
      var i := IndexContaining(cs, gid).value;
      assert NonEmpty(cs[i]);
      RemoveAbsentAt(cs[i], gid, r);
      assert cs[i := cs[i]] == cs;
    }
  }

  lemma RemoveAbsent(t: Node, gid: GroupId, r: Ref)
    requires Valid(t) && gid in IdsIn(t)
    requires var g := Subtree(t, gid).value;
             SortedBy(g.children, Rank) && forall j :: 0 <= j < |g.children| ==> !Refers(g.children[j], r)
    ensures Remove(t, gid, r) == t
  {
    RemoveAbsentAt(t, gid, r);
  }
  // ---------------------------------------------------------------------
  // `append`

  /** `g.append(...items)` for the group `g` with id `gid` inside `n`: the
      items are pushed onto `g`'s children, which are then re-sorted. The
      items are groups built for the call (no parent yet) or prompts. */
  function AppendAt(n: Node, gid: GroupId, items: seq<Node>): (r: Node)
    ensures n.Group? ==> r.Group? && r.id == n.id && r.weight == n.weight
    ensures gid !in IdsIn(n) ==> r == n
  {
    match n
    case Leaf(_) => n
    case Group(id, w, cs) =>
      IdsInMember(n, gid);
      if id == gid then Group(id, w, SortChildren(cs + items))
      else match IndexContaining(cs, gid)
        case None => n
        case Some(i) => Group(id, w, cs[i := AppendAt(cs[i], gid, items)])
  }

  /** A new group holding `items` (`new PromptGroup(...items)`). */
  function NewGroup(id: GroupId, items: seq<Node>): (g: Node)
    ensures g.Group? && g.id == id && g.weight.None?
    ensures SortedBy(g.children, Rank) && multiset(g.children) == multiset(items)
  {
    SortChildrenFacts(items);
    Group(id, None, SortChildren(items))
  }

  lemma UpdateIds(cs: seq<Node>, i: nat, c: Node, extra: multiset<GroupId>)
    requires i < |cs|
    requires multiset(IdsIn(c)) == multiset(IdsIn(cs[i])) + extra
    ensures multiset(Flat(cs[i := c], IdsIn)) == multiset(Flat(cs, IdsIn)) + extra
  {
    FlatUpdate(cs, i, c, IdsIn);
    var a := multiset(Flat(cs[i := c], IdsIn));
    var b := multiset(Flat(cs, IdsIn)) + extra;
    assert a + multiset(IdsIn(cs[i])) == b + multiset(IdsIn(cs[i]));
    Cancel(a, b, multiset(IdsIn(cs[i])));
  }

  lemma AppendHerePrompts(cs: seq<Node>, items: seq<Node>)
    ensures multiset(PromptsInAll(SortChildren(cs + items))) == multiset(PromptsInAll(cs)) + multiset(PromptsInAll(items))
  {
    SortChildrenFacts(cs + items);
    FlatConcat(cs, items, PromptsIn);
    PromptsInAllFlat(cs + items);
    PromptsInAllFlat(cs);
    PromptsInAllFlat(items);
  }

  lemma AppendHereIds(cs: seq<Node>, items: seq<Node>)
    ensures multiset(IdsInAll(SortChildren(cs + items))) == multiset(IdsInAll(cs)) + multiset(Flat(items, IdsIn))
  {
    SortChildrenFacts(cs + items);
    FlatConcat(cs, items, IdsIn);
    IdsInAllFlat(cs);
    IdsInAllFlat(SortChildren(cs + items));
  }

  /** `append` adds exactly the items' prompts to the tree. */
  lemma {:induction false} AppendPrompts(n: Node, gid: GroupId, items: seq<Node>)
    requires gid in IdsIn(n)
    ensures multiset(PromptsIn(AppendAt(n, gid, items))) == multiset(PromptsIn(n)) + multiset(PromptsInAll(items))
  {
    match n
    case Group(id, w, cs) =>
      IdsInMember(n, gid);
      if id == gid {
        AppendHerePrompts(cs, items);
      } else {
        var i := IndexContaining(cs, gid).value;
        var c := AppendAt(cs[i], gid, items);
        AppendPrompts(cs[i], gid, items);
        UpdatePrompts(cs[i := c], i, cs[i], multiset(PromptsInAll(items)));
        assert cs[i := c][i := cs[i]] == cs;
      }
  }

  /** `append` adds exactly the items' groups to the tree. */
  lemma {:induction false} AppendIds(n: Node, gid: GroupId, items: seq<Node>)
    requires gid in IdsIn(n)
    ensures multiset(IdsIn(AppendAt(n, gid, items))) == multiset(IdsIn(n)) + multiset(Flat(items, IdsIn))
  {
    match n
    case Group(id, w, cs) =>
      IdsInMember(n, gid);
      if id == gid {
        AppendHereIds(cs, items);
      } else {
        var i := IndexContaining(cs, gid).value;
        var c := AppendAt(cs[i], gid, items);
        AppendIds(cs[i], gid, items);
        UpdateIds(cs, i, c, multiset(Flat(items, IdsIn)));
        IdsInAllFlat(cs);
        IdsInAllFlat(cs[i := c]);
      }
  }

  /** After `g.append(...items)`, `g` holds its old children and the items,
      in rank order: every item is now a direct child of `g`. */
  lemma {:induction false} AppendEffect(n: Node, gid: GroupId, items: seq<Node>)
    requires gid in IdsIn(n)
    ensures Subtree(AppendAt(n, gid, items), gid).Some?
    ensures var g := Subtree(n, gid).value;
            var g' := Subtree(AppendAt(n, gid, items), gid).value;
            g'.weight == g.weight && SortedBy(g'.children, Rank)
            && multiset(g'.children) == multiset(g.children) + multiset(items)
  {
    match n
    case Group(id, w, cs) =>
      IdsInMember(n, gid);
      if id == gid {
        SortChildrenFacts(cs + items);
      } else {
        var i := IndexContaining(cs, gid).value;
        AppendEffect(cs[i], gid, items);
        IndexAfterUpdate(cs, i, AppendAt(cs[i], gid, items), gid);
      }
  }

  lemma AppendHereShape(cs: seq<Node>, items: seq<Node>)
    requires AllNonEmpty(cs) && AllNonEmpty(items)
    ensures AllNonEmpty(SortChildren(cs + items))
  {
    SortChildrenFacts(cs + items);
    var s := SortChildren(cs + items);
    var all := cs + items;
    forall k | 0 <= k < |s| ensures NonEmpty(s[k]) {
      assert s[k] in all;
      var m :| 0 <= m < |all| && all[m] == s[k];
      if m < |cs| {
        assert all[m] == cs[m];
      } else {
        assert all[m] == items[m - |cs|];
      }
    }
  }

  lemma {:induction false} AppendShape(n: Node, gid: GroupId, items: seq<Node>)
    requires n.Group? && AllNonEmpty(n.children) && AllNonEmpty(items)
    ensures AllNonEmpty(AppendAt(n, gid, items).children)
  {
    var cs := n.children;
    IdsInMember(n, gid);
    if n.id == gid {
      AppendHereShape(cs, items);
    } else {
      match IndexContaining(cs, gid)
      case None =>
      case Some(i) =>
        assert NonEmpty(cs[i]);
        AppendShape(cs[i], gid, items);
        UpdateNonEmpty(cs, i, AppendAt(cs[i], gid, items));
    }
  }

  /** Appending non-empty groups with fresh ids keeps the tree valid. */
  lemma AppendValid(t: Node, gid: GroupId, items: seq<Node>)
    requires Valid(t) && gid in IdsIn(t) && AllNonEmpty(items)
    requires NoDup(IdsIn(t) + Flat(items, IdsIn))
    ensures Valid(AppendAt(t, gid, items))
  {
    AppendIds(t, gid, items);
    AppendShape(t, gid, items);
    NoDupSub(IdsIn(AppendAt(t, gid, items)), IdsIn(t) + Flat(items, IdsIn));
  }
  lemma ChildSubtree(n: Node, k: nat, h: GroupId)
    requires n.Group? && NoDup(Flat(n.children, IdsIn))
    requires k < |n.children| && h in IdsIn(n.children[k]) && h != n.id
    ensures Subtree(n, h) == Subtree(n.children[k], h)
  {
    var cs := n.children;
    forall j | 0 <= j < k ensures h !in IdsIn(cs[j]) {
      SiblingsDisjoint(cs, k, j, h);
    }
    IndexFirst(cs, k, h);
  }

  // ---------------------------------------------------------------------
  // What `remove` and `append` leave in place

  lemma FoundInChild(n: Node, e: Node, h: GroupId)
    requires n.Group? && UniqueIds(n) && e in n.children && h in IdsIn(e)
    ensures h != n.id && Subtree(n, h) == Subtree(e, h)
  {
    var k :| 0 <= k < |n.children| && n.children[k] == e;
    ChildUnique(n, k);
    FlatMember(n.children, h, IdsIn);
    ChildSubtree(n, k, h);
  }

  /** A child `remove` does not filter out, and that is not an empty group, stays. */
  lemma StepKeeps(id: GroupId, w: Option<Weight>, cs: seq<Node>, r: Ref, e: Node)
    requires e in cs && !Refers(e, r) && !(e.Group? && e.children == [])
    ensures e in Step(id, w, cs, r).0.children
  {
    var f := Without(cs, r);
    WithoutMembers(cs, r);
    assert multiset(cs)[e] == multiset(f)[e] + multiset(Matching(cs, r))[e];
    assert e !in Matching(cs, r);
    assert e in f;
    DropEmptyMembers(f);
    DropEmptyKeeps(f, e);
    SortChildrenFacts(DropEmpty(f));
  }

  lemma {:induction false} DropEmptyKeeps(cs: seq<Node>, e: Node)
    requires e in cs && !(e.Group? && e.children == [])
    ensures e in DropEmpty(cs)
  {
    if cs[0] != e {
      DropEmptyKeeps(cs[1..], e);
    }
  }

  lemma HeldNotEmpty(c: Node, h: GroupId)
    requires c.Group? && h in IdsIn(c) && h != c.id
    ensures c.children != []
  {
    IdsInMember(c, h);
  }

  /** Removing a prompt changes no group that is not on the way from the
      root to the group it is removed from: such a group keeps its whole
      subtree. */
  lemma {:induction false} RemoveKeeps(n: Node, gid: GroupId, r: Ref, h: GroupId)
    requires n.Group? && UniqueIds(n) && AllNonEmpty(n.children) && r.PromptRef?
    requires h in IdsIn(n) && h != n.id && gid !in IdsIn(Subtree(n, h).value)
    ensures Subtree(RemoveAt(n, gid, r).0, h) == Subtree(n, h)
    decreases n, 1
  {
    var cs := n.children;
    IdsInMember(n, h);
    IdsInMember(n, gid);
    var j :| 0 <= j < |cs| && h in IdsIn(cs[j]);
    FoundInChild(n, cs[j], h);
    RemoveUnique(n, gid, r);
    assert NonEmpty(cs[j]);
    if gid == n.id {
      StepKeeps(n.id, n.weight, cs, r, cs[j]);
      FoundInChild(RemoveAt(n, gid, r).0, cs[j], h);
    } else if gid in IdsIn(n) {
      var i := IndexContaining(cs, gid).value;
      if i == j {
        RemoveKeepsBelow(n, gid, r, h, i);
      } else {
        RemoveKeepsAside(n, gid, r, h, i, j);
      }
    }
  }

  lemma {:induction false} RemoveKeepsBelow(n: Node, gid: GroupId, r: Ref, h: GroupId, i: nat)
    requires n.Group? && UniqueIds(n) && AllNonEmpty(n.children) && r.PromptRef?
    requires gid != n.id && IndexContaining(n.children, gid) == Some(i)
    requires h in IdsIn(n.children[i]) && h != n.id && gid !in IdsIn(Subtree(n.children[i], h).value)
    ensures Subtree(RemoveAt(n, gid, r).0, h) == Subtree(n.children[i], h)
    decreases n, 0
  {
    var cs := n.children;
    var sub := RemoveAt(cs[i], gid, r);
    ChildUnique(n, i);
    RemoveUnique(n, gid, r);
    assert NonEmpty(cs[i]);
    assert h != cs[i].id;
    RemoveKeeps(cs[i], gid, r, h);
    HeldNotEmpty(sub.0, h);
    RemoveShape(cs[i], gid, r);
    var res := RemoveAt(n, gid, r).0;
    assert res == Group(n.id, n.weight, cs[i := sub.0]);
    assert res.children[i] == sub.0;
    FoundInChild(res, sub.0, h);
  }

  lemma RemoveKeepsAside(n: Node, gid: GroupId, r: Ref, h: GroupId, i: nat, j: nat)
    requires n.Group? && UniqueIds(n) && AllNonEmpty(n.children) && r.PromptRef?
    requires gid != n.id && IndexContaining(n.children, gid) == Some(i)
    requires j < |n.children| && j != i && h in IdsIn(n.children[j])
    ensures Subtree(RemoveAt(n, gid, r).0, h) == Subtree(n.children[j], h)
  {
    var cs := n.children;
    var sub := RemoveAt(cs[i], gid, r);
    ChildUnique(n, i);
    RemoveUnique(n, gid, r);
    assert cs[i].id in IdsIn(cs[i]);
    SiblingsDisjoint(cs, i, j, cs[i].id);
    assert NonEmpty(cs[j]);
    assert cs[j].id in IdsIn(cs[j]);
    assert cs[i := sub.0][j] == cs[j];
    if sub.1 {
      StepKeeps(n.id, n.weight, cs[i := sub.0], GroupRef(sub.0.id), cs[j]);
    }
    FoundInChild(RemoveAt(n, gid, r).0, cs[j], h);
  }

  /** Group `a` of the tree holds `e` as a direct child. */
  ghost predicate HasChild(t: Node, a: GroupId, e: Node)
  {
    a in IdsIn(t) && e in Subtree(t, a).value.children
  }

  /** Removing a prompt leaves every child it does not filter out where
      it was, as a direct child of the same group: another prompt, or a
      non-empty group that does not hold the group it is removed from. */
  lemma {:induction false} RemoveKeepsChild(n: Node, gid: GroupId, r: Ref, a: GroupId, e: Node)
    requires n.Group? && UniqueIds(n) && AllNonEmpty(n.children) && r.PromptRef?
    requires HasChild(n, a, e) && NonEmpty(e) && !Refers(e, r) && gid !in IdsIn(e)
    ensures HasChild(RemoveAt(n, gid, r).0, a, e)
    decreases n, 1
  {
    var cs := n.children;
    IdsInMember(n, gid);
    if a == n.id {
      var j :| 0 <= j < |cs| && cs[j] == e;
      if gid == n.id {
        StepKeeps(n.id, n.weight, cs, r, e);
      } else if gid in IdsIn(n) {
        var i := IndexContaining(cs, gid).value;
        RemoveKeepsTopAside(n, gid, r, i, j);
      }
    } else if gid in IdsIn(n) {
      IdsInMember(n, a);
      var j :| 0 <= j < |cs| && a in IdsIn(cs[j]);
      FoundInChild(n, cs[j], a);
      RemoveUnique(n, gid, r);
      var res := RemoveAt(n, gid, r).0;
      assert NonEmpty(cs[j]);
      if gid == n.id {
        StepKeeps(n.id, n.weight, cs, r, cs[j]);
        FoundInChild(res, cs[j], a);
      } else {
        var i := IndexContaining(cs, gid).value;
        if i == j {
          RemoveKeepsChildBelow(n, gid, r, a, e, i);
        } else {
          RemoveKeepsAside(n, gid, r, a, i, j);
        }
      }
    }
  }

  lemma {:induction false} RemoveKeepsChildBelow(n: Node, gid: GroupId, r: Ref, a: GroupId, e: Node, i: nat)
    requires n.Group? && UniqueIds(n) && AllNonEmpty(n.children) && r.PromptRef?
    requires gid != n.id && IndexContaining(n.children, gid) == Some(i)
    requires a in IdsIn(n.children[i]) && a != n.id && e in Subtree(n.children[i], a).value.children
    requires NonEmpty(e) && !Refers(e, r) && gid !in IdsIn(e)
    ensures HasChild(RemoveAt(n, gid, r).0, a, e)
    decreases n, 0
  {
    var cs := n.children;
    var sub := RemoveAt(cs[i], gid, r);
    ChildUnique(n, i);
    RemoveUnique(n, gid, r);
    assert NonEmpty(cs[i]);
    RemoveKeepsChild(cs[i], gid, r, a, e);
    if a != sub.0.id {
      HeldNotEmpty(sub.0, a);
    }
    RemoveShape(cs[i], gid, r);
    var res := RemoveAt(n, gid, r).0;
    assert res == Group(n.id, n.weight, cs[i := sub.0]);
    assert res.children[i] == sub.0;
    FoundInChild(res, sub.0, a);
    IdsInMember(res, a);
  }

  lemma RemoveKeepsTopAside(t: Node, gid: GroupId, r: Ref, i: nat, j: nat)
    requires t.Group? && UniqueIds(t) && AllNonEmpty(t.children) && r.PromptRef?
    requires gid != t.id && IndexContaining(t.children, gid) == Some(i)
    requires j < |t.children| && j != i
    ensures t.children[j] in Remove(t, gid, r).children
  {
    var cs := t.children;
    var e := cs[j];
    var sub := RemoveAt(cs[i], gid, r);
    ChildUnique(t, i);
    assert cs[i].id in IdsIn(cs[i]);
    SiblingsDisjoint(cs, i, j, cs[i].id);
    if e.Group? {
      assert e.id in IdsIn(e);
    }
    assert NonEmpty(e);
    assert cs[i := sub.0][j] == e;
    if sub.1 {
      StepKeeps(t.id, t.weight, cs[i := sub.0], GroupRef(sub.0.id), e);
    }
  }

  /** An appended group is found in the tree, as built. */
  lemma {:induction false} AppendedFound(n: Node, gid: GroupId, items: seq<Node>, e: Node)
    requires gid in IdsIn(n) && UniqueIds(AppendAt(n, gid, items))
    requires e in items && e.Group?
    ensures Subtree(AppendAt(n, gid, items), e.id) == Some(e)
  {
    var res := AppendAt(n, gid, items);
    var cs := n.children;
    IdsInMember(n, gid);
    assert e.id in IdsIn(e);
    if n.id == gid {
      SortChildrenFacts(cs + items);
      assert e in res.children;
      FoundInChild(res, e, e.id);
    } else {
      var i := IndexContaining(cs, gid).value;
      var c := AppendAt(cs[i], gid, items);
      assert res.children[i] == c;
      ChildUnique(res, i);
      AppendedFound(cs[i], gid, items, e);
      FoundInChild(res, c, e.id);
    }
  }

  /** A subtree's prompts are prompts of the tree. */
  lemma {:induction false} SubtreePrompts(n: Node, h: GroupId)
    requires h in IdsIn(n)
    ensures multiset(PromptsIn(Subtree(n, h).value)) <= multiset(PromptsIn(n))
  {
    if n.id != h {
      IdsInMember(n, h);
      var i := IndexContaining(n.children, h).value;
      SubtreePrompts(n.children[i], h);
      FlatUpdate(n.children, i, n.children[i], PromptsIn);
      PromptsInAllFlat(n.children);
    }
  }

  lemma {:induction false} MatchingOnlyPrompt(cs: seq<Node>, p: Prompt)
    ensures forall x :: x in multiset(PromptsInAll(Matching(cs, PromptRef(p)))) ==> x == p
  {
    if cs != [] {
      MatchingOnlyPrompt(cs[1..], p);
      var m := Matching(cs, PromptRef(p));
      var head := if Refers(cs[0], PromptRef(p)) then [cs[0]] else [];
      FlatConcat(head, Matching(cs[1..], PromptRef(p)), PromptsIn);
      PromptsInAllFlat(m);
      PromptsInAllFlat(head);
      PromptsInAllFlat(Matching(cs[1..], PromptRef(p)));
      if head != [] {
        FlatSingle(cs[0], PromptsIn);
      }
    }
  }

  lemma TakeOnly<T>(before: multiset<T>, after: multiset<T>, taken: multiset<T>, p: T)
    requires before == after + taken && forall x :: x in taken ==> x == p
    ensures forall x :: x in after ==> x in before
    ensures forall x :: x in before && x != p ==> x in after
  {
    forall x | x in before && x != p ensures x in after {
      assert x !in taken;
    }
  }

  /** Removing prompt `p` takes out copies of `p` and nothing else. */
  lemma RemovePromptSet(n: Node, gid: GroupId, p: Prompt)
    requires UniqueIds(n)
    ensures var after := PromptsIn(RemoveAt(n, gid, PromptRef(p)).0);
            (forall x :: x in after ==> x in PromptsIn(n))
            && forall x :: x in PromptsIn(n) && x != p ==> x in after
  {
    var before := PromptsIn(n);
    var after := PromptsIn(RemoveAt(n, gid, PromptRef(p)).0);
    RemovePrompts(n, gid, PromptRef(p));
    if Subtree(n, gid).Some? {
      MatchingOnlyPrompt(Subtree(n, gid).value.children, p);
    }
    TakeOnly(multiset(before), multiset(after), Taken(n, gid, PromptRef(p)), p);
    forall x | x in after ensures x in before {
      assert x in multiset(after);
    }
    forall x | x in before && x != p ensures x in after {
      assert x in multiset(before);
    }
  }

  /** After `g.append(...items)` each item is a direct child of `g`. */
  lemma AppendHasChild(n: Node, gid: GroupId, items: seq<Node>, e: Node)
    requires gid in IdsIn(n) && e in items
    ensures HasChild(AppendAt(n, gid, items), gid, e)
  {
    AppendEffect(n, gid, items);
    var g' := Subtree(AppendAt(n, gid, items), gid).value;
    assert multiset(g'.children)[e] >= multiset(items)[e] > 0;
  }

  /** `append` moves no prompt: a group that held a prompt directly
      still holds it. */
  lemma {:induction false} AppendKeepsLeaf(n: Node, gid: GroupId, items: seq<Node>, o: GroupId, p: Prompt)
    requires n.Group? && UniqueIds(n) && UniqueIds(AppendAt(n, gid, items))
    requires HasChild(n, o, Leaf(p))
    ensures HasChild(AppendAt(n, gid, items), o, Leaf(p))
  {
    var cs := n.children;
    var res := AppendAt(n, gid, items);
    IdsInMember(n, gid);
    IdsInMember(n, o);
    if gid !in IdsIn(n) {
    } else if o == n.id {
      var k :| 0 <= k < |cs| && cs[k] == Leaf(p);
      if gid == n.id {
        SortChildrenFacts(cs + items);
        assert (cs + items)[k] == Leaf(p);
      } else {
        var i := IndexContaining(cs, gid).value;
        assert cs[i].Group?;
        assert res.children[k] == Leaf(p);
      }
      IdsInMember(res, o);
    } else {
      var j :| 0 <= j < |cs| && o in IdsIn(cs[j]);
      FoundInChild(n, cs[j], o);
      if gid == n.id {
        SortChildrenFacts(cs + items);
        assert (cs + items)[j] == cs[j];
        FoundInChild(res, cs[j], o);
        IdsInMember(res, o);
      } else {
        var i := IndexContaining(cs, gid).value;
        var c := AppendAt(cs[i], gid, items);
        assert res.children == cs[i := c];
        ChildUnique(res, i);
        if i == j {
          ChildUnique(n, i);
          AppendKeepsLeaf(cs[i], gid, items, o, p);
          assert res.children[i] == c;
          FoundInChild(res, c, o);
        } else {
          assert res.children[j] == cs[j];
          FoundInChild(res, cs[j], o);
        }
        IdsInMember(res, o);
      }
    }
  }

  /** A child's prompts are prompts of the tree. */
  lemma ChildPrompts(t: Node, a: GroupId, e: Node)
    requires HasChild(t, a, e)
    ensures forall x :: x in PromptsIn(e) ==> x in PromptsIn(t)
  {
    var g := Subtree(t, a).value;
    var k :| 0 <= k < |g.children| && g.children[k] == e;
    SubtreePrompts(t, a);
    FlatUpdate(g.children, k, e, PromptsIn);
    PromptsInAllFlat(g.children);
    forall x | x in PromptsIn(e) ensures x in PromptsIn(t) {
      assert x in multiset(PromptsIn(g));
    }
  }

  // ---------------------------------------------------------------------
  // `findGroup`

  /** Every prompt of the subtree in iteration order, paired with the id
      of the group that holds it as a direct child. */
  function Owned(n: Node): seq<(Prompt, GroupId)>
    decreases n, 1
  {
    match n
    case Leaf(_) => []
    case Group(id, _, cs) => OwnedAll(id, cs)
  }

  function OwnedAll(id: GroupId, cs: seq<Node>): seq<(Prompt, GroupId)>
    decreases cs, 0
  {
    if cs == [] then []
    else (if cs[0].Leaf? then [(cs[0].prompt, id)] else Owned(cs[0])) + OwnedAll(id, cs[1..])
  }

  /** The owner recorded with the first entry for `p`. */
  function FirstOwner(os: seq<(Prompt, GroupId)>, p: Prompt): (r: Option<GroupId>)
    ensures r.None? <==> forall k :: 0 <= k < |os| ==> os[k].0 != p
  {
    if os == [] then None
    else if os[0].0 == p then Some(os[0].1)
    else FirstOwner(os[1..], p)
  }

  lemma {:induction false} FirstOwnerIndex(os: seq<(Prompt, GroupId)>, p: Prompt)
    requires FirstOwner(os, p).Some?
    ensures exists k :: 0 <= k < |os| && os[k] == (p, FirstOwner(os, p).value)
                        && forall j :: 0 <= j < k ==> os[j].0 != p
  {
    if os[0].0 != p {
      FirstOwnerIndex(os[1..], p);
      var k :| 0 <= k < |os[1..]| && os[1..][k] == (p, FirstOwner(os, p).value)
                && forall j :: 0 <= j < k ==> os[1..][j].0 != p;
      assert os[k + 1] == (p, FirstOwner(os, p).value);
      assert forall j :: 0 <= j < k + 1 ==> os[j].0 != p;
    } else {
      assert os[0] == (p, FirstOwner(os, p).value);
    }
  }

  lemma {:induction false} FirstOwnerConcat(a: seq<(Prompt, GroupId)>, b: seq<(Prompt, GroupId)>, p: Prompt)
    ensures FirstOwner(a + b, p) == if FirstOwner(a, p).Some? then FirstOwner(a, p) else FirstOwner(b, p)
  {
    if a != [] {
      assert (a + b)[1..] == a[1..] + b;
      FirstOwnerConcat(a[1..], b, p);
    } else {
      assert a + b == b;
    }
  }

  /** `n.findGroup(p)`: the group holding `p` as a direct child, searched
      depth-first in child order. */
  function FindGroup(n: Node, p: Prompt): (r: Option<GroupId>)
    ensures r == FirstOwner(Owned(n), p)
    decreases n, 1
  {
    match n
    case Leaf(_) => None
    case Group(id, _, cs) => FindIn(id, cs, p)
  }

  function FindIn(id: GroupId, cs: seq<Node>, p: Prompt): (r: Option<GroupId>)
    ensures r == FirstOwner(OwnedAll(id, cs), p)
    decreases cs, 0
  {
    if cs == [] then None
    else
      var head := if cs[0].Leaf? then [(cs[0].prompt, id)] else Owned(cs[0]);
      FirstOwnerConcat(head, OwnedAll(id, cs[1..]), p);
      if cs[0] == Leaf(p) then Some(id)
      else if cs[0].Group? && FindGroup(cs[0], p).Some? then FindGroup(cs[0], p)
      else FindIn(id, cs[1..], p)
  }

  function Firsts(os: seq<(Prompt, GroupId)>): seq<Prompt>
  {
    if os == [] then [] else [os[0].0] + Firsts(os[1..])
  }

  lemma {:induction false} FirstsConcat(a: seq<(Prompt, GroupId)>, b: seq<(Prompt, GroupId)>)
    ensures Firsts(a + b) == Firsts(a) + Firsts(b)
  {
    if a != [] {
      assert (a + b)[1..] == a[1..] + b;
      FirstsConcat(a[1..], b);
    } else {
      assert a + b == b;
    }
  }

  /** The owners list follows the iterator exactly. */
  lemma {:induction false} OwnedFollowsIterator(n: Node)
    requires n.Group?
    ensures Firsts(Owned(n)) == PromptsIn(n)
  {
    OwnedAllFollows(n.id, n.children);
  }

  lemma {:induction false} OwnedAllFollows(id: GroupId, cs: seq<Node>)
    ensures Firsts(OwnedAll(id, cs)) == PromptsInAll(cs)
    decreases cs
  {
    if cs != [] {
      var head := if cs[0].Leaf? then [(cs[0].prompt, id)] else Owned(cs[0]);
      FirstsConcat(head, OwnedAll(id, cs[1..]));
      if cs[0].Group? {
        OwnedAllFollows(cs[0].id, cs[0].children);
      }
      OwnedAllFollows(id, cs[1..]);
    }
  }

  lemma {:induction false} FirstsMember(os: seq<(Prompt, GroupId)>, p: Prompt)
    ensures p in Firsts(os) <==> exists k :: 0 <= k < |os| && os[k].0 == p
  {
    if os != [] {
      FirstsMember(os[1..], p);
      if p in Firsts(os[1..]) {
        var k :| 0 <= k < |os[1..]| && os[1..][k].0 == p;
        assert os[k + 1].0 == p;
      }
    }
  }

  /** `findGroup` finds nothing exactly when the prompt is not in the tree. */
  lemma FindGroupNone(n: Node, p: Prompt)
    requires n.Group?
    ensures FindGroup(n, p).None? <==> p !in PromptsIn(n)
  {
    OwnedFollowsIterator(n);
    FirstsMember(Owned(n), p);
  }
  lemma {:induction false} FirstsIndex(os: seq<(Prompt, GroupId)>)
    ensures |Firsts(os)| == |os|
    ensures forall k :: 0 <= k < |os| ==> Firsts(os)[k] == os[k].0
  {
    if os != [] {
      FirstsIndex(os[1..]);
      assert forall k :: 1 <= k < |os| ==> Firsts(os)[k] == Firsts(os[1..])[k - 1];
    }
  }

  lemma {:induction false} OwnedAllMember(id: GroupId, cs: seq<Node>, q: Prompt, g: GroupId)
    requires (q, g) in OwnedAll(id, cs)
    ensures exists i :: 0 <= i < |cs| && ((cs[i] == Leaf(q) && g == id) || (cs[i].Group? && (q, g) in Owned(cs[i])))
    decreases cs
  {
    var head := if cs[0].Leaf? then [(cs[0].prompt, id)] else Owned(cs[0]);
    if (q, g) !in head {
      OwnedAllMember(id, cs[1..], q, g);
      var i :| 0 <= i < |cs[1..]| && ((cs[1..][i] == Leaf(q) && g == id) || (cs[1..][i].Group? && (q, g) in Owned(cs[1..][i])));
      assert cs[i + 1] == cs[1..][i];
    } else {
      assert (cs[0] == Leaf(q) && g == id) || (cs[0].Group? && (q, g) in Owned(cs[0]));
    }
  }

  /** Every owner recorded for a prompt is a group of the tree holding
      that prompt as a direct child. */
  lemma {:induction false} OwnedMember(n: Node, q: Prompt, g: GroupId)
    requires n.Group? && UniqueIds(n) && (q, g) in Owned(n)
    ensures g in IdsIn(n) && Leaf(q) in Subtree(n, g).value.children
  {
    var cs := n.children;
    OwnedAllMember(n.id, cs, q, g);
    var i :| 0 <= i < |cs| && ((cs[i] == Leaf(q) && g == n.id) || (cs[i].Group? && (q, g) in Owned(cs[i])));
    if !(cs[i] == Leaf(q) && g == n.id) {
      ChildUnique(n, i);
      OwnedMember(cs[i], q, g);
      FlatMember(cs, g, IdsIn);
      ChildSubtree(n, i, g);
      IdsInMember(n, g);
    }
  }

  /** `findGroup` returns the group holding the first occurrence of the
      prompt in iteration order, and that group holds it as a direct child. */
  lemma FindGroupOwner(n: Node, p: Prompt)
    requires n.Group? && UniqueIds(n) && FindGroup(n, p).Some?
    ensures var g := FindGroup(n, p).value;
            g in IdsIn(n) && Leaf(p) in Subtree(n, g).value.children
    ensures exists k :: 0 <= k < |PromptsIn(n)| && PromptsIn(n)[k] == p && p !in PromptsIn(n)[..k]
                        && k < |Owned(n)| && Owned(n)[k] == (p, FindGroup(n, p).value)
  {
    var os := Owned(n);
    FirstOwnerIndex(os, p);
    var k :| 0 <= k < |os| && os[k] == (p, FindGroup(n, p).value) && forall j :: 0 <= j < k ==> os[j].0 != p;
    OwnedMember(n, p, FindGroup(n, p).value);
    OwnedFollowsIterator(n);
    FirstsIndex(os);
    assert PromptsIn(n)[k] == p;
  }
  // ---------------------------------------------------------------------
  // `getParents`

  /** `[g, ...g.getParents()]` for the group with id `gid`: the group and
      its ancestors, nearest first, ending at the root of `n`. */
  function Chain(n: Node, gid: GroupId): (r: seq<GroupId>)
    ensures gid in IdsIn(n) ==> |r| >= 1 && r[0] == gid && r[|r| - 1] == n.id
    ensures gid !in IdsIn(n) ==> r == []
  {
    match n
    case Leaf(_) => []
    case Group(id, _, cs) =>
      IdsInMember(n, gid);
      if id == gid then [id]
      else match IndexContaining(cs, gid)
        case None => []
        case Some(i) => Chain(cs[i], gid) + [id]
  }

  /** `g.getParents()`. */
  function Parents(t: Node, gid: GroupId): seq<GroupId>
  {
    var c := Chain(t, gid);
    if c == [] then [] else c[1..]
  }

  /** Group `a` holds group `b` as a direct child. */
  ghost predicate ParentOf(t: Node, a: GroupId, b: GroupId)
  {
    a in IdsIn(t) && exists c :: c in Subtree(t, a).value.children && c.Group? && c.id == b
  }

  lemma {:induction false} ChainIn(n: Node, gid: GroupId)
    ensures forall x :: x in Chain(n, gid) ==> x in IdsIn(n)
  {
    match n
    case Leaf(_) =>
    case Group(id, _, cs) =>
      IdsInMember(n, gid);
      if id != gid {
        match IndexContaining(cs, gid)
        case None =>
        case Some(i) =>
          ChainIn(cs[i], gid);
          forall x | x in Chain(cs[i], gid) ensures x in IdsIn(n) {
            IdsInMember(n, x);
          }
      }
  }

  /** A group inside child `i` is reached through that child. */
  lemma ChainThroughChild(n: Node, i: nat, x: GroupId)
    requires n.Group? && UniqueIds(n) && i < |n.children| && x in IdsIn(n.children[i])
    ensures Chain(n, x) == Chain(n.children[i], x) + [n.id]
  {
    var cs := n.children;
    ChildUnique(n, i);
    FlatMember(cs, x, IdsIn);
    forall k | 0 <= k < i ensures x !in IdsIn(cs[k]) {
      SiblingsDisjoint(cs, i, k, x);
    }
    IndexFirst(cs, i, x);
  }

  /** Every suffix of a chain is the chain of its first group. */
  lemma {:induction false} ChainSuffix(n: Node, gid: GroupId, j: nat)
    requires UniqueIds(n) && j < |Chain(n, gid)|
    ensures Chain(n, Chain(n, gid)[j]) == Chain(n, gid)[j..]
  {
    match n
    case Group(id, _, cs) =>
      IdsInMember(n, gid);
      var c := Chain(n, gid);
      if id != gid && j < |c| - 1 {
        var i := IndexContaining(cs, gid).value;
        var ci := Chain(cs[i], gid);
        assert c == ci + [id];
        ChildUnique(n, i);
        ChainSuffix(cs[i], gid, j);
        ChainIn(cs[i], gid);
        ChainThroughChild(n, i, ci[j]);
        assert c[j..] == ci[j..] + [id];
      }
  }

  /** The second entry of a chain is the group holding the first. */
  lemma {:induction false} ChainParent(n: Node, gid: GroupId)
    requires UniqueIds(n) && |Chain(n, gid)| >= 2
    ensures ParentOf(n, Chain(n, gid)[1], gid)
  {
    match n
    case Group(id, _, cs) =>
      IdsInMember(n, gid);
      var i := IndexContaining(cs, gid).value;
      if cs[i].id == gid {
        assert cs[i] in Subtree(n, id).value.children;
      } else {
        ChildUnique(n, i);
        ChainParent(cs[i], gid);
        var a := Chain(cs[i], gid)[1];
        ChainIn(cs[i], gid);
        FlatMember(cs, a, IdsIn);
        ChildSubtree(n, i, a);
        IdsInMember(n, a);
      }
  }

  /** `getParents` yields the ancestors of a group, each the holder of the
      one before, nearest first; it ends at the root and never yields the
      group itself. */
  lemma ParentsAreAncestors(t: Node, gid: GroupId)
    requires UniqueIds(t) && gid in IdsIn(t)
    ensures gid !in Parents(t, gid)
    ensures gid == t.id <==> Parents(t, gid) == []
    ensures var ps := Parents(t, gid);
            ps != [] ==> ps[|ps| - 1] == t.id && ParentOf(t, ps[0], gid)
                         && forall k :: 0 <= k < |ps| - 1 ==> ParentOf(t, ps[k + 1], ps[k])
  {
    var c := Chain(t, gid);
    var ps := Parents(t, gid);
    forall j | 1 <= j < |c| ensures c[j] != gid {
      ChainSuffix(t, gid, j);
    }
    if |c| >= 2 {
      ChainParent(t, gid);
    }
    forall k | 0 <= k < |ps| - 1 ensures ParentOf(t, ps[k + 1], ps[k]) {
      ChainSuffix(t, gid, k + 1);
      ChainParent(t, ps[k]);
    }
    if gid == t.id {
      assert c == [t.id];
    } else {
      assert |c| >= 2;
    }
  }
  // ---------------------------------------------------------------------
  // `toString`

  /** `toString` of a node; `root` says the group has no parent. */
  function Render(n: Node, root: bool): string
    decreases n, 1
  {
    match n
    case Leaf(p) => Taxonomy.PromptText(p)
    case Group(_, w, cs) =>
      var j := RenderAll(cs);
      if !root && w.Some? then "(" + j + ":" + w.value + ")"
      else if !root && |cs| > 1 then "(" + j + ")"
      else j
  }

  /** `children.join(", ")` over the children's `toString`. */
  function RenderAll(cs: seq<Node>): string
    decreases cs, 0
  {
    if cs == [] then ""
    else if |cs| == 1 then Render(cs[0], false)
    else Render(cs[0], false) + ", " + RenderAll(cs[1..])
  }

  /** No group of the subtree carries a weight. */
  ghost predicate WeightFree(n: Node)
  {
    match n
    case Leaf(_) => true
    case Group(_, w, cs) => w.None? && forall i :: 0 <= i < |cs| ==> WeightFree(cs[i])
  }

  predicate ParenFree(s: string)
  {
    forall k :: 0 <= k < |s| ==> s[k] != '(' && s[k] != ')'
  }

  /** The text with its parentheses deleted. */
  function Strip(s: string): (r: string)
    ensures ParenFree(r)
    ensures ParenFree(s) ==> r == s
  {
    if s == [] then []
    else (if s[0] == '(' || s[0] == ')' then [] else [s[0]]) + Strip(s[1..])
  }

  /** The prompts' texts, parentheses deleted, joined by ", ". */
  function JoinTexts(ps: seq<Prompt>): string
  {
    if ps == [] then ""
    else if |ps| == 1 then Strip(ps[0].text)
    else Strip(ps[0].text) + ", " + JoinTexts(ps[1..])
  }

  /** The prompts' texts as they are, joined by ", ". */
  function Joined(ps: seq<Prompt>): string
  {
    if ps == [] then ""
    else if |ps| == 1 then ps[0].text
    else ps[0].text + ", " + Joined(ps[1..])
  }

  /** With no parentheses in the texts, stripping them loses nothing. */
  lemma {:induction false} JoinTextsPlain(ps: seq<Prompt>)
    requires forall i :: 0 <= i < |ps| ==> ParenFree(ps[i].text)
    ensures JoinTexts(ps) == Joined(ps)
  {
    if |ps| > 1 {
      JoinTextsPlain(ps[1..]);
    }
  }

  lemma {:induction false} StripConcat(a: string, b: string)
    ensures Strip(a + b) == Strip(a) + Strip(b)
  {
    if a == [] {
      assert a + b == b;
    } else {
      assert (a + b)[1..] == a[1..] + b;
      StripConcat(a[1..], b);
    }
  }

  lemma {:induction false} JoinTextsConcat(a: seq<Prompt>, b: seq<Prompt>)
    requires a != [] && b != []
    ensures JoinTexts(a + b) == JoinTexts(a) + ", " + JoinTexts(b)
  {
    if |a| > 1 {
      assert (a + b)[1..] == a[1..] + b;
      JoinTextsConcat(a[1..], b);
    } else {
      assert (a + b)[1..] == b;
    }
  }

  lemma {:induction false} NonEmptyHasPrompts(n: Node)
    requires NonEmpty(n)
    ensures PromptsIn(n) != []
  {
    if n.Group? {
      NonEmptyHasPrompts(n.children[0]);
    }
  }

  lemma {:induction false} RenderAllHasPrompts(cs: seq<Node>)
    requires cs != [] && AllNonEmpty(cs)
    ensures PromptsInAll(cs) != []
  {
    NonEmptyHasPrompts(cs[0]);
  }

  /** Without weights, `toString` lists the prompts in iteration order,
      separated by ", ", and adds nothing but parentheses. */
  lemma {:induction false} RenderLists(n: Node, root: bool)
    requires WeightFree(n) && (n.Group? ==> AllNonEmpty(n.children))
    ensures Strip(Render(n, root)) == JoinTexts(PromptsIn(n))
    decreases n, 1
  {
    match n
    case Leaf(p) =>
      StripConcat([], p.text);
    case Group(_, _, cs) =>
      var j := RenderAll(cs);
      RenderAllLists(cs);
      StripConcat("(", j);
      StripConcat("(" + j, ")");
  }

  /** When no prompt text holds a parenthesis, deleting the parentheses
      from `toString`'s output leaves exactly the texts joined by ", ". */
  lemma RenderListsPlain(n: Node, root: bool)
    requires WeightFree(n) && (n.Group? ==> AllNonEmpty(n.children))
    requires forall p :: p in PromptsIn(n) ==> ParenFree(p.text)
    ensures Strip(Render(n, root)) == Joined(PromptsIn(n))
  {
    RenderLists(n, root);
    JoinTextsPlain(PromptsIn(n));
  }

  lemma {:induction false} RenderAllLists(cs: seq<Node>)
    requires AllNonEmpty(cs) && forall i :: 0 <= i < |cs| ==> WeightFree(cs[i])
    ensures Strip(RenderAll(cs)) == JoinTexts(PromptsInAll(cs))
    decreases cs, 0
  {
    if cs != [] {
      assert NonEmpty(cs[0]);
      RenderLists(cs[0], false);
      if |cs| > 1 {
        RenderAllLists(cs[1..]);
        NonEmptyHasPrompts(cs[0]);
        RenderAllHasPrompts(cs[1..]);
        assert RenderAll(cs) == Render(cs[0], false) + ", " + RenderAll(cs[1..]);
        assert PromptsInAll(cs) == PromptsIn(cs[0]) + PromptsInAll(cs[1..]);
        StripJoin(Render(cs[0], false), RenderAll(cs[1..]), PromptsIn(cs[0]), PromptsInAll(cs[1..]));
      } else {
        assert cs[1..] == [];
        assert PromptsInAll(cs) == PromptsIn(cs[0]);
      }
    }
  }

  /** Two rendered parts joined by ", " strip to the joined texts. */
  lemma StripJoin(x: string, y: string, a: seq<Prompt>, b: seq<Prompt>)
    requires a != [] && b != []
    requires Strip(x) == JoinTexts(a) && Strip(y) == JoinTexts(b)
    ensures Strip(x + ", " + y) == JoinTexts(a + b)
  {
    JoinTextsConcat(a, b);
    StripConcat(x, ", ");
    StripConcat(x + ", ", y);
    StripSeparator();
    calc {
      Strip(x + ", " + y);
      Strip(x + ", ") + Strip(y);
      Strip(x) + Strip(", ") + Strip(y);
      JoinTexts(a) + ", " + JoinTexts(b);
    }
  }

  lemma StripSeparator()
    ensures Strip(", ") == ", "
  {
    assert ", "[1..] == " ";
    assert " "[1..] == "";
    assert Strip("") == "";
    assert Strip(" ") == " " + Strip("");
  }

  // ---------------------------------------------------------------------
  // Rank order

  /** Every group of the subtree has its children in rank order. */
  ghost predicate Ordered(n: Node)
  {
    match n
    case Leaf(_) => true
    case Group(_, _, cs) => SortedBy(cs, Rank) && forall i :: 0 <= i < |cs| ==> Ordered(cs[i])
  }

  /** With its children in order, a group's rank (its first child's) is
      the least rank among its children. */
  lemma GroupRankLeast(g: Node)
    requires g.Group? && g.children != [] && SortedBy(g.children, Rank)
    ensures forall c :: c in g.children ==> RankLe(Rank(g), Rank(c))
  {
    forall c | c in g.children ensures RankLe(Rank(g), Rank(c)) {
      var j :| 0 <= j < |g.children| && g.children[j] == c;
      if j > 0 {
        assert RankLe(Rank(g.children[0]), Rank(g.children[j]));
      }
    }
  }

  /** A group's rank, taken from its first child down to a prompt, is the
      rank of the first prompt the group yields in iteration order. */
  lemma {:induction false} RankFirstPrompt(n: Node)
    requires NonEmpty(n)
    ensures PromptsIn(n) != [] && Rank(n) == PromptsIn(n)[0].rank
    decreases n
  {
    if n.Group? {
      var cs := n.children;
      RankFirstPrompt(cs[0]);
      assert PromptsIn(n) == PromptsIn(cs[0]) + PromptsInAll(cs[1..]);
    }
  }

  /** In a subtree whose groups all keep their children in rank order, the
      subtree's rank is the least rank of any prompt it holds. */
  lemma {:induction false} RankLeastPrompt(n: Node)
    requires NonEmpty(n) && Ordered(n)
    ensures forall p :: p in PromptsIn(n) ==> RankLe(Rank(n), p.rank)
    decreases n
  {
    if n.Group? {
      var cs := n.children;
      forall p | p in PromptsIn(n) ensures RankLe(Rank(n), p.rank) {
        PromptsInAllFlat(cs);
        FlatMember(cs, p, PromptsIn);
        var i :| 0 <= i < |cs| && p in PromptsIn(cs[i]);
        RankLeastPrompt(cs[i]);
        if i > 0 {
          RankLeTransitive(Rank(cs[0]), Rank(cs[i]), p.rank);
        }
      }
    }
  }

  // Prompts with ranks [0], [1] and [2] selected in the order a, c, b,
  // after a and c were put in one group (group 3).
  function PromptA(): Prompt { Taxonomy.Prompt("A", "a", [0]) }
  function PromptB(): Prompt { Taxonomy.Prompt("B", "b", [1]) }
  function PromptC(): Prompt { Taxonomy.Prompt("C", "c", [2]) }

  function Grouped(): Node
  {
    Group(0, None, [Group(3, None, [Group(4, None, [Leaf(PromptA())]), Group(5, None, [Leaf(PromptC())])]),
                    Group(6, None, [Leaf(PromptB())])])
  }

  lemma Pair(x: Node, y: Node, r: Ref)
    ensures IdsInAll([x]) == IdsIn(x) && IdsInAll([x, y]) == IdsIn(x) + IdsIn(y)
    ensures Without([x], r) == (if Refers(x, r) then [] else [x])
    ensures Without([x, y], r) == (if Refers(x, r) then [] else [x]) + (if Refers(y, r) then [] else [y])
    ensures RenderAll([x, y]) == Render(x, false) + ", " + Render(y, false)
  {
    assert [x, y][1..] == [y];
    assert [y][1..] == [];
    assert [x][1..] == [];
  }

  lemma OnePromptIds(id: GroupId, p: Prompt)
    ensures IdsIn(Group(id, None, [Leaf(p)])) == [id]
  {
    assert IdsInAll([Leaf(p)]) == IdsIn(Leaf(p)) + IdsInAll([]);
  }

  lemma PairIds(x: Node, y: Node)
    ensures IdsInAll([x, y]) == IdsIn(x) + IdsIn(y)
  {
    assert [x, y][1..] == [y];
    assert [y][1..] == [];
    assert IdsInAll([y]) == IdsIn(y) + IdsInAll([]);
  }

  lemma TwoGroupIds(id: GroupId, x: Node, y: Node)
    ensures IdsIn(Group(id, None, [x, y])) == [id] + IdsIn(x) + IdsIn(y)
  {
    PairIds(x, y);
  }

  lemma GroupedIds()
    ensures IdsIn(Grouped()) == [0, 3, 4, 5, 6]
  {
    var g4 := Group(4, None, [Leaf(PromptA())]);
    var g5 := Group(5, None, [Leaf(PromptC())]);
    var g3 := Group(3, None, [g4, g5]);
    var g6 := Group(6, None, [Leaf(PromptB())]);
    OnePromptIds(4, PromptA());
    OnePromptIds(5, PromptC());
    OnePromptIds(6, PromptB());
    TwoGroupIds(3, g4, g5);
    assert IdsIn(g3) == [3, 4, 5];
    assert Grouped() == Group(0, None, [g3, g6]);
    TwoGroupIds(0, g3, g6);
    assert [0] + [3, 4, 5] + [6] == [0, 3, 4, 5, 6];
  }

  /** Ids listed in increasing order are distinct. */
  lemma {:induction false} IncreasingNoDup(s: seq<GroupId>)
    requires forall i, j :: 0 <= i < j < |s| ==> s[i] < s[j]
    ensures NoDup(s)
  {
    if s != [] {
      IncreasingNoDup(s[1..]);
      assert s == [s[0]] + s[1..];
      assert s[0] !in s[1..];
      forall x ensures multiset(s)[x] <= 1 {
        assert multiset(s)[x] == multiset([s[0]])[x] + multiset(s[1..])[x];
        if x == s[0] {
          assert multiset(s[1..])[x] == 0;
        }
      }
    }
  }

  lemma GroupedUnique()
    ensures UniqueIds(Grouped())
  {
    GroupedIds();
    IncreasingNoDup([0, 3, 4, 5, 6]);
  }

  lemma GroupedShape()
    ensures AllNonEmpty(Grouped().children)
  {
    var g4 := Group(4, None, [Leaf(PromptA())]);
    var g5 := Group(5, None, [Leaf(PromptC())]);
    var g6 := Group(6, None, [Leaf(PromptB())]);
    assert NonEmpty(g4) && NonEmpty(g5) && NonEmpty(g6);
    assert NonEmpty(Group(3, None, [g4, g5]));
  }

  lemma SortedPair(x: Node, y: Node)
    requires RankLe(Rank(x), Rank(y))
    ensures SortedBy([x, y], Rank)
  {
  }

  lemma GroupedOrdered()
    ensures Ordered(Grouped())
  {
    var g4 := Group(4, None, [Leaf(PromptA())]);
    var g5 := Group(5, None, [Leaf(PromptC())]);
    var g3 := Group(3, None, [g4, g5]);
    var g6 := Group(6, None, [Leaf(PromptB())]);
    assert Ordered(g4) && Ordered(g5) && Ordered(g6);
    assert Before([0], [2]);
    SortedPair(g4, g5);
    assert Ordered(g3);
    assert Before([0], [1]);
    SortedPair(g3, g6);
  }

  lemma GroupedValid()
    ensures Valid(Grouped()) && Ordered(Grouped())
  {
    GroupedUnique();
    GroupedShape();
    GroupedOrdered();
  }

  lemma DeselectAInner()
    ensures var g4 := Group(4, None, [Leaf(PromptA())]);
            var g5 := Group(5, None, [Leaf(PromptC())]);
            RemoveAt(Group(3, None, [g4, g5]), 4, PromptRef(PromptA())) == (Group(3, None, [g5]), false)
  {
    var r := PromptRef(PromptA());
    var g4 := Group(4, None, [Leaf(PromptA())]);
    var g5 := Group(5, None, [Leaf(PromptC())]);
    var g3 := Group(3, None, [g4, g5]);
    var e4 := Group(4, None, []);
    Pair(Leaf(PromptA()), g4, r);
    assert RemoveAt(g4, 4, r) == (e4, true);
    Pair(e4, g5, GroupRef(4));
    assert Refers(e4, GroupRef(4)) && !Refers(g5, GroupRef(4));
    assert Without([e4, g5], GroupRef(4)) == [g5];
    Pair(g4, g5, r);
    assert [g5][1..] == [];
    assert DropEmpty([g5]) == [g5];
    assert SortChildren([g5]) == [g5];
    assert IndexContaining(g3.children, 4) == Some(0);
    assert g3.children[0 := e4] == [e4, g5];
    assert Step(3, None, [e4, g5], GroupRef(4)) == (Group(3, None, [g5]), false);
  }

  function AfterDeselectA(): Node
  {
    Group(0, None, [Group(3, None, [Group(5, None, [Leaf(PromptC())])]), Group(6, None, [Leaf(PromptB())])])
  }

  lemma AfterDeselectAUnordered()
    ensures !Ordered(AfterDeselectA())
  {
    var g3 := Group(3, None, [Group(5, None, [Leaf(PromptC())])]);
    var g6 := Group(6, None, [Leaf(PromptB())]);
    assert Rank(g3) == [2] && Rank(g6) == [1];
    assert Before([1], [2]);
    assert !RankLe([2], [1]);
    var cs := AfterDeselectA().children;
    assert cs[0] == g3 && cs[1] == g6;
    assert !RankLe(Rank(cs[0]), Rank(cs[1]));
    assert !SortedBy(cs, Rank);
  }

  lemma AfterDeselectARender()
    ensures Render(AfterDeselectA(), true) == "c, b"
  {
    var g5 := Group(5, None, [Leaf(PromptC())]);
    var g3 := Group(3, None, [g5]);
    var g6 := Group(6, None, [Leaf(PromptB())]);
    assert Render(g5, false) == "c";
    assert Render(g3, false) == "c";
    assert Render(g6, false) == "b";
    Pair(g3, g6, GroupRef(0));
  }

  lemma GroupedDeselectA()
    ensures Remove(Grouped(), 4, PromptRef(PromptA())) == AfterDeselectA()
  {
    var r := PromptRef(PromptA());
    var g4 := Group(4, None, [Leaf(PromptA())]);
    var g5 := Group(5, None, [Leaf(PromptC())]);
    var g3 := Group(3, None, [g4, g5]);
    DeselectAInner();
    GroupedIds();
    Pair(g4, g5, r);
    Pair(Leaf(PromptA()), g4, r);
    assert 4 in IdsIn(g3);
    assert IndexContaining(Grouped().children, 4) == Some(0);
  }

  /** `remove` re-sorts only the group it is called on: deselecting a
      moves group 3's rank from [0] to [2], and the root is left holding
      it before b. */
  lemma AncestorsLeftUnsorted()
    ensures Valid(Grouped()) && Ordered(Grouped())
    ensures !Ordered(Remove(Grouped(), 4, PromptRef(PromptA())))
    ensures Render(Remove(Grouped(), 4, PromptRef(PromptA())), true) == "c, b"
  {
    GroupedValid();
    GroupedDeselectA();
    AfterDeselectAUnordered();
    AfterDeselectARender();
  }
}
