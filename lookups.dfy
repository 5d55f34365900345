/** The two lookup tables the editor builds once from the taxonomy's
    iteration order: prompt id to prompt, and output text to every prompt
    carrying that text. */
module Lookups {
  import opened Ranks
  import opened Taxonomy

  /** The prompts of `ps` whose text is `t`, in order. */
  function WithText(ps: seq<Prompt>, t: string): seq<Prompt>
  {
    if ps == [] then [] else (if ps[0].text == t then [ps[0]] else []) + WithText(ps[1..], t)
  }

  lemma {:induction false} WithTextSnoc(ps: seq<Prompt>, p: Prompt, t: string)
    ensures WithText(ps + [p], t) == WithText(ps, t) + (if p.text == t then [p] else [])
  {
    if ps == [] {
      assert [p][1..] == [];
    } else {
      assert (ps + [p])[1..] == ps[1..] + [p];
      WithTextSnoc(ps[1..], p, t);
    }
  }

  /** `fromIdLookup`: a Map built from [id, prompt] entries, later entries
      overwriting earlier ones with the same key. */
  function IdLookup(ps: seq<Prompt>): (m: map<string, Prompt>)
    ensures m.Keys == set p | p in ps :: Id(p)
    ensures forall k :: k in m ==> m[k] in ps && Id(m[k]) == k
  {
    if ps == [] then map[]
    else
      var init := ps[..|ps| - 1];
      var m := IdLookup(init);
      assert ps == init + [ps[|ps| - 1]];
      m[Id(ps[|ps| - 1]) := ps[|ps| - 1]]
  }

  ghost predicate DistinctRanks(ps: seq<Prompt>)
  {
    forall i, j :: 0 <= i < |ps| && 0 <= j < |ps| && i != j ==> ps[i].rank != ps[j].rank
  }

  /** With distinct ranks, `fromIdLookup` maps each prompt's id to that prompt. */
  lemma IdLookupFinds(ps: seq<Prompt>, p: Prompt)
    requires DistinctRanks(ps)
    requires p in ps
    ensures Id(p) in IdLookup(ps) && IdLookup(ps)[Id(p)] == p
  {
    var q := IdLookup(ps)[Id(p)];
    IdInjective(p, q);
    var i :| 0 <= i < |ps| && ps[i] == p;
    var j :| 0 <= j < |ps| && ps[j] == q;
  }

  /** For the taxonomy built from any source, every prompt is found under its own id. */
  lemma TaxonomyIdLookup(tree: Source, p: Prompt)
    requires p in Prompts(Build(tree, None, []))
    ensures Id(p) in IdLookup(Prompts(Build(tree, None, [])))
    ensures IdLookup(Prompts(Build(tree, None, [])))[Id(p)] == p
  {
    var ps := Prompts(Build(tree, None, []));
    BuildWellRanked(tree, None, []);
    IterationOrdered(Build(tree, None, []));
    forall i, j | 0 <= i < |ps| && 0 <= j < |ps| && i != j ensures ps[i].rank != ps[j].rank {
      BeforeIrreflexive(ps[i].rank);
    }
    IdLookupFinds(ps, p);
  }

  /** `fromTextLookup`: the reduce that appends each prompt to the list kept
      under its text. */
  function TextLookup(ps: seq<Prompt>): (m: map<string, seq<Prompt>>)
    ensures m.Keys == set p | p in ps :: p.text
    ensures forall t :: t in m ==> m[t] == WithText(ps, t)
  {
    if ps == [] then map[]
    else
      var init, p := ps[..|ps| - 1], ps[|ps| - 1];
      var m := TextLookup(init);
      assert ps == init + [p];
      TextLookupStep(m, init, p);
      m[p.text := (if p.text in m then m[p.text] else []) + [p]]
  }

  lemma TextLookupStep(m: map<string, seq<Prompt>>, init: seq<Prompt>, p: Prompt)
    requires m.Keys == set q | q in init :: q.text
    requires forall t :: t in m ==> m[t] == WithText(init, t)
    ensures var m' := m[p.text := (if p.text in m then m[p.text] else []) + [p]];
      && m'.Keys == (set q | q in init + [p] :: q.text)
      && forall t :: t in m' ==> m'[t] == WithText(init + [p], t)
  {
    var m' := m[p.text := (if p.text in m then m[p.text] else []) + [p]];
    assert (set q | q in init + [p] :: q.text) == (set q | q in init :: q.text) + {p.text};
    forall t | t in m' ensures m'[t] == WithText(init + [p], t) {
      WithTextSnoc(init, p, t);
      if t == p.text && t !in m && WithText(init, t) != [] {
        WithTextMember(init, t);
      }
    }
  }

  lemma {:induction false} WithTextMember(ps: seq<Prompt>, t: string)
    requires WithText(ps, t) != []
    ensures exists p :: p in ps && p.text == t
  {
    if ps[0].text != t {
      WithTextMember(ps[1..], t);
      var p :| p in ps[1..] && p.text == t;
      assert p in ps;
    }
  }
}
