/** The skills radar of the profile page: for every skill name found in the
    `baseSkills` of any progress parent, the highest value seen, kept in a
    map in first-insertion order. */
module Skills {
  import opened Wrappers

  /** One `name: value` entry of a `baseSkills` object, in key order. */
  datatype Skill = Skill(name: string, value: int)

  /** A parent's `attrs`; `baseSkills` may be missing. */
  datatype Attrs = Attrs(baseSkills: Option<seq<Skill>>)

  /** A progress parent; its `attrs` may be missing. */
  datatype Parent = Parent(attrs: Option<Attrs>)

  /** A progress entry, reduced to `progress.object.parents`. */
  datatype Progress = Progress(parents: seq<Parent>)

  /** A JavaScript `Map` from skill name to value: the keys in insertion
      order and the value stored under each. */
  datatype SkillMap = SkillMap(order: seq<string>, best: map<string, int>)

  const EmptyMap := SkillMap([], map[])

  /** The keys in `order` are distinct and are exactly the keys of `best`. */
  ghost predicate WellFormed(m: SkillMap) {
    && (forall i, j :: 0 <= i < j < |m.order| ==> m.order[i] != m.order[j])
    && (forall k :: k in m.best <==> k in m.order)
  }

  /** The entries a parent contributes: its `baseSkills`, or none when
      `attrs` or `baseSkills` is missing. */
  function ParentSkills(p: Parent): seq<Skill> {
    if p.attrs.Some? && p.attrs.value.baseSkills.Some? then p.attrs.value.baseSkills.value
    else []
  }

  /** The entries of a list of parents, in visiting order. */
  function ParentsSkills(ps: seq<Parent>): seq<Skill> {
    if ps == [] then [] else ParentsSkills(ps[..|ps| - 1]) + ParentSkills(ps[|ps| - 1])
  }

  /** The entries the nested loops of `createSkillsChart` visit, in order. */
  function ProgressesSkills(ps: seq<Progress>): seq<Skill> {
    if ps == [] then []
    else ProgressesSkills(ps[..|ps| - 1]) + ParentsSkills(ps[|ps| - 1].parents)
  }

  /** The loop body: `set` when the key is new or the value strictly greater.
      `Map.prototype.set` on an existing key keeps its position. */
  function Record(m: SkillMap, s: Skill): SkillMap {
    if s.name !in m.best || s.value > m.best[s.name] then
      SkillMap(if s.name in m.best then m.order else m.order + [s.name], m.best[s.name := s.value])
    else m
  }

  /** The map after visiting `occ` in order, starting from an empty map. */
  function Aggregate(occ: seq<Skill>): SkillMap {
    if occ == [] then EmptyMap else Record(Aggregate(occ[..|occ| - 1]), occ[|occ| - 1])
  }

  /** One loop step never removes a key, never lowers a value, and only
      appends to the key order; a well-formed map stays well-formed. */
  lemma RecordGrows(m: SkillMap, s: Skill)
    requires WellFormed(m)
    ensures var m' := Record(m, s);
      && WellFormed(m')
      && m.order <= m'.order
      && (forall k :: k in m.best ==> k in m'.best && m.best[k] <= m'.best[k])
      && s.name in m'.best && s.value <= m'.best[s.name]
  {
  }

  /** The aggregate map is well-formed. */
  lemma {:induction false} AggregateWellFormed(occ: seq<Skill>)
    ensures WellFormed(Aggregate(occ))
  {
    if occ != [] {
      AggregateWellFormed(occ[..|occ| - 1]);
      RecordGrows(Aggregate(occ[..|occ| - 1]), occ[|occ| - 1]);
    }
  }

  /** The keys of the aggregate are exactly the names met. */
  lemma {:induction false} AggregateKeys(occ: seq<Skill>)
    ensures forall k :: k in Aggregate(occ).best <==> exists i :: 0 <= i < |occ| && occ[i].name == k
  {
    if occ != [] {
      var init, last := occ[..|occ| - 1], occ[|occ| - 1];
      AggregateKeys(init);
      var m, m' := Aggregate(init), Aggregate(occ);
      assert m' == Record(m, last);
      forall k ensures k in m'.best <==> exists i :: 0 <= i < |occ| && occ[i].name == k {
        if k in m'.best && k != last.name {
          var i :| 0 <= i < |init| && init[i].name == k;
          assert occ[i] == init[i];
        }
        if k !in m'.best {
          forall i | 0 <= i < |occ| ensures occ[i].name != k {
            if i < |init| {
              assert occ[i] == init[i] && init[i].name in m.best;
            }
          }
        }
      }
    }
  }

  /** Every value met is at most the aggregate's value for its name. */
  lemma {:induction false} AggregateBounds(occ: seq<Skill>)
    ensures forall i :: 0 <= i < |occ| ==>
      occ[i].name in Aggregate(occ).best && occ[i].value <= Aggregate(occ).best[occ[i].name]
  {
    if occ != [] {
      var init, last := occ[..|occ| - 1], occ[|occ| - 1];
      AggregateBounds(init);
      var m, m' := Aggregate(init), Aggregate(occ);
      assert m' == Record(m, last);
      forall i | 0 <= i < |occ| ensures occ[i].name in m'.best && occ[i].value <= m'.best[occ[i].name] {
        if i < |init| {
          assert occ[i] == init[i];
        }
      }
    }
  }

  /** Every value of the aggregate is the value of some entry of that name. */
  lemma {:induction false} AggregateAttained(occ: seq<Skill>)
    ensures forall k :: k in Aggregate(occ).best ==>
      exists i :: 0 <= i < |occ| && occ[i] == Skill(k, Aggregate(occ).best[k])
  {
    if occ != [] {
      var init, last := occ[..|occ| - 1], occ[|occ| - 1];
      AggregateAttained(init);
      var m, m' := Aggregate(init), Aggregate(occ);
      assert m' == Record(m, last);
      forall k | k in m'.best ensures exists i :: 0 <= i < |occ| && occ[i] == Skill(k, m'.best[k]) {
        if k == last.name && m'.best[k] == last.value {
          assert occ[|occ| - 1] == Skill(k, m'.best[k]);
        } else {
          assert k in m.best && m'.best[k] == m.best[k];
          var i :| 0 <= i < |init| && init[i] == Skill(k, m.best[k]);
          assert occ[i] == init[i];
        }
      }
    }
  }

  /** The keys are exactly the names that occur, and each value is the
      largest value any occurrence of that name carries. */
  lemma AggregateIsPerNameMax(occ: seq<Skill>)
    ensures var m := Aggregate(occ);
      && (forall k :: k in m.best <==> exists i :: 0 <= i < |occ| && occ[i].name == k)
      && (forall i :: 0 <= i < |occ| ==> occ[i].value <= m.best[occ[i].name])
      && (forall k :: k in m.best ==> exists i :: 0 <= i < |occ| && occ[i] == Skill(k, m.best[k]))
  {
    AggregateKeys(occ);
    AggregateBounds(occ);
    AggregateAttained(occ);
  }

  /** Some entry before position `q` carries `name`. */
  ghost predicate SeenBefore(occ: seq<Skill>, q: int, name: string) {
    exists p :: 0 <= p < q && p < |occ| && occ[p].name == name
  }

  /** Key order is first-occurrence order: every occurrence of a later key is
      preceded by an occurrence of each earlier key. */
  ghost predicate FirstOccurrenceOrder(order: seq<string>, occ: seq<Skill>) {
    forall i, j, q :: 0 <= i < j < |order| && 0 <= q < |occ| && occ[q].name == order[j] ==>
      SeenBefore(occ, q, order[i])
  }

  /** One loop step keeps the keys in first-occurrence order. */
  lemma RecordKeepsOrder(m: SkillMap, init: seq<Skill>, last: Skill)
    requires WellFormed(m)
    requires forall k :: k in m.best <==> exists i :: 0 <= i < |init| && init[i].name == k
    requires FirstOccurrenceOrder(m.order, init)
    ensures FirstOccurrenceOrder(Record(m, last).order, init + [last])
  {
    var m' := Record(m, last);
    var occ := init + [last];
    assert m.order <= m'.order;
    forall i, j, q | 0 <= i < j < |m'.order| && 0 <= q < |occ| && occ[q].name == m'.order[j]
      ensures SeenBefore(occ, q, m'.order[i])
    {
      assert m'.order[i] == m.order[i] && m.order[i] in m.best;
      var p :| 0 <= p < |init| && init[p].name == m.order[i];
      assert occ[p] == init[p];
      if q < |init| {
        assert occ[q] == init[q];
        // a key new in this step occurs only at the last position
        assert init[q].name in m.best;
        assert j < |m.order|;
        assert SeenBefore(init, q, m.order[i]);
        var p' :| 0 <= p' < q && p' < |init| && init[p'].name == m.order[i];
        assert occ[p'] == init[p'];
      }
    }
  }

  /** One more entry keeps the aggregate's key order in first-occurrence order. */
  lemma AggregateOrderStep(init: seq<Skill>, last: Skill)
    requires FirstOccurrenceOrder(Aggregate(init).order, init)
    ensures FirstOccurrenceOrder(Aggregate(init + [last]).order, init + [last])
  {
    var occ := init + [last];
    assert occ[..|occ| - 1] == init && occ[|occ| - 1] == last;
    assert Aggregate(occ) == Record(Aggregate(init), last);
    AggregateKeys(init);
    AggregateWellFormed(init);
    RecordKeepsOrder(Aggregate(init), init, last);
  }

  /** The aggregate's key order is first-occurrence order; it is the order of
      the radar chart's labels. */
  lemma {:induction false} AggregateOrder(occ: seq<Skill>)
    ensures FirstOccurrenceOrder(Aggregate(occ).order, occ)
  {
    if occ != [] {
      var init, last := occ[..|occ| - 1], occ[|occ| - 1];
      AggregateOrder(init);
      AggregateOrderStep(init, last);
      assert init + [last] == occ;
    }
  }

  /** When every entry of `occ1` is also an entry of `occ2`, every key of the
      first aggregate is a key of the second with a value at least as large. */
  lemma ValuesDominated(occ1: seq<Skill>, occ2: seq<Skill>)
    requires forall s :: s in occ1 ==> s in occ2
    ensures forall k :: k in Aggregate(occ1).best ==>
      k in Aggregate(occ2).best && Aggregate(occ1).best[k] <= Aggregate(occ2).best[k]
  {
    AggregateAttained(occ1);
    AggregateBounds(occ2);
    var m1, m2 := Aggregate(occ1), Aggregate(occ2);
    forall k | k in m1.best ensures k in m2.best && m1.best[k] <= m2.best[k] {
      var i :| 0 <= i < |occ1| && occ1[i] == Skill(k, m1.best[k]);
      assert occ1[i] in occ2;
      var j :| 0 <= j < |occ2| && occ2[j] == occ1[i];
    }
  }

  /** Two sequences holding the same entries produce the same values, so the
      values do not depend on visiting order. */
  lemma SameEntriesSameValues(occ1: seq<Skill>, occ2: seq<Skill>)
    requires multiset(occ1) == multiset(occ2)
    ensures Aggregate(occ1).best == Aggregate(occ2).best
  {
    forall s ensures s in occ1 <==> s in occ2 {
      assert s in occ1 <==> s in multiset(occ1);
      assert s in occ2 <==> s in multiset(occ2);
    }
    ValuesDominated(occ1, occ2);
    ValuesDominated(occ2, occ1);
    var m1, m2 := Aggregate(occ1), Aggregate(occ2);
    assert m1.best.Keys == m2.best.Keys;
    assert forall k :: k in m1.best ==> m1.best[k] == m2.best[k];
  }

  /** The entries of a concatenation of parent lists are the concatenated
      entries. */
  lemma {:induction false} ParentsSkillsAppend(a: seq<Parent>, b: seq<Parent>)
    ensures ParentsSkills(a + b) == ParentsSkills(a) + ParentsSkills(b)
    decreases |b|
  {
    if b == [] {
      assert a + b == a;
    } else {
      var front, last := b[..|b| - 1], b[|b| - 1];
      ParentsSkillsAppend(a, front);
      assert (a + b)[..|a + b| - 1] == a + front;
      assert (a + b)[|a + b| - 1] == last;
      AppendAssoc(ParentsSkills(a), ParentsSkills(front), ParentSkills(last));
    }
  }

  /** A parent whose `attrs` or `baseSkills` is missing is skipped: removing
      it does not change the entries visited, hence not the map. */
  lemma BareParentAddsNothing(ps: seq<Parent>, j: nat)
    requires j < |ps|
    requires ps[j].attrs.None? || ps[j].attrs.value.baseSkills.None?
    ensures ParentsSkills(ps) == ParentsSkills(ps[..j] + ps[j + 1..])
  {
    var a, p, b := ps[..j], ps[j], ps[j + 1..];
    assert ps == a + [p] + b;
    assert ParentsSkills([p]) == [] by {
      assert [p][..0] == [];
    }
    ParentsSkillsAppend(a, [p]);
    assert ParentsSkills(a + [p]) == ParentsSkills(a);
    ParentsSkillsAppend(a + [p], b);
    ParentsSkillsAppend(a, b);
  }

  /** The entries of a concatenation of progress lists are the concatenated
      entries. */
  lemma {:induction false} ProgressesSkillsAppend(a: seq<Progress>, b: seq<Progress>)
    ensures ProgressesSkills(a + b) == ProgressesSkills(a) + ProgressesSkills(b)
    decreases |b|
  {
    if b == [] {
      assert a + b == a;
    } else {
      var front, last := b[..|b| - 1], b[|b| - 1];
      ProgressesSkillsAppend(a, front);
      assert (a + b)[..|a + b| - 1] == a + front;
      assert (a + b)[|a + b| - 1] == last;
      AppendAssoc(ProgressesSkills(a), ProgressesSkills(front), ParentsSkills(last.parents));
    }
  }

  /** Finds the last element of `xs1` in its permutation `xs2`; what is left
      on both sides of it is again a permutation of the rest of `xs1`. */
  lemma PickOut<T>(xs1: seq<T>, xs2: seq<T>) returns (left: seq<T>, right: seq<T>)
    requires xs1 != [] && multiset(xs1) == multiset(xs2)
    ensures xs2 == left + [xs1[|xs1| - 1]] + right
    ensures multiset(xs1[..|xs1| - 1]) == multiset(left + right)
  {
    var x, init := xs1[|xs1| - 1], xs1[..|xs1| - 1];
    assert xs1 == init + [x];
    assert x in multiset(xs2) by {
      assert x in multiset(xs1);
    }
    var k :| 0 <= k < |xs2| && xs2[k] == x;
    left, right := xs2[..k], xs2[k + 1..];
    assert xs2 == left + [x] + right;
    assert multiset(init) + multiset{x} == multiset(left + right) + multiset{x} by {
      assert multiset(xs1) == multiset(init) + multiset{x};
      assert multiset(xs2) == multiset(left) + multiset{x} + multiset(right);
      assert multiset(left + right) == multiset(left) + multiset(right);
    }
    MultisetCancel(multiset(init), multiset(left + right), x);
  }

  /** Removing the same element from two equal multisets leaves equal multisets. */
  lemma MultisetCancel<T>(a: multiset<T>, b: multiset<T>, x: T)
    requires a + multiset{x} == b + multiset{x}
    ensures a == b
  {
    assert a == (a + multiset{x}) - multiset{x};
    assert b == (b + multiset{x}) - multiset{x};
  }

  /** The entries of `left + [x] + right`, piece by piece. */
  lemma ProgressesSkillsSplit(left: seq<Progress>, x: Progress, right: seq<Progress>)
    ensures ProgressesSkills(left + [x] + right) ==
            ProgressesSkills(left) + ParentsSkills(x.parents) + ProgressesSkills(right)
  {
    assert ProgressesSkills([x]) == ParentsSkills(x.parents) by {
      assert [x][..0] == [];
    }
    ProgressesSkillsAppend(left, [x]);
    ProgressesSkillsAppend(left + [x], right);
  }

  /** Reordering the progress list only reorders the visited entries. */
  lemma {:induction false} ProgressesSkillsPermutation(ps1: seq<Progress>, ps2: seq<Progress>)
    requires multiset(ps1) == multiset(ps2)
    ensures multiset(ProgressesSkills(ps1)) == multiset(ProgressesSkills(ps2))
    decreases |ps1|
  {
    if ps1 != [] {
      var left, right := PickOut(ps1, ps2);
      var x, init := ps1[|ps1| - 1], ps1[..|ps1| - 1];
      ProgressesSkillsPermutation(init, left + right);
      ProgressesSkillsAppend(left, right);
      ProgressesSkillsSplit(left, x, right);
      var sl, sx, sr := ProgressesSkills(left), ParentsSkills(x.parents), ProgressesSkills(right);
      assert ProgressesSkills(ps1) == ProgressesSkills(init) + sx;
      assert multiset(ProgressesSkills(ps1)) == multiset(sl) + multiset(sr) + multiset(sx);
      assert multiset(ProgressesSkills(ps2)) == multiset(sl) + multiset(sx) + multiset(sr);
    } else {
      assert |multiset(ps2)| == 0;
    }
  }

  /** The entries of `left + [x] + right` parents, piece by piece. */
  lemma ParentsSkillsSplit(left: seq<Parent>, x: Parent, right: seq<Parent>)
    ensures ParentsSkills(left + [x] + right) ==
            ParentsSkills(left) + ParentSkills(x) + ParentsSkills(right)
  {
    assert ParentsSkills([x]) == ParentSkills(x) by {
      assert [x][..0] == [];
    }
    ParentsSkillsAppend(left, [x]);
    ParentsSkillsAppend(left + [x], right);
  }

  /** Reordering the parents of a progress only reorders its entries. */
  lemma {:induction false} ParentsSkillsPermutation(ps1: seq<Parent>, ps2: seq<Parent>)
    requires multiset(ps1) == multiset(ps2)
    ensures multiset(ParentsSkills(ps1)) == multiset(ParentsSkills(ps2))
    decreases |ps1|
  {
    if ps1 != [] {
      var left, right := PickOut(ps1, ps2);
      var x, init := ps1[|ps1| - 1], ps1[..|ps1| - 1];
      ParentsSkillsPermutation(init, left + right);
      ParentsSkillsAppend(left, right);
      ParentsSkillsSplit(left, x, right);
      var sl, sx, sr := ParentsSkills(left), ParentSkills(x), ParentsSkills(right);
      assert ParentsSkills(ps1) == ParentsSkills(init) + sx;
      assert multiset(ParentsSkills(ps1)) == multiset(sl) + multiset(sr) + multiset(sx);
      assert multiset(ParentsSkills(ps2)) == multiset(sl) + multiset(sx) + multiset(sr);
    } else {
      assert |multiset(ps2)| == 0;
    }
  }

  /** Replacing the parents of one progress by a reordering of them leaves
      every skill's value unchanged. */
  lemma ValuesIgnoreParentOrder(ps: seq<Progress>, j: nat, parents: seq<Parent>)
    requires j < |ps| && multiset(ps[j].parents) == multiset(parents)
    ensures Aggregate(ProgressesSkills(ps[j := Progress(parents)])).best ==
            Aggregate(ProgressesSkills(ps)).best
  {
    var left, right := ps[..j], ps[j + 1..];
    assert ps == left + [ps[j]] + right;
    assert ps[j := Progress(parents)] == left + [Progress(parents)] + right;
    ProgressesSkillsSplit(left, ps[j], right);
    ProgressesSkillsSplit(left, Progress(parents), right);
    ParentsSkillsPermutation(ps[j].parents, parents);
    var sl, sr := ProgressesSkills(left), ProgressesSkills(right);
    assert multiset(ProgressesSkills(ps)) ==
           multiset(sl) + multiset(ParentsSkills(ps[j].parents)) + multiset(sr);
    assert multiset(ProgressesSkills(ps[j := Progress(parents)])) ==
           multiset(sl) + multiset(ParentsSkills(parents)) + multiset(sr);
    SameEntriesSameValues(ProgressesSkills(ps[j := Progress(parents)]), ProgressesSkills(ps));
  }

  /** Permuting the progresses leaves every skill's value unchanged. */
  lemma ValuesIgnoreProgressOrder(ps1: seq<Progress>, ps2: seq<Progress>)
    requires multiset(ps1) == multiset(ps2)
    ensures Aggregate(ProgressesSkills(ps1)).best == Aggregate(ProgressesSkills(ps2)).best
  {
    ProgressesSkillsPermutation(ps1, ps2);
    SameEntriesSameValues(ProgressesSkills(ps1), ProgressesSkills(ps2));
  }

  /** Visiting one more entry is one more loop step. */
  lemma AggregateSnoc(occ: seq<Skill>, s: Skill, occ': seq<Skill>)
    requires occ' == occ + [s]
    ensures Aggregate(occ') == Record(Aggregate(occ), s)
  {
    assert occ'[..|occ|] == occ;
  }

  lemma AppendAssoc(a: seq<Skill>, b: seq<Skill>, c: seq<Skill>)
    ensures a + (b + c) == (a + b) + c
  {
  }

  /** The innermost loop of `createSkillsChart`, over one `baseSkills`
      object: continuing from the map built from `seen`, it ends with the map
      built from `seen` followed by these entries. */
  method VisitBaseSkills(m0: SkillMap, baseSkills: seq<Skill>, ghost seen: seq<Skill>) returns (m: SkillMap)
    requires m0 == Aggregate(seen)
    ensures m == Aggregate(seen + baseSkills)
  {
    m := m0;
    var k := 0;
    assert seen + baseSkills[..0] == seen;
    while k < |baseSkills|
      invariant 0 <= k <= |baseSkills|
      invariant m == Aggregate(seen + baseSkills[..k])
    {
      var skill := baseSkills[k];
      ghost var before := m;
      if skill.name !in m.best || skill.value > m.best[skill.name] {
        var order := if skill.name in m.best then m.order else m.order + [skill.name];
        m := SkillMap(order, m.best[skill.name := skill.value]);
      }
      assert m == Record(before, skill);
      assert seen + baseSkills[..k + 1] == seen + baseSkills[..k] + [skill];
      AggregateSnoc(seen + baseSkills[..k], skill, seen + baseSkills[..k + 1]);
      k := k + 1;
    }
    assert baseSkills[..k] == baseSkills;
  }

  /** The nested loops of `createSkillsChart`: visit every progress, every
      parent, every `baseSkills` entry, and keep the largest value per name. */
  method CreateSkillMap(progresses: seq<Progress>) returns (m: SkillMap)
    ensures m == Aggregate(ProgressesSkills(progresses))
    ensures WellFormed(m)
    ensures var occ := ProgressesSkills(progresses);
      && (forall k :: k in m.best <==> exists i :: 0 <= i < |occ| && occ[i].name == k)
      && (forall i :: 0 <= i < |occ| ==> occ[i].value <= m.best[occ[i].name])
  {
    m := EmptyMap;
    var i := 0;
    while i < |progresses|
      invariant 0 <= i <= |progresses|
      invariant m == Aggregate(ProgressesSkills(progresses[..i]))
    {
      ghost var done := ProgressesSkills(progresses[..i]);
      var parents := progresses[i].parents;
      var j := 0;
      assert parents[..0] == [] && done + [] == done;
      while j < |parents|
        invariant 0 <= j <= |parents|
        invariant m == Aggregate(done + ParentsSkills(parents[..j]))
      {
        ghost var prefix := done + ParentsSkills(parents[..j]);
        var attrs := parents[j].attrs;
        if attrs.Some? && attrs.value.baseSkills.Some? {
          m := VisitBaseSkills(m, attrs.value.baseSkills.value, prefix);
        } else {
          assert prefix + [] == prefix;
        }
        assert parents[..j + 1][..j] == parents[..j];
        assert ParentsSkills(parents[..j + 1]) == ParentsSkills(parents[..j]) + ParentSkills(parents[j]);
        AppendAssoc(done, ParentsSkills(parents[..j]), ParentSkills(parents[j]));
        j := j + 1;
      }
      assert parents[..j] == parents;
      assert progresses[..i + 1][..i] == progresses[..i];
      i := i + 1;
    }
    assert progresses[..i] == progresses;
    AggregateWellFormed(ProgressesSkills(progresses));
    AggregateIsPerNameMax(ProgressesSkills(progresses));
  }
}
