/** The per-student grouping the reports build: a `dict` keyed by student id, filled in a
    loop in order of first appearance, whose values carry the student's columns and a list
    of items. The dict is a sequence of groups in insertion order. */
module Groups {
  import opened Common
  import opened Entities

  datatype Group<V> = Group(student: Student, items: seq<V>)

  function OfStudent<V>(sid: int): Group<V> -> bool
  {
    (g: Group<V>) => g.student.id == sid
  }

  /** `sid in d`: the position of the student's group. */
  function GroupIndex<V>(groups: seq<Group<V>>, sid: int): Option<nat>
  {
    IndexWhere(groups, OfStudent(sid))
  }

  /** `if st.id not in d: d[st.id] = {...: []}`, then `d[st.id][...].append(v)`. */
  function AddTo<V>(groups: seq<Group<V>>, st: Student, v: V): seq<Group<V>>
  {
    match GroupIndex(groups, st.id)
    case None => groups + [Group(st, [v])]
    case Some(i) => groups[i := groups[i].(items := groups[i].items + [v])]
  }

  /** Every group has an item, and no student has two groups. */
  ghost predicate GroupsOk<V>(groups: seq<Group<V>>)
  {
    (forall k :: 0 <= k < |groups| ==> |groups[k].items| > 0) &&
    (forall k, m :: 0 <= k < m < |groups| ==> groups[k].student.id != groups[m].student.id)
  }

  /** `sum(len(g.items) for g in d.values())`. */
  function Size<V>(groups: seq<Group<V>>): nat
  {
    if |groups| == 0 then 0 else Size(groups[..|groups| - 1]) + |groups[|groups| - 1].items|
  }

  /** The number of items satisfying `p`, over all groups. */
  function Tally<V>(groups: seq<Group<V>>, p: V -> bool): nat
  {
    if |groups| == 0 then 0 else Tally(groups[..|groups| - 1], p) + Count(groups[|groups| - 1].items, p)
  }

  lemma {:induction false} SizeUpdate<V>(groups: seq<Group<V>>, i: nat, g: Group<V>)
    requires i < |groups|
    ensures Size(groups[i := g]) == Size(groups) - |groups[i].items| + |g.items|
  {
    var n := |groups| - 1;
    if i < n {
      SizeUpdate(groups[..n], i, g);
      assert groups[i := g][..n] == groups[..n][i := g];
    } else {
      assert groups[i := g][..n] == groups[..n];
    }
  }

  lemma {:induction false} TallyUpdate<V>(groups: seq<Group<V>>, i: nat, g: Group<V>, p: V -> bool)
    requires i < |groups|
    ensures Tally(groups[i := g], p) == Tally(groups, p) - Count(groups[i].items, p) + Count(g.items, p)
  {
    var n := |groups| - 1;
    if i < n {
      TallyUpdate(groups[..n], i, g, p);
      assert groups[i := g][..n] == groups[..n][i := g];
    } else {
      assert groups[i := g][..n] == groups[..n];
    }
  }

  lemma CountPush<V>(items: seq<V>, v: V, p: V -> bool)
    ensures Count(items + [v], p) == Count(items, p) + (if p(v) then 1 else 0)
  {
    assert (items + [v])[..|items|] == items;
  }

  /** Adding one item adds one to the size, and one to a tally exactly when it counts. */
  lemma AddToGrows<V>(groups: seq<Group<V>>, st: Student, v: V, p: V -> bool)
    ensures Size(AddTo(groups, st, v)) == Size(groups) + 1
    ensures Tally(AddTo(groups, st, v), p) == Tally(groups, p) + (if p(v) then 1 else 0)
  {
    match GroupIndex(groups, st.id)
    case None =>
      var added := groups + [Group(st, [v])];
      assert added[..|groups|] == groups;
      CountPush([], v, p);
    case Some(i) =>
      var g := groups[i].(items := groups[i].items + [v]);
      SizeUpdate(groups, i, g);
      TallyUpdate(groups, i, g, p);
      CountPush(groups[i].items, v, p);
  }

  lemma AddToKeepsOk<V>(groups: seq<Group<V>>, st: Student, v: V)
    requires GroupsOk(groups)
    ensures GroupsOk(AddTo(groups, st, v))
  {
    match GroupIndex(groups, st.id)
    case None =>
      var added := groups + [Group(st, [v])];
      forall k | 0 <= k < |groups| ensures added[k].student.id != st.id {
        assert !OfStudent(st.id)(groups[k]);
      }
    case Some(i) =>
  }

  /** Splitting the items by a predicate and its negation splits the size. */
  lemma {:induction false} TallySplit<V>(groups: seq<Group<V>>, p: V -> bool, q: V -> bool)
    requires forall v :: p(v) <==> !q(v)
    ensures Tally(groups, p) + Tally(groups, q) == Size(groups)
  {
    if |groups| > 0 {
      var n := |groups| - 1;
      TallySplit(groups[..n], p, q);
      CountSplit(groups[n].items, p, q);
    }
  }

  // ---------------------------------------------------------------------------
  // The loop over the rows of a report: each row either contributes one item to a
  // student's group or is skipped (`continue`).

  function FoldGroups<T, V>(rows: seq<T>, entry: T -> Option<(Student, V)>): seq<Group<V>>
  {
    if |rows| == 0 then []
    else
      var groups := FoldGroups(rows[..|rows| - 1], entry);
      match entry(rows[|rows| - 1])
      case None => groups
      case Some(e) => AddTo(groups, e.0, e.1)
  }

  function Yields<T, V>(entry: T -> Option<(Student, V)>, p: V -> bool): T -> bool
  {
    (t: T) => entry(t).Some? && p(entry(t).value.1)
  }

  function Any<V>(): V -> bool
  {
    (v: V) => true
  }

  lemma FoldGroupsStep<T, V>(rows: seq<T>, t: T, entry: T -> Option<(Student, V)>)
    ensures FoldGroups(rows + [t], entry) ==
            match entry(t) case None => FoldGroups(rows, entry) case Some(e) => AddTo(FoldGroups(rows, entry), e.0, e.1)
  {
    assert (rows + [t])[..|rows|] == rows;
  }

  lemma {:induction false} FoldGroupsOk<T, V>(rows: seq<T>, entry: T -> Option<(Student, V)>)
    ensures GroupsOk(FoldGroups(rows, entry))
  {
    if |rows| > 0 {
      var init := rows[..|rows| - 1];
      FoldGroupsOk(init, entry);
      match entry(rows[|rows| - 1])
      case None =>
      case Some(e) => AddToKeepsOk(FoldGroups(init, entry), e.0, e.1);
    }
  }

  /** The grouped items are exactly the rows that contribute: as many in total, and as many
      satisfying `p` as there are rows whose item satisfies it. */
  lemma {:induction false} FoldGroupsSize<T, V>(rows: seq<T>, entry: T -> Option<(Student, V)>, p: V -> bool)
    ensures Size(FoldGroups(rows, entry)) == Count(rows, Yields(entry, Any()))
    ensures Tally(FoldGroups(rows, entry), p) == Count(rows, Yields(entry, p))
  {
    if |rows| > 0 {
      var init := rows[..|rows| - 1];
      FoldGroupsSize(init, entry, p);
      match entry(rows[|rows| - 1])
      case None =>
      case Some(e) => AddToGrows(FoldGroups(init, entry), e.0, e.1, p);
    }
  }

  /** Every grouped item stands in `fits` to its group's student, and every group's
      student is the row `lookup` gives for its id. */
  ghost predicate AllFit<V>(groups: seq<Group<V>>, fits: (Student, V) -> bool, lookup: int -> Option<Student>)
  {
    (forall k :: 0 <= k < |groups| ==> lookup(groups[k].student.id) == Some(groups[k].student)) &&
    forall k, m :: 0 <= k < |groups| && 0 <= m < |groups[k].items| ==> fits(groups[k].student, groups[k].items[m])
  }

  /** When each contributing row's student is the one `lookup` gives for its id, a relation
      every contributed (student, item) pair satisfies holds of every grouped item and its
      group's student. */
  lemma {:induction false} FoldGroupsFit<T, V>(rows: seq<T>, entry: T -> Option<(Student, V)>,
                                                fits: (Student, V) -> bool, lookup: int -> Option<Student>)
    requires forall t :: t in rows && entry(t).Some? ==>
               fits(entry(t).value.0, entry(t).value.1) && lookup(entry(t).value.0.id) == Some(entry(t).value.0)
    ensures AllFit(FoldGroups(rows, entry), fits, lookup)
  {
    if |rows| > 0 {
      var init := rows[..|rows| - 1];
      var t := rows[|rows| - 1];
      assert forall x :: x in init ==> x in rows;
      FoldGroupsFit(init, entry, fits, lookup);
      var before := FoldGroups(init, entry);
      match entry(t)
      case None =>
      case Some(e) =>
        AddToFits(before, e.0, e.1, fits, lookup);
    }
  }

  lemma AddToFits<V>(groups: seq<Group<V>>, st: Student, v: V, fits: (Student, V) -> bool, lookup: int -> Option<Student>)
    requires AllFit(groups, fits, lookup) && fits(st, v) && lookup(st.id) == Some(st)
    ensures AllFit(AddTo(groups, st, v), fits, lookup)
  {
    var after := AddTo(groups, st, v);
    match GroupIndex(groups, st.id)
    case None =>
      forall k, m | 0 <= k < |after| && 0 <= m < |after[k].items| ensures fits(after[k].student, after[k].items[m]) {
        if k < |groups| {
          assert after[k] == groups[k];
        }
      }
      forall k | 0 <= k < |after| ensures lookup(after[k].student.id) == Some(after[k].student) {
        if k < |groups| {
          assert after[k] == groups[k];
        }
      }
    case Some(i) =>
      assert OfStudent(st.id)(groups[i]);
      assert groups[i].student == st;
      forall k, m | 0 <= k < |after| && 0 <= m < |after[k].items| ensures fits(after[k].student, after[k].items[m]) {
        if k != i {
          assert after[k] == groups[k];
        } else if m < |groups[i].items| {
          assert after[k].items[m] == groups[i].items[m];
        }
      }
  }

  /** `d[st.id]` written as a loop step: the method form of `AddTo`. */
  method Place<V>(groups: seq<Group<V>>, st: Student, v: V) returns (r: seq<Group<V>>)
    ensures r == AddTo(groups, st, v)
    ensures |r| == |groups| || |r| == |groups| + 1
  {
    var i := GroupIndex(groups, st.id);
    if i.None? {
      r := groups + [Group(st, [v])];
    } else {
      var g := groups[i.value];
      r := groups[i.value := g.(items := g.items + [v])];
    }
  }

  /** The loop over the rows of a report, building the groups one row at a time. */
  method GroupRows<T, V>(rows: seq<T>, entry: T -> Option<(Student, V)>) returns (groups: seq<Group<V>>)
    ensures groups == FoldGroups(rows, entry)
  {
    groups := [];
    var j := 0;
    while j < |rows|
      invariant 0 <= j <= |rows|
      invariant groups == FoldGroups(rows[..j], entry)
    {
      var t := rows[j];
      PrefixStep(rows, j);
      FoldGroupsStep(rows[..j], t, entry);
      var e := entry(t);
      if e.Some? {
        groups := Place(groups, e.value.0, e.value.1);
      }
      j := j + 1;
    }
    assert rows[..|rows|] == rows;
  }
}
