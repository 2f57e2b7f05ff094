/** The three list transforms the component passes to its `goals` setter:
    spread-append, map-replace-by-id and filter-by-id. Ids are not assumed to
    be unique; where a property needs uniqueness it says so. */
module GoalList {
  import opened Goals

  /** Some record of `gs` has the id `id`. */
  predicate HasId(gs: seq<Goal>, id: int) {
    exists i :: 0 <= i < |gs| && gs[i].id == id
  }

  /** No two records of `gs` share an id. */
  predicate UniqueIds(gs: seq<Goal>) {
    forall i, j :: 0 <= i < j < |gs| ==> gs[i].id != gs[j].id
  }

  /** The number of records of `gs` whose id is `id`. */
  function CountId(gs: seq<Goal>, id: int): nat {
    if gs == [] then 0
    else (if gs[0].id == id then 1 else 0) + CountId(gs[1..], id)
  }

  /** The ids of `gs`, in list order. */
  function Ids(gs: seq<Goal>): seq<int> {
    if gs == [] then [] else [gs[0].id] + Ids(gs[1..])
  }

  /** `a` is obtained from `b` by deleting some elements, keeping the order
      of the rest. */
  predicate IsSubseq<T(==)>(a: seq<T>, b: seq<T>)
    decreases |b|
  {
    if a == [] then true
    else if b == [] then false
    else (a[0] == b[0] && IsSubseq(a[1..], b[1..])) || IsSubseq(a, b[1..])
  }

  // ---------------------------------------------------------------------
  // Append: `[...prev, newGoal]`

  /** The list with `g` added at the end. */
  function Append(gs: seq<Goal>, g: Goal): (r: seq<Goal>)
    ensures |r| == |gs| + 1
    ensures forall i :: 0 <= i < |gs| ==> r[i] == gs[i]
    ensures r[|gs|] == g
  {
    gs + [g]
  }

  /** Appending adds exactly one occurrence of the new goal's id. */
  lemma {:induction false} AppendCount(gs: seq<Goal>, g: Goal, id: int)
    ensures CountId(Append(gs, g), id) == CountId(gs, id) + (if g.id == id then 1 else 0)
  {
    if gs != [] {
      AppendCount(gs[1..], g, id);
      assert Append(gs, g)[1..] == Append(gs[1..], g);
    } else {
      assert Append(gs, g)[1..] == [];
    }
  }

  /** The ids stay unique after an append exactly when they were unique
      before and the new id is not among them. */
  lemma AppendUnique(gs: seq<Goal>, g: Goal)
    ensures UniqueIds(Append(gs, g)) <==> UniqueIds(gs) && !HasId(gs, g.id)
  {
    var r := Append(gs, g);
    if UniqueIds(r) {
      assert UniqueIds(gs) by {
        forall i, j | 0 <= i < j < |gs| ensures gs[i].id != gs[j].id {
          assert r[i] == gs[i] && r[j] == gs[j];
        }
      }
      forall i | 0 <= i < |gs| ensures gs[i].id != g.id {
        assert r[i] == gs[i] && r[|gs|] == g;
      }
    }
  }

  // ---------------------------------------------------------------------
  // ReplaceById: `prev.map(goal => goal.id === target ? {...goal, text, suggestions} : goal)`

  /** The edit handler's test: the record's id is strictly equal to the edit
      target, which never holds when the target is `null`. */
  predicate Matches(g: Goal, target: Option<int>) {
    target.Some? && g.id == target.value
  }

  /** Every record whose id equals the target gets the new text and
      suggestions; every other record is kept as it is. Length, order and
      ids are preserved, and with duplicate ids every matching record is
      rewritten. */
  function ReplaceById(gs: seq<Goal>, target: Option<int>, text: string, suggestions: Option<string>): (r: seq<Goal>)
    ensures |r| == |gs|
    ensures forall i :: 0 <= i < |gs| ==>
      r[i] == if Matches(gs[i], target) then gs[i].(text := text, suggestions := suggestions) else gs[i]
  {
    if gs == [] then []
    else
      var head := if Matches(gs[0], target) then gs[0].(text := text, suggestions := suggestions) else gs[0];
      [head] + ReplaceById(gs[1..], target, text, suggestions)
  }

  /** Replacing keeps the sequence of ids, so list positions and keys are
      unchanged. */
  lemma {:induction false} ReplaceKeepsIds(gs: seq<Goal>, target: Option<int>, text: string, suggestions: Option<string>)
    ensures Ids(ReplaceById(gs, target, text, suggestions)) == Ids(gs)
  {
    var r := ReplaceById(gs, target, text, suggestions);
    if gs != [] {
      assert r[1..] == ReplaceById(gs[1..], target, text, suggestions);
      ReplaceKeepsIds(gs[1..], target, text, suggestions);
    }
  }

  /** With no record carrying the target id (or no target at all), the
      list comes back unchanged. */
  lemma ReplaceAbsent(gs: seq<Goal>, target: Option<int>, text: string, suggestions: Option<string>)
    requires target.None? || !HasId(gs, target.value)
    ensures ReplaceById(gs, target, text, suggestions) == gs
  {
    var r := ReplaceById(gs, target, text, suggestions);
    forall i | 0 <= i < |gs| ensures r[i] == gs[i] {
      assert !Matches(gs[i], target);
    }
  }

  /** When ids are unique, an edit rewrites at most one record: two positions
      that both changed are the same position. */
  lemma ReplaceTouchesAtMostOne(gs: seq<Goal>, target: Option<int>, text: string, suggestions: Option<string>, i: int, j: int)
    requires UniqueIds(gs)
    requires 0 <= i < |gs| && 0 <= j < |gs|
    requires ReplaceById(gs, target, text, suggestions)[i] != gs[i]
    requires ReplaceById(gs, target, text, suggestions)[j] != gs[j]
    ensures i == j
  {
    assert Matches(gs[i], target) && Matches(gs[j], target);
    assert gs[i].id == gs[j].id;
  }

  /** Replacing keeps ids unique. */
  lemma ReplaceKeepsUnique(gs: seq<Goal>, target: Option<int>, text: string, suggestions: Option<string>)
    requires UniqueIds(gs)
    ensures UniqueIds(ReplaceById(gs, target, text, suggestions))
  {
    var r := ReplaceById(gs, target, text, suggestions);
    forall i, j | 0 <= i < j < |r| ensures r[i].id != r[j].id {
      assert r[i].id == gs[i].id && r[j].id == gs[j].id;
    }
  }

  // ---------------------------------------------------------------------
  // RemoveById: `prev.filter(goal => goal.id !== id)`

  /** The list without the records whose id is `id`. No record with that id
      remains, every other record is kept, and the list never grows. */
  function RemoveById(gs: seq<Goal>, id: int): (r: seq<Goal>)
    ensures |r| <= |gs|
    ensures forall i :: 0 <= i < |r| ==> r[i].id != id
    ensures forall g :: g in r <==> g in gs && g.id != id
  {
    if gs == [] then []
    else if gs[0].id != id then [gs[0]] + RemoveById(gs[1..], id)
    else RemoveById(gs[1..], id)
  }

  /** Exactly the records with the id are dropped. */
  lemma {:induction false} RemoveLength(gs: seq<Goal>, id: int)
    ensures |RemoveById(gs, id)| == |gs| - CountId(gs, id)
  {
    if gs != [] {
      RemoveLength(gs[1..], id);
    }
  }

  /** The remaining records keep their relative order. */
  lemma {:induction false} RemoveIsSubseq(gs: seq<Goal>, id: int)
    ensures IsSubseq(RemoveById(gs, id), gs)
  {
    if gs != [] {
      RemoveIsSubseq(gs[1..], id);
      var r := RemoveById(gs, id);
      if gs[0].id != id {
        assert r[0] == gs[0] && r[1..] == RemoveById(gs[1..], id);
      } else if r != [] {
        assert r == RemoveById(gs[1..], id);
      }
    }
  }

  /** A subsequence of `b` that avoids `id` can keep at most the records of
      `b` that do not carry `id`. */
  lemma {:induction false} SubseqAvoidingBound(a: seq<Goal>, b: seq<Goal>, id: int)
    requires IsSubseq(a, b)
    requires forall i :: 0 <= i < |a| ==> a[i].id != id
    ensures |a| <= |b| - CountId(b, id)
    decreases |b|
  {
    if a == [] {
      CountBound(b, id);
    } else {
      assert b != [];
      if a[0] == b[0] && IsSubseq(a[1..], b[1..]) {
        SubseqAvoidingBound(a[1..], b[1..], id);
      } else {
        SubseqAvoidingBound(a, b[1..], id);
      }
    }
  }

  /** The filter is determined by its properties: the only order-preserving
      selection from `gs` that contains no record with `id` and drops
      nothing else is `RemoveById(gs, id)`. */
  lemma {:induction false} RemoveUnique(gs: seq<Goal>, id: int, r: seq<Goal>)
    requires IsSubseq(r, gs)
    requires forall i :: 0 <= i < |r| ==> r[i].id != id
    requires |r| == |gs| - CountId(gs, id)
    ensures r == RemoveById(gs, id)
    decreases |gs|
  {
    if gs == [] {
      assert r == [];
    } else if gs[0].id == id {
      if r == [] {
        assert IsSubseq(r, gs[1..]);
      } else {
        assert r[0] != gs[0];
      }
      RemoveUnique(gs[1..], id, r);
    } else if r == [] {
      CountBound(gs[1..], id);
      assert false;
    } else if r[0] == gs[0] && IsSubseq(r[1..], gs[1..]) {
      RemoveUnique(gs[1..], id, r[1..]);
    } else {
      SubseqAvoidingBound(r, gs[1..], id);
      assert false;
    }
  }

  /** At most every record carries a given id. */
  lemma {:induction false} CountBound(gs: seq<Goal>, id: int)
    ensures CountId(gs, id) <= |gs|
  {
    if gs != [] {
      CountBound(gs[1..], id);
    }
  }

  /** When no record carries the id, deleting it changes nothing. */
  lemma {:induction false} RemoveAbsent(gs: seq<Goal>, id: int)
    requires !HasId(gs, id)
    ensures RemoveById(gs, id) == gs
  {
    if gs != [] {
      assert !HasId(gs[1..], id) by {
        forall i | 0 <= i < |gs[1..]| ensures gs[1..][i].id != id {
          assert gs[1..][i] == gs[i + 1];
        }
      }
      RemoveAbsent(gs[1..], id);
      assert gs[0].id != id;
      assert gs == [gs[0]] + gs[1..];
    }
  }

  /** Deleting the same id twice is the same as deleting it once. */
  lemma RemoveIdempotent(gs: seq<Goal>, id: int)
    ensures RemoveById(RemoveById(gs, id), id) == RemoveById(gs, id)
  {
    RemoveAbsent(RemoveById(gs, id), id);
  }

  /** A subsequence of a list with unique ids has unique ids. */
  lemma {:induction false} SubseqKeepsUnique(a: seq<Goal>, b: seq<Goal>)
    requires IsSubseq(a, b)
    requires UniqueIds(b)
    ensures UniqueIds(a)
    decreases |b|
  {
    if a != [] {
      assert UniqueIds(b[1..]) by {
        forall i, j | 0 <= i < j < |b[1..]| ensures b[1..][i].id != b[1..][j].id {
          assert b[1..][i] == b[i + 1] && b[1..][j] == b[j + 1];
        }
      }
      if a[0] == b[0] && IsSubseq(a[1..], b[1..]) {
        SubseqKeepsUnique(a[1..], b[1..]);
        forall j | 0 < j < |a| ensures a[0].id != a[j].id {
          assert a[j] == a[1..][j - 1];
          assert a[j] in b[1..] by { SubseqMember(a[1..], b[1..], j - 1); }
          var k :| 0 <= k < |b[1..]| && b[1..][k] == a[j];
          assert b[k + 1] == a[j];
        }
      } else {
        SubseqKeepsUnique(a, b[1..]);
      }
    }
  }

  /** Every element of a subsequence is an element of the full sequence. */
  lemma {:induction false} SubseqMember<T>(a: seq<T>, b: seq<T>, k: int)
    requires IsSubseq(a, b)
    requires 0 <= k < |a|
    ensures a[k] in b
    decreases |b|
  {
    assert b != [];
    if a[0] == b[0] && IsSubseq(a[1..], b[1..]) {
      if k > 0 {
        SubseqMember(a[1..], b[1..], k - 1);
        assert a[k] == a[1..][k - 1];
      }
    } else {
      SubseqMember(a, b[1..], k);
    }
  }

  /** Deleting keeps ids unique. */
  lemma RemoveKeepsUnique(gs: seq<Goal>, id: int)
    requires UniqueIds(gs)
    ensures UniqueIds(RemoveById(gs, id))
  {
    RemoveIsSubseq(gs, id);
    SubseqKeepsUnique(RemoveById(gs, id), gs);
  }

  /** After the edit target has been deleted, an edit aimed at it finds
      nothing to rewrite. */
  lemma DeletedTargetIsUnmatched(gs: seq<Goal>, id: int, text: string, suggestions: Option<string>)
    ensures ReplaceById(RemoveById(gs, id), Some(id), text, suggestions) == RemoveById(gs, id)
  {
    ReplaceAbsent(RemoveById(gs, id), Some(id), text, suggestions);
  }
}
