/** The recursive merge by which configuration updates are applied to the stored configuration. */
module JsonMerge {
  import opened Numbers

  /** A JSON value; a leaf is anything that is neither null nor an object. */
  datatype Json = Null | Leaf(v: string) | Obj(m: map<string, Json>)

  /** The library throws an exception when a leaf is indexed by a key, or iterated for its keys. */
  datatype Result = Ok(value: Json) | TypeError

  /** The entries a value has when it is indexed for writing; null becomes an empty object. */
  function Entries(j: Json): map<string, Json> {
    if j.Obj? then j.m else map[]
  }

  /** What merging makes of one entry of the right side. */
  function MergeEntry(l: map<string, Json>, key: string, r: Json): Result
    decreases r, 1
  {
    if r.Obj? && key in l && l[key] != Null then Merge(l[key], r) else Ok(r)
  }

  /** The merge as a function of both sides. */
  function Merge(l: Json, r: Json): Result
    decreases r, 0
  {
    match r
    case Null => Ok(l)
    case Leaf(_) => TypeError
    case Obj(rm) =>
      if rm == map[] then Ok(l)
      else if l.Leaf? || exists k :: k in rm && MergeEntry(Entries(l), k, rm[k]).TypeError? then TypeError
      else
        Ok(Obj(map k | k in Entries(l).Keys + rm.Keys ::
                 if k in rm then MergeEntry(Entries(l), k, rm[k]).value else Entries(l)[k]))
  }

  /** `json_merge`: recursion over the right side, building the result entry by entry. */
  method JsonMerge(lhs: Json, rhs: Json) returns (j: Result)
    ensures j == Merge(lhs, rhs)
    decreases rhs
  {
    if rhs.Leaf? {
      return TypeError;
    }
    var rm := Entries(rhs);
    if rm == map[] {
      return Ok(lhs);
    }
    if lhs.Leaf? {
      return TypeError;
    }
    var lm := Entries(lhs);
    var jm := lm;
    var todo := rm.Keys;
    while todo != {}
      invariant todo <= rm.Keys
      invariant jm.Keys == lm.Keys + (rm.Keys - todo)
      invariant forall k :: k in rm.Keys - todo ==> MergeEntry(lm, k, rm[k]) == Ok(jm[k])
      invariant forall k :: k in lm && k !in rm.Keys - todo ==> jm[k] == lm[k]
      decreases todo
    {
      var key :| key in todo;
      if rm[key].Obj? {
        if key in jm && jm[key] != Null {
          var merged := JsonMerge(lm[key], rm[key]);
          if merged.TypeError? {
            assert MergeEntry(lm, key, rm[key]).TypeError?;
            return TypeError;
          }
          jm := jm[key := merged.value];
        } else {
          jm := jm[key := rm[key]];
        }
      } else {
        jm := jm[key := rm[key]];
      }
      todo := todo - {key};
    }
    MergeForm(lhs, rhs);
    assert Merge(lhs, rhs).value.m == jm;
    return Ok(Obj(jm));
  }

  /** The merge with an update that is not empty, entry by entry. */
  lemma MergeForm(l: Json, r: Json)
    requires r.Obj? && r.m != map[]
    ensures Merge(l, r).Ok? <==> !l.Leaf? && forall k :: k in r.m ==> MergeEntry(Entries(l), k, r.m[k]).Ok?
    ensures Merge(l, r).Ok? ==>
              && Merge(l, r).value.Obj?
              && Merge(l, r).value.m.Keys == Entries(l).Keys + r.m.Keys
              && (forall k :: k in r.m ==> MergeEntry(Entries(l), k, r.m[k]) == Ok(Merge(l, r).value.m[k]))
              && (forall k :: k in Entries(l) && k !in r.m ==> Merge(l, r).value.m[k] == Entries(l)[k])
  {
  }

  // ---------- Leaves by path ----------

  function LeafAt(j: Json, path: seq<string>): Option<string> {
    match j
    case Null => None
    case Leaf(v) => if path == [] then Some(v) else None
    case Obj(m) => if path == [] || path[0] !in m then None else LeafAt(m[path[0]], path[1..])
  }

  /** The right side has a leaf or null at the path or on the way to it. */
  predicate Decides(r: Json, path: seq<string>) {
    !r.Obj? || (path != [] && path[0] in r.m && Decides(r.m[path[0]], path[1..]))
  }

  /** Each leaf of a merge is the right side's where that side decides, otherwise the left side's. */
  lemma {:induction false} MergedLeaf(l: Json, r: Json, path: seq<string>)
    requires r.Obj? && Merge(l, r).Ok?
    ensures LeafAt(Merge(l, r).value, path) == if Decides(r, path) then LeafAt(r, path) else LeafAt(l, path)
    decreases r
  {
    if r.m != map[] && path != [] && path[0] in r.m {
      var k := path[0];
      assert MergeEntry(Entries(l), k, r.m[k]).Ok?;
      if r.m[k].Obj? {
        if k in Entries(l) && Entries(l)[k] != Null {
          MergedLeaf(Entries(l)[k], r.m[k], path[1..]);
        } else {
          LeafDecides(r.m[k], path[1..]);
        }
      }
    }
  }

  lemma {:induction false} LeafDecides(r: Json, path: seq<string>)
    ensures LeafAt(r, path).Some? ==> Decides(r, path)
    decreases r
  {
    if r.Obj? && path != [] && path[0] in r.m {
      LeafDecides(r.m[path[0]], path[1..]);
    }
  }

  /** There is an object at the path that is not empty. */
  predicate OpensAt(j: Json, path: seq<string>)
    decreases path
  {
    j.Obj? && if path == [] then j.m != map[] else path[0] in j.m && OpensAt(j.m[path[0]], path[1..])
  }

  /** A merge has entries where the right side has, or where the left side has and the right does not decide. */
  lemma {:induction false} MergedOpens(l: Json, r: Json, path: seq<string>)
    requires r.Obj? && Merge(l, r).Ok?
    ensures OpensAt(Merge(l, r).value, path) <==> OpensAt(r, path) || (OpensAt(l, path) && !Decides(r, path))
    decreases r
  {
    if r.m != map[] && path != [] && path[0] in r.m {
      var k := path[0];
      assert MergeEntry(Entries(l), k, r.m[k]).Ok?;
      if r.m[k].Obj? && k in Entries(l) && Entries(l)[k] != Null {
        MergedOpens(Entries(l)[k], r.m[k], path[1..]);
      }
    }
  }

  /** The left side has a leaf where the right side has an object that is not empty. */
  predicate Clash(l: Json, r: Json, path: seq<string>) {
    LeafAt(l, path).Some? && OpensAt(r, path)
  }

  ghost predicate Clashes(l: Json, r: Json) {
    exists path: seq<string> :: Clash(l, r, path)
  }

  lemma {:induction false} ClashFails(l: Json, r: Json, path: seq<string>)
    requires Clash(l, r, path)
    ensures Merge(l, r).TypeError?
    decreases path
  {
    if path != [] {
      var k := path[0];
      ClashFails(l.m[k], r.m[k], path[1..]);
      assert MergeEntry(Entries(l), k, r.m[k]).TypeError?;
    }
  }

  lemma {:induction false} FailureClashes(l: Json, r: Json) returns (path: seq<string>)
    requires r.Obj? && Merge(l, r).TypeError?
    ensures Clash(l, r, path)
    decreases r
  {
    if l.Leaf? {
      path := [];
    } else {
      var k :| k in r.m && MergeEntry(Entries(l), k, r.m[k]).TypeError?;
      var rest := FailureClashes(Entries(l)[k], r.m[k]);
      path := [k] + rest;
      assert path[1..] == rest;
    }
  }

  /**
    A merge fails exactly if the right side as a whole is a leaf, or somewhere a leaf of the left
    side meets an object that is not empty.
   */
  lemma MergeFailsIffClash(l: Json, r: Json)
    ensures Merge(l, r).TypeError? <==> r.Leaf? || Clashes(l, r)
  {
    if r.Obj? && Merge(l, r).TypeError? {
      var path := FailureClashes(l, r);
      assert Clash(l, r, path);
    } else if Clashes(l, r) {
      var path :| Clash(l, r, path);
      ClashFails(l, r, path);
    }
  }

  // ---------- Algebra ----------

  lemma EmptyIsIdentity(j: Json)
    ensures Merge(j, Obj(map[])) == Ok(j)
    ensures j.Obj? ==> Merge(Obj(map[]), j) == Ok(j)
  {
    if j.Obj? && j.m != map[] {
      var merged := Merge(Obj(map[]), j);
      assert forall k :: k in j.m ==> MergeEntry(map[], k, j.m[k]) == Ok(j.m[k]);
      assert merged.value.m == j.m;
    }
  }

  lemma {:induction false} MergeIdempotent(j: Json)
    requires j.Obj?
    ensures Merge(j, j) == Ok(j)
    decreases j
  {
    if j.m != map[] {
      forall k | k in j.m ensures MergeEntry(j.m, k, j.m[k]) == Ok(j.m[k]) {
        if j.m[k].Obj? {
          MergeIdempotent(j.m[k]);
        }
      }
      assert Merge(j, j).value.m == j.m;
    }
  }

  /** Merging the same update again changes nothing. */
  lemma {:induction false} MergeAbsorbs(l: Json, r: Json)
    requires r.Obj? && Merge(l, r).Ok?
    ensures Merge(Merge(l, r).value, r) == Merge(l, r)
    ensures l != Null ==> Merge(l, r).value != Null
    decreases r
  {
    if r.m != map[] {
      var merged := Merge(l, r).value;
      forall k | k in r.m ensures MergeEntry(merged.m, k, r.m[k]) == Ok(merged.m[k]) {
        assert MergeEntry(Entries(l), k, r.m[k]).Ok?;
        if r.m[k].Obj? {
          if k in Entries(l) && Entries(l)[k] != Null {
            MergeAbsorbs(Entries(l)[k], r.m[k]);
          } else {
            MergeIdempotent(r.m[k]);
          }
        }
      }
      assert Merge(merged, r).value.m == merged.m;
    }
  }

  /** The right side replaces everything the left side has. */
  predicate Covers(l: Json, r: Json)
    requires r.Obj?
    decreases r
  {
    l.Obj? && forall k :: k in l.m ==> k in r.m && (r.m[k].Obj? && l.m[k] != Null ==> Covers(l.m[k], r.m[k]))
  }

  /** Merging yields the right side exactly if that replaces everything. */
  lemma {:induction false} CoversIff(l: Json, r: Json)
    requires r.Obj? && l != Null
    ensures Merge(l, r) == Ok(r) <==> Covers(l, r)
    decreases r
  {
    if l.Obj? && r.m != map[] {
      forall k | k in l.m && k in r.m && r.m[k].Obj? && l.m[k] != Null
        ensures MergeEntry(l.m, k, r.m[k]) == Ok(r.m[k]) <==> Covers(l.m[k], r.m[k])
      {
        CoversIff(l.m[k], r.m[k]);
      }
      CoversForm(l, r);
    }
  }

  lemma CoversForm(l: Json, r: Json)
    requires l.Obj? && r.Obj? && r.m != map[]
    ensures Merge(l, r) == Ok(r) <==>
            (forall k :: k in l.m ==> k in r.m) && forall k :: k in r.m ==> MergeEntry(l.m, k, r.m[k]) == Ok(r.m[k])
  {
    hide Merge, MergeEntry;
    MergeForm(l, r);
    if (forall k :: k in l.m ==> k in r.m) && forall k :: k in r.m ==> MergeEntry(l.m, k, r.m[k]) == Ok(r.m[k]) {
      assert Merge(l, r).value.m == r.m;
    }
  }

  /**
    At this key a null of `b` removes something of `a` that `c` does not replace, but would be merged
    with if `c` was merged into `b` first.
   */
  predicate ExposedAt(a: Json, b: Json, c: Json, k: string)
    requires b.Obj? && c.Obj?
    decreases b, 0
  {
    && a.Obj? && k in a.m && k in b.m && k in c.m && a.m[k] != Null && c.m[k].Obj?
    && if b.m[k] == Null then !Covers(a.m[k], c.m[k]) else b.m[k].Obj? && Exposed(a.m[k], b.m[k], c.m[k])
  }

  predicate Exposed(a: Json, b: Json, c: Json)
    requires b.Obj? && c.Obj?
    decreases b, 1
  {
    exists k :: k in b.m && ExposedAt(a, b, c, k)
  }

  /** One update after the other, and both updates merged beforehand. */
  function StepByStep(a: Json, b: Json, c: Json): Result {
    if Merge(a, b).Ok? then Merge(Merge(a, b).value, c) else TypeError
  }

  function Beforehand(a: Json, b: Json, c: Json): Result {
    if Merge(b, c).Ok? then Merge(a, Merge(b, c).value) else TypeError
  }

  /** A leaf is in the way when merging `b` into `a`, or `c` into the result. */
  ghost predicate StepByStepBlocked(a: Json, b: Json, c: Json) {
    Clashes(a, b) || Clashes(b, c) || exists path :: Clash(a, c, path) && !Decides(b, path)
  }

  /** A leaf is in the way when merging `c` into `b`, or the result into `a`. */
  ghost predicate BeforehandBlocked(a: Json, b: Json, c: Json) {
    Clashes(b, c) || Clashes(a, c) || exists path :: Clash(a, b, path) && !Decides(c, path)
  }

  lemma StepByStepFailsIff(a: Json, b: Json, c: Json)
    requires b.Obj? && c.Obj?
    ensures StepByStep(a, b, c).TypeError? <==> StepByStepBlocked(a, b, c)
  {
    hide Merge, LeafAt, OpensAt, Decides;
    MergeFailsIffClash(a, b);
    if Merge(a, b).Ok? {
      var ab := Merge(a, b).value;
      MergeFailsIffClash(ab, c);
      forall path: seq<string>
        ensures Clash(ab, c, path) <==> Clash(b, c, path) || (Clash(a, c, path) && !Decides(b, path))
      {
        MergedLeaf(a, b, path);
        LeafDecides(b, path);
      }
    }
  }

  lemma BeforehandFailsIff(a: Json, b: Json, c: Json)
    requires b.Obj? && c.Obj?
    ensures Beforehand(a, b, c).TypeError? <==> BeforehandBlocked(a, b, c)
  {
    hide Merge, LeafAt, OpensAt, Decides;
    MergeFailsIffClash(b, c);
    if Merge(b, c).Ok? {
      var bc := Merge(b, c).value;
      MergedObject(b, c);
      MergeFailsIffClash(a, bc);
      forall path: seq<string>
        ensures Clash(a, bc, path) <==> Clash(a, c, path) || (Clash(a, b, path) && !Decides(c, path))
      {
        MergedOpens(b, c, path);
      }
    }
  }

  lemma MergedObject(l: Json, r: Json)
    requires l.Obj? && r.Obj? && Merge(l, r).Ok?
    ensures Merge(l, r).value.Obj?
  {
  }

  /**
    Merging `b` and then `c` is the same as merging both at once, in the result and in its failures,
    for every three trees exactly as follows: if merging in turn is blocked, merging at once has to
    be blocked, too; otherwise no null may be exposed. Updates that are not objects make no difference.
   */
  lemma MergeOrderIff(a: Json, b: Json, c: Json)
    ensures StepByStep(a, b, c) == Beforehand(a, b, c) <==>
            || !b.Obj? || !c.Obj?
            || if StepByStepBlocked(a, b, c) then BeforehandBlocked(a, b, c) else !Exposed(a, b, c)
  {
    if b.Obj? && c.Obj? {
      hide Merge, Exposed, StepByStepBlocked, BeforehandBlocked;
      StepByStepFailsIff(a, b, c);
      BeforehandFailsIff(a, b, c);
      if Merge(a, b).Ok? {
        MergeableOrder(a, b, c);
      }
    } else {
      NoObjectOrder(a, b, c);
    }
  }

  lemma NoObjectOrder(a: Json, b: Json, c: Json)
    requires !b.Obj? || !c.Obj?
    ensures StepByStep(a, b, c) == Beforehand(a, b, c)
  {
    if b.Null? && c.Obj? && c.m != map[] {
      MergeForm(b, c);
      assert Merge(b, c).value.m == c.m;
    }
  }

  /** When `b` can be merged into `a`, the two ways agree exactly if `c` cannot be merged or no null is exposed. */
  lemma {:induction false} MergeableOrder(a: Json, b: Json, c: Json)
    requires b.Obj? && c.Obj? && Merge(a, b).Ok?
    ensures StepByStep(a, b, c) == Beforehand(a, b, c) <==> Merge(Merge(a, b).value, c).TypeError? || !Exposed(a, b, c)
    ensures StepByStep(a, b, c).Ok? ==> Merge(b, c).Ok?
    decreases b, 1
  {
    hide Merge, MergeEntry, ExposedAt;
    if b.m == map[] {
      EmptyIsIdentity(a);
      EmptyIsIdentity(c);
    } else if c.m == map[] {
      EmptyIsIdentity(b);
      EmptyIsIdentity(Merge(a, b).value);
      NothingExposed(a, b, c);
    } else {
      forall k | k in b.m || k in c.m ensures EntryOrder(a, b, c, k) {
        EntryOrderHolds(a, b, c, k);
      }
      OrderFromEntries(a, b, c);
    }
  }

  lemma NothingExposed(a: Json, b: Json, c: Json)
    requires b.Obj? && c.Obj? && c.m == map[]
    ensures !Exposed(a, b, c)
  {
  }

  /** The law of one entry. */
  ghost predicate EntryOrder(a: Json, b: Json, c: Json, k: string)
    requires b.Obj? && c.Obj? && b.m != map[] && Merge(a, b).Ok? && (k in b.m || k in c.m)
  {
    MergeForm(a, b);
    var ab := Merge(a, b).value;
    var bc := if k !in c.m then Ok(b.m[k]) else MergeEntry(b.m, k, c.m[k]);
    var abc := if k in c.m then MergeEntry(ab.m, k, c.m[k]) else Ok(ab.m[k]);
    && (abc.Ok? ==> bc.Ok?)
    && (abc.TypeError? && bc.Ok? ==> MergeEntry(Entries(a), k, bc.value).TypeError?)
    && (abc.Ok? ==> (MergeEntry(Entries(a), k, bc.value) == abc <==> !ExposedAt(a, b, c, k)))
  }

  lemma OrderFromEntries(a: Json, b: Json, c: Json)
    requires b.Obj? && c.Obj? && b.m != map[] && c.m != map[] && Merge(a, b).Ok?
    requires forall k :: k in b.m || k in c.m ==> EntryOrder(a, b, c, k)
    ensures StepByStep(a, b, c) == Beforehand(a, b, c) <==> Merge(Merge(a, b).value, c).TypeError? || !Exposed(a, b, c)
    ensures StepByStep(a, b, c).Ok? ==> Merge(b, c).Ok?
  {
    hide Merge, MergeEntry, ExposedAt;
    var ab := Merge(a, b).value;
    MergeForm(a, b);
    MergeForm(b, c);
    MergeForm(ab, c);
    assert forall k :: k in c.m ==> EntryOrder(a, b, c, k);
    if Merge(ab, c).Ok? {
      assert Merge(b, c).Ok?;
      SuccessfulOrder(a, b, c);
    } else if Merge(b, c).Ok? {
      var bc := Merge(b, c).value;
      MergeForm(a, bc);
      var k :| k in c.m && MergeEntry(ab.m, k, c.m[k]).TypeError?;
      assert EntryOrder(a, b, c, k);
      assert MergeEntry(Entries(a), k, bc.m[k]).TypeError?;
    }
  }

  lemma SuccessfulOrder(a: Json, b: Json, c: Json)
    requires b.Obj? && c.Obj? && b.m != map[] && c.m != map[]
    requires Merge(a, b).Ok? && Merge(Merge(a, b).value, c).Ok? && Merge(b, c).Ok?
    requires forall k :: k in b.m || k in c.m ==> EntryOrder(a, b, c, k)
    ensures Merge(a, Merge(b, c).value) == Merge(Merge(a, b).value, c) <==> !Exposed(a, b, c)
  {
    hide Merge, MergeEntry, ExposedAt, EntryOrder;
    var bc, abc := Merge(b, c).value, Merge(Merge(a, b).value, c).value;
    MergeForm(a, b);
    MergeForm(b, c);
    MergeForm(Merge(a, b).value, c);
    MergeForm(a, bc);
    if Exposed(a, b, c) {
      var k :| k in b.m && ExposedAt(a, b, c, k);
      SuccessfulEntry(a, b, c, k);
    } else {
      forall k | k in bc.m ensures MergeEntry(Entries(a), k, bc.m[k]) == Ok(abc.m[k]) {
        SuccessfulEntry(a, b, c, k);
      }
      assert Merge(a, bc).value.m == abc.m;
    }
  }

  lemma SuccessfulEntry(a: Json, b: Json, c: Json, k: string)
    requires b.Obj? && c.Obj? && b.m != map[] && c.m != map[] && (k in b.m || k in c.m)
    requires Merge(a, b).Ok? && Merge(Merge(a, b).value, c).Ok? && Merge(b, c).Ok?
    requires EntryOrder(a, b, c, k)
    ensures Merge(b, c).value.Obj? && Merge(Merge(a, b).value, c).value.Obj?
    ensures var bc, abc := Merge(b, c).value.m, Merge(Merge(a, b).value, c).value.m;
            && k in bc && k in abc
            && (MergeEntry(Entries(a), k, bc[k]) == Ok(abc[k]) <==> !ExposedAt(a, b, c, k))
    ensures ExposedAt(a, b, c, k) ==> Exposed(a, b, c)
  {
    hide Merge, MergeEntry;
    MergeForm(a, b);
    MergeForm(b, c);
    MergeForm(Merge(a, b).value, c);
  }

  lemma {:induction false} EntryOrderHolds(a: Json, b: Json, c: Json, k: string)
    requires b.Obj? && c.Obj? && b.m != map[] && c.m != map[] && Merge(a, b).Ok?
    requires k in b.m || k in c.m
    ensures EntryOrder(a, b, c, k)
    decreases b, 0
  {
    var am := Entries(a);
    MergeForm(a, b);
    assert k in b.m ==> MergeEntry(am, k, b.m[k]).Ok?;
    if k in b.m && k in c.m && c.m[k].Obj? && k in am && am[k] != Null {
      if b.m[k] == Null {
        CoversIff(am[k], c.m[k]);
      } else if b.m[k].Obj? {
        MergeAbsorbs(am[k], b.m[k]);
        MergeableOrder(am[k], b.m[k], c.m[k]);
      }
    }
  }

  predicate NullFree(j: Json) {
    match j
    case Null => false
    case Leaf(_) => true
    case Obj(m) => forall k :: k in m ==> NullFree(m[k])
  }

  lemma {:induction false} NullFreeExposesNothing(a: Json, b: Json, c: Json)
    requires b.Obj? && c.Obj? && NullFree(b)
    ensures !Exposed(a, b, c)
    decreases b
  {
    forall k | k in b.m ensures !ExposedAt(a, b, c, k) {
      assert NullFree(b.m[k]);
      if b.m[k].Obj? && k in c.m && c.m[k].Obj? && a.Obj? && k in a.m {
        NullFreeExposesNothing(a.m[k], b.m[k], c.m[k]);
      }
    }
  }

  /**
    If the earlier update has no null, merging both at once is the same as merging in turn, unless
    the later update takes away what keeps the earlier one from being merged.
   */
  lemma MergeAssociative(a: Json, b: Json, c: Json)
    requires b.Obj? && c.Obj? && NullFree(b)
    ensures StepByStep(a, b, c) == Beforehand(a, b, c) <==> (Clashes(a, b) ==> BeforehandBlocked(a, b, c))
  {
    hide Merge, Exposed, BeforehandBlocked;
    NullFreeExposesNothing(a, b, c);
    MergeOrderIff(a, b, c);
    MergeFailsIffClash(a, b);
    if !Clashes(a, b) {
      MergeableOrder(a, b, c);
    }
  }

  /** When `b` cannot be merged into `a`, the two ways agree exactly if merging both at once is blocked. */
  lemma FailedOrderIff(a: Json, b: Json, c: Json)
    requires b.Obj? && c.Obj? && Clashes(a, b)
    ensures StepByStep(a, b, c) == Beforehand(a, b, c) <==>
            Clashes(b, c) || Clashes(a, c) || exists path :: Clash(a, b, path) && !Decides(c, path)
  {
    hide Clashes, Exposed;
    MergeOrderIff(a, b, c);
  }

  /** The later update replaces an object that clashes with a leaf: merging in turn fails, merging at once does not. */
  lemma ClashBreaksAssociativity()
    ensures var a, b, c := Obj(map["x" := Leaf("1")]), Obj(map["x" := Obj(map["p" := Leaf("1")])]),
                           Obj(map["x" := Leaf("2")]);
            NullFree(b) && StepByStep(a, b, c) == TypeError && Beforehand(a, b, c) == Ok(c)
  {
    var one, p, two := Leaf("1"), Obj(map["p" := Leaf("1")]), Leaf("2");
    var a, b, c := Obj(map["x" := one]), Obj(map["x" := p]), Obj(map["x" := two]);
    assert "x" in a.m && "x" in b.m && "x" in c.m && "p" in p.m;
    assert Merge(one, p).TypeError?;
    assert MergeEntry(a.m, "x", b.m["x"]).TypeError?;
    MergeForm(b, c);
    assert Merge(b, c).value.m == c.m;
    MergeForm(a, c);
    assert Merge(a, c).value.m == c.m;
  }

  /** An exposed null: merging the updates first keeps entry "p". */
  lemma NullBreaksAssociativity()
    ensures var a, b, c := Obj(map["x" := Obj(map["p" := Leaf("1")])]), Obj(map["x" := Null]),
                           Obj(map["x" := Obj(map["q" := Leaf("2")])]);
            && Merge(a, b).Ok? && Merge(Merge(a, b).value, c).Ok? && Merge(b, c).Ok?
            && Merge(a, Merge(b, c).value) != Merge(Merge(a, b).value, c)
  {
    var p, q := Obj(map["p" := Leaf("1")]), Obj(map["q" := Leaf("2")]);
    var a, b, c := Obj(map["x" := p]), Obj(map["x" := Null]), Obj(map["x" := q]);
    assert "x" in b.m && "x" in c.m && "p" in p.m && "q" in q.m;
    MergeForm(a, b);
    MergeForm(b, c);
    assert Merge(a, b).value.m["x"] == Null && Merge(b, c).value.m["x"] == q;
    MergeForm(Merge(a, b).value, c);
    assert Merge(Merge(a, b).value, c).value.m["x"] == q;
    MergeForm(p, q);
    assert "p" in Merge(p, q).value.m;
    MergeForm(a, Merge(b, c).value);
  }
}
