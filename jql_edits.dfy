/**
 * The edits the filter builder makes to its condition list: adding,
 * removing and updating a condition (src/components/JQLBuilder.tsx:269-287),
 * the reset when a condition's field changes (line 607), and the bulk add
 * of a department's accounts (lines 672-675). Each edit is a new list that
 * replaces the old one.
 */
module JqlEdits {
  import opened Wrappers
  import opened Seqs
  import opened JqlModel
  import opened Users

  /** `[...conditions, { id, field: "worklogAuthor", operator: "in", value: [], logic: "AND" }]` with a fresh `id`. */
  function AddCondition(cs: seq<Condition>, id: string): (r: seq<Condition>)
    ensures |r| == |cs| + 1 && r[..|cs|] == cs && r[|cs|] == InitialCondition(id)
  {
    cs + [InitialCondition(id)]
  }

  /** The ids of the conditions, in list order. */
  function Ids(cs: seq<Condition>): (r: seq<string>)
    ensures |r| == |cs| && forall i :: 0 <= i < |cs| ==> r[i] == cs[i].id
  {
    seq(|cs|, i requires 0 <= i < |cs| => cs[i].id)
  }

  /** `c => c.id !== id` */
  function Other(id: string): Condition -> bool {
    (c: Condition) => c.id != id
  }

  /** `removeCondition`: drops the conditions with that id, unless only one condition is left. */
  function RemoveCondition(cs: seq<Condition>, id: string): (r: seq<Condition>)
    ensures |cs| <= 1 ==> r == cs
    ensures |cs| > 1 ==> forall i :: 0 <= i < |r| ==> r[i].id != id && r[i] in cs
    ensures |cs| > 1 ==> forall i :: 0 <= i < |cs| && cs[i].id != id ==> cs[i] in r
  {
    if |cs| > 1 then Filter(Other(id), cs) else cs
  }

  /** With distinct ids at most one condition goes, so the list never becomes empty. */
  lemma RemoveKeepsOne(cs: seq<Condition>, id: string)
    requires Distinct(Ids(cs))
    ensures |RemoveCondition(cs, id)| >= |cs| - 1
    ensures cs != [] ==> RemoveCondition(cs, id) != []
  {
    if |cs| > 1 {
      var r := RemoveCondition(cs, id);
      if exists i :: 0 <= i < |cs| && cs[i].id == id {
        var i :| 0 <= i < |cs| && cs[i].id == id;
        var j := if i == 0 then 1 else 0;
        assert Ids(cs)[i] != Ids(cs)[j];
        assert cs[j] in r;
      } else {
        FilterAll(Other(id), cs);
      }
      FilterDropsAtMostOne(cs, id);
    }
  }

  /** Filtering out one id removes at most one condition when ids are distinct. */
  lemma {:induction false} FilterDropsAtMostOne(cs: seq<Condition>, id: string)
    requires Distinct(Ids(cs))
    ensures |Filter(Other(id), cs)| >= |cs| - 1
    ensures (forall i :: 0 <= i < |cs| ==> cs[i].id != id) ==> |Filter(Other(id), cs)| == |cs|
  {
    if cs != [] {
      assert Ids(cs[1..]) == Ids(cs)[1..];
      FilterDropsAtMostOne(cs[1..], id);
      if cs[0].id == id {
        assert forall i :: 0 <= i < |cs[1..]| ==> cs[1..][i].id != id by {
          forall i | 0 <= i < |cs[1..]|
            ensures cs[1..][i].id != id
          {
            assert Ids(cs)[0] != Ids(cs)[i + 1];
          }
        }
      }
    }
  }

  /** With two conditions sharing the id, `removeCondition` leaves no condition at all. */
  lemma RemoveSharedId(c: Condition, d: Condition)
    requires c.id == d.id
    ensures RemoveCondition([c, d], c.id) == []
  {
    assert [c, d][1..] == [d];
    assert Filter(Other(c.id), [d]) == [];
  }

  /** Removing the condition just added gives back the list, when there was one and the id is new. */
  lemma RemoveAdded(cs: seq<Condition>, id: string)
    requires cs != [] && id !in Ids(cs)
    ensures RemoveCondition(AddCondition(cs, id), id) == cs
  {
    assert forall i :: 0 <= i < |cs| ==> Other(id)(cs[i]) by {
      forall i | 0 <= i < |cs|
        ensures Other(id)(cs[i])
      {
        assert Ids(cs)[i] == cs[i].id;
      }
    }
    FilterAll(Other(id), cs);
    FilterAppend(Other(id), cs, [InitialCondition(id)]);
    assert Filter(Other(id), [InitialCondition(id)]) == [];
  }

  /**
   * The `Partial<ExtendedCondition>` an update carries: a field that is
   * `None` is absent from it and keeps its value.
   */
  datatype Update = Update(field: Option<string>, operator: Option<string>, value: Option<Value>, logic: Option<string>)

  function Or<T>(o: Option<T>, d: T): T {
    if o.Some? then o.value else d
  }

  /** `{ ...c, ...updates }` */
  function Apply(c: Condition, u: Update): (r: Condition)
    ensures r.id == c.id
    ensures r.field == (if u.field.Some? then u.field.value else c.field)
    ensures r.operator == (if u.operator.Some? then u.operator.value else c.operator)
    ensures r.value == (if u.value.Some? then u.value.value else c.value)
    ensures r.logic == (if u.logic.Some? then u.logic.value else c.logic)
  {
    Condition(c.id, Or(u.field, c.field), Or(u.operator, c.operator), Or(u.value, c.value), Or(u.logic, c.logic))
  }

  /** `updateCondition`: the conditions with that id take the update, every other one is unchanged. */
  function UpdateCondition(cs: seq<Condition>, id: string, u: Update): (r: seq<Condition>)
    ensures |r| == |cs| && Ids(r) == Ids(cs)
    ensures forall i :: 0 <= i < |cs| && cs[i].id != id ==> r[i] == cs[i]
    ensures forall i :: 0 <= i < |cs| && cs[i].id == id ==> r[i] == Apply(cs[i], u)
  {
    seq(|cs|, i requires 0 <= i < |cs| => if cs[i].id == id then Apply(cs[i], u) else cs[i])
  }

  /** Applying the same update twice is applying it once. */
  lemma UpdateIdempotent(cs: seq<Condition>, id: string, u: Update)
    ensures UpdateCondition(UpdateCondition(cs, id, u), id, u) == UpdateCondition(cs, id, u)
  {
  }

  /** An update with nothing in it changes nothing. */
  lemma UpdateEmpty(cs: seq<Condition>, id: string)
    ensures UpdateCondition(cs, id, Update(None, None, None, None)) == cs
  {
  }

  /**
   * Choosing field `f` for a condition: the operator becomes the field's first
   * allowed one and the value is cleared, to `[]` for the author field and to
   * `""` for every other. The choice comes from FIELD_OPTIONS, so `f` has
   * operators.
   */
  function FieldChange(f: string): (u: Update)
    requires f in FieldOptions
    ensures u.field == Some(f) && u.logic.None?
    ensures Operators(f) != [] && u.operator == Some(Operators(f)[0])
    ensures u.operator.Some? && u.operator.value in Operators(f)
    ensures u.value == Some(if f == "worklogAuthor" then List([]) else Str(""))
  {
    OperatorsCoverFields(f);
    Update(Some(f), Some(Operators(f)[0]), Some(if f == "worklogAuthor" then List([]) else Str("")), None)
  }

  /** The operator a condition shows is one its field allows. */
  predicate Consistent(c: Condition) {
    c.operator in Operators(c.field)
  }

  /** After a field change the condition is consistent, whatever it was before. */
  lemma FieldChangeConsistent(cs: seq<Condition>, id: string, f: string)
    requires f in FieldOptions
    ensures forall i :: 0 <= i < |cs| && cs[i].id == id ==> Consistent(UpdateCondition(cs, id, FieldChange(f))[i])
  {
  }

  /** `Array.isArray(condition.value) ? condition.value : []` */
  function CurrentValues(v: Value): seq<string> {
    if v.List? then v.items else []
  }

  /**
   * The bulk add: the accounts already chosen followed by those of the
   * department's users, each once, at its first occurrence.
   */
  function BulkAdd(v: Value, users: seq<User>, part: string): (r: seq<string>)
    ensures Distinct(r)
    ensures forall x :: x in r <==> x in CurrentValues(v) || x in Accounts(FilteredUsers(users, part))
  {
    PartFilterAgrees(users, part);
    var added := Accounts(Filter(PartFilter(part), users));
    DedupMembers(CurrentValues(v) + added);
    Dedup(CurrentValues(v) + added)
  }

  /** The accounts chosen before stay first and in their order, when they held no repetition. */
  lemma BulkAddKeepsCurrent(v: Value, users: seq<User>, part: string)
    requires Distinct(CurrentValues(v))
    ensures CurrentValues(v) <= BulkAdd(v, users, part)
  {
    PartFilterAgrees(users, part);
    var added := Accounts(Filter(PartFilter(part), users));
    DedupPrefix(CurrentValues(v), added);
    DedupOfDistinct(CurrentValues(v));
  }

  /** A second bulk add of the same department adds nothing. */
  lemma BulkAddTwice(v: Value, users: seq<User>, part: string)
    ensures BulkAdd(List(BulkAdd(v, users, part)), users, part) == BulkAdd(v, users, part)
  {
    var once := BulkAdd(v, users, part);
    PartFilterAgrees(users, part);
    var added := Accounts(Filter(PartFilter(part), users));
    DedupAbsorbs(once, added);
  }

  /** Deduplicating a repetition-free sequence followed by elements it already holds gives it back. */
  lemma {:induction false} DedupAbsorbs<T>(d: seq<T>, b: seq<T>)
    requires Distinct(d) && forall x :: x in b ==> x in d
    ensures Dedup(d + b) == d
  {
    if b == [] {
      assert d + b == d;
      DedupOfDistinct(d);
    } else {
      var init := b[..|b| - 1];
      assert (d + b)[..|d + b| - 1] == d + init;
      DedupAbsorbs(d, init);
      assert b[|b| - 1] in b;
    }
  }
}
