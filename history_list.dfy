/**
 * The collection history screen (src/components/HistoryList.tsx): the
 * collections on show, the ids ticked among them, the delete handler that
 * acts on the ticked ids, and the `cn` class-name helper.
 */
module HistoryList {
  import opened Wrappers
  import opened Seqs

  /** The ids of the listed collections, `collections.map(c => c.id)`; the handlers read no other field. */
  type Collections = seq<int>

  /** `i => i !== id` */
  function Except(id: int): int -> bool {
    (i: int) => i != id
  }

  /** The new selection of `handleSelectAll`: every collection id in list order, or none. */
  function SelectAll(collections: Collections, checked: bool): (r: seq<int>)
    ensures checked ==> r == collections
    ensures !checked ==> r == []
  {
    if checked then collections else []
  }

  /** The new selection of `handleSelectOne`: the id is appended, or every occurrence of it goes. */
  function SelectOne(ids: seq<int>, id: int, checked: bool): (r: seq<int>)
    ensures checked ==> r == ids + [id]
    ensures !checked ==> id !in r && |r| <= |ids|
  {
    if checked then ids + [id] else Filter(Except(id), ids)
  }

  /** Unticking removes every occurrence of the id and keeps every other id as often as before. */
  lemma DeselectCounts(ids: seq<int>, id: int, x: int)
    ensures multiset(SelectOne(ids, id, false))[x] == if x == id then 0 else multiset(ids)[x]
  {
    FilterCount(Except(id), ids, x);
  }

  /** Unticking keeps the order of the other ids: an id-free selection is left as it is. */
  lemma DeselectAbsent(ids: seq<int>, id: int)
    requires id !in ids
    ensures SelectOne(ids, id, false) == ids
  {
    FilterAll(Except(id), ids);
  }

  /** Ticking does not look for the id first: ticking it twice lists it twice more. */
  lemma SelectTwice(ids: seq<int>, id: int)
    ensures multiset(SelectOne(SelectOne(ids, id, true), id, true))[id] == multiset(ids)[id] + 2
  {
    assert SelectOne(SelectOne(ids, id, true), id, true) == ids + [id, id];
  }

  /** Unticking right after ticking is unticking alone. */
  lemma SelectThenDeselect(ids: seq<int>, id: int)
    ensures SelectOne(SelectOne(ids, id, true), id, false) == SelectOne(ids, id, false)
  {
    FilterAppend(Except(id), ids, [id]);
    assert Filter(Except(id), [id]) == [];
  }

  /**
   * The screen's state. Collections are listed by id; `selectedIds` may hold
   * an id twice, as `handleSelectOne` does not check.
   */
  class History {
    var collections: Collections
    var selectedIds: seq<int>

    constructor(initialCollections: Collections)
      ensures collections == initialCollections && selectedIds == []
    {
      collections := initialCollections;
      selectedIds := [];
    }

    /** `handleSelectAll` */
    method SelectAllIds(checked: bool)
      modifies this
      ensures selectedIds == SelectAll(old(collections), checked)
      ensures collections == old(collections)
    {
      if checked {
        selectedIds := collections;
      } else {
        selectedIds := [];
      }
    }

    /** `handleSelectOne` */
    method SelectOneId(id: int, checked: bool)
      modifies this
      ensures selectedIds == SelectOne(old(selectedIds), id, checked)
      ensures collections == old(collections)
    {
      if checked {
        selectedIds := selectedIds + [id];
      } else {
        selectedIds := Filter(Except(id), selectedIds);
      }
    }

    /**
     * `handleDelete`. Nothing happens with an empty selection or without
     * confirmation. Otherwise the selected ids go to the server (`requested`)
     * and, when the deletion and the reload both succeed, `reloaded` holds
     * the reloaded list, which replaces the collections while the selection
     * is emptied; a failure (`reloaded == None`) leaves both as they were.
     */
    method Delete(confirmed: bool, reloaded: Option<Collections>) returns (requested: Option<seq<int>>)
      modifies this
      ensures (old(selectedIds) == [] || !confirmed) ==>
        requested.None? && collections == old(collections) && selectedIds == old(selectedIds)
      ensures old(selectedIds) != [] && confirmed ==> requested == Some(old(selectedIds))
      ensures old(selectedIds) != [] && confirmed && reloaded.Some? ==>
        collections == reloaded.value && selectedIds == []
      ensures old(selectedIds) != [] && confirmed && reloaded.None? ==>
        collections == old(collections) && selectedIds == old(selectedIds)
    {
      requested := None;
      if selectedIds == [] {
        return;
      }
      if !confirmed {
        return;
      }
      requested := Some(selectedIds);
      if reloaded.Some? {
        collections := reloaded.value;
        selectedIds := [];
      }
    }
  }

  /** `cn(...classes)`: the non-empty class names, in order, separated by single spaces. */
  function Cn(classes: seq<string>): string {
    Join(Filter(NonEmpty(), classes), " ")
  }

  /** `cn` gives the empty string exactly when every class name is empty. */
  lemma CnEmpty(classes: seq<string>)
    ensures Cn(classes) == "" <==> forall i :: 0 <= i < |classes| ==> classes[i] == ""
  {
    if forall i :: 0 <= i < |classes| ==> classes[i] == "" {
      FilterNone(NonEmpty(), classes);
    } else {
      var k :| 0 <= k < |classes| && classes[k] != "";
      var r := Filter(NonEmpty(), classes);
      assert classes[k] in r;
      var j :| 0 <= j < |r| && r[j] == classes[k];
      JoinNonEmpty(r, " ", j);
    }
  }

  /** One more class name is added after a single space, unless it or everything before it is empty. */
  lemma CnSnoc(classes: seq<string>, c: string)
    ensures Cn(classes + [c]) == if c == "" then Cn(classes) else if Cn(classes) == "" then c else Cn(classes) + " " + c
  {
    var r := Filter(NonEmpty(), classes);
    FilterAppend(NonEmpty(), classes, [c]);
    assert [c][1..] == [];
    assert Filter(NonEmpty(), [c]) == if c == "" then [] else [c];
    if c != "" {
      assert Filter(NonEmpty(), classes + [c]) == r + [c];
      if r == [] {
        assert r + [c] == [c];
      } else {
        assert NonEmpty()(r[0]);
        JoinNonEmpty(r, " ", 0);
        JoinSnoc(r, c, " ");
      }
    } else {
      assert r + [] == r;
    }
  }

  /** `cn(a, b)`, the form both calls on the history screen take: the non-empty one, or both with a space between. */
  lemma CnTwo(a: string, b: string)
    ensures Cn([a, b]) == if a == "" then b else if b == "" then a else a + " " + b
  {
    CnSnoc([], a);
    CnSnoc([a], b);
    assert [] + [a] == [a];
    assert [a] + [b] == [a, b];
  }

  /** Splitting the result at spaces gives back the non-empty class names, when none holds a space. */
  lemma CnSplit(classes: seq<string>)
    requires forall i :: 0 <= i < |classes| ==> ' ' !in classes[i]
    requires exists i :: 0 <= i < |classes| && classes[i] != ""
    ensures Split(Cn(classes), ' ') == Filter(NonEmpty(), classes)
  {
    var r := Filter(NonEmpty(), classes);
    var k :| 0 <= k < |classes| && classes[k] != "";
    assert classes[k] in r;
    forall i | 0 <= i < |r|
      ensures ' ' !in r[i]
    {
      var j :| 0 <= j < |classes| && classes[j] == r[i];
    }
    SplitJoin(r, ' ');
  }
}
