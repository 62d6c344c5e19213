/** KdbListModel: the list model behind one open list window. It keeps the rows
    the window shows and the token that decides which backend events it accepts,
    and it records every signal it emits in a ghost log. */
module ListModel {
  import opened Items
  import opened ModelSpec

  datatype Option<T> = None | Some(value: T)

  class KdbListModel {
    /** The rows, in display order. */
    var items: seq<Item>
    /** The token of the backend subscription this model listens to. */
    var modelId: int
    /** Whether the model holds `modelId`. */
    var registered: bool
    /** The group a search is scoped to; a property the view writes directly. */
    var searchRootGroupId: int
    /** Every signal emitted so far, oldest first. */
    ghost var signals: seq<Signal>

    /** The fields as one value, for the step functions of ModelSpec. */
    function State(): ModelState
      reads this
    {
      ModelState(items, modelId, registered, searchRootGroupId)
    }

    ghost predicate Valid()
      reads this
    {
      Consistent(State())
    }

    /** A new model is empty and holds no token. */
    constructor ()
      ensures State() == Initial && signals == []
      ensures Valid()
    {
      items := [];
      modelId := 0;
      registered := false;
      searchRootGroupId := 0;
      signals := [];
    }

    /** The destructor: hands back the token if the model holds one. */
    method Destroy()
      modifies this`signals
      ensures signals == old(signals) + DestructorSignals(State())
    {
      if registered {
        signals := signals + [UnregisterFromKdbInterface(modelId)];
      }
    }

    /** A row arriving from the backend, tagged with the token of its
        subscription. */
    method SlotAddItemToListModel(title: string, subtitle: string, id: int, itemType: ItemType, modelId: int)
      requires Valid()
      modifies this
      ensures Valid()
      ensures State() == AddStep(old(State()), title, subtitle, id, itemType, modelId).state
      ensures signals == old(signals) + AddStep(old(State()), title, subtitle, id, itemType, modelId).emitted
    {
      ghost var spec := AddStep(State(), title, subtitle, id, itemType, modelId);
      ghost var accepted := Accepts(State(), modelId);
      if !registered {
        this.modelId := modelId;
        registered := true;
      }
      if this.modelId == modelId {
        assert accepted;
        InsertItem(Item(title, subtitle, id, itemType));
        assert items == spec.state.items;
        if |items| == 1 {
          assert old(items) == [];
          signals := signals + [IsEmptyChanged];
        }
      } else {
        assert !accepted;
      }
      signals := signals + [ModelDataChanged];
      assert signals == old(signals) + spec.emitted;
      assert State() == spec.state;
    }

    /** The list surgery of an accepted add: an entry is appended, any other
        row goes right after the leading run of groups. */
    method InsertItem(item: Item)
      modifies this`items
      ensures items == Inserted(old(items), item)
    {
      if item.itemType == Entry {
        items := items + [item];
      } else {
        var i := 0;
        while i < |items| && items[i].itemType == Group
          invariant 0 <= i <= |items|
          invariant forall k :: 0 <= k < i ==> items[k].itemType == Group
        {
          i := i + 1;
        }
        GroupRunLengthIsFirstNonGroup(items, i);
        items := items[..i] + [item] + items[i..];
      }
    }

    /** A rename from the backend: every row with id `groupId` takes the new
        title and subtitle, provided the token matches. */
    method SlotUpdateItemInListModel(title: string, subTitle: string, groupId: int, modelId: int)
      requires Valid()
      modifies this
      ensures Valid()
      ensures State() == UpdateStep(old(State()), title, subTitle, groupId, modelId).state
      ensures signals == old(signals) + UpdateStep(old(State()), title, subTitle, groupId, modelId).emitted
    {
      if this.modelId == modelId {
        var i := 0;
        while i < |items|
          invariant 0 <= i <= |items| == |old(items)|
          invariant forall k :: 0 <= k < i ==> items[k] == Renamed(old(items)[k], groupId, title, subTitle)
          invariant forall k :: i <= k < |items| ==> items[k] == old(items)[k]
          invariant this.modelId == old(this.modelId) && registered == old(registered)
          invariant searchRootGroupId == old(searchRootGroupId) && signals == old(signals)
        {
          if items[i].id == groupId {
            items := items[i := items[i].(name := title, subtitle := subTitle)];
          }
          i := i + 1;
        }
        assert items == Updated(old(items), groupId, title, subTitle);
        signals := signals + [ModelDataChanged];
      }
    }

    /** A delete from the backend, applied whatever the token. */
    method SlotDeleteItem(itemId: int)
      requires Valid()
      modifies this`items, this`signals
      ensures Valid()
      ensures State() == DeleteStep(old(State()), itemId).state
      ensures signals == old(signals) + DeleteStep(old(State()), itemId).emitted
    {
      RemoveRowsWithId(itemId);
      DeleteStepClosedForm(old(State()), itemId);
    }

    /** The removal loop of the delete: after a removal the index still
        advances, so the row that slid into the freed place is not examined. */
    method RemoveRowsWithId(itemId: int)
      modifies this`items, this`signals
      ensures items == DeleteAsWritten(old(items), itemId)
      ensures signals == old(signals) + DeleteSignals(old(items), items)
    {
      ghost var orig, before := items, signals;
      DeleteProgressStart(orig, itemId);
      var i := 0;
      while i < |items|
        invariant DeleteProgress(orig, itemId, items, i)
        invariant signals == before + DeleteSignals(orig, items)
        decreases |items| + 1 - i
      {
        if items[i].id == itemId {
          DeleteProgressRemove(orig, itemId, items, i);
          ghost var cur := items;
          RemoveRowAt(i);
          DeleteSignalsShrink(before, orig, cur, items);
        } else {
          DeleteProgressKeep(orig, itemId, items, i);
        }
        i := i + 1;
      }
      DeleteProgressDone(orig, itemId, items, i);
    }

    /** One removal of the delete loop: the row goes, ModelDataChanged is
        emitted, and IsEmptyChanged too when it was the last row. */
    method RemoveRowAt(i: nat)
      requires i < |items|
      modifies this`items, this`signals
      ensures items == old(items)[..i] + old(items)[i + 1..]
      ensures signals == old(signals) + RemovalSignals(items)
    {
      items := items[..i] + items[i + 1..];
      signals := signals + [ModelDataChanged];
      if |items| == 0 {
        signals := signals + [IsEmptyChanged];
      }
    }

    /** Asks the backend for the top-level groups. */
    method LoadMasterGroupsFromDatabase()
      modifies this
      ensures Valid()
      ensures State() == LoadMasterStep(old(State())).state
      ensures signals == old(signals) + LoadMasterStep(old(State())).emitted
    {
      ghost var unload := Unload(State());
      if !IsEmpty() {
        Clear();
      }
      if registered {
        signals := signals + [UnregisterFromKdbInterface(modelId)];
        registered := false;
      }
      assert signals == old(signals) + unload.emitted;
      signals := signals + [LoadMasterGroups];
    }

    /** Asks the backend for the subgroups and entries of `groupId`. */
    method LoadGroupsAndEntriesFromDatabase(groupId: int)
      modifies this
      ensures Valid()
      ensures State() == LoadGroupStep(old(State()), groupId).state
      ensures signals == old(signals) + LoadGroupStep(old(State()), groupId).emitted
    {
      ghost var unload := Unload(State());
      if !IsEmpty() {
        Clear();
      }
      if registered {
        signals := signals + [UnregisterFromKdbInterface(modelId)];
        registered := false;
      }
      assert signals == old(signals) + unload.emitted;
      signals := signals + [LoadGroupsAndEntries(groupId)];
    }

    /** Asks the backend for the entries matching `searchString`. */
    method SearchEntriesInKdbDatabase(searchString: string)
      modifies this
      ensures Valid()
      ensures State() == SearchStep(old(State()), searchString).state
      ensures signals == old(signals) + SearchStep(old(State()), searchString).emitted
    {
      ghost var unload := Unload(State());
      if !IsEmpty() {
        Clear();
      }
      if registered {
        signals := signals + [UnregisterFromKdbInterface(modelId)];
      }
      assert signals == old(signals) + unload.emitted;
      modelId := SearchModelId;
      registered := true;
      signals := signals + [SearchEntries(searchString, searchRootGroupId)];
    }

    /** Number of rows. */
    function RowCount(): (n: nat)
      reads this
      ensures n == |items|
    {
      |items|
    }

    function IsEmpty(): (b: bool)
      reads this
      ensures b <==> RowCount() == 0
    {
      items == []
    }

    /** The row at `row`, or nothing outside 0 .. RowCount() - 1. */
    function Data(row: int): (r: Option<Item>)
      reads this
      ensures r.None? <==> row < 0 || row >= RowCount()
      ensures r.Some? ==> r.value == items[row]
    {
      if row < 0 || row >= |items| then None else Some(items[row])
    }

    method Clear()
      modifies this
      ensures Valid()
      ensures State() == ClearStep(old(State())).state
      ensures signals == old(signals) + ClearStep(old(State())).emitted
    {
      items := [];
      signals := signals + [ModelDataChanged, IsEmptyChanged];
    }

    method ClearListModel()
      modifies this
      ensures Valid()
      ensures State() == ClearStep(old(State())).state
      ensures signals == old(signals) + ClearStep(old(State())).emitted
    {
      Clear();
    }
  }
}
