/**
 * The `TimeLine` page component: its state (the collection, the draft, the
 * error map, the mode and the modal flags, and the storage slot the collection
 * is mirrored to) and the event handlers that change it. Each handler's
 * `requires` names the UI state in which the page renders the control that
 * fires it.
 */
module TimeLinePage {
  import opened Wrappers
  import opened Milestones
  import opened DateOrder
  import opened YearGroups

  /** What the mount effect reads: the stored array, or `[]` when the slot holds nothing. */
  function Loaded(stored: Option<seq<Milestone>>): (c: seq<Milestone>)
    ensures stored.Some? ==> c == stored.value
    ensures stored.None? ==> c == []
  {
    match stored
    case Some(c) => c
    case None => []
  }

  class TimeLine {
    var mileStones: seq<Milestone>
    var showModal: bool
    var formData: Milestone
    var isEdit: bool
    var showConfirmDel: bool
    var errors: map<Field, string>
    /** The page's one local-storage slot, as the collection last written to it. */
    var storage: Option<seq<Milestone>>

    /** The collection mirrors the storage slot, and an open edit form belongs to a stored milestone. */
    ghost predicate Valid()
      reads this
    {
      && mileStones == Loaded(storage)
      && (showModal && isEdit ==> formData.id in Ids(mileStones))
    }

    /** The initial state of the hooks followed by the mount effect that loads the collection. */
    constructor (stored: Option<seq<Milestone>>)
      ensures Valid()
      ensures storage == stored && mileStones == Loaded(stored)
      ensures !showModal && formData == EmptyForm && !isEdit && !showConfirmDel && errors == map[]
    {
      storage := stored;
      mileStones := Loaded(stored);
      showModal, isEdit, showConfirmDel := false, false, false;
      formData := EmptyForm;
      errors := map[];
    }

    /** `saveToStorage`: the slot is overwritten with the whole collection, which becomes the state. */
    method SaveToStorage(data: seq<Milestone>)
      modifies this`storage, this`mileStones
      ensures storage == Some(data) && mileStones == data
    {
      storage := Some(data);
      mileStones := data;
    }

    /** The "Add MileStone" button. The error map is left as it was. */
    method OpenAddModal()
      requires Valid()
      modifies this`formData, this`isEdit, this`showModal
      ensures Valid()
      ensures formData == EmptyForm && !isEdit && showModal
    {
      formData := EmptyForm;
      isEdit := false;
      showModal := true;
    }

    /** A click on a timeline card: the draft becomes a copy of that milestone. */
    method OpenEditModal(item: Milestone)
      requires Valid() && item in mileStones
      modifies this`formData, this`isEdit, this`showModal
      ensures Valid()
      ensures formData == item && isEdit && showModal
    {
      var k :| 0 <= k < |mileStones| && mileStones[k] == item;
      assert Ids(mileStones)[k] == item.id;
      formData := item;
      isEdit := true;
      showModal := true;
    }

    /** An input of the form: clears that field's error, then writes the field of the draft. */
    method HandleChange(f: Field, value: string)
      requires Valid() && showModal
      modifies this`errors, this`formData
      ensures Valid()
      ensures errors == ClearError(old(errors), f)
      ensures formData == SetField(old(formData), f, value)
      ensures Get(formData, f) == value
      ensures forall g :: g != f ==> Get(formData, g) == Get(old(formData), g)
    {
      if f in errors && errors[f] != "" {
        errors := errors[f := ""];
      }
      formData := SetField(formData, f, value);
    }

    /** The "Save" button. An incomplete draft only replaces the error map; a complete one is
        committed (replaced by id when editing, appended with `freshId` when adding), stored,
        and the form closes with no errors. */
    method HandleSave(freshId: int)
      requires Valid() && showModal
      requires !isEdit ==> Some(freshId) !in Ids(mileStones)
      modifies this`errors, this`mileStones, this`storage, this`showModal
      ensures Valid()
      ensures old(!IsComplete(formData)) ==>
        && errors == old(Validate(formData))
        && mileStones == old(mileStones) && storage == old(storage) && showModal
      ensures old(IsComplete(formData)) ==> mileStones == old(Commit(mileStones, formData, isEdit, freshId))
      ensures old(IsComplete(formData)) ==> storage == Some(mileStones)
      ensures old(IsComplete(formData)) ==> !showModal && errors == map[]
      ensures old(UniqueIds(mileStones)) ==> UniqueIds(mileStones)
    {
      ValidateMeaning(formData);
      var newErrors := Validate(formData);
      if !IsComplete(formData) {
        errors := newErrors;
        return;
      }
      var updated := Commit(mileStones, formData, isEdit, freshId);
      SaveToStorage(updated);
      showModal := false;
      errors := map[];
    }

    /** The form's "Cancel" button. */
    method CloseModal()
      requires Valid() && showModal
      modifies this`showModal
      ensures Valid()
      ensures !showModal
    {
      showModal := false;
    }

    /** The form's "Delete" button, shown only when editing: asks for confirmation. */
    method RequestDelete()
      requires Valid() && showModal && isEdit
      modifies this`showConfirmDel
      ensures Valid()
      ensures showConfirmDel
    {
      showConfirmDel := true;
    }

    /** The confirmation's "Cancel" button. */
    method CancelDelete()
      requires Valid() && showModal && showConfirmDel
      modifies this`showConfirmDel
      ensures Valid()
      ensures !showConfirmDel
    {
      showConfirmDel := false;
    }

    /** `handleDelete`: every milestone with the draft's id is dropped, the rest stored in order. */
    method HandleDelete()
      requires Valid()
      modifies this`mileStones, this`storage, this`showModal
      ensures Valid()
      ensures mileStones == RemoveById(old(mileStones), formData.id)
      ensures storage == Some(mileStones) && !showModal
      ensures old(UniqueIds(mileStones)) ==> UniqueIds(mileStones)
      ensures old(showModal && isEdit && UniqueIds(mileStones)) ==> |mileStones| == |old(mileStones)| - 1
    {
      if UniqueIds(mileStones) {
        RemoveKeepsUnique(mileStones, formData.id);
        if showModal && isEdit {
          RemoveExactlyOne(mileStones, formData.id);
        }
      }
      SaveToStorage(RemoveById(mileStones, formData.id));
      showModal := false;
    }

    /** The confirmation's "Yes, Delete" button: delete, then close the confirmation. */
    method ConfirmDelete()
      requires Valid() && showModal && showConfirmDel
      modifies this`mileStones, this`storage, this`showModal, this`showConfirmDel
      ensures Valid()
      ensures mileStones == RemoveById(old(mileStones), formData.id)
      ensures storage == Some(mileStones) && !showModal && !showConfirmDel
      ensures old(UniqueIds(mileStones)) ==> UniqueIds(mileStones)
      ensures old(isEdit && UniqueIds(mileStones)) ==> |mileStones| == |old(mileStones)| - 1
    {
      HandleDelete();
      showConfirmDel := false;
    }

    /** The render: the dated milestones sorted by date, bucketed by `yearOf` (each bucket still in date order),
        years newest first. */
    method Render(yearOf: YearFn) returns (years: seq<int>, groups: map<int, seq<Milestone>>)
      ensures groups.Keys == YearsIn(SortedMilestones(mileStones), yearOf)
      ensures forall y :: y in groups ==> groups[y] == Bucket(SortedMilestones(mileStones), yearOf, y)
      ensures StrictlyDescending(years)
      ensures forall y :: y in years <==> y in groups
      ensures forall y :: y in groups ==> SortedBy(groups[y], DateKey())
    {
      var sorted := SortedMilestones(mileStones);
      var keys;
      groups, keys := GroupByYear(sorted, yearOf);
      years := YearsDescending(keys);
      forall y | y in groups ensures SortedBy(groups[y], DateKey()) {
        BucketKeepsDateOrder(sorted, DateKey(), yearOf, y);
      }
    }
  }
}
