/** `Category.jsx`: the list of categories with create, edit and delete. Each handler is the
    state change it makes once the API call it awaits has succeeded or failed. */
module CategoryPage {
  import opened Common
  import opened Models
  import opened Session
  import opened ClientLists

  /** `newCategory`: the dialog's two text fields. */
  datatype CategoryForm = CategoryForm(name: string, description: string)

  /** The form opened on `category`: its name, and its description or `''` when it has none. */
  function EditForm(category: Category): (f: CategoryForm)
    ensures f.name == category.name
    ensures category.description.Some? ==> f.description == category.description.value
    ensures category.description.None? ==> f.description == ""
  {
    CategoryForm(category.name, if category.description.Some? then category.description.value else "")
  }

  class CategoryPage {
    var categories: seq<Category>
    var open: bool
    var editMode: bool
    var currentCategoryId: Option<Id>
    var form: CategoryForm

    /** The first render, before the initial `fetchCategories()` has answered. */
    constructor ()
      ensures categories == [] && !open && !editMode && currentCategoryId.None?
      ensures form == CategoryForm("", "")
    {
      categories := [];
      open, editMode, currentCategoryId := false, false, None;
      form := CategoryForm("", "");
    }

    /** `handleOpen(category)`: with a category, edit mode on it with its fields copied; without
        one, create mode and an empty form (the previous `currentCategoryId` is left as it was).
        Either way the dialog opens. */
    method Open(category: Option<Category>)
      modifies this
      ensures open && categories == old(categories)
      ensures category.Some? ==>
        editMode && currentCategoryId == Some(category.value.id) && form == EditForm(category.value)
      ensures category.None? ==>
        !editMode && currentCategoryId == old(currentCategoryId) && form == CategoryForm("", "")
    {
      if category.Some? {
        editMode := true;
        currentCategoryId := Some(category.value.id);
        form := EditForm(category.value);
      } else {
        editMode := false;
        form := CategoryForm("", "");
      }
      open := true;
    }

    /** `handleClose`: the dialog closes and forgets the category it was editing. */
    method Close()
      modifies this
      ensures !open && !editMode && currentCategoryId.None?
      ensures form == old(form) && categories == old(categories)
    {
      open := false;
      editMode := false;
      currentCategoryId := None;
    }

    /** `handleAddOrUpdateCategory`, where `outcome` is the answer of the create or update
        request. An empty name is refused before any request, and a failed request changes
        nothing. Otherwise the returned category replaces the edited one (edit mode) or is put
        last (create mode), and the dialog closes. */
    method Save(outcome: ApiOutcome<Category>)
      modifies this
      ensures old(form.name) == "" || outcome.Failed? ==> unchanged(this)
      ensures old(form.name) != "" && outcome.Succeeded? ==>
        && categories == (if old(editMode) then SetById(old(categories), CategoryId, old(currentCategoryId), outcome.body)
                          else old(categories) + [outcome.body])
        && !open && !editMode && currentCategoryId.None? && form == old(form)
    {
      if form.name == "" || outcome.Failed? {
        return;
      }
      if editMode {
        categories := SetById(categories, CategoryId, currentCategoryId, outcome.body);
      } else {
        categories := categories + [outcome.body];
      }
      Close();
    }

    /** `handleDeleteCategory(id)`: once the delete succeeds, exactly the categories with that id
        leave the list, the others keeping their order; a failed delete changes nothing. */
    method Delete(id: Id, outcome: ApiOutcome<()>)
      modifies this
      ensures outcome.Failed? ==> unchanged(this)
      ensures outcome.Succeeded? ==> categories == RemoveById(old(categories), CategoryId, id)
      ensures open == old(open) && editMode == old(editMode)
      ensures currentCategoryId == old(currentCategoryId) && form == old(form)
    {
      if outcome.Succeeded? {
        categories := RemoveById(categories, CategoryId, id);
      }
    }
  }
}
