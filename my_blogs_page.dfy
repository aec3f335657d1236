/** `MyBlogs.jsx`: the caller's own blogs, unpaginated, with create, edit, delete and the image
    fallback. Each handler is the state change it makes once the API call it awaits has
    succeeded or failed. */
module MyBlogsPage {
  import opened Common
  import opened AuthController
  import opened Session
  import opened ClientLists

  /** The form's author when editing: the populated author's name, or the author object itself
      when the name is empty. */
  function EditAuthor(a: Author): (f: FormAuthor)
    ensures a.name != "" ==> f == AuthorName(a.name)
    ensures a.name == "" ==> f == AuthorObject(a)
  {
    if a.name != "" then AuthorName(a.name) else AuthorObject(a)
  }

  class MyBlogsPage {
    var blogs: seq<BlogCard>
    var open: bool
    var editMode: bool
    var currentBlogId: Option<Id>
    var form: BlogForm

    /** The first render, before the initial `fetchMyBlogs()` has answered. */
    constructor (stored: Option<UserData>)
      ensures blogs == [] && !open && !editMode && currentBlogId.None?
      ensures form == EmptyBlogForm(StoredName(stored))
    {
      blogs := [];
      open, editMode, currentBlogId := false, false, None;
      form := EmptyBlogForm(StoredName(stored));
    }

    /** `handleOpen(blog)`: with a blog, edit mode on that blog with its title, description and
        category copied, its author shown and no new image; without one, create mode and the
        empty form with the stored user's name (the previous `currentBlogId` is left as it was).
        Either way the dialog opens. The handler reads `blog.author.name`, so the blog's author
        must be populated. */
    method Open(blog: Option<BlogCard>, stored: Option<UserData>)
      requires blog.Some? ==> blog.value.author.Some?
      modifies this
      ensures open && blogs == old(blogs)
      ensures blog.Some? ==>
        var b := blog.value;
        && editMode && currentBlogId == Some(b.id)
        && form == BlogForm(b.title, EditAuthor(b.author.value), b.description, Some(b.category), None)
      ensures blog.None? ==>
        !editMode && currentBlogId == old(currentBlogId) && form == EmptyBlogForm(StoredName(stored))
    {
      if blog.Some? {
        var b := blog.value;
        editMode := true;
        currentBlogId := Some(b.id);
        form := BlogForm(b.title, EditAuthor(b.author.value), b.description, Some(b.category), None);
      } else {
        editMode := false;
        form := EmptyBlogForm(StoredName(stored));
      }
      open := true;
    }

    /** `handleClose`: the dialog closes and forgets the blog it was editing. */
    method Close()
      modifies this
      ensures !open && !editMode && currentBlogId.None?
      ensures form == old(form) && blogs == old(blogs)
    {
      open := false;
      editMode := false;
      currentBlogId := None;
    }

    /** `handleAddOrUpdateBlog`, where `outcome` is the answer of the create or update request.
        An incomplete form is refused before any request, and a failed request changes nothing.
        Otherwise the returned blog replaces the edited one (edit mode) or is put first (create
        mode), and the dialog closes; nothing is fetched again. */
    method Save(outcome: ApiOutcome<BlogCard>)
      modifies this
      ensures !BlogFormComplete(old(form)) || outcome.Failed? ==> unchanged(this)
      ensures BlogFormComplete(old(form)) && outcome.Succeeded? ==>
        && blogs == (if old(editMode) then SetById(old(blogs), CardId, old(currentBlogId), outcome.body)
                     else [outcome.body] + old(blogs))
        && !open && !editMode && currentBlogId.None? && form == old(form)
    {
      if !BlogFormComplete(form) || outcome.Failed? {
        return;
      }
      if editMode {
        blogs := SetById(blogs, CardId, currentBlogId, outcome.body);
      } else {
        blogs := [outcome.body] + blogs;
      }
      Close();
    }

    /** `handleDeleteBlog(id)`: once the delete succeeds, exactly the blogs with that id leave
        the list, the others keeping their order; a failed delete changes nothing. */
    method Delete(id: Id, outcome: ApiOutcome<()>)
      modifies this
      ensures outcome.Failed? ==> unchanged(this)
      ensures outcome.Succeeded? ==> blogs == RemoveById(old(blogs), CardId, id)
      ensures open == old(open) && editMode == old(editMode)
      ensures currentBlogId == old(currentBlogId) && form == old(form)
    {
      if outcome.Succeeded? {
        blogs := RemoveById(blogs, CardId, id);
      }
    }

    /** `handleImageError(blogId)`: that blog falls back to the placeholder image. */
    method ImageError(blogId: Id)
      modifies this
      ensures blogs == ImageFailed(old(blogs), blogId)
      ensures open == old(open) && editMode == old(editMode)
      ensures currentBlogId == old(currentBlogId) && form == old(form)
    {
      blogs := ImageFailed(blogs, blogId);
    }
  }
}
