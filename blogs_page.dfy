/** `Blogs.jsx`: the paginated list of every blog, with create, edit, delete and the image
    fallback. Each handler is the state change it makes once the API call it awaits has
    succeeded or failed; a fetch it starts is returned as a request, whose answer `ApplyFetch`
    applies when it arrives. */
module BlogsPage {
  import opened Common
  import opened AuthController
  import opened Session
  import opened ClientLists
  import BlogController

  /** The listing's page size, fixed by the server's default `limit`. */
  const PageSize: int := 6

  /** `fetchBlogs(search, page)`. */
  datatype FetchRequest = FetchRequest(search: string, page: int)

  /** What `getAllBlogs` resolves to; a field missing from the reply is `None`. */
  datatype ListResponse = ListResponse(
    blogs: Option<seq<BlogCard>>,
    totalPages: Option<int>,
    currentPage: Option<int>,
    totalBlogs: Option<int>)

  /** `n || fallback` on a number: a missing value and `0` both give the fallback. */
  function NumberOr(n: Option<int>, fallback: int): (r: int)
    ensures n.Some? && n.value != 0 ==> r == n.value
    ensures n.None? || n.value == 0 ==> r == fallback
    ensures (n.None? || n.value >= 0) && fallback >= 1 ==> r >= 1
  {
    if n.Some? && n.value != 0 then n.value else fallback
  }

  /** The page shown after a delete: one back when the deleted blog was the only one shown and
      this was not the first page, otherwise the same page. */
  function PageAfterDelete(shown: nat, page: int): (p: int)
    ensures p != page <==> shown == 1 && page > 1
    ensures p != page ==> p == page - 1
    ensures page >= 1 ==> p >= 1
  {
    if shown == 1 && page > 1 then page - 1 else page
  }

  /** If the page shown held the blogs of page `page` of a listing of `total` blogs, the page
      chosen after deleting one of them still exists in the listing of the `total - 1` left
      (unless none is left). */
  lemma DeleteKeepsPageInRange(total: int, page: int)
    requires page >= 1 && (page - 1) * PageSize < total
    ensures var p := PageAfterDelete(Min(PageSize, total - (page - 1) * PageSize), page);
      1 <= p && (total - 1 > 0 ==> p <= CeilDiv(total - 1, PageSize))
  {
    var r := CeilDiv(total - 1, PageSize);
    var shown := Min(PageSize, total - (page - 1) * PageSize);
    if total - 1 > 0 {
      if shown == 1 && page > 1 {
        assert total - 1 == (page - 1) * PageSize;
        assert (page - 1) * PageSize <= r * PageSize;
      } else {
        assert (page - 1) * PageSize < total - 1;
      }
    }
  }

  /** A blog created without an upload shows the placeholder whatever the API's address; one
      created with an upload `file` (a plain file name) is fetched from the API. */
  lemma CreatedImageSrc(file: Option<string>, apiUrl: string)
    ensures file.None? ==> ImageSrc(BlogController.ImageFor(file), apiUrl) == Placeholder
    ensures file.Some? && !IsPrefix("http", file.value) ==>
      ImageSrc(BlogController.ImageFor(file), apiUrl) == apiUrl + file.value
  {
    PlaceholderIsAbsolute(apiUrl);
  }

  class BlogsPage {
    var blogs: seq<BlogCard>
    var currentPage: int
    var totalPages: int
    var totalBlogs: int
    var searchTerm: string
    /** Whether the create / edit dialog is open. */
    var open: bool
    var editMode: bool
    var currentBlogId: Option<Id>
    var form: BlogForm

    /** The first render, before the initial `fetchBlogs()` has answered. */
    constructor (stored: Option<UserData>)
      ensures blogs == [] && currentPage == 1 && totalPages == 1 && totalBlogs == 0
      ensures searchTerm == "" && !open && !editMode && currentBlogId.None?
      ensures form == EmptyBlogForm(StoredName(stored))
    {
      blogs := [];
      currentPage, totalPages, totalBlogs := 1, 1, 0;
      searchTerm := "";
      open, editMode, currentBlogId := false, false, None;
      form := EmptyBlogForm(StoredName(stored));
    }

    /** The answer to `fetchBlogs` arrives: each missing field falls back to its default
        (`[]`, 1, 1, 0); a failed fetch leaves the state alone. A reply whose page numbers are
        not negative, as the server's are, keeps both page numbers at least 1. */
    method ApplyFetch(outcome: ApiOutcome<ListResponse>)
      modifies this
      ensures outcome.Failed? ==> unchanged(this)
      ensures outcome.Succeeded? ==>
        var resp := outcome.body;
        && blogs == (if resp.blogs.Some? then resp.blogs.value else [])
        && totalPages == NumberOr(resp.totalPages, 1)
        && currentPage == NumberOr(resp.currentPage, 1)
        && totalBlogs == NumberOr(resp.totalBlogs, 0)
        && searchTerm == old(searchTerm) && open == old(open) && editMode == old(editMode)
        && currentBlogId == old(currentBlogId) && form == old(form)
      ensures outcome.Succeeded? && (outcome.body.currentPage.None? || outcome.body.currentPage.value >= 0) ==>
        currentPage >= 1
      ensures outcome.Succeeded? && (outcome.body.totalPages.None? || outcome.body.totalPages.value >= 0) ==>
        totalPages >= 1
    {
      if outcome.Succeeded? {
        var resp := outcome.body;
        blogs := if resp.blogs.Some? then resp.blogs.value else [];
        totalPages := NumberOr(resp.totalPages, 1);
        currentPage := NumberOr(resp.currentPage, 1);
        totalBlogs := NumberOr(resp.totalBlogs, 0);
      }
    }

    /** `handleOpen(blog)`: with a blog, edit mode on that blog, its fields copied, the author
        shown by its name or else the stored user's, no new image; without one, create mode and
        the empty form (the previous `currentBlogId` is left as it was). Either way the dialog
        opens. */
    method Open(blog: Option<BlogCard>, stored: Option<UserData>)
      modifies this
      ensures open
      ensures blog.Some? ==>
        var b := blog.value;
        && editMode && currentBlogId == Some(b.id)
        && form == BlogForm(b.title,
                            AuthorName(if b.author.Some? && b.author.value.name != "" then b.author.value.name
                                       else StoredName(stored)),
                            b.description, Some(b.category), None)
      ensures blog.None? ==>
        !editMode && currentBlogId == old(currentBlogId) && form == EmptyBlogForm(StoredName(stored))
      ensures blogs == old(blogs) && currentPage == old(currentPage) && totalPages == old(totalPages)
      ensures totalBlogs == old(totalBlogs) && searchTerm == old(searchTerm)
    {
      if blog.Some? {
        var b := blog.value;
        editMode := true;
        currentBlogId := Some(b.id);
        var authorName := if b.author.Some? && b.author.value.name != "" then b.author.value.name
                          else StoredName(stored);
        form := BlogForm(b.title, AuthorName(authorName), b.description, Some(b.category), None);
      } else {
        editMode := false;
        form := EmptyBlogForm(StoredName(stored));
      }
      open := true;
    }

    /** `handleClose`: the dialog closes and forgets the blog it was editing. */
    method Close()
      modifies this
      ensures !open && !editMode && currentBlogId.None?
      ensures form == old(form) && blogs == old(blogs) && currentPage == old(currentPage)
      ensures totalPages == old(totalPages) && totalBlogs == old(totalBlogs) && searchTerm == old(searchTerm)
    {
      open := false;
      editMode := false;
      currentBlogId := None;
    }

    /** `handleAddOrUpdateBlog`, where `outcome` is the answer of the create or update request.
        An incomplete form is refused before any request, and a failed request changes nothing.
        Otherwise the returned blog replaces the edited one (edit mode) or is put first (create
        mode), the dialog closes and the current page is fetched again. */
    method Save(outcome: ApiOutcome<BlogCard>) returns (fetch: Option<FetchRequest>)
      modifies this
      ensures !BlogFormComplete(old(form)) || outcome.Failed? ==> unchanged(this) && fetch.None?
      ensures BlogFormComplete(old(form)) && outcome.Succeeded? ==>
        && blogs == (if old(editMode) then SetById(old(blogs), CardId, old(currentBlogId), outcome.body)
                     else [outcome.body] + old(blogs))
        && !open && !editMode && currentBlogId.None?
        && form == old(form) && currentPage == old(currentPage) && totalPages == old(totalPages)
        && totalBlogs == old(totalBlogs) && searchTerm == old(searchTerm)
        && fetch == Some(FetchRequest(old(searchTerm), old(currentPage)))
    {
      if !BlogFormComplete(form) {
        return None;
      }
      if outcome.Failed? {
        return None;
      }
      if editMode {
        blogs := SetById(blogs, CardId, currentBlogId, outcome.body);
      } else {
        blogs := [outcome.body] + blogs;
      }
      Close();
      fetch := Some(FetchRequest(searchTerm, currentPage));
    }

    /** `handleDeleteBlog(id)`, where `outcome` is the answer of the delete request. On success
        the blogs with that id leave the list, the total drops by one and the page count is
        recomputed from it (`ceil((total - 1) / 6)`, 0 once nothing is left); the page steps back
        when the deleted blog was the only one shown and this was not page 1, and that page is
        fetched. A failed delete changes nothing. */
    method Delete(id: Id, outcome: ApiOutcome<()>) returns (fetch: Option<FetchRequest>)
      modifies this
      ensures outcome.Failed? ==> unchanged(this) && fetch.None?
      ensures outcome.Succeeded? ==>
        && blogs == RemoveById(old(blogs), CardId, id)
        && totalBlogs == old(totalBlogs) - 1
        && totalPages == CeilDiv(old(totalBlogs) - 1, PageSize)
        && currentPage == PageAfterDelete(|old(blogs)|, old(currentPage))
        && fetch == Some(FetchRequest(old(searchTerm), currentPage))
        && searchTerm == old(searchTerm) && open == old(open) && editMode == old(editMode)
        && currentBlogId == old(currentBlogId) && form == old(form)
    {
      if outcome.Failed? {
        return None;
      }
      // `blogs` below is the list as rendered, before the filter has taken effect.
      var shown := |blogs|;
      blogs := RemoveById(blogs, CardId, id);
      var totalAfter := totalBlogs - 1;
      var newTotalPages := CeilDiv(totalAfter, PageSize);
      if shown == 1 && currentPage > 1 {
        currentPage := currentPage - 1;
        fetch := Some(FetchRequest(searchTerm, currentPage));
      } else {
        fetch := Some(FetchRequest(searchTerm, currentPage));
      }
      totalBlogs := totalAfter;
      totalPages := newTotalPages;
    }

    /** `handleImageError(blogId)`: that blog falls back to the placeholder image. */
    method ImageError(blogId: Id)
      modifies this
      ensures blogs == ImageFailed(old(blogs), blogId)
      ensures currentPage == old(currentPage) && totalPages == old(totalPages) && totalBlogs == old(totalBlogs)
      ensures searchTerm == old(searchTerm) && open == old(open) && editMode == old(editMode)
      ensures currentBlogId == old(currentBlogId) && form == old(form)
    {
      blogs := ImageFailed(blogs, blogId);
    }
  }
}
