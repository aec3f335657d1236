/** The list state the client pages keep between fetches: the records shown in the order shown,
    and the ways a handler edits that sequence once the server has answered. */
module ClientLists {
  import opened Common

  /** No two records share an id (a list as the server sends it). */
  predicate DistinctIds<T>(xs: seq<T>, idOf: T -> Id) {
    forall i, j :: 0 <= i < j < |xs| ==> idOf(xs[i]) != idOf(xs[j])
  }

  /** `prev.map(x => x._id === currentId ? updated : x)`, where `currentId` is `null` until a
      record is opened for editing: every record with that id becomes `updated`, every other
      record stays where it was, and with no current id nothing is replaced. */
  function SetById<T>(xs: seq<T>, idOf: T -> Id, currentId: Option<Id>, updated: T): (r: seq<T>)
    ensures |r| == |xs|
    ensures forall i :: 0 <= i < |xs| ==>
      r[i] == if currentId.Some? && idOf(xs[i]) == currentId.value then updated else xs[i]
  {
    if currentId.None? then xs else MapById(xs, idOf, currentId.value, (x: T) => updated)
  }

  /** With distinct ids, replacing the record at position `k` by id is replacing position `k`. */
  lemma SetByIdAt<T>(xs: seq<T>, idOf: T -> Id, k: nat, updated: T)
    requires DistinctIds(xs, idOf) && k < |xs|
    ensures SetById(xs, idOf, Some(idOf(xs[k])), updated) == xs[k := updated]
  {
    var r := SetById(xs, idOf, Some(idOf(xs[k])), updated);
    forall i | 0 <= i < |xs| ensures r[i] == xs[k := updated][i] {
      if i != k {
        assert i < k || k < i;
        assert idOf(xs[i]) != idOf(xs[k]);
      }
    }
  }

  /** Prepending a record whose id is new and then deleting it by id restores the list. */
  lemma PrependThenRemove<T>(xs: seq<T>, idOf: T -> Id, x: T)
    requires forall k :: 0 <= k < |xs| ==> idOf(xs[k]) != idOf(x)
    ensures RemoveById([x] + xs, idOf, idOf(x)) == xs
  {
    var p := (y: T) => idOf(y) != idOf(x);
    FilterAppend([x], xs, p);
    assert Filter([x], p) == [];
    assert RemoveById([x] + xs, idOf, idOf(x)) == Filter([x] + xs, p);
  }

  /** Appending a record whose id is new and then deleting it by id restores the list. */
  lemma AppendThenRemove<T>(xs: seq<T>, idOf: T -> Id, x: T)
    requires forall k :: 0 <= k < |xs| ==> idOf(xs[k]) != idOf(x)
    ensures RemoveById(xs + [x], idOf, idOf(x)) == xs
  {
    var p := (y: T) => idOf(y) != idOf(x);
    FilterAppend(xs, [x], p);
    assert Filter([x], p) == [];
    assert RemoveById(xs + [x], idOf, idOf(x)) == Filter(xs + [x], p);
  }

  /** A populated author: `{ _id, name }`. */
  datatype Author = Author(id: Id, name: string)

  /** A blog as the client receives it: `author` populated (or `null` once that user is gone),
      `category` populated, so `category._id` is its id, and `image` the stored image text. */
  datatype BlogCard = BlogCard(
    id: Id,
    title: string,
    description: string,
    category: Id,
    author: Option<Author>,
    image: string)

  function CardId(c: BlogCard): Id { c.id }

  /** The blog form's `author` field: a name, or (in `MyBlogs.jsx`) the author object itself
      when it has no name. The field is only shown; the request carries the stored user's id. */
  datatype FormAuthor = AuthorName(name: string) | AuthorObject(author: Author)

  /** `newBlog`: `category` is the selected category's id or `''` (`None`), `image` the chosen
      file's name or `null` (`None`). */
  datatype BlogForm = BlogForm(
    title: string,
    author: FormAuthor,
    description: string,
    category: Option<Id>,
    image: Option<string>)

  /** The empty form, with the author pre-filled from the stored user's name. */
  function EmptyBlogForm(storedName: string): (f: BlogForm)
    ensures f.title == "" && f.description == "" && f.category.None? && f.image.None?
    ensures f.author == AuthorName(storedName)
  {
    BlogForm("", AuthorName(storedName), "", None, None)
  }

  /** `!newBlog.title || !newBlog.description || !newBlog.category` is false: the form may be
      sent. */
  predicate BlogFormComplete(f: BlogForm) {
    f.title != "" && f.description != "" && f.category.Some?
  }

  /** The card's image after `onError`: the placeholder, every other field kept. */
  function WithPlaceholder(c: BlogCard): (r: BlogCard)
    ensures r.image == Placeholder
    ensures r.id == c.id && r.title == c.title && r.description == c.description
    ensures r.category == c.category && r.author == c.author
  {
    c.(image := Placeholder)
  }

  /** `handleImageError(blogId)`: the blogs carrying that id show the placeholder; nothing else
      changes. Doing it again changes nothing more. */
  function ImageFailed(blogs: seq<BlogCard>, blogId: Id): (r: seq<BlogCard>)
    ensures |r| == |blogs|
    ensures forall i :: 0 <= i < |blogs| ==>
      r[i] == if blogs[i].id == blogId then WithPlaceholder(blogs[i]) else blogs[i]
  {
    MapById(blogs, CardId, blogId, WithPlaceholder)
  }

  /** A second image error on the same blog leaves the list as the first one left it. */
  lemma ImageFailedIdempotent(blogs: seq<BlogCard>, blogId: Id)
    ensures ImageFailed(ImageFailed(blogs, blogId), blogId) == ImageFailed(blogs, blogId)
  {
    var once := ImageFailed(blogs, blogId);
    var twice := ImageFailed(once, blogId);
    forall i | 0 <= i < |blogs| ensures twice[i] == once[i] {
      if blogs[i].id == blogId {
        assert once[i] == WithPlaceholder(blogs[i]);
        assert WithPlaceholder(once[i]) == once[i];
      }
    }
  }

  /** The card's `image` source: an absolute `http…` address is used as is, anything else (an
      uploaded file's name) is taken relative to the API's address `apiUrl`. */
  function ImageSrc(image: string, apiUrl: string): (src: string)
    ensures IsPrefix("http", image) ==> src == image
    ensures !IsPrefix("http", image) ==> src == apiUrl + image
  {
    if IsPrefix("http", image) then image else apiUrl + image
  }

  /** The placeholder is an absolute address: once a card falls back to it, its source no
      longer depends on the API's address. */
  lemma PlaceholderIsAbsolute(apiUrl: string)
    ensures ImageSrc(Placeholder, apiUrl) == Placeholder
  {
    assert Placeholder[..4] == "http";
  }
}
