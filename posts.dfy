/**
 * The post pages: listing every stored post, showing the creation form, and creating a post
 * from a submitted title and content on behalf of the signed-in principal.
 *
 * The post repository becomes the `posts` field; the flash attribute of a rejected request is
 * returned to the caller; the principal's name is passed in instead of being read from the
 * thread's security context.
 */
module Posts {
  import opened Wrappers
  import opened ScriptStrip

  /** A stored post; `author` is a copy of the creating principal's name. */
  datatype Post = Post(title: string, content: string, author: string)

  const EmptyFieldsError: string := "Title and Content cannot be empty"

  const PostsView: string := "posts"
  const CreateFormView: string := "createPost"
  const RedirectToCreateForm: string := "redirect:/posts/create"
  const RedirectToPosts: string := "redirect:/posts"

  /** A request field that is `null` (`None`) or empty. */
  predicate IsBlank(field: Option<string>)
  {
    field.None? || field.value == []
  }

  /** The validation applied to the raw fields, before any stripping. */
  predicate Accepted(title: Option<string>, content: Option<string>)
  {
    !IsBlank(title) && !IsBlank(content)
  }

  /** The post stored for accepted fields. */
  function Sanitized(title: string, content: string, author: string): (p: Post)
    ensures p.author == author
    ensures |p.title| <= |title| && |p.content| <= |content|
  {
    Post(StripScriptTags(title), StripScriptTags(content), author)
  }

  class PostController {
    /** Every post saved so far, in the order of saving. */
    var posts: seq<Post>

    constructor ()
      ensures posts == []
    {
      posts := [];
    }

    /** `GET /posts`: the whole store under the model attribute `posts`, and view `posts`. */
    method ListPosts() returns (listed: seq<Post>, view: string)
      ensures listed == posts && view == PostsView
    {
      listed := posts;
      view := PostsView;
    }

    /** `GET /posts/create`: the creation form. */
    method ShowCreateForm() returns (view: string)
      ensures view == CreateFormView
    {
      view := CreateFormView;
    }

    /**
     * `POST /posts/create`: rejects a null or empty field with a flash error; otherwise
     * strips the tags from both fields and appends one post written by `principal`.
     */
    method CreatePost(title: Option<string>, content: Option<string>, principal: string)
      returns (view: string, flash: Option<string>)
      modifies this
      ensures !Accepted(title, content) ==>
                posts == old(posts) && flash == Some(EmptyFieldsError) && view == RedirectToCreateForm
      ensures Accepted(title, content) ==>
                posts == old(posts) + [Sanitized(title.value, content.value, principal)]
                && flash == None && view == RedirectToPosts
    {
      if title.None? || title.value == [] || content.None? || content.value == [] {
        flash := Some(EmptyFieldsError);
        view := RedirectToCreateForm;
        return;
      }
      var t := title.value;
      var c := content.value;
      t := RemoveAll(RemoveAll(t, ScriptOpen), ScriptClose);
      c := RemoveAll(RemoveAll(c, ScriptOpen), ScriptClose);
      posts := posts + [Post(t, c, principal)];
      flash := None;
      view := RedirectToPosts;
    }
  }

  /**
   * Validation looks at the fields before stripping: a title that is nothing but `<script>`
   * is accepted and stored as the empty string.
   */
  lemma ScriptOnlyTitleStoredEmpty(title: string, content: string, author: string)
    requires title == "<script>" && content != []
    ensures Accepted(Some(title), Some(content))
    ensures Sanitized(title, content, author).title == []
  {
    DropsLeadingTag(ScriptOpen, []);
    assert ScriptOpen + [] == title;
  }

  /** Fields free of both tags are stored exactly as submitted. */
  lemma TagFreeFieldsStoredVerbatim(title: string, content: string, author: string)
    requires !Contains(title, ScriptOpen) && !Contains(title, ScriptClose)
    requires !Contains(content, ScriptOpen) && !Contains(content, ScriptClose)
    ensures Sanitized(title, content, author) == Post(title, content, author)
  {
    StripUnchangedIffTagFree(title);
    StripUnchangedIffTagFree(content);
  }
}
