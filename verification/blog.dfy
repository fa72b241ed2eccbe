/** The blog-post backend: `create`, `getPublished` and `getBySlug` over
    the `blogPosts` table. */
module Blog {
  import opened Wrappers
  import Store
  import Seqs

  /** The user fields of a `blogPosts` document. */
  datatype Post = Post(
    title: string,
    slug: string,
    excerpt: string,
    content: string,
    author: string,
    tags: seq<string>,
    imageUrl: Option<string>,
    isPublished: bool,
    publishedAt: Option<nat>)

  /** The arguments `create` accepts. */
  datatype PostArgs = PostArgs(
    title: string,
    slug: string,
    excerpt: string,
    content: string,
    author: string,
    tags: seq<string>,
    imageUrl: Option<string>,
    isPublished: bool)

  type Posts = Store.Table<Post>

  /** `create`: stores the arguments verbatim and stamps `publishedAt` with
      the clock reading `now` exactly when the post is created published.
      No check is made that the slug is unused. */
  function Create(t: Posts, a: PostArgs, now: nat): (res: (Posts, Store.Id))
    requires Store.Valid(t)
    ensures Store.Valid(res.0)
    ensures res.1 !in t.docs && res.1 in res.0.docs
    ensures var p := res.0.docs[res.1].value;
      && (p.publishedAt.Some? <==> a.isPublished)
      && (a.isPublished ==> p.publishedAt == Some(now))
      && p.title == a.title && p.slug == a.slug && p.excerpt == a.excerpt
      && p.content == a.content && p.author == a.author && p.tags == a.tags
      && p.imageUrl == a.imageUrl && p.isPublished == a.isPublished
    ensures forall id :: id in t.docs ==> id in res.0.docs && res.0.docs[id] == t.docs[id]
    ensures Store.Size(res.0) == Store.Size(t) + 1
  {
    var publishedAt := if a.isPublished then Some(now) else None;
    Store.Insert(t, Post(a.title, a.slug, a.excerpt, a.content, a.author, a.tags, a.imageUrl, a.isPublished, publishedAt), now)
  }

  predicate IsPublished(d: Store.Doc<Post>) {
    d.value.isPublished
  }

  /** `getPublished`: exactly the published posts, in the descending order
      of the table (most recently created first). */
  function GetPublished(t: Posts): (r: seq<Store.Doc<Post>>)
    requires Store.Valid(t)
    ensures Seqs.IsSubsequence(r, Store.Desc(t))
    ensures forall d :: d in r <==> d.id in t.docs && t.docs[d.id] == d && d.value.isPublished
  {
    Seqs.Filter(IsPublished, Store.Desc(t))
  }

  /** A post created unpublished never shows up in the published listing. */
  lemma CreateUnpublishedHidden(t: Posts, a: PostArgs, now: nat)
    requires Store.Valid(t) && !a.isPublished
    ensures GetPublished(Create(t, a, now).0) == GetPublished(t)
  {
    var p := Post(a.title, a.slug, a.excerpt, a.content, a.author, a.tags, a.imageUrl, a.isPublished, None);
    var (t', id) := Store.Insert(t, p, now);
    Store.DescAfterInsert(t, p, now);
    Seqs.FilterAppend(IsPublished, [Store.Doc(id, now, p)], Store.Desc(t));
  }

  /** A post created published heads the published listing. */
  lemma CreatePublishedFirst(t: Posts, a: PostArgs, now: nat)
    requires Store.Valid(t) && a.isPublished
    ensures var (t', id) := Create(t, a, now);
      GetPublished(t') == [t'.docs[id]] + GetPublished(t)
  {
    var p := Post(a.title, a.slug, a.excerpt, a.content, a.author, a.tags, a.imageUrl, a.isPublished, Some(now));
    var (t', id) := Store.Insert(t, p, now);
    Store.DescAfterInsert(t, p, now);
    Seqs.FilterAppend(IsPublished, [Store.Doc(id, now, p)], Store.Desc(t));
  }

  /** Why `getBySlug` can fail: `.unique()` throws when several posts match. */
  datatype QueryError = NotUnique

  /** The stored posts whose slug is exactly `slug`, newest first: what the
      `by_slug` index yields for that key. */
  function WithSlug(t: Posts, slug: string): (r: seq<Store.Doc<Post>>)
    requires Store.Valid(t)
    ensures forall d :: d in r <==> d.id in t.docs && t.docs[d.id] == d && d.value.slug == slug
    ensures Seqs.Distinct(r)
  {
    var all := Store.Desc(t);
    var r := Seqs.Filter((d: Store.Doc<Post>) => d.value.slug == slug, all);
    assert forall d :: d in r <==> d in all && d.value.slug == slug;
    Seqs.FilterDistinct((d: Store.Doc<Post>) => d.value.slug == slug, all);
    r
  }

  /** Number of stored posts whose slug is `slug`. */
  function SlugCount(t: Posts, slug: string): nat
    requires Store.Valid(t)
  {
    |WithSlug(t, slug)|
  }

  /** No post matches exactly when no stored post carries the slug. */
  lemma WithSlugEmpty(t: Posts, slug: string)
    requires Store.Valid(t)
    ensures WithSlug(t, slug) == [] <==> forall id :: id in t.docs ==> t.docs[id].value.slug != slug
  {
    var m := WithSlug(t, slug);
    if m != [] {
      assert m[0] in m;
    } else {
      forall id | id in t.docs ensures t.docs[id].value.slug != slug {
        assert t.docs[id].id == id;
        assert t.docs[id] !in m;
      }
    }
  }

  /** A single match is the only stored post with the slug. */
  lemma WithSlugSingle(t: Posts, slug: string)
    requires Store.Valid(t) && |WithSlug(t, slug)| == 1
    ensures forall id :: id in t.docs && t.docs[id].value.slug == slug ==> id == WithSlug(t, slug)[0].id
  {
    var m := WithSlug(t, slug);
    forall id | id in t.docs && t.docs[id].value.slug == slug ensures id == m[0].id {
      assert t.docs[id].id == id;
      assert t.docs[id] in m;
    }
  }

  /** `getBySlug`: the one post whose slug is exactly `slug`; nothing when no
      post has it; a thrown error when more than one has it. */
  function GetBySlug(t: Posts, slug: string): (r: Result<Option<Store.Doc<Post>>, QueryError>)
    requires Store.Valid(t)
    ensures r == Success(None) <==> forall id :: id in t.docs ==> t.docs[id].value.slug != slug
    ensures r.Failure? <==> SlugCount(t, slug) > 1
    ensures r.Success? && r.value.Some? ==>
      var d := r.value.value;
      && d.id in t.docs && t.docs[d.id] == d && d.value.slug == slug
      && forall id :: id in t.docs && t.docs[id].value.slug == slug ==> id == d.id
  {
    var matches := WithSlug(t, slug);
    WithSlugEmpty(t, slug);
    if |matches| == 0 then
      Success(None)
    else if |matches| == 1 then
      WithSlugSingle(t, slug);
      assert matches[0] in matches;
      Success(Some(matches[0]))
    else
      Failure(NotUnique)
  }

  /** `getBySlug` answers whenever at most one post carries the slug, and
      an unknown slug gives "absent", not an error. */
  lemma GetBySlugAnswers(t: Posts, slug: string)
    requires Store.Valid(t) && SlugCount(t, slug) <= 1
    ensures GetBySlug(t, slug).Success?
  {
  }

  /** Because `create` does not check slugs, publishing a second post under
      a slug already in use makes `getBySlug` on that slug throw. */
  lemma DuplicateSlugBreaksLookup(t: Posts, a: PostArgs, now: nat, existing: Store.Id)
    requires Store.Valid(t) && existing in t.docs && t.docs[existing].value.slug == a.slug
    ensures GetBySlug(Create(t, a, now).0, a.slug).Failure?
  {
  }
}
