/** A short session against a fresh store: add, add under a taken name,
    look up by tag, delete, look up again. */
module Scenario {
  import opened Entries
  import opened Indices
  import opened Queries
  import opened Deletion
  import opened Bookmarks

  /** The one list a one-entry slice gives a tag the entry carries once. */
  lemma {:induction false} SoleListUnder(m: map<string, seq<Bookmark>>, e: Bookmark, t: string)
    requires TagConsistent(m, [e]) && multiset(e.tags)[t] == 1
    ensures Get(m, t) == [e]
  {
    assert [e][..0] == [];
    assert Occurrences([e], t) == [e];
    var l := Get(m, t);
    assert multiset(l) == multiset{e};
    assert |l| == 1;
    assert l[0] in multiset(l);
  }

  /** The lookup of one tag is that tag's list. */
  lemma {:induction false} LookupOne(m: map<string, seq<Bookmark>>, t: string)
    ensures TagLookup(m, [t]) == Get(m, t)
  {
    assert [t][..0] == [];
  }

  /** `blog` is added to a fresh store. */
  method AddBlog(now: int) returns (store: Store, blog: Bookmark, size1: nat)
    ensures fresh(store) && fresh(blog)
    ensures store.Valid() && store.entries == [blog]
    ensures blog.name == "blog" && blog.url == "https://x.io" && blog.tags == ["tech", "personal"]
    ensures blog.views == 0 && size1 == 1
  {
    store := new Store();
    blog := NewBookmark("blog", "https://x.io", ["tech", "personal"], now);
    var _ := store.Add(blog);
    size1 := store.Size();
  }

  /** A second entry named `blog` is refused; the name check counts a view
      of the stored one. */
  method AddBlogAgain(store: Store, blog: Bookmark, now: int) returns (st2: Status, size2: nat)
    requires store.Valid() && store.entries == [blog] && blog.name == "blog"
    modifies store, blog
    ensures store.Valid() && store.entries == [blog] && blog.views == old(blog.views) + 1
    ensures st2 == AlreadyExists("blog") && size2 == 1
  {
    var other := NewBookmark("blog", "https://y.io", ["other"], now);
    st2 := store.Add(other);
    size2 := store.Size();
  }

  /** A lookup of tag `tech` returns `blog` and counts a view. */
  method LookupTech(store: Store, blog: Bookmark) returns (hits: seq<Bookmark>)
    requires store.Valid() && store.entries == [blog] && blog.tags == ["tech", "personal"]
    modifies blog
    ensures hits == [blog] && blog.views == old(blog.views) + 1
  {
    assert multiset(blog.tags)["tech"] == 1;
    SoleListUnder(store.tagIndex, blog, "tech");
    LookupOne(store.tagIndex, "tech");
    hits := store.FindbyTags(["tech"]);
    assert multiset(hits)[blog] == 1;
  }

  /** The source's removal of `blog`, whose tags are distinct and whose URL
      no other entry carries, succeeds and leaves a consistent empty store. */
  method DeleteBlog(store: Store, blog: Bookmark) returns (st3: Status)
    requires store.Valid() && store.entries == [blog]
    requires blog.name == "blog" && blog.tags == ["tech", "personal"]
    modifies store, blog
    ensures st3 == Ok && store.Valid() && store.entries == []
  {
    assert DistinctTags(blog.tags);
    assert UrlUnshared(store.entries, 0);
    st3 := store.DeleteBookmark("blog");
  }

  /** In a consistent empty store neither the name `blog` nor the tag `tech`
      finds anything. */
  method LookupGone(store: Store) returns (found: Bookmark?, after: seq<Bookmark>)
    requires store.Valid() && store.entries == []
    modifies store
    ensures found == null && after == []
  {
    var _, f := store.Find("blog");
    found := f;
    LookupOne(store.tagIndex, "tech");
    assert "tech" !in store.tagIndex;
    after := store.FindbyTags(["tech"]);
  }

  /** The session `blog` / duplicate `blog` / tag `tech` / delete `blog`:
      the second add is refused but its name check counts a view of the
      stored entry, so the tag lookup leaves that entry with two views; after
      the delete the name is gone and the tag yields nothing. */
  method BlogSession(now: int)
    returns (size1: nat, st2: Status, size2: nat, hits: seq<Bookmark>, views: int,
             st3: Status, found: Bookmark?, after: seq<Bookmark>)
    ensures size1 == 1 && st2 == AlreadyExists("blog") && size2 == 1
    ensures |hits| == 1 && hits[0].name == "blog" && views == 2
    ensures st3 == Ok && found == null && after == []
  {
    var store, blog;
    store, blog, size1 := AddBlog(now);
    st2, size2 := AddBlogAgain(store, blog, now);
    hits := LookupTech(store, blog);
    views := blog.views;
    st3 := DeleteBlog(store, blog);
    found, after := LookupGone(store);
  }

  /** Two lookups of tag `x` on an entry tagged `x` once count two views
      (the creation time is a constant of the entry). */
  method TagTwice(store: Store, e: Bookmark) returns (first: seq<Bookmark>, second: seq<Bookmark>)
    requires store.Valid() && store.entries == [e] && e.tags == ["x"]
    modifies e
    ensures first == [e] && second == [e]
    ensures e.views == old(e.views) + 2
  {
    assert multiset(e.tags)["x"] == 1;
    SoleListUnder(store.tagIndex, e, "x");
    LookupOne(store.tagIndex, "x");
    first := store.FindbyTags(["x"]);
    assert multiset(first)[e] == 1;
    second := store.FindbyTags(["x"]);
    assert multiset(second)[e] == 1;
  }
}
