/** What a lookup by tags (`FindbyTags`, bookmarks/lib.go:51-62) returns,
    as a function of the tag index, and what that means for the entries. */
module Queries {
  import opened Entries
  import opened Indices

  /** The lists of the requested tags, concatenated in request order; a tag
      without a list contributes nothing. */
  function TagLookup(m: map<string, seq<Bookmark>>, tags: seq<string>): seq<Bookmark>
  {
    if tags == [] then []
    else TagLookup(m, tags[..|tags| - 1]) + Get(m, tags[|tags| - 1])
  }

  /** How many (requested tag, carried tag) pairs of `tags` and `carried`
      are equal: the number of times a stored entry carrying `carried` is
      returned when `tags` are requested. */
  function Hits(carried: seq<string>, tags: seq<string>): nat
  {
    if tags == [] then 0
    else Hits(carried, tags[..|tags| - 1]) + multiset(carried)[tags[|tags| - 1]]
  }

  /** Every member of the list of a requested tag is in the lookup. */
  lemma {:induction false} TagLookupContains(m: map<string, seq<Bookmark>>, tags: seq<string>, k: nat)
    requires k < |tags|
    ensures forall x :: x in Get(m, tags[k]) ==> x in TagLookup(m, tags)
    decreases |tags|
  {
    if k < |tags| - 1 {
      var p := tags[..|tags| - 1];
      assert p[k] == tags[k];
      TagLookupContains(m, p, k);
    }
  }

  /** The lookup of a prefix extended by one tag. */
  lemma {:induction false} TagLookupSnoc(m: map<string, seq<Bookmark>>, tags: seq<string>, k: nat)
    requires k < |tags|
    ensures TagLookup(m, tags[..k + 1]) == TagLookup(m, tags[..k]) + Get(m, tags[k])
  {
    assert tags[..k + 1][..k] == tags[..k];
  }

  /** `Hits` is positive exactly when some requested tag is carried. */
  lemma {:induction false} HitsPositive(carried: seq<string>, tags: seq<string>)
    ensures Hits(carried, tags) > 0 <==> exists t :: t in tags && t in carried
  {
    if tags != [] {
      var p, t := tags[..|tags| - 1], tags[|tags| - 1];
      assert tags == p + [t];
      HitsPositive(carried, p);
      if Hits(carried, tags) > 0 {
        if Hits(carried, p) > 0 {
          var u :| u in p && u in carried;
          assert u in tags;
        } else {
          assert t in carried;
        }
      }
      if exists u :: u in tags && u in carried {
        var u :| u in tags && u in carried;
        if u != t {
          assert u in p;
        }
      }
    }
  }

  /** Over a tag index that agrees with `s`, the lookup returns each entry
      as often as it is stored times the number of matching tag pairs. */
  lemma {:induction false} TagLookupCount(m: map<string, seq<Bookmark>>, s: seq<Bookmark>, tags: seq<string>, e: Bookmark)
    requires TagConsistent(m, s)
    ensures multiset(TagLookup(m, tags))[e] == multiset(s)[e] * Hits(e.tags, tags)
  {
    if tags != [] {
      var p, t := tags[..|tags| - 1], tags[|tags| - 1];
      var a, h, c := multiset(s)[e], Hits(e.tags, p), multiset(e.tags)[t];
      var x, y := multiset(TagLookup(m, p))[e], multiset(Get(m, t))[e];
      assert x == a * h by {
        TagLookupCount(m, s, p, e);
      }
      assert y == a * c by {
        OccurrencesCount(s, t, e);
      }
      assert multiset(TagLookup(m, tags))[e] == x + y;
      assert Hits(e.tags, tags) == h + c;
      Distribute(a, h, c);
    }
  }

  lemma {:induction false} Distribute(a: nat, b: nat, c: nat)
    ensures a * b + a * c == a * (b + c)
  {
  }

  /** Over a tag index that agrees with `s`, the lookup returns exactly the
      stored entries that carry at least one requested tag. */
  lemma {:induction false} TagLookupMembers(m: map<string, seq<Bookmark>>, s: seq<Bookmark>, tags: seq<string>, e: Bookmark)
    requires TagConsistent(m, s)
    ensures e in TagLookup(m, tags) <==> e in s && exists t :: t in tags && t in e.tags
  {
    TagLookupCount(m, s, tags, e);
    HitsPositive(e.tags, tags);
    MulPos(multiset(s)[e], Hits(e.tags, tags));
  }

  /** `TagLookupMembers` for every entry at once. */
  lemma {:induction false} TagLookupSelects(m: map<string, seq<Bookmark>>, s: seq<Bookmark>, tags: seq<string>)
    requires TagConsistent(m, s)
    ensures forall e :: e in TagLookup(m, tags) <==> e in s && exists t :: t in tags && t in e.tags
  {
    forall e ensures e in TagLookup(m, tags) <==> e in s && exists t :: t in tags && t in e.tags {
      TagLookupMembers(m, s, tags, e);
    }
  }
}
