/** A bookmark record and its factory.

    The name, URL, tags and creation time of a bookmark are fixed once it
    is built (nothing in the store writes them afterwards), so they are
    `const` fields and the index functions can read them without a frame.
    The view counter and the access time are the only fields that change in
    place, through whichever pointer to the record a caller holds. */
module Entries {

  /** A value copy of a bookmark, as `Dump` hands it out. */
  datatype Record = Record(name: string, tags: seq<string>, url: string,
                           created: int, accessed: int, views: int)

  class Bookmark {
    const name: string
    const tags: seq<string>
    const url: string
    const created: int
    var accessed: int
    var views: int

    /** The struct literal: every field given explicitly. */
    constructor (name: string, url: string, tags: seq<string>,
                 created: int, accessed: int, views: int)
      ensures this.name == name && this.url == url && this.tags == tags
      ensures this.created == created && this.accessed == accessed && this.views == views
    {
      this.name := name;
      this.url := url;
      this.tags := tags;
      this.created := created;
      this.accessed := accessed;
      this.views := views;
    }

    /** The record's current value, as a copy that later updates do not reach. */
    function Value(): (r: Record)
      reads this
    {
      Record(name, tags, url, created, accessed, views)
    }

    /** Records one more visit at time `now`; it never fails. */
    method Update(now: int) returns (ok: bool)
      modifies this
      ensures ok
      ensures views == old(views) + 1 && accessed == now
    {
      views := views + 1;
      accessed := now;
      ok := true;
    }
  }

  /** A fresh bookmark created at `now`, never accessed and never viewed,
      holding its own copy of `tags`. */
  method NewBookmark(name: string, url: string, tags: seq<string>, now: int)
    returns (b: Bookmark)
    ensures fresh(b)
    ensures b.name == name && b.url == url && b.tags == tags
    ensures b.created == now && b.accessed == 0 && b.views == 0
  {
    b := new Bookmark(name, url, tags, now, 0, 0);
  }
}
