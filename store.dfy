/** The bookmark database (bookmarks/lib.go): a slice of shared bookmark
    records, the canonical state, and three indices derived from it, by
    name, by URL and by tag. The indices are package-level variables in the
    source; here they are fields of the one store that uses them. */
module Bookmarks {
  import opened Entries
  import opened Indices
  import opened Deletion
  import opened Queries

  /** The outcome of an operation that can fail. `IndexOutOfRange` is the
      run-time panic the source's tag loop in `DeleteBookmark` can raise;
      the store is left as it was at the panic. */
  datatype Status = Ok | NoSuchRecord(name: string) | AlreadyExists(name: string) | IndexOutOfRange

  /** Of the entries `s`, the one at position `i` (if any) gained one view
      since the old state; no other view count and no access time changed.
      This is what the name lookup at the start of `Add` and
      `DeleteBookmark` does to the entries. */
  twostate predicate ViewedOnly(s: seq<Bookmark>, i: int)
    reads set e | e in s
  {
    forall e :: e in s ==>
      e.views == old(e.views) + (if 0 <= i < |s| && e == s[i] then 1 else 0) && e.accessed == old(e.accessed)
  }

  class Store {
    var entries: seq<Bookmark>
    var nameIndex: map<string, Bookmark>
    var urlIndex: map<string, Bookmark>
    var tagIndex: map<string, seq<Bookmark>>

    /** The store invariant: names are unique and every index agrees with
        the slice. */
    ghost predicate Valid()
      reads this
    {
      Consistent(entries, nameIndex, urlIndex, tagIndex)
    }

    /** The indices are exactly what `rebuildIndex` computes from the slice. */
    ghost predicate Rebuilt()
      reads this
    {
      && nameIndex == IndexBy(entries, ByName)
      && urlIndex == IndexBy(entries, ByUrl)
      && tagIndex == TagIndexOf(entries)
    }

    /** `NewDB` with fresh, empty indices. */
    constructor ()
      ensures entries == [] && nameIndex == map[] && urlIndex == map[] && tagIndex == map[]
      ensures Valid() && Rebuilt()
    {
      entries := [];
      nameIndex := map[];
      urlIndex := map[];
      tagIndex := map[];
    }

    /** The number of stored entries. */
    function Size(): (n: nat)
      reads this
      ensures Valid() ==> n == |nameIndex|
    {
      DistinctNamesCount(entries);
      |entries|
    }

    /** The entry stored under `url` in the URL index, or null. */
    function FindURL(url: string): (r: Bookmark?)
      reads this
      ensures Valid() ==> (r != null <==> exists e :: e in entries && e.url == url)
      ensures Valid() && r != null ==> r in entries && r.url == url
      ensures Rebuilt() ==> r == (var j := LastIndex(entries, url, ByUrl); if j == -1 then null else entries[j])
    {
      IndexByIsLastWriter(entries, ByUrl);
      if url in urlIndex then urlIndex[url] else null
    }

    /** The linear scan for the first entry named `name`; a hit counts as a
        view of that entry. The scan agrees with the name index. */
    method Find(name: string) returns (i: int, b: Bookmark?)
      modifies entries
      ensures i == FirstIndex(entries, name)
      ensures i == -1 <==> b == null
      ensures 0 <= i ==> b == entries[i] && b.views == old(b.views) + 1
      ensures forall e :: e in entries && e != b ==> e.views == old(e.views)
      ensures forall e :: e in entries ==> e.accessed == old(e.accessed)
      ensures Valid() ==> (b != null <==> name in nameIndex) && (b != null ==> nameIndex[name] == b)
    {
      i := 0;
      while i < |entries|
        invariant 0 <= i <= |entries|
        invariant forall j :: 0 <= j < i ==> entries[j].name != name
      {
        if entries[i].name == name {
          b := entries[i];
          b.views := b.views + 1;
          if Valid() {
            FoundInNameIndex(i, name);
          }
          return;
        }
        i := i + 1;
      }
      i, b := -1, null;
    }

    /** Under the invariant the name index leads a stored name to the entry
        carrying it. */
    lemma {:induction false} FoundInNameIndex(i: nat, name: string)
      requires Valid() && i < |entries| && entries[i].name == name
      ensures name in nameIndex && nameIndex[name] == entries[i]
    {
      assert entries[i] in entries;
      assert name in KeysOf(entries, ByName);
      var e := nameIndex[name];
      var k :| 0 <= k < |entries| && entries[k] == e;
    }

    /** Every entry listed under one of `tags`, tag by tag in request order;
        each hit counts as a view of the entry. */
    method FindbyTags(tags: seq<string>) returns (r: seq<Bookmark>)
      modifies set e | e in TagLookup(tagIndex, tags)
      ensures r == TagLookup(tagIndex, tags)
      ensures forall e: Bookmark :: old(allocated(e)) ==>
        e.views == old(e.views) + multiset(r)[e] && e.accessed == old(e.accessed)
      ensures Valid() ==> forall e :: e in r <==> e in entries && exists t :: t in tags && t in e.tags
    {
      r := [];
      var k := 0;
      while k < |tags|
        invariant 0 <= k <= |tags|
        invariant r == TagLookup(tagIndex, tags[..k])
        invariant forall e: Bookmark :: old(allocated(e)) ==>
          e.views == old(e.views) + multiset(r)[e] && e.accessed == old(e.accessed)
      {
        var list := Get(tagIndex, tags[k]);
        TagLookupContains(tagIndex, tags, k);
        ghost var r0 := r;
        r := VisitAll(list, r);
        assert multiset(r) == multiset(r0) + multiset(list);
        TagLookupSnoc(tagIndex, tags, k);
        k := k + 1;
      }
      assert tags[..k] == tags;
      if Valid() {
        TagLookupSelects(tagIndex, entries, tags);
      }
    }

    /** The inner loop of `FindbyTags`: appends the members of one tag's list
        to `r`, counting a view of each. */
    static method VisitAll(list: seq<Bookmark>, r0: seq<Bookmark>) returns (r: seq<Bookmark>)
      modifies set e | e in list
      ensures r == r0 + list
      ensures forall e: Bookmark :: old(allocated(e)) ==>
        e.views == old(e.views) + multiset(list)[e] && e.accessed == old(e.accessed)
    {
      r := r0;
      var j := 0;
      while j < |list|
        invariant 0 <= j <= |list|
        invariant r == r0 + list[..j]
        invariant forall e: Bookmark :: old(allocated(e)) ==>
          e.views == old(e.views) + multiset(list[..j])[e] && e.accessed == old(e.accessed)
      {
        var b := list[j];
        assert list[..j + 1] == list[..j] + [b];
        b.views := b.views + 1;
        r := r + [b];
        j := j + 1;
      }
      assert list[..j] == list;
    }

    /** Recomputes the three indices from the slice. */
    method RebuildIndex()
      modifies this
      ensures entries == old(entries)
      ensures Rebuilt()
      ensures DistinctNames(entries) ==> Valid()
      ensures old(Rebuilt()) ==>
        nameIndex == old(nameIndex) && urlIndex == old(urlIndex) && tagIndex == old(tagIndex)
    {
      urlIndex := map[];
      nameIndex := map[];
      tagIndex := map[];
      var i := 0;
      while i < |entries|
        invariant 0 <= i <= |entries| && entries == old(entries)
        invariant nameIndex == IndexBy(entries[..i], ByName)
        invariant urlIndex == IndexBy(entries[..i], ByUrl)
        invariant tagIndex == TagIndexOf(entries[..i])
      {
        var b := entries[i];
        assert entries[..i + 1] == entries[..i] + [b];
        AddExtendsRebuild(entries[..i], b, ByName);
        AddExtendsRebuild(entries[..i], b, ByUrl);
        nameIndex := nameIndex[b.name := b];
        urlIndex := urlIndex[b.url := b];
        AppendTagLoop(b);
        i := i + 1;
      }
      assert entries[..i] == entries;
      if DistinctNames(entries) {
        RebuildIsConsistent(entries);
      }
    }

    /** Appends `b` to the list of each of its tags, in order (the tag loops
        of `rebuildIndex` and `Add`). */
    method AppendTagLoop(b: Bookmark)
      modifies this
      ensures entries == old(entries) && nameIndex == old(nameIndex) && urlIndex == old(urlIndex)
      ensures tagIndex == AppendTags(old(tagIndex), b, b.tags)
    {
      var j := 0;
      while j < |b.tags|
        invariant 0 <= j <= |b.tags|
        invariant entries == old(entries) && nameIndex == old(nameIndex) && urlIndex == old(urlIndex)
        invariant tagIndex == AppendTags(old(tagIndex), b, b.tags[..j])
      {
        var t := b.tags[j];
        assert b.tags[..j + 1][..j] == b.tags[..j];
        tagIndex := tagIndex[t := Get(tagIndex, t) + [b]];
        j := j + 1;
      }
      assert b.tags[..j] == b.tags;
    }

    /** Adds `b` unless an entry of that name exists (whose lookup counts as
        a view); the indices are updated in place rather than rebuilt. */
    method Add(b: Bookmark) returns (st: Status)
      modifies this, entries
      ensures ViewedOnly(old(entries), old(FirstIndex(entries, b.name)))
      ensures old(FirstIndex(entries, b.name)) >= 0 ==>
        && st == AlreadyExists(b.name)
        && entries == old(entries) && nameIndex == old(nameIndex)
        && urlIndex == old(urlIndex) && tagIndex == old(tagIndex)
      ensures old(FirstIndex(entries, b.name)) == -1 ==>
        && st == Ok
        && entries == old(entries) + [b]
        && nameIndex == old(nameIndex)[b.name := b]
        && urlIndex == old(urlIndex)[b.url := b]
        && tagIndex == AppendTags(old(tagIndex), b, b.tags)
      ensures old(Valid()) ==> Valid()
      ensures old(Rebuilt()) ==> Rebuilt()
    {
      var _, found := Find(b.name);
      if found != null {
        return AlreadyExists(b.name);
      }
      ghost var s0, n0, u0, t0 := entries, nameIndex, urlIndex, tagIndex;
      entries := entries + [b];
      AppendTagLoop(b);
      urlIndex := urlIndex[b.url := b];
      nameIndex := nameIndex[b.name := b];
      st := Ok;
      if Consistent(s0, n0, u0, t0) {
        AddKeepsConsistent(s0, n0, u0, t0, b);
      }
      AddExtendsRebuild(s0, b, ByName);
      AddExtendsRebuild(s0, b, ByUrl);
    }

    /** Removes the entry named `name` the way the source does (its lookup
        counts as a view): the slice loses it by swap-with-head, the name
        and URL indices lose its keys, and each of its tags' lists is swept.
        The sweep stops with `IndexOutOfRange` where the source panics. */
    method DeleteBookmark(name: string) returns (st: Status)
      modifies this, entries
      ensures ViewedOnly(old(entries), old(FirstIndex(entries, name)))
      ensures old(FirstIndex(entries, name)) == -1 ==>
        && st == NoSuchRecord(name)
        && entries == old(entries) && nameIndex == old(nameIndex)
        && urlIndex == old(urlIndex) && tagIndex == old(tagIndex)
      ensures var i := old(FirstIndex(entries, name));
        i >= 0 ==>
          var b := old(entries)[i];
          var w := RemoveTagsAsWritten(old(tagIndex), b.tags, name);
          && entries == RemoveAt(old(entries), i)
          && nameIndex == old(nameIndex) - {name}
          && urlIndex == old(urlIndex) - {b.url}
          && tagIndex == w.0
          && st == (if w.1 then IndexOutOfRange else Ok)
      ensures var i := old(FirstIndex(entries, name));
        old(Valid()) && i >= 0 && DistinctTags(old(entries)[i].tags) && old(UrlUnshared(entries, i)) ==>
          st == Ok && Valid()
    {
      var i, b := Find(name);
      if b == null {
        return NoSuchRecord(name);
      }
      st := Unlink(i, b);
    }

    /** The part of `DeleteBookmark` after the lookup found `b` at `i`. */
    method Unlink(i: int, b: Bookmark) returns (st: Status)
      requires 0 <= i < |entries| && entries[i] == b
      modifies this
      ensures var w := RemoveTagsAsWritten(old(tagIndex), b.tags, b.name);
        && entries == RemoveAt(old(entries), i)
        && nameIndex == old(nameIndex) - {b.name}
        && urlIndex == old(urlIndex) - {b.url}
        && tagIndex == w.0
        && st == (if w.1 then IndexOutOfRange else Ok)
      ensures old(Valid()) && DistinctTags(b.tags) && old(UrlUnshared(entries, i)) ==>
          st == Ok && Valid()
    {
      ghost var s0, n0, u0, t0 := entries, nameIndex, urlIndex, tagIndex;
      if Consistent(s0, n0, u0, t0) && DistinctTags(b.tags) && UrlUnshared(s0, i) {
        DeleteAsWrittenKeepsConsistent(s0, n0, u0, t0, i);
      }
      entries := entries[i := entries[0]][1..];
      nameIndex := nameIndex - {b.name};
      urlIndex := urlIndex - {b.url};
      var k := 0;
      while k < |b.tags|
        invariant 0 <= k <= |b.tags|
        invariant entries == RemoveAt(s0, i) && nameIndex == n0 - {b.name} && urlIndex == u0 - {b.url}
        invariant RemoveTagsAsWritten(t0, b.tags, b.name) == RemoveTagsAsWritten(tagIndex, b.tags[k..], b.name)
      {
        assert b.tags[k..][1..] == b.tags[k + 1..];
        var panicked := SweepTag(b.tags[k], b.name);
        if panicked {
          return IndexOutOfRange;
        }
        k := k + 1;
      }
      assert b.tags[k..] == [];
      st := Ok;
    }

    /** One pass of the source's tag loop over tag `t`: a list of length one
        loses its key; otherwise the list is swept, sharing its backing
        array with the loop's copy, and the sweep panics where the source
        indexes past the shortened list. */
    method SweepTag(t: string, name: string) returns (panicked: bool)
      modifies this
      ensures entries == old(entries) && nameIndex == old(nameIndex) && urlIndex == old(urlIndex)
      ensures (tagIndex, panicked) == StepAsWritten(old(tagIndex), t, name)
    {
      var list := Get(tagIndex, t);
      if |list| == 1 {
        tagIndex := tagIndex - {t};
        return false;
      }
      ghost var m := tagIndex;
      var arr, off := list, 0;
      var k := 0;
      while k < |list|
        invariant off <= k <= |list| && |arr| == |list|
        invariant SweepFrom(arr, off, k, name) == SweepFrom(list, 0, 0, name)
        invariant tagIndex == if off == 0 then m else m[t := arr[off..]]
        invariant entries == old(entries) && nameIndex == old(nameIndex) && urlIndex == old(urlIndex)
      {
        if arr[k].name == name {
          if off + k >= |arr| {
            return true;
          }
          arr := arr[off + k := arr[off]];
          off := off + 1;
          tagIndex := tagIndex[t := arr[off..]];
        }
        k := k + 1;
      }
      panicked := false;
    }

    /** The intended removal of the entry named `name`: as the source, except
        that each tag's list loses only its first member of that name and
        the URL key is kept, leading to the last remaining entry carrying
        the URL, when one does. It keeps the store invariant. */
    method DeleteBookmarkFixed(name: string) returns (st: Status)
      modifies this, entries
      ensures ViewedOnly(old(entries), old(FirstIndex(entries, name)))
      ensures old(FirstIndex(entries, name)) == -1 ==>
        && st == NoSuchRecord(name)
        && entries == old(entries) && nameIndex == old(nameIndex)
        && urlIndex == old(urlIndex) && tagIndex == old(tagIndex)
      ensures var i := old(FirstIndex(entries, name));
        i >= 0 ==>
          var b := old(entries)[i];
          && st == Ok
          && entries == RemoveAt(old(entries), i)
          && nameIndex == old(nameIndex) - {name}
          && urlIndex == RepointUrl(old(urlIndex), entries, b.url)
          && tagIndex == RemoveTagsFixed(old(tagIndex), b.tags, name)
      ensures old(Valid()) ==> Valid()
    {
      var i, b := Find(name);
      if b == null {
        return NoSuchRecord(name);
      }
      UnlinkFixed(i, b);
      st := Ok;
    }

    /** The part of `DeleteBookmarkFixed` after the lookup found `b` at `i`. */
    method UnlinkFixed(i: int, b: Bookmark)
      requires 0 <= i < |entries| && entries[i] == b
      modifies this
      ensures entries == RemoveAt(old(entries), i)
      ensures nameIndex == old(nameIndex) - {b.name}
      ensures urlIndex == RepointUrl(old(urlIndex), entries, b.url)
      ensures tagIndex == RemoveTagsFixed(old(tagIndex), b.tags, b.name)
      ensures old(Valid()) ==> Valid()
    {
      ghost var s0, n0, u0, t0 := entries, nameIndex, urlIndex, tagIndex;
      entries := entries[i := entries[0]][1..];
      nameIndex := nameIndex - {b.name};
      var j := LastWithUrl(entries, b.url);
      if j == -1 {
        urlIndex := urlIndex - {b.url};
      } else {
        urlIndex := urlIndex[b.url := entries[j]];
      }
      var k := 0;
      while k < |b.tags|
        invariant 0 <= k <= |b.tags|
        invariant entries == RemoveAt(s0, i) && nameIndex == n0 - {b.name}
        invariant urlIndex == RepointUrl(u0, entries, b.url)
        invariant RemoveTagsFixed(t0, b.tags, b.name) == RemoveTagsFixed(tagIndex, b.tags[k..], b.name)
      {
        assert b.tags[k..][1..] == b.tags[k + 1..];
        RemoveFirstFromTag(b.tags[k], b.name);
        k := k + 1;
      }
      assert b.tags[k..] == [];
      if Consistent(s0, n0, u0, t0) {
        DeleteKeepsConsistent(s0, n0, u0, t0, i);
      }
    }

    /** The last position of an entry of `s` with URL `u`, or -1. */
    static method LastWithUrl(s: seq<Bookmark>, u: string) returns (j: int)
      ensures j == LastIndex(s, u, ByUrl)
    {
      j := |s| - 1;
      while j >= 0 && s[j].url != u
        invariant -1 <= j < |s|
        invariant forall q :: j < q < |s| ==> s[q].url != u
      {
        j := j - 1;
      }
    }

    /** The intended pass over tag `t`: its list loses its first member named
        `name`, and the key goes when the list is left empty. */
    method RemoveFirstFromTag(t: string, name: string)
      modifies this
      ensures entries == old(entries) && nameIndex == old(nameIndex) && urlIndex == old(urlIndex)
      ensures tagIndex == StepFixed(old(tagIndex), t, name)
    {
      var list := Get(tagIndex, t);
      var j := 0;
      while j < |list| && list[j].name != name
        invariant 0 <= j <= |list|
        invariant forall q :: 0 <= q < j ==> list[q].name != name
      {
        j := j + 1;
      }
      if j == |list| {
        return;
      }
      assert j == FirstIndex(list, name);
      if |list| == 1 {
        tagIndex := tagIndex - {t};
      } else {
        tagIndex := tagIndex[t := list[j := list[0]][1..]];
      }
    }

    /** The slice as value copies, in slice order. */
    method Dump() returns (r: seq<Record>)
      ensures |r| == Size()
      ensures forall k :: 0 <= k < |r| ==> r[k] == entries[k].Value()
    {
      r := [];
      var k := 0;
      while k < |entries|
        invariant 0 <= k <= |entries| && |r| == k
        invariant forall j :: 0 <= j < k ==> r[j] == entries[j].Value()
      {
        r := r + [entries[k].Value()];
        k := k + 1;
      }
    }
  }
}
