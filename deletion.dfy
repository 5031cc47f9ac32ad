/** Removal of an entry from the slice and from the three indices
    (`DeleteBookmark`, bookmarks/lib.go:79-102), both as the source writes
    it and as it is evidently meant to work.

    The source removes from a slice by overwriting the target with the head
    and dropping the head. On a tag's list it does so inside a loop over a
    local copy of the list that shares its backing array, without stopping
    after the first match; `SweepFrom` models that loop with the sharing
    made explicit. `StepFixed` is the intended single removal. */
module Deletion {
  import opened Entries
  import opened Indices

  /** Removes position `i` the way the source does: position `i` takes the
      head, then the head is dropped. Exactly one occurrence of `s[i]` goes. */
  function RemoveAt(s: seq<Bookmark>, i: nat): (r: seq<Bookmark>)
    requires i < |s|
    ensures |r| == |s| - 1
    ensures multiset(r) == multiset(s) - multiset{s[i]}
  {
    var u := s[i := s[0]];
    assert multiset(u) == multiset(s) - multiset{s[i]} + multiset{s[0]};
    assert u == [u[0]] + u[1..] && u[0] == s[0];
    assert multiset(u[1..]) == multiset(u) - multiset{s[0]};
    u[1..]
  }

  /** Each position of `RemoveAt(s, i)` holds the entry of a position of `s`
      other than `i`, and distinct positions come from distinct positions. */
  lemma {:induction false} RemoveAtSource(s: seq<Bookmark>, i: nat, k: nat)
    requires i < |s| && k < |s| - 1
    ensures var src := if k + 1 == i then 0 else k + 1;
      src != i && src < |s| && RemoveAt(s, i)[k] == s[src]
  {
  }

  /** Removing the entry at `i` from a slice with unique names leaves unique
      names, none of them the removed entry's, and exactly the other entries. */
  lemma {:induction false} RemoveAtNames(s: seq<Bookmark>, i: nat)
    requires i < |s| && DistinctNames(s)
    ensures DistinctNames(RemoveAt(s, i))
    ensures forall e :: e in RemoveAt(s, i) ==> e.name != s[i].name
    ensures forall e :: e in s <==> e in RemoveAt(s, i) || e == s[i]
    ensures KeysOf(RemoveAt(s, i), ByName) == KeysOf(s, ByName) - {s[i].name}
  {
    var r := RemoveAt(s, i);
    forall p, q | 0 <= p < |r| && 0 <= q < |r| && r[p].name == r[q].name ensures p == q {
      RemoveAtSource(s, i, p);
      RemoveAtSource(s, i, q);
    }
    forall e | e in r ensures e.name != s[i].name {
      var k :| 0 <= k < |r| && r[k] == e;
      RemoveAtSource(s, i, k);
    }
    forall e ensures e in s <==> e in r || e == s[i] {
      assert e in s <==> multiset(s)[e] > 0;
      assert e in r <==> multiset(r)[e] > 0;
    }
  }

  // ---------------------------------------------------------------------
  // The tag-list sweep as written (bookmarks/lib.go:94-98)

  /** The state of the sweep over one tag's list. The tag's list and the
      loop's copy share the backing array `arr`; the tag's list is the
      window `arr[off..]`, `off` counting the heads dropped so far. */
  datatype Sweep = Sweep(arr: seq<Bookmark>, off: nat, panicked: bool)

  /** Runs the loop from position `i` of the copy, which has the length the
      list had when the loop began and reads the shared array as it is now.
      On a member named `name` the loop writes the window's head into the
      window's position `i` and drops the head; Go checks that `i` is inside
      the shortened window and panics with an index out of range when it is
      not. */
  function SweepFrom(arr: seq<Bookmark>, off: nat, i: nat, name: string): (r: Sweep)
    requires off <= i <= |arr|
    ensures |r.arr| == |arr| && r.off <= |arr|
    decreases |arr| - i
  {
    if i == |arr| then Sweep(arr, off, false)
    else if arr[i].name != name then SweepFrom(arr, off, i + 1, name)
    else if off + i >= |arr| then Sweep(arr, off, true)
    else SweepFrom(arr[off + i := arr[off]], off + 1, i + 1, name)
  }

  /** Positions that do not match leave the sweep's state alone. */
  lemma {:induction false} SweepSkip(arr: seq<Bookmark>, off: nat, i: nat, j: nat, name: string)
    requires off <= i <= j <= |arr|
    requires forall k :: i <= k < j ==> arr[k].name != name
    ensures SweepFrom(arr, off, i, name) == SweepFrom(arr, off, j, name)
    decreases j - i
  {
    if i < j {
      SweepSkip(arr, off, i + 1, j, name);
    }
  }

  /** When exactly one member of the list is named `name`, the sweep ends
      without panicking and the list loses exactly that member: the head
      takes its place and is dropped. */
  lemma {:induction false} SweepRemovesSingleMatch(list: seq<Bookmark>, name: string, j: nat)
    requires j < |list| && list[j].name == name
    requires forall k :: 0 <= k < |list| && k != j ==> list[k].name != name
    ensures var w := SweepFrom(list, 0, 0, name);
      !w.panicked && w.off == 1 && w.arr[1..] == RemoveAt(list, j)
  {
    SweepSkip(list, 0, 0, j, name);
    var arr := list[j := list[0]];
    assert SweepFrom(list, 0, j, name) == SweepFrom(arr, 1, j + 1, name);
    SweepSkip(arr, 1, j + 1, |arr|, name);
  }

  /** A list holding the entry named `name` twice makes the sweep index past
      the shortened list. */
  lemma {:induction false} SweepPanicsOnRepeat(e: Bookmark)
    ensures SweepFrom([e, e], 0, 0, e.name).panicked
  {
    assert [e, e][0 := e] == [e, e];
    assert SweepFrom([e, e], 0, 0, e.name) == SweepFrom([e, e], 1, 1, e.name);
  }

  /** What the source does to the tag index for one tag `t` of the entry
      named `name` (bookmarks/lib.go:89-99): a list of length one loses its
      key; otherwise the sweep runs, and the tag's list is the window once
      the sweep has dropped a head. The flag is set when the sweep panicked;
      the map is then the tag index at the panic. */
  function StepAsWritten(m: map<string, seq<Bookmark>>, t: string, name: string)
    : (map<string, seq<Bookmark>>, bool)
  {
    var list := Get(m, t);
    if |list| == 1 then (m - {t}, false)
    else
      var w := SweepFrom(list, 0, 0, name);
      (if w.off == 0 then m else m[t := w.arr[w.off..]], w.panicked)
  }

  /** The source's loop over the tags of the entry named `name`
      (bookmarks/lib.go:88-100): the steps in order, up to the first panic. */
  function RemoveTagsAsWritten(m: map<string, seq<Bookmark>>, tags: seq<string>, name: string)
    : (map<string, seq<Bookmark>>, bool)
    decreases |tags|
  {
    if tags == [] then (m, false)
    else
      var r := StepAsWritten(m, tags[0], name);
      if r.1 then r else RemoveTagsAsWritten(r.0, tags[1..], name)
  }

  // ---------------------------------------------------------------------
  // The intended removal

  /** One tag's list loses its first member named `name` (head swapped into
      its place, head dropped, and no further matching); a list left empty
      loses its key, and a list without such a member is left alone. */
  function StepFixed(m: map<string, seq<Bookmark>>, t: string, name: string)
    : map<string, seq<Bookmark>>
  {
    var list := Get(m, t);
    var j := FirstIndex(list, name);
    if j == -1 then m
    else if |list| == 1 then m - {t}
    else m[t := RemoveAt(list, j)]
  }

  /** The intended loop over the tags of the entry named `name`. */
  function RemoveTagsFixed(m: map<string, seq<Bookmark>>, tags: seq<string>, name: string)
    : map<string, seq<Bookmark>>
    decreases |tags|
  {
    if tags == [] then m else RemoveTagsFixed(StepFixed(m, tags[0], name), tags[1..], name)
  }

  /** The intended update of the URL index when an entry with URL `u`
      leaves and `rest` remains: the key goes only when no remaining entry
      carries `u`; otherwise it leads to the last remaining entry that does. */
  function RepointUrl(urls: map<string, Bookmark>, rest: seq<Bookmark>, u: string): map<string, Bookmark>
  {
    var j := LastIndex(rest, u, ByUrl);
    if j == -1 then urls - {u} else urls[u := rest[j]]
  }

  /** No entry of `s` but the one at `i` carries its URL. */
  predicate UrlUnshared(s: seq<Bookmark>, i: int)
  {
    0 <= i < |s| && forall k :: 0 <= k < |s| && k != i ==> s[k].url != s[i].url
  }

  /** The tags of an entry are pairwise distinct. */
  predicate DistinctTags(tags: seq<string>)
  {
    forall p, q :: 0 <= p < q < |tags| ==> tags[p] != tags[q]
  }

  // ---------------------------------------------------------------------
  // The tag index while the removed entry's tags are being processed

  /** The tag index part-way through removing `b`, the entries `rest`
      remaining: it agrees with `rest`, except that `b` is still listed once
      for each occurrence of a tag among the `tags` not yet processed. */
  ghost predicate Pending(m: map<string, seq<Bookmark>>, rest: seq<Bookmark>, b: Bookmark, tags: seq<string>)
  {
    && (forall e :: e in rest ==> e.name != b.name)
    && (forall t :: t in m <==> t in AllTags(rest) || t in tags)
    && forall t :: multiset(Get(m, t)) == multiset(Occurrences(rest, t)) + multiset{}[b := multiset(tags)[t]]
  }

  /** Under `Pending`, the first member of the next tag's list named like
      `b` is `b` itself. */
  lemma {:induction false} PendingHead(m: map<string, seq<Bookmark>>, rest: seq<Bookmark>, b: Bookmark, tags: seq<string>)
    requires tags != [] && Pending(m, rest, b, tags)
    ensures var list := Get(m, tags[0]);
      multiset(list)[b] == multiset(tags)[tags[0]] > 0 &&
      FirstIndex(list, b.name) >= 0 && list[FirstIndex(list, b.name)] == b
    ensures forall x :: x in Get(m, tags[0]) && x != b ==> x in rest && x.name != b.name
  {
    var t0 := tags[0];
    var list := Get(m, t0);
    OccurrencesMember(rest, t0, b);
    assert multiset(list)[b] == multiset(tags)[t0];
    assert b in list;
    forall x | x in list && x != b ensures x in rest && x.name != b.name {
      assert multiset(list)[x] > 0;
      OccurrencesMember(rest, t0, x);
    }
  }

  /** Pending with one tag fewer, for a step that changes only the list of
      the next tag `tags[0]`, given what the step made of that list. */
  lemma {:induction false} PendingAfterStep(m: map<string, seq<Bookmark>>, m': map<string, seq<Bookmark>>,
                                            rest: seq<Bookmark>, b: Bookmark, tags: seq<string>)
    requires tags != [] && Pending(m, rest, b, tags)
    requires forall t :: t != tags[0] ==> (t in m' <==> t in m) && Get(m', t) == Get(m, t)
    requires tags[0] in m' <==> tags[0] in AllTags(rest) || tags[0] in tags[1..]
    requires multiset(Get(m', tags[0])) == multiset(Occurrences(rest, tags[0])) + multiset{}[b := multiset(tags[1..])[tags[0]]]
    ensures Pending(m', rest, b, tags[1..])
  {
    PendingKeysAfterStep(m, m', rest, b, tags);
    PendingCountsAfterStep(m, m', rest, b, tags);
  }

  lemma {:induction false} PendingKeysAfterStep(m: map<string, seq<Bookmark>>, m': map<string, seq<Bookmark>>,
                                                rest: seq<Bookmark>, b: Bookmark, tags: seq<string>)
    requires tags != [] && (forall t :: t in m <==> t in AllTags(rest) || t in tags)
    requires forall t :: t != tags[0] ==> (t in m' <==> t in m)
    requires tags[0] in m' <==> tags[0] in AllTags(rest) || tags[0] in tags[1..]
    ensures forall t :: t in m' <==> t in AllTags(rest) || t in tags[1..]
  {
    forall t ensures t in m' <==> t in AllTags(rest) || t in tags[1..] {
      if t != tags[0] {
        assert t in tags <==> t in tags[1..] by {
          assert tags == [tags[0]] + tags[1..];
        }
      }
    }
  }

  lemma {:induction false} PendingCountsAfterStep(m: map<string, seq<Bookmark>>, m': map<string, seq<Bookmark>>,
                                                  rest: seq<Bookmark>, b: Bookmark, tags: seq<string>)
    requires tags != []
    requires forall t :: multiset(Get(m, t)) == multiset(Occurrences(rest, t)) + multiset{}[b := multiset(tags)[t]]
    requires forall t :: t != tags[0] ==> Get(m', t) == Get(m, t)
    requires multiset(Get(m', tags[0])) == multiset(Occurrences(rest, tags[0])) + multiset{}[b := multiset(tags[1..])[tags[0]]]
    ensures forall t :: multiset(Get(m', t)) == multiset(Occurrences(rest, t)) + multiset{}[b := multiset(tags[1..])[t]]
  {
    CountOfTail(tags);
    forall t ensures multiset(Get(m', t)) == multiset(Occurrences(rest, t)) + multiset{}[b := multiset(tags[1..])[t]] {
      if t != tags[0] {
        assert multiset(tags)[t] == multiset(tags[1..])[t];
      }
    }
  }

  /** Dropping or replacing the list of `t0` leaves every other tag alone. */
  lemma {:induction false} OtherTagsUnchanged(m: map<string, seq<Bookmark>>, m': map<string, seq<Bookmark>>, t0: string,
                                              drop: bool, l: seq<Bookmark>)
    requires m' == if drop then m - {t0} else m[t0 := l]
    ensures forall t :: t != t0 ==> (t in m' <==> t in m) && Get(m', t) == Get(m, t)
  {
  }

  /** Consing onto a tag list adds one to the count of its head. */
  lemma {:induction false} CountOfHead(tags: seq<string>)
    requires tags != []
    ensures multiset(tags)[tags[0]] == multiset(tags[1..])[tags[0]] + 1
    ensures tags[0] in tags[1..] <==> multiset(tags[1..])[tags[0]] > 0
  {
    assert tags == [tags[0]] + tags[1..];
  }

  /** Consing onto a tag list leaves the count of every other tag alone. */
  lemma {:induction false} CountOfTail(tags: seq<string>)
    requires tags != []
    ensures forall t :: t != tags[0] ==> multiset(tags)[t] == multiset(tags[1..])[t]
  {
    assert tags == [tags[0]] + tags[1..];
  }

  /** The tail of a list of distinct tags has distinct tags and lacks the head. */
  lemma {:induction false} DistinctTagsTail(tags: seq<string>)
    requires tags != [] && DistinctTags(tags)
    ensures DistinctTags(tags[1..]) && tags[0] !in tags[1..]
  {
    var tl := tags[1..];
    forall p, q | 0 <= p < q < |tl| ensures tl[p] != tl[q] {
      assert tl[p] == tags[p + 1] && tl[q] == tags[q + 1];
    }
  }

  /** A one-member list holding `b` at least once holds nothing else. */
  lemma {:induction false} SoleCount(list: seq<Bookmark>, occ: seq<Bookmark>, b: Bookmark, k: nat)
    requires |list| == 1 && k > 0
    requires multiset(list) == multiset(occ) + multiset{}[b := k]
    ensures k == 1 && occ == [] && list == [b]
  {
    assert |multiset(list)| == |multiset(occ)| + k;
    assert list[0] in multiset(list);
  }

  /** The step on a list holding only `b`: the key goes. */
  lemma {:induction false} StepFixedSole(m: map<string, seq<Bookmark>>, rest: seq<Bookmark>, b: Bookmark, tags: seq<string>)
    requires tags != [] && Pending(m, rest, b, tags) && |Get(m, tags[0])| == 1
    ensures Pending(StepFixed(m, tags[0], b.name), rest, b, tags[1..])
  {
    var t0 := tags[0];
    var list := Get(m, t0);
    PendingHead(m, rest, b, tags);
    assert multiset(list) == multiset(Occurrences(rest, t0)) + multiset{}[b := multiset(tags)[t0]];
    SoleCount(list, Occurrences(rest, t0), b, multiset(tags)[t0]);
    CountOfHead(tags);
    OccurrencesEmpty(rest, t0);
    var m' := m - {t0};
    OtherTagsUnchanged(m, m', t0, true, []);
    assert StepFixed(m, t0, b.name) == m';
    PendingAfterStep(m, m', rest, b, tags);
  }

  /** The step on a longer list: `b` leaves it once, the key stays. */
  lemma {:induction false} StepFixedShrink(m: map<string, seq<Bookmark>>, rest: seq<Bookmark>, b: Bookmark, tags: seq<string>)
    requires tags != [] && Pending(m, rest, b, tags) && |Get(m, tags[0])| != 1
    ensures Pending(StepFixed(m, tags[0], b.name), rest, b, tags[1..])
  {
    var t0 := tags[0];
    var list := Get(m, t0);
    var j := FirstIndex(list, b.name);
    var occ := multiset(Occurrences(rest, t0));
    var c := multiset(tags[1..])[t0];
    assert 0 <= j < |list| && list[j] == b && multiset(list) == occ + multiset{}[b := c + 1] by {
      PendingHead(m, rest, b, tags);
      CountOfHead(tags);
    }
    var list' := RemoveAt(list, j);
    var m' := m[t0 := list'];
    assert StepFixed(m, t0, b.name) == m';
    OtherTagsUnchanged(m, m', t0, false, list');
    RemoveOneCopy(list, j, occ, b, c);
    assert t0 in AllTags(rest) || t0 in tags[1..] by {
      CountOfHead(tags);
      if c == 0 {
        ShrinkKeepsOthers(list, occ, b, 1);
        OccurrencesEmpty(rest, t0);
      }
    }
    PendingAfterStep(m, m', rest, b, tags);
  }

  /** Taking one copy of `b` out of a list lowers its count by one. */
  lemma {:induction false} RemoveOneCopy(list: seq<Bookmark>, j: int, occ: multiset<Bookmark>, b: Bookmark, c: nat)
    requires 0 <= j < |list| && list[j] == b
    requires multiset(list) == occ + multiset{}[b := c + 1]
    ensures multiset(RemoveAt(list, j)) == occ + multiset{}[b := c]
  {
    var r := RemoveAt(list, j);
    assert multiset(r) == multiset(list) - multiset{b};
    assert forall e :: multiset(r)[e] == (occ + multiset{}[b := c])[e];
  }

  /** A list of at least two that holds `b` only once holds something else. */
  lemma {:induction false} ShrinkKeepsOthers(list: seq<Bookmark>, occ: multiset<Bookmark>, b: Bookmark, k: nat)
    requires |list| != 1 && k == 1 && b in list
    requires multiset(list) == occ + multiset{}[b := k]
    ensures occ != multiset{}
  {
    assert |multiset(list)| == |occ| + 1;
  }

  /** One intended step keeps `Pending` with one tag fewer. */
  lemma {:induction false} StepFixedKeepsPending(m: map<string, seq<Bookmark>>, rest: seq<Bookmark>, b: Bookmark, tags: seq<string>)
    requires tags != [] && Pending(m, rest, b, tags)
    ensures Pending(StepFixed(m, tags[0], b.name), rest, b, tags[1..])
  {
    if |Get(m, tags[0])| == 1 {
      StepFixedSole(m, rest, b, tags);
    } else {
      StepFixedShrink(m, rest, b, tags);
    }
  }

  /** The intended removal of `b` from the lists of all its pending tags
      leaves a tag index that agrees with the remaining entries. */
  lemma {:induction false} RemoveTagsFixedConsistent(m: map<string, seq<Bookmark>>, rest: seq<Bookmark>, b: Bookmark, tags: seq<string>)
    requires Pending(m, rest, b, tags)
    ensures TagConsistent(RemoveTagsFixed(m, tags, b.name), rest)
    decreases |tags|
  {
    if tags == [] {
      forall t ensures multiset(Get(m, t)) == multiset(Occurrences(rest, t)) {
        assert multiset{}[b := multiset(tags)[t]] == multiset{};
      }
    } else {
      StepFixedKeepsPending(m, rest, b, tags);
      RemoveTagsFixedConsistent(StepFixed(m, tags[0], b.name), rest, b, tags[1..]);
    }
  }

  /** An element occurring once in `s` occurs at no other position. */
  lemma {:induction false} SingleOccurrence(s: seq<Bookmark>, p: nat, q: nat)
    requires p < |s| && q < |s| && p != q && multiset(s)[s[p]] == 1
    ensures s[q] != s[p]
  {
    var lo, hi := if p < q then p else q, if p < q then q else p;
    assert s == s[..hi] + [s[hi]] + s[hi + 1..];
    assert s[lo] in s[..hi];
  }

  /** When `b` carries the next tag once, the source's step on it does not
      panic and does what the intended step does: a list holding only `b`
      loses its key, any other list loses exactly `b`. */
  lemma {:induction false} StepAsWrittenMatchesFixed(m: map<string, seq<Bookmark>>, rest: seq<Bookmark>, b: Bookmark, tags: seq<string>)
    requires tags != [] && Pending(m, rest, b, tags) && multiset(tags)[tags[0]] == 1
    ensures StepAsWritten(m, tags[0], b.name) == (StepFixed(m, tags[0], b.name), false)
  {
    var list := Get(m, tags[0]);
    PendingHead(m, rest, b, tags);
    var j := FirstIndex(list, b.name);
    forall k | 0 <= k < |list| && k != j ensures list[k].name != b.name {
      SingleOccurrence(list, j, k);
    }
    if |list| != 1 {
      SweepRemovesSingleMatch(list, b.name, j);
    }
  }

  /** When the removed entry's tags are pairwise distinct, the source's
      loop does not panic and does exactly what the intended one does. */
  lemma {:induction false} AsWrittenMatchesFixed(m: map<string, seq<Bookmark>>, rest: seq<Bookmark>, b: Bookmark, tags: seq<string>)
    requires Pending(m, rest, b, tags) && DistinctTags(tags)
    ensures RemoveTagsAsWritten(m, tags, b.name) == (RemoveTagsFixed(m, tags, b.name), false)
    decreases |tags|
  {
    if tags != [] {
      var t0, tags' := tags[0], tags[1..];
      DistinctTagsTail(tags);
      CountOfHead(tags);
      StepAsWrittenMatchesFixed(m, rest, b, tags);
      StepFixedKeepsPending(m, rest, b, tags);
      AsWrittenMatchesFixed(StepFixed(m, t0, b.name), rest, b, tags');
    }
  }

  // ---------------------------------------------------------------------
  // The whole removal

  /** The name index without the removed entry's name agrees with the
      remaining entries. */
  lemma {:induction false} DeleteNamesConsistent(s: seq<Bookmark>, names: map<string, Bookmark>, i: nat)
    requires i < |s| && DistinctNames(s) && KeyConsistent(names, s, ByName)
    ensures KeyConsistent(names - {s[i].name}, RemoveAt(s, i), ByName)
  {
    RemoveAtNames(s, i);
    forall key | key in names - {s[i].name} ensures names[key] in RemoveAt(s, i) {
      assert names[key] in s && names[key] != s[i];
    }
  }

  /** The intended update of the URL index agrees with the remaining entries. */
  lemma {:induction false} DeleteUrlsConsistent(s: seq<Bookmark>, urls: map<string, Bookmark>, i: nat)
    requires i < |s| && KeyConsistent(urls, s, ByUrl)
    ensures KeyConsistent(RepointUrl(urls, RemoveAt(s, i), s[i].url), RemoveAt(s, i), ByUrl)
  {
    RemoveAtMembers(s, i);
    DeleteUrlKeys(s, urls, i);
    DeleteUrlValues(s, urls, i);
  }

  /** The entries left by `RemoveAt(s, i)` are those of `s` and possibly `s[i]`. */
  lemma {:induction false} RemoveAtMembers(s: seq<Bookmark>, i: nat)
    requires i < |s|
    ensures forall e :: e in s <==> e in RemoveAt(s, i) || e == s[i]
  {
    var r := RemoveAt(s, i);
    forall e ensures e in s <==> e in r || e == s[i] {
      assert e in s <==> multiset(s)[e] > 0;
      assert e in r <==> multiset(r)[e] > 0;
    }
  }

  lemma {:induction false} DeleteUrlKeys(s: seq<Bookmark>, urls: map<string, Bookmark>, i: nat)
    requires i < |s| && urls.Keys == KeysOf(s, ByUrl)
    requires forall e :: e in s <==> e in RemoveAt(s, i) || e == s[i]
    ensures RepointUrl(urls, RemoveAt(s, i), s[i].url).Keys == KeysOf(RemoveAt(s, i), ByUrl)
  {
    var r, u := RemoveAt(s, i), s[i].url;
    var m := RepointUrl(urls, r, u);
    forall key ensures key in m <==> key in KeysOf(r, ByUrl) {
      if key == u {
        RepointedKey(r, urls, u);
      } else {
        OtherUrlKey(s, r, s[i], key);
      }
    }
  }

  lemma {:induction false} DeleteUrlValues(s: seq<Bookmark>, urls: map<string, Bookmark>, i: nat)
    requires i < |s| && forall key :: key in urls ==> urls[key] in s && KeyOf(urls[key], ByUrl) == key
    requires forall e :: e in s <==> e in RemoveAt(s, i) || e == s[i]
    ensures var m := RepointUrl(urls, RemoveAt(s, i), s[i].url);
      forall key :: key in m ==> m[key] in RemoveAt(s, i) && KeyOf(m[key], ByUrl) == key
  {
    var r, u := RemoveAt(s, i), s[i].url;
    var m := RepointUrl(urls, r, u);
    forall key | key in m ensures m[key] in r && KeyOf(m[key], ByUrl) == key {
      if key != u {
        assert urls[key] in s && urls[key] != s[i];
      }
    }
  }

  /** The removed URL stays a key exactly when a remaining entry carries it. */
  lemma {:induction false} RepointedKey(r: seq<Bookmark>, urls: map<string, Bookmark>, u: string)
    ensures u in RepointUrl(urls, r, u) <==> u in KeysOf(r, ByUrl)
  {
    var j := LastIndex(r, u, ByUrl);
    if j >= 0 {
      assert r[j] in r;
    }
  }

  /** Any other URL is carried by the remaining entries exactly when it was
      carried before the removal. */
  lemma {:induction false} OtherUrlKey(s: seq<Bookmark>, r: seq<Bookmark>, b: Bookmark, key: string)
    requires forall e :: e in s <==> e in r || e == b
    requires key != b.url
    ensures key in KeysOf(s, ByUrl) <==> key in KeysOf(r, ByUrl)
  {
    if key in KeysOf(s, ByUrl) {
      var e :| e in s && e.url == key;
      assert e in r;
    }
    if key in KeysOf(r, ByUrl) {
      var e :| e in r && e.url == key;
      assert e in s;
    }
  }

  /** The remaining entries with the removed entry's tags still pending form
      the starting point of the tag loop. */
  lemma {:induction false} DeletePending(s: seq<Bookmark>, tags: map<string, seq<Bookmark>>, i: nat)
    requires i < |s| && DistinctNames(s) && TagConsistent(tags, s)
    ensures Pending(tags, RemoveAt(s, i), s[i], s[i].tags)
  {
    RemoveAtNames(s, i);
    var r, b := RemoveAt(s, i), s[i];
    var s' := r + [b];
    assert multiset(s) == multiset(s');
    assert s'[..|r|] == r;
    forall t ensures t in tags <==> t in AllTags(r) || t in b.tags {
      if t in AllTags(s) {
        var e :| e in s && t in e.tags;
        if e != b {
          assert e in r;
        }
      }
      if t in AllTags(r) {
        var e :| e in r && t in e.tags;
        assert e in s;
      }
      if t in b.tags {
        assert b in s;
      }
    }
    forall t ensures multiset(Get(tags, t)) == multiset(Occurrences(r, t)) + multiset{}[b := multiset(b.tags)[t]] {
      OccurrencesPermutation(s, s', t);
      assert Occurrences(s', t) == Occurrences(r, t) + Repeat(b, multiset(b.tags)[t]);
      RepeatCount(b, multiset(b.tags)[t]);
    }
  }

  /** The intended removal of the entry at `i` keeps a consistent store
      consistent. */
  lemma {:induction false} DeleteKeepsConsistent(s: seq<Bookmark>, names: map<string, Bookmark>,
                                                 urls: map<string, Bookmark>, tags: map<string, seq<Bookmark>>, i: nat)
    requires i < |s| && Consistent(s, names, urls, tags)
    ensures var r := RemoveAt(s, i);
      Consistent(r, names - {s[i].name}, RepointUrl(urls, r, s[i].url), RemoveTagsFixed(tags, s[i].tags, s[i].name))
  {
    RemoveAtNames(s, i);
    DeleteNamesConsistent(s, names, i);
    DeleteUrlsConsistent(s, urls, i);
    DeletePending(s, tags, i);
    RemoveTagsFixedConsistent(tags, RemoveAt(s, i), s[i], s[i].tags);
  }

  /** The source's update of the URL index (the key simply goes) agrees with
      the remaining entries exactly when no other entry shares the removed
      entry's URL. */
  lemma {:induction false} UrlDeleteAsWritten(s: seq<Bookmark>, urls: map<string, Bookmark>, i: nat)
    requires i < |s| && DistinctNames(s) && KeyConsistent(urls, s, ByUrl)
    ensures KeyConsistent(urls - {s[i].url}, RemoveAt(s, i), ByUrl) <==> UrlUnshared(s, i)
  {
    RemoveAtNames(s, i);
    var r, u := RemoveAt(s, i), s[i].url;
    if UrlUnshared(s, i) {
      assert LastIndex(r, u, ByUrl) == -1 by {
        forall e | e in r ensures e.url != u {
          var k :| 0 <= k < |s| && s[k] == e;
        }
      }
      assert RepointUrl(urls, r, u) == urls - {u};
      DeleteUrlsConsistent(s, urls, i);
    } else {
      var k :| 0 <= k < |s| && k != i && s[k].url == u;
      assert s[k] in r;
      assert u in KeysOf(r, ByUrl);
    }
  }

  /** The source's removal keeps a consistent store consistent when the
      removed entry's tags are pairwise distinct and no other entry shares
      its URL; its tag loop then does not panic. */
  lemma {:induction false} DeleteAsWrittenKeepsConsistent(s: seq<Bookmark>, names: map<string, Bookmark>,
                                                          urls: map<string, Bookmark>, tags: map<string, seq<Bookmark>>, i: nat)
    requires i < |s| && Consistent(s, names, urls, tags)
    requires DistinctTags(s[i].tags) && UrlUnshared(s, i)
    ensures var w := RemoveTagsAsWritten(tags, s[i].tags, s[i].name);
      !w.1 && Consistent(RemoveAt(s, i), names - {s[i].name}, urls - {s[i].url}, w.0)
  {
    RemoveAtNames(s, i);
    DeleteNamesConsistent(s, names, i);
    UrlDeleteAsWritten(s, urls, i);
    DeletePending(s, tags, i);
    AsWrittenMatchesFixed(tags, RemoveAt(s, i), s[i], s[i].tags);
    RemoveTagsFixedConsistent(tags, RemoveAt(s, i), s[i], s[i].tags);
  }

  // ---------------------------------------------------------------------
  // Inputs on which the source's removal goes wrong

  /** An entry that lists one tag twice: the rebuilt tag index lists it
      twice under that tag, and the source's removal of it indexes past the
      shortened list (a run-time panic), while the intended removal empties
      the index. */
  lemma {:induction false} RepeatedTagPanics(e: Bookmark, t: string)
    requires e.tags == [t, t]
    ensures TagIndexOf([e]) == map[t := [e, e]]
    ensures RemoveTagsAsWritten(TagIndexOf([e]), e.tags, e.name).1
    ensures RemoveTagsFixed(TagIndexOf([e]), e.tags, e.name) == map[]
  {
    assert [e][..0] == [];
    assert [t, t][..1] == [t];
    assert [t][..0] == [];
    assert AppendTags(map[], e, []) == map[];
    assert Get(map[], t) + [e] == [e];
    assert Get(map[t := [e]], t) + [e] == [e, e];
    assert AppendTags(map[], e, [t]) == map[t := [e]];
    assert AppendTags(map[], e, [t, t]) == map[t := [e, e]];
    assert TagIndexOf([e]) == map[t := [e, e]];
    var m := map[t := [e, e]];
    SweepPanicsOnRepeat(e);
    assert StepAsWritten(m, t, e.name).1;
    assert FirstIndex([e, e], e.name) == 0;
    assert RemoveAt([e, e], 0) == [e];
    assert StepFixed(m, t, e.name) == map[t := [e]];
    assert FirstIndex([e], e.name) == 0;
    assert StepFixed(map[t := [e]], t, e.name) == map[];
    assert [t, t][1..] == [t];
    assert [t][1..] == [];
    assert RemoveTagsFixed(map[], [], e.name) == map[];
    assert RemoveTagsFixed(map[t := [e]], [t], e.name) == map[];
    assert RemoveTagsFixed(m, [t, t], e.name) == map[];
  }

  /** Two entries sharing a URL: after the source removes the first, the
      second is still stored but its URL is no longer indexed, while the
      intended update leads the URL to the second. */
  lemma {:induction false} SharedUrlLost(a: Bookmark, c: Bookmark)
    requires a.url == c.url && a.name != c.name
    ensures var s := [a, c];
      Consistent(s, IndexBy(s, ByName), IndexBy(s, ByUrl), TagIndexOf(s)) &&
      !KeyConsistent(IndexBy(s, ByUrl) - {a.url}, RemoveAt(s, 0), ByUrl) &&
      RepointUrl(IndexBy(s, ByUrl), RemoveAt(s, 0), a.url) == map[a.url := c]
  {
    var s := [a, c];
    var urls := IndexBy(s, ByUrl);
    assert Consistent(s, IndexBy(s, ByName), urls, TagIndexOf(s)) by {
      assert DistinctNames(s);
      RebuildIsConsistent(s);
    }
    assert !KeyConsistent(urls - {a.url}, RemoveAt(s, 0), ByUrl) by {
      assert !UrlUnshared(s, 0) by {
        assert s[1].url == s[0].url;
      }
      UrlDeleteAsWritten(s, urls, 0);
    }
    assert urls == map[a.url := c] by {
      assert s[..1] == [a];
      assert [a][..0] == [];
      assert IndexBy([a], ByUrl) == map[a.url := a];
      assert urls == IndexBy([a], ByUrl)[c.url := c];
    }
    assert RemoveAt(s, 0) == [c];
    assert LastIndex([c], a.url, ByUrl) == 0;
  }
}
