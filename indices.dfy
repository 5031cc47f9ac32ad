/** The three derived indices of the store, as functions of the canonical
    slice of entries, and the invariant that ties the indices to the slice.

    `IndexBy` and `TagIndexOf` are written as the same left-to-right fold
    that `rebuildIndex` runs (bookmarks/lib.go:66-77): each entry in slice
    order overwrites the slot of its name and URL, and is appended to the
    list of each of its tags. `Occurrences` is the per-tag reading of the
    same data, and `Consistent` is the order-insensitive form of "the
    indices agree with the slice" that insertion and deletion keep. */
module Indices {
  import opened Entries

  /** Which field of a bookmark an index is keyed on. */
  datatype Key = ByName | ByUrl

  function KeyOf(b: Bookmark, k: Key): string
  {
    match k
    case ByName => b.name
    case ByUrl => b.url
  }

  /** The keys carried by the entries of `s`. */
  function KeysOf(s: seq<Bookmark>, k: Key): set<string>
  {
    set b | b in s :: KeyOf(b, k)
  }

  /** Every tag carried by some entry of `s`. */
  function AllTags(s: seq<Bookmark>): set<string>
  {
    set b, t | b in s && t in b.tags :: t
  }

  /** No two positions of `s` hold entries with the same name. */
  ghost predicate DistinctNames(s: seq<Bookmark>)
  {
    forall i, j :: 0 <= i < |s| && 0 <= j < |s| && s[i].name == s[j].name ==> i == j
  }

  /** The first position of an entry named `name`, or -1 when there is none:
      the linear scan of `Find` (bookmarks/lib.go:41-49). */
  function FirstIndex(s: seq<Bookmark>, name: string): (i: int)
    ensures -1 <= i < |s|
    ensures i == -1 <==> forall j :: 0 <= j < |s| ==> s[j].name != name
    ensures 0 <= i ==> s[i].name == name && forall j :: 0 <= j < i ==> s[j].name != name
  {
    if s == [] then -1
    else if s[0].name == name then 0
    else
      var i := FirstIndex(s[1..], name);
      if i == -1 then -1 else i + 1
  }

  /** The last position of an entry whose key `k` is `key`, or -1. */
  function LastIndex(s: seq<Bookmark>, key: string, k: Key): (i: int)
    ensures -1 <= i < |s|
    ensures i == -1 <==> forall j :: 0 <= j < |s| ==> KeyOf(s[j], k) != key
    ensures 0 <= i ==> KeyOf(s[i], k) == key && forall j :: i < j < |s| ==> KeyOf(s[j], k) != key
  {
    if s == [] then -1
    else if KeyOf(s[|s| - 1], k) == key then |s| - 1
    else LastIndex(s[..|s| - 1], key, k)
  }

  /** The name index (k = ByName) or the URL index (k = ByUrl) that
      `rebuildIndex` computes from `s`. */
  function IndexBy(s: seq<Bookmark>, k: Key): map<string, Bookmark>
  {
    if s == [] then map[]
    else IndexBy(s[..|s| - 1], k)[KeyOf(s[|s| - 1], k) := s[|s| - 1]]
  }

  /** Go's read of a missing key of the tag index: the empty list. */
  function Get(m: map<string, seq<Bookmark>>, t: string): seq<Bookmark>
  {
    if t in m then m[t] else []
  }

  /** `b`, `n` times over. */
  function Repeat(b: Bookmark, n: nat): (r: seq<Bookmark>)
    ensures |r| == n
  {
    if n == 0 then [] else Repeat(b, n - 1) + [b]
  }

  /** `Repeat(b, n)` holds `b` exactly `n` times and nothing else. */
  lemma {:induction false} RepeatCount(b: Bookmark, n: nat)
    ensures multiset(Repeat(b, n)) == multiset{}[b := n]
  {
    if n > 0 {
      RepeatCount(b, n - 1);
      assert multiset(Repeat(b, n)) == multiset(Repeat(b, n - 1)) + multiset{b};
    }
  }

  /** The tag index after `b` is appended to the list of each tag of `tags`,
      in order (the tag loops of `Add` and of `rebuildIndex`). */
  function AppendTags(m: map<string, seq<Bookmark>>, b: Bookmark, tags: seq<string>)
    : map<string, seq<Bookmark>>
  {
    if tags == [] then m
    else
      var m' := AppendTags(m, b, tags[..|tags| - 1]);
      var t := tags[|tags| - 1];
      m'[t := Get(m', t) + [b]]
  }

  /** The tag index that `rebuildIndex` computes from `s`. */
  function TagIndexOf(s: seq<Bookmark>): map<string, seq<Bookmark>>
  {
    if s == [] then map[]
    else AppendTags(TagIndexOf(s[..|s| - 1]), s[|s| - 1], s[|s| - 1].tags)
  }

  /** Every entry of `s` that carries `t`, in slice order, once for each
      time `t` occurs among its tags. */
  function Occurrences(s: seq<Bookmark>, t: string): seq<Bookmark>
  {
    if s == [] then []
    else Occurrences(s[..|s| - 1], t) + Repeat(s[|s| - 1], multiset(s[|s| - 1].tags)[t])
  }

  /** A name or URL index agrees with `s`: its keys are exactly the keys the
      entries carry, and each key leads to an entry of `s` carrying it. */
  ghost predicate KeyConsistent(m: map<string, Bookmark>, s: seq<Bookmark>, k: Key)
  {
    && m.Keys == KeysOf(s, k)
    && forall key :: key in m ==> m[key] in s && KeyOf(m[key], k) == key
  }

  /** The tag index agrees with `s`: its keys are exactly the tags in use, and
      each tag's list holds the entries carrying the tag, once per occurrence,
      in some order. */
  ghost predicate TagConsistent(m: map<string, seq<Bookmark>>, s: seq<Bookmark>)
  {
    && m.Keys == AllTags(s)
    && forall t :: multiset(Get(m, t)) == multiset(Occurrences(s, t))
  }

  /** The store invariant: names are unique and all three indices agree
      with the canonical slice. */
  ghost predicate Consistent(s: seq<Bookmark>, names: map<string, Bookmark>,
                       urls: map<string, Bookmark>, tags: map<string, seq<Bookmark>>)
  {
    && DistinctNames(s)
    && KeyConsistent(names, s, ByName)
    && KeyConsistent(urls, s, ByUrl)
    && TagConsistent(tags, s)
  }

  // ---------------------------------------------------------------------
  // What rebuildIndex computes

  lemma {:induction false} KeysOfSnoc(s: seq<Bookmark>, b: Bookmark, k: Key)
    ensures KeysOf(s + [b], k) == KeysOf(s, k) + {KeyOf(b, k)}
  {
    forall key | key in KeysOf(s + [b], k) ensures key in KeysOf(s, k) + {KeyOf(b, k)} {
      var x :| x in s + [b] && KeyOf(x, k) == key;
      if x != b { assert x in s; }
    }
  }

  lemma {:induction false} AllTagsSnoc(s: seq<Bookmark>, b: Bookmark)
    ensures AllTags(s + [b]) == AllTags(s) + set t | t in b.tags
  {
    forall t | t in AllTags(s + [b]) ensures t in AllTags(s) || t in b.tags {
      var x :| x in s + [b] && t in x.tags;
      if x != b { assert x in s; }
    }
  }

  /** The name and URL indices map each key in use to the LAST entry of the
      slice carrying it (later entries overwrite earlier ones), and hold no
      other key. */
  lemma {:induction false} IndexByIsLastWriter(s: seq<Bookmark>, k: Key)
    ensures IndexBy(s, k).Keys == KeysOf(s, k)
    ensures forall key :: key in IndexBy(s, k) <==> LastIndex(s, key, k) >= 0
    ensures forall key :: key in IndexBy(s, k) ==> IndexBy(s, k)[key] == s[LastIndex(s, key, k)]
  {
    if s != [] {
      var p: seq<Bookmark>, b: Bookmark := s[..|s| - 1], s[|s| - 1];
      assert s == p + [b];
      IndexByIsLastWriter(p, k);
      KeysOfSnoc(p, b, k);
      forall key ensures LastIndex(s, key, k) == (if key == KeyOf(b, k) then |s| - 1 else LastIndex(p, key, k)) {
      }
    }
  }

  /** Appending `b` under each of `tags` adds exactly those tags as keys. */
  lemma {:induction false} AppendTagsKeys(m: map<string, seq<Bookmark>>, b: Bookmark, tags: seq<string>)
    ensures AppendTags(m, b, tags).Keys == m.Keys + set t | t in tags
  {
    if tags != [] {
      var p, last := tags[..|tags| - 1], tags[|tags| - 1];
      assert tags == p + [last];
      AppendTagsKeys(m, b, p);
      assert (set t | t in tags) == (set t | t in p) + {last};
    }
  }

  /** Appending `b` under each of `tags` extends each tag's list by `b` once
      per occurrence of the tag in `tags`; every other list is kept. */
  lemma {:induction false} AppendTagsLists(m: map<string, seq<Bookmark>>, b: Bookmark, tags: seq<string>)
    ensures forall t :: Get(AppendTags(m, b, tags), t) == Get(m, t) + Repeat(b, multiset(tags)[t])
  {
    if tags != [] {
      var p, last := tags[..|tags| - 1], tags[|tags| - 1];
      assert tags == p + [last];
      AppendTagsLists(m, b, p);
      var m' := AppendTags(m, b, p);
      var r := m'[last := Get(m', last) + [b]];
      assert AppendTags(m, b, tags) == r;
      forall t ensures Get(r, t) == Get(m, t) + Repeat(b, multiset(tags)[t]) {
        var c := multiset(p)[t];
        if t == last {
          assert multiset(tags)[t] == c + 1;
          var g, rb := Get(m, t), Repeat(b, c);
          assert Get(r, t) == (g + rb) + [b];
          assert Repeat(b, c + 1) == rb + [b];
          SnocAssoc(g, rb, b);
        } else {
          assert multiset(tags)[t] == c;
        }
      }
    }
  }

  /** Both halves of what appending under `tags` does. */
  lemma {:induction false} AppendTagsSpec(m: map<string, seq<Bookmark>>, b: Bookmark, tags: seq<string>)
    ensures AppendTags(m, b, tags).Keys == m.Keys + set t | t in tags
    ensures forall t :: Get(AppendTags(m, b, tags), t) == Get(m, t) + Repeat(b, multiset(tags)[t])
  {
    AppendTagsKeys(m, b, tags);
    AppendTagsLists(m, b, tags);
  }

  lemma {:induction false} SnocAssoc(g: seq<Bookmark>, r: seq<Bookmark>, b: Bookmark)
    ensures (g + r) + [b] == g + (r + [b])
  {
  }

  lemma {:induction false} MultisetExt(a: seq<Bookmark>, b: seq<Bookmark>)
    requires forall e :: multiset(a)[e] == multiset(b)[e]
    ensures multiset(a) == multiset(b)
  {
  }

  lemma {:induction false} MulPos(a: nat, c: nat)
    ensures a * c > 0 <==> a > 0 && c > 0
  {
  }

  lemma {:induction false} MulSucc(a: nat, c: nat)
    ensures (a + 1) * c == a * c + c
  {
  }

  /** Each entry occurs in a tag's list as often as it occurs in the slice
      times the number of times it carries the tag. */
  lemma {:induction false} OccurrencesCount(s: seq<Bookmark>, t: string, e: Bookmark)
    ensures multiset(Occurrences(s, t))[e] == multiset(s)[e] * multiset(e.tags)[t]
  {
    if s != [] {
      var p: seq<Bookmark>, b: Bookmark := s[..|s| - 1], s[|s| - 1];
      var n := multiset(b.tags)[t];
      assert multiset(Occurrences(s, t))[e] == multiset(Occurrences(p, t))[e] + multiset{}[b := n][e] by {
        RepeatCount(b, n);
      }
      assert multiset(s)[e] == multiset(p)[e] + (if e == b then 1 else 0) by {
        assert s == p + [b];
      }
      OccurrencesCount(p, t, e);
      if e == b {
        MulSucc(multiset(p)[e], n);
      }
    }
  }

  /** An entry is listed under `t` exactly when it is in the slice and
      carries `t`. */
  lemma {:induction false} OccurrencesMember(s: seq<Bookmark>, t: string, e: Bookmark)
    ensures e in Occurrences(s, t) <==> e in s && t in e.tags
  {
    OccurrencesCount(s, t, e);
    MulPos(multiset(s)[e], multiset(e.tags)[t]);
    assert e in Occurrences(s, t) <==> multiset(Occurrences(s, t))[e] > 0;
  }

  /** The list of `t` is empty exactly when no entry carries `t`. */
  lemma {:induction false} OccurrencesEmpty(s: seq<Bookmark>, t: string)
    ensures Occurrences(s, t) == [] <==> t !in AllTags(s)
  {
    if t in AllTags(s) {
      var e :| e in s && t in e.tags;
      OccurrencesMember(s, t, e);
    }
    if Occurrences(s, t) != [] {
      var e := Occurrences(s, t)[0];
      OccurrencesMember(s, t, e);
      assert t in AllTags(s);
    }
  }

  /** Two slices holding the same entries, in any order, give every tag the
      same bag of entries. */
  lemma {:induction false} OccurrencesPermutation(s1: seq<Bookmark>, s2: seq<Bookmark>, t: string)
    requires multiset(s1) == multiset(s2)
    ensures multiset(Occurrences(s1, t)) == multiset(Occurrences(s2, t))
  {
    forall e ensures multiset(Occurrences(s1, t))[e] == multiset(Occurrences(s2, t))[e] {
      OccurrencesCount(s1, t, e);
      OccurrencesCount(s2, t, e);
    }
    MultisetExt(Occurrences(s1, t), Occurrences(s2, t));
  }

  /** The tag index holds every tag in use and lists, in slice order, every
      entry carrying the tag, once per occurrence. */
  lemma {:induction false} TagIndexOfSpec(s: seq<Bookmark>)
    ensures TagIndexOf(s).Keys == AllTags(s)
    ensures forall t :: Get(TagIndexOf(s), t) == Occurrences(s, t)
  {
    if s != [] {
      var p: seq<Bookmark>, b: Bookmark := s[..|s| - 1], s[|s| - 1];
      assert s == p + [b];
      TagIndexOfSpec(p);
      AppendTagsSpec(TagIndexOf(p), b, b.tags);
      AllTagsSnoc(p, b);
    }
  }

  /** Rebuilding the indices from a slice with unique names yields a
      consistent store. */
  lemma {:induction false} RebuildIsConsistent(s: seq<Bookmark>)
    requires DistinctNames(s)
    ensures Consistent(s, IndexBy(s, ByName), IndexBy(s, ByUrl), TagIndexOf(s))
  {
    IndexByIsLastWriter(s, ByName);
    IndexByIsLastWriter(s, ByUrl);
    TagIndexOfSpec(s);
  }

  /** Under unique names the name index has one key per entry. */
  lemma {:induction false} DistinctNamesCount(s: seq<Bookmark>)
    ensures DistinctNames(s) ==> |KeysOf(s, ByName)| == |s|
  {
    if s != [] && DistinctNames(s) {
      var p: seq<Bookmark>, b: Bookmark := s[..|s| - 1], s[|s| - 1];
      assert s == p + [b];
      assert DistinctNames(p);
      DistinctNamesCount(p);
      KeysOfSnoc(p, b, ByName);
      assert b.name !in KeysOf(p, ByName);
    }
  }

  // ---------------------------------------------------------------------
  // Insertion (Add, bookmarks/lib.go:121-132)

  /** Appending an entry extends the rebuilt indices by one fold step: the
      incremental update of `Add` is what a rebuild would compute. */
  lemma {:induction false} AddExtendsRebuild(s: seq<Bookmark>, b: Bookmark, k: Key)
    ensures IndexBy(s + [b], k) == IndexBy(s, k)[KeyOf(b, k) := b]
    ensures TagIndexOf(s + [b]) == AppendTags(TagIndexOf(s), b, b.tags)
  {
    assert (s + [b])[..|s|] == s;
  }

  /** Writing `b` into the slot of its key keeps a name or URL index in
      agreement with the slice extended by `b`. */
  lemma {:induction false} SnocKeyConsistent(m: map<string, Bookmark>, s: seq<Bookmark>, k: Key, b: Bookmark)
    requires KeyConsistent(m, s, k)
    ensures KeyConsistent(m[KeyOf(b, k) := b], s + [b], k)
  {
    KeysOfSnoc(s, b, k);
    forall key | key in m ensures m[key] in s + [b] {
    }
  }

  /** Appending `b` under each of its tags keeps the tag index in agreement
      with the slice extended by `b`. */
  lemma {:induction false} SnocTagConsistent(m: map<string, seq<Bookmark>>, s: seq<Bookmark>, b: Bookmark)
    requires TagConsistent(m, s)
    ensures TagConsistent(AppendTags(m, b, b.tags), s + [b])
  {
    var s' := s + [b];
    assert s'[..|s|] == s;
    AllTagsSnoc(s, b);
    AppendTagsSpec(m, b, b.tags);
    forall t ensures multiset(Get(AppendTags(m, b, b.tags), t)) == multiset(Occurrences(s', t)) {
      assert Occurrences(s', t) == Occurrences(s, t) + Repeat(b, multiset(b.tags)[t]);
    }
  }

  /** Adding an entry with a fresh name to a consistent store, the way `Add`
      does, leaves it consistent. */
  lemma {:induction false} AddKeepsConsistent(s: seq<Bookmark>, names: map<string, Bookmark>,
                           urls: map<string, Bookmark>, tags: map<string, seq<Bookmark>>,
                           b: Bookmark)
    requires Consistent(s, names, urls, tags)
    requires FirstIndex(s, b.name) == -1
    ensures Consistent(s + [b], names[b.name := b], urls[b.url := b], AppendTags(tags, b, b.tags))
  {
    SnocKeyConsistent(names, s, ByName, b);
    SnocKeyConsistent(urls, s, ByUrl, b);
    SnocTagConsistent(tags, s, b);
    var s' := s + [b];
    forall i, j | 0 <= i < |s'| && 0 <= j < |s'| && s'[i].name == s'[j].name ensures i == j {
    }
  }
}
