/** The collection and filters defined inline in the site's Eleventy configuration:
    the `posts` collection and the `head`, `getAllTags` and `filterTagList` filters. */
module EleventyConfig {
  import opened Js
  import opened Seqs
  import opened Items

  function Min(a: int, b: int): int { if a <= b then a else b }

  // ---- head ----

  /** How `Array.prototype.slice` turns a relative index into a position in `0..len`. */
  function SliceIndex(relative: int, len: nat): (k: nat)
    ensures k <= len
    ensures relative < 0 ==> k == len - Min(-relative, len)
    ensures relative >= 0 ==> k == Min(relative, len)
  {
    if relative < 0 then (if len + relative < 0 then 0 else len + relative)
    else if relative > len then len
    else relative
  }

  /** `s.slice(start, end)`, an absent `end` meaning the length. */
  function Slice<T>(s: seq<T>, start: int, end: Option<int>): (r: seq<T>)
    ensures var from, to := SliceIndex(start, |s|), (if end.None? then |s| else SliceIndex(end.value, |s|));
      |r| == (if from < to then to - from else 0)
      && forall k :: 0 <= k < |r| ==> r[k] == s[from + k]
  {
    var from := SliceIndex(start, |s|);
    var to := match end case None => |s| case Some(e) => SliceIndex(e, |s|);
    if from < to then s[from..to] else []
  }

  /** The `head` filter. `list` is `None` for an argument that is not an array; `n` is
      `None` when it is `undefined`, in which case `n < 0` is false and `slice(0, undefined)`
      copies the whole array. A `null` `n` (for which `slice(0, null)` is empty) is not modelled. */
  function Head<T>(list: Option<seq<T>>, n: Option<int>): (r: seq<T>)
    ensures list.None? || list.value == [] ==> r == []
    ensures list.Some? ==> |r| <= |list.value|
    ensures list.Some? && n.None? ==> r == list.value
    ensures list.Some? && n.Some? && n.value < 0 ==>
      r == list.value[|list.value| - Min(-n.value, |list.value|)..]
    ensures list.Some? && n.Some? && n.value >= 0 ==>
      r == list.value[..Min(n.value, |list.value|)]
  {
    if list.None? || |list.value| == 0 then []
    else if n.Some? && n.value < 0 then Slice(list.value, n.value, None)
    else Slice(list.value, 0, n)
  }

  // ---- getAllTags ----

  /** `item.data.tags || []`. */
  function TagsOf(x: Item): (r: seq<string>)
    ensures x.data.tags.None? ==> r == []
    ensures x.data.tags.Some? ==> r == x.data.tags.value
  {
    x.data.tags.GetOr([])
  }

  /** Every tag of every item, item after item, with repetitions. */
  function TagOccurrences(c: seq<Item>): seq<string>
    decreases |c|
  {
    if c == [] then [] else TagOccurrences(c[..|c| - 1]) + TagsOf(c[|c| - 1])
  }

  /** Every occurrence of a tag in any one item is among the occurrences of the collection. */
  lemma {:induction false} TagOccurrencesKeepsEveryTag(c: seq<Item>, i: nat)
    requires i < |c|
    ensures multiset(TagsOf(c[i])) <= multiset(TagOccurrences(c))
    decreases |c|
  {
    var last := |c| - 1;
    assert TagOccurrences(c) == TagOccurrences(c[..last]) + TagsOf(c[last]);
    if i < last {
      TagOccurrencesKeepsEveryTag(c[..last], i);
      assert c[..last][i] == c[i];
    }
  }

  /** `set.add(x)` on a JavaScript `Set`, whose iteration order is insertion order. */
  function SetAdd(tagSet: seq<string>, x: string): (r: seq<string>)
    ensures x in r
    ensures x in tagSet ==> r == tagSet
    ensures x !in tagSet ==> |r| == |tagSet| + 1 && r[..|tagSet|] == tagSet && r[|tagSet|] == x
  {
    if x in tagSet then tagSet else tagSet + [x]
  }

  /** `Array.from(new Set(s))`: the distinct elements of `s`, in order of first appearance. */
  function Dedup(s: seq<string>): seq<string>
    decreases |s|
  {
    if s == [] then [] else SetAdd(Dedup(s[..|s| - 1]), s[|s| - 1])
  }

  predicate NoDuplicates(s: seq<string>) {
    forall i, j :: 0 <= i < j < |s| ==> s[i] != s[j]
  }

  /** The position where `x` first occurs in `s`. */
  function FirstIndex(s: seq<string>, x: string): (k: nat)
    requires x in s
    ensures k < |s| && s[k] == x && forall j :: 0 <= j < k ==> s[j] != x
    decreases |s|
  {
    if s[0] == x then 0 else 1 + FirstIndex(s[1..], x)
  }

  lemma {:induction false} FirstIndexSnoc(s: seq<string>, y: string, x: string)
    requires x in s
    ensures FirstIndex(s + [y], x) == FirstIndex(s, x)
  {
    var k := FirstIndex(s, x);
    var t := s + [y];
    assert t[k] == x;
    assert forall j :: 0 <= j < k ==> t[j] == s[j];
    var k' := FirstIndex(t, x);
    assert k' <= k;
  }

  lemma {:induction false} DedupMembership(s: seq<string>, x: string)
    ensures x in Dedup(s) <==> x in s
    decreases |s|
  {
    if s != [] {
      var front := s[..|s| - 1];
      DedupMembership(front, x);
      assert s == front + [s[|s| - 1]];
    }
  }

  lemma {:induction false} DedupNoDuplicates(s: seq<string>)
    ensures NoDuplicates(Dedup(s))
    decreases |s|
  {
    if s != [] {
      DedupNoDuplicates(s[..|s| - 1]);
    }
  }

  /** The distinct elements come out in the order in which they first appear. */
  lemma {:induction false} DedupFirstAppearance(s: seq<string>)
    ensures forall x :: x in Dedup(s) ==> x in s
    ensures forall i, j :: 0 <= i < j < |Dedup(s)| ==> FirstIndex(s, Dedup(s)[i]) < FirstIndex(s, Dedup(s)[j])
    decreases |s|
  {
    forall x | x in Dedup(s)
      ensures x in s
    {
      DedupMembership(s, x);
    }
    if s != [] {
      var front := s[..|s| - 1];
      var y := s[|s| - 1];
      assert s == front + [y];
      DedupFirstAppearance(front);
      var d := Dedup(front);
      forall x | x in d
        ensures FirstIndex(s, x) == FirstIndex(front, x)
      {
        FirstIndexSnoc(front, y, x);
      }
      if y !in d {
        DedupMembership(front, y);
        assert FirstIndex(s, y) == |front| by {
          assert s[|front|] == y;
          assert forall j :: 0 <= j < |front| ==> s[j] == front[j];
        }
        assert Dedup(s) == d + [y];
      }
    }
  }

  /** A tag occurs somewhere exactly when some item lists it. */
  lemma {:induction false} TagOccurrencesMembership(c: seq<Item>, t: string)
    ensures t in TagOccurrences(c) <==> exists i :: 0 <= i < |c| && t in TagsOf(c[i])
    decreases |c|
  {
    if c != [] {
      var front := c[..|c| - 1];
      TagOccurrencesMembership(front, t);
      if t in TagsOf(c[|c| - 1]) {
        assert exists i :: 0 <= i < |c| && t in TagsOf(c[i]) by {
          assert t in TagsOf(c[|c| - 1]);
        }
      }
      if exists i :: 0 <= i < |c| && t in TagsOf(c[i]) {
        var i :| 0 <= i < |c| && t in TagsOf(c[i]);
        if i < |c| - 1 {
          assert front[i] == c[i];
        }
      }
      if exists i :: 0 <= i < |front| && t in TagsOf(front[i]) {
        var i :| 0 <= i < |front| && t in TagsOf(front[i]);
        assert c[i] == front[i];
      }
    }
  }

  /** The `getAllTags` filter: a `Set` filled item by item, tag by tag, then read back in
      insertion order. */
  method GetAllTags(collection: seq<Item>) returns (tags: seq<string>)
    ensures tags == Dedup(TagOccurrences(collection))
    ensures NoDuplicates(tags)
    ensures forall t :: t in tags <==> exists i :: 0 <= i < |collection| && t in TagsOf(collection[i])
    ensures forall i :: 0 <= i < |tags| ==> tags[i] in TagOccurrences(collection)
    ensures forall i, j :: 0 <= i < j < |tags| ==>
      FirstIndex(TagOccurrences(collection), tags[i]) < FirstIndex(TagOccurrences(collection), tags[j])
  {
    var tagSet: seq<string> := [];
    for i := 0 to |collection|
      invariant tagSet == Dedup(TagOccurrences(collection[..i]))
    {
      var itemTags := TagsOf(collection[i]);
      var seen := TagOccurrences(collection[..i]);
      assert seen + itemTags[..0] == seen;
      for j := 0 to |itemTags|
        invariant tagSet == Dedup(seen + itemTags[..j])
      {
        assert (seen + itemTags[..j + 1])[..|seen + itemTags[..j]|] == seen + itemTags[..j];
        tagSet := SetAdd(tagSet, itemTags[j]);
      }
      assert itemTags[..|itemTags|] == itemTags;
      assert collection[..i + 1][..i] == collection[..i];
    }
    assert collection[..|collection|] == collection;
    tags := tagSet;
    AllTagsSpec(collection);
  }

  /** What `getAllTags` promises, stated of the de-duplicated tag occurrences. */
  lemma AllTagsSpec(collection: seq<Item>)
    ensures var tags := Dedup(TagOccurrences(collection));
      NoDuplicates(tags)
      && (forall t :: t in tags <==> exists i :: 0 <= i < |collection| && t in TagsOf(collection[i]))
      && (forall i :: 0 <= i < |tags| ==> tags[i] in TagOccurrences(collection))
      && (forall i, j :: 0 <= i < j < |tags| ==>
            FirstIndex(TagOccurrences(collection), tags[i]) < FirstIndex(TagOccurrences(collection), tags[j]))
  {
    var tags := Dedup(TagOccurrences(collection));
    DedupNoDuplicates(TagOccurrences(collection));
    DedupFirstAppearance(TagOccurrences(collection));
    forall t
      ensures t in tags <==> exists i :: 0 <= i < |collection| && t in TagsOf(collection[i])
    {
      DedupMembership(TagOccurrences(collection), t);
      TagOccurrencesMembership(collection, t);
    }
  }

  // ---- filterTagList ----

  /** The tags Eleventy and the site use for their own collections. */
  const Reserved: seq<string> := ["all", "nav", "post", "posts"]

  function NotReserved(tag: string): bool { tag !in Reserved }

  /** The `filterTagList` filter: `(tags || [])` without the reserved tags, in order. */
  function FilterTagList(tags: Option<seq<string>>): (r: seq<string>)
    ensures tags.None? ==> r == []
    ensures IsSubsequence(r, tags.GetOr([]))
    ensures forall t :: t in r <==> t in tags.GetOr([]) && t !in Reserved
    ensures forall t :: t !in Reserved ==> multiset(r)[t] == multiset(tags.GetOr([]))[t]
  {
    var s := tags.GetOr([]);
    FilterSubsequence(s, NotReserved);
    assert forall t :: t in Filter(s, NotReserved) <==> t in s && NotReserved(t) by {
      forall t
        ensures t in Filter(s, NotReserved) <==> t in s && NotReserved(t)
      {
        FilterMembership(s, NotReserved, t);
      }
    }
    assert forall t :: NotReserved(t) ==> multiset(Filter(s, NotReserved))[t] == multiset(s)[t] by {
      forall t
        ensures NotReserved(t) ==> multiset(Filter(s, NotReserved))[t] == multiset(s)[t]
      {
        FilterCount(s, NotReserved, t);
      }
    }
    Filter(s, NotReserved)
  }

  lemma FilterTagListIdempotent(tags: Option<seq<string>>)
    ensures FilterTagList(Some(FilterTagList(tags))) == FilterTagList(tags)
  {
    FilterIdempotent(tags.GetOr([]), NotReserved);
  }

  // ---- The posts collection ----

  function IsPost(x: Item): bool { x.data.category == Some("posts") }

  /** The `posts` collection: the glob's items whose category is `posts`, in reverse input order. */
  function Posts(glob: seq<Item>): (r: seq<Item>)
    ensures |r| <= |glob|
    ensures forall i :: 0 <= i < |r| ==> IsPost(r[i]) && r[i] in glob
    ensures forall i :: 0 <= i < |glob| ==> (glob[i] in r <==> IsPost(glob[i]))
    ensures forall i :: 0 <= i < |glob| && IsPost(glob[i]) ==> multiset(r)[glob[i]] == multiset(glob)[glob[i]]
    ensures IsSubsequence(Reverse(r), glob)
  {
    ReversedFilter(glob, IsPost);
    Reverse(Filter(glob, IsPost))
  }

  /** The facts about `Posts`, for any predicate. */
  lemma ReversedFilter<T>(s: seq<T>, p: T -> bool)
    ensures var r := Reverse(Filter(s, p));
      && |r| <= |s|
      && (forall i :: 0 <= i < |r| ==> p(r[i]) && r[i] in s)
      && (forall i :: 0 <= i < |s| ==> (s[i] in r <==> p(s[i])))
      && (forall i :: 0 <= i < |s| && p(s[i]) ==> multiset(r)[s[i]] == multiset(s)[s[i]])
      && IsSubsequence(Reverse(r), s)
  {
    ReversedFilterMembership(s, p);
    ReversedFilterOrder(s, p);
  }

  lemma ReversedFilterMembership<T>(s: seq<T>, p: T -> bool)
    ensures var r := Reverse(Filter(s, p));
      && (forall i :: 0 <= i < |r| ==> p(r[i]) && r[i] in s)
      && (forall i :: 0 <= i < |s| ==> (s[i] in r <==> p(s[i])))
  {
    var w := Filter(s, p);
    FilterSpec(s, p);
    forall i | 0 <= i < |s|
      ensures s[i] in Reverse(w) <==> s[i] in w
    {
      ReverseMembership(w, s[i]);
    }
  }

  lemma ReversedFilterOrder<T>(s: seq<T>, p: T -> bool)
    ensures var r := Reverse(Filter(s, p));
      && (forall i :: 0 <= i < |s| && p(s[i]) ==> multiset(r)[s[i]] == multiset(s)[s[i]])
      && IsSubsequence(Reverse(r), s)
  {
    var w := Filter(s, p);
    FilterSpec(s, p);
    ReverseReverse(w);
    ReverseMultiset(w);
  }
}
