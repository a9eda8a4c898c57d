/** The note and post collection helpers: three visibility filters gated by the
    `ELEVENTY_PRODUCTION` environment variable (passed in explicitly), and the content
    tree builder that nests notes under the note their front matter names as `parent`. */
module Collections {
  import opened Js
  import opened Seqs
  import opened Items

  // ---- Visibility filters ----

  function IsPublished(x: Item): bool { x.data.published }

  function IsPublic(x: Item): bool { !x.data.isPrivate }

  /** `item.date <= now`, with `now` the clock reading the filter is called with. */
  function DueBy(now: int): Item -> bool { (x: Item) => x.date <= now }

  /** `removeDrafts`: in production, the published items in input order; otherwise the input. */
  function RemoveDrafts(production: Option<string>, collection: seq<Item>): (r: seq<Item>)
    ensures |r| <= |collection|
    ensures !TruthyStr(production) ==> r == collection
    ensures TruthyStr(production) ==>
      && IsSubsequence(r, collection)
      && (forall i :: 0 <= i < |r| ==> r[i].data.published && r[i] in collection)
      && (forall i :: 0 <= i < |collection| ==> (collection[i] in r <==> collection[i].data.published))
      && (forall i :: 0 <= i < |collection| && collection[i].data.published ==>
            multiset(r)[collection[i]] == multiset(collection)[collection[i]])
  {
    if TruthyStr(production) then
      FilterSpec(collection, IsPublished);
      Filter(collection, IsPublished)
    else collection
  }

  /** `removeScheduled`: in production, the items dated no later than `now`, in input order. */
  function RemoveScheduled(production: Option<string>, now: int, collection: seq<Item>): (r: seq<Item>)
    ensures |r| <= |collection|
    ensures !TruthyStr(production) ==> r == collection
    ensures TruthyStr(production) ==>
      && IsSubsequence(r, collection)
      && (forall i :: 0 <= i < |r| ==> r[i].date <= now && r[i] in collection)
      && (forall i :: 0 <= i < |collection| ==> (collection[i] in r <==> collection[i].date <= now))
      && (forall i :: 0 <= i < |collection| && collection[i].date <= now ==>
            multiset(r)[collection[i]] == multiset(collection)[collection[i]])
  {
    if TruthyStr(production) then
      FilterSpec(collection, DueBy(now));
      Filter(collection, DueBy(now))
    else collection
  }

  /** `removePrivate`: in production, the items not marked private, in input order. */
  function RemovePrivate(production: Option<string>, collection: seq<Item>): (r: seq<Item>)
    ensures |r| <= |collection|
    ensures !TruthyStr(production) ==> r == collection
    ensures TruthyStr(production) ==>
      && IsSubsequence(r, collection)
      && (forall i :: 0 <= i < |r| ==> !r[i].data.isPrivate && r[i] in collection)
      && (forall i :: 0 <= i < |collection| ==> (collection[i] in r <==> !collection[i].data.isPrivate))
      && (forall i :: 0 <= i < |collection| && !collection[i].data.isPrivate ==>
            multiset(r)[collection[i]] == multiset(collection)[collection[i]])
  {
    if TruthyStr(production) then
      FilterSpec(collection, IsPublic);
      Filter(collection, IsPublic)
    else collection
  }

  lemma RemoveDraftsIdempotent(production: Option<string>, collection: seq<Item>)
    ensures RemoveDrafts(production, RemoveDrafts(production, collection)) == RemoveDrafts(production, collection)
  {
    if TruthyStr(production) {
      FilterIdempotent(collection, IsPublished);
    }
  }

  lemma RemoveScheduledIdempotent(production: Option<string>, now: int, collection: seq<Item>)
    ensures RemoveScheduled(production, now, RemoveScheduled(production, now, collection))
         == RemoveScheduled(production, now, collection)
  {
    if TruthyStr(production) {
      FilterIdempotent(collection, DueBy(now));
    }
  }

  lemma RemovePrivateIdempotent(production: Option<string>, collection: seq<Item>)
    ensures RemovePrivate(production, RemovePrivate(production, collection)) == RemovePrivate(production, collection)
  {
    if TruthyStr(production) {
      FilterIdempotent(collection, IsPublic);
    }
  }

  // ---- Content tree builder ----

  /** Why `sortByParent` throws: the named parent slug is not in the index. */
  datatype TreeError = MissingParent(slug: string)

  /** The `tree` dictionary after the first pass: every item under its `fileSlug`, a later
      item overwriting an earlier one with the same slug. */
  function Index(c: seq<Item>): (tree: map<string, Item>)
    ensures forall i :: 0 <= i < |c| ==> c[i].fileSlug in tree
    ensures forall k :: k in tree ==> tree[k].fileSlug == k && tree[k] in c
    decreases |c|
  {
    if c == [] then map[]
    else
      var last := c[|c| - 1];
      Index(c[..|c| - 1])[last.fileSlug := last]
  }

  /** Last write wins: a slug maps to the last item carrying it. */
  lemma {:induction false} IndexLastWins(c: seq<Item>, i: nat)
    requires i < |c|
    requires forall j :: i < j < |c| ==> c[j].fileSlug != c[i].fileSlug
    ensures Index(c)[c[i].fileSlug] == c[i]
    decreases |c|
  {
    if i < |c| - 1 {
      var front := c[..|c| - 1];
      assert forall j :: i < j < |front| ==> front[j] == c[j];
      IndexLastWins(front, i);
    }
  }

  /** An item without a (truthy) parent: a root. */
  function IsRoot(x: Item): bool { !TruthyStr(x.data.parent) }

  /** An item naming a parent slug the index lacks: the lookup yields `undefined`. */
  predicate Unresolved(x: Item, tree: map<string, Item>) {
    TruthyStr(x.data.parent) && x.data.parent.value !in tree
  }

  /** The second pass pushes `x` into the children of `n`. */
  function AttachedTo(tree: map<string, Item>, n: Item): Item -> bool {
    (x: Item) => TruthyStr(x.data.parent) && x.data.parent.value in tree && tree[x.data.parent.value] == n
  }

  /** What the second pass, run over `prefix`, has pushed into the children of `n`. */
  function PushedTo(prefix: seq<Item>, tree: map<string, Item>, n: Item): seq<Item> {
    Filter(prefix, AttachedTo(tree, n))
  }

  /** The roots `sortByParent` returns: the items with a falsy parent, each once, in input order. */
  function Roots(c: seq<Item>): (r: seq<Item>)
    ensures IsSubsequence(r, c)
    ensures forall i :: 0 <= i < |r| ==> !TruthyStr(r[i].data.parent) && r[i] in c
    ensures forall i :: 0 <= i < |c| ==> (c[i] in r <==> !TruthyStr(c[i].data.parent))
    ensures forall i :: 0 <= i < |c| && !TruthyStr(c[i].data.parent) ==>
      multiset(r)[c[i]] == multiset(c)[c[i]]
  {
    FilterSpec(c, IsRoot);
    Filter(c, IsRoot)
  }

  /** The children `n` ends up with: the items whose parent slug indexes `n`, in input order. */
  function ChildrenOf(c: seq<Item>, n: Item): (r: seq<Item>)
    ensures IsSubsequence(r, c)
    ensures forall i :: 0 <= i < |r| ==>
      TruthyStr(r[i].data.parent) && r[i].data.parent.value in Index(c) && Index(c)[r[i].data.parent.value] == n
    ensures forall i :: 0 <= i < |c| ==>
      (c[i] in r <==> TruthyStr(c[i].data.parent) && c[i].data.parent.value in Index(c)
                      && Index(c)[c[i].data.parent.value] == n)
    ensures forall i :: 0 <= i < |c| && AttachedTo(Index(c), n)(c[i]) ==>
      multiset(r)[c[i]] == multiset(c)[c[i]]
  {
    FilterSpec(c, AttachedTo(Index(c), n));
    PushedTo(c, Index(c), n)
  }

  /** The first position, from `from` on, whose parent does not resolve in `tree`. */
  function FirstUnresolvedFrom(c: seq<Item>, tree: map<string, Item>, from: nat): (r: Option<nat>)
    requires from <= |c|
    ensures r.Some? ==> from <= r.value < |c| && Unresolved(c[r.value], tree)
    ensures r.Some? ==> forall j :: from <= j < r.value ==> !Unresolved(c[j], tree)
    ensures r.None? ==> forall j :: from <= j < |c| ==> !Unresolved(c[j], tree)
    decreases |c| - from
  {
    if from == |c| then None
    else if Unresolved(c[from], tree) then Some(from)
    else FirstUnresolvedFrom(c, tree, from + 1)
  }

  /** The position of the item whose parent lookup makes `sortByParent` throw, if any. */
  function FirstUnresolved(c: seq<Item>): Option<nat> {
    FirstUnresolvedFrom(c, Index(c), 0)
  }

  /** The value `sortByParent` returns: it succeeds exactly when every truthy parent slug
      resolves, with the roots; otherwise it fails on the first parent that does not. */
  function TreeResult(c: seq<Item>): (r: Result<seq<Item>, TreeError>)
    ensures r.Ok? <==> forall i :: 0 <= i < |c| ==> !Unresolved(c[i], Index(c))
    ensures r.Ok? ==> r.value == Roots(c)
    ensures r.Err? ==>
      exists i :: 0 <= i < |c| && Unresolved(c[i], Index(c))
        && r.error == MissingParent(c[i].data.parent.value)
        && forall j :: 0 <= j < i ==> !Unresolved(c[j], Index(c))
  {
    var fu := FirstUnresolved(c);
    if fu.None? then Ok(Roots(c))
    else Err(MissingParent(c[fu.value].data.parent.value))
  }

  /** `sortByParent`. The first pass resets every item's `children` and indexes it by
      `fileSlug`; the second appends each item either to the roots or to the children of the
      item its parent slug indexes. A parent slug missing from the index (compared exactly,
      without case folding) makes the call throw; the pushes made before that stay in place. */
  method SortByParent(collection: seq<Item>) returns (result: Result<seq<Item>, TreeError>)
    modifies set x | x in collection
    ensures FirstUnresolved(collection).None? ==>
      && result == Ok(Roots(collection))
      && forall j :: 0 <= j < |collection| ==> collection[j].children == ChildrenOf(collection, collection[j])
    ensures FirstUnresolved(collection).Some? ==>
      var i := FirstUnresolved(collection).value;
      && result == Err(MissingParent(collection[i].data.parent.value))
      && forall j :: 0 <= j < |collection| ==>
           collection[j].children == PushedTo(collection[..i], Index(collection), collection[j])
    ensures result == TreeResult(collection)
  {
    var tree := IndexItems(collection);
    ghost var stop;
    result, stop := ConnectChildren(collection, tree);
    SecondPassStops(collection, stop, result);
  }

  /** The first pass: empty every item's `children` and build the slug index. */
  method IndexItems(collection: seq<Item>) returns (tree: map<string, Item>)
    modifies set x | x in collection
    ensures tree == Index(collection)
    ensures forall j :: 0 <= j < |collection| ==> collection[j].children == []
  {
    tree := map[];
    var i := 0;
    while i < |collection|
      invariant 0 <= i <= |collection|
      invariant tree == Index(collection[..i])
      invariant forall j :: 0 <= j < i ==> collection[j].children == []
    {
      var item := collection[i];
      item.children := [];
      assert collection[..i + 1][..i] == collection[..i];
      tree := tree[item.fileSlug := item];
      i := i + 1;
    }
    assert collection[..i] == collection;
  }

  /** The second pass, over items whose `children` the first pass emptied. It runs to the end,
      or it stops at the first item whose parent slug is missing from the index: the code logs
      that slug, then throws reading `children` of `undefined`. `stop` is where it ended; the
      items before `stop` have been pushed. */
  method ConnectChildren(collection: seq<Item>, tree: map<string, Item>)
      returns (result: Result<seq<Item>, TreeError>, ghost stop: nat)
    requires forall j :: 0 <= j < |collection| ==> collection[j].children == []
    requires forall k :: k in tree ==> tree[k] in collection
    modifies set x | x in collection
    ensures stop <= |collection| && ResolvedBefore(collection, tree, stop)
    ensures stop == |collection| ==> result == Ok(Filter(collection[..stop], IsRoot))
    ensures stop < |collection| ==>
      && Unresolved(collection[stop], tree)
      && result == Err(MissingParent(collection[stop].data.parent.value))
    ensures forall j :: 0 <= j < |collection| ==>
      collection[j].children == PushedTo(collection[..stop], tree, collection[j])
  {
    var roots: seq<Item> := [];
    var i := 0;
    while i < |collection|
      invariant 0 <= i <= |collection|
      invariant roots == Filter(collection[..i], IsRoot)
      invariant ResolvedBefore(collection, tree, i)
      invariant forall j :: 0 <= j < |collection| ==>
        collection[j].children == PushedTo(collection[..i], tree, collection[j])
    {
      if Unresolved(collection[i], tree) {
        return Err(MissingParent(collection[i].data.parent.value)), i;
      }
      roots := ConnectItem(collection, tree, i, roots);
      i := i + 1;
    }
    result, stop := Ok(roots), i;
  }

  /** One step of the second pass, for an item whose parent slug (if truthy) resolves: a root
      is appended to the roots, any other item to the `children` of its parent, and every
      item's `children` then holds the pushes of one more item. */
  method ConnectItem(collection: seq<Item>, tree: map<string, Item>, i: nat, roots: seq<Item>)
      returns (roots': seq<Item>)
    requires i < |collection| && !Unresolved(collection[i], tree)
    requires forall k :: k in tree ==> tree[k] in collection
    requires roots == Filter(collection[..i], IsRoot)
    requires forall j :: 0 <= j < |collection| ==>
      collection[j].children == PushedTo(collection[..i], tree, collection[j])
    modifies set x | x in collection
    ensures roots' == Filter(collection[..i + 1], IsRoot)
    ensures forall j :: 0 <= j < |collection| ==>
      collection[j].children == PushedTo(collection[..i + 1], tree, collection[j])
  {
    var item := collection[i];
    if TruthyStr(item.data.parent) {
      var parent := tree[item.data.parent.value];
      parent.children := parent.children + [item];
      roots' := roots;
    } else {
      roots' := roots + [item];
    }
    FilterPrefix(collection, i, IsRoot);
    forall j | 0 <= j < |collection|
      ensures collection[j].children == PushedTo(collection[..i + 1], tree, collection[j])
    {
      FilterPrefix(collection, i, AttachedTo(tree, collection[j]));
    }
  }

  /** Every parent slug among the first `k` items resolves in `tree`. */
  predicate ResolvedBefore(c: seq<Item>, tree: map<string, Item>, k: nat)
    requires k <= |c|
    decreases k
  {
    k == 0 || (ResolvedBefore(c, tree, k - 1) && !Unresolved(c[k - 1], tree))
  }

  /** `ResolvedBefore` holds exactly for prefixes with no unresolved item. */
  lemma {:induction false} ResolvedBeforeAll(c: seq<Item>, tree: map<string, Item>, k: nat)
    requires k <= |c| && ResolvedBefore(c, tree, k)
    ensures forall j :: 0 <= j < k ==> !Unresolved(c[j], tree)
    decreases k
  {
    if k > 0 {
      ResolvedBeforeAll(c, tree, k - 1);
    }
  }

  /** Where the second pass stops decides what `sortByParent` returns. */
  lemma SecondPassStops(c: seq<Item>, stop: nat, r: Result<seq<Item>, TreeError>)
    requires stop <= |c| && ResolvedBefore(c, Index(c), stop)
    requires stop == |c| ==> r == Ok(Filter(c[..stop], IsRoot))
    requires stop < |c| ==> Unresolved(c[stop], Index(c)) && r == Err(MissingParent(c[stop].data.parent.value))
    ensures FirstUnresolved(c) == if stop < |c| then Some(stop) else None
    ensures r == TreeResult(c)
    ensures stop == |c| ==> c[..stop] == c
  {
    ResolvedBeforeAll(c, Index(c), stop);
    assert stop == |c| ==> c[..stop] == c;
  }

  /** With no failing lookup, every item with a parent lies in the children of exactly one
      item (the last one carrying its parent slug) and is not a root. */
  lemma ExactlyOneParent(c: seq<Item>, k: nat)
    requires k < |c| && FirstUnresolved(c).None?
    requires TruthyStr(c[k].data.parent)
    ensures c[k].data.parent.value in Index(c)
    ensures c[k] !in Roots(c)
    ensures forall j :: 0 <= j < |c| ==> (c[k] in ChildrenOf(c, c[j]) <==> c[j] == Index(c)[c[k].data.parent.value])
  {
    assert !Unresolved(c[k], Index(c));
  }

  /** A note naming its own slug as parent (and last with that slug) lands in its own children. */
  lemma SelfParent(c: seq<Item>, k: nat)
    requires k < |c|
    requires c[k].data.parent == Some(c[k].fileSlug) && c[k].fileSlug != ""
    requires forall j :: k < j < |c| ==> c[j].fileSlug != c[k].fileSlug
    ensures c[k] in ChildrenOf(c, c[k])
  {
    IndexLastWins(c, k);
  }

  /** Slugs are compared exactly: a parent "A" does not find the note "a", and the call throws. */
  lemma NoCaseFolding(a: Item, b: Item)
    requires a.fileSlug == "a" && b.fileSlug == "b"
    requires a.data.parent == None && b.data.parent == Some("A")
    ensures FirstUnresolved([a, b]) == Some(1)
  {
    var c := [a, b];
    assert c[..1] == [a];
    assert Index(c).Keys == {"a", "b"};
  }

  /** The notes collection removes private notes before building the tree. In production a
      public note whose parent is private then names a missing parent, and the build throws. */
  lemma PrivateParentFailsTree(production: Option<string>, p: Item, q: Item)
    requires TruthyStr(production)
    requires p.fileSlug == "p" && p.data.isPrivate
    requires q.fileSlug == "q" && !q.data.isPrivate && q.data.parent == Some("p")
    ensures RemovePrivate(production, [p, q]) == [q]
    ensures FirstUnresolved(RemovePrivate(production, [p, q])) == Some(0)
  {
    assert Filter([p, q], IsPublic) == Filter([q], IsPublic);
    assert Filter([q], IsPublic) == [q] + Filter([], IsPublic);
    assert Index([q]) == map["q" := q];
  }

  // ---- The notes collection ----

  /** The notes collection as written: private notes are removed, the tree is built, and
      private notes are removed again from the returned roots. */
  function NotesAsWritten(production: Option<string>, notes: seq<Item>): (r: Result<seq<Item>, TreeError>)
    ensures !TruthyStr(production) ==> r == TreeResult(notes)
    ensures r.Ok? <==> TreeResult(RemovePrivate(production, notes)).Ok?
    ensures r.Ok? ==> forall i :: 0 <= i < |r.value| ==>
      !TruthyStr(r.value[i].data.parent) && (TruthyStr(production) ==> !r.value[i].data.isPrivate)
  {
    match TreeResult(RemovePrivate(production, notes))
    case Ok(roots) => Ok(RemovePrivate(production, roots))
    case Err(e) => Err(e)
  }

  /** The notes collection with the tree built from every note and the private notes removed
      only from the roots, so that a private root takes its whole subtree with it. */
  function NotesIntended(production: Option<string>, notes: seq<Item>): (r: Result<seq<Item>, TreeError>)
    ensures !TruthyStr(production) ==> r == TreeResult(notes)
    ensures r.Ok? <==> TreeResult(notes).Ok?
    ensures r.Ok? ==> forall i :: 0 <= i < |r.value| ==>
      !TruthyStr(r.value[i].data.parent) && (TruthyStr(production) ==> !r.value[i].data.isPrivate)
  {
    match TreeResult(notes)
    case Ok(roots) => Ok(RemovePrivate(production, roots))
    case Err(e) => Err(e)
  }

  /** As written, a private parent with a public child makes the notes collection throw. */
  lemma NotesAsWrittenFailsOnPrivateParent(production: Option<string>, p: Item, q: Item)
    requires TruthyStr(production)
    requires p.fileSlug == "p" && p.data.isPrivate && p.data.parent == None
    requires q.fileSlug == "q" && !q.data.isPrivate && q.data.parent == Some("p")
    ensures NotesAsWritten(production, [p, q]) == Err(MissingParent("p"))
  {
    PrivateParentFailsTree(production, p, q);
  }

  /** With the correction, the same notes build, and the public child leaves with its private parent. */
  lemma NotesIntendedPrunesPrivateParent(production: Option<string>, p: Item, q: Item)
    requires TruthyStr(production)
    requires p.fileSlug == "p" && p.data.isPrivate && p.data.parent == None
    requires q.fileSlug == "q" && !q.data.isPrivate && q.data.parent == Some("p")
    ensures NotesIntended(production, [p, q]) == Ok([])
  {
    var c: seq<Item> := [p, q];
    assert Index(c).Keys == {"p", "q"};
    assert c[..1] == [p];
    assert FirstUnresolvedFrom(c, Index(c), 2) == None;
    assert FirstUnresolved(c) == None;
    var pp: seq<Item>, qq: seq<Item>, none: seq<Item> := [p], [q], [];
    assert Filter(c, IsRoot) == pp + Filter(qq, IsRoot);
    assert Filter(qq, IsRoot) == none + Filter(none, IsRoot);
    assert Filter(pp, IsPublic) == none + Filter(none, IsPublic);
  }

  /** With the correction, in production a tree that resolves yields exactly the public roots:
      no private note and no note with a parent is returned. */
  lemma NotesIntendedPublicRoots(production: Option<string>, notes: seq<Item>)
    requires TruthyStr(production) && FirstUnresolved(notes).None?
    ensures NotesIntended(production, notes).Ok?
    ensures var r := NotesIntended(production, notes).value;
      (forall i :: 0 <= i < |r| ==> !r[i].data.isPrivate && !TruthyStr(r[i].data.parent))
      && (forall i :: 0 <= i < |notes| ==>
            (notes[i] in r <==> !notes[i].data.isPrivate && !TruthyStr(notes[i].data.parent)))
  {
    var roots := Roots(notes);
    var r := RemovePrivate(production, roots);
    forall i | 0 <= i < |r|
      ensures !r[i].data.isPrivate && !TruthyStr(r[i].data.parent)
    {
      assert r[i] in roots;
      var j :| 0 <= j < |roots| && roots[j] == r[i];
    }
    forall i | 0 <= i < |notes|
      ensures notes[i] in r <==> !notes[i].data.isPrivate && !TruthyStr(notes[i].data.parent)
    {
      if notes[i] in r {
        var j :| 0 <= j < |r| && r[j] == notes[i];
      }
      if !notes[i].data.isPrivate && !TruthyStr(notes[i].data.parent) {
        FilterMembership(roots, IsPublic, notes[i]);
      }
    }
  }
}
