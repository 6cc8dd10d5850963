/** The two community detection pipelines over the optimizer: detect, split
    what is too large, order the result. */
module ClusterEngines {
  import opened Wrappers
  import opened GoMaps
  import opened KnowledgeGraphs
  import opened Partitions
  import opened Modularity
  import opened LouvainSweeps
  import opened Louvain
  import opened Sorting

  datatype ClusterOptions = ClusterOptions(resolution: real, maxIterations: int, maxCommunityFraction: real,
                                           minSplitSize: int)

  /** How communities are broken up: by a detection on their own nodes if they
      have more than `maxSize`. */
  datatype Carving<T(==,!new)> = Carving(graph: KnowledgeGraph<T>, resolution: real, maxIterations: int, maxSize: int)

  function SetOf<T>(xs: seq<T>): set<T> {
    set u | u in xs
  }

  ghost predicate NoDuplicates<T>(xs: seq<T>) {
    forall i, j :: 0 <= i < j < |xs| ==> xs[i] != xs[j]
  }

  ghost predicate Disjoint<T(!new)>(xs: seq<T>, ys: seq<T>) {
    forall u :: u in xs ==> u !in ys
  }

  /** The lists split the node set: non-empty, without repetition, and every
      node in exactly one of them. */
  ghost predicate Splits<T(!new)>(lists: multiset<seq<T>>, s: set<T>) {
    && (forall xs :: xs in lists ==> lists[xs] == 1 && xs != [] && NoDuplicates(xs))
    && (forall xs, ys :: xs in lists && ys in lists && xs != ys ==> Disjoint(xs, ys))
    && (forall xs, u :: xs in lists && u in xs ==> u in s)
    && (forall u :: u in s ==> exists xs :: xs in lists && u in xs)
  }

  lemma SplitsOfOne<T(!new)>(xs: seq<T>, s: set<T>)
    requires IsListing(xs, s) && xs != []
    ensures Splits(multiset{xs}, s)
  {
    forall u | u in s ensures exists ys :: ys in multiset{xs} && u in ys {
      assert xs in multiset{xs} && u in xs;
    }
  }

  lemma SplitsTogether<T(!new)>(l1: multiset<seq<T>>, s1: set<T>, l2: multiset<seq<T>>, s2: set<T>)
    requires Splits(l1, s1) && Splits(l2, s2) && s1 !! s2
    ensures Splits(l1 + l2, s1 + s2)
  {
    forall xs | xs in l1 ensures xs !in l2 {
      assert xs[0] in xs && xs[0] in s1;
    }
    forall u | u in s1 + s2 ensures exists xs :: xs in l1 + l2 && u in xs {
      if u in s1 {
        var xs :| xs in l1 && u in xs;
        assert xs in l1 + l2;
      } else {
        var xs :| xs in l2 && u in xs;
        assert xs in l1 + l2;
      }
    }
    forall xs, ys | xs in l1 + l2 && ys in l1 + l2 && xs != ys ensures Disjoint(xs, ys) {
    }
  }

  /** All members of each list are in the same community of `part`. */
  ghost predicate Refines<T(!new)>(lists: multiset<seq<T>>, part: map<T, int>) {
    forall xs, u, v :: xs in lists && u in xs && v in xs ==> At(part, u) == At(part, v)
  }

  /** The node sets of the lists. */
  ghost function Blocks<T(!new)>(lists: multiset<seq<T>>): set<set<T>> {
    set xs | xs in lists :: SetOf(xs)
  }

  ghost function Visited<T(!new)>(part: map<T, int>, ids: seq<int>): set<T> {
    set u | u in part && part[u] in ids
  }

  /** The communities of `ids` are the lists. */
  ghost predicate IsListed<T(!new)>(lists: multiset<seq<T>>, part: map<T, int>, ids: seq<int>) {
    && Splits(lists, Visited(part, ids)) && Refines(lists, part)
    && forall c :: c in ids ==> Members(part, c) in Blocks(lists)
  }

  lemma NothingVisited<T(!new)>(part: map<T, int>)
    ensures Splits<T>(multiset{}, Visited(part, [])) && Refines<T>(multiset{}, part)
  {
  }

  lemma NothingListed<T(!new)>(part: map<T, int>)
    ensures IsListed(multiset{}, part, [])
  {
    NothingVisited(part);
  }

  lemma BlocksTogether<T(!new)>(l1: multiset<seq<T>>, l2: multiset<seq<T>>)
    ensures Blocks(l1 + l2) == Blocks(l1) + Blocks(l2)
  {
  }

  lemma BlockOfOne<T(!new)>(xs: seq<T>, s: set<T>)
    requires IsListing(xs, s)
    ensures s in Blocks(multiset{xs})
  {
    assert SetOf(xs) == s;
    assert xs in multiset{xs};
  }

  lemma RefinesInside<T(!new)>(lists: multiset<seq<T>>, part: map<T, int>, c: int)
    requires Splits(lists, Members(part, c))
    ensures Refines(lists, part)
  {
    forall xs, u, v | xs in lists && u in xs && v in xs ensures At(part, u) == At(part, v) {
      assert u in Members(part, c) && v in Members(part, c);
    }
  }

  lemma RefinesTogether<T(!new)>(l1: multiset<seq<T>>, l2: multiset<seq<T>>, part: map<T, int>)
    requires Refines(l1, part) && Refines(l2, part)
    ensures Refines(l1 + l2, part)
  {
  }

  lemma VisitedNext<T(!new)>(part: map<T, int>, ids: seq<int>, i: nat)
    requires i < |ids| && ids[i] !in ids[..i]
    ensures Visited(part, ids[..i + 1]) == Visited(part, ids[..i]) + Members(part, ids[i])
    ensures Visited(part, ids[..i]) !! Members(part, ids[i])
  {
    assert ids[..i + 1] == ids[..i] + [ids[i]];
  }

  lemma ListedNext<T(!new)>(lists: multiset<seq<T>>, part: map<T, int>, ids: seq<int>, i: nat, xs: seq<T>)
    requires i < |ids| && ids[i] !in ids[..i] && IsListed(lists, part, ids[..i])
    requires xs != [] && IsListing(xs, Members(part, ids[i]))
    ensures IsListed(lists + multiset{xs}, part, ids[..i + 1])
  {
    hide Splits, Refines, Visited, Members, Blocks;
    var s := Members(part, ids[i]);
    SplitsOfOne(xs, s);
    RefinesInside(multiset{xs}, part, ids[i]);
    VisitedNext(part, ids, i);
    SplitsTogether(lists, Visited(part, ids[..i]), multiset{xs}, s);
    RefinesTogether(lists, multiset{xs}, part);
    BlocksTogether(lists, multiset{xs});
    BlockOfOne(xs, s);
    assert ids[..i + 1] == ids[..i] + [ids[i]];
  }

  /** Every community of `part` is one of the blocks. */
  ghost predicate HoldsCommunities<T(!new)>(blocks: set<set<T>>, part: map<T, int>) {
    forall u :: u in part ==> Members(part, part[u]) in blocks
  }

  lemma ListedCompletely<T(!new)>(lists: multiset<seq<T>>, part: map<T, int>, groups: map<int, seq<T>>, ids: seq<int>)
    requires IsGrouping(groups, part) && IsListing(ids, groups.Keys)
    requires IsListed(lists, part, ids[..|ids|])
    ensures Splits(lists, part.Keys) && Refines(lists, part) && HoldsCommunities(Blocks(lists), part)
  {
    hide Splits, Refines, Blocks;
    assert ids[..|ids|] == ids;
    assert Visited(part, ids) == part.Keys;
  }

  lemma RawCommunities<T(!new)>(groups: map<int, seq<T>>, part: map<T, int>, ids: seq<int>)
    requires IsGrouping(groups, part) && IsListing(ids, groups.Keys)
    ensures forall i :: 0 <= i < |ids| ==>
              && ids[i] in groups && ids[i] !in ids[..i]
              && groups[ids[i]] != [] && NoDuplicates(groups[ids[i]])
              && IsListing(groups[ids[i]], Members(part, ids[i])) && SetOf(groups[ids[i]]) == Members(part, ids[i])
  {
    forall i | 0 <= i < |ids| ensures ids[i] in groups {
      assert ids[i] in ids;
    }
  }

  /** The lists of a grouping, in some order. */
  method Lists<T(==,!new)>(groups: map<int, seq<T>>, ghost part: map<T, int>) returns (lists: seq<seq<T>>)
    requires IsGrouping(groups, part)
    ensures Splits(multiset(lists), part.Keys) && Refines(multiset(lists), part)
    ensures HoldsCommunities(Blocks(multiset(lists)), part)
  {
    var ids := ListOf(groups.Keys);
    lists := [];
    RawCommunities(groups, part, ids);
    NothingListed(part);
    assert ids[..0] == [];
    hide *;
    for i := 0 to |ids|
      invariant IsListed(multiset(lists), part, ids[..i])
    {
      var xs := groups[ids[i]];
      ListedNext(multiset(lists), part, ids, i, xs);
      lists := lists + [xs];
    }
    ListedCompletely(multiset(lists), part, groups, ids);
  }

  /** What becomes of one community: kept whole if it is small enough, and
      otherwise replaced by the communities a detection finds on its nodes. */
  ghost predicate IsCarvedInto<T(!new)>(how: Carving<T>, s: set<T>, blocks: set<set<T>>) {
    if |s| <= how.maxSize then s in blocks
    else exists d :: IsDetection(how.resolution, how.maxIterations, how.graph, s, d)
                     && HoldsCommunities(blocks, d.End())
  }

  lemma CarvedIntoMore<T(!new)>(how: Carving<T>, s: set<T>, blocks: set<set<T>>, more: set<set<T>>)
    requires IsCarvedInto(how, s, blocks) && blocks <= more
    ensures IsCarvedInto(how, s, more)
  {
    if |s| > how.maxSize {
      var d :| IsDetection(how.resolution, how.maxIterations, how.graph, s, d) && HoldsCommunities(blocks, d.End());
      assert HoldsCommunities(more, d.End());
    }
  }

  /** Every community of `part` was kept or broken up as it should be. */
  ghost predicate IsCarving<T(!new)>(how: Carving<T>, part: map<T, int>, blocks: set<set<T>>) {
    forall c :: Members(part, c) != {} ==> IsCarvedInto(how, Members(part, c), blocks)
  }

  ghost predicate LargestFirst<T>(result: map<int, seq<T>>) {
    && (forall i :: i in result <==> 0 <= i < |result|)
    && (forall i, j :: 0 <= i < j < |result| ==> |result[i]| >= |result[j]|)
  }

  ghost predicate PairwiseDisjoint<T(!new)>(result: map<int, seq<T>>) {
    forall i, j :: i in result && j in result && i != j ==> Disjoint(result[i], result[j])
  }

  ghost predicate Covers<T(!new)>(result: map<int, seq<T>>, nodes: set<T>) {
    forall u :: u in nodes ==> exists i :: i in result && u in result[i]
  }

  ghost function Rows<T(!new)>(result: map<int, seq<T>>): set<set<T>> {
    set i | i in result :: SetOf(result[i])
  }

  ghost predicate IsCommunityOf<T(!new)>(xs: seq<T>, nodes: set<T>, part: map<T, int>) {
    && xs != [] && NoDuplicates(xs)
    && (forall u :: u in xs ==> u in nodes)
    && (forall u, v :: u in xs && v in xs ==> At(part, u) == At(part, v))
  }

  /** Communities numbered from zero, largest first, every node in exactly one;
      each inside one community of `part`, those of `part` that are small enough
      kept whole and the others broken up by a detection of their own. */
  ghost predicate IsNumbered<T(!new)>(result: map<int, seq<T>>, nodes: set<T>, part: map<T, int>, how: Carving<T>) {
    && LargestFirst(result)
    && (forall i :: i in result ==> IsCommunityOf(result[i], nodes, part))
    && PairwiseDisjoint(result)
    && Covers(result, nodes)
    && IsCarving(how, part, Rows(result))
  }

  /** As above, and the members of each community are in ascending order. */
  ghost predicate IsDetectionResult(result: map<int, seq<string>>, nodes: set<string>, part: map<string, int>,
                                    how: Carving<string>) {
    && IsNumbered(result, nodes, part, how)
    && (forall i :: i in result ==> InOrder(result[i]))
  }

  lemma TwicePresent<T(!new)>(xs: seq<T>, i: nat, j: nat)
    requires i < j < |xs|
    ensures xs[i] == xs[j] ==> multiset(xs)[xs[i]] >= 2
  {
    assert xs == xs[..i] + [xs[i]] + xs[i + 1..j] + [xs[j]] + xs[j + 1..];
  }

  lemma NoDuplicatesCount<T(!new)>(ys: seq<T>, u: T)
    requires NoDuplicates(ys)
    ensures multiset(ys)[u] <= 1
  {
    var s := set v | v in ys;
    assert IsListing(ys, s);
    ListingCount(ys, s, u);
  }

  lemma SameElements<T(!new)>(xs: seq<T>, ys: seq<T>)
    requires multiset(xs) == multiset(ys)
    ensures |xs| == |ys|
    ensures forall u :: u in xs <==> u in ys
    ensures NoDuplicates(ys) ==> NoDuplicates(xs)
  {
    assert |xs| == |multiset(xs)| && |ys| == |multiset(ys)|;
    forall u ensures u in xs <==> u in ys {
      assert u in xs <==> u in multiset(xs);
      assert u in ys <==> u in multiset(ys);
    }
    if NoDuplicates(ys) {
      forall i, j | 0 <= i < j < |xs| ensures xs[i] != xs[j] {
        TwicePresent(xs, i, j);
        NoDuplicatesCount(ys, xs[i]);
      }
    }
  }

  ghost predicate SameSet<T(!new)>(xs: seq<T>, ys: seq<T>) {
    forall u :: u in xs <==> u in ys
  }

  /** Row `i` of the result has the elements of list `i`, rearranged. */
  ghost predicate IsRearranged<T(!new)>(result: map<int, seq<T>>, lists: seq<seq<T>>) {
    && (forall k :: k in result <==> 0 <= k < |lists|)
    && (forall k :: 0 <= k < |lists| ==>
          |result[k]| == |lists[k]|
          && (NoDuplicates(lists[k]) ==> NoDuplicates(result[k])) && SameSet(result[k], lists[k]))
  }

  lemma RearrangedCovers<T(!new)>(result: map<int, seq<T>>, lists: seq<seq<T>>, nodes: set<T>)
    requires IsRearranged(result, lists) && Splits(multiset(lists), nodes)
    ensures Covers(result, nodes)
  {
    forall u | u in nodes ensures exists i :: i in result && u in result[i] {
      var xs :| xs in multiset(lists) && u in xs;
      var i :| 0 <= i < |lists| && lists[i] == xs;
      assert SameSet(result[i], lists[i]);
      assert i in result && u in result[i];
    }
  }

  lemma RearrangedDisjoint<T(!new)>(result: map<int, seq<T>>, lists: seq<seq<T>>, nodes: set<T>)
    requires IsRearranged(result, lists) && Splits(multiset(lists), nodes)
    ensures PairwiseDisjoint(result)
  {
    forall i, j | i in result && j in result && i != j ensures Disjoint(result[i], result[j]) {
      assert lists[i] in multiset(lists) && lists[j] in multiset(lists);
      TwicePresent(lists, if i < j then i else j, if i < j then j else i);
      assert lists[i] != lists[j];
      assert SameSet(result[i], lists[i]) && SameSet(result[j], lists[j]);
      assert Disjoint(lists[i], lists[j]);
    }
  }

  lemma RearrangedRows<T(!new)>(result: map<int, seq<T>>, lists: seq<seq<T>>, nodes: set<T>, part: map<T, int>)
    requires IsRearranged(result, lists) && Splits(multiset(lists), nodes) && Refines(multiset(lists), part)
    ensures forall i :: i in result ==> IsCommunityOf(result[i], nodes, part)
  {
    forall i | i in result ensures IsCommunityOf(result[i], nodes, part) {
      assert lists[i] in multiset(lists);
      assert SameSet(result[i], lists[i]);
    }
  }

  lemma RearrangedRowSets<T(!new)>(result: map<int, seq<T>>, lists: seq<seq<T>>)
    requires IsRearranged(result, lists)
    ensures Rows(result) == Blocks(multiset(lists))
  {
    forall i | 0 <= i < |lists| ensures SetOf(result[i]) == SetOf(lists[i]) {
      assert SameSet(result[i], lists[i]);
    }
    forall i | 0 <= i < |lists| ensures SetOf(result[i]) in Blocks(multiset(lists)) {
      assert lists[i] in multiset(lists);
    }
    forall xs | xs in multiset(lists) ensures SetOf(xs) in Rows(result) {
      var i :| 0 <= i < |lists| && lists[i] == xs;
      assert i in result;
    }
  }

  lemma RearrangedLargestFirst<T(!new)>(result: map<int, seq<T>>, lists: seq<seq<T>>)
    requires IsRearranged(result, lists) && SortedBy(lists, AtLeastAsLong)
    ensures LargestFirst(result)
  {
    MapSize(result, |lists|);
    forall i, j | 0 <= i < j < |result| ensures |result[i]| >= |result[j]| {
      assert AtLeastAsLong(lists[i], lists[j]);
    }
  }

  lemma RearrangedIsNumbered<T(!new)>(result: map<int, seq<T>>, lists: seq<seq<T>>, nodes: set<T>, part: map<T, int>,
                                      how: Carving<T>)
    requires IsRearranged(result, lists) && SortedBy(lists, AtLeastAsLong)
    requires Splits(multiset(lists), nodes) && Refines(multiset(lists), part)
      && IsCarving(how, part, Blocks(multiset(lists)))
    ensures IsNumbered(result, nodes, part, how)
  {
    hide IsRearranged, IsCarving;
    RearrangedLargestFirst(result, lists);
    RearrangedRows(result, lists, nodes, part);
    RearrangedDisjoint(result, lists, nodes);
    RearrangedCovers(result, lists, nodes);
    RearrangedRowSets(result, lists);
  }

  /** What the carving of all communities of `part` amounts to. */
  ghost predicate IsFinal<T(!new)>(lists: seq<seq<T>>, part: map<T, int>, how: Carving<T>) {
    Splits(multiset(lists), part.Keys) && Refines(multiset(lists), part)
    && IsCarving(how, part, Blocks(multiset(lists)))
  }

  /** Sorts the lists by size, largest first, and each by id, and numbers them. */
  method Order(lists: seq<seq<string>>, ghost nodes: set<string>, ghost part: map<string, int>,
               ghost how: Carving<string>)
    returns (result: map<int, seq<string>>)
    requires part.Keys == nodes && IsFinal(lists, part, how)
    ensures IsDetectionResult(result, nodes, part, how)
  {
    var ordered := Sort(lists, AtLeastAsLong);
    StringsAreOrdered();
    result := map[];
    for i := 0 to |ordered|
      invariant forall k :: k in result <==> 0 <= k < i
      invariant forall k :: 0 <= k < i ==> multiset(result[k]) == multiset(ordered[k]) && SortedBy(result[k], AtMost)
    {
      var t := Sort(ordered[i], AtMost);
      result := result[i := t];
    }
    assert IsRearranged(result, ordered) by {
      forall k | 0 <= k < |ordered| ensures |result[k]| == |ordered[k]| && SameSet(result[k], ordered[k])
                                            && (NoDuplicates(ordered[k]) ==> NoDuplicates(result[k])) {
        SameElements(result[k], ordered[k]);
      }
    }
    forall i | i in result ensures InOrder(result[i]) {
      SortedIsInOrder(result[i]);
    }
    RearrangedIsNumbered(result, ordered, nodes, part, how);
  }

  ghost predicate CarvesVisited<T(!new)>(lists: multiset<seq<T>>, part: map<T, int>, ids: seq<int>, how: Carving<T>) {
    forall c :: c in ids ==> IsCarvedInto(how, Members(part, c), Blocks(lists))
  }

  /** How far the carving has come: the communities of `ids` have been added. */
  ghost predicate IsCarved<T(!new)>(lists: multiset<seq<T>>, part: map<T, int>, ids: seq<int>, how: Carving<T>) {
    Splits(lists, Visited(part, ids)) && Refines(lists, part) && CarvesVisited(lists, part, ids, how)
  }

  lemma NothingCarved<T(!new)>(part: map<T, int>, how: Carving<T>)
    ensures IsCarved(multiset{}, part, [], how)
  {
    NothingVisited(part);
  }

  lemma CarvesVisitedStep<T(!new)>(lists: multiset<seq<T>>, more: multiset<seq<T>>, part: map<T, int>, ids: seq<int>,
                                   i: nat, how: Carving<T>)
    requires i < |ids| && CarvesVisited(lists, part, ids[..i], how)
    requires IsCarvedInto(how, Members(part, ids[i]), Blocks(more))
    ensures CarvesVisited(lists + more, part, ids[..i + 1], how)
  {
    hide IsCarvedInto, Blocks;
    BlocksTogether(lists, more);
    assert ids[..i + 1] == ids[..i] + [ids[i]];
    forall c | c in ids[..i + 1] ensures IsCarvedInto(how, Members(part, c), Blocks(lists + more)) {
      CarvedIntoMore(how, Members(part, c), if c == ids[i] then Blocks(more) else Blocks(lists), Blocks(lists + more));
    }
  }

  lemma CarveStep<T(!new)>(lists: multiset<seq<T>>, more: multiset<seq<T>>, part: map<T, int>, ids: seq<int>, i: nat,
                           how: Carving<T>)
    requires i < |ids| && ids[i] !in ids[..i]
    requires IsCarved(lists, part, ids[..i], how)
    requires Splits(more, Members(part, ids[i])) && IsCarvedInto(how, Members(part, ids[i]), Blocks(more))
    ensures IsCarved(lists + more, part, ids[..i + 1], how)
  {
    hide Splits, Refines, CarvesVisited, Visited, Members, IsListing, IsCarvedInto, Blocks;
    VisitedNext(part, ids, i);
    SplitsTogether(lists, Visited(part, ids[..i]), more, Members(part, ids[i]));
    RefinesInside(more, part, ids[i]);
    RefinesTogether(lists, more, part);
    CarvesVisitedStep(lists, more, part, ids, i, how);
  }

  lemma CarvedCompletely<T(!new)>(lists: seq<seq<T>>, part: map<T, int>, groups: map<int, seq<T>>, ids: seq<int>,
                                  how: Carving<T>)
    requires IsGrouping(groups, part) && IsListing(ids, groups.Keys)
    requires IsCarved(multiset(lists), part, ids[..|ids|], how)
    ensures IsFinal(lists, part, how)
  {
    assert ids[..|ids|] == ids;
    hide Splits, Refines, IsCarvedInto;
    assert Visited(part, ids) == part.Keys;
    forall c | Members(part, c) != {} ensures c in ids {
      var u :| u in Members(part, c);
      assert part[u] in groups;
    }
  }

  /** Go's conversion of a float to an int: towards zero. */
  function Truncate(x: real): int {
    if x >= 0.0 then x.Floor else -(-x).Floor
  }

  /** `k` is `x` without its fractional part. */
  ghost predicate IsWholePart(x: real, k: int) {
    if x >= 0.0 then k as real <= x < k as real + 1.0 else k as real - 1.0 < x <= k as real
  }

  function MaxSize(options: ClusterOptions, nodeCount: int): int {
    var share := nodeCount * Truncate(options.maxCommunityFraction);
    if share > options.minSplitSize then share else options.minSplitSize
  }

  /** The limit is the smallest split size, unless the whole part of the fraction,
      times the number of nodes, is more. */
  lemma MaxSizeIsLarger(options: ClusterOptions, nodeCount: int, k: int)
    requires IsWholePart(options.maxCommunityFraction, k)
    ensures MaxSize(options, nodeCount) >= options.minSplitSize && MaxSize(options, nodeCount) >= nodeCount * k
    ensures MaxSize(options, nodeCount) == options.minSplitSize || MaxSize(options, nodeCount) == nodeCount * k
  {
    assert Truncate(options.maxCommunityFraction) == k;
  }

  /** For every fraction below one the number of nodes makes no difference. */
  lemma FractionsBelowOneDoNotCount(options: ClusterOptions, nodeCount: int)
    requires -1.0 < options.maxCommunityFraction < 1.0 && options.minSplitSize >= 0
    ensures MaxSize(options, nodeCount) == options.minSplitSize
  {
    MaxSizeIsLarger(options, nodeCount, 0);
  }

  /** The result of a whole pipeline: what the end of some possible detection in
      the first phase becomes when it is broken up, ordered and numbered. */
  ghost predicate IsPipelineResult(result: map<int, seq<string>>, resolution: real, maxIterations: int,
                                   how: Carving<string>) {
    exists d :: IsDetection(resolution, maxIterations, how.graph, how.graph.nodes, d)
                && IsDetectionResult(result, how.graph.nodes, d.End(), how)
  }

  ghost predicate AreSingletonRows<T>(result: map<int, seq<T>>, ids: seq<T>) {
    && (forall k :: k in result <==> 0 <= k < |ids|)
    && forall k :: 0 <= k < |ids| ==> result[k] == [ids[k]]
  }

  lemma SingletonRows<T(!new)>(result: map<int, seq<T>>, ids: seq<T>, nodes: set<T>, part: map<T, int>)
    requires IsListing(ids, nodes) && AreSingletonRows(result, ids)
    ensures LargestFirst(result)
    ensures forall i :: i in result ==> IsCommunityOf(result[i], nodes, part)
  {
    MapSize(result, |ids|);
    forall i | i in result ensures IsCommunityOf(result[i], nodes, part) {
      assert ids[i] in ids && result[i] == [ids[i]];
    }
  }

  lemma SingletonsDisjoint<T(!new)>(result: map<int, seq<T>>, ids: seq<T>, nodes: set<T>)
    requires IsListing(ids, nodes) && AreSingletonRows(result, ids)
    ensures PairwiseDisjoint(result)
  {
    forall i, j | i in result && j in result && i != j ensures Disjoint(result[i], result[j]) {
      assert result[i] == [ids[i]] && result[j] == [ids[j]];
    }
  }

  lemma IsNumberedResult<T(!new)>(result: map<int, seq<T>>, nodes: set<T>, part: map<T, int>, how: Carving<T>)
    requires LargestFirst(result) && PairwiseDisjoint(result) && Covers(result, nodes)
    requires forall i :: i in result ==> IsCommunityOf(result[i], nodes, part)
    requires IsCarving(how, part, Rows(result))
    ensures IsNumbered(result, nodes, part, how)
  {
  }

  lemma SingletonsCover<T(!new)>(result: map<int, seq<T>>, ids: seq<T>, nodes: set<T>)
    requires IsListing(ids, nodes)
    requires AreSingletonRows(result, ids)
    ensures Covers(result, nodes)
  {
    forall u | u in nodes ensures exists i :: i in result && u in result[i] {
      assert u in ids;
      var i :| 0 <= i < |ids| && ids[i] == u;
      assert i in result && u in result[i];
    }
  }

  /** A node without edges stays alone, even if nothing is small enough to be
      kept whole. */
  lemma LoneNodeIsCarved<T(!new)>(how: Carving<T>, u: T, blocks: set<set<T>>)
    requires how.graph.edges == {} && {u} in blocks
    ensures IsCarvedInto(how, {u}, blocks)
  {
    var part := map[u := 0];
    NoEdgesNoWeight(how.graph, {u});
    NothingDetected(how.resolution, how.maxIterations, how.graph, {u}, [u], part);
    assert Members(part, 0) == {u};
    assert HoldsCommunities(blocks, part);
  }

  lemma SingletonsAreCarved<T(!new)>(result: map<int, seq<T>>, ids: seq<T>, nodes: set<T>, part: map<T, int>,
                                     how: Carving<T>)
    requires IsListing(ids, nodes) && part.Keys == nodes && IsSingletons(part, ids) && how.graph.edges == {}
    requires AreSingletonRows(result, ids)
    ensures IsCarving(how, part, Rows(result))
  {
    SingletonsAreSeparate(part, ids);
    forall c | Members(part, c) != {} ensures IsCarvedInto(how, Members(part, c), Rows(result)) {
      var u :| u in Members(part, c);
      assert u in ids;
      var i :| 0 <= i < |ids| && ids[i] == u;
      assert Members(part, c) == {u} == SetOf([u]);
      assert i in result && SetOf(result[i]) == {u};
      hide *;
      assert {u} in Rows(result);
      LoneNodeIsCarved(how, u, Rows(result));
    }
  }

  lemma SingletonResult<T(!new)>(result: map<int, seq<T>>, ids: seq<T>, nodes: set<T>, part: map<T, int>,
                                 how: Carving<T>)
    requires IsListing(ids, nodes) && part.Keys == nodes && IsSingletons(part, ids) && how.graph.edges == {}
    requires AreSingletonRows(result, ids)
    ensures IsNumbered(result, nodes, part, how)
  {
    hide *;
    SingletonRows(result, ids, nodes, part);
    SingletonsDisjoint(result, ids, nodes);
    SingletonsCover(result, ids, nodes);
    SingletonsAreCarved(result, ids, nodes, part, how);
    IsNumberedResult(result, nodes, part, how);
  }

  lemma IsolatedIsResult(result: map<int, seq<string>>, ids: seq<string>, part: map<string, int>,
                         resolution: real, maxIterations: int, how: Carving<string>)
    requires IsListing(ids, how.graph.nodes) && how.graph.edges == {}
    requires part.Keys == how.graph.nodes && IsSingletons(part, ids)
    requires AreSingletonRows(result, ids)
    ensures IsPipelineResult(result, resolution, maxIterations, how)
  {
    assert forall i :: i in result ==> |result[i]| == 1;
    assert forall i :: i in result ==> InOrder(result[i]);
    hide IsNumbered, IsSingletons, IsListing, IsDetection, InOrder, AreSingletonRows;
    SingletonResult(result, ids, how.graph.nodes, part, how);
    NoEdgesNoWeight(how.graph, how.graph.nodes);
    NothingDetected(resolution, maxIterations, how.graph, how.graph.nodes, ids, part);
  }

  method SortIds(nodes: seq<string>, ghost s: set<string>) returns (ids: seq<string>)
    requires IsListing(nodes, s)
    ensures IsListing(ids, s) && InOrder(ids)
  {
    StringsAreOrdered();
    ids := Sort(nodes, AtMost);
    SortedIsInOrder(ids);
    SameElements(ids, nodes);
  }

  /** Every node alone, numbered in the order of the ids. */
  ghost predicate AreLoneInOrder(result: map<int, seq<string>>, nodes: set<string>) {
    && (forall k :: k in result <==> 0 <= k < |nodes|)
    && (forall k :: k in result ==> |result[k]| == 1 && result[k][0] in nodes)
    && (forall j, k :: 0 <= j < k < |nodes| ==> Precedes(result[j][0], result[k][0]))
  }

  lemma LoneInOrder(result: map<int, seq<string>>, ids: seq<string>, nodes: set<string>)
    requires IsListing(ids, nodes) && InOrder(ids) && AreSingletonRows(result, ids)
    ensures AreLoneInOrder(result, nodes)
  {
    ListingSize(ids, nodes);
    hide Precedes;
    forall k | k in result ensures |result[k]| == 1 && result[k][0] in nodes {
      assert ids[k] in ids;
    }
    forall j, k | 0 <= j < k < |nodes| ensures Precedes(result[j][0], result[k][0]) {
      assert Precedes(ids[j], ids[k]);
    }
  }

  /** One community for each id, numbered by position. */
  method Numbered(ids: seq<string>) returns (result: map<int, seq<string>>)
    ensures AreSingletonRows(result, ids)
  {
    result := map[];
    for i := 0 to |ids|
      invariant forall k :: k in result <==> 0 <= k < i
      invariant forall k :: 0 <= k < i ==> result[k] == [ids[k]]
    {
      result := result[i := [ids[i]]];
    }
  }

  /** The result for a graph without edges: every node alone, by id. */
  method Isolated(graph: KnowledgeGraph<string>, ghost resolution: real, ghost maxIterations: int,
                  ghost how: Carving<string>)
    returns (result: map<int, seq<string>>)
    requires graph.Valid() && graph.edges == {} && how.graph == graph
    ensures IsPipelineResult(result, resolution, maxIterations, how)
    ensures AreLoneInOrder(result, graph.nodes)
  {
    hide *;
    var nodes := graph.GetNodes();
    var ids := SortIds(nodes, graph.nodes);
    result := Numbered(ids);
    ghost var part, _ := Separate(ids, map u | u in graph.nodes :: 0);
    IsolatedIsResult(result, ids, part, resolution, maxIterations, how);
    LoneInOrder(result, ids, graph.nodes);
  }

  /** Build the context, optimize, group: the pass both phases make. */
  method Detect(graph: KnowledgeGraph<string>, nodeIds: seq<string>, filter: Option<set<string>>,
                ghost within: set<string>,
                resolution: real, maxIter: int)
    returns (communities: map<int, seq<string>>)
    requires graph.Valid() && IsListing(nodeIds, within)
    requires within == if filter.Some? then filter.value else graph.nodes
    ensures IsDetected(communities, resolution, maxIter, graph, within)
  {
    hide *;
    var gCtx := new LouvainContext(graph, nodeIds, filter, within);
    ghost var start := gCtx.nodeToCommunity;
    ghost var sweeps := gCtx.Optimize(graph, within, nodeIds, resolution, maxIter);
    communities := GroupByCommunity(gCtx.nodeToCommunity);
    Detected(communities, resolution, maxIter, graph, within, Detection(nodeIds, start, sweeps), gCtx.nodeToCommunity);
  }

  lemma KeptWhole<T(!new)>(how: Carving<T>, xs: seq<T>, s: set<T>)
    requires xs != [] && IsListing(xs, s) && |xs| <= how.maxSize
    ensures Splits(multiset{xs}, s) && IsCarvedInto(how, s, Blocks(multiset{xs}))
  {
    SplitsOfOne(xs, s);
    BlockOfOne(xs, s);
    ListingSize(xs, s);
  }

  lemma BrokenUp<T(!new)>(how: Carving<T>, xs: seq<T>, s: set<T>, lists: seq<seq<T>>, d: Detection<T>)
    requires IsListing(xs, s) && |xs| > how.maxSize
    requires IsDetection(how.resolution, how.maxIterations, how.graph, s, d)
    requires HoldsCommunities(Blocks(multiset(lists)), d.End())
    ensures IsCarvedInto(how, s, Blocks(multiset(lists)))
  {
    ListingSize(xs, s);
  }

  /** A detection that ends in the detected communities. */
  lemma DetectionOf<T(!new)>(groups: map<int, seq<T>>, resolution: real, maxIterations: int, g: KnowledgeGraph<T>,
                             within: set<T>)
    returns (d: Detection<T>)
    requires IsDetected(groups, resolution, maxIterations, g, within)
    ensures IsDetection(resolution, maxIterations, g, within, d)
    ensures d.End().Keys == within && IsGrouping(groups, d.End())
  {
    d :| IsDetection(resolution, maxIterations, g, within, d) && IsGrouping(groups, d.End());
  }

  /** The first pipeline. Its resolution is used as configured. */
  class ClusterEngine {
    const options: ClusterOptions

    constructor (options: ClusterOptions)
      ensures this.options == options
    {
      this.options := options;
    }

    /** How this engine breaks up communities. */
    function Splitting(graph: KnowledgeGraph<string>, maxSize: int): Carving<string> {
      Carving(graph, options.resolution, if options.maxIterations < 50 then options.maxIterations else 50, maxSize)
    }

    /** Breaks up a community that is too large by detecting communities among
        its own nodes only. */
    method SplitCommunity(graph: KnowledgeGraph<string>, nodeIds: seq<string>, maxSize: int)
      returns (result: seq<seq<string>>)
      requires graph.Valid() && nodeIds != [] && NoDuplicates(nodeIds)
      ensures |nodeIds| <= maxSize ==> result == [nodeIds]
      ensures Splits(multiset(result), SetOf(nodeIds))
      ensures var maxIterations := if options.maxIterations < 50 then options.maxIterations else 50;
              IsCarvedInto(Carving(graph, options.resolution, maxIterations, maxSize), SetOf(nodeIds),
                           Blocks(multiset(result)))
    {
      var nodeSet := SetOf(nodeIds);
      ListingSize(nodeIds, nodeSet);
      if |nodeIds| <= maxSize {
        SplitsOfOne(nodeIds, nodeSet);
        BlockOfOne(nodeIds, nodeSet);
        return [nodeIds];
      }
      var maxIter := if options.maxIterations < 50 then options.maxIterations else 50;
      var subCommunities := Detect(graph, nodeIds, Some(nodeSet), nodeSet, options.resolution, maxIter);
      ghost var d := DetectionOf(subCommunities, options.resolution, maxIter, graph, nodeSet);
      hide *;
      result := Lists(subCommunities, d.End());
      BrokenUp(Splitting(graph, maxSize), nodeIds, nodeSet, result, d);
    }

    /** Detect, split, order. */
    method DetectCommunities(graph: KnowledgeGraph<string>) returns (result: map<int, seq<string>>)
      requires graph.Valid()
      ensures var splitIterations := if options.maxIterations < 50 then options.maxIterations else 50;
              IsPipelineResult(result, options.resolution, options.maxIterations,
                               Carving(graph, options.resolution, splitIterations, MaxSize(options, |graph.nodes|)))
      ensures graph.edges == {} ==> AreLoneInOrder(result, graph.nodes)
    {
      hide MaxSize, IsDetection, IsDetectionResult, IsGrouping, IsFinal, AreLoneInOrder;
      var maxSize := MaxSize(options, |graph.nodes|);
      ghost var how := Splitting(graph, maxSize);
      if |graph.edges| == 0 {
        result := Isolated(graph, options.resolution, options.maxIterations, how);
        return;
      }
      var nodeIds := graph.GetNodes();
      var rawCommunities := Detect(graph, nodeIds, None, graph.nodes, options.resolution, options.maxIterations);
      ghost var d := DetectionOf(rawCommunities, options.resolution, options.maxIterations, graph, graph.nodes);
      ghost var part := d.End();

      var finalCommunities := Carve(graph, rawCommunities, part, maxSize);
      result := Order(finalCommunities, graph.nodes, part, how);
    }

    method Carve(graph: KnowledgeGraph<string>, rawCommunities: map<int, seq<string>>, ghost part: map<string, int>,
                 maxSize: int)
      returns (finalCommunities: seq<seq<string>>)
      requires graph.Valid() && IsGrouping(rawCommunities, part)
      ensures IsFinal(finalCommunities, part, Splitting(graph, maxSize))
    {
      finalCommunities := [];
      var ids := ListOf(rawCommunities.Keys);
      ghost var how := Splitting(graph, maxSize);
      RawCommunities(rawCommunities, part, ids);
      NothingCarved(part, how);
      assert how.maxSize == maxSize;
      hide *;
      for i := 0 to |ids|
        invariant IsCarved(multiset(finalCommunities), part, ids[..i], how)
      {
        var communityNodes := rawCommunities[ids[i]];
        var more := [communityNodes];
        if |communityNodes| > maxSize {
          more := SplitCommunity(graph, communityNodes, maxSize);
        } else {
          KeptWhole(how, communityNodes, Members(part, ids[i]));
        }
        CarveStep(multiset(finalCommunities), multiset(more), part, ids, i, how);
        finalCommunities := finalCommunities + more;
      }
      CarvedCompletely(finalCommunities, part, rawCommunities, ids, how);
    }
  }

  /** The second pipeline, built on the general-purpose engine. */
  class ClusterEngine2 {
    const options: ClusterOptions

    constructor (options: ClusterOptions)
      ensures this.options == options
    {
      this.options := options;
    }

    /** How this engine breaks up communities: with the configuration that the
        inner engine has put in order. */
    function Splitting(graph: KnowledgeGraph<string>, maxSize: int): Carving<string> {
      Carving(graph, if options.resolution <= 0.0 then 1.0 else options.resolution,
              if options.maxIterations <= 0 then 20 else options.maxIterations, maxSize)
    }

    method DetectCommunities(graph: KnowledgeGraph<string>) returns (result: map<int, seq<string>>)
      requires graph.Valid()
      ensures var resolution := if options.resolution <= 0.0 then 1.0 else options.resolution;
              var maxIterations := if options.maxIterations <= 0 then 20 else options.maxIterations;
              IsPipelineResult(result, resolution, maxIterations,
                               Carving(graph, resolution, maxIterations, MaxSize(options, |graph.nodes|)))
      ensures graph.edges == {} ==> AreLoneInOrder(result, graph.nodes)
    {
      hide MaxSize, IsDetection, IsDetectionResult, IsGrouping, IsFinal, IsDetected, AreLoneInOrder;
      var maxSize := MaxSize(options, |graph.nodes|);
      ghost var how := Splitting(graph, maxSize);
      var engine := new LouvainEngine<string>(options.resolution, options.maxIterations);
      if |graph.edges| == 0 {
        result := Isolated(graph, how.resolution, how.maxIterations, how);
        return;
      }
      var raw := engine.Execute(graph, [], None);
      ghost var d := DetectionOf(raw, engine.resolution, engine.maxIterations, graph, graph.nodes);
      ghost var part := d.End();

      var finalCommunities := Carve(engine, graph, raw, part, maxSize, how);
      result := Order(finalCommunities, graph.nodes, part, how);
    }

    /** Subgraph splitting reuses the engine with a filter. */
    method Carve(engine: LouvainEngine<string>, graph: KnowledgeGraph<string>, raw: map<int, seq<string>>,
                 ghost part: map<string, int>, maxSize: int, ghost how: Carving<string>)
      returns (finalCommunities: seq<seq<string>>)
      requires graph.Valid() && IsGrouping(raw, part)
      requires how == Carving(graph, engine.resolution, engine.maxIterations, maxSize)
      ensures IsFinal(finalCommunities, part, how)
    {
      finalCommunities := [];
      var ids := ListOf(raw.Keys);
      RawCommunities(raw, part, ids);
      NothingCarved(part, how);
      hide *;
      for i := 0 to |ids|
        invariant IsCarved(multiset(finalCommunities), part, ids[..i], how)
      {
        var communityNodes := raw[ids[i]];
        var more := [communityNodes];
        if |communityNodes| > maxSize {
          var filterSet := SetOf(communityNodes);
          var subRaw := engine.Execute(graph, communityNodes, Some(filterSet));
          ghost var d := DetectionOf(subRaw, engine.resolution, engine.maxIterations, graph, filterSet);
          more := Lists(subRaw, d.End());
          BrokenUp(how, communityNodes, filterSet, more, d);
        } else {
          KeptWhole(how, communityNodes, Members(part, ids[i]));
        }
        CarveStep(multiset(finalCommunities), multiset(more), part, ids, i, how);
        finalCommunities := finalCommunities + more;
      }
      CarvedCompletely(finalCommunities, part, raw, ids, how);
    }
  }
}
