/**
 * Building sequences from a list of paths: get_sequences (sort by string,
 * then offer each item to the sequences built so far, newest first) and the
 * grouping loop of iget_sequences (sort by extension key, then offer each item
 * to the current sequence only).  The states of the sequences are given by
 * functions on values; the methods build Sequence objects and are proved to
 * give them exactly those states.
 */
module Aggregation {
  import opened Outcomes
  import opened Text
  import opened Tokenizer
  import opened Sorting
  import opened NaturalSort
  import opened Items
  import opened Sequences

  /** The member states of a list of sequences. */
  type Groups = seq<seq<ItemState>>

  /** The paths of all the sequences, one sequence after the other. */
  function AllPaths(gs: Groups): (r: seq<string>)
    decreases |gs|
  {
    if gs == [] then [] else AllPaths(gs[..|gs| - 1]) + PathsOf(gs[|gs| - 1])
  }

  /** What both aggregators promise of every sequence they build: it is not
      empty, its members' attributes agree with their names, and all its
      members have the non-digit parts of its first member. */
  predicate GoodGroup(g: seq<ItemState>) {
    |g| >= 1 &&
    (forall i {:trigger Anchored(g[i])} :: 0 <= i < |g| ==> Anchored(g[i])) &&
    (forall i {:trigger Parts(g[i].Name())} :: 0 <= i < |g| ==> Parts(g[i].Name()) == Parts(g[0].Name()))
  }

  predicate WellGrouped(gs: Groups) {
    forall k {:trigger GoodGroup(gs[k])} :: 0 <= k < |gs| ==> GoodGroup(gs[k])
  }

  /** Which of the sequences include the item, one answer per sequence: the
      k-th answer is includes() of the k-th sequence. */
  function Takes(gs: Groups, x: ItemState, strict: bool): (t: seq<bool>)
    ensures |t| == |gs|
    ensures forall k :: 0 <= k < |gs| ==> t[k] == IncludesSpec(gs[k], x, strict).0
    decreases |gs|
  {
    if gs == [] then []
    else
      var init := gs[..|gs| - 1];
      assert forall k :: 0 <= k < |init| ==> init[k] == gs[k];
      Takes(init, x, strict) + [IncludesSpec(gs[|gs| - 1], x, strict).0]
  }

  /** The index of the last true answer, if any. */
  function LastTrue(t: seq<bool>): (r: Option<nat>)
    ensures r.Some? ==> r.value < |t| && t[r.value]
    decreases |t|
  {
    if t == [] then None
    else if t[|t| - 1] then Some(|t| - 1)
    else LastTrue(t[..|t| - 1])
  }

  /** No answer after the one LastTrue names (none at all, when it names
      none) is true. */
  lemma {:induction false} LastTrueSkips(t: seq<bool>, k: nat)
    requires k < |t|
    requires LastTrue(t).None? || LastTrue(t).value < k
    ensures !t[k]
    decreases |t|
  {
    var n := |t|;
    if k < n - 1 {
      var init := t[..n - 1];
      LastTrueSkips(init, k);
      assert init[k] == t[k];
    }
  }

  lemma LastTrueStep(t: seq<bool>, j: nat)
    requires 1 <= j <= |t|
    ensures t[j - 1] ==> LastTrue(t[..j]) == Some(j - 1)
    ensures !t[j - 1] ==> LastTrue(t[..j]) == LastTrue(t[..j - 1])
  {
    assert t[..j][j - 1] == t[j - 1];
    assert t[..j][..j - 1] == t[..j - 1];
  }

  /** The sequence the item goes to in get_sequences: the last one that
      includes it, scanning from the end (NewestIncludes). */
  function Newest(gs: Groups, x: ItemState, strict: bool): (r: Option<nat>)
    ensures r.Some? ==> r.value < |gs|
  {
    LastTrue(Takes(gs, x, strict))
  }

  /** No sequence created after the one Newest names (none at all, when it
      names none) includes the item. */
  lemma NewestSkips(gs: Groups, x: ItemState, strict: bool, k: nat)
    requires k < |gs|
    requires Newest(gs, x, strict).None? || Newest(gs, x, strict).value < k
    ensures !IncludesSpec(gs[k], x, strict).0
  {
    LastTrueSkips(Takes(gs, x, strict), k);
  }

  /** So Newest is the last sequence that includes the item. */
  lemma NewestIncludes(gs: Groups, x: ItemState, strict: bool)
    ensures Newest(gs, x, strict).Some? ==> IncludesSpec(gs[Newest(gs, x, strict).value], x, strict).0
    ensures Newest(gs, x, strict).Some? ==>
      forall k :: Newest(gs, x, strict).value < k < |gs| ==> !IncludesSpec(gs[k], x, strict).0
    ensures Newest(gs, x, strict).None? ==> forall k :: 0 <= k < |gs| ==> !IncludesSpec(gs[k], x, strict).0
  {
    forall k | 0 <= k < |gs| && (Newest(gs, x, strict).None? || Newest(gs, x, strict).value < k)
      ensures !IncludesSpec(gs[k], x, strict).0
    {
      NewestSkips(gs, x, strict, k);
    }
  }

  /** The sequence that includes x, with x appended carrying the attributes
      includes() gave it. */
  function Joined(g: seq<ItemState>, x: ItemState, strict: bool): seq<ItemState> {
    var (_, g', x') := IncludesSpec(g, x, strict);
    g' + [x']
  }

  /** One item of get_sequences: appended to the newest sequence that
      includes it, else the start of a new sequence. */
  function GroupStep(gs: Groups, p: string, strict: bool): Groups {
    var x := FreshState(p);
    match Newest(gs, x, strict)
    case Some(k) => gs[k := Joined(gs[k], x, strict)]
    case None => gs + [[x]]
  }

  /** The items taken in the given order. */
  function Group(ps: seq<string>, strict: bool): Groups
    decreases |ps|
  {
    if ps == [] then [] else GroupStep(Group(ps[..|ps| - 1], strict), ps[|ps| - 1], strict)
  }

  /** get_sequences(list): the items sorted as strings, then grouped. */
  function GetSequencesSpec(ps: seq<string>, strict: bool): Groups {
    Group(SortStrings(ps), strict)
  }

  /** One item of the grouping loop of iget_sequences: appended to the current
      (last) sequence when it includes the item, else the start of a new one. */
  function RunStep(gs: Groups, p: string, strict: bool): Groups {
    var x := FreshState(p);
    if gs == [] then [[x]]
    else
      var k := |gs| - 1;
      if IncludesSpec(gs[k], x, strict).0 then gs[k := Joined(gs[k], x, strict)] else gs + [[x]]
  }

  /** The groups after feeding the paths ps, in order, to the groups gs. */
  function RunsFrom(gs: Groups, ps: seq<string>, strict: bool): Groups
    decreases |ps|
  {
    if ps == [] then gs else RunsFrom(RunStep(gs, ps[0], strict), ps[1..], strict)
  }

  function GroupRuns(ps: seq<string>, strict: bool): Groups {
    RunsFrom([], ps, strict)
  }

  /** iget_sequences(list): the items sorted by extension key, then grouped. */
  function ISequencesSpec(ps: seq<string>, strict: bool): Groups {
    GroupRuns(ExtSorted(ps), strict)
  }

  // ---------------------------------------------------------------- lemmas

  lemma JoinedOf(g: seq<ItemState>, x: ItemState, strict: bool, g': seq<ItemState>, x': ItemState)
    requires IncludesSpec(g, x, strict).1 == g' && IncludesSpec(g, x, strict).2 == x'
    ensures Joined(g, x, strict) == g' + [x']
  {
  }

  lemma JoinedPaths(g: seq<ItemState>, x: ItemState, strict: bool)
    ensures PathsOf(Joined(g, x, strict)) == PathsOf(g) + [x.path]
  {
    var (_, g', x') := IncludesSpec(g, x, strict);
    PathsOfConcat(g', [x']);
  }

  /** AllPaths after the last sequence is replaced. */
  lemma AllPathsLast(gs: Groups, g: seq<ItemState>)
    requires gs != []
    ensures AllPaths(gs[|gs| - 1 := g]) == AllPaths(gs[..|gs| - 1]) + PathsOf(g)
  {
    assert gs[|gs| - 1 := g][..|gs| - 1] == gs[..|gs| - 1];
  }

  lemma AllPathsSnoc(gs: Groups, g: seq<ItemState>)
    ensures AllPaths(gs + [g]) == AllPaths(gs) + PathsOf(g)
  {
    assert (gs + [g])[..|gs|] == gs;
  }

  lemma {:induction false} AllPathsConcat(a: Groups, b: Groups)
    ensures AllPaths(a + b) == AllPaths(a) + AllPaths(b)
    decreases |b|
  {
    hide PathsOf;
    if b == [] {
      assert a + b == a;
    } else {
      var n := |b|;
      assert (a + b)[..|a + b| - 1] == a + b[..n - 1];
      assert (a + b)[|a + b| - 1] == b[n - 1];
      AllPathsConcat(a, b[..n - 1]);
      assert AllPaths(a + b) == AllPaths(a + b[..n - 1]) + PathsOf(b[n - 1]);
      assert AllPaths(b) == AllPaths(b[..n - 1]) + PathsOf(b[n - 1]);
    }
  }

  /** The paths around sequence k, with g in its place. */
  lemma AllPathsAt(gs: Groups, k: nat, g: seq<ItemState>)
    requires k < |gs|
    ensures AllPaths(gs[k := g]) == AllPaths(gs[..k]) + PathsOf(g) + AllPaths(gs[k + 1..])
  {
    assert gs[k := g] == (gs[..k] + [g]) + gs[k + 1..];
    AllPathsConcat(gs[..k] + [g], gs[k + 1..]);
    AllPathsSnoc(gs[..k], g);
  }

  /** Replacing a sequence by one that holds its paths and one more adds
      exactly that path to the multiset of all paths. */
  lemma UpdatePaths(gs: Groups, k: nat, g: seq<ItemState>, p: string)
    requires k < |gs| && PathsOf(g) == PathsOf(gs[k]) + [p]
    ensures multiset(AllPaths(gs[k := g])) == multiset(AllPaths(gs)) + multiset{p}
  {
    AllPathsAt(gs, k, g);
    AllPathsAt(gs, k, gs[k]);
    assert gs[k := gs[k]] == gs;
  }

  /** One get_sequences step adds exactly the new path to the multiset of all
      paths. */
  lemma GroupStepPaths(gs: Groups, p: string, strict: bool)
    ensures multiset(AllPaths(GroupStep(gs, p, strict))) == multiset(AllPaths(gs)) + multiset{p}
  {
    var x := FreshState(p);
    match Newest(gs, x, strict)
    case Some(k) =>
      JoinedPaths(gs[k], x, strict);
      UpdatePaths(gs, k, Joined(gs[k], x, strict), p);
    case None =>
      AllPathsSnoc(gs, [x]);
  }

  lemma SplitLastBag(ps: seq<string>)
    requires ps != []
    ensures multiset(ps) == multiset(ps[..|ps| - 1]) + multiset{ps[|ps| - 1]}
  {
    SplitLast(ps);
  }

  /** Every item lands in exactly one sequence: the paths of all the
      sequences are the items, counted with multiplicity. */
  lemma {:induction false} GroupPartition(ps: seq<string>, strict: bool)
    ensures multiset(AllPaths(Group(ps, strict))) == multiset(ps)
    decreases |ps|
  {
    if ps != [] {
      var n := |ps|;
      GroupPartition(ps[..n - 1], strict);
      GroupStepPaths(Group(ps[..n - 1], strict), ps[n - 1], strict);
      SplitLastBag(ps);
    }
  }

  lemma GetSequencesPartition(ps: seq<string>, strict: bool)
    ensures multiset(AllPaths(GetSequencesSpec(ps, strict))) == multiset(ps)
  {
    GroupPartition(SortStrings(ps), strict);
  }

  /** One iget_sequences step appends the new path at the end of AllPaths. */
  lemma RunStepPaths(gs: Groups, p: string, strict: bool)
    ensures AllPaths(RunStep(gs, p, strict)) == AllPaths(gs) + [p]
  {
    hide IncludesSpec, Joined;
    var x := FreshState(p);
    if gs == [] {
      AllPathsSnoc(gs, [x]);
    } else {
      var k := |gs| - 1;
      if IncludesSpec(gs[k], x, strict).0 {
        AllPathsLast(gs, Joined(gs[k], x, strict));
        JoinedPaths(gs[k], x, strict);
      } else {
        AllPathsSnoc(gs, [x]);
      }
    }
  }

  /** The grouping loop only cuts the list: the sequences, one after the
      other, hold the items in their order. */
  lemma {:induction false} RunsFromPaths(gs: Groups, ps: seq<string>, strict: bool)
    ensures AllPaths(RunsFrom(gs, ps, strict)) == AllPaths(gs) + ps
    decreases |ps|
  {
    hide RunStep;
    if ps != [] {
      RunStepPaths(gs, ps[0], strict);
      RunsFromPaths(RunStep(gs, ps[0], strict), ps[1..], strict);
      assert AllPaths(gs) + [ps[0]] + ps[1..] == AllPaths(gs) + ps;
    }
  }

  lemma GroupRunsPartition(ps: seq<string>, strict: bool)
    ensures AllPaths(GroupRuns(ps, strict)) == ps
  {
    RunsFromPaths([], ps, strict);
  }

  /** iget_sequences keeps every item once and lists them in extension-key
      order. */
  lemma ISequencesPartition(ps: seq<string>, strict: bool)
    ensures AllPaths(ISequencesSpec(ps, strict)) == ExtSorted(ps)
    ensures multiset(AllPaths(ISequencesSpec(ps, strict))) == multiset(ps)
    ensures SortedBy(AllPaths(ISequencesSpec(ps, strict)), ExtLe)
  {
    GroupRunsPartition(ExtSorted(ps), strict);
  }

  /** An item that a non-empty sequence includes has the non-digit parts of
      the last or of the first member. */
  lemma IncludesSameParts(g: seq<ItemState>, x: ItemState, strict: bool)
    requires g != [] && IncludesSpec(g, x, strict).0
    ensures Parts(x.Name()) == Parts(g[|g| - 1].Name()) || Parts(x.Name()) == Parts(g[0].Name())
  {
  }

  /** A sequence x joins stays good: its members keep their paths, so their
      parts, and x brings the parts of the sequence. */
  lemma JoinedGood(g: seq<ItemState>, x: ItemState, strict: bool)
    requires GoodGroup(g) && Anchored(x)
    requires IncludesSpec(g, x, strict).0
    ensures GoodGroup(Joined(g, x, strict))
  {
    var (_, g', x') := IncludesSpec(g, x, strict);
    IncludesKeepsAnchored(g, x, strict);
    IncludesSameParts(g, x, strict);
    var j := g' + [x'];
    var first := Parts(g[0].Name());
    assert Parts(x.Name()) == first by {
      assert Parts(g[|g| - 1].Name()) == first;
    }
    assert PathsOf(g') == PathsOf(g);
    assert PathsOf(g')[0] == PathsOf(g)[0];
    forall i | 0 <= i < |j| ensures Anchored(j[i]) && Parts(j[i].Name()) == first {
      if i < |g'| {
        assert PathsOf(g')[i] == PathsOf(g)[i];
        assert j[i] == g'[i];
        assert Anchored(g[i]) && Parts(g[i].Name()) == first;
      } else {
        assert j[i] == x';
      }
    }
  }

  lemma WellGroupedUpdate(gs: Groups, k: nat, g: seq<ItemState>)
    requires WellGrouped(gs) && k < |gs| && GoodGroup(g)
    ensures WellGrouped(gs[k := g])
  {
  }

  lemma WellGroupedSnoc(gs: Groups, g: seq<ItemState>)
    requires WellGrouped(gs) && GoodGroup(g)
    ensures WellGrouped(gs + [g])
  {
  }

  lemma JoinedWellGrouped(gs: Groups, k: nat, x: ItemState, strict: bool)
    requires WellGrouped(gs) && Anchored(x) && k < |gs|
    requires IncludesSpec(gs[k], x, strict).0
    ensures WellGrouped(gs[k := Joined(gs[k], x, strict)])
  {
    JoinedGood(gs[k], x, strict);
    WellGroupedUpdate(gs, k, Joined(gs[k], x, strict));
  }

  lemma GroupStepWellGrouped(gs: Groups, p: string, strict: bool)
    requires WellGrouped(gs)
    ensures WellGrouped(GroupStep(gs, p, strict))
  {
    var x := FreshState(p);
    FreshAnchored(p);
    match Newest(gs, x, strict)
    case Some(k) =>
      JoinedWellGrouped(gs, k, x, strict);
    case None =>
      assert GoodGroup([x]);
      WellGroupedSnoc(gs, [x]);
  }

  /** get_sequences builds non-empty sequences whose members all share the
      non-digit parts of the name and carry attributes that agree with it. */
  lemma {:induction false} GroupWellGrouped(ps: seq<string>, strict: bool)
    ensures WellGrouped(Group(ps, strict))
    decreases |ps|
  {
    if ps != [] {
      GroupWellGrouped(ps[..|ps| - 1], strict);
      GroupStepWellGrouped(Group(ps[..|ps| - 1], strict), ps[|ps| - 1], strict);
    }
  }

  lemma GetSequencesWellGrouped(ps: seq<string>, strict: bool)
    ensures WellGrouped(GetSequencesSpec(ps, strict))
  {
    GroupWellGrouped(SortStrings(ps), strict);
  }

  lemma RunStepWellGrouped(gs: Groups, p: string, strict: bool)
    requires WellGrouped(gs)
    ensures WellGrouped(RunStep(gs, p, strict))
  {
    var x := FreshState(p);
    FreshAnchored(p);
    assert GoodGroup([x]);
    if gs == [] {
      assert RunStep(gs, p, strict) == [[x]];
    } else {
      var k := |gs| - 1;
      if IncludesSpec(gs[k], x, strict).0 {
        assert RunStep(gs, p, strict) == gs[k := Joined(gs[k], x, strict)];
        JoinedWellGrouped(gs, k, x, strict);
      } else {
        assert RunStep(gs, p, strict) == gs + [[x]];
        WellGroupedSnoc(gs, [x]);
      }
    }
  }

  lemma {:induction false} RunsFromWellGrouped(gs: Groups, ps: seq<string>, strict: bool)
    requires WellGrouped(gs)
    ensures WellGrouped(RunsFrom(gs, ps, strict))
    decreases |ps|
  {
    hide RunStep;
    if ps != [] {
      RunStepWellGrouped(gs, ps[0], strict);
      RunsFromWellGrouped(RunStep(gs, ps[0], strict), ps[1..], strict);
    }
  }

  lemma GroupRunsWellGrouped(ps: seq<string>, strict: bool)
    ensures WellGrouped(GroupRuns(ps, strict))
  {
    RunsFromWellGrouped([], ps, strict);
  }

  lemma ISequencesWellGrouped(ps: seq<string>, strict: bool)
    ensures WellGrouped(ISequencesSpec(ps, strict))
  {
    GroupRunsWellGrouped(ExtSorted(ps), strict);
  }

  lemma GroupSnoc(ps: seq<string>, i: nat, strict: bool)
    requires i < |ps|
    ensures Group(ps[..i + 1], strict) == GroupStep(Group(ps[..i], strict), ps[i], strict)
  {
    assert ps[..i + 1][..i] == ps[..i];
  }

  lemma RunsFromNext(gs: Groups, ps: seq<string>, i: nat, strict: bool)
    requires i < |ps|
    ensures RunsFrom(gs, ps[i..], strict) == RunsFrom(RunStep(gs, ps[i], strict), ps[i + 1..], strict)
  {
    assert ps[i..][1..] == ps[i + 1..];
  }

  // ---------------------------------------------------------------- methods

  /** Offer the item at path p to one sequence: appended when the sequence
      includes it. */
  method OfferOne(s: Sequence, ghost g: seq<ItemState>, x: ItemState, strict: bool) returns (b: bool)
    requires s.strict == strict && s.members == g
    modifies s
    ensures b == IncludesSpec(g, x, strict).0
    ensures b ==> s.members == Joined(g, x, strict)
    ensures !b ==> s.members == g
  {
    var x';
    b, x' := s.Includes(x);
    if b {
      JoinedOf(g, x, strict, s.members, x');
      s.AppendItem(x');
    }
  }

  lemma RunStepCases(gs: Groups, p: string, strict: bool)
    ensures gs == [] ==> RunStep(gs, p, strict) == [[FreshState(p)]]
    ensures gs != [] && IncludesSpec(gs[|gs| - 1], FreshState(p), strict).0 ==>
      RunStep(gs, p, strict) == gs[|gs| - 1 := Joined(gs[|gs| - 1], FreshState(p), strict)]
    ensures gs != [] && !IncludesSpec(gs[|gs| - 1], FreshState(p), strict).0 ==>
      RunStep(gs, p, strict) == gs + [[FreshState(p)]]
  {
  }

  /** A Sequence object whose members form a good group is valid. */
  lemma ValidOf(s: Sequence, g: seq<ItemState>)
    requires s.members == g && GoodGroup(g)
    ensures s.Valid()
  {
  }

  /** One round of that loop: offer the item to seqs[j - 1]. */
  method OfferAt(seqs: seq<Sequence>, ghost gs: Groups, ghost index: map<Sequence, nat>, x: ItemState, strict: bool, j: nat)
    returns (b: bool)
    requires 1 <= j <= |seqs| == |gs|
    requires seqs[j - 1].strict == strict
    requires forall k :: 0 <= k < |seqs| ==> seqs[k].members == gs[k]
    requires forall k :: 0 <= k < |seqs| ==> seqs[k] in index && index[seqs[k]] == k
    modifies seqs[j - 1]
    ensures b == IncludesSpec(gs[j - 1], x, strict).0
    ensures b ==> seqs[j - 1].members == Joined(gs[j - 1], x, strict)
    ensures forall k :: 0 <= k < |seqs| && (k != j - 1 || !b) ==> seqs[k].members == gs[k]
  {
    b := OfferOne(seqs[j - 1], gs[j - 1], x, strict);
  }

  /** The inner loop of get_sequences: offer the item to the sequences newest
      first; the first that includes it gets it appended.  Returns the index
      of that sequence: the last one whose answer in t is true. */
  method Offer(seqs: seq<Sequence>, ghost gs: Groups, ghost index: map<Sequence, nat>, ghost t: seq<bool>,
               x: ItemState, strict: bool)
    returns (r: Option<nat>)
    requires |seqs| == |gs|
    requires |t| == |gs| && forall k {:trigger t[k]} :: 0 <= k < |t| ==> t[k] == IncludesSpec(gs[k], x, strict).0
    requires forall k :: 0 <= k < |seqs| ==> seqs[k].strict == strict && seqs[k].members == gs[k]
    requires forall k :: 0 <= k < |seqs| ==> seqs[k] in index && index[seqs[k]] == k
    modifies seqs
    ensures r == LastTrue(t)
    ensures r.Some? ==> seqs[r.value].members == Joined(gs[r.value], x, strict)
    ensures r.None? ==> forall k :: 0 <= k < |seqs| ==> seqs[k].members == gs[k]
    ensures r.Some? ==> forall k :: 0 <= k < |seqs| && k != r.value ==> seqs[k].members == gs[k]
  {
    hide LastTrue, IncludesSpec, Joined;
    var j := |seqs|;
    assert t[..j] == t;
    while j > 0
      invariant 0 <= j <= |seqs|
      invariant forall k :: 0 <= k < |seqs| ==> seqs[k].members == gs[k]
      invariant LastTrue(t) == LastTrue(t[..j])
      decreases j
    {
      LastTrueStep(t, j);
      var b := OfferAt(seqs, gs, index, x, strict, j);
      if b {
        return Some(j - 1);
      }
      j := j - 1;
    }
    r := None;
  }

  lemma PlacedGroupStep(gs: Groups, p: string, strict: bool, k: nat)
    requires Newest(gs, FreshState(p), strict) == Some(k)
    ensures GroupStep(gs, p, strict) == gs[k := Joined(gs[k], FreshState(p), strict)]
  {
  }

  lemma UnplacedGroupStep(gs: Groups, p: string, strict: bool)
    requires Newest(gs, FreshState(p), strict) == None
    ensures GroupStep(gs, p, strict) == gs + [[FreshState(p)]]
  {
  }

  /** One item of get_sequences: offered to the sequences newest first, and
      the start of a new sequence when none of them includes it. */
  method Place(seqs: seq<Sequence>, ghost gs: Groups, ghost index: map<Sequence, nat>, p: string, strict: bool)
    returns (seqs': seq<Sequence>, ghost index': map<Sequence, nat>)
    requires |seqs| == |gs|
    requires forall k :: 0 <= k < |seqs| ==> seqs[k].strict == strict && seqs[k].members == gs[k]
    requires forall k :: 0 <= k < |seqs| ==> seqs[k] in index && index[seqs[k]] == k
    modifies seqs
    ensures |seqs'| == |GroupStep(gs, p, strict)| >= |seqs|
    ensures forall k :: 0 <= k < |seqs| ==> seqs'[k] == seqs[k]
    ensures forall k :: |seqs| <= k < |seqs'| ==> fresh(seqs'[k])
    ensures forall k :: 0 <= k < |seqs'| ==>
      seqs'[k].strict == strict && seqs'[k].members == GroupStep(gs, p, strict)[k]
    ensures forall k :: 0 <= k < |seqs'| ==> seqs'[k] in index' && index'[seqs'[k]] == k
  {
    hide GroupStep, IncludesSpec, Joined, Takes, LastTrue;
    var x := FreshState(p);
    var placed := Offer(seqs, gs, index, Takes(gs, x, strict), x, strict);
    if placed.Some? {
      PlacedGroupStep(gs, p, strict, placed.value);
      seqs', index' := seqs, index;
    } else {
      UnplacedGroupStep(gs, p, strict);
      var s := new Sequence([p], strict);
      seqs', index' := seqs + [s], index[s := |seqs|];
    }
  }

  /** get_sequences(list of paths): new Sequence objects, in the order they
      were created, holding the states GetSequencesSpec gives. */
  method GetSequences(ps: seq<string>, strict: bool) returns (seqs: seq<Sequence>)
    ensures |seqs| == |GetSequencesSpec(ps, strict)|
    ensures forall k :: 0 <= k < |seqs| ==>
      fresh(seqs[k]) && seqs[k].strict == strict && seqs[k].members == GetSequencesSpec(ps, strict)[k]
    ensures forall k :: 0 <= k < |seqs| ==> seqs[k].Valid()
    ensures forall k, l :: 0 <= k < l < |seqs| ==> seqs[k] != seqs[l]
  {
    seqs := PlaceAll(SortStrings(ps), strict);
  }

  /** The grouping loop of get_sequences over the sorted items. */
  method PlaceAll(items: seq<string>, strict: bool) returns (seqs: seq<Sequence>)
    ensures |seqs| == |Group(items, strict)|
    ensures forall k :: 0 <= k < |seqs| ==>
      fresh(seqs[k]) && seqs[k].strict == strict && seqs[k].members == Group(items, strict)[k]
    ensures forall k :: 0 <= k < |seqs| ==> seqs[k].Valid()
    ensures forall k, l :: 0 <= k < l < |seqs| ==> seqs[k] != seqs[l]
  {
    hide GroupStep;
    seqs := [];
    ghost var index: map<Sequence, nat> := map[];
    ghost var gs: Groups := [];
    var i := 0;
    while i < |items|
      invariant 0 <= i <= |items|
      invariant gs == Group(items[..i], strict)
      invariant |seqs| == |gs|
      invariant forall k :: 0 <= k < |seqs| ==> fresh(seqs[k]) && seqs[k].strict == strict
      invariant forall k :: 0 <= k < |seqs| ==> seqs[k].members == gs[k]
      invariant forall k :: 0 <= k < |seqs| ==> seqs[k] in index && index[seqs[k]] == k
      decreases |items| - i
    {
      GroupSnoc(items, i, strict);
      seqs, index := Place(seqs, gs, index, items[i], strict);
      gs := GroupStep(gs, items[i], strict);
      i := i + 1;
    }
    assert items[..|items|] == items;
    GroupWellGrouped(items, strict);
    forall k | 0 <= k < |seqs| ensures seqs[k].Valid() {
      ValidOf(seqs[k], Group(items, strict)[k]);
    }
  }

  /** iget_sequences(list of paths): the Sequence objects in the order they
      are yielded, holding the states ISequencesSpec gives. */
  method ISequences(ps: seq<string>, strict: bool) returns (seqs: seq<Sequence>)
    ensures |seqs| == |ISequencesSpec(ps, strict)|
    ensures forall k :: 0 <= k < |seqs| ==>
      fresh(seqs[k]) && seqs[k].strict == strict && seqs[k].members == ISequencesSpec(ps, strict)[k]
    ensures forall k :: 0 <= k < |seqs| ==> seqs[k].Valid()
  {
    seqs := RunGroups(ExtSorted(ps), strict);
  }

  /** One item of the grouping loop of iget_sequences: the first item starts
      the current sequence; later ones are offered to it, and one it does not
      include closes it (it is yielded) and starts the next. */
  method Feed(seqs: seq<Sequence>, cur: Sequence?, ghost gs: Groups, p: string, strict: bool)
    returns (seqs': seq<Sequence>, cur': Sequence)
    requires cur == null <==> gs == []
    requires |seqs| == if cur == null then 0 else |gs| - 1
    requires forall k :: 0 <= k < |seqs| ==> seqs[k].strict == strict && seqs[k].members == gs[k]
    requires cur != null ==> cur.strict == strict && cur.members == gs[|gs| - 1]
    requires cur !in seqs
    modifies cur
    ensures |seqs'| == |RunStep(gs, p, strict)| - 1
    ensures |seqs'| == |seqs| || (|seqs'| == |seqs| + 1 && seqs'[|seqs|] == cur)
    ensures forall k :: 0 <= k < |seqs| ==> seqs'[k] == seqs[k]
    ensures cur' == cur || fresh(cur')
    ensures forall k :: 0 <= k < |seqs'| ==>
      seqs'[k].strict == strict && seqs'[k].members == RunStep(gs, p, strict)[k]
    ensures cur'.strict == strict && cur'.members == RunStep(gs, p, strict)[|seqs'|]
    ensures cur' !in seqs'
  {
    RunStepCases(gs, p, strict);
    if cur == null {
      cur' := new Sequence([p], strict);
      seqs' := seqs;
    } else {
      var b := OfferOne(cur, gs[|gs| - 1], FreshState(p), strict);
      if b {
        seqs', cur' := seqs, cur;
      } else {
        seqs' := seqs + [cur];
        cur' := new Sequence([p], strict);
      }
    }
  }

  /** The grouping loop of iget_sequences over the sorted items. */
  method RunGroups(items: seq<string>, strict: bool) returns (seqs: seq<Sequence>)
    ensures |seqs| == |GroupRuns(items, strict)|
    ensures forall k :: 0 <= k < |seqs| ==>
      fresh(seqs[k]) && seqs[k].strict == strict && seqs[k].members == GroupRuns(items, strict)[k]
    ensures forall k :: 0 <= k < |seqs| ==> seqs[k].Valid()
  {
    hide RunStep;
    seqs := [];
    var cur: Sequence? := null;
    ghost var gs: Groups := [];
    var i := 0;
    while i < |items|
      invariant 0 <= i <= |items|
      invariant RunsFrom(gs, items[i..], strict) == GroupRuns(items, strict)
      invariant cur == null <==> gs == []
      invariant |seqs| == if cur == null then 0 else |gs| - 1
      invariant forall k :: 0 <= k < |seqs| ==> fresh(seqs[k])
      invariant forall k :: 0 <= k < |seqs| ==> seqs[k].strict == strict && seqs[k].members == gs[k]
      invariant cur != null ==> fresh(cur) && cur.strict == strict && cur.members == gs[|seqs|]
      invariant cur !in seqs
      decreases |items| - i
    {
      RunsFromNext(gs, items, i, strict);
      var cur';
      seqs, cur' := Feed(seqs, cur, gs, items[i], strict);
      cur := cur';
      gs := RunStep(gs, items[i], strict);
      i := i + 1;
    }
    if cur != null {
      seqs := seqs + [cur];
    }
    assert items[i..] == [];
    GroupRunsWellGrouped(items, strict);
    forall k | 0 <= k < |seqs| ensures seqs[k].Valid() {
      ValidOf(seqs[k], GroupRuns(items, strict)[k]);
    }
  }

  // --------------------------------------------------------------- example

  /** The docstring's example: get_sequences of fileA.1.rgb, fileA.2.rgb and
      fileB.1.rgb gives two sequences, fileA.1-2.rgb and fileB.1.rgb. */
  lemma GetSequencesExample(strict: bool)
    ensures var gs := GetSequencesSpec(["fileA.1.rgb", "fileA.2.rgb", "fileB.1.rgb"], strict);
            |gs| == 2 && PathsOf(gs[0]) == ["fileA.1.rgb", "fileA.2.rgb"] && PathsOf(gs[1]) == ["fileB.1.rgb"]
  {
    hide SortStrings, Basename, Group, GroupStep, FreshState, IncludesSpec, Joined;
    var p1, p2, p3 := "fileA.1.rgb", "fileA.2.rgb", "fileB.1.rgb";
    var ps := [p1, p2, p3];
    ExampleSorted(ps);
    ExampleNames(p1, p2, p3);
    var x1, x2, x3 := FreshState(p1), FreshState(p2), FreshState(p3);
    ExampleSiblings(x1, x2, x3, strict);
    ExampleOthers(x1, x2, x3, strict);
    GroupsOfThree(p1, p2, p3, strict);
    var g := Joined([x1], x2, strict);
    assert PathsOf(g) == [p1, p2];
    assert PathsOf([x3]) == [p3];
  }

  /** Three paths where the second joins the first and the third does not
      join them group into two sequences. */
  lemma GroupsOfThree(p1: string, p2: string, p3: string, strict: bool)
    requires IncludesSpec([FreshState(p1)], FreshState(p2), strict).0
    requires !IncludesSpec(Joined([FreshState(p1)], FreshState(p2), strict), FreshState(p3), strict).0
    ensures Group([p1, p2, p3], strict) == [Joined([FreshState(p1)], FreshState(p2), strict), [FreshState(p3)]]
  {
    GroupThree(p1, p2, p3, strict);
    hide Group, IncludesSpec, Joined;
    StepStarts(p1, strict);
    StepJoins([FreshState(p1)], p2, strict);
    StepSplits(Joined([FreshState(p1)], FreshState(p2), strict), p3, strict);
  }

  /** Group of three paths, unfolded one step per path. */
  lemma GroupThree(p1: string, p2: string, p3: string, strict: bool)
    ensures Group([p1, p2, p3], strict)
         == GroupStep(GroupStep(GroupStep(Group([], strict), p1, strict), p2, strict), p3, strict)
  {
    hide GroupStep;
    assert [p1][..0] == [];
    assert Group([p1], strict) == GroupStep(Group([], strict), p1, strict);
    assert [p1, p2][..1] == [p1];
    assert Group([p1, p2], strict) == GroupStep(Group([p1], strict), p2, strict);
    assert [p1, p2, p3][..2] == [p1, p2];
  }

  /** The first item starts the first sequence. */
  lemma StepStarts(p: string, strict: bool)
    ensures GroupStep(Group([], strict), p, strict) == [[FreshState(p)]]
  {
    assert Takes([], FreshState(p), strict) == [];
  }

  /** With one sequence that includes the item, the item joins it. */
  lemma StepJoins(g: seq<ItemState>, p: string, strict: bool)
    requires IncludesSpec(g, FreshState(p), strict).0
    ensures GroupStep([g], p, strict) == [Joined(g, FreshState(p), strict)]
  {
    assert Takes([g], FreshState(p), strict) == [true];
  }

  /** With one sequence that does not include the item, the item starts a
      second one. */
  lemma StepSplits(g: seq<ItemState>, p: string, strict: bool)
    requires !IncludesSpec(g, FreshState(p), strict).0
    ensures GroupStep([g], p, strict) == [g, [FreshState(p)]]
  {
    assert Takes([g], FreshState(p), strict) == [false];
  }

  lemma ExampleSorted(ps: seq<string>)
    requires ps == ["fileA.1.rgb", "fileA.2.rgb", "fileB.1.rgb"]
    ensures SortStrings(ps) == ps
  {
    var p1, p2, p3 := ps[0], ps[1], ps[2];
    ExampleOrder(p1, p2, p3);
    StrLeAt(p1, p2, 6);
    StrLeAt(p2, p3, 4);
    SortThree(p1, p2, p3);
  }

  /** Three strings already in order sort to themselves. */
  lemma SortThree(p1: string, p2: string, p3: string)
    requires StrLe(p1, p2) && StrLe(p2, p3)
    ensures SortStrings([p1, p2, p3]) == [p1, p2, p3]
  {
    var ps := [p1, p2, p3];
    assert ps[1..] == [p2, p3] && ps[1..][1..] == [p3] && [p3][1..] == [];
    hide StrLe;
    assert Insert(p3, [], StrLe) == [p3];
    assert SortBy([p3], StrLe) == [p3];
    assert Insert(p2, [p3], StrLe) == [p2, p3];
    assert SortBy(ps[1..], StrLe) == [p2, p3];
    assert Insert(p1, [p2, p3], StrLe) == ps;
  }

  lemma ExampleOrder(p1: string, p2: string, p3: string)
    requires p1 == "fileA.1.rgb" && p2 == "fileA.2.rgb" && p3 == "fileB.1.rgb"
    ensures p1[..6] == p2[..6] && p1[6] < p2[6] && p2[..4] == p3[..4] && p2[4] < p3[4]
  {
  }

  /** Two strings that agree before k and differ at k compare there. */
  lemma {:induction false} StrLeAt(a: string, b: string, k: nat)
    requires k < |a| && k < |b| && a[..k] == b[..k] && a[k] < b[k]
    ensures StrLe(a, b)
    decreases k
  {
    if k > 0 {
      assert a[0] == a[..k][0] == b[..k][0] == b[0];
      assert a[1..][..k - 1] == a[1..k] == a[..k][1..];
      assert b[1..][..k - 1] == b[1..k] == b[..k][1..];
      StrLeAt(a[1..], b[1..], k - 1);
    }
  }

  lemma ExampleNames(p1: string, p2: string, p3: string)
    requires p1 == "fileA.1.rgb" && p2 == "fileA.2.rgb" && p3 == "fileB.1.rgb"
    ensures Basename(p1) == p1 && Basename(p2) == p2 && Basename(p3) == p3
  {
    assert '/' !in p1 && '/' !in p2 && '/' !in p3;
  }

  /** fileA.1.rgb and fileA.2.rgb are siblings. */
  lemma ExampleSiblings(x1: ItemState, x2: ItemState, x3: ItemState, strict: bool)
    requires x1.Name() == "fileA.1.rgb" && x2.Name() == "fileA.2.rgb"
    requires x1.path == x1.Name() && x2.path == x2.Name()
    ensures IncludesSpec([x1], x2, strict).0
    ensures var g := Joined([x1], x2, strict); |g| == 2 && g[1].path == x2.path && g[0].path == x1.path
  {
    hide Sibling;
    var h, t := "fileA.", ".rgb";
    ExampleSplit(x1.Name(), x2.Name(), h, t);
    OneNumberSiblings(x1, x2, h, t, "1", "2", strict);
  }

  lemma ExampleSplit(n1: string, n2: string, h: string, t: string)
    requires n1 == "fileA.1.rgb" && n2 == "fileA.2.rgb" && h == "fileA." && t == ".rgb"
    ensures n1 == h + "1" + t && n2 == h + "2" + t
    ensures NoDigits(h) && NoDigits(t) && AllDigits("1") && AllDigits("2")
  {
  }

  /** fileB.1.rgb has other parts than fileA.2.rgb, so the sequence of
      fileA.1.rgb and fileA.2.rgb does not take it. */
  lemma ExampleOthers(x1: ItemState, x2: ItemState, x3: ItemState, strict: bool)
    requires x2.Name() == "fileA.2.rgb" && x3.Name() == "fileB.1.rgb"
    requires IncludesSpec([x1], x2, strict).0
    ensures var g := Joined([x1], x2, strict); !IncludesSpec(g, x3, strict).0
  {
    ExampleOtherParts(x2.Name(), x3.Name());
    var g := Joined([x1], x2, strict);
    assert g[|g| - 1].Name() == x2.Name();
  }

  lemma ExampleOtherParts(n2: string, n3: string)
    requires n2 == "fileA.2.rgb" && n3 == "fileB.1.rgb"
    ensures Parts(n2) != Parts(n3)
  {
    var h1, h2, d1, d2, t := "fileA.", "fileB.", "2", "1", ".rgb";
    assert n2 == h1 + d1 + t && n3 == h2 + d2 + t;
    assert NoDigits(h1) && NoDigits(h2) && NoDigits(t) && h1 != h2;
    assert AllDigits(d1) && AllDigits(d2);
    OtherParts(n2, n3, h1, h2, d1, d2, t);
  }

  /** Two one-number names whose heads differ have different parts. */
  lemma OtherParts(a: string, b: string, h1: string, h2: string, d1: string, d2: string, t: string)
    requires a == h1 + d1 + t && b == h2 + d2 + t
    requires NoDigits(h1) && NoDigits(h2) && NoDigits(t) && h1 != h2
    requires |d1| >= 1 && |d2| >= 1 && AllDigits(d1) && AllDigits(d2)
    ensures Parts(a) != Parts(b)
  {
    OneNumber(h1, d1, t);
    OneNumber(h2, d2, t);
    assert [h1, t][0] != [h2, t][0];
  }
}
