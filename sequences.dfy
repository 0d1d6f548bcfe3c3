/**
 * class Sequence of lib/pyseq/seq.py: a list of Items that are siblings of
 * each other.  The Sequence keeps the attribute values of its members
 * (ItemState); the list operations that check membership (includes, contains,
 * append, insert, extend, item assignment) update them as is_sibling() updates
 * the Item objects, and what they do is stated as functions of the member
 * states.
 */
module Sequences {
  import opened Outcomes
  import opened Text
  import opened Tokenizer
  import opened Ranges
  import opened Items

  function PathsOf(st: seq<ItemState>): (r: seq<string>)
    ensures |r| == |st| && forall i :: 0 <= i < |st| ==> r[i] == st[i].path
  {
    if st == [] then [] else [st[0].path] + PathsOf(st[1..])
  }

  function FrameOpts(st: seq<ItemState>): (r: seq<Option<nat>>)
    ensures |r| == |st| && forall i :: 0 <= i < |st| ==> r[i] == st[i].frame
  {
    if st == [] then [] else [st[0].frame] + FrameOpts(st[1..])
  }

  /** frames(): the frames of the members that have one, sorted. */
  function FramesOf(st: seq<ItemState>): (r: seq<nat>)
    ensures Sorted(r)
  {
    SortedFrames(FrameOpts(st))
  }

  /** A number is among frames() when and only when some member has it as its
      frame. */
  lemma FramesOfMembers(st: seq<ItemState>, x: nat)
    ensures x in FramesOf(st) <==> exists i :: 0 <= i < |st| && st[i].frame == Some(x)
  {
    var fo := FrameOpts(st);
    var r := FramesOf(st);
    assert x in r <==> x in multiset(r);
    assert x in SetFrames(fo) <==> x in multiset(SetFrames(fo));
    if Some(x) in fo {
      var i :| 0 <= i < |fo| && fo[i] == Some(x);
      assert st[i].frame == Some(x);
    }
  }

  /** includes(item): an empty sequence takes anything; otherwise the last
      member decides unless it has the item's path, then the first member;
      when both have the item's path the answer is yes.  The member asked and
      the item get their attributes updated, as is_sibling() does. */
  function IncludesSpec(st: seq<ItemState>, x: ItemState, strict: bool): (r: (bool, seq<ItemState>, ItemState))
    ensures |r.1| == |st| && PathsOf(r.1) == PathsOf(st) && r.2.path == x.path
    ensures !r.0 ==> r.1 == st && r.2 == x
  {
    if st == [] then (true, st, x)
    else
      var k := |st| - 1;
      if st[k].path != x.path then
        var (b, a', x') := Sibling(st[k], x, strict);
        (b, st[k := a'], x')
      else if st[0].path != x.path then
        var (b, a', x') := Sibling(st[0], x, strict);
        (b, st[0 := a'], x')
      else (true, st, x)
  }

  lemma FreshAnchored(p: string)
    ensures Anchored(FreshState(p))
  {
  }

  /** includes() keeps every state consistent with its name: the members and
      the item it was asked about. */
  lemma IncludesKeepsAnchored(st: seq<ItemState>, x: ItemState, strict: bool)
    requires forall i :: 0 <= i < |st| ==> Anchored(st[i])
    requires Anchored(x)
    ensures forall i :: 0 <= i < |st| ==> Anchored(IncludesSpec(st, x, strict).1[i])
    ensures Anchored(IncludesSpec(st, x, strict).2)
  {
    if st != [] {
      var k := |st| - 1;
      if st[k].path != x.path {
        SiblingAnchored(st[k], x, strict);
        var (b, a', x') := Sibling(st[k], x, strict);
        assert IncludesSpec(st, x, strict) == (b, st[k := a'], x');
      } else if st[0].path != x.path {
        SiblingAnchored(st[0], x, strict);
        var (b, a', x') := Sibling(st[0], x, strict);
        assert IncludesSpec(st, x, strict) == (b, st[0 := a'], x');
      }
    }
  }

  /** Python's list index i on a list of length n: negative counts from the end. */
  function ListIndex(i: int, n: nat): (r: Option<nat>)
    ensures r.Some? <==> -(n as int) <= i < n
    ensures r.Some? ==> r.value < n && (r.value == i || r.value == i + n)
  {
    if 0 <= i < n then Some(i) else if -(n as int) <= i < 0 then Some(i + n) else None
  }

  /** The position list.insert(i, x) puts x at: negative counts from the end,
      and the result is clamped to 0..n. */
  function InsertPosition(i: int, n: nat): (r: nat)
    ensures r <= n
    ensures 0 <= i <= n ==> r == i
    ensures -(n as int) <= i < 0 ==> r == i + n
    ensures i < -(n as int) ==> r == 0
    ensures i > n ==> r == n
  {
    if i < 0 then (if i + n < 0 then 0 else i + n) else if i > n then n else i
  }

  /** The message append() and insert() raise, with str(item), the name. */
  function NotMemberMessage(name: string): string {
    "Item " + name + " is not a member of this sequence."
  }

  /** append(item, check_membership): without the check the item is added as
      it is; with it the item is added (with the attributes includes gave it)
      when it is included, else SequenceError. */
  function AppendSpec(st: seq<ItemState>, p: string, check: bool, strict: bool): (r: (Result<()>, seq<ItemState>))
    ensures r.0.Ok? ==> PathsOf(r.1) == PathsOf(st) + [p]
    ensures r.0.Err? ==> check && r.1 == st && r.0.error == SequenceError(NotMemberMessage(Basename(p)))
    ensures r.0.Ok? <==> !check || IncludesSpec(st, FreshState(p), strict).0
    ensures |r.1| == if r.0.Ok? then |st| + 1 else |st|
  {
    var x := FreshState(p);
    if !check then (Ok(()), st + [x])
    else
      var (b, st', x') := IncludesSpec(st, x, strict);
      if b then (Ok(()), st' + [x']) else (Err(SequenceError(NotMemberMessage(x.Name()))), st')
  }

  lemma AppendUnfold(st: seq<ItemState>, p: string, check: bool, strict: bool)
    ensures !check ==> AppendSpec(st, p, check, strict) == (Ok(()), st + [FreshState(p)])
    ensures check && IncludesSpec(st, FreshState(p), strict).0 ==>
      AppendSpec(st, p, check, strict).0 == Ok(()) &&
      AppendSpec(st, p, check, strict).1 == IncludesSpec(st, FreshState(p), strict).1 + [IncludesSpec(st, FreshState(p), strict).2]
    ensures check && !IncludesSpec(st, FreshState(p), strict).0 ==>
      AppendSpec(st, p, check, strict) == (Err(SequenceError(NotMemberMessage(Basename(p)))), st)
  {
  }

  /** insert(index, item, check_membership), the same with list.insert. */
  function InsertSpec(st: seq<ItemState>, i: int, p: string, check: bool, strict: bool): (r: (Result<()>, seq<ItemState>))
    ensures r.0.Ok? ==> var k := InsertPosition(i, |st|);
      PathsOf(r.1) == PathsOf(st)[..k] + [p] + PathsOf(st)[k..]
    ensures r.0.Err? ==> check && r.1 == st && r.0.error == SequenceError(NotMemberMessage(Basename(p)))
    ensures r.0.Ok? <==> !check || IncludesSpec(st, FreshState(p), strict).0
  {
    var x := FreshState(p);
    var k := InsertPosition(i, |st|);
    if !check then
      PathsOfInsert(st, k, x);
      (Ok(()), st[..k] + [x] + st[k..])
    else
      var (b, st', x') := IncludesSpec(st, x, strict);
      if b then
        PathsOfInsert(st', k, x');
        (Ok(()), st'[..k] + [x'] + st'[k..])
      else (Err(SequenceError(NotMemberMessage(x.Name()))), st')
  }

  lemma PathsOfConcat(a: seq<ItemState>, b: seq<ItemState>)
    ensures PathsOf(a + b) == PathsOf(a) + PathsOf(b)
  {
    var l := a + b;
    forall j | 0 <= j < |l| ensures PathsOf(l)[j] == (PathsOf(a) + PathsOf(b))[j] {
      if j >= |a| {
        assert l[j] == b[j - |a|];
      }
    }
  }

  lemma PathsOfSlices(st: seq<ItemState>, k: nat)
    requires k <= |st|
    ensures PathsOf(st[..k]) == PathsOf(st)[..k] && PathsOf(st[k..]) == PathsOf(st)[k..]
  {
    hide PathsOf;
    var d := st[k..];
    forall j | 0 <= j < |d| ensures PathsOf(d)[j] == PathsOf(st)[k..][j] {
      assert d[j] == st[k + j];
    }
    var c := st[..k];
    forall j | 0 <= j < |c| ensures PathsOf(c)[j] == PathsOf(st)[..k][j] {
      assert c[j] == st[j];
    }
  }

  lemma PathsOfInsert(st: seq<ItemState>, k: nat, x: ItemState)
    requires k <= |st|
    ensures PathsOf(st[..k] + [x] + st[k..]) == PathsOf(st)[..k] + [x.path] + PathsOf(st)[k..]
  {
    hide PathsOf;
    PathsOfConcat(st[..k] + [x], st[k..]);
    PathsOfConcat(st[..k], [x]);
    PathsOfSlices(st, k);
    assert PathsOf([x]) == [x.path];
  }

  /** extend(items, check_membership): append in turn, stopping at the first
      SequenceError (the items before it stay appended). */
  function ExtendSpec(st: seq<ItemState>, ps: seq<string>, check: bool, strict: bool): (r: (Result<()>, seq<ItemState>))
    decreases |ps|
  {
    if ps == [] then (Ok(()), st)
    else
      var (r0, st') := AppendSpec(st, ps[0], check, strict);
      if r0.Err? then (r0, st') else ExtendSpec(st', ps[1..], check, strict)
  }

  lemma ExtendNil(st: seq<ItemState>, ps: seq<string>, check: bool, strict: bool)
    requires ps == []
    ensures ExtendSpec(st, ps, check, strict) == (Ok(()), st)
  {
  }

  lemma ExtendStep(st: seq<ItemState>, ps: seq<string>, i: nat, check: bool, strict: bool)
    requires i < |ps|
    ensures AppendSpec(st, ps[i], check, strict).0.Err? ==>
      ExtendSpec(st, ps[i..], check, strict) == AppendSpec(st, ps[i], check, strict)
    ensures AppendSpec(st, ps[i], check, strict).0.Ok? ==>
      ExtendSpec(st, ps[i..], check, strict) == ExtendSpec(AppendSpec(st, ps[i], check, strict).1, ps[i + 1..], check, strict)
  {
    assert ps[i..][0] == ps[i] && ps[i..][1..] == ps[i + 1..];
  }

  /** self[index] = item: the item must be included (SequenceError otherwise);
      then the list assignment raises IndexError for an index out of range. */
  function SetItemSpec(st: seq<ItemState>, i: int, p: string, strict: bool): (r: (Result<()>, seq<ItemState>))
    ensures r.0.Ok? <==> IncludesSpec(st, FreshState(p), strict).0 && ListIndex(i, |st|).Some?
    ensures r.0.Ok? ==> PathsOf(r.1) == PathsOf(st)[ListIndex(i, |st|).value := p]
    ensures !IncludesSpec(st, FreshState(p), strict).0 ==>
      r == (Err(SequenceError("Item is not a member of sequence.")), st)
    ensures IncludesSpec(st, FreshState(p), strict).0 && ListIndex(i, |st|).None? ==>
      r.0 == Err(IndexError) && PathsOf(r.1) == PathsOf(st)
  {
    var (b, st', x') := IncludesSpec(st, FreshState(p), strict);
    if !b then (Err(SequenceError("Item is not a member of sequence.")), st')
    else match ListIndex(i, |st'|)
      case None => (Err(IndexError), st')
      case Some(k) => (Ok(()), st'[k := x'])
  }

  /** contains(item): False on an empty sequence or an item that is not
      included; otherwise whether end() >= item.frame >= start(), a TypeError
      when the item got no frame (the comparison of an int with None). */
  function ContainsSpec(st: seq<ItemState>, p: string, strict: bool): (r: (Result<bool>, seq<ItemState>))
  {
    if st == [] then (Ok(false), st)
    else
      var (b, st', x') := IncludesSpec(st, FreshState(p), strict);
      if !b then (Ok(false), st')
      else if x'.frame.None? then (Err(TypeError), st')
      else
        var fs := FramesOf(st');
        (Ok(End(fs) >= x'.frame.value >= Start(fs)), st')
  }

  /** Sequence(items): the first item, then every later one that append()
      accepts; the others are skipped. */
  function BuildSpec(ps: seq<string>, strict: bool): (st: seq<ItemState>)
    requires |ps| >= 1
    ensures |st| >= 1
    decreases |ps|
  {
    if |ps| == 1 then [FreshState(ps[0])]
    else AppendSpec(BuildSpec(ps[..|ps| - 1], strict), ps[|ps| - 1], true, strict).1
  }

  lemma BuildSnoc(ps: seq<string>, i: nat, strict: bool)
    requires 1 <= i < |ps|
    ensures BuildSpec(ps[..i + 1], strict) == AppendSpec(BuildSpec(ps[..i], strict), ps[i], true, strict).1
  {
    hide AppendSpec, IncludesSpec, FreshState, Basename, NotMemberMessage, PathsOf;
    assert ps[..i + 1][..i] == ps[..i];
  }

  lemma ConsAppend(q: seq<string>, ps: seq<string>)
    requires ps != []
    ensures (q + [ps[0]]) + ps[1..] == q + ps
  {
  }

  lemma ConsPrefix(q: seq<string>, ps: seq<string>, j: nat)
    requires j + 1 < |ps|
    ensures (q + [ps[0]]) + ps[1..][..j] == q + ps[..j + 1] && ps[1..][j] == ps[j + 1]
  {
  }

  /** extend() that succeeds adds all the paths, in order; without the
      membership check it always succeeds. */
  lemma {:induction false} ExtendAll(st: seq<ItemState>, ps: seq<string>, check: bool, strict: bool)
    ensures ExtendSpec(st, ps, check, strict).0.Ok? ==> PathsOf(ExtendSpec(st, ps, check, strict).1) == PathsOf(st) + ps
    ensures !check ==> ExtendSpec(st, ps, check, strict).0.Ok?
    decreases |ps|
  {
    if ps != [] {
      var (r0, st') := AppendSpec(st, ps[0], check, strict);
      if r0.Ok? {
        ExtendAll(st', ps[1..], check, strict);
        ConsAppend(PathsOf(st), ps);
      }
    }
  }

  /** extend() that fails has added the paths before the first one not
      included, and raised the error for that one. */
  lemma {:induction false} ExtendStops(st: seq<ItemState>, ps: seq<string>, check: bool, strict: bool)
    requires ExtendSpec(st, ps, check, strict).0.Err?
    ensures exists j :: (0 <= j < |ps| && PathsOf(ExtendSpec(st, ps, check, strict).1) == PathsOf(st) + ps[..j] &&
      ExtendSpec(st, ps, check, strict).0.error == SequenceError(NotMemberMessage(Basename(ps[j]))))
    decreases |ps|
  {
    var (r0, st') := AppendSpec(st, ps[0], check, strict);
    if r0.Err? {
      assert PathsOf(st') == PathsOf(st) + ps[..0];
    } else {
      ExtendStops(st', ps[1..], check, strict);
      var r := ExtendSpec(st, ps, check, strict);
      var j :| 0 <= j < |ps[1..]| && PathsOf(r.1) == PathsOf(st') + ps[1..][..j] &&
        r.0.error == SequenceError(NotMemberMessage(Basename(ps[1..][j])));
      ConsPrefix(PathsOf(st), ps, j);
    }
  }

  lemma SplitLast(ps: seq<string>)
    requires |ps| >= 1
    ensures ps[..|ps| - 1] + [ps[|ps| - 1]] == ps
  {
  }

  /** The step of BuildOneNumber: the item after the last member is included. */
  lemma OneNumberAppend(st: seq<ItemState>, p: string, h: string, t: string, d1: string, d2: string, strict: bool)
    requires st != [] && st[|st| - 1].path == h + d1 + t && p == h + d2 + t
    requires NoDigits(h) && NoDigits(t) && '/' !in h && '/' !in t
    requires AllDigits(d1) && |d1| >= 1 && AllDigits(d2) && |d2| >= 1 && d1 != d2
    requires strict ==> |d1| == |d2|
    ensures PathsOf(AppendSpec(st, p, true, strict).1) == PathsOf(st) + [p]
  {
    hide Sibling, PathsOf, Basename, DiffSpec, Parts, FreshState, NoDigits, AllDigits, Runs;
    var x := FreshState(p);
    var k := |st| - 1;
    assert st[k].path != p by {
      if |d1| == |d2| {
        assert d1 == st[k].path[|h|..|h| + |d1|];
        assert d2 == p[|h|..|h| + |d2|];
      }
    }
    BasenameOfPlain(h, d1, t);
    BasenameOfPlain(h, d2, t);
    OneNumberSiblings(st[k], x, h, t, d1, d2, strict);
  }

  /** Names that differ only in their one number, each number different from
      the one before (and, under strict padding, all of one width): the
      Sequence built from them keeps every one, in order. */
  lemma BuildOneNumber(ps: seq<string>, h: string, t: string, ds: seq<string>, strict: bool)
    requires |ps| >= 1 && |ds| == |ps|
    requires NoDigits(h) && NoDigits(t) && '/' !in h && '/' !in t
    requires forall i :: 0 <= i < |ds| ==> AllDigits(ds[i]) && |ds[i]| >= 1 && ps[i] == h + ds[i] + t
    requires forall i :: 0 < i < |ds| ==> ds[i - 1] != ds[i]
    requires strict ==> forall i :: 0 <= i < |ds| ==> |ds[i]| == |ds[0]|
    ensures PathsOf(BuildSpec(ps, strict)) == ps
  {
    BuildOneNumberPrefix(ps, h, t, ds, strict, |ps|);
    assert ps[..|ps|] == ps;
  }

  /** The names of ps are h, then the number ds[i], then t; each number differs
      from the one before, and under strict padding all have one width. */
  ghost predicate OneNumberNames(ps: seq<string>, h: string, t: string, ds: seq<string>, strict: bool) {
    |ds| == |ps| && NoDigits(h) && NoDigits(t) && '/' !in h && '/' !in t
    && (forall i :: 0 <= i < |ds| ==> AllDigits(ds[i]) && |ds[i]| >= 1 && ps[i] == h + ds[i] + t)
    && (forall i :: 0 < i < |ds| ==> ds[i - 1] != ds[i])
    && (strict ==> forall i :: 0 <= i < |ds| ==> |ds[i]| == |ds[0]|)
  }

  lemma OneNumberStep(ps: seq<string>, h: string, t: string, ds: seq<string>, strict: bool, i: nat)
    requires OneNumberNames(ps, h, t, ds, strict) && 0 < i < |ps|
    ensures |ds| == |ps| && NoDigits(h) && NoDigits(t) && '/' !in h && '/' !in t
    ensures AllDigits(ds[i - 1]) && |ds[i - 1]| >= 1 && ps[i - 1] == h + ds[i - 1] + t
    ensures AllDigits(ds[i]) && |ds[i]| >= 1 && ps[i] == h + ds[i] + t
    ensures ds[i - 1] != ds[i] && (strict ==> |ds[i - 1]| == |ds[i]|)
  {
    assert strict ==> |ds[i - 1]| == |ds[0]| == |ds[i]|;
  }

  lemma BuildFirst(ps: seq<string>, strict: bool)
    requires |ps| >= 1
    ensures BuildSpec(ps[..1], strict) == [FreshState(ps[0])]
    ensures PathsOf(BuildSpec(ps[..1], strict)) == ps[..1]
  {
  }

  lemma {:induction false} BuildOneNumberPrefix(ps: seq<string>, h: string, t: string, ds: seq<string>, strict: bool, n: nat)
    requires 1 <= n <= |ps| && OneNumberNames(ps, h, t, ds, strict)
    ensures PathsOf(BuildSpec(ps[..n], strict)) == ps[..n]
    decreases n
  {
    hide AppendSpec, PathsOf, IncludesSpec, OneNumberNames, BuildSpec, NoDigits, AllDigits;
    if n == 1 {
      BuildFirst(ps, strict);
    } else {
      BuildOneNumberPrefix(ps, h, t, ds, strict, n - 1);
      BuildSnoc(ps, n - 1, strict);
      OneNumberStep(ps, h, t, ds, strict, n - 1);
      var st := BuildSpec(ps[..n - 1], strict);
      OneNumberAppend(st, ps[n - 1], h, t, ds[n - 2], ds[n - 1], strict);
      assert ps[..n - 1] + [ps[n - 1]] == ps[..n];
    }
  }

  /** The Sequence object: the states of its members, in list order. */
  class Sequence {
    var members: seq<ItemState>
    /** Whether strict padding is in force (PYSEQ_STRICT_PAD / PYSEQ_NOT_STRICT). */
    const strict: bool

    /** Every member's attributes are consistent with its name. */
    ghost predicate Valid()
      reads this
    {
      forall i :: 0 <= i < |members| ==> Anchored(members[i])
    }

    /** Sequence(items) on a non-empty list of paths (an empty one raises
        IndexError, see NewSequence). */
    constructor(ps: seq<string>, strictPad: bool)
      requires |ps| >= 1
      ensures strict == strictPad && members == BuildSpec(ps, strictPad)
      ensures Valid()
    {
      hide AppendSpec, IncludesSpec, Sibling, Anchored, BuildSpec, FreshState;
      strict := strictPad;
      members := [FreshState(ps[0])];
      new;
      FreshAnchored(ps[0]);
      BuildFirst(ps, strictPad);
      var i := 1;
      while i < |ps|
        invariant 1 <= i <= |ps|
        invariant members == BuildSpec(ps[..i], strict)
        invariant Valid()
        decreases |ps| - i
      {
        BuildSnoc(ps, i, strict);
        var _ := Append(ps[i], true);
        i := i + 1;
      }
      assert ps[..|ps|] == ps;
    }

    /** includes(item) for an item in state x; returns the item's new state. */
    method Includes(x: ItemState) returns (r: bool, x': ItemState)
      modifies this
      ensures (r, members, x') == IncludesSpec(old(members), x, strict)
      ensures old(Valid()) && Anchored(x) ==> Valid() && Anchored(x')
    {
      if Valid() && Anchored(x) {
        IncludesKeepsAnchored(members, x, strict);
      }
      if members == [] {
        return true, x;
      }
      var k := |members| - 1;
      if members[k].path != x.path {
        var (b, a', y) := Sibling(members[k], x, strict);
        members := members[k := a'];
        r, x' := b, y;
      } else if members[0].path != x.path {
        var (b, a', y) := Sibling(members[0], x, strict);
        members := members[0 := a'];
        r, x' := b, y;
      } else {
        r, x' := true, x;
      }
    }

    /** includes(path). */
    method IncludesPath(p: string) returns (r: bool)
      requires Valid()
      modifies this
      ensures r == IncludesSpec(old(members), FreshState(p), strict).0
      ensures members == IncludesSpec(old(members), FreshState(p), strict).1
      ensures Valid()
    {
      FreshAnchored(p);
      var x';
      r, x' := Includes(FreshState(p));
    }

    /** contains(path). */
    method Contains(p: string) returns (r: Result<bool>)
      requires Valid()
      modifies this
      ensures (r, members) == ContainsSpec(old(members), p, strict)
      ensures Valid()
    {
      if |members| == 0 {
        return Ok(false);
      }
      FreshAnchored(p);
      var b, item := Includes(FreshState(p));
      if !b {
        return Ok(false);
      }
      var e := End(FramesOf(members));
      if item.frame.None? {
        return Err(TypeError);
      }
      var s := Start(FramesOf(members));
      r := Ok(e >= item.frame.value >= s);
    }

    /** append(path, check_membership). */
    method Append(p: string, check: bool) returns (r: Result<()>)
      requires Valid()
      modifies this
      ensures (r, members) == AppendSpec(old(members), p, check, strict)
      ensures Valid()
    {
      FreshAnchored(p);
      var item := FreshState(p);
      if !check {
        members := members + [item];
        return Ok(());
      }
      var b, item' := Includes(item);
      if b {
        members := members + [item'];
        r := Ok(());
      } else {
        r := Err(SequenceError(NotMemberMessage(item.Name())));
      }
    }

    /** append(item, check_membership=False) for an Item object: the item is
        added with the attributes it already carries. */
    method AppendItem(x: ItemState)
      modifies this
      ensures members == old(members) + [x]
      ensures old(Valid()) && Anchored(x) ==> Valid()
    {
      members := members + [x];
    }

    /** insert(index, path, check_membership). */
    method Insert(index: int, p: string, check: bool) returns (r: Result<()>)
      requires Valid()
      modifies this
      ensures (r, members) == InsertSpec(old(members), index, p, check, strict)
      ensures Valid()
    {
      hide Anchored, Sibling, IncludesSpec, Basename;
      FreshAnchored(p);
      var item := FreshState(p);
      if !check {
        var k := InsertPosition(index, |members|);
        members := members[..k] + [item] + members[k..];
        return Ok(());
      }
      var b, item' := Includes(item);
      if b {
        var k := InsertPosition(index, |members|);
        members := members[..k] + [item'] + members[k..];
        r := Ok(());
      } else {
        r := Err(SequenceError(NotMemberMessage(item.Name())));
      }
    }

    /** extend(paths, check_membership): append() in turn. */
    method Extend(ps: seq<string>, check: bool) returns (r: Result<()>)
      requires Valid()
      modifies this
      ensures (r, members) == ExtendSpec(old(members), ps, check, strict)
      ensures Valid()
    {
      hide ExtendSpec, AppendSpec, IncludesSpec;
      var i := 0;
      while i < |ps|
        invariant 0 <= i <= |ps| && Valid()
        invariant ExtendSpec(old(members), ps, check, strict) == ExtendSpec(members, ps[i..], check, strict)
        decreases |ps| - i
      {
        ExtendStep(members, ps, i, check, strict);
        var e := Append(ps[i], check);
        if e.Err? {
          return e;
        }
        i := i + 1;
      }
      ExtendNil(members, ps[i..], check, strict);
      r := Ok(());
    }

    /** self[index] = path. */
    method SetItem(index: int, p: string) returns (r: Result<()>)
      requires Valid()
      modifies this
      ensures (r, members) == SetItemSpec(old(members), index, p, strict)
      ensures Valid()
    {
      FreshAnchored(p);
      var b, item := Includes(FreshState(p));
      if !b {
        return Err(SequenceError("Item is not a member of sequence."));
      }
      var n := |members|;
      if 0 <= index < n {
        members := members[index := item];
      } else if -n <= index < 0 {
        members := members[index + n := item];
      } else {
        return Err(IndexError);
      }
      r := Ok(());
    }
  }

  /** Sequence([]) raises IndexError (popleft on an empty deque). */
  method NewSequence(ps: seq<string>, strict: bool) returns (r: Result<Sequence>)
    ensures ps == [] <==> r.Err?
    ensures r.Err? ==> r.error == IndexError
    ensures r.Ok? ==> fresh(r.value) && r.value.members == BuildSpec(ps, strict) && r.value.Valid()
  {
    if ps == [] {
      return Err(IndexError);
    }
    var s := new Sequence(ps, strict);
    r := Ok(s);
  }
}
