/** Lists of attribute IDs kept in fixed-size arrays that a 0 ends early, and the cursor that walks such a list
    while a drive reports its attributes. Main results: the list to read is the one ascending intersection of
    what is supported and what is requested; for callbacks in any order an attribute is marked as read exactly
    when it is listed and no higher ID was reported before; so with ascending callbacks every listed ID is
    marked, and the list a client rebuilds from the marks is the list itself. */
module IdLists {
  import opened MachineWords

  predicate Ascending(s: seq<nat>) {
    forall i, j :: 0 <= i < j < |s| ==> s[i] < s[j]
  }

  predicate Nondecreasing(s: seq<nat>) {
    forall i, j :: 0 <= i < j < |s| ==> s[i] <= s[j]
  }

  /** The entries of an array before its first 0. */
  function UpToZero(a: seq<nat>): (r: seq<nat>)
    ensures r <= a && 0 !in r
    ensures |r| < |a| ==> a[|r|] == 0
  {
    if a == [] || a[0] == 0 then [] else [a[0]] + UpToZero(a[1..])
  }

  /** An array after ids, and a 0 where there is room for it, were written to its front. */
  function Placed(a: seq<nat>, ids: seq<nat>): (r: seq<nat>)
    requires |ids| <= |a|
    ensures |r| == |a|
  {
    if |ids| < |a| then ids + [0] + a[|ids| + 1..] else ids
  }

  /** Element by element, what it takes to be a placed list. */
  lemma PlacedBy(a: seq<nat>, ids: seq<nat>, r: seq<nat>)
    requires |ids| <= |a| == |r|
    ensures r == Placed(a, ids) <==>
            && (forall k :: 0 <= k < |ids| ==> r[k] == ids[k])
            && (|ids| < |a| ==> r[|ids|] == 0)
            && (forall k :: |ids| < k < |a| ==> r[k] == a[k])
  {
    assert |Placed(a, ids)| == |r|;
    assert forall k :: 0 <= k < |r| ==>
      Placed(a, ids)[k] == if k < |ids| then ids[k] else if k == |ids| then 0 else a[k];
  }

  lemma {:induction false} UpToZeroUnique(a: seq<nat>, ids: seq<nat>)
    requires ids <= a && 0 !in ids && (|ids| < |a| ==> a[|ids|] == 0)
    ensures UpToZero(a) == ids
  {
    if ids != [] {
      assert a[0] == ids[0] && ids[0] in ids;
      assert ids == [a[0]] + ids[1..];
      UpToZeroUnique(a[1..], ids[1..]);
    }
  }

  /** Reading a placed list back up to its 0 gives that list. */
  lemma PlacedReadsBack(a: seq<nat>, ids: seq<nat>)
    requires |ids| <= |a| && 0 !in ids
    ensures UpToZero(Placed(a, ids)) == ids
  {
    UpToZeroUnique(Placed(a, ids), ids);
  }

  // ---- Intersection ----

  /** The supported IDs that are requested, in their order. */
  function Intersection(supported: seq<nat>, requested: seq<nat>): seq<nat> {
    if supported == [] then []
    else
      var last := supported[|supported| - 1];
      Intersection(supported[..|supported| - 1], requested) + if last in requested then [last] else []
  }

  /** It holds exactly the common IDs, ascending. */
  lemma {:induction false} IntersectionIsExact(supported: seq<nat>, requested: seq<nat>)
    requires Ascending(supported)
    ensures Ascending(Intersection(supported, requested))
    ensures forall id :: id in Intersection(supported, requested) <==> id in supported && id in requested
  {
    if supported != [] {
      var before, last := supported[..|supported| - 1], supported[|supported| - 1];
      IntersectionIsExact(before, requested);
      assert supported == before + [last];
      var r := Intersection(before, requested);
      forall i | 0 <= i < |r| ensures r[i] < last {
        assert r[i] in before;
      }
    }
  }

  /** Only one ascending list has given elements, so the two properties above pin the intersection down. */
  lemma {:induction false} AscendingUnique(a: seq<nat>, b: seq<nat>)
    requires Ascending(a) && Ascending(b)
    requires forall id :: id in a <==> id in b
    ensures a == b
  {
    if a == [] {
      assert forall i :: 0 <= i < |b| ==> b[i] in a;
    } else {
      assert a[|a| - 1] in b;
      var a', b' := a[..|a| - 1], b[..|b| - 1];
      var x, y := a[|a| - 1], b[|b| - 1];
      assert y in a && x in b;
      assert x <= y && y <= x;
      assert a == a' + [x] && b == b' + [y];
      assert x !in a' && x !in b';
      forall id ensures id in a' <==> id in b' {
        assert id in a <==> id in a' || id == x;
        assert id in b <==> id in b' || id == y;
      }
      AscendingUnique(a', b');
    }
  }

  /** Supported IDs from it on that are not requested add nothing. */
  lemma {:induction false} IntersectionStops(supported: seq<nat>, requested: seq<nat>, it: nat)
    requires it <= |supported|
    requires forall k :: it <= k < |supported| ==> supported[k] !in requested
    ensures Intersection(supported, requested) == Intersection(supported[..it], requested)
    decreases |supported|
  {
    if it < |supported| {
      var before := supported[..|supported| - 1];
      IntersectionStops(before, requested, it);
      assert before[..it] == supported[..it];
    } else {
      assert supported[..it] == supported;
    }
  }

  // ---- The cursor over the IDs to read ----

  /** One reported attribute. */
  datatype Entry = Entry(id: nat, raw: Word64)

  /** The cursor, and per attribute ID the "successfully read" flag and the raw value. */
  datatype ReadState = ReadState(cursor: nat, ok: seq<bool>, raws: seq<Word64>)

  function Advance(list: seq<nat>, cursor: nat, id: nat): (c: nat)
    requires cursor <= |list|
    ensures cursor <= c <= |list|
    decreases |list| - cursor
  {
    if cursor < |list| && list[cursor] < id then Advance(list, cursor + 1, id) else cursor
  }

  /** The list's element under the cursor; the list is followed by a 0. */
  function Under(list: seq<nat>, cursor: nat): nat
    requires cursor <= |list|
  {
    if cursor < |list| then list[cursor] else 0
  }

  predicate Fits(list: seq<nat>, st: ReadState, e: Entry) {
    st.cursor <= |list| && e.id < |st.ok| == |st.raws|
  }

  function CallbackStep(list: seq<nat>, st: ReadState, e: Entry): (st': ReadState)
    requires Fits(list, st, e)
    ensures st.cursor <= st'.cursor <= |list| && |st'.ok| == |st'.raws| == |st.ok|
  {
    var cursor := Advance(list, st.cursor, e.id);
    if Under(list, cursor) == e.id then ReadState(cursor, st.ok[e.id := true], st.raws[e.id := e.raw])
    else ReadState(cursor, st.ok[e.id := false], st.raws)
  }

  function Callbacks(list: seq<nat>, st: ReadState, es: seq<Entry>): (st': ReadState)
    requires st.cursor <= |list| && |st.ok| == |st.raws|
    requires forall e :: e in es ==> e.id < |st.ok|
    ensures st.cursor <= st'.cursor <= |list| && |st'.ok| == |st'.raws| == |st.ok|
  {
    if es == [] then st
    else
      assert es[|es| - 1] in es;
      CallbackStep(list, Callbacks(list, st, es[..|es| - 1]), es[|es| - 1])
  }

  function HighestID(es: seq<Entry>): nat {
    if es == [] then 0
    else
      var before := HighestID(es[..|es| - 1]);
      if es[|es| - 1].id > before then es[|es| - 1].id else before
  }

  /** Advancing stops at the first listed ID that is not below the given one. */
  lemma {:induction false} AdvanceStops(list: seq<nat>, cursor: nat, id: nat)
    requires cursor <= |list|
    ensures var c := Advance(list, cursor, id);
            && (forall i :: cursor <= i < c ==> list[i] < id)
            && (c < |list| ==> list[c] >= id)
    decreases |list| - cursor
  {
    if cursor < |list| && list[cursor] < id {
      AdvanceStops(list, cursor + 1, id);
    }
  }

  /** Where the cursor stands after any callbacks: before it exactly the listed IDs below the highest reported. */
  ghost predicate CursorAt(list: seq<nat>, cursor: nat, highest: nat) {
    && cursor <= |list|
    && (forall i :: 0 <= i < cursor ==> list[i] < highest)
    && (forall i :: cursor <= i < |list| ==> list[i] >= highest)
  }

  lemma {:induction false} CursorFollowsHighest(list: seq<nat>, st: ReadState, es: seq<Entry>)
    requires Ascending(list) && st.cursor == 0 && |st.ok| == |st.raws| && forall e :: e in es ==> e.id < |st.ok|
    ensures CursorAt(list, Callbacks(list, st, es).cursor, HighestID(es))
  {
    if es != [] {
      var before, e := es[..|es| - 1], es[|es| - 1];
      CursorFollowsHighest(list, st, before);
      AdvanceStops(list, Callbacks(list, st, before).cursor, e.id);
    }
  }

  /** Whether the callback for es[i] marks its attribute as read. ID 0, which no drive uses, meets the
      list's end mark instead. */
  ghost predicate Marks(list: seq<nat>, es: seq<Entry>, i: nat)
    requires i < |es|
  {
    if es[i].id == 0 then forall id :: id in list ==> id < HighestID(es[..i])
    else es[i].id in list && HighestID(es[..i]) <= es[i].id
  }

  /** The last callback for an ID decides its flag, whatever the order of the callbacks: the attribute is
      marked exactly when it is listed and no higher ID came before, and then its raw value is stored; otherwise
      the raw value from before stays. */
  lemma {:induction false} CallbacksInAnyOrder(list: seq<nat>, st: ReadState, es: seq<Entry>, i: nat)
    requires Ascending(list) && 0 !in list && st.cursor == 0 && |st.ok| == |st.raws|
    requires i < |es| && (forall j :: i < j < |es| ==> es[j].id != es[i].id)
    requires forall e :: e in es ==> e.id < |st.ok|
    ensures es[i] in es
    ensures Callbacks(list, st, es).ok[es[i].id] <==> Marks(list, es, i)
    ensures Callbacks(list, st, es).raws[es[i].id] ==
            if Marks(list, es, i) then es[i].raw else Callbacks(list, st, es[..i]).raws[es[i].id]
  {
    var n := |es| - 1;
    if i == n {
      LastCallbackMarks(list, st, es);
    } else {
      var before := es[..n];
      assert before[..i] == es[..i] && before[i] == es[i];
      CallbacksInAnyOrder(list, st, before, i);
      assert Marks(list, before, i) == Marks(list, es, i);
      OtherIDsKept(list, Callbacks(list, st, before), es[n], es[i].id);
    }
  }

  lemma OtherIDsKept(list: seq<nat>, st: ReadState, e: Entry, id: nat)
    requires Fits(list, st, e) && e.id != id && id < |st.ok|
    ensures CallbackStep(list, st, e).ok[id] == st.ok[id] && CallbackStep(list, st, e).raws[id] == st.raws[id]
  {
  }

  /** IDs that are not reported keep flag and raw value. */
  lemma {:induction false} UnreportedKept(list: seq<nat>, st: ReadState, es: seq<Entry>, id: nat)
    requires st.cursor <= |list| && |st.ok| == |st.raws| && id < |st.ok|
    requires forall e :: e in es ==> e.id < |st.ok| && e.id != id
    ensures Callbacks(list, st, es).ok[id] == st.ok[id] && Callbacks(list, st, es).raws[id] == st.raws[id]
  {
    if es != [] {
      assert es[|es| - 1] in es;
      UnreportedKept(list, st, es[..|es| - 1], id);
    }
  }

  lemma LastCallbackMarks(list: seq<nat>, st: ReadState, es: seq<Entry>)
    requires Ascending(list) && 0 !in list && st.cursor == 0 && |st.ok| == |st.raws|
    requires es != [] && forall e :: e in es ==> e.id < |st.ok|
    ensures es[|es| - 1] in es
    ensures
      var e, st' := es[|es| - 1], Callbacks(list, st, es);
      && (st'.ok[e.id] <==> Marks(list, es, |es| - 1))
      && st'.raws == (if Marks(list, es, |es| - 1) then Callbacks(list, st, es[..|es| - 1]).raws[e.id := e.raw]
                      else Callbacks(list, st, es[..|es| - 1]).raws)
  {
    var before, e := es[..|es| - 1], es[|es| - 1];
    CursorFollowsHighest(list, st, before);
    var c0 := Callbacks(list, st, before).cursor;
    AdvanceStops(list, c0, e.id);
    var c := Advance(list, c0, e.id);
    if e.id == 0 {
      assert c == c0;
      if c < |list| {
        assert list[c] in list;
      }
    } else if e.id in list {
      var i :| 0 <= i < |list| && list[i] == e.id;
      if HighestID(before) <= e.id {
        assert i >= c0;
        assert i == c;
      } else {
        assert i < c0;
      }
    } else if c < |list| {
      assert list[c] in list;
    }
  }

  predicate AscendingIDs(es: seq<Entry>) {
    forall i, j :: 0 <= i < j < |es| ==> es[i].id < es[j].id
  }

  lemma {:induction false} HighestIsLast(es: seq<Entry>)
    requires AscendingIDs(es)
    ensures HighestID(es) == if es == [] then 0 else es[|es| - 1].id
  {
    if es != [] {
      HighestIsLast(es[..|es| - 1]);
    }
  }

  /** With ascending callbacks a reported attribute is marked, and its raw value stored, exactly when listed. */
  lemma AscendingCallbacks(list: seq<nat>, st: ReadState, es: seq<Entry>, i: nat)
    requires Ascending(list) && 0 !in list && st.cursor == 0 && |st.ok| == |st.raws|
    requires AscendingIDs(es) && (forall e :: e in es ==> 0 < e.id < |st.ok|) && i < |es|
    ensures es[i] in es
    ensures Callbacks(list, st, es).ok[es[i].id] <==> es[i].id in list
    ensures Callbacks(list, st, es).raws[es[i].id] == if es[i].id in list then es[i].raw else st.raws[es[i].id]
  {
    CallbacksInAnyOrder(list, st, es, i);
    HighestIsLast(es[..i]);
    forall e | e in es[..i] ensures e.id < |st.ok| && e.id != es[i].id {
      var j :| 0 <= j < i && es[..i][j] == e;
    }
    UnreportedKept(list, st, es[..i], es[i].id);
  }

  // ---- Rebuilding the list from the flags ----

  /** The flagged IDs below n, from 1 on, ascending. */
  function Flagged(ok: seq<bool>, n: nat): (r: seq<nat>)
    requires n <= |ok|
    ensures n >= 1 ==> |r| <= n - 1
  {
    if n <= 1 then [] else Flagged(ok, n - 1) + if ok[n - 1] then [n - 1] else []
  }

  lemma AscendingAppend(r: seq<nat>, x: nat)
    requires Ascending(r) && forall id :: id in r ==> id < x
    ensures Ascending(r + [x])
    ensures forall id :: id in r + [x] <==> id in r || id == x
  {
    forall i | 0 <= i < |r| ensures r[i] < x {
      assert r[i] in r;
    }
  }

  lemma OneMoreFlag(ok: seq<bool>, n: nat)
    requires 1 < n <= |ok|
    ensures Flagged(ok, n) == if ok[n - 1] then Flagged(ok, n - 1) + [n - 1] else Flagged(ok, n - 1)
  {
  }

  lemma {:induction false} FlaggedIsExact(ok: seq<bool>, n: nat)
    requires n <= |ok|
    ensures Ascending(Flagged(ok, n))
    ensures forall id :: id in Flagged(ok, n) <==> 1 <= id < n && ok[id]
  {
    if n <= 1 {
      assert Flagged(ok, n) == [];
    } else {
      hide Ascending, Flagged;
      var r := Flagged(ok, n - 1);
      FlaggedIsExact(ok, n - 1);
      OneMoreFlag(ok, n);
      if ok[n - 1] {
        AscendingAppend(r, n - 1);
        forall id ensures id in Flagged(ok, n) <==> 1 <= id < n && ok[id] {
          assert id in r + [n - 1] <==> id in r || id == n - 1;
        }
      }
    }
  }

  /** A list of IDs up to n without n itself, which can only stand at its end. */
  function WithoutLastID(list: seq<nat>, n: nat): seq<nat> {
    if n in list then list[..|list| - 1] else list
  }

  lemma WithoutLastIDIsExact(list: seq<nat>, n: nat)
    requires Ascending(list) && forall id :: id in list ==> 1 <= id <= n
    ensures Ascending(WithoutLastID(list, n))
    ensures forall id :: id in WithoutLastID(list, n) <==> id in list && id < n
    ensures WithoutLastID(list, n) == list <==> n !in list
  {
    if n in list {
      var before, last := list[..|list| - 1], list[|list| - 1];
      assert list == before + [last];
      assert last in list;
      var i :| 0 <= i < |list| && list[i] == n;
      assert last == n;
    }
  }

  /** What is collected from flags that mark exactly the listed IDs: collecting stops before the ID n. */
  lemma CollectedList(ok: seq<bool>, list: seq<nat>, n: nat)
    requires n < |ok| && Ascending(list) && forall id :: id in list ==> 1 <= id <= n
    requires forall id :: 1 <= id < n ==> (ok[id] <==> id in list)
    ensures Flagged(ok, n) == WithoutLastID(list, n)
    ensures Flagged(ok, n) == list <==> n !in list
  {
    FlaggedIsExact(ok, n);
    WithoutLastIDIsExact(list, n);
    AscendingUnique(Flagged(ok, n), WithoutLastID(list, n));
  }

  /** Callbacks for all supported IDs in ascending order mark exactly the listed ones. */
  lemma ListedAreMarked(supported: seq<nat>, list: seq<nat>, st: ReadState, es: seq<Entry>, id: nat)
    requires Ascending(list) && 0 !in list && (forall x :: x in list ==> x in supported)
    requires Ascending(supported) && (forall x :: x in supported ==> 1 <= x < |st.ok|)
    requires |st.ok| == |st.raws| && st.cursor == 0 && (forall x :: 0 <= x < |st.ok| ==> !st.ok[x]) && id < |st.ok|
    requires |es| == |supported| && forall i :: 0 <= i < |es| ==> es[i].id == supported[i]
    ensures forall e :: e in es ==> 0 < e.id < |st.ok|
    ensures Callbacks(list, st, es).ok[id] <==> id in list
  {
    forall e | e in es ensures 0 < e.id < |st.ok| && e.id in supported {
      var i :| 0 <= i < |es| && es[i] == e;
      assert supported[i] in supported;
    }
    if id in supported {
      var i :| 0 <= i < |supported| && supported[i] == id;
      AscendingCallbacks(list, st, es, i);
    } else {
      UnreportedKept(list, st, es, id);
    }
  }

  /** From request to discovery: the drive supports the IDs supported, among 1 to n, reports each of them in
      ascending order, and was asked for the IDs requested. The IDs flagged afterwards, collected as a client
      does, are the intersection the service works with exactly when the last ID n is not in it. */
  lemma DiscoveryRebuildsReadList(supported: seq<nat>, requested: seq<nat>, st: ReadState, es: seq<Entry>, n: nat)
    requires Ascending(supported) && (forall id :: id in supported ==> 1 <= id <= n)
    requires |st.ok| == |st.raws| == n + 1 && st.cursor == 0 && forall id :: 0 <= id <= n ==> !st.ok[id]
    requires |es| == |supported| && forall i :: 0 <= i < |es| ==> es[i].id == supported[i]
    ensures forall e :: e in es ==> e.id < |st.ok|
    ensures
      var list := Intersection(supported, requested);
      var found := Flagged(Callbacks(list, st, es).ok, n);
      found == WithoutLastID(list, n) && (found == list <==> n !in list)
  {
    hide Callbacks, Flagged, WithoutLastID;
    var list := Intersection(supported, requested);
    IntersectionIsExact(supported, requested);
    ListedAreMarked(supported, list, st, es, 0);
    forall id | 1 <= id < n ensures Callbacks(list, st, es).ok[id] <==> id in list {
      ListedAreMarked(supported, list, st, es, id);
    }
    CollectedList(Callbacks(list, st, es).ok, list, n);
  }
}
