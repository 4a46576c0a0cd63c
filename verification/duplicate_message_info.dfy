/** The duplicate report of the integration tests' `DuplicateMessageInfo`:
    the received lists are read one position at a time, every list at that
    position in list order, and a message already met anywhere before counts
    as a duplicate of the list it is met in. */
module DuplicateMessageInfo {
  import opened Wrappers

  /** One step of the traversal: message `msg` at position `pos` of list `list`. */
  datatype Visit<T> = Visit(list: nat, pos: nat, msg: T)

  /** `maxmsgList`: the longest list's size (0 for no lists). */
  function MaxListSize<T>(lists: seq<seq<T>>): (r: nat)
    ensures forall i :: 0 <= i < |lists| ==> |lists[i]| <= r
    ensures |lists| == 0 ==> r == 0
    ensures |lists| > 0 ==> exists i :: 0 <= i < |lists| && |lists[i]| == r
  {
    if |lists| == 0 then 0
    else
      var m := MaxListSize(lists[..|lists| - 1]);
      assert forall i :: 0 <= i < |lists| - 1 ==> lists[..|lists| - 1][i] == lists[i];
      if |lists[|lists| - 1]| > m then |lists[|lists| - 1]| else m
  }

  /** The number of messages in all lists. */
  function TotalNumber<T>(lists: seq<seq<T>>): nat {
    if |lists| == 0 then 0 else TotalNumber(lists[..|lists| - 1]) + |lists[|lists| - 1]|
  }

  /** The inner loop at position `pos` over the first `n` lists: the lists
      still long enough are visited in list order. */
  function Row<T>(lists: seq<seq<T>>, pos: nat, n: nat): seq<Visit<T>>
    requires n <= |lists|
  {
    if n == 0 then []
    else
      var prev := Row(lists, pos, n - 1);
      if pos < |lists[n - 1]| then prev + [Visit(n - 1, pos, lists[n - 1][pos])] else prev
  }

  /** The outer loop up to (not including) position `p`. */
  function VisitsBelow<T>(lists: seq<seq<T>>, p: nat): seq<Visit<T>> {
    if p == 0 then [] else VisitsBelow(lists, p - 1) + Row(lists, p - 1, |lists|)
  }

  /** The whole traversal of `checkDuplicatedMessageInfo`. */
  function Traversal<T>(lists: seq<seq<T>>): seq<Visit<T>> {
    VisitsBelow(lists, MaxListSize(lists))
  }

  /** Visit `a` comes before visit `b`: position-major, list-minor order. */
  predicate InTraversalOrder<T>(a: Visit<T>, b: Visit<T>) {
    a.pos < b.pos || (a.pos == b.pos && a.list < b.list)
  }

  /** Every visit comes before each later one. */
  predicate Ordered<T>(vs: seq<Visit<T>>) {
    forall i, j :: 0 <= i < j < |vs| ==> InTraversalOrder(vs[i], vs[j])
  }

  /** A row stays at its position and visits the lists in increasing order. */
  lemma {:induction false} RowOrdered<T>(lists: seq<seq<T>>, pos: nat, n: nat)
    requires n <= |lists|
    ensures forall k :: 0 <= k < |Row(lists, pos, n)| ==> Row(lists, pos, n)[k].pos == pos && Row(lists, pos, n)[k].list < n
    ensures Ordered(Row(lists, pos, n))
  {
    if n > 0 {
      RowOrdered(lists, pos, n - 1);
      var prev := Row(lists, pos, n - 1);
      if pos < |lists[n - 1]| {
        var v := Visit(n - 1, pos, lists[n - 1][pos]);
        assert Row(lists, pos, n) == prev + [v];
        OrderedAppend(prev, [v]);
      }
    }
  }

  /** Position `p` of every list is visited, in list order, before position
      `p + 1` of any list. */
  lemma {:induction false} VisitsBelowOrdered<T>(lists: seq<seq<T>>, p: nat)
    ensures Ordered(VisitsBelow(lists, p))
  {
    if p > 0 {
      VisitsBelowOrdered(lists, p - 1);
      var a, b := VisitsBelow(lists, p - 1), Row(lists, p - 1, |lists|);
      RowOrdered(lists, p - 1, |lists|);
      forall i | 0 <= i < |a|
        ensures a[i].pos < p - 1
      {
        VisitsBelowMembers(lists, p - 1, a[i]);
      }
      OrderedAppend(a, b);
    }
  }

  /** Two ordered runs, every visit of the first before every visit of the second. */
  lemma OrderedAppend<T>(a: seq<Visit<T>>, b: seq<Visit<T>>)
    requires Ordered(a) && Ordered(b)
    requires forall i, j :: 0 <= i < |a| && 0 <= j < |b| ==> InTraversalOrder(a[i], b[j])
    ensures Ordered(a + b)
  {
    var v := a + b;
    forall i, j | 0 <= i < j < |v|
      ensures InTraversalOrder(v[i], v[j])
    {
      if j < |a| {
        assert v[i] == a[i] && v[j] == a[j];
      } else if i >= |a| {
        assert v[i] == b[i - |a|] && v[j] == b[j - |a|];
      } else {
        assert v[i] == a[i] && v[j] == b[j - |a|];
      }
    }
  }

  /** Exactly the messages of the lists are visited, each position once. */
  lemma {:induction false} VisitsBelowMembers<T>(lists: seq<seq<T>>, p: nat, v: Visit<T>)
    ensures v in VisitsBelow(lists, p) <==> IsMessageAt(lists, v) && v.pos < p
  {
    if p > 0 {
      VisitsBelowMembers(lists, p - 1, v);
      VisitsBelowMembersStep(lists, p, v);
    }
  }

  /** `v` is the message at its position of one of the lists. */
  ghost predicate IsMessageAt<T>(lists: seq<seq<T>>, v: Visit<T>) {
    v.list < |lists| && v.pos < |lists[v.list]| && v.msg == lists[v.list][v.pos]
  }

  lemma VisitsBelowMembersStep<T>(lists: seq<seq<T>>, p: nat, v: Visit<T>)
    requires p > 0
    requires v in VisitsBelow(lists, p - 1) <==> IsMessageAt(lists, v) && v.pos < p - 1
    ensures v in VisitsBelow(lists, p) <==> IsMessageAt(lists, v) && v.pos < p
  {
    var a, b := VisitsBelow(lists, p - 1), Row(lists, p - 1, |lists|);
    assert VisitsBelow(lists, p) == a + b;
    assert v in a + b <==> v in a || v in b;
    RowMembers(lists, p - 1, |lists|, v);
  }

  lemma {:induction false} RowMembers<T>(lists: seq<seq<T>>, pos: nat, n: nat, v: Visit<T>)
    requires n <= |lists|
    ensures v in Row(lists, pos, n) <==>
      v.list < n && v.pos == pos && pos < |lists[v.list]| && v.msg == lists[v.list][pos]
  {
    if n > 0 {
      RowMembers(lists, pos, n - 1, v);
    }
  }

  /** A row only depends on the lists it reaches. */
  lemma {:induction false} RowOfPrefix<T>(lists: seq<seq<T>>, l: seq<T>, pos: nat, n: nat)
    requires n <= |lists|
    ensures Row(lists + [l], pos, n) == Row(lists, pos, n)
  {
    if n > 0 {
      RowOfPrefix(lists, l, pos, n - 1);
      assert (lists + [l])[n - 1] == lists[n - 1];
    }
  }

  /** One more list adds, below position `p`, one visit per position it has. */
  lemma {:induction false} VisitsBelowSnoc<T>(lists: seq<seq<T>>, l: seq<T>, p: nat)
    ensures |VisitsBelow(lists + [l], p)| == |VisitsBelow(lists, p)| + (if |l| < p then |l| else p)
  {
    if p > 0 {
      var all := lists + [l];
      VisitsBelowSnoc(lists, l, p - 1);
      RowOfPrefix(lists, l, p - 1, |lists|);
      assert all[|lists|] == l;
      assert |Row(all, p - 1, |all|)| == |Row(lists, p - 1, |lists|)| + (if p - 1 < |l| then 1 else 0);
      assert |VisitsBelow(all, p)| == |VisitsBelow(all, p - 1)| + |Row(all, p - 1, |all|)|;
      assert |VisitsBelow(lists, p)| == |VisitsBelow(lists, p - 1)| + |Row(lists, p - 1, |lists|)|;
    }
  }

  lemma {:induction false} VisitsBelowOfNoLists<T>(lists: seq<seq<T>>, p: nat)
    requires |lists| == 0
    ensures VisitsBelow(lists, p) == []
  {
    if p > 0 {
      VisitsBelowOfNoLists(lists, p - 1);
    }
  }

  /** Visiting every position below a bound on the list sizes visits as many
      messages as the lists hold. */
  lemma {:induction false} VisitsBelowCount<T>(lists: seq<seq<T>>, p: nat)
    requires forall i :: 0 <= i < |lists| ==> |lists[i]| <= p
    ensures |VisitsBelow(lists, p)| == TotalNumber(lists)
  {
    if |lists| == 0 {
      VisitsBelowOfNoLists(lists, p);
    } else {
      var init, l := lists[..|lists| - 1], lists[|lists| - 1];
      assert lists == init + [l];
      assert forall i :: 0 <= i < |init| ==> init[i] == lists[i];
      VisitsBelowCount(init, p);
      VisitsBelowSnoc(init, l, p);
    }
  }

  /** The traversal visits `getMsgTotalNumber` messages, each at most once,
      in position-major order. */
  lemma TraversalCoversAll<T>(lists: seq<seq<T>>)
    ensures |Traversal(lists)| == TotalNumber(lists)
    ensures forall v :: v in Traversal(lists) <==>
      v.list < |lists| && v.pos < |lists[v.list]| && v.msg == lists[v.list][v.pos]
    ensures Ordered(Traversal(lists))
  {
    VisitsBelowCount(lists, MaxListSize(lists));
    VisitsBelowOrdered(lists, MaxListSize(lists));
    forall v: Visit<T>
      ensures v in Traversal(lists) <==> v.list < |lists| && v.pos < |lists[v.list]| && v.msg == lists[v.list][v.pos]
    {
      VisitsBelowMembers(lists, MaxListSize(lists), v);
    }
  }

  /** Every message any list received. */
  ghost function Received<T>(lists: seq<seq<T>>): set<T> {
    set i, p | 0 <= i < |lists| && 0 <= p < |lists[i]| :: lists[i][p]
  }

  /** The two maps the traversal fills: `msgIdMap` (message to the list it
      was first met in) and `dupMsgMap` (list to its number of duplicates). */
  datatype Tally<T(==)> = Tally(msgIdMap: map<T, int>, dupMsgMap: map<int, int>)

  /** `dupMsgMap.get(i)` read as 0 when absent. */
  function DupOf(dupMsgMap: map<int, int>, i: int): int {
    if i in dupMsgMap then dupMsgMap[i] else 0
  }

  /** One iteration of the inner loop body. */
  function Step<T(==)>(t: Tally<T>, v: Visit<T>): (r: Tally<T>)
    ensures forall x :: x in t.msgIdMap ==> x in r.msgIdMap && r.msgIdMap[x] == t.msgIdMap[x]
    ensures r.msgIdMap.Keys == t.msgIdMap.Keys + {v.msg}
  {
    if v.msg in t.msgIdMap then Tally(t.msgIdMap, t.dupMsgMap[v.list := DupOf(t.dupMsgMap, v.list) + 1])
    else Tally(t.msgIdMap[v.msg := v.list], t.dupMsgMap)
  }

  /** The maps after a sequence of visits. */
  function Scan<T(==)>(vs: seq<Visit<T>>): Tally<T> {
    if |vs| == 0 then Tally(map[], map[]) else Step(Scan(vs[..|vs| - 1]), vs[|vs| - 1])
  }

  /** The messages met in a sequence of visits. */
  function Messages<T(==)>(vs: seq<Visit<T>>): set<T> {
    set v | v in vs :: v.msg
  }

  /** Reference count: how many visits to list `i` meet a message already met. */
  function Repeats<T(==)>(vs: seq<Visit<T>>, i: int): nat {
    if |vs| == 0 then 0
    else
      var init, last := vs[..|vs| - 1], vs[|vs| - 1];
      Repeats(init, i) + (if last.list == i && last.msg in Messages(init) then 1 else 0)
  }

  /** `getDuplicateMsgNum` as intended: the duplicates of lists `0..n-1`. */
  function SumBelow(dupMsgMap: map<int, int>, n: nat): int {
    if n == 0 then 0 else SumBelow(dupMsgMap, n - 1) + DupOf(dupMsgMap, n - 1)
  }

  lemma {:induction false} SumBelowIncrement(m: map<int, int>, i: int, n: nat)
    ensures SumBelow(m[i := DupOf(m, i) + 1], n) == SumBelow(m, n) + (if 0 <= i < n then 1 else 0)
  {
    if n > 0 {
      SumBelowIncrement(m, i, n - 1);
    }
  }

  lemma MessagesSnoc<T>(vs: seq<Visit<T>>, v: Visit<T>)
    ensures Messages(vs + [v]) == Messages(vs) + {v.msg}
  {
    assert forall w :: w in vs + [v] <==> w in vs || w == v;
  }

  /** The first-seen map holds exactly the messages met so far. */
  lemma {:induction false} ScanKeys<T>(vs: seq<Visit<T>>)
    ensures Scan(vs).msgIdMap.Keys == Messages(vs)
  {
    if |vs| > 0 {
      var init, last := vs[..|vs| - 1], vs[|vs| - 1];
      assert vs == init + [last];
      ScanKeys(init);
      MessagesSnoc(init, last);
    }
  }

  /** The first-seen map records the list a message was first met in; later
      sightings never overwrite it. */
  lemma {:induction false} ScanFirstSeen<T>(vs: seq<Visit<T>>, k: nat)
    requires k < |vs| && vs[k].msg !in Messages(vs[..k])
    ensures vs[k].msg in Scan(vs).msgIdMap && Scan(vs).msgIdMap[vs[k].msg] == vs[k].list
  {
    var init, last := vs[..|vs| - 1], vs[|vs| - 1];
    if k < |init| {
      assert init[..k] == vs[..k];
      ScanFirstSeen(init, k);
    } else {
      assert init == vs[..k];
      ScanKeys(init);
    }
  }

  /** A list's duplicate count is the number of its visits that met a
      message already met; only lists with a duplicate have an entry. */
  lemma {:induction false} ScanDuplicates<T>(vs: seq<Visit<T>>, i: int)
    ensures DupOf(Scan(vs).dupMsgMap, i) == Repeats(vs, i)
    ensures i in Scan(vs).dupMsgMap ==> Scan(vs).dupMsgMap[i] > 0 && exists k :: 0 <= k < |vs| && vs[k].list == i
  {
    if |vs| > 0 {
      var init, last := vs[..|vs| - 1], vs[|vs| - 1];
      ScanDuplicates(init, i);
      ScanKeys(init);
      if i in Scan(init).dupMsgMap {
        var k :| 0 <= k < |init| && init[k].list == i;
        assert vs[k] == init[k];
      }
    }
  }

  /** Every visit is either a first sighting or a counted duplicate. */
  lemma {:induction false} ScanBalance<T>(vs: seq<Visit<T>>, n: nat)
    requires forall k :: 0 <= k < |vs| ==> vs[k].list < n
    ensures |vs| == SumBelow(Scan(vs).dupMsgMap, n) + |Scan(vs).msgIdMap.Keys|
  {
    if |vs| > 0 {
      var init, last := vs[..|vs| - 1], vs[|vs| - 1];
      assert forall k :: 0 <= k < |init| ==> init[k] == vs[k];
      ScanBalance(init, n);
      StepBalance(Scan(init), last, n);
    } else {
      SumBelowPositive(map[], n);
    }
  }

  /** One visit adds one to either the duplicates or the distinct messages. */
  lemma StepBalance<T>(t: Tally<T>, v: Visit<T>, n: nat)
    requires v.list < n
    ensures SumBelow(Step(t, v).dupMsgMap, n) + |Step(t, v).msgIdMap.Keys| ==
      SumBelow(t.dupMsgMap, n) + |t.msgIdMap.Keys| + 1
  {
    if v.msg in t.msgIdMap {
      SumBelowIncrement(t.dupMsgMap, v.list, n);
    } else {
      assert Step(t, v).msgIdMap.Keys == t.msgIdMap.Keys + {v.msg};
    }
  }

  /** The loops of `checkDuplicatedMessageInfo` that fill the maps: the
      maps they build are those of the traversal, and the report's
      `msgNoDupNum` is the number of distinct messages received. */
  method CheckDuplicatedMessageInfo<T(==)>(lists: seq<seq<T>>) returns (msgIdMap: map<T, int>, dupMsgMap: map<int, int>)
    ensures Tally(msgIdMap, dupMsgMap) == Scan(Traversal(lists))
    ensures msgIdMap.Keys == Received(lists)
    ensures forall i :: i in dupMsgMap ==> 0 <= i < |lists|
    ensures TotalNumber(lists) - SumBelow(dupMsgMap, |lists|) == |msgIdMap.Keys|
  {
    var maxmsgList := LongestList(lists);
    msgIdMap, dupMsgMap := map[], map[];
    var msgListIndex := 0;
    while msgListIndex < maxmsgList
      invariant 0 <= msgListIndex <= maxmsgList
      invariant Tally(msgIdMap, dupMsgMap) == Scan(VisitsBelow(lists, msgListIndex))
    {
      msgIdMap, dupMsgMap := ScanPosition(lists, msgListIndex, msgIdMap, dupMsgMap);
      msgListIndex := msgListIndex + 1;
    }
    TraversalTallyMeaning(lists);
  }

  /** The first loop of `checkDuplicatedMessageInfo`: `maxmsgList`, the longest list's size. */
  method LongestList<T>(lists: seq<seq<T>>) returns (maxmsgList: nat)
    ensures maxmsgList == MaxListSize(lists)
  {
    maxmsgList := 0;
    var i := 0;
    while i < |lists|
      invariant 0 <= i <= |lists|
      invariant maxmsgList == MaxListSize(lists[..i])
    {
      assert lists[..i + 1][..i] == lists[..i];
      if maxmsgList < |lists[i]| {
        maxmsgList := |lists[i]|;
      }
      i := i + 1;
    }
    assert lists[..|lists|] == lists;
  }

  /** The maps after the inner loop has gone through the first `n` lists at
      position `pos`, starting from `t`. */
  function StepRow<T(==)>(t: Tally<T>, lists: seq<seq<T>>, pos: nat, n: nat): Tally<T>
    requires n <= |lists|
  {
    if n == 0 then t
    else
      var before := StepRow(t, lists, pos, n - 1);
      if pos < |lists[n - 1]| then Step(before, Visit(n - 1, pos, lists[n - 1][pos])) else before
  }

  /** Stepping through a row continues the scan of the traversal. */
  lemma {:induction false} StepRowIsScan<T>(lists: seq<seq<T>>, pos: nat, n: nat)
    requires n <= |lists|
    ensures StepRow(Scan(VisitsBelow(lists, pos)), lists, pos, n) == Scan(VisitsBelow(lists, pos) + Row(lists, pos, n))
  {
    var t0 := Scan(VisitsBelow(lists, pos));
    if n == 0 {
      assert VisitsBelow(lists, pos) + Row(lists, pos, 0) == VisitsBelow(lists, pos);
    } else {
      StepRowIsScan(lists, pos, n - 1);
      if pos < |lists[n - 1]| {
        var v := Visit(n - 1, pos, lists[n - 1][pos]);
        assert StepRow(t0, lists, pos, n) == Step(StepRow(t0, lists, pos, n - 1), v);
        ScanNextVisit(lists, pos, n - 1);
      } else {
        assert StepRow(t0, lists, pos, n) == StepRow(t0, lists, pos, n - 1);
        assert Row(lists, pos, n) == Row(lists, pos, n - 1);
      }
    }
  }

  /** The inner loop of the traversal: position `msgListIndex` of every list
      long enough, in list order. */
  method ScanPosition<T(==)>(lists: seq<seq<T>>, msgListIndex: nat, msgIdMap0: map<T, int>, dupMsgMap0: map<int, int>)
    returns (msgIdMap: map<T, int>, dupMsgMap: map<int, int>)
    requires Tally(msgIdMap0, dupMsgMap0) == Scan(VisitsBelow(lists, msgListIndex))
    ensures Tally(msgIdMap, dupMsgMap) == Scan(VisitsBelow(lists, msgListIndex + 1))
  {
    msgIdMap, dupMsgMap := msgIdMap0, dupMsgMap0;
    var msgQueueListIndex := 0;
    while msgQueueListIndex < |lists|
      invariant 0 <= msgQueueListIndex <= |lists|
      invariant Tally(msgIdMap, dupMsgMap) == StepRow(Tally(msgIdMap0, dupMsgMap0), lists, msgListIndex, msgQueueListIndex)
    {
      if msgListIndex < |lists[msgQueueListIndex]| {
        var msg := lists[msgQueueListIndex][msgListIndex];
        ghost var before := Tally(msgIdMap, dupMsgMap);
        if msg in msgIdMap {
          dupMsgMap := dupMsgMap[msgQueueListIndex := DupOf(dupMsgMap, msgQueueListIndex) + 1];
        } else {
          msgIdMap := msgIdMap[msg := msgQueueListIndex];
        }
        assert Tally(msgIdMap, dupMsgMap) == Step(before, Visit(msgQueueListIndex, msgListIndex, msg));
      }
      msgQueueListIndex := msgQueueListIndex + 1;
    }
    StepRowIsScan(lists, msgListIndex, |lists|);
  }

  /** One more iteration of the inner loop visiting a list long enough. */
  lemma ScanNextVisit<T>(lists: seq<seq<T>>, pos: nat, n: nat)
    requires n < |lists| && pos < |lists[n]|
    ensures Scan(VisitsBelow(lists, pos) + Row(lists, pos, n + 1)) ==
      Step(Scan(VisitsBelow(lists, pos) + Row(lists, pos, n)), Visit(n, pos, lists[n][pos]))
  {
    var prefix := VisitsBelow(lists, pos) + Row(lists, pos, n);
    var v := Visit(n, pos, lists[n][pos]);
    assert VisitsBelow(lists, pos) + Row(lists, pos, n + 1) == prefix + [v];
    assert (prefix + [v])[..|prefix|] == prefix;
  }

  /** The traversal meets exactly the received messages, in real lists. */
  lemma TraversalMessages<T>(lists: seq<seq<T>>)
    ensures Messages(Traversal(lists)) == Received(lists)
    ensures forall k :: 0 <= k < |Traversal(lists)| ==> Traversal(lists)[k].list < |lists|
  {
    var vs := Traversal(lists);
    forall k | 0 <= k < |vs|
      ensures vs[k].list < |lists|
    {
      VisitsBelowMembers(lists, MaxListSize(lists), vs[k]);
    }
    forall x
      ensures x in Messages(vs) <==> x in Received(lists)
    {
      if x in Messages(vs) {
        var v :| v in vs && v.msg == x;
        VisitsBelowMembers(lists, MaxListSize(lists), v);
      }
      if x in Received(lists) {
        var i, p :| 0 <= i < |lists| && 0 <= p < |lists[i]| && lists[i][p] == x;
        VisitsBelowMembers(lists, MaxListSize(lists), Visit(i, p, x));
      }
    }
    assert Messages(vs) == Received(lists);
  }

  /** The maps of the whole traversal: every received message is a key of
      the first-seen map, duplicates are counted for real lists only, and the
      messages that are not duplicates are the distinct messages. */
  lemma TraversalTallyMeaning<T>(lists: seq<seq<T>>)
    ensures var t := Scan(Traversal(lists));
      && t.msgIdMap.Keys == Received(lists)
      && (forall i :: i in t.dupMsgMap ==> 0 <= i < |lists|)
      && TotalNumber(lists) - SumBelow(t.dupMsgMap, |lists|) == |t.msgIdMap.Keys|
  {
    var vs := Traversal(lists);
    TraversalMessages(lists);
    VisitsBelowCount(lists, MaxListSize(lists));
    ScanKeys(vs);
    ScanBalance(vs, |lists|);
    forall i | i in Scan(vs).dupMsgMap
      ensures 0 <= i < |lists|
    {
      ScanDuplicates(vs, i);
    }
  }

  /** `getMsgTotalNumber`. */
  method GetMsgTotalNumber<T>(lists: seq<seq<T>>) returns (msgTotalNum: int)
    ensures msgTotalNum == |Traversal(lists)|
  {
    msgTotalNum := 0;
    var i := 0;
    while i < |lists|
      invariant 0 <= i <= |lists|
      invariant msgTotalNum == TotalNumber(lists[..i])
    {
      assert lists[..i + 1][..i] == lists[..i];
      msgTotalNum := msgTotalNum + |lists[i]|;
      i := i + 1;
    }
    assert lists[..|lists|] == lists;
    TraversalCoversAll(lists);
  }

  /** `getDuplicateMsgNum` as written: it reads keys `0..size-1` of the map
      and unboxes each; a missing key is a `NullPointerException`, here `None`. */
  function GetDuplicateMsgNumAsWritten(msgDupMap: map<int, int>): (r: Option<int>)
    ensures r.Some? <==> forall i :: 0 <= i < |msgDupMap| ==> i in msgDupMap
    ensures r.Some? ==> r.value == SumBelow(msgDupMap, |msgDupMap|)
  {
    SumKeysBelow(msgDupMap, |msgDupMap|)
  }

  /** The loop of `getDuplicateMsgNum` over its first `n` keys. */
  function SumKeysBelow(msgDupMap: map<int, int>, n: nat): (r: Option<int>)
    ensures r.Some? <==> forall i :: 0 <= i < n ==> i in msgDupMap
    ensures r.Some? ==> r.value == SumBelow(msgDupMap, n)
  {
    if n == 0 then Some(0)
    else
      match SumKeysBelow(msgDupMap, n - 1)
      case None => None
      case Some(s) => if n - 1 in msgDupMap then Some(s + msgDupMap[n - 1]) else None
  }

  /** `getDuplicateMsgNum` corrected: every list index, an absent one
      counting 0. */
  method GetDuplicateMsgNum(msgDupMap: map<int, int>, msgListSize: nat) returns (msgDupNum: int)
    ensures msgDupNum == SumBelow(msgDupMap, msgListSize)
    ensures (forall i :: i in msgDupMap ==> 0 <= i < msgListSize && msgDupMap[i] > 0) ==>
      (msgDupNum == 0 <==> |msgDupMap| == 0)
  {
    msgDupNum := 0;
    var i := 0;
    while i < msgListSize
      invariant 0 <= i <= msgListSize
      invariant msgDupNum == SumBelow(msgDupMap, i)
    {
      msgDupNum := msgDupNum + DupOf(msgDupMap, i);
      i := i + 1;
    }
    if forall i :: i in msgDupMap ==> 0 <= i < msgListSize && msgDupMap[i] > 0 {
      SumBelowPositive(msgDupMap, msgListSize);
    }
  }

  lemma {:induction false} SumBelowPositive(m: map<int, int>, n: nat)
    requires forall i :: i in m ==> m[i] > 0
    ensures SumBelow(m, n) >= 0
    ensures SumBelow(m, n) == 0 <==> forall i :: 0 <= i < n ==> i !in m
  {
    if n > 0 {
      SumBelowPositive(m, n - 1);
    }
  }

  /** When the duplicates sit exactly in lists `0..size-1` the loop as written
      sums them all. */
  lemma AsWrittenAgreesWhenDense(msgDupMap: map<int, int>, msgListSize: nat)
    requires forall i :: i in msgDupMap <==> 0 <= i < |msgDupMap|
    requires |msgDupMap| <= msgListSize
    ensures GetDuplicateMsgNumAsWritten(msgDupMap) == Some(SumBelow(msgDupMap, msgListSize))
  {
    SumBelowBeyondKeys(msgDupMap, |msgDupMap|, msgListSize);
  }

  lemma {:induction false} SumBelowBeyondKeys(m: map<int, int>, lo: nat, n: nat)
    requires lo <= n
    requires forall i :: lo <= i < n ==> i !in m
    ensures SumBelow(m, n) == SumBelow(m, lo)
    decreases n
  {
    if n > lo {
      SumBelowBeyondKeys(m, lo, n - 1);
    }
  }

  /** Two one-message lists holding the same message `m`. */
  lemma {:induction false} SameMessageTwiceTraversal<T>(m: T)
    ensures Traversal([[m], [m]]) == [Visit(0, 0, m), Visit(1, 0, m)]
  {
    var lists := [[m], [m]];
    assert MaxListSize(lists) == 1;
    assert Row(lists, 0, 1) == [Visit(0, 0, m)];
    assert Row(lists, 0, 2) == [Visit(0, 0, m), Visit(1, 0, m)];
    assert VisitsBelow(lists, 1) == VisitsBelow(lists, 0) + Row(lists, 0, 2);
  }

  /** The second sighting is the duplicate, and it is booked on list 1. */
  lemma {:induction false} SameMessageTwiceScan<T>(m: T)
    ensures Scan([Visit(0, 0, m), Visit(1, 0, m)]) == Tally(map[m := 0], map[1 := 1])
  {
    var v0, v1 := Visit(0, 0, m), Visit(1, 0, m);
    assert [v0][..0] == [];
    assert Scan([v0]) == Tally(map[m := 0], map[]);
    assert [v0, v1][..1] == [v0];
  }

  /** Two lists that received the same single message: the second list has
      the duplicate, so the map is `{1: 1}` and reading key 0 fails. */
  lemma DuplicateInSecondListOnly<T>(m: T)
    ensures var t := Scan(Traversal([[m], [m]]));
      && t.dupMsgMap == map[1 := 1]
      && GetDuplicateMsgNumAsWritten(t.dupMsgMap).None?
      && SumBelow(t.dupMsgMap, 2) == 1
  {
    SameMessageTwiceTraversal(m);
    SameMessageTwiceScan(m);
    var dup: map<int, int> := map[1 := 1];
    assert 0 !in dup && |dup| == 1;
    assert SumBelow(dup, 1) == SumBelow(dup, 0) + DupOf(dup, 0) == 0;
    assert SumBelow(dup, 2) == SumBelow(dup, 1) + DupOf(dup, 1) == 1;
  }
}
