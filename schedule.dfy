/**
 * Day tables and the ordering the resolvers put them in.
 *
 * A table lists time slots in declaration order. Every resolver first sorts the
 * table by slot time with Python's `sorted`, which is stable; `SortByTime` is a
 * stable insertion sort with the same result.
 */
module Schedule {

  import opened Wrappers

  /** An "HH:MM" slot time as minutes since midnight. */
  type Minute = m: int | 0 <= m < 1440

  /** One table entry; `preset == None` is an entry without a "preset" key. */
  datatype Slot = Slot(minute: Minute, preset: Option<string>)

  /** The schedules configuration: day-type key to that day's table. */
  type Schedules = map<string, seq<Slot>>

  ghost predicate Sorted(ys: seq<Slot>)
  {
    forall i, j :: 0 <= i < j < |ys| ==> ys[i].minute <= ys[j].minute
  }

  /** Places `x` after every slot of `ys` that is not later than it. */
  function Insert(ys: seq<Slot>, x: Slot): seq<Slot>
  {
    if ys == [] || x.minute < ys[0].minute then [x] + ys
    else [ys[0]] + Insert(ys[1..], x)
  }

  /** `sorted(day_schedule, key=time)`, as an insertion sort taking the slots in declaration order. */
  function SortByTime(xs: seq<Slot>): seq<Slot>
  {
    if xs == [] then [] else Insert(SortByTime(xs[..|xs| - 1]), xs[|xs| - 1])
  }

  lemma SortedCons(y: Slot, r: seq<Slot>)
    requires Sorted(r)
    requires forall j :: 0 <= j < |r| ==> y.minute <= r[j].minute
    ensures Sorted([y] + r)
  {
  }

  lemma {:induction false} InsertLowerBound(ys: seq<Slot>, x: Slot, b: int)
    requires b <= x.minute
    requires forall k :: 0 <= k < |ys| ==> b <= ys[k].minute
    ensures forall k :: 0 <= k < |Insert(ys, x)| ==> b <= Insert(ys, x)[k].minute
  {
    if ys != [] && ys[0].minute <= x.minute {
      InsertLowerBound(ys[1..], x, b);
    }
  }

  /** Insertion keeps a sorted table sorted. */
  lemma {:induction false} InsertSorted(ys: seq<Slot>, x: Slot)
    requires Sorted(ys)
    ensures Sorted(Insert(ys, x))
  {
    if ys == [] || x.minute < ys[0].minute {
      SortedCons(x, ys);
    } else {
      var tail := ys[1..];
      assert Sorted(tail);
      InsertSorted(tail, x);
      InsertLowerBound(tail, x, ys[0].minute);
      SortedCons(ys[0], Insert(tail, x));
    }
  }

  /** Insertion adds exactly one slot and loses none. */
  lemma {:induction false} InsertPermutes(ys: seq<Slot>, x: Slot)
    ensures multiset(Insert(ys, x)) == multiset(ys) + multiset{x}
  {
    if ys != [] && ys[0].minute <= x.minute {
      InsertPermutes(ys[1..], x);
      assert ys == [ys[0]] + ys[1..];
    }
  }

  /** The sorted table is ordered by time. */
  lemma {:induction false} SortByTimeOrders(xs: seq<Slot>)
    ensures Sorted(SortByTime(xs))
  {
    if xs != [] {
      var n := |xs| - 1;
      SortByTimeOrders(xs[..n]);
      InsertSorted(SortByTime(xs[..n]), xs[n]);
    }
  }

  /** The sorted table holds exactly the table's slots. */
  lemma {:induction false} SortByTimePermutes(xs: seq<Slot>)
    ensures multiset(SortByTime(xs)) == multiset(xs)
  {
    if xs != [] {
      var n := |xs| - 1;
      var init, x := xs[..n], xs[n];
      SortByTimePermutes(init);
      InsertPermutes(SortByTime(init), x);
      assert SortByTime(xs) == Insert(SortByTime(init), x);
      assert xs == init + [x];
      assert multiset(xs) == multiset(init) + multiset{x};
    }
  }

  lemma PermutationMember(xs: seq<Slot>, ys: seq<Slot>, i: nat)
    requires multiset(xs) == multiset(ys) && i < |xs|
    ensures xs[i] in ys
  {
    assert xs[i] in multiset(xs);
  }

  lemma {:induction false} InsertAtEnd(ys: seq<Slot>, x: Slot)
    requires forall k :: 0 <= k < |ys| ==> ys[k].minute <= x.minute
    ensures Insert(ys, x) == ys + [x]
  {
    if ys != [] {
      InsertAtEnd(ys[1..], x);
      assert ys == [ys[0]] + ys[1..];
    }
  }

  lemma SortedPrefix(xs: seq<Slot>, n: nat)
    requires Sorted(xs) && n <= |xs|
    ensures Sorted(xs[..n])
  {
  }

  /** A table already in time order is left in declaration order. */
  lemma {:induction false} SortSortedIsIdentity(xs: seq<Slot>)
    requires Sorted(xs)
    ensures SortByTime(xs) == xs
  {
    if xs != [] {
      var n := |xs| - 1;
      var init := xs[..n];
      SortedPrefix(xs, n);
      SortSortedIsIdentity(init);
      assert forall k :: 0 <= k < n ==> xs[k].minute <= xs[n].minute;
      InsertAtEnd(init, xs[n]);
      assert SortByTime(xs) == Insert(SortByTime(init), xs[n]);
      assert xs == init + [xs[n]];
    }
  }

  /** The slots of `ys` at minute `m`, in their order in `ys`. */
  function AtMinute(ys: seq<Slot>, m: Minute): seq<Slot>
  {
    if ys == [] then []
    else (if ys[0].minute == m then [ys[0]] else []) + AtMinute(ys[1..], m)
  }

  lemma {:induction false} AtMinuteConcat(a: seq<Slot>, b: seq<Slot>, m: Minute)
    ensures AtMinute(a + b, m) == AtMinute(a, m) + AtMinute(b, m)
  {
    if a == [] {
      assert a + b == b;
    } else {
      var ab := a + b;
      assert ab[0] == a[0];
      assert ab[1..] == a[1..] + b;
      AtMinuteConcat(a[1..], b, m);
      assert AtMinute(ab, m) == (if a[0].minute == m then [a[0]] else []) + AtMinute(a[1..] + b, m);
    }
  }

  lemma {:induction false} AtMinuteNone(ys: seq<Slot>, m: Minute)
    requires forall k :: 0 <= k < |ys| ==> ys[k].minute != m
    ensures AtMinute(ys, m) == []
  {
    if ys != [] {
      AtMinuteNone(ys[1..], m);
    }
  }

  lemma {:induction false} AtMinuteSplit(ys: seq<Slot>, i: nat)
    requires i < |ys|
    ensures AtMinute(ys, ys[i].minute)
         == AtMinute(ys[..i], ys[i].minute) + [ys[i]] + AtMinute(ys[i + 1..], ys[i].minute)
  {
    var m := ys[i].minute;
    var rest := [ys[i]] + ys[i + 1..];
    assert ys == ys[..i] + rest;
    AtMinuteConcat(ys[..i], rest, m);
    assert rest[1..] == ys[i + 1..];
    assert AtMinute(rest, m) == [ys[i]] + AtMinute(ys[i + 1..], m);
  }

  /** When `ys[i]` is the last slot at its time, it ends that time's run. */
  lemma LastAtMinute(ys: seq<Slot>, i: nat)
    requires i < |ys|
    requires forall j :: i < j < |ys| ==> ys[j].minute != ys[i].minute
    ensures AtMinute(ys, ys[i].minute) == AtMinute(ys[..i], ys[i].minute) + [ys[i]]
  {
    AtMinuteSplit(ys, i);
    AtMinuteNone(ys[i + 1..], ys[i].minute);
  }

  /** When `ys[i]` is the first slot at its time, it starts that time's run. */
  lemma FirstAtMinute(ys: seq<Slot>, i: nat)
    requires i < |ys|
    requires forall j :: 0 <= j < i ==> ys[j].minute != ys[i].minute
    ensures AtMinute(ys, ys[i].minute) == [ys[i]] + AtMinute(ys[i + 1..], ys[i].minute)
  {
    var m := ys[i].minute;
    AtMinuteSplit(ys, i);
    assert forall k :: 0 <= k < |ys[..i]| ==> ys[..i][k].minute != m;
    AtMinuteNone(ys[..i], m);
    assert AtMinute(ys[..i], m) + [ys[i]] == [ys[i]];
  }

  lemma AtMinuteSingleton(x: Slot, m: Minute)
    ensures AtMinute([x], m) == if x.minute == m then [x] else []
  {
    assert [x][1..] == [];
  }

  lemma SortedHead(ys: seq<Slot>)
    requires Sorted(ys) && ys != []
    ensures forall k :: 0 <= k < |ys| ==> ys[0].minute <= ys[k].minute
  {
  }

  /** A slot earlier than every slot of a sorted table is the only one at its time. */
  lemma AtMinuteFront(x: Slot, ys: seq<Slot>, m: Minute)
    requires Sorted(ys) && ys != [] && x.minute < ys[0].minute
    ensures AtMinute([x] + ys, m) == AtMinute(ys, m) + AtMinute([x], m)
  {
    AtMinuteConcat([x], ys, m);
    AtMinuteSingleton(x, m);
    if x.minute == m {
      SortedHead(ys);
      AtMinuteNone(ys, m);
    }
  }

  lemma {:induction false} InsertStable(ys: seq<Slot>, x: Slot, m: Minute)
    requires Sorted(ys)
    ensures AtMinute(Insert(ys, x), m) == AtMinute(ys, m) + AtMinute([x], m)
  {
    if ys == [] {
      AtMinuteSingleton(x, m);
    } else if x.minute < ys[0].minute {
      AtMinuteFront(x, ys, m);
    } else {
      var head, tail := [ys[0]], ys[1..];
      assert Sorted(tail);
      InsertStable(tail, x, m);
      AtMinuteConcat(head, Insert(tail, x), m);
      AtMinuteConcat(head, tail, m);
      assert ys == head + tail;
      var a, b, c := AtMinute(head, m), AtMinute(tail, m), AtMinute([x], m);
      assert a + (b + c) == (a + b) + c;
    }
  }

  /** Stability: for every time, the slots at that time keep their declaration order. */
  lemma {:induction false} SortStable(xs: seq<Slot>, m: Minute)
    ensures AtMinute(SortByTime(xs), m) == AtMinute(xs, m)
  {
    if xs != [] {
      var n := |xs| - 1;
      var init, x := xs[..n], xs[n];
      var sorted := SortByTime(init);
      SortStable(init, m);
      SortByTimeOrders(init);
      InsertStable(sorted, x, m);
      assert SortByTime(xs) == Insert(sorted, x);
      assert xs == init + [x];
      AtMinuteConcat(init, [x], m);
    }
  }

  /** `ys` is the table `xs` sorted by time, slots of equal time kept in declaration order. */
  ghost predicate StableSortOf(ys: seq<Slot>, xs: seq<Slot>)
  {
    && Sorted(ys)
    && multiset(ys) == multiset(xs)
    && forall m: Minute :: AtMinute(ys, m) == AtMinute(xs, m)
  }

  /** `SortByTime` is a stable sort: ordered by time, a rearrangement of the table, declaration order kept among equal times. */
  lemma SortByTimeCorrect(xs: seq<Slot>)
    ensures StableSortOf(SortByTime(xs), xs)
  {
    SortByTimeOrders(xs);
    SortByTimePermutes(xs);
    forall m: Minute ensures AtMinute(SortByTime(xs), m) == AtMinute(xs, m) {
      SortStable(xs, m);
    }
  }
}
