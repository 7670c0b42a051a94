/**
 The set of local transactions: hashes with the times at which they were marked. Marks are dropped after two hours.
 */
module LocalTxs {
  import opened PoolValues

  const TX_SET_DURATION: nat := 7200  // seconds

  datatype Mark = Mark(hash: Hash, time: nat)

  predicate TooOld(m: Mark, now: nat) {
    m.time + TX_SET_DURATION < now
  }

  /** How many marks at the front are too old. */
  function StaleMarks(marks: seq<Mark>, now: nat): (n: nat)
    ensures n <= |marks|
    ensures forall m | m in marks[..n] :: TooOld(m, now)
    ensures n < |marks| ==> !TooOld(marks[n], now)
  {
    if marks == [] || !TooOld(marks[0], now) then 0
    else
      var n := StaleMarks(marks[1..], now);
      assert marks[..n + 1] == [marks[0]] + marks[1..][..n];
      n + 1
  }

  function HashesOf(marks: seq<Mark>): set<Hash> {
    set m | m in marks :: m.hash
  }

  /** The hashes held and the marks kept, oldest first. */
  datatype Locals = Locals(hashes: set<Hash>, marks: seq<Mark>)

  /** Marking a hash: it is added, and then what is too old expires. */
  function Marked(s: Locals, hash: Hash, now: nat): Locals {
    Purged(Locals(s.hashes + {hash}, s.marks + [Mark(hash, now)]), now)
  }

  /** Marks that are too old are dropped from the front, each with its hash. */
  function Purged(s: Locals, now: nat): Locals {
    var n := StaleMarks(s.marks, now);
    Locals(s.hashes - HashesOf(s.marks[..n]), s.marks[n..])
  }

  predicate InOrder(marks: seq<Mark>) {
    forall i, j | 0 <= i < j < |marks| :: marks[i].time <= marks[j].time
  }

  /** The clock does not run behind the marks. */
  predicate NotLater(s: Locals, now: nat) {
    InOrder(s.marks) && forall m | m in s.marks :: m.time <= now
  }

  /** Of marks in order, those dropped are exactly those too old. */
  lemma StaleSplits(marks: seq<Mark>, now: nat, i: nat)
    requires InOrder(marks) && i < |marks|
    ensures i < StaleMarks(marks, now) <==> TooOld(marks[i], now)
  {
    var n := StaleMarks(marks, now);
    if i < n {
      assert marks[..n][i] == marks[i];
    }
  }

  lemma MarksInOrder(s: Locals, hash: Hash, now: nat)
    requires NotLater(s, now)
    ensures InOrder(s.marks + [Mark(hash, now)])
  {
    assert forall i | 0 <= i < |s.marks| :: s.marks[i] in s.marks;
  }

  /**
   After a hash is marked, a hash is held exactly if it was held or is the one marked, and no mark kept for it
   is too old. So marking a hash again drops it, if its first mark is too old by then.
   */
  lemma MarkedIff(s: Locals, hash: Hash, now: nat, h: Hash)
    requires NotLater(s, now)
    ensures h in Marked(s, hash, now).hashes <==>
            (h in s.hashes || h == hash) && forall m | m in s.marks && m.hash == h :: !TooOld(m, now)
  {
    hide StaleMarks;
    var marks := s.marks + [Mark(hash, now)];
    var n := StaleMarks(marks, now);
    MarksInOrder(s, hash, now);
    forall m | m in s.marks && TooOld(m, now) ensures m in marks[..n] {
      var i :| 0 <= i < |s.marks| && s.marks[i] == m;
      StaleSplits(marks, now, i);
      assert marks[..n][i] == m;
    }
    forall m | m in marks[..n] ensures m in s.marks && TooOld(m, now) {
      StaleAre(marks, now);
    }
  }

  lemma StaleAre(marks: seq<Mark>, now: nat)
    ensures forall m | m in marks[..StaleMarks(marks, now)] :: m in marks && TooOld(m, now)
  {
    hide StaleMarks;
  }

  /** A run of marks, from the empty set on. */
  function MarkRun(run: seq<Mark>): Locals {
    if run == [] then Locals({}, [])
    else Marked(MarkRun(run[..|run| - 1]), run[|run| - 1].hash, run[|run| - 1].time)
  }

  /** In every run in which time does not go back, the marks kept are marks of the run, in order. */
  lemma {:induction false} RunNotLater(run: seq<Mark>, now: nat)
    requires InOrder(run) && forall m | m in run :: m.time <= now
    ensures NotLater(MarkRun(run), now) && forall m | m in MarkRun(run).marks :: m in run
    decreases |run|
  {
    hide InOrder, StaleMarks, MarkRun, Marked;
    if run == [] {
      NothingMarked();
    } else {
      var last, rest := run[|run| - 1], run[..|run| - 1];
      SplitLast(run);
      RunNotLater(rest, last.time);
      RunStep(run);
      MarkedNotLater(MarkRun(rest), last, now);
    }
  }

  lemma SplitLast(run: seq<Mark>)
    requires InOrder(run) && run != []
    ensures var last, rest := run[|run| - 1], run[..|run| - 1];
            && InOrder(rest) && last in run && (forall m | m in rest :: m in run && m.time <= last.time)
  {
  }

  lemma MarkedNotLater(s: Locals, m: Mark, later: nat)
    requires NotLater(s, m.time) && m.time <= later
    ensures NotLater(Marked(s, m.hash, m.time), later)
    ensures forall k | k in Marked(s, m.hash, m.time).marks :: k in s.marks || k == m
  {
    hide StaleMarks;
    MarksInOrder(s, m.hash, m.time);
    var marks := s.marks + [m];
    assert forall k | k in marks :: k in s.marks || k == m;
    SuffixInOrder(marks, StaleMarks(marks, m.time));
  }

  lemma SuffixInOrder(marks: seq<Mark>, n: nat)
    requires InOrder(marks) && n <= |marks|
    ensures InOrder(marks[n..]) && forall m | m in marks[n..] :: m in marks
  {
  }

  lemma NothingMarked()
    ensures MarkRun([]) == Locals({}, []) && InOrder([])
  {
  }

  lemma RunStep(run: seq<Mark>)
    requires run != []
    ensures var last := run[|run| - 1]; MarkRun(run) == Marked(MarkRun(run[..|run| - 1]), last.hash, last.time)
  {
  }

  /** Marks too old already stay too old. */
  lemma {:induction false} StaleFrom(marks: seq<Mark>, k: nat, now: nat)
    requires k <= |marks| && forall m | m in marks[..k] :: TooOld(m, now)
    ensures StaleMarks(marks, now) == k + StaleMarks(marks[k..], now)
    decreases k
  {
    if k == 0 {
      assert marks[0..] == marks;
    } else {
      assert marks[0] in marks[..k];
      assert forall m | m in marks[1..][..k - 1] :: m in marks[..k] by {
        assert marks[1..][..k - 1] == marks[1..k];
      }
      StaleFrom(marks[1..], k - 1, now);
      assert marks[1..][k - 1..] == marks[k..];
    }
  }

  /** In every run in which time does not go back, what is held at the end was marked in the last two hours. */
  lemma {:induction false} HeldIsRecent(run: seq<Mark>, h: Hash)
    requires InOrder(run) && h in MarkRun(run).hashes
    ensures run != [] && exists m :: m in run && m.hash == h && !TooOld(m, run[|run| - 1].time)
  {
    hide InOrder, StaleMarks, MarkRun, Marked;
    if run == [] {
      NothingMarked();
    } else {
      SplitLast(run);
      var last, rest := run[|run| - 1], run[..|run| - 1];
      RunNotLater(rest, last.time);
      RunStep(run);
      MarkedIff(MarkRun(rest), last.hash, last.time, h);
      if h != last.hash {
        HeldHasMark(rest, h);
      }
    }
  }

  lemma {:induction false} HeldHasMark(run: seq<Mark>, h: Hash)
    requires InOrder(run) && h in MarkRun(run).hashes
    ensures exists m :: m in MarkRun(run).marks && m.hash == h
    decreases |run|
  {
    hide InOrder, StaleMarks, MarkRun, Marked;
    if run == [] {
      NothingMarked();
    } else {
      SplitLast(run);
      var last, rest := run[|run| - 1], run[..|run| - 1];
      RunNotLater(rest, last.time);
      RunStep(run);
      MarkedIff(MarkRun(rest), last.hash, last.time, h);
      MarkStays(MarkRun(rest), last, last);
      if h != last.hash {
        HeldHasMark(rest, h);
        var m :| m in MarkRun(rest).marks && m.hash == h;
        MarkStays(MarkRun(rest), last, m);
      }
    }
  }

  lemma MarkStays(s: Locals, last: Mark, m: Mark)
    requires NotLater(s, last.time) && m in s.marks + [last] && !TooOld(m, last.time)
    ensures m in Marked(s, last.hash, last.time).marks
  {
    hide StaleMarks;
    var marks := s.marks + [last];
    MarksInOrder(s, last.hash, last.time);
    var i :| 0 <= i < |marks| && marks[i] == m;
    StaleSplits(marks, last.time, i);
    assert marks[StaleMarks(marks, last.time)..][i - StaleMarks(marks, last.time)] == m;
  }

  lemma MarkedKeeps(s: Locals, last: Mark, m: Mark)
    requires NotLater(s, last.time)
    ensures m in Marked(s, last.hash, last.time).marks <==> m in s.marks + [last] && !TooOld(m, last.time)
  {
    hide StaleMarks;
    var marks := s.marks + [last];
    var n := StaleMarks(marks, last.time);
    MarksInOrder(s, last.hash, last.time);
    if i :| 0 <= i < |marks[n..]| && marks[n..][i] == m {
      StaleSplits(marks, last.time, n + i);
      assert marks[n + i] == m;
    }
    if m in marks && !TooOld(m, last.time) {
      MarkStays(s, last, m);
    }
  }

  /** The marks kept after a run are exactly those made in the two hours before its last one. */
  lemma {:induction false} KeptAre(run: seq<Mark>, m: Mark)
    requires InOrder(run) && run != []
    ensures m in MarkRun(run).marks <==> m in run && !TooOld(m, run[|run| - 1].time)
    decreases |run|
  {
    hide InOrder, StaleMarks, MarkRun, Marked;
    SplitLast(run);
    var last, rest := run[|run| - 1], run[..|run| - 1];
    assert run == rest + [last];
    RunNotLater(rest, last.time);
    RunStep(run);
    MarkedKeeps(MarkRun(rest), last, m);
    if rest == [] {
      NothingMarked();
    } else {
      KeptAre(rest, m);
      assert rest[|rest| - 1] in rest;
    }
  }

  /** Mark i of a hash holds to the end: no mark of the hash up to it got too old with it or after it. */
  ghost predicate Holds(run: seq<Mark>, h: Hash, i: nat) {
    && i < |run| && run[i].hash == h
    && forall j | 0 <= j <= i && run[j].hash == h ::
         !TooOld(run[j], run[|run| - 1].time) || (j < i && TooOld(run[j], run[i - 1].time))
  }

  /**
   In every run in which time does not go back, a hash is held at the end exactly if some mark of it holds. That
   does not depend on the time at which the set is asked, only on the marks made.
   */
  lemma {:induction false} HeldIff(run: seq<Mark>, h: Hash)
    requires InOrder(run)
    ensures h in MarkRun(run).hashes <==> exists i: nat :: Holds(run, h, i)
    decreases |run|
  {
    hide StaleMarks, MarkRun, Marked, Holds;
    if run == [] {
      NothingMarked();
      NothingHolds(h);
    } else {
      SplitLast(run);
      var last, rest := run[|run| - 1], run[..|run| - 1];
      HeldIff(rest, h);
      RunNotLater(rest, last.time);
      RunStep(run);
      MarkedIff(MarkRun(rest), last.hash, last.time, h);
      NoneDropped(run, h);
      if h == last.hash {
        LastHolds(run, h);
      }
      if h in MarkRun(run).hashes && h != last.hash {
        var i: nat :| Holds(rest, h, i);
        HoldsWithin(rest, h, i);
        HoldsOn(run, h, i);
      }
      if i: nat :| Holds(run, h, i) {
        HoldsWithin(run, h, i);
        if i < |rest| {
          HoldsOn(run, h, i);
        }
      }
    }
  }

  /** The last mark of a run makes no mark of the hash too old that was still kept. */
  predicate NoneLost(run: seq<Mark>, h: Hash)
    requires run != []
  {
    var n := |run| - 1;
    forall j | 0 <= j < n && run[j].hash == h :: !TooOld(run[j], run[n].time) || TooOld(run[j], run[n - 1].time)
  }

  lemma NothingHolds(h: Hash)
    ensures forall i: nat :: !Holds([], h, i)
  {
  }

  lemma NoneDropped(run: seq<Mark>, h: Hash)
    requires InOrder(run) && run != []
    ensures var last, rest := run[|run| - 1], run[..|run| - 1];
            NoneLost(run, h) <==> forall m | m in MarkRun(rest).marks && m.hash == h :: !TooOld(m, last.time)
  {
    hide InOrder, MarkRun;
    SplitLast(run);
    var last, rest := run[|run| - 1], run[..|run| - 1];
    if rest == [] {
      NothingMarked();
    } else {
      forall m ensures m in MarkRun(rest).marks <==> m in rest && !TooOld(m, run[|run| - 2].time) {
        KeptAre(rest, m);
      }
      forall m | m in rest ensures exists j :: 0 <= j < |run| - 1 && run[j] == m {
        var j :| 0 <= j < |rest| && rest[j] == m;
        assert run[j] == m;
      }
      forall j | 0 <= j < |run| - 1 ensures run[j] in rest {
        assert rest[j] == run[j];
      }
    }
  }

  lemma LastHolds(run: seq<Mark>, h: Hash)
    requires run != [] && run[|run| - 1].hash == h
    ensures Holds(run, h, |run| - 1) <==> NoneLost(run, h)
  {
  }

  lemma HoldsWithin(run: seq<Mark>, h: Hash, i: nat)
    requires Holds(run, h, i)
    ensures i < |run| && run[i].hash == h
  {
  }

  lemma HoldsOn(run: seq<Mark>, h: Hash, i: nat)
    requires InOrder(run) && i < |run| - 1
    ensures Holds(run, h, i) <==> Holds(run[..|run| - 1], h, i) && NoneLost(run, h)
  {
    var n, rest := |run| - 1, run[..|run| - 1];
    assert forall j | 0 <= j < n :: rest[j] == run[j];
    if Holds(run, h, i) {
      forall j | 0 <= j <= i && run[j].hash == h
        ensures !TooOld(run[j], run[n - 1].time) || (j < i && TooOld(run[j], run[i - 1].time))
      {
        assert run[n - 1].time <= run[n].time;
      }
    }
  }

  /** A hash marked once is held too long exactly if nothing was marked since its mark got too old. */
  lemma HeldTooLongIff(run: seq<Mark>, i: nat, now: nat)
    requires InOrder(run) && i < |run| && forall j | 0 <= j < |run| && j != i :: run[j].hash != run[i].hash
    ensures run[i].hash in MarkRun(run).hashes && TooOld(run[i], now) <==>
              run[|run| - 1].time <= run[i].time + 2 * 3600 < now
  {
    var h := run[i].hash;
    HeldIff(run, h);
    assert Holds(run, h, i) <==> !TooOld(run[i], run[|run| - 1].time);
    assert forall k: nat :: Holds(run, h, k) ==> k == i;
  }

  /** A hash marked, and marked again more than two hours later, is not held. */
  lemma MarkedAgain(h: Hash)
    ensures h in MarkRun([Mark(h, 0)]).hashes
    ensures h !in MarkRun([Mark(h, 0), Mark(h, TX_SET_DURATION + 1)]).hashes
  {
    var first, again := Mark(h, 0), Mark(h, TX_SET_DURATION + 1);
    assert [first][..0] == [] && [first, again][..1] == [first];
    assert MarkRun([]) == Locals({}, []);
    RunNotLater([first], 0);
    MarkedIff(MarkRun([]), h, 0, h);
    assert StaleMarks([first], 0) == 0;
    assert first in MarkRun([first]).marks;
    MarkedIff(MarkRun([first]), h, again.time, h);
  }

  // ------------------------------------------------------------------ dropping

  function WithoutFirst(s: Locals): Locals
    requires s.marks != []
  {
    Locals(s.hashes - {s.marks[0].hash}, s.marks[1..])
  }

  /** Some marks at the front, all too old, have been dropped. */
  ghost predicate Dropped(s: Locals, gone: seq<Mark>, now: Locals, time: nat) {
    && s.marks == gone + now.marks && now.hashes == s.hashes - HashesOf(gone)
    && forall m | m in gone :: TooOld(m, time)
  }

  lemma DropOne(s: Locals, gone: seq<Mark>, here: Locals, time: nat)
    requires Dropped(s, gone, here, time) && here.marks != [] && TooOld(here.marks[0], time)
    ensures Dropped(s, gone + [here.marks[0]], WithoutFirst(here), time)
  {
    assert here.marks == [here.marks[0]] + here.marks[1..];
  }

  /** Dropping ends behind the marks too old, at one that is not. */
  lemma DroppedAll(s: Locals, gone: seq<Mark>, now: Locals, time: nat)
    requires Dropped(s, gone, now, time) && (now.marks != [] ==> !TooOld(now.marks[0], time))
    ensures now == Purged(s, time)
  {
    hide StaleMarks;
    assert s.marks[..|gone|] == gone && s.marks[|gone|..] == now.marks;
    StaleFrom(s.marks, |gone|, time);
    StaleHere(now.marks, time);
  }

  lemma StaleHere(marks: seq<Mark>, now: nat)
    requires marks != [] ==> !TooOld(marks[0], now)
    ensures StaleMarks(marks, now) == 0
  {
  }

  class TxSet {
    var txMap: set<Hash>
    var txOrd: map<nat, Mark>
    var addPtr: nat
    var delPtr: nat

    ghost predicate Valid()
      reads this
    {
      delPtr <= addPtr && forall i :: i in txOrd <==> delPtr <= i < addPtr
    }

    ghost function Value(): Locals
      reads this
      requires Valid()
    {
      Locals(txMap, seq(addPtr - delPtr,
                        i requires 0 <= i < addPtr - delPtr reads this requires Valid() => txOrd[delPtr + i]))
    }

    constructor ()
      ensures Valid() && Value() == Locals({}, []) && txMap == {}
    {
      txMap, txOrd, addPtr, delPtr := {}, map[], 0, 0;
    }

    method Append(hash: Hash, now: nat)
      requires Valid()
      modifies this
      ensures Valid() && Value() == Locals(old(txMap) + {hash}, old(Value()).marks + [Mark(hash, now)])
    {
      ghost var before := Value().marks;
      txMap := txMap + {hash};
      txOrd := txOrd[addPtr := Mark(hash, now)];
      addPtr := addPtr + 1;
      assert Value().marks == before + [Mark(hash, now)];
    }

    /** Drops the oldest mark and its hash. */
    method DropOldest()
      requires Valid() && delPtr < addPtr
      modifies this
      ensures Valid() && old(Value()).marks != [] && old(delPtr) < delPtr && addPtr == old(addPtr)
      ensures Value() == WithoutFirst(old(Value()))
    {
      ghost var before := Value().marks;
      txMap := txMap - {txOrd[delPtr].hash};
      txOrd := txOrd - {delPtr};
      delPtr := delPtr + 1;
      assert before[1..] == Value().marks && before[0] == old(txOrd[delPtr]);
    }

    /** Adds a hash, and then drops what was added too long ago. */
    method Add(hash: Hash, now: nat)
      requires Valid()
      modifies this
      ensures Valid() && Value() == Marked(old(Value()), hash, now)
    {
      Append(hash, now);
      Purge(now);
    }

    /** Drops the marks that are too old, and their hashes. */
    method Purge(now: nat)
      requires Valid()
      modifies this
      ensures Valid() && Value() == Purged(old(Value()), now)
    {
      hide StaleMarks, Value;
      ghost var before := Value();
      ghost var gone: seq<Mark> := [];
      while delPtr < addPtr && txOrd[delPtr].time + TX_SET_DURATION < now
        invariant Valid() && Dropped(before, gone, Value(), now)
        decreases addPtr - delPtr
      {
        FirstMark();
        DropOne(before, gone, Value(), now);
        gone := gone + [txOrd[delPtr]];
        DropOldest();
      }
      FirstMark();
      DroppedAll(before, gone, Value(), now);
    }

    lemma FirstMark()
      requires Valid()
      ensures Value().marks == [] <==> delPtr == addPtr
      ensures delPtr < addPtr ==> Value().marks[0] == txOrd[delPtr]
    {
    }

    predicate Contains(hash: Hash)
      reads this
    {
      hash in txMap
    }
  }
}
