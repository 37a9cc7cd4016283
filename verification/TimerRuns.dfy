/** What the timer queue guarantees, step by step and over whole runs. */
module TimerRuns {
  import opened Options
  import opened TimerQueue

  ghost predicate Sorted<E>(p: seq<Entry<E>>) {
    forall i, j :: 0 <= i < j < |p| ==> p[i].key <= p[j].key
  }

  ghost predicate Distinct<E>(p: seq<Entry<E>>) {
    forall i, j :: 0 <= i < j < |p| ==> p[i].event != p[j].event
  }

  ghost predicate Pending<E>(p: seq<Entry<E>>, e: E) {
    exists x :: x in p && x.event == e
  }

  ghost predicate NoRepeats<E>(es: seq<E>) {
    forall i, j :: 0 <= i < j < |es| ==> es[i] != es[j]
  }

  ghost predicate InArrivalOrder<E>(es: seq<E>, info: map<E, Info>) {
    && (forall e :: e in es ==> e in info)
    && (forall i, j :: 0 <= i < j < |es| ==> info[es[i]].arrive <= info[es[j]].arrive)
  }

  /** Keys are the events' arrival times, in order, and no event waits twice. */
  ghost predicate Consistent<E>(t: Timers<E>) {
    && Known(t) && Sorted(t.pending) && Distinct(t.pending)
    && forall x :: x in t.pending ==> x.key == t.info[x.event].arrive
  }

  /** While events wait, the timer is armed, no later than the first of them. */
  ghost predicate Armed<E>(t: Timers<E>) {
    t.pending != [] ==> t.armed.Some? && t.armed.value <= t.pending[0].key
  }

  // ---------------------------------------------------------------------------------------------
  // The sorted sequence
  // ---------------------------------------------------------------------------------------------

  lemma HeadBefore<E(!new)>(p: seq<Entry<E>>, x: Entry<E>)
    requires p != [] && Sorted(p) && Distinct(p) && x in p[1..]
    ensures p[0].key <= x.key && p[0].event != x.event
  {
    var k :| 0 <= k < |p[1..]| && p[1..][k] == x;
    assert p[k + 1] == x;
  }

  lemma TailInOrder<E(!new)>(p: seq<Entry<E>>)
    requires p != [] && Sorted(p) && Distinct(p)
    ensures Sorted(p[1..]) && Distinct(p[1..]) && forall x :: x in p[1..] ==> x in p
  {
  }

  lemma ConsInOrder<E(!new)>(x: Entry<E>, p: seq<Entry<E>>)
    requires Sorted(p) && Distinct(p) && forall y :: y in p ==> x.key <= y.key && x.event != y.event
    ensures Sorted([x] + p) && Distinct([x] + p)
  {
    assert forall k :: 0 <= k < |p| ==> p[k] in p;
  }

  lemma FirstIsLeast<E(!new)>(p: seq<Entry<E>>, y: Entry<E>)
    requires Sorted(p) && y in p
    ensures p[0].key <= y.key
  {
    var k :| 0 <= k < |p| && p[k] == y;
  }

  lemma {:induction false} InsertKeepsOrder<E(!new)>(p: seq<Entry<E>>, x: Entry<E>)
    requires Sorted(p) && Distinct(p) && !Pending(p, x.event)
    ensures Sorted(Insert(p, x)) && Distinct(Insert(p, x))
    decreases |p|
  {
    hide Sorted, Distinct;
    if p == [] || p[0].key > x.key {
      forall y | y in p
        ensures x.key <= y.key && x.event != y.event
      {
        FirstIsLeast(p, y);
      }
      ConsInOrder(x, p);
    } else {
      var rest := p[1..];
      TailInOrder(p);
      InsertKeepsOrder(rest, x);
      InsertMembers(rest, x);
      assert p[0] in p;
      forall y | y in Insert(rest, x)
        ensures p[0].key <= y.key && p[0].event != y.event
      {
        if y != x {
          HeadBefore(p, y);
        }
      }
      ConsInOrder(p[0], Insert(rest, x));
    }
  }

  lemma {:induction false} EraseKeepsOrder<E(!new)>(p: seq<Entry<E>>, x: Entry<E>)
    requires Sorted(p) && Distinct(p)
    ensures Sorted(Erase(p, x)) && Distinct(Erase(p, x))
    ensures forall y :: y in Erase(p, x) <==> y in p && y != x
    decreases |p|
  {
    hide Sorted, Distinct;
    if p != [] {
      var rest := p[1..];
      assert p == [p[0]] + rest;
      TailInOrder(p);
      forall y | y in rest
        ensures p[0].key <= y.key && p[0].event != y.event
      {
        HeadBefore(p, y);
      }
      if p[0] != x {
        EraseKeepsOrder(rest, x);
        ConsInOrder(p[0], Erase(rest, x));
      }
    }
  }

  lemma EraseFirst<E(!new)>(p: seq<Entry<E>>, x: Entry<E>)
    requires Sorted(p) && Distinct(p) && Erase(p, x) != []
    ensures p != [] && p[0].key <= Erase(p, x)[0].key
  {
    EraseKeepsOrder(p, x);
    assert Erase(p, x)[0] in Erase(p, x);
    var k :| 0 <= k < |p| && p[k] == Erase(p, x)[0];
  }

  // ---------------------------------------------------------------------------------------------
  // Ties
  // ---------------------------------------------------------------------------------------------

  /** An entry of `e` waits in front of one of `f`. */
  ghost predicate Before<E>(p: seq<Entry<E>>, e: E, f: E) {
    exists a, b :: 0 <= a < b < |p| && p[a].event == e && p[b].event == f
  }

  /** A new entry goes in at one place, behind all entries with a smaller or an equal key and in front of all
      others. */
  lemma {:induction false} InsertBehindEquals<E(!new)>(p: seq<Entry<E>>, x: Entry<E>) returns (i: nat)
    requires Sorted(p)
    ensures i <= |p| && Insert(p, x) == p[..i] + [x] + p[i..]
    ensures (forall k :: 0 <= k < i ==> p[k].key <= x.key) && (forall k :: i <= k < |p| ==> p[k].key > x.key)
    decreases |p|
  {
    if p == [] || p[0].key > x.key {
      i := 0;
    } else {
      var j := InsertBehindEquals(p[1..], x);
      i := j + 1;
      assert p == [p[0]] + p[1..];
      assert Insert(p, x) == [p[0]] + (p[1..][..j] + [x] + p[1..][j..]);
      assert forall k :: 1 <= k < |p| ==> p[k] == p[1..][k - 1];
    }
  }

  /** So it stands behind every entry that is not later, and the others keep their order. */
  lemma InsertKeepsBefore<E(!new)>(p: seq<Entry<E>>, x: Entry<E>)
    requires Sorted(p)
    ensures forall e, f :: Before(p, e, f) ==> Before(Insert(p, x), e, f)
    ensures forall y :: y in p && y.key <= x.key ==> Before(Insert(p, x), y.event, x.event)
  {
    hide Sorted, Insert;
    var i := InsertBehindEquals(p, x);
    PlaceKeepsBefore(p, x, i);
  }

  lemma PlaceKeepsBefore<E(!new)>(p: seq<Entry<E>>, x: Entry<E>, i: nat)
    requires i <= |p| && forall k :: i <= k < |p| ==> p[k].key > x.key
    ensures forall e, f :: Before(p, e, f) ==> Before(p[..i] + [x] + p[i..], e, f)
    ensures forall y :: y in p && y.key <= x.key ==> Before(p[..i] + [x] + p[i..], y.event, x.event)
  {
    var r := p[..i] + [x] + p[i..];
    assert r[i] == x && forall k :: 0 <= k < |p| ==> r[if k < i then k else k + 1] == p[k];
    forall e, f | Before(p, e, f)
      ensures Before(r, e, f)
    {
      var a, b :| 0 <= a < b < |p| && p[a].event == e && p[b].event == f;
      var a', b' := if a < i then a else a + 1, if b < i then b else b + 1;
      assert r[a'] == p[a] && r[b'] == p[b];
    }
    forall y | y in p && y.key <= x.key
      ensures Before(r, y.event, x.event)
    {
      var k :| 0 <= k < |p| && p[k] == y;
      assert r[k] == y;
    }
  }

  lemma {:induction false} ErasePlace<E(!new)>(p: seq<Entry<E>>, x: Entry<E>) returns (i: nat)
    ensures i <= |p| && Erase(p, x) == if i == |p| then p else p[..i] + p[i + 1..]
    ensures i < |p| ==> p[i] == x
    decreases |p|
  {
    if p == [] || p[0] == x {
      i := 0;
    } else {
      var j := ErasePlace(p[1..], x);
      i := j + 1;
      assert p == [p[0]] + p[1..];
      if j < |p[1..]| {
        assert [p[0]] + (p[1..][..j] + p[1..][j + 1..]) == p[..i] + p[i + 1..];
      }
    }
  }

  /** Erasing an entry leaves the others in their order. */
  lemma EraseKeepsBefore<E(!new)>(p: seq<Entry<E>>, x: Entry<E>)
    ensures forall e, f :: e != x.event && f != x.event && Before(p, e, f) ==> Before(Erase(p, x), e, f)
  {
    var i := ErasePlace(p, x);
    var r := Erase(p, x);
    forall e, f | e != x.event && f != x.event && Before(p, e, f)
      ensures Before(r, e, f)
    {
      var a, b :| 0 <= a < b < |p| && p[a].event == e && p[b].event == f;
      assert r[if a < i then a else a - 1].event == e && r[if b < i then b else b - 1].event == f;
    }
  }

  /** The events of a batch stand in the order of their entries. */
  ghost predicate InQueueOrder<E>(fired: seq<E>, p: seq<Entry<E>>) {
    forall k, l :: 0 <= k < |fired| && 0 <= l < |fired| && Before(p, fired[k], fired[l]) ==> k < l
  }

  lemma {:induction false} AliveKeepsOrder<E(!new)>(p: seq<Entry<E>>, info: map<E, Info>)
    requires Distinct(p) && forall x :: x in p ==> x.event in info
    ensures InQueueOrder(Alive(p, info), p)
    decreases |p|
  {
    if p != [] {
      var rest, all := Alive(p[1..], info), Alive(p, info);
      AliveKeepsOrder(p[1..], info);
      AliveMembers(p[1..], info);
      forall k, l | 0 <= k < |all| && 0 <= l < |all| && Before(p, all[k], all[l])
        ensures k < l
      {
        var a, b :| 0 <= a < b < |p| && p[a].event == all[k] && p[b].event == all[l];
        AliveAt(p, info, k);
        AliveAt(p, info, l);
        if a > 0 {
          assert p[1..][a - 1] == p[a] && p[1..][b - 1] == p[b];
          assert Before(p[1..], all[k], all[l]);
        }
      }
    }
  }

  /** Unless the first entry's event is cancelled it comes first; all others come from the rest. */
  lemma AliveAt<E(!new)>(p: seq<Entry<E>>, info: map<E, Info>, k: nat)
    requires p != [] && Distinct(p) && (forall x :: x in p ==> x.event in info) && k < |Alive(p, info)|
    ensures var all, rest, n := Alive(p, info), Alive(p[1..], info), if info[p[0].event].cancelled then 0 else 1;
      && |all| == n + |rest|
      && (n == 1 ==> all[0] == p[0].event)
      && (k >= n ==> all[k] == rest[k - n] && all[k] != p[0].event)
  {
    hide Distinct;
    AliveMembers(p[1..], info);
    var all, rest, n := Alive(p, info), Alive(p[1..], info), if info[p[0].event].cancelled then 0 else 1;
    if k >= n {
      assert rest[k - n] in rest;
      var x :| x in p[1..] && x.event == rest[k - n];
      HeadIsDistinct(p, x);
    }
  }

  lemma HeadIsDistinct<E(!new)>(p: seq<Entry<E>>, x: Entry<E>)
    requires p != [] && Distinct(p) && x in p[1..]
    ensures p[0].event != x.event
  {
    var k :| 0 <= k < |p[1..]| && p[1..][k] == x;
    assert p[k + 1] == x;
  }

  // ---------------------------------------------------------------------------------------------
  // One operation
  // ---------------------------------------------------------------------------------------------

  /** Adding an event that does not wait yet. It stands behind all that are not later. The timer stays armed in
      time exactly when the event lies in the future or does not come first: an event already due that comes first
      is served only when the default timeout has passed. */
  lemma AddKeeps<E(!new)>(t: Timers<E>, e: E, now: int, timeout: int)
    requires Consistent(t) && Armed(t) && e in t.info && !Pending(t.pending, e) && timeout > 0
    ensures Consistent(Add(t, e, now, timeout))
    ensures Armed(Add(t, e, now, timeout)) <==>
      t.info[e].arrive > now || (t.pending != [] && t.pending[0].key <= t.info[e].arrive)
    ensures forall x :: x in t.pending && x.key <= t.info[e].arrive ==>
      Before(Add(t, e, now, timeout).pending, x.event, e)
  {
    InsertKeepsBefore(t.pending, Entry(t.info[e].arrive, e));
    AddConsistent(t, e, now, timeout);
    assert t.pending != [] ==> t.pending[0] in t.pending;
  }

  /** An event that is already due when it comes first is left for a whole timeout: the timer is armed behind
      it, so that nothing serves it in time. */
  lemma DueEventIsLate<E(!new)>(t: Timers<E>, e: E, now: int, timeout: int)
    requires Consistent(t) && Armed(t) && e in t.info && !Pending(t.pending, e) && timeout > 0
    requires t.info[e].arrive <= now && (t.pending == [] || t.info[e].arrive < t.pending[0].key)
    ensures var u := Add(t, e, now, timeout);
      && u.pending[0] == Entry(t.info[e].arrive, e) && u.armed == Some(now + timeout) && !Armed(u)
  {
    AddKeeps(t, e, now, timeout);
  }

  lemma AddConsistent<E(!new)>(t: Timers<E>, e: E, now: int, timeout: int)
    requires Consistent(t) && e in t.info && !Pending(t.pending, e)
    ensures Consistent(Add(t, e, now, timeout))
    ensures forall x :: x in Add(t, e, now, timeout).pending <==> x in t.pending || x == Entry(t.info[e].arrive, e)
  {
    var x := Entry(t.info[e].arrive, e);
    InsertKeepsOrder(t.pending, x);
    InsertMembers(t.pending, x);
  }

  lemma DeleteKeeps<E(!new)>(t: Timers<E>, e: E)
    requires Consistent(t) && Armed(t) && e in t.info
    ensures Consistent(Delete(t, e)) && Armed(Delete(t, e)) && !Pending(Delete(t, e).pending, e)
    ensures forall x :: x in Delete(t, e).pending <==> x in t.pending && x.event != e
    ensures forall d, f :: d != e && f != e && Before(t.pending, d, f) ==> Before(Delete(t, e).pending, d, f)
    ensures Delete(t, e).armed == t.armed
    ensures Delete(t, e).info == t.info[e := t.info[e].(cancelled := true)]
  {
    EraseKeepsBefore(t.pending, Entry(t.info[e].arrive, e));
    var x := Entry(t.info[e].arrive, e);
    EraseKeepsOrder(t.pending, x);
    if Erase(t.pending, x) != [] {
      EraseFirst(t.pending, x);
    }
  }

  lemma ConsArrival<E(!new)>(e: E, f: seq<E>, info: map<E, Info>)
    requires InArrivalOrder(f, info) && NoRepeats(f) && e in info
    requires forall d :: d in f ==> info[e].arrive <= info[d].arrive && e != d
    ensures InArrivalOrder([e] + f, info) && NoRepeats([e] + f)
  {
    assert forall k :: 0 <= k < |f| ==> f[k] in f;
  }

  lemma {:induction false} AliveInOrder<E(!new)>(p: seq<Entry<E>>, info: map<E, Info>)
    requires Sorted(p) && Distinct(p)
    requires forall x :: x in p ==> x.event in info && x.key == info[x.event].arrive
    ensures InArrivalOrder(Alive(p, info), info) && NoRepeats(Alive(p, info))
    decreases |p|
  {
    hide Sorted, Distinct, InArrivalOrder, NoRepeats;
    if p == [] {
      assert InArrivalOrder<E>([], info) && NoRepeats<E>([]) by { NothingInOrder(info); }
    } else {
      var rest := p[1..];
      TailInOrder(p);
      AliveInOrder(rest, info);
      AliveMembers(rest, info);
      var f := Alive(rest, info);
      assert p[0] in p;
      forall e | e in f
        ensures p[0].key <= info[e].arrive && p[0].event != e
      {
        var x :| x in rest && x.event == e;
        HeadBefore(p, x);
      }
      if !info[p[0].event].cancelled {
        ConsArrival(p[0].event, f, info);
      } else {
        assert [] + f == f;
      }
    }
  }

  lemma NothingInOrder<E>(info: map<E, Info>)
    ensures InArrivalOrder([], info) && NoRepeats<E>([])
  {
  }

  /** Everything that waits lies after `now`. */
  ghost predicate AllAfter<E>(t: Timers<E>, now: int) {
    forall x :: x in t.pending ==> x.key > now
  }

  lemma {:induction false} ReAddKeeps<E(!new)>(t: Timers<E>, es: seq<E>, now: int, timeout: int)
    requires CanReAdd(t, es, now)
    ensures var r := ReAdd(t, es, now, timeout);
      && Consistent(r) && AllAfter(r, now) && r.info.Keys == t.info.Keys
      && (forall e :: e in t.info ==>
           r.info[e] == if e in es && t.info[e].repeated then Later(t.info[e], now) else t.info[e])
      && (forall x :: x in r.pending <==>
           || x in t.pending
           || (x.event in es && t.info[x.event].repeated && x.key == now + t.info[x.event].interval))
    decreases |es|
  {
    hide Sorted, Distinct, ReAdd;
    if es == [] {
      NothingToReAdd(t, now, timeout);
    } else {
      var u := ReAddOne(t, es, now, timeout);
      InsertMembers(t.pending, Entry(now + t.info[es[0]].interval, es[0]));
      assert es == [es[0]] + es[1..];
      ReAddKeeps(u, es[1..], now, timeout);
    }
  }

  /** The events of a batch are known, different, and out of the queue, where nothing is due. */
  ghost predicate CanReAdd<E>(t: Timers<E>, es: seq<E>, now: int) {
    && Consistent(t) && AllAfter(t, now) && NoRepeats(es)
    && (forall e :: e in es ==>
         e in t.info && !Pending(t.pending, e) && (t.info[e].repeated ==> t.info[e].interval > 0))
  }

  /** The first of them goes in one interval later, if it is repeated, and the rest can follow. */
  lemma ReAddOne<E(!new)>(t: Timers<E>, es: seq<E>, now: int, timeout: int) returns (u: Timers<E>)
    requires CanReAdd(t, es, now) && es != []
    ensures CanReAdd(u, es[1..], now) && ReAdd(t, es, now, timeout) == ReAdd(u, es[1..], now, timeout)
    ensures var i := t.info[es[0]];
      && u.pending == (if i.repeated then Insert(t.pending, Entry(now + i.interval, es[0])) else t.pending)
      && u.info == if i.repeated then t.info[es[0] := Later(i, now)] else t.info
  {
    hide Sorted, Distinct;
    var e, i := es[0], t.info[es[0]];
    var s := t.(info := t.info[e := Later(i, now)]);
    assert Consistent(s);
    u := if i.repeated then Add(s, e, now, timeout) else t;
    AddConsistent(s, e, now, timeout);
    assert es == [e] + es[1..];
    forall d | d in es[1..]
      ensures d != e && !Pending(u.pending, d)
    {
      var k :| 0 <= k < |es[1..]| && es[1..][k] == d;
      assert es[k + 1] == d && d in es;
    }
  }

  /** Entries that wait keep their order while others come back. */
  lemma {:induction false} ReAddKeepsBefore<E(!new)>(t: Timers<E>, es: seq<E>, now: int, timeout: int, e: E, f: E)
    requires CanReAdd(t, es, now) && Before(t.pending, e, f)
    ensures Before(ReAdd(t, es, now, timeout).pending, e, f)
    decreases |es|
  {
    hide Sorted, Distinct, Before, CanReAdd, ReAdd;
    CanReAddIs(t, es, now);
    if es == [] {
      NothingToReAdd(t, now, timeout);
    } else {
      var u := ReAddOne(t, es, now, timeout);
      InsertKeepsBefore(t.pending, Entry(now + t.info[es[0]].interval, es[0]));
      ReAddKeepsBefore(u, es[1..], now, timeout, e, f);
    }
  }

  /** One that comes back stands behind all that are not later. */
  lemma {:induction false} ReAddBehind<E(!new)>(t: Timers<E>, es: seq<E>, now: int, timeout: int, x: Entry<E>, f: E)
    requires CanReAdd(t, es, now) && x in t.pending && f in es && f in t.info
    requires t.info[f].repeated && x.key <= now + t.info[f].interval
    ensures Before(ReAdd(t, es, now, timeout).pending, x.event, f)
    decreases |es|
  {
    hide Sorted, Distinct, Before, CanReAdd, ReAdd;
    CanReAddIs(t, es, now);
    var u := ReAddOne(t, es, now, timeout);
    var y := Entry(now + t.info[es[0]].interval, es[0]);
    InsertKeepsBefore(t.pending, y);
    InsertMembers(t.pending, y);
    if f == es[0] {
      ReAddKeepsBefore(u, es[1..], now, timeout, x.event, f);
    } else {
      assert es == [es[0]] + es[1..];
      ReAddBehind(u, es[1..], now, timeout, x, f);
    }
  }

  lemma CanReAddIs<E>(t: Timers<E>, es: seq<E>, now: int)
    requires CanReAdd(t, es, now)
    ensures Sorted(t.pending) && Known(t) && forall e :: e in es ==> e in t.info
  {
  }

  lemma NothingToReAdd<E>(t: Timers<E>, now: int, timeout: int)
    requires Known(t)
    ensures ReAdd(t, [], now, timeout) == t
  {
  }

  /** Of two repeated events with the same interval, the one that fired first stands in front. */
  lemma {:induction false} ReAddTies<E(!new)>(t: Timers<E>, es: seq<E>, now: int, timeout: int)
    requires CanReAdd(t, es, now)
    ensures var r := ReAdd(t, es, now, timeout);
      forall k, l :: 0 <= k < l < |es| && t.info[es[k]].repeated && t.info[es[l]].repeated
                     && t.info[es[k]].interval == t.info[es[l]].interval ==>
        Before(r.pending, es[k], es[l])
    decreases |es|
  {
    hide Sorted, Distinct, Before, ReAdd;
    if es != [] {
      var u := ReAddOne(t, es, now, timeout);
      ReAddTies(u, es[1..], now, timeout);
      InsertMembers(t.pending, Entry(now + t.info[es[0]].interval, es[0]));
      var r := ReAdd(t, es, now, timeout);
      forall k, l | 0 <= k < l < |es| && t.info[es[k]].repeated && t.info[es[l]].repeated
                    && t.info[es[k]].interval == t.info[es[l]].interval
        ensures Before(r.pending, es[k], es[l])
      {
        assert es[l] == es[1..][l - 1] && es[l] != es[0];
        if k > 0 {
          assert es[k] == es[1..][k - 1] && es[k] != es[0];
        } else {
          ReAddBehind(u, es[1..], now, timeout, Entry(now + t.info[es[0]].interval, es[0]), es[l]);
        }
      }
    }
  }

  /** Order among the due entries at the front is order in the queue. */
  lemma BeforeInFront<E(!new)>(p: seq<Entry<E>>, n: nat, fired: seq<E>)
    requires n <= |p| && Distinct(p) && InQueueOrder(fired, p[..n])
    requires forall e :: e in fired ==> exists x :: x in p[..n] && x.event == e
    ensures InQueueOrder(fired, p)
  {
    forall k, l | 0 <= k < |fired| && 0 <= l < |fired| && Before(p, fired[k], fired[l])
      ensures k < l
    {
      var a, b :| 0 <= a < b < |p| && p[a].event == fired[k] && p[b].event == fired[l];
      assert fired[l] in fired;
      var x :| x in p[..n] && x.event == fired[l];
      var j :| 0 <= j < n && p[..n][j] == x;
      assert p[j].event == p[b].event && j == b;
      assert p[..n][a] == p[a] && p[..n][b] == p[b];
    }
  }

  /** One timer event. It fires exactly the events that are due and not cancelled, in order of arrival,
      each once; those with the same arrival in the order in which they wait. Exactly the due entries leave the
      queue, and the repeated ones among the fired come back one interval later, in the order in which they
      fired where the intervals are the same. Afterwards the timer is armed for the first entry, whatever it was
      before; with nothing left it keeps its time, unless that has passed. */
  lemma OnTimeFires<E(!new)>(t: Timers<E>, now: int, timeout: int)
    requires Consistent(t)
    requires forall e :: e in t.info && t.info[e].repeated ==> t.info[e].interval > 0
    ensures var (r, fired) := OnTime(t, now, timeout);
      && Consistent(r) && AllAfter(r, now) && r.info.Keys == t.info.Keys
      && (r.pending != [] ==> r.armed == Some(r.pending[0].key))
      && (forall e :: e in fired <==>
           exists x :: x in t.pending && x.event == e && x.key <= now && !t.info[e].cancelled)
      && (r.pending == [] ==> r.armed == if t.armed.Some? && t.armed.value <= now then None else t.armed)
      && InArrivalOrder(fired, t.info) && InQueueOrder(fired, t.pending) && NoRepeats(fired)
      && (forall k, l :: 0 <= k < l < |fired| && t.info[fired[k]].repeated && t.info[fired[l]].repeated
                         && t.info[fired[k]].interval == t.info[fired[l]].interval ==>
           Before(r.pending, fired[k], fired[l]))
      && (forall x :: x in r.pending <==>
           || (x in t.pending && x.key > now)
           || (x.event in fired && t.info[x.event].repeated && x.key == now + t.info[x.event].interval))
      && (forall e :: e in t.info ==>
           r.info[e] == if e in fired && t.info[e].repeated then Later(t.info[e], now) else t.info[e])
  {
    hide Alive, ReAdd, Sorted, Distinct, NoRepeats, InArrivalOrder, InQueueOrder, Before, DueCount;
    var n := DueCount(t.pending, now);
    var due, later := t.pending[..n], t.pending[n..];
    SplitAtDue(t, now);
    var fired := Alive(due, t.info);
    AliveMembers(due, t.info);
    AliveInOrder(due, t.info);
    var u := t.(pending := later, armed := if t.armed.Some? && t.armed.value <= now then None else t.armed);
    assert forall e :: e in fired ==> e in t.info && !Pending(later, e);
    ReAddKeeps(u, fired, now, timeout);
    ReAddTies(u, fired, now, timeout);
    AliveKeepsOrder(due, t.info);
    BeforeInFront(t.pending, n, fired);
    var v := ReAdd(u, fired, now, timeout);
    assert v.pending != [] ==> v.pending[0] in v.pending;
    NoEntriesNoReAdd(u, fired, now, timeout);
  }

  /** Adding an event again leaves an entry; so an empty queue has seen no addition and no arming. */
  lemma {:induction false} NoEntriesNoReAdd<E(!new)>(t: Timers<E>, es: seq<E>, now: int, timeout: int)
    requires Known(t) && forall e :: e in es ==> e in t.info
    ensures var r := ReAdd(t, es, now, timeout);
      (t.pending != [] ==> r.pending != []) && (r.pending == [] ==> r.armed == t.armed)
    decreases |es|
  {
    hide Insert;
    if es != [] {
      var i := t.info[es[0]];
      NoEntriesNoReAdd(if i.repeated then AddLater(t, es[0], now, timeout) else t, es[1..], now, timeout);
    }
  }

  lemma CutInOrder<E>(p: seq<Entry<E>>, n: nat)
    requires n <= |p| && Sorted(p) && Distinct(p)
    ensures Sorted(p[..n]) && Distinct(p[..n]) && Sorted(p[n..]) && Distinct(p[n..])
  {
  }

  lemma CutApart<E(!new)>(p: seq<Entry<E>>, n: nat)
    requires n <= |p| && Distinct(p)
    ensures forall x :: x in p <==> x in p[..n] || x in p[n..]
    ensures forall x, y :: x in p[..n] && y in p[n..] ==> x.event != y.event
  {
    assert p == p[..n] + p[n..];
    forall x, y | x in p[..n] && y in p[n..]
      ensures x.event != y.event
    {
      var i :| 0 <= i < n && p[..n][i] == x;
      var k :| 0 <= k < |p| - n && p[n..][k] == y;
      assert p[i] == x && p[n + k] == y;
    }
  }

  lemma SplitAtDue<E(!new)>(t: Timers<E>, now: int)
    requires Consistent(t)
    ensures var n := DueCount(t.pending, now);
      var due, later := t.pending[..n], t.pending[n..];
      && Sorted(due) && Distinct(due) && Sorted(later) && Distinct(later)
      && (forall x :: x in due <==> x in t.pending && x.key <= now)
      && (forall x :: x in later <==> x in t.pending && x.key > now)
      && (forall x, y :: x in due && y in later ==> x.event != y.event)
  {
    hide Sorted, Distinct, Known, DueCount;
    var n := DueCount(t.pending, now);
    var due, later := t.pending[..n], t.pending[n..];
    CutInOrder(t.pending, n);
    CutApart(t.pending, n);
    forall x | x in due
      ensures x.key <= now
    {
      var k :| 0 <= k < n && due[k] == x;
      assert t.pending[k] == x;
    }
    forall x | x in later
      ensures x.key > now
    {
      FirstIsLeast(later, x);
      assert later[0] == t.pending[n];
    }
  }

  // ---------------------------------------------------------------------------------------------
  // Runs
  // ---------------------------------------------------------------------------------------------

  /** Steps: the addition of an event that does not wait, whether it is new or was
      added before, with an arrival in the future; a cancellation; a deletion; and the timer event. */
  datatype Act<E> =
    | Added(e: E, arrive: int, interval: int, repeated: bool)
    | Cancelled(e: E)
    | Deleted(e: E)
    | Fire

  /** `added` lists the additions and `log` the events fired so far. */
  datatype Clocked<E> = Clocked(now: int, timers: Timers<E>, added: seq<E>, log: seq<E>)

  /** The fields of the event to be added: an event known before keeps all but its arrival. */
  function InfoFor<E>(t: Timers<E>, e: E, arrive: int, interval: int, repeated: bool): Info {
    if e in t.info then t.info[e].(arrive := arrive) else Info(arrive, interval, repeated, false)
  }

  ghost function Step<E>(c: Clocked<E>, at: int, act: Act<E>, timeout: int): Clocked
    requires Known(c.timers)
  {
    if at < c.now then c
    else
      var t, d := c.timers, c.(now := at);
      match act
      case Added(e, arrive, interval, repeated) =>
        if arrive <= at || interval <= 0 || Pending(t.pending, e) then d
        else d.(timers := Add(t.(info := t.info[e := InfoFor(t, e, arrive, interval, repeated)]), e, at, timeout),
                added := c.added + [e])
      case Cancelled(e) => if e in t.info then d.(timers := Cancel(t, e)) else d
      case Deleted(e) => if e in t.info then d.(timers := Delete(t, e)) else d
      case Fire =>
        var (u, fired) := OnTime(t, at, timeout);
        d.(timers := u, log := c.log + fired)
  }

  /** A one-shot event has fired at most once for each time it was added; while it waits, the last of these is
      still to come. */
  ghost predicate FiredOnce<E>(c: Clocked<E>) {
    && (forall e :: e in c.log ==> e in c.timers.info) && (forall e :: e in c.added ==> e in c.timers.info)
    && (forall e :: e in c.timers.info && !c.timers.info[e].repeated ==>
         multiset(c.log)[e] + (if Pending(c.timers.pending, e) then 1 else 0) <= multiset(c.added)[e])
  }

  /** What every step keeps. */
  ghost predicate Good<E>(c: Clocked<E>) {
    && Consistent(c.timers) && Armed(c.timers) && FiredOnce(c)
    && (forall e :: e in c.timers.info ==> c.timers.info[e].interval > 0)
  }

  /** Events stay known, and a cancelled one stays cancelled and does not fire. */
  ghost predicate Follows<E>(c: Clocked<E>, d: Clocked<E>) {
    forall e :: e in c.timers.info ==>
      && e in d.timers.info && d.timers.info[e].repeated == c.timers.info[e].repeated
      && (c.timers.info[e].cancelled ==> d.timers.info[e].cancelled && multiset(d.log)[e] == multiset(c.log)[e])
  }

  lemma CountOfDistinct<E(!new)>(s: seq<E>, e: E)
    requires NoRepeats(s)
    ensures multiset(s)[e] == if e in s then 1 else 0
  {
    if s != [] {
      assert s == [s[0]] + s[1..];
      CountOfDistinct(s[1..], e);
    }
  }

  lemma FiredAreLogged<E(!new)>(c: Clocked<E>, fired: seq<E>)
    requires NoRepeats(fired)
    ensures forall e :: multiset(c.log + fired)[e] == multiset(c.log)[e] + if e in fired then 1 else 0
  {
    hide NoRepeats;
    forall e
      ensures multiset(c.log + fired)[e] == multiset(c.log)[e] + if e in fired then 1 else 0
    {
      CountOfDistinct(fired, e);
    }
  }

  lemma FireKeepsGood<E(!new)>(c: Clocked<E>, at: int, timeout: int)
    requires Good(c) && timeout > 0 && at >= c.now
    ensures var d := Step(c, at, Fire, timeout); Good(d) && Follows(c, d)
  {
    hide OnTime, Sorted, Distinct, InArrivalOrder, InQueueOrder, Before, NoRepeats;
    OnTimeFires(c.timers, at, timeout);
    var t := c.timers;
    var (u, fired) := OnTime(t, at, timeout);
    var d := Step(c, at, Fire, timeout);
    forall e | e in t.info && !t.info[e].repeated
      ensures Pending(u.pending, e) ==> Pending(t.pending, e) && e !in fired
      ensures e in fired ==> Pending(t.pending, e)
    {
      if Pending(u.pending, e) {
        var x :| x in u.pending && x.event == e;
        assert x in t.pending && x.key > at;
      }
    }
    LogStaysOk(c, d, fired);
  }

  lemma LogStaysOk<E(!new)>(c: Clocked<E>, d: Clocked<E>, fired: seq<E>)
    requires FiredOnce(c) && d.log == c.log + fired && d.added == c.added && NoRepeats(fired)
    requires d.timers.info.Keys == c.timers.info.Keys
    requires forall e :: e in fired ==> e in c.timers.info && !c.timers.info[e].cancelled
    requires forall e :: e in c.timers.info ==>
      && d.timers.info[e].repeated == c.timers.info[e].repeated
      && d.timers.info[e].cancelled == c.timers.info[e].cancelled
    requires forall e :: e in c.timers.info && !c.timers.info[e].repeated ==>
      && (Pending(d.timers.pending, e) ==> Pending(c.timers.pending, e) && e !in fired)
      && (e in fired ==> Pending(c.timers.pending, e))
    ensures FiredOnce(d) && Follows(c, d)
  {
    hide NoRepeats, Pending;
    FiredAreLogged(c, fired);
  }

  lemma AddedKeepsGood<E(!new)>(c: Clocked<E>, at: int, e: E, arrive: int, interval: int, repeated: bool, timeout: int)
    requires Good(c) && timeout > 0 && at >= c.now
    ensures var d := Step(c, at, Added(e, arrive, interval, repeated), timeout); Good(d) && Follows(c, d)
  {
    hide Sorted, Distinct, FiredOnce, Follows;
    if arrive > at && interval > 0 && !Pending(c.timers.pending, e) {
      var t := c.timers.(info := c.timers.info[e := InfoFor(c.timers, e, arrive, interval, repeated)]);
      assert Consistent(t) && Armed(t) by { NotPendingIsFree(c.timers, e, t.info[e]); }
      AddKeeps(t, e, at, timeout);
      AddConsistent(t, e, at, timeout);
      OtherPending(t.pending, Add(t, e, at, timeout).pending, Entry(arrive, e));
      AddedCounts(c, Step(c, at, Added(e, arrive, interval, repeated), timeout), e, t.info[e]);
    } else {
      LaterIsGood(c, at);
    }
  }

  lemma LaterIsGood<E(!new)>(c: Clocked<E>, at: int)
    requires Good(c)
    ensures Good(c.(now := at)) && Follows(c, c.(now := at))
  {
  }

  lemma AddedCounts<E(!new)>(c: Clocked<E>, d: Clocked<E>, e: E, i: Info)
    requires FiredOnce(c) && d.log == c.log && d.added == c.added + [e] && !Pending(c.timers.pending, e)
    requires d.timers.info == c.timers.info[e := i]
    requires e in c.timers.info ==> i.repeated == c.timers.info[e].repeated && i.cancelled == c.timers.info[e].cancelled
    requires forall f :: f != e ==> (Pending(d.timers.pending, f) <==> Pending(c.timers.pending, f))
    ensures FiredOnce(d) && Follows(c, d)
  {
    hide Pending;
    OneMore(c.added, e);
  }

  lemma NotPendingIsFree<E(!new)>(t: Timers<E>, e: E, i: Info)
    requires Consistent(t) && Armed(t) && !Pending(t.pending, e)
    ensures var u := t.(info := t.info[e := i]); Consistent(u) && Armed(u)
  {
    hide Sorted, Distinct;
    assert forall x :: x in t.pending ==> x.event != e;
  }

  lemma OneMore<E(!new)>(s: seq<E>, e: E)
    ensures forall d :: multiset(s + [e])[d] == multiset(s)[d] + if d == e then 1 else 0
  {
    assert multiset(s + [e]) == multiset(s) + multiset{e};
  }

  lemma DeleteKeepsGood<E(!new)>(c: Clocked<E>, at: int, e: E, timeout: int)
    requires Good(c) && timeout > 0 && at >= c.now
    ensures var d := Step(c, at, Deleted(e), timeout); Good(d) && Follows(c, d)
  {
    hide Sorted, Distinct;
    if e in c.timers.info {
      DeleteKeeps(c.timers, e);
    }
  }

  lemma StepKeepsGood<E(!new)>(c: Clocked<E>, at: int, act: Act<E>, timeout: int)
    requires Good(c) && timeout > 0
    ensures var d := Step(c, at, act, timeout); Good(d) && Follows(c, d)
  {
    hide OnTime, Sorted, Distinct;
    if at >= c.now {
      match act {
        case Added(e, arrive, interval, repeated) => AddedKeepsGood(c, at, e, arrive, interval, repeated, timeout);
        case Cancelled(_) =>
        case Deleted(e) => DeleteKeepsGood(c, at, e, timeout);
        case Fire => FireKeepsGood(c, at, timeout);
      }
    }
  }

  lemma OtherPending<E(!new)>(p: seq<Entry<E>>, q: seq<Entry<E>>, x: Entry<E>)
    requires forall y :: y in q <==> y in p || y == x
    ensures forall e :: e != x.event ==> (Pending(q, e) <==> Pending(p, e))
  {
  }

  datatype Timed<E> = Timed(at: int, act: Act<E>)

  ghost function Run<E(!new)>(c: Clocked<E>, steps: seq<Timed<E>>, timeout: int): Clocked
    requires Good(c) && timeout > 0
    decreases |steps|
  {
    if steps == [] then c
    else
      StepKeepsGood(c, steps[0].at, steps[0].act, timeout);
      Run(Step(c, steps[0].at, steps[0].act, timeout), steps[1..], timeout)
  }

  /** A new timer: nothing waits, and the descriptor expires once after the default timeout. */
  function Started<E>(now: int, timeout: int): (c: Clocked<E>)
    ensures Good(c)
  {
    Clocked(now, Timers([], map[], Some(now + timeout)), [], [])
  }

  lemma {:induction false} RunKeepsGood<E(!new)>(c: Clocked<E>, steps: seq<Timed<E>>, timeout: int)
    requires Good(c) && timeout > 0
    ensures Good(Run(c, steps, timeout))
    decreases |steps|
  {
    hide Step;
    if steps != [] {
      StepKeepsGood(c, steps[0].at, steps[0].act, timeout);
      RunKeepsGood(Step(c, steps[0].at, steps[0].act, timeout), steps[1..], timeout);
    }
  }

  /** In every reachable state in which events wait, the timer is armed at or before the first arrival;
      a one-shot event has fired at most once for each time it was added, the last of which does not count
      while it still waits. */
  lemma NeverLeftUnserved<E(!new)>(now: int, steps: seq<Timed<E>>, timeout: int)
    requires timeout > 0
    ensures var d := Run(Started(now, timeout), steps, timeout);
      Armed(d.timers) && Consistent(d.timers) && FiredOnce(d)
  {
    RunKeepsGood(Started(now, timeout), steps, timeout);
  }

  /** An event that is cancelled does not fire any more, however the run goes on. */
  lemma {:induction false} CancelledNeverFires<E(!new)>(c: Clocked<E>, steps: seq<Timed<E>>, timeout: int, e: E)
    requires Good(c) && timeout > 0 && e in c.timers.info && c.timers.info[e].cancelled
    ensures multiset(Run(c, steps, timeout).log)[e] == multiset(c.log)[e]
    decreases |steps|
  {
    hide Step;
    if steps != [] {
      StepKeepsGood(c, steps[0].at, steps[0].act, timeout);
      CancelledNeverFires(Step(c, steps[0].at, steps[0].act, timeout), steps[1..], timeout, e);
    }
  }

  /** Nor does an event that is deleted, which marks it cancelled. */
  lemma DeletedNeverFires<E(!new)>(c: Clocked<E>, at: int, e: E, steps: seq<Timed<E>>, timeout: int)
    requires Good(c) && timeout > 0 && e in c.timers.info && at >= c.now
    ensures var d := Step(c, at, Deleted(e), timeout);
      Good(d) && multiset(Run(d, steps, timeout).log)[e] == multiset(c.log)[e]
  {
    hide Run;
    StepKeepsGood(c, at, Deleted(e), timeout);
    CancelledNeverFires(Step(c, at, Deleted(e), timeout), steps, timeout, e);
  }

  /** From every state, adding an event that is not cancelled and serving the timer at or after its arrival
      fires it, once. */
  lemma AddedEventFires<E(!new)>(c: Clocked<E>, at: int, e: E, arrive: int, interval: int, repeated: bool, later: int,
                                 timeout: int)
    requires Good(c) && timeout > 0 && at >= c.now && interval > 0 && at < arrive <= later
    requires !Pending(c.timers.pending, e) && (e in c.timers.info ==> !c.timers.info[e].cancelled)
    ensures var d := Step(c, at, Added(e, arrive, interval, repeated), timeout);
      && Good(d) && Pending(d.timers.pending, e)
      && multiset(Step(d, later, Fire, timeout).log)[e] == multiset(c.log)[e] + 1
  {
    hide OnTime, Sorted, Distinct, InArrivalOrder, InQueueOrder, NoRepeats, FiredOnce, Follows, Before;
    var d := Step(c, at, Added(e, arrive, interval, repeated), timeout);
    StepKeepsGood(c, at, Added(e, arrive, interval, repeated), timeout);
    var t := c.timers.(info := c.timers.info[e := InfoFor(c.timers, e, arrive, interval, repeated)]);
    NotPendingIsFree(c.timers, e, t.info[e]);
    AddConsistent(t, e, at, timeout);
    assert Entry(arrive, e) in d.timers.pending;
    OnTimeFires(d.timers, later, timeout);
    FiredAreLogged(d, OnTime(d.timers, later, timeout).1);
  }
}
