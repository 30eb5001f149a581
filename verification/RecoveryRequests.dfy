/** Asking the primary device for a collection: one outstanding request per collection,
    each ask claimed by at most one answer, under two expiry windows. Times are seconds of
    a monotonic clock. */
module RecoveryRequests {
  import opened Common

  const REQUEST_TTL := 120
  const ANSWER_TTL := 900

  datatype Request = Request(askedAt: nat, id: Option<string>, answering: bool)
  type Outstanding = map<string, Request>

  /** Still suppressing another ask. */
  predicate Suppresses(r: Request, now: nat) {
    now < r.askedAt + if r.answering then ANSWER_TTL else REQUEST_TTL
  }

  datatype Event =
    | Mark(collection: string)
    | Note(collection: string, id: string)
    | Claim(id: string)
    | TakeById(id: string)
    | Take(collection: string)

  /** What a call answers: a mark says whether it was accepted, a claim or a take which
      collection it got. */
  datatype Answer = Accepted | Refused | Got(collection: string) | Nothing

  predicate HoldsId(m: Outstanding, c: string, id: string) {
    c in m && m[c].id == Some(id)
  }

  /** One call. The map is searched by id in no fixed order, so the holder is any holder. */
  ghost predicate Next(m: Outstanding, now: nat, e: Event, a: Answer, n: Outstanding) {
    match e
    case Mark(c) =>
      if c in m && Suppresses(m[c], now) then a == Refused && n == m
      else a == Accepted && n == m[c := Request(now, None, false)]
    case Note(c, id) =>
      a == Nothing && n == if c in m then m[c := m[c].(id := Some(id))] else m
    case Claim(id) =>
      if (exists h :: HoldsId(m, h, id)) then
        exists h :: HoldsId(m, h, id) &&
          (if m[h].answering then a == Nothing && n == m
           else a == Got(h) && n == m[h := Request(now, Some(id), true)])
      else a == Nothing && n == m
    case TakeById(id) =>
      if (exists h :: HoldsId(m, h, id)) then exists h :: HoldsId(m, h, id) && a == Got(h) && n == m - {h}
      else a == Nothing && n == m
    case Take(c) =>
      n == m - {c} && a == if c in m then Got(c) else Nothing
  }

  /** One call in a run, with the map on either side of it. */
  datatype Entry = Entry(now: nat, event: Event, before: Outstanding, answer: Answer, after: Outstanding)

  ghost predicate Run(t: seq<Entry>) {
    && (t != [] ==> t[0].before == map[])
    && (forall i :: 0 <= i < |t| ==> Next(t[i].before, t[i].now, t[i].event, t[i].answer, t[i].after))
    && (forall i, j :: 0 <= i && j == i + 1 && j < |t| ==> t[j].before == t[i].after)
    && (forall i, j :: 0 <= i < j < |t| ==> t[i].now <= t[j].now)
  }

  predicate AcceptedMark(x: Entry, c: string) { x.event == Mark(c) && x.answer == Accepted }
  predicate ClaimOf(x: Entry, c: string) { x.event.Claim? && x.answer == Got(c) }
  predicate TakeOf(x: Entry, c: string) { (x.event.Take? || x.event.TakeById?) && x.answer == Got(c) }

  ghost predicate NoTake(t: seq<Entry>, c: string, from: nat, to: nat)
    requires to <= |t|
  {
    forall k :: from <= k < to ==> !TakeOf(t[k], c)
  }

  // ---------------------------------------------------------------- spacing of asks

  /** Where a request stands after entry `n`, counted from the mark at `i`. */
  ghost predicate Standing(t: seq<Entry>, c: string, i: nat, n: nat)
    requires i <= n < |t|
  {
    var m := t[n].after;
    && c in m && m[c].askedAt >= t[i].now
    && forall k :: i < k <= n && ClaimOf(t[k], c) ==>
         (m[c].answering && m[c].askedAt >= t[k].now) || m[c].askedAt >= t[k].now + ANSWER_TTL
  }

  lemma {:induction false} StandingHolds(t: seq<Entry>, c: string, i: nat, n: nat)
    requires Run(t) && i <= n < |t| && AcceptedMark(t[i], c) && NoTake(t, c, i, n + 1)
    ensures Standing(t, c, i, n)
    decreases n
  {
    if n > i {
      StandingHolds(t, c, i, n - 1);
      assert t[n].before == t[n - 1].after;
      assert Next(t[n].before, t[n].now, t[n].event, t[n].answer, t[n].after);
      assert t[i].now <= t[n].now;
      StandingStep(t, c, i, n);
    }
  }

  lemma StandingStep(t: seq<Entry>, c: string, i: nat, n: nat)
    requires Run(t) && i < n < |t| && Standing(t, c, i, n - 1) && t[n].before == t[n - 1].after && !TakeOf(t[n], c)
    requires Next(t[n].before, t[n].now, t[n].event, t[n].answer, t[n].after)
    ensures Standing(t, c, i, n)
  {
    var m, m' := t[n].before, t[n].after;
    assert c in m';
    assert m'[c].askedAt >= m[c].askedAt || m'[c].askedAt == t[n].now;
    forall k | i < k <= n && ClaimOf(t[k], c)
      ensures (m'[c].answering && m'[c].askedAt >= t[k].now) || m'[c].askedAt >= t[k].now + ANSWER_TTL
    {
      if k < n {
        assert t[k].now <= t[n].now;
      }
    }
  }

  /** Two accepted asks for one collection with nothing taken between them are at least
      120 seconds apart, and the later one at least 900 after any claim in between. */
  lemma MarksApart(t: seq<Entry>, c: string, i: nat, j: nat)
    requires Run(t) && i < j < |t| && AcceptedMark(t[i], c) && AcceptedMark(t[j], c) && NoTake(t, c, i, j)
    ensures t[j].now >= t[i].now + REQUEST_TTL
    ensures forall k :: i < k < j && ClaimOf(t[k], c) ==> t[j].now >= t[k].now + ANSWER_TTL
  {
    StandingHolds(t, c, i, j - 1);
    assert t[j].before == t[j - 1].after;
    assert Next(t[j].before, t[j].now, t[j].event, t[j].answer, t[j].after);
  }

  // ---------------------------------------------------------------- when an ask is accepted

  /** Entry `i` is the last one before `n` that concerns what is outstanding for `c`, and it is an
      ask or a claim. */
  ghost predicate Latest(t: seq<Entry>, c: string, i: nat, n: nat)
    requires n <= |t|
  {
    && i < n && (AcceptedMark(t[i], c) || ClaimOf(t[i], c))
    && forall k :: i < k < n ==> !AcceptedMark(t[k], c) && !ClaimOf(t[k], c) && !TakeOf(t[k], c)
  }

  /** What stands for `c` after `n` entries is what that entry left. */
  ghost predicate Recalled(t: seq<Entry>, c: string, n: nat, m: Outstanding)
    requires n <= |t|
  {
    && (c in m ==> exists i: nat :: Latest(t, c, i, n))
    && forall i: nat :: Latest(t, c, i, n) ==>
         c in m && m[c].askedAt == t[i].now && (m[c].answering <==> ClaimOf(t[i], c))
  }

  lemma {:induction false} HistoryRecalled(t: seq<Entry>, c: string, n: nat)
    requires Run(t) && n < |t|
    ensures Recalled(t, c, n, t[n].before)
  {
    if n == 0 {
      assert t[0].before == map[];
    } else {
      HistoryRecalled(t, c, n - 1);
      assert t[n].before == t[n - 1].after;
      RecalledStep(t, c, n - 1);
    }
  }

  /** Any other call leaves an outstanding request as it stood, but for its id. */
  lemma Bystander(x: Entry, c: string)
    requires Next(x.before, x.now, x.event, x.answer, x.after)
    requires !AcceptedMark(x, c) && !ClaimOf(x, c) && !TakeOf(x, c)
    ensures c in x.before <==> c in x.after
    ensures c in x.before ==>
      x.after[c].askedAt == x.before[c].askedAt && x.after[c].answering == x.before[c].answering
  {
  }

  lemma RecalledStep(t: seq<Entry>, c: string, n: nat)
    requires Run(t) && n < |t| && Recalled(t, c, n, t[n].before)
    ensures Recalled(t, c, n + 1, t[n].after)
  {
    assert Next(t[n].before, t[n].now, t[n].event, t[n].answer, t[n].after);
    if AcceptedMark(t[n], c) || ClaimOf(t[n], c) {
      assert Latest(t, c, n, n + 1);
    } else if TakeOf(t[n], c) {
      assert c !in t[n].after;
    } else {
      Bystander(t[n], c);
      if c in t[n].before {
        var i: nat :| Latest(t, c, i, n);
        assert Latest(t, c, i, n + 1);
      }
      assert forall i: nat :: Latest(t, c, i, n + 1) ==> Latest(t, c, i, n);
    }
  }

  /** An ask is refused exactly when the last ask still stands: less than 120 seconds after an ask
      that nothing has claimed or taken since, less than 900 after a claim. */
  lemma MarkRefusedExactly(t: seq<Entry>, c: string, j: nat)
    requires Run(t) && j < |t| && t[j].event == Mark(c)
    ensures t[j].answer == Refused || t[j].answer == Accepted
    ensures t[j].answer == Refused <==>
      exists i: nat :: Latest(t, c, i, j) && t[j].now < t[i].now + (if ClaimOf(t[i], c) then 900 else 120)
  {
    HistoryRecalled(t, c, j);
    assert Next(t[j].before, t[j].now, t[j].event, t[j].answer, t[j].after);
    if c in t[j].before {
      var i: nat :| Latest(t, c, i, j);
      assert t[j].before[c].askedAt == t[i].now;
    }
  }

  // ---------------------------------------------------------------- one answer per ask

  /** Ids are minted fresh: no id is noted twice. */
  ghost predicate FreshIds(t: seq<Entry>) {
    forall i, j :: 0 <= i < j < |t| && t[i].event.Note? && t[j].event.Note? ==> t[i].event.id != t[j].event.id
  }

  /** A request carries an id only because it was noted for its collection. */
  lemma {:induction false} HeldWasNoted(t: seq<Entry>, n: nat, c: string, id: string)
    requires Run(t) && n < |t| && HoldsId(t[n].after, c, id)
    ensures exists k :: 0 <= k <= n && t[k].event == Note(c, id)
  {
    assert Next(t[n].before, t[n].now, t[n].event, t[n].answer, t[n].after);
    if t[n].event != Note(c, id) {
      assert HoldsId(t[n].before, c, id);
      if n > 0 {
        assert t[n].before == t[n - 1].after;
        HeldWasNoted(t, n - 1, c, id);
      }
    }
  }

  lemma HolderUnique(t: seq<Entry>, n: nat, c: string, d: string, id: string)
    requires Run(t) && FreshIds(t) && n < |t| && HoldsId(t[n].after, c, id) && HoldsId(t[n].after, d, id)
    ensures c == d
  {
    HeldWasNoted(t, n, c, id);
    HeldWasNoted(t, n, d, id);
    var i :| 0 <= i <= n && t[i].event == Note(c, id);
    var j :| 0 <= j <= n && t[j].event == Note(d, id);
  }

  /** A successful claim found the id noted before, on the collection it answered with. */
  lemma ClaimedWasNoted(t: seq<Entry>, k: nat, id: string) returns (q: nat, c: string)
    requires Run(t) && k < |t| && t[k].event == Claim(id) && t[k].answer.Got?
    ensures q < k && t[q].event == Note(c, id)
    ensures t[k].answer == Got(c) && HoldsId(t[k].before, c, id) && !t[k].before[c].answering
    ensures t[k].after == t[k].before[c := Request(t[k].now, Some(id), true)]
  {
    assert Next(t[k].before, t[k].now, t[k].event, t[k].answer, t[k].after);
    c := t[k].answer.collection;
    assert k > 0 && t[k].before == t[k - 1].after;
    HeldWasNoted(t, k - 1, c, id);
    q :| 0 <= q <= k - 1 && t[q].event == Note(c, id);
  }

  lemma {:induction false} StaysAnswering(t: seq<Entry>, k: nat, n: nat, c: string, id: string, q: nat)
    requires Run(t) && FreshIds(t) && q < k <= n < |t| && t[q].event == Note(c, id)
    requires t[k].event == Claim(id) && t[k].answer == Got(c) && c in t[k].after && t[k].after[c].answering
    ensures HoldsId(t[n].after, c, id) ==> t[n].after[c].answering
    decreases n
  {
    if n > k {
      StaysAnswering(t, k, n - 1, c, id, q);
      assert t[n].before == t[n - 1].after;
      assert Next(t[n].before, t[n].now, t[n].event, t[n].answer, t[n].after);
      assert t[n].event.Note? ==> t[n].event.id != id;
    }
  }

  /** Each id is claimed successfully at most once, ever. */
  lemma ClaimedOnce(t: seq<Entry>, k: nat, l: nat, id: string)
    requires Run(t) && FreshIds(t) && k < l < |t|
    requires t[k].event == Claim(id) && t[k].answer.Got?
    ensures !(t[l].event == Claim(id) && t[l].answer.Got?)
  {
    if t[l].event == Claim(id) && t[l].answer.Got? {
      var q, c := ClaimedWasNoted(t, k, id);
      var r, d := ClaimedWasNoted(t, l, id);
      assert q == r && c == d;
      StaysAnswering(t, k, l - 1, c, id, q);
      assert false;
    }
  }

  /** Nothing touched what is outstanding for `c` between two entries. */
  ghost predicate Untouched(t: seq<Entry>, c: string, from: nat, to: nat)
    requires to <= |t|
  {
    forall k :: from < k < to ==>
      && !AcceptedMark(t[k], c) && !ClaimOf(t[k], c) && !TakeOf(t[k], c)
      && !(t[k].event.Note? && t[k].event.collection == c)
  }

  lemma {:induction false} StaysNoted(t: seq<Entry>, c: string, id: string, q: nat, n: nat)
    requires Run(t) && q <= n < |t| && t[q].event == Note(c, id) && c in t[q].before && Untouched(t, c, q, n + 1)
    ensures c in t[n].after && t[n].after[c] == t[q].before[c].(id := Some(id))
    decreases n
  {
    assert Next(t[n].before, t[n].now, t[n].event, t[n].answer, t[n].after);
    if n > q {
      StaysNoted(t, c, id, q, n - 1);
      assert t[n].before == t[n - 1].after;
    }
  }

  /** The last id noted for an outstanding collection gets it: a claim once, if nothing has claimed
      it, and a take at any time. */
  lemma NotedAnswers(t: seq<Entry>, c: string, id: string, q: nat, l: nat)
    requires Run(t) && FreshIds(t) && q < l < |t| && t[q].event == Note(c, id) && c in t[q].before
    requires Untouched(t, c, q, l)
    ensures t[l].event == TakeById(id) ==> t[l].answer == Got(c) && t[l].after == t[l].before - {c}
    ensures t[l].event == Claim(id) ==>
      t[l].answer == if t[q].before[c].answering then Nothing else Got(c)
  {
    StaysNoted(t, c, id, q, l - 1);
    assert t[l].before == t[l - 1].after;
    assert Next(t[l].before, t[l].now, t[l].event, t[l].answer, t[l].after);
    var m := t[l - 1].after;
    assert HoldsId(m, c, id);
    forall h | HoldsId(m, h, id) ensures h == c {
      HolderUnique(t, l - 1, h, c, id);
    }
  }

  /** An id that was never noted gets nothing. */
  lemma UnknownIdGetsNothing(t: seq<Entry>, l: nat, id: string)
    requires Run(t) && l < |t| && (t[l].event == Claim(id) || t[l].event == TakeById(id))
    requires forall k :: 0 <= k < l && t[k].event.Note? ==> t[k].event.id != id
    ensures t[l].answer == Nothing && t[l].after == t[l].before
  {
    assert Next(t[l].before, t[l].now, t[l].event, t[l].answer, t[l].after);
    if h :| HoldsId(t[l].before, h, id) {
      assert l > 0 && t[l].before == t[l - 1].after;
      HeldWasNoted(t, l - 1, h, id);
    }
  }

  // ---------------------------------------------------------------- a claim protects its handler

  /** Ids are noted right after the mark that asked for them was accepted. */
  ghost predicate NotedAfterMark(t: seq<Entry>) {
    forall n :: 0 <= n < |t| && t[n].event.Note? ==> n > 0 && AcceptedMark(t[n - 1], t[n].event.collection)
  }

  ghost predicate Protected(m: Outstanding, c: string, id: string, since: nat) {
    HoldsId(m, c, id) && m[c].answering && m[c].askedAt >= since
  }

  lemma {:induction false} StaysProtected(t: seq<Entry>, k: nat, n: nat, c: string, id: string)
    requires Run(t) && NotedAfterMark(t) && k <= n < |t| && t[n].now < t[k].now + ANSWER_TTL && NoTake(t, c, k, n + 1)
    requires t[k].event == Claim(id) && Protected(t[k].after, c, id, t[k].now)
    ensures Protected(t[n].after, c, id, t[k].now)
    ensures n > k ==> !AcceptedMark(t[n], c)
    decreases n
  {
    if n > k {
      assert t[n - 1].now <= t[n].now;
      StaysProtected(t, k, n - 1, c, id);
      assert t[n].before == t[n - 1].after;
      assert Next(t[n].before, t[n].now, t[n].event, t[n].answer, t[n].after);
      assert t[n].event.Note? ==> t[n].event.collection != c;
    }
  }

  /** For 900 seconds after a claim the request can still be taken by its id. */
  lemma TakeableAfterClaim(t: seq<Entry>, k: nat, l: nat, id: string)
    requires Run(t) && FreshIds(t) && NotedAfterMark(t) && k < l < |t|
    requires t[k].event == Claim(id) && t[k].answer.Got? && t[l].event == TakeById(id)
    requires t[l].now < t[k].now + ANSWER_TTL && NoTake(t, t[k].answer.collection, k, l)
    ensures t[l].answer == t[k].answer
  {
    var q, c := ClaimedWasNoted(t, k, id);
    assert t[l - 1].now <= t[l].now;
    StaysProtected(t, k, l - 1, c, id);
    assert t[l].before == t[l - 1].after;
    assert Next(t[l].before, t[l].now, t[l].event, t[l].answer, t[l].after);
    HolderUnique(t, l - 1, c, t[l].answer.collection, id);
  }

  // ---------------------------------------------------------------- the methods

  class RequestTable {
    var requests: Outstanding

    constructor()
      ensures requests == map[]
    {
      requests := map[];
    }

    /** `mark_recovery_requested`. */
    method MarkRequested(c: string, now: nat) returns (isNew: bool)
      modifies this
      ensures Next(old(requests), now, Mark(c), if isNew then Accepted else Refused, requests)
    {
      if c in requests && Suppresses(requests[c], now) {
        return false;
      }
      requests := requests[c := Request(now, None, false)];
      isNew := true;
    }

    /** `note_recovery_request_id`. */
    method NoteId(c: string, id: string, now: nat)
      modifies this
      ensures Next(old(requests), now, Note(c, id), Nothing, requests)
    {
      if c in requests {
        requests := requests[c := requests[c].(id := Some(id))];
      }
    }

    /** `claim_recovery_request_by_id`. */
    method ClaimById(id: string, now: nat) returns (c: Option<string>)
      modifies this
      ensures Next(old(requests), now, Claim(id), if c.Some? then Got(c.value) else Nothing, requests)
    {
      if h :| h in requests && HoldsId(requests, h, id) {
        if requests[h].answering {
          return None;
        }
        requests := requests[h := Request(now, Some(id), true)];
        c := Some(h);
      } else {
        c := None;
      }
    }

    /** `take_recovery_request_by_id`. */
    method TakeRequestById(id: string, now: nat) returns (c: Option<string>)
      modifies this
      ensures Next(old(requests), now, TakeById(id), if c.Some? then Got(c.value) else Nothing, requests)
    {
      if h :| h in requests && HoldsId(requests, h, id) {
        requests := requests - {h};
        c := Some(h);
      } else {
        c := None;
      }
    }

    /** `take_recovery_request`. */
    method TakeRequest(c: string, now: nat) returns (had: bool)
      modifies this
      ensures Next(old(requests), now, Take(c), if had then Got(c) else Nothing, requests)
    {
      had := c in requests;
      requests := requests - {c};
    }
  }
}
