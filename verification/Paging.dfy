/** A property of whole calls: cutting a patch list into pages changes nothing. */
module Paging {
  import opened Common
  import opened SyncWire
  import opened PatchHash
  import opened Processor
  import opened Collection

  function Unflagged(s: HashState): HashState { s.(bootstrapped := false) }

  ghost predicate SameButFlag(r: Result<PatchResult, SyncError>, q: Result<PatchResult, SyncError>) {
    if r.Err? then q == r
    else q.Ok? && r.value.(state := Unflagged(r.value.state)) == q.value.(state := Unflagged(q.value.state))
  }

  /** The terminal-page flag is carried along and never read by patch processing. */
  lemma FlagUnread(p: Primitives, patch: Patch, s: HashState, t: HashState, store: Macs, keys: KeyMap, validate: bool,
                   name: string)
    requires Unflagged(s) == Unflagged(t)
    ensures SameButFlag(ProcessedPatch(p, patch, s, store, keys, validate, name),
                        ProcessedPatch(p, patch, t, store, keys, validate, name))
  {
    UnknownOpIff(patch.mutations);
    if AllKnown(patch.mutations) {
      var hash := HashAfter(p.derive, s.hash, patch.mutations, store);
      var hs, ht := s.(version := patch.version, hash := hash), t.(version := patch.version, hash := hash);
      JudgedUnread(p, patch, hs, ht, keys, validate, name, s.Unseeded());
      DecidedUnread(p, patch.mutations, Judged(p, patch, hs, keys, validate, name, s.Unseeded()),
                    Judged(p, patch, ht, keys, validate, name, s.Unseeded()), keys, validate);
    }
  }

  lemma DecidedUnread(p: Primitives, ms: seq<Mutation>, r: Result<HashState, SyncError>,
                      q: Result<HashState, SyncError>, keys: KeyMap, validate: bool)
    requires AllKnown(ms)
    requires if r.Err? then q == r else q.Ok? && Unflagged(r.value) == Unflagged(q.value)
    ensures SameButFlag(Decided(p, ms, r, keys, validate), Decided(p, ms, q, keys, validate))
  {
  }

  lemma JudgedUnread(p: Primitives, patch: Patch, s: HashState, t: HashState, keys: KeyMap, validate: bool,
                     name: string, unseeded: bool)
    requires Unflagged(s) == Unflagged(t)
    ensures var r := Judged(p, patch, s, keys, validate, name, unseeded);
      var q := Judged(p, patch, t, keys, validate, name, unseeded);
      if r.Err? then q == r else q.Ok? && Unflagged(r.value) == Unflagged(q.value)
  {
  }

  /** What a run of the loop gives once the flag is set aside. */
  ghost predicate SameRun(r: PhaseResult, q: PhaseResult) {
    && r.1.Ok? == q.1.Ok? && r.0.macs == q.0.macs
    && (r.1.Err? ==> r.1.error == q.1.error)
    && (r.1.Ok? ==> r.1.value.1 == q.1.value.1 && Unflagged(r.1.value.0) == Unflagged(q.1.value.0))
  }

  lemma {:induction false} FlagUnreadPhase(p: Primitives, c: Coll, d: Coll, s: HashState, t: HashState,
                                           patches: seq<Patch>, h: bool, g: bool, keys: KeyMap, validate: bool,
                                           name: string)
    requires c.macs == d.macs && Unflagged(s) == Unflagged(t)
    ensures SameRun(PatchPhase(p, c, s, patches, h, keys, validate, name),
                    PatchPhase(p, d, t, patches, g, keys, validate, name))
    decreases |patches|
  {
    if patches != [] {
      FlagUnread(p, patches[0], s, t, c.macs, keys, validate, name);
      var r := ProcessedPatch(p, patches[0], s, c.macs, keys, validate, name);
      var q := ProcessedPatch(p, patches[0], t, c.macs, keys, validate, name);
      if r.Ok? {
        var s1 := r.value.state.(bootstrapped := s.bootstrapped || !h);
        var t1 := q.value.state.(bootstrapped := t.bootstrapped || !g);
        var c1, d1 := Committed(c, r.value, s1), Committed(d, q.value, t1);
        FlagUnreadPhase(p, c1, d1, s1, t1, patches[1..], h, g, keys, validate, name);
        PrependSame(r.value.mutations, PatchPhase(p, c1, s1, patches[1..], h, keys, validate, name),
                    PatchPhase(p, d1, t1, patches[1..], g, keys, validate, name));
      }
    }
  }

  lemma PrependSame(ms: seq<Decoded>, r: PhaseResult, q: PhaseResult)
    requires SameRun(r, q)
    ensures SameRun(Prepend(ms, r), Prepend(ms, q))
  {
  }

  /** What becomes of the flag, and of the record. */
  ghost predicate EndsWith(r: PhaseResult, c: Coll, s: HashState, any: bool, h: bool) {
    r.1.Ok? ==>
      && r.1.value.0.bootstrapped == (s.bootstrapped || (any && !h))
      && r.0.state == if any then Some(r.1.value.0) else c.state
  }

  lemma {:induction false} PhaseEnds(p: Primitives, c: Coll, s: HashState, patches: seq<Patch>, h: bool, keys: KeyMap,
                                     validate: bool, name: string)
    ensures EndsWith(PatchPhase(p, c, s, patches, h, keys, validate, name), c, s, patches != [], h)
    decreases |patches|
  {
    if patches != [] {
      var r := ProcessedPatch(p, patches[0], s, c.macs, keys, validate, name);
      if r.Ok? {
        var s1 := r.value.state.(bootstrapped := s.bootstrapped || !h);
        PhaseEnds(p, Committed(c, r.value, s1), s1, patches[1..], h, keys, validate, name);
      }
    }
  }

  /** One run of patches continued by another. */
  ghost function Then(first: PhaseResult, rest: PhaseResult): PhaseResult {
    if first.1.Err? then first else Prepend(first.1.value.1, rest)
  }

  lemma PrependThen(ms: seq<Decoded>, first: PhaseResult, rest: PhaseResult)
    ensures Prepend(ms, Then(first, rest)) == Then(Prepend(ms, first), rest)
  {
    if first.1.Ok? && rest.1.Ok? {
      assert ms + (first.1.value.1 + rest.1.value.1) == ms + first.1.value.1 + rest.1.value.1;
    }
  }

  ghost function Continue(p: Primitives, first: PhaseResult, b: seq<Patch>, h: bool, keys: KeyMap, validate: bool,
                          name: string): PhaseResult
  {
    if first.1.Err? then first else PatchPhase(p, first.0, first.1.value.0, b, h, keys, validate, name)
  }

  /** The loop over a joined list is the loop over the first part, then over the rest. */
  lemma {:induction false} PhaseSplits(p: Primitives, c: Coll, s: HashState, a: seq<Patch>, b: seq<Patch>, h: bool,
                                       keys: KeyMap, validate: bool, name: string)
    ensures var first := PatchPhase(p, c, s, a, h, keys, validate, name);
      PatchPhase(p, c, s, a + b, h, keys, validate, name) == Then(first, Continue(p, first, b, h, keys, validate, name))
    decreases |a|
  {
    if a == [] {
      assert a + b == b;
      var rest := PatchPhase(p, c, s, b, h, keys, validate, name);
      if rest.1.Ok? { assert [] + rest.1.value.1 == rest.1.value.1; }
    } else {
      assert (a + b)[1..] == a[1..] + b;
      var r := ProcessedPatch(p, a[0], s, c.macs, keys, validate, name);
      if r.Ok? {
        var next := r.value.state.(bootstrapped := s.bootstrapped || !h);
        var c1 := Committed(c, r.value, next);
        PhaseSplits(p, c1, next, a[1..], b, h, keys, validate, name);
        var first := PatchPhase(p, c1, next, a[1..], h, keys, validate, name);
        PrependThen(r.value.mutations, first, Continue(p, first, b, h, keys, validate, name));
      }
    }
  }

  // ---------------------------------------------------------------- pages

  /** The first `k` patches, announced as one page of several, and then the others. */
  function FirstPage(pl: PatchList, k: nat): PatchList
    requires k <= |pl.patches|
  {
    pl.(patches := pl.patches[..k], hasMore := true)
  }

  function SecondPage(pl: PatchList, k: nat): PatchList
    requires k <= |pl.patches|
  {
    pl.(patches := pl.patches[k..], snapshot := None)
  }

  type ListResult = (Coll, Result<Outcome, SyncError>)

  ghost predicate Applied(r: ListResult) {
    r.1.Ok? && !r.1.value.retry
  }

  /** A list with patches, once its snapshot is dealt with. */
  ghost function Finished(s: Step, patches: seq<Patch>, loop: PhaseResult): ListResult {
    if NeedsRefetch(s.state, patches) then (s.coll, Ok(Outcome(s.mutations, s.state, true)))
    else if loop.1.Err? then (loop.0, Err(loop.1.error))
    else (loop.0, Ok(Outcome(s.mutations + loop.1.value.1, loop.1.value.0, false)))
  }

  lemma ListRuns(p: Primitives, c: Coll, pl: PatchList, keys: KeyMap, validate: bool)
    requires pl.patches != [] && SnapshotPhase(p, c, pl, keys, validate).Ok?
    ensures var s := SnapshotPhase(p, c, pl, keys, validate).value;
      ProcessedList(p, c, pl, keys, validate)
      == Finished(s, pl.patches, PatchPhase(p, Cleared(s), s.state, pl.patches, pl.hasMore, keys, validate, pl.name))
  {
  }

  /** What the two ways of delivering one list have in common after the snapshot. */
  ghost predicate SameStart(a: Step, f: Step, hasMore: bool) {
    && a.coll.macs == f.coll.macs
    && Unflagged(a.state) == Unflagged(f.state)
    && a.mutations == f.mutations
    && Held(a.coll) == a.state && Held(f.coll) == f.state
    && (a.state.bootstrapped || !hasMore) == (f.state.bootstrapped || !hasMore)
  }

  lemma SnapshotSameStart(p: Primitives, c: Coll, pl: PatchList, k: nat, keys: KeyMap, validate: bool)
    requires k < |pl.patches|
    ensures var all := SnapshotPhase(p, c, pl, keys, validate);
      var first := SnapshotPhase(p, c, FirstPage(pl, k), keys, validate);
      all.Ok? == first.Ok? && (all.Ok? ==> SameStart(all.value, first.value, pl.hasMore))
  {
  }

  /** The first page persists what its loop ended with. */
  ghost predicate PageEnds(page: ListResult, s: Step, loop: PhaseResult, k: nat) {
    && loop.1.Ok?
    && page.0.macs == loop.0.macs && Held(page.0) == loop.1.value.0
    && page.1.Ok? && page.1.value.mutations == s.mutations + loop.1.value.1
    && (k == 0 ==> loop == (Cleared(s), Ok((s.state, []))))
    && (k > 0 ==> !loop.1.value.0.Unseeded())
  }

  lemma FirstPageRuns(p: Primitives, c: Coll, pl: PatchList, k: nat, keys: KeyMap, validate: bool)
    requires k < |pl.patches| && SnapshotPhase(p, c, FirstPage(pl, k), keys, validate).Ok?
    ensures var s := SnapshotPhase(p, c, FirstPage(pl, k), keys, validate).value;
      var loop := PatchPhase(p, Cleared(s), s.state, pl.patches[..k], true, keys, validate, pl.name);
      var page := ProcessedList(p, c, FirstPage(pl, k), keys, validate);
      && (Applied(page) <==> loop.1.Ok? && (k == 0 || !NeedsRefetch(s.state, pl.patches)))
      && (Applied(page) ==> PageEnds(page, s, loop, k))
  {
    var s := SnapshotPhase(p, c, FirstPage(pl, k), keys, validate).value;
    PatchPhaseVersion(p, Cleared(s), s.state, pl.patches[..k], true, keys, validate, pl.name);
  }

  ghost predicate PageContinues(second: ListResult, rest: PhaseResult) {
    && (second.1.Ok? <==> rest.1.Ok?)
    && (rest.1.Ok? ==> second == (rest.0, Ok(Outcome(rest.1.value.1, rest.1.value.0, false))))
  }

  lemma SecondPageRuns(p: Primitives, page: Coll, pl: PatchList, k: nat, wa: PhaseResult, keys: KeyMap, validate: bool)
    requires k < |pl.patches| && wa.1.Ok?
    requires Unflagged(Held(page)) == Unflagged(wa.1.value.0)
    requires (Held(page).bootstrapped || !pl.hasMore) == (wa.1.value.0.bootstrapped || !pl.hasMore)
    requires !NeedsRefetch(Held(page), pl.patches[k..])
    requires wa.0.macs == if Held(page).Unseeded() then map[] else page.macs
    ensures var second := ProcessedList(p, page, SecondPage(pl, k), keys, validate);
      var rest := Continue(p, wa, pl.patches[k..], pl.hasMore, keys, validate, pl.name);
      PageContinues(second, rest)
  {
    var s, later := Step(page, Held(page), []), pl.patches[k..];
    ListRuns(p, page, SecondPage(pl, k), keys, validate);
    SamePhase(p, wa.0, Cleared(s), wa.1.value.0, s.state, later, pl.hasMore, keys, validate, pl.name);
    FinishedEmpty(s, later, PatchPhase(p, Cleared(s), s.state, later, pl.hasMore, keys, validate, pl.name));
  }

  lemma FinishedEmpty(s: Step, patches: seq<Patch>, loop: PhaseResult)
    requires !NeedsRefetch(s.state, patches) && s.mutations == []
    ensures PageContinues(Finished(s, patches, loop), loop)
  {
    if loop.1.Ok? {
      assert [] + loop.1.value.1 == loop.1.value.1;
    }
  }

  /** Over the same rows and states that differ at most in the flag, which the last page sets
      alike, a loop with patches ends alike. */
  lemma SamePhase(p: Primitives, c: Coll, d: Coll, s: HashState, t: HashState, patches: seq<Patch>, h: bool,
                  keys: KeyMap, validate: bool, name: string)
    requires patches != [] && c.macs == d.macs && Unflagged(s) == Unflagged(t)
    requires (s.bootstrapped || !h) == (t.bootstrapped || !h)
    ensures var r := PatchPhase(p, c, s, patches, h, keys, validate, name);
      var q := PatchPhase(p, d, t, patches, h, keys, validate, name);
      (r.1.Ok? <==> q.1.Ok?) && (r.1.Ok? ==> r == q)
  {
    FlagUnreadPhase(p, c, d, s, t, patches, h, h, keys, validate, name);
    PhaseEnds(p, c, s, patches, h, keys, validate, name);
    PhaseEnds(p, d, t, patches, h, keys, validate, name);
    SameEnds(PatchPhase(p, c, s, patches, h, keys, validate, name),
             PatchPhase(p, d, t, patches, h, keys, validate, name),
             c, d, s, t, h);
  }

  lemma SameEnds(r: PhaseResult, q: PhaseResult, c: Coll, d: Coll, s: HashState, t: HashState, h: bool)
    requires SameRun(r, q) && EndsWith(r, c, s, true, h) && EndsWith(q, d, t, true, h)
    requires (s.bootstrapped || !h) == (t.bootstrapped || !h)
    ensures (r.1.Ok? <==> q.1.Ok?) && (r.1.Ok? ==> r == q)
  {
  }

  ghost predicate PagesAgree(all: ListResult, first: ListResult, second: ListResult) {
    && (Applied(all) <==> Applied(first) && Applied(second))
    && (Applied(all) ==>
         && all.0 == second.0
         && all.1.value.state == second.1.value.state
         && all.1.value.mutations == first.1.value.mutations + second.1.value.mutations)
  }

  /** The two runs of the first part, and where the second page picks up. */
  lemma PickUp(p: Primitives, c: Coll, pl: PatchList, k: nat, sa: Step, sf: Step, wa: PhaseResult, wf: PhaseResult,
               keys: KeyMap, validate: bool)
    requires k < |pl.patches| && SameStart(sa, sf, pl.hasMore)
    requires SnapshotPhase(p, c, FirstPage(pl, k), keys, validate) == Ok(sf)
    requires wa == PatchPhase(p, Cleared(sa), sa.state, pl.patches[..k], pl.hasMore, keys, validate, pl.name)
    requires wf == PatchPhase(p, Cleared(sf), sf.state, pl.patches[..k], true, keys, validate, pl.name)
    ensures SameRun(wa, wf)
    ensures var page := ProcessedList(p, c, FirstPage(pl, k), keys, validate);
      Applied(page) && !NeedsRefetch(sf.state, pl.patches) ==>
        && Unflagged(Held(page.0)) == Unflagged(wa.1.value.0)
        && (Held(page.0).bootstrapped || !pl.hasMore) == (wa.1.value.0.bootstrapped || !pl.hasMore)
        && !NeedsRefetch(Held(page.0), pl.patches[k..])
        && wa.0.macs == if Held(page.0).Unseeded() then map[] else page.0.macs
  {
    FlagUnreadPhase(p, Cleared(sa), Cleared(sf), sa.state, sf.state, pl.patches[..k], pl.hasMore, true, keys, validate,
                    pl.name);
    PhaseEnds(p, Cleared(sa), sa.state, pl.patches[..k], pl.hasMore, keys, validate, pl.name);
    PhaseEnds(p, Cleared(sf), sf.state, pl.patches[..k], true, keys, validate, pl.name);
    FirstPageRuns(p, c, pl, k, keys, validate);
    assert k == 0 ==> pl.patches[k..] == pl.patches;
  }

  lemma RefetchAlike(p: Primitives, c: Coll, pl: PatchList, k: nat, sf: Step, keys: KeyMap, validate: bool)
    requires k < |pl.patches| && NeedsRefetch(sf.state, pl.patches)
    requires SnapshotPhase(p, c, FirstPage(pl, k), keys, validate) == Ok(sf)
    ensures var first := ProcessedList(p, c, FirstPage(pl, k), keys, validate);
      !Applied(first) || !Applied(ProcessedList(p, first.0, SecondPage(pl, k), keys, validate))
  {
    FirstPageRuns(p, c, pl, k, keys, validate);
    if k == 0 {
      assert pl.patches[k..] == pl.patches;
      ListRuns(p, ProcessedList(p, c, FirstPage(pl, k), keys, validate).0, SecondPage(pl, k), keys, validate);
    }
  }

  lemma JoinPages(all: ListResult, first: ListResult, second: ListResult, s: Step, patches: seq<Patch>,
                  wa: PhaseResult, wf: PhaseResult, rest: PhaseResult)
    requires !NeedsRefetch(s.state, patches) && all == Finished(s, patches, Then(wa, rest)) && SameRun(wa, wf)
    requires Applied(first) <==> wf.1.Ok?
    requires Applied(first) ==> first.1.value.mutations == s.mutations + wf.1.value.1 && PageContinues(second, rest)
    ensures PagesAgree(all, first, second)
  {
    if wa.1.Ok? && rest.1.Ok? {
      assert s.mutations + (wa.1.value.1 + rest.1.value.1) == s.mutations + wa.1.value.1 + rest.1.value.1;
    }
  }

  lemma PagingAfterSnapshot(p: Primitives, c: Coll, pl: PatchList, k: nat, keys: KeyMap, validate: bool)
    requires k < |pl.patches| && SnapshotPhase(p, c, pl, keys, validate).Ok?
    ensures var first := ProcessedList(p, c, FirstPage(pl, k), keys, validate);
      PagesAgree(ProcessedList(p, c, pl, keys, validate), first,
                 ProcessedList(p, first.0, SecondPage(pl, k), keys, validate))
  {
    SnapshotSameStart(p, c, pl, k, keys, validate);
    var sa := SnapshotPhase(p, c, pl, keys, validate).value;
    var sf := SnapshotPhase(p, c, FirstPage(pl, k), keys, validate).value;
    var wa := PatchPhase(p, Cleared(sa), sa.state, pl.patches[..k], pl.hasMore, keys, validate, pl.name);
    var wf := PatchPhase(p, Cleared(sf), sf.state, pl.patches[..k], true, keys, validate, pl.name);
    ListRuns(p, c, pl, keys, validate);
    if NeedsRefetch(sf.state, pl.patches) {
      RefetchAlike(p, c, pl, k, sf, keys, validate);
    } else {
      assert pl.patches[..k] + pl.patches[k..] == pl.patches;
      PhaseSplits(p, Cleared(sa), sa.state, pl.patches[..k], pl.patches[k..], pl.hasMore, keys, validate, pl.name);
      BothPages(p, c, pl, k, sa, sf, wa, wf, keys, validate);
    }
  }

  lemma BothPages(p: Primitives, c: Coll, pl: PatchList, k: nat, sa: Step, sf: Step, wa: PhaseResult, wf: PhaseResult,
                  keys: KeyMap, validate: bool)
    requires k < |pl.patches| && SameStart(sa, sf, pl.hasMore) && !NeedsRefetch(sf.state, pl.patches)
    requires SnapshotPhase(p, c, FirstPage(pl, k), keys, validate) == Ok(sf)
    requires wa == PatchPhase(p, Cleared(sa), sa.state, pl.patches[..k], pl.hasMore, keys, validate, pl.name)
    requires wf == PatchPhase(p, Cleared(sf), sf.state, pl.patches[..k], true, keys, validate, pl.name)
    ensures var first := ProcessedList(p, c, FirstPage(pl, k), keys, validate);
      var rest := Continue(p, wa, pl.patches[k..], pl.hasMore, keys, validate, pl.name);
      PagesAgree(Finished(sa, pl.patches, Then(wa, rest)), first,
                 ProcessedList(p, first.0, SecondPage(pl, k), keys, validate))
  {
    PickUp(p, c, pl, k, sa, sf, wa, wf, keys, validate);
    FirstPageRuns(p, c, pl, k, keys, validate);
    var first := ProcessedList(p, c, FirstPage(pl, k), keys, validate);
    if Applied(first) {
      SecondPageRuns(p, first.0, pl, k, wa, keys, validate);
    }
    var rest := Continue(p, wa, pl.patches[k..], pl.hasMore, keys, validate, pl.name);
    JoinPages(Finished(sa, pl.patches, Then(wa, rest)), first,
              ProcessedList(p, first.0, SecondPage(pl, k), keys, validate),
              sa, pl.patches, wa, wf, rest);
  }

  /** Paging invariance: delivered whole or in two pages, a list is applied or not alike,
      and once applied leaves the same record, the same rows and the same mutations. */
  lemma PagingInvariance(p: Primitives, c: Coll, pl: PatchList, k: nat, keys: KeyMap, validate: bool)
    requires k < |pl.patches|
    ensures var first := ProcessedList(p, c, FirstPage(pl, k), keys, validate);
      PagesAgree(ProcessedList(p, c, pl, keys, validate), first,
                 ProcessedList(p, first.0, SecondPage(pl, k), keys, validate))
  {
    SnapshotSameStart(p, c, pl, k, keys, validate);
    if SnapshotPhase(p, c, pl, keys, validate).Ok? {
      PagingAfterSnapshot(p, c, pl, k, keys, validate);
    }
  }
}
