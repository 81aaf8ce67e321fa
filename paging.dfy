/** The infinite-scroll paging state machine shared by both gallery viewers:
    a `state` of `idle`, `loading` or `done` and a `current` offset. Every
    load sends one page request; each reply either appends a page and
    advances `current` by `page`, or (an empty page) ends the gallery.
    `pending`, which the viewers do not keep, counts the requests whose
    reply has not arrived. */
module Paging {
  import opened Wrappers

  datatype Phase = Idle | Loading | Done

  datatype Pager = Pager(phase: Phase, current: nat, pending: nat)

  /** `Load` is an unconditional `loadNext()` (at start-up, or when the
      recipe arrives); `Scroll` is the scroll handler, with whether the
      window is within `margin` of the bottom; `Reply` is a page reply
      carrying `count` images. */
  datatype Event = Load | Scroll(near: bool) | Reply(count: nat)

  const Initial := Pager(Idle, 0, 0)

  /** Whether the event sends a page request. */
  predicate Requests(p: Pager, e: Event)
  {
    e.Load? || (e.Scroll? && e.near && p.phase == Idle)
  }

  function Step(p: Pager, page: nat, e: Event): Pager
    requires e.Reply? ==> p.pending > 0
  {
    match e
    case Load => Pager(Loading, p.current, p.pending + 1)
    case Scroll(near) =>
      if near && p.phase == Idle then Pager(Loading, p.current, p.pending + 1) else p
    case Reply(n) =>
      if n > 0 then Pager(Idle, p.current + page, p.pending - 1)
      else Pager(Done, p.current, p.pending - 1)
  }

  /** The state after a sequence of events; `None` if a reply arrives for
      which no request is outstanding, which cannot happen. */
  function Run(p: Pager, page: nat, evs: seq<Event>): Option<Pager>
    decreases |evs|
  {
    if |evs| == 0 then Some(p)
    else if evs[0].Reply? && p.pending == 0 then None
    else Run(Step(p, page, evs[0]), page, evs[1..])
  }

  // ---------------------------------------------------------------------------

  /** A request is sent exactly when the event says so, and it leaves the
      gallery loading with one more reply outstanding; anything else that is
      not a reply changes nothing. */
  lemma RequestEffect(p: Pager, page: nat, e: Event)
    requires !e.Reply?
    ensures Requests(p, e) ==> Step(p, page, e) == Pager(Loading, p.current, p.pending + 1)
    ensures !Requests(p, e) ==> Step(p, page, e) == p
  {
  }

  /** A non-empty page advances `current` by exactly `page` and returns to
      idle; an empty page leaves `current` and moves to done. */
  lemma ReplyEffect(p: Pager, page: nat, n: nat)
    requires p.pending > 0
    ensures n > 0 ==> Step(p, page, Reply(n)) == Pager(Idle, p.current + page, p.pending - 1)
    ensures n == 0 ==> Step(p, page, Reply(n)) == Pager(Done, p.current, p.pending - 1)
  {
  }

  /** Once done with nothing outstanding, scrolling changes nothing, so no
      further page is requested. */
  lemma {:induction false} DoneAbsorbs(p: Pager, page: nat, evs: seq<Event>)
    requires p.phase == Done && p.pending == 0
    requires forall i :: 0 <= i < |evs| ==> evs[i].Scroll?
    ensures Run(p, page, evs) == Some(p)
    decreases |evs|
  {
    if |evs| > 0 {
      assert !Requests(p, evs[0]);
      DoneAbsorbs(p, page, evs[1..]);
    }
  }

  /** At most one request outstanding, and exactly one while loading. */
  predicate SingleFlight(p: Pager)
  {
    p.pending <= 1 && (p.phase == Loading <==> p.pending == 1)
  }

  /** Scrolls and replies keep a single request in flight: the scroll
      handler only loads from idle, when nothing is outstanding. */
  lemma StepKeepsSingleFlight(p: Pager, page: nat, e: Event)
    requires SingleFlight(p) && !e.Load? && (e.Reply? ==> p.pending > 0)
    ensures SingleFlight(Step(p, page, e))
    ensures Requests(p, e) ==> p.pending == 0
  {
  }

  lemma {:induction false} RunKeepsSingleFlight(p: Pager, page: nat, evs: seq<Event>)
    requires SingleFlight(p)
    requires forall i :: 0 <= i < |evs| ==> !evs[i].Load?
    ensures Run(p, page, evs).Some? ==> SingleFlight(Run(p, page, evs).value)
    decreases |evs|
  {
    if |evs| > 0 && !(evs[0].Reply? && p.pending == 0) {
      StepKeepsSingleFlight(p, page, evs[0]);
      RunKeepsSingleFlight(Step(p, page, evs[0]), page, evs[1..]);
    }
  }

  /** When the only unconditional load comes first (start-up in one viewer,
      a recipe that arrives before any scroll in the other), there is never
      more than one page request in flight. */
  lemma LoadFirstSingleFlight(page: nat, evs: seq<Event>)
    requires forall i :: 0 <= i < |evs| ==> !evs[i].Load?
    ensures Run(Initial, page, [Load] + evs).Some? ==>
      SingleFlight(Run(Initial, page, [Load] + evs).value)
  {
    assert ([Load] + evs)[1..] == evs;
    RunKeepsSingleFlight(Step(Initial, page, Load), page, evs);
  }

  /** A scroll near the bottom before the first unconditional load, then that
      load: two requests are in flight, both sent with the same `current`,
      and their two non-empty replies advance `current` by two pages. */
  lemma ScrollThenLoad(page: nat, n: nat)
    requires n > 0
    ensures Run(Initial, page, [Scroll(true), Load]) == Some(Pager(Loading, 0, 2))
    ensures Run(Initial, page, [Scroll(true), Load, Reply(n), Reply(n)])
      == Some(Pager(Idle, 2 * page, 0))
  {
    var evs := [Scroll(true), Load, Reply(n), Reply(n)];
    assert evs[1..] == [Load, Reply(n), Reply(n)];
    assert evs[2..] == [Reply(n), Reply(n)];
    assert evs[3..] == [Reply(n)];
    assert Run(Pager(Idle, 2 * page, 0), page, evs[4..]) == Some(Pager(Idle, 2 * page, 0));
    assert Run(Pager(Idle, page, 1), page, evs[3..]) == Some(Pager(Idle, 2 * page, 0));
    assert Run(Pager(Loading, 0, 2), page, evs[2..]) == Some(Pager(Idle, 2 * page, 0));
    assert Run(Pager(Loading, 0, 1), page, evs[1..]) == Some(Pager(Idle, 2 * page, 0));
    assert [Scroll(true), Load][1..] == [Load];
  }
}
