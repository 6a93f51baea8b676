/** The recorded execution time of one function on one node, updated by racing
    requests (the deferred update in proxyRequest, pkg/provider/handlers/trigger.go).
    Each request loads the value and stores an average in two separate steps. */
module ExecTime {
  import opened Powers

  /** The stored value, and for each request between its two steps what it will store. */
  datatype State = State(cell: int, toStore: map<nat, int>)

  datatype Event =
    | Load(request: nat, nanoseconds: nat)  // measures, loads and averages
    | Store(request: nat)
    | Reset                                 // a new replica has appeared

  function Millis(nanoseconds: nat): nat { nanoseconds / 1000000 }

  /** The first measurement replaces the mark 1, later ones are averaged in. */
  function Average(recorded: int, sample: nat): int
    requires recorded >= 0
  {
    if recorded == 1 then sample else (recorded + sample) / 2
  }

  /** ms are the whole milliseconds of a time in nanoseconds. */
  predicate WholeMillis(nanoseconds: nat, ms: int) {
    ms * 1000000 <= nanoseconds < (ms + 1) * 1000000
  }

  /** t lies between a and b, as far from one as from the other, or one nearer to the smaller. */
  predicate Halfway(a: int, b: int, t: int) {
    (a <= t <= b || b <= t <= a) && a + b - 1 <= 2 * t <= a + b
  }

  /** A run of so many nanoseconds takes the recorded time to t: over the mark 1
      it is the run's own whole milliseconds, else halfway to them. */
  ghost predicate Moves(recorded: int, nanoseconds: nat, t: int) {
    if recorded == 1 then WholeMillis(nanoseconds, t)
    else exists ms :: WholeMillis(nanoseconds, ms) && Halfway(recorded, ms, t)
  }

  lemma MillisIsWhole(nanoseconds: nat)
    ensures WholeMillis(nanoseconds, Millis(nanoseconds))
  {
  }

  lemma AverageMoves(recorded: int, nanoseconds: nat)
    requires recorded >= 0
    ensures Moves(recorded, nanoseconds, Average(recorded, Millis(nanoseconds)))
  {
    var ms := Millis(nanoseconds);
    MillisIsWhole(nanoseconds);
    assert recorded != 1 ==> Halfway(recorded, ms, Average(recorded, ms));
  }

  predicate Enabled(s: State, e: Event) {
    match e
    case Load(r, _) => r !in s.toStore && s.cell >= 0
    case Store(r) => r in s.toStore
    case Reset => true
  }

  function Step(s: State, e: Event): State
    requires Enabled(s, e)
  {
    match e
    case Load(r, ns) => s.(toStore := s.toStore[r := Average(s.cell, Millis(ns))])
    case Store(r) => State(s.toStore[r], s.toStore - {r})
    case Reset => s.(cell := 1)
  }

  const START := State(1, map[])

  predicate IsRun(es: seq<Event>) {
    es == [] || (IsRun(es[..|es| - 1]) && Enabled(Exec(es[..|es| - 1]), es[|es| - 1]))
  }

  function Exec(es: seq<Event>): State {
    if es == [] then START
    else
      var before := Exec(es[..|es| - 1]);
      if Enabled(before, es[|es| - 1]) then Step(before, es[|es| - 1]) else before
  }

  /** One of the measurements made so far, in milliseconds. */
  predicate Observed(es: seq<Event>, sample: int) {
    exists i :: 0 <= i < |es| && es[i].Load? && WholeMillis(es[i].nanoseconds, sample)
  }

  /** v lies between two measurements made so far. */
  ghost predicate Within(es: seq<Event>, v: int) {
    exists lo, hi :: Observed(es, lo) && Observed(es, hi) && lo <= v <= hi
  }

  lemma ObservedLonger(es: seq<Event>, sample: int)
    requires es != [] && Observed(es[..|es| - 1], sample)
    ensures Observed(es, sample)
  {
    var init := es[..|es| - 1];
    var i :| 0 <= i < |init| && init[i].Load? && WholeMillis(init[i].nanoseconds, sample);
    assert es[i] == init[i];
  }

  lemma WithinLonger(es: seq<Event>, v: int)
    requires es != [] && Within(es[..|es| - 1], v)
    ensures Within(es, v)
  {
    var init := es[..|es| - 1];
    var lo, hi :| Observed(init, lo) && Observed(init, hi) && lo <= v <= hi;
    ObservedLonger(es, lo);
    ObservedLonger(es, hi);
  }

  /** An average of a value within the measurements and a new measurement is within them too. */
  lemma AverageWithin(es: seq<Event>, recorded: int, sample: nat)
    requires recorded >= 0 && Observed(es, sample) && (recorded == 1 || Within(es, recorded))
    ensures Within(es, Average(recorded, sample))
  {
    if recorded == 1 {
      assert Observed(es, sample) && sample <= Average(recorded, sample) <= sample;
    } else {
      var lo, hi :| Observed(es, lo) && Observed(es, hi) && lo <= recorded <= hi;
      var low, high := if sample < lo then sample else lo, if sample > hi then sample else hi;
      assert Observed(es, low) && Observed(es, high) && low <= Average(recorded, sample) <= high;
    }
  }

  lemma ObservedNonNegative(es: seq<Event>, v: int)
    requires Within(es, v)
    ensures v >= 0
  {
  }

  /** Whatever the interleaving of loads, stores and resets, the recorded time
      is 1 or lies between two measurements made so far, and so does every value
      about to be stored. */
  lemma {:induction false} RacesStayWithin(es: seq<Event>)
    requires IsRun(es)
    ensures Exec(es).cell == 1 || Within(es, Exec(es).cell)
    ensures forall r :: r in Exec(es).toStore ==> Within(es, Exec(es).toStore[r])
  {
    if es != [] {
      var init, e := es[..|es| - 1], es[|es| - 1];
      var before := Exec(init);
      RacesStayWithin(init);
      if before.cell != 1 {
        WithinLonger(es, before.cell);
      }
      forall r | r in before.toStore ensures Within(es, before.toStore[r]) {
        WithinLonger(es, before.toStore[r]);
      }
      if e.Load? {
        assert Observed(es, Millis(e.nanoseconds)) by {
          MillisIsWhole(e.nanoseconds);
          assert es[|es| - 1] == e;
        }
        AverageWithin(es, before.cell, Millis(e.nanoseconds));
      }
    }
  }

  /** A load is always possible: the recorded time never becomes negative. */
  lemma NeverNegative(es: seq<Event>)
    requires IsRun(es)
    ensures Exec(es).cell >= 0
  {
    RacesStayWithin(es);
    if Exec(es).cell != 1 {
      ObservedNonNegative(es, Exec(es).cell);
    }
  }

  /** A first run of less than a millisecond is recorded as 0. */
  lemma ZeroIsRecorded(nanoseconds: nat)
    requires nanoseconds < 1000000
    ensures var es := [Load(0, nanoseconds), Store(0)]; IsRun(es) && Exec(es).cell == 0
  {
    var es := [Load(0, nanoseconds), Store(0)];
    assert es[..1] == [es[0]] && es[..1][..0] == [];
    assert Exec(es[..1]) == State(1, map[0 := 0]);
  }

  // ------------------------------------------------------- one request after another

  lemma ExecMore(es: seq<Event>, e: Event)
    requires IsRun(es) && Enabled(Exec(es), e)
    ensures IsRun(es + [e]) && Exec(es + [e]) == Step(Exec(es), e)
  {
    assert (es + [e])[..|es|] == es;
  }

  /** A request that nothing comes between moves the recorded time, and leaves other requests alone. */
  lemma RequestMoves(es: seq<Event>, request: nat, nanoseconds: nat)
    requires IsRun(es) && request !in Exec(es).toStore
    ensures var es' := es + [Load(request, nanoseconds)] + [Store(request)];
            && IsRun(es')
            && Moves(Exec(es).cell, nanoseconds, Exec(es').cell)
            && Exec(es').toStore == Exec(es).toStore
  {
    NeverNegative(es);
    AverageMoves(Exec(es).cell, nanoseconds);
    ExecMore(es, Load(request, nanoseconds));
    ExecMore(es + [Load(request, nanoseconds)], Store(request));
    assert Exec(es).toStore[request := 0] - {request} == Exec(es).toStore;
  }

  /** A reset leaves the mark, and the next request replaces it by its own time. */
  lemma ResetThenRequest(es: seq<Event>, request: nat, nanoseconds: nat)
    requires IsRun(es) && request !in Exec(es).toStore
    ensures var es' := es + [Reset] + [Load(request, nanoseconds)] + [Store(request)];
            IsRun(es') && WholeMillis(nanoseconds, Exec(es').cell)
  {
    ExecMore(es, Reset);
    RequestMoves(es + [Reset], request, nanoseconds);
  }

  /** n requests of the same length, one after another. */
  function Repeated(request: nat, nanoseconds: nat, n: nat): seq<Event> {
    if n == 0 then [] else Repeated(request, nanoseconds, n - 1) + [Load(request, nanoseconds)] + [Store(request)]
  }

  function Distance(a: int, b: int): nat { if a < b then b - a else a - b }

  lemma WholeMillisUnique(nanoseconds: nat, a: int, b: int)
    requires WholeMillis(nanoseconds, a) && WholeMillis(nanoseconds, b)
    ensures a == b
  {
  }

  /** Each move halves the distance to the run's own time, up to one half. */
  lemma MoveHalves(recorded: int, nanoseconds: nat, t: int, ms: int)
    requires Moves(recorded, nanoseconds, t) && WholeMillis(nanoseconds, ms)
    ensures 2 * Distance(t, ms) <= Distance(recorded, ms) + 1
  {
    if recorded == 1 {
      WholeMillisUnique(nanoseconds, t, ms);
    } else {
      var m :| WholeMillis(nanoseconds, m) && Halfway(recorded, m, t);
      WholeMillisUnique(nanoseconds, m, ms);
    }
  }

  lemma Doubled(p: nat, d: nat, d': nat, first: nat)
    requires 2 * d' <= d + 1 && d * p < first + p
    ensures d' * (2 * p) < first + 2 * p
  {
    assert d' * (2 * p) == (2 * d') * p;
    assert (2 * d') * p <= (d + 1) * p;
    assert (d + 1) * p == d * p + p;
  }

  /** Equal requests draw the recorded time to their own: after n of them the
      distance is less than the first one over two to the n, plus one. */
  lemma {:induction false} Converges(es: seq<Event>, request: nat, nanoseconds: nat, n: nat, ms: int)
    requires IsRun(es) && request !in Exec(es).toStore && WholeMillis(nanoseconds, ms)
    ensures var es' := es + Repeated(request, nanoseconds, n);
            && IsRun(es') && Exec(es').toStore == Exec(es).toStore
            && Distance(Exec(es').cell, ms) * TwoToThe(n) < Distance(Exec(es).cell, ms) + TwoToThe(n)
  {
    if n == 0 {
      assert es + [] == es;
    } else {
      Converges(es, request, nanoseconds, n - 1, ms);
      OneMoreRequest(es + Repeated(request, nanoseconds, n - 1), request, nanoseconds, ms, TwoToThe(n - 1),
                     Distance(Exec(es).cell, ms));
      RepeatedMore(es, request, nanoseconds, n);
    }
  }

  lemma RepeatedMore(es: seq<Event>, request: nat, nanoseconds: nat, n: nat)
    requires n > 0
    ensures es + Repeated(request, nanoseconds, n) ==
            es + Repeated(request, nanoseconds, n - 1) + [Load(request, nanoseconds)] + [Store(request)]
  {
  }

  lemma OneMoreRequest(es: seq<Event>, request: nat, nanoseconds: nat, ms: int, p: nat, first: nat)
    requires IsRun(es) && request !in Exec(es).toStore && WholeMillis(nanoseconds, ms)
    requires Distance(Exec(es).cell, ms) * p < first + p
    ensures var es' := es + [Load(request, nanoseconds)] + [Store(request)];
            && IsRun(es') && Exec(es').toStore == Exec(es).toStore
            && Distance(Exec(es').cell, ms) * (2 * p) < first + 2 * p
  {
    var es' := es + [Load(request, nanoseconds)] + [Store(request)];
    RequestMoves(es, request, nanoseconds);
    MoveHalves(Exec(es).cell, nanoseconds, Exec(es').cell, ms);
    Doubled(p, Distance(Exec(es).cell, ms), Distance(Exec(es').cell, ms), first);
  }
}
