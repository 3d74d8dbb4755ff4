/**
 * axi_async_fifo: a queue between two clocks. Registers of one clock change together at
 * its edge, so an edge is a function of the registers before it. Safety only.
 */
module AxiFifo {
  import opened Bits
  import opened GrayCode

  /** `a` is ADDR_WIDTH; pointers have one bit more. */
  datatype Fifo<T> = Fifo(
    a: nat, mem: seq<T>,
    wptrBin: nat, wptrGray: nat, rSync1: nat, rSync2: nat,
    rptrBin: nat, rptrGray: nat, wSync1: nat, wSync2: nat)

  function Depth(a: nat): (d: nat)
    ensures d > 0
  {
    Pow2(a)
  }

  function Range(a: nat): (m: nat)
    ensures m == 2 * Depth(a)
  {
    Pow2(a + 1)
  }

  /** `x` in a register that wraps round at `m`. */
  function Wrap(x: nat, m: nat): (r: nat)
    requires m > 0
    ensures r < m
  {
    if x < m then x else Wrap(x - m, m)
  }

  // ---------------------------------------------------------------- the circuit

  function Reset<T>(a: nat, mem: seq<T>): (s: Fifo<T>) {
    Fifo(a, mem, 0, 0, 0, 0, 0, 0, 0, 0)
  }

  function WptrNext<T>(s: Fifo<T>, winc: bool, wfull: bool): (p: nat) {
    Wrap(s.wptrBin + if winc && !wfull then 1 else 0, Range(s.a))
  }

  /** The full test reads the next pointer, which reads the full test: only settled values count. */
  predicate Settled<T>(s: Fifo<T>, winc: bool, wfull: bool)
    requires s.a >= 1
  {
    wfull <==> Gray(WptrNext(s, winc, wfull)) == TopInverted(s.rSync2, s.a - 1)
  }

  predicate Empty<T>(s: Fifo<T>) {
    s.rptrGray == s.wSync2
  }

  function RptrNext<T>(s: Fifo<T>, rinc: bool): (p: nat) {
    Wrap(s.rptrBin + if rinc && !Empty(s) then 1 else 0, Range(s.a))
  }

  function ReadData<T>(s: Fifo<T>): (d: T)
    requires |s.mem| == Depth(s.a)
  {
    s.mem[Wrap(s.rptrBin, Depth(s.a))]
  }

  /** An edge of the write clock; `rSample` is what the first synchroniser catches. */
  function WriteEdge<T>(s: Fifo<T>, winc: bool, wfull: bool, wdata: T, rSample: nat): (n: Fifo<T>)
    requires |s.mem| == Depth(s.a)
    ensures |n.mem| == |s.mem| && n.a == s.a
  {
    var next := WptrNext(s, winc, wfull);
    s.(mem := if winc && !wfull then s.mem[Wrap(s.wptrBin, Depth(s.a)) := wdata] else s.mem,
       wptrBin := next, wptrGray := Gray(next), rSync1 := rSample, rSync2 := s.rSync1)
  }

  /** An edge of the read clock. It changes no register of the write clock. */
  function ReadEdge<T>(s: Fifo<T>, rinc: bool, wSample: nat): (n: Fifo<T>)
    ensures n.mem == s.mem && n.a == s.a
  {
    var next := RptrNext(s, rinc);
    s.(rptrBin := next, rptrGray := Gray(next), wSync1 := wSample, wSync2 := s.wSync1)
  }

  /** The clocks are independent: one has an edge, or the other, or both at once. */
  datatype Event<T> =
    | Write(winc: bool, wfull: bool, wdata: T)
    | Read(rinc: bool)
    | Both(winc: bool, wfull: bool, wdata: T, rinc: bool, rSample: nat, wSample: nat)

  /**
   * An event can happen when the full test has settled. At simultaneous edges each
   * synchroniser may catch every bit of a pointer before or after it changes.
   */
  predicate Possible<T>(s: Fifo<T>, e: Event<T>)
    requires s.a >= 1
  {
    match e
    case Write(winc, wfull, _) => Settled(s, winc, wfull)
    case Read(_) => true
    case Both(winc, wfull, _, rinc, rSample, wSample) =>
      && Settled(s, winc, wfull)
      && Mix(rSample, s.rptrGray, Gray(RptrNext(s, rinc)))
      && Mix(wSample, s.wptrGray, Gray(WptrNext(s, winc, wfull)))
  }

  function Step<T>(s: Fifo<T>, e: Event<T>): (n: Fifo<T>)
    requires |s.mem| == Depth(s.a)
    ensures |n.mem| == |s.mem| && n.a == s.a
  {
    match e
    case Write(winc, wfull, wdata) => WriteEdge(s, winc, wfull, wdata, s.rptrGray)
    case Read(rinc) => ReadEdge(s, rinc, s.wptrGray)
    case Both(winc, wfull, wdata, rinc, rSample, wSample) =>
      ReadEdge(WriteEdge(s, winc, wfull, wdata, rSample), rinc, wSample)
  }

  /** The word an event puts in, if any. */
  function PutIn<T>(e: Event<T>): (d: seq<T>) {
    if !e.Read? && e.winc && !e.wfull then [e.wdata] else []
  }

  /** The word an event takes out, if any: the data output before the edge. */
  function TakenOut<T>(s: Fifo<T>, e: Event<T>): (d: seq<T>)
    requires |s.mem| == Depth(s.a)
  {
    if !e.Write? && e.rinc && !Empty(s) then [ReadData(s)] else []
  }

  // ---------------------------------------------------------------- pointers

  /** A register that wraps round keeps the remainder. */
  lemma {:induction false} WrapIsRemainder(x: nat, m: nat)
    requires m > 0
    ensures Wrap(x, m) == x % m
    decreases x
  {
    if x >= m {
      WrapIsRemainder(x - m, m);
      OneTurn(x, m);
    }
  }

  lemma OneTurn(x: nat, m: nat)
    requires 0 < m <= x
    ensures (x - m) % m == x % m
  {
    var q := x / m - (x - m) / m - 1;
    assert q * m == (x - m) % m - x % m;
    assert q >= 1 ==> q * m >= m;
    assert q <= -1 ==> -q * m >= m;
  }

  lemma {:induction false} WrapApart(x: nat, y: nat, m: nat)
    requires m > 0 && x <= y < x + m && Wrap(x, m) == Wrap(y, m)
    ensures x == y
    decreases x
  {
    if x >= m {
      WrapApart(x - m, y - m, m);
    }
  }

  lemma {:induction false} WrapSum(x: nat, k: nat, m: nat)
    requires m > 0
    ensures Wrap(Wrap(x, m) + k, m) == Wrap(x + k, m)
    decreases x
  {
    if x >= m {
      WrapSum(x - m, k, m);
    }
  }

  lemma {:induction false} WrapHalf(x: nat, d: nat)
    requires d > 0
    ensures Wrap(Wrap(x, 2 * d), d) == Wrap(x, d)
    decreases x
  {
    if x >= 2 * d {
      WrapHalf(x - 2 * d, d);
      assert Wrap(x - d, d) == Wrap(x - 2 * d, d);
    }
  }

  /** The full test: exactly when the pointers are DEPTH apart. */
  lemma FullTest(w: nat, r: nat, a: nat)
    requires a >= 1 && w < Range(a) && r < Range(a)
    ensures Gray(w) == TopInverted(Gray(r), a - 1) <==> w == Wrap(r + Depth(a), Range(a))
  {
    hide Gray, TopInverted;
    HalfwayRound(r, a - 1);
    assert r + Depth(a) - Range(a) < Range(a);
    assert Opposite(r, a - 1) == Wrap(r + Depth(a), Range(a));
    if Gray(w) == TopInverted(Gray(r), a - 1) {
      GrayInjective(w, Wrap(r + Depth(a), Range(a)));
    }
  }

  /** A pointer moves by one bit of its code, also when it wraps. */
  lemma OneBit(b: nat, a: nat)
    requires b < Range(a)
    ensures Distance(Gray(b), Gray(Wrap(b + 1, Range(a)))) == 1
  {
    hide Gray, Distance, Depth, Pow2;
    var m := Range(a);
    if b + 1 < m {
      GrayNeighbours(b);
    } else {
      GrayWraps(a + 1);
    }
  }

  /** So a synchroniser catches the pointer before or after the step, and nothing else. */
  lemma CaughtEither(m: nat, n: nat, moved: bool, a: nat)
    requires Mix(m, Gray(Wrap(n, Range(a))), Gray(Wrap(Wrap(n, Range(a)) + if moved then 1 else 0, Range(a))))
    ensures m == Gray(Wrap(n, Range(a))) || (moved && m == Gray(Wrap(n + 1, Range(a))))
  {
    hide Gray, Mix, Distance, Range;
    var b: nat := Wrap(n, Range(a));
    if moved {
      OneBit(b, a);
      WrapSum(n, 1, Range(a));
      MixIsEither(m, Gray(b), Gray(Wrap(b + 1, Range(a))));
    } else {
      WrapSum(n, 0, Range(a));
      MixSame(m, Gray(b));
    }
  }

  // ---------------------------------------------------------------- the invariant

  /** How many writes and reads the synchronisers know of. */
  datatype Known = Known(r1: nat, r2: nat, w1: nat, w2: nat)

  ghost predicate Registers<T>(s: Fifo<T>, w: nat, r: nat, c: Known) {
    var m := Range(s.a);
    && s.wptrBin == Wrap(w, m) && s.wptrGray == Gray(Wrap(w, m)) && s.rptrBin == Wrap(r, m)
    && s.rptrGray == Gray(Wrap(r, m))
    && s.rSync1 == Gray(Wrap(c.r1, m)) && s.rSync2 == Gray(Wrap(c.r2, m))
    && s.wSync1 == Gray(Wrap(c.w1, m)) && s.wSync2 == Gray(Wrap(c.w2, m))
  }

  ghost predicate Ordered(w: nat, r: nat, c: Known, depth: nat) {
    c.r2 <= c.r1 <= r <= c.w2 <= c.w1 <= w < c.r2 + depth
  }

  ghost predicate Stored<T>(s: Fifo<T>, put: seq<T>, r: nat)
    requires |s.mem| == Depth(s.a)
  {
    forall j :: r <= j < |put| ==> StoredAt(s, put, j)
  }

  ghost predicate StoredAt<T>(s: Fifo<T>, put: seq<T>, j: nat)
    requires |s.mem| == Depth(s.a) && j < |put|
  {
    s.mem[Wrap(j, Depth(s.a))] == put[j]
  }

  ghost predicate Inv<T>(s: Fifo<T>, put: seq<T>, taken: seq<T>, c: Known) {
    && s.a >= 2 && |s.mem| == Depth(s.a)
    && Registers(s, |put|, |taken|, c) && Ordered(|put|, |taken|, c, Depth(s.a))
    && taken <= put && Stored(s, put, |taken|)
  }

  /** When the full test can settle, and that it never settles on full. */
  lemma SettledValues<T>(s: Fifo<T>, put: seq<T>, taken: seq<T>, c: Known, winc: bool)
    requires Inv(s, put, taken, c)
    ensures !Settled(s, winc, true)
    ensures Settled(s, winc, false) <==> !winc || |put| + 1 < c.r2 + Depth(s.a)
  {
    hide Gray, Mix, TopInverted, Stored, Wrap;
    var m, k := Range(s.a), if winc then 1 else 0;
    WrapSum(|put|, k, m);
    WrapSum(|put|, 0, m);
    WrapSum(c.r2, Depth(s.a), m);
    FullTest(WptrNext(s, winc, true), Wrap(c.r2, m), s.a);
    FullTest(WptrNext(s, winc, false), Wrap(c.r2, m), s.a);
    if Wrap(|put|, m) == Wrap(c.r2 + Depth(s.a), m) {
      WrapApart(|put|, c.r2 + Depth(s.a), m);
    }
    if Wrap(|put| + k, m) == Wrap(c.r2 + Depth(s.a), m) {
      WrapApart(|put| + k, c.r2 + Depth(s.a), m);
    }
  }

  /** The empty test, as the reader sees it. */
  lemma EmptyTest<T>(s: Fifo<T>, put: seq<T>, taken: seq<T>, c: Known)
    requires Inv(s, put, taken, c)
    ensures Empty(s) <==> |taken| == c.w2
  {
    hide Gray, Stored;
    if Empty(s) {
      GrayInjective(Wrap(|taken|, Range(s.a)), Wrap(c.w2, Range(s.a)));
      WrapApart(|taken|, c.w2, Range(s.a));
    }
  }

  /** Different words in the queue are in different cells; so is the one being written. */
  lemma CellsDiffer<T>(s: Fifo<T>, put: seq<T>, taken: seq<T>, c: Known, j: nat)
    requires Inv(s, put, taken, c) && |taken| <= j < |put|
    ensures Wrap(j, Depth(s.a)) != Wrap(|put|, Depth(s.a))
  {
    hide Gray;
    if Wrap(j, Depth(s.a)) == Wrap(|put|, Depth(s.a)) {
      WrapApart(j, |put|, Depth(s.a));
    }
  }

  // ---------------------------------------------------------------- one event

  lemma WriteKeeps<T>(s: Fifo<T>, put: seq<T>, taken: seq<T>, c: Known, winc: bool, wfull: bool, wdata: T, rSample: nat)
    requires Inv(s, put, taken, c) && Settled(s, winc, wfull) && rSample == s.rptrGray
    ensures var put' := put + if winc && !wfull then [wdata] else [];
            Inv(WriteEdge(s, winc, wfull, wdata, rSample), put', taken, c.(r1 := |taken|, r2 := c.r1))
  {
    hide Gray, Stored;
    SettledValues(s, put, taken, c, winc);
    WrapSum(|put|, 0, Range(s.a));
    WrapSum(|put|, 1, Range(s.a));
    StoredAfterWrite(s, put, taken, c, winc, wfull, wdata, rSample);
  }

  lemma StoredAfterWrite<T>(s: Fifo<T>, put: seq<T>, taken: seq<T>, c: Known, winc: bool, wfull: bool, wdata: T,
                            rSample: nat)
    requires Inv(s, put, taken, c)
    ensures var put' := put + if winc && !wfull then [wdata] else [];
            Stored(WriteEdge(s, winc, wfull, wdata, rSample), put', |taken|)
  {
    hide Gray;
    var put' := put + if winc && !wfull then [wdata] else [];
    var n := WriteEdge(s, winc, wfull, wdata, rSample);
    WrapHalf(|put|, Depth(s.a));
    forall j | |taken| <= j < |put'| ensures StoredAt(n, put', j) {
      if j < |put| {
        assert StoredAt(s, put, j);
        CellsDiffer(s, put, taken, c, j);
      }
    }
  }

  lemma ReadKeeps<T>(s: Fifo<T>, put: seq<T>, taken: seq<T>, c: Known, rinc: bool, wSample: nat, w: nat)
    requires Inv(s, put, taken, c) && c.w1 <= w <= |put| && wSample == Gray(Wrap(w, Range(s.a)))
    ensures var taken' := taken + if rinc && !Empty(s) then [ReadData(s)] else [];
            Inv(ReadEdge(s, rinc, wSample), put, taken', c.(w1 := w, w2 := c.w1))
  {
    hide Gray, Stored;
    EmptyTest(s, put, taken, c);
    WrapSum(|taken|, 0, Range(s.a));
    WrapSum(|taken|, 1, Range(s.a));
    StoredAfterRead(s, put, taken, c, rinc, wSample);
  }

  lemma StoredAfterRead<T>(s: Fifo<T>, put: seq<T>, taken: seq<T>, c: Known, rinc: bool, wSample: nat)
    requires Inv(s, put, taken, c)
    ensures !Empty(s) ==> |taken| < |put| && ReadData(s) == put[|taken|]
    ensures var r := |taken| + if rinc && !Empty(s) then 1 else 0;
            Stored(ReadEdge(s, rinc, wSample), put, r)
  {
    hide Gray;
    EmptyTest(s, put, taken, c);
    WrapHalf(|taken|, Depth(s.a));
    if !Empty(s) {
      assert StoredAt(s, put, |taken|);
    }
    var n := ReadEdge(s, rinc, wSample);
    forall j | |taken| <= j < |put| ensures StoredAt(n, put, j) {
      assert StoredAt(s, put, j);
    }
  }

  /** Both edges at once. The reader's cell is not the one being written. */
  lemma BothKeep<T>(s: Fifo<T>, put: seq<T>, taken: seq<T>, c: Known, e: Event<T>) returns (c': Known)
    requires Inv(s, put, taken, c) && Possible(s, e) && e.Both?
    ensures Inv(Step(s, e), put + PutIn(e), taken + TakenOut(s, e), c')
  {
    hide Gray, Mix, Settled, Stored, Wrap;
    var push, pop := e.winc && !e.wfull, e.rinc && !Empty(s);
    CaughtEither(e.rSample, |taken|, pop, s.a);
    CaughtEither(e.wSample, |put|, push, s.a);
    var w := if e.wSample == Gray(Wrap(|put|, Range(s.a))) then |put| else |put| + 1;
    var r := if e.rSample == Gray(Wrap(|taken|, Range(s.a))) then |taken| else |taken| + 1;
    WriteKeeps(s, put, taken, c, e.winc, e.wfull, e.wdata, s.rptrGray);
    var c1 := c.(r1 := |taken|, r2 := c.r1);
    var n := WriteEdge(s, e.winc, e.wfull, e.wdata, s.rptrGray);
    if !Empty(s) {
      SameWord(s, put, taken, c, e.winc, e.wfull, e.wdata, s.rptrGray);
    }
    ReadKeeps(n, put + PutIn(e), taken, c1, e.rinc, e.wSample, w);
    c' := c1.(w1 := w, w2 := c.w1, r1 := r);
    Resampled(ReadEdge(n, e.rinc, e.wSample), put + PutIn(e), taken + TakenOut(s, e), c'.(r1 := |taken|), e.rSample, r);
    assert Step(s, e) == ReadEdge(n, e.rinc, e.wSample).(rSync1 := e.rSample);
  }

  /** What is read at an edge does not depend on a write at the same edge. */
  lemma SameWord<T>(s: Fifo<T>, put: seq<T>, taken: seq<T>, c: Known, winc: bool, wfull: bool, wdata: T, rSample: nat)
    requires Inv(s, put, taken, c) && !Empty(s)
    ensures ReadData(WriteEdge(s, winc, wfull, wdata, rSample)) == ReadData(s)
    ensures Wrap(s.rptrBin, Depth(s.a)) != Wrap(s.wptrBin, Depth(s.a))
  {
    hide Gray, Stored;
    EmptyTest(s, put, taken, c);
    CellsDiffer(s, put, taken, c, |taken|);
    WrapHalf(|taken|, Depth(s.a));
    WrapHalf(|put|, Depth(s.a));
  }

  /** The first synchroniser may have caught a later read. */
  lemma Resampled<T>(s: Fifo<T>, put: seq<T>, taken: seq<T>, c: Known, sample: nat, r: nat)
    requires Inv(s, put, taken, c) && c.r1 <= r <= |taken| && sample == Gray(Wrap(r, Range(s.a)))
    ensures Inv(s.(rSync1 := sample), put, taken, c.(r1 := r))
  {
    hide Gray;
    forall j | |taken| <= j < |put| ensures StoredAt(s.(rSync1 := sample), put, j) {
      assert StoredAt(s, put, j);
    }
  }

  lemma StepKeeps<T>(s: Fifo<T>, put: seq<T>, taken: seq<T>, c: Known, e: Event<T>) returns (c': Known)
    requires Inv(s, put, taken, c) && Possible(s, e)
    ensures Inv(Step(s, e), put + PutIn(e), taken + TakenOut(s, e), c')
  {
    hide Inv, Settled, Mix;
    KnownBound(s, put, taken, c);
    match e
    case Write(winc, wfull, wdata) =>
      WriteKeeps(s, put, taken, c, winc, wfull, wdata, s.rptrGray);
      c' := c.(r1 := |taken|, r2 := c.r1);
      assert taken + TakenOut(s, e) == taken;
    case Read(rinc) =>
      ReadKeeps(s, put, taken, c, rinc, s.wptrGray, |put|);
      c' := c.(w1 := |put|, w2 := c.w1);
      assert put + PutIn(e) == put;
    case Both(_, _, _, _, _, _) =>
      c' := BothKeep(s, put, taken, c, e);
  }

  lemma KnownBound<T>(s: Fifo<T>, put: seq<T>, taken: seq<T>, c: Known)
    requires Inv(s, put, taken, c)
    ensures c.w1 <= |put| && s.wptrGray == Gray(Wrap(|put|, Range(s.a))) && |s.mem| == Depth(s.a)
    ensures taken <= put && |put| < |taken| + Depth(s.a)
  {
    hide Gray, Stored;
  }

  // ---------------------------------------------------------------- runs

  /** The state after a run. */
  function After<T>(s: Fifo<T>, es: seq<Event<T>>): (n: Fifo<T>)
    requires |s.mem| == Depth(s.a)
    ensures |n.mem| == Depth(s.a) && n.a == s.a
  {
    if es == [] then s else Step(After(s, es[..|es| - 1]), es[|es| - 1])
  }

  ghost predicate PossibleRun<T>(s: Fifo<T>, es: seq<Event<T>>)
    requires |s.mem| == Depth(s.a) && s.a >= 1
  {
    es == [] || (PossibleRun(s, es[..|es| - 1]) && Possible(After(s, es[..|es| - 1]), es[|es| - 1]))
  }

  function AllPutIn<T>(es: seq<Event<T>>): (d: seq<T>) {
    if es == [] then [] else AllPutIn(es[..|es| - 1]) + PutIn(es[|es| - 1])
  }

  function AllTakenOut<T>(s: Fifo<T>, es: seq<Event<T>>): (d: seq<T>)
    requires |s.mem| == Depth(s.a)
  {
    if es == [] then []
    else AllTakenOut(s, es[..|es| - 1]) + TakenOut(After(s, es[..|es| - 1]), es[|es| - 1])
  }

  lemma {:induction false} RunKeeps<T>(a: nat, mem: seq<T>, es: seq<Event<T>>) returns (c: Known)
    requires a >= 2 && |mem| == Depth(a) && PossibleRun(Reset(a, mem), es)
    ensures Inv(After(Reset(a, mem), es), AllPutIn(es), AllTakenOut(Reset(a, mem), es), c)
  {
    hide Possible, Step, PutIn, TakenOut;
    var s := Reset(a, mem);
    if es == [] {
      c := Known(0, 0, 0, 0);
      XorZero(0, 0);
      assert Pow2(a - 2) >= 1;
    } else {
      hide Inv;
      var before := es[..|es| - 1];
      c := RunKeeps(a, mem, before);
      c := StepKeeps(After(s, before), AllPutIn(before), AllTakenOut(s, before), c, es[|es| - 1]);
    }
  }

  /**
   * Safety over every interleaving of the clocks: the words read are a prefix of the words
   * written, and at most DEPTH - 1 are in between.
   */
  lemma Safety<T>(a: nat, mem: seq<T>, es: seq<Event<T>>)
    requires a >= 2 && |mem| == Depth(a) && PossibleRun(Reset(a, mem), es)
    ensures AllTakenOut(Reset(a, mem), es) <= AllPutIn(es)
    ensures |AllPutIn(es)| < |AllTakenOut(Reset(a, mem), es)| + Depth(a)
  {
    hide Inv;
    var c := RunKeeps(a, mem, es);
    KnownBound(After(Reset(a, mem), es), AllPutIn(es), AllTakenOut(Reset(a, mem), es), c);
  }

  /**
   * In every reachable state the full signal never settles high, and does not settle at
   * all when the writer, with `room` words to go by its own knowledge, asks for the last one.
   */
  lemma NeverFull<T>(a: nat, mem: seq<T>, es: seq<Event<T>>, winc: bool) returns (room: nat)
    requires a >= 2 && |mem| == Depth(a) && PossibleRun(Reset(a, mem), es)
    ensures 1 <= room <= Depth(a) - (|AllPutIn(es)| - |AllTakenOut(Reset(a, mem), es)|)
    ensures !Settled(After(Reset(a, mem), es), winc, true)
    ensures Settled(After(Reset(a, mem), es), winc, false) <==> !(winc && room == 1)
  {
    hide Settled;
    var c := RunKeeps(a, mem, es);
    var s := After(Reset(a, mem), es);
    SettledValues(s, AllPutIn(es), AllTakenOut(Reset(a, mem), es), c, winc);
    room := c.r2 + Depth(a) - |AllPutIn(es)|;
  }
}
