/** What the growth and shrink policies of rat/src/rat_rdyn.c cost: how many elements a run of pushes
    and pops carries over, depending on how much more than was asked for the allocator grants. */
module RdynCost {
  import opened Numbers

  /** Elements held, room for them, elements carried over by reallocations so far. */
  datatype Cost = Cost(count: nat, cap: nat, relocated: nat)

  datatype Edit = Push(n: nat) | Pop(n: nat)

  /** Whether the array shrinks, and what the allocator grants: `Kept` is an array that keeps its buffer
      when elements are popped, and blocks of any size; `Within` is one that may shrink, and blocks of
      at most (1 + p/q) times the request and `s` elements more. */
  datatype Terms = Kept | Within(p: nat, q: nat, s: nat)

  ghost predicate Near(cap: nat, wanted: nat, p: nat, q: nat, s: nat) {
    wanted <= cap && q * cap <= (q + p) * wanted + q * s
  }

  ghost predicate Room(t: Terms, cap: nat, wanted: nat) {
    match t
    case Kept => wanted <= cap
    case Within(p, q, s) => Near(cap, wanted, p, q, s)
  }

  /** What grow asks for first: half as much again, rounded down. */
  function Wanted(newCount: nat): (cap: nat)
    ensures 2 * cap <= 3 * newCount < 2 * cap + 2
  {
    newCount + newCount / 2
  }

  /** What shrink asks for: a third more than is needed, rounded down. */
  function ShrunkCap(newCount: nat): (cap: nat)
    ensures 3 * cap <= 4 * newCount < 3 * cap + 3
  {
    newCount + newCount / 3
  }

  /** A push whose first request is granted if it needs one. */
  ghost predicate Pushes(t: Terms, c: Cost, n: nat, c': Cost) {
    && c'.count == c.count + n
    && if c'.count <= c.cap then c'.cap == c.cap && c'.relocated == c.relocated
       else Room(t, c'.cap, Wanted(c'.count)) && c'.relocated == c.relocated + c.count
  }

  /** A pop: the buffer stays, because it may or because the request is refused, is given back, or is
      replaced. */
  ghost predicate Pops(t: Terms, c: Cost, n: nat, c': Cost) {
    && n <= c.count && c'.count == c.count - n
    && (|| (c'.cap == c.cap && c'.relocated == c.relocated)
        || (t.Within? && c'.count == c'.cap == 0 && c'.relocated == c.relocated)
        || (t.Within? && Shrinks(t, c, c')))
  }

  ghost predicate Shrinks(t: Terms, c: Cost, c': Cost) {
    && 0 < c'.count <= c.cap / 2
    && Room(t, c'.cap, ShrunkCap(c'.count)) && c'.relocated == c.relocated + c'.count
  }

  ghost predicate Step(t: Terms, c: Cost, edit: Edit, c': Cost) {
    match edit
    case Push(n) => Pushes(t, c, n, c')
    case Pop(n) => Pops(t, c, n, c')
  }

  /** A run of edits on an empty array ends with these costs. */
  ghost predicate Run(t: Terms, edits: seq<Edit>, c: Cost)
    decreases |edits|
  {
    if edits == [] then c == Cost(0, 0, 0)
    else exists before :: Run(t, Front(edits), before) && Step(t, before, Last(edits), c)
  }

  function Front(edits: seq<Edit>): seq<Edit>
    requires edits != []
  {
    edits[..|edits| - 1]
  }

  function Last(edits: seq<Edit>): Edit
    requires edits != []
  {
    edits[|edits| - 1]
  }

  function Pushed(edits: seq<Edit>): nat
    decreases |edits|
  {
    if edits == [] then 0 else Pushed(Front(edits)) + if Last(edits).Push? then Last(edits).n else 0
  }

  function Popped(edits: seq<Edit>): nat
    decreases |edits|
  {
    if edits == [] then 0 else Popped(Front(edits)) + if Last(edits).Pop? then Last(edits).n else 0
  }

  /** No pop takes more than there is. */
  ghost predicate Legal(edits: seq<Edit>) {
    forall i :: 0 <= i <= |edits| ==> Popped(edits[..i]) <= Pushed(edits[..i])
  }

  /** A run is made longer by one more step. */
  lemma {:induction false} RunStep(t: Terms, edits: seq<Edit>, before: Cost, edit: Edit, c: Cost)
    requires Run(t, edits, before) && Step(t, before, edit, c)
    ensures Run(t, edits + [edit], c)
  {
    hide Step;
    assert Front(edits + [edit]) == edits;
  }

  lemma {:induction false} RunCount(t: Terms, edits: seq<Edit>, c: Cost)
    requires Run(t, edits, c)
    ensures c.count == Pushed(edits) - Popped(edits)
    decreases |edits|
  {
    if edits != [] {
      var before :| Run(t, Front(edits), before) && Step(t, before, Last(edits), c);
      RunCount(t, Front(edits), before);
    }
  }

  lemma {:induction false} NothingRun(t: Terms)
    ensures Run(t, [], Cost(0, 0, 0))
  {
  }

  /** A legal run never pops more than there is. */
  lemma {:induction false} EditIsLegal(t: Terms, edits: seq<Edit>, i: nat, c: Cost)
    requires Legal(edits) && i < |edits| && Run(t, edits[..i], c)
    ensures edits[i].Pop? ==> edits[i].n <= c.count
    ensures edits[..i + 1] == edits[..i] + [edits[i]]
  {
    hide Run, Step;
    RunCount(t, edits[..i], c);
    assert Front(edits[..i + 1]) == edits[..i] && Last(edits[..i + 1]) == edits[i];
    assert Popped(edits[..i + 1]) <= Pushed(edits[..i + 1]);
  }

  function Above(a: int, b: int): nat {
    if a >= b then a - b else 0
  }

  // ---- An array that keeps its buffer ----------------------------------------------------------------

  /** Work saved up for the next growth. */
  function Saved(c: Cost): nat {
    Above(3 * c.count, 2 * c.cap)
  }

  lemma {:induction false} KeptStepPays(c: Cost, edit: Edit, c': Cost)
    requires Step(Kept, c, edit, c')
    ensures c'.relocated + Saved(c') <= c.relocated + Saved(c) + if edit.Push? then 3 * edit.n else 0
  {
  }

  lemma {:induction false} KeptRunPays(edits: seq<Edit>, c: Cost)
    requires Run(Kept, edits, c)
    ensures c.relocated + Saved(c) <= 3 * Pushed(edits)
    decreases |edits|
  {
    hide Step, Saved;
    if edits == [] {
      NothingSpent(c);
    } else {
      var before :| Run(Kept, Front(edits), before) && Step(Kept, before, Last(edits), c);
      KeptRunPays(Front(edits), before);
      KeptStepPays(before, Last(edits), c);
    }
  }

  lemma {:induction false} NothingSpent(c: Cost)
    requires c == Cost(0, 0, 0)
    ensures Saved(c) == 0 && SavedExactly(c) == 0
  {
  }

  /** However pushes are sized, and however generous the allocator is: while the buffer is kept when
      elements are popped, at most three elements are relocated for each pushed. */
  lemma {:induction false} AmortisedPush(edits: seq<Edit>, c: Cost)
    requires Run(Kept, edits, c)
    ensures c.relocated <= 3 * Pushed(edits)
  {
    KeptRunPays(edits, c);
  }

  // ---- An exact allocator ----------------------------------------------------------------------------

  /** Work saved up for the next growth or the next shrinking, where the allocator is exact. */
  function SavedExactly(c: Cost): nat {
    Above(4 * c.count, 3 * c.cap + 2) + Above(2 * c.cap, 3 * c.count)
  }

  lemma {:induction false} ExactStepPays(c: Cost, edit: Edit, c': Cost)
    requires Step(Within(0, 1, 0), c, edit, c')
    ensures c'.relocated + SavedExactly(c')
            <= c.relocated + SavedExactly(c) + if edit.Push? then 4 * edit.n else 3 * edit.n
  {
  }

  lemma {:induction false} ExactRunPays(edits: seq<Edit>, c: Cost)
    requires Run(Within(0, 1, 0), edits, c)
    ensures c.relocated + SavedExactly(c) <= 4 * Pushed(edits) + 3 * Popped(edits)
    decreases |edits|
  {
    hide Step, SavedExactly;
    if edits == [] {
      NothingSpent(c);
    } else {
      var before :| Run(Within(0, 1, 0), Front(edits), before) && Step(Within(0, 1, 0), before, Last(edits), c);
      ExactRunPays(Front(edits), before);
      ExactStepPays(before, Last(edits), c);
    }
  }

  /** Where the allocator is exact, any mix of pushes and pops on an array that may shrink relocates at
      most four elements for each pushed and three for each popped. */
  lemma {:induction false} AmortisedExactly(edits: seq<Edit>, c: Cost)
    requires Run(Within(0, 1, 0), edits, c)
    ensures c.relocated <= 4 * Pushed(edits) + 3 * Popped(edits)
  {
    ExactRunPays(edits, c);
  }

  // ---- An allocator that rounds up -------------------------------------------------------------------

  /** A product that the solver need not look into. */
  ghost function Times(m: int, x: int): int {
    m * x
  }

  lemma {:induction false} TimesSum(m: int, a: int, x: int, b: int, y: int)
    ensures Times(m, a * x + b * y) == a * Times(m, x) + b * Times(m, y)
  {
  }

  /** Where `m` times `p` is at most `q`, the sum of q - m * p times as much grows with it. */
  lemma {:induction false} TimesBelow(p: nat, q: nat, m: nat, x: int, y: int)
    requires m * p <= q && x <= y
    ensures Times(q, x) - m * Times(p, x) <= Times(q, y) - m * Times(p, y)
  {
    TimesMonotoneInt(q - m * p, x, y);
  }

  lemma {:induction false} TimesMonotoneInt(k: nat, x: int, y: int)
    requires x <= y
    ensures k * x <= k * y
  {
  }

  lemma {:induction false} NearTimes(p: nat, q: nat, s: nat, cap: nat, w: nat)
    requires Near(cap, w, p, q, s)
    ensures w <= cap && Times(q, cap) <= Times(q, w) + Times(p, w) + Times(q, s)
  {
  }

  /** q - p times as much. */
  ghost function Less(p: nat, q: nat, x: int): int {
    Times(q, x) - Times(p, x)
  }

  /** With that much room for so many elements no work is saved for a shrinking. */
  ghost function Reserve(p: nat, q: nat, s: nat, count: nat): int {
    4 * (Times(q, count) + Times(p, count)) + 3 * Times(q, s)
  }

  /** Work saved up for the next growth and the next shrinking, where blocks are at most (1 + p/q) times
      the request and `s` elements more; 2 * (q - 2 * p) units pay for one relocated element. */
  ghost function SavedWithin(p: nat, q: nat, s: nat, c: Cost): int {
    3 * Less(p, q, Above(4 * c.count, 3 * c.cap + 2)) + Above(3 * Times(q, c.cap), Reserve(p, q, s, c.count))
  }

  /** What is paid for one relocated element, times as many. */
  ghost function Bill(p: nat, q: nat, x: int): int {
    2 * (Times(q, x) - 2 * Times(p, x))
  }

  ghost function Price(p: nat, q: nat, s: nat, edit: Edit): int {
    if edit.Push? then 12 * Less(p, q, edit.n)
    else 4 * (Times(q, edit.n) + Times(p, edit.n)) + 3 * Times(q, s)
  }

  /** An array that must grow has saved up for it. */
  lemma {:induction false} SavedForGrowth(p: nat, q: nat, count: nat, cap: nat, n: nat)
    requires p <= q && count + n > cap
    ensures 3 * Less(p, q, count) <= 3 * Less(p, q, Above(4 * count, 3 * cap + 2)) + 9 * Less(p, q, n)
  {
    hide Times;
    TimesBelow(p, q, 1, count - 3 * n, Above(4 * count, 3 * cap + 2));
    TimesSum(q, 1, count, -3, n);
    TimesSum(p, 1, count, -3, n);
  }

  /** An array that has just grown needs to save little for a shrinking. */
  lemma {:induction false} GrownReserve(p: nat, q: nat, s: nat, cap: nat, count: nat)
    requires Near(cap, Wanted(count), p, q, s)
    ensures 2 * Above(3 * Times(q, cap), Reserve(p, q, s, count)) <= Times(q, count) + Times(p, count)
  {
    var w := Wanted(count);
    NearTimes(p, q, s, cap, w);
    hide Times, Near;
    TimesScaled(q, 2, w, 3, count);
    TimesScaled(p, 2, w, 3, count);
    TimesScaled(q, 0, 0, 1, count);
    TimesScaled(p, 0, 0, 1, count);
  }

  lemma {:induction false} TimesScaled(m: nat, a: nat, x: nat, b: nat, y: nat)
    requires a * x <= b * y
    ensures a * Times(m, x) <= b * Times(m, y)
  {
    TimesSum(m, a, x, 0, 0);
    TimesSum(m, b, y, 0, 0);
    TimesBelow(0, m, 0, a * x, b * y);
  }

  lemma {:induction false} GrowthPays(p: nat, q: nat, s: nat, c: Cost, n: nat, c': Cost)
    requires 2 * p <= q && c'.count == c.count + n > c.cap && Near(c'.cap, Wanted(c'.count), p, q, s)
    ensures Bill(p, q, c.count) + SavedWithin(p, q, s, c') <= SavedWithin(p, q, s, c) + 12 * Less(p, q, n)
  {
    SavedForGrowth(p, q, c.count, c.cap, n);
    GrownReserve(p, q, s, c'.cap, c'.count);
    assert Above(4 * c'.count, 3 * c'.cap + 2) == 0;
    hide Times, Near, Reserve;
    TimesSum(q, 1, c.count, 1, n);
    TimesSum(p, 1, c.count, 1, n);
    TimesBelow(p, q, 2, 0, n);
    TimesBelow(p, q, 2, 0, c.count);
    TimesScaled(p, 0, 0, 1, c.count);
    TimesSum(q, 0, 0, 0, 0);
    TimesSum(p, 0, 0, 0, 0);
  }

  /** A shrunk array has saved nothing, and need not have. */
  lemma {:induction false} ShrunkReserve(p: nat, q: nat, s: nat, c: Cost)
    requires Near(c.cap, ShrunkCap(c.count), p, q, s)
    ensures SavedWithin(p, q, s, c) == 0
  {
    var w := ShrunkCap(c.count);
    NearTimes(p, q, s, c.cap, w);
    assert Above(4 * c.count, 3 * c.cap + 2) == 0;
    hide Times, Near;
    TimesScaled(q, 3, w, 4, c.count);
    TimesScaled(p, 3, w, 4, c.count);
    TimesSum(q, 0, 0, 0, 0);
    TimesSum(p, 0, 0, 0, 0);
  }

  lemma {:induction false} ShrinkPays(p: nat, q: nat, s: nat, c: Cost, n: nat, c': Cost)
    requires 2 * p <= q && c.count == c'.count + n && 2 * c'.count <= c.cap
    requires Near(c'.cap, ShrunkCap(c'.count), p, q, s)
    ensures Bill(p, q, c'.count) + SavedWithin(p, q, s, c')
            <= SavedWithin(p, q, s, c) + 4 * (Times(q, n) + Times(p, n)) + 3 * Times(q, s)
  {
    ShrunkReserve(p, q, s, c');
    hide Times, Near;
    TimesScaled(q, 2, c'.count, 1, c.cap);
    TimesSum(q, 1, c'.count, 1, n);
    TimesSum(p, 1, c'.count, 1, n);
    TimesBelow(p, q, 1, 0, Above(4 * c.count, 3 * c.cap + 2));
    TimesSum(q, 0, 0, 0, 0);
    TimesSum(p, 0, 0, 0, 0);
  }

  lemma {:induction false} KeptPushPays(p: nat, q: nat, s: nat, c: Cost, n: nat, c': Cost)
    requires 2 * p <= q && c'.count == c.count + n && c'.cap == c.cap
    ensures SavedWithin(p, q, s, c') <= SavedWithin(p, q, s, c) + 12 * Less(p, q, n)
  {
    var a, a' := Above(4 * c.count, 3 * c.cap + 2), Above(4 * c'.count, 3 * c'.cap + 2);
    hide Times;
    TimesBelow(p, q, 1, a', a + 4 * n);
    TimesSum(q, 1, a, 4, n);
    TimesSum(p, 1, a, 4, n);
    TimesScaled(q, 1, c.count, 1, c'.count);
    TimesScaled(p, 1, c.count, 1, c'.count);
  }

  lemma {:induction false} KeptPopPays(p: nat, q: nat, s: nat, c: Cost, n: nat, c': Cost)
    requires 2 * p <= q && c.count == c'.count + n && c'.cap == c.cap
    ensures SavedWithin(p, q, s, c') <= SavedWithin(p, q, s, c) + 4 * (Times(q, n) + Times(p, n))
  {
    hide Times;
    TimesBelow(p, q, 1, Above(4 * c'.count, 3 * c'.cap + 2), Above(4 * c.count, 3 * c.cap + 2));
    TimesSum(q, 1, c'.count, 1, n);
    TimesSum(p, 1, c'.count, 1, n);
    TimesScaled(q, 0, 0, 1, n);
    TimesScaled(p, 0, 0, 1, n);
  }

  /** Every step is paid for by its price and by what has been saved. */
  lemma {:induction false} StepPays(p: nat, q: nat, s: nat, c: Cost, edit: Edit, c': Cost)
    requires 2 * p <= q && Step(Within(p, q, s), c, edit, c')
    ensures Bill(p, q, c'.relocated) + SavedWithin(p, q, s, c')
            <= Bill(p, q, c.relocated) + SavedWithin(p, q, s, c) + Price(p, q, s, edit)
  {
    var d := c'.relocated - c.relocated;
    assert 0 <= d && (d == 0 || d == if edit.Push? then c.count else c'.count);
    hide Times, Near, SavedWithin, Less;
    TimesSum(q, 1, c.relocated, 1, d);
    TimesSum(p, 1, c.relocated, 1, d);
    TimesScaled(q, 0, 0, 1, s);
    TimesSum(q, 0, 0, 0, 0);
    TimesSum(p, 0, 0, 0, 0);
    match edit {
      case Push(n) =>
        if c'.count > c.cap {
          GrowthPays(p, q, s, c, n, c');
        } else {
          KeptPushPays(p, q, s, c, n, c');
        }
      case Pop(n) =>
        if c'.cap == c.cap && d == 0 {
          KeptPopPays(p, q, s, c, n, c');
        } else if c'.cap == 0 {
          ClearPays(p, q, s, c, n, c');
        } else {
          ShrinkPays(p, q, s, c, n, c');
        }
    }
  }

  lemma {:induction false} ClearPays(p: nat, q: nat, s: nat, c: Cost, n: nat, c': Cost)
    requires 2 * p <= q && c'.count == c'.cap == 0
    ensures SavedWithin(p, q, s, c') == 0 <= SavedWithin(p, q, s, c) + 4 * (Times(q, n) + Times(p, n))
  {
    hide Times;
    TimesBelow(p, q, 1, 0, Above(4 * c.count, 3 * c.cap + 2));
    TimesScaled(q, 0, 0, 1, s);
    TimesScaled(q, 0, 0, 1, n);
    TimesScaled(p, 0, 0, 1, n);
    TimesSum(q, 0, 0, 0, 0);
    TimesSum(p, 0, 0, 0, 0);
  }

  /** The price of a whole run. */
  ghost function Priced(p: nat, q: nat, s: nat, edits: seq<Edit>): int {
    12 * Less(p, q, Pushed(edits)) + 4 * (Times(q, Popped(edits)) + Times(p, Popped(edits)))
    + 3 * Times(Times(q, s), |edits|)
  }

  lemma {:induction false} PricedStep(p: nat, q: nat, s: nat, edits: seq<Edit>)
    requires edits != [] && p <= q
    ensures Priced(p, q, s, Front(edits)) + Price(p, q, s, Last(edits)) <= Priced(p, q, s, edits)
  {
    var front, n := Front(edits), Last(edits).n;
    hide Times;
    TimesSum(q, 1, Pushed(front), 1, n);
    TimesSum(p, 1, Pushed(front), 1, n);
    TimesSum(q, 1, Popped(front), 1, n);
    TimesSum(p, 1, Popped(front), 1, n);
    TimesOne(Times(q, s), |front|);
    TimesScaled(q, 0, 0, 1, s);
    TimesSum(q, 0, 0, 0, 0);
  }

  lemma {:induction false} TimesOne(m: int, x: int)
    ensures Times(m, x + 1) == Times(m, x) + m
  {
  }

  lemma {:induction false} EmptyRunPays(p: nat, q: nat, s: nat)
    ensures Bill(p, q, 0) + SavedWithin(p, q, s, Cost(0, 0, 0)) == Priced(p, q, s, []) == 0
  {
    hide Times;
    TimesScaled(q, 0, 0, 1, s);
    TimesSum(Times(q, s), 0, 0, 0, 0);
    TimesSum(q, 0, 0, 0, 0);
    TimesSum(p, 0, 0, 0, 0);
  }

  lemma {:induction false} RunPays(p: nat, q: nat, s: nat, edits: seq<Edit>, c: Cost)
    requires 2 * p <= q && Run(Within(p, q, s), edits, c)
    ensures Bill(p, q, c.relocated) + SavedWithin(p, q, s, c) <= Priced(p, q, s, edits)
    decreases |edits|
  {
    hide Times, Step, SavedWithin, Bill, Price, Priced;
    if edits == [] {
      EmptyRunPays(p, q, s);
    } else {
      var before :| Run(Within(p, q, s), Front(edits), before) && Step(Within(p, q, s), before, Last(edits), c);
      RunPays(p, q, s, Front(edits), before);
      StepPays(p, q, s, before, Last(edits), c);
      PricedStep(p, q, s, edits);
    }
  }

  lemma {:induction false} SavesNoLess(p: nat, q: nat, s: nat, c: Cost)
    requires p <= q
    ensures SavedWithin(p, q, s, c) >= 0
  {
    hide Times;
    TimesBelow(p, q, 1, 0, Above(4 * c.count, 3 * c.cap + 2));
    TimesSum(q, 0, 0, 0, 0);
    TimesSum(p, 0, 0, 0, 0);
  }

  /** Where a granted block is at most (1 + p/q) times the request and `s` elements more, and p/q is
      below one half, the elements that any run relocates are bounded by those that it pushes and pops
      and by its length. */
  lemma {:induction false} AmortisedWithin(p: nat, q: nat, s: nat, edits: seq<Edit>, c: Cost)
    requires 2 * p < q && Run(Within(p, q, s), edits, c)
    ensures 2 * (q - 2 * p) * c.relocated
            <= 12 * (q - p) * Pushed(edits) + 4 * (q + p) * Popped(edits) + 3 * (q * s) * |edits|
  {
    RunPays(p, q, s, edits, c);
    SavesNoLess(p, q, s, c);
    hide SavedWithin, Run;
    TimesOut(p, q, s, c.relocated, Pushed(edits), Popped(edits), |edits|);
  }

  lemma {:induction false} TimesOut(p: int, q: int, s: int, x: int, y: int, z: int, n: int)
    ensures 2 * (Times(q, x) - 2 * Times(p, x)) == 2 * (q - 2 * p) * x
    ensures 12 * (Times(q, y) - Times(p, y)) == 12 * (q - p) * y
    ensures 4 * (Times(q, z) + Times(p, z)) == 4 * (q + p) * z
    ensures 3 * Times(Times(q, s), n) == 3 * (q * s) * n
  {
  }

  // ---- Exactly when there is a bound -----------------------------------------------------------------

  /** The elements that a run pushes and pops. */
  function Moved(edits: seq<Edit>): nat {
    Pushed(edits) + Popped(edits)
  }

  ghost predicate BoundedBy(p: nat, q: nat, s: nat, factor: nat) {
    forall edits, c :: Run(Within(p, q, s), edits, c) ==> c.relocated <= factor * (Moved(edits) + |edits|)
  }

  /** The same without regard to the length of the run. */
  ghost predicate BoundedByMoved(p: nat, q: nat, s: nat, factor: nat) {
    forall edits, c :: Run(Within(p, q, s), edits, c) ==> c.relocated <= factor * Moved(edits)
  }

  /** Where blocks are at most (1 + p/q) times the request and `s` elements more, what runs relocate is
      bounded by a multiple of what they push and pop and of their length if and only if p/q is below
      one half. */
  lemma {:induction false} BoundedIffBelowHalf(p: nat, q: nat, s: nat)
    ensures (exists factor: nat :: BoundedBy(p, q, s, factor)) <==> 2 * p < q
  {
    hide BoundedBy;
    if 2 * p < q {
      HasBound(p, q, s);
    } else {
      forall factor: nat
        ensures !BoundedBy(p, q, s, factor)
      {
        HasNoBound(p, q, s, factor);
      }
    }
  }

  /** A multiple of the elements alone is a bound if and only if, besides, nothing is granted on top. */
  lemma {:induction false} BoundedByMovedIffNoSlack(p: nat, q: nat, s: nat)
    ensures (exists factor: nat :: BoundedByMoved(p, q, s, factor)) <==> 2 * p < q && s == 0
  {
    hide BoundedByMoved;
    if 2 * p < q && s == 0 {
      HasBoundByMoved(p, q);
    } else {
      forall factor: nat
        ensures !BoundedByMoved(p, q, s, factor)
      {
        HasNoBoundByMoved(p, q, s, factor);
      }
    }
  }

  /** A factor that the weights of pushes, pops and steps do not exceed. */
  ghost function Factor(p: nat, q: nat, s: nat): nat {
    12 * q + 4 * (q + p) + 3 * (q * s)
  }

  lemma {:induction false} HasBound(p: nat, q: nat, s: nat)
    requires 2 * p < q
    ensures BoundedBy(p, q, s, Factor(p, q, s))
  {
    forall edits, c | Run(Within(p, q, s), edits, c)
      ensures c.relocated <= Factor(p, q, s) * (Moved(edits) + |edits|)
    {
      AmortisedWithin(p, q, s, edits, c);
      hide Run;
      Weighted(p, q, s, c.relocated, Pushed(edits), Popped(edits), |edits|);
    }
  }

  lemma {:induction false} HasBoundByMoved(p: nat, q: nat)
    requires 2 * p < q
    ensures BoundedByMoved(p, q, 0, Factor(p, q, 0))
  {
    forall edits, c | Run(Within(p, q, 0), edits, c)
      ensures c.relocated <= Factor(p, q, 0) * Moved(edits)
    {
      AmortisedWithin(p, q, 0, edits, c);
      hide Run;
      Weighted(p, q, 0, c.relocated, Pushed(edits), Popped(edits), 0);
    }
  }

  lemma {:induction false} Weighted(p: nat, q: nat, s: nat, x: nat, y: nat, z: nat, n: nat)
    requires 2 * p < q && 2 * (q - 2 * p) * x <= 12 * (q - p) * y + 4 * (q + p) * z + 3 * (q * s) * n
    ensures x <= Factor(p, q, s) * (y + z + n)
  {
    var f := Factor(p, q, s);
    TimesMonotone(1, 2 * (q - 2 * p), x);
    TimesMonotone(12 * (q - p), f, y);
    TimesMonotone(4 * (q + p), f, z);
    TimesMonotone(3 * (q * s), f, n);
    hide Factor;
    assert f * (y + z + n) == f * y + f * z + f * n;
  }

  /** A push of `n` elements, and `k` pops of `each`. */
  function PushThenPops(n: nat, k: nat, each: nat): (r: seq<Edit>)
    ensures |r| == 1 + k && Pushed(r) == n && Popped(r) == k * each
  {
    if k == 0 then [Edit.Push(n)]
    else
      var front := PushThenPops(n, k - 1, each);
      var r := front + [Edit.Pop(each)];
      assert Front(r) == front && k * each == (k - 1) * each + each;
      r
  }

  /** What an allocator grants that rounds up by half. */
  function HalfMore(wanted: nat): nat {
    wanted + wanted / 2
  }

  /** Rounding up by half leaves room for twice as many elements, or for one less. */
  lemma {:induction false} HalfMoreDoubles(count: nat)
    requires count > 0
    ensures HalfMore(ShrunkCap(count)) >= 2 * count - 1 && HalfMore(Wanted(count)) >= 2 * count - 1
  {
  }

  lemma {:induction false} HalfMoreIsNear(p: nat, q: nat, s: nat, wanted: nat)
    requires q <= 2 * p
    ensures Near(HalfMore(wanted), wanted, p, q, s)
  {
    TimesMonotone(q, 2 * p, wanted / 2);
    assert 2 * p * (wanted / 2) == p * (2 * (wanted / 2));
    TimesMonotone(2 * (wanted / 2), wanted, p);
  }

  /** What the first `k` pops of one from an array of `n` relocate if each of them replaces the buffer:
      (n - 1) + (n - 2) + ... */
  function Rows(n: nat, k: nat): nat
    requires k < n
  {
    if k == 0 then 0 else Rows(n, k - 1) + n - k
  }

  lemma {:induction false} RowsSum(n: nat, k: nat)
    requires k < n
    ensures 2 * Rows(n, k) == k * (2 * n - k - 1)
  {
    if k > 0 {
      RowsSum(n, k - 1);
      assert k * (2 * n - k - 1) == (k - 1) * (2 * n - k) + 2 * (n - k);
    }
  }

  /** An array of `n` from which `k` have been popped one by one, if blocks are half as large again. */
  function Thinned(n: nat, k: nat): Cost
    requires k < n
  {
    Cost(n - k, HalfMore(if k == 0 then Wanted(n) else ShrunkCap(n - k)), Rows(n, k))
  }

  lemma {:induction false} ThinningRuns(p: nat, q: nat, s: nat, n: nat, k: nat)
    requires q <= 2 * p && k < n
    ensures Run(Within(p, q, s), PushThenPops(n, k, 1), Thinned(n, k))
  {
    hide Near, HalfMore;
    if k == 0 {
      HalfMoreIsNear(p, q, s, Wanted(n));
      RunStep(Within(p, q, s), [], Cost(0, 0, 0), Edit.Push(n), Thinned(n, 0));
    } else {
      ThinningRuns(p, q, s, n, k - 1);
      HalfMoreIsNear(p, q, s, ShrunkCap(n - k));
      HalfMoreDoubles(n - k + 1);
      RunStep(Within(p, q, s), PushThenPops(n, k - 1, 1), Thinned(n, k - 1), Edit.Pop(1), Thinned(n, k));
    }
  }

  lemma {:induction false} RowsOutgrow(factor: nat, n: nat)
    requires n == 6 * factor + 2
    ensures Rows(n, n - 1) > factor * (n + (n - 1) + n) >= factor * (n + (n - 1))
  {
    RowsSum(n, n - 1);
    TimesMonotone(2 * factor, n, 3 * n);
    TimesMonotone(n + (n - 1), n + (n - 1) + n, factor);
  }

  lemma {:induction false} ThinningOutgrows(p: nat, q: nat, s: nat, factor: nat, n: nat, edits: seq<Edit>)
    requires q <= 2 * p && n == 6 * factor + 2 && edits == PushThenPops(n, n - 1, 1)
    ensures Run(Within(p, q, s), edits, Thinned(n, n - 1))
    ensures Thinned(n, n - 1).relocated > factor * (Moved(edits) + |edits|) >= factor * Moved(edits)
  {
    ThinningRuns(p, q, s, n, n - 1);
    assert Moved(edits) == n + (n - 1);
    hide Run, Rows, Moved, PushThenPops;
    RowsOutgrow(factor, n);
  }

  lemma {:induction false} HasNoBound(p: nat, q: nat, s: nat, factor: nat)
    requires q <= 2 * p
    ensures !BoundedBy(p, q, s, factor) && !BoundedByMoved(p, q, s, factor)
  {
    hide Run, Rows, Moved, PushThenPops, Thinned;
    var n := 6 * factor + 2;
    var edits := PushThenPops(n, n - 1, 1);
    ThinningOutgrows(p, q, s, factor, n, edits);
    Exceeded(p, q, s, factor, edits, Thinned(n, n - 1));
    ExceededByMoved(p, q, s, factor, edits, Thinned(n, n - 1));
  }

  lemma {:induction false} Exceeded(p: nat, q: nat, s: nat, factor: nat, edits: seq<Edit>, c: Cost)
    requires Run(Within(p, q, s), edits, c) && c.relocated > factor * (Moved(edits) + |edits|)
    ensures !BoundedBy(p, q, s, factor)
  {
    hide Run, Moved;
  }

  lemma {:induction false} ExceededByMoved(p: nat, q: nat, s: nat, factor: nat, edits: seq<Edit>, c: Cost)
    requires Run(Within(p, q, s), edits, c) && c.relocated > factor * Moved(edits)
    ensures !BoundedByMoved(p, q, s, factor)
  {
    hide Run, Moved;
  }

  /** One element, in blocks with room for two: popping nothing replaces the buffer every time. */
  lemma {:induction false} IdlePopsRun(p: nat, q: nat, s: nat, k: nat)
    requires s > 0
    ensures Run(Within(p, q, s), PushThenPops(1, k, 0), Cost(1, 2, k))
  {
    assert Near(2, 1, p, q, s) by {
      TimesMonotone(1, s, q);
    }
    hide Near;
    if k == 0 {
      RunStep(Within(p, q, s), [], Cost(0, 0, 0), Edit.Push(1), Cost(1, 2, 0));
    } else {
      IdlePopsRun(p, q, s, k - 1);
      RunStep(Within(p, q, s), PushThenPops(1, k - 1, 0), Cost(1, 2, k - 1), Edit.Pop(0), Cost(1, 2, k));
    }
  }

  lemma {:induction false} HasNoBoundByMoved(p: nat, q: nat, s: nat, factor: nat)
    requires q <= 2 * p || s > 0
    ensures !BoundedByMoved(p, q, s, factor)
  {
    if q <= 2 * p {
      HasNoBound(p, q, s, factor);
    } else {
      IdlePopsRun(p, q, s, factor + 1);
      ExceededByMoved(p, q, s, factor, PushThenPops(1, factor + 1, 0), Cost(1, 2, factor + 1));
    }
  }
}
