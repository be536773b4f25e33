/** A model of the achievement counter widget: one integer state cell `count`
    that starts at 0, an activation that increments it up to a cap of 10 and
    emits a one-shot celebration event on reaching the cap, and the view
    (button disabled, banner shown) derived from `count` alone. */
module CounterComponent {

  /** The cap; the literal 10 of the component. */
  const Max: int := 10

  function Min(a: int, b: int): int { if a <= b then a else b }

  /** What the `setCount` updater produces for one activation: the new count
      and whether the particle burst (the celebration event) was fired. */
  datatype Outcome = Outcome(count: int, celebrate: bool)

  /** The updater passed to `setCount`: clamp at the cap, otherwise add one,
      and fire the celebration when the new value is exactly the cap. */
  function Step(prev: int): (r: Outcome)
    // the clamp: the count stays put exactly when it is already at or past the cap
    ensures r.count == prev <==> prev >= Max
    // any change is an increment by exactly one
    ensures r.count != prev ==> r.count == prev + 1
    // the count never goes down
    ensures r.count >= prev
    // an activation from within the range keeps the count within the range
    ensures prev <= Max ==> r.count <= Max
    // the celebration fires exactly on the move from 9 to 10
    ensures r.celebrate <==> prev == Max - 1
    ensures r.celebrate <==> r.count != prev && r.count == Max
  {
    if prev >= Max then Outcome(prev, false)
    else
      var newCount := prev + 1;
      Outcome(newCount, newCount == Max)
  }

  /** The `disabled` attribute of the Increment button. */
  predicate Disabled(count: int) { count >= Max }

  /** Whether the congratulations banner is rendered. */
  predicate ShowBanner(count: int) { count == Max }

  /** What the user sees: the number, the button's state and the banner. */
  datatype Screen = Screen(shown: int, buttonDisabled: bool, bannerShown: bool)

  /** The rendered view, a function of `count` only. */
  function Render(count: int): (v: Screen)
    ensures v.shown == count
    // the button lets an activation through exactly when that activation would change the count
    ensures !v.buttonDisabled <==> Step(count).count != count
    // the banner is never shown beside an enabled button
    ensures v.bannerShown ==> v.buttonDisabled
    // within the range the two coincide
    ensures 0 <= count <= Max ==> (v.bannerShown <==> v.buttonDisabled)
  {
    Screen(count, Disabled(count), ShowBanner(count))
  }

  // ---------------------------------------------------------------------
  // Sequences of activations

  /** The count after `n` activations starting from `c`. */
  function Iterate(c: int, n: nat): (r: int)
    decreases n
    ensures r >= c
    ensures c <= Max ==> r <= Max
  {
    if n == 0 then c else Iterate(Step(c).count, n - 1)
  }

  /** How many celebrations `n` activations starting from `c` fire. */
  function Celebrations(c: int, n: nat): nat
    decreases n
  {
    if n == 0 then 0
    else (if Step(c).celebrate then 1 else 0) + Celebrations(Step(c).count, n - 1)
  }

  /** Peeling the last activation instead of the first. */
  lemma {:induction false} IterateSnoc(c: int, n: nat)
    ensures Iterate(c, n + 1) == Step(Iterate(c, n)).count
    ensures Celebrations(c, n + 1) == Celebrations(c, n) + (if Step(Iterate(c, n)).celebrate then 1 else 0)
    decreases n
  {
    if n > 0 {
      IterateSnoc(Step(c).count, n - 1);
    }
  }

  /** `m` activations followed by `k` more are `m + k` activations. */
  lemma {:induction false} IterateAdd(c: int, m: nat, k: nat)
    ensures Iterate(c, m + k) == Iterate(Iterate(c, m), k)
    ensures Celebrations(c, m + k) == Celebrations(c, m) + Celebrations(Iterate(c, m), k)
    decreases m
  {
    if m > 0 {
      IterateAdd(Step(c).count, m - 1, k);
    }
  }

  /** The count never decreases over a longer run. */
  lemma IterateMonotone(c: int, m: nat, n: nat)
    requires m <= n
    ensures Iterate(c, m) <= Iterate(c, n)
  {
    IterateAdd(c, m, n - m);
  }

  /** From any count up to the cap, the count after `n` activations is the
      sum, clamped at the cap. */
  lemma {:induction false} IterateClosedForm(c: int, n: nat)
    requires c <= Max
    ensures Iterate(c, n) == Min(c + n, Max)
    decreases n
  {
    if n > 0 {
      IterateClosedForm(Step(c).count, n - 1);
    }
  }

  /** From any count up to the cap, `n` activations fire one celebration if
      they cross the cap and none otherwise. */
  lemma {:induction false} CelebrationsClosedForm(c: int, n: nat)
    requires c <= Max
    ensures Celebrations(c, n) == if c < Max <= c + n then 1 else 0
    decreases n
  {
    if n > 0 {
      CelebrationsClosedForm(Step(c).count, n - 1);
    }
  }

  /** Past the cap nothing changes and nothing fires. */
  lemma {:induction false} IteratePastCap(c: int, n: nat)
    requires c >= Max
    ensures Iterate(c, n) == c
    ensures Celebrations(c, n) == 0
    decreases n
  {
    if n > 0 {
      IteratePastCap(Step(c).count, n - 1);
    }
  }

  /** Whatever the starting count, a run fires at most one celebration. */
  lemma AtMostOneCelebration(c: int, n: nat)
    ensures Celebrations(c, n) <= 1
  {
    if c <= Max {
      CelebrationsClosedForm(c, n);
    } else {
      IteratePastCap(c, n);
    }
  }

  /** From the initial state 0: the count after `n` activations is min(n, 10)
      and exactly one celebration has fired once `n` reaches 10, none before. */
  lemma FromInitial(n: nat)
    ensures Iterate(0, n) == Min(n, Max)
    ensures Celebrations(0, n) == if n >= Max then 1 else 0
  {
    IterateClosedForm(0, n);
    CelebrationsClosedForm(0, n);
  }

  /** The `k`-th activation of a session (counting from 1) fires the
      celebration exactly when `k` is 10. */
  lemma CelebratesOnTenthActivation(k: nat)
    requires k >= 1
    ensures Step(Iterate(0, k - 1)).celebrate <==> k == Max
  {
    IterateClosedForm(0, k - 1);
  }

  /** The counts a session can reach. */
  ghost predicate Reachable(c: int)
  {
    exists n: nat :: Iterate(0, n) == c
  }

  /** Exactly the counts 0 to 10 are reachable. */
  lemma ReachableIff(c: int)
    ensures Reachable(c) <==> 0 <= c <= Max
  {
    if Reachable(c) {
      var n: nat :| Iterate(0, n) == c;
      IterateClosedForm(0, n);
    }
    if 0 <= c <= Max {
      IterateClosedForm(0, c);
      assert Iterate(0, c) == c;
    }
  }

  /** On reachable counts the button is disabled exactly at the cap, and
      exactly when the banner is shown. */
  lemma ViewOnReachable(c: int)
    requires Reachable(c)
    ensures Disabled(c) <==> c == Max
    ensures Disabled(c) <==> ShowBanner(c)
  {
  }

  // ---------------------------------------------------------------------
  // The component's state cell

  /** The component's `count` cell. The ghost fields record how many
      activations have been applied and how many celebrations have fired. */
  class Counter {
    var count: int
    ghost var activations: nat
    ghost var celebrations: nat

    ghost predicate Valid()
      reads this
    {
      count == Iterate(0, activations) && celebrations == Celebrations(0, activations)
    }

    /** Mounting the component: `useState(0)`. */
    constructor ()
      ensures Valid()
      ensures count == 0 && activations == 0 && celebrations == 0
    {
      count := 0;
      activations := 0;
      celebrations := 0;
    }

    /** `handleClick`: apply the updater to the cell; the result is whether
        the particle burst was fired. */
    method Activate() returns (celebrate: bool)
      requires Valid()
      modifies this
      ensures Valid()
      ensures Outcome(count, celebrate) == Step(old(count))
      ensures activations == old(activations) + 1
      ensures celebrations == old(celebrations) + (if celebrate then 1 else 0)
    {
      IterateSnoc(0, activations);
      var next := Step(count);
      count, celebrate := next.count, next.celebrate;
      activations := activations + 1;
      if celebrate {
        celebrations := celebrations + 1;
      }
    }

    /** The view of the current state. */
    function View(): (v: Screen)
      reads this
      requires Valid()
      ensures v.shown == count && 0 <= count <= Max
      ensures v.buttonDisabled <==> count == Max
      ensures v.bannerShown <==> v.buttonDisabled
    {
      FromInitial(activations);
      Render(count)
    }
  }

  /** A session of `n` activations on a freshly mounted component; returns
      the final count and the number of particle bursts fired. */
  method Session(n: nat) returns (count: int, fired: nat)
    ensures count == Min(n, Max)
    ensures fired == if n >= Max then 1 else 0
  {
    var c := new Counter();
    fired := 0;
    var i := 0;
    while i < n
      invariant 0 <= i <= n
      invariant c.Valid() && c.activations == i
      invariant fired == c.celebrations
    {
      var burst := c.Activate();
      if burst {
        fired := fired + 1;
      }
      i := i + 1;
    }
    count := c.count;
    FromInitial(n);
  }
}
