/** The per-location rate limiter (cricket/mush/actions.py), on real numbers. */
module TokenBuckets {

  function Min(a: real, b: real): real {
    if a <= b then a else b
  }

  /** The bucket's parameters; `perSeconds <= 0` means it never refills. */
  datatype Rate = Rate(capacity: real, perSeconds: real)

  /** Tokens gained over `elapsed` seconds, before the cap. */
  function Gain(rate: Rate, elapsed: real): real
    requires rate.perSeconds > 0.0
  {
    elapsed * (rate.capacity / rate.perSeconds)
  }

  function Refill(rate: Rate, tokens: real, elapsed: real): real {
    if rate.perSeconds > 0.0 then Min(rate.capacity, tokens + Gain(rate, elapsed)) else tokens
  }

  /** One past request: when it came, and whether it was admitted. */
  datatype Request = Request(at: real, admitted: bool)

  /** The tokens left after the requests, admitting as they say; `start` is when the bucket was made. */
  function Level(rate: Rate, start: real, rs: seq<Request>): real
    decreases |rs|, 0
  {
    if rs == [] then rate.capacity
    else
      var x := Refilled(rate, start, rs[..|rs| - 1], rs[|rs| - 1].at);
      if rs[|rs| - 1].admitted then x - 1.0 else x
  }

  function LastTime(start: real, rs: seq<Request>): real {
    if rs == [] then start else rs[|rs| - 1].at
  }

  /** The tokens a request at `now` finds. */
  function Refilled(rate: Rate, start: real, rs: seq<Request>, now: real): real
    decreases |rs|, 1
  {
    Refill(rate, Level(rate, start, rs), now - LastTime(start, rs))
  }

  /** Every admission was paid for. */
  predicate Servable(rate: Rate, start: real, rs: seq<Request>) {
    rs == [] ||
    (Servable(rate, start, rs[..|rs| - 1])
     && (rs[|rs| - 1].admitted ==> Refilled(rate, start, rs[..|rs| - 1], rs[|rs| - 1].at) >= 1.0))
  }

  /** The requests were answered as the bucket answers: admitted whenever a whole token is there. */
  predicate Greedy(rate: Rate, start: real, rs: seq<Request>) {
    rs == [] ||
    (Greedy(rate, start, rs[..|rs| - 1])
     && (rs[|rs| - 1].admitted <==> Refilled(rate, start, rs[..|rs| - 1], rs[|rs| - 1].at) >= 1.0))
  }

  function Admitted(rs: seq<Request>): nat {
    if rs == [] then 0 else Admitted(rs[..|rs| - 1]) + if rs[|rs| - 1].admitted then 1 else 0
  }

  class TokenBucket {
    const capacity: real
    const perSeconds: real
    var tokens: real
    var last: real
    ghost const start: real
    ghost var history: seq<Request>

    ghost predicate Valid()
      reads this
    {
      var rate := Rate(capacity, perSeconds);
      && tokens == Level(rate, start, history)
      && last == LastTime(start, history)
      && Greedy(rate, start, history)
    }

    constructor (count: int, per: real, now: real)
      ensures Valid() && history == [] && start == now
      ensures capacity == count as real && perSeconds == per
    {
      capacity, perSeconds := count as real, per;
      tokens, last := count as real, now;
      start, history := now, [];
    }

    /** Answer one request at clock reading `now`. */
    method Allow(now: real) returns (ok: bool)
      requires Valid()
      modifies this
      ensures Valid() && history == old(history) + [Request(now, ok)]
      ensures ok <==> Refill(Rate(capacity, perSeconds), old(tokens), now - old(last)) >= 1.0
    {
      var elapsed := now - last;
      last := now;
      if perSeconds > 0.0 {
        tokens := Min(capacity, tokens + Gain(Rate(capacity, perSeconds), elapsed));
      }
      ok := tokens >= 1.0;
      if ok {
        tokens := tokens - 1.0;
      }
      history := history + [Request(now, ok)];
    }
  }

  // ----- greedy admission is optimal

  predicate SameTimes(rs: seq<Request>, other: seq<Request>) {
    |rs| == |other| && forall i :: 0 <= i < |rs| ==> rs[i].at == other[i].at
  }

  /** Refilling the two buckets by the same amount keeps the balance between them. */
  lemma RefillBalance(rate: Rate, x: real, y: real, lead: real, elapsed: real)
    requires x + lead >= y && lead >= 0.0
    ensures Refill(rate, x, elapsed) + lead >= Refill(rate, y, elapsed)
  {
  }

  /** For any request times whatever, the bucket has admitted at least as many requests as any
      other choice that the same refill could serve, and what it holds makes up the difference. */
  lemma {:induction false} GreedyIsOptimal(rate: Rate, start: real, rs: seq<Request>, other: seq<Request>)
    requires Greedy(rate, start, rs) && Servable(rate, start, other) && SameTimes(rs, other)
    ensures Admitted(rs) >= Admitted(other)
    ensures Level(rate, start, rs) + (Admitted(rs) - Admitted(other)) as real >= Level(rate, start, other)
  {
    if rs != [] {
      var front, front' := rs[..|rs| - 1], other[..|other| - 1];
      GreedyIsOptimal(rate, start, front, front');
      assert LastTime(start, front) == LastTime(start, front');
      RefillBalance(rate, Level(rate, start, front), Level(rate, start, front'),
        (Admitted(front) - Admitted(front')) as real, rs[|rs| - 1].at - LastTime(start, front));
    }
  }

  // ----- rate and burst

  /** The clock never runs backwards. */
  predicate Monotone(start: real, rs: seq<Request>) {
    rs == [] || (Monotone(start, rs[..|rs| - 1]) && LastTime(start, rs[..|rs| - 1]) <= rs[|rs| - 1].at)
  }

  lemma {:induction false} LevelBounds(rate: Rate, start: real, rs: seq<Request>)
    requires rate.capacity >= 0.0 && Greedy(rate, start, rs) && Monotone(start, rs)
    ensures 0.0 <= Level(rate, start, rs) <= rate.capacity
  {
    if rs != [] {
      var front := rs[..|rs| - 1];
      LevelBounds(rate, start, front);
      if rate.perSeconds > 0.0 {
        GainNonNegative(rate, rs[|rs| - 1].at - LastTime(start, front));
      }
    }
  }

  lemma GainNonNegative(rate: Rate, elapsed: real)
    requires rate.capacity >= 0.0 && rate.perSeconds > 0.0 && elapsed >= 0.0
    ensures Gain(rate, elapsed) >= 0.0
  {
    assert rate.capacity / rate.perSeconds >= 0.0;
  }

  lemma GainAdds(rate: Rate, a: real, b: real)
    requires rate.perSeconds > 0.0
    ensures Gain(rate, a + b) == Gain(rate, a) + Gain(rate, b)
  {
  }

  /** What the bucket can give over a span of `elapsed` seconds, beyond what it holds. */
  function Allowance(rate: Rate, elapsed: real): real {
    if rate.perSeconds > 0.0 then Gain(rate, elapsed) else 0.0
  }

  /** From request `i` on: admissions are paid by the tokens found there and the refill since. */
  lemma {:induction false} SpentFromWindow(rate: Rate, start: real, rs: seq<Request>, i: nat)
    requires rate.capacity >= 0.0 && Greedy(rate, start, rs) && Monotone(start, rs) && i < |rs|
    ensures rs[i].at <= LastTime(start, rs)
    ensures (Admitted(rs) - Admitted(rs[..i])) as real + Level(rate, start, rs)
      <= rate.capacity + Allowance(rate, LastTime(start, rs) - rs[i].at)
  {
    var front, last := rs[..|rs| - 1], rs[|rs| - 1];
    if i == |rs| - 1 {
      assert rs[..i] == front;
      LevelBounds(rate, start, front);
      if rate.perSeconds > 0.0 {
        assert Gain(rate, 0.0) == 0.0;
      }
    } else {
      SpentFromWindow(rate, start, front, i);
      assert front[..i] == rs[..i];
      if rate.perSeconds > 0.0 {
        GainAdds(rate, LastTime(start, front) - rs[i].at, last.at - LastTime(start, front));
      }
    }
  }

  lemma WindowAllowance(rate: Rate, start: real, rs: seq<Request>, i: nat)
    requires rate.capacity >= 0.0 && Greedy(rate, start, rs) && Monotone(start, rs) && i < |rs|
    ensures (Admitted(rs) - Admitted(rs[..i])) as real
      <= rate.capacity + Allowance(rate, rs[|rs| - 1].at - rs[i].at)
  {
    SpentFromWindow(rate, start, rs, i);
    LevelBounds(rate, start, rs);
  }

  /** `n` is at most a full bucket and `capacity` every `perSeconds` between the two clock readings. */
  predicate WithinRate(rate: Rate, n: int, from: real, to: real) {
    n as real <= rate.capacity + if rate.perSeconds > 0.0 then (to - from) * rate.capacity / rate.perSeconds else 0.0
  }

  lemma AllowanceIs(rate: Rate, n: int, from: real, to: real)
    requires n as real <= rate.capacity + Allowance(rate, to - from)
    ensures WithinRate(rate, n, from, to)
  {
  }

  /** Over any consecutive requests, the number admitted is at most a full bucket plus the refill
      of the time between the first and the last of them. */
  lemma WindowBound(rate: Rate, start: real, rs: seq<Request>, i: nat)
    requires rate.capacity >= 0.0 && Greedy(rate, start, rs) && Monotone(start, rs) && i < |rs|
    ensures WithinRate(rate, Admitted(rs) - Admitted(rs[..i]), rs[i].at, rs[|rs| - 1].at)
  {
    WindowAllowance(rate, start, rs, i);
    AllowanceIs(rate, Admitted(rs) - Admitted(rs[..i]), rs[i].at, rs[|rs| - 1].at);
  }

  /** The refill from below: a request that comes a token's worth of time after the one before it, or
      after the start, is admitted. */
  lemma {:induction false} SpacedIsAdmitted(rate: Rate, start: real, rs: seq<Request>, i: nat)
    requires rate.capacity >= 1.0 && rate.perSeconds > 0.0
    requires Greedy(rate, start, rs) && Monotone(start, rs) && i < |rs|
    requires rs[i].at - (if i == 0 then start else rs[i - 1].at) >= rate.perSeconds / rate.capacity
    ensures rs[i].admitted
  {
    var front := rs[..|rs| - 1];
    if i < |front| {
      SpacedIsAdmitted(rate, start, front, i);
    } else {
      LevelBounds(rate, start, front);
      TimeForOne(rate.capacity, rate.perSeconds);
      MoreTime(rate, rs[i].at - LastTime(start, front), rate.perSeconds / rate.capacity);
    }
  }

  lemma TimeForOne(capacity: real, perSeconds: real)
    requires capacity > 0.0 && perSeconds > 0.0
    ensures perSeconds / capacity * (capacity / perSeconds) == 1.0
  {
    var r := capacity / perSeconds;
    assert r * perSeconds == capacity;
  }

  lemma MoreTime(rate: Rate, longer: real, shorter: real)
    requires rate.capacity >= 0.0 && rate.perSeconds > 0.0 && longer >= shorter
    ensures Gain(rate, longer) >= Gain(rate, shorter)
  {
    GainNonNegative(rate, longer - shorter);
    GainAdds(rate, shorter, longer - shorter);
  }

  /** A bucket that was left alone for the whole period is full. */
  lemma FullAfterSilence(rate: Rate, start: real, rs: seq<Request>, now: real)
    requires rate.capacity >= 0.0 && rate.perSeconds > 0.0 && Greedy(rate, start, rs) && Monotone(start, rs)
    requires now - LastTime(start, rs) >= rate.perSeconds
    ensures Refilled(rate, start, rs, now) == rate.capacity
  {
    LevelBounds(rate, start, rs);
    FillsUp(rate, Level(rate, start, rs), now - LastTime(start, rs));
  }

  lemma FillsUp(rate: Rate, tokens: real, elapsed: real)
    requires rate.capacity >= 0.0 && rate.perSeconds > 0.0 && tokens >= 0.0 && elapsed >= rate.perSeconds
    ensures Refill(rate, tokens, elapsed) == rate.capacity
  {
    MoreTime(rate, elapsed, rate.perSeconds);
    assert Gain(rate, rate.perSeconds) == rate.capacity;
  }

  /** A bucket that never refills admits at most its capacity over its whole life. */
  lemma LifetimeBound(rate: Rate, start: real, rs: seq<Request>)
    requires rate.capacity >= 0.0 && Greedy(rate, start, rs) && Monotone(start, rs)
    requires rate.perSeconds <= 0.0
    ensures Admitted(rs) as real <= rate.capacity
  {
    if rs != [] {
      WindowAllowance(rate, start, rs, 0);
      assert rs[..0] == [];
    }
  }
}
