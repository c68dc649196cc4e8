/** `estimate_chunk`: the search for a prefix length whose QR code has the
    requested version, followed by the rebalancing of that length so that
    the chunks come out of similar size.

    The QR encoder is a parameter (`Encoder`). The search loop's only state
    is the prefix length `total`, which stays within 0..|content| while the
    loop runs, so the loop either returns or revisits a length it has
    already probed and from then on repeats forever. The model runs the loop
    until one of the two happens, and reports the second as `Diverges`. */
module Estimate {
  import opened Types

  const InvalidVersionMessage := "Invalid version"
  const EmptyContentMessage := "Invalid empty content"
  /** Panic for an encoder answer with a Micro QR version. */
  const MicroPanic := "micro"
  /** Panic for an encoder error other than `DataTooLong`. */
  const UnexpectedPanic := "should not happen"
  /** Panic of the rebalancing division when the matched length is 0. */
  const DivisionPanic := "attempt to divide by zero"

  /** The number of pieces the rebalancing aims for. */
  function Pieces(len: nat, chunk: nat): nat
    requires chunk >= 1
  {
    len / chunk + 1
  }

  /** The rebalanced chunk size for content of length `len` after a prefix
      of length `chunk` matched the requested version: the smallest size
      `r` with `r * Pieces(len, chunk) > len`. It is never larger than the
      matched prefix. */
  function Rebalance(len: nat, chunk: nat): (r: nat)
    requires 1 <= chunk <= len
    ensures Pieces(len, chunk) >= 2
    ensures 1 <= r <= chunk
    ensures (r - 1) * Pieces(len, chunk) <= len < r * Pieces(len, chunk)
  {
    RebalanceBounds(len, chunk);
    len / Pieces(len, chunk) + 1
  }

  lemma RebalanceBounds(len: nat, chunk: nat)
    requires 1 <= chunk <= len
    ensures Pieces(len, chunk) >= 2
    ensures len / Pieces(len, chunk) + 1 <= chunk
    ensures (len / Pieces(len, chunk)) * Pieces(len, chunk) <= len < (len / Pieces(len, chunk) + 1) * Pieces(len, chunk)
  {
    var p := Pieces(len, chunk);
    var q := len / chunk;
    assert len == q * chunk + len % chunk;
    assert len < p * chunk;
    var r := len / p;
    assert len == r * p + len % p;
  }

  /** One pass of the search loop. */
  datatype Step = Next(total: nat) | Done(outcome: Outcome<nat, string>)

  /** One iteration of the loop body, probing the prefix of length `total`:
      `Next(t)` when the loop goes round again with `t`, `Done(o)` when the
      function returns (or panics) with `o`. */
  function LoopStep(content: seq<u8>, desired: int, encode: Encoder, total: nat): (s: Step)
    requires 0 < |content| && total <= |content|
    ensures s.Next? ==> s.total < |content|
    ensures s.Done? && s.outcome.Ok? ==> 0 < s.outcome.value <= |content|
  {
    match encode(content[..total])
    case Encoded(Micro(_)) => Done(Panic(MicroPanic))
    case Encoded(Normal(width)) =>
      if width < desired && total >= |content| then Done(Ok(|content|))
      else if width == desired then
        (if total == 0 then Done(Panic(DivisionPanic)) else Done(Ok(Rebalance(|content|, total))))
      else
        var next := if width > desired then total / 2 else total * 3 / 2;
        if next >= |content| then Done(Ok(|content|)) else Next(next)
    case Failed(DataTooLong) => Next(total / 2)
    case Failed(_) => Done(Panic(UnexpectedPanic))
  }

  /** The loop's state after `n` iterations started from `total`. */
  function Run(content: seq<u8>, desired: int, encode: Encoder, total: nat, n: nat): (s: Step)
    requires 0 < |content| && total <= |content|
    ensures s.Next? ==> s.total <= |content|
    ensures s.Done? && s.outcome.Ok? ==> 0 < s.outcome.value <= |content|
    decreases n
  {
    if n == 0 then Next(total)
    else
      match LoopStep(content, desired, encode, total)
      case Done(o) => Done(o)
      case Next(t) => Run(content, desired, encode, t, n - 1)
  }

  /** The search, started from the whole length as the source does, returns `o`. */
  ghost predicate Returns(content: seq<u8>, desired: int, encode: Encoder, o: Outcome<nat, string>)
    requires 0 < |content|
  {
    exists n: nat :: Run(content, desired, encode, |content|, n) == Done(o)
  }

  /** The search, started from the whole length, never returns. */
  ghost predicate LoopsForever(content: seq<u8>, desired: int, encode: Encoder)
    requires 0 < |content|
  {
    forall n: nat :: Run(content, desired, encode, |content|, n).Next?
  }

  /** `estimate_chunk(content, desired_version)` with `encode` for `QrCode::new`. */
  method EstimateChunk(content: seq<u8>, desired: u8, encode: Encoder) returns (r: Outcome<nat, string>)
    ensures desired == 0 || desired > 40 ==> r == Err(InvalidVersionMessage)
    ensures 1 <= desired <= 40 && |content| == 0 ==> r == Err(EmptyContentMessage)
    ensures r.Err? <==> desired == 0 || desired > 40 || |content| == 0
    ensures 1 <= desired <= 40 && |content| > 0 ==>
              (r == Diverges <==> LoopsForever(content, desired, encode))
              && (r != Diverges ==> Returns(content, desired, encode, r))
  {
    if desired == 0 || desired > 40 {
      return Err(InvalidVersionMessage);
    }
    if |content| == 0 {
      return Err(EmptyContentMessage);
    }
    ghost var start, period;
    r, start, period := Search(content, desired, encode);
    if r == Diverges {
      CycleForever(content, desired, encode, start, period);
    }
  }

  /** The search loop of `estimate_chunk` and the rebalancing after it,
      from `let mut total = content.len()` on. */
  method Search(content: seq<u8>, desired: int, encode: Encoder)
    returns (r: Outcome<nat, string>, ghost start: nat, ghost period: nat)
    requires 0 < |content|
    ensures !r.Err?
    ensures r == Diverges ==> Cycles(content, desired, encode, start, period)
    ensures r != Diverges ==> Returns(content, desired, encode, r)
  {
    start, period := 0, 0;
    var total: nat := |content|;
    var chunkSize := 0;
    var matched := false;
    var visited: set<nat> := {};
    ghost var steps: nat := 0;
    ghost var seenAt: map<nat, nat> := map[];
    while total !in visited
      invariant total <= |content|
      invariant Run(content, desired, encode, |content|, steps) == Next(total)
      invariant visited == seenAt.Keys
      invariant Trail(content, desired, encode, seenAt, steps)
      decreases |content| + 1 - |visited|
    {
      TrailExtend(content, desired, encode, seenAt, steps, total);
      visited := visited + {total};
      seenAt := seenAt[total := steps];
      RunSucc(content, desired, encode, |content|, steps);
      ghost var step := LoopStep(content, desired, encode, total);
      match encode(content[..total]) {
        case Encoded(Micro(_)) =>
          r := Panic(MicroPanic);
          Stopped(content, desired, encode, steps + 1, r);
          return;
        case Encoded(Normal(width)) =>
          if width < desired && total >= |content| {
            r := Ok(|content|);
            Stopped(content, desired, encode, steps + 1, r);
            return;
          }
          if width == desired {
            chunkSize := total;
            matched := true;
            break;
          }
          total := if width > desired then total / 2 else total * 3 / 2;
          if total >= |content| {
            r := Ok(|content|);
            Stopped(content, desired, encode, steps + 1, r);
            return;
          }
        case Failed(DataTooLong) =>
          total := total / 2;
        case Failed(_) =>
          r := Panic(UnexpectedPanic);
          Stopped(content, desired, encode, steps + 1, r);
          return;
      }
      assert step == Next(total);
      steps := steps + 1;
    }
    if !matched {
      start := seenAt[total];
      period := steps - start;
      TrailCycle(content, desired, encode, seenAt, steps, total);
      return Diverges, start, period;
    }
    if chunkSize == 0 {
      r := Panic(DivisionPanic);
    } else {
      r := Ok(Rebalance(|content|, chunkSize));
    }
    Stopped(content, desired, encode, steps + 1, r);
  }

  /** Every length in `seenAt` is one the loop was at, at the iteration
      recorded for it, before iteration `steps`. */
  ghost predicate Trail(content: seq<u8>, desired: int, encode: Encoder, seenAt: map<nat, nat>, steps: nat)
    requires 0 < |content|
  {
    forall t :: t in seenAt ==>
      t <= |content| && seenAt[t] < steps && Run(content, desired, encode, |content|, seenAt[t]) == Next(t)
  }

  /** Recording the current length keeps the trail, and the trail stays
      small enough for the loop's measure. */
  lemma TrailExtend(content: seq<u8>, desired: int, encode: Encoder, seenAt: map<nat, nat>, steps: nat, total: nat)
    requires 0 < |content| && Trail(content, desired, encode, seenAt, steps)
    requires total <= |content| && Run(content, desired, encode, |content|, steps) == Next(total)
    ensures Trail(content, desired, encode, seenAt[total := steps], steps + 1)
    ensures |seenAt.Keys + {total}| <= |content| + 1
    ensures (seenAt[total := steps]).Keys == seenAt.Keys + {total}
  {
    var extended := seenAt[total := steps];
    forall t | t in extended
      ensures t <= |content| && extended[t] < steps + 1
      ensures Run(content, desired, encode, |content|, extended[t]) == Next(t)
    {
      if t != total {
        assert extended[t] == seenAt[t];
      }
    }
    assert extended.Keys == seenAt.Keys + {total};
    BoundedSetSize(seenAt.Keys + {total}, |content|);
  }

  /** Coming back to a recorded length is a cycle. */
  lemma TrailCycle(content: seq<u8>, desired: int, encode: Encoder, seenAt: map<nat, nat>, steps: nat, total: nat)
    requires 0 < |content| && Trail(content, desired, encode, seenAt, steps)
    requires total in seenAt && Run(content, desired, encode, |content|, steps) == Next(total)
    ensures Cycles(content, desired, encode, seenAt[total], steps - seenAt[total])
  {
  }

  /** A return after `n` iterations is what the search returns. */
  lemma Stopped(content: seq<u8>, desired: int, encode: Encoder, n: nat, o: Outcome<nat, string>)
    requires 0 < |content| && Run(content, desired, encode, |content|, n) == Done(o)
    ensures Returns(content, desired, encode, o)
  {
  }

  /** A set of numbers no larger than `n` has at most `n + 1` elements. */
  lemma {:induction false} BoundedSetSize(s: set<nat>, n: nat)
    requires forall t :: t in s ==> t <= n
    ensures |s| <= n + 1
  {
    var rest := s - {n};
    if n == 0 {
      assert rest == {};
    } else {
      BoundedSetSize(rest, n - 1);
    }
    if n in s {
      assert s == rest + {n};
    } else {
      assert s == rest;
    }
  }

  /** Running `a` iterations and then `b` more is running `a + b`. */
  lemma {:induction false} RunAdd(content: seq<u8>, desired: int, encode: Encoder, total: nat, a: nat, b: nat)
    requires 0 < |content| && total <= |content|
    ensures Run(content, desired, encode, total, a + b) ==
              match Run(content, desired, encode, total, a)
              case Next(t) => Run(content, desired, encode, t, b)
              case Done(o) => Done(o)
    decreases a
  {
    if a > 0 {
      match LoopStep(content, desired, encode, total)
      case Done(o) =>
      case Next(t) => RunAdd(content, desired, encode, t, a - 1, b);
    }
  }

  /** One more iteration after `n`. */
  lemma RunSucc(content: seq<u8>, desired: int, encode: Encoder, total: nat, n: nat)
    requires 0 < |content| && total <= |content|
    ensures Run(content, desired, encode, total, n + 1) ==
              match Run(content, desired, encode, total, n)
              case Next(t) => LoopStep(content, desired, encode, t)
              case Done(o) => Done(o)
  {
    RunAdd(content, desired, encode, total, n, 1);
  }

  /** Once the loop has returned, later counts see the same return. */
  lemma RunDoneStays(content: seq<u8>, desired: int, encode: Encoder, total: nat, n: nat, m: nat)
    requires 0 < |content| && total <= |content|
    requires Run(content, desired, encode, total, n).Done? && n <= m
    ensures Run(content, desired, encode, total, m) == Run(content, desired, encode, total, n)
  {
    RunAdd(content, desired, encode, total, n, m - n);
  }

  /** A length the loop comes back to after `p` iterations is never left for a return. */
  lemma {:induction false} CycleNeverStops(content: seq<u8>, desired: int, encode: Encoder, total: nat, p: nat, n: nat)
    requires 0 < |content| && total <= |content| && 0 < p
    requires Run(content, desired, encode, total, p) == Next(total)
    ensures Run(content, desired, encode, total, n).Next?
    decreases n
  {
    if n < p {
      if Run(content, desired, encode, total, n).Done? {
        RunDoneStays(content, desired, encode, total, n, p);
      }
    } else {
      RunAdd(content, desired, encode, total, p, n - p);
      CycleNeverStops(content, desired, encode, total, p, n - p);
    }
  }

  /** Started from the whole length, the loop is at the same length after
      `j` and after `j + p` iterations, with `p > 0`. */
  ghost predicate Cycles(content: seq<u8>, desired: int, encode: Encoder, j: nat, p: nat)
    requires 0 < |content|
  {
    0 < p && Run(content, desired, encode, |content|, j).Next?
    && Run(content, desired, encode, |content|, j + p) == Run(content, desired, encode, |content|, j)
  }

  /** A loop that comes back to a length it has been at never returns. */
  lemma CycleForever(content: seq<u8>, desired: int, encode: Encoder, j: nat, p: nat)
    requires 0 < |content| && Cycles(content, desired, encode, j, p)
    ensures LoopsForever(content, desired, encode)
  {
    var total := Run(content, desired, encode, |content|, j).total;
    RunAdd(content, desired, encode, |content|, j, p);
    forall n: nat ensures Run(content, desired, encode, |content|, n).Next? {
      if n <= j {
        if Run(content, desired, encode, |content|, n).Done? {
          RunDoneStays(content, desired, encode, |content|, n, j);
        }
      } else {
        RunAdd(content, desired, encode, |content|, j, n - j);
        CycleNeverStops(content, desired, encode, total, p, n - j);
      }
    }
  }

  /** The probe answer "a normal code of a version below `desired`". */
  predicate BelowTarget(answer: EncodeResult, desired: int)
  {
    answer.Encoded? && answer.version.Normal? && answer.version.n < desired
  }

  /** An encoder the program is written for: every non-empty prefix of
      `content` is encoded as a normal code or is too long, and one byte
      fits a version 1 code. */
  ghost predicate Conforming(content: seq<u8>, encode: Encoder)
    requires 0 < |content|
  {
    && encode(content[..1]) == Encoded(Normal(1))
    && forall k :: 1 <= k <= |content| ==>
         encode(content[..k]) == Failed(DataTooLong) || (encode(content[..k]).Encoded? && encode(content[..k]).version.Normal?)
  }

  /** Whatever the encoder, a chunk size returned by the search is between
      1 and the content length. */
  lemma OkWithinContent(content: seq<u8>, desired: int, encode: Encoder, k: nat)
    requires 0 < |content| && Returns(content, desired, encode, Ok(k))
    ensures 0 < k <= |content|
  {
    var n: nat :| Run(content, desired, encode, |content|, n) == Done(Ok(k));
  }

  /** When one byte fits a version 1 code, `total` never drops to 0: it
      stays within 1..|content| and the rebalancing never divides by zero.
      When the encoder is conforming, every return is an `Ok`. */
  lemma {:induction false} TotalStaysPositive(content: seq<u8>, desired: int, encode: Encoder, total: nat, n: nat)
    requires 0 < |content| && 1 <= desired && 1 <= total <= |content|
    requires encode(content[..1]) == Encoded(Normal(1))
    ensures Run(content, desired, encode, total, n).Next? ==> 1 <= Run(content, desired, encode, total, n).total <= |content|
    ensures Run(content, desired, encode, total, n).Done? ==> Run(content, desired, encode, total, n).outcome != Panic(DivisionPanic)
    ensures Conforming(content, encode) && Run(content, desired, encode, total, n).Done? ==>
              Run(content, desired, encode, total, n).outcome.Ok?
    decreases n
  {
    if n > 0 {
      match LoopStep(content, desired, encode, total)
      case Done(o) =>
      case Next(t) =>
        TotalStaysPositive(content, desired, encode, t, n - 1);
    }
  }

  /** With a conforming encoder, the search either loops forever or returns
      a chunk size between 1 and the content length; it never panics. */
  lemma ConformingReturnsOk(content: seq<u8>, desired: int, encode: Encoder, o: Outcome<nat, string>)
    requires 0 < |content| && 1 <= desired && Conforming(content, encode)
    requires Returns(content, desired, encode, o)
    ensures o.Ok? && 0 < o.value <= |content|
  {
    var n: nat :| Run(content, desired, encode, |content|, n) == Done(o);
    TotalStaysPositive(content, desired, encode, |content|, n);
  }

  /** The whole content fits in a code below the requested version: the
      search returns the content length after the first probe. */
  lemma FullContentFits(content: seq<u8>, desired: int, encode: Encoder)
    requires 0 < |content| && BelowTarget(encode(content), desired)
    ensures Run(content, desired, encode, |content|, 1) == Done(Ok(|content|))
    ensures Returns(content, desired, encode, Ok(|content|))
  {
    assert content[..|content|] == content;
    Stopped(content, desired, encode, 1, Ok(|content|));
  }

  /** Where a returned chunk size comes from: either it is the rebalanced
      length of a prefix whose code has exactly the requested version, or it
      is the whole content length and the last probe reported a version
      below the target, at the whole length or at a length that grown by
      half reaches the content length. */
  lemma {:induction false} OkOrigin(content: seq<u8>, desired: int, encode: Encoder, total: nat, n: nat, k: nat)
    requires 0 < |content| && total <= |content|
    requires Run(content, desired, encode, total, n) == Done(Ok(k))
    ensures (exists m :: 1 <= m <= |content| && encode(content[..m]) == Encoded(Normal(desired)) && k == Rebalance(|content|, m))
            || (k == |content| && exists m :: 0 <= m <= |content| && BelowTarget(encode(content[..m]), desired)
                                              && (m == |content| || m * 3 / 2 >= |content|))
    decreases n
  {
    match LoopStep(content, desired, encode, total) {
      case Done(o) =>
        match encode(content[..total]) {
          case Encoded(Normal(width)) =>
            if width == desired && !(width < desired && total >= |content|) {
              assert k == Rebalance(|content|, total);
            } else {
              assert k == |content| && BelowTarget(encode(content[..total]), desired);
            }
        }
      case Next(t) =>
        OkOrigin(content, desired, encode, t, n - 1, k);
    }
  }

  /** The search can run forever: three bytes, version 2 requested, and an
      encoder that puts the three bytes in a version 3 code and anything
      shorter in a version 1 code. The loop halves to 1, and growing 1 by
      half gives 1 again. */
  lemma SearchCanLoopForever()
    ensures var e: Encoder := (s: seq<u8>) => Encoded(Normal(if |s| == 3 then 3 else 1));
            LoopsForever([120, 120, 120], 2, e)
  {
    var e: Encoder := (s: seq<u8>) => Encoded(Normal(if |s| == 3 then 3 else 1));
    var c: seq<u8> := [120, 120, 120];
    assert Run(c, 2, e, 1, 1) == Next(1);
    assert Run(c, 2, e, 3, 1) == Next(1);
    RunAdd(c, 2, e, 3, 1, 1);
    CycleForever(c, 2, e, 1, 1);
  }

  /** The exit taken when growing `total` reaches the content length
      returns the whole length without probing it again, even when the
      first probe of the whole content reported a version above the
      target: four bytes, version 2 requested, the four bytes need a
      version 3 code and anything shorter fits version 1. */
  lemma GrowthExitIgnoresFullProbe()
    ensures var e: Encoder := (s: seq<u8>) => Encoded(Normal(if |s| == 4 then 3 else 1));
            && e([120, 120, 120, 120]) == Encoded(Normal(3))
            && Returns([120, 120, 120, 120], 2, e, Ok(4))
  {
    var e: Encoder := (s: seq<u8>) => Encoded(Normal(if |s| == 4 then 3 else 1));
    var c: seq<u8> := [120, 120, 120, 120];
    assert c[..4] == c;
    assert LoopStep(c, 2, e, 4) == Next(2);
    assert LoopStep(c, 2, e, 2) == Next(3);
    assert LoopStep(c, 2, e, 3) == Done(Ok(4));
    assert Run(c, 2, e, 3, 1) == Done(Ok(4));
    assert Run(c, 2, e, 2, 2) == Done(Ok(4));
    Stopped(c, 2, e, 3, Ok(4));
  }

  /** When the whole content encodes at exactly the requested version, the
      first probe matches with `total == len`, so the rebalancing splits the
      content in two: the result is `len / 2 + 1`, which is below the length
      (two codes where one would do) as soon as the content has three bytes. */
  lemma FullContentMatches(content: seq<u8>, desired: int, encode: Encoder)
    requires 0 < |content| && encode(content) == Encoded(Normal(desired))
    ensures Returns(content, desired, encode, Ok(|content| / 2 + 1))
    ensures |content| >= 3 ==> |content| / 2 + 1 < |content|
  {
    assert content[..|content|] == content;
    assert Pieces(|content|, |content|) == 2;
    assert Run(content, desired, encode, |content|, 1) == Done(Ok(|content| / 2 + 1));
    Stopped(content, desired, encode, 1, Ok(|content| / 2 + 1));
  }

  /** Five bytes, version 1, an encoder that answers version 1 for every
      input: the search returns 3, so the content is cut into two codes. */
  lemma FiveBytesSplitInTwo()
    ensures var e: Encoder := (s: seq<u8>) => Encoded(Normal(1));
            Returns([120, 120, 120, 120, 120], 1, e, Ok(3))
  {
    var e: Encoder := (s: seq<u8>) => Encoded(Normal(1));
    FullContentMatches([120, 120, 120, 120, 120], 1, e);
  }
}
