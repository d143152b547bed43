/**
 The `ConsumeFuzzer` object and its `Split` operation, which carves the
 buffer into a call-count header byte, one command-selector byte per call
 and a parameter tail shared evenly among the calls.
 */
module Consumer {
  import opened Wrappers
  import opened GoTypes
  import opened Decoders

  /**
   The buffer together with the three views `Split` derives from it. Before
   a successful `Split` the views hold Go's zero values (nil slices, 0).
   */
  datatype ConsumeFuzzer = ConsumeFuzzer(
    data: seq<byte>,
    commandPart: seq<byte>,
    restOfArray: seq<byte>,
    numberOfCalls: int)

  function NewConsumer(fuzzData: seq<byte>): (f: ConsumeFuzzer)
    ensures f.data == fuzzData
    ensures f.commandPart == [] && f.restOfArray == [] && f.numberOfCalls == 0
  {
    ConsumeFuzzer(fuzzData, [], [], 0)
  }

  /**
   The errors `Split` returns. The Go code returns `errors.New` values whose
   text carries no behaviour; the last two even share their message.
   */
  datatype SplitError =
    | CouldNotSplit              // empty buffer
    | BadNumberOfCalls           // header byte outside [minCalls, maxCalls]
    | LengthDoesNotMatch         // fewer than 2n + 1 bytes
    | CommandPartLengthMismatch  // command segment shorter than n (cannot happen)
    | RestNotDivisible           // parameter tail not a multiple of n

  /** The receiver after the call, and the returned error. */
  datatype SplitOutcome = SplitOutcome(consumer: ConsumeFuzzer, error: Option<SplitError>)

  /**
   The inputs on which Go's `Split` divides by zero and panics: a header
   byte of 0 that the range check lets through.
   */
  predicate SplitPanics(data: seq<byte>, minCalls: int, maxCalls: int) {
    |data| > 0 && data[0] == 0 && minCalls <= 0 <= maxCalls
  }

  /**
   The buffers `Split` accepts: a header byte `n` in range, `n` command bytes,
   and a parameter tail of at least `n` bytes whose length is a multiple of `n`.
   */
  predicate Splittable(data: seq<byte>, minCalls: int, maxCalls: int) {
    && |data| > 0
    && var n := data[0] as int;
    && 0 < n
    && minCalls <= n <= maxCalls
    && |data| - 1 - n >= n
    && (|data| - 1 - n) % n == 0
  }

  function Split(f: ConsumeFuzzer, minCalls: int, maxCalls: int): (r: SplitOutcome)
    requires !SplitPanics(f.data, minCalls, maxCalls)
    ensures r.consumer.data == f.data
    ensures r.error.None? <==> Splittable(f.data, minCalls, maxCalls)
    ensures r.error.None? ==>
              var n := f.data[0] as int;
              && r.consumer.numberOfCalls == n
              && r.consumer.commandPart == f.data[1..n + 1]
              && r.consumer.restOfArray == f.data[n + 1..]
              && |r.consumer.commandPart| == n
              && [f.data[0]] + r.consumer.commandPart + r.consumer.restOfArray == f.data
    ensures r.error.Some? ==> r.consumer == f
    ensures r.error == Some(CouldNotSplit) <==> |f.data| == 0
    ensures r.error == Some(BadNumberOfCalls) <==>
              |f.data| > 0 && !(minCalls <= f.data[0] as int <= maxCalls)
    ensures r.error == Some(LengthDoesNotMatch) <==>
              |f.data| > 0 && minCalls <= f.data[0] as int <= maxCalls
              && |f.data| < 2 * f.data[0] as int + 1
    ensures r.error != Some(CommandPartLengthMismatch)
    ensures r.error == Some(RestNotDivisible) <==>
              |f.data| > 0 && 0 < f.data[0] as int && minCalls <= f.data[0] as int <= maxCalls
              && |f.data| >= 2 * f.data[0] as int + 1
              && (|f.data| - 1 - f.data[0] as int) % f.data[0] as int != 0
  {
    if |f.data| == 0 then
      SplitOutcome(f, Some(CouldNotSplit))
    else
      var numberOfCalls := f.data[0] as int;
      if numberOfCalls < minCalls || numberOfCalls > maxCalls then
        SplitOutcome(f, Some(BadNumberOfCalls))
      else if |f.data| < numberOfCalls + numberOfCalls + 1 then
        SplitOutcome(f, Some(LengthDoesNotMatch))
      else
        var commandPart := f.data[1..numberOfCalls + 1];
        var restOfArray := f.data[numberOfCalls + 1..];
        if |commandPart| != numberOfCalls then
          SplitOutcome(f, Some(CommandPartLengthMismatch))
        else if !IsDivisibleBy(|restOfArray|, numberOfCalls) then
          SplitOutcome(f, Some(RestNotDivisible))
        else
          var f' := f.(commandPart := commandPart, restOfArray := restOfArray, numberOfCalls := numberOfCalls);
          assert [f.data[0]] + commandPart + restOfArray == f.data;
          SplitOutcome(f', None)
  }

  // ---------------------------------------------------------------------
  // Properties of Split
  // ---------------------------------------------------------------------

  /** The buffer layout `Split` expects: header byte `n`, `n` command bytes, the tail. */
  function Join(commands: seq<byte>, rest: seq<byte>): (data: seq<byte>)
    requires |commands| < 256
    ensures |data| == 1 + |commands| + |rest|
    ensures data[0] as int == |commands|
    ensures data[1..|commands| + 1] == commands && data[|commands| + 1..] == rest
  {
    [|commands| as byte] + commands + rest
  }

  /** `Split` recovers the command bytes and the tail of a buffer built by `Join`. */
  lemma SplitOfJoin(f: ConsumeFuzzer, commands: seq<byte>, rest: seq<byte>, minCalls: int, maxCalls: int)
    requires 0 < |commands| < 256
    requires minCalls <= |commands| <= maxCalls
    requires |rest| >= |commands| && |rest| % |commands| == 0
    ensures var data := Join(commands, rest);
            Split(f.(data := data), minCalls, maxCalls)
            == SplitOutcome(ConsumeFuzzer(data, commands, rest, |commands|), None)
  {
  }

  /** Every accepted buffer is the `Join` of the parts `Split` derived from it. */
  lemma SplitThenJoin(f: ConsumeFuzzer, minCalls: int, maxCalls: int)
    requires !SplitPanics(f.data, minCalls, maxCalls)
    requires Split(f, minCalls, maxCalls).error.None?
    ensures var g := Split(f, minCalls, maxCalls).consumer;
            && |g.commandPart| == g.numberOfCalls > 0
            && |g.restOfArray| >= g.numberOfCalls
            && |g.restOfArray| % g.numberOfCalls == 0
            && Join(g.commandPart, g.restOfArray) == f.data
  {
  }

  /**
   Calling `Split` again re-derives the same views from the same buffer,
   whether or not the first call succeeded.
   */
  lemma SplitIsIdempotent(f: ConsumeFuzzer, minCalls: int, maxCalls: int)
    requires !SplitPanics(f.data, minCalls, maxCalls)
    ensures var once := Split(f, minCalls, maxCalls);
            Split(once.consumer, minCalls, maxCalls) == once
  {
  }

  /** The outcome depends only on the buffer, not on views from an earlier call. */
  lemma SplitDependsOnlyOnData(f: ConsumeFuzzer, g: ConsumeFuzzer, minCalls: int, maxCalls: int)
    requires f.data == g.data
    requires !SplitPanics(f.data, minCalls, maxCalls)
    ensures Split(f, minCalls, maxCalls).error == Split(g, minCalls, maxCalls).error
    ensures Split(f, minCalls, maxCalls).error.None? ==>
              Split(f, minCalls, maxCalls).consumer == Split(g, minCalls, maxCalls).consumer
  {
  }

  /** Three calls, three command bytes and six parameter bytes split cleanly. */
  lemma SplitThreeCalls(c0: byte, c1: byte, c2: byte, r0: byte, r1: byte, r2: byte, r3: byte, r4: byte, r5: byte)
    ensures var data := [3, c0, c1, c2, r0, r1, r2, r3, r4, r5];
            Split(NewConsumer(data), 1, 5)
            == SplitOutcome(ConsumeFuzzer(data, [c0, c1, c2], [r0, r1, r2, r3, r4, r5], 3), None)
  {
  }

  /** Five parameter bytes cannot be shared among three calls. */
  lemma SplitRejectsUnevenTail(c0: byte, c1: byte, c2: byte, r0: byte, r1: byte, r2: byte, r3: byte, r4: byte)
    ensures var data := [3, c0, c1, c2, r0, r1, r2, r3, r4];
            Split(NewConsumer(data), 1, 5) == SplitOutcome(NewConsumer(data), Some(RestNotDivisible))
  {
  }
}
