/** Failable: the outcome of an operation (a value or the exception it
    threw) with a description, and aggregates that collect several failures
    into one flat list and render them. */
module Failables {
  import opened Wrappers
  import opened Framework

  // ---------------------------------------------------------------- exceptions

  /** The exceptions a Failable records. An AggregateException carries its
      inner exceptions; any other exception has at most one inner exception. */
  datatype Exception =
    | SingleException(message: string, inner: Option<Exception>)
    | AggregateException(message: string, innerExceptions: seq<Exception>)

  /** Failable.ExceptionMessage, with `newline` standing for
      Environment.NewLine: the exception's own message, then for an aggregate
      every inner exception's text, else the inner exception's text if any. */
  function ExceptionMessage(e: Exception, newline: string): string
    decreases e
  {
    match e
    case AggregateException(message, inners) =>
      message + newline + Join(newline, seq(|inners|, i requires 0 <= i < |inners| => ExceptionMessage(inners[i], newline)))
    case SingleException(message, inner) =>
      if inner.None? then message else message + newline + ExceptionMessage(inner.value, newline)
  }

  /** The messages along a chain of inner exceptions, outermost first,
      stopping at the first aggregate. */
  function Chain(e: Exception): (r: seq<string>)
    ensures |r| > 0 && r[0] == e.message
    decreases e
  {
    match e
    case AggregateException(message, _) => [message]
    case SingleException(message, inner) =>
      if inner.None? then [message] else [message] + Chain(inner.value)
  }

  /** No aggregate anywhere along the chain of inner exceptions. */
  predicate NoAggregate(e: Exception)
    decreases e
  {
    e.SingleException? && (e.inner.Some? ==> NoAggregate(e.inner.value))
  }

  lemma JoinCons(sep: string, first: string, rest: seq<string>)
    requires rest != []
    ensures Join(sep, [first] + rest) == first + sep + Join(sep, rest)
  {
    assert ([first] + rest)[1..] == rest;
  }

  /** Without aggregates, ExceptionMessage is the messages of the chain from
      the outermost inwards, one per line. */
  lemma {:induction false} ExceptionMessageOfChain(e: Exception, newline: string)
    requires NoAggregate(e)
    ensures ExceptionMessage(e, newline) == Join(newline, Chain(e))
    decreases e
  {
    if e.inner.Some? {
      ExceptionMessageOfChain(e.inner.value, newline);
      JoinCons(newline, e.message, Chain(e.inner.value));
    }
  }

  // ---------------------------------------------------------------- Failable<T>

  /** What running an operation gave: a value, or the exception it threw. */
  datatype Outcome<T> = Returned(value: T) | Threw(exception: Exception)

  /** Failable<T>. `result` is `_Result`, `None` standing for `default(T)`;
      `exception` is `None` when nothing failed; `nested` is the private list
      of sub-failures an aggregate holds. */
  datatype Failable<T> = Failable(result: Option<T>, exception: Option<Exception>,
                                  description: Option<string>, nested: seq<Failable<T>>)
  {
    /** Failable.Failed: an exception is recorded. */
    predicate Failed() { exception.Some? }

    /** Failable.IsAggregate: there are sub-failures. */
    predicate IsAggregate() { |nested| > 0 }

    /** Failable.Result: throws the recorded exception, else gives the
        stored value. */
    function Result(): (r: Outcome<Option<T>>)
      ensures r.Threw? <==> Failed()
      ensures r.Threw? ==> r.exception == exception.value
      ensures r.Returned? ==> r.value == result
    {
      if Failed() then Threw(exception.value) else Returned(result)
    }
  }

  /** The Failable(operation, description) constructor, given what the
      operation did: its value is kept, or the exception it threw. */
  function Run<T>(outcome: Outcome<T>, description: Option<string>): (r: Failable<T>)
    ensures r.Failed() <==> outcome.Threw?
    ensures !r.IsAggregate() && r.description == description
    ensures r.Result() == match outcome
                          case Returned(v) => Returned(Some(v))
                          case Threw(e) => Threw(e)
  {
    match outcome
    case Returned(v) => Failable(Some(v), None, description, [])
    case Threw(e) => Failable(None, Some(e), description, [])
  }

  /** Failable.Failure: a record of `exc` with a default result; a null
      `exc` gives a Failable that has not failed. */
  function Failure<T>(exc: Option<Exception>, description: Option<string>): (r: Failable<T>)
    ensures r.Failed() <==> exc.Some?
    ensures !r.IsAggregate() && r.description == description
    ensures r.Result() == if exc.Some? then Threw(exc.value) else Returned(None)
  {
    Failable(None, exc, description, [])
  }

  /** Failable.GetRelevantFailures: an aggregate's sub-failures, or the
      Failable itself. */
  function RelevantFailures<T>(f: Failable<T>): seq<Failable<T>> {
    if f.IsAggregate() then f.nested else [f]
  }

  /** `failures.SelectMany(x => x.GetRelevantFailures())`. */
  function Flattened<T>(failures: seq<Failable<T>>): seq<Failable<T>> {
    if failures == [] then [] else RelevantFailures(failures[0]) + Flattened(failures[1..])
  }

  lemma {:induction false} FlattenedAppend<T>(a: seq<Failable<T>>, b: seq<Failable<T>>)
    ensures Flattened(a + b) == Flattened(a) + Flattened(b)
    decreases |a|
  {
    if a != [] {
      assert (a + b)[0] == a[0] && (a + b)[1..] == a[1..] + b;
      FlattenedAppend(a[1..], b);
      var head := RelevantFailures(a[0]);
      assert Flattened(a + b) == head + (Flattened(a[1..]) + Flattened(b));
      assert Flattened(a) == head + Flattened(a[1..]);
      assert head + (Flattened(a[1..]) + Flattened(b)) == (head + Flattened(a[1..])) + Flattened(b);
    } else {
      assert a + b == b;
    }
  }

  /** A Failable is flat when none of its sub-failures is itself an
      aggregate: every Failable the public operations build is flat. */
  predicate Flat<T>(f: Failable<T>) {
    forall i :: 0 <= i < |f.nested| ==> !f.nested[i].IsAggregate()
  }

  predicate AllFlat<T>(fs: seq<Failable<T>>) {
    forall i :: 0 <= i < |fs| ==> Flat(fs[i])
  }

  predicate NoAggregates<T>(fs: seq<Failable<T>>) {
    forall i :: 0 <= i < |fs| ==> !fs[i].IsAggregate()
  }

  /** Flattening flat Failables leaves no aggregate. */
  lemma {:induction false} FlattenedOfFlat<T>(failures: seq<Failable<T>>)
    requires AllFlat(failures)
    ensures NoAggregates(Flattened(failures))
    decreases |failures|
  {
    if failures != [] {
      assert AllFlat(failures[1..]) by {
        forall i | 0 <= i < |failures[1..]| ensures Flat(failures[1..][i]) {
          assert failures[1..][i] == failures[i + 1];
        }
      }
      FlattenedOfFlat(failures[1..]);
      assert Flat(failures[0]);
    }
  }

  /** Flattening Failables that are not aggregates keeps them as they are. */
  lemma {:induction false} FlattenedOfSingles<T>(failures: seq<Failable<T>>)
    requires NoAggregates(failures)
    ensures Flattened(failures) == failures
    decreases |failures|
  {
    if failures != [] {
      assert NoAggregates(failures[1..]) by {
        forall i | 0 <= i < |failures[1..]| ensures !failures[1..][i].IsAggregate() {
          assert failures[1..][i] == failures[i + 1];
        }
      }
      FlattenedOfSingles(failures[1..]);
      assert failures == [failures[0]] + failures[1..];
    }
  }

  predicate AllFailed<T>(fs: seq<Failable<T>>) {
    forall i :: 0 <= i < |fs| ==> fs[i].Failed()
  }

  function Exceptions<T>(fs: seq<Failable<T>>): (r: seq<Exception>)
    requires AllFailed(fs)
    ensures |r| == |fs| && forall i :: 0 <= i < |fs| ==> r[i] == fs[i].exception.value
  {
    seq(|fs|, i requires 0 <= i < |fs| => fs[i].exception.value)
  }

  /** A null description reads as the empty string, as string interpolation
      and String.Join treat null. */
  function DescriptionText(d: Option<string>): string {
    d.GetOr("")
  }

  function Descriptions<T>(fs: seq<Failable<T>>): (r: seq<string>)
    ensures |r| == |fs| && forall i :: 0 <= i < |fs| ==> r[i] == DescriptionText(fs[i].description)
  {
    seq(|fs|, i requires 0 <= i < |fs| => DescriptionText(fs[i].description))
  }

  /** Failable.Aggregate: the relevant failures of every input, in order,
      become the sub-failures; their exceptions, in the same order, the
      inner exceptions of a new AggregateException (whose message the runtime
      composes, given here as `aggregateMessage`), which throws when one of
      them is null; their descriptions, one per line, the description. */
  function Aggregate<T>(failures: seq<Failable<T>>, aggregateMessage: string): (r: Result<Failable<T>>)
    ensures r.Ok? <==> AllFailed(Flattened(failures))
    ensures r.Err? ==> r.error == InvalidArgument("innerExceptions")
    ensures r.Ok? ==> r.value.Failed() && r.value.result.None?
  {
    var flattened := Flattened(failures);
    if !AllFailed(flattened) then Err(InvalidArgument("innerExceptions"))
    else
      var exception := AggregateException(aggregateMessage, Exceptions(flattened));
      Ok(Failable(None, Some(exception), Some(Join("\n", Descriptions(flattened))), flattened))
  }

  /** An aggregate of flat Failables is flat, so the sub-failures of any
      aggregate are never aggregates themselves; it lists the relevant
      failures in input order, their exceptions as its inner exceptions, and
      is an aggregate exactly when there was something to list. */
  lemma AggregateIsFlat<T>(failures: seq<Failable<T>>, aggregateMessage: string)
    requires AllFlat(failures) && Aggregate(failures, aggregateMessage).Ok?
    ensures var g := Aggregate(failures, aggregateMessage).value;
            && Flat(g)
            && g.nested == Flattened(failures)
            && g.exception == Some(AggregateException(aggregateMessage, Exceptions(Flattened(failures))))
            && g.description == Some(Join("\n", Descriptions(Flattened(failures))))
            && (g.IsAggregate() <==> |Flattened(failures)| > 0)
  {
    FlattenedOfFlat(failures);
  }

  /** With no inputs, the aggregate has failed (with an empty
      AggregateException) but is not an aggregate. */
  lemma AggregateOfNothing<T>(aggregateMessage: string)
    ensures var r := Aggregate<T>([], aggregateMessage);
            && r.Ok? && r.value.Failed() && !r.value.IsAggregate()
            && r.value.exception == Some(AggregateException(aggregateMessage, []))
            && r.value.description == Some("")
  {
  }

  /** Aggregating an aggregate again changes nothing. */
  lemma AggregateIdempotent<T>(failures: seq<Failable<T>>, aggregateMessage: string)
    requires Aggregate(failures, aggregateMessage).Ok?
    requires |Flattened(failures)| > 0
    ensures Aggregate([Aggregate(failures, aggregateMessage).value], aggregateMessage) == Aggregate(failures, aggregateMessage)
  {
    var g := Aggregate(failures, aggregateMessage).value;
    assert Flattened([g]) == g.nested + Flattened([]);
    assert Flattened([g]) == Flattened(failures);
  }

  /** Aggregating two lists of failures gives the sub-failures of each
      aggregate, one list after the other. */
  lemma AggregateConcat<T>(a: seq<Failable<T>>, b: seq<Failable<T>>, aggregateMessage: string)
    requires Aggregate(a, aggregateMessage).Ok? && Aggregate(b, aggregateMessage).Ok?
    ensures Aggregate(a + b, aggregateMessage).Ok?
    ensures Aggregate(a + b, aggregateMessage).value.nested ==
            Aggregate(a, aggregateMessage).value.nested + Aggregate(b, aggregateMessage).value.nested
  {
    FlattenedAppend(a, b);
    AllFailedConcat(Flattened(a), Flattened(b));
  }

  lemma AllFailedConcat<T>(fa: seq<Failable<T>>, fb: seq<Failable<T>>)
    requires AllFailed(fa) && AllFailed(fb)
    ensures AllFailed(fa + fb)
  {
    forall i | 0 <= i < |fa + fb| ensures (fa + fb)[i].Failed() {
      if i >= |fa| {
        assert (fa + fb)[i] == fb[i - |fa|];
      } else {
        assert (fa + fb)[i] == fa[i];
      }
    }
  }

  /** Failable.AggregateFailure: each exception recorded with no
      description, then aggregated. */
  function AggregateFailure<T>(exceptions: seq<Option<Exception>>, aggregateMessage: string): (r: Result<Failable<T>>)
    ensures r.Ok? <==> forall i :: 0 <= i < |exceptions| ==> exceptions[i].Some?
    ensures r.Ok? ==> && |r.value.nested| == |exceptions|
                      && forall i :: 0 <= i < |exceptions| ==> r.value.nested[i] == Failure(exceptions[i], None)
  {
    var failures := seq(|exceptions|, i requires 0 <= i < |exceptions| => Failure<T>(exceptions[i], None));
    FlattenedOfSingles(failures);
    assert AllFailed(failures) <==> forall i :: 0 <= i < |exceptions| ==> exceptions[i].Some? by {
      assert forall i :: 0 <= i < |exceptions| ==> (failures[i].Failed() <==> exceptions[i].Some?);
    }
    Aggregate(failures, aggregateMessage)
  }

  // ---------------------------------------------------------------- Cast

  /** Two Failables of possibly different result types with the same
      exception, description and tree of sub-failures. */
  predicate SameShape<T, U>(f: Failable<T>, g: Failable<U>)
    decreases f
  {
    && f.exception == g.exception
    && f.description == g.description
    && |f.nested| == |g.nested|
    && forall i :: 0 <= i < |f.nested| ==> SameShape(f.nested[i], g.nested[i])
  }

  /** Failable.Cast: the stored result goes through `(U)(object)`, given here
      as `convert` (which throws when the runtime type does not match), then
      each sub-failure in order; the first exception wins. */
  function Cast<T, U>(f: Failable<T>, convert: Option<T> -> Result<Option<U>>): (r: Result<Failable<U>>)
    ensures r.Ok? <==> convert(f.result).Ok? && forall i :: 0 <= i < |f.nested| ==> Cast(f.nested[i], convert).Ok?
    ensures r.Ok? ==> && SameShape(f, r.value) && convert(f.result) == Ok(r.value.result)
                      && forall i :: 0 <= i < |f.nested| ==> Cast(f.nested[i], convert) == Ok(r.value.nested[i])
    ensures r.Err? ==> if convert(f.result).Err? then r.error == convert(f.result).error
                       else exists i :: && 0 <= i < |f.nested| && Cast(f.nested[i], convert) == Err(r.error)
                                        && forall j :: 0 <= j < i ==> Cast(f.nested[j], convert).Ok?
    decreases f
  {
    var result :- convert(f.result);
    var rs := seq(|f.nested|, i requires 0 <= i < |f.nested| => Cast(f.nested[i], convert));
    assert forall i :: 0 <= i < |f.nested| ==> rs[i] == Cast(f.nested[i], convert);
    var nested :- Collect(rs);
    Ok(Failable(result, f.exception, f.description, nested))
  }

  /** Casting to the same type changes nothing. */
  lemma {:induction false} CastIdentity<T>(f: Failable<T>)
    ensures Cast(f, (x: Option<T>) => Ok(x)) == Ok(f)
    decreases f
  {
    var id := (x: Option<T>) => Ok(x);
    var rs := seq(|f.nested|, i requires 0 <= i < |f.nested| => Cast(f.nested[i], id));
    forall i | 0 <= i < |f.nested| ensures rs[i] == Ok(f.nested[i]) {
      CastIdentity(f.nested[i]);
    }
    assert Collect(rs).value == f.nested;
  }

  // ---------------------------------------------------------------- rendering

  /** What ToStringSimple's loop holds after some sub-failures: the messages
      met, and the summaries written. */
  datatype Summary = Summary(messages: set<string>, summaries: seq<string>)

  /** ToStringSimple's loop over the first `n` sub-failures: a sub-failure
      whose exception message is new is summarised, any other skipped; a
      sub-failure with no exception throws. */
  function SimpleLoop<T>(f: Failable<T>, n: nat, newline: string): Result<Summary>
    requires n <= |f.nested|
    decreases f, 0, n
  {
    if n == 0 then Ok(Summary({}, []))
    else
      var st :- SimpleLoop(f, n - 1, newline);
      var item := f.nested[n - 1];
      if item.exception.None? then Err(NullReference)
      else if item.exception.value.message in st.messages then Ok(st)
      else
        var s :- Simple(item, newline);
        Ok(Summary(st.messages + {item.exception.value.message}, st.summaries + [s]))
  }

  /** Failable.ToStringSimple: an aggregate's summaries one per line; else
      the exception's text; else the description and "Operation succeeded". */
  function Simple<T>(f: Failable<T>, newline: string): Result<string>
    decreases f, 1, 0
  {
    if f.IsAggregate() then
      var st :- SimpleLoop(f, |f.nested|, newline);
      Ok(Join("\n", st.summaries))
    else if f.Failed() then Ok(ExceptionMessage(f.exception.value, newline))
    else Ok(DescriptionText(f.description) + ": Operation succeeded")
  }

  /** The message a sub-failure is keyed by. */
  function Message<T>(f: Failable<T>): string {
    if f.exception.Some? then f.exception.value.message else ""
  }

  /** The messages of the first `n` items. */
  function MessagesUpTo<T>(items: seq<Failable<T>>, n: nat): set<string>
    requires n <= |items|
  {
    if n == 0 then {} else MessagesUpTo(items, n - 1) + {Message(items[n - 1])}
  }

  /** No earlier item has the same message. */
  predicate IsFirst<T>(items: seq<Failable<T>>, i: nat)
    requires i < |items|
  {
    forall j :: 0 <= j < i ==> Message(items[j]) != Message(items[i])
  }

  /** How many of the first `n` items carry a message not met before. */
  function FirstsBefore<T>(items: seq<Failable<T>>, n: nat): nat
    requires n <= |items|
  {
    if n == 0 then 0 else FirstsBefore(items, n - 1) + (if IsFirst(items, n - 1) then 1 else 0)
  }

  lemma {:induction false} MessagesUpToHas<T>(items: seq<Failable<T>>, n: nat, m: string)
    requires n <= |items|
    ensures m in MessagesUpTo(items, n) <==> exists j :: 0 <= j < n && Message(items[j]) == m
    decreases n
  {
    if n > 0 {
      MessagesUpToHas(items, n - 1, m);
    }
  }

  /** An item is a first occurrence exactly when its message is not among
      the messages before it. */
  lemma IsFirstIff<T>(items: seq<Failable<T>>, i: nat)
    requires i < |items|
    ensures IsFirst(items, i) <==> Message(items[i]) !in MessagesUpTo(items, i)
  {
    MessagesUpToHas(items, i, Message(items[i]));
  }

  /** After `n` sub-failures the loop has met exactly their messages, all of
      which exist, and has written one summary per distinct message. */
  lemma {:induction false} SimpleLoopCounts<T>(f: Failable<T>, n: nat, newline: string, st: Summary)
    requires n <= |f.nested| && SimpleLoop(f, n, newline) == Ok(st)
    ensures st.messages == MessagesUpTo(f.nested, n)
    ensures forall j :: 0 <= j < n ==> f.nested[j].Failed()
    ensures |st.summaries| == |st.messages| == FirstsBefore(f.nested, n)
    decreases n
  {
    if n > 0 {
      var prev :| SimpleLoop(f, n - 1, newline) == Ok(prev);
      SimpleLoopCounts(f, n - 1, newline, prev);
      IsFirstIff(f.nested, n - 1);
    }
  }

  /** One summary per distinct message, in order of first occurrence: the
      summary of the k-th first occurrence is in place k. */
  lemma {:induction false} SimpleLoopFirsts<T>(f: Failable<T>, n: nat, newline: string, st: Summary)
    requires n <= |f.nested| && SimpleLoop(f, n, newline) == Ok(st)
    ensures forall j :: 0 <= j < n && IsFirst(f.nested, j) ==>
              FirstsBefore(f.nested, j) < |st.summaries|
              && Simple(f.nested[j], newline) == Ok(st.summaries[FirstsBefore(f.nested, j)])
    decreases n
  {
    if n > 0 {
      var prev :| SimpleLoop(f, n - 1, newline) == Ok(prev);
      SimpleLoopFirsts(f, n - 1, newline, prev);
      SimpleLoopCounts(f, n - 1, newline, prev);
      IsFirstIff(f.nested, n - 1);
    }
  }

  lemma {:induction false} SimpleLoopErr<T>(f: Failable<T>, i: nat, n: nat, newline: string)
    requires i <= n <= |f.nested| && SimpleLoop(f, i, newline).Err?
    ensures SimpleLoop(f, n, newline) == SimpleLoop(f, i, newline)
    decreases n
  {
    if n > i {
      SimpleLoopErr(f, i, n - 1, newline);
    }
  }

  /** Failable.ToStringSimple as its loop runs: a set of the messages met and
      a list of the summaries written. */
  method ToStringSimple<T>(f: Failable<T>, newline: string) returns (r: Result<string>)
    ensures r == Simple(f, newline)
    decreases f
  {
    if !f.IsAggregate() {
      if f.Failed() {
        return Ok(ExceptionMessage(f.exception.value, newline));
      }
      return Ok(DescriptionText(f.description) + ": Operation succeeded");
    }
    var messages: set<string> := {};
    var summaries: seq<string> := [];
    var i := 0;
    while i < |f.nested|
      invariant 0 <= i <= |f.nested|
      invariant SimpleLoop(f, i, newline) == Ok(Summary(messages, summaries))
    {
      var item := f.nested[i];
      if item.exception.None? {
        SimpleLoopErr(f, i + 1, |f.nested|, newline);
        return Err(NullReference);
      }
      var m := item.exception.value.message;
      if m !in messages {
        messages := messages + {m};
        var s := ToStringSimple(item, newline);
        if s.Err? {
          SimpleLoopErr(f, i + 1, |f.nested|, newline);
          return Err(s.error);
        }
        summaries := summaries + [s.value];
      }
      i := i + 1;
    }
    return Ok(Join("\n", summaries));
  }

  /** Failable.ToStringDetailed, with `describe` standing for
      Exception.ToString: an aggregate's sub-failures separated by blank
      lines; else the description and the exception; else the description
      and "Operation succeeded". */
  function Detailed<T>(f: Failable<T>, describe: Exception -> string): string
    decreases f
  {
    if f.IsAggregate() then
      Join("\n\n", seq(|f.nested|, i requires 0 <= i < |f.nested| => Detailed(f.nested[i], describe)))
    else if f.Failed() then DescriptionText(f.description) + ":\n" + describe(f.exception.value)
    else DescriptionText(f.description) + ": Operation succeeded"
  }

  /** A Failable that neither failed nor aggregates renders the same both
      ways. */
  lemma SucceededRendering<T>(f: Failable<T>, newline: string, describe: Exception -> string)
    requires !f.Failed() && !f.IsAggregate()
    ensures Simple(f, newline) == Ok(DescriptionText(f.description) + ": Operation succeeded")
    ensures Detailed(f, describe) == DescriptionText(f.description) + ": Operation succeeded"
  {
  }

  /** The detailed rendering looks only at exceptions, descriptions and the
      tree, so a cast renders as the original does. */
  lemma {:induction false} DetailedOfSameShape<T, U>(f: Failable<T>, g: Failable<U>, describe: Exception -> string)
    requires SameShape(f, g)
    ensures Detailed(f, describe) == Detailed(g, describe)
    decreases f
  {
    if f.IsAggregate() {
      var a := seq(|f.nested|, i requires 0 <= i < |f.nested| => Detailed(f.nested[i], describe));
      var b := seq(|g.nested|, i requires 0 <= i < |g.nested| => Detailed(g.nested[i], describe));
      forall i | 0 <= i < |f.nested| ensures a[i] == b[i] {
        DetailedOfSameShape(f.nested[i], g.nested[i], describe);
      }
      assert a == b;
    }
  }
}
