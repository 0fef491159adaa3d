/** Failure-compatible wrappers shared by every module: the model's stand-ins
    for C# null references and for thrown exceptions. */
module Wrappers {

  /** A C# reference that may be null: `None` is null. */
  datatype Option<+T> = None | Some(value: T) {
    predicate IsFailure() { None? }

    function PropagateFailure<U>(): Option<U>
      requires None?
    {
      None
    }

    function Extract(): T
      requires Some?
    {
      value
    }

    function GetOr(default: T): T {
      match this
      case Some(v) => v
      case None => default
    }
  }

  /** The kind of .NET exception an operation throws. */
  datatype Error =
    | NullReference                               // NullReferenceException
    | InvalidCast                                 // InvalidCastException: a node of the wrong shape
    | ArgumentNull(param: string)                 // ArgumentNullException
    | DuplicateKey                                // ArgumentException from Dictionary.Add / YamlMappingNode.Add
    | UnknownEnumName(text: string)               // ArgumentException from Enum.Parse
    | InvalidArgument(param: string)              // any other ArgumentException
    | InvalidOperation                            // InvalidOperationException
    | Format                                      // FormatException from int.Parse
    | Overflow                                    // OverflowException
    | MissingMethod                               // Activator.CreateInstance found no usable constructor
    | RuntimeBinder                               // a `dynamic` call could not bind its argument
    | MissingField(typeName: string, key: string) // InvalidDataException: a required key was absent
    | UnusedNodes(typeName: string)               // InvalidDataException: keys no member consumed
    | HookFailed(message: string)                 // an exception thrown by a user hook
    | NotModelled                                 // behaviour outside this model

  /** Either the value an operation returns or the exception it throws. */
  datatype Result<+T> = Ok(value: T) | Err(error: Error) {
    predicate IsFailure() { Err? }

    function PropagateFailure<U>(): Result<U>
      requires Err?
    {
      Err(error)
    }

    function Extract(): T
      requires Ok?
    {
      value
    }
  }

  /** Enumerable.Select(f).ToList(): `f` applied to each element in order;
      the first exception ends the enumeration and is thrown. */
  function SelectAll<A, B>(xs: seq<A>, f: A -> Result<B>): (r: Result<seq<B>>)
    ensures r.Ok? ==> |r.value| == |xs| && forall i :: 0 <= i < |xs| ==> f(xs[i]) == Ok(r.value[i])
    ensures r.Err? ==> exists i :: 0 <= i < |xs| && f(xs[i]) == Err(r.error)
                                   && forall j :: 0 <= j < i ==> f(xs[j]).Ok?
    decreases |xs|
  {
    if xs == [] then Ok([])
    else
      var y :- f(xs[0]);
      var ys := SelectAll(xs[1..], f);
      if ys.Err? then
        ghost var i :| 0 <= i < |xs[1..]| && f(xs[1..][i]) == Err(ys.error)
                       && forall j :: 0 <= j < i ==> f(xs[1..][j]).Ok?;
        assert f(xs[i + 1]) == Err(ys.error);
        assert forall j :: 0 <= j < i + 1 ==> f(xs[j]).Ok? by {
          forall j | 0 <= j < i + 1 ensures f(xs[j]).Ok? {
            if j > 0 {
              assert xs[j] == xs[1..][j - 1];
            }
          }
        }
        Err(ys.error)
      else
        Ok([y] + ys.value)
  }

  /** The results of a loop that stops at the first exception: all values
      when every step succeeded, else the first step's exception. */
  function Collect<T>(rs: seq<Result<T>>): (r: Result<seq<T>>)
    ensures r.Ok? <==> forall i :: 0 <= i < |rs| ==> rs[i].Ok?
    ensures r.Ok? ==> |r.value| == |rs| && forall i :: 0 <= i < |rs| ==> rs[i] == Ok(r.value[i])
    ensures r.Err? ==> exists i :: 0 <= i < |rs| && rs[i] == Err(r.error)
                                   && forall j :: 0 <= j < i ==> rs[j].Ok?
    decreases |rs|
  {
    if rs == [] then Ok([])
    else
      var init := rs[..|rs| - 1];
      var xs := Collect(init);
      if xs.Err? then
        ghost var i :| 0 <= i < |init| && init[i] == Err(xs.error)
                       && forall j :: 0 <= j < i ==> init[j].Ok?;
        assert rs[i] == init[i];
        assert forall j :: 0 <= j < i ==> rs[j] == init[j];
        xs
      else
        var x :- rs[|rs| - 1];
        assert forall j :: 0 <= j < |init| ==> rs[j] == init[j];
        Ok(xs.value + [x])
  }

  /** One more step of the loop after a successful prefix. */
  lemma CollectAppend<T>(rs: seq<Result<T>>, x: Result<T>, xs: seq<T>)
    requires Collect(rs) == Ok(xs)
    ensures Collect(rs + [x]) == if x.Err? then Err(x.error) else Ok(xs + [x.value])
  {
    assert (rs + [x])[..|rs|] == rs;
  }

  /** Once a prefix has thrown, the whole loop throws the same exception. */
  lemma {:induction false} CollectPrefixErr<T>(rs: seq<Result<T>>, n: nat)
    requires n <= |rs| && Collect(rs[..n]).Err?
    ensures Collect(rs) == Collect(rs[..n])
    decreases |rs|
  {
    if n < |rs| {
      var init := rs[..|rs| - 1];
      assert init[..n] == rs[..n];
      CollectPrefixErr(init, n);
    } else {
      assert rs[..n] == rs;
    }
  }
}
