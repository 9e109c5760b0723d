/** `createRenderData` (`renderData.ts`): look up cached render data under
    a generated key, or create it and cache it. The generator's callbacks
    are foreign code: each is given by what it does when called — whether
    it exists and what it returns or throws. */
module RenderData {
  import opened Wrappers

  datatype RenderValue<D> = RenderSuccess(data: D) | RenderError(message: string)

  /** What `createValue` does when called: returns a value (`None` for
      `undefined`) or throws, `String(error)` being the message. */
  datatype ValueCall<D> = Returns(value: Option<D>) | Throws(shown: string)

  /** What `createKey` does when called: returns a key (`None` for
      `undefined`) or throws, which rejects the whole call. */
  datatype KeyCall = KeyReturns(key: Option<string>) | KeyThrows(thrown: string)

  /** A generator: `createKey` and `createValue` absent (`None`) or
      behaving as given. */
  datatype Generator<D> = Generator(createKey: Option<KeyCall>, createValue: Option<ValueCall<D>>)

  /** The promise's outcome (a value, `undefined` as `None`, or a thrown
      error), the storage afterwards, and whether `createValue` ran. */
  datatype Outcome<D> = Outcome(result: Result<Option<RenderValue<D>>>, storage: map<string, RenderValue<D>>, created: bool)

  /** The key as the source tests it: a non-empty string is truthy. */
  function TruthyKey<D>(g: Generator<D>): Option<string> {
    match g.createKey
    case Some(KeyReturns(Some(k))) => if k != "" then Some(k) else None
    case _ => None
  }

  predicate KeyThrew<D>(g: Generator<D>) {
    g.createKey.Some? && g.createKey.value.KeyThrows?
  }

  function MissingMessage(nodeName: string): string {
    "Render data is already expected for node \"" + nodeName + "\" but not found!"
  }

  function CreateRenderData<D>(storage: map<string, RenderValue<D>>, nodeName: string, generator: Option<Generator<D>>): (r: Outcome<D>)
    // No generator: nothing happens.
    ensures generator.None? ==> r == Outcome(Success(None), storage, false)
    // A throwing `createKey`: the call fails with what it threw, and nothing else happens.
    ensures generator.Some? && KeyThrew(generator.value)
            ==> r == Outcome(Failure(generator.value.createKey.value.thrown), storage, false)
    // A truthy key that is cached: the cached value, and nothing is created.
    ensures generator.Some? && TruthyKey(generator.value).Some? && TruthyKey(generator.value).value in storage
            ==> r == Outcome(Success(Some(storage[TruthyKey(generator.value).value])), storage, false)
    // No `createValue`: failure exactly when a truthy key was not cached.
    ensures generator.Some? && generator.value.createValue.None? ==>
              !r.created && r.storage == storage
              && (r.result.Failure? <==> KeyThrew(generator.value)
                                         || (TruthyKey(generator.value).Some? && TruthyKey(generator.value).value !in storage))
    // The storage changes only by writing the new value under a truthy key.
    ensures r.storage == storage
            || (generator.Some? && TruthyKey(generator.value).Some? && r.result.Success? && r.result.value.Some?
                && r.storage == storage[TruthyKey(generator.value).value := r.result.value.value])
    // Nothing fails once `createValue` has run: its error is a value.
    ensures r.created ==> r.result.Success?
  {
    match generator
    case None => Outcome(Success(None), storage, false)
    case Some(g) =>
      if KeyThrew(g) then Outcome(Failure(g.createKey.value.thrown), storage, false)
      else
        var key := TruthyKey(g);
        if key.Some? && key.value in storage then Outcome(Success(Some(storage[key.value])), storage, false)
        else
          match g.createValue
          case None =>
            if key.Some? then Outcome(Failure(MissingMessage(nodeName)), storage, false)
            else Outcome(Success(None), storage, false)
          case Some(call) =>
            match call
            case Returns(None) => Outcome(Success(None), storage, true)
            case Returns(Some(d)) => Stored(storage, key, RenderSuccess(d))
            case Throws(shown) => Stored(storage, key, RenderError(shown))
  }

  /** The new value, written under the key when it is truthy. */
  function Stored<D>(storage: map<string, RenderValue<D>>, key: Option<string>, v: RenderValue<D>): Outcome<D> {
    Outcome(Success(Some(v)), if key.Some? then storage[key.value := v] else storage, true)
  }

  /** What a run of `createValue` yields: `{type: 'success', data}` for a
      returned value, `{type: 'error', message}` for a throw, and nothing
      (with the storage untouched) for `undefined`; the value is stored
      exactly when the key is truthy. */
  lemma CreatedValue<D>(storage: map<string, RenderValue<D>>, nodeName: string, g: Generator<D>)
    requires g.createValue.Some? && !KeyThrew(g)
    requires TruthyKey(g).None? || TruthyKey(g).value !in storage
    ensures var r := CreateRenderData(storage, nodeName, Some(g));
            var call := g.createValue.value;
            r.created
            && (call == Returns(None) ==> r == Outcome(Success(None), storage, true))
            && (call.Returns? && call.value.Some? ==> r.result == Success(Some(RenderSuccess(call.value.value))))
            && (call.Throws? ==> r.result == Success(Some(RenderError(call.shown))))
            && (r.result.value.Some? ==>
                  r.storage == if TruthyKey(g).Some? then storage[TruthyKey(g).value := r.result.value.value] else storage)
  {
  }

  /** Caching: after a call that created a value under a truthy key, the
      same generator finds that value and does not run `createValue`
      again. */
  lemma {:induction false} SecondCallCached<D>(storage: map<string, RenderValue<D>>, nodeName: string, g: Generator<D>)
    requires TruthyKey(g).Some?
    ensures var r1 := CreateRenderData(storage, nodeName, Some(g));
            var r2 := CreateRenderData(r1.storage, nodeName, Some(g));
            r1.result.Success? && r1.result.value.Some? ==> r2 == Outcome(r1.result, r1.storage, false)
  {
    var r1 := CreateRenderData(storage, nodeName, Some(g));
    var k := TruthyKey(g).value;
    if r1.result.Success? && r1.result.value.Some? {
      assert k in r1.storage && r1.storage[k] == r1.result.value.value;
    }
  }
}
