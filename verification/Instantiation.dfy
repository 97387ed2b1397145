/** Emission of generic instances: which compilation unit emits an instance, and the re-entrant analysis
    of instance bodies that request further instances. */
module Instantiation {
  import opened Wrappers
  import opened Sequences

  datatype Kind = FunctionInstance | StructInstance | MethodInstance

  /** Keys are compared without the module that asks for the instance. */
  datatype Key = Key(ownerModule: string, kind: Kind, templateName: string, methodName: string, typeArgs: seq<string>)

  /** What the analysis of an instance body does, in order: ask for instances, or reject the body, which
      raises an error through everything in progress. */
  datatype Step = Request(key: Key) | Reject

  /** `shared`: a C symbol, whose body is never emitted from a template. */
  datatype Template = Template(symbol: string, shared: bool, body: seq<Step>)

  predicate Closed(templates: map<Key, Template>) {
    forall k <- templates, s <- templates[k].body :: s.Request? ==> s.key in templates
  }

  // ---------------------------------------------------------------------------------------------
  // The registry of emitters
  // ---------------------------------------------------------------------------------------------

  datatype Owner = Owner(moduleKey: string, symbols: seq<string>)

  type Owners = map<Key, Owner>

  /** The module that emits a key; an entry without module does not count. */
  function Emitter(owners: Owners, key: Key): Option<string> {
    if key in owners && owners[key].moduleKey != "" then Some(owners[key].moduleKey) else None
  }

  /** No key changes hands. */
  ghost predicate ClaimsKept(before: Owners, after: Owners) {
    forall key :: Emitter(before, key).Some? ==> Emitter(after, key) == Emitter(before, key)
  }

  /** All that changed is that the unit became the emitter of keys that had none. */
  ghost predicate ClaimedBy(before: Owners, after: Owners, unit: string) {
    forall key :: Emitter(after, key) == Emitter(before, key)
                  || (Emitter(before, key).None? && Emitter(after, key) == Some(unit))
  }

  ghost predicate OwnedBy(owners: Owners, unit: string, keys: set<Key>) {
    forall key <- keys :: Emitter(owners, key) == Some(unit)
  }

  class GenericInstanceRegistry {
    var owners: Owners

    constructor ()
      ensures owners == map[]
    {
      owners := map[];
    }

    method Claim(key: Key, moduleKey: string)
      requires moduleKey != ""
      modifies this
      ensures ClaimsKept(old(owners), owners)
      ensures Emitter(owners, key) == Some(if Emitter(old(owners), key).Some? then Emitter(old(owners), key).value
                                           else moduleKey)
      ensures owners.Keys == old(owners).Keys + {key}
      ensures key !in old(owners) ==> owners[key].symbols == []
      ensures forall k <- old(owners) :: owners[k].symbols == old(owners)[k].symbols
      ensures forall k <- old(owners) :: k != key ==> owners[k] == old(owners)[k]
    {
      if key !in owners {
        owners := owners[key := Owner(moduleKey, [])];
      } else if owners[key].moduleKey == "" {
        owners := owners[key := Owner(moduleKey, owners[key].symbols)];
      }
    }

    /** Takes over the record of an instance that an earlier build emitted. */
    method NoteEmission(key: Key, moduleKey: string, symbols: seq<string>)
      requires moduleKey != ""
      requires key in owners ==> Distinct(owners[key].symbols)
      modifies this
      ensures ClaimsKept(old(owners), owners)
      ensures Emitter(owners, key).Some?
      ensures Emitter(old(owners), key).None? ==> Emitter(owners, key) == Some(moduleKey)
      ensures Distinct(owners[key].symbols)
      ensures forall s :: s in owners[key].symbols
                          <==> s in symbols || (key in old(owners) && s in old(owners)[key].symbols)
      ensures forall k <- old(owners) :: k in owners && (k != key ==> owners[k] == old(owners)[k])
    {
      Claim(key, moduleKey);
      ghost var known := owners[key].symbols;
      for i := 0 to |symbols|
        invariant ClaimsKept(old(owners), owners) && key in owners
        invariant Emitter(owners, key).Some?
        invariant Emitter(old(owners), key).None? ==> Emitter(owners, key) == Some(moduleKey)
        invariant Distinct(owners[key].symbols)
        invariant forall s :: s in owners[key].symbols <==> s in symbols[..i] || s in known
        invariant forall k <- old(owners) :: k in owners && (k != key ==> owners[k] == old(owners)[k])
      {
        var owner := owners[key];
        if symbols[i] !in owner.symbols {
          owners := owners[key := owner.(symbols := owner.symbols + [symbols[i]])];
        }
      }
    }
  }

  // ---------------------------------------------------------------------------------------------
  // Instantiation in one unit
  // ---------------------------------------------------------------------------------------------

  /** path[0] requests path[1], and so on. */
  predicate RequestPath(templates: map<Key, Template>, path: seq<Key>) {
    && (forall i :: 0 <= i < |path| ==> path[i] in templates)
    && forall i :: 0 < i < |path| ==> Request(path[i]) in templates[path[i - 1]].body
  }

  /** A chain of requests from key to a body that is rejected. */
  ghost predicate Culprit(templates: map<Key, Template>, key: Key, path: seq<Key>) {
    path != [] && path[0] == key && RequestPath(templates, path) && Reject in templates[path[|path| - 1]].body
  }

  /** Different instances with bodies of their own have different symbols. */
  ghost predicate SymbolsDistinct(templates: map<Key, Template>) {
    forall j <- templates, k <- templates ::
      !templates[j].shared && !templates[k].shared && templates[j].symbol == templates[k].symbol ==> j == k
  }

  ghost predicate IsStackOf(stack: seq<Key>, keys: set<Key>) {
    Distinct(stack) && forall k :: k in keys <==> k in stack
  }

  lemma PushKey(stack: seq<Key>, keys: set<Key>, key: Key)
    requires IsStackOf(stack, keys) && key !in keys
    ensures IsStackOf(stack + [key], keys + {key}) && (stack + [key])[..|stack|] == stack
    ensures keys + {key} - {key} == keys
  {
  }

  lemma PopKey(stack: seq<Key>, keys: set<Key>)
    requires IsStackOf(stack, keys) && stack != []
    ensures IsStackOf(stack[..|stack| - 1], keys - {stack[|stack| - 1]})
  {
    var rest, last := stack[..|stack| - 1], stack[|stack| - 1];
    assert stack == rest + [last];
  }

  class UnitAnalyzer {
    const unit: string
    const registry: GenericInstanceRegistry?
    const templates: map<Key, Template>
    var inProgress: set<Key>
    var emitted: set<Key>
    /** Symbols of the functions of the unit's module, in the order they were added. */
    var functions: seq<string>
    /** Instances whose body is being analysed, innermost last. */
    ghost var stack: seq<Key>
    /** Symbols that were there before any instance. */
    ghost const ordinary: seq<string>

    ghost predicate Valid()
      reads this, registry
    {
      && unit != "" && Closed(templates)
      && IsStackOf(stack, inProgress)
      && inProgress !! emitted && inProgress + emitted <= templates.Keys
      && Distinct(functions) && (forall s <- ordinary :: s in functions)
      && (forall k <- emitted :: templates[k].symbol in functions && Reject !in templates[k].body)
      && (forall k <- inProgress + emitted :: !templates[k].shared)
      && (registry != null ==> OwnedBy(registry.owners, unit, inProgress + emitted))
    }

    /** Apart from the ordinary functions the module holds bodies of emitted instances only; an aborted
        instance leaves nothing behind. */
    ghost predicate Accounted()
      reads this
    {
      forall s <- functions :: AccountedFor(s)
    }

    ghost predicate AccountedFor(symbol: string)
      reads this
    {
      symbol in ordinary || exists k :: k in emitted && k in templates && templates[k].symbol == symbol
    }

    /** Somebody provides a body for k: it is a C symbol, another unit's, or this unit's, now or when the
        analyses in progress have ended. */
    ghost predicate Provided(k: Key)
      requires k in templates
      reads this, registry
    {
      || templates[k].shared
      || (registry != null && Emitter(registry.owners, k).Some? && Emitter(registry.owners, k) != Some(unit))
      || k in inProgress + emitted
      || templates[k].symbol in functions
    }

    /** The body of k is the business of this unit, and not already under way. */
    ghost predicate Pending(k: Key)
      reads this, registry
    {
      && k in templates && !templates[k].shared && templates[k].symbol !in ordinary && k !in inProgress
      && (registry != null ==> Emitter(registry.owners, k) in {None, Some(unit)})
    }

    /** When everything that emitted bodies request is provided for, no chain of pending bodies leads from a
        provided key to a rejected one. */
    lemma NoPendingCulprit(key: Key, path: seq<Key>)
      requires Valid() && RequestsProvided() && Accounted() && SymbolsDistinct(templates)
      requires key in templates && Provided(key) && Culprit(templates, key, path)
      ensures exists k <- path :: !Pending(k)
      decreases |path|
    {
      if Pending(key) {
        assert key in emitted;
        assert BodyProvided(key);
        var next := path[1];
        assert Request(next) in templates[key].body;
        NoPendingCulprit(next, path[1..]);
        var k :| k in path[1..] && !Pending(k);
        assert k in path;
      }
    }

    ghost predicate RequestsProvided()
      requires Valid()
      reads this, registry
    {
      forall k <- emitted :: BodyProvided(k)
    }

    ghost predicate BodyProvided(k: Key)
      requires k in templates && Closed(templates)
      reads this, registry
    {
      forall s <- templates[k].body :: s.Request? ==> Provided(s.key)
    }

    constructor (unit: string, registry: GenericInstanceRegistry?, templates: map<Key, Template>,
        functions: seq<string>)
      requires unit != "" && Closed(templates) && Distinct(functions)
      ensures this.unit == unit && this.registry == registry && this.templates == templates
      ensures Valid() && RequestsProvided() && inProgress == {} && emitted == {} && this.functions == functions
      ensures Accounted() && ordinary == functions
    {
      this.unit, this.registry, this.templates := unit, registry, templates;
      this.functions, inProgress, emitted, stack := functions, {}, {}, [];
      ordinary := functions;
    }

    /** True when this unit has to emit the instance; the first unit to ask becomes its emitter. */
    method ClaimEmission(key: Key) returns (shouldEmit: bool)
      requires Valid() && key in templates
      modifies registry
      ensures Valid() && (old(RequestsProvided()) ==> RequestsProvided())
      ensures registry != null ==> ClaimedBy(old(registry.owners), registry.owners, unit)
      ensures registry != null ==> shouldEmit == (Emitter(registry.owners, key) == Some(unit))
      ensures registry != null ==> Emitter(registry.owners, key).Some?
      ensures registry == null ==> shouldEmit
    {
      if registry == null {
        return true;
      }
      var emitter := Emitter(registry.owners, key);
      if emitter.Some? {
        return emitter.value == unit;
      }
      registry.Claim(key, unit);
      shouldEmit := true;
    }

    /** Every exit leaves the keys in progress as they were. Bodies are only added, none twice, and
        emitters never change. A failure is a rejected body that the key leads to through bodies pending here;
        after a success the key and everything that emitted bodies request is provided for, and no rejected
        body can be reached like that. */
    method InstantiateGenericFunction(key: Key) returns (ok: bool, ghost culprit: seq<Key>)
      requires Valid() && key in templates
      modifies this, registry
      ensures Valid() && stack == old(stack) && inProgress == old(inProgress)
      ensures emitted >= old(emitted) && old(functions) <= functions && (old(Accounted()) ==> Accounted())
      ensures registry != null ==> ClaimedBy(old(registry.owners), registry.owners, unit)
      ensures !ok ==> Culprit(templates, key, culprit) && forall k <- culprit :: old(Pending(k))
      ensures ok && old(RequestsProvided()) ==> RequestsProvided() && Provided(key)
      ensures ok && old(RequestsProvided() && Accounted()) && SymbolsDistinct(templates) ==>
        forall path | Culprit(templates, key, path) :: exists k <- path :: !old(Pending(k))
      decreases templates.Keys - inProgress, 2
    {
      ok, culprit := true, [];
      var t := templates[key];
      var shouldEmit := false;
      if !t.shared {
        shouldEmit := ClaimEmission(key);
      }
      if shouldEmit && key !in emitted && key !in inProgress && t.symbol !in functions {
        ok, culprit := Emit(key);
      }
      if ok && old(RequestsProvided() && Accounted()) && SymbolsDistinct(templates) {
        forall path | Culprit(templates, key, path) ensures exists k <- path :: !old(Pending(k)) {
          NoPendingCulprit(key, path);
          var k :| k in path && !Pending(k);
          assert !old(Pending(k));
        }
      }
    }

    /** Under the emission guard: whatever happens, the key leaves the keys in progress again, and it
        counts as emitted only when its analysis was completed. */
    method Emit(key: Key) returns (ok: bool, ghost culprit: seq<Key>)
      requires Valid() && key in templates && key !in inProgress + emitted && !templates[key].shared
      requires registry != null ==> Emitter(registry.owners, key) == Some(unit)
      requires templates[key].symbol !in functions
      modifies this, registry
      ensures Valid() && stack == old(stack) && inProgress == old(inProgress)
      ensures emitted >= old(emitted) && old(functions) <= functions && (old(Accounted()) ==> Accounted())
      ensures registry != null ==> ClaimedBy(old(registry.owners), registry.owners, unit)
      ensures !ok ==> Culprit(templates, key, culprit) && key !in emitted
      ensures !ok ==> forall k <- culprit :: old(Pending(k))
      ensures ok ==> key in emitted
      ensures ok && old(RequestsProvided()) ==> RequestsProvided()
      decreases templates.Keys - inProgress, 0
    {
      EnterGuard(key);
      label entered:
      ok, culprit := AnalyzeBody(key);
      forall k <- culprit | !ok ensures old(Pending(k)) {
        assert k == key || k in culprit[1..];
        assert k == key || old@entered(Pending(k));
      }
      FinishInstance(key, ok);
    }

    /** A completed body is added before its guard is left. */
    method FinishInstance(key: Key, completed: bool)
      requires Valid() && stack != [] && stack[|stack| - 1] == key
      requires completed ==> Reject !in templates[key].body
      modifies `functions, `inProgress, `emitted, `stack
      ensures Valid() && stack == old(stack)[..|old(stack)| - 1] && inProgress == old(inProgress) - {key}
      ensures emitted == if completed then old(emitted) + {key} else old(emitted)
      ensures old(functions) <= functions && (!completed ==> functions == old(functions))
      ensures completed && old(RequestsProvided() && BodyProvided(key)) ==> RequestsProvided()
      ensures old(Accounted()) ==> Accounted()
    {
      if completed {
        AddInstance(key);
      }
      LeaveGuard(key, completed);
    }

    method AddInstance(key: Key)
      requires Valid() && key in inProgress
      modifies `functions
      ensures Valid() && templates[key].symbol in functions && old(functions) <= functions
      ensures forall s <- functions :: s in old(functions) || s == templates[key].symbol
      ensures old(RequestsProvided()) ==> RequestsProvided()
      ensures old(BodyProvided(key)) ==> BodyProvided(key)
    {
      var symbol := templates[key].symbol;
      if symbol !in functions {
        DistinctSnoc(functions, symbol);
        functions := functions + [symbol];
        if old(RequestsProvided()) {
          forall k <- emitted ensures BodyProvided(k) {
            assert old(BodyProvided(k));
          }
        }
      }
    }

    method EnterGuard(key: Key)
      requires Valid() && key in templates && key !in inProgress + emitted && !templates[key].shared
      requires registry != null ==> Emitter(registry.owners, key) == Some(unit)
      modifies `inProgress, `stack
      ensures Valid() && stack == old(stack) + [key] && inProgress == old(inProgress) + {key}
      ensures old(RequestsProvided()) ==> RequestsProvided()
    {
      PushKey(stack, inProgress, key);
      inProgress, stack := inProgress + {key}, stack + [key];
      if old(RequestsProvided()) {
        forall k <- emitted ensures BodyProvided(k) {
          assert old(BodyProvided(k));
        }
      }
    }

    method LeaveGuard(key: Key, completed: bool)
      requires Valid() && stack != [] && stack[|stack| - 1] == key
      requires completed ==> templates[key].symbol in functions && Reject !in templates[key].body
      modifies `inProgress, `emitted, `stack
      ensures Valid() && stack == old(stack)[..|old(stack)| - 1] && inProgress == old(inProgress) - {key}
      ensures emitted == if completed then old(emitted) + {key} else old(emitted)
      ensures completed && old(RequestsProvided() && BodyProvided(key)) ==> RequestsProvided()
      ensures forall s :: old(AccountedFor(s)) || (completed && s == templates[key].symbol) ==> AccountedFor(s)
    {
      PopKey(stack, inProgress);
      inProgress, stack := inProgress - {key}, stack[..|stack| - 1];
      if completed {
        emitted := emitted + {key};
        assert inProgress + emitted == old(inProgress + emitted);
        if old(RequestsProvided() && BodyProvided(key)) {
          forall k <- emitted ensures BodyProvided(k) {
            assert old(BodyProvided(k));
          }
        }
      }
    }

    method AnalyzeBody(key: Key) returns (ok: bool, ghost culprit: seq<Key>)
      requires Valid() && key in inProgress
      modifies this, registry
      ensures Valid() && stack == old(stack) && inProgress == old(inProgress)
      ensures emitted >= old(emitted) && old(functions) <= functions && (old(Accounted()) ==> Accounted())
      ensures registry != null ==> ClaimedBy(old(registry.owners), registry.owners, unit)
      ensures !ok ==> Culprit(templates, key, culprit) && forall k <- culprit[1..] :: old(Pending(k))
      ensures ok ==> Reject !in templates[key].body
      ensures ok && old(RequestsProvided()) ==> RequestsProvided()
      ensures ok && old(RequestsProvided()) ==> BodyProvided(key)
      decreases templates.Keys - inProgress, 3
    {
      var body := templates[key].body;
      culprit := [];
      for i := 0 to |body|
        invariant Valid() && stack == old(stack) && inProgress == old(inProgress)
        invariant emitted >= old(emitted) && old(functions) <= functions && (old(Accounted()) ==> Accounted())
        invariant registry != null ==> ClaimedBy(old(registry.owners), registry.owners, unit)
        invariant Reject !in body[..i]
        invariant old(RequestsProvided()) ==> RequestsProvided()
        invariant old(RequestsProvided()) ==> forall s <- body[..i] :: s.Request? ==> Provided(s.key)
      {
        match body[i]
        case Reject =>
          return false, [key];
        case Request(r) =>
          var nested, path := InstantiateGenericFunction(r);
          if !nested {
            return false, [key] + path;
          }
      }
      ok := true;
    }

    /** A request from ordinary code. It fails exactly when bodies pending here lead to a rejected one. After a
        success nothing is in progress, and whatever an emitted body requests is a C symbol, the business of
        another unit, or has a function here. */
    method InstantiateFromCode(key: Key) returns (ok: bool, ghost culprit: seq<Key>)
      requires Valid() && key in templates && inProgress == {}
      modifies this, registry
      ensures Valid() && inProgress == {} && (old(Accounted()) ==> Accounted())
      ensures registry != null ==> ClaimedBy(old(registry.owners), registry.owners, unit)
      ensures !ok ==> Culprit(templates, key, culprit) && forall k <- culprit :: old(Pending(k))
      ensures old(RequestsProvided() && Accounted()) && SymbolsDistinct(templates) ==>
        (!ok <==> exists path :: Culprit(templates, key, path) && forall k <- path :: old(Pending(k)))
      ensures ok && old(RequestsProvided()) ==> RequestsProvided()
      ensures ok && old(RequestsProvided()) ==> forall k <- emitted, s <- templates[k].body :: s.Request? ==>
        || templates[s.key].shared
        || templates[s.key].symbol in functions
        || (registry != null && Emitter(registry.owners, s.key).Some? && Emitter(registry.owners, s.key) != Some(unit))
    {
      ok, culprit := InstantiateGenericFunction(key);
      forall k <- emitted, s <- templates[k].body | ok && old(RequestsProvided()) && s.Request?
        ensures Provided(s.key)
      {
        assert BodyProvided(k);
      }
    }
  }

  /** Two units of one build never emit the same instance, and neither disturbs the other's claims. */
  method InstantiateInTwoUnits(a: UnitAnalyzer, b: UnitAnalyzer, keyA: Key, keyB: Key) returns (okA: bool, okB: bool)
    requires a != b && a.unit != b.unit && a.registry != null && a.registry == b.registry
    requires a.Valid() && b.Valid() && keyA in a.templates && keyB in b.templates
    modifies a, b, a.registry
    ensures a.Valid() && b.Valid() && a.emitted !! b.emitted
    ensures a.inProgress == old(a.inProgress) && b.inProgress == old(b.inProgress)
    ensures ClaimsKept(old(a.registry.owners), a.registry.owners)
  {
    ghost var culprit;
    okA, culprit := a.InstantiateGenericFunction(keyA);
    okB, culprit := b.InstantiateGenericFunction(keyB);
    assert OwnedBy(a.registry.owners, b.unit, b.emitted);
  }
}
