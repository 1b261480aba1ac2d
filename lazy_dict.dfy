/**
 * arthoolbox.collections.lazydict: a dictionary whose LazyValue entries are
 * built on first access and cached. Python values are modelled by a small
 * datatype; a callable is known by a number, and what calling it returns is
 * a given function `call` (its side effects and exceptions are not part of
 * the model). Keys keep insertion order, as a Python dict does.
 */
module LazyDict {
  import opened Wrappers

  /** The exceptions the dictionary raises. */
  datatype PyError = KeyError

  /** A Python value: anything else, a string, a tuple, a callable, or a LazyValue. */
  datatype Value =
    | Atom(n: int)
    | Str(s: string)
    | Tuple(items: seq<Value>)
    | Callable(id: nat)
    | Lazy(thunk: Thunk)

  /** What a LazyValue calls: a given callable, or the lambda that packs its arguments into a tuple. */
  datatype Callee = Call(id: nat) | PackArguments

  /** The function, positional arguments and keyword arguments a LazyValue keeps. */
  datatype Thunk = Thunk(callee: Callee, args: seq<Value>, kwargs: seq<(string, Value)>)

  /** What calling the callable `id` with positional and keyword arguments returns. */
  type Caller = (nat, seq<Value>, seq<(string, Value)>) -> Value

  /**
   * LazyValue(func, *args, **kwargs): a callable func is kept with args;
   * anything else becomes the first argument of the packing lambda.
   */
  function MakeLazy(func: Value, args: seq<Value>, kwargs: seq<(string, Value)>): (t: Thunk)
    ensures t.kwargs == kwargs
    ensures func.Callable? ==> t.callee == Call(func.id) && t.args == args
    ensures !func.Callable? ==> t.callee == PackArguments && t.args == [func] + args
  {
    if func.Callable? then Thunk(Call(func.id), args, kwargs)
    else Thunk(PackArguments, [func] + args, kwargs)
  }

  /** kwargs.items() as a sequence of (name, value) tuples. */
  function KeywordItems(kwargs: seq<(string, Value)>): (r: seq<Value>)
    ensures |r| == |kwargs|
    ensures forall i :: 0 <= i < |kwargs| ==> r[i] == Tuple([Str(kwargs[i].0), kwargs[i].1])
  {
    if kwargs == [] then []
    else KeywordItems(kwargs[..|kwargs| - 1]) + [Tuple([Str(kwargs[|kwargs| - 1].0), kwargs[|kwargs| - 1].1])]
  }

  /** LazyValue.construct(): call the function with the stored arguments. */
  function Construct(t: Thunk, call: Caller): Value {
    match t.callee
    case Call(id) => call(id, t.args, t.kwargs)
    case PackArguments => Tuple(t.args + KeywordItems(t.kwargs))
  }

  /** A LazyValue of a callable calls it with exactly the given arguments. */
  lemma ConstructCallsCallable(id: nat, args: seq<Value>, kwargs: seq<(string, Value)>, call: Caller)
    ensures Construct(MakeLazy(Callable(id), args, kwargs), call) == call(id, args, kwargs)
  {
  }

  /** A LazyValue of anything else builds the tuple (func, *args, *kwargs.items()). */
  lemma ConstructPacksNonCallable(func: Value, args: seq<Value>, kwargs: seq<(string, Value)>, call: Caller)
    requires !func.Callable?
    ensures Construct(MakeLazy(func, args, kwargs), call) == Tuple([func] + args + KeywordItems(kwargs))
  {
  }

  /** The dictionary's contents: its keys in insertion order and the value of each. */
  datatype State = State(order: seq<Value>, entries: map<Value, Value>)

  /** No key is listed twice. */
  predicate Distinct(s: seq<Value>) {
    forall i, j :: 0 <= i < j < |s| ==> s[i] != s[j]
  }

  /** The keys are listed once each, and exactly the keys of the map are listed. */
  ghost predicate Valid(st: State) {
    Distinct(st.order) && (forall k :: k in st.entries <==> k in st.order)
  }

  /** s without k. */
  function Remove(s: seq<Value>, k: Value): (r: seq<Value>)
    ensures forall x :: x in r <==> x in s && x != k
    ensures |r| <= |s|
  {
    if s == [] then []
    else if s[0] == k then Remove(s[1..], k)
    else [s[0]] + Remove(s[1..], k)
  }

  /** d[key] = value: the key is added at the end if new, and its value replaced. */
  function SetItemSpec(st: State, key: Value, value: Value): State {
    State(if key in st.entries then st.order else st.order + [key], st.entries[key := value])
  }

  /** del d[key]: KeyError when absent, otherwise the key is gone. */
  function DelItemSpec(st: State, key: Value): Result<State, PyError> {
    if key !in st.entries then Failure(KeyError)
    else Success(State(Remove(st.order, key), st.entries - {key}))
  }

  /**
   * d[key]: KeyError when absent; a LazyValue is replaced by what its
   * construct() returns; the (possibly new) stored value is returned.
   */
  function GetItemSpec(st: State, key: Value, call: Caller): (State, Result<Value, PyError>) {
    if key !in st.entries then (st, Failure(KeyError))
    else if st.entries[key].Lazy? then
      var v := Construct(st.entries[key].thunk, call);
      (State(st.order, st.entries[key := v]), Success(v))
    else (st, Success(st.entries[key]))
  }

  /** Removing a key from a list where it occurs once keeps the others distinct. */
  lemma {:induction false} RemoveKeepsDistinct(s: seq<Value>, k: Value)
    requires Distinct(s)
    ensures Distinct(Remove(s, k))
  {
    if s != [] {
      RemoveKeepsDistinct(s[1..], k);
      var r := Remove(s, k);
      if s[0] != k {
        assert r == [s[0]] + Remove(s[1..], k);
        forall i, j | 0 <= i < j < |r| ensures r[i] != r[j] {
          if i == 0 {
            assert r[j] in Remove(s[1..], k);
            assert s[0] !in s[1..];
          }
        }
      }
    }
  }

  /** Removing the last key of a list where it is new gives the list back. */
  lemma {:induction false} RemoveAppended(s: seq<Value>, k: Value)
    requires k !in s
    ensures Remove(s + [k], k) == s
  {
    if s == [] {
      assert Remove([k], k) == Remove([], k);
    } else {
      assert (s + [k])[1..] == s[1..] + [k];
      assert k !in s[1..];
      RemoveAppended(s[1..], k);
      assert s[0] != k;
    }
  }

  /** setitem keeps the state valid and changes only `key`. */
  lemma SetItemKeepsValid(st: State, key: Value, value: Value)
    requires Valid(st)
    ensures Valid(SetItemSpec(st, key, value))
    ensures SetItemSpec(st, key, value).entries[key] == value
    ensures forall k :: k != key ==> (k in SetItemSpec(st, key, value).entries <==> k in st.entries)
    ensures forall k :: k != key && k in st.entries ==> SetItemSpec(st, key, value).entries[k] == st.entries[k]
  {
  }

  /** delitem keeps the state valid and removes only `key`. */
  lemma DelItemKeepsValid(st: State, key: Value)
    requires Valid(st) && key in st.entries
    ensures DelItemSpec(st, key).Success?
    ensures Valid(DelItemSpec(st, key).value) && key !in DelItemSpec(st, key).value.entries
    ensures forall k :: k != key && k in st.entries ==> DelItemSpec(st, key).value.entries[k] == st.entries[k]
  {
    RemoveKeepsDistinct(st.order, key);
  }

  /** Setting a new key and deleting it again gives the dictionary back. */
  lemma SetThenDelete(st: State, key: Value, value: Value)
    requires Valid(st) && key !in st.entries
    ensures DelItemSpec(SetItemSpec(st, key, value), key) == Success(st)
  {
    RemoveAppended(st.order, key);
    assert st.entries[key := value] - {key} == st.entries;
  }

  /** Deleting an absent key raises KeyError. */
  lemma DelAbsentRaises(st: State, key: Value)
    requires key !in st.entries
    ensures DelItemSpec(st, key) == Failure(KeyError)
  {
  }

  /** getitem keeps the state valid. */
  lemma GetItemKeepsValid(st: State, key: Value, call: Caller)
    requires Valid(st)
    ensures Valid(GetItemSpec(st, key, call).0)
  {
  }

  /** getitem of an absent key raises KeyError and changes nothing. */
  lemma GetItemAbsent(st: State, key: Value, call: Caller)
    requires key !in st.entries
    ensures GetItemSpec(st, key, call) == (st, Failure(KeyError))
  {
  }

  /** The first getitem of a LazyValue stores and returns what construct() returns. */
  lemma GetItemConstructs(st: State, key: Value, call: Caller)
    requires key in st.entries && st.entries[key].Lazy?
    ensures var v := Construct(st.entries[key].thunk, call);
      GetItemSpec(st, key, call) == (State(st.order, st.entries[key := v]), Success(v))
  {
  }

  /** getitem of a plain value returns it and changes nothing. */
  lemma GetItemPlain(st: State, key: Value, call: Caller)
    requires key in st.entries && !st.entries[key].Lazy?
    ensures GetItemSpec(st, key, call) == (st, Success(st.entries[key]))
  {
  }

  /**
   * Once constructed, a value is cached: a second getitem returns the same
   * value without constructing again, whatever `call` now returns (unless
   * construct() itself returned a LazyValue).
   */
  lemma GetItemCaches(st: State, key: Value, call: Caller, later: Caller)
    requires key in st.entries
    requires var (st', r) := GetItemSpec(st, key, call); r.Success? && !r.value.Lazy?
    ensures var (st', r) := GetItemSpec(st, key, call);
      GetItemSpec(st', key, later) == (st', r)
  {
  }

  /** The number of keys of a valid state is the length of its key list. */
  lemma {:induction false} CardinalityIsLength(order: seq<Value>, keys: set<Value>)
    requires Distinct(order)
    requires forall k :: k in keys <==> k in order
    ensures |keys| == |order|
  {
    if order != [] {
      var x := order[|order| - 1];
      var rest := order[..|order| - 1];
      assert x !in rest;
      forall k ensures k in keys - {x} <==> k in rest {
        if k in rest {
          var i :| 0 <= i < |rest| && rest[i] == k;
          assert order[i] == k;
        }
        if k in order && k != x {
          var i :| 0 <= i < |order| && order[i] == k;
          assert i < |order| - 1;
          assert rest[i] == k;
        }
      }
      CardinalityIsLength(rest, keys - {x});
    }
  }

  /** The dictionary, updated in place. */
  class LazyDictionary {
    var order: seq<Value>
    var entries: map<Value, Value>

    ghost function Model(): State
      reads this
    {
      State(order, entries)
    }

    /** _LazyDict(**kwargs): the keyword arguments, in order, as string keys. */
    constructor (kwargs: seq<(string, Value)>)
      requires forall i, j :: 0 <= i < j < |kwargs| ==> kwargs[i].0 != kwargs[j].0
      ensures Valid(Model())
      ensures |order| == |kwargs| && forall i :: 0 <= i < |kwargs| ==> order[i] == Str(kwargs[i].0)
      ensures forall i :: 0 <= i < |kwargs| ==> entries[Str(kwargs[i].0)] == kwargs[i].1
    {
      var o: seq<Value> := [];
      var e: map<Value, Value> := map[];
      for i := 0 to |kwargs|
        invariant |o| == i && forall j :: 0 <= j < i ==> o[j] == Str(kwargs[j].0)
        invariant forall j :: 0 <= j < i ==> Str(kwargs[j].0) in e && e[Str(kwargs[j].0)] == kwargs[j].1
        invariant Valid(State(o, e))
      {
        assert Str(kwargs[i].0) !in o;
        o := o + [Str(kwargs[i].0)];
        e := e[Str(kwargs[i].0) := kwargs[i].1];
      }
      order, entries := o, e;
    }

    /** __setitem__. */
    method SetItem(key: Value, value: Value)
      modifies this
      ensures Model() == SetItemSpec(old(Model()), key, value)
    {
      if key !in entries {
        order := order + [key];
      }
      entries := entries[key := value];
    }

    /** __delitem__: KeyError when the key is absent, and then nothing changes. */
    method DelItem(key: Value) returns (r: Result<(), PyError>)
      modifies this
      ensures var d := DelItemSpec(old(Model()), key);
        (d.Failure? ==> r == Failure(d.error) && Model() == old(Model())) &&
        (d.Success? ==> r == Success(()) && Model() == d.value)
    {
      if key !in entries {
        return Failure(KeyError);
      }
      order := Remove(order, key);
      entries := entries - {key};
      r := Success(());
    }

    /** __getitem__: constructs and caches a LazyValue on first access. */
    method GetItem(key: Value, call: Caller) returns (r: Result<Value, PyError>)
      modifies this
      ensures (Model(), r) == GetItemSpec(old(Model()), key, call)
    {
      if key !in entries {
        return Failure(KeyError);
      }
      if entries[key].Lazy? {
        entries := entries[key := Construct(entries[key].thunk, call)];
      }
      r := Success(entries[key]);
    }

    /** __contains__: lazy entries not yet built count as present. */
    function Contains(key: Value): (r: bool)
      reads this
      requires Valid(Model())
      ensures r <==> key in order
    {
      key in entries
    }

    /** __len__: the number of keys, which is the number of keys iteration yields. */
    function Len(): (r: nat)
      reads this
      requires Valid(Model())
      ensures r == |order|
    {
      CardinalityIsLength(order, entries.Keys);
      |entries|
    }

    /** __iter__: the keys in insertion order, each exactly once. */
    function Keys(): (r: seq<Value>)
      reads this
      requires Valid(Model())
      ensures forall k :: k in r <==> k in entries
      ensures Distinct(r) && |r| == |entries|
      ensures r == order
    {
      CardinalityIsLength(order, entries.Keys);
      order
    }
  }
}
