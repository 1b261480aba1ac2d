/**
 * atb_ProcessArgs: a growable, NULL-terminated argv list of string copies,
 * and the atb_Process / atb_ProcessStatus records. Process control (launch,
 * kill, status queries) talks to the operating system and is not modelled.
 *
 * A `char *` entry is an `Option<string>`: `None` is NULL, `Some(s)` a
 * NUL-terminated string whose text is `s`. strdup makes a copy, which as a
 * value is the same text.
 */
module Process {
  import opened Wrappers
  import CString

  /** The value of an atb_ProcessArgs: the list (NULL or an array of entries) and its size. */
  datatype ArgList = ArgList(list: Option<seq<Option<string>>>, size: nat) {
    /**
     * A NULL list has no entries; otherwise `size` entries are strings and
     * the one at `size` is the NULL terminator.
     */
    predicate Valid() {
      match list
      case None => size == 0
      case Some(l) => size < |l| && l[size] == None && AllPresent(l[..size])
    }

    /** The argument strings, in order. */
    function Entries(): (e: seq<string>)
      requires Valid()
      ensures |e| == size
    {
      if list.None? then [] else Texts(list.value[..size])
    }
  }

  /** atb_ProcessArgs_INITIALIZER and atb_ProcessArgs_Init. */
  const InitArgs := ArgList(None, 0)

  /** No entry of s is NULL. */
  predicate AllPresent(s: seq<Option<string>>) {
    forall i :: 0 <= i < |s| ==> s[i].Some?
  }

  /** The strings of a list of non-NULL entries. */
  function Texts(s: seq<Option<string>>): (t: seq<string>)
    requires AllPresent(s)
    ensures |t| == |s|
    ensures forall i :: 0 <= i < |s| ==> s[i] == Some(t[i])
  {
    seq(|s|, i requires 0 <= i < |s| => s[i].value)
  }

  /** The entries pointing at the strings of t. */
  function Entries(t: seq<string>): (s: seq<Option<string>>)
    ensures |s| == |t| && AllPresent(s)
    ensures forall i :: 0 <= i < |t| ==> s[i] == Some(t[i])
  {
    seq(|t|, i requires 0 <= i < |t| => Some(t[i]))
  }

  /**
   * atb_ProcessArgs_AppendCStrList with the strings `args`: nothing happens
   * when there are none; otherwise the list is the old entries, copies of
   * `args` in order and a new terminator.
   */
  function AppendSpec(a: ArgList, args: seq<string>): (r: ArgList)
    requires a.Valid()
    ensures r.Valid()
  {
    if args == [] then a
    else
      var kept := if a.list.Some? then a.list.value[..a.size] else [];
      assert AllPresent(kept + Entries(args));
      assert (kept + Entries(args) + [None])[..a.size + |args|] == kept + Entries(args);
      ArgList(Some(kept + Entries(args) + [None]), a.size + |args|)
  }

  /** Texts undoes Entries. */
  lemma TextsOfEntries(t: seq<string>)
    ensures Texts(Entries(t)) == t
  {
  }

  /**
   * Appending adds exactly `args` after the old entries, the size grows by
   * |args|, a non-empty append leaves a list of exactly size + 1 slots ending
   * in NULL, and an empty append changes nothing.
   */
  lemma AppendSpecEntries(a: ArgList, args: seq<string>)
    requires a.Valid()
    ensures AppendSpec(a, args).Entries() == a.Entries() + args
    ensures AppendSpec(a, args).size == a.size + |args|
    ensures args == [] ==> AppendSpec(a, args) == a
    ensures args != [] ==> AppendSpec(a, args).list.Some? && |AppendSpec(a, args).list.value| == a.size + |args| + 1
  {
    var r := AppendSpec(a, args);
    if args != [] {
      var kept := if a.list.Some? then a.list.value[..a.size] else [];
      assert r.list.value[..r.size] == kept + Entries(args);
      assert Texts(kept) == a.Entries();
      var e := r.Entries();
      forall i | 0 <= i < |e| ensures e[i] == (a.Entries() + args)[i] {
        if i < a.size {
          assert r.list.value[i] == kept[i];
        } else {
          assert r.list.value[i] == Entries(args)[i - a.size];
        }
      }
    }
  }

  /** Appending twice appends the concatenation, as the repeated test list shows. */
  lemma AppendTwice(a: ArgList, xs: seq<string>, ys: seq<string>)
    requires a.Valid()
    ensures AppendSpec(AppendSpec(a, xs), ys).Entries() == a.Entries() + xs + ys
  {
    AppendSpecEntries(a, xs);
    AppendSpecEntries(AppendSpec(a, xs), ys);
  }

  /** The whole of a list's entries, appended to an empty list, copies it. */
  lemma AppendToInitCopies(other: ArgList)
    requires other.Valid()
    ensures AppendSpec(InitArgs, other.Entries()).Entries() == other.Entries()
  {
    AppendSpecEntries(InitArgs, other.Entries());
  }

  /**
   * atb_ProcessArgs_AppendCopy forwards `other.list` to AppendCStrList,
   * which asserts it is not NULL: this holds exactly for lists that are
   * allocated.
   */
  predicate AppendCopyPassesAssert(other: ArgList) {
    other.list.Some?
  }


  /** struct atb_ProcessArgs. */
  class ProcessArgs {
    var list: array?<Option<string>>
    var size: nat

    ghost function Model(): ArgList
      reads this, list
    {
      ArgList(if list == null then None else Some(list[..]), size)
    }

    ghost predicate Valid()
      reads this, list
    {
      Model().Valid()
    }

    /** atb_ProcessArgs_INITIALIZER. */
    constructor Initializer()
      ensures Model() == InitArgs
    {
      list, size := null, 0;
    }

    /** atb_ProcessArgs_Init. */
    method Init()
      modifies this
      ensures Model() == InitArgs
    {
      list, size := null, 0;
    }

    /**
     * atb_ProcessArgs_AppendCStrList: the first `count` strings of `argList`
     * are copied after the entries, in a list reallocated to hold them and
     * the terminator. The caller's list must not be this one's, which the
     * reallocation may free.
     */
    method AppendCStrList(argList: array<Option<string>>, count: nat)
      requires Valid() && count <= argList.Length && AllPresent(argList[..count])
      requires argList != list
      modifies this
      ensures Valid() && Model() == AppendSpec(old(Model()), Texts(argList[..count]))
      ensures count > 0 ==> fresh(list)
    {
      if count == 0 {
        return;
      }
      ghost var a := Model();
      var n := size;
      var newList: array<Option<string>>;
      if list != null && size > 0 {
        newList := Realloc(list, size + count + 1);
      } else {
        newList := new Option<string>[count + 1];
      }
      assert newList.Length == n + count + 1;
      ghost var kept := newList[..n];
      assert kept == if a.list.Some? then a.list.value[..a.size] else [];
      for i := 0 to count
        invariant newList[..n] == kept
        invariant forall j :: 0 <= j < i ==> newList[n + j] == argList[j]
      {
        newList[n + i] := Some(argList[i].value);
      }
      newList[n + count] := None;
      ghost var args := Texts(argList[..count]);
      assert newList[..] == kept + Entries(args) + [None] by {
        forall j | 0 <= j < newList.Length ensures newList[j] == (kept + Entries(args) + [None])[j] {
          if j < n {
            assert newList[j] == newList[..n][j];
          } else if j < n + count {
            assert argList[j - n] == argList[..count][j - n];
          }
        }
      }
      list := newList;
      size := n + count;
      assert |args| == count > 0;
    }

    /**
     * atb_ProcessArgs_AppendCopy: appends copies of all of other's entries,
     * leaving other as it was. `other.list` is handed on as is, so it must
     * not be NULL.
     */
    method AppendCopy(other: ProcessArgs)
      requires Valid() && other.Valid() && other.list != null && other.list != list
      modifies this
      ensures Valid() && Model() == AppendSpec(old(Model()), old(other.Model().Entries()))
      ensures other.Model() == old(other.Model())
    {
      AppendCStrList(other.list, other.size);
    }

    /** AppendCopy, skipping the call when other has no entries. */
    method AppendCopyOfAny(other: ProcessArgs)
      requires Valid() && other.Valid() && (other.list == null || other.list != list)
      modifies this
      ensures Valid() && Model() == AppendSpec(old(Model()), old(other.Model().Entries()))
      ensures other.Model() == old(other.Model())
    {
      if other.size > 0 {
        AppendCStrList(other.list, other.size);
      }
    }

    /**
     * atb_ProcessArgs_Delete: every entry is released (set to NULL) and the
     * structure is reset to the empty list.
     */
    method Delete()
      requires Valid()
      modifies this, list
      ensures Model() == InitArgs
      ensures old(list) != null ==> forall i :: 0 <= i < old(size) ==> old(list)[i] == None
    {
      var l, n := list, size;
      if l != null {
        var i := 0;
        while i != n
          invariant 0 <= i <= n < l.Length
          invariant forall j :: 0 <= j < i ==> l[j] == None
        {
          if l[i] != None {
            l[i] := None;
          }
          i := i + 1;
        }
      }
      Init();
    }
  }

  /**
   * A freshly initialised, empty list does not pass that assertion: its
   * array is NULL, which is exactly what AppendCopy's precondition
   * `other.list != null` rejects.
   */
  lemma AppendCopyOfInitialisedArgsFailsAssert(other: ProcessArgs)
    requires other.Model() == InitArgs
    ensures InitArgs.Valid() && InitArgs.Entries() == []
    ensures !AppendCopyPassesAssert(InitArgs)
    ensures other.list == null
    ensures AppendCopyPassesAssert(other.Model()) <==> other.list != null
  {
  }

  /** realloc of a list to n slots: the common prefix is kept, the rest is yet to be written. */
  method Realloc(a: array<Option<string>>, n: nat) returns (b: array<Option<string>>)
    ensures fresh(b) && b.Length == n
    ensures forall i :: 0 <= i < n && i < a.Length ==> b[i] == a[i]
  {
    b := new Option<string>[n];
    var m := if a.Length <= n then a.Length else n;
    forall i | 0 <= i < m {
      b[i] := a[i];
    }
  }

  /** The state of a process, with the exit code or signal only where they apply. */
  datatype ProcessStatus = Exited(exitCode: int) | Killed(sigId: int) | Running

  /** struct atb_Process: the executable path and the pid. */
  class ProcessRecord {
    var path: CString.DynString
    var pid: int

    /** atb_Process_INITIALIZER. */
    constructor Initializer()
      ensures path.Model() == CString.Empty && pid == 0 && fresh(path)
    {
      path := new CString.DynString.MakeEmpty();
      pid := 0;
    }

    /** atb_Process_Init. */
    method Init()
      modifies this, path
      ensures path == old(path) && path.Model() == CString.Empty && pid == 0
    {
      path.Init();
      pid := 0;
    }
  }
}
