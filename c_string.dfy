/**
 * atb_String: a growable, NUL-terminated character buffer on the heap, with
 * the non-owning views that point into such buffers.
 *
 * The buffer is an `array?<char>` (null when nothing is allocated). Every
 * state-changing operation of the class is proved against a specification
 * function on the value `Str`, and the properties the library promises are
 * lemmas about those specification functions.
 */
module CString {
  import opened Wrappers

  /**
   * The bytes that fresh memory holds: malloc and realloc leave them
   * indeterminate, so every operation that may allocate takes them as a
   * parameter (byte i of a fresh block of memory is junk(i)).
   */
  type Memory = nat -> char

  /** A fill generator: FillRange writes gen(k) k places after `first`. */
  type Generator = nat -> char

  /** The value of an atb_String: its buffer (absent when data is NULL), capacity and size. */
  datatype Str = Str(buffer: Option<seq<char>>, capacity: nat, size: nat) {
    /** An unallocated string is empty; an allocated one keeps room for its terminator. */
    predicate Valid() {
      match buffer
      case None => capacity == 0 && size == 0
      case Some(b) => size < capacity <= |b|
    }

    /** The NUL at data[size] that makes the buffer a C string. */
    predicate Terminated() {
      Valid() && (buffer.Some? ==> buffer.value[size] == '\0')
    }

    /** The characters of the string, without the terminator. */
    function Text(): string
      requires Valid()
    {
      if buffer.None? then [] else buffer.value[..size]
    }
  }

  /** atb_String_INITIALIZER: no buffer, capacity 0, size 0. */
  const Empty: Str := Str(None, 0, 0)

  /** b with t copied over it from index `at` on (memcpy). */
  function Overwrite(b: seq<char>, at: nat, t: seq<char>): (r: seq<char>)
    ensures |r| == |b|
  {
    seq(|b|, i requires 0 <= i < |b| => if at <= i < at + |t| then t[i - at] else b[i])
  }

  /** The block realloc returns: n bytes, the first ones copied from b, the rest fresh. */
  function Realloc(b: seq<char>, n: nat, junk: Memory): (r: seq<char>)
    ensures |r| == n
  {
    seq(n, i requires 0 <= i < n => if i < |b| then b[i] else junk(i))
  }

  /** atb_String_Reserve: reallocate the buffer to exactly n bytes. */
  function ReserveSpec(s: Str, n: nat, junk: Memory): (r: Str)
    requires s.Valid()
    ensures n > 0 ==> r.buffer.Some? && r.capacity == n && |r.buffer.value| == n
    ensures n > s.size ==> r.size == s.size
  {
    if n == 0 then s
    else match s.buffer
      case None => Str(Some(Realloc([], n, junk)), n, 0)
      case Some(b) =>
        var grown := Realloc(b, n, junk);
        if n <= s.size then Str(Some(grown[n - 1 := '\0']), n, n - 1)
        else Str(Some(grown), n, s.size)
  }

  /**
   * atb_String_ResizeAndFill: reallocate to new_size + 1 bytes and call the
   * generator on [old size, new_size) only when new_size reaches the old
   * capacity; in every case set the size and write the terminator.
   */
  function ResizeAndFillSpec(s: Str, n: nat, gen: Option<Generator>, junk: Memory): (r: Str)
    requires s.Valid()
  {
    var grown :=
      if n >= s.capacity then
        var t := ReserveSpec(s, n + 1, junk);
        if gen.Some? then t.(buffer := Some(Overwrite(t.buffer.value, t.size, Generated(gen.value, n - t.size))))
        else t
      else s;
    Str(Some(grown.buffer.value[n := '\0']), grown.capacity, n)
  }

  /** The n characters a generator writes into a range of length n. */
  function Generated(gen: Generator, n: nat): (r: seq<char>)
    ensures |r| == n
  {
    seq(n, k requires 0 <= k < n => gen(k))
  }

  /** The generator atb_String_Resize passes: memset with (unsigned char)fill when fill >= 0, none otherwise. */
  function FillWith(fill: int): (gen: Option<Generator>)
    ensures gen.Some? <==> fill >= 0
    ensures fill >= 0 ==> forall k: nat :: gen.value(k) == (fill % 256) as char
  {
    if fill >= 0 then Some((_: nat) => (fill % 256) as char) else None
  }

  /** atb_String_ShrinkToFit: drop the bytes after the terminator when there are any. */
  function ShrinkToFitSpec(s: Str): (r: Str)
    requires s.Valid()
  {
    if s.capacity > s.size + 1 then Str(Some(s.buffer.value[..s.size + 1]), s.size + 1, s.size) else s
  }

  /**
   * atb_String_AppendSubStr: grow to exactly size + |t| + 1 bytes when the
   * capacity does not leave room for t and the terminator, then copy t after
   * the text and terminate. Appending nothing changes nothing.
   */
  function AppendSpec(s: Str, t: seq<char>, junk: Memory): (r: Str)
    requires s.Valid()
  {
    if t == [] then s
    else
      var g := if s.capacity <= s.size + |t| then ReserveSpec(s, s.size + |t| + 1, junk) else s;
      Str(Some(Overwrite(g.buffer.value, g.size, t)[g.size + |t| := '\0']), g.capacity, g.size + |t|)
  }

  /** atb_String_PopN: nothing on an unallocated string, else drop min(n, size) characters. */
  function PopNSpec(s: Str, n: nat): (r: Str)
    requires s.Valid()
  {
    if s.capacity == 0 then s
    else
      var k := if n > s.size then s.size else n;
      Str(Some(s.buffer.value[s.size - k := '\0']), s.capacity, s.size - k)
  }

  /** strlen: the index of the first NUL. */
  function Strlen(s: seq<char>): (n: nat)
    requires '\0' in s
    ensures n < |s| && s[n] == '\0' && '\0' !in s[..n]
  {
    if s[0] == '\0' then 0
    else
      var n := 1 + Strlen(s[1..]);
      assert s[..n] == [s[0]] + s[1..][..n - 1];
      n
  }

  /** atb_StringView and atb_ConstStringView: a pointer (possibly NULL) and a length. */
  datatype View = View(data: array?<char>, size: nat)

  /** A view with a NULL pointer is empty; otherwise it lies inside its array. */
  predicate ViewValid(v: View)
    reads v.data
  {
    if v.data == null then v.size == 0 else v.size <= v.data.Length
  }

  /** The characters a view shows. */
  function ViewText(v: View): string
    reads v.data
    requires ViewValid(v)
  {
    if v.data == null then [] else v.data[..v.size]
  }

  /** atb_StringView_FromCStr / atb_ConstStringView_FromCStr: the characters up to the first NUL. */
  function FromCStr(p: array<char>): (v: View)
    reads p
    requires '\0' in p[..]
    ensures ViewValid(v) && v.data == p
    ensures v.size < p.Length && p[v.size] == '\0' && '\0' !in ViewText(v)
  {
    View(p, Strlen(p[..]))
  }

  /** atb_ConstStringView_FromStaticString: a literal's array without its final NUL. */
  function FromStaticString(p: array<char>): (v: View)
    requires p.Length > 0
    ensures ViewValid(v) && v.data == p && v.size == p.Length - 1
  {
    View(p, p.Length - 1)
  }

  /** For a literal, whose only NUL is its last character, the two ways of viewing it agree. */
  lemma StaticStringIsCStr(p: array<char>)
    requires p.Length > 0 && p[p.Length - 1] == '\0' && '\0' !in p[..p.Length - 1]
    ensures '\0' in p[..] && FromStaticString(p) == FromCStr(p)
  {
    assert p[..][p.Length - 1] == '\0';
  }

  /** The caller's `char *` variable, which MakeByMoving* reads and sets to NULL. */
  class CharPointer {
    var data: array?<char>

    constructor (data: array?<char>)
      ensures this.data == data
    {
      this.data := data;
    }
  }

  /** struct atb_String. */
  class DynString {
    var data: array?<char>
    var capacity: nat
    var size: nat

    /** The value this string holds. */
    ghost function Model(): Str
      reads this, data
    {
      Str(if data == null then None else Some(data[..]), capacity, size)
    }

    ghost predicate Valid()
      reads this, data
    {
      Model().Valid()
    }

    ghost predicate Terminated()
      reads this, data
    {
      Model().Terminated()
    }

    ghost function Text(): string
      reads this, data
      requires Valid()
    {
      Model().Text()
    }

    /** atb_String_MakeEmpty. */
    constructor MakeEmpty()
      ensures Model() == Empty
    {
      data, capacity, size := null, 0, 0;
    }

    /** atb_String_Init: forget the buffer (without freeing it). */
    method Init()
      modifies this
      ensures Model() == Empty
    {
      data, capacity, size := null, 0, 0;
    }

    /** atb_String_Delete: free the buffer and reinitialise; a second Delete finds nothing to free. */
    method Delete()
      modifies this
      ensures Model() == Empty
    {
      Init();
    }

    /** atb_String_MakeCopyFromSubStr: a new string holding a copy of the view. */
    static method MakeCopyFromSubStr(view: View, junk: Memory) returns (s: DynString)
      requires view.data != null && ViewValid(view)
      ensures fresh(s) && s.Valid() && (s.data == null || fresh(s.data))
      ensures s.Model() == AppendSpec(Empty, ViewText(view), junk)
    {
      s := new DynString.MakeEmpty();
      s.AppendSubStr(view, junk);
    }

    /** atb_String_MakeCopyFrom: the copy goes through a view of `other`, which must be allocated. */
    static method MakeCopyFrom(other: DynString, junk: Memory) returns (s: DynString)
      requires other.Valid() && other.data != null
      ensures fresh(s) && s.Valid() && (s.data == null || fresh(s.data))
      ensures s.Model() == AppendSpec(Empty, other.Text(), junk)
    {
      s := MakeCopyFromSubStr(FromStr(other), junk);
    }

    /** atb_String_MakeByMovingSubStr: take over the caller's buffer of `capacity` bytes. */
    static method MakeByMovingSubStr(other: CharPointer, capacity: nat, size: nat) returns (s: DynString)
      requires other.data != null && size < capacity <= other.data.Length
      modifies other, other.data
      ensures fresh(s) && other.data == null
      ensures s.data == old(other.data) && s.capacity == capacity && s.size == size
      ensures s.data[..] == old(other.data[..])[size := '\0']
      ensures s.Valid() && s.Terminated()
    {
      s := new DynString.MakeEmpty();
      s.data, s.capacity, s.size := other.data, capacity, size;
      s.data[s.size] := '\0';
      other.data := null;
    }

    /** atb_String_MakeByMovingCStr: take over a C string; the capacity counts its terminator. */
    static method MakeByMovingCStr(other: CharPointer) returns (s: DynString)
      requires other.data != null && '\0' in other.data[..]
      modifies other, other.data
      ensures fresh(s) && other.data == null && s.data == old(other.data)
      ensures s.size == old(Strlen(other.data[..])) && s.capacity == s.size + 1
      ensures s.data[..] == old(other.data[..])
      ensures s.Valid() && s.Terminated()
    {
      var n := Strlen(other.data[..]);
      s := MakeByMovingSubStr(other, n + 1, n);
    }

    /** atb_String_MakeByMoving: take the fields of `other` as they are and reset it. */
    static method MakeByMoving(other: DynString) returns (s: DynString)
      modifies other
      ensures fresh(s) && s.data == old(other.data)
      ensures s.capacity == old(other.capacity) && s.size == old(other.size)
      ensures s.Model() == old(other.Model())
      ensures other.Model() == Empty
    {
      s := new DynString.MakeEmpty();
      s.data, s.capacity, s.size := other.data, other.capacity, other.size;
      other.Init();
    }

    /** atb_String_Reserve. */
    method Reserve(n: nat, junk: Memory)
      requires Valid()
      modifies this
      ensures Valid() && Model() == ReserveSpec(old(Model()), n, junk)
      ensures if n == 0 then data == old(data) else fresh(data)
    {
      if n == 0 {
        return;
      }
      var block := Realloc(if data == null then [] else data[..], n, junk);
      var a := new char[n](i requires 0 <= i < n => block[i]);
      assert a[..] == block;
      if data == null {
        data, capacity, size := a, n, 0;
      } else {
        data, capacity := a, n;
        if capacity <= size {
          size := capacity - 1;
          data[size] := '\0';
        }
      }
    }

    /** atb_String_ResizeAndFill. */
    method ResizeAndFill(n: nat, gen: Option<Generator>, junk: Memory)
      requires Valid()
      modifies this, data
      ensures Valid() && Model() == ResizeAndFillSpec(old(Model()), n, gen, junk)
      ensures data == old(data) || fresh(data)
    {
      if n >= capacity {
        Reserve(n + 1, junk);
        if gen.Some? {
          FillRange(data, size, n, gen.value);
        }
      }
      size := n;
      data[size] := '\0';
    }

    /** atb_String_Resize: fill the grown range with (unsigned char)fill, or leave it when fill < 0. */
    method Resize(n: nat, fill: int, junk: Memory)
      requires Valid()
      modifies this, data
      ensures Valid() && Model() == ResizeAndFillSpec(old(Model()), n, FillWith(fill), junk)
      ensures data == old(data) || fresh(data)
    {
      ResizeAndFill(n, FillWith(fill), junk);
    }

    /** atb_String_ShrinkToFit. */
    method ShrinkToFit()
      requires Valid()
      modifies this
      ensures Valid() && Model() == ShrinkToFitSpec(old(Model()))
    {
      if capacity > size + 1 {
        ghost var s := Model();
        // Shrinking keeps a prefix of the block, so no fresh byte is ever read.
        var none: Memory := _ => '\0';
        Reserve(size + 1, none);
        ShrinkToFitIsReserve(s, none);
      }
    }

    /** atb_String_AppendSubStr: the view must not start at this string's own buffer. */
    method AppendSubStr(view: View, junk: Memory)
      requires Valid() && view.data != null && ViewValid(view) && view.data != data
      modifies this, data
      ensures Valid() && Model() == AppendSpec(old(Model()), old(ViewText(view)), junk)
      ensures data == old(data) || fresh(data)
    {
      if view.size == 0 {
        assert ViewText(view) == [];
        return;
      }
      if capacity <= size + view.size {
        Reserve(size + view.size + 1, junk);
      }
      Memcpy(data, size, view.data, view.size);
      size := size + view.size;
      data[size] := '\0';
    }

    /** atb_String_Append: `other` must be another string with its own, allocated buffer. */
    method Append(other: DynString, junk: Memory)
      requires Valid() && other.Valid() && other != this && other.data != null && other.data != data
      modifies this, data
      ensures Valid() && Model() == AppendSpec(old(Model()), old(other.Text()), junk)
      ensures other.Model() == old(other.Model())
    {
      AppendSubStr(FromStr(other), junk);
    }

    /** atb_String_PopN. */
    method PopN(n: nat)
      requires Valid()
      modifies this, data
      ensures Valid() && Model() == PopNSpec(old(Model()), n) && data == old(data)
    {
      if capacity != 0 {
        var k := if n > size then size else n;
        size := size - k;
        data[size] := '\0';
      }
    }

    /**
     * atb_String_IsEqualToSubStr: both NULL, or the same size and the same
     * bytes (memcmp of zero bytes compares equal).
     */
    function IsEqualToSubStr(rhs: View): (equal: bool)
      reads this, data, rhs.data
      requires Valid() && ViewValid(rhs)
      ensures equal <==> Text() == ViewText(rhs)
    {
      (data == null && rhs.data == null) || (size == rhs.size && (size == 0 || data[..size] == rhs.data[..size]))
    }

    /** atb_String_IsEqualTo: IsEqualToSubStr against a view of rhs. */
    function IsEqualTo(rhs: DynString): (equal: bool)
      reads this, data, rhs, rhs.data
      requires Valid() && rhs.Valid()
      ensures equal <==> Text() == rhs.Text()
    {
      IsEqualToSubStr(FromStr(rhs))
    }
  }

  /** atb_StringView_FromStr / atb_ConstStringView_FromStr: the string's pointer and size. */
  function FromStr(s: DynString): (v: View)
    reads s, s.data
    ensures s.Valid() ==> ViewValid(v) && ViewText(v) == s.Text()
    ensures v.data == s.data
  {
    View(s.data, s.size)
  }

  /** memcpy(dst + at, src, n) between two distinct arrays. */
  method Memcpy(dst: array<char>, at: nat, src: array<char>, n: nat)
    requires dst != src && n <= src.Length && at + n <= dst.Length
    modifies dst
    ensures dst[..] == Overwrite(old(dst[..]), at, src[..n])
  {
    forall i | 0 <= i < n {
      dst[at + i] := src[i];
    }
  }

  /** The generator's FillRange(self, first, last) on [first, last) of dst. */
  method FillRange(dst: array<char>, first: nat, last: nat, gen: Generator)
    requires first <= last <= dst.Length
    modifies dst
    ensures dst[..] == Overwrite(old(dst[..]), first, Generated(gen, last - first))
  {
    forall i | first <= i < last {
      dst[i] := gen(i - first);
    }
  }

  /** Shrinking through Reserve keeps the first size + 1 bytes and reads no fresh memory. */
  lemma ShrinkToFitIsReserve(s: Str, junk: Memory)
    requires s.Valid() && s.capacity > s.size + 1
    ensures ReserveSpec(s, s.size + 1, junk) == ShrinkToFitSpec(s)
  {
    assert Realloc(s.buffer.value, s.size + 1, junk) == s.buffer.value[..s.size + 1];
  }

  /**
   * Reserve(0) changes nothing; any other capacity is taken exactly. An
   * unallocated string gets a block and size 0; growing keeps the text and
   * its terminator; shrinking to n <= size keeps the first n - 1 characters
   * and terminates them.
   */
  lemma ReserveProperties(s: Str, n: nat, junk: Memory)
    requires s.Valid()
    ensures ReserveSpec(s, n, junk).Valid()
    ensures n == 0 ==> ReserveSpec(s, n, junk) == s
    ensures n > 0 ==> ReserveSpec(s, n, junk).capacity == n
    ensures s.buffer.None? && n > 0 ==> ReserveSpec(s, n, junk).size == 0
    ensures s.buffer.Some? && n > s.size ==>
      ReserveSpec(s, n, junk).Text() == s.Text() && (s.Terminated() ==> ReserveSpec(s, n, junk).Terminated())
    ensures s.buffer.Some? && 0 < n <= s.size ==>
      var r := ReserveSpec(s, n, junk);
      r.size == n - 1 && r.Text() == s.Text()[..n - 1] && r.Terminated()
  {
    var r := ReserveSpec(s, n, junk);
    if s.buffer.Some? && n > 0 {
      var b := s.buffer.value;
      var grown := Realloc(b, n, junk);
      if n > s.size {
        assert r.Text() == s.Text();
      } else {
        assert r.Text() == grown[..n - 1] == s.Text()[..n - 1];
      }
    }
  }

  /** As written: reserving on an unallocated string leaves data[0] as malloc left it. */
  lemma ReserveLeavesFirstByteUnset(n: nat, junk: Memory)
    requires n > 0 && junk(0) != '\0'
    ensures Empty.Terminated() && !ReserveSpec(Empty, n, junk).Terminated()
  {
    assert ReserveSpec(Empty, n, junk).buffer.value[0] == junk(0);
  }

  /** Reserve with the terminator written after a fresh allocation, as every other path does. */
  function ReserveTerminatedSpec(s: Str, n: nat, junk: Memory): (r: Str)
    requires s.Valid()
  {
    var t := ReserveSpec(s, n, junk);
    if s.buffer.None? && n > 0 then t.(buffer := Some(t.buffer.value[0 := '\0'])) else t
  }

  /** With the terminator written, Reserve keeps every terminated string terminated. */
  lemma ReserveTerminatedKeepsTerminator(s: Str, n: nat, junk: Memory)
    requires s.Terminated()
    ensures ReserveTerminatedSpec(s, n, junk).Terminated()
    ensures ReserveTerminatedSpec(s, n, junk).capacity == ReserveSpec(s, n, junk).capacity
    ensures ReserveTerminatedSpec(s, n, junk).Text() == ReserveSpec(s, n, junk).Text()
  {
    ReserveProperties(s, n, junk);
  }

  /**
   * ResizeAndFill always yields a terminated string of size n. The capacity
   * becomes n + 1 when n reaches the old capacity and is kept otherwise, and
   * the text shared by the old and the new size is kept.
   */
  lemma ResizeAndFillProperties(s: Str, n: nat, gen: Option<Generator>, junk: Memory)
    requires s.Valid()
    ensures var r := ResizeAndFillSpec(s, n, gen, junk);
      r.Terminated() && r.size == n &&
      r.capacity == (if n >= s.capacity then n + 1 else s.capacity)
    ensures var m := if n < s.size then n else s.size;
      ResizeAndFillSpec(s, n, gen, junk).Text()[..m] == s.Text()[..m]
  {
    var m := if n < s.size then n else s.size;
    if n >= s.capacity {
      ReserveProperties(s, n + 1, junk);
      var t := ReserveSpec(s, n + 1, junk);
      assert t.Text()[..m] == s.Text()[..m];
    }
  }

  /** When n reaches the old capacity, the generator fills exactly [old size, n). */
  lemma ResizeAndFillCallsGenerator(s: Str, n: nat, gen: Generator, junk: Memory)
    requires s.Valid() && n >= s.capacity
    ensures s.size <= n
    ensures ResizeAndFillSpec(s, n, Some(gen), junk).Text() == s.Text() + Generated(gen, n - s.size)
  {
    ReserveProperties(s, n + 1, junk);
    var r := ResizeAndFillSpec(s, n, Some(gen), junk);
    assert r.Text() == s.Text() + Generated(gen, n - s.size);
  }

  /**
   * As written: growing within the capacity does not call the generator, so
   * the old terminator stays inside the text and the other new characters
   * are whatever the buffer held.
   */
  lemma ResizeWithinCapacityKeepsBuffer(s: Str, n: nat, gen: Option<Generator>, junk: Memory)
    requires s.Valid() && n < s.capacity
    ensures ResizeAndFillSpec(s, n, gen, junk).buffer.value[..n] == s.buffer.value[..n]
    ensures s.Terminated() && s.size < n ==> ResizeAndFillSpec(s, n, gen, junk).Text()[s.size] == '\0'
  {
  }

  /** atb_String_Resize with a non-negative fill writes (unsigned char)fill over the range it grows by reallocating. */
  lemma ResizeFillsGrownRange(s: Str, n: nat, fill: int, junk: Memory)
    requires s.Valid() && n >= s.capacity && fill >= 0
    ensures s.size <= n
    ensures var r := ResizeAndFillSpec(s, n, FillWith(fill), junk);
      r.Text()[..s.size] == s.Text() &&
      forall i :: s.size <= i < n ==> r.Text()[i] == (fill % 256) as char
  {
    ResizeAndFillCallsGenerator(s, n, FillWith(fill).value, junk);
  }

  /** ResizeAndFill that calls the generator on [old size, n) whenever the string grows. */
  function ResizeAndFillGrowingSpec(s: Str, n: nat, gen: Option<Generator>, junk: Memory): (r: Str)
    requires s.Valid()
  {
    var t := if n >= s.capacity then ReserveSpec(s, n + 1, junk) else s;
    var filled :=
      if gen.Some? && n > t.size then t.(buffer := Some(Overwrite(t.buffer.value, t.size, Generated(gen.value, n - t.size))))
      else t;
    Str(Some(filled.buffer.value[n := '\0']), filled.capacity, n)
  }

  /** The growing fill puts the generated characters after the old text in every case. */
  lemma ResizeAndFillGrowingFillsGrownRange(s: Str, n: nat, gen: Generator, junk: Memory)
    requires s.Valid() && s.size <= n
    ensures var r := ResizeAndFillGrowingSpec(s, n, Some(gen), junk);
      r.Terminated() && r.Text() == s.Text() + Generated(gen, n - s.size) &&
      r.capacity == (if n >= s.capacity then n + 1 else s.capacity)
  {
    var r := ResizeAndFillGrowingSpec(s, n, Some(gen), junk);
    if n >= s.capacity {
      ReserveProperties(s, n + 1, junk);
    }
    assert r.Text() == s.Text() + Generated(gen, n - s.size);
  }

  /** The growing fill differs from ResizeAndFill only when growing within the capacity. */
  lemma ResizeAndFillGrowingAgreesWhenReallocating(s: Str, n: nat, gen: Option<Generator>, junk: Memory)
    requires s.Valid() && (n >= s.capacity || n <= s.size || gen.None?)
    ensures ResizeAndFillGrowingSpec(s, n, gen, junk) == ResizeAndFillSpec(s, n, gen, junk)
  {
    if n >= s.capacity && gen.Some? {
      var t := ReserveSpec(s, n + 1, junk);
      if n == t.size {
        assert Overwrite(t.buffer.value, t.size, Generated(gen.value, 0)) == t.buffer.value;
      }
    }
  }

  /**
   * ShrinkToFit keeps the text, brings the capacity down to size + 1 when it
   * was larger, keeps the terminator, and a second ShrinkToFit changes nothing.
   */
  lemma ShrinkToFitProperties(s: Str)
    requires s.Valid()
    ensures var r := ShrinkToFitSpec(s);
      r.Valid() && r.Text() == s.Text() && r.size == s.size &&
      r.capacity == (if s.capacity > s.size + 1 then s.size + 1 else s.capacity) &&
      (s.Terminated() ==> r.Terminated()) &&
      ShrinkToFitSpec(r) == r
  {
  }

  /**
   * AppendSubStr appends t to the text. Nothing changes when t is empty;
   * otherwise the result is terminated, and the capacity becomes exactly
   * size + |t| + 1 when it was at most size + |t| and is kept otherwise.
   */
  lemma AppendProperties(s: Str, t: seq<char>, junk: Memory)
    requires s.Valid()
    ensures var r := AppendSpec(s, t, junk);
      r.Valid() && r.Text() == s.Text() + t && r.size == s.size + |t|
    ensures t == [] ==> AppendSpec(s, t, junk) == s
    ensures t != [] ==> AppendSpec(s, t, junk).Terminated()
    ensures t != [] ==>
      AppendSpec(s, t, junk).capacity == (if s.capacity <= s.size + |t| then s.size + |t| + 1 else s.capacity)
  {
    if t != [] {
      var g := if s.capacity <= s.size + |t| then ReserveSpec(s, s.size + |t| + 1, junk) else s;
      if s.capacity <= s.size + |t| {
        ReserveProperties(s, s.size + |t| + 1, junk);
      }
      var r := AppendSpec(s, t, junk);
      assert r.Text() == s.Text() + t;
    }
  }

  /**
   * atb_String_MakeCopyFromSubStr: an empty view gives an unallocated
   * string; any other gives its text with capacity size + 1.
   */
  lemma CopyProperties(t: seq<char>, junk: Memory)
    ensures t == [] ==> AppendSpec(Empty, t, junk) == Empty
    ensures t != [] ==>
      var r := AppendSpec(Empty, t, junk);
      r.Terminated() && r.Text() == t && r.size == |t| && r.capacity == |t| + 1
  {
    AppendProperties(Empty, t, junk);
  }

  /**
   * PopN does nothing to an unallocated string; otherwise it drops the last
   * min(n, size) characters, keeps the capacity and terminates the rest.
   */
  lemma PopNProperties(s: Str, n: nat)
    requires s.Valid()
    ensures s.capacity == 0 ==> PopNSpec(s, n) == s
    ensures s.capacity != 0 ==>
      var r := PopNSpec(s, n);
      r.Terminated() && r.capacity == s.capacity &&
      r.size == (if n > s.size then 0 else s.size - n) && r.Text() == s.Text()[..r.size]
  {
  }
}
