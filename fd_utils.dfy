/**
 * atb_Fd_ReadBytesUntil: read one byte at a time from a file descriptor into
 * a buffer, stopping after `count` bytes, right after the delimiter, at the
 * end of the input, or on a read error.
 *
 * The file descriptor is modelled as the bytes it still has to deliver and
 * what a read returns once they are used up: 0 (end of file) or -1 (an
 * error, such as an empty non-blocking pipe).
 */
module FdUtils {

  /** What read returns once the available bytes are exhausted. */
  datatype Tail = EndOfFile | ReadError

  /** The number of bytes read and stored, and the value returned. */
  datatype Outcome = Outcome(result: int, consumed: nat)

  /**
   * The number of bytes the loop takes from `rest`: it stops after `count`
   * bytes, after the first delimiter, or when `rest` runs out.
   */
  function Scan(rest: seq<char>, count: nat, delim: char): (k: nat)
    ensures k <= count && k <= |rest|
  {
    if count == 0 || rest == [] then 0
    else if rest[0] == delim then 1
    else 1 + Scan(rest[1..], count - 1, delim)
  }

  /** The loop asked read for one more byte and got none. */
  predicate HitEnd(rest: seq<char>, count: nat, delim: char) {
    var k := Scan(rest, count, delim);
    k < count && k == |rest| && (k == 0 || rest[k - 1] != delim)
  }

  /** atb_Fd_ReadBytesUntil on an input whose remaining bytes are `rest`. */
  function ReadUntilSpec(rest: seq<char>, tail: Tail, count: nat, delim: char): (o: Outcome)
    ensures o.consumed <= count && o.consumed <= |rest|
    ensures o.result == -1 || o.result == o.consumed as int
  {
    var k := Scan(rest, count, delim);
    Outcome(if HitEnd(rest, count, delim) && tail == ReadError then -1 else k, k)
  }

  /** The bytes taken are free of the delimiter, except possibly the last. */
  lemma {:induction false} ScanStopsAtFirstDelimiter(rest: seq<char>, count: nat, delim: char)
    ensures forall i :: 0 <= i < Scan(rest, count, delim) - 1 ==> rest[i] != delim
    ensures var k := Scan(rest, count, delim);
      k == count || k == |rest| || (0 < k && rest[k - 1] == delim)
  {
    if count != 0 && rest != [] && rest[0] != delim {
      ScanStopsAtFirstDelimiter(rest[1..], count - 1, delim);
    }
  }

  /** A delimiter at position d, with none before it and room for it, ends the read right after it. */
  lemma {:induction false} ScanAtDelimiter(rest: seq<char>, count: nat, delim: char, d: nat)
    requires d < count && d < |rest| && rest[d] == delim
    requires forall i :: 0 <= i < d ==> rest[i] != delim
    ensures Scan(rest, count, delim) == d + 1
  {
    if d > 0 {
      assert rest[0] != delim;
      ScanAtDelimiter(rest[1..], count - 1, delim, d - 1);
    }
  }

  /** Without a delimiter among them, the loop takes as many bytes as it may and can. */
  lemma {:induction false} ScanWithoutDelimiter(rest: seq<char>, count: nat, delim: char)
    requires forall i :: 0 <= i < |rest| && i < count ==> rest[i] != delim
    ensures Scan(rest, count, delim) == if count <= |rest| then count else |rest|
  {
    if count != 0 && rest != [] {
      assert rest[0] != delim;
      ScanWithoutDelimiter(rest[1..], count - 1, delim);
    }
  }

  /** A count of zero reads nothing and returns 0. */
  lemma ReadNothing(rest: seq<char>, tail: Tail, delim: char)
    ensures ReadUntilSpec(rest, tail, 0, delim) == Outcome(0, 0)
  {
  }

  /** The delimiter is stored and counted, and nothing after it is read. */
  lemma ReadStopsAfterDelimiter(rest: seq<char>, tail: Tail, count: nat, delim: char, d: nat)
    requires d < count && d < |rest| && rest[d] == delim
    requires forall i :: 0 <= i < d ==> rest[i] != delim
    ensures ReadUntilSpec(rest, tail, count, delim) == Outcome(d + 1, d + 1)
  {
    ScanAtDelimiter(rest, count, delim, d);
  }

  /** With enough bytes and no delimiter among the first `count`, exactly `count` are read. */
  lemma ReadFullCount(rest: seq<char>, tail: Tail, count: nat, delim: char)
    requires count <= |rest|
    requires forall i :: 0 <= i < count ==> rest[i] != delim
    ensures ReadUntilSpec(rest, tail, count, delim) == Outcome(count, count)
  {
    ScanWithoutDelimiter(rest, count, delim);
  }

  /**
   * Running out of input before `count` bytes and without a delimiter: at end
   * of file the bytes read so far are returned (0 if there were none), on an
   * error -1, however many bytes were stored.
   */
  lemma ReadToEnd(rest: seq<char>, tail: Tail, count: nat, delim: char)
    requires |rest| < count && delim !in rest
    ensures ReadUntilSpec(rest, tail, count, delim).consumed == |rest|
    ensures ReadUntilSpec(rest, tail, count, delim).result == if tail == EndOfFile then |rest| else -1
  {
    ScanWithoutDelimiter(rest, count, delim);
  }

  /** The input: the bytes still to deliver and what comes after them. */
  class FileDescriptor {
    const content: seq<char>
    var cursor: nat
    const tail: Tail

    constructor (content: seq<char>, tail: Tail)
      ensures this.content == content && this.tail == tail && cursor == 0
    {
      this.content, this.tail, cursor := content, tail, 0;
    }

    ghost predicate Valid()
      reads this
    {
      cursor <= |content|
    }

    /** The bytes not yet read. */
    ghost function Remaining(): seq<char>
      reads this
      requires Valid()
    {
      content[cursor..]
    }

    /** read(fd, &c, 1): one byte and 1, or 0 at end of file, or -1 on error. */
    method Read() returns (n: int, c: char)
      requires Valid()
      modifies this
      ensures Valid()
      ensures old(cursor) < |content| ==> n == 1 && c == content[old(cursor)] && cursor == old(cursor) + 1
      ensures old(cursor) == |content| ==> n == (if tail == EndOfFile then 0 else -1) && cursor == old(cursor)
    {
      if cursor < |content| {
        n, c := 1, content[cursor];
        cursor := cursor + 1;
      } else {
        n, c := if tail == EndOfFile then 0 else -1, '\0';
      }
    }
  }

  /** b with t written from position at on. */
  function Overwrite(b: seq<char>, at: nat, t: seq<char>): (r: seq<char>)
    requires at + |t| <= |b|
    ensures |r| == |b|
  {
    b[..at] + t + b[at + |t|..]
  }

  /**
   * atb_Fd_ReadBytesUntil(fd, buf + start, count, delim): the bytes read go
   * to buf[start..] in stream order, the cursor moves past exactly them, and
   * the result is as ReadUntilSpec says.
   */
  method ReadBytesUntil(fd: FileDescriptor, buf: array<char>, start: nat, count: nat, delim: char) returns (r: int)
    requires fd.Valid() && start + count <= buf.Length
    modifies fd, buf
    ensures fd.Valid()
    ensures var o := ReadUntilSpec(old(fd.Remaining()), fd.tail, count, delim);
      r == o.result && fd.cursor == old(fd.cursor) + o.consumed &&
      buf[..] == Overwrite(old(buf[..]), start, old(fd.Remaining())[..o.consumed])
  {
    var total, last := ReadLoop(fd, buf, start, count, delim);
    r := if last == -1 then -1 else total;
  }

  /**
   * The loop of atb_Fd_ReadBytesUntil: it returns how many bytes it stored
   * and what the last read returned, -1 exactly when the input ran out
   * early on an error.
   */
  method ReadLoop(fd: FileDescriptor, buf: array<char>, start: nat, count: nat, delim: char) returns (total: nat, last: int)
    requires fd.Valid() && start + count <= buf.Length
    modifies fd, buf
    ensures fd.Valid()
    ensures total == Scan(old(fd.Remaining()), count, delim) && fd.cursor == old(fd.cursor) + total
    ensures buf[..] == Overwrite(old(buf[..]), start, old(fd.Remaining())[..total])
    ensures last == -1 <==> HitEnd(old(fd.Remaining()), count, delim) && fd.tail == ReadError
  {
    ghost var rest := fd.Remaining();
    ghost var b0 := buf[..];
    total, last := 0, 0;
    var c: char;
    assert rest[0..] == rest;
    while total < count
      invariant fd.Valid() && fd.cursor == old(fd.cursor) + total
      invariant ScannedPrefix(rest, count, delim, total)
      invariant buf[..] == Overwrite(b0, start, rest[..total])
      invariant last == (if total == 0 then 0 else 1)
      decreases count - total
    {
      last, c := fd.Read();
      if last != 1 {
        ScanRanOut(rest, count, delim, total);
        return;
      }
      ScanStep(rest, count, delim, total);
      OverwriteExtend(b0, start, rest, total);
      buf[start + total] := c;
      total := total + 1;
      if c == delim {
        return;
      }
    }
    ScanUsedCount(rest, count, delim, total);
  }

  /**
   * The loop has taken t bytes, none of them the delimiter, and Scan takes
   * whatever it takes from the rest on top of them.
   */
  ghost predicate ScannedPrefix(rest: seq<char>, count: nat, delim: char, t: nat) {
    t <= count && t <= |rest| &&
    Scan(rest, count, delim) == t + Scan(rest[t..], count - t, delim) &&
    forall i :: 0 <= i < t ==> rest[i] != delim
  }

  /** One more byte: the delimiter ends the scan there, any other byte extends the prefix. */
  lemma ScanStep(rest: seq<char>, count: nat, delim: char, t: nat)
    requires ScannedPrefix(rest, count, delim, t) && t < count && t < |rest|
    ensures rest[t] == delim ==> Scan(rest, count, delim) == t + 1 && !HitEnd(rest, count, delim)
    ensures rest[t] != delim ==> ScannedPrefix(rest, count, delim, t + 1)
  {
    assert rest[t..][1..] == rest[t + 1..];
  }

  /** The input ran out before count bytes and before a delimiter. */
  lemma ScanRanOut(rest: seq<char>, count: nat, delim: char, t: nat)
    requires ScannedPrefix(rest, count, delim, t) && t < count && t == |rest|
    ensures Scan(rest, count, delim) == t && HitEnd(rest, count, delim)
  {
  }

  /** count bytes were taken, none of them the delimiter. */
  lemma ScanUsedCount(rest: seq<char>, count: nat, delim: char, t: nat)
    requires ScannedPrefix(rest, count, delim, t) && t == count
    ensures Scan(rest, count, delim) == t && !HitEnd(rest, count, delim)
  {
  }

  /** Writing the next byte right after an overwritten range extends the range by it. */
  lemma OverwriteExtend(b: seq<char>, at: nat, rest: seq<char>, t: nat)
    requires t < |rest| && at + t < |b|
    ensures Overwrite(b, at, rest[..t])[at + t := rest[t]] == Overwrite(b, at, rest[..t + 1])
  {
    assert rest[..t] + [rest[t]] == rest[..t + 1];
  }
}
