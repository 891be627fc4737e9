// The descriptor array of the poll variant of src/events.c: append with
// doubling, delete by moving the last entry, halving when mostly empty.
module EventLoop {
  const INITIAL_EVENT_SIZE := 16

  datatype PollFd = PollFd(fd: int, read: bool, write: bool)

  /* ----- The entries ----- */

  // The first entry for fd, or |entries|.
  function IndexOf(entries: seq<PollFd>, fd: int): (i: nat)
    ensures i <= |entries|
    ensures i < |entries| ==> entries[i].fd == fd
    ensures forall k | 0 <= k < i :: entries[k].fd != fd
  {
    if entries == [] || entries[0].fd == fd then 0 else 1 + IndexOf(entries[1..], fd)
  }

  function Added(entries: seq<PollFd>, fd: int): seq<PollFd> {
    entries + [PollFd(fd, true, false)]
  }

  function Deleted(entries: seq<PollFd>, fd: int): seq<PollFd> {
    var i, last := IndexOf(entries, fd), |entries| - 1;
    if i == |entries| then entries else entries[i := entries[last]][..last]
  }

  function Notified(entries: seq<PollFd>, fd: int, enable: bool): seq<PollFd> {
    var i := IndexOf(entries, fd);
    if i == |entries| then entries else entries[i := entries[i].(write := enable)]
  }

  ghost predicate Distinct(entries: seq<PollFd>) {
    forall i, j | 0 <= i < j < |entries| :: entries[i].fd != entries[j].fd
  }

  lemma AddedKeepsOthers(entries: seq<PollFd>, fd: int)
    requires Distinct(entries) && IndexOf(entries, fd) == |entries|
    ensures Distinct(Added(entries, fd))
    ensures forall e :: e in Added(entries, fd) <==> e in entries || e == PollFd(fd, true, false)
  {
  }

  // Moving the last entry into the hole removes fd and nothing else.
  lemma DeletedKeepsOthers(entries: seq<PollFd>, fd: int)
    requires Distinct(entries)
    ensures Distinct(Deleted(entries, fd))
    ensures forall e :: e in Deleted(entries, fd) <==> e in entries && e.fd != fd
  {
    var deleted, hole, last := Deleted(entries, fd), IndexOf(entries, fd), |entries| - 1;
    if hole < |entries| {
      forall k | 0 <= k < last ensures deleted[k] == entries[if k == hole then last else k] {
      }
      forall k | 0 <= k < |entries| && k != hole ensures entries[k] in deleted {
        assert deleted[if k == last then hole else k] == entries[k];
      }
    }
  }

  lemma NotifiedKeepsOthers(entries: seq<PollFd>, fd: int, enable: bool)
    requires Distinct(entries)
    ensures Distinct(Notified(entries, fd, enable))
    ensures forall e ::
      e in Notified(entries, fd, enable) <==>
      if e.fd == fd then e.write == enable && (e.(write := true) in entries || e.(write := false) in entries)
      else e in entries
  {
    var notified, at := Notified(entries, fd, enable), IndexOf(entries, fd);
    if at < |entries| {
      forall k | 0 <= k < |entries| && k != at ensures notified[k] == entries[k] {
      }
      assert notified[at] == entries[at].(write := enable);
      assert entries[at] == notified[at].(write := entries[at].write);
      forall e | e in entries && e.fd != fd ensures e in notified {
        var k :| 0 <= k < |entries| && entries[k] == e;
        assert notified[k] == e;
      }
    }
  }

  /* ----- The cost of resizing ----- */

  // moved counts the entries copied by all reallocations so far.
  datatype Capacity = Capacity(count: nat, size: nat, moved: nat, operations: nat)

  function GrowFor(c: Capacity): Capacity {
    if c.count == c.size then c.(size := 2 * c.size, moved := c.moved + c.size) else c
  }

  function AfterAdd(c: Capacity): Capacity {
    var g := GrowFor(c);
    g.(count := g.count + 1, operations := g.operations + 1)
  }

  function Shrink(c: Capacity): Capacity {
    if Sparse(c)
    then c.(size := c.size / 2, moved := c.moved + c.size / 2) else c
  }

  function AfterDelete(c: Capacity): Capacity
    requires c.count > 0
  {
    Shrink(c.(count := c.count - 1, operations := c.operations + 1))
  }

  // Twice the potential: nothing while the array is between half and two
  // thirds full, and enough for the next resize when it is due.
  function Potential(c: Capacity): nat {
    if 3 * c.count > 2 * c.size then 6 * c.count - 4 * c.size
    else if 2 * c.count < c.size then 3 * (c.size - 2 * c.count)
    else 0
  }

  function Doubled(k: nat): nat {
    if k == 0 then INITIAL_EVENT_SIZE else 2 * Doubled(k - 1)
  }

  // The initial size times a power of two.
  ghost predicate IsDoubled(size: nat) {
    exists k: nat :: size == Doubled(k)
  }

  // More than two thirds of a grown array are unused.
  predicate Sparse(c: Capacity) {
    c.size != INITIAL_EVENT_SIZE && c.count < c.size / 3
  }

  // The amortised bound: three entries moved per operation, and 24 more.
  ghost predicate Paid(c: Capacity) {
    && c.count <= c.size && c.size >= INITIAL_EVENT_SIZE && IsDoubled(c.size) && !Sparse(c)
    && 2 * c.moved + Potential(c) <= 6 * c.operations + 48
  }

  lemma DoubledTwice(size: nat)
    requires IsDoubled(size)
    ensures IsDoubled(2 * size)
    ensures size != INITIAL_EVENT_SIZE ==> size % 2 == 0 && size / 2 >= INITIAL_EVENT_SIZE && IsDoubled(size / 2)
  {
    var k: nat :| size == Doubled(k);
    assert 2 * size == Doubled(k + 1);
    if k > 0 {
      DoubledAtLeast(k - 1);
      assert size / 2 == Doubled(k - 1);
    }
  }

  lemma {:induction false} DoubledAtLeast(k: nat)
    ensures Doubled(k) >= INITIAL_EVENT_SIZE
  {
    if k > 0 {
      DoubledAtLeast(k - 1);
    }
  }

  lemma AddPaid(c: Capacity)
    requires Paid(c)
    ensures Paid(AfterAdd(c))
  {
    DoubledTwice(c.size);
  }

  lemma DeletePaid(c: Capacity)
    requires Paid(c) && c.count > 0
    ensures Paid(AfterDelete(c))
  {
    DoubledTwice(c.size);
  }

  // The array is reallocated only when it is full before an addition, or too
  // sparse after a deletion; then every entry that is kept is moved.
  lemma ResizedIff(c: Capacity)
    requires Paid(c)
    ensures var d := AfterAdd(c);
      && d.count == c.count + 1
      && d.size == (if c.count == c.size then 2 * c.size else c.size)
      && d.moved == c.moved + (if d.size != c.size then c.size else 0)
    ensures c.count > 0 ==>
      var d := AfterDelete(c);
      && d.count == c.count - 1
      && (d.size != c.size <==> c.size > 16 && c.count - 1 < c.size / 3)
      && (d.size != c.size ==> 2 * d.size == c.size && d.moved == c.moved + d.size)
      && (d.size == c.size ==> d.moved == c.moved)
  {
    DoubledTwice(c.size);
  }

  // A deletion of something that is not there costs nothing.
  datatype Operation = Add | Delete

  function RunAll(c: Capacity, operations: seq<Operation>): Capacity
    decreases operations
  {
    if operations == [] then c
    else
      var next := if operations[0].Add? then AfterAdd(c) else if c.count > 0 then AfterDelete(c) else c;
      RunAll(next, operations[1..])
  }

  lemma {:induction false} RunPaid(c: Capacity, operations: seq<Operation>)
    requires Paid(c)
    ensures Paid(RunAll(c, operations)) && RunAll(c, operations).operations <= c.operations + |operations|
    decreases operations
  {
    if operations != [] {
      if operations[0].Add? {
        AddPaid(c);
        RunPaid(AfterAdd(c), operations[1..]);
      } else if c.count > 0 {
        DeletePaid(c);
        RunPaid(AfterDelete(c), operations[1..]);
      } else {
        RunPaid(c, operations[1..]);
      }
    }
  }

  const INITIAL_CAPACITY := Capacity(0, INITIAL_EVENT_SIZE, 0, 0)

  lemma InitialPaid()
    ensures Paid(INITIAL_CAPACITY)
  {
    assert INITIAL_EVENT_SIZE == Doubled(0);
  }

  lemma AmortisedBound(operations: seq<Operation>)
    ensures RunAll(INITIAL_CAPACITY, operations).moved <= 3 * |operations| + 24
  {
    InitialPaid();
    RunPaid(INITIAL_CAPACITY, operations);
  }

  // In every reachable state the array is at its initial size or at least a
  // third full.
  lemma NeverSparse(operations: seq<Operation>)
    ensures var c := RunAll(INITIAL_CAPACITY, operations);
      c.count <= c.size && (c.size == 16 || (c.size > 16 && c.count >= c.size / 3))
  {
    InitialPaid();
    RunPaid(INITIAL_CAPACITY, operations);
  }

  /* ----- The array itself ----- */

  class EventArray {
    var count: nat
    var size: nat
    var objects: array<PollFd>
    ghost var moved: nat
    ghost var operations: nat

    ghost function Cost(): Capacity
      reads this
    {
      Capacity(count, size, moved, operations)
    }

    ghost predicate Valid()
      reads this
    {
      && objects.Length == size && Paid(Cost())
      && count <= size && (size == 16 || count >= size / 3)
    }

    ghost function Entries(): seq<PollFd>
      requires Valid()
      reads this, objects
    {
      objects[..count]
    }

    constructor ()
      ensures Valid() && fresh(objects)
      ensures Entries() == [] && Cost() == INITIAL_CAPACITY
    {
      count, size := 0, INITIAL_EVENT_SIZE;
      objects := new PollFd[INITIAL_EVENT_SIZE];
      moved, operations := 0, 0;
      InitialPaid();
    }

    // The surviving entries of a reallocation to newSize.
    method Reallocate(newSize: nat) returns (temp: array<PollFd>)
      requires count <= objects.Length && count <= newSize
      ensures fresh(temp) && temp.Length == newSize && temp[..count] == objects[..count]
    {
      temp := new PollFd[newSize];
      forall k | 0 <= k < count {
        temp[k] := objects[k];
      }
    }

    method AddToEventLoop(fd: int)
      requires Valid()
      modifies this, objects
      ensures Valid() && (objects == old(objects) || fresh(objects))
      ensures Entries() == Added(old(Entries()), fd)
      ensures Cost() == AfterAdd(old(Cost()))
    {
      AddPaid(Cost());
      ghost var entries := Entries();
      if count == size {
        moved := moved + size;
        size := 2 * size;
        objects := Reallocate(size);
      }
      objects[count] := PollFd(fd, true, false);
      count := count + 1;
      operations := operations + 1;
      assert objects[..count] == entries + [PollFd(fd, true, false)];
    }

    method Find(fd: int) returns (i: nat)
      requires Valid()
      ensures i == IndexOf(Entries(), fd)
    {
      i := 0;
      while i < count
        invariant i <= count && forall k | 0 <= k < i :: objects[k].fd != fd
      {
        if objects[i].fd == fd {
          break;
        }
        i := i + 1;
      }
      IndexOfIs(Entries(), fd, i);
    }

    method SetWriteNotify(fd: int, enable: bool)
      requires Valid()
      modifies objects
      ensures Valid() && Entries() == Notified(old(Entries()), fd, enable)
    {
      var i := Find(fd);
      if i == count {
        return;
      }
      objects[i] := objects[i].(write := enable);
    }

    method ShrinkIfSparse()
      requires objects.Length == size && count <= size && Paid(Shrink(Cost()))
      modifies this
      ensures Valid() && (objects == old(objects) || fresh(objects))
      ensures Entries() == old(objects[..count]) && Cost() == Shrink(old(Cost()))
    {
      if size == INITIAL_EVENT_SIZE {
        return;
      }
      if count < size / 3 {
        size := size / 2;
        moved := moved + size;
        objects := Reallocate(size);
      }
    }

    // Fills the hole with the last entry.
    method RemoveAt(index: nat)
      requires objects.Length == size && index < count <= size
      modifies `count, `operations, objects
      ensures count == old(count) - 1 && operations == old(operations) + 1
      ensures objects[..count] == old(objects[..count])[index := old(objects[count - 1])][..count]
    {
      ghost var entries := objects[..count];
      objects[index] := objects[count - 1];
      assert objects[..count] == entries[index := entries[count - 1]];
      count := count - 1;
      operations := operations + 1;
      assert objects[..count] == objects[..count + 1][..count];
    }

    method DeleteAt(index: nat)
      requires Valid() && index < count
      modifies this, objects
      ensures Valid() && (objects == old(objects) || fresh(objects))
      ensures Entries() == old(Entries())[index := old(objects[count - 1])][..old(count) - 1]
      ensures Cost() == AfterDelete(old(Cost()))
    {
      DeletePaid(Cost());
      hide Shrink, Paid, Sparse;
      RemoveAt(index);
      ShrinkIfSparse();
    }

    method DeleteFromEventLoop(fd: int)
      requires Valid()
      modifies this, objects
      ensures Valid() && (objects == old(objects) || fresh(objects))
      ensures Entries() == Deleted(old(Entries()), fd)
      ensures Cost() == if IndexOf(old(Entries()), fd) == |old(Entries())| then old(Cost()) else AfterDelete(old(Cost()))
    {
      var index := Find(fd);
      if index == count {
        return;
      }
      hide AfterDelete, Paid, Sparse, IndexOf;
      DeleteAt(index);
    }
  }

  lemma IndexOfIs(entries: seq<PollFd>, fd: int, i: nat)
    requires i <= |entries| && (i < |entries| ==> entries[i].fd == fd)
    requires forall k | 0 <= k < i :: entries[k].fd != fd
    ensures IndexOf(entries, fd) == i
  {
  }
}