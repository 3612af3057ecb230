/** The synchronous ring buffer of MessageQueue/queue.c: a bounded FIFO of
    `capcity` slots with `header`, `tail` and `size` updated in place. */
module MessageQueue {
  import opened Wrappers

  /** DEFAULT_SIZE: the capacity used when QueueCreate is given no positive size. */
  const DefaultSize: int := 1024

  /** The capacity QueueCreate chooses for a requested `size`. */
  function Capacity(size: int): (cap: int)
    ensures cap >= 1
    ensures size > 0 ==> cap == size
    ensures size <= 0 ==> cap == DefaultSize
  {
    if size > 0 then size else DefaultSize
  }

  /** The items a ring holds, oldest first: `size` slots read from `header`
      onward, wrapping at the end of the buffer. */
  function RingContents<T>(buf: seq<T>, header: int, size: int): (s: seq<T>)
    requires 0 <= header < |buf| && 0 <= size <= |buf|
    ensures |s| == size
    ensures forall i :: 0 <= i < size ==> s[i] == buf[(header + i) % |buf|]
  {
    seq(size, i requires 0 <= i < size => buf[(header + i) % |buf|])
  }

  /** A sum below twice the modulus wraps at most once. */
  lemma WrapOnce(x: int, cap: int)
    requires 1 <= cap && 0 <= x < 2 * cap
    ensures x % cap == if x < cap then x else x - cap
  {
    if x >= cap {
      assert x == 1 * cap + (x - cap);
    }
  }

  /** The ring shape QueueCreate sets up and push and pop keep:
      `tail == (header + size) % capcity` with `0 <= size <= capcity`. */
  predicate RingShape(cap: int, header: int, tail: int, size: int) {
    cap >= 1 && 0 <= header < cap && 0 <= size <= cap && tail == (header + size) % cap
  }

  /** Storing at `tail` and advancing it appends the item at the back and
      keeps the ring shape. */
  lemma PushContents<T>(buf: seq<T>, header: int, tail: int, size: int, d: T)
    requires RingShape(|buf|, header, tail, size) && size < |buf|
    ensures RingShape(|buf|, header, (tail + 1) % |buf|, size + 1)
    ensures RingContents(buf[tail := d], header, size + 1) == RingContents(buf, header, size) + [d]
  {
    var cap := |buf|;
    WrapOnce(header + size, cap);
    WrapOnce(tail + 1, cap);
    WrapOnce(header + size + 1, cap);
    var a := RingContents(buf[tail := d], header, size + 1);
    var b := RingContents(buf, header, size) + [d];
    forall i | 0 <= i < size + 1
      ensures a[i] == b[i]
    {
      WrapOnce(header + i, cap);
    }
  }

  /** Advancing `header` drops the front item and keeps the ring shape. */
  lemma PopContents<T>(buf: seq<T>, header: int, tail: int, size: int)
    requires RingShape(|buf|, header, tail, size) && size > 0
    ensures RingShape(|buf|, (header + 1) % |buf|, tail, size - 1)
    ensures RingContents(buf, (header + 1) % |buf|, size - 1) == RingContents(buf, header, size)[1..]
  {
    var cap := |buf|;
    WrapOnce(header + 1, cap);
    WrapOnce(header + size, cap);
    var h := (header + 1) % cap;
    WrapOnce(h + size - 1, cap);
    var a := RingContents(buf, h, size - 1);
    var b := RingContents(buf, header, size)[1..];
    forall i | 0 <= i < size - 1
      ensures a[i] == b[i]
    {
      WrapOnce(h + i, cap);
      WrapOnce(header + i + 1, cap);
    }
  }

  /** Items pushed into an empty ring come out in the order they went in:
      filling a fresh ring slot by slot from 0 gives exactly that sequence. */
  lemma {:induction false} FreshRingIsPushOrder<T>(buf: seq<T>, items: seq<T>)
    requires |items| <= |buf| && |buf| >= 1
    ensures RingShape(|buf|, 0, |items| % |buf|, |items|)
    ensures RingContents(items + buf[|items|..], 0, |items|) == items
  {
    var cap := |buf|;
    WrapOnce(|items|, cap);
    var full := items + buf[|items|..];
    forall i | 0 <= i < |items|
      ensures RingContents(full, 0, |items|)[i] == items[i]
    {
      WrapOnce(i, cap);
    }
  }

  /** struct Queue (QueueData). `buf` is NULL when its malloc failed. */
  class Queue<T(0)> {
    var header: int
    var tail: int
    var size: int
    var capcity: int
    var buf: array?<T>
    /** The items in the queue, oldest first. */
    ghost var contents: seq<T>

    ghost predicate Valid()
      reads this, buf
    {
      buf != null && buf.Length == capcity &&
      RingShape(capcity, header, tail, size) &&
      contents == RingContents(buf[..], header, size)
    }

    /** The body of QueueCreate after the record's malloc succeeds;
        `bufOk` says whether the buffer's malloc succeeds. */
    constructor Create(size: int, bufOk: bool)
      ensures capcity == Capacity(size) && header == 0 && tail == 0 && this.size == 0
      ensures bufOk ==> Valid() && contents == [] && fresh(buf)
      ensures !bufOk ==> buf == null
    {
      var cap := Capacity(size);
      capcity := cap;
      header, tail, this.size := 0, 0, 0;
      contents := [];
      if bufOk {
        buf := new T[cap];
      } else {
        buf := null;
      }
    }

    /** QueueIsFull. */
    function IsFull(): (r: bool)
      reads this, buf
      ensures Valid() ==> (r <==> |contents| == capcity)
    {
      size == capcity
    }

    /** QueueIsEmpty. */
    function IsEmpty(): (r: bool)
      reads this, buf
      ensures Valid() ==> (r <==> contents == [])
    {
      size == 0
    }

    /** The body of QueuePushTail for a non-NULL queue: a full queue drops
        the item silently; either way the result is 0. */
    method PushTail(data: T) returns (rc: int)
      requires Valid()
      modifies this, buf
      ensures Valid() && rc == 0
      ensures buf == old(buf) && capcity == old(capcity) && header == old(header)
      ensures old(size) < capcity ==>
        contents == old(contents) + [data] && size == old(size) + 1 &&
        tail == (old(tail) + 1) % capcity && buf[..] == old(buf[..])[old(tail) := data]
      ensures old(size) == capcity ==>
        contents == old(contents) && size == old(size) && tail == old(tail) && buf[..] == old(buf[..])
    {
      if !IsFull() {
        PushContents(buf[..], header, tail, size, data);
        buf[tail] := data;
        tail := (tail + 1) % capcity;
        size := size + 1;
        contents := contents + [data];
      }
      rc := 0;
    }

    /** QueuePopHead: the oldest item, or None (NULL) on an empty queue,
        which is left as it was. */
    method PopHead() returns (data: Option<T>)
      requires Valid()
      modifies this
      ensures Valid()
      ensures buf == old(buf) && capcity == old(capcity) && tail == old(tail)
      ensures old(contents) == [] ==>
        data == None && contents == old(contents) && header == old(header) && size == old(size)
      ensures old(contents) != [] ==>
        data == Some(old(contents)[0]) && contents == old(contents)[1..] &&
        header == (old(header) + 1) % capcity && size == old(size) - 1
    {
      data := None;
      if !IsEmpty() {
        PopContents(buf[..], header, tail, size);
        WrapOnce(header, capcity);
        assert contents[0] == buf[header];
        data := Some(buf[header]);
        header := (header + 1) % capcity;
        size := size - 1;
        contents := contents[1..];
      }
    }
  }

  /** QueueCreate: NULL when the record's malloc fails (`recordOk`),
      otherwise an empty queue of capacity `size`, or 1024 when `size` is
      not positive, whose buffer is NULL when its own malloc fails. */
  method QueueCreate<T(0)>(size: int, recordOk: bool, bufOk: bool) returns (q: Queue?<T>)
    ensures q == null <==> !recordOk
    ensures q != null ==>
      fresh(q) && q.capcity == Capacity(size) && q.header == 0 && q.tail == 0 && q.size == 0 &&
      (bufOk ==> q.Valid() && q.contents == []) && (!bufOk ==> q.buf == null)
  {
    if !recordOk {
      return null;
    }
    q := new Queue.Create(size, bufOk);
  }

  /** QueuePushTail: -1 for a NULL queue, otherwise the push above. */
  method QueuePushTail<T(0)>(q: Queue?<T>, data: T) returns (rc: int)
    requires q != null ==> q.Valid()
    modifies if q == null then {} else {q, q.buf}
    ensures rc == -1 <==> q == null
    ensures q != null ==> q.Valid() && rc == 0
    ensures q != null ==>
      q.contents == (if old(q.size) < q.capcity then old(q.contents) + [data] else old(q.contents))
  {
    if q == null {
      return -1;
    }
    rc := q.PushTail(data);
  }

  /** QueueFree: -1 when the queue or its buffer is NULL; otherwise the
      buffer is released and the result is 0. */
  method QueueFree<T(0)>(q: Queue?<T>) returns (rc: int)
    modifies q
    ensures rc == -1 <==> (q == null || old(q.buf) == null)
    ensures rc == 0 <==> (q != null && old(q.buf) != null)
    ensures q != null ==> q.buf == null
  {
    if q == null || q.buf == null {
      return -1;
    }
    q.buf := null;
    rc := 0;
  }
}
