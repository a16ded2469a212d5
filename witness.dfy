/** The witness buffer of the host: a vector of u64 values that a guest
    fills with `witness_insert` and drains with `witness_pop`. Insertion is
    at the front and removal at the back, so the buffer is a queue: every
    pop, interleaved with inserts or not, yields the oldest value still
    present. */
module WitnessHelper {
  import opened Specs

  /** s backwards. */
  function Reverse(s: seq<u64>): (r: seq<u64>)
    ensures |r| == |s|
  {
    if s == [] then [] else Reverse(s[1..]) + [s[0]]
  }

  /** Putting a value at the back of a sequence puts it at the front of its
      reverse. */
  lemma {:induction false} ReverseAppend(s: seq<u64>, x: u64)
    ensures Reverse(s + [x]) == [x] + Reverse(s)
  {
    if s != [] {
      assert (s + [x])[1..] == s[1..] + [x];
      ReverseAppend(s[1..], x);
    } else {
      assert Reverse([x]) == Reverse([]) + [x];
    }
  }

  /** The host buffer: `buf` as the source stores it, and `queue`, the
      values it holds in the order they were inserted. */
  class WitnessContext {
    var buf: seq<u64>
    ghost var queue: seq<u64>

    /** The buffer holds the queue newest first. */
    ghost predicate Valid()
      reads this
    {
      buf == Reverse(queue)
    }

    /** `WitnessContext::default()`: an empty buffer. */
    constructor Default()
      ensures buf == [] && queue == [] && Valid()
    {
      buf := [];
      queue := [];
    }

    /** `witness_insert`: the value goes in at index 0, shifting the others
        up by one; it joins the queue at the back. */
    method WitnessInsert(x: u64)
      requires Valid()
      modifies this
      ensures buf == [x] + old(buf)
      ensures queue == old(queue) + [x]
      ensures Valid()
    {
      buf := [x] + buf;
      queue := queue + [x];
      ReverseAppend(old(queue), x);
    }

    /** `witness_pop`: removes and returns the last element; on an empty
        buffer the `unwrap` fails, which is None here and changes nothing.
        The value returned is the oldest in the queue. */
    method WitnessPop() returns (r: Option<u64>)
      requires Valid()
      modifies this
      ensures old(buf) == [] ==> r == None && buf == old(buf) && queue == old(queue)
      ensures old(buf) != [] ==>
        && r == Some(old(buf)[|old(buf)| - 1]) && buf == old(buf)[..|old(buf)| - 1]
        && r == Some(old(queue)[0]) && queue == old(queue)[1..]
      ensures Valid()
    {
      if buf == [] {
        return None;
      }
      r := Some(buf[|buf| - 1]);
      buf := buf[..|buf| - 1];
      queue := queue[1..];
    }
  }

  /** A host call a guest makes on the buffer. */
  datatype Call = Insert(x: u64) | Pop

  /** The values a run of calls popped, in order, and the buffer it left. */
  datatype Outcome = Outcome(popped: seq<u64>, rest: seq<u64>)

  /** The calls run against the buffer as the source stores it: an insert
      puts the value at index 0, a pop takes the last element, and a pop
      on an empty buffer aborts the run (None). */
  function Run(buf: seq<u64>, calls: seq<Call>): Option<Outcome>
    decreases |calls|
  {
    if calls == [] then Some(Outcome([], buf))
    else if calls[0].Insert? then Run([calls[0].x] + buf, calls[1..])
    else if buf == [] then None
    else Prepend(buf[|buf| - 1], Run(buf[..|buf| - 1], calls[1..]))
  }

  /** The calls run against a first-in first-out queue, oldest first. */
  function Queue(q: seq<u64>, calls: seq<Call>): Option<Outcome>
    decreases |calls|
  {
    if calls == [] then Some(Outcome([], q))
    else if calls[0].Insert? then Queue(q + [calls[0].x], calls[1..])
    else if q == [] then None
    else Prepend(q[0], Queue(q[1..], calls[1..]))
  }

  /** A popped value in front of the rest of a run. */
  function Prepend(x: u64, o: Option<Outcome>): Option<Outcome> {
    if o.None? then None else Some(Outcome([x] + o.value.popped, o.value.rest))
  }

  /** An outcome with its leftover values reversed. */
  function Backwards(o: Option<Outcome>): Option<Outcome> {
    if o.None? then None else Some(Outcome(o.value.popped, Reverse(o.value.rest)))
  }

  /** The buffer is a FIFO queue: from a buffer holding a queue's values
      newest first, any sequence of calls, inserts and pops interleaved
      however, pops the same values as the queue does, aborts exactly when
      the queue runs dry, and leaves the queue's leftover values newest
      first. */
  lemma {:induction false} RunIsFifo(q: seq<u64>, calls: seq<Call>)
    ensures Run(Reverse(q), calls) == Backwards(Queue(q, calls))
    decreases |calls|
  {
    if calls != [] {
      if calls[0].Insert? {
        ReverseAppend(q, calls[0].x);
        RunIsFifo(q + [calls[0].x], calls[1..]);
      } else if q != [] {
        var b := Reverse(q);
        assert b[|b| - 1] == q[0] && b[..|b| - 1] == Reverse(q[1..]);
        RunIsFifo(q[1..], calls[1..]);
      }
    }
  }

  /** `n` calls inserting the values xs, in order. */
  function Inserts(xs: seq<u64>): (r: seq<Call>)
    ensures |r| == |xs|
  {
    if xs == [] then [] else [Insert(xs[0])] + Inserts(xs[1..])
  }

  /** `n` pops. */
  function Pops(n: nat): (r: seq<Call>)
    ensures |r| == n
  {
    if n == 0 then [] else [Pop] + Pops(n - 1)
  }

  /** Inserts only add their values at the back of the queue. */
  lemma {:induction false} QueueInserts(q: seq<u64>, xs: seq<u64>, rest: seq<Call>)
    ensures Queue(q, Inserts(xs) + rest) == Queue(q + xs, rest)
    decreases |xs|
  {
    if xs != [] {
      var calls := Inserts(xs) + rest;
      assert calls == [Insert(xs[0])] + (Inserts(xs[1..]) + rest);
      assert calls[0] == Insert(xs[0]) && calls[1..] == Inserts(xs[1..]) + rest;
      assert Queue(q, calls) == Queue(q + [xs[0]], calls[1..]);
      QueueInserts(q + [xs[0]], xs[1..], rest);
      assert q + [xs[0]] + xs[1..] == q + xs;
    } else {
      assert Inserts(xs) + rest == rest && q + xs == q;
    }
  }

  /** Popping a queue as many times as it is long yields it in order. */
  lemma {:induction false} QueuePops(q: seq<u64>)
    ensures Queue(q, Pops(|q|)) == Some(Outcome(q, []))
    decreases |q|
  {
    if q != [] {
      QueuePops(q[1..]);
      assert [q[0]] + q[1..] == q;
    }
  }

  /** Inserting x1 .. xn into an empty buffer and then popping n times
      yields x1 .. xn in that order and leaves the buffer empty. */
  lemma InsertAllThenPopAll(xs: seq<u64>)
    ensures Run([], Inserts(xs) + Pops(|xs|)) == Some(Outcome(xs, []))
  {
    RunIsFifo([], Inserts(xs) + Pops(|xs|));
    QueueInserts([], xs, Pops(|xs|));
    assert [] + xs == xs;
    QueuePops(xs);
  }
}
