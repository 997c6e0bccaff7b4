/** The growable buffer of src/strings.c.  A `char` of the model stands for a byte. */
module Strings {
  const INITIAL_CAPACITY: nat := 64

  /** The doubling loop of string_ensure_space. */
  function Grown(capacity: nat, need: nat): (r: nat)
    requires capacity > 0
    decreases need - capacity
  {
    if need <= capacity then capacity else Grown(2 * capacity, need)
  }

  /** The buffer as a value, with the history its cost is measured by: the largest size it has
      had, and the capacities of all the blocks realloc has had to copy. */
  datatype Buffer = Buffer(text: string, capacity: nat, peak: nat, copied: nat)

  const EMPTY := Buffer("", INITIAL_CAPACITY, 0, 0)

  datatype Op = Append(s: string) | PushBack(c: char) | RemoveFront(n: nat)

  predicate Allowed(b: Buffer, op: Op) {
    b.capacity > 0 && (op.RemoveFront? ==> op.n <= |b.text|)
  }

  function Extended(b: Buffer, s: string): Buffer
    requires b.capacity > 0
  {
    var text := b.text + s;
    Buffer(text,
           Grown(b.capacity, |text|),
           if |text| > b.peak then |text| else b.peak,
           if |text| > b.capacity then b.copied + b.capacity else b.copied)
  }

  function Apply(b: Buffer, op: Op): Buffer
    requires Allowed(b, op)
  {
    match op
    case Append(s) => Extended(b, s)
    case PushBack(c) => Extended(b, [c])
    case RemoveFront(n) => b.(text := b.text[n..])
  }

  ghost predicate Possible(b: Buffer, ops: seq<Op>)
    decreases |ops|
  {
    ops == [] || (Allowed(b, ops[0]) && Possible(Apply(b, ops[0]), ops[1..]))
  }

  ghost function Run(b: Buffer, ops: seq<Op>): Buffer
    requires Possible(b, ops)
    decreases |ops|
  {
    if ops == [] then b else Run(Apply(b, ops[0]), ops[1..])
  }

  /** Everything appended, in order, less everything removed from the front. */
  function Appended(ops: seq<Op>): string {
    if ops == [] then ""
    else (match ops[0] case Append(s) => s case PushBack(c) => [c] case RemoveFront(_) => "") + Appended(ops[1..])
  }

  function Removed(ops: seq<Op>): nat {
    if ops == [] then 0
    else (if ops[0].RemoveFront? then ops[0].n else 0) + Removed(ops[1..])
  }

  /** It ends, because the capacity is positive, at the least doubling that is large enough. */
  lemma {:induction false} GrownBounds(capacity: nat, need: nat)
    requires capacity > 0
    ensures Grown(capacity, need) >= need && Grown(capacity, need) >= capacity
    ensures need > capacity ==> 2 * capacity <= Grown(capacity, need) < 2 * need
    decreases need - capacity
  {
    if need > capacity {
      GrownBounds(2 * capacity, need);
    }
  }

  /** The invariant behind the two bounds of Amortised. */
  ghost predicate WellSized(b: Buffer) {
    && |b.text| <= b.capacity && |b.text| <= b.peak
    && INITIAL_CAPACITY <= b.capacity
    && b.copied + INITIAL_CAPACITY <= b.capacity
    && (b.capacity == INITIAL_CAPACITY || b.capacity < 2 * b.peak)
  }

  lemma WellSizedStep(b: Buffer, op: Op)
    requires WellSized(b) && Allowed(b, op)
    ensures WellSized(Apply(b, op))
  {
    match op
    case Append(s) => GrownBounds(b.capacity, |b.text + s|);
    case PushBack(c) => GrownBounds(b.capacity, |b.text + [c]|);
    case RemoveFront(_) =>
  }

  lemma {:induction false} WellSizedRun(b: Buffer, ops: seq<Op>)
    requires WellSized(b) && Possible(b, ops)
    ensures WellSized(Run(b, ops))
    decreases |ops|
  {
    if ops != [] {
      WellSizedStep(b, ops[0]);
      WellSizedRun(Apply(b, ops[0]), ops[1..]);
    }
  }

  lemma RemoveFirst(text: string, n: nat, rest: string, m: nat)
    requires n <= |text| && m <= |text[n..] + rest|
    ensures n + m <= |text + rest|
    ensures (text[n..] + rest)[m..] == (text + rest)[n + m..]
  {
    assert text[n..] + rest == (text + rest)[n..];
  }

  lemma {:induction false} QueueRun(b: Buffer, ops: seq<Op>)
    requires Possible(b, ops)
    ensures Removed(ops) <= |b.text + Appended(ops)|
    ensures Run(b, ops).text == (b.text + Appended(ops))[Removed(ops)..]
    decreases |ops|
  {
    if ops == [] {
      assert b.text + "" == b.text;
    } else {
      var b' := Apply(b, ops[0]);
      QueueRun(b', ops[1..]);
      var rest := Appended(ops[1..]);
      match ops[0]
      case Append(s) => assert b'.text + rest == b.text + (s + rest);
      case PushBack(c) => assert b'.text + rest == b.text + ([c] + rest);
      case RemoveFront(n) =>
        assert "" + rest == rest;
        RemoveFirst(b.text, n, rest, Removed(ops[1..]));
    }
  }

  /** Over any run from string_new the buffer is a byte queue: what it holds is what was appended
      less what was removed.  Its capacity is the initial one or below twice the peak size, and
      all the blocks copied by realloc together are below twice the peak size, so appending costs
      amortised constant time per byte. */
  lemma {:induction false} Amortised(ops: seq<Op>)
    requires Possible(EMPTY, ops)
    ensures var b := Run(EMPTY, ops);
      && Removed(ops) <= |Appended(ops)| && b.text == Appended(ops)[Removed(ops)..]
      && |b.text| <= b.capacity
      && (b.capacity == INITIAL_CAPACITY || b.capacity < 2 * b.peak)
      && (b.copied == 0 || b.copied + INITIAL_CAPACITY < 2 * b.peak)
  {
    WellSizedRun(EMPTY, ops);
    QueueRun(EMPTY, ops);
    assert "" + Appended(ops) == Appended(ops);
  }

  class String {
    var data: array<char>
    var size: nat
    var maxSize: nat
    ghost var peak: nat
    ghost var copied: nat
    ghost var Repr: set<object>

    /** One byte more than max_size is allocated, and the text is always null terminated. */
    ghost predicate Valid()
      reads this, Repr
    {
      && Repr == {this, data}
      && data.Length == maxSize + 1
      && 0 < maxSize && size <= maxSize
      && data[size] == '\0'
    }

    ghost function View(): Buffer
      reads this, data
      requires size <= data.Length
    {
      Buffer(data[..size], maxSize, peak, copied)
    }

    /** string_new */
    constructor ()
      ensures Valid() && fresh(Repr) && View() == EMPTY
    {
      data := new char[INITIAL_CAPACITY + 1](_ => '\0');
      size, maxSize, peak, copied := 0, INITIAL_CAPACITY, 0, 0;
      new;
      Repr := {this, data};
    }

    method EnsureSpace(need: nat)
      requires Valid()
      modifies Repr
      ensures Valid() && fresh(Repr - old(Repr)) && size == old(size)
      ensures View() == old(View()).(
        capacity := Grown(old(maxSize), need),
        copied := if need > old(maxSize) then old(copied) + old(maxSize) else old(copied))
    {
      if maxSize >= need {
        return;
      }
      var oldSize := maxSize;
      while maxSize < need
        invariant 0 < maxSize && oldSize <= maxSize
        invariant Grown(maxSize, need) == Grown(oldSize, need)
        invariant data == old(data) && size == old(size) && data[..] == old(data[..])
        invariant peak == old(peak) && copied == old(copied) && Repr == old(Repr)
        decreases need - maxSize
      {
        maxSize := maxSize * 2;
      }
      // realloc
      var block := new char[maxSize + 1](_ => '\0');
      forall i | 0 <= i <= oldSize {
        block[i] := data[i];
      }
      assert block[..size] == data[..size];
      data := block;
      copied := copied + oldSize;
      Repr := {this, data};
    }

    /** string_nappend */
    method Append(s: string)
      requires Valid()
      modifies Repr
      ensures Valid() && fresh(Repr - old(Repr))
      ensures View() == Extended(old(View()), s)
    {
      var newlen := size + |s|;
      GrownBounds(maxSize, newlen);
      EnsureSpace(newlen);
      forall i | 0 <= i < |s| {
        data[size + i] := s[i];
      }
      size := newlen;
      data[size] := '\0';
      assert data[..size] == old(data[..size]) + s;
      peak := if size > peak then size else peak;
    }

    method PushBack(c: char)
      requires Valid()
      modifies Repr
      ensures Valid() && fresh(Repr - old(Repr))
      ensures View() == Extended(old(View()), [c])
    {
      GrownBounds(maxSize, size + 1);
      EnsureSpace(size + 1);
      data[size] := c;
      size := size + 1;
      data[size] := '\0';
      assert data[..size] == old(data[..size]) + [c];
      peak := if size > peak then size else peak;
    }

    /** string_remove_front; its assert is the precondition. */
    method RemoveFront(n: nat)
      requires Valid() && n <= size
      modifies Repr
      ensures Valid() && Repr == old(Repr)
      ensures View() == Apply(old(View()), Op.RemoveFront(n))
    {
      size := size - n;
      // memmove
      forall i | 0 <= i < size {
        data[i] := data[n + i];
      }
      data[size] := '\0';
      assert data[..size] == old(data[..size])[n..];
    }
  }
}
