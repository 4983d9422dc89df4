/** The array-backed queue of the simulator, which grows at both ends. */
module DoubleQueue {

  /** The marker between two levels. States are never negative. */
  const SCAN: int := -0x1000_0000

  lemma {:induction false} SlicesAgree(s: seq<int>, t: seq<int>, lo: nat, hi: nat, offset: nat)
    requires lo <= hi <= |s| && hi + offset <= |t|
    requires forall i | lo + offset <= i < hi + offset :: t[i] == s[i - offset]
    ensures t[lo + offset..hi + offset] == s[lo..hi]
  {}

  /** An array twice as large with the old one copied in at `offset`. */
  method Copied(memory: array<int>, offset: nat) returns (newMemory: array<int>)
    requires offset <= memory.Length
    ensures fresh(newMemory) && newMemory.Length == 2 * memory.Length
    ensures forall i | offset <= i < offset + memory.Length :: newMemory[i] == memory[i - offset]
  {
    newMemory := new int[2 * memory.Length];
    forall i | offset <= i < offset + memory.Length {
      newMemory[i] := memory[i - offset];
    }
  }

  class DoubleQueue {
    var memory: array<int>
    var size: nat
    var head: nat
    var tail: nat

    ghost predicate Valid()
      reads this, memory
    {
      memory.Length == size && size >= 4 && head < tail < size
    }

    /** The queue, first element first: the slots strictly between head and tail. */
    ghost function Contents(): seq<int>
      requires Valid()
      reads this, memory
    {
      memory[head + 1..tail]
    }

    constructor (n: nat)
      requires n >= 3
      ensures Valid() && fresh(memory)
      ensures Contents() == [SCAN]
    {
      memory := new int[n];
      size := n;
      head := n / 2;
      tail := n / 2 + 1;
      new;
      memory[tail] := SCAN;
      tail := tail + 1;
      if tail == size {
        Enlarge();
      }
    }

    /** Push an element at the beginning of the queue. */
    method Push(value: int)
      requires Valid()
      modifies this, memory
      ensures Valid() && (memory == old(memory) || fresh(memory))
      ensures Contents() == [value] + old(Contents())
    {
      memory[head] := value;
      if head == 0 {
        Enlarge();
      }
      head := head - 1;
    }

    /** Put an element at the end of the queue. */
    method Put(value: int)
      requires Valid()
      modifies this, memory
      ensures Valid() && (memory == old(memory) || fresh(memory))
      ensures Contents() == old(Contents()) + [value]
    {
      memory[tail] := value;
      assert memory[head + 1..tail + 1] == old(memory[head + 1..tail]) + [value];
      tail := tail + 1;
      if tail == size {
        Enlarge();
      }
    }

    /**
     Remove the first element. On an empty queue the first call reads the slot behind
     the end, which need not have been written, and leaves the queue invalid; further
     calls return 0.
     */
    method Pop() returns (value: int)
      requires memory.Length == size && head <= tail < size
      modifies this`head
      ensures old(Valid()) && old(Contents()) != [] ==> Valid() && [value] + Contents() == old(Contents())
      ensures old(Valid()) && old(Contents()) == [] ==> head == tail && value == memory[tail]
      ensures old(head) == tail ==> value == 0 && head == tail
    {
      value := 0;
      assert head < tail ==> |memory[head + 1..tail]| == tail - head - 1;
      if head < tail {
        head := head + 1;
        value := memory[head];
      }
    }

    /** The queue counts as empty when nothing but the level marker is left. */
    method IsEmpty() returns (empty: bool)
      requires Valid()
      ensures empty <==> Contents() == [SCAN]
    {
      empty := head + 1 == tail - 1 && memory[tail - 1] == SCAN;
    }

    /** Move everything to an array twice as large, a quarter of the old size up. */
    method Enlarge()
      requires memory.Length == size && head < tail <= size
      requires size >= 4 || (size == 3 && head == 1)
      modifies this
      ensures Valid() && fresh(memory)
      ensures head == old(head) + old(size) / 4 && tail == old(tail) + old(size) / 4
      ensures memory[head..tail] == old(memory[head..tail]) && memory[head + 1..tail] == old(memory[head + 1..tail])
    {
      var offset := size / 4;
      var newMemory := Copied(memory, offset);
      SlicesAgree(memory[..], newMemory[..], head, tail, offset);
      SlicesAgree(memory[..], newMemory[..], head + 1, tail, offset);
      assert newMemory[head + offset..tail + offset] == newMemory[..][head + offset..tail + offset];
      assert newMemory[head + 1 + offset..tail + offset] == newMemory[..][head + 1 + offset..tail + offset];
      assert memory[head..tail] == memory[..][head..tail] && memory[head + 1..tail] == memory[..][head + 1..tail];
      head := head + offset;
      tail := tail + offset;
      size := 2 * size;
      memory := newMemory;
    }
  }
}
