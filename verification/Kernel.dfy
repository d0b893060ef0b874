/**
 The process whose memory is scanned, and the system call that reads it.

 Addresses are natural numbers; address arithmetic does not wrap. Readability is a property of whole
 pages. A scan sees one fixed memory.
 */
module Kernel {

  const PAGE_SIZE: nat := 4096
  const IOV_MAX: nat := 1024

  newtype byte = x: int | 0 <= x < 0x100

  type pos = n: nat | n > 0 witness 1

  /** The count a failing transfer reports: -1 as the bare system call does, or 0 once clamped. */
  type FailCount = n: int | -1 <= n <= 0

  datatype Option<+T> = None | Some(value: T) {
    function GetOr(default: T): T {
      if None? then default else value
    }
  }

  /** How many bytes from `a` on lie in mapped pages, up to `n`. */
  function MappedPrefix(mapped: nat -> bool, a: nat, n: nat): (r: nat)
    ensures r <= n
    ensures forall x :: a <= x < a + r ==> mapped(x / PAGE_SIZE)
    ensures r < n ==> !mapped((a + r) / PAGE_SIZE)
    decreases n
  {
    if n == 0 || !mapped(a / PAGE_SIZE) then 0 else 1 + MappedPrefix(mapped, a + 1, n - 1)
  }

  datatype Memory = Memory(bytes: nat -> byte, mapped: nat -> bool) {

    predicate Readable(a: nat) {
      mapped(a / PAGE_SIZE)
    }

    ghost predicate ReadableRange(a: nat, n: nat) {
      forall x :: a <= x < a + n ==> Readable(x)
    }

    /** The length of the longest readable prefix of [a, a + n): what one transfer can deliver. */
    function ReadablePrefix(a: nat, n: nat): (r: nat)
      ensures r <= n
      ensures forall x :: a <= x < a + r ==> Readable(x)
      ensures r < n ==> !Readable(a + r)
    {
      MappedPrefix(mapped, a, n)
    }

    function Slice(a: nat, n: nat): (s: seq<byte>)
      ensures |s| == n
      ensures forall i :: 0 <= i < n ==> s[i] == bytes(a + i)
    {
      seq(n, i requires 0 <= i < n => bytes(a + i))
    }
  }

  function PageStart(x: nat): nat {
    x - x % PAGE_SIZE
  }

  function PageEnd(x: nat): nat {
    PageStart(x) + PAGE_SIZE
  }

  lemma PageEndAt(b: nat, p: nat)
    requires b % PAGE_SIZE == 0
    ensures b <= p < b + PAGE_SIZE ==> PageEnd(p) == b + PAGE_SIZE
    ensures p + 1 == b ==> PageEnd(p) == b
  {
  }

  /** `x` rounded up to a page boundary, the source's (x + 0xFFF) &^ 0xFFF. */
  function PageRoundUp(x: nat): (r: nat)
    ensures x <= r < x + PAGE_SIZE
    ensures r % PAGE_SIZE == 0
  {
    PageStart(x + (PAGE_SIZE - 1))
  }

  function Min(a: int, b: int): int {
    if a < b then a else b
  }

  function Max(a: int, b: int): int {
    if a < b then b else a
  }

  /**
   A cancellation context: once cancelled it stays cancelled; another goroutine may cancel it at any time.
   `ended` is how many tasks have ended before that.
   */
  class Context {
    var done: bool
    ghost var ended: nat

    constructor ()
      ensures !done && ended == 0
    {
      done := false;
      ended := 0;
    }

    method Err() returns (cancelled: bool)
      modifies this`done
      ensures cancelled == done
      ensures old(done) ==> done
    {
      var c: bool := *;
      done := done || c;
      cancelled := done;
    }
  }
}
