/**
 * The deterministic randomness source of the parrot tests: every byte it
 * hands out is the value of a one-byte counter, which then moves on by one
 * and wraps from 255 back to 0.
 */
module IncrementingRand {
  import opened Wrappers
  import opened TlsTypes

  /** Go's `s.next++` on a byte: one step of the counter, wrapping at 256. */
  function Step(x: byte): (y: byte)
    ensures y as int == (x as int + 1) % 256
  {
    if x == 255 then 0 else x + 1
  }

  /** The counter after `n` bytes have been drawn from `start`. */
  function CounterAfter(start: byte, n: nat): byte
  {
    if n == 0 then start else Step(CounterAfter(start, n - 1))
  }

  /** The `n` bytes drawn when the counter stands at `start`, in order. */
  function Window(start: byte, n: nat): (w: seq<byte>)
    ensures |w| == n
  {
    if n == 0 then [] else Window(start, n - 1) + [CounterAfter(start, n - 1)]
  }

  /** After `n` draws the counter is `start + n` modulo 256. */
  lemma {:induction false} CounterAfterWraps(start: byte, n: nat)
    ensures CounterAfter(start, n) as int == (start as int + n) % 256
  {
    if n > 0 {
      CounterAfterWraps(start, n - 1);
      var a := start as int + n - 1;
      assert (a % 256 + 1) % 256 == (a + 1) % 256;
    }
  }

  /** The byte at position `i` of a window is `start + i` modulo 256. */
  lemma {:induction false} WindowAt(start: byte, n: nat, i: nat)
    requires i < n
    ensures Window(start, n)[i] as int == (start as int + i) % 256
  {
    if i == n - 1 {
      CounterAfterWraps(start, i);
    } else {
      WindowAt(start, n - 1, i);
    }
  }

  /** Drawing `n` and then `m` bytes moves the counter as one draw of `n + m`. */
  lemma {:induction false} CounterAfterCompose(start: byte, n: nat, m: nat)
    ensures CounterAfter(CounterAfter(start, n), m) == CounterAfter(start, n + m)
  {
    if m > 0 {
      CounterAfterCompose(start, n, m - 1);
    }
  }

  /** Drawing `n` and then `m` bytes yields exactly the bytes of one draw of `n + m`. */
  lemma {:induction false} WindowsCompose(start: byte, n: nat, m: nat)
    ensures Window(start, n) + Window(CounterAfter(start, n), m) == Window(start, n + m)
  {
    if m > 0 {
      WindowsCompose(start, n, m - 1);
      CounterAfterCompose(start, n, m - 1);
    }
  }

  /** Moving a counter by a non-multiple of 256 never lands it where it started. */
  lemma ShiftMovesCounter(start: byte, n: nat)
    requires n % 256 != 0
    ensures (start as int + n) % 256 != start as int
  {
  }

  /**
   * Two draws of `n` bytes whose starts are `k` bytes apart give the same
   * bytes exactly when they are empty or `k` is a multiple of 256, the
   * period of the counter.
   */
  lemma {:induction false} WindowsApart(start: byte, k: nat, n: nat)
    ensures Window(start, n) == Window(CounterAfter(start, k), n) <==> n == 0 || k % 256 == 0
  {
    CounterAfterWraps(start, k);
    if k % 256 == 0 {
      assert (start as int + k) % 256 == start as int;
    } else if n > 0 {
      var later := CounterAfter(start, k);
      ShiftMovesCounter(start, k);
      WindowAt(start, n, 0);
      WindowAt(later, n, 0);
      assert Window(start, n)[0] != Window(later, n)[0];
    }
  }

  /**
   * Two successive draws of `n` bytes give the same bytes exactly when `n`
   * is a multiple of 256.
   */
  lemma {:induction false} ConsecutiveWindowsDiffer(start: byte, n: nat)
    ensures Window(start, n) == Window(CounterAfter(start, n), n) <==> n % 256 == 0
  {
    WindowsApart(start, n, n);
  }

  /** Go's `incrementingSource`: a reader whose whole state is the next byte. */
  class IncrementingSource {
    var next: byte

    /** The zero value `&incrementingSource{}`: the counter starts at 0. */
    constructor ()
      ensures next == 0
    {
      next := 0;
    }

    /**
     * Fills `b` with the counter's successive values. It never fails and
     * never reads short: it reports `b.Length` and no error.
     */
    method Read(b: array<byte>) returns (n: int, err: Option<string>)
      modifies this, b
      ensures n == b.Length && err == None
      ensures b[..] == Window(old(next), b.Length)
      ensures forall i :: 0 <= i < b.Length ==> b[i] as int == (old(next) as int + i) % 256
      ensures next == CounterAfter(old(next), b.Length)
      ensures next as int == (old(next) as int + b.Length) % 256
    {
      ghost var start := next;
      var i := 0;
      while i < b.Length
        invariant 0 <= i <= b.Length
        invariant next == CounterAfter(start, i)
        invariant b[..i] == Window(start, i)
      {
        b[i] := next;
        next := Step(next);
        assert b[..i + 1] == b[..i] + [b[i]];
        i := i + 1;
      }
      assert b[..] == b[..b.Length];
      forall k | 0 <= k < b.Length
        ensures b[k] as int == (start as int + k) % 256
      {
        WindowAt(start, b.Length, k);
      }
      CounterAfterWraps(start, b.Length);
      return b.Length, None;
    }
  }

  /**
   * Replay: two fresh sources, one read as `n` then `m` bytes and the other
   * as `n + m` bytes at once, hand out the same bytes and end in the same state.
   */
  method SplitReadReplays(n: nat, m: nat)
    returns (split: seq<byte>, whole: seq<byte>, splitNext: byte, wholeNext: byte)
    ensures split == Window(0, n) + Window(CounterAfter(0, n), m)
    ensures splitNext == CounterAfter(CounterAfter(0, n), m)
    ensures whole == Window(0, n + m) && wholeNext == CounterAfter(0, n + m)
    ensures split == whole && splitNext == wholeNext
  {
    var s1 := new IncrementingSource();
    var a := new byte[n];
    var b := new byte[m];
    var _, _ := s1.Read(a);
    var _, _ := s1.Read(b);
    var s2 := new IncrementingSource();
    var c := new byte[n + m];
    var _, _ := s2.Read(c);
    WindowsCompose(0, n, m);
    CounterAfterCompose(0, n, m);
    split, whole := a[..] + b[..], c[..];
    splitNext, wholeNext := s1.next, s2.next;
  }

  /**
   * Two successive draws of `n` bytes from a fresh source differ exactly
   * when `n` is not a multiple of 256.
   */
  method SuccessiveDrawsDiffer(n: nat) returns (first: seq<byte>, second: seq<byte>)
    ensures first == Window(0, n) && second == Window(CounterAfter(0, n), n)
    ensures first != second <==> n % 256 != 0
  {
    var s := new IncrementingSource();
    var a := new byte[n];
    var b := new byte[n];
    var _, _ := s.Read(a);
    var _, _ := s.Read(b);
    ConsecutiveWindowsDiffer(0, n);
    first, second := a[..], b[..];
  }

  /**
   * Two draws of `n` bytes from a fresh source with `gap` bytes drawn in
   * between differ exactly when they are not empty and `n + gap` is not a
   * multiple of 256.
   */
  method SeparatedDrawsDiffer(n: nat, gap: nat) returns (first: seq<byte>, second: seq<byte>)
    ensures first == Window(0, n) && second == Window(CounterAfter(0, n + gap), n)
    ensures first != second <==> n != 0 && (n + gap) % 256 != 0
  {
    var s := new IncrementingSource();
    var a := new byte[n];
    var between := new byte[gap];
    var b := new byte[n];
    var _, _ := s.Read(a);
    var _, _ := s.Read(between);
    var _, _ := s.Read(b);
    CounterAfterCompose(0, n, gap);
    WindowsApart(0, n + gap, n);
    first, second := a[..], b[..];
  }
}
