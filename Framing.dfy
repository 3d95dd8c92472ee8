/**
 * Response framing for `write`: the serial transport seen as the sequence
 * of chunks that successive non-blocking reads return, the terminator test
 * of the polling loop, and the reply that loop assembles.
 *
 * Time is abstracted to a poll budget `polls`: the number of reads inside
 * the loop that complete before 100 ms have passed since the loop started.
 * The deadline test after the j-th of them (`t2 - t1 > 0.1`) fires exactly
 * when j > polls.
 */
module Framing {
  import opened Wrappers
  import opened Utf8

  const CR: Byte := 0x0D
  const LF: Byte := 0x0A

  /** `response[-2:]`: the last two bytes, or all of them when there are fewer. */
  function LastTwo(b: seq<Byte>): (r: seq<Byte>)
    ensures |r| == if |b| < 2 then |b| else 2
  {
    if |b| < 2 then b else b[|b| - 2..]
  }

  /** The buffer is a complete response: two bytes or more, ending in CR LF. */
  predicate Complete(b: seq<Byte>)
  {
    |b| >= 2 && b[|b| - 2] == CR && b[|b| - 1] == LF
  }

  /**
   * The loop condition `len(response) == 1 or response[-2:] != "\r\n"`,
   * with the byte comparison the code means, holds exactly while the
   * buffer is not complete; a single byte never is.
   */
  lemma LoopConditionIncomplete(b: seq<Byte>)
    ensures (|b| == 1 || LastTwo(b) != [CR, LF]) <==> !Complete(b)
  {
    if |b| >= 2 {
      assert LastTwo(b) == [b[|b| - 2], b[|b| - 1]];
    }
  }

  /** What the read with index `i` returns: once the device has sent everything, reads are empty. */
  function Chunk(cs: seq<seq<Byte>>, i: nat): seq<Byte>
  {
    if i < |cs| then cs[i] else []
  }

  /** The in-order concatenation of what the `n` reads from index `s` on return. */
  function Received(cs: seq<seq<Byte>>, s: nat, n: nat): seq<Byte>
  {
    if n == 0 then [] else Received(cs, s, n - 1) + Chunk(cs, s + n - 1)
  }

  /** Everything the device sends from read index `s` on, in order. */
  function Pending(cs: seq<seq<Byte>>, s: nat): seq<Byte>
  {
    if s < |cs| then Received(cs, s, |cs| - s) else []
  }

  /** The buffer is complete after `n` reads from read index `s`. */
  predicate CompleteAt(cs: seq<seq<Byte>>, s: nat, n: nat)
  {
    Complete(Received(cs, s, n))
  }

  /**
   * The number of reads `write` performs, starting at read index `s`, when
   * `n` of them are done: it stops at the first count whose buffer is
   * complete, and at the latest after `polls + 2` reads (the read before
   * the loop, `polls` reads inside the deadline and the one after which
   * the deadline test fires).
   */
  function ReadsFrom(cs: seq<seq<Byte>>, s: nat, polls: nat, n: nat): (r: nat)
    requires 1 <= n <= polls + 2
    ensures n <= r <= polls + 2
    decreases polls + 2 - n
  {
    if n == polls + 2 || CompleteAt(cs, s, n) then n else ReadsFrom(cs, s, polls, n + 1)
  }

  /** The loop stops early only on a complete buffer. */
  lemma {:induction false} ReadsFromStops(cs: seq<seq<Byte>>, s: nat, polls: nat, n: nat)
    requires 1 <= n <= polls + 2
    ensures ReadsFrom(cs, s, polls, n) < polls + 2 ==> CompleteAt(cs, s, ReadsFrom(cs, s, polls, n))
    decreases polls + 2 - n
  {
    if !(n == polls + 2 || CompleteAt(cs, s, n)) {
      ReadsFromStops(cs, s, polls, n + 1);
    }
  }

  /** No count before the one `ReadsFrom` stops at gives a complete buffer. */
  lemma {:induction false} ReadsFromMinimal(cs: seq<seq<Byte>>, s: nat, polls: nat, n: nat)
    requires 1 <= n <= polls + 2
    ensures forall m :: n <= m < ReadsFrom(cs, s, polls, n) ==> !CompleteAt(cs, s, m)
    decreases polls + 2 - n
  {
    if !(n == polls + 2 || CompleteAt(cs, s, n)) {
      ReadsFromMinimal(cs, s, polls, n + 1);
    }
  }

  /**
   * `n` is the number of reads `write` makes from read index `s`: at
   * least one and at most `polls + 2`, complete unless it is the deadline
   * count, and no smaller count was complete.
   */
  ghost predicate IsReadCount(cs: seq<seq<Byte>>, s: nat, polls: nat, n: nat)
  {
    1 <= n <= polls + 2
    && (n == polls + 2 || CompleteAt(cs, s, n))
    && forall m :: 1 <= m < n ==> !CompleteAt(cs, s, m)
  }

  /** The loop's count, run from the first read, is such a count. */
  lemma ReadsFromIsReadCount(cs: seq<seq<Byte>>, s: nat, polls: nat)
    ensures IsReadCount(cs, s, polls, ReadsFrom(cs, s, polls, 1))
  {
    ReadsFromMinimal(cs, s, polls, 1);
    ReadsFromStops(cs, s, polls, 1);
  }

  /** There is only one such count: the first complete one, or the deadline. */
  lemma ReadCountsAgree(cs: seq<seq<Byte>>, s: nat, polls: nat, n: nat, n': nat)
    requires IsReadCount(cs, s, polls, n) && IsReadCount(cs, s, polls, n')
    ensures n == n'
  {
  }

  /** The number of reads `write` makes when its first read has index `s`. */
  ghost function ReadCount(cs: seq<seq<Byte>>, s: nat, polls: nat): (n: nat)
    ensures IsReadCount(cs, s, polls, n)
  {
    ReadsFromIsReadCount(cs, s, polls);
    var n :| IsReadCount(cs, s, polls, n);
    n
  }

  /** Any count with the defining properties is the one `write` makes. */
  lemma ReadCountIs(cs: seq<seq<Byte>>, s: nat, polls: nat, n: nat)
    requires IsReadCount(cs, s, polls, n)
    ensures ReadCount(cs, s, polls) == n
    ensures Response(cs, s, polls) == Received(cs, s, n)
    ensures Next(cs, s, polls) == s + n
  {
    ReadCountsAgree(cs, s, polls, n, ReadCount(cs, s, polls));
  }

  /** The bytes `write` returns when its first read has index `s`. */
  ghost function Response(cs: seq<seq<Byte>>, s: nat, polls: nat): seq<Byte>
  {
    Received(cs, s, ReadCount(cs, s, polls))
  }

  /** The read index at which the next call of `write` starts. */
  ghost function Next(cs: seq<seq<Byte>>, s: nat, polls: nat): nat
  {
    s + ReadCount(cs, s, polls)
  }

  /** The read index after `k` consecutive calls of `write` from index `s`. */
  ghost function After(cs: seq<seq<Byte>>, s: nat, polls: nat, k: nat): nat
  {
    if k == 0 then s else Next(cs, After(cs, s, polls, k - 1), polls)
  }

  /** One more call of `write` starts where the last one left off. */
  lemma AfterStep(cs: seq<seq<Byte>>, s: nat, polls: nat, k: nat, at: nat)
    requires at == After(cs, s, polls, k)
    ensures After(cs, s, polls, k + 1) == Next(cs, at, polls)
  {
  }

  /** `j` calls of `write` followed by `k` more are `j + k` calls. */
  lemma {:induction false} AfterAfter(cs: seq<seq<Byte>>, s: nat, polls: nat, j: nat, k: nat)
    ensures After(cs, After(cs, s, polls, j), polls, k) == After(cs, s, polls, j + k)
    decreases k
  {
    var a := After(cs, s, polls, j);
    if k == 0 {
      assert After(cs, a, polls, 0) == a;
    } else {
      AfterAfter(cs, s, polls, j, k - 1);
      var m := After(cs, s, polls, j + (k - 1));
      assert After(cs, a, polls, k - 1) == m;
      assert After(cs, a, polls, k) == Next(cs, After(cs, a, polls, k - 1), polls);
      assert After(cs, s, polls, j + k) == Next(cs, m, polls);
    }
  }

  /** The reply to the call of `write` that comes after `k` earlier ones. */
  ghost function Reply(cs: seq<seq<Byte>>, s: nat, polls: nat, k: nat): seq<Byte>
  {
    Response(cs, After(cs, s, polls, k), polls)
  }

  /** Fewer reads see a prefix of what more reads see. */
  lemma {:induction false} ReceivedPrefix(cs: seq<seq<Byte>>, s: nat, m: nat, n: nat)
    requires m <= n
    ensures Received(cs, s, m) <= Received(cs, s, n)
    decreases n - m
  {
    if m < n {
      ReceivedPrefix(cs, s, m, n - 1);
    }
  }

  /** Reads past the end of the device's output add nothing. */
  lemma {:induction false} ReceivedAll(cs: seq<seq<Byte>>, s: nat, n: nat)
    requires s + n >= |cs|
    ensures Received(cs, s, n) == Pending(cs, s)
    decreases n
  {
    if s + n == |cs| && s < |cs| {
    } else if n > 0 {
      ReceivedAll(cs, s, n - 1);
    }
  }

  lemma ReceivedInPending(cs: seq<seq<Byte>>, s: nat, n: nat)
    ensures Received(cs, s, n) <= Pending(cs, s)
  {
    if s + n <= |cs| && s < |cs| {
      ReceivedPrefix(cs, s, n, |cs| - s);
    } else {
      ReceivedAll(cs, s, n);
    }
  }

  /**
   * What `write` returns: the in-order concatenation of its reads, a
   * prefix of what the device has still to send; at most `polls + 2`
   * reads are made, and either the reply is complete or the deadline
   * ended the loop, in which case the partial (possibly empty) buffer is
   * returned.  No shorter run of reads had already produced a complete
   * buffer.
   */
  lemma ResponseShape(cs: seq<seq<Byte>>, s: nat, polls: nat)
    ensures 1 <= ReadCount(cs, s, polls) <= polls + 2
    ensures Response(cs, s, polls) <= Pending(cs, s)
    ensures Complete(Response(cs, s, polls)) || ReadCount(cs, s, polls) == polls + 2
    ensures forall m :: 1 <= m < ReadCount(cs, s, polls) ==> !CompleteAt(cs, s, m)
  {
    ReceivedInPending(cs, s, ReadCount(cs, s, polls));
  }

  /**
   * The chunking does not matter: however the device splits a reply that
   * ends in its only CR LF (one byte per read, empty reads in between),
   * `write` returns exactly that reply, provided it arrives within the
   * deadline.
   */
  lemma ChunkingIrrelevant(cs: seq<seq<Byte>>, s: nat, polls: nat, reply: seq<Byte>)
    requires Pending(cs, s) == reply
    requires Complete(reply)
    requires forall p :: 0 <= p < |reply| ==> !Complete(reply[..p])
    requires |cs| <= s + polls + 2
    ensures Response(cs, s, polls) == reply
  {
    var n := ReadCount(cs, s, polls);
    var got := Response(cs, s, polls);
    ResponseShape(cs, s, polls);
    if !Complete(got) {
      ReceivedAll(cs, s, n);
    } else {
      assert got == reply[..|got|];
    }
  }

  /**
   * A reply whose only CR is the one of its final CR LF is complete, and
   * no shorter prefix of it is.
   */
  lemma TerminatedOnce(body: seq<Byte>)
    requires forall x :: 0 <= x < |body| ==> body[x] != CR
    ensures Complete(body + [CR, LF])
    ensures forall p :: 0 <= p < |body + [CR, LF]| ==> !Complete((body + [CR, LF])[..p])
  {
    var reply := body + [CR, LF];
    forall p | 0 <= p < |reply| ensures !Complete(reply[..p]) {
      if p >= 2 {
        assert reply[..p][p - 2] == body[p - 2];
      }
    }
  }

  /**
   * A line of text without CR, sent with CR LF: its bytes are complete,
   * no shorter prefix of them is, and they decode to the line.
   */
  lemma LineReply(text: string)
    requires forall x :: 0 <= x < |text| ==> text[x] != '\r'
    ensures var reply := Encode(text + "\r\n");
      && Complete(reply)
      && (forall p :: 0 <= p < |reply| ==> !Complete(reply[..p]))
      && Decode(reply) == Some(text + "\r\n")
  {
    EncodeAvoids(text, '\r');
    EncodeConcat(text, "\r\n");
    assert Encode("\r\n") == [CR, LF];
    TerminatedOnce(Encode(text));
    DecodeEncode(text + "\r\n");
  }

  /**
   * A device that never completes a reply in time is cut off at the
   * deadline: `write` then returns what the `polls + 2` reads produced.
   */
  lemma TimeoutReturnsPartial(cs: seq<seq<Byte>>, s: nat, polls: nat)
    requires forall m :: 1 <= m <= polls + 2 ==> !CompleteAt(cs, s, m)
    ensures ReadCount(cs, s, polls) == polls + 2
    ensures Response(cs, s, polls) == Received(cs, s, polls + 2)
  {
    ReadCountIs(cs, s, polls, polls + 2);
  }

  /**
   * `write` as Python 3 runs it: `response[-2:]` is bytes and `"\r\n"` is
   * str, they never compare equal, so only the deadline ends the loop and
   * all `polls + 2` reads are always made.
   */
  function ResponseAsWritten(cs: seq<seq<Byte>>, s: nat, polls: nat): seq<Byte>
  {
    Received(cs, s, polls + 2)
  }

  /**
   * The as-written loop reads on past the terminator: it returns the
   * intended reply and whatever the device sends after it.
   */
  lemma AsWrittenReadsPastTerminator(cs: seq<seq<Byte>>, s: nat, polls: nat)
    ensures Response(cs, s, polls) <= ResponseAsWritten(cs, s, polls)
  {
    ReceivedPrefix(cs, s, ReadCount(cs, s, polls), polls + 2);
  }

  /**
   * The reply "1.0\r\n" followed by a stray "X", one byte per read as
   * pyserial's `read()` delivers it: the intended loop stops after the
   * LF, the as-written loop swallows the "X" as well.
   */
  lemma AsWrittenCounterexample()
    ensures var cs := [[0x31], [0x2E], [0x30], [CR], [LF], [0x58]];
      && Response(cs, 0, 4) == [0x31, 0x2E, 0x30, CR, LF]
      && ResponseAsWritten(cs, 0, 4) == [0x31, 0x2E, 0x30, CR, LF, 0x58]
  {
    var cs: seq<seq<Byte>> := [[0x31], [0x2E], [0x30], [CR], [LF], [0x58]];
    assert Received(cs, 0, 1) == [0x31];
    assert Received(cs, 0, 2) == [0x31, 0x2E];
    assert Received(cs, 0, 3) == [0x31, 0x2E, 0x30];
    assert Received(cs, 0, 4) == [0x31, 0x2E, 0x30, CR];
    assert Received(cs, 0, 5) == [0x31, 0x2E, 0x30, CR, LF];
    assert Received(cs, 0, 6) == [0x31, 0x2E, 0x30, CR, LF, 0x58];
    assert forall m :: 1 <= m < 5 ==> !CompleteAt(cs, 0, m);
    ReadCountIs(cs, 0, 4, 5);
  }


  /**
   * The serial device: `chunks` holds what its successive reads return,
   * `taken` how many reads have been made, and `writes` the byte strings
   * written to it so far, one per call of `write`; the line carries their
   * concatenation.
   */
  class Port {
    const chunks: seq<seq<Byte>>
    var taken: nat
    var writes: seq<seq<Byte>>

    constructor (chunks: seq<seq<Byte>>)
      ensures this.chunks == chunks && taken == 0 && writes == []
    {
      this.chunks := chunks;
      taken := 0;
      writes := [];
    }

    /** `device.write(bytes)` */
    method Send(bytes: seq<Byte>)
      modifies this
      ensures writes == old(writes) + [bytes]
      ensures taken == old(taken)
    {
      writes := writes + [bytes];
    }

    /**
     * `device.read()` with `timeout=0`: returns at once with at most one
     * byte (pyserial's default size), or nothing when none has arrived.
     * The model lets a read return a chunk of any length, so the source's
     * one-byte reads are the special case where every chunk has length
     * zero or one.
     */
    method Read() returns (chunk: seq<Byte>)
      modifies this
      ensures chunk == Chunk(chunks, old(taken))
      ensures taken == old(taken) + 1
      ensures writes == old(writes)
    {
      chunk := Chunk(chunks, taken);
      taken := taken + 1;
    }
  }
}
