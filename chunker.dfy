/**
 The greedy paragraph packing that the relay applies to a long reply: the
 reply is split on "\n\n", paragraphs are appended (each followed by
 "\n\n") to a buffer, and the buffer is flushed, stripped, as one message
 whenever the next paragraph would push it past MAX_LEN. What remains in
 the buffer at the end is sent, stripped, unless it is blank.

 Nothing here is executable in the relay itself: these functions specify the
 loop in Relay.SendReplyInChunks and carry the lemmas about it.
 */
module Chunker {
  import opened PyText

  /** Size limit of one outgoing message, in characters. */
  const MAX_LEN: nat := 3900

  /** The buffers flushed so far (unstripped, in order) and the current buffer. */
  datatype Packing = Packing(flushed: seq<string>, buffer: string)

  const EMPTY: Packing := Packing([], "")

  /** One iteration of the paragraph loop. */
  function Step(st: Packing, p: string): Packing {
    if |st.buffer| + |p| + 2 > MAX_LEN then
      Packing(st.flushed + [st.buffer], p + SEP)
    else
      Packing(st.flushed, st.buffer + p + SEP)
  }

  /** The loop's state after it has consumed all of `ps`, in order. */
  function Pack(ps: seq<string>): Packing
    decreases |ps|
  {
    if ps == [] then EMPTY else Step(Pack(ps[..|ps| - 1]), ps[|ps| - 1])
  }

  /** Consuming one more paragraph is one more step of the loop. */
  lemma {:induction false} PackNext(ps: seq<string>, p: string)
    ensures Pack(ps + [p]) == Step(Pack(ps), p)
  {
    assert (ps + [p])[..|ps|] == ps;
  }

  function StripAll(bs: seq<string>): seq<string> {
    seq(|bs|, i requires 0 <= i < |bs| => Strip(bs[i]))
  }

  lemma {:induction false} StripAllAppend(bs: seq<string>, b: string)
    ensures StripAll(bs + [b]) == StripAll(bs) + [Strip(b)]
  {
  }

  /** The final buffer is sent (stripped) only when it is not blank. */
  function Tail(buffer: string): seq<string> {
    if Strip(buffer) != "" then [Strip(buffer)] else []
  }

  /** The texts the relay sends, in order, for a reply that takes the splitting branch. */
  function Chunks(reply: string): seq<string> {
    var st := Pack(Split(reply));
    StripAll(st.flushed) + Tail(st.buffer)
  }

  function Concat(ss: seq<string>): string
    decreases |ss|
  {
    if ss == [] then "" else ss[0] + Concat(ss[1..])
  }

  /** Each paragraph followed by the separator, as the loop appends them. */
  function Terminated(ps: seq<string>): string
    decreases |ps|
  {
    if ps == [] then "" else ps[0] + SEP + Terminated(ps[1..])
  }

  lemma {:induction false} ConcatAppend(ss: seq<string>, s: string)
    ensures Concat(ss + [s]) == Concat(ss) + s
    decreases |ss|
  {
    if ss != [] {
      assert (ss + [s])[1..] == ss[1..] + [s];
      ConcatAppend(ss[1..], s);
    }
  }

  lemma {:induction false} TerminatedAppend(ps: seq<string>, p: string)
    ensures Terminated(ps + [p]) == Terminated(ps) + p + SEP
    decreases |ps|
  {
    if ps != [] {
      assert (ps + [p])[1..] == ps[1..] + [p];
      TerminatedAppend(ps[1..], p);
    }
  }

  /** Terminating every paragraph is joining them and terminating the last one. */
  lemma {:induction false} JoinTerminated(ps: seq<string>)
    requires |ps| >= 1
    ensures Terminated(ps) == Join(ps) + SEP
    decreases |ps|
  {
    if |ps| > 1 {
      JoinTerminated(ps[1..]);
    }
  }

  /**
   The flushed buffers followed by the current buffer are exactly the
   consumed paragraphs, each followed by the separator: no paragraph is lost,
   repeated or moved.
   */
  lemma {:induction false} PackCovers(ps: seq<string>)
    ensures Concat(Pack(ps).flushed) + Pack(ps).buffer == Terminated(ps)
    decreases |ps|
  {
    if ps != [] {
      var q, p := ps[..|ps| - 1], ps[|ps| - 1];
      assert ps == q + [p];
      PackCovers(q);
      TerminatedAppend(q, p);
      var st := Pack(q);
      if |st.buffer| + |p| + 2 > MAX_LEN {
        ConcatAppend(st.flushed, st.buffer);
      }
    }
  }

  /**
   In the splitting branch, the buffers flushed in order followed by the
   final buffer spell out the reply with one separator appended.
   */
  lemma {:induction false} ReplyCovered(reply: string)
    ensures Concat(Pack(Split(reply)).flushed) + Pack(Split(reply)).buffer == reply + SEP
  {
    PackCovers(Split(reply));
    JoinTerminated(Split(reply));
    JoinSplit(reply);
  }

  /** When no paragraph exceeds MAX_LEN - 2 characters, no buffer exceeds MAX_LEN. */
  lemma {:induction false} PackBounded(ps: seq<string>)
    requires forall i :: 0 <= i < |ps| ==> |ps[i]| + 2 <= MAX_LEN
    ensures |Pack(ps).buffer| <= MAX_LEN
    ensures forall k :: 0 <= k < |Pack(ps).flushed| ==> |Pack(ps).flushed[k]| <= MAX_LEN
    decreases |ps|
  {
    if ps != [] {
      PackBounded(ps[..|ps| - 1]);
    }
  }

  /**
   When no paragraph exceeds MAX_LEN characters, every buffer, once stripped,
   fits in MAX_LEN: a buffer that grew stays within MAX_LEN, and a buffer
   restarted as `p + "\n\n"` loses its separator to `strip`.
   */
  lemma {:induction false} PackStrippedBounded(ps: seq<string>)
    requires forall i :: 0 <= i < |ps| ==> |ps[i]| <= MAX_LEN
    ensures |Strip(Pack(ps).buffer)| <= MAX_LEN
    ensures forall k :: 0 <= k < |Pack(ps).flushed| ==> |Strip(Pack(ps).flushed[k])| <= MAX_LEN
    decreases |ps|
  {
    if ps != [] {
      var q, p := ps[..|ps| - 1], ps[|ps| - 1];
      PackStrippedBounded(q);
      var st := Pack(q);
      if |st.buffer| + |p| + 2 > MAX_LEN {
        StripAppendBlank(p, SEP);
        StripSpec(p);
        assert Pack(ps).flushed == st.flushed + [st.buffer];
      } else {
        StripSpec(st.buffer + p + SEP);
      }
    }
  }

  /** When every paragraph has at most MAX_LEN characters, every text sent fits in MAX_LEN. */
  lemma {:induction false} ChunksBounded(reply: string)
    requires forall i :: 0 <= i < |Split(reply)| ==> |Split(reply)[i]| <= MAX_LEN
    ensures forall k :: 0 <= k < |Chunks(reply)| ==> |Chunks(reply)[k]| <= MAX_LEN
  {
    PackStrippedBounded(Split(reply));
  }

  /** The loop only ever appends to the flushed buffers. */
  lemma {:induction false} PackPrefix(ps: seq<string>, k: nat)
    requires k <= |ps|
    ensures Pack(ps[..k]).flushed <= Pack(ps).flushed
    decreases |ps|
  {
    if k < |ps| {
      var q := ps[..|ps| - 1];
      assert q[..k] == ps[..k];
      PackPrefix(q, k);
    } else {
      assert ps[..k] == ps;
    }
  }

  /**
   A paragraph longer than MAX_LEN - 2 is never split or merged: the buffer
   before it is flushed, it becomes a buffer of its own, and that buffer is
   flushed as soon as another paragraph follows.
   */
  lemma {:induction false} OversizeParagraphAlone(ps: seq<string>, i: nat)
    requires i < |ps| && |ps[i]| + 2 > MAX_LEN
    ensures Pack(ps[..i + 1]) == Packing(Pack(ps[..i]).flushed + [Pack(ps[..i]).buffer], ps[i] + SEP)
    ensures i + 1 < |ps| ==>
      Pack(ps[..i + 2]).flushed == Pack(ps[..i]).flushed + [Pack(ps[..i]).buffer, ps[i] + SEP]
  {
    assert ps[..i + 1][..i] == ps[..i];
    if i + 1 < |ps| {
      assert ps[..i + 2][..i + 1] == ps[..i + 1];
    }
  }

  /**
   When the first paragraph alone is longer than MAX_LEN - 2, the first text
   sent is empty (the still-empty buffer, stripped), and that paragraph
   follows unsplit as the next text, if anything follows it at all.
   */
  lemma {:induction false} FirstParagraphOversize(reply: string)
    requires |Split(reply)[0]| + 2 > MAX_LEN
    ensures |Chunks(reply)| >= 1 && Chunks(reply)[0] == ""
    ensures |Split(reply)| > 1 ==> |Chunks(reply)| >= 2 && Chunks(reply)[1] == Strip(Split(reply)[0])
    ensures |Split(reply)| == 1 && Strip(Split(reply)[0]) != "" ==> Chunks(reply) == ["", Strip(Split(reply)[0])]
    ensures |Split(reply)| == 1 && Strip(Split(reply)[0]) == "" ==> Chunks(reply) == [""]
  {
    var ps := Split(reply);
    OversizeParagraphAlone(ps, 0);
    assert ps[..0] == [];
    PackPrefix(ps, 1);
    var fl := Pack(ps).flushed;
    assert fl[0] == "";
    if |ps| > 1 {
      PackPrefix(ps, 2);
      assert fl[1] == ps[0] + SEP;
      StripAppendBlank(ps[0], SEP);
    } else {
      assert ps == ps[..1];
      StripAppendBlank(ps[0], SEP);
    }
  }

  /** The last paragraph of a reply that ends in a non-space character ends with that character. */
  lemma {:induction false} LastParagraphEnds(reply: string)
    requires |reply| > 0 && !IsSpace(reply[|reply| - 1])
    ensures !IsBlank(Split(reply)[|Split(reply)| - 1])
  {
    var ps := Split(reply);
    var n := |ps|;
    JoinSplit(reply);
    if n >= 2 {
      JoinLast(ps);
      var last := ps[n - 1];
      assert reply == Join(ps[..n - 1]) + SEP + last;
      assert last != [] && last[|last| - 1] == reply[|reply| - 1];
    } else {
      assert reply[|reply| - 1] == ps[0][|reply| - 1];
    }
  }

  /** The buffer always ends with the last paragraph consumed and its separator. */
  lemma {:induction false} BufferEndsWithLast(ps: seq<string>)
    requires |ps| >= 1
    ensures |Pack(ps).buffer| >= |ps[|ps| - 1]| + 2
    ensures Pack(ps).buffer[|Pack(ps).buffer| - 2 - |ps[|ps| - 1]|..] == ps[|ps| - 1] + SEP
  {
  }

  /**
   When the reply ends in a non-space character (as a stripped reply does),
   the final buffer is never blank, so the last paragraph is always sent: the
   last text sent is the final buffer, stripped, and it is not empty.
   */
  lemma {:induction false} FinalBufferSent(reply: string)
    requires |reply| > 0 && !IsSpace(reply[|reply| - 1])
    ensures |Chunks(reply)| >= 1
    ensures Chunks(reply)[|Chunks(reply)| - 1] == Strip(Pack(Split(reply)).buffer) != ""
  {
    var st := Pack(Split(reply));
    FinalBufferNotBlank(reply);
    StripEmptyIffBlank(st.buffer);
    assert Tail(st.buffer) == [Strip(st.buffer)];
  }

  lemma {:induction false} FinalBufferNotBlank(reply: string)
    requires |reply| > 0 && !IsSpace(reply[|reply| - 1])
    ensures !IsBlank(Pack(Split(reply)).buffer)
  {
    LastParagraphEnds(reply);
    BufferNotBlank(Split(reply));
  }

  lemma {:induction false} BufferNotBlank(ps: seq<string>)
    requires |ps| >= 1 && !IsBlank(ps[|ps| - 1])
    ensures !IsBlank(Pack(ps).buffer)
  {
    var last := ps[|ps| - 1];
    var k :| 0 <= k < |last| && !IsSpace(last[k]);
    BufferEndsWithLast(ps);
    var b := Pack(ps).buffer;
    assert b[|b| - 2 - |last|..][k] == last[k];
  }
}
