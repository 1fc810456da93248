/** The recognition session of the speech server (scripts/stt-server/stt_server.py): samples
    arrive in arbitrary chunks and reach the recogniser in blocks of DECODE_CHUNK. */
module SttSession {
  import opened Basics

  type Sample = real

  const DECODE_CHUNK := 6400
  const TAIL_CHUNKS := 2

  // ----- cutting a sample stream into blocks -----

  /** The full blocks of a stream, in order. */
  function Blocks(s: seq<Sample>): seq<seq<Sample>>
    decreases |s|
  {
    if |s| < DECODE_CHUNK then [] else [s[..DECODE_CHUNK]] + Blocks(s[DECODE_CHUNK..])
  }

  /** What is left after the last full block. */
  function Remainder(s: seq<Sample>): (r: seq<Sample>)
    ensures |r| < DECODE_CHUNK
    decreases |s|
  {
    if |s| < DECODE_CHUNK then s else Remainder(s[DECODE_CHUNK..])
  }

  function Flat(blocks: seq<seq<Sample>>): seq<Sample> {
    if blocks == [] then [] else blocks[0] + Flat(blocks[1..])
  }

  function Silence(n: nat): (s: seq<Sample>)
    ensures |s| == n
    ensures forall k | 0 <= k < n :: s[k] == 0.0
  {
    seq(n, _ => 0.0)
  }

  /** The blocks and the remainder are the stream, and every block is full. */
  lemma {:induction false} BlocksPartition(s: seq<Sample>)
    ensures Flat(Blocks(s)) + Remainder(s) == s
    ensures forall k | 0 <= k < |Blocks(s)| :: |Blocks(s)[k]| == DECODE_CHUNK
    ensures |Blocks(s)| * DECODE_CHUNK + |Remainder(s)| == |s|
    decreases |s|
  {
    if |s| >= DECODE_CHUNK {
      var rest := s[DECODE_CHUNK..];
      BlocksPartition(rest);
      assert Blocks(s)[1..] == Blocks(rest);
      assert s[..DECODE_CHUNK] + (Flat(Blocks(rest)) + Remainder(rest)) ==
             (s[..DECODE_CHUNK] + Flat(Blocks(rest))) + Remainder(rest);
      assert s[..DECODE_CHUNK] + rest == s;
    }
  }

  /** Feeding more samples only looks at what the earlier ones left over. */
  lemma {:induction false} BlocksAppend(s: seq<Sample>, more: seq<Sample>)
    ensures Blocks(s + more) == Blocks(s) + Blocks(Remainder(s) + more)
    ensures Remainder(s + more) == Remainder(Remainder(s) + more)
    decreases |s|
  {
    if |s| >= DECODE_CHUNK {
      var rest := s[DECODE_CHUNK..];
      BlocksAppend(rest, more);
      assert (s + more)[..DECODE_CHUNK] == s[..DECODE_CHUNK];
      assert (s + more)[DECODE_CHUNK..] == rest + more;
      assert [s[..DECODE_CHUNK]] + (Blocks(rest) + Blocks(Remainder(rest) + more)) ==
             ([s[..DECODE_CHUNK]] + Blocks(rest)) + Blocks(Remainder(rest) + more);
    }
  }

  /** The stream as finish completes it: padded with silence to full blocks. */
  function Padded(s: seq<Sample>): seq<Sample> {
    s + Silence((-|Remainder(s)|) % DECODE_CHUNK)
  }

  /** Everything decoded by the end of a session that received `s`. */
  function FinalBlocks(s: seq<Sample>): seq<seq<Sample>> {
    Blocks(Padded(s)) + [Silence(DECODE_CHUNK), Silence(DECODE_CHUNK)]
  }

  function CeilDiv(n: nat, d: nat): nat
    requires d > 0
  {
    (n + d - 1) / d
  }

  lemma PaddedRemainder(s: seq<Sample>)
    ensures Remainder(Padded(s)) == []
  {
    var r := Remainder(s);
    var pad := Silence((-|r|) % DECODE_CHUNK);
    BlocksAppend(s, pad);
    BlocksPartition(s);
    if r == [] {
      assert r + pad == [];
    } else {
      assert |r + pad| == DECODE_CHUNK;
    }
  }

  lemma PaddingCompletes(s: seq<Sample>)
    ensures Remainder(Padded(s)) == []
    ensures |Blocks(Padded(s))| == CeilDiv(|s|, DECODE_CHUNK)
    ensures |FinalBlocks(s)| == CeilDiv(|s|, DECODE_CHUNK) + TAIL_CHUNKS
  {
    PaddedRemainder(s);
    BlocksPartition(s);
    BlocksPartition(Padded(s));
  }

  /** The duration of n samples in thousandths of a second, rounded to the nearest one and
      to the even one of two. */
  function Millis(n: nat, rate: nat): int
    requires rate > 0
  {
    RoundHalfEven(1000 * n / rate, 1000 * n % rate, rate)
  }

  function RoundHalfEven(quotient: int, remainder: int, divisor: int): int {
    if 2 * remainder < divisor || (2 * remainder == divisor && quotient % 2 == 0) then quotient else quotient + 1
  }

  lemma RoundNearest(q: int, r: int, d: int)
    requires 0 <= r < d
    ensures var m := RoundHalfEven(q, r, d); -d <= 2 * (m * d - (q * d + r)) <= d && (2 * r == d ==> m % 2 == 0)
  {
    assert (q + 1) * d == q * d + d;
  }

  /** It is off by half a thousandth at most, and then even. */
  lemma MillisNearest(n: nat, rate: nat)
    requires rate > 0
    ensures 2 * (1000 * n - Millis(n, rate) * rate) <= rate && 2 * (Millis(n, rate) * rate - 1000 * n) <= rate
    ensures 2 * (1000 * n % rate) == rate ==> Millis(n, rate) % 2 == 0
  {
    var q, r := 1000 * n / rate, 1000 * n % rate;
    assert q * rate + r == 1000 * n;
    RoundNearest(q, r, rate);
  }

  lemma {:induction false} FlatAppend(a: seq<seq<Sample>>, b: seq<seq<Sample>>)
    ensures Flat(a + b) == Flat(a) + Flat(b)
  {
    if a == [] {
      assert a + b == b;
    } else {
      assert (a + b)[1..] == a[1..] + b;
      FlatAppend(a[1..], b);
      assert a[0] + (Flat(a[1..]) + Flat(b)) == (a[0] + Flat(a[1..])) + Flat(b);
    }
  }

  lemma FlatOfTwo(a: seq<Sample>, b: seq<Sample>)
    ensures Flat([a, b]) == a + b
  {
    assert [a, b][1..] == [b] && [b][1..] == [];
    assert Flat([b]) == b + [] == b;
  }

  predicate Silent(s: seq<Sample>) {
    forall k | 0 <= k < |s| :: s[k] == 0.0
  }

  /** What a session decodes in all are full blocks that make up its samples and then silence,
      at least two blocks and less than three of it. */
  lemma FinalBlocksAreStream(s: seq<Sample>) returns (tail: seq<Sample>)
    ensures Flat(FinalBlocks(s)) == s + tail && Silent(tail) && 2 * 6400 <= |tail| < 3 * 6400
    ensures forall k | 0 <= k < |FinalBlocks(s)| :: |FinalBlocks(s)[k]| == 6400
  {
    var pad := Silence((-|Remainder(s)|) % DECODE_CHUNK);
    var more := [Silence(DECODE_CHUNK), Silence(DECODE_CHUNK)];
    PaddedRemainder(s);
    BlocksPartition(Padded(s));
    assert Flat(Blocks(Padded(s))) == s + pad;
    FlatAppend(Blocks(Padded(s)), more);
    FlatOfTwo(Silence(DECODE_CHUNK), Silence(DECODE_CHUNK));
    tail := pad + Flat(more);
    assert s + tail == s + pad + Flat(more);
  }

  // ----- the session object -----

  datatype Reply = Gone | Closed | Heard(text: string, bytes: nat, millis: int) | Final(text: string)

  class Session {
    const rate: nat
    /** What the recogniser makes of the blocks fed so far, and whether input has ended. */
    const recognise: (seq<seq<Sample>>, bool) -> string
    var pending: seq<Sample>
    var text: string
    var finished: bool
    var reaped: bool
    var bytesReceived: nat
    var totalSamples: nat
    var decodes: nat
    var lastUsed: int
    ghost var received: seq<Sample>  // everything accepted
    var fed: seq<seq<Sample>>        // the recogniser stream: everything decoded

    ghost predicate Valid()
      reads this
    {
      && rate > 0
      && totalSamples == |received|
      && decodes == |fed|
      && (!finished ==> pending == Remainder(received) && fed == Blocks(received))
      && (finished ==> pending == [] && fed == FinalBlocks(received) && text == recognise(fed, true))
    }

    constructor (rate: nat, recognise: (seq<seq<Sample>>, bool) -> string, now: int)
      requires rate > 0
      ensures Valid() && !finished && !reaped && received == [] && fed == [] && text == ""
      ensures bytesReceived == 0 && lastUsed == now && this.rate == rate && this.recognise == recognise
    {
      this.rate := rate;
      this.recognise := recognise;
      pending, text, finished, reaped := [], "", false, false;
      bytesReceived, totalSamples, decodes, lastUsed := 0, 0, 0, now;
      received, fed := [], [];
    }

    /** Decodes one block. */
    method Decode(block: seq<Sample>)
      modifies this`decodes, this`fed
      ensures decodes == old(decodes) + 1 && fed == old(fed) + [block]
    {
      decodes := decodes + 1;
      fed := fed + [block];
    }

    /** Decodes the full blocks of the buffer. */
    method Drain(n: nat)
      requires n == |pending|
      modifies this`pending, this`text, this`decodes, this`fed
      ensures pending == Remainder(old(pending))
      ensures fed == old(fed) + Blocks(old(pending)) && decodes == old(decodes) + |Blocks(old(pending))|
      ensures text == recognise(fed, false)
    {
      var i := 0;
      while i < n / DECODE_CHUNK
        invariant 0 <= i <= n / DECODE_CHUNK
        invariant |pending| == n - i * DECODE_CHUNK
        invariant fed + Blocks(pending) == old(fed) + Blocks(old(pending))
        invariant decodes + |Blocks(pending)| == old(decodes) + |Blocks(old(pending))|
        invariant Remainder(pending) == Remainder(old(pending))
      {
        var batch := pending[..DECODE_CHUNK];
        ghost var before := fed;
        assert before + ([batch] + Blocks(pending[DECODE_CHUNK..])) ==
               (before + [batch]) + Blocks(pending[DECODE_CHUNK..]);
        pending := pending[DECODE_CHUNK..];
        Decode(batch);
        i := i + 1;
      }
      text := recognise(fed, false);
    }

    /** Buffers a chunk of any size and decodes what has become full. */
    method Accept(samples: seq<Sample>, nbytes: nat, now: int) returns (r: Reply)
      requires Valid()
      modifies this
      ensures Valid() && finished == old(finished) && reaped == old(reaped)
      ensures old(reaped) ==> r == Gone && unchanged(this)
      ensures !old(reaped) && old(finished) ==> r == Closed && unchanged(this)
      ensures !old(reaped) && !old(finished) ==>
                received == old(received) + samples && text == recognise(fed, false) &&
                    r == Heard(text, bytesReceived, Millis(totalSamples, rate)) &&
                bytesReceived == old(bytesReceived) + nbytes && lastUsed == now
    {
      if reaped {
        return Gone;
      }
      if finished {
        return Closed;
      }
      lastUsed := now;
      bytesReceived := bytesReceived + nbytes;
      totalSamples := totalSamples + |samples|;
      BlocksAppend(received, samples);
      received := received + samples;
      pending := pending + samples;
      Drain(|pending|);
      r := Heard(text, bytesReceived, Millis(totalSamples, rate));
    }

    /** Fills the last block with silence and decodes it. */
    method PadOut()
      requires pending == Remainder(received) && fed == Blocks(received) && decodes == |fed|
      modifies this`pending, this`text, this`decodes, this`fed
      ensures pending == [] && fed == Blocks(Padded(received)) && decodes == |fed|
    {
      PaddingCompletes(received);
      var pad := (-|pending|) % DECODE_CHUNK;
      BlocksAppend(received, Silence(pad));
      if pad > 0 {
        pending := pending + Silence(pad);
        Drain(|pending|);
      } else {
        assert received + Silence(pad) == received;
      }
    }

    /** Decodes TAIL_CHUNKS blocks of silence. */
    method FlushTail()
      modifies this`decodes, this`fed
      ensures fed == old(fed) + seq(TAIL_CHUNKS, _ => Silence(DECODE_CHUNK))
      ensures decodes == old(decodes) + TAIL_CHUNKS
    {
      var i := 0;
      while i < TAIL_CHUNKS
        invariant 0 <= i <= TAIL_CHUNKS
        invariant fed == old(fed) + seq(i, _ => Silence(DECODE_CHUNK))
        invariant decodes == old(decodes) + i
      {
        Decode(Silence(DECODE_CHUNK));
        i := i + 1;
      }
    }

    /** Pads the buffer, flushes the encoder with TAIL_CHUNKS blocks of silence, and reports
        the final text; a second call only reports it again. */
    method Finish(now: int) returns (r: Reply)
      requires Valid()
      modifies this
      ensures Valid() && received == old(received) && reaped == old(reaped) && bytesReceived == old(bytesReceived)
      ensures old(reaped) ==> r == Gone && unchanged(this)
      ensures !old(reaped) ==> finished && r == Final(text) && text == recognise(FinalBlocks(received), true)
      ensures !old(reaped) ==> decodes == CeilDiv(|received|, DECODE_CHUNK) + TAIL_CHUNKS
      ensures old(finished) ==> unchanged(this)
      ensures !old(reaped) && !old(finished) ==> lastUsed == now
    {
      PaddingCompletes(received);
      if reaped {
        return Gone;
      }
      if !finished {
        finished := true;
        lastUsed := now;
        PadOut();
        FlushTail();
        text := recognise(fed, true);
      }
      r := Final(text);
    }
  }

  // ----- chunking does not matter -----

  function Concat(chunks: seq<seq<Sample>>): seq<Sample> {
    if chunks == [] then [] else Concat(chunks[..|chunks| - 1]) + chunks[|chunks| - 1]
  }

  /** The blocks decoded as the chunks come in, each on top of what the last one left. */
  function FedBy(chunks: seq<seq<Sample>>): seq<seq<Sample>> {
    if chunks == [] then []
    else
      var front := chunks[..|chunks| - 1];
      FedBy(front) + Blocks(LeftBy(front) + chunks[|chunks| - 1])
  }

  function LeftBy(chunks: seq<seq<Sample>>): seq<Sample> {
    if chunks == [] then []
    else Remainder(LeftBy(chunks[..|chunks| - 1]) + chunks[|chunks| - 1])
  }

  /** However the samples are split into chunks, the blocks decoded and the samples left
      over are those of the whole stream. */
  lemma {:induction false} ChunkingIrrelevant(chunks: seq<seq<Sample>>)
    ensures FedBy(chunks) == Blocks(Concat(chunks))
    ensures LeftBy(chunks) == Remainder(Concat(chunks))
  {
    if chunks != [] {
      var front := chunks[..|chunks| - 1];
      ChunkingIrrelevant(front);
      BlocksAppend(Concat(front), chunks[|chunks| - 1]);
    }
  }

  // ----- the engine -----

  type Sid = nat

  class Engine {
    const maxSessions: nat
    const idleTimeout: int
    const rate: nat
    const recognise: (seq<seq<Sample>>, bool) -> string
    var sessions: map<Sid, Session>

    /** At most maxSessions sessions, all of them live, no object under two ids. */
    ghost predicate Valid()
      reads this, sessions.Values
    {
      && rate > 0 && |sessions| <= maxSessions
      && (forall sid | sid in sessions :: !sessions[sid].reaped)
      && (forall a, b | a in sessions && b in sessions && a != b :: sessions[a] != sessions[b])
    }

    constructor (maxSessions: nat, idleTimeout: int, rate: nat, recognise: (seq<seq<Sample>>, bool) -> string)
      requires rate > 0
      ensures Valid() && sessions == map[] && this.maxSessions == maxSessions && this.idleTimeout == idleTimeout
    {
      this.maxSessions, this.idleTimeout, this.rate, this.recognise := maxSessions, idleTimeout, rate, recognise;
      sessions := map[];
    }

    /** Tries the generated ids in turn; gives up at the session limit or when all collide. */
    method Create(ids: seq<Sid>, now: int) returns (sid: Option<Sid>)
      requires Valid() && |ids| == 8
      modifies this
      ensures Valid()
      ensures sid.Some? ==> sid.value in ids && sid.value !in old(sessions) && sid.value in sessions
      ensures sid.Some? ==> fresh(sessions[sid.value]) && sessions[sid.value].Valid()
      ensures sid.Some? ==> var session := sessions[sid.value];
              session.received == [] && !session.finished && session.lastUsed == now
      ensures sid.Some? ==> sessions == old(sessions)[sid.value := sessions[sid.value]]
      ensures sid.None? ==> sessions == old(sessions)
      ensures sid.None? ==> |sessions| >= maxSessions || forall k | 0 <= k < 8 :: ids[k] in sessions
      ensures |old(sessions)| < maxSessions && ids[0] !in old(sessions) ==> sid == Some(ids[0])
    {
      var i := 0;
      while i < 8
        invariant 0 <= i <= 8 && sessions == old(sessions)
        invariant forall k | 0 <= k < i :: ids[k] in sessions
      {
        if |sessions| >= maxSessions {
          return None;
        }
        if ids[i] !in sessions {
          var session := new Session(rate, recognise, now);
          sessions := sessions[ids[i] := session];
          return Some(ids[i]);
        }
        i := i + 1;
      }
      return None;
    }

    /** Takes a session out of the map and marks it, so that late chunks are refused. */
    method Delete(sid: Sid) returns (hit: bool)
      requires Valid()
      modifies this`sessions, sessions.Values`reaped
      ensures Valid() && hit == (sid in old(sessions)) && sessions == old(sessions) - {sid}
      ensures hit ==> old(sessions)[sid].reaped
      ensures forall other | other in sessions :: sessions[other].reaped == old(sessions[other].reaped)
    {
      hit := sid in sessions;
      if hit {
        var session := sessions[sid];
        sessions := sessions - {sid};
        session.reaped := true;
      }
    }

    predicate Stale(session: Session, now: int)
      reads session
    {
      session.finished || now - session.lastUsed > idleTimeout
    }

    /** One sweep: the finished and the idle sessions go, and are marked; the others stay. */
    method Sweep(now: int)
      requires Valid()
      modifies this`sessions, sessions.Values`reaped
      ensures Valid()
      ensures forall sid :: sid in sessions <==> sid in old(sessions) && !old(Stale(sessions[sid], now))
      ensures forall sid | sid in sessions :: sessions[sid] == old(sessions)[sid]
      ensures forall sid | sid in old(sessions) :: old(sessions)[sid].reaped == old(Stale(sessions[sid], now))
      ensures forall sid | sid in old(sessions) :: sid !in sessions <==>
                old(sessions[sid].finished) || old(sessions[sid].lastUsed) < now - idleTimeout
    {
      var stale := set sid | sid in sessions && Stale(sessions[sid], now);
      forall sid | sid in stale {
        sessions[sid].reaped := true;
      }
      sessions := sessions - stale;
      Fewer(sessions.Keys, old(sessions).Keys);
    }
  }

  lemma Fewer(a: set<Sid>, b: set<Sid>)
    requires a <= b
    ensures |a| <= |b|
  {
    assert b == a + (b - a);
  }
}
